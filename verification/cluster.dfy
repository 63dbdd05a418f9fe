/** Antenna clusters: connected sets of distinct antennas of fixed size,
    grown by a random walk over the antenna network. The random choices are
    inputs: `draws` lists, in order, the antennas the generator picks, and
    `order` the shuffled output. A draw the generator could not have made is
    an `InvalidDraw`; a walk that needs more draws than supplied ends in
    `DrawsExhausted` (the program would keep looping). */
module Cluster {
  import opened Common

  /** The loop state of `gen_cluster`: the antenna just added, the antennas
      visited so far (in the order they were added) and the pending choices. */
  datatype Walk = Walk(current: nat, visited: seq<nat>, choices: set<nat>)

  /** `c` is a network neighbour of one of `vis`. */
  ghost predicate Reached(ana: map<nat, set<nat>>, vis: seq<nat>, c: nat)
  {
    exists j :: 0 <= j < |vis| && vis[j] in ana && c in ana[vis[j]]
  }

  /** Every antenna after the first neighbours an antenna added before it. */
  ghost predicate Connected(ana: map<nat, set<nat>>, vis: seq<nat>)
  {
    forall i :: 0 < i < |vis| ==> Reached(ana, vis[..i], vis[i])
  }

  /** What holds of the walk at the top of every iteration. */
  ghost predicate WalkInv(ana: map<nat, set<nat>>, w: Walk)
  {
    && |w.visited| > 0
    && w.current == w.visited[|w.visited| - 1]
    && Distinct(w.visited)
    && Connected(ana, w.visited)
    && (forall c :: c in w.choices ==> Reached(ana, w.visited, c))
  }

  lemma ReachedGrows(ana: map<nat, set<nat>>, vis: seq<nat>, more: seq<nat>, c: nat)
    requires Reached(ana, vis, c)
    ensures Reached(ana, vis + more, c)
  {
    var j :| 0 <= j < |vis| && vis[j] in ana && c in ana[vis[j]];
    assert (vis + more)[j] == vis[j];
  }

  /** Adding a neighbour of the walk keeps it a connected walk. */
  lemma ExtendWalk(ana: map<nat, set<nat>>, w: Walk, d: nat, ch: set<nat>)
    requires WalkInv(ana, w) && w.current in ana
    requires d !in w.visited
    requires forall c :: c in ch ==> c in w.choices || c in ana[w.current]
    requires d in ch
    ensures WalkInv(ana, Walk(d, w.visited + [d], ch))
  {
    var vis := w.visited;
    var vis' := vis + [d];
    assert Reached(ana, vis, d) by {
      if d !in w.choices {
        assert vis[|vis| - 1] in ana && d in ana[vis[|vis| - 1]];
      }
    }
    forall i | 0 < i < |vis'| ensures Reached(ana, vis'[..i], vis'[i])
    {
      if i < |vis| {
        assert vis'[..i] == vis[..i];
      } else {
        assert vis'[..i] == vis;
      }
    }
    forall c | c in ch ensures Reached(ana, vis', c)
    {
      if c in w.choices {
        ReachedGrows(ana, vis, [d], c);
      } else {
        assert vis[|vis| - 1] in ana && c in ana[vis[|vis| - 1]];
        ReachedGrows(ana, vis, [d], c);
      }
    }
  }

  /** A restart at key `c` followed by a step to `d`, a neighbour of `c`. */
  lemma RestartWalk(ana: map<nat, set<nat>>, c: nat, d: nat)
    requires c in ana && d in ana[c] && d != c
    ensures WalkInv(ana, Walk(d, [c, d], ana[c] - {c}))
  {
    var vis := [c, d];
    assert vis[..1] == [c] && vis[..1][0] == c;
    assert Reached(ana, vis[..1], vis[1]);
    forall x | x in ana[c] - {c} ensures Reached(ana, vis, x)
    {
      assert vis[0] in ana && x in ana[vis[0]];
    }
  }

  /** The `while` loop of `gen_cluster`, one iteration per call. */
  function GrowCluster(size: nat, ana: map<nat, set<nat>>, w: Walk, draws: seq<nat>): (r: Result<seq<nat>>)
    requires WalkInv(ana, w)
    ensures r.Ok? ==> |r.value| == size && Distinct(r.value) && Connected(ana, r.value)
    decreases |draws|
  {
    if |w.visited| == size then Ok(w.visited)
    else if w.current !in ana then Err(KeyMissing)
    else
      var seen := set v | v in w.visited;
      var choices := (w.choices + ana[w.current]) - seen;
      if choices == {} then
        // restart from a random key of the network
        if |draws| == 0 then Err(DrawsExhausted)
        else if draws[0] !in ana then Err(InvalidDraw)
        else
          var c := draws[0];
          var ch := ana[c] - {c};
          if ch == {} then Err(EmptyPopulation)
          else if |draws| == 1 then Err(DrawsExhausted)
          else if draws[1] !in ch then Err(InvalidDraw)
          else
            RestartWalk(ana, c, draws[1]);
            GrowCluster(size, ana, Walk(draws[1], [c, draws[1]], ch), draws[2..])
      else if |draws| == 0 then Err(DrawsExhausted)
      else if draws[0] !in choices then Err(InvalidDraw)
      else
        ExtendWalk(ana, w, draws[0], choices);
        GrowCluster(size, ana, Walk(draws[0], w.visited + [draws[0]], choices), draws[1..])
  }

  /** The output of `gen_cluster` is the visited set in shuffled order: some
      ordering of its antennas is a connected walk. */
  ghost predicate IsCluster(ana: map<nat, set<nat>>, size: nat, s: seq<nat>)
  {
    && |s| == size
    && Distinct(s)
    && exists vis: seq<nat> :: multiset(vis) == multiset(s) && Connected(ana, vis)
  }

  /** `gen_cluster`: `draws[0]` is the start key, the rest feed the walk,
      and `order` is the shuffled cluster. An empty network raises, as
      `random.sample` does on an empty population. */
  function GenCluster(size: nat, ana: map<nat, set<nat>>, draws: seq<nat>, order: seq<nat>): (r: Result<seq<nat>>)
    ensures r.Ok? ==> IsCluster(ana, size, r.value) && r.value == order
    ensures |ana| == 0 ==> r == Err(EmptyPopulation)
  {
    if |ana| == 0 then Err(EmptyPopulation)
    else if |draws| == 0 then Err(DrawsExhausted)
    else if draws[0] !in ana then Err(InvalidDraw)
    else
      var start := draws[0];
      match GrowCluster(size, ana, Walk(start, [start], {}), draws[1..])
      case Err(e) => Err(e)
      case Ok(vis) =>
        if multiset(order) != multiset(vis) then Err(InvalidDraw)
        else
          DistinctMultiset(vis);
          DistinctMultiset(order);
          assert |order| == |multiset(order)| == |multiset(vis)| == |vis|;
          assert multiset(vis) == multiset(order) && Connected(ana, vis);
          Ok(order)
  }

  /** Every neighbour of the walk that is not yet visited is pending. */
  ghost predicate Pending(ana: map<nat, set<nat>>, vis: seq<nat>, ch: set<nat>)
  {
    forall c :: Reached(ana, vis, c) && c !in vis ==> c in ch
  }

  /** One step of a reproduced walk: the next antenna is pending, and the
      new choices again hold every unvisited neighbour. */
  lemma StepPending(ana: map<nat, set<nat>>, vis: seq<nat>, k: nat, ch: set<nat>)
    requires 0 < k < |vis|
    requires Distinct(vis) && Connected(ana, vis)
    requires vis[k - 1] in ana
    requires Pending(ana, vis[..k - 1], ch)
    ensures vis[k] in (ch + ana[vis[k - 1]]) - (set v | v in vis[..k])
    ensures Pending(ana, vis[..k], (ch + ana[vis[k - 1]]) - (set v | v in vis[..k]))
  {
    var choices := (ch + ana[vis[k - 1]]) - (set v | v in vis[..k]);
    var d := vis[k];
    assert d !in vis[..k];
    assert Reached(ana, vis[..k], d);
    forall c | Reached(ana, vis[..k], c) && c !in vis[..k] ensures c in choices
    {
      var j :| 0 <= j < k && vis[..k][j] in ana && c in ana[vis[..k][j]];
      if j < k - 1 {
        assert vis[..k - 1][j] == vis[..k][j];
        assert Reached(ana, vis[..k - 1], c);
        assert vis[..k - 1] <= vis[..k];
      }
    }
  }

  lemma PrefixSnoc(s: seq<nat>, k: nat)
    requires k < |s|
    ensures s[..k] + [s[k]] == s[..k + 1]
    ensures s[k..][0] == s[k] && s[k..][1..] == s[k + 1..]
  {
  }

  /** Completeness: every connected walk of distinct antennas whose antennas
      before the last are keys is produced by drawing its antennas in order,
      with no restart. */
  lemma {:induction false} WalkReproduced(size: nat, ana: map<nat, set<nat>>, vis: seq<nat>, k: nat, ch: set<nat>)
    requires |vis| == size && 0 < k <= size
    requires Distinct(vis) && Connected(ana, vis)
    requires forall i :: 0 <= i < size - 1 ==> vis[i] in ana
    requires WalkInv(ana, Walk(vis[k - 1], vis[..k], ch))
    requires Pending(ana, vis[..k - 1], ch)
    ensures GrowCluster(size, ana, Walk(vis[k - 1], vis[..k], ch), vis[k..]) == Ok(vis)
    decreases size - k
  {
    var w := Walk(vis[k - 1], vis[..k], ch);
    if k == size {
      assert vis[..k] == vis;
    } else {
      var choices := (ch + ana[vis[k - 1]]) - (set v | v in vis[..k]);
      StepPending(ana, vis, k, ch);
      PrefixSnoc(vis, k);
      GrowStep(size, ana, w, vis[k..]);
      WalkReproduced(size, ana, vis, k + 1, choices);
    }
  }

  /** One iteration without a restart: a pending draw extends the walk. */
  lemma GrowStep(size: nat, ana: map<nat, set<nat>>, w: Walk, draws: seq<nat>)
    requires WalkInv(ana, w) && |w.visited| < size && w.current in ana && |draws| > 0
    requires draws[0] in (w.choices + ana[w.current]) - (set v | v in w.visited)
    ensures var choices := (w.choices + ana[w.current]) - (set v | v in w.visited);
            && WalkInv(ana, Walk(draws[0], w.visited + [draws[0]], choices))
            && GrowCluster(size, ana, w, draws)
               == GrowCluster(size, ana, Walk(draws[0], w.visited + [draws[0]], choices), draws[1..])
  {
    ExtendWalk(ana, w, draws[0], (w.choices + ana[w.current]) - (set v | v in w.visited));
  }

  /** Completeness of `gen_cluster`: every connected walk of `size`
      distinct antennas that keeps to network keys until its last antenna
      is an output, drawn in walk order and left unshuffled. (Soundness,
      that every output is the shuffle of such a walk, is the contract of
      `GenCluster` itself.) */
  lemma ClusterReachable(size: nat, ana: map<nat, set<nat>>, vis: seq<nat>)
    requires |vis| == size && size > 0
    requires Distinct(vis) && Connected(ana, vis)
    requires vis[0] in ana && forall i :: 0 <= i < size - 1 ==> vis[i] in ana
    ensures GenCluster(size, ana, vis, vis) == Ok(vis)
  {
    var start := vis[0];
    assert [start] == vis[..1];
    assert Connected(ana, [start]);
    assert vis[1..] == vis[1..];
    WalkReproduced(size, ana, vis, 1, {});
    assert vis[..0] == [];
  }

  /** The loop of `create_cluster_array` over users `0..k-1`: row `u` is
      `gen_cluster` run on user `u`'s own draw stream and shuffle. */
  function ClusterRows(k: nat, size: nat, ana: map<nat, set<nat>>,
                       draws: seq<seq<nat>>, orders: seq<seq<nat>>): (r: Result<seq<seq<nat>>>)
    ensures r.Ok? <==> |draws| >= k && |orders| >= k &&
                       forall u :: 0 <= u < k ==> GenCluster(size, ana, draws[u], orders[u]).Ok?
    ensures r.Ok? ==> |r.value| == k &&
                      forall u :: 0 <= u < k ==> r.value[u] == GenCluster(size, ana, draws[u], orders[u]).value
  {
    if k == 0 then Ok([])
    else if |draws| < k || |orders| < k then Err(DrawsExhausted)
    else
      match ClusterRows(k - 1, size, ana, draws, orders)
      case Err(e) => Err(e)
      case Ok(rows) =>
        match GenCluster(size, ana, draws[k - 1], orders[k - 1])
        case Err(e) => Err(e)
        case Ok(c) => Ok(rows + [c])
  }

  /** `create_cluster_array`: an `nusers` by `size` array, so a negative
      dimension raises; then one `gen_cluster` result per user, each from
      its own draw stream and shuffle. */
  function CreateClusterArray(nusers: int, size: int, ana: map<nat, set<nat>>,
                              draws: seq<seq<nat>>, orders: seq<seq<nat>>): (r: Result<seq<seq<nat>>>)
    ensures nusers < 0 || size < 0 ==> r == Err(NegativeDimension)
    ensures r.Ok? <==> && nusers >= 0 && size >= 0 && |draws| >= nusers && |orders| >= nusers
                       && forall u :: 0 <= u < nusers ==> GenCluster(size, ana, draws[u], orders[u]).Ok?
    ensures r.Ok? ==> && nusers >= 0 && size >= 0 && |r.value| == nusers
                      && forall u :: 0 <= u < nusers ==> r.value[u] == GenCluster(size, ana, draws[u], orders[u]).value
    ensures r.Ok? ==> forall u :: 0 <= u < |r.value| ==> IsCluster(ana, size, r.value[u]) && r.value[u] == orders[u]
    ensures nusers > 0 && |ana| == 0 ==> r.Err?
  {
    if nusers < 0 || size < 0 then Err(NegativeDimension)
    else
      var r := ClusterRows(nusers, size, ana, draws, orders);
      assert nusers > 0 && r.Ok? ==> GenCluster(size, ana, draws[0], orders[0]).Ok?;
      r
  }
}

/** Sampling from a payload. `get_sample` copies the segments of chosen
    users into a payload of its own; `get_random_points` draws, from every
    sampled user, `cp` of its points for each `cp` in `pl`, and lays them
    out transposed: one column per user, one row per space-time point. The
    random choices are inputs: `pop` lists the chosen users and
    `draws[uid][j]` the positions, within user `uid`'s segment, of the
    points drawn for `pl[j]`. */
module Sampling {
  import opened Common
  import opened Payloads
  import opened Sparse

  /** `np.random.choice(np.arange(n), size=size, replace=False)`. */
  predicate PopDrawn(pop: seq<nat>, size: nat, n: nat)
  {
    && |pop| == size
    && Distinct(pop)
    && forall s :: 0 <= s < |pop| ==> pop[s] < n
  }

  /** `get_sample`: sample row `s` is user `pop[s]`'s segment, located
      through the running activity totals, with row index `s`. Sampling
      more users than exist without replacement raises. */
  function GetSample(p: Payload, size: nat, pop: seq<nat>): (r: Result<Payload>)
    requires WellFormed(p)
    ensures size > p.nrows ==> r == Err(SampleTooLarge)
    ensures r.Ok? <==> size <= p.nrows && PopDrawn(pop, size, p.nrows)
    ensures r.Ok? ==> WellFormed(r.value) && r.value.nrows == size && r.value.ncols == p.ncols
    ensures r.Ok? ==> forall s :: 0 <= s < size ==> r.value.acts[s] == p.acts[pop[s]]
  {
    if size > p.nrows then Err(SampleTooLarge)
    else if !PopDrawn(pop, size, p.nrows) then
      Err(InvalidDraw)
    else
      var segs := seq(size, s requires 0 <= s < size => UserCols(p, pop[s]));
      Ok(FromSegments(segs, p.ncols))
  }

  /** Sample row `s` holds exactly the columns of user `pop[s]`. */
  lemma SampleRow(p: Payload, size: nat, pop: seq<nat>, s: nat)
    requires WellFormed(p) && GetSample(p, size, pop).Ok? && s < size
    ensures pop[s] < p.nrows
    ensures UserCols(GetSample(p, size, pop).value, s) == UserCols(p, pop[s])
  {
    var segs := seq(size, s requires 0 <= s < size => UserCols(p, pop[s]));
    UserColsOfSegments(segs, p.ncols, s);
  }

  /** A sample of an in-bounds payload is in bounds. */
  lemma SampleInBounds(p: Payload, size: nat, pop: seq<nat>)
    requires WellFormed(p) && InBounds(p) && GetSample(p, size, pop).Ok?
    ensures InBounds(GetSample(p, size, pop).value)
  {
    var segs := seq(size, s requires 0 <= s < size => UserCols(p, pop[s]));
    InBoundsSegments(segs, p.ncols);
  }

  /** Drawing every user in order reproduces the payload. */
  lemma SampleEveryone(p: Payload)
    requires WellFormed(p)
    ensures GetSample(p, p.nrows, seq(p.nrows, u requires 0 <= u < p.nrows => u)) == Ok(p)
  {
    var pop := seq(p.nrows, u requires 0 <= u < p.nrows => u);
    assert PopDrawn(pop, p.nrows, p.nrows);
    var q := GetSample(p, p.nrows, pop).value;
    assert Segs(q) == Segs(p) by {
      forall s | 0 <= s < p.nrows ensures Segs(q)[s] == Segs(p)[s]
      {
        SampleRow(p, p.nrows, pop, s);
        PiecesAt(p.cols, p.acts, s);
        PiecesAt(q.cols, q.acts, s);
      }
    }
    SegmentsRoundTrip(p);
    SegmentsRoundTrip(q);
  }

  /** `np.random.choice(segment, size=cp, replace=False)` as `cp` distinct
      positions in a segment of `a` entries. */
  predicate PositionsDrawn(pos: seq<nat>, cp: nat, a: nat)
  {
    && |pos| == cp
    && Distinct(pos)
    && forall i :: 0 <= i < |pos| ==> pos[i] < a
  }

  /** Every draw of user `uid`, one per entry of `pl`, is possible. */
  predicate ProbeDrawn(q: Payload, pl: seq<nat>, draws: seq<seq<seq<nat>>>, uid: nat)
    requires WellFormed(q) && uid < q.nrows
  {
    && uid < |draws|
    && forall j :: 0 <= j < |pl| ==>
         pl[j] <= q.acts[uid] && j < |draws[uid]| && PositionsDrawn(draws[uid][j], pl[j], q.acts[uid])
  }

  /** The draws of one user, over `pl[..j]` in order: more points than the
      segment holds raise; a missing draw ends the supply. */
  function UserDrawsCheck(a: nat, pl: seq<nat>, ds: seq<seq<nat>>, j: nat): (r: Result<()>)
    requires j <= |pl|
    ensures r.Ok? <==> forall i :: 0 <= i < j ==> pl[i] <= a && i < |ds| && PositionsDrawn(ds[i], pl[i], a)
  {
    if j == 0 then Ok(())
    else
      match UserDrawsCheck(a, pl, ds, j - 1)
      case Err(e) => Err(e)
      case Ok(_) =>
        var cp := pl[j - 1];
        if cp > a then Err(SampleTooLarge)
        else if j - 1 >= |ds| then Err(DrawsExhausted)
        else if !PositionsDrawn(ds[j - 1], cp, a) then Err(InvalidDraw)
        else Ok(())
  }

  /** The user loop of `get_random_points` over users `0..n-1`. */
  function DrawsCheck(q: Payload, pl: seq<nat>, draws: seq<seq<seq<nat>>>, n: nat): (r: Result<()>)
    requires WellFormed(q) && n <= q.nrows
    ensures r.Ok? <==> forall uid :: 0 <= uid < n ==> ProbeDrawn(q, pl, draws, uid)
  {
    if n == 0 then Ok(())
    else
      var uid := n - 1;
      match DrawsCheck(q, pl, draws, uid)
      case Err(e) => Err(e)
      case Ok(_) =>
        if uid >= |draws| then
          assert !ProbeDrawn(q, pl, draws, uid);
          Err(DrawsExhausted)
        else
          var c := UserDrawsCheck(q.acts[uid], pl, draws[uid], |pl|);
          assert c.Ok? <==> ProbeDrawn(q, pl, draws, uid);
          c
  }

  /** The probe points for `pl[j]`: user `uid`'s segment read at the drawn
      positions. */
  function ProbeSegs(q: Payload, pl: seq<nat>, draws: seq<seq<seq<nat>>>, j: nat): (r: seq<seq<nat>>)
    requires WellFormed(q) && j < |pl|
    requires forall uid :: 0 <= uid < q.nrows ==> ProbeDrawn(q, pl, draws, uid)
    ensures |r| == q.nrows
    ensures forall uid :: 0 <= uid < q.nrows ==> |r[uid]| == pl[j]
  {
    seq(q.nrows, uid requires 0 <= uid < q.nrows =>
      assert ProbeDrawn(q, pl, draws, uid);
      seq(pl[j], i requires 0 <= i < pl[j] => UserCols(q, uid)[draws[uid][j][i]]))
  }

  /** The probe of user `uid` consists of `cp` of its own points, all
      different when its points are. */
  lemma ProbePoints(q: Payload, pl: seq<nat>, draws: seq<seq<seq<nat>>>, j: nat, uid: nat)
    requires WellFormed(q) && j < |pl| && uid < q.nrows
    requires forall v :: 0 <= v < q.nrows ==> ProbeDrawn(q, pl, draws, v)
    ensures |ProbeSegs(q, pl, draws, j)[uid]| == pl[j] <= q.acts[uid]
    ensures forall x :: x in ProbeSegs(q, pl, draws, j)[uid] ==> x in UserCols(q, uid)
    ensures Distinct(UserCols(q, uid)) ==> Distinct(ProbeSegs(q, pl, draws, j)[uid])
  {
    assert ProbeDrawn(q, pl, draws, uid);
    var seg := ProbeSegs(q, pl, draws, j)[uid];
    var pos := draws[uid][j];
    var c := UserCols(q, uid);
    assert forall i :: 0 <= i < |seg| ==> seg[i] == c[pos[i]];
    if Distinct(c) {
      forall i, k | 0 <= i < k < |seg| ensures seg[i] != seg[k]
      {
        assert pos[i] != pos[k];
      }
    }
  }

  /** `csr_matrix((ones, (points, uids)), shape=(p, n))` for `pl[j]`: the
      probe laid out like a payload, with the roles of rows and columns
      exchanged. */
  function ProbeMatrix(q: Payload, pl: seq<nat>, draws: seq<seq<seq<nat>>>, j: nat): (r: Result<Matrix>)
    requires WellFormed(q) && j < |pl|
    requires forall uid :: 0 <= uid < q.nrows ==> ProbeDrawn(q, pl, draws, uid)
    ensures r.Ok? ==> Valid(r.value) && r.value.nrows == q.ncols && r.value.ncols == q.nrows
  {
    var pr := FromSegments(ProbeSegs(q, pl, draws, j), q.ncols);
    Sparsify(Data(pr), pr.cols, Rows(pr), q.ncols, q.nrows)
  }

  /** For an in-bounds sample the probe matrix exists, and entry
      `(c, uid)` counts the probe points of `uid` equal to `c`. */
  lemma ProbeMatrixEntries(q: Payload, pl: seq<nat>, draws: seq<seq<seq<nat>>>, j: nat)
    requires WellFormed(q) && InBounds(q) && j < |pl|
    requires forall uid :: 0 <= uid < q.nrows ==> ProbeDrawn(q, pl, draws, uid)
    ensures ProbeMatrix(q, pl, draws, j).Ok?
    ensures var m := ProbeMatrix(q, pl, draws, j).value;
            forall c, uid :: 0 <= c < q.ncols && 0 <= uid < q.nrows ==>
              m.cells[c][uid] == multiset(ProbeSegs(q, pl, draws, j)[uid])[c]
  {
    var segs := ProbeSegs(q, pl, draws, j);
    var pr := FromSegments(segs, q.ncols);
    assert InBounds(pr) by {
      forall uid, x: nat | 0 <= uid < |segs| && x in segs[uid] ensures x < q.ncols
      {
        ProbePoints(q, pl, draws, j, uid);
        assert x in q.cols;
      }
      InBoundsSegments(segs, q.ncols);
    }
    LabelsBelow(pr.acts);
    var m := ProbeMatrix(q, pl, draws, j);
    assert m.Ok?;
    forall c, uid | 0 <= c < q.ncols && 0 <= uid < q.nrows
      ensures m.value.cells[c][uid] == multiset(segs[uid])[c]
    {
      WeightedSwap(Data(pr), pr.cols, Rows(pr), c, uid);
      SegmentEntries(segs, q.ncols, uid, c);
    }
  }

  /** `get_random_points`: one probe matrix per entry of `pl`, keyed by
      that entry. A repeated entry of `pl` makes the program fail (its
      slots are appended twice, so the arrays overrun or the final unpack
      of four values meets eight); the model reports it first. Otherwise
      the draws are checked in loop order, and then each matrix is built,
      which raises on a point outside the width. */
  function GetRandomPoints(pl: seq<nat>, q: Payload, draws: seq<seq<seq<nat>>>): (r: Result<map<nat, Matrix>>)
    requires WellFormed(q)
    ensures !Distinct(pl) ==> r == Err(UnpackMismatch)
    ensures r.Ok? ==> forall uid :: 0 <= uid < q.nrows ==> ProbeDrawn(q, pl, draws, uid)
    ensures r.Ok? ==> forall k :: k in r.value <==> k in pl
    ensures r.Ok? ==> forall j :: 0 <= j < |pl| ==>
              ProbeMatrix(q, pl, draws, j).Ok? && r.value[pl[j]] == ProbeMatrix(q, pl, draws, j).value
  {
    if !Distinct(pl) then Err(UnpackMismatch)
    else
      match DrawsCheck(q, pl, draws, q.nrows)
      case Err(e) => Err(e)
      case Ok(_) =>
        var rs := seq(|pl|, j requires 0 <= j < |pl| => ProbeMatrix(q, pl, draws, j));
        match AllOk(rs)
        case Err(e) => Err(e)
        case Ok(ms) => Ok(KeyedBy(pl, ms))
  }

  /** The dictionary `{pl[j]: ms[j]}` for entries without repeats. */
  function KeyedBy<V>(pl: seq<nat>, ms: seq<V>): (r: map<nat, V>)
    requires Distinct(pl) && |ms| == |pl|
    ensures forall k {:trigger k in r} :: k in r <==> k in pl
    ensures forall j :: 0 <= j < |pl| ==> r[pl[j]] == ms[j]
  {
    map j | 0 <= j < |pl| :: pl[j] := ms[j]
  }

  /** For an in-bounds sample, `get_random_points` fails only on a repeated
      entry of `pl` or an impossible draw. */
  lemma RandomPointsSucceed(pl: seq<nat>, q: Payload, draws: seq<seq<seq<nat>>>)
    requires WellFormed(q) && InBounds(q)
    ensures GetRandomPoints(pl, q, draws).Ok? <==>
              Distinct(pl) && forall uid :: 0 <= uid < q.nrows ==> ProbeDrawn(q, pl, draws, uid)
  {
    if Distinct(pl) && forall uid :: 0 <= uid < q.nrows ==> ProbeDrawn(q, pl, draws, uid) {
      forall j | 0 <= j < |pl| ensures ProbeMatrix(q, pl, draws, j).Ok?
      {
        ProbeMatrixEntries(q, pl, draws, j);
      }
    }
  }
}

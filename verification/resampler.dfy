/** The population resampler: every user draws an activity `a`, then `a`
    distinct hours and, for each hour, an antenna of the user's own
    cluster; the user's columns are the space-time indices of those points.
    The random choices are inputs (`acts` and one `UserDraw` per user); a
    choice the generator could not have made is an `InvalidDraw`. The
    `p=` weights of every `np.random.choice` are modelled by the checks
    numpy makes on them and by the items they let it draw: only items of
    positive weight, never a draw numpy would refuse. */
module Resampler {
  import opened Common
  import opened Payloads
  import SpaceTime

  /** The `inputs` triple `(act, fbar, time)`: the activity, antenna
      frequency and circadian distributions. */
  datatype Dists = Dists(act: seq<real>, fbar: seq<real>, time: seq<real>)

  /** One user's draws: the hours, and for each hour the position, in the
      user's cluster row, of the antenna drawn. */
  datatype UserDraw = UserDraw(hours: seq<nat>, picks: seq<nat>)

  /** The sum of the weights, first to last. */
  function WeightSum(p: seq<real>): real
  {
    if |p| == 0 then 0.0 else WeightSum(p[..|p| - 1]) + p[|p| - 1]
  }

  /** Weights numpy accepts as `p=`: none negative, summing to 1. */
  predicate Distribution(p: seq<real>)
  {
    && (forall i :: 0 <= i < |p| ==> p[i] >= 0.0)
    && WeightSum(p) == 1.0
  }

  /** The items of positive weight, in increasing order:
      `np.flatnonzero(p > 0)`. */
  function Support(p: seq<real>): (r: seq<nat>)
    ensures forall i :: 0 <= i < |r| ==> r[i] < |p| && p[r[i]] > 0.0
    ensures forall h :: 0 <= h < |p| && p[h] > 0.0 ==> h in r
    ensures forall i, j :: 0 <= i < j < |r| ==> r[i] < r[j]
    ensures |r| <= |p|
  {
    if |p| == 0 then []
    else
      var s := Support(p[..|p| - 1]);
      if p[|p| - 1] > 0.0 then s + [|p| - 1] else s
  }

  /** All-zero weights sum to zero. */
  lemma {:induction false} ZeroSum(p: seq<real>)
    requires forall i :: 0 <= i < |p| ==> p[i] == 0.0
    ensures WeightSum(p) == 0.0
  {
    if |p| > 0 {
      ZeroSum(p[..|p| - 1]);
    }
  }

  /** A distribution gives some item a positive weight, so a draw with
      replacement always has something to draw. */
  lemma DistributionSupported(p: seq<real>)
    requires Distribution(p)
    ensures |Support(p)| > 0
  {
    if |Support(p)| == 0 {
      ZeroSum(p);
    }
  }

  /** The argument checks of `np.random.choice(a, size, replace, p)` over a
      population of `n` items, in the order numpy makes them: an empty
      population with a nonzero size, `p` of another length, weights that
      are not a distribution, and without replacement a size larger than
      the population or than the number of positive weights. */
  function ChoiceCheck(n: nat, size: nat, p: seq<real>, replace: bool): (r: Result<()>)
    ensures r.Ok? <==> |p| == n && Distribution(p) && (replace || size <= |Support(p)|)
    ensures n == 0 && size != 0 ==> r == Err(EmptyPopulation)
    ensures (n > 0 || size == 0) && |p| != n ==> r == Err(ShapeMismatch)
    ensures (n > 0 || size == 0) && |p| == n && !Distribution(p) ==> r == Err(WeightsNotDistribution)
    ensures |p| == n && Distribution(p) && !replace && n < size ==> r == Err(SampleTooLarge)
    ensures |p| == n && Distribution(p) && !replace && |Support(p)| < size <= n ==> r == Err(TooFewWeighted)
  {
    if n == 0 && size != 0 then Err(EmptyPopulation)
    else if |p| != n then Err(ShapeMismatch)
    else if !Distribution(p) then Err(WeightsNotDistribution)
    else if !replace && size > n then Err(SampleTooLarge)
    else if !replace && |Support(p)| < size then Err(TooFewWeighted)
    else Ok(())
  }

  /** `np.random.choice(hrs, size=a, p=time, replace=False)` with
      `hrs = arange(len(time))`: `a` distinct hours of positive weight. */
  predicate HoursDrawn(hours: seq<nat>, a: nat, time: seq<real>)
  {
    && |hours| == a
    && Distinct(hours)
    && forall i :: 0 <= i < |hours| ==> hours[i] < |time| && time[hours[i]] > 0.0
  }

  /** `np.random.choice(s, a, p=fbar)` over a cluster row, as positions in
      the row: `a` positions of positive weight. */
  predicate PicksDrawn(picks: seq<nat>, a: nat, fbar: seq<real>)
  {
    && |picks| == a
    && forall i :: 0 <= i < |picks| ==> picks[i] < |fbar| && fbar[picks[i]] > 0.0
  }

  /** One draw of `np.random.choice(acts, p=act)` with
      `acts = arange(width, width + len(act))`. */
  predicate ActDrawn(a: nat, width: nat, act: seq<real>)
  {
    width <= a < width + |act| && act[a - width] > 0.0
  }

  /** `np.random.choice(acts, size=nusers, p=act)`. */
  predicate ActsDrawn(acts: seq<nat>, nusers: nat, width: nat, act: seq<real>)
  {
    && |acts| == nusers
    && forall u :: 0 <= u < |acts| ==> ActDrawn(acts[u], width, act)
  }

  /** The values of a sequence, as a set. */
  function Values(s: seq<nat>): set<nat>
  {
    set x | x in s
  }

  /** A sequence without repeats has as many distinct values as entries. */
  lemma {:induction false} DistinctCard(s: seq<nat>)
    requires Distinct(s)
    ensures |Values(s)| == |s|
  {
    if |s| > 0 {
      var init, last := s[..|s| - 1], s[|s| - 1];
      assert Distinct(init);
      DistinctCard(init);
      assert s == init + [last];
      assert Values(s) == Values(init) + {last};
      assert last !in Values(init);
    }
  }

  /** The first `a` items of positive weight are a draw of `a` distinct
      hours. */
  lemma HoursFromSupport(a: nat, time: seq<real>)
    requires a <= |Support(time)|
    ensures HoursDrawn(Support(time)[..a], a, time)
  {
  }

  /** Every draw of distinct hours of positive weight is at most as long as
      the support. */
  lemma HoursWithinSupport(hours: seq<nat>, a: nat, time: seq<real>)
    requires HoursDrawn(hours, a, time)
    ensures a <= |Support(time)|
  {
    var sp := Support(time);
    DistinctCard(hours);
    DistinctCard(sp);
    assert Values(hours) <= Values(sp);
    assert Values(sp) == Values(hours) + (Values(sp) - Values(hours));
  }

  /** numpy refuses to draw the hours (`TooFewWeighted`) exactly when no
      draw of `a` distinct hours of positive weight exists. */
  lemma HoursExist(a: nat, time: seq<real>)
    ensures (exists hours :: HoursDrawn(hours, a, time)) <==> a <= |Support(time)|
  {
    if a <= |Support(time)| {
      HoursFromSupport(a, time);
    }
    if hours :| HoursDrawn(hours, a, time) {
      HoursWithinSupport(hours, a, time);
    }
  }

  /** `p = n * len(time)`, the number of columns: one per hour and
      antenna. */
  function Columns(nants: nat, ntime: nat): nat
  {
    nants * ntime
  }

  /** `t * n + x` on naturals. */
  function Point(t: nat, x: nat, n: nat): nat
  {
    t * n + x
  }

  /** One pass of the user loop: `a` hours drawn without replacement by the
      circadian weights, `a` antennas of the cluster row drawn by the
      frequency weights, and `t * n + x` for each pair. Either `choice`
      raises on arguments it refuses. */
  function UserColumns(a: nat, row: seq<nat>, dists: Dists, nants: nat, d: UserDraw): (r: Result<seq<nat>>)
    ensures r.Ok? <==>
              && ChoiceCheck(|dists.time|, a, dists.time, false).Ok? && HoursDrawn(d.hours, a, dists.time)
              && ChoiceCheck(|row|, a, dists.fbar, true).Ok? && PicksDrawn(d.picks, a, dists.fbar)
    ensures ChoiceCheck(|dists.time|, a, dists.time, false).Err? ==>
              r == Err(ChoiceCheck(|dists.time|, a, dists.time, false).error)
    ensures ChoiceCheck(|dists.time|, a, dists.time, false).Ok? && HoursDrawn(d.hours, a, dists.time) &&
            ChoiceCheck(|row|, a, dists.fbar, true).Err? ==>
              r == Err(ChoiceCheck(|row|, a, dists.fbar, true).error)
    ensures r.Ok? ==> |dists.fbar| == |row| && |r.value| == a && forall i :: 0 <= i < a ==>
              d.picks[i] < |row| && r.value[i] == SpaceTime.Encode(d.hours[i], row[d.picks[i]], nants)
  {
    match ChoiceCheck(|dists.time|, a, dists.time, false)
    case Err(e) => Err(e)
    case Ok(_) =>
      if !HoursDrawn(d.hours, a, dists.time) then Err(InvalidDraw)
      else
        match ChoiceCheck(|row|, a, dists.fbar, true)
        case Err(e) => Err(e)
        case Ok(_) =>
          if !PicksDrawn(d.picks, a, dists.fbar) then Err(InvalidDraw)
          else Ok(seq(a, i requires 0 <= i < a => Point(d.hours[i], row[d.picks[i]], nants)))
  }

  /** Every row of `cluster_array` has the array's width. */
  predicate Rectangular(clusters: seq<seq<nat>>, width: nat)
  {
    forall u :: 0 <= u < |clusters| ==> |clusters[u]| == width
  }

  /** The per-user results of the user loop, in user order. */
  function UserResults(nusers: nat, clusters: seq<seq<nat>>, dists: Dists, nants: nat,
                       acts: seq<nat>, draws: seq<UserDraw>): (r: seq<Result<seq<nat>>>)
    requires nusers <= |clusters| && nusers <= |acts| && nusers <= |draws|
    ensures |r| == nusers
    ensures forall u :: 0 <= u < nusers ==> r[u] == UserColumns(acts[u], clusters[u], dists, nants, draws[u])
  {
    seq(nusers, u requires 0 <= u < nusers => UserColumns(acts[u], clusters[u], dists, nants, draws[u]))
  }

  /** `resampler(nusers, cluster_array, inputs, ana)` with `width` the
      cluster size and `nants == len(ana)`. Needs at least `nusers`
      clusters (an `assert`), then draws every activity at once; the first
      user whose draws fail stops the loop. When and what it produces is
      `ResampleSucceeds` and `ResampleShape`. */
  function Resample(nusers: nat, clusters: seq<seq<nat>>, width: nat, dists: Dists, nants: nat,
                    acts: seq<nat>, draws: seq<UserDraw>): (r: Result<Payload>)
    requires Rectangular(clusters, width)
    ensures |clusters| < nusers ==> r == Err(AssertionFailed)
    ensures nusers <= |clusters| && ChoiceCheck(|dists.act|, nusers, dists.act, true).Err? ==>
              r == Err(ChoiceCheck(|dists.act|, nusers, dists.act, true).error)
    ensures r.Ok? ==> WellFormed(r.value) && r.value.nrows == nusers && r.value.ncols == Columns(nants, |dists.time|)
  {
    if |clusters| < nusers then Err(AssertionFailed)
    else
      match ChoiceCheck(|dists.act|, nusers, dists.act, true)
      case Err(e) => Err(e)
      case Ok(_) =>
        if !ActsDrawn(acts, nusers, width, dists.act) then Err(InvalidDraw)
        else if |draws| < nusers then Err(DrawsExhausted)
        else
          match AllOk(UserResults(nusers, clusters, dists, nants, acts, draws))
          case Err(e) => Err(e)
          case Ok(segs) =>
            Ok(FromSegments(segs, Columns(nants, |dists.time|)))
  }

  /** The resampler succeeds exactly when there are enough clusters, numpy
      accepts every `choice` call, and every draw is one those calls could
      have made. In numpy's terms a success needs `act` to be a
      distribution, and once there is a user, `time` and `fbar` too, with
      `fbar` as long as a cluster and every activity at most the number of
      hours of positive weight. */
  lemma ResampleSucceeds(nusers: nat, clusters: seq<seq<nat>>, width: nat, dists: Dists, nants: nat,
                         acts: seq<nat>, draws: seq<UserDraw>)
    requires Rectangular(clusters, width)
    ensures Resample(nusers, clusters, width, dists, nants, acts, draws).Ok? <==>
              && nusers <= |clusters| && ChoiceCheck(|dists.act|, nusers, dists.act, true).Ok?
              && ActsDrawn(acts, nusers, width, dists.act) && nusers <= |draws|
              && forall u :: 0 <= u < nusers ==> UserColumns(acts[u], clusters[u], dists, nants, draws[u]).Ok?
    ensures Resample(nusers, clusters, width, dists, nants, acts, draws).Ok? ==>
              && Distribution(dists.act)
              && (nusers > 0 ==> Distribution(dists.time) && Distribution(dists.fbar) && |dists.fbar| == width)
              && forall u :: 0 <= u < nusers ==> acts[u] <= |Support(dists.time)|
  {
    if nusers <= |clusters| && ChoiceCheck(|dists.act|, nusers, dists.act, true).Ok? &&
       ActsDrawn(acts, nusers, width, dists.act) && nusers <= |draws| {
      var rs := UserResults(nusers, clusters, dists, nants, acts, draws);
      assert AllOk(rs).Ok? <==> forall u :: 0 <= u < nusers ==> rs[u].Ok?;
      if AllOk(rs).Ok? && nusers > 0 {
        assert rs[0].Ok?;
      }
    }
  }

  /** A resampled payload is laid out user after user, with `rand_acts ==
      acts`, every activity one `act` gives a positive weight, and
      `sum(acts)` triplets. */
  lemma ResampleShape(nusers: nat, clusters: seq<seq<nat>>, width: nat, dists: Dists, nants: nat,
                      acts: seq<nat>, draws: seq<UserDraw>)
    requires Rectangular(clusters, width)
    requires Resample(nusers, clusters, width, dists, nants, acts, draws).Ok?
    ensures var p := Resample(nusers, clusters, width, dists, nants, acts, draws).value;
            && WellFormed(p) && p.acts == acts && |p.cols| == Sum(acts) && |Rows(p)| == Sum(acts)
            && forall u :: 0 <= u < nusers ==> ActDrawn(p.acts[u], width, dists.act)
  {
    var rs := UserResults(nusers, clusters, dists, nants, acts, draws);
    var segs := AllOk(rs).value;
    assert forall u :: 0 <= u < nusers ==> |segs[u]| == acts[u] by {
      forall u | 0 <= u < nusers ensures |segs[u]| == acts[u]
      {
        assert segs[u] == rs[u].value;
      }
    }
    assert Lengths(segs) == acts;
  }

  /** User `u`'s segment of the payload: its `acts[u]` columns are, in
      order, the drawn hours at the drawn antennas of its cluster. */
  lemma ResampleUser(nusers: nat, clusters: seq<seq<nat>>, width: nat, dists: Dists, nants: nat,
                     acts: seq<nat>, draws: seq<UserDraw>, u: nat)
    requires Rectangular(clusters, width)
    requires Resample(nusers, clusters, width, dists, nants, acts, draws).Ok? && u < nusers
    ensures u < |clusters| && u < |draws| && |dists.fbar| == width
    ensures HoursDrawn(draws[u].hours, acts[u], dists.time) && PicksDrawn(draws[u].picks, acts[u], dists.fbar)
    ensures var p := Resample(nusers, clusters, width, dists, nants, acts, draws).value;
            && UserCols(p, u) == UserColumns(acts[u], clusters[u], dists, nants, draws[u]).value
            && forall i :: 0 <= i < acts[u] ==>
                 UserCols(p, u)[i] == SpaceTime.Encode(draws[u].hours[i], clusters[u][draws[u].picks[i]], nants)
  {
    ResampleSucceeds(nusers, clusters, width, dists, nants, acts, draws);
    var rs := UserResults(nusers, clusters, dists, nants, acts, draws);
    var segs := AllOk(rs).value;
    assert segs[u] == rs[u].value;
    UserColsOfSegments(segs, Columns(nants, |dists.time|), u);
  }

  /** An hour below `ntime` at an antenna below `nants` indexes a column
      below `nants * ntime`. */
  lemma PointBelow(t: nat, x: nat, nants: nat, ntime: nat)
    requires t < ntime && x < nants
    ensures Point(t, x, nants) < nants * ntime
  {
    assert t * nants <= (ntime - 1) * nants;
  }

  /** When every clustered antenna is below `nants`: every column fits the
      shape, and no user holds the same column twice (its hours are
      distinct, and the encoding is injective). */
  lemma ResampleInBounds(nusers: nat, clusters: seq<seq<nat>>, width: nat, dists: Dists, nants: nat,
                         acts: seq<nat>, draws: seq<UserDraw>)
    requires Rectangular(clusters, width)
    requires forall u, j :: 0 <= u < |clusters| && 0 <= j < width ==> clusters[u][j] < nants
    requires Resample(nusers, clusters, width, dists, nants, acts, draws).Ok?
    ensures var p := Resample(nusers, clusters, width, dists, nants, acts, draws).value;
            && InBounds(p)
            && forall u :: 0 <= u < nusers ==> Distinct(UserCols(p, u))
  {
    var ntime := |dists.time|;
    var p := Resample(nusers, clusters, width, dists, nants, acts, draws).value;
    var rs := UserResults(nusers, clusters, dists, nants, acts, draws);
    var segs := AllOk(rs).value;
    assert p == FromSegments(segs, Columns(nants, ntime));
    forall u, x: nat | 0 <= u < |segs| && x in segs[u] ensures x < nants * ntime
    {
      ResampleUser(nusers, clusters, width, dists, nants, acts, draws, u);
      UserColsOfSegments(segs, nants * ntime, u);
      var i :| 0 <= i < |segs[u]| && segs[u][i] == x;
      PointBelow(draws[u].hours[i], clusters[u][draws[u].picks[i]], nants, ntime);
    }
    InBoundsSegments(segs, nants * ntime);
    forall u | 0 <= u < nusers ensures Distinct(UserCols(p, u))
    {
      ResampleUser(nusers, clusters, width, dists, nants, acts, draws, u);
      var c := UserCols(p, u);
      var d := draws[u];
      forall i, j | 0 <= i < j < |c| ensures c[i] != c[j]
      {
        SpaceTime.EncodeSeparates(d.hours[i], clusters[u][d.picks[i]], d.hours[j], clusters[u][d.picks[j]], nants);
      }
    }
  }

  /** Splitting a resampled user's columns with `get_user_track` gives back
      the hours and antennas that were drawn. */
  lemma ResampleDecodes(nusers: nat, clusters: seq<seq<nat>>, width: nat, dists: Dists, nants: nat,
                        acts: seq<nat>, draws: seq<UserDraw>, u: nat)
    requires Rectangular(clusters, width)
    requires forall v, j :: 0 <= v < |clusters| && 0 <= j < width ==> clusters[v][j] < nants
    requires Resample(nusers, clusters, width, dists, nants, acts, draws).Ok? && u < nusers
    ensures u < |clusters| && u < |draws| && |dists.fbar| == width
    ensures PicksDrawn(draws[u].picks, acts[u], dists.fbar)
    ensures var p := Resample(nusers, clusters, width, dists, nants, acts, draws).value;
            SpaceTime.GetUserTrack(UserCols(p, u), nants)
            == Ok((draws[u].hours, seq(acts[u], i requires 0 <= i < acts[u] => clusters[u][draws[u].picks[i]])))
  {
    ResampleUser(nusers, clusters, width, dists, nants, acts, draws, u);
    var p := Resample(nusers, clusters, width, dists, nants, acts, draws).value;
    var d := draws[u];
    var xs := seq(acts[u], i requires 0 <= i < acts[u] => clusters[u][d.picks[i]]);
    DecodeColumns(UserCols(p, u), d.hours, xs, nants);
  }

  /** Columns encoding hours at antennas below `nants` split back into
      those hours and antennas. */
  lemma DecodeColumns(c: seq<nat>, hours: seq<nat>, xs: seq<nat>, nants: nat)
    requires |c| == |hours| == |xs|
    requires forall i :: 0 <= i < |c| ==> xs[i] < nants && c[i] == SpaceTime.Encode(hours[i], xs[i], nants)
    ensures SpaceTime.GetUserTrack(c, nants) == Ok((hours, xs))
  {
    if |c| > 0 {
      assert xs[0] < nants;
      var tr := SpaceTime.GetUserTrack(c, nants);
      forall i | 0 <= i < |c| ensures tr.value.0[i] == hours[i] && tr.value.1[i] == xs[i]
      {
        SpaceTime.DecodeEncode(hours[i], xs[i], nants);
      }
      assert tr.value.0 == hours;
      assert tr.value.1 == xs;
    }
  }

  /** User `u`'s own draws in `resampler_non_sparse_matrix` are ones the
      generator could have made: its one activity, drawn by `act`, then its
      hours and antennas. */
  predicate UserDrawn(u: nat, clusters: seq<seq<nat>>, width: nat, dists: Dists, nants: nat,
                      acts: seq<nat>, draws: seq<UserDraw>)
    requires u < |clusters|
  {
    && ChoiceCheck(|dists.act|, 1, dists.act, true).Ok?
    && u < |acts| && ActDrawn(acts[u], width, dists.act) && u < |draws|
    && UserColumns(acts[u], clusters[u], dists, nants, draws[u]).Ok?
  }

  /** The loop of `resampler_non_sparse_matrix` over users `0..k-1`: each
      user draws its own activity, then hours and antennas as above; the
      columns go into a dict keyed by user. */
  function NonSparseUsers(k: nat, clusters: seq<seq<nat>>, width: nat, dists: Dists, nants: nat,
                          acts: seq<nat>, draws: seq<UserDraw>): (r: Result<map<nat, seq<nat>>>)
    requires k <= |clusters|
    ensures r.Ok? <==> forall u :: 0 <= u < k ==> UserDrawn(u, clusters, width, dists, nants, acts, draws)
    ensures r.Ok? ==> forall u: nat :: u in r.value <==> u < k
    ensures r.Ok? ==> forall u :: 0 <= u < k ==>
              (UserDrawn(u, clusters, width, dists, nants, acts, draws) &&
               r.value[u] == UserColumns(acts[u], clusters[u], dists, nants, draws[u]).value)
  {
    if k == 0 then Ok(map[])
    else
      var u := k - 1;
      match NonSparseUsers(u, clusters, width, dists, nants, acts, draws)
      case Err(e) => Err(e)
      case Ok(m) =>
        assert UserDrawn(u, clusters, width, dists, nants, acts, draws) <==>
               ChoiceCheck(|dists.act|, 1, dists.act, true).Ok? &&
               u < |acts| && ActDrawn(acts[u], width, dists.act) && u < |draws| &&
               UserColumns(acts[u], clusters[u], dists, nants, draws[u]).Ok?;
        match ChoiceCheck(|dists.act|, 1, dists.act, true)
        case Err(e) => Err(e)
        case Ok(_) =>
          if u >= |acts| then Err(DrawsExhausted)
          else if !ActDrawn(acts[u], width, dists.act) then Err(InvalidDraw)
          else if u >= |draws| then Err(DrawsExhausted)
          else
            match UserColumns(acts[u], clusters[u], dists, nants, draws[u])
            case Err(e) => Err(e)
            case Ok(c) => Ok(m[u := c])
  }

  /** `resampler_non_sparse_matrix`: the same assertion, then the user loop. */
  function ResampleNonSparse(nusers: nat, clusters: seq<seq<nat>>, width: nat, dists: Dists, nants: nat,
                             acts: seq<nat>, draws: seq<UserDraw>): (r: Result<map<nat, seq<nat>>>)
    ensures |clusters| < nusers ==> r == Err(AssertionFailed)
    ensures r.Ok? ==> forall u: nat :: u in r.value <==> u < nusers
  {
    if |clusters| < nusers then Err(AssertionFailed)
    else NonSparseUsers(nusers, clusters, width, dists, nants, acts, draws)
  }

  /** Both resamplers, fed the same draws (one activity per user), give
      every user the same columns: the dict of `resampler_non_sparse_matrix`
      holds user `u`'s segment of the payload. They fail together once
      there is a user; with none, only the sparse one draws (zero
      activities) from `act`, and so only it can refuse `act`. */
  lemma NonSparseAgrees(nusers: nat, clusters: seq<seq<nat>>, width: nat, dists: Dists, nants: nat,
                        acts: seq<nat>, draws: seq<UserDraw>)
    requires Rectangular(clusters, width) && |acts| == nusers
    ensures nusers > 0 ==>
              (ResampleNonSparse(nusers, clusters, width, dists, nants, acts, draws).Ok?
               <==> Resample(nusers, clusters, width, dists, nants, acts, draws).Ok?)
    ensures nusers == 0 ==> ResampleNonSparse(nusers, clusters, width, dists, nants, acts, draws).Ok?
    ensures Resample(nusers, clusters, width, dists, nants, acts, draws).Ok? ==>
              && ResampleNonSparse(nusers, clusters, width, dists, nants, acts, draws).Ok?
              && var p := Resample(nusers, clusters, width, dists, nants, acts, draws).value;
                 var d := ResampleNonSparse(nusers, clusters, width, dists, nants, acts, draws).value;
                 forall u :: 0 <= u < nusers ==> u in d && d[u] == UserCols(p, u)
  {
    ResampleSucceeds(nusers, clusters, width, dists, nants, acts, draws);
    if |clusters| >= nusers {
      if nusers > 0 && NonSparseUsers(nusers, clusters, width, dists, nants, acts, draws).Ok? {
        NonSparseGivesSparse(nusers, clusters, width, dists, nants, acts, draws);
      }
      if Resample(nusers, clusters, width, dists, nants, acts, draws).Ok? {
        SparseGivesNonSparse(nusers, clusters, width, dists, nants, acts, draws);
      }
    }
  }

  /** Every user's own draws succeeding makes every draw of the sparse
      resampler succeed. */
  lemma NonSparseGivesSparse(nusers: nat, clusters: seq<seq<nat>>, width: nat, dists: Dists, nants: nat,
                             acts: seq<nat>, draws: seq<UserDraw>)
    requires |acts| == nusers && 0 < nusers <= |clusters|
    requires NonSparseUsers(nusers, clusters, width, dists, nants, acts, draws).Ok?
    ensures ChoiceCheck(|dists.act|, nusers, dists.act, true).Ok?
    ensures ActsDrawn(acts, nusers, width, dists.act) && nusers <= |draws|
    ensures forall u :: 0 <= u < nusers ==> UserColumns(acts[u], clusters[u], dists, nants, draws[u]).Ok?
  {
    assert UserDrawn(nusers - 1, clusters, width, dists, nants, acts, draws);
    forall u | 0 <= u < nusers
      ensures ActDrawn(acts[u], width, dists.act)
      ensures UserColumns(acts[u], clusters[u], dists, nants, draws[u]).Ok?
    {
      assert UserDrawn(u, clusters, width, dists, nants, acts, draws);
    }
  }

  /** A sparse success makes every user's own draws succeed, with the
      user's segment as its columns. */
  lemma SparseGivesNonSparse(nusers: nat, clusters: seq<seq<nat>>, width: nat, dists: Dists, nants: nat,
                             acts: seq<nat>, draws: seq<UserDraw>)
    requires Rectangular(clusters, width)
    requires Resample(nusers, clusters, width, dists, nants, acts, draws).Ok?
    ensures nusers <= |clusters|
    ensures forall u :: 0 <= u < nusers ==>
              && UserDrawn(u, clusters, width, dists, nants, acts, draws)
              && UserCols(Resample(nusers, clusters, width, dists, nants, acts, draws).value, u)
                 == UserColumns(acts[u], clusters[u], dists, nants, draws[u]).value
  {
    ResampleSucceeds(nusers, clusters, width, dists, nants, acts, draws);
    assert ChoiceCheck(|dists.act|, 1, dists.act, true).Ok?;
    forall u | 0 <= u < nusers
      ensures UserDrawn(u, clusters, width, dists, nants, acts, draws)
      ensures UserCols(Resample(nusers, clusters, width, dists, nants, acts, draws).value, u)
              == UserColumns(acts[u], clusters[u], dists, nants, draws[u]).value
    {
      ResampleUser(nusers, clusters, width, dists, nants, acts, draws, u);
    }
  }
}

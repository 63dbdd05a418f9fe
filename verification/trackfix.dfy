/** Two departures of `numbarator`'s scan from what it sets out to do, and
    the scan as evidently intended. The program primes the first run with
    the first point's antenna and then visits that point again, so the
    first hour's antenna has one vote too many; and it closes the last run
    with a `(0, 0)` point, which closes nothing when the last hour is 0, so
    a log whose records all fall in the first hour of the table gives an
    empty trace. The intended scan starts with no choices and flushes the
    open run at the end, whatever its hour. */
module TrackRepair {
  import opened Common
  import opened Winner
  import opened Numbarator

  /** The open run of a scan closed by one more pick. */
  function Flush(r: Result<Scan>, pick: Picker): Result<seq<Point>>
  {
    match r
    case Err(e) => Err(e)
    case Ok(st) => Then(Ok(st.out), st.prev, st.choices, st.k, pick)
  }

  /** The pairs `numbarator` evidently means to keep: the sorted points
      scanned from an empty run, and the last run flushed. */
  function IntendedTrack(pts: seq<Point>, order: seq<nat>, draws: seq<int>): (r: Result<seq<Point>>)
    ensures pts == [] ==> r == Ok([])
    ensures pts != [] && !SortsByHour(order, pts) ==> r == Err(InvalidDraw)
  {
    if |pts| == 0 then Ok([])
    else if !SortsByHour(order, pts) then Err(InvalidDraw)
    else
      var ps := Permute(pts, order);
      Flush(Run(Scan([], ps[0].0, [], 0), ps, PickWith(draws)), PickWith(draws))
  }

  /** The flushed scan from an empty run picks once per distinct hour, each
      hour on exactly the antennas recorded at it. */
  lemma IntendedScan(ps: seq<Point>, pick: Picker)
    requires |ps| > 0 && Sorted(ps)
    ensures Flush(Run(Scan([], ps[0].0, [], 0), ps, pick), pick) == Picks(Hours(ps), Ballots(ps, []), pick, |Hours(ps)|)
    ensures forall k :: 0 <= k < |Hours(ps)| ==> Ballots(ps, [])[k] == Votes(ps, Hours(ps)[k])
  {
    FlushedScan(ps, [], pick);
    BallotsAreVotes(ps);
  }

  /** Flushing the scan after its last point picks the last hour too. */
  lemma FlushedScan(ps: seq<Point>, extra: seq<nat>, pick: Picker)
    requires |ps| > 0 && Sorted(ps)
    ensures Flush(Run(Scan([], ps[0].0, extra, 0), ps, pick), pick) == Picks(Hours(ps), Ballots(ps, extra), pick, |Hours(ps)|)
  {
    var h, b := Hours(ps), Ballots(ps, extra);
    var m := |h| - 1;
    var before := Picks(h, b, pick, m);
    assert Run(Scan([], ps[0].0, extra, 0), ps, pick) == Resume(before, h[m], b[m], m) by {
      ScanPrefix(ps, extra, pick);
      assert b[m] == Ballot(ps, extra, m);
    }
    FlushResume(before, h[m], b[m], m, pick);
  }

  /** Closing a resumed scan is one more pick after what it emitted. */
  lemma FlushResume(r: Result<seq<Point>>, prev: nat, choices: seq<nat>, k: nat, pick: Picker)
    ensures Flush(Resume(r, prev, choices, k), pick) == Then(r, prev, choices, k, pick)
  {
  }

  /** With nothing primed, the ballot of an hour is its votes. */
  lemma BallotsAreVotes(ps: seq<Point>)
    ensures forall k :: 0 <= k < |Hours(ps)| ==> Ballots(ps, [])[k] == Votes(ps, Hours(ps)[k])
  {
    var none: seq<nat> := [];
    forall k | 0 <= k < |Hours(ps)|
      ensures Ballots(ps, none)[k] == Votes(ps, Hours(ps)[k])
    {
      var v := Votes(ps, Hours(ps)[k]);
      assert Ballot(ps, none, k) == none + v;
      assert none + v == v;
    }
  }

  /** The intended pairs, when the draws allow them: one per distinct hour
      of the log and every hour present, hours strictly increasing, each
      pair a point of the log whose antenna is a most frequent one among
      the antennas recorded at that hour. */
  lemma IntendedTrackFacts(pts: seq<Point>, order: seq<nat>, draws: seq<int>)
    requires |pts| > 0 && SortsByHour(order, pts)
    requires IntendedTrack(pts, order, draws).Ok?
    ensures var ps, out := Permute(pts, order), IntendedTrack(pts, order, draws).value;
            && |out| == |Hours(ps)|
            && (forall i, j :: 0 <= i < j < |out| ==> out[i].0 < out[j].0)
            && (forall k :: 0 <= k < |out| ==> out[k] in pts)
            && (forall i :: 0 <= i < |pts| ==> pts[i].0 in TrackHours(out))
            && forall k :: 0 <= k < |out| ==> MostFrequent(Votes(ps, out[k].0), out[k].1)
  {
    var ps := Permute(pts, order);
    var pick := PickWith(draws);
    var h := Hours(ps);
    var out := IntendedTrack(pts, order, draws).value;
    PermuteSorts(pts, order);
    IntendedScan(ps, pick);
    PicksValues(h, Ballots(ps, []), pick, |h|);
    forall k | 0 <= k < |out|
      ensures out[k].0 == h[k] && out[k] in ps
      ensures MostFrequent(Votes(ps, out[k].0), out[k].1)
    {
      var v := Votes(ps, h[k]);
      assert pick(v, k) == Pick(v, draws, k);
      VotesMembers(ps, h[k]);
    }
    HoursIncrease(ps);
    HoursOfPoints(ps, pts);
    PairsCover(out, h, ps, pts);
  }

  /** A log whose only record is at hour 0, antenna `x`: the program keeps
      nothing, the intended scan keeps the record. */
  lemma HourZeroDropped(x: nat)
    ensures Track([(0, x)], [0], [x]) == Ok([])
    ensures IntendedTrack([(0, x)], [0], [x]) == Ok([(0, x)])
  {
    HourZeroAsWritten(x);
    HourZeroIntended(x);
  }

  lemma HourZeroAsWritten(x: nat)
    ensures Track([(0, x)], [0], [x]) == Ok([])
  {
    var ps: seq<Point> := [(0, x)];
    assert 0 in [0];
    assert Permute(ps, [0]) == ps;
    TrackPicks(ps, [0], [x]);
  }

  lemma HourZeroIntended(x: nat)
    ensures IntendedTrack([(0, x)], [0], [x]) == Ok([(0, x)])
  {
    var pick := PickWith([x]);
    IntendedOnePoint((0, x), [x]);
    assert pick([x], 0) == Ok(x);
    FirstPick(0, [x], pick, x);
  }

  /** The intended scan of a one-point log: one pick, on that point's
      antenna alone. */
  lemma IntendedOnePoint(p: Point, draws: seq<int>)
    ensures IntendedTrack([p], [0], draws) == Then(Ok([]), p.0, [p.1], 0, PickWith(draws))
  {
    var ps: seq<Point> := [p];
    assert 0 in [0];
    assert Permute(ps, [0]) == ps;
    IntendedScan(ps, PickWith(draws));
    OnePoint(p);
    OneHour(Hours(ps), Ballots(ps, []), PickWith(draws));
  }

  /** A first pick that succeeds is the first pair emitted. */
  lemma FirstPick(h: nat, ballot: seq<nat>, pick: Picker, w: nat)
    requires pick(ballot, 0) == Ok(w)
    ensures Then(Ok([]), h, ballot, 0, pick) == Ok([(h, w)])
  {
    var none: seq<Point> := [];
    assert none + [(h, w)] == [(h, w)];
    assert Then(Ok(none), h, ballot, 0, pick) == Ok(none + [(h, w)]);
  }

  /** The picks of a single hour. */
  lemma OneHour(hours: seq<nat>, ballots: seq<seq<nat>>, pick: Picker)
    requires |hours| == 1 && |ballots| == 1
    ensures Picks(hours, ballots, pick, 1) == Then(Ok([]), hours[0], ballots[0], 0, pick)
  {
  }

  /** A one-point log: one hour, whose only vote is the point's antenna. */
  lemma OnePoint(p: Point)
    ensures Hours([p]) == [p.0] && Votes([p], p.0) == [p.1]
  {
    assert [p][..0] == [];
  }

  /** Two records at hour 1, antennas `x` then `y`, and the draw `y`: a
      tie the program does not see, because `x` is counted twice, so `y`
      cannot be picked; the intended scan picks it. */
  lemma FirstAntennaTwice(x: nat, y: nat)
    requires x != y
    ensures Track([(1, x), (1, y)], [0, 1], [y]) == Err(InvalidDraw)
    ensures IntendedTrack([(1, x), (1, y)], [0, 1], [y]) == Ok([(1, y)])
  {
    TwiceAsWritten(x, y);
    TwiceIntended(x, y);
  }

  /** Two records in one hour: one hour, voting for both antennas. */
  lemma TwoPoints(x: nat, y: nat)
    ensures Hours([(1, x), (1, y)]) == [1] && Votes([(1, x), (1, y)], 1) == [x, y]
  {
    var ps: seq<Point> := [(1, x), (1, y)];
    assert ps[..1] == [(1, x)];
    OnePoint((1, x));
  }

  /** `x` counted twice beats `y`; counted once, they tie. */
  lemma TieHidden(x: nat, y: nat)
    requires x != y
    ensures WinnerTakesAll([x, x, y], y) == Err(InvalidDraw)
    ensures WinnerTakesAll([x, y], y) == Ok(y)
  {
    var twice: seq<nat> := [x, x, y];
    var once: seq<nat> := [x, y];
    assert multiset(twice)[y] == 1 && multiset(twice)[x] == 2;
    assert !MostFrequent(twice, y);
    assert multiset(once)[x] == 1 && multiset(once)[y] == 1;
    assert MostFrequent(once, y);
  }

  lemma TwiceAsWritten(x: nat, y: nat)
    requires x != y
    ensures Track([(1, x), (1, y)], [0, 1], [y]) == Err(InvalidDraw)
  {
    var ps: seq<Point> := [(1, x), (1, y)];
    var pick := PickWith([y]);
    assert 0 in [0, 1] && 1 in [0, 1];
    assert Permute(ps, [0, 1]) == ps;
    assert Track(ps, [0, 1], [y]) == Reference(ps, [y]) by {
      TrackPicks(ps, [0, 1], [y]);
    }
    TwoPoints(x, y);
    OneHour(Hours(ps), Ballots(ps, [x]), pick);
    assert Ballots(ps, [x])[0] == [x, x, y];
    TieHidden(x, y);
    assert pick([x, x, y], 0) == Err(InvalidDraw);
  }

  lemma TwiceIntended(x: nat, y: nat)
    requires x != y
    ensures IntendedTrack([(1, x), (1, y)], [0, 1], [y]) == Ok([(1, y)])
  {
    IntendedTwoPoints(x, y, [y]);
    TieHidden(x, y);
    var pick := PickWith([y]);
    assert pick([x, y], 0) == Ok(y);
    FirstPick(1, [x, y], pick, y);
  }

  /** The intended scan of two records in one hour: one pick, on both
      antennas. */
  lemma IntendedTwoPoints(x: nat, y: nat, draws: seq<int>)
    ensures IntendedTrack([(1, x), (1, y)], [0, 1], draws) == Then(Ok([]), 1, [x, y], 0, PickWith(draws))
  {
    var ps: seq<Point> := [(1, x), (1, y)];
    var pick := PickWith(draws);
    assert 0 in [0, 1] && 1 in [0, 1];
    assert Permute(ps, [0, 1]) == ps;
    var scan := Flush(Run(Scan([], 1, [], 0), ps, pick), pick);
    assert IntendedTrack(ps, [0, 1], draws) == scan;
    TwoPoints(x, y);
    assert scan == Picks(Hours(ps), Ballots(ps, []), pick, 1) by {
      IntendedScan(ps, pick);
    }
    assert Ballots(ps, [])[0] == [x, y];
    OneHour(Hours(ps), Ballots(ps, []), pick);
  }
}

/** `numbarator`: one user's call log becomes a trace of space-time indices.
    The lines are read into (hour, antenna) points, points with an hour
    outside the table are dropped, the rest are sorted by hour and scanned
    once: a run of points with the same hour is closed when the hour changes,
    and its most frequent antenna is kept. The scan is primed with the first
    point's antenna and then visits the first point again, so that antenna
    has one extra vote in the first hour; a `(0, 0)` point appended to close
    the last run only does so when the last hour is not 0.

    The scan is related to a reference definition: the distinct hours in
    order (`Hours`), the antennas recorded at each hour (`Votes`), and one
    pick per hour (`Picks`). */
module Numbarator {
  import opened Common
  import opened SpaceTime
  import opened RawLog
  import opened Winner

  /** An (hour, antenna) pair of positions in the date and antenna tables. */
  type Point = (nat, nat)

  /** The points of the lines whose hour is in the table, in line order.
      The first line that fails to read stops the loop. */
  function Points(lines: seq<string>, dates: seq<string>, ants: seq<string>): (r: Result<seq<Point>>)
    ensures r.Ok? <==> forall i :: 0 <= i < |lines| ==> ReadLines(lines[i], dates, ants).Ok?
    ensures r.Ok? ==> forall k :: 0 <= k < |r.value| ==> r.value[k].0 < |dates| && r.value[k].1 < |ants|
    ensures r.Ok? ==> forall t: nat, x: nat :: (t, x) in r.value <==>
              exists i :: 0 <= i < |lines| && ReadLines(lines[i], dates, ants) == Ok((t as int, x as int))
  {
    if |lines| == 0 then Ok([])
    else
      var n := |lines| - 1;
      assert forall i :: 0 <= i < n ==> lines[..n][i] == lines[i];
      match Points(lines[..n], dates, ants)
      case Err(e) => Err(e)
      case Ok(ps) =>
        match ReadLines(lines[n], dates, ants)
        case Err(e) => Err(e)
        case Ok(p) =>
          if p == (-1, -1) then Ok(ps)
          else
            assert Stamp(lines[n]) in dates;
            Ok(ps + [(p.0 as nat, p.1 as nat)])
  }

  /** The points are in nondecreasing hour order. */
  predicate Sorted(ps: seq<Point>)
  {
    forall i, j :: 0 <= i < j < |ps| ==> ps[i].0 <= ps[j].0
  }

  /** `order` is a rearrangement of the positions of `ps` (every position
      appears, and there are as many as points) listing them by hour, as
      `np.argsort(times)` does; ties may come in any order. */
  predicate SortsByHour(order: seq<nat>, ps: seq<Point>)
  {
    && |order| == |ps|
    && (forall i :: 0 <= i < |order| ==> order[i] < |ps|)
    && (forall j :: 0 <= j < |ps| ==> j in order)
    && forall i, j :: 0 <= i < j < |order| ==> ps[order[i]].0 <= ps[order[j]].0
  }

  function Permute(ps: seq<Point>, order: seq<nat>): (r: seq<Point>)
    requires forall i :: 0 <= i < |order| ==> order[i] < |ps|
    ensures |r| == |order|
  {
    seq(|order|, i requires 0 <= i < |order| => ps[order[i]])
  }

  /** Sorting by `order` keeps the points, and sorts them. */
  lemma PermuteSorts(ps: seq<Point>, order: seq<nat>)
    requires SortsByHour(order, ps)
    ensures Sorted(Permute(ps, order))
    ensures forall p :: p in Permute(ps, order) <==> p in ps
  {
    var qs := Permute(ps, order);
    forall p | p in ps
      ensures p in qs
    {
      var j :| 0 <= j < |ps| && ps[j] == p;
      assert j in order;
      var i :| 0 <= i < |order| && order[i] == j;
      assert qs[i] == p;
    }
  }

  // ---- The reference definition: hours, votes, picks ----

  /** The distinct hours of `ps`, a new one each time the hour changes. */
  function Hours(ps: seq<Point>): (r: seq<nat>)
    ensures |r| <= |ps|
    ensures |ps| > 0 ==> |r| > 0 && r[|r| - 1] == ps[|ps| - 1].0
  {
    if |ps| == 0 then []
    else
      var h, t := Hours(ps[..|ps| - 1]), ps[|ps| - 1].0;
      if |h| > 0 && h[|h| - 1] == t then h else h + [t]
  }

  /** The hours of sorted points strictly increase. */
  lemma {:induction false} HoursIncrease(ps: seq<Point>)
    requires Sorted(ps)
    ensures forall i, j :: 0 <= i < j < |Hours(ps)| ==> Hours(ps)[i] < Hours(ps)[j]
  {
    if |ps| > 1 {
      var qs := ps[..|ps| - 1];
      assert Sorted(qs);
      HoursIncrease(qs);
      var h := Hours(qs);
      assert h[|h| - 1] == qs[|qs| - 1].0 <= ps[|ps| - 1].0;
    }
  }

  /** The hours are exactly the hours of the points. */
  lemma {:induction false} HoursMembers(ps: seq<Point>)
    ensures forall t :: t in Hours(ps) <==> exists i :: 0 <= i < |ps| && ps[i].0 == t
  {
    if |ps| > 0 {
      var qs := ps[..|ps| - 1];
      HoursMembers(qs);
      forall t | t in Hours(ps)
        ensures exists i :: 0 <= i < |ps| && ps[i].0 == t
      {
        if t in Hours(qs) {
          var i :| 0 <= i < |qs| && qs[i].0 == t;
          assert ps[i].0 == t;
        } else {
          assert ps[|ps| - 1].0 == t;
        }
      }
      forall t | exists i :: 0 <= i < |ps| && ps[i].0 == t
        ensures t in Hours(ps)
      {
        var i :| 0 <= i < |ps| && ps[i].0 == t;
        if i < |qs| {
          assert qs[i].0 == t;
        }
      }
    }
  }

  /** The antennas recorded at hour `h`, in order. */
  function Votes(ps: seq<Point>, h: nat): (r: seq<nat>)
    ensures |r| <= |ps|
  {
    if |ps| == 0 then []
    else Votes(ps[..|ps| - 1], h) + (if ps[|ps| - 1].0 == h then [ps[|ps| - 1].1] else [])
  }

  /** An antenna is a vote at hour `h` exactly when a point records it there. */
  lemma {:induction false} VotesMembers(ps: seq<Point>, h: nat)
    ensures forall x :: x in Votes(ps, h) <==> (h, x) in ps
  {
    if |ps| > 0 {
      var qs := ps[..|ps| - 1];
      VotesMembers(qs, h);
      assert ps == qs + [ps[|ps| - 1]];
    }
  }

  lemma VotesSnoc(qs: seq<Point>, p: Point, h: nat)
    ensures Votes(qs + [p], h) == Votes(qs, h) + (if p.0 == h then [p.1] else [])
  {
    assert (qs + [p])[..|qs|] == qs;
  }

  /** No point at hour `h`, no vote. */
  lemma {:induction false} VotesAbsent(ps: seq<Point>, h: nat)
    requires forall i :: 0 <= i < |ps| ==> ps[i].0 < h
    ensures Votes(ps, h) == []
  {
    if |ps| > 0 {
      VotesAbsent(ps[..|ps| - 1], h);
    }
  }

  /** The antennas the `k`-th hour is decided on: its votes, after the
      `extra` ones the scan was primed with if it is the first hour. */
  function Ballot(ps: seq<Point>, extra: seq<nat>, k: nat): seq<nat>
    requires k < |Hours(ps)|
  {
    (if k == 0 then extra else []) + Votes(ps, Hours(ps)[k])
  }

  /** The ballots of all hours, in order. */
  function Ballots(ps: seq<Point>, extra: seq<nat>): (r: seq<seq<nat>>)
    ensures |r| == |Hours(ps)|
  {
    seq(|Hours(ps)|, k requires 0 <= k < |Hours(ps)| => Ballot(ps, extra, k))
  }

  /** `winner_takes_all` on a ballot with the `k`-th draw. */
  function Pick(choices: seq<nat>, draws: seq<int>, k: nat): (r: Result<nat>)
    ensures r.Ok? ==> MostFrequent(choices, r.value)
    ensures k >= |draws| ==> r == Err(DrawsExhausted)
  {
    if k < |draws| then WinnerTakesAll(choices, draws[k]) else Err(DrawsExhausted)
  }

  /** The choice made for a ballot, given the hour's number; the scan is
      stated for any such choice, and `numbarator` uses `Pick`. */
  type Picker = (seq<nat>, nat) -> Result<nat>

  /** After the picks `r`, the pick for one more hour `h` on `ballot`. */
  function Then(r: Result<seq<Point>>, h: nat, ballot: seq<nat>, k: nat, pick: Picker): Result<seq<Point>>
  {
    match r
    case Err(e) => Err(e)
    case Ok(out) =>
      match pick(ballot, k)
      case Err(e) => Err(e)
      case Ok(w) => Ok(out + [(h, w)])
  }

  /** The first `m` hours, each with the antenna picked from its ballot;
      the first pick that fails stops. */
  function Picks(hours: seq<nat>, ballots: seq<seq<nat>>, pick: Picker, m: nat): Result<seq<Point>>
    requires m <= |hours| && m <= |ballots|
  {
    if m == 0 then Ok([])
    else Then(Picks(hours, ballots, pick, m - 1), hours[m - 1], ballots[m - 1], m - 1, pick)
  }

  /** The picks succeed exactly when every hour's pick does, and then the
      `k`-th pair is hour `k` with the antenna picked from its ballot. */
  lemma {:induction false} PicksValues(hours: seq<nat>, ballots: seq<seq<nat>>, pick: Picker, m: nat)
    requires m <= |hours| && m <= |ballots|
    ensures var r := Picks(hours, ballots, pick, m);
            && (r.Ok? <==> forall k :: 0 <= k < m ==> pick(ballots[k], k).Ok?)
            && (r.Ok? ==> |r.value| == m && forall k :: 0 <= k < m ==>
                  pick(ballots[k], k).Ok? && r.value[k] == (hours[k], pick(ballots[k], k).value))
  {
    if m > 0 {
      PicksValues(hours, ballots, pick, m - 1);
    }
  }

  /** The picks of the first `m` hours depend on nothing after them. */
  lemma {:induction false} PicksAgree(h1: seq<nat>, b1: seq<seq<nat>>, h2: seq<nat>, b2: seq<seq<nat>>, pick: Picker, m: nat)
    requires m <= |h1| && m <= |b1| && m <= |h2| && m <= |b2|
    requires forall k :: 0 <= k < m ==> h1[k] == h2[k] && b1[k] == b2[k]
    ensures Picks(h1, b1, pick, m) == Picks(h2, b2, pick, m)
  {
    if m > 0 {
      PicksAgree(h1, b1, h2, b2, pick, m - 1);
    }
  }

  // ---- The scan of the program ----

  /** The loop's variables: the emitted pairs (`newtrack`), the hour of the
      run (`prevtime`), its antennas (`choices`), and the picks made. */
  datatype Scan = Scan(out: seq<Point>, prev: nat, choices: seq<nat>, k: nat)

  /** One turn of the loop over `track`, after the turns before it. */
  function Step(r: Result<Scan>, p: Point, pick: Picker): Result<Scan>
  {
    match r
    case Err(e) => Err(e)
    case Ok(st) =>
      if p.0 == st.prev then Ok(Scan(st.out, p.0, st.choices + [p.1], st.k))
      else
        match pick(st.choices, st.k)
        case Err(e) => Err(e)
        case Ok(w) => Ok(Scan(st.out + [(st.prev, w)], p.0, [p.1], st.k + 1))
  }

  function Run(st: Scan, ps: seq<Point>, pick: Picker): Result<Scan>
  {
    if |ps| == 0 then Ok(st) else Step(Run(st, ps[..|ps| - 1], pick), ps[|ps| - 1], pick)
  }

  /** The loop state that the reference picks describe. */
  function Resume(r: Result<seq<Point>>, prev: nat, choices: seq<nat>, k: nat): Result<Scan>
  {
    match r
    case Err(e) => Err(e)
    case Ok(out) => Ok(Scan(out, prev, choices, k))
  }

  /** What the loop emitted. */
  function Emitted(r: Result<Scan>): Result<seq<Point>>
  {
    match r
    case Err(e) => Err(e)
    case Ok(st) => Ok(st.out)
  }

  lemma RunSnoc(st: Scan, qs: seq<Point>, p: Point, pick: Picker)
    ensures Run(st, qs + [p], pick) == Step(Run(st, qs, pick), p, pick)
  {
    assert (qs + [p])[..|qs|] == qs;
  }

  /** A point at the open run's hour joins its choices. */
  lemma StepSame(r: Result<seq<Point>>, prev: nat, choices: seq<nat>, k: nat, p: Point, pick: Picker)
    requires p.0 == prev
    ensures Step(Resume(r, prev, choices, k), p, pick) == Resume(r, prev, choices + [p.1], k)
  {
  }

  /** A point at another hour closes the open run with one more pick. */
  lemma StepNew(r: Result<seq<Point>>, prev: nat, choices: seq<nat>, k: nat, p: Point, pick: Picker)
    requires p.0 != prev
    ensures Step(Resume(r, prev, choices, k), p, pick) == Resume(Then(r, prev, choices, k, pick), p.0, [p.1], k + 1)
  {
  }

  /** A point at a later hour leaves the votes and ballots of the earlier
      hours alone. */
  lemma BallotSnoc(qs: seq<Point>, p: Point, extra: seq<nat>, k: nat)
    requires k < |Hours(qs)| && k < |Hours(qs + [p])|
    requires Hours(qs + [p])[k] == Hours(qs)[k] != p.0
    ensures Ballot(qs + [p], extra, k) == Ballot(qs, extra, k)
  {
    VotesSnoc(qs, p, Hours(qs)[k]);
  }

  /** Ballots of hours before the last one keep, under a point appended at
      a later or equal hour. */
  lemma BallotsKeep(qs: seq<Point>, p: Point, extra: seq<nat>, m: nat)
    requires |qs| > 0 && Sorted(qs) && p.0 >= qs[|qs| - 1].0
    requires m <= |Hours(qs)| && m <= |Hours(qs + [p])|
    requires forall k :: 0 <= k < m ==> Hours(qs + [p])[k] == Hours(qs)[k]
    requires m == |Hours(qs)| ==> p.0 != qs[|qs| - 1].0
    ensures forall k :: 0 <= k < m ==> Ballots(qs + [p], extra)[k] == Ballots(qs, extra)[k]
  {
    var h := Hours(qs);
    HoursIncrease(qs);
    forall k | 0 <= k < m
      ensures Ballots(qs + [p], extra)[k] == Ballots(qs, extra)[k]
    {
      assert h[k] <= h[|h| - 1];
      BallotSnoc(qs, p, extra, k);
    }
  }

  /** A point at the last hour adds no hour. */
  lemma HoursSame(qs: seq<Point>, p: Point)
    requires |qs| > 0 && p.0 == qs[|qs| - 1].0
    ensures Hours(qs + [p]) == Hours(qs)
  {
    var ps := qs + [p];
    assert ps[..|ps| - 1] == qs;
    var h := Hours(qs);
    assert h[|h| - 1] == qs[|qs| - 1].0;
  }

  /** A point at another hour adds its hour. */
  lemma HoursNew(qs: seq<Point>, p: Point)
    requires |qs| > 0 && p.0 != qs[|qs| - 1].0
    ensures Hours(qs + [p]) == Hours(qs) + [p.0]
  {
    var ps := qs + [p];
    assert ps[..|ps| - 1] == qs;
    var h := Hours(qs);
    assert h[|h| - 1] == qs[|qs| - 1].0;
  }

  lemma AppendAssoc<T>(a: seq<T>, b: seq<T>, c: seq<T>)
    ensures a + (b + c) == (a + b) + c
  {
  }

  /** A point at the hour of the open run joins its ballot. */
  lemma SameHourBallot(qs: seq<Point>, p: Point, extra: seq<nat>, m: nat)
    requires |qs| > 0 && p.0 == qs[|qs| - 1].0 && m == |Hours(qs)| - 1
    ensures Hours(qs + [p]) == Hours(qs)
    ensures Ballot(qs + [p], extra, m) == Ballot(qs, extra, m) + [p.1]
  {
    HoursSame(qs, p);
    var t := Hours(qs)[m];
    var head := if m == 0 then extra else [];
    var v0, v1 := Votes(qs, t), Votes(qs + [p], t);
    assert v1 == v0 + [p.1] by {
      VotesSnoc(qs, p, t);
    }
    var b0, b1 := Ballot(qs, extra, m), Ballot(qs + [p], extra, m);
    assert b0 == head + v0;
    assert b1 == head + v1;
    AppendAssoc(head, v0, [p.1]);
  }

  /** A point at the hour of the open run changes none of the closed
      hours' picks. */
  lemma SameHourPicks(qs: seq<Point>, p: Point, extra: seq<nat>, pick: Picker, m: nat)
    requires |qs| > 0 && Sorted(qs) && p.0 == qs[|qs| - 1].0 && m == |Hours(qs)| - 1
    ensures Picks(Hours(qs + [p]), Ballots(qs + [p], extra), pick, m) == Picks(Hours(qs), Ballots(qs, extra), pick, m)
  {
    var ps := qs + [p];
    HoursSame(qs, p);
    BallotsKeep(qs, p, extra, m);
    PicksAgree(Hours(ps), Ballots(ps, extra), Hours(qs), Ballots(qs, extra), pick, m);
  }

  /** A point at a later hour opens a ballot of its own. */
  lemma NewBallot(qs: seq<Point>, p: Point, extra: seq<nat>)
    requires |qs| > 0 && Sorted(qs) && p.0 > qs[|qs| - 1].0
    ensures Hours(qs + [p]) == Hours(qs) + [p.0]
    ensures Ballot(qs + [p], extra, |Hours(qs)|) == [p.1]
  {
    HoursNew(qs, p);
    VotesBefore(qs, p.0);
    VotesSnoc(qs, p, p.0);
  }

  /** A point at a later hour closes the open run: the picks up to it are
      those before it, then the open run's. */
  lemma NewHour(qs: seq<Point>, p: Point, extra: seq<nat>, pick: Picker, m: nat)
    requires |qs| > 0 && Sorted(qs) && p.0 > qs[|qs| - 1].0 && m == |Hours(qs)| - 1
    ensures |Hours(qs + [p])| == m + 2
    ensures Picks(Hours(qs + [p]), Ballots(qs + [p], extra), pick, m + 1) ==
              Then(Picks(Hours(qs), Ballots(qs, extra), pick, m), qs[|qs| - 1].0, Ballot(qs, extra, m), m, pick)
  {
    var ps := qs + [p];
    HoursNew(qs, p);
    var h := Hours(qs);
    BallotsKeep(qs, p, extra, m + 1);
    PicksAgree(Hours(ps), Ballots(ps, extra), h, Ballots(qs, extra), pick, m);
    assert Ballots(ps, extra)[m] == Ballots(qs, extra)[m] == Ballot(qs, extra, m);
  }

  /** Sorted points all lie at or before the last one's hour, so none is at
      a later hour. */
  lemma VotesBefore(qs: seq<Point>, t: nat)
    requires |qs| > 0 && Sorted(qs) && t > qs[|qs| - 1].0
    ensures Votes(qs, t) == []
  {
    forall i | 0 <= i < |qs|
      ensures qs[i].0 < t
    {
      assert qs[i].0 <= qs[|qs| - 1].0;
    }
    VotesAbsent(qs, t);
  }

  /** The scan's invariant: the reference picks of every hour but the
      last, and the last hour's run open with its ballot. */
  predicate ScanAt(ps: seq<Point>, extra: seq<nat>, pick: Picker, r: Result<Scan>)
    requires |ps| > 0
  {
    var m := |Hours(ps)| - 1;
    r == Resume(Picks(Hours(ps), Ballots(ps, extra), pick, m), ps[|ps| - 1].0, Ballot(ps, extra, m), m)
  }

  /** The invariant holds after the first point. */
  lemma ScanFirst(p: Point, extra: seq<nat>, pick: Picker)
    ensures ScanAt([p], extra, pick, Step(Ok(Scan([], p.0, extra, 0)), p, pick))
  {
    var ps := [p];
    assert ps[..0] == [];
    assert Hours(ps) == [p.0];
    assert Votes(ps, p.0) == [p.1];
    StepSame(Ok([]), p.0, extra, 0, p, pick);
  }

  /** The invariant, given the number `m` of closed hours. */
  lemma ScanAtIntro(ps: seq<Point>, extra: seq<nat>, pick: Picker, r: Result<Scan>, m: nat)
    requires |ps| > 0 && m == |Hours(ps)| - 1
    requires r == Resume(Picks(Hours(ps), Ballots(ps, extra), pick, m), ps[|ps| - 1].0, Ballot(ps, extra, m), m)
    ensures ScanAt(ps, extra, pick, r)
  {
  }

  /** The invariant is kept by a point at the open run's hour. */
  lemma ScanSame(qs: seq<Point>, p: Point, extra: seq<nat>, pick: Picker, r: Result<Scan>)
    requires |qs| > 0 && Sorted(qs) && p.0 == qs[|qs| - 1].0
    requires ScanAt(qs, extra, pick, r)
    ensures ScanAt(qs + [p], extra, pick, Step(r, p, pick))
  {
    var ps := qs + [p];
    var m := |Hours(qs)| - 1;
    var rs, b := Picks(Hours(qs), Ballots(qs, extra), pick, m), Ballot(qs, extra, m);
    assert r == Resume(rs, p.0, b, m);
    assert Hours(ps) == Hours(qs) && Ballot(ps, extra, m) == b + [p.1] by {
      SameHourBallot(qs, p, extra, m);
    }
    assert Picks(Hours(ps), Ballots(ps, extra), pick, m) == rs by {
      SameHourPicks(qs, p, extra, pick, m);
    }
    assert Step(r, p, pick) == Resume(rs, p.0, b + [p.1], m) by {
      StepSame(rs, p.0, b, m, p, pick);
    }
    assert ps[|ps| - 1] == p;
    ScanAtIntro(ps, extra, pick, Step(r, p, pick), m);
  }

  /** The invariant is kept by a point at a later hour. */
  lemma ScanNew(qs: seq<Point>, p: Point, extra: seq<nat>, pick: Picker, r: Result<Scan>)
    requires |qs| > 0 && Sorted(qs) && p.0 > qs[|qs| - 1].0
    requires ScanAt(qs, extra, pick, r)
    ensures ScanAt(qs + [p], extra, pick, Step(r, p, pick))
  {
    var ps := qs + [p];
    var m := |Hours(qs)| - 1;
    var rs, last, b := Picks(Hours(qs), Ballots(qs, extra), pick, m), qs[|qs| - 1].0, Ballot(qs, extra, m);
    assert r == Resume(rs, last, b, m);
    assert |Hours(ps)| == m + 2 && Ballot(ps, extra, m + 1) == [p.1] by {
      NewBallot(qs, p, extra);
    }
    assert Picks(Hours(ps), Ballots(ps, extra), pick, m + 1) == Then(rs, last, b, m, pick) by {
      NewHour(qs, p, extra, pick, m);
    }
    assert Step(r, p, pick) == Resume(Then(rs, last, b, m, pick), p.0, [p.1], m + 1) by {
      StepNew(rs, last, b, m, p, pick);
    }
    assert ps[|ps| - 1] == p;
    ScanAtIntro(ps, extra, pick, Step(r, p, pick), m + 1);
  }

  /** The scan over sorted points, primed with the first hour and the
      antennas `extra`, has emitted the reference picks of every hour but
      the last, whose run is still open with the last hour's ballot. */
  lemma {:induction false} ScanPrefix(ps: seq<Point>, extra: seq<nat>, pick: Picker)
    requires |ps| > 0 && Sorted(ps)
    ensures ScanAt(ps, extra, pick, Run(Scan([], ps[0].0, extra, 0), ps, pick))
  {
    var st := Scan([], ps[0].0, extra, 0);
    var qs, p := ps[..|ps| - 1], ps[|ps| - 1];
    assert ps == qs + [p];
    RunSnoc(st, qs, p, pick);
    if |qs| == 0 {
      assert ps == [p];
      ScanFirst(p, extra, pick);
    } else {
      assert Sorted(qs) && qs[0] == ps[0];
      ScanPrefix(qs, extra, pick);
      if p.0 == qs[|qs| - 1].0 {
        ScanSame(qs, p, extra, pick, Run(st, qs, pick));
      } else {
        ScanNew(qs, p, extra, pick, Run(st, qs, pick));
      }
    }
  }

  /** The `(0, 0)` point that ends the track closes the last run when its
      hour is not 0; when it is, every point is at hour 0 and nothing is
      emitted. */
  lemma SentinelFlush(ps: seq<Point>, extra: seq<nat>, pick: Picker)
    requires |ps| > 0 && Sorted(ps)
    ensures Emitted(Run(Scan([], ps[0].0, extra, 0), ps + [(0, 0)], pick)) ==
              if ps[|ps| - 1].0 == 0 then Ok([]) else Picks(Hours(ps), Ballots(ps, extra), pick, |Hours(ps)|)
  {
    var st := Scan([], ps[0].0, extra, 0);
    RunSnoc(st, ps, (0, 0), pick);
    ScanPrefix(ps, extra, pick);
    assert ScanAt(ps, extra, pick, Run(st, ps, pick));
    var h := Hours(ps);
    var m := |h| - 1;
    var r, last, b := Picks(h, Ballots(ps, extra), pick, m), ps[|ps| - 1].0, Ballot(ps, extra, m);
    if last == 0 {
      HoursIncrease(ps);
      assert m == 0;
      StepSame(r, last, b, m, (0, 0), pick);
    } else {
      StepNew(r, last, b, m, (0, 0), pick);
      assert Ballots(ps, extra)[m] == b;
    }
  }

  // ---- The whole function ----

  /** The random tie-break: the `k`-th hour's antenna is `draws[k]`. */
  function PickWith(draws: seq<int>): Picker
  {
    (choices: seq<nat>, k: nat) => Pick(choices, draws, k)
  }

  /** The pairs `numbarator` keeps from the points read, before encoding:
      the points sorted by `order`, scanned with `(0, 0)` appended, the
      first run primed with the first antenna. No point gives an empty
      trace; an `order` that does not sort the points is not one `argsort`
      could return. */
  function Track(pts: seq<Point>, order: seq<nat>, draws: seq<int>): (r: Result<seq<Point>>)
    ensures pts == [] ==> r == Ok([])
    ensures pts != [] && !SortsByHour(order, pts) ==> r == Err(InvalidDraw)
  {
    if |pts| == 0 then Ok([])
    else if !SortsByHour(order, pts) then Err(InvalidDraw)
    else
      var ps := Permute(pts, order);
      Emitted(Run(Scan([], ps[0].0, [ps[0].1], 0), ps + [(0, 0)], PickWith(draws)))
  }

  /** The pairs kept from the log's lines; a line that fails to read stops
      everything. */
  function HourTrack(lines: seq<string>, dates: seq<string>, ants: seq<string>, order: seq<nat>, draws: seq<int>): (r: Result<seq<Point>>)
    ensures Points(lines, dates, ants).Err? ==> r == Err(Points(lines, dates, ants).error)
    ensures Points(lines, dates, ants).Ok? ==> r == Track(Points(lines, dates, ants).value, order, draws)
  {
    match Points(lines, dates, ants)
    case Err(e) => Err(e)
    case Ok(pts) => Track(pts, order, draws)
  }

  /** `numbarator`: each kept pair as the index `total_ants * hour + antenna`. */
  function NumbaratorIndices(lines: seq<string>, dates: seq<string>, ants: seq<string>, order: seq<nat>, draws: seq<int>): (r: Result<seq<int>>)
    ensures r.Ok? <==> HourTrack(lines, dates, ants, order, draws).Ok?
    ensures r.Ok? ==> |r.value| == |HourTrack(lines, dates, ants, order, draws).value|
  {
    match HourTrack(lines, dates, ants, order, draws)
    case Err(e) => Err(e)
    case Ok(out) => Ok(seq(|out|, i requires 0 <= i < |out| => Encode(out[i].0, out[i].1, |ants|)))
  }

  /** The reference track of sorted points: one pick per distinct hour, the
      first hour's ballot primed with the first antenna. */
  function Reference(ps: seq<Point>, draws: seq<int>): Result<seq<Point>>
    requires |ps| > 0
  {
    Picks(Hours(ps), Ballots(ps, [ps[0].1]), PickWith(draws), |Hours(ps)|)
  }

  /** The scan agrees with the reference: nothing when the last hour is 0,
      otherwise one pick per distinct hour. */
  lemma TrackPicks(pts: seq<Point>, order: seq<nat>, draws: seq<int>)
    requires |pts| > 0 && SortsByHour(order, pts)
    ensures var ps := Permute(pts, order);
            && Sorted(ps)
            && (forall p :: p in ps <==> p in pts)
            && Track(pts, order, draws) == if ps[|ps| - 1].0 == 0 then Ok([]) else Reference(ps, draws)
  {
    var ps := Permute(pts, order);
    PermuteSorts(pts, order);
    SentinelFlush(ps, [ps[0].1], PickWith(draws));
  }

  /** The first hour is the first point's. */
  lemma {:induction false} HoursFirst(ps: seq<Point>)
    requires |ps| > 0
    ensures Hours(ps)[0] == ps[0].0
  {
    if |ps| > 1 {
      var qs := ps[..|ps| - 1];
      HoursFirst(qs);
      assert qs[0] == ps[0];
    }
  }

  /** Every point's hour is one of the hours. */
  lemma HourOfPoint(ps: seq<Point>, p: Point)
    requires p in ps
    ensures p.0 in Hours(ps)
  {
    HoursMembers(ps);
    var i :| 0 <= i < |ps| && ps[i] == p;
    assert ps[i].0 == p.0;
  }

  /** The first hour's ballot: its votes, plus the first antenna again,
      which is among those votes. */
  lemma FirstBallot(ps: seq<Point>)
    requires |ps| > 0
    ensures Hours(ps)[0] == ps[0].0
    ensures Ballot(ps, [ps[0].1], 0) == [ps[0].1] + Votes(ps, ps[0].0)
    ensures ps[0].1 in Votes(ps, ps[0].0)
  {
    HoursFirst(ps);
    VotesMembers(ps, ps[0].0);
    assert (ps[0].0, ps[0].1) == ps[0];
  }

  /** Every vote on a ballot is an antenna recorded at that hour. */
  lemma BallotMembers(ps: seq<Point>, k: nat, x: nat)
    requires |ps| > 0 && k < |Hours(ps)|
    requires x in Ballot(ps, [ps[0].1], k)
    ensures (Hours(ps)[k], x) in ps
  {
    VotesMembers(ps, Hours(ps)[k]);
    if k == 0 {
      FirstBallot(ps);
    }
  }

  /** The reference picks, when they succeed: one pair per hour, in the
      order of the hours, each pair a point of the log. */
  lemma ReferenceShape(ps: seq<Point>, draws: seq<int>)
    requires |ps| > 0 && Reference(ps, draws).Ok?
    ensures var out := Reference(ps, draws).value;
            && |out| == |Hours(ps)|
            && forall k :: 0 <= k < |out| ==> out[k].0 == Hours(ps)[k] && out[k] in ps
  {
    var extra, h := [ps[0].1], Hours(ps);
    var out := Reference(ps, draws).value;
    PicksValues(h, Ballots(ps, extra), PickWith(draws), |h|);
    forall k | 0 <= k < |out|
      ensures out[k].0 == h[k] && out[k] in ps
    {
      var b := Ballot(ps, extra, k);
      assert Ballots(ps, extra)[k] == b;
      assert out[k] == (h[k], Pick(b, draws, k).value);
      BallotMembers(ps, k, out[k].1);
    }
  }

  /** The reference picks, from sorted points: one pair per hour, hours
      strictly increasing, each pair a point of the log whose antenna is a
      most frequent one on its hour's ballot. */
  lemma ReferenceFacts(ps: seq<Point>, draws: seq<int>)
    requires |ps| > 0 && Sorted(ps)
    requires Reference(ps, draws).Ok?
    ensures var out := Reference(ps, draws).value;
            && |out| == |Hours(ps)|
            && (forall i, j :: 0 <= i < j < |out| ==> out[i].0 < out[j].0)
            && (forall k :: 0 <= k < |out| ==> out[k].0 == Hours(ps)[k] && out[k] in ps)
            && forall k :: 0 <= k < |out| ==> MostFrequent(Ballot(ps, [ps[0].1], k), out[k].1)
  {
    var extra, h := [ps[0].1], Hours(ps);
    var out := Reference(ps, draws).value;
    ReferenceShape(ps, draws);
    PicksValues(h, Ballots(ps, extra), PickWith(draws), |h|);
    HoursIncrease(ps);
    forall k | 0 <= k < |out|
      ensures MostFrequent(Ballot(ps, extra, k), out[k].1)
    {
      var b := Ballot(ps, extra, k);
      assert Ballots(ps, extra)[k] == b;
    }
  }

  /** Every hour of the points is emitted, once and in order, unless the
      last hour is 0, in which case the trace is empty. Each emitted pair is
      one of the points. */
  lemma TrackFacts(pts: seq<Point>, ps: seq<Point>, draws: seq<int>, out: seq<Point>)
    requires |ps| > 0 && Sorted(ps) && forall p :: p in ps <==> p in pts
    requires Ok(out) == if ps[|ps| - 1].0 == 0 then Ok([]) else Reference(ps, draws)
    ensures forall i, j :: 0 <= i < j < |out| ==> out[i].0 < out[j].0
    ensures forall k :: 0 <= k < |out| ==> out[k] in pts
    ensures out == [] || forall i :: 0 <= i < |pts| ==> pts[i].0 in TrackHours(out)
  {
    if ps[|ps| - 1].0 != 0 {
      ReferenceShape(ps, draws);
      HoursIncrease(ps);
      HoursOfPoints(ps, pts);
      PairsCover(out, Hours(ps), ps, pts);
    }
  }

  /** Every point's hour is one of the hours of a list holding the same
      points. */
  lemma HoursOfPoints(ps: seq<Point>, pts: seq<Point>)
    requires forall p :: p in ps <==> p in pts
    ensures forall i :: 0 <= i < |pts| ==> pts[i].0 in Hours(ps)
  {
    forall i | 0 <= i < |pts|
      ensures pts[i].0 in Hours(ps)
    {
      HourOfPoint(ps, pts[i]);
    }
  }

  /** Pairs that carry the increasing hours `hs` in order, each a point of
      `ps`, are increasing, are points of `pts` when `ps` and `pts` hold the
      same points, and cover every point whose hour is among `hs`. */
  lemma PairsCover(out: seq<Point>, hs: seq<nat>, ps: seq<Point>, pts: seq<Point>)
    requires |out| == |hs| && forall k :: 0 <= k < |out| ==> out[k].0 == hs[k] && out[k] in ps
    requires forall i, j :: 0 <= i < j < |hs| ==> hs[i] < hs[j]
    requires forall p :: p in ps <==> p in pts
    requires forall i :: 0 <= i < |pts| ==> pts[i].0 in hs
    ensures forall i, j :: 0 <= i < j < |out| ==> out[i].0 < out[j].0
    ensures forall k :: 0 <= k < |out| ==> out[k] in pts
    ensures forall i :: 0 <= i < |pts| ==> pts[i].0 in TrackHours(out)
  {
    assert TrackHours(out) == hs;
  }

  /** The hours of a track, in order. */
  function TrackHours(out: seq<Point>): (r: seq<nat>)
    ensures |r| == |out| && forall k :: 0 <= k < |out| ==> r[k] == out[k].0
  {
    seq(|out|, k requires 0 <= k < |out| => out[k].0)
  }

  /** `numbarator`'s pairs before encoding: hours strictly increase, each
      pair is a point of the log, and every hour of the log is there unless
      the trace is empty, which it is when the last hour is 0. */
  lemma TrackProperties(pts: seq<Point>, order: seq<nat>, draws: seq<int>)
    requires |pts| > 0 && SortsByHour(order, pts)
    requires Track(pts, order, draws).Ok?
    ensures var out := Track(pts, order, draws).value;
            && (forall i, j :: 0 <= i < j < |out| ==> out[i].0 < out[j].0)
            && (forall k :: 0 <= k < |out| ==> out[k] in pts)
            && (out == [] || forall i :: 0 <= i < |pts| ==> pts[i].0 in TrackHours(out))
  {
    TrackPicks(pts, order, draws);
    TrackFacts(pts, Permute(pts, order), draws, Track(pts, order, draws).value);
  }

  lemma EncodeBelow(t: nat, x: nat, t': nat, x': nat, lants: nat)
    requires t < t' && x < lants
    ensures Encode(t, x, lants) < Encode(t', x', lants)
  {
    MulStep(t, t', lants);
  }

  lemma MulStep(t: nat, t': nat, c: nat)
    requires t < t'
    ensures t * c + c <= t' * c
  {
    var d := t' - t - 1;
    assert t' == t + 1 + d;
    assert t' * c == t * c + c + d * c;
  }

  /** The indices decode back to the emitted pairs (`ind // total_ants` is
      the hour, `ind % total_ants` the antenna), and they strictly increase. */
  lemma NumbaratorDecodes(lines: seq<string>, dates: seq<string>, ants: seq<string>, order: seq<nat>, draws: seq<int>)
    requires Points(lines, dates, ants).Ok?
    requires var pts := Points(lines, dates, ants).value; |pts| > 0 && SortsByHour(order, pts)
    requires NumbaratorIndices(lines, dates, ants, order, draws).Ok?
    ensures var inds, out := NumbaratorIndices(lines, dates, ants, order, draws).value, HourTrack(lines, dates, ants, order, draws).value;
            && (forall k :: 0 <= k < |inds| ==>
                  FloorDiv(inds[k], |ants|) == out[k].0 && FloorMod(inds[k], |ants|) == out[k].1)
            && forall i, j :: 0 <= i < j < |inds| ==> inds[i] < inds[j]
  {
    var pts := Points(lines, dates, ants).value;
    var out := HourTrack(lines, dates, ants, order, draws).value;
    var inds := NumbaratorIndices(lines, dates, ants, order, draws).value;
    TrackProperties(pts, order, draws);
    forall k | 0 <= k < |inds|
      ensures out[k].1 < |ants|
      ensures FloorDiv(inds[k], |ants|) == out[k].0 && FloorMod(inds[k], |ants|) == out[k].1
    {
      assert out[k] in pts;
      DecodeEncode(out[k].0, out[k].1, |ants|);
    }
    forall i, j | 0 <= i < j < |inds|
      ensures inds[i] < inds[j]
    {
      EncodeBelow(out[i].0, out[i].1, out[j].0, out[j].1, |ants|);
    }
  }
}

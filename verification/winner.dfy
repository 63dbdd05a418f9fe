/** `winner_takes_all`: the antenna kept for an hour is one of the most
    frequent among that hour's records. The program tallies the choices into
    two arrays as long as the choice list, padded with `-1` (distinct values
    in order of first appearance, and their counts), sorts the slots by
    descending count and draws uniformly among the leading run of equal
    counts. The sort is not stable, so the order of that run is unspecified:
    the draw is modelled as the value picked, which must be a leader. */
module Winner {
  import opened Common

  /** The loop over `choices`: distinct values in order of first appearance
      and how often each has been seen so far. */
  function Tally(choices: seq<nat>): (r: (seq<nat>, seq<nat>))
    ensures |r.0| == |r.1| <= |choices| && Distinct(r.0)
    ensures |choices| > 0 ==> |r.0| > 0
  {
    if |choices| == 0 then ([], [])
    else
      var (u, c) := Tally(choices[..|choices| - 1]);
      var x := choices[|choices| - 1];
      if x in u then
        var k := IndexOf(u, x);
        (u, c[k := c[k] + 1])
      else (u + [x], c + [1])
  }

  /** The tally lists exactly the values of `choices`, each with its number
      of occurrences. */
  lemma {:induction false} TallyCounts(choices: seq<nat>)
    ensures forall x :: x in Tally(choices).0 <==> x in choices
    ensures forall i :: 0 <= i < |Tally(choices).0| ==>
              Tally(choices).1[i] == multiset(choices)[Tally(choices).0[i]]
  {
    if |choices| > 0 {
      var init, x := choices[..|choices| - 1], choices[|choices| - 1];
      assert choices == init + [x];
      TallyCounts(init);
      var (u, c) := Tally(init);
      assert multiset(choices) == multiset(init) + multiset{x};
      if x in u {
        var k := IndexOf(u, x);
        forall i | 0 <= i < |u| && i != k
          ensures u[i] != x
        {
          assert Distinct(u);
        }
      } else {
        assert multiset(init)[x] == 0;
      }
    }
  }

  /** The two padded arrays of the program: `unique_choices` and `counts`,
      each as long as `choices`, unused slots holding `-1`. */
  function Slots(choices: seq<nat>): (r: (seq<int>, seq<int>))
    ensures |r.0| == |r.1| == |choices|
  {
    var (u, c) := Tally(choices);
    var pad: seq<int> := Repeat(-1, |choices| - |u|);
    var us: seq<int> := u;
    var cs: seq<int> := c;
    (us + pad, cs + pad)
  }

  function Max(s: seq<int>): (r: int)
    requires |s| > 0
    ensures (exists i :: 0 <= i < |s| && s[i] == r) && forall i :: 0 <= i < |s| ==> s[i] <= r
  {
    if |s| == 1 then s[0]
    else
      var m := Max(s[..|s| - 1]);
      assert forall i :: 0 <= i < |s| - 1 ==> s[..|s| - 1][i] == s[i];
      if s[|s| - 1] > m then s[|s| - 1] else m
  }

  /** `x` occurs in `choices` at least as often as any other choice. */
  predicate MostFrequent(choices: seq<nat>, x: int)
  {
    x >= 0 && x in choices && forall y :: y in choices ==> multiset(choices)[y] <= multiset(choices)[x]
  }

  /** The tallied slot `i` holds a value of `choices` and its count. */
  lemma SlotIsChoice(choices: seq<nat>, i: nat)
    requires i < |Tally(choices).0|
    ensures Slots(choices).0[i] == Tally(choices).0[i] && Slots(choices).0[i] in choices
    ensures Slots(choices).1[i] == multiset(choices)[Tally(choices).0[i]] >= 1
  {
    TallyCounts(choices);
  }

  /** The values of the leading run after sorting the slots by descending
      count: those whose count equals the largest count. Every choice counts
      at least once, so the `-1` padding, counted `-1` times, never leads. */
  function Leaders(choices: seq<nat>): (r: set<int>)
    requires |choices| > 0
    ensures forall x :: x in r <==> MostFrequent(choices, x)
  {
    var (vals, cnts) := Slots(choices);
    var top := Max(cnts);
    var r := set i | 0 <= i < |vals| && cnts[i] == top :: vals[i];
    LeadersAreMostFrequent(choices, r);
    r
  }

  lemma LeadersAreMostFrequent(choices: seq<nat>, r: set<int>)
    requires |choices| > 0
    requires r == set i | 0 <= i < |Slots(choices).0| && Slots(choices).1[i] == Max(Slots(choices).1) :: Slots(choices).0[i]
    ensures forall x :: x in r <==> MostFrequent(choices, x)
  {
    var (vals, cnts) := Slots(choices);
    var (u, c) := Tally(choices);
    var top := Max(cnts);
    TallyCounts(choices);
    SlotIsChoice(choices, 0);
    assert top >= 1;
    forall x | x in r
      ensures MostFrequent(choices, x)
    {
      var i :| 0 <= i < |vals| && cnts[i] == top && vals[i] == x;
      assert i < |u|;
      SlotIsChoice(choices, i);
      forall y | y in choices
        ensures multiset(choices)[y] <= multiset(choices)[x]
      {
        var j := IndexOf(u, y);
        SlotIsChoice(choices, j);
      }
    }
    forall x | MostFrequent(choices, x)
      ensures x in r
    {
      var i := IndexOf(u, x);
      SlotIsChoice(choices, i);
      var j :| 0 <= j < |cnts| && cnts[j] == top;
      if j < |u| {
        SlotIsChoice(choices, j);
      }
      assert cnts[i] == top;
    }
  }

  /** `winner_takes_all(choices)` with the value `draw` picked from the
      leaders. A single choice is returned as it is; an empty list fails on
      `counts[0]`; a draw that is not a leader could not have been picked. */
  function WinnerTakesAll(choices: seq<nat>, draw: int): (r: Result<nat>)
    ensures |choices| == 1 ==> r == Ok(choices[0])
    ensures |choices| == 0 ==> r == Err(IndexOutOfRange)
    ensures r.Ok? ==> MostFrequent(choices, r.value)
    ensures |choices| > 1 ==> (r.Ok? <==> MostFrequent(choices, draw))
    ensures |choices| > 1 && r.Ok? ==> r.value == draw
  {
    if |choices| == 1 then
      assert choices == [choices[0]];
      Ok(choices[0])
    else if |choices| == 0 then Err(IndexOutOfRange)
    else if draw in Leaders(choices) then Ok(draw)
    else Err(InvalidDraw)
  }

  /** Every most frequent choice is a possible outcome: there is a draw
      that picks it. */
  lemma EveryLeaderReachable(choices: seq<nat>, x: nat)
    requires MostFrequent(choices, x)
    ensures exists d :: WinnerTakesAll(choices, d) == Ok(x)
  {
    if |choices| == 1 {
      assert choices == [choices[0]];
      assert WinnerTakesAll(choices, x) == Ok(x);
    } else {
      assert WinnerTakesAll(choices, x) == Ok(x);
    }
  }
}

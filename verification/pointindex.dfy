/** The point-to-users index built from user traces, and the direct
    uniqueness test that queries it. A user-to-points dictionary is given as
    its list of items, in the dictionary's iteration order. */
module PointIndex {
  import opened Common

  /** One dictionary item: a user id and that user's points. */
  type Trace = (nat, seq<int>)

  /** `uid` visited `p` according to some item of `u2p`. */
  ghost predicate Visited(u2p: seq<Trace>, uid: nat, p: int)
  {
    exists i :: 0 <= i < |u2p| && u2p[i].0 == uid && p in u2p[i].1
  }

  /** The inner loop of `get_p2u` over one trace: appends `uid` to the list
      of every point of `pts`. */
  function AddTrace(m: map<int, seq<nat>>, uid: nat, pts: seq<int>): (r: map<int, seq<nat>>)
    ensures r.Keys == m.Keys + (set q | q in pts)
    ensures forall p, v :: p in r ==>
              (v in r[p] <==> (p in m && v in m[p]) || (v == uid && p in pts))
  {
    if |pts| == 0 then m
    else
      var r0 := AddTrace(m, uid, pts[..|pts| - 1]);
      var p := pts[|pts| - 1];
      assert forall q :: q in pts <==> q in pts[..|pts| - 1] || q == p;
      r0[p := (if p in r0 then r0[p] else []) + [uid]]
  }

  /** Peeling off the last trace: a point occurs, or a user visits it, in
      all traces exactly when it does in the earlier ones or the last. */
  lemma P2UStep(u2p: seq<Trace>)
    requires |u2p| > 0
    ensures var init, last := u2p[..|u2p| - 1], u2p[|u2p| - 1];
            forall p :: (exists i :: 0 <= i < |u2p| && p in u2p[i].1) <==>
                        (exists i :: 0 <= i < |init| && p in init[i].1) || p in last.1
    ensures var init, last := u2p[..|u2p| - 1], u2p[|u2p| - 1];
            forall p, v :: Visited(u2p, v, p) <==> Visited(init, v, p) || (v == last.0 && p in last.1)
  {
    var init, last := u2p[..|u2p| - 1], u2p[|u2p| - 1];
    forall p | exists i :: 0 <= i < |u2p| && p in u2p[i].1
      ensures (exists i :: 0 <= i < |init| && p in init[i].1) || p in last.1
    {
      var i :| 0 <= i < |u2p| && p in u2p[i].1;
      if i < |init| { assert init[i] == u2p[i]; }
    }
    forall p, v | Visited(u2p, v, p)
      ensures Visited(init, v, p) || (v == last.0 && p in last.1)
    {
      var i :| 0 <= i < |u2p| && u2p[i].0 == v && p in u2p[i].1;
      if i < |init| { assert init[i] == u2p[i]; }
    }
    forall p, v | Visited(init, v, p) ensures Visited(u2p, v, p)
    {
      var i :| 0 <= i < |init| && init[i].0 == v && p in init[i].1;
      assert u2p[i] == init[i];
    }
  }

  /** `get_p2u`: for every point, the users whose trace holds it. The keys
      are exactly the points occurring in some trace, and a user is listed
      under a point exactly when the point is in that user's trace. */
  function GetP2U(u2p: seq<Trace>): (r: map<int, seq<nat>>)
    ensures forall p :: p in r <==> exists i :: 0 <= i < |u2p| && p in u2p[i].1
    ensures forall p, v :: p in r ==> (v in r[p] <==> Visited(u2p, v, p))
  {
    if |u2p| == 0 then map[]
    else
      var init := u2p[..|u2p| - 1];
      var last := u2p[|u2p| - 1];
      var m := GetP2U(init);
      var r := AddTrace(m, last.0, last.1);
      P2UStep(u2p);
      r
  }

  /** The loop of `check_unique`: intersects `pop` with the users of every
      point of `pset` in turn; a point missing from `p2u` raises `KeyError`. */
  function Survivors(pop: set<nat>, pset: seq<int>, p2u: map<int, seq<nat>>): (r: Result<set<nat>>)
    ensures r.Err? <==> exists q :: 0 <= q < |pset| && pset[q] !in p2u
    ensures r.Ok? ==> r.value == set u | u in pop && forall q :: 0 <= q < |pset| ==> u in p2u[pset[q]]
  {
    if |pset| == 0 then Ok(pop)
    else
      var init := pset[..|pset| - 1];
      var p := pset[|pset| - 1];
      match Survivors(pop, init, p2u)
      case Err(e) => Err(e)
      case Ok(s) =>
        if p !in p2u then Err(KeyMissing)
        else
          var s' := set u | u in s && u in p2u[p];
          assert forall q :: 0 <= q < |init| ==> init[q] == pset[q];
          Ok(s')
  }

  /** `check_unique`: 1 when exactly one member of `pop` has visited every
      point of `pset`, 0 otherwise. */
  function CheckUnique(pop: set<nat>, pset: seq<int>, p2u: map<int, seq<nat>>): (r: Result<nat>)
    ensures r.Err? <==> exists q :: 0 <= q < |pset| && pset[q] !in p2u
    ensures r.Ok? ==> r.value <= 1
    ensures r.Ok? ==> (r.value == 1 <==>
              |(set u | u in pop && forall q :: 0 <= q < |pset| ==> u in p2u[pset[q]])| == 1)
  {
    match Survivors(pop, pset, p2u)
    case Err(e) => Err(e)
    case Ok(s) => Ok(if |s| == 1 then 1 else 0)
  }

  /** The members of `pop` whose traces contain every point of `pset`. */
  ghost function Holders(u2p: seq<Trace>, pop: set<nat>, pset: seq<int>): set<nat>
  {
    set u | u in pop && forall q :: 0 <= q < |pset| ==> Visited(u2p, u, pset[q])
  }

  /** Queried against the index of the traces themselves, `check_unique`
      answers 1 exactly when one member of the population holds all the
      points, provided every point occurs in some trace. */
  lemma CheckUniqueAgainstTraces(u2p: seq<Trace>, pop: set<nat>, pset: seq<int>)
    requires forall q :: 0 <= q < |pset| ==> exists i :: 0 <= i < |u2p| && pset[q] in u2p[i].1
    ensures CheckUnique(pop, pset, GetP2U(u2p)) == Ok(if |Holders(u2p, pop, pset)| == 1 then 1 else 0)
  {
    var p2u := GetP2U(u2p);
    var s := Survivors(pop, pset, p2u);
    assert s.Ok?;
    assert s.value == Holders(u2p, pop, pset);
  }
}

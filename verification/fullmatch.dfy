/** The full-match test of the unicity loop. Each population user's row of
    the stacked incidence matrix is multiplied by a probe column of `k`
    points. The product counts the probe points the user shares, and
    `floor(product / k)` is 1 exactly when the user holds all of them. The
    column sums of those floors count, per probe, the users holding it. */
module FullMatch {
  import opened Common
  import opened Payloads
  import opened Sparse

  /** How many of the probe's points lie in the trace. */
  function Matches(probe: seq<nat>, trace: seq<nat>): (r: nat)
    ensures r <= |probe|
  {
    if |probe| == 0 then 0
    else Matches(probe[..|probe| - 1], trace) + (if probe[|probe| - 1] in trace then 1 else 0)
  }

  /** The trace holds every point of the probe. */
  predicate Holds(trace: seq<nat>, probe: seq<nat>)
  {
    forall x :: x in probe ==> x in trace
  }

  /** All probe points match exactly when the trace holds the probe. */
  lemma {:induction false} MatchesAll(probe: seq<nat>, trace: seq<nat>)
    ensures Matches(probe, trace) == |probe| <==> Holds(trace, probe)
  {
    if |probe| > 0 {
      var init, last := probe[..|probe| - 1], probe[|probe| - 1];
      assert probe == init + [last];
      MatchesAll(init, trace);
      if Holds(trace, probe) {
        assert Holds(trace, init);
      }
    }
  }

  /** `floor(dot / k)` for a probe of `k` points is 1 when all of them are
      shared and 0 otherwise. */
  lemma FullMatchTest(probe: seq<nat>, trace: seq<nat>)
    requires |probe| > 0
    ensures Matches(probe, trace) / |probe| == (if Holds(trace, probe) then 1 else 0)
  {
    MatchesAll(probe, trace);
    var m, k := Matches(probe, trace), |probe|;
    if m == k {
      assert m / k == 1;
    } else {
      assert m < k;
      assert m / k == 0;
    }
  }

  /** The first `n` terms of the dot product of the multiplicity vectors of
      `a` and `b`. */
  function MulSum(a: seq<nat>, b: seq<nat>, n: nat): nat
  {
    if n == 0 then 0 else MulSum(a, b, n - 1) + multiset(a)[n - 1] * multiset(b)[n - 1]
  }

  lemma MulPlusIndicator(a: nat, b: nat, hit: bool)
    ensures a * (b + (if hit then 1 else 0)) == a * b + (if hit then a else 0)
  {
  }

  /** One more point in `b` adds its multiplicity in `a`, if it is counted. */
  lemma {:induction false} MulSumSnoc(a: seq<nat>, b: seq<nat>, x: nat, n: nat)
    ensures MulSum(a, b + [x], n) == MulSum(a, b, n) + (if x < n then multiset(a)[x] else 0)
  {
    if n > 0 {
      var c := n - 1;
      MulSumSnoc(a, b, x, c);
      assert multiset(b + [x])[c] == multiset(b)[c] + (if c == x then 1 else 0);
      MulPlusIndicator(multiset(a)[c], multiset(b)[c], c == x);
    }
  }

  /** An empty probe shares nothing. */
  lemma {:induction false} MulSumEmpty(a: seq<nat>, n: nat)
    ensures MulSum(a, [], n) == 0
  {
    if n > 0 {
      MulSumEmpty(a, n - 1);
    }
  }

  /** Against a trace without repeats, the dot product of multiplicities
      counts the probe points in the trace. */
  lemma {:induction false} MulSumMatches(a: seq<nat>, b: seq<nat>, n: nat)
    requires Distinct(a)
    requires forall x :: x in b ==> x < n
    ensures MulSum(a, b, n) == Matches(b, a)
  {
    if |b| == 0 {
      MulSumEmpty(a, n);
    } else {
      var init, last := b[..|b| - 1], b[|b| - 1];
      assert b == init + [last];
      assert forall x :: x in init ==> x in b;
      MulSumMatches(a, init, n);
      MulSumSnoc(a, init, last, n);
      DistinctMultiset(a);
      assert last in b;
      assert last in a <==> multiset(a)[last] > 0;
      assert multiset(a)[last] <= 1;
      assert multiset(a)[last] == (if last in a then 1 else 0);
      assert MulSum(a, b, n) == MulSum(a, init, n) + multiset(a)[last];
      assert Matches(b, a) == Matches(init, a) + (if last in a then 1 else 0);
    }
  }

  /** A row of multiplicities dotted with a column of multiplicities. */
  lemma {:induction false} DotColCounts(row: seq<nat>, m: Matrix, c: nat, a: seq<nat>, b: seq<nat>)
    requires Valid(m) && |row| <= m.nrows && c < m.ncols
    requires forall i :: 0 <= i < |row| ==> row[i] == multiset(a)[i] && m.cells[i][c] == multiset(b)[i]
    ensures DotCol(row, m, c) == MulSum(a, b, |row|)
  {
    if |row| > 0 {
      DotColCounts(row[..|row| - 1], m, c, a, b);
    }
  }

  /** Entry `(u, c)` of a product of incidence rows and a probe matrix is the
      number of probe points that user `u` shares, when its trace has no
      repeats and the probe fits the width. */
  lemma ProductEntry(segs: seq<seq<nat>>, m: Matrix, u: nat, c: nat, probe: seq<nat>)
    requires Valid(m) && u < |segs| && c < m.ncols
    requires forall i :: 0 <= i < m.nrows ==> m.cells[i][c] == multiset(probe)[i]
    requires Distinct(segs[u]) && forall x :: x in probe ==> x < m.nrows
    ensures Multiply(Incidence(segs, m.nrows), m).cells[u][c] == Matches(probe, segs[u])
  {
    var row := Incidence(segs, m.nrows).cells[u];
    assert Multiply(Incidence(segs, m.nrows), m).cells[u][c] == DotCol(row, m, c);
    DotColCounts(row, m, c, segs[u], probe);
    MulSumMatches(segs[u], probe, m.nrows);
  }

  /** `floor(m[u][c] / k)` summed over the first `n` rows. */
  function FloorSum(m: Matrix, c: nat, k: nat, n: nat): nat
    requires Valid(m) && c < m.ncols && n <= m.nrows && k > 0
  {
    if n == 0 then 0 else FloorSum(m, c, k, n - 1) + m.cells[n - 1][c] / k
  }

  /** `(ps / k).floor().sum(axis=0)`. Dividing a sparse matrix by zero
      raises. */
  function ColumnFullMatches(m: Matrix, k: nat): (r: Result<seq<nat>>)
    requires Valid(m)
    ensures r.Err? <==> k == 0
    ensures r.Err? ==> r.error == ZeroDivision
    ensures r.Ok? ==> |r.value| == m.ncols
  {
    if k == 0 then Err(ZeroDivision)
    else Ok(seq(m.ncols, c requires 0 <= c < m.ncols => FloorSum(m, c, k, m.nrows)))
  }

  /** How many of the first `n` traces hold the probe. */
  function Holders(traces: seq<seq<nat>>, probe: seq<nat>, n: nat): (r: nat)
    requires n <= |traces|
    ensures r <= n
  {
    if n == 0 then 0 else Holders(traces, probe, n - 1) + (if Holds(traces[n - 1], probe) then 1 else 0)
  }

  /** A trace holding the probe makes the holder count positive. */
  lemma {:induction false} HolderCounted(traces: seq<seq<nat>>, probe: seq<nat>, n: nat, u: nat)
    requires u < n <= |traces| && Holds(traces[u], probe)
    ensures Holders(traces, probe, n) >= 1
  {
    if u < n - 1 {
      HolderCounted(traces, probe, n - 1, u);
    }
  }

  /** Every trace that holds the probe is counted, and nothing else is:
      with no holder the count is zero. */
  lemma {:induction false} NoHolder(traces: seq<seq<nat>>, probe: seq<nat>, n: nat)
    requires n <= |traces|
    ensures Holders(traces, probe, n) == 0 <==> forall u :: 0 <= u < n ==> !Holds(traces[u], probe)
  {
    if n > 0 {
      NoHolder(traces, probe, n - 1);
    }
  }

  /** The floored column sum of the product over the first `n` users. */
  lemma {:induction false} FloorSumHolders(segs: seq<seq<nat>>, m: Matrix, c: nat, probe: seq<nat>, n: nat)
    requires Valid(m) && c < m.ncols && n <= |segs| && |probe| > 0
    requires forall i :: 0 <= i < m.nrows ==> m.cells[i][c] == multiset(probe)[i]
    requires forall u :: 0 <= u < |segs| ==> Distinct(segs[u])
    requires forall x :: x in probe ==> x < m.nrows
    ensures FloorSum(Multiply(Incidence(segs, m.nrows), m), c, |probe|, n) == Holders(segs, probe, n)
  {
    if n > 0 {
      FloorSumHolders(segs, m, c, probe, n - 1);
      ProductEntry(segs, m, n - 1, c, probe);
      FullMatchTest(probe, segs[n - 1]);
    }
  }

  /** Per probe column, the floored column sum is the number of population
      users whose trace holds every point of that probe. */
  lemma FullMatchesCountHolders(segs: seq<seq<nat>>, m: Matrix, probes: seq<seq<nat>>, k: nat)
    requires Valid(m) && k > 0 && |probes| == m.ncols
    requires forall c :: 0 <= c < m.ncols ==> |probes[c]| == k
    requires forall i, c :: 0 <= i < m.nrows && 0 <= c < m.ncols ==> m.cells[i][c] == multiset(probes[c])[i]
    requires forall u :: 0 <= u < |segs| ==> Distinct(segs[u])
    requires forall c, x :: 0 <= c < |probes| && x in probes[c] ==> x < m.nrows
    ensures ColumnFullMatches(Multiply(Incidence(segs, m.nrows), m), k).Ok?
    ensures forall c :: 0 <= c < m.ncols ==>
              ColumnFullMatches(Multiply(Incidence(segs, m.nrows), m), k).value[c] == Holders(segs, probes[c], |segs|)
  {
    var prod := Multiply(Incidence(segs, m.nrows), m);
    forall c | 0 <= c < m.ncols
      ensures ColumnFullMatches(prod, k).value[c] == Holders(segs, probes[c], |segs|)
    {
      FloorSumHolders(segs, m, c, probes[c], |segs|);
    }
  }
}

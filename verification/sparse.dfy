/** The sparse matrices, seen through their dense values: a `csr_matrix`
    built from triplets holds at `(r, c)` the sum of the data of every
    triplet at `(r, c)`. Products and vertical stacks are the usual ones. */
module Sparse {
  import opened Common
  import opened Payloads

  datatype Matrix = Matrix(nrows: nat, ncols: nat, cells: seq<seq<nat>>)

  predicate Valid(m: Matrix)
  {
    && |m.cells| == m.nrows
    && forall r :: 0 <= r < |m.cells| ==> |m.cells[r]| == m.ncols
  }

  /** The value csr gives to position `(r, c)`: duplicate triplets add up. */
  function Weighted(data: seq<nat>, rows: seq<nat>, cols: seq<nat>, r: nat, c: nat): nat
    requires |rows| == |data| && |cols| == |data|
  {
    if |data| == 0 then 0
    else
      var n := |data| - 1;
      Weighted(data[..n], rows[..n], cols[..n], r, c) + (if rows[n] == r && cols[n] == c then data[n] else 0)
  }

  lemma {:induction false} WeightedAppend(d1: seq<nat>, r1: seq<nat>, c1: seq<nat>,
                                          d2: seq<nat>, r2: seq<nat>, c2: seq<nat>, r: nat, c: nat)
    requires |r1| == |d1| && |c1| == |d1| && |r2| == |d2| && |c2| == |d2|
    ensures Weighted(d1 + d2, r1 + r2, c1 + c2, r, c) == Weighted(d1, r1, c1, r, c) + Weighted(d2, r2, c2, r, c)
  {
    if |d2| == 0 {
      assert d1 + d2 == d1 && r1 + r2 == r1 && c1 + c2 == c1;
    } else {
      var n := |d2| - 1;
      assert (d1 + d2)[..|d1| + n] == d1 + d2[..n];
      assert (r1 + r2)[..|d1| + n] == r1 + r2[..n];
      assert (c1 + c2)[..|d1| + n] == c1 + c2[..n];
      WeightedAppend(d1, r1, c1, d2[..n], r2[..n], c2[..n], r, c);
    }
  }

  /** One user's block of triplets: ones, row `v`, the user's columns. */
  lemma {:induction false} WeightedBlock(v: nat, s: seq<nat>, r: nat, c: nat)
    ensures Weighted(Repeat<nat>(1, |s|), Repeat<nat>(v, |s|), s, r, c) == if v == r then multiset(s)[c] else 0
  {
    if |s| > 0 {
      var n := |s| - 1;
      assert Repeat<nat>(1, |s|)[..n] == Repeat<nat>(1, n);
      assert Repeat<nat>(v, |s|)[..n] == Repeat<nat>(v, n);
      WeightedBlock(v, s[..n], r, c);
      assert s == s[..n] + [s[n]];
      assert multiset(s) == multiset(s[..n]) + multiset{s[n]};
      assert multiset(s)[c] == multiset(s[..n])[c] + (if s[n] == c then 1 else 0);
      assert Repeat<nat>(1, |s|)[n] == 1 && Repeat<nat>(v, |s|)[n] == v;
      assert Weighted(Repeat<nat>(1, |s|), Repeat<nat>(v, |s|), s, r, c)
          == Weighted(Repeat<nat>(1, n), Repeat<nat>(v, n), s[..n], r, c) + (if v == r && s[n] == c then 1 else 0);
    }
  }

  lemma {:induction false} WeightedSwap(data: seq<nat>, rows: seq<nat>, cols: seq<nat>, r: nat, c: nat)
    requires |rows| == |data| && |cols| == |data|
    ensures Weighted(data, rows, cols, r, c) == Weighted(data, cols, rows, c, r)
  {
    if |data| > 0 {
      var n := |data| - 1;
      WeightedSwap(data[..n], rows[..n], cols[..n], r, c);
    }
  }

  /** The dense 0/1 incidence of segments: row `u`, column `c` counts the
      occurrences of `c` in segment `u`. */
  function Incidence(segs: seq<seq<nat>>, ncols: nat): (r: Matrix)
    ensures Valid(r) && r.nrows == |segs| && r.ncols == ncols
  {
    Matrix(|segs|, ncols, seq(|segs|, u requires 0 <= u < |segs| =>
      seq(ncols, c requires 0 <= c < ncols => multiset(segs[u])[c])))
  }

  /** A laid-out payload, read as csr triplets, holds at `(u, c)` the number
      of times user `u`'s segment lists column `c`. */
  lemma {:induction false} SegmentEntries(segs: seq<seq<nat>>, ncols: nat, u: nat, c: nat)
    ensures WellFormed(FromSegments(segs, ncols))
    ensures var p := FromSegments(segs, ncols);
            Weighted(Data(p), Rows(p), p.cols, u, c) == if u < |segs| then multiset(segs[u])[c] else 0
  {
    if |segs| > 0 {
      var n := |segs| - 1;
      var last := segs[n];
      SegmentEntries(segs[..n], ncols, u, c);
      FromSegmentsSnoc(segs, ncols);
      var q := FromSegments(segs[..n], ncols);
      WeightedAppend(Data(q), Rows(q), q.cols, Repeat<nat>(1, |last|), Repeat<nat>(n, |last|), last, u, c);
      WeightedBlock(n, last, u, c);
    }
  }

  /** `csr_matrix((data, (rows, cols)), shape=(nrows, ncols))`: unequal
      array lengths and indices outside the shape raise `ValueError`. */
  function Sparsify(data: seq<nat>, rows: seq<nat>, cols: seq<nat>, nrows: nat, ncols: nat): (r: Result<Matrix>)
    ensures r.Ok? <==> |rows| == |data| && |cols| == |data| &&
                       forall i :: 0 <= i < |data| ==> rows[i] < nrows && cols[i] < ncols
    ensures r.Ok? ==> Valid(r.value) && r.value.nrows == nrows && r.value.ncols == ncols
  {
    if |rows| != |data| || |cols| != |data| then Err(ShapeMismatch)
    else if exists i :: 0 <= i < |data| && (rows[i] >= nrows || cols[i] >= ncols) then Err(IndexOutOfRange)
    else
      Ok(Matrix(nrows, ncols, seq(nrows, r requires 0 <= r < nrows =>
        seq(ncols, c requires 0 <= c < ncols => Weighted(data, rows, cols, r, c)))))
  }

  /** `csr_matrix((data, (rows, cols)), shape)` of a payload. */
  function SparsifyPayload(p: Payload): (r: Result<Matrix>)
    ensures r.Ok? ==> Valid(r.value) && r.value.nrows == p.nrows && r.value.ncols == p.ncols
  {
    Sparsify(Data(p), Rows(p), p.cols, p.nrows, p.ncols)
  }

  lemma LabelsBelow(acts: seq<nat>)
    ensures forall i :: 0 <= i < |Labels(acts)| ==> Labels(acts)[i] < |acts|
  {
    forall i | 0 <= i < |Labels(acts)| ensures Labels(acts)[i] < |acts|
    {
      var x := Labels(acts)[i];
      ConcatMember<nat>(Blocks(acts), x);
    }
  }

  /** An in-bounds laid-out payload becomes exactly the incidence matrix of
      its segments. */
  lemma SparsifySegments(segs: seq<seq<nat>>, ncols: nat)
    requires InBounds(FromSegments(segs, ncols))
    ensures SparsifyPayload(FromSegments(segs, ncols)) == Ok(Incidence(segs, ncols))
  {
    var p := FromSegments(segs, ncols);
    LabelsBelow(p.acts);
    var m := SparsifyPayload(p);
    assert m.Ok?;
    var inc := Incidence(segs, ncols);
    forall u | 0 <= u < |segs| ensures m.value.cells[u] == inc.cells[u]
    {
      forall c | 0 <= c < ncols ensures m.value.cells[u][c] == inc.cells[u][c]
      {
        SegmentEntries(segs, ncols, u, c);
      }
    }
    assert m.value.cells == inc.cells;
  }

  /** `sparsify_mat_list`: one matrix per payload, in order; the first
      payload that cannot be converted raises. */
  function SparsifyMatList(ml: seq<Payload>): (r: Result<seq<Matrix>>)
    ensures r.Ok? <==> forall i :: 0 <= i < |ml| ==> SparsifyPayload(ml[i]).Ok?
    ensures r.Ok? ==> |r.value| == |ml|
    ensures r.Ok? ==> forall i :: 0 <= i < |ml| ==> r.value[i] == SparsifyPayload(ml[i]).value
  {
    var rs := seq(|ml|, i requires 0 <= i < |ml| => SparsifyPayload(ml[i]));
    assert forall i :: 0 <= i < |ml| ==> rs[i] == SparsifyPayload(ml[i]);
    AllOk(rs)
  }

  /** Laid-out, in-bounds payloads become the incidence matrices of their
      segments, in order. */
  lemma SparsifyMatListSegments(segss: seq<seq<seq<nat>>>, ncols: nat)
    requires forall i :: 0 <= i < |segss| ==> InBounds(FromSegments(segss[i], ncols))
    ensures SparsifyMatList(seq(|segss|, i requires 0 <= i < |segss| => FromSegments(segss[i], ncols)))
            == Ok(seq(|segss|, i requires 0 <= i < |segss| => Incidence(segss[i], ncols)))
  {
    var ml := seq(|segss|, i requires 0 <= i < |segss| => FromSegments(segss[i], ncols));
    forall i | 0 <= i < |segss| ensures SparsifyPayload(ml[i]) == Ok(Incidence(segss[i], ncols))
    {
      SparsifySegments(segss[i], ncols);
    }
    var r := SparsifyMatList(ml);
    assert r.value == seq(|segss|, i requires 0 <= i < |segss| => Incidence(segss[i], ncols));
  }

  /** Column `c` of `b` dotted with `row`. */
  function DotCol(row: seq<nat>, b: Matrix, c: nat): nat
    requires Valid(b) && |row| <= b.nrows && c < b.ncols
  {
    if |row| == 0 then 0
    else DotCol(row[..|row| - 1], b, c) + row[|row| - 1] * b.cells[|row| - 1][c]
  }

  function RowTimes(row: seq<nat>, b: Matrix): (r: seq<nat>)
    requires Valid(b) && |row| == b.nrows
    ensures |r| == b.ncols
  {
    seq(b.ncols, c requires 0 <= c < b.ncols => DotCol(row, b, c))
  }

  predicate RowsFit(rows: seq<seq<nat>>, n: nat)
  {
    forall r :: 0 <= r < |rows| ==> |rows[r]| == n
  }

  function RowsTimes(rows: seq<seq<nat>>, b: Matrix): (r: seq<seq<nat>>)
    requires Valid(b) && RowsFit(rows, b.nrows)
    ensures |r| == |rows| && RowsFit(r, b.ncols)
  {
    seq(|rows|, r requires 0 <= r < |rows| => RowTimes(rows[r], b))
  }

  /** `a.dot(b)`. */
  function Multiply(a: Matrix, b: Matrix): (r: Matrix)
    requires Valid(a) && Valid(b) && a.ncols == b.nrows
    ensures Valid(r) && r.nrows == a.nrows && r.ncols == b.ncols
  {
    Matrix(a.nrows, b.ncols, RowsTimes(a.cells, b))
  }

  /** Matrices that can be stacked: all valid, all of width `n`. */
  predicate Stackable(ms: seq<Matrix>, n: nat)
  {
    forall i :: 0 <= i < |ms| ==> Valid(ms[i]) && ms[i].ncols == n
  }

  function Heights(ms: seq<Matrix>): (r: seq<nat>)
    ensures |r| == |ms|
  {
    seq(|ms|, i requires 0 <= i < |ms| => ms[i].nrows)
  }

  function CellsOf(ms: seq<Matrix>): (r: seq<seq<seq<nat>>>)
    ensures |r| == |ms|
  {
    seq(|ms|, i requires 0 <= i < |ms| => ms[i].cells)
  }

  lemma {:induction false} ConcatRowsFit(xs: seq<seq<seq<nat>>>, n: nat)
    requires forall i :: 0 <= i < |xs| ==> RowsFit(xs[i], n)
    ensures RowsFit(Concat(xs), n)
  {
    if |xs| > 0 {
      ConcatRowsFit(xs[..|xs| - 1], n);
    }
  }

  /** `sps.vstack`: the rows of every matrix, in order. */
  function VStack(ms: seq<Matrix>, n: nat): (r: Matrix)
    requires Stackable(ms, n)
    ensures Valid(r) && r.ncols == n && r.nrows == Sum(Heights(ms))
  {
    assert Lengths(CellsOf(ms)) == Heights(ms);
    ConcatLength(CellsOf(ms));
    ConcatRowsFit(CellsOf(ms), n);
    Matrix(Sum(Heights(ms)), n, Concat(CellsOf(ms)))
  }

  /** The incidence rows of two groups of users, one after the other. */
  lemma IncidenceAppend(a: seq<seq<nat>>, b: seq<seq<nat>>, n: nat)
    ensures Incidence(a + b, n).cells == Incidence(a, n).cells + Incidence(b, n).cells
  {
    var l, r := Incidence(a + b, n).cells, Incidence(a, n).cells + Incidence(b, n).cells;
    forall u | 0 <= u < |a + b| ensures l[u] == r[u]
    {
      if u < |a| {
        assert (a + b)[u] == a[u];
      } else {
        assert (a + b)[u] == b[u - |a|];
      }
    }
  }

  /** Stacking the incidence matrices of consecutive groups of users gives
      the incidence matrix of all of them. */
  lemma {:induction false} VStackIncidence(ss: seq<seq<seq<nat>>>, n: nat)
    ensures Stackable(seq(|ss|, k requires 0 <= k < |ss| => Incidence(ss[k], n)), n)
    ensures VStack(seq(|ss|, k requires 0 <= k < |ss| => Incidence(ss[k], n)), n) == Incidence(Concat(ss), n)
  {
    var ms := seq(|ss|, k requires 0 <= k < |ss| => Incidence(ss[k], n));
    if |ss| > 0 {
      var m := |ss| - 1;
      var init := seq(m, k requires 0 <= k < m => Incidence(ss[..m][k], n));
      VStackIncidence(ss[..m], n);
      assert ms[..m] == init;
      assert CellsOf(ms) == CellsOf(init) + [ms[m].cells];
      ConcatSnoc(CellsOf(init), ms[m].cells);
      IncidenceAppend(Concat(ss[..m]), ss[m], n);
      assert VStack(ms, n).cells == Incidence(Concat(ss), n).cells;
    }
  }

  /** Rows multiplied piecewise are the pieces of the rows multiplied. */
  lemma {:induction false} RowsTimesConcat(xs: seq<seq<seq<nat>>>, b: Matrix)
    requires Valid(b) && forall i :: 0 <= i < |xs| ==> RowsFit(xs[i], b.nrows)
    ensures RowsFit(Concat(xs), b.nrows)
    ensures RowsTimes(Concat(xs), b) ==
            Concat(seq(|xs|, i requires 0 <= i < |xs| => RowsTimes(xs[i], b)))
  {
    ConcatRowsFit(xs, b.nrows);
    if |xs| > 0 {
      var n := |xs| - 1;
      RowsTimesConcat(xs[..n], b);
      var ys := seq(|xs|, i requires 0 <= i < |xs| => RowsTimes(xs[i], b));
      assert ys[..n] == seq(n, i requires 0 <= i < n => RowsTimes(xs[..n][i], b));
      var a, l := Concat(xs[..n]), xs[n];
      assert Concat(xs) == a + l;
      assert RowsTimes(a + l, b) == RowsTimes(a, b) + RowsTimes(l, b);
    }
  }

  /** Multiplying each block and stacking the products equals stacking the
      blocks and multiplying once. */
  lemma StackThenMultiply(ms: seq<Matrix>, b: Matrix)
    requires Valid(b) && Stackable(ms, b.nrows)
    ensures Stackable(seq(|ms|, i requires 0 <= i < |ms| => Multiply(ms[i], b)), b.ncols)
    ensures VStack(seq(|ms|, i requires 0 <= i < |ms| => Multiply(ms[i], b)), b.ncols)
            == Multiply(VStack(ms, b.nrows), b)
  {
    var prods := seq(|ms|, i requires 0 <= i < |ms| => Multiply(ms[i], b));
    RowsTimesConcat(CellsOf(ms), b);
    assert CellsOf(prods) == seq(|ms|, i requires 0 <= i < |ms| => RowsTimes(CellsOf(ms)[i], b));
    assert Heights(prods) == Heights(ms);
  }

  /** Every product in the stack is defined: each block is as wide as every
      right-hand matrix is tall. */
  predicate ShapesAgree(res: seq<Matrix>, sd: map<nat, Matrix>)
  {
    && (forall i :: 0 <= i < |res| ==> Valid(res[i]))
    && (forall k :: k in sd ==> Valid(sd[k]))
    && (forall i, k :: 0 <= i < |res| && k in sd ==> res[i].ncols == sd[k].nrows)
  }

  /** The inner loop of `vstack_multiply` for one right-hand matrix. */
  function StackedProduct(res: seq<Matrix>, b: Matrix): (r: Matrix)
    requires Valid(b) && Stackable(res, b.nrows)
    ensures r == Multiply(VStack(res, b.nrows), b)
  {
    StackThenMultiply(res, b);
    VStack(seq(|res|, i requires 0 <= i < |res| => Multiply(res[i], b)), b.ncols)
  }

  /** `vstack_multiply`: for every key of `sd`, the blocks multiplied by
      `sd[key]` and stacked. A product of unequal inner dimensions raises,
      and so does stacking an empty list. */
  function VStackMultiply(res: seq<Matrix>, sd: map<nat, Matrix>): (r: Result<map<nat, Matrix>>)
    requires forall i :: 0 <= i < |res| ==> Valid(res[i])
    requires forall k :: k in sd ==> Valid(sd[k])
    ensures r.Ok? <==> |sd| == 0 || (|res| > 0 && ShapesAgree(res, sd))
    ensures r.Ok? ==> r.value.Keys == sd.Keys
    ensures r.Ok? ==> forall k :: k in sd ==>
              Stackable(res, sd[k].nrows) && r.value[k] == Multiply(VStack(res, sd[k].nrows), sd[k])
  {
    if |sd| == 0 then Ok(map[])
    else if |res| == 0 || !ShapesAgree(res, sd) then Err(ShapeMismatch)
    else
      assert forall k :: k in sd ==> Stackable(res, sd[k].nrows);
      Ok(map k | k in sd :: StackedProduct(res, sd[k]))
  }
}

/** The triplet payload `(data, rows, cols, shape, rand_acts)` that the
    resampler produces and that chunking and sampling cut up: user `u` owns
    `rand_acts[u]` consecutive entries, all with row index `u`, and its
    columns are the slice of `cols` that ends at the running total of the
    activities through `u`. Every stage writes `data` as ones and `rows` as
    those per-user labels, so the model stores `cols`, the shape and
    `rand_acts`, and derives the other two arrays (`Data`, `Rows`). */
module Payloads {
  import opened Common

  /** `shape` is `(nrows, ncols)`; `acts` is `rand_acts`. */
  datatype Payload = Payload(cols: seq<nat>, nrows: nat, ncols: nat, acts: seq<nat>)

  /** The row blocks: `acts[u]` copies of `u`. */
  function Blocks(acts: seq<nat>): (r: seq<seq<nat>>)
    ensures Lengths(r) == acts
  {
    seq(|acts|, u requires 0 <= u < |acts| => Repeat<nat>(u, acts[u]))
  }

  /** The row array: each user's index repeated once per activity. */
  function Labels(acts: seq<nat>): (r: seq<nat>)
    ensures |r| == Sum(acts)
  {
    ConcatLength(Blocks(acts));
    Concat(Blocks(acts))
  }

  /** The `data` array: a one per entry. */
  function Data(p: Payload): (r: seq<nat>)
    ensures |r| == |p.cols|
  {
    Repeat<nat>(1, |p.cols|)
  }

  /** The `rows` array: each user's label once per activity. */
  function Rows(p: Payload): (r: seq<nat>)
    ensures |r| == Sum(p.acts)
  {
    Labels(p.acts)
  }

  /** The layout every stage writes: the users' column segments back to
      back, with their lengths as the activities. Whatever the segments,
      the result is well formed: one activity per row, and as many column
      entries as the activities add up to. */
  function FromSegments(segs: seq<seq<nat>>, ncols: nat): (r: Payload)
    ensures WellFormed(r) && r.nrows == |segs| && r.ncols == ncols
    ensures r.acts == Lengths(segs) && r.cols == Concat(segs)
  {
    ConcatLength(segs);
    Payload(Concat(segs), |segs|, ncols, Lengths(segs))
  }

  /** The shape of a payload laid out as above: one activity count per row,
      and as many entries as activities. */
  predicate WellFormed(p: Payload)
  {
    && |p.acts| == p.nrows
    && |p.cols| == Sum(p.acts)
  }

  /** Every column index fits the declared width. */
  predicate InBounds(p: Payload)
  {
    forall i :: 0 <= i < |p.cols| ==> p.cols[i] < p.ncols
  }

  /** Laying out one more segment appends its triplets. */
  lemma FromSegmentsSnoc(segs: seq<seq<nat>>, ncols: nat)
    requires |segs| > 0
    ensures var n := |segs| - 1;
            var p, q := FromSegments(segs, ncols), FromSegments(segs[..n], ncols);
            && Data(p) == Data(q) + Repeat<nat>(1, |segs[n]|)
            && Rows(p) == Rows(q) + Repeat<nat>(n, |segs[n]|)
            && p.cols == q.cols + segs[n]
  {
    var n := |segs| - 1;
    assert Lengths(segs)[..n] == Lengths(segs[..n]);
    assert Blocks(Lengths(segs))[..n] == Blocks(Lengths(segs[..n]));
  }

  /** `cumsum(rand_acts)[u] - rand_acts[u]` is the running total before
      `u`, and the running total through `u` does not pass the end. */
  lemma SegmentBounds(acts: seq<nat>, u: nat)
    requires u < |acts|
    ensures CumSum(acts)[u] == Sum(acts[..u]) + acts[u]
    ensures CumSum(acts)[u] <= Sum(acts)
  {
    SumStep(acts, u);
    SumPrefixMonotone(acts, u + 1, |acts|);
    SumWhole(acts);
  }

  /** The slice of `cols` that ends at `start = cumsum(acts)[u]` and has
      `acts[u]` entries: how every stage locates user `u`'s columns. */
  function Piece(cols: seq<nat>, acts: seq<nat>, u: nat): (r: seq<nat>)
    requires |cols| == Sum(acts) && u < |acts|
    ensures |r| == acts[u]
    ensures forall x :: x in r ==> x in cols
  {
    SegmentBounds(acts, u);
    var start := CumSum(acts)[u];
    cols[start - acts[u]..start]
  }

  /** The slices of the first `m` users, in row order. */
  function FirstPieces(cols: seq<nat>, acts: seq<nat>, m: nat): (r: seq<seq<nat>>)
    requires |cols| == Sum(acts) && m <= |acts|
    ensures |r| == m
  {
    if m == 0 then [] else FirstPieces(cols, acts, m - 1) + [Piece(cols, acts, m - 1)]
  }

  /** All users' slices, in row order. */
  function Pieces(cols: seq<nat>, acts: seq<nat>): (r: seq<seq<nat>>)
    requires |cols| == Sum(acts)
    ensures |r| == |acts|
  {
    FirstPieces(cols, acts, |acts|)
  }

  lemma {:induction false} FirstPiecesAt(cols: seq<nat>, acts: seq<nat>, m: nat, u: nat)
    requires |cols| == Sum(acts) && u < m <= |acts|
    ensures FirstPieces(cols, acts, m)[u] == Piece(cols, acts, u)
  {
    if u < m - 1 {
      FirstPiecesAt(cols, acts, m - 1, u);
    }
  }

  /** Entry `u` of the slices is user `u`'s slice. */
  lemma PiecesAt(cols: seq<nat>, acts: seq<nat>, u: nat)
    requires |cols| == Sum(acts) && u < |acts|
    ensures Pieces(cols, acts)[u] == Piece(cols, acts, u)
  {
    FirstPiecesAt(cols, acts, |acts|, u);
  }

  /** User `u`'s columns in a payload. */
  function UserCols(p: Payload, u: nat): (r: seq<nat>)
    requires WellFormed(p) && u < p.nrows
    ensures |r| == p.acts[u]
    ensures forall x :: x in r ==> x in p.cols
  {
    Piece(p.cols, p.acts, u)
  }

  /** The users' segments of a payload, in row order. */
  function Segs(p: Payload): (r: seq<seq<nat>>)
    requires WellFormed(p)
    ensures |r| == p.nrows
  {
    Pieces(p.cols, p.acts)
  }

  /** Laying out segments and reading user `u` back gives segment `u`. */
  lemma UserColsOfSegments(segs: seq<seq<nat>>, ncols: nat, u: nat)
    requires u < |segs|
    ensures WellFormed(FromSegments(segs, ncols))
    ensures UserCols(FromSegments(segs, ncols), u) == segs[u]
  {
    var p := FromSegments(segs, ncols);
    SegmentBounds(p.acts, u);
    ConcatPiece(segs, u);
    SumStep(Lengths(segs), u);
  }

  /** Row `u`'s entries carry row index `u`. */
  lemma LabelsOfSegment(acts: seq<nat>, u: nat)
    requires u < |acts|
    ensures Sum(acts[..u]) + acts[u] <= |Labels(acts)|
    ensures Labels(acts)[Sum(acts[..u])..Sum(acts[..u]) + acts[u]] == Repeat<nat>(u, acts[u])
  {
    ConcatPiece(Blocks(acts), u);
    SumStep(acts, u);
  }

  /** Slice `u` lies between the running totals before and through `u`. */
  lemma PieceSlice(cols: seq<nat>, acts: seq<nat>, u: nat)
    requires |cols| == Sum(acts) && u < |acts|
    ensures Sum(acts[..u]) <= Sum(acts[..u + 1]) <= |cols|
    ensures Piece(cols, acts, u) == cols[Sum(acts[..u])..Sum(acts[..u + 1])]
  {
    SegmentBounds(acts, u);
    SumStep(acts, u);
  }

  /** The slices between consecutive running totals tile the column array. */
  lemma {:induction false} SlicesTile(cols: seq<nat>, acts: seq<nat>, m: nat)
    requires |cols| == Sum(acts) && m <= |acts|
    ensures Sum(acts[..m]) <= |cols|
    ensures Concat(Pieces(cols, acts)[..m]) == cols[..Sum(acts[..m])]
  {
    SumPrefixMonotone(acts, m, |acts|);
    SumWhole(acts);
    if m > 0 {
      var ps := Pieces(cols, acts);
      var lo, hi := Sum(acts[..m - 1]), Sum(acts[..m]);
      assert Concat(ps[..m]) == Concat(ps[..m - 1]) + ps[m - 1] by {
        assert ps[..m] == ps[..m - 1] + [ps[m - 1]];
        ConcatSnoc(ps[..m - 1], ps[m - 1]);
      }
      assert lo <= hi <= |cols| && ps[m - 1] == cols[lo..hi] by {
        PieceSlice(cols, acts, m - 1);
        PiecesAt(cols, acts, m - 1);
      }
      SlicesTile(cols, acts, m - 1);
      assert cols[..hi] == cols[..lo] + cols[lo..hi];
    }
  }

  /** Reading the segments of a well-formed payload and laying them out
      again reproduces it: segments determine the payload. */
  lemma SegmentsRoundTrip(p: Payload)
    requires WellFormed(p)
    ensures FromSegments(Segs(p), p.ncols) == p
  {
    SlicesTile(p.cols, p.acts, p.nrows);
    assert Segs(p)[..p.nrows] == Segs(p);
    SumWhole(p.acts);
    assert p.cols[..|p.cols|] == p.cols;
    forall u | 0 <= u < p.nrows ensures |Segs(p)[u]| == p.acts[u]
    {
      PiecesAt(p.cols, p.acts, u);
    }
    assert Lengths(Segs(p)) == p.acts;
  }

  /** Laying out segments and reading them back gives the same segments. */
  lemma SegsOfSegments(segs: seq<seq<nat>>, ncols: nat)
    ensures WellFormed(FromSegments(segs, ncols))
    ensures Segs(FromSegments(segs, ncols)) == segs
  {
    var p := FromSegments(segs, ncols);
    forall u | 0 <= u < |segs| ensures Segs(p)[u] == segs[u]
    {
      UserColsOfSegments(segs, ncols, u);
      PiecesAt(p.cols, p.acts, u);
    }
  }

  /** A payload laid out from segments is in bounds exactly when every
      segment is. */
  lemma InBoundsSegments(segs: seq<seq<nat>>, ncols: nat)
    ensures InBounds(FromSegments(segs, ncols)) <==>
            forall u, x: nat :: 0 <= u < |segs| && x in segs[u] ==> x < ncols
  {
    var p := FromSegments(segs, ncols);
    if InBounds(p) {
      forall u, x: nat | 0 <= u < |segs| && x in segs[u] ensures x < ncols
      {
        ConcatMember<nat>(segs, x);
      }
    } else {
      var i :| 0 <= i < |p.cols| && p.cols[i] >= ncols;
      ConcatMember<nat>(segs, p.cols[i]);
    }
  }
}

/** `chunkify_mat_list`: a payload cut into chunks of `cs` consecutive
    users, each laid out as a payload of its own with local row indices. */
module Chunks {
  import opened Common
  import opened Payloads

  /** `k * cs`, the first user of chunk `k`, built up one chunk at a time. */
  function Offset(k: nat, cs: nat): nat
  {
    if k == 0 then 0 else Offset(k - 1, cs) + cs
  }

  lemma {:induction false} OffsetIsProduct(k: nat, cs: nat)
    ensures Offset(k, cs) == k * cs
  {
    if k > 0 {
      OffsetIsProduct(k - 1, cs);
      assert (k - 1) * cs + cs == k * cs;
    }
  }

  /** When `cs` divides `m`, the `m / cs` chunks cover `m` users exactly. */
  lemma ChunkCount(m: nat, cs: int)
    requires cs > 0 && FloorMod(m, cs) == 0
    ensures Offset(m / cs, cs) == m
  {
    OffsetIsProduct(m / cs, cs);
  }

  /** The first `n` runs of `cs` consecutive elements. */
  function Batches<T>(s: seq<T>, cs: nat, n: nat): (r: seq<seq<T>>)
    requires Offset(n, cs) <= |s|
    ensures |r| == n
    ensures forall k {:trigger r[k]} :: 0 <= k < n ==>
              Offset(k, cs) + cs <= |s| && r[k] == s[Offset(k, cs)..Offset(k, cs) + cs]
  {
    if n == 0 then []
    else
      var lo := Offset(n - 1, cs);
      assert Offset(n, cs) == lo + cs;
      var prev := Batches(s, cs, n - 1);
      var r := prev + [s[lo..lo + cs]];
      forall k | 0 <= k < n
        ensures Offset(k, cs) + cs <= |s| && r[k] == s[Offset(k, cs)..Offset(k, cs) + cs]
      {
        if k < n - 1 {
          assert r[k] == prev[k];
        }
      }
      r
  }

  /** The runs, put back together, are the prefix they were cut from. */
  lemma {:induction false} ConcatBatches<T>(s: seq<T>, cs: nat, n: nat)
    requires Offset(n, cs) <= |s|
    ensures Concat(Batches(s, cs, n)) == s[..Offset(n, cs)]
  {
    if n > 0 {
      var lo := Offset(n - 1, cs);
      var b := Batches(s, cs, n);
      var b' := Batches(s, cs, n - 1);
      var x := s[lo..lo + cs];
      assert Offset(n, cs) == lo + cs;
      assert Concat(b) == Concat(b') + x by {
        assert b == b' + [x];
        ConcatSnoc(b', x);
      }
      assert Concat(b') == s[..lo] by {
        ConcatBatches(s, cs, n - 1);
      }
      assert s[..lo + cs] == s[..lo] + x;
    }
  }

  /** Runs of `cs` user segments, each laid out as a payload. */
  function LayOut(ss: seq<seq<nat>>, ncols: nat, cs: nat, n: nat): (r: seq<Payload>)
    requires Offset(n, cs) <= |ss|
    ensures |r| == n
    ensures forall k {:trigger r[k]} :: 0 <= k < n ==>
              && Offset(k, cs) + cs <= |ss|
              && r[k] == FromSegments(ss[Offset(k, cs)..Offset(k, cs) + cs], ncols)
  {
    var bs := Batches(ss, cs, n);
    var chunks := seq(n, k requires 0 <= k < n => FromSegments(bs[k], ncols));
    forall k | 0 <= k < n
      ensures Offset(k, cs) + cs <= |ss|
      ensures chunks[k] == FromSegments(ss[Offset(k, cs)..Offset(k, cs) + cs], ncols)
    {
      var b := bs[k];
    }
    chunks
  }

  /** `chunkify_mat_list`. The row count must be a multiple of `cs` (an
      `assert`; `cs == 0` divides by zero); a negative `cs` that divides the
      row count gives a non-positive chunk count and no chunk. What each
      chunk holds is `ChunkContents`. */
  function Chunkify(p: Payload, cs: int): (r: Result<seq<Payload>>)
    requires WellFormed(p)
    ensures cs == 0 <==> r == Err(ZeroDivision)
    ensures cs != 0 ==> (r == Err(AssertionFailed) <==> FloorMod(p.nrows, cs) != 0)
    ensures r.Ok? ==> |r.value| == (if cs > 0 then p.nrows / cs else 0)
    ensures r.Ok? && cs > 0 ==> Offset(|r.value|, cs) == p.nrows
  {
    if cs == 0 then Err(ZeroDivision)
    else if FloorMod(p.nrows, cs) != 0 then Err(AssertionFailed)
    else if cs < 0 then Ok([])
    else
      ChunkCount(p.nrows, cs);
      Ok(LayOut(Segs(p), p.ncols, cs, p.nrows / cs))
  }

  /** Chunk `k` holds users `k*cs .. k*cs + cs - 1`: their column slices,
      copied through the running activity totals, laid out with local row
      labels. */
  lemma ChunkContents(p: Payload, cs: int, k: nat)
    requires WellFormed(p) && Chunkify(p, cs).Ok? && k < |Chunkify(p, cs).value|
    ensures cs > 0 && Offset(k, cs) + cs <= p.nrows
    ensures Chunkify(p, cs).value[k] == FromSegments(Segs(p)[Offset(k, cs)..Offset(k, cs) + cs], p.ncols)
  {
    assert cs > 0;
    var n := p.nrows / cs;
    ChunkCount(p.nrows, cs);
    var chunks := LayOut(Segs(p), p.ncols, cs, n);
    assert Chunkify(p, cs).value == chunks;
    var c := chunks[k];
  }

  /** The users `lo .. lo+cs-1` laid out on their own: local row `j` is
      global user `lo + j`. */
  lemma WindowRow(p: Payload, lo: nat, cs: nat, j: nat)
    requires WellFormed(p) && lo + cs <= p.nrows && j < cs
    ensures var c := FromSegments(Segs(p)[lo..lo + cs], p.ncols);
            && WellFormed(c) && c.nrows == cs && c.ncols == p.ncols
            && c.acts[j] == p.acts[lo + j]
            && UserCols(c, j) == UserCols(p, lo + j)
  {
    var segs := Segs(p)[lo..lo + cs];
    var c := FromSegments(segs, p.ncols);
    UserColsOfSegments(segs, p.ncols, j);
    PiecesAt(p.cols, p.acts, lo + j);
    assert segs[j] == UserCols(p, lo + j);
    assert c.acts[j] == |segs[j]|;
  }

  /** Every chunk is laid out like the whole payload. */
  lemma ChunksWellFormed(p: Payload, cs: int)
    requires WellFormed(p) && Chunkify(p, cs).Ok?
    ensures forall k :: 0 <= k < |Chunkify(p, cs).value| ==> WellFormed(Chunkify(p, cs).value[k])
  {
    if cs > 0 {
      ChunkCount(p.nrows, cs);
    }
  }

  /** Stacking chunks back: their users' segments, chunk after chunk,
      laid out as one payload. */
  function Unchunk(chunks: seq<Payload>, ncols: nat): (r: Payload)
    requires forall k :: 0 <= k < |chunks| ==> WellFormed(chunks[k])
    ensures r.ncols == ncols && WellFormed(r)
  {
    var segs := Concat(seq(|chunks|, k requires 0 <= k < |chunks| => Segs(chunks[k])));
    FromSegments(segs, ncols)
  }

  /** Stacking the laid-out runs gives the layout of the prefix they cover. */
  lemma UnchunkLayOut(ss: seq<seq<nat>>, ncols: nat, cs: nat, n: nat)
    requires Offset(n, cs) <= |ss|
    ensures forall k :: 0 <= k < n ==> WellFormed(LayOut(ss, ncols, cs, n)[k])
    ensures Unchunk(LayOut(ss, ncols, cs, n), ncols) == FromSegments(ss[..Offset(n, cs)], ncols)
  {
    var chunks := LayOut(ss, ncols, cs, n);
    var bs := Batches(ss, cs, n);
    var parts := seq(n, k requires 0 <= k < n => Segs(chunks[k]));
    forall k | 0 <= k < n ensures parts[k] == bs[k]
    {
      var c := chunks[k];
      var b := bs[k];
      SegsOfSegments(b, ncols);
    }
    assert parts == bs;
    ConcatBatches(ss, cs, n);
  }

  /** Chunking loses and reorders nothing: stacking the chunks back gives
      the payload itself. */
  lemma ChunkifyRoundTrip(p: Payload, cs: int)
    requires WellFormed(p) && Chunkify(p, cs).Ok? && cs > 0
    ensures forall k :: 0 <= k < |Chunkify(p, cs).value| ==> WellFormed(Chunkify(p, cs).value[k])
    ensures Unchunk(Chunkify(p, cs).value, p.ncols) == p
  {
    var n := p.nrows / cs;
    ChunkCount(p.nrows, cs);
    var ss := Segs(p);
    assert Chunkify(p, cs).value == LayOut(ss, p.ncols, cs, n);
    UnchunkLayOut(ss, p.ncols, cs, n);
    assert ss[..Offset(n, cs)] == ss;
    SegmentsRoundTrip(p);
  }
}

/** What the unicity series counts. Stacking a block's sparsified chunks
    gives the incidence matrix of its users, so a block's contribution to a
    step is, per probe, the number of its users whose trace holds every
    point of the probe. The cumulative count of a step is that number over
    blocks `0..j`; it is never zero, since the probe's own user in block 0
    holds it, and the unicity is the share of probes held by that user
    alone. */
module SeriesFacts {
  import opened Common
  import opened Payloads
  import opened Chunks
  import opened Sparse
  import opened Sampling
  import opened FullMatch
  import opened Series

  /** A block as the resampler lays it out: every column fits the width and
      no user lists a column twice. */
  predicate Clean(p: Payload)
    requires WellFormed(p)
  {
    && InBounds(p)
    && forall u :: 0 <= u < p.nrows ==> Distinct(UserCols(p, u))
  }

  /** The segments of a clean block have no repeats. */
  lemma CleanSegs(p: Payload)
    requires WellFormed(p) && Clean(p)
    ensures forall u :: 0 <= u < |Segs(p)| ==> Distinct(Segs(p)[u])
  {
    forall u | 0 <= u < |Segs(p)| ensures Distinct(Segs(p)[u])
    {
      PiecesAt(p.cols, p.acts, u);
      assert Segs(p)[u] == UserCols(p, u);
      assert Distinct(UserCols(p, u));
    }
  }

  /** The chunks of a block are its segments cut into batches of `cs`. */
  lemma ChunksAreBatches(block: Payload, cs: int)
    requires WellFormed(block) && cs > 0 && Chunkify(block, cs).Ok?
    ensures Offset(block.nrows / cs, cs) == |Segs(block)|
    ensures var n := block.nrows / cs;
            var bs := Batches(Segs(block), cs, n);
            Chunkify(block, cs).value == seq(n, k requires 0 <= k < n => FromSegments(bs[k], block.ncols))
  {
    ChunkCount(block.nrows, cs);
  }

  /** Batches of in-bounds segments are in bounds. */
  lemma BatchesInBounds(segs: seq<seq<nat>>, w: nat, cs: nat, n: nat)
    requires Offset(n, cs) <= |segs| && InBounds(FromSegments(segs, w))
    ensures forall k :: 0 <= k < n ==> InBounds(FromSegments(Batches(segs, cs, n)[k], w))
  {
    var bs := Batches(segs, cs, n);
    InBoundsSegments(segs, w);
    forall k | 0 <= k < n ensures InBounds(FromSegments(bs[k], w))
    {
      var lo := Offset(k, cs);
      assert forall u :: 0 <= u < |bs[k]| ==> bs[k][u] == segs[lo + u];
      InBoundsSegments(bs[k], w);
    }
  }

  /** Batches that cover all segments concatenate back to them. */
  lemma BatchesCover(segs: seq<seq<nat>>, cs: nat, n: nat)
    requires Offset(n, cs) == |segs|
    ensures Concat(Batches(segs, cs, n)) == segs
  {
    ConcatBatches(segs, cs, n);
    assert segs[..|segs|] == segs;
  }

  /** The sparsified chunks of a block, stacked again, are the incidence
      matrix of the block's users: chunking loses and reorders nothing. */
  lemma BlockStack(block: Payload, cs: int, sml: seq<Matrix>)
    requires WellFormed(block) && InBounds(block) && cs > 0
    requires BlockMatrices(block, cs) == Ok(sml)
    ensures Stackable(sml, block.ncols)
    ensures VStack(sml, block.ncols) == Incidence(Segs(block), block.ncols)
  {
    var segs, w := Segs(block), block.ncols;
    var n := block.nrows / cs;
    ChunksAreBatches(block, cs);
    var bs := Batches(segs, cs, n);
    SegmentsRoundTrip(block);
    BatchesInBounds(segs, w, cs, n);
    SparsifyMatListSegments(bs, w);
    VStackIncidence(bs, w);
    BatchesCover(segs, cs, n);
  }

  /** The probe matrix a step keeps for `pl[pi]` counts the points of every
      sampled user's probe, and those points fit the width. */
  lemma ProbeCells(s0: Payload, size: nat, pl: seq<nat>, pop: seq<nat>, pts: seq<seq<seq<nat>>>, pi: nat)
    requires WellFormed(s0) && InBounds(s0) && StepProbes(s0, size, pl, pop, pts).Ok? && pi < |pl|
    ensures GetSample(s0, size, pop).Ok?
    ensures var q := GetSample(s0, size, pop).value;
            && (forall uid :: 0 <= uid < q.nrows ==> ProbeDrawn(q, pl, pts, uid))
            && var probes := ProbeSegs(q, pl, pts, pi);
               var m := StepProbes(s0, size, pl, pop, pts).value[pl[pi]];
               && Valid(m) && m.nrows == s0.ncols && m.ncols == size
               && (forall c, u :: 0 <= c < s0.ncols && 0 <= u < size ==> m.cells[c][u] == multiset(probes[u])[c])
               && (forall u, x :: 0 <= u < size && x in probes[u] ==> x < s0.ncols)
  {
    var q := GetSample(s0, size, pop).value;
    assert GetRandomPoints(pl, q, pts).Ok?;
    SampleInBounds(s0, size, pop);
    ProbeMatrixEntries(q, pl, pts, pi);
    var probes := ProbeSegs(q, pl, pts, pi);
    forall u, x | 0 <= u < size && x in probes[u] ensures x < s0.ncols
    {
      ProbePoints(q, pl, pts, pi, u);
      assert x in q.cols;
    }
  }

  /** A block's counts against a step, for `pl[pi]`: per sampled user, the
      number of the block's users whose trace holds that user's probe. */
  lemma BlockCounts(b: Payload, cs: int, s0: Payload, size: nat, pl: seq<nat>, pop: seq<nat>,
                    pts: seq<seq<seq<nat>>>, pi: nat)
    requires WellFormed(b) && Clean(b) && WellFormed(s0) && InBounds(s0) && cs > 0 && pi < |pl|
    requires BlockMatrices(b, cs).Ok? && StepProbes(s0, size, pl, pop, pts).Ok?
    requires StepCounts(BlockMatrices(b, cs).value, StepProbes(s0, size, pl, pop, pts).value, pl, size).Ok?
    ensures GetSample(s0, size, pop).Ok?
    ensures var q := GetSample(s0, size, pop).value;
            && (forall uid :: 0 <= uid < q.nrows ==> ProbeDrawn(q, pl, pts, uid))
            && forall u :: 0 <= u < size ==>
                 StepCounts(BlockMatrices(b, cs).value, StepProbes(s0, size, pl, pop, pts).value, pl, size).value[pi][u]
                 == Holders(Segs(b), ProbeSegs(q, pl, pts, pi)[u], b.nrows)
  {
    var sml := BlockMatrices(b, cs).value;
    var smats := StepProbes(s0, size, pl, pop, pts).value;
    ProbeCells(s0, size, pl, pop, pts, pi);
    var q := GetSample(s0, size, pop).value;
    var m := smats[pl[pi]];
    BlockStack(b, cs, sml);
    StepCountsAt(sml, smats, pl, size, pi);
    assert sml[0].ncols == b.ncols == m.nrows;
    var segs := Segs(b);
    CleanSegs(b);
    FullMatchesCountHolders(segs, m, ProbeSegs(q, pl, pts, pi), pl[pi]);
  }

  /** The probes of step `j` exist: block 0 was sampled and every sampled
      user's points were drawn. */
  predicate Drawn(run: Run, j: nat)
    requires Shaped(run)
  {
    && 0 < |run.blocks| && j < |run.pops| && j < |run.points|
    && GetSample(run.blocks[0], run.sampleSize, run.pops[j]).Ok?
    && var q := GetSample(run.blocks[0], run.sampleSize, run.pops[j]).value;
       forall uid :: 0 <= uid < q.nrows ==> ProbeDrawn(q, run.pl, run.points[j], uid)
  }

  /** The sample of step `j`. */
  function Sample(run: Run, j: nat): (q: Payload)
    requires Shaped(run) && Drawn(run, j)
    ensures WellFormed(q) && q.nrows == run.sampleSize
  {
    GetSample(run.blocks[0], run.sampleSize, run.pops[j]).value
  }

  /** Probe `uid` of step `j` for `pl[pi]`: `pl[pi]` points of sampled user
      `uid`. */
  function Probe(run: Run, j: nat, pi: nat, uid: nat): (r: seq<nat>)
    requires Shaped(run) && Drawn(run, j) && pi < |run.pl| && uid < run.sampleSize
    ensures |r| == run.pl[pi]
  {
    ProbeSegs(Sample(run, j), run.pl, run.points[j], pi)[uid]
  }

  /** A block that has counts against step `j` came with the probes of
      step `j`, and `cs` is positive there whenever `pl` is not empty. */
  lemma ContributionDrawn(run: Run, i: nat, j: nat)
    requires Shaped(run) && Contribution(run, i, j).Ok?
    ensures i < |run.blocks| && Drawn(run, j)
    ensures BlockMatrices(run.blocks[i], run.cs).Ok?
    ensures |run.pl| > 0 ==> run.cs > 0
  {
    var sml := BlockMatrices(run.blocks[i], run.cs).value;
    var q := GetSample(run.blocks[0], run.sampleSize, run.pops[j]).value;
    var smats := StepProbes(run.blocks[0], run.sampleSize, run.pl, run.pops[j], run.points[j]).value;
    assert GetRandomPoints(run.pl, q, run.points[j]).Ok?;
    if |run.pl| > 0 {
      assert run.pl[0] in smats;
      assert VStackMultiply(sml, smats).Ok?;
      assert |sml| > 0;
    }
  }

  /** Block `i`'s contribution to step `j`: per entry of `pl` and per
      probe, the number of the block's users whose trace holds every point
      of the probe. */
  lemma ContributionHolders(run: Run, i: nat, j: nat, pi: nat)
    requires Shaped(run) && Contribution(run, i, j).Ok? && pi < |run.pl|
    requires i < |run.blocks| && Clean(run.blocks[i]) && Clean(run.blocks[0])
    ensures Drawn(run, j)
    ensures |Contribution(run, i, j).value| == |run.pl|
    ensures |Contribution(run, i, j).value[pi]| == run.sampleSize
    ensures forall uid :: 0 <= uid < run.sampleSize ==>
              Contribution(run, i, j).value[pi][uid] ==
                Holders(Segs(run.blocks[i]), Probe(run, j, pi, uid), run.blocks[i].nrows)
  {
    ContributionDrawn(run, i, j);
    var b, b0 := run.blocks[i], run.blocks[0];
    var sml := BlockMatrices(b, run.cs).value;
    var smats := StepProbes(b0, run.sampleSize, run.pl, run.pops[j], run.points[j]).value;
    assert Contribution(run, i, j) == StepCounts(sml, smats, run.pl, run.sampleSize);
    BlockCounts(b, run.cs, b0, run.sampleSize, run.pl, run.pops[j], run.points[j], pi);
  }

  /** How many users of blocks `0..m-1` hold probe `uid` of step `j` for
      `pl[pi]`. */
  function HolderSum(run: Run, j: nat, pi: nat, uid: nat, m: nat): nat
    requires Shaped(run) && Drawn(run, j) && pi < |run.pl| && uid < run.sampleSize && m <= |run.blocks|
  {
    if m == 0 then 0
    else HolderSum(run, j, pi, uid, m - 1) +
         Holders(Segs(run.blocks[m - 1]), Probe(run, j, pi, uid), run.blocks[m - 1].nrows)
  }

  /** Adding up the first `m` entries of a column whose block `b` counts
      the holders in block `b` gives the holders in blocks `0..m-1`. */
  lemma {:induction false} AccHolders(run: Run, col: seq<Result<seq<seq<nat>>>>, j: nat, pi: nat, uid: nat, m: nat)
    requires Shaped(run) && Drawn(run, j) && pi < |run.pl| && uid < run.sampleSize && m <= |run.blocks|
    requires Ready(col, m, |run.pl|, run.sampleSize)
    requires forall b :: 0 <= b < m ==>
               col[b].value[pi][uid] == Holders(Segs(run.blocks[b]), Probe(run, j, pi, uid), run.blocks[b].nrows)
    ensures Acc(col, pi, m, |run.pl|, run.sampleSize)[uid] == HolderSum(run, j, pi, uid, m)
  {
    if m > 0 {
      AccHolders(run, col, j, pi, uid, m - 1);
    }
  }

  /** Every block that reaches a defined step counts holders there. */
  lemma ColHolders(run: Run, j: nat, pi: nat, uid: nat)
    requires Shaped(run) && StepDefined(run, j) && pi < |run.pl| && uid < run.sampleSize
    requires j < |run.blocks| && forall b :: 0 <= b <= j ==> Clean(run.blocks[b])
    ensures Drawn(run, j)
    ensures var col := Col(BlockStage(run), CountStage(run), j);
            forall b :: 0 <= b <= j ==>
              col[b].value[pi][uid] == Holders(Segs(run.blocks[b]), Probe(run, j, pi, uid), run.blocks[b].nrows)
  {
    var col := Col(BlockStage(run), CountStage(run), j);
    assert col[0] == Contribution(run, 0, j);
    ContributionDrawn(run, 0, j);
    forall b | 0 <= b <= j
      ensures col[b].value[pi][uid] == Holders(Segs(run.blocks[b]), Probe(run, j, pi, uid), run.blocks[b].nrows)
    {
      assert col[b] == Contribution(run, b, j);
      ContributionHolders(run, b, j, pi);
    }
  }

  /** The cumulative count of step `j` for probe `uid` is the number of
      users in blocks `0..j` whose trace holds every point of the probe. */
  lemma TotalHolders(run: Run, j: nat, pi: nat, uid: nat)
    requires Shaped(run) && StepDefined(run, j) && pi < |run.pl| && uid < run.sampleSize
    requires j < |run.blocks| && forall b :: 0 <= b <= j ==> Clean(run.blocks[b])
    ensures Drawn(run, j)
    ensures Total(run, j, pi)[uid] == HolderSum(run, j, pi, uid, j + 1)
  {
    ColHolders(run, j, pi, uid);
    AccHolders(run, Col(BlockStage(run), CountStage(run), j), j, pi, uid, j + 1);
  }

  /** The probe's own user in block 0 holds it. */
  lemma OwnerHolds(run: Run, j: nat, pi: nat, uid: nat)
    requires Shaped(run) && Drawn(run, j) && pi < |run.pl| && uid < run.sampleSize
    ensures run.pops[j][uid] < run.blocks[0].nrows
    ensures Holds(Segs(run.blocks[0])[run.pops[j][uid]], Probe(run, j, pi, uid))
  {
    var b0, q := run.blocks[0], Sample(run, j);
    SampleRow(b0, run.sampleSize, run.pops[j], uid);
    ProbePoints(q, run.pl, run.points[j], pi, uid);
    PiecesAt(b0.cols, b0.acts, run.pops[j][uid]);
  }

  /** A sum over blocks is at least its first term. */
  lemma {:induction false} HolderSumFirst(run: Run, j: nat, pi: nat, uid: nat, m: nat)
    requires Shaped(run) && Drawn(run, j) && pi < |run.pl| && uid < run.sampleSize && 0 < m <= |run.blocks|
    ensures HolderSum(run, j, pi, uid, m) >= Holders(Segs(run.blocks[0]), Probe(run, j, pi, uid), run.blocks[0].nrows)
  {
    if m > 1 {
      HolderSumFirst(run, j, pi, uid, m - 1);
    }
  }

  /** Every probe is held by at least its own user, so a cumulative count
      is never zero, and a count of exactly 1 means that no other user of
      blocks `0..j` holds it. */
  lemma SelfMatch(run: Run, j: nat, pi: nat, uid: nat)
    requires Shaped(run) && StepDefined(run, j) && pi < |run.pl| && uid < run.sampleSize
    requires j < |run.blocks| && forall b :: 0 <= b <= j ==> Clean(run.blocks[b])
    ensures Total(run, j, pi)[uid] >= 1
  {
    TotalHolders(run, j, pi, uid);
    OwnerHolds(run, j, pi, uid);
    var b0 := run.blocks[0];
    HolderCounted(Segs(b0), Probe(run, j, pi, uid), b0.nrows, run.pops[j][uid]);
    HolderSumFirst(run, j, pi, uid, j + 1);
  }

  /** Counting the ones: all of them exactly when every entry is 1, none
      exactly when no entry is. */
  lemma {:induction false} CountOnesRange(v: seq<nat>)
    ensures CountOnes(v) == |v| <==> forall i :: 0 <= i < |v| ==> v[i] == 1
    ensures CountOnes(v) == 0 <==> forall i :: 0 <= i < |v| ==> v[i] != 1
  {
    if |v| > 0 {
      var init := v[..|v| - 1];
      CountOnesRange(init);
      assert forall i :: 0 <= i < |init| ==> init[i] == v[i];
    }
  }

  /** `k / n` for `k` of `n`. */
  lemma Share(k: nat, n: nat)
    requires k <= n && n > 0
    ensures 0.0 <= (k as real) / (n as real) <= 1.0
    ensures (k as real) / (n as real) == 1.0 <==> k == n
    ensures (k as real) / (n as real) == 0.0 <==> k == 0
  {
    var q := (k as real) / (n as real);
    assert q * (n as real) == k as real;
  }

  /** The unicity of a step is a share: between 0 and 1, equal to 1 exactly
      when every probe is unique and to 0 exactly when none is. */
  lemma UnicityBounds(v: seq<nat>, n: nat)
    requires |v| == n > 0
    ensures 0.0 <= Unicity(v, n) <= 1.0
    ensures Unicity(v, n) == 1.0 <==> forall i :: 0 <= i < n ==> v[i] == 1
    ensures Unicity(v, n) == 0.0 <==> forall i :: 0 <= i < n ==> v[i] != 1
  {
    CountOnesRange(v);
    Share(CountOnes(v), n);
  }
}

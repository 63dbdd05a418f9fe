/** `begin_unicity_series`: the population grows by one resampled block of
    `step` users per step. The probes of step `j` are drawn, with the seed
    of step `j`, from block 0. Each block's full-match counts are added
    forward into every later step, and step `i` reports, per number of
    points, the share of probes held by exactly one user of blocks
    `0..i`. The resampled blocks and all random draws are inputs. */
module Series {
  import opened Common
  import opened Payloads
  import opened Chunks
  import opened Sparse
  import opened Sampling
  import opened FullMatch

  /** The number of terms of `arange` over a span `span` with a positive
      stride `t`: `ceil(span / t)`, and none for an empty span. */
  function ArangeCount(span: int, t: int): (r: nat)
    requires t > 0
  {
    var q := (span + t - 1) / t;
    if q < 0 then 0 else q
  }

  /** The last multiple of the stride within the count stays inside the
      span; the next one does not. */
  lemma ArangeCountBounds(span: int, t: int)
    requires t > 0
    ensures ArangeCount(span, t) > 0 ==> ArangeCount(span, t) * t < span + t
    ensures (ArangeCount(span, t) + 1) * t >= span + t
  {
    var q := (span + t - 1) / t;
    assert q * t <= span + t - 1 < q * t + t;
    if q < 0 {
      assert q * t < 0 by {
        MulMonotone(q, -1, t);
      }
    }
  }

  lemma MulMonotone(a: int, b: int, t: int)
    requires a <= b && t > 0
    ensures a * t <= b * t
  {
  }

  /** `np.arange(step, max_size + step, step)`: the multiples `step, 2*step,
      ...` that lie before `max_size + step`, in the direction of `step`.
      A zero step divides by zero. */
  function PopList(step: int, maxSize: int): (r: Result<seq<int>>)
    ensures r.Err? <==> step == 0
    ensures r.Err? ==> r.error == ZeroDivision
    ensures r.Ok? ==> forall i :: 0 <= i < |r.value| ==> r.value[i] == (i + 1) * step
  {
    if step == 0 then Err(ZeroDivision)
    else
      var n := if step > 0 then ArangeCount(maxSize, step) else ArangeCount(-maxSize, -step);
      Ok(seq(n, i requires 0 <= i < n => (i + 1) * step))
  }

  /** The list is the longest run of multiples before the stop value: every
      entry lies before it, and the next multiple would not. */
  lemma PopListCovers(step: int, maxSize: int)
    requires step != 0
    ensures var ps := PopList(step, maxSize).value;
            var stop := maxSize + step;
            && (forall i :: 0 <= i < |ps| ==> (if step > 0 then ps[i] < stop else ps[i] > stop))
            && (if step > 0 then (|ps| + 1) * step >= stop else (|ps| + 1) * step <= stop)
  {
    var ps := PopList(step, maxSize).value;
    var n := |ps|;
    if step > 0 {
      ArangeCountBounds(maxSize, step);
      forall i | 0 <= i < n ensures ps[i] < maxSize + step
      {
        MulMonotone(i + 1, n, step);
      }
    } else {
      PopListDescends(step, maxSize);
    }
  }

  /** The negative-step case, mirrored onto a positive stride. */
  lemma PopListDescends(step: int, maxSize: int)
    requires step < 0
    ensures var ps := PopList(step, maxSize).value;
            && (forall i :: 0 <= i < |ps| ==> ps[i] > maxSize + step)
            && (|ps| + 1) * step <= maxSize + step
  {
    var t := -step;
    var ps := PopList(step, maxSize).value;
    var n := ArangeCount(-maxSize, t);
    assert |ps| == n;
    ArangeCountBounds(-maxSize, t);
    forall i | 0 <= i < n ensures ps[i] > maxSize + step
    {
      MulMonotone(i + 1, n, t);
      MulNegate(i + 1, t);
    }
    MulNegate(n + 1, t);
  }

  lemma MulNegate(a: int, t: int)
    ensures a * -t == -(a * t)
  {
  }

  /** With a positive step, `pop_list` reaches `max_size`: its last entry is
      at least `max_size` and below `max_size + step`. */
  lemma PopListReaches(step: int, maxSize: int)
    requires step > 0 && maxSize > 0
    ensures var ps := PopList(step, maxSize).value;
            |ps| > 0 && maxSize <= ps[|ps| - 1] < maxSize + step
  {
    PopListCovers(step, maxSize);
    var ps := PopList(step, maxSize).value;
    assert |ps| * step >= maxSize;
  }

  /** The resampled population blocks and the random draws of a run, fixed
      up front. `blocks[i]` is the block generated at outer step `i` (block
      0 doubles as the probe source); `pops[j]` and `points[j]` are what
      `get_sample` and `get_random_points` draw with the seed of step
      `j`. */
  datatype Run = Run(
    sampleSize: nat,
    pl: seq<nat>,
    cs: int,
    blocks: seq<Payload>,
    pops: seq<seq<nat>>,
    points: seq<seq<seq<seq<nat>>>>)

  /** Every block is laid out as the resampler lays out its payload. */
  predicate Shaped(run: Run)
  {
    forall i :: 0 <= i < |run.blocks| ==> WellFormed(run.blocks[i])
  }

  /** `sparsify_mat_list(chunkify_mat_list(u2p, cs))`. */
  function BlockMatrices(block: Payload, cs: int): (r: Result<seq<Matrix>>)
    requires WellFormed(block)
    ensures r.Ok? ==> forall i :: 0 <= i < |r.value| ==> Valid(r.value[i])
  {
    match Chunkify(block, cs)
    case Err(e) => Err(e)
    case Ok(ml) => SparsifyMatList(ml)
  }

  /** `get_random_points(pl, get_sample(s_u2p, sample_size, seed), seed)`. */
  function StepProbes(s0: Payload, sampleSize: nat, pl: seq<nat>, pop: seq<nat>, pts: seq<seq<seq<nat>>>)
    : (r: Result<map<nat, Matrix>>)
    requires WellFormed(s0)
    ensures r.Ok? ==> forall k {:trigger k in r.value} :: k in r.value <==> k in pl
    ensures r.Ok? ==> forall k :: k in r.value ==> Valid(r.value[k]) && r.value[k].ncols == sampleSize
  {
    match GetSample(s0, sampleSize, pop)
    case Err(e) => Err(e)
    case Ok(q) =>
      var r := GetRandomPoints(pl, q, pts);
      if r.Ok? then
        assert forall k :: k in r.value ==> Valid(r.value[k]) && r.value[k].ncols == sampleSize by {
          forall k | k in r.value ensures Valid(r.value[k]) && r.value[k].ncols == sampleSize
          {
            var j :| 0 <= j < |pl| && pl[j] == k;
          }
        }
        r
      else r
  }

  /** `(ps[point] / point).floor().sum(axis=0)` for every `point` in `pl`,
      in order. */
  function FloorSums(ps: map<nat, Matrix>, pl: seq<nat>, width: nat): (r: Result<seq<seq<nat>>>)
    requires forall k :: k in pl ==> k in ps && Valid(ps[k]) && ps[k].ncols == width
    ensures r.Ok? ==> |r.value| == |pl| && forall pi :: 0 <= pi < |pl| ==> |r.value[pi]| == width
  {
    var rs := seq(|pl|, pi requires 0 <= pi < |pl| => ColumnFullMatches(ps[pl[pi]], pl[pi]));
    assert forall pi :: 0 <= pi < |pl| ==> rs[pi].Ok? ==> |rs[pi].value| == width;
    AllOk(rs)
  }

  /** Entry `pi` of the floored sums is the floored column sum of the
      product kept for `pl[pi]`, which needs `pl[pi]` to be nonzero. */
  lemma FloorSumsAt(ps: map<nat, Matrix>, pl: seq<nat>, width: nat, pi: nat)
    requires forall k :: k in pl ==> k in ps && Valid(ps[k]) && ps[k].ncols == width
    requires FloorSums(ps, pl, width).Ok? && pi < |pl|
    ensures pl[pi] > 0
    ensures FloorSums(ps, pl, width).value[pi] == ColumnFullMatches(ps[pl[pi]], pl[pi]).value
  {
    var rs := seq(|pl|, p requires 0 <= p < |pl| => ColumnFullMatches(ps[pl[p]], pl[p]));
    assert rs[pi].Ok?;
  }

  /** Entry `pi` of a step's counts: the stacked block times the probe
      matrix for `pl[pi]`, floored and summed per column. */
  lemma StepCountsAt(sml: seq<Matrix>, smats: map<nat, Matrix>, pl: seq<nat>, width: nat, pi: nat)
    requires forall i :: 0 <= i < |sml| ==> Valid(sml[i])
    requires forall k :: k in smats ==> Valid(smats[k]) && smats[k].ncols == width
    requires forall k :: k in pl ==> k in smats
    requires StepCounts(sml, smats, pl, width).Ok? && pi < |pl|
    ensures pl[pi] > 0 && |sml| > 0 && Stackable(sml, smats[pl[pi]].nrows)
    ensures var m := smats[pl[pi]];
            StepCounts(sml, smats, pl, width).value[pi] ==
              ColumnFullMatches(Multiply(VStack(sml, m.nrows), m), pl[pi]).value
  {
    var ps := VStackMultiply(sml, smats).value;
    FloorSumsAt(ps, pl, width, pi);
  }

  /** `vstack_multiply(sml, smats)`, then the floored column sums. */
  function StepCounts(sml: seq<Matrix>, smats: map<nat, Matrix>, pl: seq<nat>, width: nat)
    : (r: Result<seq<seq<nat>>>)
    requires forall i :: 0 <= i < |sml| ==> Valid(sml[i])
    requires forall k :: k in smats ==> Valid(smats[k]) && smats[k].ncols == width
    requires forall k :: k in pl ==> k in smats
    ensures r.Ok? ==> |r.value| == |pl| && forall pi :: 0 <= pi < |pl| ==> |r.value[pi]| == width
  {
    match VStackMultiply(sml, smats)
    case Err(e) => Err(e)
    case Ok(ps) => FloorSums(ps, pl, width)
  }

  /** Block `i` prepared for the inner loop: chunked and sparsified. A
      block that was never generated is a missing draw. */
  function BlockStage(run: Run): nat -> Result<seq<Matrix>>
    requires Shaped(run)
  {
    (i: nat) => if i < |run.blocks| then BlockMatrices(run.blocks[i], run.cs) else Err(DrawsExhausted)
  }

  /** A prepared block's counts against the probes of step `j`, one vector
      of `sample_size` counts per entry of `pl`. Probes come from block 0
      and the draws of step `j`; matrices that `BlockMatrices` produces are
      always valid. */
  function CountStage(run: Run): (seq<Matrix>, nat) -> Result<seq<seq<nat>>>
    requires Shaped(run)
  {
    (sml: seq<Matrix>, j: nat) =>
      if |run.blocks| == 0 || j >= |run.pops| || j >= |run.points| then Err(DrawsExhausted)
      else if exists m :: 0 <= m < |sml| && !Valid(sml[m]) then Err(ShapeMismatch)
      else
        match StepProbes(run.blocks[0], run.sampleSize, run.pl, run.pops[j], run.points[j])
        case Err(e) => Err(e)
        case Ok(smats) => StepCounts(sml, smats, run.pl, run.sampleSize)
  }

  /** Block `i`'s counts against step `j`, through the two stages. */
  function Cell<B>(block: nat -> Result<B>, count: (B, nat) -> Result<seq<seq<nat>>>, i: nat, j: nat)
    : Result<seq<seq<nat>>>
  {
    match block(i)
    case Err(e) => Err(e)
    case Ok(s) => count(s, j)
  }

  /** The counts of blocks `0..j`, the blocks that reach step `j`. */
  function Col<B>(block: nat -> Result<B>, count: (B, nat) -> Result<seq<seq<nat>>>, j: nat)
    : (r: seq<Result<seq<seq<nat>>>>)
    ensures |r| == j + 1
  {
    seq(j + 1, b requires 0 <= b <= j => Cell(block, count, b, j))
  }

  /** Block `i`'s full-match counts against the probes of step `j`. */
  function Contribution(run: Run, i: nat, j: nat): Result<seq<seq<nat>>>
    requires Shaped(run)
  {
    Cell(BlockStage(run), CountStage(run), i, j)
  }

  /** A block's counts: one vector of `width` counts per point count. */
  predicate Counts(v: Result<seq<seq<nat>>>, npl: nat, width: nat)
  {
    v.Ok? && |v.value| == npl && forall pi :: 0 <= pi < npl ==> |v.value[pi]| == width
  }

  /** The first `m` blocks of a column have their counts. */
  predicate Ready(col: seq<Result<seq<seq<nat>>>>, m: nat, npl: nat, width: nat)
  {
    m <= |col| && forall b :: 0 <= b < m ==> Counts(col[b], npl, width)
  }

  function AddVec(a: seq<nat>, b: seq<nat>): (r: seq<nat>)
    requires |a| == |b|
    ensures |r| == |a|
  {
    seq(|a|, i requires 0 <= i < |a| => a[i] + b[i])
  }

  /** The counts of the first `m` blocks of a column for the point count
      with index `pi`, added up. */
  function Acc(col: seq<Result<seq<seq<nat>>>>, pi: nat, m: nat, npl: nat, width: nat): (r: seq<nat>)
    requires Ready(col, m, npl, width) && pi < npl
    ensures |r| == width
  {
    if m == 0 then Repeat<nat>(0, width)
    else AddVec(Acc(col, pi, m - 1, npl, width), col[m - 1].value[pi])
  }

  /** Blocks `0..j` all have their counts against step `j`'s probes. */
  predicate StepDefined(run: Run, j: nat)
    requires Shaped(run)
  {
    Ready(Col(BlockStage(run), CountStage(run), j), j + 1, |run.pl|, run.sampleSize)
  }

  /** Step `j`'s cumulative counts for `pl[pi]`: per probe, the counts of
      blocks `0..j` added up. */
  function Total(run: Run, j: nat, pi: nat): (r: seq<nat>)
    requires Shaped(run) && StepDefined(run, j) && pi < |run.pl|
    ensures |r| == run.sampleSize
  {
    Acc(Col(BlockStage(run), CountStage(run), j), pi, j + 1, |run.pl|, run.sampleSize)
  }

  /** `np.count_nonzero(v == 1)`. */
  function CountOnes(v: seq<nat>): (r: nat)
    ensures r <= |v|
  {
    if |v| == 0 then 0 else CountOnes(v[..|v| - 1]) + (if v[|v| - 1] == 1 then 1 else 0)
  }

  /** The unicity of a step: the share of probes whose count is exactly 1. */
  function Unicity(v: seq<nat>, n: nat): real
    requires n > 0
  {
    (CountOnes(v) as real) / (n as real)
  }

  /** How many blocks step `jj` has received once outer step `i` has run
      its inner loop up to (not including) step `lo`. */
  function Seen(i: nat, lo: nat, jj: nat): (r: nat)
    ensures r <= jj + 1 || (jj < lo && r == i + 1)
  {
    if jj < i then jj + 1 else if jj < lo then i + 1 else i
  }

  /** The column sums hold, for every step, the counts of the blocks it has
      received so far. */
  predicate Accumulated(cols: seq<seq<Result<seq<seq<nat>>>>>, colsum: seq<seq<seq<nat>>>,
                        i: nat, lo: nat, npl: nat, width: nat)
  {
    && |colsum| == npl
    && (forall pi :: 0 <= pi < npl ==> |colsum[pi]| == |cols|)
    && (forall jj :: 0 <= jj < |cols| ==> Ready(cols[jj], Seen(i, lo, jj), npl, width))
    && (forall pi, jj :: 0 <= pi < npl && 0 <= jj < |cols| ==>
          Ready(cols[jj], Seen(i, lo, jj), npl, width) &&
          colsum[pi][jj] == Acc(cols[jj], pi, Seen(i, lo, jj), npl, width))
  }

  /** The rows written so far: row `ii` is step `ii`'s unicity per point
      count, from the counts of blocks `0..ii`. */
  predicate Tabulated(cols: seq<seq<Result<seq<seq<nat>>>>>, table: seq<seq<real>>, i: nat, npl: nat, width: nat)
  {
    && |table| == i <= |cols|
    && (i > 0 ==> width > 0)
    && forall ii :: 0 <= ii < i ==>
         && Ready(cols[ii], ii + 1, npl, width)
         && |table[ii]| == npl
         && forall pi :: 0 <= pi < npl ==>
              table[ii][pi] == Unicity(Acc(cols[ii], pi, ii + 1, npl, width), width)
  }

  /** Adding block `i`'s counts at step `j` moves the accumulation one
      step on. */
  lemma AccumulateStep(cols: seq<seq<Result<seq<seq<nat>>>>>, colsum: seq<seq<seq<nat>>>,
                       i: nat, j: nat, npl: nat, width: nat)
    requires i <= j < |cols| && i < |cols[j]|
    requires Accumulated(cols, colsum, i, j, npl, width)
    requires Counts(cols[j][i], npl, width)
    ensures forall pi :: 0 <= pi < npl ==> |colsum[pi][j]| == |cols[j][i].value[pi]|
    ensures Accumulated(cols,
              seq(npl, pi requires 0 <= pi < npl => colsum[pi][j := AddVec(colsum[pi][j], cols[j][i].value[pi])]),
              i, j + 1, npl, width)
  {
    var c := cols[j][i].value;
    assert Seen(i, j, j) == i;
    assert Ready(cols[j], i, npl, width);
    assert Ready(cols[j], i + 1, npl, width);
    var next := seq(npl, pi requires 0 <= pi < npl => colsum[pi][j := AddVec(colsum[pi][j], c[pi])]);
    var lo := j + 1;
    forall jj | 0 <= jj < |cols| ensures Ready(cols[jj], Seen(i, lo, jj), npl, width)
    {
      if jj != j {
        assert Seen(i, lo, jj) == Seen(i, j, jj);
      }
    }
    forall pi, jj | 0 <= pi < npl && 0 <= jj < |cols|
      ensures next[pi][jj] == Acc(cols[jj], pi, Seen(i, lo, jj), npl, width)
    {
      if jj != j {
        assert Seen(i, lo, jj) == Seen(i, j, jj);
      }
    }
  }

  /** Finishing outer step `i`: every step before it and step `i` itself
      have all the blocks they will receive. */
  lemma OuterStep(cols: seq<seq<Result<seq<seq<nat>>>>>, colsum: seq<seq<seq<nat>>>,
                  table: seq<seq<real>>, i: nat, npl: nat, width: nat)
    requires i < |cols| && width > 0
    requires Accumulated(cols, colsum, i, |cols|, npl, width)
    requires Tabulated(cols, table, i, npl, width)
    ensures Accumulated(cols, colsum, i + 1, i + 1, npl, width)
    ensures Tabulated(cols, table + [seq(npl, pi requires 0 <= pi < npl => Unicity(colsum[pi][i], width))],
                      i + 1, npl, width)
  {
    forall jj | 0 <= jj < |cols| ensures Seen(i, |cols|, jj) == Seen(i + 1, i + 1, jj)
    {
    }
    assert Seen(i, |cols|, i) == i + 1;
  }

  /** The inner loop of outer step `i`: block `i`, prepared, is counted
      against every step `j` from `i` to `n - 1` and added to that step's
      column sums, unless a count fails. */
  method AddBlock<B>(ghost cols: seq<seq<Result<seq<seq<nat>>>>>, colsum: seq<seq<seq<nat>>>,
                     i: nat, n: nat, npl: nat, width: nat,
                     prepared: B, count: (B, nat) -> Result<seq<seq<nat>>>)
    returns (r: Result<seq<seq<seq<nat>>>>)
    requires i < n == |cols|
    requires forall jj :: i <= jj < n ==> i < |cols[jj]| && cols[jj][i] == count(prepared, jj)
    requires Accumulated(cols, colsum, i, i, npl, width)
    ensures r.Ok? <==> forall jj :: i <= jj < n ==> Counts(cols[jj][i], npl, width)
    ensures r.Ok? ==> Accumulated(cols, r.value, i, n, npl, width)
  {
    var sums := colsum;
    for j := i to n
      invariant Accumulated(cols, sums, i, j, npl, width)
      invariant forall jj :: i <= jj < j ==> Counts(cols[jj][i], npl, width)
    {
      var c := count(prepared, j);
      if !Counts(c, npl, width) {
        return if c.Err? then Err(c.error) else Err(ShapeMismatch);
      }
      AccumulateStep(cols, sums, i, j, npl, width);
      sums := seq(npl, pi requires 0 <= pi < npl => sums[pi][j := AddVec(sums[pi][j], c.value[pi])]);
    }
    return Ok(sums);
  }

  /** A block that fails, at any step at or after its own, leaves that step
      undefined. */
  lemma BlockFails(cols: seq<seq<Result<seq<seq<nat>>>>>, i: nat, jj: nat, npl: nat, width: nat)
    requires i <= jj < |cols| && i < |cols[jj]| && !Counts(cols[jj][i], npl, width)
    ensures !Ready(cols[jj], jj + 1, npl, width)
  {
  }

  /** The loop of `begin_unicity_series` over `n` steps, with its two
      stages as parameters: `block(i)` prepares block `i` once per outer
      step, and the inner loop adds `count(prepared, j)` to every step `j`
      from `i` on. Step `i`'s row is complete, and written, at the end of
      outer step `i`: the share of its `width` probes whose cumulative
      count is exactly 1. The first stage failure raises, and so does the
      division by a zero `width`. */
  method Accumulate<B>(n: nat, npl: nat, width: nat,
                       block: nat -> Result<B>, count: (B, nat) -> Result<seq<seq<nat>>>)
    returns (r: Result<seq<seq<real>>>)
    ensures r.Ok? <==>
              (n == 0 || width > 0) && forall j :: 0 <= j < n ==> Ready(Col(block, count, j), j + 1, npl, width)
    ensures r.Ok? ==>
              && |r.value| == n
              && forall i :: 0 <= i < n ==>
                   && width > 0 && Ready(Col(block, count, i), i + 1, npl, width) && |r.value[i]| == npl
                   && forall pi :: 0 <= pi < npl ==>
                        r.value[i][pi] == Unicity(Acc(Col(block, count, i), pi, i + 1, npl, width), width)
  {
    ghost var cols := seq(n, jj requires 0 <= jj < n => Col(block, count, jj));
    var colsum := seq(npl, pi requires 0 <= pi < npl => seq(n, jj requires 0 <= jj < n => Repeat<nat>(0, width)));
    var table: seq<seq<real>> := [];
    for i := 0 to n
      invariant Accumulated(cols, colsum, i, i, npl, width)
      invariant Tabulated(cols, table, i, npl, width)
    {
      var next := OuterIteration(cols, colsum, table, i, n, npl, width, block, count);
      if next.Err? {
        return Err(next.error);
      }
      colsum, table := next.value.0, next.value.1;
    }
    assert forall j :: 0 <= j < n ==> cols[j] == Col(block, count, j);
    return Ok(table);
  }

  /** Outer step `i` of the loop: block `i` is prepared, counted against
      every step from `i` on, and step `i`'s row is written. A failure
      leaves some step from `i` on undefined, or divides by a zero
      `width`. */
  method OuterIteration<B>(ghost cols: seq<seq<Result<seq<seq<nat>>>>>, colsum: seq<seq<seq<nat>>>,
                           table: seq<seq<real>>, i: nat, n: nat, npl: nat, width: nat,
                           block: nat -> Result<B>, count: (B, nat) -> Result<seq<seq<nat>>>)
    returns (r: Result<(seq<seq<seq<nat>>>, seq<seq<real>>)>)
    requires i < n == |cols|
    requires forall jj :: 0 <= jj < n ==> cols[jj] == Col(block, count, jj)
    requires Accumulated(cols, colsum, i, i, npl, width)
    requires Tabulated(cols, table, i, npl, width)
    ensures r.Ok? ==> Accumulated(cols, r.value.0, i + 1, i + 1, npl, width)
    ensures r.Ok? ==> Tabulated(cols, r.value.1, i + 1, npl, width)
    ensures r.Err? ==> width == 0 || exists jj :: i <= jj < n && !Ready(cols[jj], jj + 1, npl, width)
  {
    var prepared := block(i);
    if prepared.Err? {
      BlockFails(cols, i, i, npl, width);
      return Err(prepared.error);
    }
    var added := AddBlock(cols, colsum, i, n, npl, width, prepared.value, count);
    if added.Err? {
      ghost var jj :| i <= jj < n && !Counts(cols[jj][i], npl, width);
      BlockFails(cols, i, jj, npl, width);
      return Err(added.error);
    }
    if width == 0 {
      return Err(ZeroDivision);
    }
    OuterStep(cols, added.value, table, i, npl, width);
    return Ok((added.value, table + [seq(npl, pi requires 0 <= pi < npl => Unicity(added.value[pi][i], width))]));
  }

  /** The users of blocks `0..i`, the population step `i` is measured
      on. */
  function Population(blocks: seq<Payload>, i: nat): nat
    requires i < |blocks|
  {
    if i == 0 then blocks[0].nrows else Population(blocks, i - 1) + blocks[i].nrows
  }

  /** Blocks of `step` users each: blocks `0..i` hold `(i + 1) * step`
      users. */
  lemma {:induction false} PopulationGrows(blocks: seq<Payload>, step: nat, i: nat)
    requires i < |blocks| && forall b :: 0 <= b <= i ==> blocks[b].nrows == step
    ensures Population(blocks, i) == (i + 1) * step
  {
    if i > 0 {
      PopulationGrows(blocks, step, i - 1);
    }
  }

  /** Everything the series needs is defined: a positive step (a negative
      one is a negative array dimension, a zero one divides by zero in
      `arange`), a `pl` to label the table's columns whenever it has rows,
      a block of `step` users and draws per step, a nonzero sample size to
      divide by, and every block's counts against every step at or after
      it. */
  predicate SeriesDefined(run: Run, step: int, maxSize: int)
    requires Shaped(run)
  {
    && step > 0
    && var n := |PopList(step, maxSize).value|;
       && (n == 0 || |run.pl| > 0)
       && n <= |run.blocks| && n <= |run.pops| && n <= |run.points|
       && (forall i :: 0 <= i < n ==> run.blocks[i].nrows == step)
       && (n == 0 || run.sampleSize > 0)
       && forall j :: 0 <= j < n ==> StepDefined(run, j)
  }

  /** `begin_unicity_series`, from `pop_list` to the table: one row per
      population size, one column per entry of `pl`. Row `i` is labelled
      `pop_list[i]`, which is the number of users of blocks `0..i`; its
      column `pl[pi]` is the share of step `i`'s probes held by exactly one
      of those users. The first `create_cluster_array(step, ...)` raises on
      a negative step, `arange` on a zero one, and pandas on an empty `pl`
      when there are rows to label. A block of another size than `step` is
      not one the resampler could have produced. */
  method BeginUnicitySeries(maxSize: int, step: int, run: Run) returns (r: Result<seq<seq<real>>>)
    requires Shaped(run)
    ensures step < 0 ==> r == Err(NegativeDimension)
    ensures step == 0 ==> r == Err(ZeroDivision)
    ensures step > 0 && |PopList(step, maxSize).value| > 0 && |run.pl| == 0 ==> r == Err(ShapeMismatch)
    ensures r.Ok? <==> SeriesDefined(run, step, maxSize)
    ensures r.Ok? ==>
              var ps := PopList(step, maxSize).value;
              && |r.value| == |ps|
              && forall i :: 0 <= i < |ps| ==>
                   && i < |run.blocks| && Population(run.blocks, i) == ps[i]
                   && run.sampleSize > 0 && StepDefined(run, i) && |r.value[i]| == |run.pl|
                   && forall pi :: 0 <= pi < |run.pl| ==>
                        r.value[i][pi] == Unicity(Total(run, i, pi), run.sampleSize)
  {
    if step < 0 {
      return Err(NegativeDimension);
    }
    var popList := PopList(step, maxSize);
    if popList.Err? {
      return Err(popList.error);
    }
    var n := |popList.value|;
    if n > 0 && |run.pl| == 0 {
      return Err(ShapeMismatch);
    }
    if |run.blocks| < n || |run.pops| < n || |run.points| < n {
      return Err(DrawsExhausted);
    }
    if exists i :: 0 <= i < n && run.blocks[i].nrows != step {
      return Err(InvalidDraw);
    }
    forall i | 0 <= i < n
      ensures Population(run.blocks, i) == popList.value[i]
    {
      PopulationGrows(run.blocks, step, i);
    }
    r := Accumulate(n, |run.pl|, run.sampleSize, BlockStage(run), CountStage(run));
    assert forall j :: 0 <= j < n ==>
             (StepDefined(run, j) <==>
              Ready(Col(BlockStage(run), CountStage(run), j), j + 1, |run.pl|, run.sampleSize));
  }
}

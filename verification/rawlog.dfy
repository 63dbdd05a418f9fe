/** The raw-log reader. Each line of a user's call log holds an hour stamp
    and an antenna name; `read_lines` turns it into a pair of positions in
    the date and antenna tables, `numbarator` keeps one antenna per hour
    (the most frequent, ties broken at random by `winner_takes_all`) and
    encodes each kept pair as `total_ants * hour + antenna`. Around it sit
    small helpers: `chunckit` cuts the file list into work groups,
    `get_bool_array` spreads a trace over a boolean grid, and `lcm` gives
    the range of the random tie-break stream. */
module RawLog {
  import opened Common
  import opened SpaceTime

  /** `chunckit(a, n)`: `n` groups of `len(a) // n` items, the last one
      taking the remainder as well. A zero count divides by zero; a
      negative one makes no group. */
  function Chunckit<T>(a: seq<T>, n: int): (r: Result<seq<seq<T>>>)
    ensures r.Err? <==> n == 0
    ensures r.Err? ==> r.error == ZeroDivision
    ensures r.Ok? && n < 0 ==> r.value == []
  {
    if n == 0 then Err(ZeroDivision)
    else if n < 0 then Ok([])
    else
      var ave := |a| / n;
      Ok(seq(n, i requires 0 <= i < n =>
        MulBelow(i, n, ave, |a|);
        if i == n - 1 then a[i * ave..]
        else
          MulBelow(i + 1, n, ave, |a|);
          a[i * ave..(i + 1) * ave]))
  }

  /** Where group `i` of `chunckit` ends: the next group's start, or the
      end of the list for the last group. */
  function GroupEnd(len: nat, n: nat, i: nat): nat
    requires i < n
  {
    if i == n - 1 then len else (i + 1) * (len / n)
  }

  lemma MulBelow(m: nat, n: nat, ave: nat, len: nat)
    requires m <= n && n > 0 && ave == len / n
    ensures 0 <= m * ave <= n * ave <= len
  {
  }

  /** Group `i` of `chunckit` runs from `i * ave` to `GroupEnd`. */
  lemma ChunckitGroup<T>(a: seq<T>, n: nat, i: nat)
    requires i < n
    ensures var gs, ave := Chunckit(a, n).value, |a| / n;
            && |gs| == n
            && i * ave <= GroupEnd(|a|, n, i) <= |a|
            && gs[i] == a[i * ave..GroupEnd(|a|, n, i)]
            && |gs[i]| == GroupEnd(|a|, n, i) - i * ave
  {
    MulBelow(i + 1, n, |a| / n, |a|);
    MulBelow(i, n, |a| / n, |a|);
  }

  /** The end of group `m - 1` is `m * ave`, or the end of the list. */
  lemma GroupEndNext(len: nat, n: nat, m: nat)
    requires 0 < m <= n
    ensures GroupEnd(len, n, m - 1) == if m == n then len else m * (len / n)
  {
  }

  lemma SliceSplit<T>(a: seq<T>, lo: nat, hi: nat)
    requires lo <= hi <= |a|
    ensures a[..hi] == a[..lo] + a[lo..hi]
  {
  }

  /** The first `m` groups, read in order, are the first `m * ave` items,
      or all of them once the last group is among them. */
  lemma {:induction false} ChunckitPrefix<T>(a: seq<T>, n: nat, m: nat)
    requires 0 < n && m <= n
    ensures var gs, ave := Chunckit(a, n).value, |a| / n;
            && m * ave <= |a|
            && Concat(gs[..m]) == a[..if m == n then |a| else m * ave]
  {
    var gs, ave := Chunckit(a, n).value, |a| / n;
    MulBelow(m, n, ave, |a|);
    if m > 0 {
      var lo, hi := (m - 1) * ave, GroupEnd(|a|, n, m - 1);
      PrefixBounds(|a|, n, m);
      ChunckitPrefix(a, n, m - 1);
      ChunckitGroup(a, n, m - 1);
      assert Concat(gs[..m]) == a[..hi] by {
        assert gs[..m] == gs[..m - 1] + [gs[m - 1]];
        ConcatSnoc(gs[..m - 1], gs[m - 1]);
        SliceSplit(a, lo, hi);
      }
    }
  }

  /** Group `m - 1` starts where the first `m - 1` groups end and ends
      where the first `m` groups end. */
  lemma PrefixBounds(len: nat, n: nat, m: nat)
    requires 0 < m <= n
    ensures 0 <= (m - 1) * (len / n) <= GroupEnd(len, n, m - 1) <= len
    ensures GroupEnd(len, n, m - 1) == if m == n then len else m * (len / n)
    ensures (m - 1) * (len / n) == if m - 1 == n then len else (m - 1) * (len / n)
  {
    MulBelow(m, n, len / n, len);
    MulBelow(m - 1, n, len / n, len);
    GroupEndNext(len, n, m);
  }

  lemma MulSucc(m: nat, ave: nat)
    ensures (m + 1) * ave - m * ave == ave
  {
  }

  /** The last group takes the remainder: `len - (n - 1) * ave == ave + len % n`. */
  lemma LastGroupLength(len: nat, n: nat)
    requires n > 0
    ensures len - (n - 1) * (len / n) == len / n + len % n
  {
    var ave := len / n;
    assert len == n * ave + len % n;
    assert n * ave == (n - 1) * ave + ave;
  }

  /** The groups of `chunckit`: `n` of them, all but the last of length
      `len(a) // n`, the last of that length plus `len(a) % n`, and read in
      order they are `a` again. */
  lemma ChunckitGroups<T>(a: seq<T>, n: nat)
    requires n > 0
    ensures var gs := Chunckit(a, n).value;
            && |gs| == n
            && (forall i :: 0 <= i < n - 1 ==> |gs[i]| == |a| / n)
            && |gs[n - 1]| == |a| / n + |a| % n
            && Concat(gs) == a
  {
    var gs := Chunckit(a, n).value;
    forall i | 0 <= i < n - 1 ensures |gs[i]| == |a| / n
    {
      GroupLength(a, n, i);
    }
    LastGroup(a, n);
    ChunckitPrefix(a, n, n);
    assert gs[..n] == gs;
  }

  /** A group before the last holds `len(a) // n` items. */
  lemma GroupLength<T>(a: seq<T>, n: nat, i: nat)
    requires i < n - 1
    ensures |Chunckit(a, n).value[i]| == |a| / n
  {
    var ave := |a| / n;
    ChunckitGroup(a, n, i);
    assert GroupEnd(|a|, n, i) == (i + 1) * ave;
    MulSucc(i, ave);
  }

  /** The last group holds `len(a) // n + len(a) % n` items. */
  lemma LastGroup<T>(a: seq<T>, n: nat)
    requires n > 0
    ensures |Chunckit(a, n).value[n - 1]| == |a| / n + |a| % n
  {
    ChunckitGroup(a, n, n - 1);
    LastGroupLength(|a|, n);
  }

  /** The grid index of position `i` in an array of length `n`: negative
      positions count from the end, as numpy's fancy indexing does. */
  function Wrap(i: int, n: nat): int
  {
    if i < 0 then i + n else i
  }

  /** Setting the given positions of `arr` to `True`, one after the other. */
  function SetTrue(arr: seq<bool>, idx: seq<int>): (r: Result<seq<bool>>)
    ensures r.Ok? ==> |r.value| == |arr|
  {
    if |idx| == 0 then Ok(arr)
    else
      match SetTrue(arr, idx[..|idx| - 1])
      case Err(e) => Err(e)
      case Ok(a) =>
        var k := Wrap(idx[|idx| - 1], |arr|);
        if 0 <= k < |a| then Ok(a[k := true]) else Err(IndexOutOfRange)
  }

  /** Every position of `idx` fits an array of length `n`. */
  predicate Fits(idx: seq<int>, n: nat)
  {
    forall i :: 0 <= i < |idx| ==> -(n as int) <= idx[i] < n
  }

  /** Setting positions fails exactly on one out of range; otherwise a cell
      is `True` when it was or when one of the positions names it. */
  lemma {:induction false} SetTrueCells(arr: seq<bool>, idx: seq<int>)
    ensures SetTrue(arr, idx).Ok? <==> Fits(idx, |arr|)
    ensures SetTrue(arr, idx).Ok? ==> forall k :: 0 <= k < |arr| ==>
              (SetTrue(arr, idx).value[k] <==> arr[k] || exists i :: 0 <= i < |idx| && Wrap(idx[i], |arr|) == k)
  {
    if |idx| > 0 {
      var init := idx[..|idx| - 1];
      SetTrueCells(arr, init);
      assert forall i :: 0 <= i < |init| ==> init[i] == idx[i];
    }
  }

  /** `get_bool_array`: a `date_len * ant_len` grid of `False` with the
      trace's positions set. `np.zeros` rejects a negative grid size. */
  function GetBoolArray(indices: seq<int>, dateLen: int, antLen: int): (r: Result<seq<bool>>)
    ensures antLen * dateLen < 0 ==> r == Err(NegativeDimension)
    ensures r.Ok? ==> |r.value| == antLen * dateLen
  {
    var n := antLen * dateLen;
    if n < 0 then Err(NegativeDimension)
    else SetTrue(Repeat(false, n), indices)
  }

  /** The grid exists exactly when every position fits, and a cell is
      `True` exactly when the trace names it. */
  lemma BoolArrayCells(indices: seq<int>, dateLen: int, antLen: int)
    requires antLen * dateLen >= 0
    ensures GetBoolArray(indices, dateLen, antLen).Ok? <==> Fits(indices, antLen * dateLen)
    ensures GetBoolArray(indices, dateLen, antLen).Ok? ==>
              forall k :: 0 <= k < antLen * dateLen ==>
                (GetBoolArray(indices, dateLen, antLen).value[k] <==>
                 exists i :: 0 <= i < |indices| && Wrap(indices[i], antLen * dateLen) == k)
  {
    SetTrueCells(Repeat(false, antLen * dateLen), indices);
  }

  /** Python's `line[:13]`: the hour stamp. */
  function Stamp(line: string): (r: string)
    ensures |r| <= 13
  {
    if |line| <= 13 then line else line[..13]
  }

  /** Python's `line[20:-1]`: the antenna name, without the line end. */
  function AntennaName(line: string): string
  {
    var hi := if |line| >= 1 then |line| - 1 else 0;
    if 20 >= hi then [] else line[20..hi]
  }

  /** `read_lines`: the positions of the line's hour stamp in `date_array`
      and of its antenna in `ant_array`, or `(-1, -1)` for an hour outside
      the table. A known hour with an unknown antenna raises, because the
      empty `np.where` result is indexed. */
  function ReadLines(line: string, dates: seq<string>, ants: seq<string>): (r: Result<(int, int)>)
    ensures r == Ok((-1, -1)) <==> Stamp(line) !in dates
    ensures r.Err? <==> Stamp(line) in dates && AntennaName(line) !in ants
    ensures r.Err? ==> r.error == IndexOutOfRange
    ensures r.Ok? && Stamp(line) in dates ==>
              && 0 <= r.value.0 < |dates| && dates[r.value.0] == Stamp(line)
              && (forall k :: 0 <= k < r.value.0 ==> dates[k] != Stamp(line))
              && 0 <= r.value.1 < |ants| && ants[r.value.1] == AntennaName(line)
              && (forall k :: 0 <= k < r.value.1 ==> ants[k] != AntennaName(line))
  {
    var ts, an := Stamp(line), AntennaName(line);
    if ts in dates then
      if an in ants then Ok((IndexOf(dates, ts) as int, IndexOf(ants, an) as int)) else Err(IndexOutOfRange)
    else Ok((-1, -1))
  }

  /** A line written as a 13-character hour of the table, 7 characters of
      minutes and seconds, an antenna of the table and a line end reads back
      as the positions of that hour and antenna, when both tables list each
      entry once. */
  lemma LineRoundTrip(dates: seq<string>, ants: seq<string>, t: nat, x: nat, mid: string, eol: char)
    requires Distinct(dates) && Distinct(ants) && t < |dates| && x < |ants|
    requires |dates[t]| == 13 && |mid| == 7
    ensures ReadLines(dates[t] + mid + ants[x] + [eol], dates, ants) == Ok((t, x))
  {
    var line := dates[t] + mid + ants[x] + [eol];
    assert Stamp(line) == dates[t];
    assert AntennaName(line) == ants[x];
    IndexOfDistinct(dates, t);
    IndexOfDistinct(ants, x);
  }
}

/** The space-time index codec: hour `t` at antenna `x` is the single integer
    `t * lants + x`, and a trace is a list of such integers. */
module SpaceTime {
  import opened Common

  function Encode(t: int, x: int, lants: int): int
  {
    t * lants + x
  }

  /** `get_user_track`: splits each index into its hour (`ind // lants`) and
      antenna (`ind % lants`), with Python's rounding. Dividing by zero
      raises as soon as there is an index to divide. */
  function GetUserTrack(indices: seq<int>, lants: int): (r: Result<(seq<int>, seq<int>)>)
    ensures r.Err? <==> lants == 0 && |indices| > 0
    ensures r.Ok? ==> |r.value.0| == |indices| && |r.value.1| == |indices|
    ensures r.Ok? ==> forall i :: 0 <= i < |indices| ==>
              Encode(r.value.0[i], r.value.1[i], lants) == indices[i]
    ensures r.Ok? && lants > 0 ==> forall i :: 0 <= i < |indices| ==> 0 <= r.value.1[i] < lants
    ensures r.Ok? && lants < 0 ==> forall i :: 0 <= i < |indices| ==> lants < r.value.1[i] <= 0
  {
    if |indices| == 0 then Ok(([], []))
    else if lants == 0 then Err(ZeroDivision)
    else
      Ok((seq(|indices|, i requires 0 <= i < |indices| => FloorDiv(indices[i], lants)),
          seq(|indices|, i requires 0 <= i < |indices| => FloorMod(indices[i], lants))))
  }

  /** `generate_user_indices`: `t * lants + x` elementwise, with numpy's
      broadcasting of a length-one array against a longer one. */
  function GenerateUserIndices(t: seq<int>, x: seq<int>, lants: int): (r: Result<seq<int>>)
    ensures r.Err? <==> |t| != |x| && |t| != 1 && |x| != 1
    ensures |t| == |x| ==>
              r.Ok? && |r.value| == |t| && forall i :: 0 <= i < |t| ==> r.value[i] == Encode(t[i], x[i], lants)
    ensures |t| == 1 ==>
              r.Ok? && |r.value| == |x| && forall i :: 0 <= i < |x| ==> r.value[i] == Encode(t[0], x[i], lants)
    ensures |x| == 1 ==>
              r.Ok? && |r.value| == |t| && forall i :: 0 <= i < |t| ==> r.value[i] == Encode(t[i], x[0], lants)
  {
    if |t| == |x| then Ok(seq(|t|, i requires 0 <= i < |t| => Encode(t[i], x[i], lants)))
    else if |t| == 1 then Ok(seq(|x|, i requires 0 <= i < |x| => Encode(t[0], x[i], lants)))
    else if |x| == 1 then Ok(seq(|t|, i requires 0 <= i < |t| => Encode(t[i], x[0], lants)))
    else Err(ShapeMismatch)
  }

  /** Splitting a trace and re-encoding it gives the trace back, for every
      nonzero antenna count (not only positive ones, and for negative
      indices too, because Python's `//` and `%` always satisfy
      `(a // b) * b + a % b == a`). */
  lemma TrackRoundTrip(indices: seq<int>, lants: int)
    requires lants != 0
    ensures GetUserTrack(indices, lants).Ok?
    ensures GenerateUserIndices(GetUserTrack(indices, lants).value.0,
                                GetUserTrack(indices, lants).value.1, lants) == Ok(indices)
  {
    var tx := GetUserTrack(indices, lants).value;
    var r := GenerateUserIndices(tx.0, tx.1, lants);
    assert r.Ok? && |r.value| == |indices|;
    assert forall i :: 0 <= i < |indices| ==> r.value[i] == indices[i];
    assert r.value == indices;
  }

  /** Decoding an encoded point with `0 <= x < lants` recovers hour and
      antenna. */
  lemma DecodeEncode(t: int, x: int, lants: int)
    requires 0 <= x < lants
    ensures FloorDiv(Encode(t, x, lants), lants) == t
    ensures FloorMod(Encode(t, x, lants), lants) == x
  {
    var a := Encode(t, x, lants);
    var q := FloorDiv(a, lants);
    var m := FloorMod(a, lants);
    var d := q - t;
    assert d * lants == x - m by {
      assert q * lants + m == t * lants + x;
      assert d * lants == q * lants - t * lants;
    }
    if d >= 1 {
      MultipleAtLeast(d, lants);
    } else if d <= -1 {
      MultipleAtLeast(-d, lants);
    }
  }

  lemma MultipleAtLeast(d: int, l: int)
    requires d >= 1 && l > 0
    ensures d * l >= l
  {
    assert d * l == (d - 1) * l + l;
  }

  /** With antennas in range, the encoding is injective: two points share an
      index only if they share hour and antenna. */
  lemma EncodeInjective(t1: int, x1: int, t2: int, x2: int, lants: int)
    requires 0 <= x1 < lants && 0 <= x2 < lants
    requires Encode(t1, x1, lants) == Encode(t2, x2, lants)
    ensures t1 == t2 && x1 == x2
  {
    DecodeEncode(t1, x1, lants);
    DecodeEncode(t2, x2, lants);
  }

  /** Points at different hours never share an index. */
  lemma EncodeSeparates(t1: int, x1: int, t2: int, x2: int, lants: int)
    requires 0 <= x1 < lants && 0 <= x2 < lants && t1 != t2
    ensures Encode(t1, x1, lants) != Encode(t2, x2, lants)
  {
    DecodeEncode(t1, x1, lants);
    DecodeEncode(t2, x2, lants);
  }
}

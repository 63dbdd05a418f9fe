/** Shared vocabulary: the failures the engine can raise, sums and
    concatenations of sequences, and the small facts about them that the
    payload layout proofs rest on. */
module Common {

  /** The ways a call of the engine fails. Each names the exception the
      program raises (an `assert`, a numpy/scipy `ValueError`, a Python
      `IndexError`, `KeyError` or `ZeroDivisionError`), except `InvalidDraw`
      and `DrawsExhausted`, which say that a supplied random draw is not one
      the generator could have produced, or that the supplied draws ran out. */
  datatype Error =
    | AssertionFailed
    | ZeroDivision
    | KeyMissing
    | IndexOutOfRange
    | SampleTooLarge
    | EmptyPopulation
    | ShapeMismatch
    | NegativeDimension       // an array shape with a negative dimension
    | WeightsNotDistribution  // `p=` weights with a negative entry or a sum other than 1
    | TooFewWeighted          // fewer positive weights than items drawn without replacement
    | UnpackMismatch
    | InvalidDraw
    | DrawsExhausted

  datatype Result<+T> = Ok(value: T) | Err(error: Error)

  /** A list comprehension whose elements may raise: the values in order
      when every element succeeds, otherwise the first failure. */
  function AllOk<T>(rs: seq<Result<T>>): (r: Result<seq<T>>)
    ensures r.Ok? <==> forall i :: 0 <= i < |rs| ==> rs[i].Ok?
    ensures r.Ok? ==> |r.value| == |rs| && forall i :: 0 <= i < |rs| ==> r.value[i] == rs[i].value
    ensures r.Err? ==> exists i :: 0 <= i < |rs| && rs[i] == Err(r.error) &&
                                   forall j :: 0 <= j < i ==> rs[j].Ok?
  {
    if |rs| == 0 then Ok([])
    else
      var n := |rs| - 1;
      assert forall i :: 0 <= i < n ==> rs[..n][i] == rs[i];
      match AllOk(rs[..n])
      case Err(e) => Err(e)
      case Ok(vs) =>
        match rs[n]
        case Err(e) => Err(e)
        case Ok(v) => Ok(vs + [v])
  }

  /** Sum of a sequence of counts, accumulated from the left. */
  function Sum(s: seq<nat>): nat
  {
    if |s| == 0 then 0 else Sum(s[..|s| - 1]) + s[|s| - 1]
  }

  lemma {:induction false} SumAppend(a: seq<nat>, b: seq<nat>)
    ensures Sum(a + b) == Sum(a) + Sum(b)
  {
    if |b| == 0 {
      assert a + b == a;
    } else {
      assert (a + b)[..|a + b| - 1] == a + b[..|b| - 1];
      SumAppend(a, b[..|b| - 1]);
    }
  }

  lemma SumStep(s: seq<nat>, i: nat)
    requires i < |s|
    ensures Sum(s[..i + 1]) == Sum(s[..i]) + s[i]
  {
    assert s[..i + 1][..i] == s[..i];
  }

  lemma {:induction false} SumPrefixMonotone(s: seq<nat>, i: nat, j: nat)
    requires i <= j <= |s|
    ensures Sum(s[..i]) <= Sum(s[..j])
    decreases j - i
  {
    if i < j {
      SumStep(s, j - 1);
      SumPrefixMonotone(s, i, j - 1);
    }
  }

  lemma SumWhole(s: seq<nat>)
    ensures Sum(s[..|s|]) == Sum(s)
  {
    assert s[..|s|] == s;
  }

  /** Sum of a sequence of ones: the number of elements. */
  lemma {:induction false} SumRepeat(x: nat, n: nat)
    ensures Sum(Repeat(x, n)) == x * n
  {
    if n > 0 {
      assert Repeat(x, n)[..n - 1] == Repeat(x, n - 1);
      SumRepeat(x, n - 1);
    }
  }

  /** Running totals as numpy's `cumsum`: entry `i` is the sum of the first
      `i + 1` elements. */
  function CumSum(s: seq<nat>): (r: seq<nat>)
    ensures |r| == |s|
  {
    seq(|s|, i requires 0 <= i < |s| => Sum(s[..i + 1]))
  }

  function Repeat<T>(x: T, n: nat): (r: seq<T>)
    ensures |r| == n
  {
    seq(n, _ => x)
  }

  /** Sequence of sequences flattened, pieces in order. */
  function Concat<T>(ss: seq<seq<T>>): seq<T>
  {
    if |ss| == 0 then [] else Concat(ss[..|ss| - 1]) + ss[|ss| - 1]
  }

  function Lengths<T>(ss: seq<seq<T>>): (r: seq<nat>)
    ensures |r| == |ss|
  {
    seq(|ss|, i requires 0 <= i < |ss| => |ss[i]|)
  }

  lemma {:induction false} ConcatLength<T>(ss: seq<seq<T>>)
    ensures |Concat(ss)| == Sum(Lengths(ss))
  {
    if |ss| > 0 {
      assert Lengths(ss)[..|ss| - 1] == Lengths(ss[..|ss| - 1]);
      ConcatLength(ss[..|ss| - 1]);
    }
  }

  lemma {:induction false} ConcatAppend<T>(a: seq<seq<T>>, b: seq<seq<T>>)
    ensures Concat(a + b) == Concat(a) + Concat(b)
  {
    if |b| == 0 {
      assert a + b == a;
    } else {
      assert (a + b)[..|a + b| - 1] == a + b[..|b| - 1];
      ConcatAppend(a, b[..|b| - 1]);
    }
  }

  lemma ConcatSnoc<T>(a: seq<seq<T>>, x: seq<T>)
    ensures Concat(a + [x]) == Concat(a) + x
  {
    assert (a + [x])[..|a|] == a;
  }

  lemma LengthsPrefix<T>(ss: seq<seq<T>>, u: nat)
    requires u <= |ss|
    ensures Lengths(ss)[..u] == Lengths(ss[..u])
  {
  }

  /** Piece `u` of a concatenation sits between the prefix sums of the
      piece lengths before it and through it. */
  lemma ConcatPiece<T>(ss: seq<seq<T>>, u: nat)
    requires u < |ss|
    ensures Sum(Lengths(ss)[..u]) + |ss[u]| == Sum(Lengths(ss)[..u + 1]) <= |Concat(ss)|
    ensures Concat(ss)[Sum(Lengths(ss)[..u])..Sum(Lengths(ss)[..u + 1])] == ss[u]
  {
    SumStep(Lengths(ss), u);
    assert ss == ss[..u + 1] + ss[u + 1..];
    ConcatAppend(ss[..u + 1], ss[u + 1..]);
    assert ss[..u + 1][..u] == ss[..u];
    LengthsPrefix(ss, u);
    ConcatLength(ss[..u]);
    ConcatLength(ss);
    SumPrefixMonotone(Lengths(ss), u + 1, |ss|);
    SumWhole(Lengths(ss));
  }

  /** Every element of a concatenation comes from one of its pieces. */
  lemma {:induction false} ConcatMember<T>(ss: seq<seq<T>>, x: T)
    ensures x in Concat(ss) <==> exists u :: 0 <= u < |ss| && x in ss[u]
  {
    if |ss| > 0 {
      ConcatMember(ss[..|ss| - 1], x);
      if x in ss[|ss| - 1] {
        assert x in Concat(ss);
      }
    }
  }

  predicate Distinct<T(==)>(s: seq<T>)
  {
    forall i, j :: 0 <= i < j < |s| ==> s[i] != s[j]
  }

  /** No repeats is the same as every multiplicity at most one. */
  lemma {:induction false} DistinctMultiset<T>(s: seq<T>)
    ensures Distinct(s) <==> forall x :: multiset(s)[x] <= 1
  {
    if |s| > 0 {
      var init, last := s[..|s| - 1], s[|s| - 1];
      assert s == init + [last];
      DistinctMultiset(init);
      if Distinct(s) {
        assert Distinct(init);
        assert last !in init;
      } else {
        var i, j :| 0 <= i < j < |s| && s[i] == s[j];
        if j < |s| - 1 {
          assert init[i] == init[j];
          assert !Distinct(init);
          var x :| multiset(init)[x] > 1;
          assert multiset(s) == multiset(init) + multiset{last};
          assert multiset(s)[x] > 1;
        } else {
          assert s[i] in init;
          assert multiset(s)[last] == multiset(init)[last] + 1;
        }
      }
    }
  }

  /** Distinct values, in order of first appearance. */
  function Dedup<T(==,!new)>(s: seq<T>): (r: seq<T>)
    ensures Distinct(r)
    ensures forall x :: x in r <==> x in s
  {
    if |s| == 0 then []
    else
      var d := Dedup(s[..|s| - 1]);
      assert forall x :: x in s <==> x in s[..|s| - 1] || x == s[|s| - 1];
      if s[|s| - 1] in d then d else d + [s[|s| - 1]]
  }

  /** Position of the first occurrence, as `np.where(a == x)[0][0]`. */
  function IndexOf<T(==)>(s: seq<T>, x: T): (r: nat)
    requires x in s
    ensures r < |s| && s[r] == x
    ensures forall i :: 0 <= i < r ==> s[i] != x
  {
    if s[0] == x then 0 else 1 + IndexOf(s[1..], x)
  }

  lemma IndexOfDistinct<T>(s: seq<T>, i: nat)
    requires Distinct(s) && i < |s|
    ensures IndexOf(s, s[i]) == i
  {
  }

  /** Python's `a // b`: the quotient rounded toward minus infinity. For a
      positive divisor it coincides with Dafny's Euclidean `/`. */
  function FloorDiv(a: int, b: int): int
    requires b != 0
  {
    if b > 0 then a / b else (-a) / (-b)
  }

  /** Python's `a % b`: the remainder that takes the sign of the divisor. */
  function FloorMod(a: int, b: int): (r: int)
    requires b != 0
    ensures FloorDiv(a, b) * b + r == a
    ensures b > 0 ==> 0 <= r < b
    ensures b < 0 ==> b < r <= 0
  {
    a - b * FloorDiv(a, b)
  }
}

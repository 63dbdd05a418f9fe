/** The range of the random tie-break stream in `get_rand_iterator`: the
    least common multiple of the tie counts `1 .. max_ties - 1`, so that a
    draw below it, taken modulo any possible number of tied antennas, is
    uniform. `lcm(a, b)` is `|a * b| / gcd(a, b)` for nonzero arguments and
    0 otherwise; `gcd` is Python's `math.gcd`. */
module Ties {
  import opened Common

  /** `d` divides `n`. */
  predicate Divides(d: nat, n: int)
  {
    d > 0 && n % d == 0
  }

  function Abs(x: int): nat
  {
    if x < 0 then -x else x
  }

  /** Euclid's algorithm, as `math.gcd` on nonnegative arguments. */
  function Gcd(a: nat, b: nat): nat
    decreases b
  {
    if b == 0 then a else Gcd(b, a % b)
  }

  /** A nonzero multiple of `d` is at least `d` away from 0. */
  lemma MulAtLeast(d: nat, j: int)
    requires d > 0
    ensures j >= 1 ==> d * j >= d
    ensures j <= -1 ==> d * j <= -(d as int)
  {
    if j >= 1 {
      assert d * j == d + d * (j - 1);
    } else if j <= -1 {
      assert d * j == -(d as int) + d * (j + 1);
    }
  }

  /** Dividing a multiple of `d` by `d` is exact. */
  lemma MulMod(d: nat, k: int)
    requires d > 0
    ensures (d * k) % d == 0 && (d * k) / d == k
  {
    var q, r := (d * k) / d, (d * k) % d;
    assert d * k == d * q + r && 0 <= r < d;
    assert d * (k - q) == r;
    MulAtLeast(d, k - q);
  }

  /** A multiple of `d` plus a multiple of `d` is a multiple of `d`. */
  lemma DividesCombination(d: nat, x: int, y: int, q: int)
    requires Divides(d, x) && Divides(d, y)
    ensures Divides(d, q * x + y)
  {
    var kx, ky := x / d, y / d;
    assert x == d * kx && y == d * ky;
    assert q * x + y == d * (q * kx + ky);
    MulMod(d, q * kx + ky);
  }

  /** The gcd of two numbers, not both zero, is positive and divides both. */
  lemma {:induction false} GcdDivides(a: nat, b: nat)
    requires a > 0 || b > 0
    ensures Divides(Gcd(a, b), a) && Divides(Gcd(a, b), b)
    decreases b
  {
    if b > 0 {
      GcdDivides(b, a % b);
      var g := Gcd(a, b);
      assert a == (a / b) * b + a % b;
      DividesCombination(g, b, a % b, a / b);
    }
  }

  /** Bezout's identity: the gcd is an integer combination of the two. */
  lemma {:induction false} Bezout(a: nat, b: nat) returns (x: int, y: int)
    ensures x * a + y * b == Gcd(a, b)
    decreases b
  {
    if b == 0 {
      x, y := 1, 0;
    } else {
      var x', y' := Bezout(b, a % b);
      assert a % b == a - (a / b) * b;
      x, y := y', x' - y' * (a / b);
      calc {
        x * a + y * b;
        y' * a + x' * b - y' * (a / b) * b;
        x' * b + y' * (a - (a / b) * b);
        x' * b + y' * (a % b);
      }
    }
  }

  /** A divisor's cofactor. */
  lemma Cofactor(d: nat, n: int) returns (k: int)
    requires Divides(d, n)
    ensures k == n / d && n == d * k
  {
    k := n / d;
  }

  /** Combining two multiples of `d` gives a multiple of `d`. */
  lemma CombineMultiples(d: int, a: int, b: int, ka: int, kb: int, x: int, y: int)
    requires a == d * ka && b == d * kb
    ensures x * a + y * b == d * (x * ka + y * kb)
  {
    assert x * (d * ka) == d * (x * ka);
    assert y * (d * kb) == d * (y * kb);
  }

  /** Every common divisor divides the gcd. */
  lemma GcdGreatest(a: nat, b: nat, d: nat)
    requires Divides(d, a) && Divides(d, b)
    ensures Divides(d, Gcd(a, b))
  {
    var x, y := Bezout(a, b);
    var ka := Cofactor(d, a);
    var kb := Cofactor(d, b);
    CombineMultiples(d, a, b, ka, kb, x, y);
    MulMod(d, x * ka + y * kb);
  }

  /** Multiplying by a positive number is injective. */
  lemma MulCancel(g: nat, u: int, v: int)
    requires g > 0 && g * u == g * v
    ensures u == v
  {
    assert g * (u - v) == 0;
    MulAtLeast(g, u - v);
  }

  /** The ring identity behind the least-multiple property: with
      `x * a + y * b == g`, `m == a * s == b * t` and `a * b == g * l`,
      `g * m` is `g * (l * (x * t + y * s))`. */
  lemma CommonMultipleIdentity(a: int, b: int, g: int, l: int, m: int, x: int, y: int, s: int, t: int)
    requires x * a + y * b == g && m == a * s && m == b * t && a * b == g * l
    ensures g * m == g * (l * (x * t + y * s))
  {
    Distribute(x, a, y, b, m);
    Regroup(a, b, t);
    Regroup(b, a, s);
    Collect(g, l, x, y, s, t);
  }

  lemma Distribute(x: int, a: int, y: int, b: int, m: int)
    ensures (x * a + y * b) * m == x * (a * m) + y * (b * m)
  {
  }

  lemma Regroup(a: int, b: int, t: int)
    ensures a * (b * t) == (a * b) * t
  {
  }

  lemma Collect(g: int, l: int, x: int, y: int, s: int, t: int)
    ensures x * ((g * l) * t) + y * ((g * l) * s) == g * (l * (x * t + y * s))
  {
    var gl, u, v := g * l, x * t, y * s;
    assert x * (gl * t) == gl * u;
    assert y * (gl * s) == gl * v;
    assert gl * u + gl * v == gl * (u + v);
  }

  /** `lcm(a, b)`: `int(abs(a * b) / gcd(a, b))` when neither is zero,
      otherwise 0. */
  function Lcm(a: int, b: int): (r: nat)
    ensures r == 0 <==> a == 0 || b == 0
  {
    if a != 0 && b != 0 then
      AbsMul(a, b);
      LcmPositive(Abs(a), Abs(b));
      Abs(a * b) / Gcd(Abs(a), Abs(b))
    else 0
  }

  lemma AbsMul(a: int, b: int)
    ensures Abs(a * b) == Abs(a) * Abs(b)
  {
  }

  /** For positive `a` and `b`, `a * b / gcd(a, b)` is `a * (b / gcd)`. */
  lemma LcmPositive(a: nat, b: nat)
    requires a > 0 && b > 0
    ensures Gcd(a, b) > 0
    ensures (a * b) / Gcd(a, b) == a * (b / Gcd(a, b)) > 0
  {
    GcdDivides(a, b);
    var g := Gcd(a, b);
    var kb := b / g;
    assert b == g * kb;
    assert kb > 0;
    assert a * b == g * (a * kb);
    MulMod(g, a * kb);
  }

  /** The lcm of two nonzero numbers is a multiple of both. */
  lemma LcmMultiple(a: int, b: int)
    requires a != 0 && b != 0
    ensures Divides(Abs(a), Lcm(a, b)) && Divides(Abs(b), Lcm(a, b))
  {
    var a', b' := Abs(a), Abs(b);
    var g, l := Gcd(a', b'), Lcm(a, b);
    LcmFactors(a, b);
    GcdDivides(a', b');
    var p := Cofactor(g, a');
    var q := Cofactor(g, b');
    LcmProduct(a', b', g, q, a' * q);
    MulCancel(g, l, a' * q);
    LcmProduct(b', a', g, p, b' * p);
    MulCancel(g, l, b' * p);
    MulMod(a', q);
    MulMod(b', p);
  }

  /** The lcm of two nonzero numbers divides each of their common
      multiples. */
  lemma LcmDividesCommon(a: int, b: int, m: int)
    requires a != 0 && b != 0
    requires Divides(Abs(a), m) && Divides(Abs(b), m)
    ensures Divides(Lcm(a, b), m)
  {
    var a', b' := Abs(a), Abs(b);
    var g, l := Gcd(a', b'), Lcm(a, b);
    LcmFactors(a, b);
    var x, y := Bezout(a', b');
    var s := Cofactor(a', m);
    var t := Cofactor(b', m);
    CommonMultipleIdentity(a', b', g, l, m, x, y, s, t);
    MulCancel(g, m, l * (x * t + y * s));
    MulMod(l, x * t + y * s);
  }

  /** For nonzero `a` and `b`, the gcd is positive and
      `|a| * |b| == gcd * lcm`. */
  lemma LcmFactors(a: int, b: int)
    requires a != 0 && b != 0
    ensures Gcd(Abs(a), Abs(b)) > 0
    ensures Abs(a) * Abs(b) == Gcd(Abs(a), Abs(b)) * Lcm(a, b)
  {
    var a', b' := Abs(a), Abs(b);
    AbsMul(a, b);
    LcmPositive(a', b');
    GcdDivides(a', b');
    var g := Gcd(a', b');
    var q := Cofactor(g, b');
    assert Lcm(a, b) == a' * q;
    LcmProduct(a', b', g, q, Lcm(a, b));
  }

  /** With `b == g * q` and `l == a * q`, `a * b == g * l`. */
  lemma LcmProduct(a: int, b: int, g: int, q: int, l: int)
    requires b == g * q && l == a * q
    ensures a * b == g * l
  {
    assert a * (g * q) == g * (a * q);
  }

  /** `target_lcm`: `lcm` folded over `1 .. n - 1`, starting from 1. */
  function TargetLcm(n: int): (r: nat)
    ensures r > 0
    decreases n
  {
    if n <= 1 then 1 else Lcm(TargetLcm(n - 1), n - 1)
  }

  /** Every tie count below `n` divides the target, and the target divides
      every number that all of them divide: it is their least common
      multiple. */
  lemma {:induction false} TargetLcmLeast(n: int, m: int)
    ensures forall i :: 1 <= i < n ==> Divides(i, TargetLcm(n))
    ensures (forall i :: 1 <= i < n ==> Divides(i, m)) ==> Divides(TargetLcm(n), m)
    decreases n
  {
    if n <= 1 {
      assert m % 1 == 0;
    } else {
      var t := TargetLcm(n - 1);
      TargetLcmLeast(n - 1, m);
      TargetLcmLeast(n - 1, TargetLcm(n));
      LcmMultiple(t, n - 1);
      if forall i :: 1 <= i < n ==> Divides(i, m) {
        LcmDividesCommon(t, n - 1, m);
      }
      forall i | 1 <= i < n
        ensures Divides(i, TargetLcm(n))
      {
        if i < n - 1 {
          DividesTransitive(i, t, TargetLcm(n));
        }
      }
    }
  }

  lemma DividesTransitive(x: nat, y: nat, z: int)
    requires Divides(x, y) && Divides(y, z)
    ensures Divides(x, z)
  {
    var k, j := y / x, z / y;
    assert y == x * k && z == y * j;
    assert z == x * (k * j);
    MulMod(x, k * j);
  }

  /** `get_rand_iterator(itsize, max_ties)`: `itsize` draws of
      `np.random.randint(target_lcm)`, supplied as `draws`. A negative size
      is rejected by numpy; draws of another number, or outside
      `[0, target_lcm)`, could not have been produced. The stream serves
      every tie count `k` below `max_ties`: `k` divides `target_lcm`, and
      each draw lies in one of the `target_lcm / k` whole rounds of `k`
      remainders. */
  function RandIterator(itsize: int, maxTies: int, draws: seq<int>): (r: Result<seq<nat>>)
    ensures itsize < 0 ==> r == Err(NegativeDimension)
    ensures r.Ok? <==> itsize >= 0 && |draws| == itsize && forall i :: 0 <= i < |draws| ==> 0 <= draws[i] < TargetLcm(maxTies)
    ensures r.Ok? ==> r.value == draws
    ensures r.Ok? ==> forall k :: 1 <= k < maxTies ==>
              Divides(k, TargetLcm(maxTies)) &&
              forall i :: 0 <= i < |r.value| ==> r.value[i] / k < TargetLcm(maxTies) / k
  {
    if itsize < 0 then Err(NegativeDimension)
    else if |draws| != itsize then Err(InvalidDraw)
    else if forall i :: 0 <= i < |draws| ==> 0 <= draws[i] < TargetLcm(maxTies) then
      EveryTieSplits(maxTies);
      Ok(seq(|draws|, i requires 0 <= i < |draws| => draws[i] as nat))
    else Err(InvalidDraw)
  }

  /** `DrawsSplitEvenly` for every tie count below `max_ties` at once. */
  lemma EveryTieSplits(maxTies: int)
    ensures forall k :: 1 <= k < maxTies ==>
              Divides(k, TargetLcm(maxTies)) &&
              forall v :: 0 <= v < TargetLcm(maxTies) ==> v / k < TargetLcm(maxTies) / k
  {
    forall k | 1 <= k < maxTies
      ensures Divides(k, TargetLcm(maxTies))
      ensures forall v :: 0 <= v < TargetLcm(maxTies) ==> v / k < TargetLcm(maxTies) / k
    {
      DrawsSplitEvenly(maxTies, k);
    }
  }

  /** The draw whose quotient by `k` is `q` and whose remainder is `j`. */
  function Join(q: nat, k: nat, j: nat): nat
  {
    q * k + j
  }

  /** Why the range is `target_lcm`: every tie count `k` below `max_ties`
      divides it, so `[0, target_lcm)` is exactly `target_lcm / k` whole
      rounds of the `k` remainders. Each draw is one remainder `j < k` in
      one round `q < target_lcm / k`, and (`RoundsSplit`) each such pair is
      one draw, so a uniform draw taken modulo `k` picks every one of `k`
      tied antennas with the same chance. */
  lemma DrawsSplitEvenly(maxTies: int, k: nat)
    requires 1 <= k < maxTies
    ensures TargetLcm(maxTies) % k == 0
    ensures forall v :: 0 <= v < TargetLcm(maxTies) ==>
              v % k < k && v / k < TargetLcm(maxTies) / k && Join(v / k, k, v % k) == v
  {
    var t := TargetLcm(maxTies);
    assert t % k == 0 by {
      TargetLcmLeast(maxTies, t);
      assert Divides(k, t);
    }
    RoundsSplit(t, k);
  }

  /** A multiple `t` of `k` is `t / k` whole rounds of the `k` remainders. */
  lemma RoundsSplit(t: nat, k: nat)
    requires k > 0 && t % k == 0
    ensures forall v :: 0 <= v < t ==> v % k < k && v / k < t / k && Join(v / k, k, v % k) == v
    ensures forall q: nat, j: nat :: q < t / k && j < k ==>
              Join(q, k, j) < t && Join(q, k, j) % k == j && Join(q, k, j) / k == q
  {
    var rounds := t / k;
    assert t == rounds * k by {
      assert t == k * (t / k) + t % k;
    }
    forall v | 0 <= v < t
      ensures v % k < k && v / k < rounds && Join(v / k, k, v % k) == v
    {
      RoundBelow(v, k, rounds);
    }
    forall q: nat, j: nat | q < rounds && j < k
      ensures Join(q, k, j) < t && Join(q, k, j) % k == j && Join(q, k, j) / k == q
    {
      JoinInRange(q, k, j, rounds);
    }
  }

  /** A value below `rounds * k` lies in one of the first `rounds` rounds. */
  lemma RoundBelow(v: nat, k: nat, rounds: nat)
    requires k > 0 && v < rounds * k
    ensures v / k < rounds && v == (v / k) * k + v % k
  {
    assert v == k * (v / k) + v % k;
    if v / k >= rounds {
      MulMonotone(rounds, v / k, k);
    }
  }

  lemma MulMonotone(a: nat, b: nat, k: nat)
    requires a <= b
    ensures a * k <= b * k
  {
    assert b * k == a * k + (b - a) * k;
  }

  /** Remainder `j` of round `q` is a value below `rounds * k` that splits
      back into `q` and `j`. */
  lemma JoinInRange(q: nat, k: nat, j: nat, rounds: nat)
    requires j < k && q < rounds
    ensures Join(q, k, j) < rounds * k
    ensures Join(q, k, j) % k == j && Join(q, k, j) / k == q
  {
    MulMonotone(q + 1, rounds, k);
    assert (q + 1) * k == q * k + k;
    DivModUnique(q * k + j, k, q, j);
  }

  /** Euclidean division by `k` is unique. */
  lemma DivModUnique(v: int, k: nat, q: int, j: int)
    requires 0 <= j < k && v == q * k + j
    ensures v / k == q && v % k == j
  {
    var q', j' := v / k, v % k;
    assert v == k * q' + j';
    assert k * (q - q') == j' - j by {
      assert k * (q - q') == k * q - k * q';
    }
    if q > q' {
      MulAtLeast(k, q - q');
    } else if q < q' {
      MulAtLeast(k, q - q');
    }
  }

  /** The stream of `get_rand_iterator` serves every tie count below
      `max_ties`: each draw, split by a tie count `k`, is a remainder below
      `k` in one of the `target_lcm / k` whole rounds of the range. */
  lemma TieDrawsEven(itsize: int, maxTies: int, draws: seq<int>, k: nat)
    requires RandIterator(itsize, maxTies, draws).Ok? && 1 <= k < maxTies
    ensures var s := RandIterator(itsize, maxTies, draws).value;
            && |s| == itsize
            && TargetLcm(maxTies) % k == 0
            && forall i :: 0 <= i < |s| ==> s[i] / k < TargetLcm(maxTies) / k && Join(s[i] / k, k, s[i] % k) == s[i]
  {
    DrawsSplitEvenly(maxTies, k);
  }
}

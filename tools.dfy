/** The interval simplifier and the float-to-int conversion of tools.py, over exact reals. */
module Tools {

  function Abs(x: real): real {
    if x < 0.0 then -x else x
  }

  /** Below this relative width the simplifier gives up and keeps x. */
  const Tiny: real := 0.0000000001

  // ---------------------------------------------------------------------------
  // The scale 10^floor(log10(d))
  // ---------------------------------------------------------------------------

  /** A power of ten: 10^k for some integer k, built by multiplying or dividing by ten. */
  ghost predicate PowerOfTen(s: real) {
    exists k: nat :: s == TenTo(k) || s * TenTo(k) == 1.0
  }

  function TenTo(k: nat): (p: real)
    ensures p >= 1.0
  {
    if k == 0 then 1.0 else 10.0 * TenTo(k - 1)
  }

  /** 10^floor(log10(d)) for d >= 1. */
  function ScaleUp(d: real): (s: real)
    requires d >= 1.0
    ensures 1.0 <= s <= d < 10.0 * s
    decreases d.Floor
  {
    if d < 10.0 then 1.0 else 10.0 * ScaleUp(d / 10.0)
  }

  /** 10^floor(log10(d)) for 0 < d < 1. */
  function ScaleDown(d: real): (s: real)
    requires 0.0 < d < 1.0
    ensures 0.0 < s <= d < 10.0 * s
    decreases (1.0 / d).Floor
  {
    if d >= 0.1 then 0.1
    else
      InverseShrinks(d);
      ScaleDown(d * 10.0) / 10.0
  }

  lemma FlooredTenth(y: real)
    requires y > 10.0
    ensures (y / 10.0).Floor < y.Floor
  {
  }

  /** The measure of ScaleDown decreases. */
  lemma InverseShrinks(d: real)
    requires 0.0 < d < 0.1
    ensures (1.0 / (d * 10.0)).Floor < (1.0 / d).Floor
  {
    assert 1.0 / d > 10.0;
    assert 1.0 / (d * 10.0) == (1.0 / d) / 10.0;
    FlooredTenth(1.0 / d);
  }

  /** np.power(10, np.floor(np.log10(d))): the power of ten with s <= d < 10 s. */
  function Scale(d: real): (s: real)
    requires d > 0.0
    ensures 0.0 < s <= d < 10.0 * s
  {
    if d >= 1.0 then ScaleUp(d) else ScaleDown(d)
  }

  /** The scale is a power of ten. */
  lemma {:induction false} ScaleUpPower(d: real)
    requires d >= 1.0
    ensures exists k: nat :: ScaleUp(d) == TenTo(k)
    decreases d.Floor
  {
    if d >= 10.0 {
      ScaleUpPower(d / 10.0);
      var k: nat :| ScaleUp(d / 10.0) == TenTo(k);
      assert ScaleUp(d) == TenTo(k + 1);
    } else {
      assert ScaleUp(d) == TenTo(0);
    }
  }

  lemma {:induction false} ScaleDownPower(d: real)
    requires 0.0 < d < 1.0
    ensures exists k: nat :: k >= 1 && ScaleDown(d) * TenTo(k) == 1.0
    decreases (1.0 / d).Floor
  {
    if d >= 0.1 {
      assert ScaleDown(d) * TenTo(1) == 1.0;
    } else {
      InverseShrinks(d);
      ScaleDownPower(d * 10.0);
      var k: nat :| k >= 1 && ScaleDown(d * 10.0) * TenTo(k) == 1.0;
      assert ScaleDown(d) * TenTo(k + 1) == 1.0;
    }
  }

  lemma ScalePower(d: real)
    requires d > 0.0
    ensures PowerOfTen(Scale(d))
  {
    if d >= 1.0 {
      ScaleUpPower(d);
    } else {
      ScaleDownPower(d);
    }
  }

  // ---------------------------------------------------------------------------
  // simplest_float_in
  // ---------------------------------------------------------------------------

  /** np.floor and np.ceil as multiples of a scale: the multiples of s next to x. */
  function FloorMultiple(x: real, s: real): real
    requires s > 0.0
  {
    (x / s).Floor as real * s
  }

  function CeilMultiple(x: real, s: real): real
    requires s > 0.0
  {
    var y := x / s;
    (if y.Floor as real == y then y.Floor else y.Floor + 1) as real * s
  }

  predicate In(v: real, a: real, b: real) {
    a <= v <= b
  }

  /** The order in which the candidates are tried: the multiples of 10 s next to x, then the
      multiples of s next to x, the closer first and the lower on a tie, the upper one last
      without a check. */
  function Choose(x: real, a: real, b: real, x1: real, x2: real, x3: real, x4: real): real {
    if In(x1, a, b) then x1
    else if In(x2, a, b) then x2
    else if In(x3, a, b) && In(x4, a, b) then (if Abs(x - x3) <= Abs(x - x4) then x3 else x4)
    else if In(x3, a, b) then x3
    else x4
  }

  /** The candidates for 0 < a < x < b at scale s. */
  function Candidates(x: real, a: real, b: real, s: real): real
    requires s > 0.0
  {
    Choose(x, a, b, FloorMultiple(x, 10.0 * s), CeilMultiple(x, 10.0 * s), FloorMultiple(x, s), CeilMultiple(x, s))
  }

  lemma WidthPositive(x: real, a: real, b: real)
    requires x > 0.0 && (b - a) / x >= Tiny
    ensures b - a > 0.0
  {
  }

  /** simplest_float_in with round_sig(., 12) taken as the identity. */
  function SimplestFloatIn(x: real, a: real, b: real): real
    decreases if x < 0.0 then 1 else 0
  {
    if x == 0.0 || (a <= 0.0 && b >= 0.0) then 0.0
    else if (b - a) / Abs(x) < Tiny then x
    else if x < 0.0 then -SimplestFloatIn(-x, -b, -a)
    else
      WidthPositive(x, a, b);
      Candidates(x, a, b, Scale(b - a))
  }

  // ---------------------------------------------------------------------------
  // Properties
  // ---------------------------------------------------------------------------

  /** The early answers: zero when x is zero or the interval holds zero, x itself when the
      interval is too narrow relative to x, which includes an interval of width zero. */
  lemma SimplestEarlyExits(x: real, a: real, b: real)
    ensures x == 0.0 || (a <= 0.0 && b >= 0.0) ==> SimplestFloatIn(x, a, b) == 0.0
    ensures x != 0.0 && !(a <= 0.0 && b >= 0.0) && (b - a) / Abs(x) < Tiny ==> SimplestFloatIn(x, a, b) == x
    ensures x != 0.0 && a == b && !(a <= 0.0 && b >= 0.0) ==> SimplestFloatIn(x, a, b) == x
  {
  }

  /** The simplifier is odd: mirroring x and the interval mirrors the result. */
  lemma SimplestOdd(x: real, a: real, b: real)
    ensures SimplestFloatIn(-x, -b, -a) == -SimplestFloatIn(x, a, b)
  {
    if x == 0.0 || (a <= 0.0 && b >= 0.0) {
    } else if (b - a) / Abs(x) < Tiny {
      assert (-a - -b) / Abs(-x) == (b - a) / Abs(x);
    } else if x < 0.0 {
      assert (-a - -b) / Abs(-x) == (b - a) / Abs(x);
    } else {
      assert -(-x) == x && -(-a) == a && -(-b) == b;
      assert (-a - -b) / Abs(-x) == (b - a) / Abs(x);
    }
  }

  lemma MulRight(u: real, v: real, s: real)
    requires s > 0.0 && u <= v
    ensures u * s <= v * s
    ensures u < v ==> u * s < v * s
  {
  }

  lemma DivMul(x: real, s: real, y: real)
    requires s > 0.0 && y == x / s
    ensures y * s == x
  {
  }

  lemma MulSucc(u: real, s: real)
    ensures (u + 1.0) * s == u * s + s
  {
  }

  lemma BracketCore(x: real, s: real, y: real, q: int)
    requires s > 0.0 && y * s == x && q == y.Floor
    ensures q as real * s <= x < q as real * s + s
  {
    var r := q as real;
    assert r <= y < r + 1.0;
    MulRight(r, y, s);
    assert r * s <= x;
    MulRight(y, r + 1.0, s);
    MulSucc(r, s);
    assert x < r * s + s;
  }

  /** The lower multiple is at most x and less than s below it; the upper one is x itself
      when x is a multiple, and the next multiple otherwise. */
  lemma Bracket(x: real, s: real)
    requires s > 0.0
    ensures FloorMultiple(x, s) <= x < FloorMultiple(x, s) + s
    ensures CeilMultiple(x, s) == if FloorMultiple(x, s) == x then x else FloorMultiple(x, s) + s
  {
    var y := x / s;
    var q := y.Floor;
    DivMul(x, s, y);
    BracketCore(x, s, y, q);
    if q as real == y {
      assert q as real * s == x;
    } else {
      assert (q + 1) as real * s == q as real * s + s;
      if q as real * s == x {
        assert y * s == x;
        MulRight(q as real, y, s);
      }
    }
  }

  lemma ChooseWithin(x: real, a: real, b: real, s: real, x3: real, x4: real, x1: real, x2: real)
    requires In(x, a, b) && 0.0 < s <= b - a
    requires x3 <= x < x3 + s && x4 == (if x3 == x then x else x3 + s)
    ensures In(Choose(x, a, b, x1, x2, x3, x4), a, b)
  {
  }

  /** With a <= x <= b and s <= b - a, the candidates always land in [a, b], including the
      final x4, which the source returns without checking it. */
  lemma CandidatesWithin(x: real, a: real, b: real, s: real)
    requires In(x, a, b) && 0.0 < s <= b - a
    ensures In(Candidates(x, a, b, s), a, b)
  {
    Bracket(x, s);
    ChooseWithin(x, a, b, s, FloorMultiple(x, s), CeilMultiple(x, s),
      FloorMultiple(x, 10.0 * s), CeilMultiple(x, 10.0 * s));
  }

  /** The result lies in [a, b] whenever x does. */
  lemma SimplestWithin(x: real, a: real, b: real)
    requires In(x, a, b)
    ensures In(SimplestFloatIn(x, a, b), a, b)
  {
    if x == 0.0 || (a <= 0.0 && b >= 0.0) {
    } else if (b - a) / Abs(x) < Tiny {
    } else if x < 0.0 {
      SimplestOdd(-x, -b, -a);
      assert -(-x) == x && -(-a) == a && -(-b) == b;
      SimplestWithinPositive(-x, -b, -a);
    } else {
      SimplestWithinPositive(x, a, b);
    }
  }

  lemma SimplestWithinPositive(x: real, a: real, b: real)
    requires In(x, a, b) && x > 0.0
    ensures In(SimplestFloatIn(x, a, b), a, b)
  {
    if !(a <= 0.0 && b >= 0.0) && (b - a) / x >= Tiny {
      WidthPositive(x, a, b);
      CandidatesWithin(x, a, b, Scale(b - a));
    }
  }

  /** Distinct multiples of s are at least s apart. */
  lemma MultiplesApart(j: int, k: int, s: real, u: real, v: real)
    requires s > 0.0 && j < k && u == j as real * s && v == k as real * s
    ensures v - u >= s
  {
    assert v - u == (k - j) as real * s;
    MulRight(1.0, (k - j) as real, s);
  }

  /** A multiple of s is at most the multiple below x, or at least the multiple above x. */
  lemma MultipleOutside(x: real, s: real, k: int)
    requires s > 0.0
    ensures k as real * s <= FloorMultiple(x, s) || k as real * s >= CeilMultiple(x, s)
  {
    Bracket(x, s);
    var q := (x / s).Floor;
    var m := k as real * s;
    assert FloorMultiple(x, s) == q as real * s;
    if k < q {
      MultiplesApart(k, q, s, m, FloorMultiple(x, s));
    } else if k > q {
      MultiplesApart(q, k, s, FloorMultiple(x, s), m);
    }
  }

  lemma ChooseCoarsest(x: real, a: real, b: real, t: real, m: real, x1: real, x2: real, x3: real, x4: real)
    requires In(x, a, b) && 0.0 < t && b - a < t && In(m, a, b)
    requires x1 <= x < x1 + t && x2 == (if x1 == x then x else x1 + t)
    requires m == x1 || m == x1 + t || m - x1 >= t + t || x1 - m >= t
    ensures Choose(x, a, b, x1, x2, x3, x4) == m
  {
  }

  /** Relative to the multiple x1 = q t, the multiple m = k t is x1 itself, the next one, or at
      least a step further away. */
  lemma MultipleCases(q: int, k: int, t: real, x1: real, m: real)
    requires t > 0.0 && x1 == q as real * t && m == k as real * t
    ensures m == x1 || m == x1 + t || m - x1 >= t + t || x1 - m >= t
  {
    if k < q {
      MultiplesApart(k, q, t, m, x1);
    } else if k == q + 1 {
      MulSucc(q as real, t);
    } else if k > q + 1 {
      MulSucc(q as real, t);
      MultiplesApart(q + 1, k, t, x1 + t, m);
    }
  }

  /** When a multiple of 10 s lies in [a, b], it is the answer (there is only one, since the
      interval is narrower than 10 s): the coarsest value wins even when it is far from x. */
  lemma CandidatesCoarsest(x: real, a: real, b: real, s: real, k: int)
    requires In(x, a, b) && 0.0 < s && b - a < 10.0 * s
    requires In(k as real * (10.0 * s), a, b)
    ensures Candidates(x, a, b, s) == k as real * (10.0 * s)
  {
    var t := 10.0 * s;
    var m := k as real * t;
    var x1 := FloorMultiple(x, t);
    Bracket(x, t);
    var q := (x / t).Floor;
    assert x1 == q as real * t;
    MultipleCases(q, k, t, x1, m);
    ChooseCoarsest(x, a, b, t, m, x1, CeilMultiple(x, t), FloorMultiple(x, s), CeilMultiple(x, s));
  }

  lemma ChooseNearest(x: real, a: real, b: real, s: real, m: real, x1: real, x2: real, x3: real, x4: real)
    requires In(x, a, b) && 0.0 < s && In(m, a, b)
    requires !In(x1, a, b) && !In(x2, a, b)
    requires x3 <= x < x3 + s && x4 == (if x3 == x then x else x3 + s)
    requires m <= x3 || m >= x4
    ensures Abs(x - Choose(x, a, b, x1, x2, x3, x4)) <= Abs(x - m)
  {
  }

  /** When no multiple of 10 s next to x lies in [a, b], the answer is, among all multiples
      of s in [a, b], one nearest to x (the lower one on a tie). */
  lemma CandidatesNearest(x: real, a: real, b: real, s: real, k: int)
    requires In(x, a, b) && 0.0 < s
    requires !In(FloorMultiple(x, 10.0 * s), a, b) && !In(CeilMultiple(x, 10.0 * s), a, b)
    requires In(k as real * s, a, b)
    ensures Abs(x - Candidates(x, a, b, s)) <= Abs(x - k as real * s)
    ensures In(FloorMultiple(x, s), a, b) && In(CeilMultiple(x, s), a, b)
      && Abs(x - FloorMultiple(x, s)) == Abs(x - CeilMultiple(x, s))
      ==> Candidates(x, a, b, s) == FloorMultiple(x, s)
  {
    Bracket(x, s);
    MultipleOutside(x, s, k);
    ChooseNearest(x, a, b, s, k as real * s, FloorMultiple(x, 10.0 * s), CeilMultiple(x, 10.0 * s),
      FloorMultiple(x, s), CeilMultiple(x, s));
  }

  /** The documented surprise: for x = 1 in [0.5, 10000] the result is 10000, the only
      multiple of 10^4 in the interval, rather than 1. */
  lemma DocumentedLimitation()
    ensures SimplestFloatIn(1.0, 0.5, 10000.0) == 10000.0
  {
    assert ScaleUp(9.9995) == 1.0;
    assert ScaleUp(99.995) == 10.0;
    assert ScaleUp(999.95) == 100.0;
    assert ScaleUp(9999.5) == 1000.0;
    assert Scale(9999.5) == 1000.0;
    assert FloorMultiple(1.0, 10000.0) == 0.0;
    assert CeilMultiple(1.0, 10000.0) == 10000.0;
  }

  /** An interval of width 0.02 is searched at scale 0.01: neither 0.1 nor 0.2 lies in
      [0.12, 0.14], both 0.13 and 0.14 do, and 0.13 is the nearer to 0.1313. */
  lemma TwoDigitExample()
    ensures SimplestFloatIn(0.1313, 0.12, 0.14) == 0.13
  {
    assert ScaleDown(0.2) == 0.1;
    assert Scale(0.14 - 0.12) == 0.01;
    assert FloorMultiple(0.1313, 0.1) == 0.1;
    assert CeilMultiple(0.1313, 0.1) == 0.2;
    assert FloorMultiple(0.1313, 0.01) == 0.13;
    assert CeilMultiple(0.1313, 0.01) == 0.14;
  }

  // ---------------------------------------------------------------------------
  // convert_integer_floats
  // ---------------------------------------------------------------------------

  /** A value handed to convert_integer_floats: an int, a float, or anything else. */
  datatype PyValue = IntValue(i: int) | FloatValue(f: real) | OtherValue(description: string)

  /** convert_integer_floats: a float with an integral value becomes the int of that value;
      every other value comes back as it was. */
  function ConvertIntegerFloats(v: PyValue): (r: PyValue)
    ensures v.FloatValue? && r.IntValue? ==> r.i as real == v.f
    ensures v.FloatValue? && v.f == v.f.Floor as real ==> r.IntValue?
    ensures r.FloatValue? ==> r == v && r.f != r.f.Floor as real
    ensures !v.FloatValue? ==> r == v
  {
    if v.FloatValue? && v.f.Floor as real == v.f then IntValue(v.f.Floor) else v
  }

  /** Converting twice is converting once. */
  lemma ConvertIntegerFloatsIdempotent(v: PyValue)
    ensures ConvertIntegerFloats(ConvertIntegerFloats(v)) == ConvertIntegerFloats(v)
  {
  }
}

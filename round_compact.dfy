/** Rounding a number to a given count of significant figures, round-half-to-even, and
    writing the result in its most compact decimal form (tools/round_compact.py). */
module RoundCompact {
  import opened Outcomes
  import opened DecimalText

  // ---------------------------------------------------------------------------
  // Exact decimals and their rounding
  // ---------------------------------------------------------------------------

  /** The exact decimal expansion of a finite float, as `Decimal(x).as_tuple()` gives it:
      the sign, the coefficient's digits (big-endian) and the power of ten. */
  datatype ExactDecimal = ExactDecimal(negative: bool, digits: seq<int>, exponent: int)
  {
    /** A coefficient with at least one digit and no leading zero (zero itself is `(0,)`). */
    predicate Valid() {
      |digits| >= 1 && AllDecimalDigits(digits) && (digits[0] == 0 ==> |digits| == 1)
    }

    function Value(): real
      requires Valid()
    {
      Signed(negative, Scaled(DigitsValue(digits), exponent))
    }

    /** `x == 0`: the coefficient is the single digit 0 (ZeroIff). */
    predicate IsZero()
      requires Valid()
    {
      digits[0] == 0
    }
  }

  function Signed(negative: bool, v: real): real {
    if negative then -v else v
  }

  /** A float is zero exactly when its only digit is 0. */
  lemma ZeroIff(x: ExactDecimal)
    requires x.Valid()
    ensures x.IsZero() <==> x.Value() == 0.0
  {
    if x.digits[0] != 0 {
      DigitsValueLeading(x.digits);
      ScaledSign(DigitsValue(x.digits), x.exponent);
    } else {
      assert x.digits == [0];
      assert DigitsValue(x.digits) == 10 * DigitsValue([]) + 0;
      ScaledSign(0, x.exponent);
    }
  }

  /** The result `(sign, mantissa, exponent)`: the value is
      sign * mantissa * 10^(exponent - sig_figs + 1). */
  datatype Components = Components(sign: int, mantissa: nat, exponent: int)

  function ComponentsValue(c: Components, sigFigs: nat): real {
    if c.sign == 0 then 0.0 else Signed(c.sign < 0, Scaled(c.mantissa, c.exponent - sigFigs + 1))
  }

  /** The coefficient digits, extended with zeros to at least sig_figs + 1 of them. */
  function Padded(x: ExactDecimal, sigFigs: nat): (ds: seq<int>)
    requires x.Valid()
    ensures |ds| >= sigFigs + 1 && AllDecimalDigits(ds) && ds[0] == x.digits[0]
  {
    if |x.digits| < sigFigs + 1 then x.digits + Zeros(sigFigs + 1 - |x.digits|) else x.digits
  }

  /** The exponent of the last padded digit. */
  function PaddedExponent(x: ExactDecimal, sigFigs: nat): int
    requires x.Valid()
  {
    if |x.digits| < sigFigs + 1 then x.exponent - (sigFigs + 1 - |x.digits|) else x.exponent
  }

  /** The rounding rule: the digit after the kept ones is above 5, or is 5 with a non-zero
      digit somewhere after it, or is an exact tie after an odd last kept digit. */
  predicate RoundsUp(ds: seq<int>, n: nat)
    requires 1 <= n < |ds|
  {
    ds[n] > 5 || (ds[n] == 5 && (!AllZero(ds[n + 1..]) || ds[n - 1] % 2 == 1))
  }

  /** The first n digits, plus one when the rule rounds up. */
  function RoundedHead(ds: seq<int>, n: nat): nat
    requires 1 <= n < |ds| && AllDecimalDigits(ds)
  {
    DigitsValue(ds[..n]) + (if RoundsUp(ds, n) then 1 else 0)
  }

  /** round_standard_form_components(x, sig_figs), as a function of the exact expansion. */
  function StandardForm(x: ExactDecimal, sigFigs: nat): Components
    requires x.Valid() && sigFigs >= 1
  {
    if x.IsZero() then Components(0, 0, 0)
    else
      var ds := Padded(x, sigFigs);
      var lead := x.exponent + |x.digits| - 1;
      var m := RoundedHead(ds, sigFigs);
      var sign := if x.negative then -1 else 1;
      if NumDigits(m) > sigFigs then Components(sign, m / 10, lead + 1) else Components(sign, m, lead)
  }

  /** round_standard_form_components: pads the digit list, accumulates the first sig_figs
      digits, rounds half to even and renormalises after a carry. */
  method RoundStandardFormComponents(x: ExactDecimal, sigFigs: nat) returns (sign: int, mantissa: nat, exponent: int)
    requires x.Valid() && sigFigs >= 1
    ensures Components(sign, mantissa, exponent) == StandardForm(x, sigFigs)
  {
    if x.IsZero() {
      return 0, 0, 0;
    }
    var digits := x.digits;
    exponent := x.exponent;
    if |digits| < sigFigs + 1 {
      var pad := sigFigs + 1 - |digits|;
      digits := digits + Zeros(pad);
      exponent := exponent - pad;
    }
    assert digits == Padded(x, sigFigs);
    exponent := exponent + |digits| - 1;
    assert exponent == x.exponent + |x.digits| - 1;

    mantissa := LeadingValue(digits, sigFigs);

    // rounding rules
    if digits[sigFigs] > 5 {
      mantissa := mantissa + 1;
    }
    if digits[sigFigs] == 5 {
      var isHalfway := AllZeroFrom(digits, sigFigs + 1);
      if !isHalfway {
        mantissa := mantissa + 1;
      } else if digits[sigFigs - 1] % 2 == 1 {
        mantissa := mantissa + 1;
      }
    }
    ghost var rounded := mantissa;
    assert rounded == RoundedHead(digits, sigFigs);

    var text := NatToString(mantissa);
    if |text| > sigFigs {
      // a carry made the mantissa 10^sig_figs: keep its first sig_figs digits
      text := text[..sigFigs];
      exponent := exponent + 1;
    }
    mantissa := CharsValue(text);
    assert mantissa == (if NumDigits(rounded) > sigFigs then rounded / 10 else rounded) by {
      MantissaAtMostPow10(x, sigFigs);
      KeepSigFigs(rounded, sigFigs);
    }
    sign := if x.negative then -1 else 1;
  }

  /** The `for k in range(sig_figs)` accumulation: the number the first n digits spell. */
  method LeadingValue(digits: seq<int>, n: nat) returns (mantissa: nat)
    requires n <= |digits| && AllDecimalDigits(digits)
    ensures mantissa == DigitsValue(digits[..n])
  {
    mantissa := 0;
    var k := 0;
    while k < n
      invariant 0 <= k <= n
      invariant mantissa == DigitsValue(digits[..k])
    {
      assert digits[..k + 1][..k] == digits[..k];
      mantissa := 10 * mantissa + digits[k];
      k := k + 1;
    }
  }

  /** Keeping the first sig_figs characters of str(m), for m at most 10^sig_figs, spells
      m itself or, when m has one digit too many, m // 10. */
  lemma KeepSigFigs(m: nat, sigFigs: nat)
    requires sigFigs >= 1 && NumDigits(m) <= sigFigs + 1
    ensures var text := NatToString(m);
      |text| > sigFigs <==> NumDigits(m) > sigFigs
    ensures var text := NatToString(m);
      CharsValue(if |text| > sigFigs then text[..sigFigs] else text)
      == (if NumDigits(m) > sigFigs then m / 10 else m)
  {
    if NumDigits(m) > sigFigs {
      assert m >= 10;
      KeepAllButLastDigit(m);
      CharsValueOfNatToString(m / 10);
    } else {
      CharsValueOfNatToString(m);
    }
  }

  /** The `is_halfway` scan of round_standard_form_components: are all digits from
      index `from` on zero? */
  method AllZeroFrom(digits: seq<int>, from: nat) returns (isHalfway: bool)
    requires from <= |digits|
    ensures isHalfway == AllZero(digits[from..])
  {
    isHalfway := true;
    var rest := digits[from..];
    var j := 0;
    while j < |rest|
      invariant 0 <= j <= |rest|
      invariant isHalfway == AllZero(rest[..j])
    {
      assert rest[..j + 1] == rest[..j] + [rest[j]];
      AllZeroAppend(rest[..j], [rest[j]]);
      if rest[j] != 0 {
        isHalfway := false;
      }
      j := j + 1;
    }
    assert rest[..j] == rest;
  }

  /** The rounded head never exceeds 10^sig_figs, so str() of it has at most one digit too many. */
  lemma MantissaAtMostPow10(x: ExactDecimal, sigFigs: nat)
    requires x.Valid() && sigFigs >= 1
    ensures RoundedHead(Padded(x, sigFigs), sigFigs) <= Pow10(sigFigs)
    ensures NumDigits(RoundedHead(Padded(x, sigFigs), sigFigs)) <= sigFigs + 1
  {
    var ds := Padded(x, sigFigs);
    DigitsValueBound(ds[..sigFigs]);
    var m := RoundedHead(ds, sigFigs);
    if m < Pow10(sigFigs) {
      NumDigitsUpTo(m, sigFigs);
    } else {
      NumDigitsOfDecade(m, sigFigs + 1);
    }
  }

  lemma NumDigitsUpTo(m: nat, k: nat)
    requires k >= 1 && m < Pow10(k)
    ensures NumDigits(m) <= k
  {
    if m > 0 {
      NumDigitsBounds(m);
      if NumDigits(m) > k {
        Pow10Monotone(k, NumDigits(m) - 1);
      }
    }
  }

  /** str(m) without its last character spells m // 10. */
  lemma KeepAllButLastDigit(m: nat)
    requires m >= 10
    ensures NatToString(m)[..|NatToString(m)| - 1] == NatToString(m / 10)
  {
  }

  // ---------------------------------------------------------------------------
  // What the rounding means
  // ---------------------------------------------------------------------------

  /** q * unit is the multiple of unit nearest to v, and on an exact tie q is even. */
  predicate NearestEvenMultiple(v: nat, unit: nat, q: nat) {
    var twiceGap := if v >= q * unit then 2 * (v - q * unit) else 2 * (q * unit - v);
    twiceGap < unit || (twiceGap == unit && q % 2 == 0)
  }

  /** The digits from index n on, read as one number. */
  function Tail(ds: seq<int>, n: nat): nat
    requires n <= |ds| && AllDecimalDigits(ds)
  {
    DigitsValue(ds[n..])
  }

  /** Splitting a digit sequence at n: the head scaled by 10^(|ds|-n), plus the tail. */
  lemma HeadTail(ds: seq<int>, n: nat)
    requires n <= |ds| && AllDecimalDigits(ds)
    ensures DigitsValue(ds) == DigitsValue(ds[..n]) * Pow10(|ds| - n) + Tail(ds, n)
    ensures Tail(ds, n) < Pow10(|ds| - n)
  {
    assert ds == ds[..n] + ds[n..];
    DigitsValueAppend(ds[..n], ds[n..]);
    DigitsValueBound(ds[n..]);
  }

  /** The digit rule compares the tail with half a unit of the last kept digit:
      above half, or exactly half after an odd head. */
  lemma RoundsUpIff(ds: seq<int>, n: nat)
    requires 1 <= n < |ds| && AllDecimalDigits(ds)
    ensures var unit := Pow10(|ds| - n); var tail := Tail(ds, n);
      RoundsUp(ds, n) <==> 2 * tail > unit || (2 * tail == unit && DigitsValue(ds[..n]) % 2 == 1)
  {
    TailSplit(ds, n);
    HeadParity(ds, n);
    DigitsValueBound(ds[n + 1..]);
    DigitsValueZeroIff(ds[n + 1..]);
    HalfRule(ds[n], Pow10(|ds| - n - 1), Tail(ds, n + 1), Pow10(|ds| - n), Tail(ds, n),
      ds[n - 1] % 2 == 1, AllZero(ds[n + 1..]), RoundsUp(ds, n));
  }

  /** The tail from position n is its first digit in front of the tail from n + 1. */
  lemma TailSplit(ds: seq<int>, n: nat)
    requires n < |ds| && AllDecimalDigits(ds)
    ensures Tail(ds, n) == ds[n] * Pow10(|ds| - n - 1) + Tail(ds, n + 1)
    ensures Pow10(|ds| - n) == 10 * Pow10(|ds| - n - 1)
  {
    var d := ds[n];
    var rest := ds[n + 1..];
    assert ds[n..] == [d] + rest;
    assert DigitsValue([d]) == d by {
      assert [d][..0] == [];
    }
    DigitsValueAppend([d], rest);
  }

  /** The parity of a head is the parity of its last digit. */
  lemma HeadParity(ds: seq<int>, n: nat)
    requires 1 <= n <= |ds| && AllDecimalDigits(ds)
    ensures DigitsValue(ds[..n]) % 2 == ds[n - 1] % 2
  {
    assert ds[..n][..n - 1] == ds[..n - 1];
  }

  /** The digit rule against half a unit, on plain integers. */
  lemma HalfRule(d: int, p: int, r: int, unit: int, tail: int, headOdd: bool, restZero: bool, up: bool)
    requires 0 <= d < 10 && p >= 1 && 0 <= r < p && (restZero <==> r == 0)
    requires unit == 10 * p && tail == d * p + r
    requires up <==> d > 5 || (d == 5 && (!restZero || headOdd))
    ensures up <==> 2 * tail > unit || (2 * tail == unit && headOdd)
  {
    NextDigitAgainstHalf(d, p, r, unit, tail);
  }

  /** For a tail d·p + r with r < p: it exceeds half of 10·p exactly when d > 5 or d = 5
      and r > 0, and equals it exactly when d = 5 and r = 0. */
  lemma NextDigitAgainstHalf(d: int, p: int, r: int, unit: int, tail: int)
    requires 0 <= d < 10 && p >= 1 && 0 <= r < p
    requires unit == 10 * p && tail == d * p + r
    ensures 2 * tail > unit <==> d > 5 || (d == 5 && r > 0)
    ensures 2 * tail == unit <==> d == 5 && r == 0
  {
    if d > 5 {
      assert d * p >= 6 * p;
    } else if d < 5 {
      assert d * p <= 4 * p;
    } else {
      assert d * p == 5 * p;
    }
  }

  /** Adding the bump the half-unit rule asks for lands on the nearest even multiple. */
  lemma NearestEvenOfSplit(v: nat, head: nat, unit: nat, tail: nat, bump: bool)
    requires v == head * unit + tail && tail < unit
    requires bump <==> 2 * tail > unit || (2 * tail == unit && head % 2 == 1)
    ensures NearestEvenMultiple(v, unit, head + (if bump then 1 else 0))
  {
    if bump {
      assert (head + 1) * unit == head * unit + unit;
    }
  }

  /** The rounded head is the nearest multiple of a unit in the last kept place, ties to even. */
  lemma RoundedHeadNearestEven(ds: seq<int>, n: nat)
    requires 1 <= n < |ds| && AllDecimalDigits(ds)
    ensures NearestEvenMultiple(DigitsValue(ds), Pow10(|ds| - n), RoundedHead(ds, n))
  {
    HeadTail(ds, n);
    RoundsUpIff(ds, n);
    NearestEvenOfSplit(DigitsValue(ds), DigitsValue(ds[..n]), Pow10(|ds| - n), Tail(ds, n), RoundsUp(ds, n));
  }

  /** Padding with zeros does not change the value. */
  lemma PaddedValue(x: ExactDecimal, sigFigs: nat)
    requires x.Valid()
    ensures Scaled(DigitsValue(Padded(x, sigFigs)), PaddedExponent(x, sigFigs)) == Scaled(DigitsValue(x.digits), x.exponent)
    ensures PaddedExponent(x, sigFigs) + |Padded(x, sigFigs)| == x.exponent + |x.digits|
  {
    if |x.digits| < sigFigs + 1 {
      var pad := sigFigs + 1 - |x.digits|;
      DigitsValueAppend(x.digits, Zeros(pad));
      DigitsValueZeros(pad);
      ScaledShift(DigitsValue(x.digits), pad, Pow10(pad), x.exponent - pad);
    }
  }

  /** Zero gives (0, 0, 0); otherwise the sign is the sign of x and the mantissa has exactly
      sig_figs digits, the first of them non-zero. */
  lemma StandardFormShape(x: ExactDecimal, sigFigs: nat)
    requires x.Valid() && sigFigs >= 1
    ensures var c := StandardForm(x, sigFigs);
      if x.IsZero() then c == Components(0, 0, 0)
      else
        c.sign == (if x.negative then -1 else 1)
        && Pow10(sigFigs - 1) <= c.mantissa < Pow10(sigFigs)
        && NumDigits(c.mantissa) == sigFigs
  {
    if !x.IsZero() {
      var ds := Padded(x, sigFigs);
      var m := RoundedHead(ds, sigFigs);
      assert Pow10(sigFigs - 1) <= m by {
        assert ds[..sigFigs][0] == ds[0];
        DigitsValueLeading(ds[..sigFigs]);
      }
      MantissaAtMostPow10(x, sigFigs);
      if m < Pow10(sigFigs) {
        NumDigitsOfDecade(m, sigFigs);
      } else {
        NumDigitsOfDecade(m, sigFigs + 1);
        assert m / 10 == Pow10(sigFigs - 1);
        Pow10Monotone(sigFigs - 1, sigFigs);
        NumDigitsOfDecade(m / 10, sigFigs);
      }
    }
  }

  /** A carry past the last kept digit (999 -> 1000) keeps 10^(sig_figs-1) and raises the
      exponent by one. */
  lemma StandardFormCarry(x: ExactDecimal, sigFigs: nat)
    requires x.Valid() && sigFigs >= 1 && !x.IsZero()
    requires RoundedHead(Padded(x, sigFigs), sigFigs) == Pow10(sigFigs)
    ensures StandardForm(x, sigFigs)
      == Components(if x.negative then -1 else 1, Pow10(sigFigs - 1), x.exponent + |x.digits|)
  {
    NumDigitsOfDecade(Pow10(sigFigs), sigFigs + 1);
  }

  /** The value of the components is the nearest-even rounding of |x| to a unit in the
      sig_figs-th significant place, with the sign of x. */
  lemma {:induction false} StandardFormValue(x: ExactDecimal, sigFigs: nat)
    requires x.Valid() && sigFigs >= 1 && !x.IsZero()
    ensures var ds := Padded(x, sigFigs);
      var unit := Pow10(|ds| - sigFigs);
      var q := RoundedHead(ds, sigFigs);
      && x.Value() == Signed(x.negative, Scaled(DigitsValue(ds), PaddedExponent(x, sigFigs)))
      && NearestEvenMultiple(DigitsValue(ds), unit, q)
      && ComponentsValue(StandardForm(x, sigFigs), sigFigs)
         == Signed(x.negative, Scaled(q * unit, PaddedExponent(x, sigFigs)))
  {
    var ds := Padded(x, sigFigs);
    var c := StandardForm(x, sigFigs);
    PaddedValue(x, sigFigs);
    RoundedHeadNearestEven(ds, sigFigs);
    ComponentsScale(x, sigFigs);
    SignedComponents(c, sigFigs, x.negative,
      Scaled(RoundedHead(ds, sigFigs) * Pow10(|ds| - sigFigs), PaddedExponent(x, sigFigs)));
  }

  /** The components' mantissa and exponent scale to the rounded head times its unit. */
  lemma ComponentsScale(x: ExactDecimal, sigFigs: nat)
    requires x.Valid() && sigFigs >= 1 && !x.IsZero()
    ensures var ds := Padded(x, sigFigs);
      var c := StandardForm(x, sigFigs);
      var q := RoundedHead(ds, sigFigs);
      && c.sign == (if x.negative then -1 else 1)
      && Scaled(c.mantissa, c.exponent - sigFigs + 1)
         == Scaled(q * Pow10(|ds| - sigFigs), PaddedExponent(x, sigFigs))
  {
    var ds := Padded(x, sigFigs);
    var pe := PaddedExponent(x, sigFigs);
    var q := RoundedHead(ds, sigFigs);
    PaddedValue(x, sigFigs);
    assert Scaled(q * Pow10(|ds| - sigFigs), pe) == Scaled(q, pe + |ds| - sigFigs) by {
      ScaledShift(q, |ds| - sigFigs, Pow10(|ds| - sigFigs), pe);
    }
    if NumDigits(q) > sigFigs {
      assert q == Pow10(sigFigs) by {
        MantissaAtMostPow10(x, sigFigs);
        if q < Pow10(sigFigs) {
          NumDigitsUpTo(q, sigFigs);
        }
      }
      CarryScale(q, sigFigs, pe + |ds| - sigFigs);
    }
  }

  /** 10^n read with one digit fewer and one place higher keeps its value. */
  lemma CarryScale(q: nat, sigFigs: nat, shift: int)
    requires sigFigs >= 1 && q == Pow10(sigFigs)
    ensures Scaled(q / 10, shift + 1) == Scaled(q, shift)
  {
    var h := Pow10(sigFigs - 1);
    assert q == 10 * h;
    assert q / 10 == h;
    ScaledShift(h, 1, 10, shift);
  }

  /** Components with sign ±1 stand for their scaled mantissa with that sign. */
  lemma SignedComponents(c: Components, sigFigs: nat, negative: bool, v: real)
    requires c.sign == (if negative then -1 else 1)
    requires Scaled(c.mantissa, c.exponent - sigFigs + 1) == v
    ensures ComponentsValue(c, sigFigs) == Signed(negative, v)
  {
  }

  /** A value with no more than sig_figs exact digits comes back unchanged. */
  lemma StandardFormExact(x: ExactDecimal, sigFigs: nat)
    requires x.Valid() && sigFigs >= 1 && |x.digits| <= sigFigs
    ensures ComponentsValue(StandardForm(x, sigFigs), sigFigs) == x.Value()
  {
    if x.IsZero() {
      ZeroIff(x);
    } else {
      var ds := Padded(x, sigFigs);
      var unit := Pow10(|ds| - sigFigs);
      StandardFormValue(x, sigFigs);
      HeadTail(ds, sigFigs);
      assert Tail(ds, sigFigs) == 0 by {
        assert ds[sigFigs..] == Zeros(sigFigs + 1 - |x.digits|)[sigFigs - |x.digits|..];
        DigitsValueZeroIff(ds[sigFigs..]);
      }
      ExactMultipleIsNearest(DigitsValue(ds), DigitsValue(ds[..sigFigs]), unit, RoundedHead(ds, sigFigs));
    }
  }

  /** When v is itself a multiple of unit, the nearest multiple is v. */
  lemma ExactMultipleIsNearest(v: nat, head: nat, unit: nat, q: nat)
    requires unit >= 1 && v == head * unit && NearestEvenMultiple(v, unit, q)
    ensures q * unit == v
  {
    if q > head {
      assert (head + 1) * unit == v + unit;
      MulMonotone(head + 1, q, unit);
    } else if q < head {
      assert (q + 1) * unit == q * unit + unit;
      MulMonotone(q + 1, head, unit);
    }
  }

  lemma MulMonotone(a: nat, b: nat, c: nat)
    requires a <= b
    ensures a * c <= b * c
  {
  }

  // ---------------------------------------------------------------------------
  // Writing the components out
  // ---------------------------------------------------------------------------

  /** _compose_number: an optional '-', the mantissa digits with a point after the first
      decimal_place of them (none when there are no digits after it), and 'e' with the
      exponent unless it is 0. */
  function ComposeNumber(sign: int, mantissaDigits: string, decimalPlace: nat, exponent: int): string
  {
    var signPart := if sign == -1 then "-" else "";
    var decimalPart :=
      if |mantissaDigits| > decimalPlace then
        mantissaDigits[..decimalPlace] + "." + mantissaDigits[decimalPlace..]
      else mantissaDigits;
    var exponentPart := if exponent != 0 then "e" + IntToString(exponent) else "";
    signPart + decimalPart + exponentPart
  }

  /** The digits written after the point. */
  function FractionLength(mantissaDigits: string, decimalPlace: nat): nat {
    if |mantissaDigits| > decimalPlace then |mantissaDigits| - decimalPlace else 0
  }

  /** The digits before the point: Python's mantissa_digits[:decimal_place]. */
  function IntegerDigits(m: string, dp: nat): string {
    if |m| > dp then m[..dp] else m
  }

  /** The digits after the point, when there are any. */
  function FractionDigits(m: string, dp: nat): Option<string> {
    if |m| > dp then Some(m[dp..]) else None
  }

  /** The exponent part, written only when it is not 0. */
  function ExponentPart(e: int): Option<int> {
    if e != 0 then Some(e) else None
  }

  /** A composed number is a decimal literal: integer digits, optional fraction, optional
      exponent. */
  lemma ComposeIsLiteral(sign: int, m: string, dp: nat, e: int)
    ensures ComposeNumber(sign, m, dp, e)
      == Literal(sign == -1, IntegerDigits(m, dp), FractionDigits(m, dp), ExponentPart(e))
  {
  }

  /** Splitting at the point and joining again gives the mantissa digits back. */
  lemma SplitDigits(m: string, dp: nat)
    requires |m| >= 1 && dp >= 1 && AllDigitChars(m)
    ensures |IntegerDigits(m, dp)| > 0 && AllDigitChars(IntegerDigits(m, dp))
    ensures FractionDigits(m, dp).Some? ==> AllDigitChars(FractionDigits(m, dp).value)
    ensures IntegerDigits(m, dp) + FracDigits(FractionDigits(m, dp)) == m
    ensures |FracDigits(FractionDigits(m, dp))| == FractionLength(m, dp)
  {
    if |m| > dp {
      assert m[..dp] + m[dp..] == m;
    }
  }

  /** Reading a composed number back gives the sign, the integer its digits spell and the
      exponent lowered by the number of digits after the point. */
  lemma ComposeValue(sign: int, m: string, dp: nat, e: int)
    requires |m| >= 1 && dp >= 1 && AllDigitChars(m)
    ensures ParseLiteral(ComposeNumber(sign, m, dp, e))
      == Some(Numeral(sign == -1, DigitsValue(StrDigits(m)), e - FractionLength(m, dp)))
  {
    var intPart, fracPart, exponent := IntegerDigits(m, dp), FractionDigits(m, dp), ExponentPart(e);
    ComposeIsLiteral(sign, m, dp, e);
    SplitDigits(m, dp);
    ParseLiteralOfParts(sign == -1, intPart, fracPart, exponent);
    RewriteNumeral(Literal(sign == -1, intPart, fracPart, exponent), sign == -1,
      intPart + FracDigits(fracPart), m,
      (if exponent.Some? then exponent.value else 0) - |FracDigits(fracPart)|, e - FractionLength(m, dp));
    SameText(ComposeNumber(sign, m, dp, e), Literal(sign == -1, intPart, fracPart, exponent),
      Some(Numeral(sign == -1, DigitsValue(StrDigits(m)), e - FractionLength(m, dp))));
  }

  lemma SameText(s: string, t: string, v: Option<Numeral>)
    requires s == t && ParseLiteral(t) == v
    ensures ParseLiteral(s) == v
  {
  }

  lemma RewriteNumeral(lit: string, neg: bool, a: string, b: string, e1: int, e2: int)
    requires AllDigitChars(a) && a == b && e1 == e2
    requires ParseLiteral(lit) == Some(Numeral(neg, DigitsValue(StrDigits(a)), e1))
    ensures ParseLiteral(lit) == Some(Numeral(neg, DigitsValue(StrDigits(b)), e2))
  {
  }

  /** The characters str() writes for an integer: digits and a minus sign. */
  lemma IntToStringChars(e: int)
    ensures forall i :: 0 <= i < |IntToString(e)| ==>
      IsDigitChar(IntToString(e)[i]) || IntToString(e)[i] == '-'
  {
  }

  /** The composed text has an 'e' exactly when the exponent is not 0, and starts with '-'
      exactly when the sign is -1. */
  lemma ComposeMarkers(sign: int, m: string, dp: nat, e: int)
    requires AllDigitChars(m)
    ensures var s := ComposeNumber(sign, m, dp, e);
      ('e' in s <==> e != 0) && ((|s| > 0 && s[0] == '-') <==> sign == -1)
  {
    var s := ComposeNumber(sign, m, dp, e);
    var signPart := if sign == -1 then "-" else "";
    var decimalPart := if |m| > dp then m[..dp] + "." + m[dp..] else m;
    var exponentPart := if e != 0 then "e" + IntToString(e) else "";
    assert s == signPart + decimalPart + exponentPart;
    assert 'e' !in decimalPart by {
      assert forall i :: 0 <= i < |decimalPart| ==> IsDigitChar(decimalPart[i]) || decimalPart[i] == '.';
    }
    if e != 0 {
      assert s[|signPart| + |decimalPart|] == 'e';
    } else {
      assert s == signPart + decimalPart;
    }
    if sign != -1 && |s| > 0 {
      if |decimalPart| > 0 {
        assert s[0] == decimalPart[0];
      } else {
        assert s[0] == 'e';
      }
    }
  }

  // ---------------------------------------------------------------------------
  // The exponent-free layout of round_compact
  // ---------------------------------------------------------------------------

  /** Mantissa digits, where the point goes, and the exponent still to be written. */
  datatype Layout = Layout(mantissa: string, decimalPlace: nat, exponent: int)

  /** The second attempt of round_compact, starting from the standard form (point after
      the first digit): three rewrites applied in turn, each removing the exponent for a
      range of exponents. exponent_length is the length of str(e) of the original e. */
  function PlainLayout(m: string, e: int, sigFigs: nat): Layout
  {
    var exponentLength := |IntToString(e)|;
    PadLeft(PadRight(MovePoint(Layout(m, 1, e), sigFigs), sigFigs, exponentLength), exponentLength)
  }

  /** 0 < e < sig_figs: move the point e places right. */
  function MovePoint(l: Layout, sigFigs: nat): Layout {
    if l.exponent > 0 && l.exponent < sigFigs then Layout(l.mantissa, l.decimalPlace + l.exponent, 0) else l
  }

  /** sig_figs <= e <= sig_figs + exponent_length + 6: pad zeros on the right. */
  function PadRight(l: Layout, sigFigs: nat, exponentLength: nat): Layout {
    if l.exponent >= sigFigs && l.exponent <= sigFigs + exponentLength + 6 then
      Layout(l.mantissa + ZeroChars(l.exponent - sigFigs + 1), l.decimalPlace + l.exponent, 0)
    else l
  }

  /** -6 - exponent_length <= e < 0: write leading zeros. */
  function PadLeft(l: Layout, exponentLength: nat): Layout {
    if l.exponent >= -6 - exponentLength && l.exponent < 0 then
      Layout(ZeroChars(-l.exponent) + l.mantissa, l.decimalPlace, 0)
    else l
  }

  /** The exponent disappears exactly for 0 < e < sig_figs, for sig_figs <= e <=
      sig_figs + len(str(e)) + 6 and for -6 - len(str(e)) <= e < 0; any other exponent
      leaves the standard form untouched. */
  lemma PlainLayoutExponent(m: string, e: int, sigFigs: nat)
    requires sigFigs >= 1
    ensures var l := PlainLayout(m, e, sigFigs); var len := |IntToString(e)|;
      && (l.exponent == 0 <==>
            e == 0 || 0 < e < sigFigs || sigFigs <= e <= sigFigs + len + 6 || -6 - len <= e < 0)
      && (l.exponent != 0 ==> l == Layout(m, 1, e))
  {
  }

  /** A layout keeps the number of the standard form (digits m, point after the first):
      the digits it writes, read with its point and exponent, scale to m's value times
      10^(e - sig_figs + 1). */
  predicate KeepsValue(m: string, e: int, sigFigs: nat, l: Layout)
    requires AllDigitChars(m)
  {
    && |l.mantissa| >= 1 && l.decimalPlace >= 1 && AllDigitChars(l.mantissa)
    && Scaled(DigitsValue(StrDigits(l.mantissa)), l.exponent - FractionLength(l.mantissa, l.decimalPlace))
       == Scaled(DigitsValue(StrDigits(m)), e - sigFigs + 1)
  }

  lemma PlainLayoutValue(m: string, e: int, sigFigs: nat)
    requires sigFigs >= 1 && |m| == sigFigs && AllDigitChars(m)
    ensures KeepsValue(m, e, sigFigs, PlainLayout(m, e, sigFigs))
  {
    var len := |IntToString(e)|;
    PlainLayoutCases(m, e, sigFigs);
    if 0 < e < sigFigs {
      MovedPointKeeps(m, e, sigFigs);
    } else if sigFigs <= e <= sigFigs + len + 6 {
      PaddedRightKeeps(m, e, sigFigs);
    } else if -6 - len <= e < 0 {
      PaddedLeftKeeps(m, e, sigFigs);
    } else {
      UnmovedKeeps(m, e, sigFigs);
    }
  }

  /** The layout chosen for each range of exponents. */
  lemma PlainLayoutCases(m: string, e: int, sigFigs: nat)
    requires sigFigs >= 1
    ensures var len := |IntToString(e)|;
      PlainLayout(m, e, sigFigs)
      == if 0 < e < sigFigs then Layout(m, 1 + e, 0)
         else if sigFigs <= e <= sigFigs + len + 6 then Layout(m + ZeroChars(e - sigFigs + 1), 1 + e, 0)
         else if -6 - len <= e < 0 then Layout(ZeroChars(-e) + m, 1, 0)
         else Layout(m, 1, e)
  {
  }

  lemma MovedPointKeeps(m: string, e: int, sigFigs: nat)
    requires sigFigs >= 1 && |m| == sigFigs && AllDigitChars(m) && 0 < e < sigFigs
    ensures KeepsValue(m, e, sigFigs, Layout(m, 1 + e, 0))
  {
  }

  lemma UnmovedKeeps(m: string, e: int, sigFigs: nat)
    requires sigFigs >= 1 && |m| == sigFigs && AllDigitChars(m)
    ensures KeepsValue(m, e, sigFigs, Layout(m, 1, e))
  {
  }

  /** The layout writes at least one digit, only digits, and puts the point after one. */
  lemma PlainLayoutShape(m: string, e: int, sigFigs: nat)
    requires sigFigs >= 1 && |m| == sigFigs && AllDigitChars(m)
    ensures var l := PlainLayout(m, e, sigFigs);
      |l.mantissa| >= 1 && l.decimalPlace >= 1 && AllDigitChars(l.mantissa)
  {
    PlainLayoutValue(m, e, sigFigs);
  }

  lemma PaddedRightKeeps(m: string, e: int, sigFigs: nat)
    requires sigFigs >= 1 && |m| == sigFigs && AllDigitChars(m) && e >= sigFigs
    ensures KeepsValue(m, e, sigFigs, Layout(m + ZeroChars(e - sigFigs + 1), 1 + e, 0))
  {
    PaddedRightValue(m, e - sigFigs + 1);
  }

  lemma PaddedLeftKeeps(m: string, e: int, sigFigs: nat)
    requires sigFigs >= 1 && |m| == sigFigs && AllDigitChars(m) && e < 0
    ensures KeepsValue(m, e, sigFigs, Layout(ZeroChars(-e) + m, 1, 0))
  {
    PaddedLeftValue(m, -e);
  }

  /** Zeros appended on the right multiply by a power of ten: moved into the scale, the
      value stays. */
  lemma PaddedRightValue(m: string, z: nat)
    requires AllDigitChars(m)
    ensures AllDigitChars(m + ZeroChars(z))
    ensures Scaled(DigitsValue(StrDigits(m + ZeroChars(z))), 0) == Scaled(DigitsValue(StrDigits(m)), z)
  {
    StrDigitsAppend(m, ZeroChars(z));
    StrDigitsZeroChars(z);
    DigitsValueAppend(StrDigits(m), Zeros(z));
    DigitsValueZeros(z);
    ScaledShift(DigitsValue(StrDigits(m)), z, Pow10(z), 0);
  }

  /** Zeros put in front change nothing. */
  lemma PaddedLeftValue(m: string, z: nat)
    requires AllDigitChars(m)
    ensures AllDigitChars(ZeroChars(z) + m)
    ensures DigitsValue(StrDigits(ZeroChars(z) + m)) == DigitsValue(StrDigits(m))
  {
    StrDigitsAppend(ZeroChars(z), m);
    StrDigitsZeroChars(z);
    DigitsValueAppend(Zeros(z), StrDigits(m));
    DigitsValueZeros(z);
  }

  // ---------------------------------------------------------------------------
  // FormattedFloat and round_compact
  // ---------------------------------------------------------------------------

  /** A float together with the exact text chosen for it; as_float is float(as_str). */
  datatype FormattedFloat = FormattedFloat(asStr: string, asFloat: real)
  {
    /** __len__: the length of the stored text. */
    function Length(): nat {
      |asStr|
    }

    /** __repr__, which the JSON encoder writes as a string. */
    function Repr(): string {
      "FormattedFloat(" + asStr + ")"
    }
  }

  /** FormattedFloat(as_str): float() must accept the text. */
  function NewFormattedFloat(s: string): Result<FormattedFloat>
  {
    match ParseLiteral(s)
    case None => Err(ValueError)
    case Some(n) => Ok(FormattedFloat(s, n.Value()))
  }

  /** FormattedFloat.ZERO */
  const ZeroFloat: FormattedFloat := FormattedFloat("0", 0.0)

  /** ZERO is what the constructor makes of "0". */
  lemma ZeroFloatIsParsed()
    ensures NewFormattedFloat("0") == Ok(ZeroFloat)
  {
    ParseLiteralOfParts(false, "0", None, None);
    assert Literal(false, "0", None, None) == "0";
    assert StrDigits("0" + FracDigits(None)) == [0];
    assert DigitsValue([0]) == 10 * DigitsValue([]) + 0;
    ScaledSign(0, 0);
  }

  /** round_compact's text for x == 0: "0", or "0." and sig_figs - 1 zeros. */
  function ZeroLiteral(sigFigs: nat): string
    requires sigFigs >= 1
  {
    if sigFigs == 1 then "0" else "0." + ZeroChars(sigFigs - 1)
  }

  /** The zero text reads as 0, has sig_figs digits and never an exponent. */
  lemma ZeroLiteralValue(sigFigs: nat)
    requires sigFigs >= 1
    ensures ParseLiteral(ZeroLiteral(sigFigs)).Some?
    ensures ParseLiteral(ZeroLiteral(sigFigs)).value.Value() == 0.0
    ensures 'e' !in ZeroLiteral(sigFigs)
    ensures |ZeroLiteral(sigFigs)| == (if sigFigs == 1 then 1 else sigFigs + 1)
  {
    var frac: Option<string> := if sigFigs == 1 then None else Some(ZeroChars(sigFigs - 1));
    assert Literal(false, "0", frac, None) == ZeroLiteral(sigFigs);
    ParseLiteralOfParts(false, "0", frac, None);
    PaddedLeftValue(FracDigits(frac), 1);
    assert ZeroChars(1) + FracDigits(frac) == "0" + FracDigits(frac);
    StrDigitsZeroChars(|FracDigits(frac)|);
    assert FracDigits(frac) == ZeroChars(|FracDigits(frac)|);
    DigitsValueZeros(|FracDigits(frac)|);
    ScaledSign(0, -|FracDigits(frac)|);
  }

  /** The first attempt: the standard form, point after the first digit. */
  function StandardText(c: Components): string {
    ComposeNumber(c.sign, NatToString(c.mantissa), 1, c.exponent)
  }

  /** The second attempt: the same digits in the exponent-free layout where one applies. */
  function PlainText(c: Components, sigFigs: nat): string {
    var l := PlainLayout(NatToString(c.mantissa), c.exponent, sigFigs);
    ComposeNumber(c.sign, l.mantissa, l.decimalPlace, l.exponent)
  }

  /** The text round_compact picks for x at sig_figs (already clamped to 1..17). */
  function CompactLiteral(x: ExactDecimal, sigFigs: nat): string
    requires x.Valid() && sigFigs >= 1
  {
    if x.IsZero() then ZeroLiteral(sigFigs)
    else
      var c := StandardForm(x, sigFigs);
      var first, second := StandardText(c), PlainText(c, sigFigs);
      if |first| < |second| then first else second
  }

  /** min(sig_figs, 17) */
  function ClampSigFigs(sigFigs: nat): nat {
    if sigFigs < 17 then sigFigs else 17
  }

  /** round_compact(x, sig_figs) */
  function RoundCompactSpec(x: ExactDecimal, sigFigs: int): Result<FormattedFloat>
    requires x.Valid()
  {
    if sigFigs < 0 then Err(ValueError)
    else if sigFigs == 0 then Ok(ZeroFloat)
    else NewFormattedFloat(CompactLiteral(x, ClampSigFigs(sigFigs)))
  }

  /** A sign of ±1 read back as a literal's sign gives the components' value. */
  lemma NumeralOfComponents(c: Components, sigFigs: nat)
    requires c.sign == 1 || c.sign == -1
    ensures Numeral(c.sign == -1, c.mantissa, c.exponent - sigFigs + 1).Value() == ComponentsValue(c, sigFigs)
  {
  }

  /** The runtime check float(x_rounded_1) == float(x_rounded_2): both attempts read back as
      the value of the components. */
  lemma FormsValue(c: Components, sigFigs: nat)
    requires sigFigs >= 1 && (c.sign == 1 || c.sign == -1) && NumDigits(c.mantissa) == sigFigs
    ensures ParseLiteral(StandardText(c)).Some? && ParseLiteral(PlainText(c, sigFigs)).Some?
    ensures ParseLiteral(StandardText(c)).value.Value() == ParseLiteral(PlainText(c, sigFigs)).value.Value()
  {
    StandardTextValue(c, sigFigs);
    PlainTextValue(c, sigFigs);
  }

  /** The standard form reads back as its exact components. */
  lemma StandardTextValue(c: Components, sigFigs: nat)
    requires sigFigs >= 1 && (c.sign == 1 || c.sign == -1) && NumDigits(c.mantissa) == sigFigs
    ensures ParseLiteral(StandardText(c)) == Some(Numeral(c.sign == -1, c.mantissa, c.exponent - sigFigs + 1))
    ensures ParseLiteral(StandardText(c)).value.Value() == ComponentsValue(c, sigFigs)
  {
    var m := NatToString(c.mantissa);
    NatToStringValue(c.mantissa);
    assert FractionLength(m, 1) == sigFigs - 1;
    ComposeValue(c.sign, m, 1, c.exponent);
    NumeralOfComponents(c, sigFigs);
  }

  /** The exponent-free attempt reads back as the components' value. */
  lemma PlainTextValue(c: Components, sigFigs: nat)
    requires sigFigs >= 1 && (c.sign == 1 || c.sign == -1) && NumDigits(c.mantissa) == sigFigs
    ensures ParseLiteral(PlainText(c, sigFigs)).Some?
    ensures ParseLiteral(PlainText(c, sigFigs)).value.Value() == ComponentsValue(c, sigFigs)
  {
    var m := NatToString(c.mantissa);
    var l := PlainLayout(m, c.exponent, sigFigs);
    PlainLayoutValue(m, c.exponent, sigFigs);
    NatToStringValue(c.mantissa);
    LayoutTextValue(c, sigFigs, m, l, PlainText(c, sigFigs));
  }

  /** The text of a layout that keeps the value of the components reads as that value. */
  lemma LayoutTextValue(c: Components, sigFigs: nat, m: string, l: Layout, t: string)
    requires (c.sign == 1 || c.sign == -1) && AllDigitChars(m) && DigitsValue(StrDigits(m)) == c.mantissa
    requires KeepsValue(m, c.exponent, sigFigs, l)
    requires t == ComposeNumber(c.sign, l.mantissa, l.decimalPlace, l.exponent)
    ensures ParseLiteral(t).Some? && ParseLiteral(t).value.Value() == ComponentsValue(c, sigFigs)
  {
    var n := Numeral(c.sign == -1, DigitsValue(StrDigits(l.mantissa)), l.exponent - FractionLength(l.mantissa, l.decimalPlace));
    LayoutReads(c.sign, l, t, n);
    KeptNumeral(c.sign == -1, m, c.exponent, sigFigs, l, c.mantissa);
    NumeralOfComponents(c, sigFigs);
    ReadsAs(t, n, ComponentsValue(c, sigFigs));
  }

  /** A layout's text reads as its digits, scaled by its exponent less its fraction length. */
  lemma LayoutReads(sign: int, l: Layout, t: string, n: Numeral)
    requires |l.mantissa| >= 1 && l.decimalPlace >= 1 && AllDigitChars(l.mantissa)
    requires t == ComposeNumber(sign, l.mantissa, l.decimalPlace, l.exponent)
    requires n == Numeral(sign == -1, DigitsValue(StrDigits(l.mantissa)), l.exponent - FractionLength(l.mantissa, l.decimalPlace))
    ensures ParseLiteral(t) == Some(n)
  {
    ComposeValue(sign, l.mantissa, l.decimalPlace, l.exponent);
  }

  /** A layout that keeps the value spells a numeral of that value. */
  lemma KeptNumeral(neg: bool, m: string, e: int, sigFigs: nat, l: Layout, mantissa: nat)
    requires AllDigitChars(m) && KeepsValue(m, e, sigFigs, l) && DigitsValue(StrDigits(m)) == mantissa
    ensures Numeral(neg, DigitsValue(StrDigits(l.mantissa)), l.exponent - FractionLength(l.mantissa, l.decimalPlace)).Value()
      == Numeral(neg, mantissa, e - sigFigs + 1).Value()
  {
    SameScale(neg, DigitsValue(StrDigits(l.mantissa)), l.exponent - FractionLength(l.mantissa, l.decimalPlace),
      mantissa, e - sigFigs + 1);
  }

  lemma ReadsAs(t: string, n: Numeral, v: real)
    requires ParseLiteral(t) == Some(n) && n.Value() == v
    ensures ParseLiteral(t).Some? && ParseLiteral(t).value.Value() == v
  {
  }

  /** Literals whose digits scale to the same number have the same value. */
  lemma SameScale(neg: bool, d1: nat, s1: int, d2: nat, s2: int)
    requires Scaled(d1, s1) == Scaled(d2, s2)
    ensures Numeral(neg, d1, s1).Value() == Numeral(neg, d2, s2).Value()
  {
  }

  /** The pick: never longer than either attempt, and the standard form only when it is
      strictly shorter (ties go to the exponent-free attempt). */
  lemma CompactChoice(x: ExactDecimal, sigFigs: nat)
    requires x.Valid() && sigFigs >= 1 && !x.IsZero()
    ensures var c := StandardForm(x, sigFigs); var r := CompactLiteral(x, sigFigs);
      var first, second := StandardText(c), PlainText(c, sigFigs);
      && |r| <= |first| && |r| <= |second|
      && (r == second || (r == first && |first| < |second|))
  {
  }

  /** round_compact: sig_figs checked and clamped to 17, zero written with sig_figs digits,
      otherwise the more compact of the two attempts. */
  method RoundCompact(x: ExactDecimal, sigFigs: int) returns (r: Result<FormattedFloat>)
    requires x.Valid()
    ensures r == RoundCompactSpec(x, sigFigs)
  {
    if sigFigs < 0 {
      return Err(ValueError);
    }
    if sigFigs == 0 {
      return Ok(ZeroFloat);
    }
    var n := if sigFigs < 17 then sigFigs else 17;
    if x.IsZero() {
      var s := if n == 1 then "0" else "0." + ZeroChars(n - 1);
      r := NewFormattedFloat(s);
      return;
    }
    var rounded := CompactText(x, n);
    r := NewFormattedFloat(rounded);
  }

  /** The body of round_compact for x != 0: the standard form first, then the exponent
      removed by moving the point, padding zeros on the right or writing leading zeros,
      and the shorter text kept (ties to the second). */
  method CompactText(x: ExactDecimal, n: nat) returns (rounded: string)
    requires x.Valid() && n >= 1 && !x.IsZero()
    ensures rounded == CompactLiteral(x, n)
  {
    var sign, m, exponent := RoundStandardFormComponents(x, n);
    var mantissa := NatToString(m);

    // first attempt: standard form
    var first := ComposeNumber(sign, mantissa, 1, exponent);

    // second attempt, and the more compact of the two
    var digits, decimalPlace, e := DropExponent(mantissa, exponent, n);
    var second := ComposeNumber(sign, digits, decimalPlace, e);
    rounded := if |first| < |second| then first else second;
  }

  /** The attempts at writing the number without the exponent, starting from the standard
      form's digits with the point after the first one. */
  method DropExponent(m: string, e: int, n: nat) returns (mantissa: string, decimalPlace: nat, exponent: int)
    ensures Layout(mantissa, decimalPlace, exponent) == PlainLayout(m, e, n)
  {
    mantissa, decimalPlace, exponent := m, 1, e;
    var exponentLength := |IntToString(exponent)|;
    if exponent > 0 && exponent < n {
      // move the point
      decimalPlace := decimalPlace + exponent;
      exponent := 0;
    }
    assert Layout(mantissa, decimalPlace, exponent) == MovePoint(Layout(m, 1, e), n);
    if exponent >= n && exponent <= n + exponentLength + 6 {
      // pad with zeros on the right
      decimalPlace := decimalPlace + exponent;
      mantissa := mantissa + ZeroChars(exponent - n + 1);
      exponent := 0;
    }
    assert Layout(mantissa, decimalPlace, exponent) == PadRight(MovePoint(Layout(m, 1, e), n), n, exponentLength);
    if exponent >= -6 - exponentLength && exponent < 0 {
      // leading zeros
      mantissa := ZeroChars(-exponent) + mantissa;
      exponent := 0;
    }
  }

  /** Whichever of two texts of the same value is picked reads as that value. */
  lemma PickValue(t: string, first: string, second: string, v: real)
    requires t == first || t == second
    requires ParseLiteral(first).Some? && ParseLiteral(first).value.Value() == v
    requires ParseLiteral(second).Some? && ParseLiteral(second).value.Value() == v
    ensures ParseLiteral(t).Some? && ParseLiteral(t).value.Value() == v
  {
  }

  /** The picked text always parses, as the rounded value (0 for x == 0). */
  lemma CompactLiteralValue(x: ExactDecimal, n: nat)
    requires x.Valid() && n >= 1
    ensures ParseLiteral(CompactLiteral(x, n)).Some?
    ensures ParseLiteral(CompactLiteral(x, n)).value.Value() == ComponentsValue(StandardForm(x, n), n)
  {
    if x.IsZero() {
      ZeroLiteralValue(n);
    } else {
      var c := StandardForm(x, n);
      StandardFormShape(x, n);
      StandardTextValue(c, n);
      PlainTextValue(c, n);
      PickValue(CompactLiteral(x, n), StandardText(c), PlainText(c, n), ComponentsValue(c, n));
    }
  }

  /** round_compact fails exactly for a negative sig_figs, gives ZERO for 0, and otherwise
      the picked text with the value of the components at min(sig_figs, 17). */
  lemma RoundCompactResult(x: ExactDecimal, sigFigs: int)
    requires x.Valid()
    ensures RoundCompactSpec(x, sigFigs).Ok? <==> sigFigs >= 0
    ensures sigFigs == 0 ==> RoundCompactSpec(x, sigFigs) == Ok(ZeroFloat)
    ensures sigFigs >= 1 ==>
      var n := ClampSigFigs(sigFigs);
      RoundCompactSpec(x, sigFigs) == Ok(FormattedFloat(CompactLiteral(x, n), ComponentsValue(StandardForm(x, n), n)))
  {
    if sigFigs >= 1 {
      CompactLiteralValue(x, ClampSigFigs(sigFigs));
    }
  }

  /** The check float(f'{x:.{sig_figs-1}e}') == float(x_rounded): the value is the
      round-half-to-even of x to a unit in its sig_figs-th significant place. */
  lemma RoundCompactNearest(x: ExactDecimal, sigFigs: int)
    requires x.Valid() && sigFigs >= 1 && !x.IsZero()
    ensures var n := ClampSigFigs(sigFigs);
      var ds := Padded(x, n);
      var unit := Pow10(|ds| - n);
      var q := RoundedHead(ds, n);
      var pe := PaddedExponent(x, n);
      && x.Value() == Signed(x.negative, Scaled(DigitsValue(ds), pe))
      && NearestEvenMultiple(DigitsValue(ds), unit, q)
      && RoundCompactSpec(x, sigFigs).Ok?
      && RoundCompactSpec(x, sigFigs).value.asFloat == Signed(x.negative, Scaled(q * unit, pe))
  {
    RoundCompactResult(x, sigFigs);
    StandardFormValue(x, ClampSigFigs(sigFigs));
  }

  /** A number whose exact expansion has no more digits than are kept comes back unchanged. */
  lemma RoundCompactExact(x: ExactDecimal, sigFigs: int)
    requires x.Valid() && sigFigs >= 1 && |x.digits| <= ClampSigFigs(sigFigs)
    ensures RoundCompactSpec(x, sigFigs).Ok? && RoundCompactSpec(x, sigFigs).value.asFloat == x.Value()
  {
    RoundCompactResult(x, sigFigs);
    StandardFormExact(x, ClampSigFigs(sigFigs));
  }

  /** Ties go to the even digit: 2.5 and 3.5 at one significant figure give 2 and 4. */
  lemma TiesToEven()
    ensures StandardForm(ExactDecimal(false, [2, 5], -1), 1) == Components(1, 2, 0)
    ensures StandardForm(ExactDecimal(false, [3, 5], -1), 1) == Components(1, 4, 0)
  {
    assert Padded(ExactDecimal(false, [2, 5], -1), 1) == [2, 5];
    assert Padded(ExactDecimal(false, [3, 5], -1), 1) == [3, 5];
    assert [2, 5][2..] == [] && [3, 5][2..] == [];
    assert [2, 5][..1] == [2] && [3, 5][..1] == [3];
    assert DigitsValue([2]) == 10 * DigitsValue([]) + 2;
    assert DigitsValue([3]) == 10 * DigitsValue([]) + 3;
  }

  /** A carry: 999 at two significant figures becomes (1, 10, 3), written 1000. */
  lemma CarryExample()
    ensures StandardForm(ExactDecimal(false, [9, 9, 9], 0), 2) == Components(1, 10, 3)
    ensures CompactLiteral(ExactDecimal(false, [9, 9, 9], 0), 2) == "1000"
  {
    var x := ExactDecimal(false, [9, 9, 9], 0);
    var ds := [9, 9, 9];
    assert Padded(x, 2) == ds;
    assert ds[..2] == [9, 9];
    assert DigitsValue([9, 9]) == 99 by {
      assert [9, 9][..1] == [9];
      assert DigitsValue([9]) == 10 * DigitsValue([]) + 9;
    }
    assert RoundedHead(ds, 2) == 100;
    assert NumDigits(100) == 3;
    var c := Components(1, 10, 3);
    assert NatToString(10) == "10" by {
      assert NatToString(1) == "1";
    }
    assert StandardText(c) == "1.0e3";
    assert PlainLayout("10", 3, 2) == Layout("1000", 4, 0);
    assert PlainText(c, 2) == "1000";
  }

  // ---------------------------------------------------------------------------
  // round_compact_in_interval
  // ---------------------------------------------------------------------------

  /** float(f) lies in [a, b]. */
  predicate Within(f: FormattedFloat, a: real, b: real) {
    a <= f.asFloat <= b
  }

  /** round_compact(x, k) for a k the loop visits; it never fails there (RoundCompactResult),
      so the Err case is never taken. */
  function Attempt(x: ExactDecimal, k: nat): FormattedFloat
    requires x.Valid()
  {
    match RoundCompactSpec(x, k)
    case Ok(f) => f
    case Err(_) => ZeroFloat
  }

  /** The attempts the loop makes from sig_figs = k down to 0, in that order. */
  function AttemptsFrom(x: ExactDecimal, k: nat): seq<FormattedFloat>
    requires x.Valid()
  {
    seq(k + 1, i requires 0 <= i <= k => Attempt(x, k - i))
  }

  /** The loop over a list of attempts, starting from best: an attempt replaces best when it
      lies in [a, b] and is strictly shorter. */
  function BestOf(cs: seq<FormattedFloat>, best: FormattedFloat, a: real, b: real): FormattedFloat
  {
    if cs == [] then best else BestOf(cs[1..], Keep(cs[0], best, a, b), a, b)
  }

  /** One round of the loop: the attempt c replaces best when it is in [a, b] and shorter. */
  function Keep(c: FormattedFloat, best: FormattedFloat, a: real, b: real): FormattedFloat {
    if Within(c, a, b) && c.Length() < best.Length() then c else best
  }

  /** The test in the loop body: take x_round when it lies in [a, b] and is shorter. */
  method KeepShorter(xRound: FormattedFloat, best: FormattedFloat, a: real, b: real) returns (r: FormattedFloat)
    ensures r == Keep(xRound, best, a, b)
  {
    r := best;
    if xRound.asFloat >= a && xRound.asFloat <= b && xRound.Length() < best.Length() {
      r := xRound;
    }
  }

  /** round_compact(x, k) inside the loop, where it cannot fail. */
  method RoundAttempt(x: ExactDecimal, k: nat) returns (xRound: FormattedFloat)
    requires x.Valid()
    ensures xRound == Attempt(x, k)
  {
    var r := RoundCompact(x, k);
    RoundCompactResult(x, k);
    xRound := r.value;
  }

  /** round_compact_in_interval(x, a, b), where x_text is str(x). */
  function RoundCompactInIntervalSpec(x: ExactDecimal, a: real, b: real, xText: string): Result<FormattedFloat>
    requires x.Valid()
  {
    if a > x.Value() || x.Value() > b then Err(ValueError)
    else
      match NewFormattedFloat(xText)
      case Err(e) => Err(e)
      case Ok(start) => Ok(BestOf(AttemptsFrom(x, 17), start, a, b))
  }

  /** round_compact_in_interval: starts from str(x) and tries sig_figs = 17, 16, ..., 0,
      keeping an attempt in [a, b] that is strictly shorter than the best so far. */
  method RoundCompactInInterval(x: ExactDecimal, a: real, b: real, xText: string) returns (r: Result<FormattedFloat>)
    requires x.Valid()
    ensures r == RoundCompactInIntervalSpec(x, a, b, xText)
  {
    if a > x.Value() || x.Value() > b {
      return Err(ValueError);
    }
    var start := NewFormattedFloat(xText);
    if start.Err? {
      return start;
    }
    var best := ShortestWithin(x, a, b, start.value);
    return Ok(best);
  }

  /** The loop of round_compact_in_interval over sig_figs = 17, 16, ..., 0. */
  method ShortestWithin(x: ExactDecimal, a: real, b: real, start: FormattedFloat) returns (best: FormattedFloat)
    requires x.Valid()
    ensures best == BestOf(AttemptsFrom(x, 17), start, a, b)
  {
    ghost var attempts := AttemptsFrom(x, 17);
    best := start;
    var sigFigs := 17;
    while sigFigs >= 0
      invariant -1 <= sigFigs <= 17
      invariant BestOf(attempts[17 - sigFigs..], best, a, b) == BestOf(attempts, start, a, b)
      decreases sigFigs + 1
    {
      var xRound := RoundAttempt(x, sigFigs);
      AttemptAt(x, sigFigs);
      BestOfStep(attempts, 17 - sigFigs, best, a, b);
      best := KeepShorter(xRound, best, a, b);
      sigFigs := sigFigs - 1;
    }
  }

  /** The attempt at sig_figs = k is round_compact(x, k). */
  lemma AttemptAt(x: ExactDecimal, k: nat)
    requires x.Valid() && k <= 17
    ensures |AttemptsFrom(x, 17)| == 18 && AttemptsFrom(x, 17)[17 - k] == Attempt(x, k)
  {
  }

  /** One round of the loop consumes one attempt. */
  lemma BestOfStep(cs: seq<FormattedFloat>, i: nat, best: FormattedFloat, a: real, b: real)
    requires i < |cs|
    ensures BestOf(cs[i..], best, a, b) == BestOf(cs[i + 1..], Keep(cs[i], best, a, b), a, b)
  {
    assert cs[i..][1..] == cs[i + 1..];
  }

  /** The result is never longer than the starting text. */
  lemma {:induction false} BestOfNoLonger(cs: seq<FormattedFloat>, best: FormattedFloat, a: real, b: real)
    ensures BestOf(cs, best, a, b).Length() <= best.Length()
  {
    if cs != [] {
      BestOfNoLonger(cs[1..], Keep(cs[0], best, a, b), a, b);
    }
  }

  /** A start in [a, b] gives a result in [a, b]. */
  lemma {:induction false} BestOfWithin(cs: seq<FormattedFloat>, best: FormattedFloat, a: real, b: real)
    requires Within(best, a, b)
    ensures Within(BestOf(cs, best, a, b), a, b)
  {
    if cs != [] {
      BestOfWithin(cs[1..], Keep(cs[0], best, a, b), a, b);
    }
  }

  /** No attempt in [a, b] is shorter than the result. */
  lemma {:induction false} BestOfShortest(cs: seq<FormattedFloat>, best: FormattedFloat, a: real, b: real)
    ensures forall i :: 0 <= i < |cs| && Within(cs[i], a, b) ==> BestOf(cs, best, a, b).Length() <= cs[i].Length()
  {
    if cs != [] {
      var r := BestOf(cs, best, a, b);
      BestOfShortest(cs[1..], Keep(cs[0], best, a, b), a, b);
      BestOfNoLonger(cs[1..], Keep(cs[0], best, a, b), a, b);
      forall i | 0 <= i < |cs| && Within(cs[i], a, b)
        ensures r.Length() <= cs[i].Length()
      {
        if i > 0 {
          assert cs[i] == cs[1..][i - 1];
        }
      }
    }
  }

  /** The result is the start, or the first attempt of the shortest length in [a, b]: it lies
      in [a, b], is strictly shorter than the start, and every earlier attempt in [a, b] is
      strictly longer (ties keep the attempt with more significant figures). */
  lemma {:induction false} BestOfFirstShortest(cs: seq<FormattedFloat>, best: FormattedFloat, a: real, b: real)
    ensures var r := BestOf(cs, best, a, b);
      || r == best
      || exists j :: 0 <= j < |cs| && r == cs[j] && Within(r, a, b) && r.Length() < best.Length()
           && forall i :: 0 <= i < j && Within(cs[i], a, b) ==> cs[i].Length() > r.Length()
  {
    if cs != [] {
      var r := BestOf(cs, best, a, b);
      var kept := Keep(cs[0], best, a, b);
      BestOfFirstShortest(cs[1..], kept, a, b);
      BestOfNoLonger(cs[1..], kept, a, b);
      if r == kept {
        if r != best {
          assert r == cs[0];
        }
      } else {
        var j :| 0 <= j < |cs[1..]| && r == cs[1..][j] && Within(r, a, b) && r.Length() < kept.Length()
           && forall i :: 0 <= i < j && Within(cs[1..][i], a, b) ==> cs[1..][i].Length() > r.Length();
        forall i | 0 <= i < j + 1 && Within(cs[i], a, b)
          ensures cs[i].Length() > r.Length()
        {
          if i > 0 {
            assert cs[i] == cs[1..][i - 1];
          }
        }
        assert r == cs[j + 1];
      }
    }
  }

  /** round_compact_in_interval fails exactly when x is outside [a, b] (or str(x) were not a
      literal); otherwise its text is no longer than str(x), no round_compact(x, k) in [a, b]
      is shorter, and the result lies in [a, b] whenever str(x) reads back as x. */
  lemma RoundCompactInIntervalResult(x: ExactDecimal, a: real, b: real, xText: string)
    requires x.Valid()
    ensures var r := RoundCompactInIntervalSpec(x, a, b, xText);
      && (r.Err? <==> a > x.Value() || x.Value() > b || ParseLiteral(xText).None?)
      && (r.Ok? ==> r.value.Length() <= |xText|)
      && (r.Ok? ==> forall k :: 0 <= k <= 17 && Within(Attempt(x, k), a, b) ==> r.value.Length() <= Attempt(x, k).Length())
      && (r.Ok? && ParseLiteral(xText).value.Value() == x.Value() ==> Within(r.value, a, b))
  {
    var r := RoundCompactInIntervalSpec(x, a, b, xText);
    if r.Ok? {
      var start := NewFormattedFloat(xText).value;
      var cs := AttemptsFrom(x, 17);
      assert r.value == BestOf(cs, start, a, b);
      BestOfNoLonger(cs, start, a, b);
      BestOfShortest(cs, start, a, b);
      forall k | 0 <= k <= 17 && Within(Attempt(x, k), a, b)
        ensures r.value.Length() <= Attempt(x, k).Length()
      {
        assert cs[17 - k] == Attempt(x, k);
      }
      if ParseLiteral(xText).value.Value() == x.Value() {
        BestOfWithin(cs, start, a, b);
      }
    }
  }

  /** The result for x in [a, b] whose str(x) reads back as x: a literal in [a, b]. */
  lemma IntervalResultWithin(x: ExactDecimal, a: real, b: real, xText: string, r: Result<FormattedFloat>)
    requires x.Valid() && r == RoundCompactInIntervalSpec(x, a, b, xText)
    requires a <= x.Value() <= b
    requires ParseLiteral(xText).Some? && ParseLiteral(xText).value.Value() == x.Value()
    ensures r.Ok? && Within(r.value, a, b)
  {
    RoundCompactInIntervalResult(x, a, b, xText);
  }

  /** The result is str(x) itself, or the first attempt (the i-th attempt is
      round_compact(x, 17 - i)) that lies in [a, b] with the shortest length, strictly
      shorter than str(x): every earlier attempt in [a, b], with more significant figures,
      is strictly longer. */
  lemma RoundCompactInIntervalChoice(x: ExactDecimal, a: real, b: real, xText: string)
    requires x.Valid()
    ensures var r := RoundCompactInIntervalSpec(x, a, b, xText); var cs := AttemptsFrom(x, 17);
      r.Ok? ==>
        || r.value.asStr == xText
        || exists j :: 0 <= j < |cs| && r.value == cs[j] && Within(r.value, a, b) && r.value.Length() < |xText|
             && forall i :: 0 <= i < j && Within(cs[i], a, b) ==> cs[i].Length() > r.value.Length()
  {
    var r := RoundCompactInIntervalSpec(x, a, b, xText);
    if r.Ok? {
      var start := NewFormattedFloat(xText).value;
      BestOfFirstShortest(AttemptsFrom(x, 17), start, a, b);
    }
  }
}

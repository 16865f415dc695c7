/** Exact decimal arithmetic and decimal text: powers of ten, digit sequences, the
    decimal spelling of integers, and the reader that gives a numeric literal its
    EXACT decimal value (what Python's float() reads, without the rounding to binary). */
module DecimalText {
  import opened Outcomes

  // ---------------------------------------------------------------------------
  // Powers
  // ---------------------------------------------------------------------------

  function Pow10(k: nat): (r: nat)
    ensures r >= 1
  {
    if k == 0 then 1 else 10 * Pow10(k - 1)
  }

  lemma {:induction false} Pow10Add(i: nat, j: nat)
    ensures Pow10(i + j) == Pow10(i) * Pow10(j)
  {
    if j > 0 {
      Pow10Add(i, j - 1);
      assert Pow10(i + j) == 10 * Pow10(i + j - 1);
    }
  }

  lemma {:induction false} Pow10Monotone(i: nat, j: nat)
    requires i <= j
    ensures Pow10(i) <= Pow10(j)
  {
    if i < j {
      Pow10Monotone(i, j - 1);
    }
  }

  /** base^n for a real base. */
  function Power(base: real, n: nat): real {
    if n == 0 then 1.0 else base * Power(base, n - 1)
  }

  lemma {:induction false} PowerPositive(base: real, n: nat)
    requires base > 0.0
    ensures Power(base, n) > 0.0
  {
    if n > 0 {
      PowerPositive(base, n - 1);
    }
  }

  lemma {:induction false} PowerAdd(base: real, i: nat, j: nat)
    ensures Power(base, i + j) == Power(base, i) * Power(base, j)
  {
    if j > 0 {
      PowerAdd(base, i, j - 1);
      assert Power(base, i + j) == base * Power(base, i + j - 1);
    }
  }

  // ---------------------------------------------------------------------------
  // Digit sequences
  // ---------------------------------------------------------------------------

  predicate AllDecimalDigits(ds: seq<int>) {
    forall i :: 0 <= i < |ds| ==> 0 <= ds[i] < 10
  }

  predicate AllZero(ds: seq<int>) {
    forall i :: 0 <= i < |ds| ==> ds[i] == 0
  }

  lemma AllZeroAppend(s: seq<int>, t: seq<int>)
    ensures AllZero(s + t) <==> AllZero(s) && AllZero(t)
  {
    if AllZero(s + t) {
      assert forall i :: 0 <= i < |s| ==> s[i] == (s + t)[i];
      assert forall i :: 0 <= i < |t| ==> t[i] == (s + t)[|s| + i];
    }
  }

  function Zeros(k: nat): (zs: seq<int>)
    ensures |zs| == k && AllZero(zs) && AllDecimalDigits(zs)
  {
    seq(k, _ => 0)
  }

  /** The natural number a big-endian digit sequence spells. */
  function DigitsValue(ds: seq<int>): nat
    requires AllDecimalDigits(ds)
  {
    if ds == [] then 0 else 10 * DigitsValue(ds[..|ds| - 1]) + ds[|ds| - 1]
  }

  lemma {:induction false} DigitsValueAppend(ds: seq<int>, es: seq<int>)
    requires AllDecimalDigits(ds) && AllDecimalDigits(es)
    ensures AllDecimalDigits(ds + es)
    ensures DigitsValue(ds + es) == DigitsValue(ds) * Pow10(|es|) + DigitsValue(es)
  {
    if es != [] {
      var init := es[..|es| - 1];
      assert (ds + es)[..|ds + es| - 1] == ds + init;
      DigitsValueAppend(ds, init);
      assert DigitsValue(ds + es) == 10 * DigitsValue(ds + init) + es[|es| - 1];
      ShiftDigit(DigitsValue(ds), Pow10(|init|), DigitsValue(init), es[|es| - 1]);
    } else {
      assert ds + es == ds;
    }
  }

  lemma ShiftDigit(v: int, p: int, w: int, d: int)
    ensures 10 * (v * p + w) + d == v * (10 * p) + (10 * w + d)
  {
  }

  lemma {:induction false} DigitsValueBound(ds: seq<int>)
    requires AllDecimalDigits(ds)
    ensures DigitsValue(ds) < Pow10(|ds|)
  {
    if ds != [] {
      DigitsValueBound(ds[..|ds| - 1]);
    }
  }

  /** A digit sequence with a non-zero leading digit has exactly |ds| digits. */
  lemma {:induction false} DigitsValueLeading(ds: seq<int>)
    requires AllDecimalDigits(ds) && |ds| > 0 && ds[0] != 0
    ensures Pow10(|ds| - 1) <= DigitsValue(ds)
  {
    if |ds| > 1 {
      var init := ds[..|ds| - 1];
      assert init[0] == ds[0];
      DigitsValueLeading(init);
    }
  }

  lemma {:induction false} DigitsValueZeros(k: nat)
    ensures DigitsValue(Zeros(k)) == 0
  {
    if k > 0 {
      assert Zeros(k)[..k - 1] == Zeros(k - 1);
      DigitsValueZeros(k - 1);
    }
  }

  /** A value is zero exactly when all of its digits are. */
  lemma {:induction false} DigitsValueZeroIff(ds: seq<int>)
    requires AllDecimalDigits(ds)
    ensures DigitsValue(ds) == 0 <==> AllZero(ds)
  {
    if ds != [] {
      DigitsValueZeroIff(ds[..|ds| - 1]);
      if AllZero(ds) {
        assert AllZero(ds[..|ds| - 1]);
      } else if AllZero(ds[..|ds| - 1]) {
        assert ds[|ds| - 1] != 0;
      }
    }
  }

  // ---------------------------------------------------------------------------
  // Digit characters and the decimal spelling of integers (Python's str(int))
  // ---------------------------------------------------------------------------

  predicate IsDigitChar(c: char) {
    '0' <= c <= '9'
  }

  predicate AllDigitChars(s: string) {
    forall i :: 0 <= i < |s| ==> IsDigitChar(s[i])
  }

  function DigitChar(d: int): (c: char)
    requires 0 <= d < 10
    ensures IsDigitChar(c) && c as int - '0' as int == d
  {
    ('0' as int + d) as char
  }

  function ZeroChars(k: nat): (s: string)
    ensures |s| == k && AllDigitChars(s)
    ensures forall i :: 0 <= i < k ==> s[i] == '0'
  {
    seq(k, _ => '0')
  }

  /** The digits a string of digit characters spells. */
  function StrDigits(s: string): (ds: seq<int>)
    requires AllDigitChars(s)
    ensures |ds| == |s| && AllDecimalDigits(ds)
    ensures forall i :: 0 <= i < |s| ==> ds[i] == s[i] as int - '0' as int
  {
    seq(|s|, i requires 0 <= i < |s| => s[i] as int - '0' as int)
  }

  lemma AllDigitCharsAppend(s: string, t: string)
    requires AllDigitChars(s) && AllDigitChars(t)
    ensures AllDigitChars(s + t)
  {
  }

  lemma StrDigitsAppend(s: string, t: string)
    requires AllDigitChars(s) && AllDigitChars(t)
    ensures AllDigitChars(s + t) && StrDigits(s + t) == StrDigits(s) + StrDigits(t)
  {
  }

  lemma StrDigitsZeroChars(k: nat)
    ensures StrDigits(ZeroChars(k)) == Zeros(k)
  {
  }

  /** The number of digits of str(n). */
  function NumDigits(n: nat): (k: nat)
    ensures k >= 1
  {
    if n < 10 then 1 else 1 + NumDigits(n / 10)
  }

  lemma {:induction false} NumDigitsBounds(n: nat)
    ensures n < Pow10(NumDigits(n))
    ensures n > 0 ==> Pow10(NumDigits(n) - 1) <= n
  {
    if n >= 10 {
      NumDigitsBounds(n / 10);
    }
  }

  /** The digit count is determined by the decade the number lies in. */
  lemma {:induction false} NumDigitsOfDecade(n: nat, k: nat)
    requires k >= 1 && Pow10(k - 1) <= n < Pow10(k)
    ensures NumDigits(n) == k
  {
    if k > 1 {
      assert Pow10(k) == 10 * Pow10(k - 1);
      assert Pow10(k - 1) == 10 * Pow10(k - 2);
      NumDigitsOfDecade(n / 10, k - 1);
    } else {
      assert n < 10;
    }
  }

  /** Python's str() of a natural number. */
  function NatToString(n: nat): (s: string)
    ensures |s| == NumDigits(n) && AllDigitChars(s)
  {
    if n < 10 then [DigitChar(n)] else NatToString(n / 10) + [DigitChar(n % 10)]
  }

  /** str() spells exactly the number, without a leading zero. */
  lemma {:induction false} NatToStringValue(n: nat)
    ensures DigitsValue(StrDigits(NatToString(n))) == n
    ensures n > 0 ==> NatToString(n)[0] != '0'
  {
    var s := NatToString(n);
    if n >= 10 {
      NatToStringValue(n / 10);
      assert s[..|s| - 1] == NatToString(n / 10);
      assert StrDigits(s)[..|s| - 1] == StrDigits(NatToString(n / 10));
    }
  }

  /** int(str(n)) == n */
  lemma CharsValueOfNatToString(n: nat)
    ensures CharsValue(NatToString(n)) == n
  {
    NatToStringValue(n);
    CharsValueOfDigits(NatToString(n));
  }

  /** Python's str() of an integer. */
  function IntToString(e: int): (s: string)
    ensures |s| >= 1
  {
    if e < 0 then "-" + NatToString(-e) else NatToString(e)
  }

  // ---------------------------------------------------------------------------
  // Reading numbers
  // ---------------------------------------------------------------------------

  /** Digit characters only, checked one character at a time from the right. */
  predicate DigitsOnly(s: string) {
    s == [] || (IsDigitChar(s[|s| - 1]) && DigitsOnly(s[..|s| - 1]))
  }

  /** The number a run of digit characters spells, read as int() reads it. */
  function CharsValue(s: string): nat
  {
    if s == [] then 0
    else
      var c := s[|s| - 1];
      10 * CharsValue(s[..|s| - 1]) + (if IsDigitChar(c) then c as int - '0' as int else 0)
  }

  lemma {:induction false} DigitsOnlyIff(s: string)
    ensures DigitsOnly(s) <==> AllDigitChars(s)
  {
    if s != [] {
      DigitsOnlyIff(s[..|s| - 1]);
    }
  }

  /** Reading digit characters agrees with the value of the digits they spell. */
  lemma {:induction false} CharsValueOfDigits(s: string)
    requires AllDigitChars(s)
    ensures CharsValue(s) == DigitsValue(StrDigits(s))
  {
    if s != [] {
      var init := s[..|s| - 1];
      CharsValueOfDigits(init);
      assert StrDigits(s)[..|s| - 1] == StrDigits(init);
    }
  }

  /** A non-empty run of decimal digits, as int() reads it. */
  function ParseNat(s: string): Option<nat>
  {
    if |s| > 0 && DigitsOnly(s) then Some(CharsValue(s)) else None
  }

  /** ParseNat accepts exactly the non-empty runs of digits, and reads the number they spell. */
  lemma ParseNatSpec(s: string)
    ensures ParseNat(s).Some? <==> |s| > 0 && AllDigitChars(s)
    ensures ParseNat(s).Some? ==> ParseNat(s).value == DigitsValue(StrDigits(s))
  {
    DigitsOnlyIff(s);
    if AllDigitChars(s) {
      CharsValueOfDigits(s);
    }
  }

  /** An optionally signed run of decimal digits, as int() reads it. */
  function ParseInt(s: string): Option<int>
  {
    if |s| > 0 && (s[0] == '-' || s[0] == '+') then
      match ParseNat(s[1..])
      case None => None
      case Some(v) => var r: int := v; Some(if s[0] == '-' then -r else r)
    else
      match ParseNat(s)
      case None => None
      case Some(v) => var r: int := v; Some(r)
  }

  lemma ParseNatOfString(n: nat)
    ensures ParseNat(NatToString(n)) == Some(n)
  {
    NatToStringValue(n);
    ParseNatSpec(NatToString(n));
  }

  lemma {:induction false} ParseIntOfNat(n: nat)
    ensures ParseInt(NatToString(n)) == Some(n)
  {
    var s := NatToString(n);
    assert IsDigitChar(s[0]);
    assert !(s[0] == '-' || s[0] == '+');
    ParseNatOfString(n);
  }

  lemma {:induction false} ParseIntOfNegative(n: nat)
    requires n > 0
    ensures ParseInt("-" + NatToString(n)) == Some(-(n as int))
  {
    var s := "-" + NatToString(n);
    assert s[1..] == NatToString(n);
    ParseNatOfString(n);
  }

  /** int(str(e)) == e. */
  lemma {:induction false} IntToStringRoundTrip(e: int)
    ensures ParseInt(IntToString(e)) == Some(e)
  {
    if e < 0 {
      ParseIntOfNegative(-e);
    } else {
      ParseIntOfNat(e);
    }
  }

  /** Distinct integers have distinct texts. */
  lemma IntToStringInjective(e1: int, e2: int)
    ensures IntToString(e1) == IntToString(e2) ==> e1 == e2
  {
    IntToStringRoundTrip(e1);
    IntToStringRoundTrip(e2);
  }

  /** digits * 10^shift, exactly: one factor of ten per step away from shift 0. */
  function Scaled(digits: int, shift: int): real
    decreases if shift >= 0 then shift else -shift
  {
    if shift == 0 then digits as real
    else if shift > 0 then 10.0 * Scaled(digits, shift - 1)
    else Scaled(digits, shift + 1) / 10.0
  }

  /** One step up the scale is a factor of ten, on either side of 0. */
  lemma ScaledStep(d: int, shift: int)
    ensures Scaled(d, shift + 1) == 10.0 * Scaled(d, shift)
  {
  }

  /** A scaled value has the sign of its digits. */
  lemma {:induction false} ScaledSign(d: int, shift: int)
    ensures d > 0 ==> Scaled(d, shift) > 0.0
    ensures d == 0 ==> Scaled(d, shift) == 0.0
    decreases if shift >= 0 then shift else -shift
  {
    if shift > 0 {
      ScaledSign(d, shift - 1);
    } else if shift < 0 {
      ScaledSign(d, shift + 1);
    }
  }

  /** A factor of ten moves from the digits into the scale. */
  lemma {:induction false} ScaledTen(d: int, shift: int)
    ensures Scaled(10 * d, shift) == Scaled(d, shift + 1)
    decreases if shift >= 0 then shift else -shift
  {
    if shift > 0 {
      ScaledTen(d, shift - 1);
    } else if shift < 0 {
      ScaledTen(d, shift + 1);
      ScaledStep(d, shift);
    }
  }

  /** Moving a factor p = 10^k from the digits into the scale keeps the value. */
  lemma {:induction false} ScaledShift(d: int, k: nat, p: nat, shift: int)
    requires p == Pow10(k)
    ensures Scaled(d * p, shift) == Scaled(d, shift + k)
  {
    if k > 0 {
      var q := Pow10(k - 1);
      assert d * p == 10 * (d * q);
      ScaledTen(d * q, shift);
      ScaledShift(d, k - 1, q, shift + 1);
    }
  }

  /** A decimal literal as read: its sign, the integer its mantissa digits spell and
      the power of ten that scales it. */
  datatype Numeral = Numeral(negative: bool, digits: nat, shift: int)
  {
    /** The exact value the literal denotes. */
    function Value(): real {
      if negative then -Scaled(digits, shift) else Scaled(digits, shift)
    }
  }

  // ---------------------------------------------------------------------------
  // Reading a decimal literal, one character at a time
  // ---------------------------------------------------------------------------

  /** Where the reader is inside `digits [. digits] [e [sign] digits]`. */
  datatype Phase = InInteger | InFraction | AfterMarker | AfterSign | InExponent

  /** The reader's state: the mantissa digits read so far (as one integer), how many
      stood before and after the point, and the exponent's sign, value and length. */
  datatype Scan =
    | Scan(phase: Phase, mant: nat, intLen: nat, fracLen: nat, expNeg: bool, exp: nat)
    | Rejected

  const StartScan: Scan := Scan(InInteger, 0, 0, 0, false, 0)

  function DigitValue(c: char): nat
  {
    if IsDigitChar(c) then c as int - '0' as int else 0
  }

  /** The reader after one more character. */
  function Step(st: Scan, c: char): Scan
  {
    if st.Rejected? then Rejected
    else if IsDigitChar(c) then
      match st.phase
      case InInteger => st.(mant := 10 * st.mant + DigitValue(c), intLen := st.intLen + 1)
      case InFraction => st.(mant := 10 * st.mant + DigitValue(c), fracLen := st.fracLen + 1)
      case _ => st.(phase := InExponent, exp := 10 * st.exp + DigitValue(c))
    else if c == '.' && st.phase == InInteger then st.(phase := InFraction)
    else if (c == 'e' || c == 'E') && (st.phase == InInteger || st.phase == InFraction) then
      st.(phase := AfterMarker)
    else if (c == '-' || c == '+') && st.phase == AfterMarker then
      st.(phase := AfterSign, expNeg := c == '-')
    else Rejected
  }

  /** The reader after the characters of s, read left to right. */
  function Feed(st: Scan, s: string): Scan
    decreases |s|
  {
    if s == [] then st else Feed(Step(st, s[0]), s[1..])
  }

  /** The literal the reader has seen, if it may stop here: at least one mantissa digit,
      and not in the middle of an exponent. */
  function Finish(st: Scan): Option<Numeral>
  {
    if st.Scan? && st.intLen + st.fracLen > 0 && (st.phase.InInteger? || st.phase.InFraction? || st.phase.InExponent?) then
      var e: int := if st.expNeg then -(st.exp as int) else st.exp;
      Some(Numeral(false, st.mant, e - st.fracLen))
    else
      None
  }

  /** A decimal literal `[sign] digits [. digits] [e [sign] digits]` with at least one
      mantissa digit, read exactly: Python's float() before rounding to binary. */
  function ParseLiteral(s: string): Option<Numeral>
  {
    if |s| > 0 && (s[0] == '-' || s[0] == '+') then
      match Finish(Feed(StartScan, s[1..]))
      case None => None
      case Some(m) => Some(m.(negative := s[0] == '-'))
    else
      Finish(Feed(StartScan, s))
  }

  /** Reading s then t is reading s + t. */
  lemma {:induction false} FeedAppend(st: Scan, s: string, t: string)
    ensures Feed(st, s + t) == Feed(Feed(st, s), t)
    decreases |s|
  {
    if s != [] {
      assert (s + t)[1..] == s[1..] + t;
      FeedAppend(Step(st, s[0]), s[1..], t);
    } else {
      assert s + t == t;
    }
  }

  lemma FeedOne(st: Scan, c: char)
    ensures Feed(st, [c]) == Step(st, c)
  {
    assert [c][1..] == [];
  }

  /** Reading s is reading all but its last character, then that character. */
  lemma FeedSnoc(st: Scan, s: string)
    requires |s| > 0
    ensures Feed(st, s) == Step(Feed(st, s[..|s| - 1]), s[|s| - 1])
  {
    assert s == s[..|s| - 1] + [s[|s| - 1]];
    FeedAppend(st, s[..|s| - 1], [s[|s| - 1]]);
    FeedOne(Feed(st, s[..|s| - 1]), s[|s| - 1]);
  }

  /** One more digit character multiplies the value read so far by ten and adds the digit. */
  lemma StrDigitsSnoc(s: string)
    requires |s| > 0 && AllDigitChars(s)
    ensures AllDigitChars(s[..|s| - 1])
    ensures DigitsValue(StrDigits(s)) == 10 * DigitsValue(StrDigits(s[..|s| - 1])) + DigitValue(s[|s| - 1])
  {
    assert StrDigits(s)[..|s| - 1] == StrDigits(s[..|s| - 1]);
  }

  /** The arithmetic of appending digit d to m·p + v. */
  lemma AppendDigitArith(m: int, p: int, v: int, d: int, p2: int, v2: int)
    requires p2 == 10 * p && v2 == 10 * v + d
    ensures 10 * (m * p + v) + d == m * p2 + v2
  {
  }

  /** A run of digits read before the point appends to the mantissa and the integer count. */
  lemma {:induction false} FeedIntDigits(st: Scan, s: string)
    requires st.Scan? && st.phase == InInteger && AllDigitChars(s)
    ensures Feed(st, s) == st.(mant := st.mant * Pow10(|s|) + DigitsValue(StrDigits(s)), intLen := st.intLen + |s|)
    decreases |s|
  {
    if s == [] {
      assert StrDigits(s) == [];
    } else {
      var init := s[..|s| - 1];
      var c := s[|s| - 1];
      StrDigitsSnoc(s);
      FeedSnoc(st, s);
      FeedIntDigits(st, init);
      var mid := Feed(st, init);
      assert mid.Scan? && mid.phase == st.phase && IsDigitChar(c);
      assert Pow10(|s|) == 10 * Pow10(|init|);
      AppendDigitArith(st.mant, Pow10(|init|), DigitsValue(StrDigits(init)), DigitValue(c), Pow10(|s|), DigitsValue(StrDigits(s)));
      assert Step(mid, c) == mid.(mant := 10 * mid.mant + DigitValue(c), intLen := mid.intLen + 1);
    }
  }

  /** A run of digits read after the point appends to the mantissa and the fraction count. */
  lemma {:induction false} FeedFracDigits(st: Scan, s: string)
    requires st.Scan? && st.phase == InFraction && AllDigitChars(s)
    ensures Feed(st, s) == st.(mant := st.mant * Pow10(|s|) + DigitsValue(StrDigits(s)), fracLen := st.fracLen + |s|)
    decreases |s|
  {
    if s == [] {
      assert StrDigits(s) == [];
    } else {
      var init := s[..|s| - 1];
      var c := s[|s| - 1];
      StrDigitsSnoc(s);
      FeedSnoc(st, s);
      FeedFracDigits(st, init);
      var mid := Feed(st, init);
      assert mid.Scan? && mid.phase == st.phase && IsDigitChar(c);
      assert Pow10(|s|) == 10 * Pow10(|init|);
      AppendDigitArith(st.mant, Pow10(|init|), DigitsValue(StrDigits(init)), DigitValue(c), Pow10(|s|), DigitsValue(StrDigits(s)));
      assert Step(mid, c) == mid.(mant := 10 * mid.mant + DigitValue(c), fracLen := mid.fracLen + 1);
    }
  }

  /** A non-empty run of digits read after the exponent marker or its sign is the exponent. */
  lemma {:induction false} FeedExpDigits(st: Scan, s: string)
    requires st.Scan? && !st.phase.InInteger? && !st.phase.InFraction? && st.exp == 0
    requires |s| > 0 && AllDigitChars(s)
    ensures Feed(st, s) == st.(phase := InExponent, exp := DigitsValue(StrDigits(s)))
    decreases |s|
  {
    var init := s[..|s| - 1];
    StrDigitsSnoc(s);
    FeedSnoc(st, s);
    if init == [] {
      assert StrDigits(init) == [];
    } else {
      FeedExpDigits(st, init);
    }
  }

  /** The text `[-]intPart[.fracPart][e<exponent>]`. */
  function Literal(neg: bool, intPart: string, fracPart: Option<string>, exponent: Option<int>): string
  {
    (if neg then "-" else "") + Unsigned(intPart, fracPart, exponent)
  }

  function Unsigned(intPart: string, fracPart: Option<string>, exponent: Option<int>): string
  {
    Mantissa(intPart, fracPart) + (if exponent.Some? then "e" + IntToString(exponent.value) else "")
  }

  function Mantissa(intPart: string, fracPart: Option<string>): string
  {
    intPart + (if fracPart.Some? then "." + fracPart.value else "")
  }

  function FracDigits(fracPart: Option<string>): string
  {
    if fracPart.Some? then fracPart.value else ""
  }

  /** Reading a mantissa built from its parts. */
  lemma {:induction false} FeedMantissa(intPart: string, fracPart: Option<string>)
    requires AllDigitChars(intPart)
    requires fracPart.Some? ==> AllDigitChars(fracPart.value)
    ensures AllDigitChars(intPart + FracDigits(fracPart))
    ensures Feed(StartScan, Mantissa(intPart, fracPart))
            == Scan(if fracPart.Some? then InFraction else InInteger,
                    DigitsValue(StrDigits(intPart + FracDigits(fracPart))),
                    |intPart|, |FracDigits(fracPart)|, false, 0)
  {
    var f := FracDigits(fracPart);
    var vi := DigitsValue(StrDigits(intPart));
    var afterInt := Feed(StartScan, intPart);
    assert afterInt == Scan(InInteger, vi, |intPart|, 0, false, 0) by {
      FeedIntDigits(StartScan, intPart);
    }
    StrDigitsAppend(intPart, f);
    if fracPart.Some? {
      var afterPoint := Scan(InFraction, vi, |intPart|, 0, false, 0);
      assert Feed(StartScan, Mantissa(intPart, fracPart)) == Feed(afterPoint, f) by {
        FeedAppend(StartScan, intPart, "." + f);
        FeedAppend(afterInt, ".", f);
        FeedOne(afterInt, '.');
      }
      assert Feed(afterPoint, f) == afterPoint.(mant := vi * Pow10(|f|) + DigitsValue(StrDigits(f)), fracLen := |f|) by {
        FeedFracDigits(afterPoint, f);
      }
      DigitsValueAppend(StrDigits(intPart), StrDigits(f));
    } else {
      assert Mantissa(intPart, fracPart) == intPart;
      assert intPart + f == intPart;
    }
  }


  /** Reading `e<e>` after a mantissa sets the exponent. */
  lemma {:induction false} FeedExponent(st: Scan, e: int)
    requires st.Scan? && (st.phase.InInteger? || st.phase.InFraction?) && !st.expNeg && st.exp == 0
    ensures Feed(st, "e" + IntToString(e)) == st.(phase := InExponent, expNeg := e < 0, exp := if e < 0 then -e else e)
  {
    var n: nat := if e < 0 then -e else e;
    var marked := st.(phase := AfterMarker);
    var signed := if e < 0 then marked.(phase := AfterSign, expNeg := true) else marked;
    assert Feed(st, "e" + IntToString(e)) == Feed(signed, NatToString(n)) by {
      FeedCons(st, 'e', IntToString(e));
      if e < 0 {
        FeedCons(marked, '-', NatToString(n));
      }
    }
    assert Feed(signed, NatToString(n)) == signed.(phase := InExponent, exp := n) by {
      FeedExpDigits(signed, NatToString(n));
      NatToStringValue(n);
    }
  }

  /** Reading c then s is reading [c] + s. */
  lemma FeedCons(st: Scan, c: char, s: string)
    ensures Feed(st, [c] + s) == Feed(Step(st, c), s)
  {
    assert ([c] + s)[1..] == s;
  }

  /** Reading an unsigned literal built from its parts. */
  lemma FeedUnsigned(intPart: string, fracPart: Option<string>, exponent: Option<int>)
    requires |intPart| > 0 && AllDigitChars(intPart)
    requires fracPart.Some? ==> AllDigitChars(fracPart.value)
    ensures AllDigitChars(intPart + FracDigits(fracPart))
    ensures
      var e := if exponent.Some? then exponent.value else 0;
      Finish(Feed(StartScan, Unsigned(intPart, fracPart, exponent)))
      == Some(Numeral(false, DigitsValue(StrDigits(intPart + FracDigits(fracPart))), e - |FracDigits(fracPart)|))
  {
    AllDigitCharsAppend(intPart, FracDigits(fracPart));
    if exponent.Some? {
      FeedWithExponent(intPart, fracPart, exponent.value);
    } else {
      FeedMantissa(intPart, fracPart);
      assert Unsigned(intPart, fracPart, exponent) == Mantissa(intPart, fracPart);
    }
  }

  lemma FeedWithExponent(intPart: string, fracPart: Option<string>, e: int)
    requires |intPart| > 0 && AllDigitChars(intPart)
    requires fracPart.Some? ==> AllDigitChars(fracPart.value)
    requires AllDigitChars(intPart + FracDigits(fracPart))
    ensures Finish(Feed(StartScan, Unsigned(intPart, fracPart, Some(e))))
      == Some(Numeral(false, DigitsValue(StrDigits(intPart + FracDigits(fracPart))), e - |FracDigits(fracPart)|))
  {
    var f := FracDigits(fracPart);
    var afterMant := Scan(if fracPart.Some? then InFraction else InInteger,
                          DigitsValue(StrDigits(intPart + f)), |intPart|, |f|, false, 0);
    var afterExp := afterMant.(phase := InExponent, expNeg := e < 0, exp := if e < 0 then -e else e);
    assert Feed(StartScan, Mantissa(intPart, fracPart)) == afterMant by {
      FeedMantissa(intPart, fracPart);
    }
    assert Feed(StartScan, Unsigned(intPart, fracPart, Some(e))) == afterExp by {
      FeedExponent(afterMant, e);
      FeedThrough(StartScan, Mantissa(intPart, fracPart), "e" + IntToString(e), afterMant, afterExp);
    }
    FinishExponent(afterMant, e);
  }

  /** Stopping after an exponent: the point's position moves the exponent. */
  lemma FinishExponent(st: Scan, e: int)
    requires st.Scan? && st.intLen > 0
    ensures Finish(st.(phase := InExponent, expNeg := e < 0, exp := if e < 0 then -e else e))
      == Some(Numeral(false, st.mant, e - st.fracLen))
  {
  }

  /** Reading a then b, through known intermediate and final states. */
  lemma FeedThrough(st: Scan, a: string, b: string, mid: Scan, end: Scan)
    requires Feed(st, a) == mid && Feed(mid, b) == end
    ensures Feed(st, a + b) == end
  {
    FeedAppend(st, a, b);
  }

  /** A leading '-' makes the literal negative; a body starting with a digit has no sign. */
  lemma ParseLiteralSign(neg: bool, body: string, m: Numeral)
    requires |body| > 0 && IsDigitChar(body[0])
    requires Finish(Feed(StartScan, body)) == Some(m)
    ensures ParseLiteral((if neg then "-" else "") + body) == Some(m.(negative := neg))
  {
    var s := (if neg then "-" else "") + body;
    if neg {
      assert s[1..] == body;
    } else {
      assert s == body;
    }
  }

  /** Reading a literal built from its parts gives back the sign, the digits and the
      scale of those parts. */
  lemma {:induction false} ParseLiteralOfParts(neg: bool, intPart: string, fracPart: Option<string>, exponent: Option<int>)
    requires |intPart| > 0 && AllDigitChars(intPart)
    requires fracPart.Some? ==> AllDigitChars(fracPart.value)
    ensures AllDigitChars(intPart + FracDigits(fracPart))
    ensures
      var e := if exponent.Some? then exponent.value else 0;
      ParseLiteral(Literal(neg, intPart, fracPart, exponent))
      == Some(Numeral(neg, DigitsValue(StrDigits(intPart + FracDigits(fracPart))), e - |FracDigits(fracPart)|))
  {
    var body := Unsigned(intPart, fracPart, exponent);
    var e := if exponent.Some? then exponent.value else 0;
    FeedUnsigned(intPart, fracPart, exponent);
    var m := Numeral(false, DigitsValue(StrDigits(intPart + FracDigits(fracPart))), e - |FracDigits(fracPart)|);
    assert body[0] == intPart[0];
    ParseLiteralSign(neg, body, m);
  }

  /** The characters a literal may contain: digits, the point, the exponent marker, signs. */
  predicate LiteralChar(c: char) {
    IsDigitChar(c) || c == '.' || c == 'e' || c == 'E' || c == '-' || c == '+'
  }

  /** Once rejected, the reader stays rejected. */
  lemma {:induction false} FeedRejected(s: string)
    ensures Feed(Rejected, s) == Rejected
    decreases |s|
  {
    if s != [] {
      FeedRejected(s[1..]);
    }
  }

  /** Any other character rejects the whole text. */
  lemma FeedForeign(st: Scan, s: string, i: nat)
    requires i < |s| && !LiteralChar(s[i])
    ensures Feed(st, s) == Rejected
  {
    assert s == s[..i] + s[i..];
    FeedAppend(st, s[..i], s[i..]);
    assert s[i..][0] == s[i];
    FeedRejected(s[i..][1..]);
  }

  /** A text float() accepts is not empty and holds only literal characters. */
  lemma LiteralChars(s: string)
    requires ParseLiteral(s).Some?
    ensures |s| >= 1 && forall i :: 0 <= i < |s| ==> LiteralChar(s[i])
  {
    if i :| 0 <= i < |s| && !LiteralChar(s[i]) {
      if |s| > 0 && (s[0] == '-' || s[0] == '+') {
        assert i >= 1 && s[1..][i - 1] == s[i];
        FeedForeign(StartScan, s[1..], i - 1);
      } else {
        FeedForeign(StartScan, s, i);
      }
    }
  }
}

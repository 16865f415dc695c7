/** The Python string operations the fixed-width reader relies on: str.isalpha, str.lower,
    str.isspace and str.strip, str.split(','), slicing with Python's index rules, and
    str.replace of one character. Character classes are the ASCII ones, except whitespace,
    which is Python's full str.isspace set. */
module PyText {
  import opened Outcomes
  import opened DecimalText

  // ---------------------------------------------------------------------------
  // Character classes and runs
  // ---------------------------------------------------------------------------

  /** str.isalpha on ASCII letters. */
  predicate IsAlphaChar(c: char) {
    'a' <= c <= 'z' || 'A' <= c <= 'Z'
  }

  /** str.isspace: the characters str.strip() removes. */
  predicate IsSpaceChar(c: char) {
    var k := c as int;
    (9 <= k <= 13) || (28 <= k <= 32) || k == 0x85 || k == 0xA0 || k == 0x1680
    || (0x2000 <= k <= 0x200A) || k == 0x2028 || k == 0x2029 || k == 0x202F
    || k == 0x205F || k == 0x3000
  }

  predicate AllSpace(s: string) {
    forall i :: 0 <= i < |s| ==> IsSpaceChar(s[i])
  }

  /** The end of the run of digits that starts at i. */
  function DigitRunEnd(s: string, i: nat): (e: nat)
    requires i <= |s|
    ensures i <= e <= |s|
    decreases |s| - i
  {
    if i < |s| && IsDigitChar(s[i]) then DigitRunEnd(s, i + 1) else i
  }

  /** The end of the run of letters that starts at i. */
  function AlphaRunEnd(s: string, i: nat): (e: nat)
    requires i <= |s|
    ensures i <= e <= |s|
    decreases |s| - i
  {
    if i < |s| && IsAlphaChar(s[i]) then AlphaRunEnd(s, i + 1) else i
  }

  /** The run of digits is the longest one: all digits, and no digit right after it. */
  lemma {:induction false} DigitRunEndSpec(s: string, i: nat)
    requires i <= |s|
    ensures var e := DigitRunEnd(s, i);
      (forall k :: i <= k < e ==> IsDigitChar(s[k])) && (e < |s| ==> !IsDigitChar(s[e]))
    decreases |s| - i
  {
    if i < |s| && IsDigitChar(s[i]) {
      DigitRunEndSpec(s, i + 1);
    }
  }

  /** The run of letters is the longest one: all letters, and no letter right after it. */
  lemma {:induction false} AlphaRunEndSpec(s: string, i: nat)
    requires i <= |s|
    ensures var e := AlphaRunEnd(s, i);
      (forall k :: i <= k < e ==> IsAlphaChar(s[k])) && (e < |s| ==> !IsAlphaChar(s[e]))
    decreases |s| - i
  {
    if i < |s| && IsAlphaChar(s[i]) {
      AlphaRunEndSpec(s, i + 1);
    }
  }

  /** A run of digits is determined by where it stops. */
  lemma {:induction false} DigitRunEndAt(s: string, i: nat, e: nat)
    requires i <= e <= |s|
    requires forall k :: i <= k < e ==> IsDigitChar(s[k])
    requires e < |s| ==> !IsDigitChar(s[e])
    ensures DigitRunEnd(s, i) == e
    decreases e - i
  {
    if i < e {
      DigitRunEndAt(s, i + 1, e);
    }
  }

  /** A run of letters is determined by where it stops. */
  lemma {:induction false} AlphaRunEndAt(s: string, i: nat, e: nat)
    requires i <= e <= |s|
    requires forall k :: i <= k < e ==> IsAlphaChar(s[k])
    requires e < |s| ==> !IsAlphaChar(s[e])
    ensures AlphaRunEnd(s, i) == e
    decreases e - i
  {
    if i < e {
      AlphaRunEndAt(s, i + 1, e);
    }
  }

  // ---------------------------------------------------------------------------
  // str.lower
  // ---------------------------------------------------------------------------

  function LowerChar(c: char): char {
    if 'A' <= c <= 'Z' then (c as int + 32) as char else c
  }

  /** str.lower on ASCII letters. */
  function Lower(s: string): string {
    seq(|s|, i requires 0 <= i < |s| => LowerChar(s[i]))
  }

  /** Lowering changes only the upper-case letters, leaves none behind, and lowering
      twice is lowering once. */
  lemma LowerProperties(s: string)
    ensures |Lower(s)| == |s|
    ensures forall i :: 0 <= i < |s| && !('A' <= s[i] <= 'Z') ==> Lower(s)[i] == s[i]
    ensures forall i :: 0 <= i < |s| ==> !('A' <= Lower(s)[i] <= 'Z')
    ensures forall i :: 0 <= i < |s| ==> (IsAlphaChar(Lower(s)[i]) <==> IsAlphaChar(s[i]))
    ensures Lower(Lower(s)) == Lower(s)
  {
  }

  // ---------------------------------------------------------------------------
  // str.strip
  // ---------------------------------------------------------------------------

  /** str.lstrip() */
  function StripLeft(s: string): (r: string)
    ensures |r| <= |s|
  {
    if s != [] && IsSpaceChar(s[0]) then StripLeft(s[1..]) else s
  }

  /** str.rstrip() */
  function StripRight(s: string): (r: string)
    ensures |r| <= |s|
  {
    if s != [] && IsSpaceChar(s[|s| - 1]) then StripRight(s[..|s| - 1]) else s
  }

  /** lstrip() leaves the suffix after the leading whitespace, starting with a
      character that is not whitespace. */
  lemma {:induction false} StripLeftShape(s: string)
    ensures var r := StripLeft(s);
      && |r| <= |s| && r == s[|s| - |r|..] && AllSpace(s[..|s| - |r|])
      && (r == [] || !IsSpaceChar(r[0]))
  {
    if s != [] && IsSpaceChar(s[0]) {
      StripLeftShape(s[1..]);
      var r := StripLeft(s[1..]);
      assert s[..|s| - |r|] == [s[0]] + s[1..][..|s| - 1 - |r|];
    }
  }

  /** rstrip() leaves the prefix before the trailing whitespace, ending with a
      character that is not whitespace. */
  lemma {:induction false} StripRightShape(s: string)
    ensures var r := StripRight(s);
      && |r| <= |s| && r == s[..|r|] && AllSpace(s[|r|..])
      && (r == [] || !IsSpaceChar(r[|r| - 1]))
  {
    if s != [] && IsSpaceChar(s[|s| - 1]) {
      StripRightShape(s[..|s| - 1]);
      var r := StripRight(s[..|s| - 1]);
      assert s[|r|..] == s[..|s| - 1][|r|..] + [s[|s| - 1]];
    }
  }

  /** str.strip() */
  function Strip(s: string): string {
    StripRight(StripLeft(s))
  }

  /** strip() keeps a contiguous middle of the text ... */
  lemma StripSlice(s: string)
    ensures var r := Strip(s); var i := |s| - |StripLeft(s)|;
      i + |r| <= |s| && r == s[i..i + |r|]
  {
    var l := StripLeft(s);
    var r := StripRight(l);
    var i := |s| - |l|;
    StripLeftShape(s);
    StripRightShape(l);
    assert l == s[i..];
    assert r == l[..|r|];
  }

  /** ... removes only whitespace around it ... */
  lemma StripAround(s: string)
    ensures var r := Strip(s); var i := |s| - |StripLeft(s)|;
      i + |r| <= |s| && AllSpace(s[..i]) && AllSpace(s[i + |r|..])
  {
    var l := StripLeft(s);
    var r := StripRight(l);
    var i := |s| - |l|;
    StripLeftShape(s);
    StripRightShape(l);
    assert s[i + |r|..] == l[|r|..];
  }

  /** ... and leaves no whitespace at either end. */
  lemma StripEnds(s: string)
    ensures var r := Strip(s); r == [] || (!IsSpaceChar(r[0]) && !IsSpaceChar(r[|r| - 1]))
  {
    var l := StripLeft(s);
    var r := StripRight(l);
    StripLeftShape(s);
    StripRightShape(l);
    if r != [] {
      assert r[0] == l[0];
    }
  }

  /** Stripping twice is stripping once. */
  lemma StripIdempotent(s: string)
    ensures Strip(Strip(s)) == Strip(s)
  {
    var l := StripLeft(s);
    var r := StripRight(l);
    StripLeftShape(s);
    StripRightShape(l);
    if r != [] {
      assert r[0] == l[0];
    }
    StripLeftNone(r);
    StripRightNone(r);
  }

  lemma StripLeftNone(s: string)
    requires s == [] || !IsSpaceChar(s[0])
    ensures StripLeft(s) == s
  {
  }

  lemma StripRightNone(s: string)
    requires s == [] || !IsSpaceChar(s[|s| - 1])
    ensures StripRight(s) == s
  {
  }

  /** int(text): surrounding whitespace, then an optional sign and ASCII digits. */
  function PyInt(text: string): Option<int> {
    ParseInt(Strip(text))
  }

  /** int() of a run of digits is the number they spell. */
  lemma PyIntOfDigits(s: string)
    requires |s| > 0 && AllDigitChars(s)
    ensures PyInt(s) == Some(CharsValue(s))
  {
    assert !IsSpaceChar(s[0]) && !IsSpaceChar(s[|s| - 1]);
    StripLeftNone(s);
    StripRightNone(s);
    assert Strip(s) == s;
    DigitsOnlyIff(s);
    assert ParseNat(s) == Some(CharsValue(s));
    assert s[0] != '-' && s[0] != '+';
  }

  // ---------------------------------------------------------------------------
  // str.split(',')
  // ---------------------------------------------------------------------------

  /** str.split(sep=','), reading one character at a time: a comma starts a new part,
      any other character extends the last one. */
  function Split(s: string): (parts: seq<string>)
    ensures |parts| >= 1
  {
    if s == [] then [""]
    else
      var init := Split(s[..|s| - 1]);
      var c := s[|s| - 1];
      if c == ',' then init + [""]
      else init[..|init| - 1] + [init[|init| - 1] + [c]]
  }

  /** ','.join(parts) */
  function Join(parts: seq<string>): string
    requires |parts| >= 1
  {
    if |parts| == 1 then parts[0] else Join(parts[..|parts| - 1]) + "," + parts[|parts| - 1]
  }

  predicate NoComma(p: string) {
    forall i :: 0 <= i < |p| ==> p[i] != ','
  }

  predicate AllNoComma(parts: seq<string>) {
    forall j :: 0 <= j < |parts| ==> NoComma(parts[j])
  }

  /** No part holds a comma. */
  lemma {:induction false} SplitNoComma(s: string)
    ensures AllNoComma(Split(s))
  {
    if s != [] {
      var init := Split(s[..|s| - 1]);
      SplitNoComma(s[..|s| - 1]);
      var c := s[|s| - 1];
      var parts := Split(s);
      if c != ',' {
        var last := init[|init| - 1];
        assert NoComma(last);
        forall j | 0 <= j < |parts|
          ensures NoComma(parts[j])
        {
          if j < |parts| - 1 {
            assert parts[j] == init[j];
          }
        }
      } else {
        forall j | 0 <= j < |parts|
          ensures NoComma(parts[j])
        {
          if j < |parts| - 1 {
            assert parts[j] == init[j];
          }
        }
      }
    }
  }

  /** Splitting text with one more character: a comma opens a new part, any other
      character extends the last part. */
  lemma SplitSnoc(s0: string, c: char)
    ensures var p := Split(s0);
      Split(s0 + [c]) == if c == ',' then p + [""] else p[..|p| - 1] + [p[|p| - 1] + [c]]
  {
    assert (s0 + [c])[..|s0|] == s0;
  }

  /** Joining the parts gives the text back. */
  lemma {:induction false} SplitJoin(s: string)
    ensures Join(Split(s)) == s
  {
    if s != [] {
      var s0 := s[..|s| - 1];
      var c := s[|s| - 1];
      assert s == s0 + [c];
      SplitJoin(s0);
      SplitSnoc(s0, c);
      JoinSnoc(Split(s0), c);
    }
  }

  /** Joining after one more character of text. */
  lemma JoinSnoc(p: seq<string>, c: char)
    requires |p| >= 1
    ensures c == ',' ==> Join(p + [""]) == Join(p) + [c]
    ensures c != ',' ==> Join(p[..|p| - 1] + [p[|p| - 1] + [c]]) == Join(p) + [c]
  {
    if c == ',' {
      assert (p + [""])[..|p|] == p;
    } else if |p| == 1 {
    } else {
      JoinLastExtended(p, c);
    }
  }

  lemma JoinLastExtended(init: seq<string>, c: char)
    requires |init| > 1
    ensures Join(init[..|init| - 1] + [init[|init| - 1] + [c]]) == Join(init) + [c]
  {
    var parts := init[..|init| - 1] + [init[|init| - 1] + [c]];
    assert parts[..|parts| - 1] == init[..|init| - 1];
  }

  /** Text without a comma only extends the last part. */
  lemma {:induction false} SplitAppendNoComma(s: string, t: string)
    requires NoComma(t)
    ensures var p := Split(s); Split(s + t) == p[..|p| - 1] + [p[|p| - 1] + t]
    decreases |t|
  {
    var p := Split(s);
    if t == [] {
      assert s + t == s;
      assert p[|p| - 1] + t == p[|p| - 1];
      assert p[..|p| - 1] + [p[|p| - 1] + t] == p;
    } else {
      var t0 := t[..|t| - 1];
      assert NoComma(t0);
      SplitAppendNoComma(s, t0);
      assert (s + t)[..|s + t| - 1] == s + t0;
      assert (p[|p| - 1] + t0) + [t[|t| - 1]] == p[|p| - 1] + t;
    }
  }

  /** Splitting the joined parts gives them back, when no part holds a comma. */
  lemma {:induction false} JoinSplit(parts: seq<string>)
    requires |parts| >= 1 && AllNoComma(parts)
    ensures Split(Join(parts)) == parts
  {
    var last := parts[|parts| - 1];
    if |parts| == 1 {
      SplitAppendNoComma("", last);
      assert "" + last == last;
    } else {
      var init := parts[..|parts| - 1];
      JoinSplit(init);
      var j := Join(init);
      assert (j + ",")[..|j + ","| - 1] == j;
      SplitAppendNoComma(j + ",", last);
      assert Join(parts) == (j + ",") + last;
      assert Split(j + ",") == init + [""];
      assert "" + last == last;
    }
  }

  // ---------------------------------------------------------------------------
  // Slicing and replacing
  // ---------------------------------------------------------------------------

  /** A slice bound as Python reads it: a negative bound counts from the end, and the
      bound is then clamped to the text. */
  function Clamp(i: int, n: nat): nat {
    if i < 0 then (if i + n < 0 then 0 else i + n) else if i > n then n else i
  }

  /** s[lo:hi] */
  function Slice(s: string, lo: int, hi: int): string {
    var a := Clamp(lo, |s|);
    var b := Clamp(hi, |s|);
    if a < b then s[a..b] else ""
  }

  /** A slice is a run of consecutive characters of the text; with bounds inside the text
      it is exactly the characters between them. */
  lemma SliceProperties(s: string, lo: int, hi: int)
    ensures var a := Clamp(lo, |s|);
      && |Slice(s, lo, hi)| <= |s| - a
      && Slice(s, lo, hi) == s[a..a + |Slice(s, lo, hi)|]
    ensures 0 <= lo <= hi <= |s| ==> Slice(s, lo, hi) == s[lo..hi] && |Slice(s, lo, hi)| == hi - lo
    ensures 0 <= lo <= |s| ==> Slice(s, lo, |s|) == s[lo..]
    ensures hi <= lo && (lo < 0) == (hi < 0) ==> Slice(s, lo, hi) == ""
  {
  }

  /** s.replace(a, b) for single characters. */
  function Replace(s: string, a: char, b: char): string {
    seq(|s|, i requires 0 <= i < |s| => if s[i] == a then b else s[i])
  }
}

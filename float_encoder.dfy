/** FormattedFloatEncoder (tools/round_compact.py): a FormattedFloat goes into the JSON text
    as the quoted string of its repr, and apply_formatting then strips the quotes and the
    wrapper so that the chosen literal appears verbatim. */
module FloatEncoder {
  import opened Outcomes
  import opened DecimalText
  import opened RoundCompact

  /** The fixed start of the pattern "FormattedFloat\(([^)]+)\)" */
  const Opening: string := "\"FormattedFloat("

  /** The fixed end of the pattern. */
  const Closing: string := ")\""

  /** The pattern matches the first n characters of s: the opening, one or more characters
      other than ')', and the closing. */
  predicate MatchesAt(s: string, n: nat) {
    && |Opening| + |Closing| + 1 <= n <= |s|
    && s[..|Opening|] == Opening
    && s[n - |Closing|..n] == Closing
    && forall i :: |Opening| <= i < n - |Closing| ==> s[i] != ')'
  }

  /** The number of characters before the first ')' of s (all of s when there is none):
      what the greedy [^)]+ consumes. */
  function UntilClose(s: string): (k: nat)
    ensures k <= |s|
  {
    if s == [] || s[0] == ')' then 0 else 1 + UntilClose(s[1..])
  }

  /** UntilClose stops at the first ')'. */
  lemma {:induction false} UntilCloseStops(s: string)
    ensures forall i :: 0 <= i < UntilClose(s) ==> s[i] != ')'
    ensures UntilClose(s) < |s| ==> s[UntilClose(s)] == ')'
  {
    if s != [] && s[0] != ')' {
      UntilCloseStops(s[1..]);
      forall i | 0 < i < UntilClose(s)
        ensures s[i] != ')'
      {
        assert s[i] == s[1..][i - 1];
      }
    }
  }

  /** The length of the pattern's match at the start of s, if it matches there. */
  function MatchLength(s: string): (m: Option<nat>)
    ensures m.Some? ==> |Opening| + |Closing| < m.value <= |s|
  {
    if |s| >= |Opening| && s[..|Opening|] == Opening then
      var k := UntilClose(s[|Opening|..]);
      if k >= 1 && |Opening| + k + 1 < |s| && s[|Opening| + k + 1] == '"' then Some(|Opening| + k + 2) else None
    else None
  }

  /** MatchLength finds the match exactly when there is one, and there is at most one. */
  lemma MatchLengthIff(s: string, n: nat)
    ensures MatchLength(s) == Some(n) <==> MatchesAt(s, n)
  {
    if MatchesAt(s, n) {
      var body := s[|Opening|..];
      var k := UntilClose(body);
      UntilCloseStops(body);
      assert s[n - 2] == ')' by {
        assert s[n - |Closing|..n][0] == s[n - 2];
      }
      assert body[n - 2 - |Opening|] == ')';
      assert k == n - 2 - |Opening|;
      assert s[n - 1] == '"' by {
        assert s[n - |Closing|..n][1] == s[n - 1];
      }
    }
    if MatchLength(s) == Some(n) {
      var body := s[|Opening|..];
      var k := UntilClose(body);
      UntilCloseStops(body);
      assert n == |Opening| + k + 2;
      assert body[k] == ')';
      assert s[n - |Closing|..n] == [s[n - 2], s[n - 1]];
      forall i | |Opening| <= i < n - |Closing|
        ensures s[i] != ')'
      {
        assert body[i - |Opening|] == s[i];
      }
    }
  }

  /** apply_formatting: re.sub scans s from the left; where the pattern matches, the text
      inside the parentheses replaces the match and the scan resumes after it; any other
      character is copied. */
  function ApplyFormatting(s: string): string
    decreases |s|
  {
    match MatchLength(s)
    case Some(n) => s[|Opening|..n - |Closing|] + ApplyFormatting(s[n..])
    case None => if s == [] then [] else [s[0]] + ApplyFormatting(s[1..])
  }

  // ---------------------------------------------------------------------------
  // JSON text with FormattedFloat values in it
  // ---------------------------------------------------------------------------

  /** A piece of the text json.dumps writes: ordinary JSON text, or a FormattedFloat, which
      the encoder's default() turns into the string of its repr. */
  datatype Piece = Text(text: string) | Float(value: FormattedFloat)

  /** What json.dumps writes for a piece: a FormattedFloat as "FormattedFloat(<as_str>)"
      with the quotes of a JSON string (a literal's characters need no escaping). */
  function Encoded(p: Piece): string {
    match p
    case Text(t) => t
    case Float(f) => "\"" + f.Repr() + "\""
  }

  function Encode(ps: seq<Piece>): string
  {
    if ps == [] then [] else Encoded(ps[0]) + Encode(ps[1..])
  }

  /** What the text should read after formatting: each FormattedFloat as its own text. */
  function Decoded(p: Piece): string {
    match p
    case Text(t) => t
    case Float(f) => f.asStr
  }

  function Decode(ps: seq<Piece>): string
  {
    if ps == [] then [] else Decoded(ps[0]) + Decode(ps[1..])
  }

  /** Ordinary text without '(' (so that the pattern cannot start inside it), and floats
      whose text is a literal float() accepts. */
  predicate WellFormed(p: Piece) {
    match p
    case Text(t) => forall i :: 0 <= i < |t| ==> t[i] != '('
    case Float(f) => |f.asStr| >= 1 && forall i :: 0 <= i < |f.asStr| ==> LiteralChar(f.asStr[i])
  }

  /** Every FormattedFloat the constructor builds can be written into the JSON text. */
  lemma ConstructedIsWellFormed(s: string)
    requires NewFormattedFloat(s).Ok?
    ensures NewFormattedFloat(s).value.asStr == s
    ensures WellFormed(Float(NewFormattedFloat(s).value))
  {
    LiteralChars(s);
  }

  /** No piece has '(' among its first |Opening| - 1 characters. */
  lemma NoEarlyParenIn(p: Piece)
    requires WellFormed(p)
    ensures forall q :: 0 <= q < |Encoded(p)| && q < |Opening| - 1 ==> Encoded(p)[q] != '('
  {
    if p.Float? {
      EncodedFloat(p.value);
      assert Encoded(p)[..|Opening|] == Opening;
      forall q | 0 <= q < |Opening| - 1
        ensures Encoded(p)[q] != '('
      {
        assert Encoded(p)[q] == Opening[q];
      }
    }
  }

  /** The encoded text has no '(' among its first |Opening| - 1 characters. */
  lemma {:induction false} NoEarlyParen(ps: seq<Piece>)
    requires forall j :: 0 <= j < |ps| ==> WellFormed(ps[j])
    ensures forall q :: 0 <= q < |Encode(ps)| && q < |Opening| - 1 ==> Encode(ps)[q] != '('
  {
    if ps != [] {
      NoEarlyParen(ps[1..]);
      NoEarlyParenIn(ps[0]);
      var head, rest := Encoded(ps[0]), Encode(ps[1..]);
      assert Encode(ps) == head + rest;
      forall q | 0 <= q < |Encode(ps)| && q < |Opening| - 1
        ensures Encode(ps)[q] != '('
      {
        if q >= |head| {
          assert Encode(ps)[q] == rest[q - |head|];
        }
      }
    }
  }

  /** The pattern cannot match where its '(' would fall on another character. */
  lemma NoMatchWithout(s: string)
    requires |Opening| - 1 < |s| && s[|Opening| - 1] != '('
    ensures MatchLength(s).None?
  {
  }

  /** The encoder writes a FormattedFloat as the opening, its text and the closing. */
  lemma EncodedFloat(f: FormattedFloat)
    ensures Encoded(Float(f)) == Opening + f.asStr + Closing
  {
    Regroup("\"", "FormattedFloat(", f.asStr, ")");
    assert "\"" + "FormattedFloat(" == Opening;
    assert ")" + "\"" == Closing;
  }

  lemma Regroup(q: string, w: string, a: string, c: string)
    ensures q + (w + a + c) + q == (q + w) + a + (c + q)
  {
  }

  /** A first character that is not the start of a match is copied. */
  lemma CopyFirst(t: string, r: string)
    requires t != [] && forall i :: 0 <= i < |t| ==> t[i] != '('
    requires forall q :: 0 <= q < |r| && q < |Opening| - 1 ==> r[q] != '('
    ensures ApplyFormatting(t + r) == [t[0]] + ApplyFormatting(t[1..] + r)
  {
    var s := t + r;
    var p := |Opening| - 1;
    if p < |s| {
      assert s[p] != '(' by {
        if p < |t| {
          assert s[p] == t[p];
        } else {
          assert s[p] == r[p - |t|];
        }
      }
      NoMatchWithout(s);
    }
    assert s[1..] == t[1..] + r;
  }

  lemma PrependFirst(t: string, whole: string, tail: string, rest: string)
    requires t != [] && whole == [t[0]] + tail && tail == t[1..] + rest
    ensures whole == t + rest
  {
    assert [t[0]] + t[1..] == t;
  }

  /** Text without '(' is copied as it is, when what follows has no '(' early on. */
  lemma {:induction false} CopyText(t: string, r: string)
    requires forall i :: 0 <= i < |t| ==> t[i] != '('
    requires forall q :: 0 <= q < |r| && q < |Opening| - 1 ==> r[q] != '('
    ensures ApplyFormatting(t + r) == t + ApplyFormatting(r)
    decreases |t|
  {
    if t != [] {
      CopyFirst(t, r);
      CopyText(t[1..], r);
      PrependFirst(t, ApplyFormatting(t + r), ApplyFormatting(t[1..] + r), ApplyFormatting(r));
    } else {
      assert t + r == r;
    }
  }

  /** The quoted repr of a FormattedFloat is replaced by its text. */
  lemma Unquote(a: string, r: string)
    requires |a| >= 1 && forall i :: 0 <= i < |a| ==> LiteralChar(a[i])
    ensures ApplyFormatting(Opening + a + Closing + r) == a + ApplyFormatting(r)
  {
    var s := Opening + a + Closing + r;
    var o := |Opening|;
    var n := o + |a| + |Closing|;
    assert s[..o] == Opening;
    assert s[o..n - |Closing|] == a;
    assert s[n - |Closing|..n] == Closing;
    assert s[n..] == r;
    forall i | o <= i < n - |Closing|
      ensures s[i] != ')'
    {
      assert s[i] == a[i - o];
    }
    assert MatchesAt(s, n);
    MatchLengthIff(s, n);
    ApplyAtMatch(s, n);
  }

  /** Where the pattern matches, its inside replaces it. */
  lemma ApplyAtMatch(s: string, n: nat)
    requires MatchLength(s) == Some(n)
    ensures n <= |s| && |Opening| <= n - |Closing|
    ensures ApplyFormatting(s) == s[|Opening|..n - |Closing|] + ApplyFormatting(s[n..])
  {
  }

  /** apply_formatting after json.dumps with the encoder: every FormattedFloat appears as its
      own text and all other text is unchanged. */
  lemma {:induction false} FormattingRoundTrip(ps: seq<Piece>)
    requires forall j :: 0 <= j < |ps| ==> WellFormed(ps[j])
    ensures ApplyFormatting(Encode(ps)) == Decode(ps)
  {
    if ps != [] {
      var rest := Encode(ps[1..]);
      assert forall j :: 0 <= j < |ps[1..]| ==> WellFormed(ps[1..][j]) by {
        forall j | 0 <= j < |ps[1..]|
          ensures WellFormed(ps[1..][j])
        {
          assert ps[1..][j] == ps[j + 1];
        }
      }
      FormattingRoundTrip(ps[1..]);
      match ps[0]
      case Text(t) =>
        NoEarlyParen(ps[1..]);
        CopyText(t, rest);
      case Float(f) =>
        EncodedFloat(f);
        Unquote(f.asStr, rest);
        assert Encode(ps) == Opening + f.asStr + Closing + rest;
    }
  }

  /** Text with no '(' in it is left as it is. */
  lemma UnchangedWithoutParen(s: string)
    requires forall i :: 0 <= i < |s| ==> s[i] != '('
    ensures ApplyFormatting(s) == s
  {
    var empty: string := [];
    assert s + empty == s;
    CopyText(s, empty);
  }

  /** The FormattedFloat of the encoder's documentation. */
  const ExampleFloat: FormattedFloat := FormattedFloat("8.1e6", 8100000.0)

  /** The pieces of [8.1e6, FormattedFloat('8.1e6')] as json.dumps writes them. */
  const ExamplePieces: seq<Piece> := [Text("[8100000.0, "), Float(ExampleFloat), Text("]")]

  lemma ExampleWellFormed()
    ensures forall j :: 0 <= j < |ExamplePieces| ==> WellFormed(ExamplePieces[j])
  {
    var t := ExampleFloat.asStr;
    assert forall i :: 0 <= i < |t| ==> LiteralChar(t[i]);
  }

  lemma ExampleEncoded()
    ensures Encode(ExamplePieces) == "[8100000.0, " + Opening + "8.1e6" + Closing + "]"
  {
    var ps := ExamplePieces;
    EncodedFloat(ExampleFloat);
    assert Encode(ps[2..]) == "]";
    assert Encode(ps[1..]) == Opening + "8.1e6" + Closing + "]";
  }

  lemma ExampleDecoded()
    ensures Decode(ExamplePieces) == "[8100000.0, 8.1e6]"
  {
    var ps := ExamplePieces;
    assert Decode(ps[2..]) == "]";
    assert Decode(ps[1..]) == "8.1e6]";
  }

  /** The example in the encoder's documentation: [8.1e6, FormattedFloat('8.1e6')] is written
      by json.dumps as [8100000.0, "FormattedFloat(8.1e6)"] and formatted as [8100000.0, 8.1e6]. */
  lemma DocumentedExample()
    ensures Encode(ExamplePieces) == "[8100000.0, " + Opening + "8.1e6" + Closing + "]"
    ensures ApplyFormatting(Encode(ExamplePieces)) == "[8100000.0, 8.1e6]"
  {
    ExampleWellFormed();
    FormattingRoundTrip(ExamplePieces);
    ExampleEncoded();
    ExampleDecoded();
  }
}

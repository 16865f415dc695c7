/** fixed_length_reader.py: FixedLengthReader compiles a comma-separated format string
    such as '3,i1,i1,10,12i3,x1,2f18,2f14,f20' into (start, type, length) entries, then cuts
    a fixed-width text line into fields by those entries and converts each field. A part
    that is a bare number moves the current column; any other part is `mfl`: an optional
    multiplicity m, a type letter f (i, f, s, or x for a skipped field) and an optional
    length l. */
module FixedLengthFormat {
  import opened Outcomes
  import opened DecimalText
  import opened PyText

  // ---------------------------------------------------------------------------
  // Field specifications: _parse_field_spec
  // ---------------------------------------------------------------------------

  datatype FieldType = IntField | FloatField | StrField

  /** (multiplicity, field_type, length); a field type None is a skipped field. */
  datatype FieldSpec = FieldSpec(multiplicity: nat, fieldType: Option<FieldType>, length: Option<nat>)

  /** { 'x': None, 'i': int, 'f': float, 's': str }[text] */
  function TypeOf(text: string): Result<Option<FieldType>> {
    if text == "x" then Ok(None)
    else if text == "i" then Ok(Some(IntField))
    else if text == "f" then Ok(Some(FloatField))
    else if text == "s" then Ok(Some(StrField))
    else Err(KeyError)
  }

  /** The letter that names a field type. */
  function TypeLetter(t: Option<FieldType>): string {
    match t
    case None => "x"
    case Some(IntField) => "i"
    case Some(FloatField) => "f"
    case Some(StrField) => "s"
  }

  /** Each type letter names its type. */
  lemma TypeOfLetter(t: Option<FieldType>)
    ensures TypeOf(TypeLetter(t)) == Ok(t)
    ensures |TypeLetter(t)| == 1 && IsAlphaChar(TypeLetter(t)[0])
  {
  }

  /** A part as _parse_field_spec reads it: the leading digits (multiplicity, 1 when
      there are none), the letters after them (the type) and the digits after those (the
      length, None when there are none); whatever follows is ignored. */
  function FieldSpecOf(part: string): Result<FieldSpec> {
    var i := DigitRunEnd(part, 0);
    var k := AlphaRunEnd(part, i);
    var e := DigitRunEnd(part, k);
    match TypeOf(part[i..k])
    case Err(err) => Err(err)
    case Ok(t) =>
      Ok(FieldSpec(if i == 0 then 1 else CharsValue(part[..i]), t,
                   if e == k then None else Some(CharsValue(part[k..e]))))
  }

  /** The grammar m f l: a part made of digits a, letters b, digits c and a rest that
      cannot continue the last run reads as multiplicity a (1 when a is empty), type b and
      length c (None when c is empty). */
  lemma FieldSpecOfParts(a: string, b: string, c: string, rest: string)
    requires AllDigitChars(a) && AllDigitChars(c)
    requires |b| > 0 && forall k :: 0 <= k < |b| ==> IsAlphaChar(b[k])
    requires rest == [] || (!IsDigitChar(rest[0]) && (c == [] ==> !IsAlphaChar(rest[0])))
    ensures FieldSpecOf(a + b + c + rest) ==
      match TypeOf(b)
      case Err(err) => Err(err)
      case Ok(t) =>
        Ok(FieldSpec(if a == [] then 1 else CharsValue(a), t, if c == [] then None else Some(CharsValue(c))))
  {
    var s := a + b + c + rest;
    var i := |a|;
    var k := |a| + |b|;
    var e := k + |c|;
    assert s[..i] == a && s[i..k] == b && s[k..e] == c;
    DigitRunEndAt(s, 0, i);
    AlphaRunEndAt(s, i, k);
    DigitRunEndAt(s, k, e);
  }

  /** Writing a specification out and reading it back gives it again. */
  function SpecText(fs: FieldSpec): string {
    NatToString(fs.multiplicity) + TypeLetter(fs.fieldType)
      + (if fs.length.Some? then NatToString(fs.length.value) else "")
  }

  lemma FieldSpecRoundTrip(fs: FieldSpec)
    ensures FieldSpecOf(SpecText(fs)) == Ok(fs)
  {
    var a := NatToString(fs.multiplicity);
    var b := TypeLetter(fs.fieldType);
    var c := if fs.length.Some? then NatToString(fs.length.value) else "";
    TypeOfLetter(fs.fieldType);
    FieldSpecOfParts(a, b, c, "");
    assert a + b + c + "" == SpecText(fs);
    CharsValueOfNatToString(fs.multiplicity);
    if fs.length.Some? {
      CharsValueOfNatToString(fs.length.value);
    }
  }

  /** Without leading digits the multiplicity is 1, and whatever follows the length is
      ignored. */
  lemma FieldSpecDefaults(t: Option<FieldType>, l: nat, rest: string)
    requires rest == [] || !IsDigitChar(rest[0])
    ensures FieldSpecOf(TypeLetter(t) + NatToString(l) + rest) == Ok(FieldSpec(1, t, Some(l)))
  {
    var b := TypeLetter(t);
    var c := NatToString(l);
    TypeOfLetter(t);
    FieldSpecOfParts("", b, c, rest);
    assert "" + b + c + rest == b + c + rest;
    CharsValueOfNatToString(l);
  }

  /** Whatever letter run follows the leading digits, empty or not, if it is not one of
      x, i, f, s the part raises KeyError. */
  lemma UnknownTypes(part: string)
    requires var i := DigitRunEnd(part, 0); TypeOf(part[i..AlphaRunEnd(part, i)]).Err?
    ensures FieldSpecOf(part) == Err(KeyError)
  {
  }

  /** Two instances: an empty part, and a part with two letters. */
  lemma UnknownTypeExamples()
    ensures FieldSpecOf("") == Err(KeyError)
    ensures FieldSpecOf("ii3") == Err(KeyError)
  {
    assert DigitRunEnd("", 0) == 0 && AlphaRunEnd("", 0) == 0;
    UnknownTypes("");
    FieldSpecOfParts("", "ii", "3", "");
    assert "" + "ii" + "3" + "" == "ii3";
  }

  // ---------------------------------------------------------------------------
  // The format list: _parse_format_string
  // ---------------------------------------------------------------------------

  /** (start_index, field_type, length); the length can be None (read to the end of the
      line) and, computed from the next index, even negative. */
  datatype Entry = Entry(start: int, fieldType: FieldType, length: Option<int>)

  /** format_list and current_index after some of the parts. */
  datatype Compiled = Compiled(entries: seq<Entry>, cur: int)

  /** part.isdigit() */
  predicate IsIndexPart(part: string) {
    |part| > 0 && AllDigitChars(part)
  }

  /** The length of each field of a part: its own, or, for a part without one that has a
      next part, the distance to the index the next part names shared among the m fields. */
  function ImplicitLength(parts: seq<string>, idx: nat, cur: int, fs: FieldSpec): Result<Option<int>>
    requires idx < |parts|
  {
    if fs.length.None? && idx + 1 < |parts| then
      match PyInt(parts[idx + 1])
      case None => Err(ValueError)
      case Some(next) =>
        var total := next - cur;
        if fs.multiplicity == 0 then Err(ZeroDivisionError)
        else if total % fs.multiplicity != 0 then Err(ValueError)
        else Ok(Some(total / fs.multiplicity))
    else if fs.length.Some? then Ok(Some(fs.length.value))
    else Ok(None)
  }

  /** How far one field moves the current index. */
  function Advance(length: Option<int>): int {
    if length.Some? then length.value else 0
  }

  /** The entries of the m fields of a part starting at cur: none for a skipped field. */
  function Expand(cur: int, t: Option<FieldType>, length: Option<int>, m: nat): seq<Entry> {
    if t.None? then []
    else seq(m, j requires 0 <= j < m => Entry(cur + j * Advance(length), t.value, length))
  }

  /** One part of the format string. */
  function CompilePart(parts: seq<string>, idx: nat, st: Compiled): Result<Compiled>
    requires idx < |parts|
  {
    var part := parts[idx];
    if IsIndexPart(part) then Ok(Compiled(st.entries, CharsValue(part)))
    else
      match FieldSpecOf(part)
      case Err(err) => Err(err)
      case Ok(fs) =>
        match ImplicitLength(parts, idx, st.cur, fs)
        case Err(err) => Err(err)
        case Ok(length) =>
          Ok(Compiled(st.entries + Expand(st.cur, fs.fieldType, length, fs.multiplicity),
                      st.cur + fs.multiplicity * Advance(length)))
  }

  /** The first n parts, from index 0 and no entries. */
  function CompileParts(parts: seq<string>, n: nat): Result<Compiled>
    requires n <= |parts|
  {
    if n == 0 then Ok(Compiled([], 0))
    else
      match CompileParts(parts, n - 1)
      case Err(err) => Err(err)
      case Ok(st) => CompilePart(parts, n - 1, st)
  }

  /** _parse_format_string(format_string) */
  function FormatList(formatString: string): Result<seq<Entry>> {
    var parts := Split(formatString);
    match CompileParts(parts, |parts|)
    case Err(err) => Err(err)
    case Ok(c) => Ok(c.entries)
  }

  lemma {:induction false} CompileErrorStays(parts: seq<string>, m: nat, n: nat)
    requires m <= n <= |parts| && CompileParts(parts, m).Err?
    ensures CompileParts(parts, n) == CompileParts(parts, m)
    decreases n
  {
    if m < n {
      CompileErrorStays(parts, m, n - 1);
    }
  }

  /** Entries are only ever appended: the entries after fewer parts are a prefix of the
      entries after more. */
  lemma {:induction false} CompilePrefix(parts: seq<string>, m: nat, n: nat)
    requires m <= n <= |parts| && CompileParts(parts, n).Ok?
    ensures CompileParts(parts, m).Ok?
    ensures var before := CompileParts(parts, m).value.entries;
      var after := CompileParts(parts, n).value.entries;
      |before| <= |after| && before == after[..|before|]
    decreases n
  {
    if m < n {
      CompilePrefix(parts, m, n - 1);
      var before := CompileParts(parts, m).value.entries;
      var mid := CompileParts(parts, n - 1).value.entries;
      var after := CompileParts(parts, n).value.entries;
      assert after[..|mid|] == mid;
      assert mid[..|before|] == before;
    }
  }

  /** The m fields of a typed part lie side by side from cur, each l long, and the part
      ends m * l after cur; a skipped part (x) yields no entry. */
  lemma ExpandLayout(cur: int, t: Option<FieldType>, l: int, m: nat)
    ensures t.None? ==> Expand(cur, t, Some(l), m) == []
    ensures t.Some? ==> |Expand(cur, t, Some(l), m)| == m
    ensures t.Some? && m > 0 ==> Expand(cur, t, Some(l), m)[0].start == cur
    ensures t.Some? ==> forall j :: 0 <= j < m ==>
      Expand(cur, t, Some(l), m)[j] == Entry(cur + j * l, t.value, Some(l))
    ensures t.Some? ==> forall j :: 0 <= j < m - 1 ==>
      Expand(cur, t, Some(l), m)[j].start + l == Expand(cur, t, Some(l), m)[j + 1].start
    ensures t.Some? && m > 0 ==> Expand(cur, t, Some(l), m)[m - 1].start + l == cur + m * l
  {
    assert Advance(Some(l)) == l;
    if t.Some? && m > 0 {
      assert (m - 1) * l + l == m * l;
    }
  }

  /** A part without a length that is followed by another part takes the length that
      makes its fields end exactly at the index the next part names. */
  lemma ImplicitFillsToNext(parts: seq<string>, idx: nat, st: Compiled)
    requires idx + 1 < |parts| && !IsIndexPart(parts[idx])
    requires FieldSpecOf(parts[idx]).Ok? && FieldSpecOf(parts[idx]).value.length.None?
    requires CompilePart(parts, idx, st).Ok?
    ensures PyInt(parts[idx + 1]).Some?
    ensures CompilePart(parts, idx, st).value.cur == PyInt(parts[idx + 1]).value
  {
    var fs := FieldSpecOf(parts[idx]).value;
    var next := PyInt(parts[idx + 1]).value;
    var m := fs.multiplicity;
    var total := next - st.cur;
    assert m * (total / m) == total;
  }

  /** The implicit length fails exactly when the next part is not an integer (ValueError),
      the multiplicity is 0 (ZeroDivisionError) or does not divide the distance
      (ValueError). */
  lemma ImplicitLengthFails(parts: seq<string>, idx: nat, cur: int, fs: FieldSpec)
    requires idx + 1 < |parts| && fs.length.None?
    ensures var r := ImplicitLength(parts, idx, cur, fs); var next := PyInt(parts[idx + 1]);
      && (next.None? ==> r == Err(ValueError))
      && (next.Some? && fs.multiplicity == 0 ==> r == Err(ZeroDivisionError))
      && (next.Some? && fs.multiplicity > 0 && (next.value - cur) % fs.multiplicity != 0 ==> r == Err(ValueError))
      && (next.Some? && fs.multiplicity > 0 && (next.value - cur) % fs.multiplicity == 0 ==>
            r == Ok(Some((next.value - cur) / fs.multiplicity)))
  {
  }

  /** A bare index moves the current column and adds no entry; an empty part (as after a
      trailing comma) raises KeyError. */
  lemma IndexAndEmptyParts(parts: seq<string>, idx: nat, st: Compiled)
    requires idx < |parts|
    ensures IsIndexPart(parts[idx]) ==>
      PyInt(parts[idx]) == Some(CharsValue(parts[idx]))
      && CompilePart(parts, idx, st) == Ok(Compiled(st.entries, CharsValue(parts[idx])))
    ensures parts[idx] == "" ==> CompilePart(parts, idx, st) == Err(KeyError)
  {
    if IsIndexPart(parts[idx]) {
      PyIntOfDigits(parts[idx]);
    }
    if parts[idx] == "" {
      UnknownTypeExamples();
    }
  }

  // ---------------------------------------------------------------------------
  // The format of the class documentation
  // ---------------------------------------------------------------------------

  const DocFormat: string := "3,i1,i1,10,12i3,x1,2f18,2f14,f20"
  const DocParts: seq<string> := ["3", "i1", "i1", "10", "12i3", "x1", "2f18", "2f14", "f20"]

  lemma DocSplit()
    ensures Split(DocFormat) == DocParts
  {
    assert AllNoComma(DocParts) by {
      forall j | 0 <= j < |DocParts|
        ensures NoComma(DocParts[j])
      {
      }
    }
    JoinSplit(DocParts);
    DocJoin(DocParts);
  }

  /** ','.join of the documented parts is the documented format. */
  lemma DocJoin(p: seq<string>)
    requires DocShaped(p)
    ensures Join(p) == DocFormat
  {
    assert Join(p[..1]) == "3";
    assert Join(p[..2]) == "3,i1" by { assert p[..2][..1] == p[..1]; }
    assert Join(p[..3]) == "3,i1,i1" by { assert p[..3][..2] == p[..2]; }
    assert Join(p[..4]) == "3,i1,i1,10" by { assert p[..4][..3] == p[..3]; }
    assert Join(p[..5]) == "3,i1,i1,10,12i3" by { assert p[..5][..4] == p[..4]; }
    assert Join(p[..6]) == "3,i1,i1,10,12i3,x1" by { assert p[..6][..5] == p[..5]; }
    assert Join(p[..7]) == "3,i1,i1,10,12i3,x1,2f18" by { assert p[..7][..6] == p[..6]; }
    assert Join(p[..8]) == "3,i1,i1,10,12i3,x1,2f18,2f14" by { assert p[..8][..7] == p[..7]; }
    assert p[..8] == p[..|p| - 1];
  }

  /** A field part with its own length appends its fields at the current index and
      moves past them. */
  lemma ExplicitPart(parts: seq<string>, idx: nat, st: Compiled, fs: FieldSpec)
    requires idx < |parts| && !IsIndexPart(parts[idx])
    requires FieldSpecOf(parts[idx]) == Ok(fs) && fs.length.Some?
    ensures CompilePart(parts, idx, st) ==
      Ok(Compiled(st.entries + Expand(st.cur, fs.fieldType, Some(fs.length.value), fs.multiplicity),
                  st.cur + fs.multiplicity * fs.length.value))
  {
    assert ImplicitLength(parts, idx, st.cur, fs) == Ok(Some(fs.length.value));
  }

  /** One explicit-length field part of the documented format, read by the m f l
      grammar. */
  lemma TypedPart(parts: seq<string>, idx: nat, st: Compiled, a: string, b: string, c: string, fs: FieldSpec)
    requires idx < |parts| && parts[idx] == a + b + c
    requires AllDigitChars(a) && AllDigitChars(c) && |c| > 0
    requires |b| > 0 && forall k :: 0 <= k < |b| ==> IsAlphaChar(b[k])
    requires TypeOf(b) == Ok(fs.fieldType) && fs.length == Some(CharsValue(c))
    requires fs.multiplicity == if a == [] then 1 else CharsValue(a)
    ensures CompilePart(parts, idx, st) ==
      Ok(Compiled(st.entries + Expand(st.cur, fs.fieldType, fs.length, fs.multiplicity),
                  st.cur + fs.multiplicity * fs.length.value))
  {
    FieldSpecOfParts(a, b, c, "");
    assert a + b + c + "" == parts[idx];
    assert !IsIndexPart(parts[idx]) by {
      assert parts[idx][|a|] == b[0];
    }
    ExplicitPart(parts, idx, st, fs);
  }

  /** A part that fails makes the whole format string fail with its error. */
  lemma PartFails(parts: seq<string>, n: nat, st: Compiled, e: PyError)
    requires n < |parts| && CompileParts(parts, n) == Ok(st) && CompilePart(parts, n, st) == Err(e)
    ensures CompileParts(parts, |parts|) == Err(e)
  {
    CompileErrorStays(parts, n + 1, |parts|);
  }

  lemma CompileNext(parts: seq<string>, n: nat, st: Compiled, next: Result<Compiled>)
    requires n < |parts| && CompileParts(parts, n) == Ok(st) && CompilePart(parts, n, st) == next
    ensures CompileParts(parts, n + 1) == next
  {
  }

  lemma OneDigit(c: char)
    requires IsDigitChar(c)
    ensures CharsValue([c]) == c as int - '0' as int
  {
    assert [c][..0] == [];
  }

  lemma TwoDigits(c: char, d: char)
    requires IsDigitChar(c) && IsDigitChar(d)
    ensures CharsValue([c, d]) == 10 * (c as int - '0' as int) + (d as int - '0' as int)
  {
    assert [c, d][..1] == [c];
    OneDigit(c);
  }

  /** The parts of the documented format. */
  predicate DocShaped(p: seq<string>) {
    |p| == 9 && p[0] == "3" && p[1] == "i1" && p[2] == "i1" && p[3] == "10" && p[4] == "12i3"
    && p[5] == "x1" && p[6] == "2f18" && p[7] == "2f14" && p[8] == "f20"
  }

  /** The format of the class documentation compiles to 19 entries: two ints at 3 and 4,
      twelve ints 3 wide from 10, then two floats 18 wide from 47 (after one skipped
      column), two 14 wide from 83 and one 20 wide at 111. */
  lemma DocFormatList()
    ensures FormatList(DocFormat) == Ok(DocEntries)
  {
    DocSplit();
    DocPartsList(DocParts);
  }

  const DocEntries: seq<Entry> :=
    [Entry(3, IntField, Some(1)), Entry(4, IntField, Some(1))]
    + Expand(10, Some(IntField), Some(3), 12)
    + Expand(47, Some(FloatField), Some(18), 2)
    + Expand(83, Some(FloatField), Some(14), 2)
    + [Entry(111, FloatField, Some(20))]

  lemma DocPartsList(p: seq<string>)
    requires DocShaped(p)
    ensures CompileParts(p, 9).Ok? && CompileParts(p, 9).value.entries == DocEntries
  {
    var s4 := DocFormatHead(p);
    var s6 := DocFormatMiddle(p, s4);
    var s7 := DocFloats18(p, s6);
    var s8 := DocFloats14(p, s7);
    DocFormatLast(p, s8);
  }

  lemma DocFormatFirst(p: seq<string>) returns (s2: Compiled)
    requires DocShaped(p)
    ensures s2 == Compiled([Entry(3, IntField, Some(1))], 4)
    ensures CompileParts(p, 2) == Ok(s2)
  {
    var s0 := Compiled([], 0);
    IndexAndEmptyParts(p, 0, s0);
    OneDigit('3');
    var s1 := Compiled([], 3);
    CompileNext(p, 0, s0, Ok(s1));
    var e1 := Entry(3, IntField, Some(1));
    OneDigit('1');
    TypedPart(p, 1, s1, "", "i", "1", FieldSpec(1, Some(IntField), Some(1)));
    assert Expand(3, Some(IntField), Some(1), 1) == [e1];
    s2 := Compiled([e1], 4);
    assert s1.entries + [e1] == [e1];
    CompileNext(p, 1, s1, Ok(s2));
  }

  lemma DocFormatHead(p: seq<string>) returns (s4: Compiled)
    requires DocShaped(p)
    ensures s4 == Compiled([Entry(3, IntField, Some(1)), Entry(4, IntField, Some(1))], 10)
    ensures CompileParts(p, 4) == Ok(s4)
  {
    var s2 := DocFormatFirst(p);
    var e1 := Entry(3, IntField, Some(1));
    var e2 := Entry(4, IntField, Some(1));
    OneDigit('1');
    TypedPart(p, 2, s2, "", "i", "1", FieldSpec(1, Some(IntField), Some(1)));
    assert Expand(4, Some(IntField), Some(1), 1) == [e2];
    var s3 := Compiled([e1, e2], 5);
    assert [e1] + [e2] == [e1, e2];
    CompileNext(p, 2, s2, Ok(s3));
    IndexAndEmptyParts(p, 3, s3);
    TwoDigits('1', '0');
    s4 := s3.(cur := 10);
    CompileNext(p, 3, s3, Ok(s4));
  }

  lemma DocFormatMiddle(p: seq<string>, s4: Compiled) returns (s6: Compiled)
    requires DocShaped(p) && CompileParts(p, 4) == Ok(s4) && s4.cur == 10
    ensures s6 == Compiled(s4.entries + Expand(10, Some(IntField), Some(3), 12), 47)
    ensures CompileParts(p, 6) == Ok(s6)
  {
    TwoDigits('1', '2'); OneDigit('3'); OneDigit('1');
    TypedPart(p, 4, s4, "12", "i", "3", FieldSpec(12, Some(IntField), Some(3)));
    var s5 := Compiled(s4.entries + Expand(10, Some(IntField), Some(3), 12), 46);
    CompileNext(p, 4, s4, Ok(s5));
    TypedPart(p, 5, s5, "", "x", "1", FieldSpec(1, None, Some(1)));
    assert s5.entries + Expand(46, None, Some(1), 1) == s5.entries;
    s6 := s5.(cur := 47);
    CompileNext(p, 5, s5, Ok(s6));
  }

  lemma DocFloats18(p: seq<string>, s6: Compiled) returns (s7: Compiled)
    requires DocShaped(p) && CompileParts(p, 6) == Ok(s6) && s6.cur == 47
    ensures s7 == Compiled(s6.entries + Expand(47, Some(FloatField), Some(18), 2), 83)
    ensures CompileParts(p, 7) == Ok(s7)
  {
    OneDigit('2'); TwoDigits('1', '8');
    TypedPart(p, 6, s6, "2", "f", "18", FieldSpec(2, Some(FloatField), Some(18)));
    s7 := Compiled(s6.entries + Expand(47, Some(FloatField), Some(18), 2), 83);
    CompileNext(p, 6, s6, Ok(s7));
  }

  lemma DocFloats14(p: seq<string>, s7: Compiled) returns (s8: Compiled)
    requires DocShaped(p) && CompileParts(p, 7) == Ok(s7) && s7.cur == 83
    ensures s8 == Compiled(s7.entries + Expand(83, Some(FloatField), Some(14), 2), 111)
    ensures CompileParts(p, 8) == Ok(s8)
  {
    OneDigit('2'); TwoDigits('1', '4');
    TypedPart(p, 7, s7, "2", "f", "14", FieldSpec(2, Some(FloatField), Some(14)));
    s8 := Compiled(s7.entries + Expand(83, Some(FloatField), Some(14), 2), 111);
    CompileNext(p, 7, s7, Ok(s8));
  }

  lemma DocFormatLast(p: seq<string>, s8: Compiled)
    requires DocShaped(p) && CompileParts(p, 8) == Ok(s8) && s8.cur == 111
    ensures CompileParts(p, 9) == Ok(Compiled(s8.entries + [Entry(111, FloatField, Some(20))], 131))
  {
    TwoDigits('2', '0');
    TypedPart(p, 8, s8, "", "f", "20", FieldSpec(1, Some(FloatField), Some(20)));
    assert Expand(111, Some(FloatField), Some(20), 1) == [Entry(111, FloatField, Some(20))];
    CompileNext(p, 8, s8, Ok(Compiled(s8.entries + [Entry(111, FloatField, Some(20))], 131)));
  }

  /** So the documented format has 19 entries, the first an int at column 3 and the last
      a float 20 wide at column 111. */
  lemma DocFormatShape()
    ensures FormatList(DocFormat).Ok?
    ensures var l := FormatList(DocFormat).value;
      |l| == 19 && l[0] == Entry(3, IntField, Some(1)) && l[18] == Entry(111, FloatField, Some(20))
  {
    DocFormatList();
    var l := DocEntries;
    assert |Expand(10, Some(IntField), Some(3), 12)| == 12;
    assert |Expand(47, Some(FloatField), Some(18), 2)| == 2;
    assert |Expand(83, Some(FloatField), Some(14), 2)| == 2;
    assert l[18] == Entry(111, FloatField, Some(20));
  }

  // ---------------------------------------------------------------------------
  // Reading a line: read
  // ---------------------------------------------------------------------------

  datatype FieldValue = IntValue(i: int) | FloatValue(f: real) | StrValue(s: string)

  /** float() on the stripped text of a field, None where Python raises ValueError;
      int() is PyInt. */
  datatype Converters = Converters(toFloat: string -> Option<real>)

  /** line[start:start+length], or line[start:] when the length is None. */
  function FieldText(line: string, e: Entry): string {
    if e.length.Some? then Slice(line, e.start, e.start + e.length.value)
    else Slice(line, e.start, |line|)
  }

  /** Fortran's exponent letter d or D becomes e. */
  function FloatText(s: string): string {
    Replace(Replace(s, 'd', 'e'), 'D', 'e')
  }

  /** One field's value. */
  function Convert(t: FieldType, text: string, stripStrings: bool, conv: Converters): Result<FieldValue> {
    match t
    case StrField => Ok(StrValue(if stripStrings then Strip(text) else text))
    case FloatField =>
      (match conv.toFloat(FloatText(Strip(text)))
       case None => Err(ValueError)
       case Some(v) => Ok(FloatValue(v)))
    case IntField =>
      (match PyInt(Strip(text))
       case None => Err(ValueError)
       case Some(v) => Ok(IntValue(v)))
  }

  /** The value of one entry's field of the line. */
  function ValueOf(e: Entry, line: string, stripStrings: bool, conv: Converters): Result<FieldValue> {
    Convert(e.fieldType, FieldText(line, e), stripStrings, conv)
  }

  /** The value of every entry's field of the line, each on its own. */
  function Values(entries: seq<Entry>, line: string, stripStrings: bool, conv: Converters): (rs: seq<Result<FieldValue>>)
    ensures |rs| == |entries|
  {
    if entries == [] then []
    else [ValueOf(entries[0], line, stripStrings, conv)] + Values(entries[1..], line, stripStrings, conv)
  }

  lemma {:induction false} ValuesAt(entries: seq<Entry>, line: string, stripStrings: bool, conv: Converters)
    ensures forall i :: 0 <= i < |entries| ==>
      Values(entries, line, stripStrings, conv)[i] == ValueOf(entries[i], line, stripStrings, conv)
  {
    if entries != [] {
      ValuesAt(entries[1..], line, stripStrings, conv);
      var rs := Values(entries, line, stripStrings, conv);
      forall i | 1 <= i < |entries|
        ensures rs[i] == ValueOf(entries[i], line, stripStrings, conv)
      {
        assert rs[i] == Values(entries[1..], line, stripStrings, conv)[i - 1];
        assert entries[i] == entries[1..][i - 1];
      }
    }
  }

  /** The value of the n-th entry's field on its own. */
  lemma ValueAt(entries: seq<Entry>, line: string, stripStrings: bool, conv: Converters, n: nat)
    requires n < |entries|
    ensures Values(entries, line, stripStrings, conv)[n] == ValueOf(entries[n], line, stripStrings, conv)
  {
    ValuesAt(entries, line, stripStrings, conv);
  }

  /** The first n results gathered in order; the first error stops the gathering. */
  function Collect(rs: seq<Result<FieldValue>>, n: nat): Result<seq<FieldValue>>
    requires n <= |rs|
  {
    if n == 0 then Ok([])
    else
      match Collect(rs, n - 1)
      case Err(err) => Err(err)
      case Ok(vs) =>
        match rs[n - 1]
        case Err(err) => Err(err)
        case Ok(v) => Ok(vs + [v])
  }

  /** read(line, strip_strings): the values of all fields, or the first error. */
  function ReadSpec(entries: seq<Entry>, line: string, stripStrings: bool, conv: Converters): Result<seq<FieldValue>> {
    Collect(Values(entries, line, stripStrings, conv), |entries|)
  }

  lemma {:induction false} CollectErrorStays(rs: seq<Result<FieldValue>>, m: nat, n: nat)
    requires m <= n <= |rs| && Collect(rs, m).Err?
    ensures Collect(rs, n) == Collect(rs, m)
    decreases n
  {
    if m < n {
      CollectErrorStays(rs, m, n - 1);
    }
  }

  lemma CollectNext(rs: seq<Result<FieldValue>>, n: nat, vs: seq<FieldValue>)
    requires n < |rs| && Collect(rs, n) == Ok(vs)
    ensures Collect(rs, n + 1) == if rs[n].Ok? then Ok(vs + [rs[n].value]) else Err(rs[n].error)
  {
  }

  /** One more result: a value extends the gathered values, an error is the outcome. */
  lemma CollectStep(rs: seq<Result<FieldValue>>, n: nat, vs: seq<FieldValue>, value: Result<FieldValue>)
    requires n < |rs| && Collect(rs, n) == Ok(vs) && value == rs[n]
    ensures value.Ok? ==> Collect(rs, n + 1) == Ok(vs + [value.value])
    ensures value.Err? ==> Collect(rs, |rs|) == Err(value.error)
  {
    CollectNext(rs, n, vs);
    if value.Err? {
      CollectErrorStays(rs, n + 1, |rs|);
    }
  }

  /** Gathering succeeds exactly when each of the first n results is a value; an error
      is the error of one of them. */
  lemma {:induction false} CollectOk(rs: seq<Result<FieldValue>>, n: nat)
    requires n <= |rs|
    ensures Collect(rs, n).Ok? <==> forall i :: 0 <= i < n ==> rs[i].Ok?
    ensures Collect(rs, n).Err? ==> exists i :: 0 <= i < n && rs[i] == Err(Collect(rs, n).error)
  {
    if n > 0 {
      CollectOk(rs, n - 1);
      if Collect(rs, n - 1).Err? {
        var i :| 0 <= i < n - 1 && rs[i] == Err(Collect(rs, n - 1).error);
        assert 0 <= i < n;
      }
    }
  }

  /** A successful gathering holds the n values in order. */
  lemma {:induction false} CollectValues(rs: seq<Result<FieldValue>>, n: nat)
    requires n <= |rs| && Collect(rs, n).Ok?
    ensures |Collect(rs, n).value| == n
    ensures forall i :: 0 <= i < n ==> rs[i] == Ok(Collect(rs, n).value[i])
  {
    if n > 0 {
      CollectValues(rs, n - 1);
      var prev := Collect(rs, n - 1).value;
      var vs := Collect(rs, n).value;
      assert vs == prev + [rs[n - 1].value];
      forall i | 0 <= i < n
        ensures rs[i] == Ok(vs[i])
      {
        if i < n - 1 {
          assert vs[i] == prev[i];
        }
      }
    }
  }

  /** A value of the entry's type. */
  predicate OfType(t: FieldType, v: FieldValue) {
    match t
    case IntField => v.IntValue?
    case FloatField => v.FloatValue?
    case StrField => v.StrValue?
  }

  /** A field's value has the entry's type; a field that does not convert is a
      ValueError. */
  lemma ValueOfType(e: Entry, line: string, stripStrings: bool, conv: Converters)
    ensures var r := ValueOf(e, line, stripStrings, conv);
      (r.Ok? ==> OfType(e.fieldType, r.value)) && (r.Err? ==> r.error == ValueError)
  {
  }

  /** read succeeds exactly when every field converts, and a failure is a ValueError. */
  lemma ReadOk(entries: seq<Entry>, line: string, stripStrings: bool, conv: Converters)
    ensures var r := ReadSpec(entries, line, stripStrings, conv);
      && (r.Ok? <==> forall i :: 0 <= i < |entries| ==> ValueOf(entries[i], line, stripStrings, conv).Ok?)
      && (r.Err? ==> r.error == ValueError)
  {
    var rs := Values(entries, line, stripStrings, conv);
    assert ReadSpec(entries, line, stripStrings, conv) == Collect(rs, |entries|);
    ValuesAt(entries, line, stripStrings, conv);
    CollectOk(rs, |entries|);
    if Collect(rs, |entries|).Err? {
      var i :| 0 <= i < |entries| && rs[i] == Err(Collect(rs, |entries|).error);
      ValueOfType(entries[i], line, stripStrings, conv);
    }
  }

  /** When read succeeds it returns one value per entry, in format order, each the value
      of that entry's field, and so of the entry's type. */
  lemma ReadValues(entries: seq<Entry>, line: string, stripStrings: bool, conv: Converters)
    requires ReadSpec(entries, line, stripStrings, conv).Ok?
    ensures var vs := ReadSpec(entries, line, stripStrings, conv).value;
      && |vs| == |entries|
      && (forall i :: 0 <= i < |entries| ==> ValueOf(entries[i], line, stripStrings, conv) == Ok(vs[i]))
      && (forall i :: 0 <= i < |entries| ==> OfType(entries[i].fieldType, vs[i]))
  {
    var rs := Values(entries, line, stripStrings, conv);
    assert ReadSpec(entries, line, stripStrings, conv) == Collect(rs, |entries|);
    ValuesAt(entries, line, stripStrings, conv);
    CollectValues(rs, |entries|);
    forall i | 0 <= i < |entries|
      ensures OfType(entries[i].fieldType, ValueOf(entries[i], line, stripStrings, conv).value)
    {
      ValueOfType(entries[i], line, stripStrings, conv);
    }
  }

  /** A string field is its text, stripped exactly when strip_strings is set; a float
      field is converted from its stripped text with d and D made e; an int field is int()
      of its stripped text, the number it spells when that is all digits. */
  lemma ConvertFields(text: string, stripStrings: bool, conv: Converters)
    ensures Convert(StrField, text, stripStrings, conv) == Ok(StrValue(if stripStrings then Strip(text) else text))
    ensures Convert(FloatField, text, stripStrings, conv).Ok? <==> conv.toFloat(FloatText(Strip(text))).Some?
    ensures Convert(IntField, text, stripStrings, conv).Ok? <==> PyInt(Strip(text)).Some?
    ensures |Strip(text)| > 0 && AllDigitChars(Strip(text)) ==>
      Convert(IntField, text, stripStrings, conv) == Ok(IntValue(CharsValue(Strip(text))))
    ensures |FloatText(text)| == |text|
    ensures forall i :: 0 <= i < |text| ==>
      FloatText(text)[i] == (if text[i] == 'd' || text[i] == 'D' then 'e' else text[i])
  {
    if |Strip(text)| > 0 && AllDigitChars(Strip(text)) {
      PyIntOfDigits(Strip(text));
    }
  }

  /** An entry without a length reads to the end of the line; one whose columns lie in
      the line reads exactly those columns. */
  lemma FieldTextColumns(line: string, e: Entry)
    ensures e.length.None? && 0 <= e.start <= |line| ==> FieldText(line, e) == line[e.start..]
    ensures e.length.Some? && 0 <= e.start && 0 <= e.length.value && e.start + e.length.value <= |line| ==>
      FieldText(line, e) == line[e.start..e.start + e.length.value]
  {
    SliceProperties(line, e.start, if e.length.Some? then e.start + e.length.value else |line|);
  }

  // ---------------------------------------------------------------------------
  // The reader
  // ---------------------------------------------------------------------------

  class FixedLengthReader {
    const formatList: seq<Entry>

    /** A reader over an already compiled format list. */
    constructor FromList(entries: seq<Entry>)
      ensures formatList == entries
    {
      formatList := entries;
    }

    /** FixedLengthReader(format_string): the format string is lower-cased, then
        compiled; a format that does not compile raises. */
    static method Create(formatString: string) returns (r: Result<FixedLengthReader>)
      ensures r.Ok? <==> FormatList(Lower(formatString)).Ok?
      ensures r.Ok? ==> fresh(r.value) && r.value.formatList == FormatList(Lower(formatString)).value
      ensures r.Err? ==> r.error == FormatList(Lower(formatString)).error
    {
      var compiled := ParseFormatString(Lower(formatString));
      if compiled.Err? {
        return Err(compiled.error);
      }
      var reader := new FixedLengthReader.FromList(compiled.value);
      r := Ok(reader);
    }

    /** _parse_field_spec: three loops gather the multiplicity digits, the type letters
        and the length digits. */
    static method ParseFieldSpec(part: string) returns (r: Result<FieldSpec>)
      ensures r == FieldSpecOf(part)
    {
      var multiplicity, i := DigitRun(part, 0);
      var m: nat := if multiplicity != "" then CharsValue(multiplicity) else 1;
      var fieldText, k := AlphaRun(part, i);
      var fieldType := TypeOf(fieldText);
      if fieldType.Err? {
        return Err(fieldType.error);
      }
      var length, e := DigitRun(part, k);
      r := Ok(FieldSpec(m, fieldType.value, if length != "" then Some(CharsValue(length)) else None));
    }

    /** while i < len(part) and part[i].isdigit(): the digits from i, one at a time. */
    static method DigitRun(part: string, start: nat) returns (text: string, i: nat)
      requires start <= |part|
      ensures i == DigitRunEnd(part, start) && text == part[start..i]
    {
      text, i := "", start;
      while i < |part| && IsDigitChar(part[i])
        invariant start <= i <= |part| && text == part[start..i]
        invariant DigitRunEnd(part, i) == DigitRunEnd(part, start)
      {
        assert part[start..i + 1] == part[start..i] + [part[i]];
        text := text + [part[i]];
        i := i + 1;
      }
    }

    /** while i < len(part) and part[i].isalpha(): the letters from i, one at a time. */
    static method AlphaRun(part: string, start: nat) returns (text: string, i: nat)
      requires start <= |part|
      ensures i == AlphaRunEnd(part, start) && text == part[start..i]
    {
      text, i := "", start;
      while i < |part| && IsAlphaChar(part[i])
        invariant start <= i <= |part| && text == part[start..i]
        invariant AlphaRunEnd(part, i) == AlphaRunEnd(part, start)
      {
        assert part[start..i + 1] == part[start..i] + [part[i]];
        text := text + [part[i]];
        i := i + 1;
      }
    }

    /** _parse_format_string: the parts in order, each either moving the current index or
        appending its fields one at a time. */
    static method ParseFormatString(formatString: string) returns (r: Result<seq<Entry>>)
      ensures r == FormatList(formatString)
    {
      var parts := Split(formatString);
      var formatList: seq<Entry> := [];
      var currentIndex := 0;
      for partIndex := 0 to |parts|
        invariant CompileParts(parts, partIndex) == Ok(Compiled(formatList, currentIndex))
      {
        var part := parts[partIndex];
        if IsIndexPart(part) {
          CompileNext(parts, partIndex, Compiled(formatList, currentIndex), Ok(Compiled(formatList, CharsValue(part))));
          currentIndex := CharsValue(part);
          continue;
        }
        var spec := ParseFieldSpec(part);
        if spec.Err? {
          PartFails(parts, partIndex, Compiled(formatList, currentIndex), spec.error);
          return Err(spec.error);
        }
        var fs := spec.value;
        var length := FieldLength(parts, partIndex, currentIndex, fs);
        if length.Err? {
          PartFails(parts, partIndex, Compiled(formatList, currentIndex), length.error);
          return Err(length.error);
        }
        ghost var st := Compiled(formatList, currentIndex);
        formatList, currentIndex := AppendFields(formatList, currentIndex, fs.fieldType, length.value, fs.multiplicity);
        CompileNext(parts, partIndex, st, Ok(Compiled(formatList, currentIndex)));
      }
      r := Ok(formatList);
    }

    /** The length of each field of a part: its own, or the distance to the index the
        next part names divided among the fields. */
    static method FieldLength(parts: seq<string>, partIndex: nat, currentIndex: int, fs: FieldSpec)
      returns (r: Result<Option<int>>)
      requires partIndex < |parts|
      ensures r == ImplicitLength(parts, partIndex, currentIndex, fs)
    {
      var length: Option<int> := if fs.length.Some? then Some(fs.length.value) else None;
      if fs.length.None? && partIndex + 1 < |parts| {
        var next := PyInt(parts[partIndex + 1]);
        if next.None? {
          return Err(ValueError);
        }
        var totalLength := next.value - currentIndex;
        if fs.multiplicity == 0 {
          return Err(ZeroDivisionError);
        }
        if totalLength % fs.multiplicity != 0 {
          return Err(ValueError);
        }
        length := Some(totalLength / fs.multiplicity);
      }
      r := Ok(length);
    }

    /** for _ in range(multiplicity): each field is appended at the current index (unless
        the field is skipped), and the index moves past it (when it has a length). */
    static method AppendFields(formatList: seq<Entry>, currentIndex: int, t: Option<FieldType>, length: Option<int>, m: nat)
      returns (list: seq<Entry>, cur: int)
      ensures list == formatList + Expand(currentIndex, t, length, m)
      ensures cur == currentIndex + m * Advance(length)
    {
      list, cur := formatList, currentIndex;
      for j := 0 to m
        invariant list == formatList + Expand(currentIndex, t, length, j)
        invariant cur == currentIndex + j * Advance(length)
      {
        if t.Some? {
          list := list + [Entry(cur, t.value, length)];
        }
        if length.Some? {
          cur := cur + length.value;
        }
        ExpandSnoc(currentIndex, t, length, j);
        assert (j + 1) * Advance(length) == j * Advance(length) + Advance(length);
      }
    }

    /** One entry's field: its columns of the line, converted by the entry's type. */
    static method ReadField(e: Entry, line: string, stripStrings: bool, conv: Converters) returns (r: Result<FieldValue>)
      ensures r == ValueOf(e, line, stripStrings, conv)
    {
      var substring := if e.length.Some? then Slice(line, e.start, e.start + e.length.value)
                       else Slice(line, e.start, |line|);
      r := ConvertField(e.fieldType, substring, stripStrings, conv);
    }

    /** The value of one field from its text: the text itself (stripped when strip_strings
        is set) for a string, float() or int() of the stripped text otherwise. */
    static method ConvertField(t: FieldType, substring: string, stripStrings: bool, conv: Converters)
      returns (r: Result<FieldValue>)
      ensures r == Convert(t, substring, stripStrings, conv)
    {
      match t {
        case StrField =>
          r := Ok(StrValue(if stripStrings then Strip(substring) else substring));
        case FloatField =>
          var v := conv.toFloat(FloatText(Strip(substring)));
          if v.None? {
            return Err(ValueError);
          }
          r := Ok(FloatValue(v.value));
        case IntField =>
          var v := PyInt(Strip(substring));
          if v.None? {
            return Err(ValueError);
          }
          r := Ok(IntValue(v.value));
      }
    }

    /** read(line, strip_strings): one value per entry, in order. */
    method Read(line: string, stripStrings: bool, conv: Converters) returns (r: Result<seq<FieldValue>>)
      ensures r == ReadSpec(formatList, line, stripStrings, conv)
    {
      ghost var rs := Values(formatList, line, stripStrings, conv);
      assert ReadSpec(formatList, line, stripStrings, conv) == Collect(rs, |formatList|);
      var result: seq<FieldValue> := [];
      for n := 0 to |formatList|
        invariant Collect(rs, n) == Ok(result)
      {
        var value := ReadField(formatList[n], line, stripStrings, conv);
        ValueAt(formatList, line, stripStrings, conv, n);
        CollectStep(rs, n, result, value);
        if value.Err? {
          return Err(value.error);
        }
        result := result + [value.value];
      }
      r := Ok(result);
    }
  }

  /** One more field of a part. */
  lemma ExpandSnoc(cur: int, t: Option<FieldType>, length: Option<int>, j: nat)
    ensures Expand(cur, t, length, j + 1) ==
      Expand(cur, t, length, j) + (if t.Some? then [Entry(cur + j * Advance(length), t.value, length)] else [])
  {
  }

  /** Lower-casing makes the reader case-insensitive: a format and its lower-cased form
      give the same reader. */
  lemma CaseInsensitive(formatString: string)
    ensures FormatList(Lower(Lower(formatString))) == FormatList(Lower(formatString))
  {
    LowerProperties(formatString);
  }
}

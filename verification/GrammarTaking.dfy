/** Every text the parser accepts is a document of the grammar, and the value is what it stands for. */
module GrammarTaking {
  import opened Bytes
  import opened HexText
  import Unicode
  import opened JsonValue
  import opened JsonNumber
  import opened JsonRender
  import opened JsonParse
  import opened Numerals
  import opened Literals
  import opened JsonGrammar
  import opened GrammarReading

  /** A C string: no terminator but the one at its end. */
  ghost predicate IsCString(t: seq<byte>) {
    Terminated(t) && NulFree(t[..|t| - 1])
  }

  // ---------------------------------------------------------------- blanks and tokens

  function BlanksOf(s: seq<byte>): Gap {
    seq(|s|, k requires 0 <= k < |s| => Blank(s[k]))
  }

  lemma {:induction false} BlanksText(s: seq<byte>)
    ensures GapText(BlanksOf(s)) == s
    decreases |s|
  {
    if s != [] {
      BlanksText(s[1..]);
      assert BlanksOf(s)[1..] == BlanksOf(s[1..]);
      assert s == [s[0]] + s[1..];
    }
  }

  lemma {:induction false} SkippedBlanks(t: seq<byte>, i: nat)
    requires i < |t|
    ensures forall k :: i <= k < SkipSpace(t, i) ==> t[k] <= 32
    decreases |t| - i
  {
    if t[i] <= 32 && i + 1 < |t| {
      SkippedBlanks(t, i + 1);
    }
  }

  /** What is skipped is a gap. */
  lemma GapTaken(t: seq<byte>, i: nat) returns (gap: Gap)
    requires IsCString(t) && i < |t|
    ensures AllBlank(gap) && At(t, i, GapText(gap)) && i + |GapText(gap)| == SkipSpace(t, i)
  {
    var z := SkipSpace(t, i);
    gap := BlanksOf(t[i..z]);
    SkippedBlanks(t, i);
    BlanksText(t[i..z]);
    forall k | 0 <= k < |gap| ensures gap[k].Blank? && 0 < gap[k].b <= 32 {
      assert gap[k].b == t[i + k] && t[..|t| - 1][i + k] == t[i + k];
    }
  }

  lemma NumberTaken(t: seq<byte>, i: nat) returns (n: Numeral)
    requires Terminated(t) && i < |t| && (t[i] == MINUS || IsDigit(t[i])) && ParseNumber(t, i).Done?
    ensures IsDoc(Number(n)) && At(t, i, NumeralText(n))
    ensures ParseNumber(t, i) == Done(Num(NumeralValue(n)), i + |NumeralText(n)|)
  {
    hide Strtod, NumeralText, NumeralValue, IsNumeralText;
    var s := t[i..i + CopyEnd(t, i, 0)];
    CopiedSome(t, i);
    assert s[0] == t[i];
    n := TakesNumeral(s);
    var k := Strtod(s).value.1;
    assert s[..k] == t[i..i + k];
    FirstOfNumeral(n);
  }

  lemma CopiedSome(t: seq<byte>, i: nat)
    requires i < |t| && IsNumeral(t[i])
    ensures CopyEnd(t, i, 0) > 0
  {
  }

  lemma FirstOfNumeral(n: Numeral)
    requires IsNumeralText(n) && NumeralText(n) != [] && NumeralText(n)[0] != DOT
    ensures n.negative || n.whole != []
  {
  }

  lemma ValueKinds(t: seq<byte>, i: nat, depth: nat)
    requires Terminated(t) && i < |t| && ParseValue(t, i, depth).Done?
    ensures t[i] in [110, 102, 116, QUOTE, MINUS, LBRACKET, LBRACE] || IsDigit(t[i])
  {
    hide ParseString, ParseNumber, ParseArray, ParseObject;
    StartsWithFirst(t, i, NULL_TEXT);
    StartsWithFirst(t, i, FALSE_TEXT);
    StartsWithFirst(t, i, TRUE_TEXT);
  }

  lemma WordTaken(t: seq<byte>, i: nat, depth: nat) returns (d: Doc)
    requires Terminated(t) && i < |t| && t[i] in [110, 102, 116] && ParseValue(t, i, depth).Done?
    ensures GoodDoc(d, NESTING_LIMIT - depth) && At(t, i, DocText(d))
    ensures ParseValue(t, i, depth) == Done(DocValue(d), i + |DocText(d)|)
  {
    hide ParseString, ParseNumber, ParseArray, ParseObject;
    d := Word(ParseValue(t, i, depth).value);
  }

  // ---------------------------------------------------------------- documents

  /** A value that is read is a document, and stands for that value. */
  lemma {:induction false} DocTaken(t: seq<byte>, i: nat, depth: nat) returns (d: Doc)
    requires IsCString(t) && i < |t| && ParseValue(t, i, depth).Done?
    ensures GoodDoc(d, NESTING_LIMIT - depth) && At(t, i, DocText(d))
    ensures ParseValue(t, i, depth) == Done(DocValue(d), i + |DocText(d)|)
    decreases |t| - i, 1
  {
    hide At, ParseValue, ParseNumber, ParseString, ParseArray, ParseObject, IsLiteral;
    hide NumeralText, NumeralValue, LiteralText, LiteralValue;
    ValueKinds(t, i, depth);
    if t[i] == QUOTE {
      ValueIsString(t, i, depth);
      var x := LiteralTaken(t, i);
      d := Chars(x);
    } else if t[i] == MINUS || IsDigit(t[i]) {
      ValueIsNumber(t, i, depth);
      var n := NumberTaken(t, i);
      d := Number(n);
    } else if t[i] == LBRACKET {
      ValueIsArray(t, i, depth);
      d := ArrayTaken(t, i, depth);
    } else if t[i] == LBRACE {
      ValueIsObject(t, i, depth);
      d := ObjectTaken(t, i, depth);
    } else {
      d := WordTaken(t, i, depth);
    }
  }

  /** A bracket, blanks and the closing bracket. */
  lemma EmptyTaken(t: seq<byte>, i: nat) returns (inner: Gap)
    requires IsCString(t) && i + 1 < |t|
    ensures AllBlank(inner) && At(t, i, [t[i]] + (GapText(inner) + [t[SkipSpace(t, i + 1)]]))
    ensures |GapText(inner)| + i + 1 == SkipSpace(t, i + 1)
  {
    hide SkipSpace, GapText, IsCString, AllBlank;
    inner := GapTaken(t, i + 1);
    var a := SkipSpace(t, i + 1);
    assert At(t, i, [t[i]]) && At(t, a, [t[a]]);
    AtJoin(t, i + 1, GapText(inner), [t[a]]);
    AtJoin(t, i, [t[i]], GapText(inner) + [t[a]]);
  }

  lemma {:induction false} ArrayTaken(t: seq<byte>, i: nat, depth: nat) returns (d: Doc)
    requires IsCString(t) && i < |t| && t[i] == LBRACKET && ParseArray(t, i, depth).Done?
    ensures GoodDoc(d, NESTING_LIMIT - depth) && At(t, i, DocText(d))
    ensures ParseArray(t, i, depth) == Done(DocValue(d), i + |DocText(d)|)
    decreases |t| - i, 0
  {
    hide DocText, DocValue, At, ParseArray, ParseItems, SkipSpace, GoodEntry, GoodDoc, AllBlank, GapText, IsCString,
      ItemsText;
    NotLast(t, i);
    ArrayStep(t, i, depth);
    var a := SkipSpace(t, i + 1);
    NotLast(t, a);
    if t[a] == RBRACKET {
      var inner := EmptyTaken(t, i);
      d := Array(inner, []);
      ArrayParts(inner, [], NESTING_LIMIT - depth);
      ArrayTextOf(inner, []);
    } else {
      ItemsFrom(t, i + 1, depth + 1);
      var items := ItemsTaken(t, i + 1, depth + 1);
      d := Array([], items);
      EmptyGap();
      ArrayParts([], items, NESTING_LIMIT - depth);
      ArrayTextOf([], items);
      AtByte(t, i);
      AtJoin(t, i, [LBRACKET], ItemsText(items));
    }
  }

  lemma ArrayTextOf(inner: Gap, items: seq<Entry>)
    ensures DocText(Array(inner, items)) == [LBRACKET] +
      if items == [] then GapText(inner) + [RBRACKET] else ItemsText(items)
    ensures DocValue(Array(inner, items)) == Arr(ItemsValue(items))
    ensures ItemsValue([]) == []
  {
  }

  lemma EmptyGap()
    ensures AllBlank([])
  {
  }

  lemma NotLast(t: seq<byte>, i: nat)
    requires IsCString(t) && i < |t|
    ensures Terminated(t) && (t[i] != NUL ==> i + 1 < |t|)
  {
  }

  lemma AtByte(t: seq<byte>, i: nat)
    requires i < |t|
    ensures At(t, i, [t[i]])
  {
  }

  /** An element with the blanks around it. */
  lemma {:induction false} EntryTaken(t: seq<byte>, i: nat, depth: nat) returns (e: Entry)
    requires IsCString(t) && i < |t| && ParseValue(t, SkipSpace(t, i), depth).Done?
    ensures GoodEntry(e, NESTING_LIMIT - depth) && At(t, i, EntryText(e))
    ensures var r := ParseValue(t, SkipSpace(t, i), depth);
      r.value == DocValue(e.doc) && SkipSpace(t, r.offset) == i + |EntryText(e)|
    decreases |t| - i, 2
  {
    hide At, ParseValue, SkipSpace, GoodDoc, AllBlank, GapText, DocText, DocValue, IsCString;
    NotLast(t, i);
    var a := SkipSpace(t, i);
    var before := GapTaken(t, i);
    var d := DocTaken(t, a, depth);
    var o := ParseValue(t, a, depth).offset;
    var after := GapTaken(t, o);
    e := Entry(before, d, after);
    AtJoin(t, a, DocText(d), GapText(after));
    AtJoin(t, i, GapText(before), DocText(d) + GapText(after));
  }

  lemma {:induction false} ItemsTaken(t: seq<byte>, i: nat, depth: nat) returns (items: seq<Entry>)
    requires IsCString(t) && i < |t| && ParseItems(t, i, depth).Done?
    ensures items != [] && forall k :: 0 <= k < |items| ==> GoodEntry(items[k], NESTING_LIMIT - depth)
    ensures At(t, i, ItemsText(items))
    ensures ParseItems(t, i, depth) == Done(ItemsValue(items), i + |ItemsText(items)|)
    decreases |t| - i, 3
  {
    hide At, ParseValue, ParseItems, EntryText, SkipSpace, GoodEntry, DocValue, IsCString;
    NotLast(t, i);
    ItemsStep(t, i, depth);
    var e := EntryTaken(t, i, depth);
    var c := i + |EntryText(e)|;
    AtByte(t, c);
    if t[c] == COMMA && c + 1 < |t| {
      var rest := ItemsTaken(t, c + 1, depth);
      items := [e] + rest;
      assert items[1..] == rest;
      AtJoin(t, c, [COMMA], ItemsText(rest));
      AtJoin(t, i, EntryText(e), [COMMA] + ItemsText(rest));
    } else {
      items := [e];
      assert items[1..] == [] && ItemsValue(items) == [DocValue(e.doc)];
      AtJoin(t, i, EntryText(e), [RBRACKET]);
    }
  }

  lemma {:induction false} ObjectTaken(t: seq<byte>, i: nat, depth: nat) returns (d: Doc)
    requires IsCString(t) && i < |t| && t[i] == LBRACE && ParseObject(t, i, depth).Done?
    ensures GoodDoc(d, NESTING_LIMIT - depth) && At(t, i, DocText(d))
    ensures ParseObject(t, i, depth) == Done(DocValue(d), i + |DocText(d)|)
    decreases |t| - i, 0
  {
    hide DocText, DocValue, At, ParseObject, ParseMembers, SkipSpace, GoodProperty, GoodDoc, AllBlank, GapText;
    hide IsCString, MembersText;
    NotLast(t, i);
    ObjectStep(t, i, depth);
    var a := SkipSpace(t, i + 1);
    NotLast(t, a);
    if t[a] == RBRACE {
      var inner := EmptyTaken(t, i);
      d := Object(inner, []);
      ObjectParts(inner, [], NESTING_LIMIT - depth);
      ObjectTextOf(inner, []);
    } else {
      MembersFrom(t, i + 1, depth + 1);
      var members := MembersTaken(t, i + 1, depth + 1);
      d := Object([], members);
      EmptyGap();
      ObjectParts([], members, NESTING_LIMIT - depth);
      ObjectTextOf([], members);
      AtByte(t, i);
      AtJoin(t, i, [LBRACE], MembersText(members));
    }
  }

  lemma ObjectTextOf(inner: Gap, members: seq<Property>)
    ensures DocText(Object(inner, members)) == [LBRACE] +
      if members == [] then GapText(inner) + [RBRACE] else MembersText(members)
    ensures DocValue(Object(inner, members)) == Obj(MembersValue(members))
    ensures MembersValue([]) == []
  {
  }

  /** A member up to its value's blanks; the text of the key and that of the value stand one behind the other. */
  lemma {:induction false} MemberTaken(t: seq<byte>, i: nat, depth: nat) returns (m: Property)
    requires IsCString(t) && i < |t| && ParseMember(t, i, depth).Done?
    ensures GoodProperty(m, NESTING_LIMIT - depth) && At(t, i, KeyText(m))
    ensures At(t, i + |KeyText(m)|, EntryText(m.value))
    ensures var r := ParseMember(t, i, depth);
      && r.value == Member(LiteralValue(m.key), DocValue(m.value.doc))
      && SkipSpace(t, r.offset) == i + |KeyText(m)| + |EntryText(m.value)|
    decreases |t| - i, 3
  {
    hide At, ParseMember, ParseString, ParseValue, EntryText, SkipSpace, GoodEntry, DocValue, IsCString;
    hide AllBlank, GapText, LiteralText, LiteralValue, IsLiteral;
    NotLast(t, i);
    MemberStep(t, i, depth);
    var a := SkipSpace(t, i);
    var before := GapTaken(t, i);
    var key := LiteralTaken(t, a);
    var o := ParseString(t, a).offset;
    var between := GapTaken(t, o);
    var c := SkipSpace(t, o);
    var value := EntryTaken(t, c + 1, depth);
    m := Property(before, key, between, value);
    AtByte(t, c);
    AtJoin(t, o, GapText(between), [COLON]);
    AtJoin(t, a, LiteralText(key), GapText(between) + [COLON]);
    AtJoin(t, i, GapText(before), LiteralText(key) + (GapText(between) + [COLON]));
  }

  lemma {:induction false} MembersTaken(t: seq<byte>, i: nat, depth: nat) returns (members: seq<Property>)
    requires IsCString(t) && i < |t| && ParseMembers(t, i, depth).Done?
    ensures members != [] && forall k :: 0 <= k < |members| ==> GoodProperty(members[k], NESTING_LIMIT - depth)
    ensures At(t, i, MembersText(members))
    ensures ParseMembers(t, i, depth) == Done(MembersValue(members), i + |MembersText(members)|)
    decreases |t| - i, 4
  {
    hide At, ParseMember, ParseMembers, EntryText, KeyText, SkipSpace, GoodProperty, DocValue, LiteralValue, IsCString;
    NotLast(t, i);
    MembersStep(t, i, depth);
    var m := MemberTaken(t, i, depth);
    var v := i + |KeyText(m)|;
    var c := v + |EntryText(m.value)|;
    AtByte(t, c);
    if t[c] == COMMA && c + 1 < |t| {
      var rest := MembersTaken(t, c + 1, depth);
      members := [m] + rest;
      assert members[1..] == rest;
      AtJoin(t, c, [COMMA], MembersText(rest));
      AtJoin(t, v, EntryText(m.value), [COMMA] + MembersText(rest));
      AtJoin(t, i, KeyText(m), EntryText(m.value) + ([COMMA] + MembersText(rest)));
    } else {
      members := [m];
      assert members[1..] == [];
      assert MembersValue(members) == [Member(LiteralValue(m.key), DocValue(m.value.doc))];
      AtJoin(t, v, EntryText(m.value), [RBRACE]);
      AtJoin(t, i, KeyText(m), EntryText(m.value) + [RBRACE]);
    }
  }

  // ---------------------------------------------------------------- whole texts

  /** A document with blanks around it, perhaps behind a byte order mark. */
  datatype Source = Source(marked: bool, entry: Entry)

  function SourceText(x: Source): seq<byte> {
    (if x.marked then [0xEF, 0xBB, 0xBF] else []) + EntryText(x.entry)
  }

  ghost predicate IsSource(x: Source, text: seq<byte>, j: Json) {
    SourceText(x) == text && GoodEntry(x.entry, 1000) && DocValue(x.entry.doc) == j
  }

  /**
   A C string is accepted as a whole, for a value, if and only if it is a source of the grammar that stands for it, with
   no more than 1000 arrays and objects open and no numeral of more than 63 bytes.
   */
  lemma AcceptsSources(text: seq<byte>, j: Json)
    requires NulFree(text)
    ensures ParseText(text + [NUL], true).0 == Some(j) <==> exists x :: IsSource(x, text, j)
  {
    if ParseText(text + [NUL], true).0 == Some(j) {
      var x := SourceTaken(text, j);
    }
    if x :| IsSource(x, text, j) {
      SourceRead(text, x, j, true);
    }
  }

  lemma SourceTaken(text: seq<byte>, j: Json) returns (x: Source)
    requires NulFree(text) && ParseText(text + [NUL], true).0 == Some(j)
    ensures IsSource(x, text, j)
  {
    hide ParseValue, SkipSpace, GoodEntry, EntryText, DocValue, At;
    var t := text + [NUL];
    assert t[..|t| - 1] == text;
    var i := SkipMark(t);
    var e := EntryTaken(t, i, 0);
    x := Source(i == 3, e);
    var z := i + |EntryText(e)|;
    assert t[z] == NUL && z == |text|;
    AtSlice(t, i, EntryText(e));
    assert text == t[..i] + t[i..z];
  }

  lemma {:induction false} GapToEnd(t: seq<byte>, i: nat, gap: Gap)
    requires AllBlank(gap) && At(t, i, GapText(gap)) && i + |GapText(gap)| + 1 == |t|
    ensures SkipSpace(t, i) == |t| - 1
    decreases |gap|
  {
    hide At;
    if gap != [] {
      AtIndex(t, i, GapText(gap), 0);
      AtConcat(t, i, FillerText(gap[0]), GapText(gap[1..]));
      assert gap[0].Blank?;
      GapToEnd(t, i + 1, gap[1..]);
    }
  }

  lemma SourceStarts(e: Entry)
    requires GoodEntry(e, NESTING_LIMIT)
    ensures EntryText(e) != [] && EntryText(e)[0] != 0xEF
  {
    hide FitsDepth, NoComments, DocText, IsDoc;
    DocStarts(e.doc);
    DocStartsPlain(e.doc);
    assert e.before != [] ==> e.before[0].Blank?;
  }

  lemma DocStartsPlain(d: Doc)
    requires IsDoc(d)
    ensures DocText(d) != [] && DocText(d)[0] < 128
  {
    match d
    case Number(n) => AllNumeral(n);
    case _ =>
  }

  lemma MarkRead(text: seq<byte>, x: Source)
    requires GoodEntry(x.entry, NESTING_LIMIT) && text == SourceText(x)
    ensures var t := text + [NUL]; var i := SkipMark(t);
      At(t, i, EntryText(x.entry)) && i + |EntryText(x.entry)| == |text|
  {
    hide GoodEntry, EntryText;
    var t, e := text + [NUL], x.entry;
    SourceStarts(e);
    if x.marked {
      assert t[..3] == [0xEF, 0xBB, 0xBF];
    } else {
      assert t[0] == EntryText(e)[0];
      assert |t| > 4 ==> t[..3][0] == t[0];
    }
  }

  lemma EntryToEnd(t: seq<byte>, i: nat, e: Entry)
    requires Terminated(t) && GoodEntry(e, NESTING_LIMIT) && At(t, i, EntryText(e)) && i + |EntryText(e)| + 1 == |t|
    ensures i < |t| && var r := ParseValue(t, SkipSpace(t, i), 0);
      r.Done? && r.value == DocValue(e.doc) && SkipSpace(t, r.offset) == |t| - 1
  {
    hide ParseValue, SkipSpace, DocValue, GoodDoc, AllBlank, DocText, GapText, IsDoc, At;
    var a := i + |GapText(e.before)|;
    var o := a + |DocText(e.doc)|;
    AtConcat(t, i, GapText(e.before), DocText(e.doc) + GapText(e.after));
    AtConcat(t, a, DocText(e.doc), GapText(e.after));
    DocOf(e);
    DocStarts(e.doc);
    AtIndex(t, a, DocText(e.doc), 0);
    GapSkipped(t, i, e.before);
    GapEnds(t, o, e.after);
    DocRead(t, a, 0, e.doc);
    GapToEnd(t, o, e.after);
  }

  lemma SourceRead(text: seq<byte>, x: Source, j: Json, requireEnd: bool)
    requires IsSource(x, text, j)
    ensures ParseText(text + [NUL], requireEnd).0 == Some(j)
  {
    hide ParseValue, SkipSpace, DocValue, GoodEntry, EntryText, SkipMark, SourceText;
    MarkRead(text, x);
    var t := text + [NUL];
    EntryToEnd(t, SkipMark(t), x.entry);
  }

  lemma DocOf(e: Entry)
    requires GoodEntry(e, NESTING_LIMIT)
    ensures IsDoc(e.doc) && AllBlank(e.before) && AllBlank(e.after) && GoodDoc(e.doc, NESTING_LIMIT)
  {
  }

  // ---------------------------------------------------------------- escapes of one code point

  /** What the parser answers for a C string. */
  function Reading(text: seq<byte>, requireEnd: bool): Option<Json> {
    ParseText(text + [NUL], requireEnd).0
  }

  /** A text that is one string literal of one piece. */
  lemma OneLiteral(piece: Piece, requireEnd: bool)
    requires IsPiece(piece) && !piece.Raw? && IsBody(PieceText(piece)) && NulFree(PieceText(piece))
    ensures Reading(['"' as int] + PieceText(piece) + ['"' as int], requireEnd) == Some(Str(CString(PieceValue(piece))))
  {
    hide IsPiece, PieceText, PieceValue, ParseText;
    var x := Literal(PieceText(piece), [piece]);
    FillsOne(piece);
    var e := Entry([], Chars(x), []);
    var source := Source(false, e);
    var text := LiteralText(x);
    EntryAlone(Chars(x));
    assert [] + text == text;
    EmptyGap();
    hide EntryText;
    SourceRead(text, source, Str(LiteralValue(x)), requireEnd);
  }

  lemma EntryAlone(d: Doc)
    ensures EntryText(Entry([], d, [])) == DocText(d)
  {
    hide DocText;
    var text := DocText(d);
    assert text + [] == text && [] + text == text;
  }

  lemma FillsOne(piece: Piece)
    ensures Fills([piece], PieceText(piece)) && PiecesValue([piece]) == PieceValue(piece)
  {
    hide PieceText, PieceValue;
    var pieces := [piece];
    assert pieces[1..] == [];
    var text, value := PieceText(piece), PieceValue(piece);
    assert text + [] == text && value + [] == value;
    assert PiecesText(pieces) == text + PiecesText(pieces[1..]);
    assert PiecesValue(pieces) == value + PiecesValue(pieces[1..]);
  }

  /** The escape of a code point, its digits in either case, is read as the bytes of that code point. */
  lemma EscapedUnit(digits: seq<byte>, code: nat, requireEnd: bool)
    requires |digits| == 4 && Spells(digits, code) && code != 0 && Unicode.IsScalar(code)
    ensures var text := ['"' as int, '\\' as int, 'u' as int] + digits + ['"' as int];
      Reading(text, requireEnd) == Some(Str(Unicode.Utf8(code)))
  {
    var piece := Unit(digits, code);
    SpelledPlain(digits, code);
    BodyOfDigits(digits);
    OneLiteral(piece, requireEnd);
    Utf8NulFree(code);
    CStringOfNulFree(Unicode.Utf8(code));
    hide Reading, Spells;
    assert ['"' as int, '\\' as int, 'u' as int] + digits + ['"' as int]
        == ['"' as int] + PieceText(piece) + ['"' as int];
  }

  /** So is a code point beyond the first 65536, as the two escapes of its surrogates. */
  lemma EscapedPair(high: seq<byte>, low: seq<byte>, code: nat, requireEnd: bool)
    requires 0x10000 <= code <= 0x10FFFF && |high| == |low| == 4
    requires Spells(high, 0xD800 + (code - 0x10000) / 0x400) && Spells(low, 0xDC00 + (code - 0x10000) % 0x400)
    ensures var text := ['"' as int, '\\' as int, 'u' as int] + high + ['\\' as int, 'u' as int] + low + ['"' as int];
      Reading(text, requireEnd) == Some(Str(Unicode.Utf8(code)))
  {
    var h, l := 0xD800 + (code - 0x10000) / 0x400, 0xDC00 + (code - 0x10000) % 0x400;
    var piece := Piece.Pair(high, h, low, l);
    PairOf(code);
    hide PairCode;
    SpelledPlain(high, h);
    SpelledPlain(low, l);
    BodyOfPair(high, low);
    hide Spells, Reading;
    OneLiteral(piece, requireEnd);
    Utf8NulFree(code);
    CStringOfNulFree(Unicode.Utf8(code));
    PairWritten(high, low);
  }

  /** Four bytes that are no digits are not refused: they stand for the terminator, and end the string. */
  lemma MalformedDigits(digits: seq<byte>, requireEnd: bool)
    requires |digits| == 4 && (forall v: nat :: !Spells(digits, v)) && NulFree(digits)
    requires forall k :: 0 <= k < |digits| ==> digits[k] != BACKSLASH && digits[k] != QUOTE
    ensures var text := ['"' as int, '\\' as int, 'u' as int] + digits + ['"' as int];
      Reading(text, requireEnd) == Some(Str([]))
  {
    var piece := Unit(digits, 0);
    PlainBody(digits);
    assert ([BACKSLASH, LOWER_U] + digits)[2..] == digits;
    OneLiteral(piece, requireEnd);
    hide Reading, Spells;
    assert ['"' as int, '\\' as int, 'u' as int] + digits + ['"' as int]
        == ['"' as int] + PieceText(piece) + ['"' as int];
  }

  lemma PairOf(code: nat)
    requires 0x10000 <= code <= 0x10FFFF
    ensures var h, l := 0xD800 + (code - 0x10000) / 0x400, 0xDC00 + (code - 0x10000) % 0x400;
      0xD800 <= h <= 0xDBFF && 0xDC00 <= l <= 0xDFFF && PairCode(h, l) == code
  {
  }

  lemma PairWritten(high: seq<byte>, low: seq<byte>)
    ensures ['"' as int, '\\' as int, 'u' as int] + high + ['\\' as int, 'u' as int] + low + ['"' as int]
      == ['"' as int] + (['\\' as int, 'u' as int] + high + (['\\' as int, 'u' as int] + low)) + ['"' as int]
  {
  }

  lemma BodyOfPair(high: seq<byte>, low: seq<byte>)
    requires forall k :: 0 <= k < |high| ==> 48 <= high[k] < 128 && high[k] != BACKSLASH
    requires forall k :: 0 <= k < |low| ==> 48 <= low[k] < 128 && low[k] != BACKSLASH
    ensures var body := [BACKSLASH, LOWER_U] + high + ([BACKSLASH, LOWER_U] + low); IsBody(body) && NulFree(body)
  {
    BodyOfDigits(low);
    BodyBehind(high, [BACKSLASH, LOWER_U] + low);
    var body := [BACKSLASH, LOWER_U] + high + ([BACKSLASH, LOWER_U] + low);
    assert body[2..] == high + ([BACKSLASH, LOWER_U] + low);
  }

  lemma {:induction false} BodyBehind(s: seq<byte>, body: seq<byte>)
    requires IsBody(body) && forall k :: 0 <= k < |s| ==> s[k] != BACKSLASH && s[k] != QUOTE
    ensures IsBody(s + body)
    decreases |s|
  {
    if s == [] {
      assert s + body == body;
    } else {
      BodyBehind(s[1..], body);
      assert (s + body)[1..] == s[1..] + body;
    }
  }

  lemma Utf8NulFree(code: nat)
    requires 0 < code <= 0x10FFFF
    ensures NulFree(Unicode.Utf8(code))
  {
  }

  lemma {:induction false} SpelledPlain(digits: seq<byte>, v: nat)
    requires Spells(digits, v)
    ensures forall k :: 0 <= k < |digits| ==> 48 <= digits[k] < 128 && digits[k] != BACKSLASH
    decreases |digits|
  {
    if digits != [] {
      SpelledPlain(ButLast(digits), v / 16);
      assert forall k :: 0 <= k < |digits| - 1 ==> digits[k] == ButLast(digits)[k];
      assert forall k :: 0 <= k < 16 ==> 48 <= CAPITALS[k] < 91 && 48 <= SMALLS[k] < 128 && SMALLS[k] != BACKSLASH;
    }
  }

  lemma {:induction false} PlainBody(s: seq<byte>)
    requires forall k :: 0 <= k < |s| ==> s[k] != BACKSLASH && s[k] != QUOTE
    ensures IsBody(s)
    decreases |s|
  {
    if s != [] {
      PlainBody(s[1..]);
    }
  }

  lemma BodyOfDigits(digits: seq<byte>)
    requires forall k :: 0 <= k < |digits| ==> 48 <= digits[k] < 128 && digits[k] != BACKSLASH
    ensures IsBody([BACKSLASH, LOWER_U] + digits) && NulFree([BACKSLASH, LOWER_U] + digits)
  {
    PlainBody(digits);
    assert ([BACKSLASH, LOWER_U] + digits)[2..] == digits;
  }
}

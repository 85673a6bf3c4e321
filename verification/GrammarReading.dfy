/** The parser accepts every document of the grammar, as what it stands for. */
module GrammarReading {
  import opened Bytes
  import opened JsonValue
  import opened JsonNumber
  import opened JsonRender
  import opened JsonParse
  import opened Numerals
  import opened Literals
  import opened JsonGrammar

  // ---------------------------------------------------------------- blanks

  lemma {:induction false} GapSkipped(t: seq<byte>, i: nat, gap: Gap)
    requires AllBlank(gap) && At(t, i, GapText(gap))
    requires i + |GapText(gap)| < |t| && t[i + |GapText(gap)|] > 32
    ensures SkipSpace(t, i) == i + |GapText(gap)|
    decreases |gap|
  {
    hide At;
    if gap != [] {
      AtIndex(t, i, GapText(gap), 0);
      AtConcat(t, i, FillerText(gap[0]), GapText(gap[1..]));
      assert gap[0].Blank?;
      GapSkipped(t, i + 1, gap[1..]);
    }
  }

  lemma {:induction false} SkippedTwice(t: seq<byte>, i: nat)
    requires i < |t|
    ensures SkipSpace(t, SkipSpace(t, i)) == SkipSpace(t, i)
    decreases |t| - i
  {
    if t[i] <= 32 && i + 1 < |t| {
      SkippedTwice(t, i + 1);
    }
  }

  /** The byte at k belongs to no numeral. */
  ghost predicate Ends(t: seq<byte>, k: nat) {
    k < |t| && !IsNumeral(t[k])
  }

  /** Behind a numeral comes a blank, or what stands behind the blanks. */
  lemma GapEnds(t: seq<byte>, o: nat, gap: Gap)
    requires AllBlank(gap) && At(t, o, GapText(gap)) && Ends(t, o + |GapText(gap)|)
    ensures Ends(t, o)
  {
    if gap != [] {
      AtIndex(t, o, GapText(gap), 0);
    }
  }

  // ---------------------------------------------------------------- tokens

  /** A document begins with a byte that is no blank and closes nothing. */
  lemma DocStarts(d: Doc)
    requires IsDoc(d)
    ensures DocText(d) != [] && DocText(d)[0] > 32 && DocText(d)[0] != RBRACKET && DocText(d)[0] != RBRACE
  {
    match d
    case Number(n) =>
      assert NumeralText(n)[0] == if n.negative then MINUS else n.whole[0];
    case _ =>
  }

  lemma NumberCopied(t: seq<byte>, i: nat, text: seq<byte>)
    requires 0 < |text| <= NUMERAL_LIMIT && At(t, i, text) && Ends(t, i + |text|)
    requires forall k :: 0 <= k < |text| ==> IsNumeral(text[k])
    ensures i + |text| < |t| && t[i] == text[0] && CopyEnd(t, i, 0) == |text| && t[i..i + |text|] == text
  {
    AtSlice(t, i, text);
    hide At;
    AtIndex(t, i, text, 0);
    forall k | i <= k < i + |text| ensures IsNumeral(t[k]) {
      AtIndex(t, i, text, k - i);
    }
    CopiesText(t, i, 0, |text|);
  }

  lemma NumberRead(t: seq<byte>, i: nat, n: Numeral)
    requires IsDoc(Number(n)) && Terminated(t) && At(t, i, NumeralText(n)) && Ends(t, i + |NumeralText(n)|)
    ensures i < |t| && (t[i] == MINUS || IsDigit(t[i]))
    ensures ParseNumber(t, i) == Done(Num(NumeralValue(n)), i + |NumeralText(n)|)
  {
    AllNumeral(n);
    hide NumeralValue, Strtod, NumeralText, At, CopyEnd, IsNumeralText, Ends;
    NumberCopied(t, i, NumeralText(n));
    TakesWhole(n);
  }

  lemma AtSlice(t: seq<byte>, i: nat, s: seq<byte>)
    requires At(t, i, s)
    ensures i + |s| <= |t| && t[i..i + |s|] == s
  {
  }

  lemma AllNumeral(n: Numeral)
    requires IsDoc(Number(n))
    ensures forall k :: 0 <= k < |NumeralText(n)| ==> IsNumeral(NumeralText(n)[k])
    ensures NumeralText(n) != [] && (NumeralText(n)[0] == MINUS || IsDigit(NumeralText(n)[0]))
  {
    PowerNumeral(n.power);
    hide PowerText;
    var places := if n.places.Some? then [DOT] + n.places.value else [];
    assert forall k :: 0 <= k < |places| ==> IsNumeral(places[k]);
    assert forall k :: 0 <= k < |n.whole| ==> IsNumeral(n.whole[k]);
  }

  lemma PowerNumeral(power: Option<Power>)
    requires IsPowerText(power)
    ensures forall k :: 0 <= k < |PowerText(power)| ==> IsNumeral(PowerText(power)[k])
  {
  }

  lemma WordRead(t: seq<byte>, i: nat, j: Json, depth: nat)
    requires IsDoc(Word(j)) && Terminated(t) && At(t, i, WordText(j))
    ensures i < |t| && ParseValue(t, i, depth) == Done(j, i + |WordText(j)|)
  {
    hide ParseNumber, ParseString, ParseArray, ParseObject;
    AtIndex(t, i, WordText(j), 0);
  }

  // ---------------------------------------------------------------- documents

  /** Wherever a document stands, the parser reads it as what it stands for and stops behind it. */
  lemma {:induction false} DocRead(t: seq<byte>, i: nat, depth: nat, d: Doc)
    requires GoodDoc(d, NESTING_LIMIT - depth) && Terminated(t) && At(t, i, DocText(d))
    requires d.Number? ==> Ends(t, i + |DocText(d)|)
    ensures i < |t| && ParseValue(t, i, depth) == Done(DocValue(d), i + |DocText(d)|)
    decreases d, 1
  {
    hide At, ParseValue, ParseNumber, ParseString, ParseArray, ParseObject, IsLiteral, ItemsText, MembersText;
    hide NumeralText, ItemsValue, MembersValue, NumeralValue, LiteralValue, NoComments, FitsDepth, Terminated;
    DocStarts(d);
    AtIndex(t, i, DocText(d), 0);
    match d
    case Word(j) =>
      WordRead(t, i, j, depth);
    case Number(n) =>
      NumberRead(t, i, n);
      ValueIsNumber(t, i, depth);
    case Chars(x) =>
      LiteralRead(t, i, x);
      ValueIsString(t, i, depth);
    case Array(inner, items) =>
      ArrayRead(t, i, depth, inner, items);
      ValueIsArray(t, i, depth);
    case Object(inner, members) =>
      ObjectRead(t, i, depth, inner, members);
      ValueIsObject(t, i, depth);
  }

  /** Nothing but blanks between two brackets. */
  lemma EmptyAt(t: seq<byte>, i: nat, open: byte, inner: Gap, close: byte)
    requires AllBlank(inner) && close > 32 && At(t, i, [open] + (GapText(inner) + [close]))
    ensures i + 1 < |t| && t[i] == open && SkipSpace(t, i + 1) == i + 1 + |GapText(inner)| < |t|
    ensures t[SkipSpace(t, i + 1)] == close && |[open] + (GapText(inner) + [close])| == |GapText(inner)| + 2
  {
    hide At, SkipSpace;
    AtIndex(t, i, [open] + (GapText(inner) + [close]), 0);
    AtConcat(t, i, [open], GapText(inner) + [close]);
    AtConcat(t, i + 1, GapText(inner), [close]);
    AtIndex(t, i + 1 + |GapText(inner)|, [close], 0);
    GapSkipped(t, i + 1, inner);
  }

  lemma {:induction false} ArrayRead(t: seq<byte>, i: nat, depth: nat, inner: Gap, items: seq<Entry>)
    requires GoodDoc(Array(inner, items), NESTING_LIMIT - depth) && Terminated(t)
    requires At(t, i, DocText(Array(inner, items)))
    ensures i < |t| && t[i] == LBRACKET
    ensures ParseArray(t, i, depth) == Done(Arr(ItemsValue(items)), i + |DocText(Array(inner, items))|)
    decreases items, 3
  {
    hide At, ParseArray, ParseItems, ItemsText, SkipSpace, GoodDoc, GoodEntry, GapText;
    ArrayParts(inner, items, NESTING_LIMIT - depth);
    if items == [] {
      EmptyAt(t, i, LBRACKET, inner, RBRACKET);
      ArrayStep(t, i, depth);
    } else {
      AtIndex(t, i, [LBRACKET] + ItemsText(items), 0);
      AtConcat(t, i, [LBRACKET], ItemsText(items));
      ItemsRead(t, i + 1, depth + 1, items);
      ArrayStep(t, i, depth);
      ItemsFrom(t, i + 1, depth + 1);
    }
  }

  lemma ItemsFrom(t: seq<byte>, i: nat, depth: nat)
    requires Terminated(t) && i < |t|
    ensures ParseItems(t, SkipSpace(t, i), depth) == ParseItems(t, i, depth)
  {
    hide ParseItems, ParseValue, SkipSpace;
    SkippedTwice(t, i);
    ItemsStep(t, i, depth);
    ItemsStep(t, SkipSpace(t, i), depth);
  }

  /** Where the parts of an element stand. */
  lemma EntryAt(t: seq<byte>, i: nat, e: Entry, tail: seq<byte>)
    requires At(t, i, EntryText(e) + tail) && tail != []
    ensures var a := i + |GapText(e.before)|; var o := a + |DocText(e.doc)|; var n := o + |GapText(e.after)|;
      && n == i + |EntryText(e)| < |t| && t[n] == tail[0] && At(t, n, tail)
      && At(t, i, GapText(e.before)) && At(t, a, DocText(e.doc)) && At(t, o, GapText(e.after))
  {
    hide At, DocText, GapText;
    AtConcat(t, i, EntryText(e), tail);
    AtIndex(t, i + |EntryText(e)|, tail, 0);
    AtConcat(t, i, GapText(e.before), DocText(e.doc) + GapText(e.after));
    AtConcat(t, i + |GapText(e.before)|, DocText(e.doc), GapText(e.after));
  }

  /** An element with what is around it, in front of a comma or a bracket. */
  lemma {:induction false} EntryRead(t: seq<byte>, i: nat, depth: nat, e: Entry, tail: seq<byte>)
    requires GoodEntry(e, NESTING_LIMIT - depth) && Terminated(t) && At(t, i, EntryText(e) + tail)
    requires tail != [] && tail[0] in [COMMA, RBRACKET, RBRACE]
    ensures var n := i + |EntryText(e)|;
      && i < n < |t| && t[n] == tail[0] && At(t, n, tail) && t[SkipSpace(t, i)] !in [RBRACKET, RBRACE]
      && var r := ParseValue(t, SkipSpace(t, i), depth);
      r.Done? && r.value == DocValue(e.doc) && SkipSpace(t, r.offset) == n
    decreases e, 2
  {
    hide At, ParseValue, DocText, SkipSpace, GapText, IsDoc, NoComments, FitsDepth, DocValue, AllBlank, Terminated;
    var a := i + |GapText(e.before)|;
    var o := a + |DocText(e.doc)|;
    EntryAt(t, i, e, tail);
    DocStarts(e.doc);
    AtIndex(t, a, DocText(e.doc), 0);
    GapSkipped(t, i, e.before);
    GapSkipped(t, o, e.after);
    GapEnds(t, o, e.after);
    DocRead(t, a, depth, e.doc);
  }

  lemma {:induction false} ItemsRead(t: seq<byte>, i: nat, depth: nat, items: seq<Entry>)
    requires items != [] && forall k :: 0 <= k < |items| ==> GoodEntry(items[k], NESTING_LIMIT - depth)
    requires Terminated(t) && At(t, i, ItemsText(items))
    ensures i < |t| && t[SkipSpace(t, i)] != RBRACKET
    ensures ParseItems(t, i, depth) == Done(ItemsValue(items), i + |ItemsText(items)|)
    decreases items, 2
  {
    hide At, ParseValue, ParseItems, EntryText, SkipSpace, GoodEntry, DocValue;
    var e, rest := items[0], items[1..];
    var n := i + |EntryText(e)|;
    if |items| == 1 {
      EntryRead(t, i, depth, e, [RBRACKET]);
      ItemsStep(t, i, depth);
      assert rest == [] && ItemsValue(items) == [DocValue(e.doc)];
      AtIndex(t, n, [RBRACKET], 0);
    } else {
      EntryRead(t, i, depth, e, [COMMA] + ItemsText(rest));
      AtConcat(t, n, [COMMA], ItemsText(rest));
      ItemsRead(t, n + 1, depth, rest);
      ItemsStep(t, i, depth);
    }
  }

  lemma {:induction false} ObjectRead(t: seq<byte>, i: nat, depth: nat, inner: Gap, members: seq<Property>)
    requires GoodDoc(Object(inner, members), NESTING_LIMIT - depth) && Terminated(t)
    requires At(t, i, DocText(Object(inner, members)))
    ensures i < |t| && t[i] == LBRACE
    ensures ParseObject(t, i, depth) == Done(Obj(MembersValue(members)), i + |DocText(Object(inner, members))|)
    decreases members, 3
  {
    hide At, ParseObject, ParseMembers, MembersText, SkipSpace, GoodDoc, GoodProperty, GapText;
    ObjectParts(inner, members, NESTING_LIMIT - depth);
    if members == [] {
      EmptyAt(t, i, LBRACE, inner, RBRACE);
      ObjectStep(t, i, depth);
    } else {
      AtIndex(t, i, [LBRACE] + MembersText(members), 0);
      AtConcat(t, i, [LBRACE], MembersText(members));
      MembersRead(t, i + 1, depth + 1, members);
      ObjectStep(t, i, depth);
      MembersFrom(t, i + 1, depth + 1);
    }
  }

  lemma MembersFrom(t: seq<byte>, i: nat, depth: nat)
    requires Terminated(t) && i < |t|
    ensures ParseMembers(t, SkipSpace(t, i), depth) == ParseMembers(t, i, depth)
  {
    hide ParseMembers, ParseMember, ParseValue, ParseString, SkipSpace;
    SkippedTwice(t, i);
    MemberStep(t, i, depth);
    MemberStep(t, SkipSpace(t, i), depth);
    MembersStep(t, i, depth);
    MembersStep(t, SkipSpace(t, i), depth);
  }

  /** A key with its colon, in front of a value. */
  lemma KeyRead(t: seq<byte>, i: nat, m: Property)
    requires AllBlank(m.before) && IsLiteral(m.key) && AllBlank(m.between) && Terminated(t) && At(t, i, KeyText(m))
    ensures i + |KeyText(m)| <= |t| && i < |t| && t[SkipSpace(t, i)] == QUOTE
    ensures var key := ParseString(t, SkipSpace(t, i));
      && key.Done? && key.value == LiteralValue(m.key)
      && SkipSpace(t, key.offset) + 1 == i + |KeyText(m)| && t[SkipSpace(t, key.offset)] == COLON
  {
    hide At, ParseString, SkipSpace, GapText, AllBlank, IsLiteral, LiteralValue, Terminated;
    var a := i + |GapText(m.before)|;
    var c := a + |LiteralText(m.key)|;
    AtConcat(t, i, GapText(m.before), LiteralText(m.key) + (GapText(m.between) + [COLON]));
    AtConcat(t, a, LiteralText(m.key), GapText(m.between) + [COLON]);
    AtConcat(t, c, GapText(m.between), [COLON]);
    AtIndex(t, c + |GapText(m.between)|, [COLON], 0);
    AtIndex(t, a, LiteralText(m.key), 0);
    GapSkipped(t, i, m.before);
    GapSkipped(t, c, m.between);
    LiteralRead(t, a, m.key);
  }

  lemma {:induction false} MemberRead(t: seq<byte>, i: nat, depth: nat, m: Property, tail: seq<byte>)
    requires GoodProperty(m, NESTING_LIMIT - depth) && Terminated(t)
    requires At(t, i, KeyText(m) + (EntryText(m.value) + tail))
    requires tail != [] && tail[0] in [COMMA, RBRACKET, RBRACE]
    ensures var n := i + |KeyText(m)| + |EntryText(m.value)|;
      && i < n < |t| && t[n] == tail[0] && At(t, n, tail) && t[SkipSpace(t, i)] == QUOTE
      && var r := ParseMember(t, i, depth);
      && r.Done? && r.value == Member(LiteralValue(m.key), DocValue(m.value.doc)) && SkipSpace(t, r.offset) == n
    decreases m, 3
  {
    hide At, ParseMember, ParseString, ParseValue, EntryText, KeyText, SkipSpace, GoodEntry, DocValue, LiteralValue,
      IsLiteral, AllBlank, Terminated;
    AtConcat(t, i, KeyText(m), EntryText(m.value) + tail);
    KeyRead(t, i, m);
    EntryRead(t, i + |KeyText(m)|, depth, m.value, tail);
    MemberStep(t, i, depth);
  }

  lemma {:induction false} MembersRead(t: seq<byte>, i: nat, depth: nat, members: seq<Property>)
    requires members != [] && forall k :: 0 <= k < |members| ==> GoodProperty(members[k], NESTING_LIMIT - depth)
    requires Terminated(t) && At(t, i, MembersText(members))
    ensures i < |t| && t[SkipSpace(t, i)] != RBRACE
    ensures ParseMembers(t, i, depth) == Done(MembersValue(members), i + |MembersText(members)|)
    decreases members, 2
  {
    hide At, ParseMember, ParseMembers, EntryText, KeyText, SkipSpace, GoodProperty, DocValue, LiteralValue;
    var m, rest := members[0], members[1..];
    var n := i + |KeyText(m)| + |EntryText(m.value)|;
    if |members| == 1 {
      MemberRead(t, i, depth, m, [RBRACE]);
      MembersStep(t, i, depth);
      assert rest == [] && MembersValue(members) == [Member(LiteralValue(m.key), DocValue(m.value.doc))];
      AtIndex(t, n, [RBRACE], 0);
    } else {
      MemberRead(t, i, depth, m, [COMMA] + MembersText(rest));
      AtConcat(t, n, [COMMA], MembersText(rest));
      MembersRead(t, n + 1, depth, rest);
      MembersStep(t, i, depth);
    }
  }
}

/** What the minifier does to comments, and to whole documents with comments between their tokens. */
module MinifyComments {
  import opened Bytes
  import opened JsonValue
  import opened JsonString
  import opened Numerals
  import opened Literals
  import opened JsonGrammar
  import opened GrammarReading
  import opened GrammarTaking
  import JsonParse
  import opened Minify

  // ---------------------------------------------------------------- one comment

  /** The first star with a slash behind it is at the very end. */
  predicate ClosesAtEnd(s: seq<byte>) {
    && |s| >= 2 && s[|s| - 2] == '*' as int && s[|s| - 1] == '/' as int
    && forall k :: 0 <= k < |s| - 2 ==> !(s[k] == '*' as int && s[k + 1] == '/' as int)
  }

  predicate NeverCloses(s: seq<byte>) {
    forall k :: 0 <= k < |s| - 1 ==> !(s[k] == '*' as int && s[k + 1] == '/' as int)
  }

  lemma {:induction false} LineEndAt(s: seq<byte>, i: nat, n: nat)
    requires i <= n <= |s| && (forall k :: i <= k < n ==> s[k] != NEWLINE) && (n == |s| || s[n] == NEWLINE)
    ensures LineEnd(s, i) == n
    decreases n - i
  {
    if i < n {
      LineEndAt(s, i + 1, n);
    }
  }

  lemma {:induction false} BlockEndAt(s: seq<byte>, i: nat, n: nat)
    requires i + 2 <= n <= |s| && ClosesAtEnd(s[i..n])
    ensures BlockEnd(s, i) == Some(n)
    decreases n - i
  {
    var c := s[i..n];
    assert c[|c| - 2] == s[n - 2] && c[|c| - 1] == s[n - 1];
    if i + 2 < n {
      assert c[0] == s[i] && c[1] == s[i + 1];
      assert s[i + 1..n] == c[1..];
      BlockEndAt(s, i + 1, n);
    }
  }

  lemma {:induction false} NoBlockEnd(s: seq<byte>, i: nat)
    requires i <= |s| && NeverCloses(s[i..])
    ensures BlockEnd(s, i) == None
    decreases |s| - i
  {
    if i < |s| {
      assert i + 1 < |s| ==> s[i..][0] == s[i] && s[i..][1] == s[i + 1];
      assert s[i + 1..] == s[i..][1..];
      NoBlockEnd(s, i + 1);
    }
  }

  /** A comment to the end of its line leaves nothing, and stops at the line break. */
  lemma LineCommentGone(c: seq<byte>, b: seq<byte>)
    requires NEWLINE !in c
    ensures Minified(['/' as int, '/' as int] + c + ['\n' as int] + b) == Minified(b)
    ensures Minified(['/' as int, '/' as int] + c) == Some([])
  {
    var head := [SLASH, SLASH] + c;
    var s, n := head + [NEWLINE] + b, |head|;
    LineEndAt(s, 1, n);
    LineEndAt(head, 1, n);
    assert s[n..] == [NEWLINE] + b && head[n..] == [];
    assert ([NEWLINE] + b)[1..] == b;
    assert Minified([NEWLINE] + b) == Minified(b);
  }

  /** A comment in a block leaves nothing and ends at its first closing, which may share its star with the opening. */
  lemma BlockCommentGone(c: seq<byte>, b: seq<byte>)
    requires ClosesAtEnd(['*' as int] + c)
    ensures Minified(['/' as int, '*' as int] + c + b) == Minified(b)
  {
    var s, n := [SLASH, STAR] + c + b, 2 + |c|;
    assert s[1..n] == [STAR] + c;
    BlockEndAt(s, 1, n);
    assert s[n..] == b;
  }

  /** Without a closing it takes the rest of the text. */
  lemma BlockCommentOpen(c: seq<byte>)
    requires NeverCloses(['*' as int] + c)
    ensures Minified(['/' as int, '*' as int] + c) == None
  {
    var s := [SLASH, STAR] + c;
    assert s[1..] == [STAR] + c;
    NoBlockEnd(s, 1);
  }

  // ---------------------------------------------------------------- what is left of a document

  /** A line comment stays on its line, and a block comment ends where it is closed. */
  predicate IsFiller(f: Filler) {
    match f
    case Blank(b) => 0 < b <= ' ' as int
    case LineComment(text) => '\n' as int !in text
    case BlockComment(text) => ClosesAtEnd(['*' as int] + text)
  }

  predicate IsGap(gap: Gap) {
    forall k :: 0 <= k < |gap| ==> IsFiller(gap[k])
  }

  predicate GapsFit(d: Doc)
    decreases d
  {
    match d
    case Array(inner, items) => IsGap(inner) && forall k :: 0 <= k < |items| ==> EntryFits(items[k])
    case Object(inner, members) =>
      && IsGap(inner)
      && forall k :: 0 <= k < |members| ==> PropertyFits(members[k])
    case _ => true
  }

  predicate PropertyFits(m: Property)
    decreases m
  {
    IsGap(m.before) && IsGap(m.between) && EntryFits(m.value)
  }

  predicate EntryFits(e: Entry)
    decreases e
  {
    IsGap(e.before) && GapsFit(e.doc) && IsGap(e.after)
  }

  /** The parser takes every byte up to 32 for a blank; the minifier only these four. */
  predicate Drops(f: Filler) {
    f.Blank? ==> f.b in [' ' as int, '\t' as int, '\r' as int, '\n' as int]
  }

  function BareGap(gap: Gap): Gap {
    if gap == [] then [] else (if Drops(gap[0]) then [] else [gap[0]]) + BareGap(gap[1..])
  }

  /** The document without the blanks and comments that the minifier drops. */
  function Bare(d: Doc): Doc
    decreases d
  {
    match d
    case Array(inner, items) => Array(BareGap(inner), BareItems(items))
    case Object(inner, members) => Object(BareGap(inner), BareMembers(members))
    case _ => d
  }

  function BareEntry(e: Entry): Entry
    decreases e
  {
    Entry(BareGap(e.before), Bare(e.doc), BareGap(e.after))
  }

  function BareItems(items: seq<Entry>): (r: seq<Entry>)
    ensures |r| == |items|
    decreases items
  {
    if items == [] then [] else [BareEntry(items[0])] + BareItems(items[1..])
  }

  function BareMembers(members: seq<Property>): (r: seq<Property>)
    ensures |r| == |members|
    decreases members
  {
    if members == [] then []
    else
      var m := members[0];
      [Property(BareGap(m.before), m.key, BareGap(m.between), BareEntry(m.value))] + BareMembers(members[1..])
  }

  // ---------------------------------------------------------------- the minifier on documents

  /** In front of any text, `s` leaves `r`. */
  ghost predicate Leaves(s: seq<byte>, r: seq<byte>) {
    forall rest :: Minified(s + rest) == Keep(r, Minified(rest))
  }

  lemma LeavesBoth(a: seq<byte>, x: seq<byte>, b: seq<byte>, y: seq<byte>)
    requires Leaves(a, x) && Leaves(b, y)
    ensures Leaves(a + b, x + y)
  {
    forall rest ensures Minified(a + b + rest) == Keep(x + y, Minified(rest)) {
      Joined(a, b, rest);
      assert Minified(a + (b + rest)) == Keep(x, Minified(b + rest));
      KeepConcat(x, y, Minified(rest));
    }
  }

  lemma PlainLeaves(s: seq<byte>)
    requires Plain(s)
    ensures Leaves(s, s)
  {
    forall rest ensures Minified(s + rest) == Keep(s, Minified(rest)) {
      PlainStays(s, rest);
    }
  }

  lemma FillerLeaves(f: Filler)
    requires IsFiller(f)
    ensures Leaves(FillerText(f), if Drops(f) then [] else FillerText(f))
  {
    hide Minified;
    if f.Blank? && !Drops(f) {
      PlainLeaves([f.b]);
    } else {
      forall rest ensures Minified(FillerText(f) + rest) == Keep([], Minified(rest)) {
        KeepNothing(Minified(rest));
        match f
        case Blank(b) => SpacesGo([b], rest);
        case LineComment(text) => LineCommentGone(text, rest);
        case BlockComment(text) => BlockCommentGone(text, rest);
      }
    }
  }

  lemma {:induction false} GapLeaves(gap: Gap)
    requires IsGap(gap)
    ensures Leaves(GapText(gap), GapText(BareGap(gap)))
    decreases |gap|
  {
    hide Leaves, IsFiller, Drops, FillerText;
    if gap == [] {
      PlainLeaves([]);
    } else {
      FillerLeaves(gap[0]);
      GapLeaves(gap[1..]);
      var first, rest := FillerText(gap[0]), GapText(BareGap(gap[1..]));
      LeavesBoth(first, if Drops(gap[0]) then [] else first, GapText(gap[1..]), rest);
      assert [] + rest == rest;
      if Drops(gap[0]) {
        assert BareGap(gap) == BareGap(gap[1..]);
      } else {
        assert BareGap(gap)[1..] == BareGap(gap[1..]);
      }
    }
  }

  lemma LiteralLeaves(x: Literal)
    requires IsLiteral(x)
    ensures Leaves(LiteralText(x), LiteralText(x))
  {
    hide Minified, IsBody, PiecesText, IsPiece;
    forall rest ensures Minified(LiteralText(x) + rest) == Keep(LiteralText(x), Minified(rest)) {
      var s, n := LiteralText(x) + rest, |LiteralText(x)|;
      assert s[1..1 + |x.body + [QUOTE]|] == x.body + [QUOTE];
      ScanOfBody(s, 1, x.body);
      LiteralFirst(s);
      assert s[..n] == LiteralText(x) && s[n..] == rest;
    }
  }

  lemma NumeralLeaves(n: Numeral)
    requires IsDoc(Number(n))
    ensures Leaves(NumeralText(n), NumeralText(n))
  {
    AllNumeral(n);
    PlainLeaves(NumeralText(n));
  }

  /** A document with comments leaves the same document without them. */
  lemma {:induction false} DocLeaves(d: Doc)
    requires IsDoc(d) && GapsFit(d)
    ensures Leaves(DocText(d), DocText(Bare(d)))
    decreases d, 0
  {
    hide Leaves, IsLiteral, NumeralText, LiteralText, GapText;
    match d
    case Word(j) => PlainLeaves(WordText(j));
    case Number(n) => NumeralLeaves(n);
    case Chars(x) => LiteralLeaves(x);
    case Array(inner, items) =>
      PlainLeaves([LBRACKET]);
      if items == [] {
        PlainLeaves([RBRACKET]);
        GapLeaves(inner);
        LeavesBoth(GapText(inner), GapText(BareGap(inner)), [RBRACKET], [RBRACKET]);
        LeavesBoth([LBRACKET], [LBRACKET], GapText(inner) + [RBRACKET], GapText(BareGap(inner)) + [RBRACKET]);
      } else {
        ItemsLeave(items);
        LeavesBoth([LBRACKET], [LBRACKET], ItemsText(items), ItemsText(BareItems(items)));
      }
    case Object(inner, members) =>
      PlainLeaves([LBRACE]);
      if members == [] {
        PlainLeaves([RBRACE]);
        GapLeaves(inner);
        LeavesBoth(GapText(inner), GapText(BareGap(inner)), [RBRACE], [RBRACE]);
        LeavesBoth([LBRACE], [LBRACE], GapText(inner) + [RBRACE], GapText(BareGap(inner)) + [RBRACE]);
      } else {
        MembersLeave(members);
        LeavesBoth([LBRACE], [LBRACE], MembersText(members), MembersText(BareMembers(members)));
      }
  }

  lemma {:induction false} EntryLeaves(e: Entry)
    requires IsDoc(e.doc) && EntryFits(e)
    ensures Leaves(EntryText(e), EntryText(BareEntry(e)))
    decreases e, 1
  {
    hide Leaves, DocText, GapText, IsDoc;
    GapLeaves(e.before);
    DocLeaves(e.doc);
    GapLeaves(e.after);
    var bare := BareEntry(e);
    LeavesBoth(DocText(e.doc), DocText(bare.doc), GapText(e.after), GapText(bare.after));
    LeavesBoth(GapText(e.before), GapText(bare.before), DocText(e.doc) + GapText(e.after),
               DocText(bare.doc) + GapText(bare.after));
  }

  lemma {:induction false} ItemsLeave(items: seq<Entry>)
    requires items != [] && forall k :: 0 <= k < |items| ==> IsDoc(items[k].doc) && EntryFits(items[k])
    ensures Leaves(ItemsText(items), ItemsText(BareItems(items)))
    decreases items, 2
  {
    hide Leaves, EntryText, IsDoc, EntryFits, BareEntry;
    var e, bare := items[0], BareEntry(items[0]);
    EntryLeaves(e);
    PlainLeaves([RBRACKET]);
    PlainLeaves([COMMA]);
    if |items| == 1 {
      LeavesBoth(EntryText(e), EntryText(bare), [RBRACKET], [RBRACKET]);
    } else {
      var rest, less := items[1..], BareItems(items[1..]);
      ItemsLeave(rest);
      LeavesBoth([COMMA], [COMMA], ItemsText(rest), ItemsText(less));
      LeavesBoth(EntryText(e), EntryText(bare), [COMMA] + ItemsText(rest), [COMMA] + ItemsText(less));
      assert BareItems(items)[1..] == less;
    }
  }

  lemma KeyLeaves(m: Property)
    requires IsLiteral(m.key) && IsGap(m.before) && IsGap(m.between)
    ensures Leaves(KeyText(m), KeyText(m.(before := BareGap(m.before), between := BareGap(m.between))))
  {
    hide Leaves, IsLiteral, LiteralText, GapText;
    GapLeaves(m.before);
    GapLeaves(m.between);
    LiteralLeaves(m.key);
    PlainLeaves([COLON]);
    var before, between, key := GapText(BareGap(m.before)), GapText(BareGap(m.between)), LiteralText(m.key);
    LeavesBoth(GapText(m.between), between, [COLON], [COLON]);
    LeavesBoth(key, key, GapText(m.between) + [COLON], between + [COLON]);
    LeavesBoth(GapText(m.before), before, key + (GapText(m.between) + [COLON]), key + (between + [COLON]));
  }

  lemma {:induction false} MembersLeave(members: seq<Property>)
    requires members != []
    requires forall k :: 0 <= k < |members| ==> IsLiteral(members[k].key) && IsDoc(members[k].value.doc)
    requires forall k :: 0 <= k < |members| ==> PropertyFits(members[k])
    ensures Leaves(MembersText(members), MembersText(BareMembers(members)))
    decreases members, 2
  {
    hide Leaves, EntryText, KeyText, IsLiteral, IsDoc, EntryFits, BareEntry, IsGap;
    assert PropertyFits(members[0]);
    var m, bare := members[0], BareMembers(members)[0];
    var value, bareValue := EntryText(m.value), EntryText(bare.value);
    KeyLeaves(m);
    KeyTextOf(bare, m);
    EntryLeaves(m.value);
    PlainLeaves([RBRACE]);
    PlainLeaves([COMMA]);
    if |members| == 1 {
      LeavesBoth(value, bareValue, [RBRACE], [RBRACE]);
      LeavesBoth(KeyText(m), KeyText(bare), value + [RBRACE], bareValue + [RBRACE]);
    } else {
      var rest, less := members[1..], BareMembers(members[1..]);
      MembersLeave(rest);
      var tail, bareTail := [COMMA] + MembersText(rest), [COMMA] + MembersText(less);
      LeavesBoth([COMMA], [COMMA], MembersText(rest), MembersText(less));
      LeavesBoth(value, bareValue, tail, bareTail);
      LeavesBoth(KeyText(m), KeyText(bare), value + tail, bareValue + bareTail);
      assert BareMembers(members)[1..] == less;
    }
  }

  lemma KeyTextOf(bare: Property, m: Property)
    requires bare.before == BareGap(m.before) && bare.between == BareGap(m.between) && bare.key == m.key
    ensures KeyText(bare) == KeyText(m.(before := BareGap(m.before), between := BareGap(m.between)))
  {
  }

  /**
   Whatever blanks and comments stand around the tokens of a document, minifying leaves the document without them;
   so two texts that differ in comments alone are minified to the same.
   */
  lemma MinifiedDocument(e: Entry)
    requires IsDoc(e.doc) && EntryFits(e)
    ensures Minified(EntryText(e)) == Some(EntryText(BareEntry(e)))
  {
    hide EntryText, IsDoc, EntryFits, BareEntry;
    EntryLeaves(e);
    var s, r := EntryText(e), EntryText(BareEntry(e));
    assert s + [] == s && r + [] == r;
    assert Minified(s + []) == Keep(r, Minified([]));
  }

  // ---------------------------------------------------------------- and what it stands for

  /** Dropping blanks and comments changes no value, and leaves no comment. */
  lemma {:induction false} BareValue(d: Doc)
    ensures DocValue(Bare(d)) == DocValue(d)
    decreases d, 0
  {
    match d
    case Array(_, items) => BareItemsValue(items);
    case Object(_, members) => BareMembersValue(members);
    case _ =>
  }

  lemma {:induction false} BareItemsValue(items: seq<Entry>)
    ensures ItemsValue(BareItems(items)) == ItemsValue(items)
    decreases items, 1
  {
    if items != [] {
      BareValue(items[0].doc);
      BareItemsValue(items[1..]);
      assert BareItems(items)[1..] == BareItems(items[1..]);
    }
  }

  lemma {:induction false} BareMembersValue(members: seq<Property>)
    ensures MembersValue(BareMembers(members)) == MembersValue(members)
    decreases members, 1
  {
    if members != [] {
      BareValue(members[0].value.doc);
      BareMembersValue(members[1..]);
      assert BareMembers(members)[1..] == BareMembers(members[1..]);
    }
  }

  lemma {:induction false} BareGapPlain(gap: Gap)
    requires IsGap(gap)
    ensures AllBlank(BareGap(gap))
    decreases |gap|
  {
    if gap != [] {
      BareGapPlain(gap[1..]);
      assert IsFiller(gap[0]);
    }
  }

  lemma {:induction false} BareGood(d: Doc, depth: int)
    requires IsDoc(d) && GapsFit(d) && FitsDepth(d, depth)
    ensures GoodDoc(Bare(d), depth)
    decreases d, 0
  {
    hide IsLiteral, AllBlank, IsNumeralText, NumeralText;
    match d
    case Array(inner, items) =>
      BareGapPlain(inner);
      BareItemsGood(items, depth - 1);
      ArrayParts(BareGap(inner), BareItems(items), depth);
    case Object(inner, members) =>
      BareGapPlain(inner);
      BareMembersGood(members, depth - 1);
      ObjectParts(BareGap(inner), BareMembers(members), depth);
    case _ =>
  }

  lemma {:induction false} BareEntryGood(e: Entry, depth: int)
    requires IsDoc(e.doc) && EntryFits(e) && FitsDepth(e.doc, depth)
    ensures GoodEntry(BareEntry(e), depth)
    decreases e, 1
  {
    hide IsDoc, AllBlank, FitsDepth, GoodDoc;
    BareGapPlain(e.before);
    BareGapPlain(e.after);
    BareGood(e.doc, depth);
  }

  lemma {:induction false} BareItemsGood(items: seq<Entry>, depth: int)
    requires forall k :: 0 <= k < |items| ==> IsDoc(items[k].doc) && EntryFits(items[k])
    requires forall k :: 0 <= k < |items| ==> FitsDepth(items[k].doc, depth)
    ensures forall k :: 0 <= k < |items| ==> GoodEntry(BareItems(items)[k], depth)
    decreases items, 2
  {
    hide IsDoc, EntryFits, FitsDepth, GoodEntry, BareEntry;
    if items != [] {
      BareEntryGood(items[0], depth);
      BareItemsGood(items[1..], depth);
    }
  }

  lemma {:induction false} BareMembersGood(members: seq<Property>, depth: int)
    requires forall k :: 0 <= k < |members| ==> IsLiteral(members[k].key) && IsDoc(members[k].value.doc)
    requires forall k :: 0 <= k < |members| ==> PropertyFits(members[k]) && FitsDepth(members[k].value.doc, depth)
    ensures forall k :: 0 <= k < |members| ==> GoodProperty(BareMembers(members)[k], depth)
    decreases members, 2
  {
    hide IsDoc, IsLiteral, EntryFits, FitsDepth, GoodEntry, BareEntry, AllBlank, IsGap;
    if members != [] {
      assert PropertyFits(members[0]);
      BareGapPlain(members[0].before);
      BareGapPlain(members[0].between);
      BareEntryGood(members[0].value, depth);
      BareMembersGood(members[1..], depth);
    }
  }

  /** A document with comments, which the parser refuses, is accepted once it is minified, for what it stands for. */
  lemma MinifiedIsRead(e: Entry, requireEnd: bool)
    requires IsDoc(e.doc) && EntryFits(e) && FitsDepth(e.doc, 1000)
    ensures Minified(EntryText(e)).Some?
    ensures JsonParse.ParseText(Minified(EntryText(e)).value + [NUL], requireEnd).0 == Some(DocValue(e.doc))
  {
    hide IsDoc, EntryFits, FitsDepth, GoodEntry, EntryText, Minified, JsonParse.ParseText, DocValue;
    MinifiedDocument(e);
    BareEntryGood(e, NESTING_LIMIT);
    BareValue(e.doc);
    var source := Source(false, BareEntry(e));
    assert [] + EntryText(BareEntry(e)) == EntryText(BareEntry(e));
    SourceRead(EntryText(BareEntry(e)), source, DocValue(e.doc), requireEnd);
  }
}

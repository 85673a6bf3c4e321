/** The parser gives back every printed tree, in both layouts, exactly up to the nesting limit. */
module JsonRoundTrip {
  import opened Bytes
  import opened JsonValue
  import opened JsonNumber
  import opened JsonString
  import opened JsonRender
  import opened JsonParse

  predicate Blank(s: seq<byte>) {
    forall k :: 0 <= k < |s| ==> s[k] <= 32
  }

  lemma {:induction false} SkipsBlank(t: seq<byte>, i: nat, s: seq<byte>)
    requires At(t, i, s) && Blank(s) && i + |s| < |t|
    ensures SkipSpace(t, i) == SkipSpace(t, i + |s|)
    decreases |s|
  {
    if s != [] {
      AtIndex(t, i, s, 0);
      assert s == [s[0]] + s[1..];
      AtConcat(t, i, [s[0]], s[1..]);
      SkipsBlank(t, i + 1, s[1..]);
    }
  }

  /** A literal is read back where it stands. */
  lemma ParseOfQuoted(t: seq<byte>, i: nat, s: seq<byte>)
    requires Terminated(t) && NulFree(s) && At(t, i, Quoted(s))
    ensures i + |Quoted(s)| <= |t| && ParseString(t, i) == Done(s, i + |Quoted(s)|)
  {
    hide Decode, ScanString, Escaped;
    assert Quoted(s) == [QUOTE] + (Escaped(s) + [QUOTE]);
    AtConcat(t, i, [QUOTE], Escaped(s) + [QUOTE]);
    AtIndex(t, i, [QUOTE], 0);
    ScanOfEscaped(t, i + 1, s);
    DecodeOfEscaped(t, i + 1, s);
    CStringOfNulFree(s);
  }

  /** An integer is read back when no byte of a numeral follows it. */
  lemma ParseOfInteger(t: seq<byte>, i: nat, x: real)
    requires Terminated(t) && IsShortInteger(x) && At(t, i, IntText(x.Floor))
    requires i + |IntText(x.Floor)| < |t| && !IsNumeral(t[i + |IntText(x.Floor)|])
    ensures ParseNumber(t, i) == Done(Num(x), i + |IntText(x.Floor)|)
  {
    hide Strtod, IntText, CopyEnd;
    var s := IntText(x.Floor);
    IntTextLength(x.Floor);
    forall k | i <= k < i + |s| ensures IsNumeral(t[k]) {
      AtIndex(t, i, s, k - i);
    }
    CopiesText(t, i, 0, |s|);
    StrtodOfIntText(x.Floor);
  }

  /** A text begins with a byte that is not skipped. */
  lemma FirstByte(t: seq<byte>, i: nat, j: Json, format: bool, depth: nat)
    requires At(t, i, Render(j, format, depth)) && i < |t|
    ensures t[i] == Render(j, format, depth)[0] && SkipSpace(t, i) == i
  {
    AtIndex(t, i, Render(j, format, depth), 0);
  }

  lemma ParseOfKeyword(t: seq<byte>, i: nat, j: Json, format: bool, depth: nat, d: nat)
    requires Terminated(t) && At(t, i, Render(j, format, depth)) && i < |t| && (j.Null? || j.Bool?)
    ensures ParseValue(t, i, d) == Done(j, i + |Render(j, format, depth)|)
  {
    hide ParseString, ParseNumber, ParseArray, ParseObject, SkipSpace;
    FirstByte(t, i, j, format, depth);
    assert StartsWith(t, i, Render(j, format, depth));
    StartsWithFirst(t, i, NULL_TEXT);
    StartsWithFirst(t, i, FALSE_TEXT);
  }

  /** `j` is read from its text at i, unless it nests too deeply for the depth d already open. */
  lemma {:induction false} ParseOfRender(t: seq<byte>, i: nat, j: Json, format: bool, depth: nat, d: nat)
    requires Terminated(t) && Printable(j) && d <= NESTING_LIMIT && At(t, i, Render(j, format, depth))
    requires i + |Render(j, format, depth)| < |t| && !IsNumeral(t[i + |Render(j, format, depth)|])
    ensures d + Nesting(j) <= NESTING_LIMIT ==> ParseValue(t, i, d) == Done(j, i + |Render(j, format, depth)|)
    ensures d + Nesting(j) > NESTING_LIMIT ==> ParseValue(t, i, d).Failed?
    decreases j, 0
  {
    hide ParseValue, ParseString, ParseNumber, ParseArray, ParseObject, SkipSpace;
    hide RenderItems, RenderMembers, Escaped, IntText;
    FirstByte(t, i, j, format, depth);
    match j
    case Null => ParseOfKeyword(t, i, j, format, depth, d);
    case Bool(_) => ParseOfKeyword(t, i, j, format, depth, d);
    case Num(x) =>
      ValueIsNumber(t, i, d);
      ParseOfInteger(t, i, x);
    case Str(s) =>
      ValueIsString(t, i, d);
      ParseOfQuoted(t, i, s);
    case Arr(items) =>
      ValueIsArray(t, i, d);
      ParseOfArray(t, i, items, format, depth, d);
    case Obj(members) =>
      ValueIsObject(t, i, d);
      ParseOfObject(t, i, members, format, depth, d);
  }

  lemma {:induction false} ParseOfArray(t: seq<byte>, i: nat, items: seq<Json>, format: bool, depth: nat, d: nat)
    requires Terminated(t) && AllPrintable(items) && d <= NESTING_LIMIT
    requires At(t, i, Render(Arr(items), format, depth)) && i < |t| && t[i] == LBRACKET
    ensures d + Nesting(Arr(items)) <= NESTING_LIMIT ==>
      ParseArray(t, i, d) == Done(Arr(items), i + |Render(Arr(items), format, depth)|)
    ensures d + Nesting(Arr(items)) > NESTING_LIMIT ==> ParseArray(t, i, d).Failed?
    decreases items, 1
  {
    hide ParseArray, ParseItems, SkipSpace;
    var text := RenderItems(items, format, depth + 1);
    assert Render(Arr(items), format, depth) == [LBRACKET] + (text + [RBRACKET]);
    AtConcat(t, i, [LBRACKET], text + [RBRACKET]);
    AtIndex(t, i + 1, text + [RBRACKET], 0);
    ArrayStep(t, i, d);
    if d < NESTING_LIMIT {
      if items == [] {
        Stays(t, i + 1);
      } else {
        ParseOfItems(t, i + 1, items, format, depth + 1, d + 1);
      }
    }
  }

  lemma Stays(t: seq<byte>, i: nat)
    requires i < |t| && t[i] > 32
    ensures SkipSpace(t, i) == i
  {
  }

  lemma FirstIsNoBracket(j: Json, format: bool, depth: nat)
    ensures Render(j, format, depth)[0] != RBRACKET && !IsNumeral(COMMA) && !IsNumeral(RBRACKET)
  {
  }

  /** The pieces between the tokens are blank, but for the one byte they begin with. */
  lemma Blanks(format: bool, depth: nat)
    ensures Blank(Indent(format, depth)) && Blank(LineBreak(format))
    ensures var s := Separator(format); |s| > 0 && s == [COMMA] + s[1..] && Blank(s[1..])
    ensures var s := KeyEnd(format); |s| > 0 && s == [COLON] + s[1..] && Blank(s[1..]) && s[0] == COLON
  {
  }

  lemma BlankLayout(t: seq<byte>, c: nat, s: seq<byte>, rest: seq<byte>)
    requires At(t, c, s + rest) && Blank(s) && rest != []
    ensures c <= c + |s| < |t| && SkipSpace(t, c) == SkipSpace(t, c + |s|)
    ensures At(t, c + |s|, rest) && t[c + |s|] == rest[0] && t[c] == if s == [] then rest[0] else s[0]
  {
    hide At, SkipSpace, Blank;
    AtConcat(t, c, s, rest);
    AtIndex(t, c + |s|, rest, 0);
    if s != [] {
      AtIndex(t, c, s, 0);
    }
    SkipsBlank(t, c, s);
  }

  /** A mark with white space behind it, in front of something else. */
  lemma MarkLayout(t: seq<byte>, c: nat, mark: byte, s: seq<byte>, rest: seq<byte>)
    requires At(t, c, s + rest) && |s| > 0 && s == [mark] + s[1..] && Blank(s[1..]) && rest != []
    ensures c + 1 < |t| && t[c] == mark && c + |s| < |t| && SkipSpace(t, c + 1) == SkipSpace(t, c + |s|)
    ensures At(t, c + |s|, rest) && t[c + |s|] == rest[0]
  {
    hide At, SkipSpace, Blank;
    Joined([mark], s[1..], rest);
    AtConcat(t, c, [mark], s[1..] + rest);
    AtIndex(t, c, [mark], 0);
    BlankLayout(t, c + 1, s[1..], rest);
  }

  /** Where the first of some elements stands, and what follows it. */
  lemma ItemsLayout(t: seq<byte>, i: nat, items: seq<Json>, format: bool, depth: nat)
    requires items != [] && At(t, i, RenderItems(items, format, depth) + [RBRACKET])
    ensures var first := Render(items[0], format, depth); var e := i + |first|;
      && At(t, i, first) && e < |t|
      && |RenderItems(items, format, depth)| == |first| + |ItemsRest(items[1..], format, depth)|
      && (if |items| == 1 then t[e] == RBRACKET && ItemsRest(items[1..], format, depth) == [] else
          var next := e + |Separator(format)|;
          && t[e] == COMMA && next < |t| && SkipSpace(t, e + 1) == SkipSpace(t, next)
          && At(t, next, RenderItems(items[1..], format, depth) + [RBRACKET])
          && |ItemsRest(items[1..], format, depth)| == |Separator(format)| + |RenderItems(items[1..], format, depth)|)
  {
    hide At, Render, SkipSpace, Separator, KeyEnd, Indent, LineBreak, MemberEnd, Blank;
    Blanks(format, 0);
    var first, rest := Render(items[0], format, depth), ItemsRest(items[1..], format, depth);
    var e := i + |first|;
    Joined(first, rest, [RBRACKET]);
    AtConcat(t, i, first, rest + [RBRACKET]);
    AtIndex(t, e, rest + [RBRACKET], 0);
    if |items| > 1 {
      var sep, more := Separator(format), RenderItems(items[1..], format, depth);
      assert rest == sep + more;
      Joined(sep, more, [RBRACKET]);
      MarkLayout(t, e, COMMA, sep, more + [RBRACKET]);
    }
  }

  lemma {:induction false} ParseOfItems(t: seq<byte>, i: nat, items: seq<Json>, format: bool, depth: nat, d: nat)
    requires Terminated(t) && items != [] && AllPrintable(items) && d <= NESTING_LIMIT
    requires At(t, i, RenderItems(items, format, depth) + [RBRACKET])
    ensures i < |t| && SkipSpace(t, i) == i && t[i] != RBRACKET
    ensures d + ItemsNesting(items) <= NESTING_LIMIT ==>
      ParseItems(t, i, d) == Done(items, i + |RenderItems(items, format, depth)| + 1)
    ensures d + ItemsNesting(items) > NESTING_LIMIT ==> ParseItems(t, i, d).Failed?
    decreases items, 0
  {
    hide At, Render, RenderItems, ItemsRest, ParseItems, ParseValue, SkipSpace, Nesting, ItemsNesting;
    NestingOfItems(items);
    ItemsLayout(t, i, items, format, depth);
    var e := i + |Render(items[0], format, depth)|;
    FirstByte(t, i, items[0], format, depth);
    FirstIsNoBracket(items[0], format, depth);
    ParseOfRender(t, i, items[0], format, depth, d);
    ItemsStep(t, i, d);
    Stays(t, e);
    if |items| == 1 {
      assert items == [items[0]] && items[1..] == [];
    } else if d + Nesting(items[0]) <= NESTING_LIMIT {
      var next := e + |Separator(format)|;
      ParseOfItems(t, next, items[1..], format, depth, d);
      ItemsStep(t, e + 1, d);
      ItemsStep(t, next, d);
      assert [items[0]] + items[1..] == items;
    }
  }

  /** Where the members of an object begin. */
  lemma ObjectLayout(t: seq<byte>, i: nat, members: seq<Member>, format: bool, depth: nat)
    requires At(t, i, Render(Obj(members), format, depth))
    ensures var a := i + 1 + |LineBreak(format)|; var tail := Indent(format, depth) + [RBRACE];
      && i + 1 < |t| && a < |t| && SkipSpace(t, i + 1) == SkipSpace(t, a)
      && At(t, a, RenderMembers(members, format, depth + 1) + tail)
      && |Render(Obj(members), format, depth)| == a - i + |RenderMembers(members, format, depth + 1) + tail|
  {
    hide At, RenderMembers, SkipSpace;
    var line, text := LineBreak(format), RenderMembers(members, format, depth + 1);
    var indent := Indent(format, depth);
    assert Render(Obj(members), format, depth) == [LBRACE] + (line + (text + (indent + [RBRACE])));
    AtConcat(t, i, [LBRACE], line + (text + (indent + [RBRACE])));
    AtConcat(t, i + 1, line, text + (indent + [RBRACE]));
    SkipsBlank(t, i + 1, line);
  }

  /** What closes an object: the indentation of the level outside, and the bracket. */
  lemma ClosingLayout(t: seq<byte>, i: nat, format: bool, depth: nat)
    requires At(t, i, Indent(format, depth) + [RBRACE])
    ensures var z := i + |Indent(format, depth)|;
      z < |t| && t[z] == RBRACE && SkipSpace(t, i) == z
  {
    hide At, SkipSpace;
    var indent := Indent(format, depth);
    AtConcat(t, i, indent, [RBRACE]);
    AtIndex(t, i + |indent|, [RBRACE], 0);
    SkipsBlank(t, i, indent);
    Stays(t, i + |indent|);
  }

  lemma {:induction false} ParseOfObject(t: seq<byte>, i: nat, members: seq<Member>, format: bool, depth: nat, d: nat)
    requires Terminated(t) && AllMembersPrintable(members) && d <= NESTING_LIMIT
    requires At(t, i, Render(Obj(members), format, depth)) && i < |t| && t[i] == LBRACE
    ensures d + Nesting(Obj(members)) <= NESTING_LIMIT ==>
      ParseObject(t, i, d) == Done(Obj(members), i + |Render(Obj(members), format, depth)|)
    ensures d + Nesting(Obj(members)) > NESTING_LIMIT ==> ParseObject(t, i, d).Failed?
    decreases members, 1
  {
    hide At, Render, ParseObject, ParseMembers, SkipSpace, MembersNesting, Nesting, Indent, LineBreak, RenderMembers;
    NestingOfObject(members);
    ObjectLayout(t, i, members, format, depth);
    ObjectStep(t, i, d);
    if d < NESTING_LIMIT {
      var a := i + 1 + |LineBreak(format)|;
      if members == [] {
        NoMembers(format, depth);
        ClosingLayout(t, a, format, depth);
      } else {
        ParseOfMembers(t, a, members, format, depth + 1, depth, d + 1);
        Stays(t, SkipSpace(t, a));
        SameMembers(t, a, SkipSpace(t, a), d + 1);
      }
    }
  }

  lemma NoMembers(format: bool, depth: nat)
    ensures RenderMembers([], format, depth + 1) + (Indent(format, depth) + [RBRACE])
      == Indent(format, depth) + [RBRACE]
    ensures MembersNesting([]) == 0
  {
  }

  lemma SameMembers(t: seq<byte>, i: nat, k: nat, d: nat)
    requires Terminated(t) && i < |t| && k < |t| && SkipSpace(t, i) == SkipSpace(t, k)
    ensures ParseMembers(t, i, d) == ParseMembers(t, k, d)
  {
    hide ParseMembers, ParseMember, SkipSpace, ParseValue, ParseString;
    MembersStep(t, i, d);
    MembersStep(t, k, d);
    MemberStep(t, i, d);
    MemberStep(t, k, d);
  }

  /** Where the key, the colon and the value of a member stand. */
  lemma MemberLayout(t: seq<byte>, i: nat, key: seq<byte>, value: seq<byte>, format: bool, depth: nat)
    requires At(t, i, RenderKey(key, format, depth) + value) && value != [] && value[0] > 32
    ensures var a := i + |Indent(format, depth)|; var c := a + |Quoted(key)|; var v := c + |KeyEnd(format)|;
      && a < |t| && t[a] == QUOTE && SkipSpace(t, i) == a && At(t, a, Quoted(key))
      && c + 1 < |t| && t[c] == COLON && SkipSpace(t, c) == c
      && v < |t| && SkipSpace(t, c + 1) == v && At(t, v, value)
      && v + |value| == i + |RenderKey(key, format, depth) + value|
  {
    hide At, SkipSpace, Quoted, Indent, KeyEnd, Separator, Blank, LineBreak, MemberEnd;
    Blanks(format, depth);
    var indent, quoted, colon := Indent(format, depth), Quoted(key), KeyEnd(format);
    Joined(indent + quoted, colon, value);
    Joined(indent, quoted, colon + value);
    BlankLayout(t, i, indent, quoted + (colon + value));
    var a := i + |indent|;
    AtConcat(t, a, quoted, colon + value);
    AtIndex(t, a, quoted, 0);
    Stays(t, a);
    var c := a + |quoted|;
    MarkLayout(t, c, COLON, colon, value);
    Stays(t, c);
    Stays(t, c + |colon|);
  }

  /** One member: blanks, key, colon and value. */
  lemma {:induction false} ParseOfMember(t: seq<byte>, i: nat, m: Member, format: bool, depth: nat, d: nat)
    requires Terminated(t) && NulFree(m.key) && Printable(m.value) && d <= NESTING_LIMIT
    requires At(t, i, RenderKey(m.key, format, depth) + Render(m.value, format, depth))
    requires var e := i + |RenderKey(m.key, format, depth) + Render(m.value, format, depth)|;
      e < |t| && !IsNumeral(t[e])
    ensures i < |t| && t[SkipSpace(t, i)] == QUOTE
    ensures d + Nesting(m.value) <= NESTING_LIMIT ==>
      ParseMember(t, i, d) == Done(m, i + |RenderKey(m.key, format, depth) + Render(m.value, format, depth)|)
    ensures d + Nesting(m.value) > NESTING_LIMIT ==> ParseMember(t, i, d).Failed?
    decreases m.value, 1
  {
    hide At, Render, RenderKey, ParseMember, ParseString, ParseValue, SkipSpace, Escaped, Nesting;
    MemberLayout(t, i, m.key, Render(m.value, format, depth), format, depth);
    var a := i + |Indent(format, depth)|;
    ParseOfQuoted(t, a, m.key);
    ParseOfRender(t, a + |Quoted(m.key)| + |KeyEnd(format)|, m.value, format, depth, d);
    MemberStep(t, i, d);
  }

  /** Where the first of some members stands, and what follows it up to the closing bracket. */
  lemma MembersLayout(t: seq<byte>, i: nat, members: seq<Member>, format: bool, depth: nat, tail: seq<byte>)
    requires members != [] && At(t, i, RenderMembers(members, format, depth) + tail) && tail != []
    requires tail[0] == TAB || tail[0] == RBRACE
    ensures var head := RenderKey(members[0].key, format, depth) + Render(members[0].value, format, depth);
      var e := i + |head|; var next := e + |MemberEnd(|members| == 1, format)|;
      && At(t, i, head) && next < |t| && !IsNumeral(t[e])
      && At(t, next, RenderMembers(members[1..], format, depth) + tail)
      && |RenderMembers(members, format, depth) + tail|
         == next - i + |RenderMembers(members[1..], format, depth) + tail|
      && (if |members| == 1 then SkipSpace(t, e) == SkipSpace(t, next)
          else t[e] == COMMA && SkipSpace(t, e + 1) == SkipSpace(t, next))
  {
    hide At, Render, SkipSpace, RenderKey, MemberEnd;
    var m, last := members[0], |members| == 1;
    var head := RenderKey(m.key, format, depth) + Render(m.value, format, depth);
    var end, rest := MemberEnd(last, format), RenderMembers(members[1..], format, depth);
    assert RenderMembers(members, format, depth) == (head + end) + rest;
    Joined(head + end, rest, tail);
    Joined(head, end, rest + tail);
    AtConcat(t, i, head, end + (rest + tail));
    if last {
      assert rest + tail == tail;
    }
    EndLayout(t, i + |head|, last, format, rest + tail);
  }

  /** Where the end of a member stands: at a comma, or at the white space in front of the closing bracket. */
  lemma EndLayout(t: seq<byte>, e: nat, last: bool, format: bool, rest: seq<byte>)
    requires At(t, e, MemberEnd(last, format) + rest) && rest != []
    requires last ==> rest[0] == TAB || rest[0] == RBRACE
    ensures var next := e + |MemberEnd(last, format)|;
      && e <= next < |t| && !IsNumeral(t[e]) && At(t, next, rest)
      && (if last then SkipSpace(t, e) == SkipSpace(t, next)
          else t[e] == COMMA && SkipSpace(t, e + 1) == SkipSpace(t, next))
  {
    hide At, SkipSpace, LineBreak, Blank, MemberEnd;
    LineBreaks(format);
    if last {
      LastEnd(t, e, format, rest);
    } else {
      CommaEnd(t, e, format, rest);
    }
  }

  lemma LastEnd(t: seq<byte>, e: nat, format: bool, rest: seq<byte>)
    requires At(t, e, LineBreak(format) + rest) && rest != [] && (rest[0] == TAB || rest[0] == RBRACE)
    ensures var next := e + |LineBreak(format)|;
      next < |t| && At(t, next, rest) && SkipSpace(t, e) == SkipSpace(t, next) && !IsNumeral(t[e])
  {
    hide At, SkipSpace, Blank, LineBreak, IsNumeral;
    LineBreaks(format);
    BlankLayout(t, e, LineBreak(format), rest);
  }

  lemma CommaEnd(t: seq<byte>, e: nat, format: bool, rest: seq<byte>)
    requires At(t, e, [COMMA] + LineBreak(format) + rest) && rest != []
    ensures var next := e + |[COMMA] + LineBreak(format)|;
      next < |t| && At(t, next, rest) && t[e] == COMMA && SkipSpace(t, e + 1) == SkipSpace(t, next)
  {
    hide At, SkipSpace, Blank, LineBreak;
    LineBreaks(format);
    var end := [COMMA] + LineBreak(format);
    assert end[1..] == LineBreak(format);
    MarkLayout(t, e, COMMA, end, rest);
  }

  lemma LineBreaks(format: bool)
    ensures MemberEnd(true, format) == LineBreak(format) && MemberEnd(false, format) == [COMMA] + LineBreak(format)
    ensures Blank(LineBreak(format))
    ensures LineBreak(format) == [] || LineBreak(format)[0] == NEWLINE
    ensures !IsNumeral(NEWLINE) && !IsNumeral(COMMA) && !IsNumeral(TAB) && !IsNumeral(RBRACE)
  {
  }

  lemma {:induction false} ParseOfMembers(t: seq<byte>, i: nat, members: seq<Member>, format: bool, depth: nat,
                                          outer: nat, d: nat)
    requires Terminated(t) && members != [] && AllMembersPrintable(members) && d <= NESTING_LIMIT
    requires At(t, i, RenderMembers(members, format, depth) + (Indent(format, outer) + [RBRACE]))
    ensures i < |t| && t[SkipSpace(t, i)] == QUOTE
    ensures d + MembersNesting(members) <= NESTING_LIMIT ==>
      ParseMembers(t, i, d)
      == Done(members, i + |RenderMembers(members, format, depth) + (Indent(format, outer) + [RBRACE])|)
    ensures d + MembersNesting(members) > NESTING_LIMIT ==> ParseMembers(t, i, d).Failed?
    decreases members, 0
  {
    hide At, Render, RenderKey, RenderMembers, ParseMembers, ParseMember, SkipSpace, Nesting, MembersNesting;
    NestingOfMembers(members);
    var m, last := members[0], |members| == 1;
    var tail := Indent(format, outer) + [RBRACE];
    MembersLayout(t, i, members, format, depth, tail);
    var e := i + |RenderKey(m.key, format, depth) + Render(m.value, format, depth)|;
    var next := e + |MemberEnd(last, format)|;
    ParseOfMember(t, i, m, format, depth, d);
    MembersStep(t, i, d);
    if last {
      assert members == [m] && members[1..] == [];
      NoMoreMembers(format, depth, tail);
      ClosingLayout(t, next, format, outer);
    } else if d + Nesting(m.value) <= NESTING_LIMIT {
      ParseOfMembers(t, next, members[1..], format, depth, outer, d);
      Stays(t, e);
      SameMembers(t, e + 1, next, d);
      assert [m] + members[1..] == members;
    }
  }

  lemma NoMoreMembers(format: bool, depth: nat, tail: seq<byte>)
    ensures RenderMembers([], format, depth) + tail == tail
  {
  }

  lemma NoMark(j: Json, format: bool)
    ensures SkipMark(Render(j, format, 0) + [NUL]) == 0
  {
    var t := Render(j, format, 0) + [NUL];
    assert t[0] == Render(j, format, 0)[0] != 0xEF;
    if |t| > 4 {
      assert t[..3][0] == t[0];
    }
  }

  lemma AtTerminator(t: seq<byte>, i: nat)
    requires i + 1 == |t|
    ensures SkipSpace(t, i) == i
  {
  }

  /**
   Every printable tree, printed in either layout, is parsed to itself, and the cursor stops exactly at
   the terminator, if and only if it nests no deeper than the limit; whether or not the end is required.
   */
  lemma RoundTrip(j: Json, format: bool, requireEnd: bool)
    requires Printable(j)
    ensures NulFree(Render(j, format, 0))
    ensures var text := Render(j, format, 0); var r := ParseText(text + [NUL], requireEnd);
      if Nesting(j) <= NESTING_LIMIT then r == (Some(j), |text|) else r.0 == None
  {
    hide Render, ParseValue, ParseText, SkipSpace, Nesting, Printable, SkipMark;
    var text := Render(j, format, 0);
    var t := text + [NUL];
    RenderNulFree(j, format, 0);
    NoMark(j, format);
    assert t[0..|text|] == text;
    FirstByte(t, 0, j, format, 0);
    ParseOfRender(t, 0, j, format, 0, 0);
    WholeText(t, requireEnd);
  }

  /** The whole text is what the value parser makes of it, if nothing is left behind the value. */
  lemma WholeText(t: seq<byte>, requireEnd: bool)
    requires Terminated(t)
    ensures var v := ParseValue(t, SkipSpace(t, SkipMark(t)), 0);
      && (v.Failed? ==> ParseText(t, requireEnd).0 == None)
      && (v.Done? && v.offset == |t| - 1 ==> ParseText(t, requireEnd) == (Some(v.value), |t| - 1))
  {
    hide ParseValue, SkipMark;
    AtTerminator(t, |t| - 1);
  }

  /** Arrays one inside the other. */
  function Nested(n: nat): Json {
    if n == 0 then Null else Arr([Nested(n - 1)])
  }

  lemma {:induction false} NestedDepth(n: nat)
    ensures Nesting(Nested(n)) == n && Printable(Nested(n))
    decreases n
  {
    if n > 0 {
      NestedDepth(n - 1);
      var items := [Nested(n - 1)];
      assert Nested(n) == Arr(items) && items[1..] == [] && ItemsNesting([]) == 0 && AllPrintable([]);
      assert ItemsNesting(items) == Max(Nesting(items[0]), ItemsNesting(items[1..]));
      assert AllPrintable(items) == (Printable(items[0]) && AllPrintable(items[1..]));
    }
  }

  /** A thousand and one arrays, one inside the other, are printed but not parsed again; a thousand are. */
  lemma TooDeep(format: bool, requireEnd: bool)
    ensures ParseText(Render(Nested(1000), format, 0) + [NUL], requireEnd).0 == Some(Nested(1000))
    ensures ParseText(Render(Nested(1001), format, 0) + [NUL], requireEnd).0 == None
  {
    hide ParseText, Render, Nesting, Printable, Nested;
    NestedDepth(1000);
    NestedDepth(1001);
    RoundTrip(Nested(1000), format, requireEnd);
    RoundTrip(Nested(1001), format, requireEnd);
  }

  // ---------------------------------------------------------------- what the parser can answer at all

  ghost predicate ShortNumbers(j: Json)
    decreases j
  {
    match j
    case Num(x) => IsShortInteger(x)
    case Arr(items) => forall k :: 0 <= k < |items| ==> ShortNumbers(items[k])
    case Obj(members) => forall k :: 0 <= k < |members| ==> ShortNumbers(members[k].value)
    case _ => true
  }

  /** A parsed tree never nests deeper than the limit, and its strings end where C strings end. */
  lemma {:induction false} ParsedValue(t: seq<byte>, i: nat, d: nat)
    requires Terminated(t) && i < |t| && d <= NESTING_LIMIT && ParseValue(t, i, d).Done?
    ensures d + Nesting(ParseValue(t, i, d).value) <= NESTING_LIMIT
    ensures ShortNumbers(ParseValue(t, i, d).value) ==> Printable(ParseValue(t, i, d).value)
    decreases |t| - i, 1
  {
    hide ParseString, ParseItems, ParseMembers, SkipSpace, ItemsNesting, MembersNesting;
    if t[i] == LBRACKET {
      ValueIsArray(t, i, d);
      ArrayStep(t, i, d);
      if d < NESTING_LIMIT {
        NoItems();
        var a := SkipSpace(t, i + 1);
        if t[a] != RBRACKET {
          ParsedItems(t, a, d + 1);
        }
      }
    } else if t[i] == LBRACE {
      ValueIsObject(t, i, d);
      ObjectStep(t, i, d);
      if d < NESTING_LIMIT {
        NoItems();
        var a := SkipSpace(t, i + 1);
        if t[a] != RBRACE {
          ParsedMembers(t, a, d + 1);
        }
      }
    } else {
      assert !ParseValue(t, i, d).value.Arr? && !ParseValue(t, i, d).value.Obj?;
    }
  }

  lemma NoItems()
    ensures ItemsNesting([]) == 0 && MembersNesting([]) == 0
  {
  }

  lemma {:induction false} ParsedItems(t: seq<byte>, i: nat, d: nat)
    requires Terminated(t) && i < |t| && d <= NESTING_LIMIT && ParseItems(t, i, d).Done?
    ensures var items := ParseItems(t, i, d).value;
      && d + ItemsNesting(items) <= NESTING_LIMIT
      && ((forall k :: 0 <= k < |items| ==> ShortNumbers(items[k])) ==> AllPrintable(items))
    decreases |t| - i, 2
  {
    hide ParseItems, ParseValue, SkipSpace, ItemsNesting;
    ItemsStep(t, i, d);
    var items := ParseItems(t, i, d).value;
    var v := ParseValue(t, SkipSpace(t, i), d);
    ParsedValue(t, SkipSpace(t, i), d);
    NestingOfItems(items);
    NoItems();
    if |items| > 1 {
      ParsedItems(t, SkipSpace(t, v.offset) + 1, d);
      assert items == [items[0]] + items[1..];
    } else {
      assert items[1..] == [];
    }
  }

  lemma {:induction false} ParsedMembers(t: seq<byte>, i: nat, d: nat)
    requires Terminated(t) && i < |t| && d <= NESTING_LIMIT && ParseMembers(t, i, d).Done?
    ensures var members := ParseMembers(t, i, d).value;
      && d + MembersNesting(members) <= NESTING_LIMIT
      && ((forall k :: 0 <= k < |members| ==> ShortNumbers(members[k].value)) ==> AllMembersPrintable(members))
    decreases |t| - i, 2
  {
    hide ParseMembers, ParseMember, ParseString, ParseValue, SkipSpace, MembersNesting;
    MembersStep(t, i, d);
    MemberStep(t, i, d);
    var members := ParseMembers(t, i, d).value;
    var m := ParseMember(t, i, d);
    var c := SkipSpace(t, ParseString(t, SkipSpace(t, i)).offset);
    ParsedValue(t, SkipSpace(t, c + 1), d);
    NestingOfMembers(members);
    NoItems();
    if |members| > 1 {
      ParsedMembers(t, SkipSpace(t, m.offset) + 1, d);
      assert members == [members[0]] + members[1..];
    } else {
      assert members[1..] == [];
    }
  }

  /**
   Storing printed text and parsing it again loses nothing: every tree the parser ever answered, its
   numbers short integers, comes back from its own text.
   */
  lemma StoredTextRoundTrip(text: seq<byte>, requireEnd: bool, format: bool)
    requires NulFree(text) && ParseText(text + [NUL], requireEnd).0.Some?
    requires ShortNumbers(ParseText(text + [NUL], requireEnd).0.value)
    ensures var j := ParseText(text + [NUL], requireEnd).0.value;
      ParseText(Render(j, format, 0) + [NUL], true) == (Some(j), |Render(j, format, 0)|)
  {
    hide ParseValue, SkipSpace, Render, Nesting, Printable;
    var t := text + [NUL];
    ParsedValue(t, SkipSpace(t, SkipMark(t)), 0);
    RoundTrip(ParseText(t, requireEnd).0.value, format, true);
  }
}

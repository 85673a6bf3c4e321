/**
 The formatted layout of the printer, told from the unformatted text alone, byte by byte: where lines break, how far
 they are indented, and what stands behind commas and colons.
 */
module JsonLayout {
  import opened Bytes
  import opened JsonValue
  import opened JsonNumber
  import opened JsonString
  import opened JsonRender
  import Minify
  import Numerals

  function Indented(depth: nat): seq<byte> { ['\n' as int] + seq(depth, _ => '\t' as int) }

  /** The length of the string literal a text begins with. */
  function LiteralLength(s: seq<byte>): (n: nat)
    requires s != []
    ensures 0 < n <= |s|
  {
    var scan := ScanString(s, 1);
    if scan.Closed? then scan.end + 1 else |s|
  }

  /**
   The text with a line for every member, as many tabs in front of it as brackets and braces are open, a tab behind
   every colon and a blank behind the commas of arrays. `open` are the brackets and braces around the text.
   */
  function Pretty(s: seq<byte>, open: seq<byte>): seq<byte>
    decreases |s|
  {
    if s == [] then []
    else if s[0] == '"' as int then s[..LiteralLength(s)] + Pretty(s[LiteralLength(s)..], open)
    else if s[0] == '{' as int then
      if |s| > 1 && s[1] == '}' as int then ['{' as int] + Indented(|open|) + ['}' as int] + Pretty(s[2..], open)
      else ['{' as int] + Indented(|open| + 1) + Pretty(s[1..], open + [s[0]])
    else if s[0] == '[' as int then ['[' as int] + Pretty(s[1..], open + [s[0]])
    else if s[0] == '}' as int && open != [] then Indented(|open| - 1) + ['}' as int] + Pretty(s[1..], ButLast(open))
    else if s[0] == ']' as int && open != [] then [']' as int] + Pretty(s[1..], ButLast(open))
    else if s[0] == ':' as int then [':' as int, '\t' as int] + Pretty(s[1..], open)
    else if s[0] == ',' as int && open != [] && Last(open) == '{' as int then
      [',' as int] + Indented(|open|) + Pretty(s[1..], open)
    else if s[0] == ',' as int then [',' as int, ' ' as int] + Pretty(s[1..], open)
    else [s[0]] + Pretty(s[1..], open)
  }

  // ---------------------------------------------------------------- single tokens

  /** No byte of these means anything to the layout. */
  predicate Dull(s: seq<byte>) {
    forall k :: 0 <= k < |s| ==> s[k] !in [QUOTE, LBRACE, RBRACE, LBRACKET, RBRACKET, COLON, COMMA]
  }

  lemma {:induction false} DullStays(s: seq<byte>, rest: seq<byte>, open: seq<byte>)
    requires Dull(s)
    ensures Pretty(s + rest, open) == s + Pretty(rest, open)
    decreases |s|
  {
    if s == [] {
      assert s + rest == rest;
      assert [] + Pretty(rest, open) == Pretty(rest, open);
    } else {
      DullStep(s + rest, open);
      assert (s + rest)[1..] == s[1..] + rest;
      DullStays(s[1..], rest, open);
      assert s == [s[0]] + s[1..];
      Joined([s[0]], s[1..], Pretty(rest, open));
    }
  }

  lemma DullStep(s: seq<byte>, open: seq<byte>)
    requires s != [] && Dull([s[0]])
    ensures Pretty(s, open) == [s[0]] + Pretty(s[1..], open)
  {
    assert [s[0]][0] == s[0];
  }

  lemma QuotedStays(x: seq<byte>, rest: seq<byte>, open: seq<byte>)
    requires NulFree(x)
    ensures Pretty(Quoted(x) + rest, open) == Quoted(x) + Pretty(rest, open)
  {
    hide Escaped, ScanString;
    var s, n := Quoted(x) + rest, |Quoted(x)|;
    assert s[1..n] == Escaped(x) + [QUOTE];
    QuotedLength(x, rest);
    assert s[..n] == Quoted(x) && s[n..] == rest;
  }

  lemma QuotedLength(x: seq<byte>, rest: seq<byte>)
    requires NulFree(x)
    ensures Quoted(x) + rest != [] && LiteralLength(Quoted(x) + rest) == |Quoted(x)|
  {
    var s := Quoted(x) + rest;
    assert Quoted(x) == [QUOTE] + (Escaped(x) + [QUOTE]);
    assert s[1..|Quoted(x)|] == Escaped(x) + [QUOTE];
    ScanOfEscaped(s, 1, x);
  }

  lemma NumberDull(n: int)
    ensures Dull(IntText(n))
  {
  }

  // ---------------------------------------------------------------- trees

  /** The formatted text of a tree, wherever it stands, is the layout of its unformatted text. */
  lemma {:induction false} RenderLaidOut(j: Json, e: nat, rest: seq<byte>, open: seq<byte>)
    requires Printable(j)
    ensures Pretty(Render(j, false, e) + rest, open) == Render(j, true, |open|) + Pretty(rest, open)
    decreases j, 2
  {
    hide Pretty, Quoted, IntText, RenderItems, RenderMembers;
    match j
    case Null => DullStays(NULL_TEXT, rest, open);
    case Bool(b) => DullStays(if b then TRUE_TEXT else FALSE_TEXT, rest, open);
    case Num(x) =>
      NumberDull(x.Floor);
      DullStays(IntText(x.Floor), rest, open);
    case Str(s) => QuotedStays(s, rest, open);
    case Arr(items) => ArrayLaidOut(items, e, rest, open);
    case Obj(members) => ObjectLaidOut(members, e, rest, open);
  }

  lemma OpenStep(s: seq<byte>, open: seq<byte>)
    requires s != []
    ensures s[0] == LBRACKET ==> Pretty(s, open) == [LBRACKET] + Pretty(s[1..], open + [LBRACKET])
    ensures s[0] == LBRACE && |s| > 1 && s[1] == RBRACE ==>
      Pretty(s, open) == [LBRACE] + Indented(|open|) + [RBRACE] + Pretty(s[2..], open)
    ensures s[0] == LBRACE && !(|s| > 1 && s[1] == RBRACE) ==>
      Pretty(s, open) == [LBRACE] + Indented(|open| + 1) + Pretty(s[1..], open + [LBRACE])
    ensures s[0] == RBRACKET && open != [] ==> Pretty(s, open) == [RBRACKET] + Pretty(s[1..], ButLast(open))
    ensures s[0] == RBRACE && open != [] ==>
      Pretty(s, open) == Indented(|open| - 1) + [RBRACE] + Pretty(s[1..], ButLast(open))
    ensures s[0] == COLON ==> Pretty(s, open) == [COLON, TAB] + Pretty(s[1..], open)
    ensures s[0] == COMMA && open != [] ==>
      Pretty(s, open) ==
        (if Last(open) == LBRACE then [COMMA] + Indented(|open|) else [COMMA, SPACE]) + Pretty(s[1..], open)
  {
  }

  lemma {:induction false} ArrayLaidOut(items: seq<Json>, e: nat, rest: seq<byte>, open: seq<byte>)
    requires AllPrintable(items)
    ensures Pretty(Render(Arr(items), false, e) + rest, open) == Render(Arr(items), true, |open|) + Pretty(rest, open)
    decreases items, 2
  {
    hide Pretty, RenderItems;
    var text, inner := RenderItems(items, false, e + 1), open + [LBRACKET];
    var pretty := RenderItems(items, true, |open| + 1);
    var s, close := Render(Arr(items), false, e) + rest, [RBRACKET] + rest;
    assert s == [LBRACKET] + (text + close);
    assert s[1..] == text + close;
    OpenStep(s, open);
    ItemsLaidOut(items, e + 1, close, inner);
    OpenStep(close, inner);
    assert close[1..] == rest && ButLast(inner) == open;
    Joined([LBRACKET], pretty, [RBRACKET] + Pretty(rest, open));
    Joined([LBRACKET] + pretty, [RBRACKET], Pretty(rest, open));
  }

  lemma {:induction false} ItemsLaidOut(items: seq<Json>, e: nat, rest: seq<byte>, open: seq<byte>)
    requires AllPrintable(items)
    requires open != [] && Last(open) == LBRACKET
    ensures Pretty(RenderItems(items, false, e) + rest, open) == RenderItems(items, true, |open|) + Pretty(rest, open)
    decreases items, 1
  {
    hide Pretty, Render, ItemsRest;
    if items == [] {
      assert RenderItems(items, false, e) + rest == rest;
      assert [] + Pretty(rest, open) == Pretty(rest, open);
    } else {
      var a, b := Render(items[0], false, e), ItemsRest(items[1..], false, e);
      Joined(a, b, rest);
      RenderLaidOut(items[0], e, b + rest, open);
      ItemsRestLaidOut(items[1..], e, rest, open);
      Joined(Render(items[0], true, |open|), ItemsRest(items[1..], true, |open|), Pretty(rest, open));
    }
  }

  lemma {:induction false} ItemsRestLaidOut(items: seq<Json>, e: nat, rest: seq<byte>, open: seq<byte>)
    requires AllPrintable(items)
    requires open != [] && Last(open) == LBRACKET
    ensures Pretty(ItemsRest(items, false, e) + rest, open) == ItemsRest(items, true, |open|) + Pretty(rest, open)
    decreases items, 1
  {
    hide Pretty, Render;
    if items == [] {
      assert ItemsRest(items, false, e) + rest == rest;
      assert [] + Pretty(rest, open) == Pretty(rest, open);
    } else {
      var a, b := Render(items[0], false, e), ItemsRest(items[1..], false, e);
      var s := ItemsRest(items, false, e) + rest;
      assert s == [COMMA] + (a + (b + rest));
      assert s[1..] == a + (b + rest);
      OpenStep(s, open);
      RenderLaidOut(items[0], e, b + rest, open);
      ItemsRestLaidOut(items[1..], e, rest, open);
      var pa, pb := Render(items[0], true, |open|), ItemsRest(items[1..], true, |open|);
      Joined(pa, pb, Pretty(rest, open));
      Joined([COMMA, SPACE], pa + pb, Pretty(rest, open));
    }
  }

  lemma IndentedIs(depth: nat)
    ensures Indented(depth) == LineBreak(true) + Indent(true, depth)
  {
    assert Indented(depth) == [NEWLINE] + Tabs(depth);
  }

  lemma {:induction false} ObjectLaidOut(members: seq<Member>, e: nat, rest: seq<byte>, open: seq<byte>)
    requires AllMembersPrintable(members)
    ensures Pretty(Render(Obj(members), false, e) + rest, open)
      == Render(Obj(members), true, |open|) + Pretty(rest, open)
    decreases members, 2
  {
    hide Pretty, RenderMembers, Indented, Indent;
    UnformattedObject(members, e);
    if members == [] {
      EmptyLaidOut(e, rest, open);
    } else {
      var text, inner, close := RenderMembers(members, false, e + 1), open + [LBRACE], [RBRACE] + rest;
      var s := Render(Obj(members), false, e) + rest;
      assert s == [LBRACE] + (text + close);
      assert s[1..] == text + close;
      MembersStart(members, e + 1);
      OpenStep(s, open);
      IndentedIs(|open| + 1);
      MembersLaidOut(members, e + 1, rest, inner);
      assert ButLast(inner) == open;
      ObjectPieces(Indent(true, |open| + 1), Pretty(text + close, inner), RenderMembers(members, true, |open| + 1),
                   Indent(true, |open|), Pretty(rest, open));
    }
  }

  lemma UnformattedObject(members: seq<Member>, e: nat)
    ensures Render(Obj(members), false, e) == [LBRACE] + RenderMembers(members, false, e + 1) + [RBRACE]
    ensures RenderMembers([], false, e + 1) == []
  {
    hide RenderKey, MemberEnd;
    var text := RenderMembers(members, false, e + 1);
    assert [LBRACE] + [] + text + [] + [RBRACE] == [LBRACE] + text + [RBRACE];
  }

  lemma ObjectPieces(tabs: seq<byte>, p: seq<byte>, members: seq<byte>, outer: seq<byte>, rest: seq<byte>)
    requires tabs + p == members + (outer + [RBRACE] + rest)
    ensures [LBRACE] + ([NEWLINE] + tabs) + p == ([LBRACE] + [NEWLINE] + members + outer + [RBRACE]) + rest
  {
    assert [LBRACE] + ([NEWLINE] + tabs) + p == [LBRACE] + [NEWLINE] + (tabs + p);
  }

  lemma EmptyLaidOut(e: nat, rest: seq<byte>, open: seq<byte>)
    ensures Pretty(Render(Obj([]), false, e) + rest, open) == Render(Obj([]), true, |open|) + Pretty(rest, open)
  {
    hide Pretty, Indented, Indent, Render;
    EmptyObjects(e, |open|);
    var s := [LBRACE, RBRACE] + rest;
    assert s[2..] == rest;
    IndentedIs(|open|);
    OpenStep(s, open);
  }

  lemma EmptyObjects(e: nat, depth: nat)
    ensures Render(Obj([]), false, e) == [LBRACE, RBRACE]
    ensures Render(Obj([]), true, depth) == [LBRACE] + ([NEWLINE] + Indent(true, depth)) + [RBRACE]
  {
    UnformattedObject([], e);
    hide Tabs;
    assert RenderMembers([], true, depth + 1) == [];
  }

  lemma MembersStart(members: seq<Member>, e: nat)
    requires members != []
    ensures RenderMembers(members, false, e) != [] && RenderMembers(members, false, e)[0] == QUOTE
  {
  }

  /** The unformatted text of some members, and what the layout makes of each piece of it. */
  lemma MembersSplit(members: seq<Member>, format: bool, e: nat)
    requires members != []
    ensures RenderMembers(members, format, e) ==
      RenderKey(members[0].key, format, e) + Render(members[0].value, format, e)
      + MemberEnd(|members| == 1, format) + RenderMembers(members[1..], format, e)
    ensures RenderKey(members[0].key, false, e) == Quoted(members[0].key) + [COLON]
    ensures RenderKey(members[0].key, true, e) == Indent(true, e) + Quoted(members[0].key) + [COLON, TAB]
    ensures MemberEnd(true, false) == [] && MemberEnd(false, false) == [COMMA]
    ensures MemberEnd(true, true) == [NEWLINE] && MemberEnd(false, true) == [COMMA, NEWLINE]
    ensures |members| == 1 ==> RenderMembers(members[1..], format, e) == []
  {
    hide Quoted;
    assert [] + Quoted(members[0].key) + [COLON] == Quoted(members[0].key) + [COLON];
  }

  lemma KeyLaidOut(key: seq<byte>, rest: seq<byte>, open: seq<byte>)
    requires NulFree(key)
    ensures Pretty(Quoted(key) + [COLON] + rest, open) == Quoted(key) + [COLON, TAB] + Pretty(rest, open)
  {
    hide Pretty, Quoted;
    var q, s := Quoted(key), [COLON] + rest;
    Joined(q, [COLON], rest);
    QuotedStays(key, s, open);
    OpenStep(s, open);
    assert s[1..] == rest;
    Joined(q, [COLON, TAB], Pretty(rest, open));
  }

  lemma {:induction false} MembersLaidOut(members: seq<Member>, e: nat, rest: seq<byte>, open: seq<byte>)
    requires AllMembersPrintable(members)
    requires members != [] && open != [] && Last(open) == LBRACE
    ensures Indent(true, |open|) + Pretty(RenderMembers(members, false, e) + ([RBRACE] + rest), open)
      == RenderMembers(members, true, |open|) + (Indent(true, |open| - 1) + [RBRACE] + Pretty(rest, ButLast(open)))
    decreases members, 1
  {
    hide Pretty, Render, RenderKey, MemberEnd, RenderMembers, Quoted, Indent, Indented;
    var m, d, more := members[0], |open|, RenderMembers(members[1..], false, e);
    var last, close := |members| == 1, [RBRACE] + rest;
    var key, value, end := Quoted(m.key), Render(m.value, false, e), MemberEnd(last, false);
    var tail := end + (more + close);
    MembersSplit(members, false, e);
    MembersSplit(members, true, d);
    FourParts(key + [COLON], value, end, more, close);
    KeyLaidOut(m.key, value + tail, open);
    RenderLaidOut(m.value, e, tail, open);
    TailLaidOut(members, e, rest, open);
    MemberPieces(Indent(true, d), key, Render(m.value, true, d), Pretty(tail, open), MemberEnd(last, true),
                 RenderMembers(members[1..], true, d), Indent(true, d - 1) + [RBRACE] + Pretty(rest, ButLast(open)));
  }

  lemma FourParts(a: seq<byte>, b: seq<byte>, c: seq<byte>, d: seq<byte>, rest: seq<byte>)
    ensures (a + b + c + d) + rest == a + (b + (c + (d + rest)))
  {
    Minify.FourJoined(a, b, c, d, rest);
  }

  lemma MemberPieces(tabs: seq<byte>, key: seq<byte>, value: seq<byte>, tail: seq<byte>, end: seq<byte>,
                     more: seq<byte>,
                     rest: seq<byte>)
    requires tail == end + (more + rest)
    ensures tabs + (key + [COLON, TAB] + (value + tail)) == (tabs + key + [COLON, TAB] + value + end + more) + rest
  {
  }

  /** Behind a value: a comma and the next line, or the end of the object. */
  lemma {:induction false} TailLaidOut(members: seq<Member>, e: nat, rest: seq<byte>, open: seq<byte>)
    requires AllMembersPrintable(members)
    requires members != [] && open != [] && Last(open) == LBRACE
    ensures var more := RenderMembers(members[1..], false, e);
      Pretty(MemberEnd(|members| == 1, false) + (more + ([RBRACE] + rest)), open) ==
        MemberEnd(|members| == 1, true) + (RenderMembers(members[1..], true, |open|)
        + (Indent(true, |open| - 1) + [RBRACE] + Pretty(rest, ButLast(open))))
    decreases members, 0
  {
    hide Pretty, Render, RenderKey, MemberEnd, RenderMembers, Quoted, Indent, Indented;
    MembersSplit(members, false, e);
    MembersSplit(members, true, |open|);
    var close, d := [RBRACE] + rest, |open|;
    var after := Indent(true, d - 1) + [RBRACE] + Pretty(rest, ButLast(open));
    if |members| == 1 {
      assert [] + ([] + close) == close;
      OpenStep(close, open);
      assert close[1..] == rest;
      IndentedIs(d - 1);
      EndPieces(Indent(true, d - 1), Pretty(rest, ButLast(open)));
    } else {
      var more := RenderMembers(members[1..], false, e);
      var s := [COMMA] + (more + close);
      assert s[1..] == more + close;
      OpenStep(s, open);
      IndentedIs(d);
      MembersLaidOut(members[1..], e, rest, open);
      CommaPieces(Indent(true, d), Pretty(more + close, open), RenderMembers(members[1..], true, d), after);
    }
  }

  lemma EndPieces(tabs: seq<byte>, rest: seq<byte>)
    ensures ([NEWLINE] + tabs) + [RBRACE] + rest == [NEWLINE] + ([] + (tabs + [RBRACE] + rest))
  {
  }

  lemma CommaPieces(tabs: seq<byte>, p: seq<byte>, more: seq<byte>, after: seq<byte>)
    requires tabs + p == more + after
    ensures [COMMA] + ([NEWLINE] + tabs) + p == [COMMA, NEWLINE] + (more + after)
  {
    assert [COMMA] + ([NEWLINE] + tabs) + p == [COMMA, NEWLINE] + (tabs + p);
  }

  /** What the printer writes with a layout is the layout of what it writes without. */
  lemma FormattedIsPretty(j: Json)
    requires Printable(j)
    ensures Render(j, true, 0) == Pretty(Render(j, false, 0), [])
  {
    hide Render;
    RenderLaidOut(j, 0, [], []);
    assert Render(j, false, 0) + [] == Render(j, false, 0) && Render(j, true, 0) + [] == Render(j, true, 0);
    assert Pretty([], []) == [];
  }

  // ---------------------------------------------------------------- integers

  /** An integer is printed with a dash if it is negative, and with no more digits than it has. */
  lemma {:induction false} DigitsShortest(n: nat)
    ensures Numerals.Decimal(Digits(n)) == n
    ensures (n > 0 ==> Digits(n)[0] != '0' as int) && (n == 0 ==> Digits(n) == ['0' as int])
  {
    if n >= 10 {
      DigitsShortest(n / 10);
      assert ButLast(Digits(n)) == Digits(n / 10);
    } else {
      assert ButLast(Digits(n)) == [];
    }
  }

  lemma IntegerText(n: int) returns (digits: seq<byte>)
    ensures IntText(n) == (if n < 0 then ['-' as int] else []) + digits
    ensures AllDigits(digits) && Numerals.Decimal(digits) == (if n < 0 then -n else n)
    ensures digits == ['0' as int] || digits[..1] != ['0' as int]
  {
    digits := Digits(if n < 0 then -n else n);
    DigitsShortest(if n < 0 then -n else n);
  }
}

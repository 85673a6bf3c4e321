/** The minifier: white space and comments leave a text in place, string literals stay as they are. */
module Minify {
  import opened Bytes
  import opened JsonValue
  import opened JsonNumber
  import opened JsonString
  import opened JsonRender

  /** The four bytes the minifier takes for white space; the parser skips more. */
  predicate IsSpace(b: byte) {
    b == SPACE || b == TAB || b == RETURN || b == NEWLINE
  }

  /** Where a comment to the end of the line stops: at the line break or where the text ends. */
  function LineEnd(s: seq<byte>, i: nat): (r: nat)
    requires i <= |s|
    ensures i <= r <= |s|
    decreases |s| - i
  {
    if i == |s| || s[i] == NEWLINE then i else LineEnd(s, i + 1)
  }

  /** Behind the end of a block comment, if it has one. */
  function BlockEnd(s: seq<byte>, i: nat): (r: Option<nat>)
    requires i <= |s|
    ensures r.Some? ==> i + 2 <= r.value <= |s|
    decreases |s| - i
  {
    if i == |s| then None
    else if s[i] == STAR && i + 1 < |s| && s[i + 1] == SLASH then Some(i + 2)
    else BlockEnd(s, i + 1)
  }

  /** What is left of a text, unless an open literal or comment carries the cursor out of it. */
  function Minified(s: seq<byte>): Option<seq<byte>>
    decreases |s|
  {
    if s == [] then Some([])
    else if IsSpace(s[0]) then Minified(s[1..])
    else if s[0] == SLASH && |s| > 1 && s[1] == SLASH then Minified(s[LineEnd(s, 1)..])
    else if s[0] == SLASH && |s| > 1 && s[1] == STAR then
      var end := BlockEnd(s, 1);
      if end.None? then None else Minified(s[end.value..])
    else if s[0] == QUOTE then
      var scan := ScanString(s, 1);
      if scan.Unclosed? then None else Keep(s[..scan.end + 1], Minified(s[scan.end + 1..]))
    else Keep([s[0]], Minified(s[1..]))
  }

  // ---------------------------------------------------------------- the loop over the text, in place

  /** The text of a block: the bytes in front of the terminator, which is its last byte. */
  ghost predicate IsText(a: array<byte>)
    reads a
  {
    0 < a.Length && a[a.Length - 1] == NUL && NulFree(a[..a.Length - 1])
  }

  /** `out` has been written in front of w, and nothing behind the read cursor r has changed yet. */
  ghost predicate Progress(a: array<byte>, text: seq<byte>, w: nat, r: nat)
    reads a
  {
    && a.Length == |text| + 1
    && w <= r <= |text|
    && (forall k :: r <= k < |text| ==> a[k] == text[k])
    && a[|text|] == NUL
    && Minified(text) == Keep(a[..w], Minified(text[r..]))
  }

  /** One step of the text function, read at a position. */
  lemma MinifiedAt(text: seq<byte>, r: nat)
    requires r < |text|
    ensures var s := text[r..]; var rest := Minified(text[r + 1..]);
      && (IsSpace(s[0]) ==> Minified(s) == rest)
      && (s[0] == SLASH && |s| > 1 && s[1] == SLASH ==> Minified(s) == Minified(text[r + LineEnd(s, 0)..]))
      && (s[0] == SLASH && |s| > 1 && s[1] == STAR && BlockEnd(s, 0).None? ==> Minified(s) == None)
      && (s[0] == SLASH && |s| > 1 && s[1] == STAR && BlockEnd(s, 0).Some? ==>
        Minified(s) == Minified(text[r + BlockEnd(s, 0).value..]))
      && (!IsSpace(s[0]) && s[0] != QUOTE && (s[0] != SLASH || |s| == 1 || (s[1] != SLASH && s[1] != STAR)) ==>
        Minified(s) == Keep([s[0]], rest))
  {
    var s := text[r..];
    assert s[1..] == text[r + 1..];
    assert s[0] == SLASH ==> LineEnd(s, 0) == LineEnd(s, 1) && BlockEnd(s, 0) == BlockEnd(s, 1);
    assert s[LineEnd(s, 1)..] == text[r + LineEnd(s, 1)..];
    if BlockEnd(s, 1).Some? {
      assert s[BlockEnd(s, 1).value..] == text[r + BlockEnd(s, 1).value..];
    }
  }

  lemma LiteralFirst(s: seq<byte>)
    requires s != [] && s[0] == QUOTE
    ensures var scan := ScanString(s, 1);
      Minified(s) == if scan.Unclosed? then None else Keep(s[..scan.end + 1], Minified(s[scan.end + 1..]))
  {
    hide ScanString, Keep, LineEnd, BlockEnd;
  }

  lemma MinifiedLiteral(text: seq<byte>, r: nat)
    requires r < |text| && text[r] == QUOTE
    ensures var s := text[r..];
      && (ScanString(s, 1).Unclosed? ==> Minified(s).None?)
      && (ScanString(s, 1).Closed? ==>
        var n := r + ScanString(s, 1).end + 1; Minified(s) == Keep(text[r..n], Minified(text[n..])))
  {
    hide ScanString, Minified;
    var s := text[r..];
    LiteralFirst(s);
    if ScanString(s, 1).Closed? {
      var n := ScanString(s, 1).end + 1;
      assert s[..n] == text[r..r + n] && s[n..] == text[r + n..];
    }
  }

  /** A scan that has got from p to q will end where it would have ended. */
  ghost predicate SameEnd(s: seq<byte>, p: nat, q: nat) {
    && (ScanString(s, p).Closed? <==> ScanString(s, q).Closed?)
    && (ScanString(s, p).Closed? ==> ScanString(s, p).end == ScanString(s, q).end)
  }

  lemma SameStart(s: seq<byte>)
    ensures SameEnd(s, 1, 1)
  {
  }

  lemma ScanAdvances(s: seq<byte>, p: nat)
    requires 1 <= p < |s| && SameEnd(s, 1, p) && s[p] != QUOTE
    ensures s[p] == BACKSLASH && p + 1 == |s| ==> ScanString(s, 1).Unclosed?
    ensures s[p] == BACKSLASH && p + 1 < |s| ==> SameEnd(s, 1, p + 2)
    ensures s[p] != BACKSLASH ==> SameEnd(s, 1, p + 1)
  {
  }

  lemma ScanStops(s: seq<byte>, p: nat)
    requires 1 <= p <= |s| && SameEnd(s, 1, p)
    ensures p == |s| ==> ScanString(s, 1).Unclosed?
    ensures p < |s| && s[p] == QUOTE ==> ScanString(s, 1).Closed? && ScanString(s, 1).end == p
  {
  }

  /** The bytes of a literal from r0 up to r stand behind `before`, and the rest of the text is untouched. */
  ghost predicate Copying(a: array<byte>, text: seq<byte>, before: seq<byte>, r0: nat, w: nat, r: nat)
    reads a
  {
    && a.Length == |text| + 1 && a[|text|] == NUL
    && r0 <= r <= |text| && |before| <= r0 && w == |before| + (r - r0)
    && a[..w] == before + text[r0..r]
    && (forall k :: r <= k < |text| ==> a[k] == text[k])
  }

  method CopyByte(a: array<byte>, ghost text: seq<byte>, ghost before: seq<byte>, ghost r0: nat, w: nat, r: nat)
    requires Copying(a, text, before, r0, w, r) && r < |text|
    modifies a
    ensures Copying(a, text, before, r0, w + 1, r + 1)
  {
    a[w] := a[r];
    assert a[..w + 1] == a[..w] + [text[r]];
    assert text[r0..r + 1] == text[r0..r] + [text[r]];
  }

  lemma NextByte(a: array<byte>, text: seq<byte>, before: seq<byte>, r0: nat, w: nat, r: nat)
    requires Copying(a, text, before, r0, w, r) && NulFree(text)
    ensures a.Length == |text| + 1 && r <= |text| && a[r] == (if r < |text| then text[r] else NUL)
    ensures a[r] == NUL <==> r == |text|
  {
  }

  /** One byte inside the literal s, or an escape with the byte behind it. */
  method CopyPiece(a: array<byte>, ghost text: seq<byte>, ghost before: seq<byte>, ghost r0: nat, ghost s: seq<byte>,
                   w0: nat, r1: nat) returns (inside: bool, w: nat, r: nat)
    requires NulFree(text) && Copying(a, text, before, r0, w0, r1) && r0 < r1 < |text| && text[r1] != QUOTE
    requires |s| == |text| - r0 && s[r1 - r0] == text[r1] && SameEnd(s, 1, r1 - r0)
    modifies a
    ensures !inside ==> ScanString(s, 1).Unclosed?
    ensures inside ==> r1 < r <= |text| && Copying(a, text, before, r0, w, r) && SameEnd(s, 1, r - r0)
  {
    ScanAdvances(s, r1 - r0);
    NextByte(a, text, before, r0, w0, r1);
    hide Copying, ScanString, SameEnd, NulFree;
    w, r := w0, r1;
    if a[r] == BACKSLASH {
      CopyByte(a, text, before, r0, w, r);
      w, r := w + 1, r + 1;
      NextByte(a, text, before, r0, w, r);
    }
    inside := a[r] != NUL;
    if inside {
      CopyByte(a, text, before, r0, w, r);
      w, r := w + 1, r + 1;
    }
  }

  /** Copies a string literal; the cursor leaves the text when the literal is not closed. */
  method CopyLiteral(a: array<byte>, ghost text: seq<byte>, w0: nat, r0: nat)
    returns (inside: bool, w: nat, r: nat)
    requires NulFree(text) && Progress(a, text, w0, r0) && r0 < |text| && text[r0] == QUOTE
    modifies a
    ensures inside <==> ScanString(text[r0..], 1).Closed?
    ensures inside ==> r == r0 + ScanString(text[r0..], 1).end + 1
    ensures inside ==> Copying(a, text, old(a[..w0]), r0, w, r)
  {
    ghost var s, before := text[r0..], a[..w0];
    assert text[r0..r0] == [];
    CopyByte(a, text, before, r0, w0, r0);
    w, r := w0 + 1, r0 + 1;
    SameStart(s);
    NextByte(a, text, before, r0, w, r);
    hide Minified, ScanString, SameEnd, Copying, Progress, NulFree;
    while a[r] != NUL && a[r] != QUOTE
      invariant r0 < r <= |text| == a.Length - 1 && a[r] == (if r < |text| then text[r] else NUL)
      invariant a[r] == NUL <==> r == |text|
      invariant Copying(a, text, before, r0, w, r)
      invariant SameEnd(s, 1, r - r0)
      decreases |text| - r
    {
      assert s[r - r0] == text[r];
      inside, w, r := CopyPiece(a, text, before, r0, s, w, r);
      if !inside {
        return;
      }
      NextByte(a, text, before, r0, w, r);
    }
    ScanStops(s, r - r0);
    if a[r] == NUL {
      return false, w, r;
    }
    assert s[r - r0] == QUOTE;
    CopyByte(a, text, before, r0, w, r);
    return true, w + 1, r + 1;
  }

  /** Walks over a comment to the end of the line. */
  method SkipLine(a: array<byte>, ghost text: seq<byte>, ghost w: nat, r0: nat) returns (r: nat)
    requires NulFree(text) && Progress(a, text, w, r0) && r0 < |text| && text[r0] == SLASH
    ensures r0 < r == r0 + LineEnd(text[r0..], 0) <= |text|
  {
    r := r0;
    ghost var s := text[r0..];
    while a[r] != NUL && a[r] != NEWLINE
      invariant r0 <= r <= |text| && LineEnd(s, 0) == LineEnd(s, r - r0) && (r == r0 ==> a[r] == SLASH)
      decreases |text| - r
    {
      assert a[r] == text[r] == s[r - r0];
      r := r + 1;
    }
  }

  /** Walks over a block comment; the cursor leaves the text when the comment is not closed. */
  method SkipBlock(a: array<byte>, ghost text: seq<byte>, ghost w: nat, r0: nat) returns (inside: bool, r: nat)
    requires NulFree(text) && Progress(a, text, w, r0) && r0 < |text|
    ensures inside <==> BlockEnd(text[r0..], 0).Some?
    ensures inside ==> r == r0 + BlockEnd(text[r0..], 0).value <= |text|
  {
    r := r0;
    ghost var s := text[r0..];
    while a[r] != NUL && !(a[r] == STAR && a[r + 1] == SLASH)
      invariant r0 <= r <= |text| && BlockEnd(s, 0) == BlockEnd(s, r - r0)
      decreases |text| - r
    {
      assert a[r] == text[r] == s[r - r0];
      assert r + 1 < |text| ==> a[r + 1] == text[r + 1] == s[r - r0 + 1];
      r := r + 1;
    }
    inside := a[r] != NUL;
    r := r + 2;
  }

  /**
   Minifies a text in place. The answer is false when an open literal or block comment carries the read
   cursor out of the text; otherwise the block begins with the minified text and its terminator.
   The write cursor never passes the read cursor.
   */
  method MinifyInPlace(a: array<byte>) returns (inside: bool)
    requires IsText(a)
    modifies a
    ensures inside <==> old(Minified(a[..a.Length - 1])).Some?
    ensures inside ==>
      var m := old(Minified(a[..a.Length - 1])).value;
      |m| < a.Length && a[..|m| + 1] == m + [NUL]
  {
    hide Minified, ScanString, BlockEnd, LineEnd;
    ghost var text := a[..a.Length - 1];
    var w: nat, r: nat := 0, 0;
    KeepNothing(Minified(text));
    assert text[0..] == text;
    while a[r] != NUL
      invariant Progress(a, text, w, r)
      decreases |text| - r
    {
      ghost var s := text[r..];
      ghost var before := a[..w];
      MinifiedAt(text, r);
      var b := a[r];
      assert b == s[0] && (|s| > 1 ==> a[r + 1] == s[1]);
      if b == SPACE || b == TAB || b == RETURN || b == NEWLINE {
        r := r + 1;
      } else if b == SLASH && a[r + 1] == SLASH {
        r := SkipLine(a, text, w, r);
      } else if b == SLASH && a[r + 1] == STAR {
        var closed;
        closed, r := SkipBlock(a, text, w, r);
        if !closed {
          return false;
        }
      } else if b == QUOTE {
        var closed;
        ghost var start := r;
        MinifiedLiteral(text, r);
        closed, w, r := CopyLiteral(a, text, w, r);
        if !closed {
          return false;
        }
        KeepConcat(before, text[start..r], Minified(text[r..]));
      } else {
        KeepConcat(before, [b], Minified(text[r + 1..]));
        a[w] := b;
        assert a[..w + 1] == before + [b];
        w, r := w + 1, r + 1;
      }
    }
    assert text[r..] == [];
    MinifiedNothing();
    a[w] := NUL;
    assert a[..w + 1] == a[..w] + [NUL];
    return true;
  }

  lemma MinifiedNothing()
    ensures Minified([]) == Some([])
  {
  }

  // ---------------------------------------------------------------- minifying printed text

  /** Bytes that minifying keeps one by one. */
  predicate Plain(s: seq<byte>) {
    forall k :: 0 <= k < |s| ==> !IsSpace(s[k]) && s[k] != SLASH && s[k] != QUOTE
  }

  predicate Spaces(s: seq<byte>) {
    forall k :: 0 <= k < |s| ==> IsSpace(s[k])
  }

  lemma {:induction false} SpacesGo(s: seq<byte>, rest: seq<byte>)
    requires Spaces(s)
    ensures Minified(s + rest) == Minified(rest)
    decreases |s|
  {
    if s == [] {
      assert s + rest == rest;
    } else {
      assert (s + rest)[1..] == s[1..] + rest;
      SpacesGo(s[1..], rest);
    }
  }

  lemma {:induction false} PlainStays(s: seq<byte>, rest: seq<byte>)
    requires Plain(s)
    ensures Minified(s + rest) == Keep(s, Minified(rest))
    decreases |s|
  {
    if s == [] {
      assert s + rest == rest;
      KeepNothing(Minified(rest));
    } else {
      assert (s + rest)[1..] == s[1..] + rest;
      PlainStays(s[1..], rest);
      KeepConcat([s[0]], s[1..], Minified(rest));
      assert [s[0]] + s[1..] == s;
    }
  }

  lemma QuotedStays(s: seq<byte>, rest: seq<byte>)
    requires NulFree(s)
    ensures Minified(Quoted(s) + rest) == Keep(Quoted(s), Minified(rest))
  {
    var q, t := Quoted(s), Quoted(s) + rest;
    assert q == [QUOTE] + (Escaped(s) + [QUOTE]);
    assert t[1..|q|] == Escaped(s) + [QUOTE];
    ScanOfEscaped(t, 1, s);
    assert t[..|q|] == q && t[|q|..] == rest;
  }

  lemma NumberPlain(x: real)
    ensures Plain(IntText(x.Floor))
  {
    forall k | 0 <= k < |IntText(x.Floor)| ensures !IsSpace(IntText(x.Floor)[k]) && IntText(x.Floor)[k] != SLASH
      && IntText(x.Floor)[k] != QUOTE
    {
      assert IsNumeral(IntText(x.Floor)[k]);
    }
  }

  /** In front of any further text, a printed tree is minified to its unformatted text. */
  lemma {:induction false} MinifiedRender(j: Json, format: bool, depth: nat, e: nat, rest: seq<byte>)
    requires Printable(j)
    ensures Minified(Render(j, format, depth) + rest) == Keep(Render(j, false, e), Minified(rest))
    decreases j, 0
  {
    match j
    case Null => PlainStays(NULL_TEXT, rest);
    case Bool(b) => PlainStays(if b then TRUE_TEXT else FALSE_TEXT, rest);
    case Num(x) =>
      NumberPlain(x);
      PlainStays(IntText(x.Floor), rest);
    case Str(s) => QuotedStays(s, rest);
    case Arr(items) => MinifiedArray(items, format, depth, e, rest);
    case Obj(members) => MinifiedObject(members, format, depth, e, rest);
  }

  lemma {:induction false} MinifiedArray(items: seq<Json>, format: bool, depth: nat, e: nat, rest: seq<byte>)
    requires AllPrintable(items)
    ensures Minified(Render(Arr(items), format, depth) + rest) == Keep(Render(Arr(items), false, e), Minified(rest))
    decreases items, 2
  {
    hide Minified, RenderItems;
    var text, plain := RenderItems(items, format, depth + 1), RenderItems(items, false, e + 1);
    var close := [RBRACKET] + rest;
    Joined([LBRACKET] + text, [RBRACKET], rest);
    Joined([LBRACKET], text, close);
    PlainStays([LBRACKET], text + close);
    MinifiedItems(items, format, depth + 1, e + 1, close);
    PlainStays([RBRACKET], rest);
    KeepConcat(plain, [RBRACKET], Minified(rest));
    KeepConcat([LBRACKET], plain + [RBRACKET], Minified(rest));
    Joined([LBRACKET], plain, [RBRACKET]);
  }

  lemma {:induction false} MinifiedItems(items: seq<Json>, format: bool, depth: nat, e: nat, rest: seq<byte>)
    requires AllPrintable(items)
    ensures Minified(RenderItems(items, format, depth) + rest) == Keep(RenderItems(items, false, e), Minified(rest))
    decreases items, 1
  {
    hide Minified, Render, ItemsRest;
    if items == [] {
      assert RenderItems(items, format, depth) + rest == rest;
      KeepNothing(Minified(rest));
    } else {
      var a, b := Render(items[0], format, depth), ItemsRest(items[1..], format, depth);
      Joined(a, b, rest);
      MinifiedRender(items[0], format, depth, e, b + rest);
      MinifiedItemsRest(items[1..], format, depth, e, rest);
      KeepConcat(Render(items[0], false, e), ItemsRest(items[1..], false, e), Minified(rest));
    }
  }

  lemma {:induction false} MinifiedItemsRest(items: seq<Json>, format: bool, depth: nat, e: nat, rest: seq<byte>)
    requires AllPrintable(items)
    ensures Minified(ItemsRest(items, format, depth) + rest) == Keep(ItemsRest(items, false, e), Minified(rest))
    decreases items, 1
  {
    hide Minified, Render;
    if items == [] {
      assert ItemsRest(items, format, depth) + rest == rest;
      KeepNothing(Minified(rest));
    } else {
      var a, b := Render(items[0], format, depth), ItemsRest(items[1..], format, depth);
      var blank := if format then [SPACE] else [];
      var tail := a + b + rest;
      assert ItemsRest(items, format, depth) + rest == [COMMA] + (blank + tail);
      PlainStays([COMMA], blank + tail);
      SpacesGo(blank, tail);
      Joined(a, b, rest);
      MinifiedRender(items[0], format, depth, e, b + rest);
      MinifiedItemsRest(items[1..], format, depth, e, rest);
      var a', b' := Render(items[0], false, e), ItemsRest(items[1..], false, e);
      KeepConcat(a', b', Minified(rest));
      KeepConcat([COMMA], a' + b', Minified(rest));
    }
  }

  lemma {:induction false} MinifiedObject(members: seq<Member>, format: bool, depth: nat, e: nat, rest: seq<byte>)
    requires AllMembersPrintable(members)
    ensures Minified(Render(Obj(members), format, depth) + rest)
      == Keep(Render(Obj(members), false, e), Minified(rest))
    decreases members, 2
  {
    hide Minified, RenderMembers;
    var text, plain := RenderMembers(members, format, depth + 1), RenderMembers(members, false, e + 1);
    var line, indent, close := LineBreak(format), Indent(format, depth), [RBRACE] + rest;
    assert Render(Obj(members), format, depth) + rest == [LBRACE] + (line + (text + (indent + close)));
    PlainStays([LBRACE], line + (text + (indent + close)));
    SpacesGo(line, text + (indent + close));
    MinifiedMembers(members, format, depth + 1, e + 1, indent + close);
    SpacesGo(indent, close);
    PlainStays([RBRACE], rest);
    KeepConcat(plain, [RBRACE], Minified(rest));
    KeepConcat([LBRACE], plain + [RBRACE], Minified(rest));
    assert Render(Obj(members), false, e) == [LBRACE] + (plain + [RBRACE]);
  }

  lemma {:induction false} MinifiedMembers(members: seq<Member>, format: bool, depth: nat, e: nat, rest: seq<byte>)
    requires AllMembersPrintable(members)
    ensures Minified(RenderMembers(members, format, depth) + rest)
      == Keep(RenderMembers(members, false, e), Minified(rest))
    decreases members, 1
  {
    hide Minified, Render, RenderKey, MemberEnd;
    if members == [] {
      assert RenderMembers(members, format, depth) + rest == rest;
      KeepNothing(Minified(rest));
    } else {
      var m, last := members[0], |members| == 1;
      var value, more := Render(m.value, format, depth), RenderMembers(members[1..], format, depth);
      var end, key := MemberEnd(last, format), RenderKey(m.key, format, depth);
      FourJoined(key, value, end, more, rest);
      MinifiedKey(m.key, format, depth, e, value + (end + (more + rest)));
      MinifiedRender(m.value, format, depth, e, end + (more + rest));
      MinifiedEnd(last, format, more + rest);
      MinifiedMembers(members[1..], format, depth, e, rest);
      var k, v, c, n := RenderKey(m.key, false, e), Render(m.value, false, e), MemberEnd(last, false),
        RenderMembers(members[1..], false, e);
      KeepConcat(c, n, Minified(rest));
      KeepConcat(v, c + n, Minified(rest));
      KeepConcat(k, v + (c + n), Minified(rest));
      FourJoined(k, v, c, n, []);
      assert n + [] == n && (k + v + c + n) + [] == k + v + c + n;
    }
  }

  lemma FourJoined(a: seq<byte>, b: seq<byte>, c: seq<byte>, d: seq<byte>, rest: seq<byte>)
    ensures (a + b + c + d) + rest == a + (b + (c + (d + rest)))
  {
    Joined(a + b + c, d, rest);
    Joined(a + b, c, d + rest);
    Joined(a, b, c + (d + rest));
  }

  lemma MinifiedKey(key: seq<byte>, format: bool, depth: nat, e: nat, rest: seq<byte>)
    requires NulFree(key)
    ensures Minified(RenderKey(key, format, depth) + rest) == Keep(RenderKey(key, false, e), Minified(rest))
  {
    hide Minified, Quoted;
    var indent, q, tab := Indent(format, depth), Quoted(key), if format then [TAB] else [];
    assert RenderKey(key, format, depth) + rest == indent + (q + ([COLON] + (tab + rest)));
    SpacesGo(indent, q + ([COLON] + (tab + rest)));
    QuotedStays(key, [COLON] + (tab + rest));
    PlainStays([COLON], tab + rest);
    SpacesGo(tab, rest);
    KeepConcat(q, [COLON], Minified(rest));
    assert RenderKey(key, false, e) == q + [COLON];
  }

  lemma MinifiedEnd(last: bool, format: bool, rest: seq<byte>)
    ensures Minified(MemberEnd(last, format) + rest) == Keep(MemberEnd(last, false), Minified(rest))
  {
    hide Minified;
    var comma, line := if last then [] else [COMMA], LineBreak(format);
    Joined(comma, line, rest);
    PlainStays(comma, line + rest);
    SpacesGo(line, rest);
    assert MemberEnd(last, false) == comma;
  }

  /** The formatted print of a tree is minified to its unformatted print, which stays as it is. */
  lemma MinifiesPrints(j: Json, format: bool)
    requires Printable(j)
    ensures Minified(Render(j, format, 0)) == Some(Render(j, false, 0))
  {
    var text := Render(j, format, 0);
    MinifiedRender(j, format, 0, 0, []);
    assert text + [] == text;
    assert Minified([]) == Some([]);
    assert Render(j, false, 0) + [] == Render(j, false, 0);
  }
}

/**
 What a text is split into, told piece by piece: words, and sequences between quotes or brackets, which may hold each
 other; and what is lost behind a closing.
 */
module SplitLaws {
  import opened Bytes
  import opened Splitting

  // ---------------------------------------------------------------- blanks

  predicate IsBlank(b: byte) {
    b in [' ' as int, '\t' as int, '\n' as int, '\r' as int, 11, 12]
  }

  predicate AllBlank(s: seq<byte>) {
    forall k :: 0 <= k < |s| ==> IsBlank(s[k])
  }

  /** No blank at either end. */
  predicate IsTrimmed(s: seq<byte>) {
    s == [] || (!IsBlank(s[0]) && !IsBlank(s[|s| - 1]))
  }

  lemma BlankIsSpace(b: byte)
    ensures IsBlank(b) <==> IsSpace(b)
  {
  }

  lemma {:induction false} LeftTrims(a: seq<byte>, s: seq<byte>)
    requires AllBlank(a)
    ensures LeftTrim(a + s) == LeftTrim(s)
    decreases |a|
  {
    if a == [] {
      assert a + s == s;
    } else {
      BlankIsSpace(a[0]);
      assert (a + s)[1..] == a[1..] + s;
      LeftTrims(a[1..], s);
    }
  }

  lemma {:induction false} RightTrims(s: seq<byte>, a: seq<byte>)
    requires AllBlank(a)
    ensures RightTrim(s + a) == RightTrim(s)
    decreases |a|
  {
    if a == [] {
      assert s + a == s;
    } else {
      BlankIsSpace(Last(a));
      assert (s + a)[..|s + a| - 1] == s + ButLast(a);
      RightTrims(s, ButLast(a));
    }
  }

  /** Trimming takes off exactly the blanks at both ends. */
  lemma Trims(a: seq<byte>, s: seq<byte>, b: seq<byte>)
    requires AllBlank(a) && AllBlank(b) && IsTrimmed(s)
    ensures Trim(a + s + b) == s
  {
    RightTrims(a + s, b);
    if s == [] {
      assert a + s == [] + a;
      RightTrims([], a);
    } else {
      BlankIsSpace(s[0]);
      BlankIsSpace(s[|s| - 1]);
      assert (a + s)[|a + s| - 1] == s[|s| - 1];
      LeftTrims(a, s);
    }
  }

  // ---------------------------------------------------------------- sequences between quotes or brackets

  /** Between double quotes a backslash takes the byte behind it along. */
  predicate IsEscapedBody(body: seq<byte>)
    decreases |body|
  {
    body == [] ||
    if body[0] == '"' as int then false
    else if body[0] == '\\' as int then |body| >= 2 && IsEscapedBody(body[2..])
    else IsEscapedBody(body[1..])
  }

  datatype Group =
    | Strings(body: seq<byte>)
    | Literals(quote: char, body: seq<byte>)
    | Brackets(open: char, close: char, parts: seq<Part>)

  /** Inside brackets: a byte that neither opens anything nor closes them, or another sequence. */
  datatype Part = Byte(b: byte) | Inner(g: Group)

  predicate ArePair(open: char, close: char) {
    || (open == '[' && close == ']') || (open == '(' && close == ')')
    || (open == '<' && close == '>') || (open == '{' && close == '}')
  }

  predicate Opens(b: byte) {
    b in ['"' as int, '\'' as int, '`' as int, '[' as int, '(' as int, '<' as int, '{' as int]
  }

  predicate IsGroup(g: Group)
    decreases g
  {
    match g
    case Strings(body) => IsEscapedBody(body)
    case Literals(quote, body) => (quote == '\'' || quote == '`') && quote as int !in body
    case Brackets(open, close, parts) =>
      ArePair(open, close) && forall k :: 0 <= k < |parts| ==> IsPart(parts[k], close)
  }

  predicate IsPart(p: Part, close: char)
    decreases p
  {
    match p
    case Byte(b) => !Opens(b) && b != close as int
    case Inner(g) => IsGroup(g)
  }

  function GroupText(g: Group): (r: seq<byte>)
    ensures |r| >= 2
    decreases g
  {
    match g
    case Strings(body) => ['"' as int] + body + ['"' as int]
    case Literals(quote, body) => [quote as int % 256] + body + [quote as int % 256]
    case Brackets(open, close, parts) => [open as int % 256] + (PartsText(parts) + [close as int % 256])
  }

  function PartsText(parts: seq<Part>): seq<byte>
    decreases parts
  {
    if parts == [] then []
    else PartText(parts[0]) + PartsText(parts[1..])
  }

  function PartText(p: Part): seq<byte>
    decreases p
  {
    match p
    case Byte(b) => [b]
    case Inner(g) => GroupText(g)
  }

  // ---------------------------------------------------------------- the scanners stop behind them

  lemma {:induction false} StringsEnd(s: seq<byte>, p: nat, body: seq<byte>)
    requires IsEscapedBody(body) && At(s, p, body + [QUOTE])
    ensures QuoteEnd(s, p, QUOTE) == p + |body|
    decreases |body|
  {
    AtIndex(s, p, body + [QUOTE], 0);
    if body != [] {
      var n := if body[0] == BACKSLASH then 2 else 1;
      assert body + [QUOTE] == body[..n] + (body[n..] + [QUOTE]);
      AtConcat(s, p, body[..n], body[n..] + [QUOTE]);
      StringsEnd(s, p + n, body[n..]);
    }
  }

  lemma {:induction false} LiteralsEnd(s: seq<byte>, p: nat, body: seq<byte>, quote: byte)
    requires quote !in body && At(s, p, body + [quote])
    ensures LiteralEnd(s, p, quote) == p + |body|
    decreases |body|
  {
    AtIndex(s, p, body + [quote], 0);
    if body != [] {
      assert body + [quote] == [body[0]] + (body[1..] + [quote]);
      AtConcat(s, p, [body[0]], body[1..] + [quote]);
      LiteralsEnd(s, p + 1, body[1..], quote);
    }
  }

  /** One step of the scanner over brackets, in front of a byte that does not close the innermost one. */
  lemma BracketStep(s: seq<byte>, loc: nat, closures: seq<byte>)
    requires closures != [] && loc < |s|
    ensures var b := s[loc];
      && (b == Last(closures) && |closures| == 1 ==> BracketEnd(s, loc, closures) == loc)
      && (b == Last(closures) && |closures| > 1 && !Opens(b) ==>
        BracketEnd(s, loc, closures) == BracketEnd(s, loc + 1, ButLast(closures)))
      && (b != Last(closures) && !Opens(b) ==> BracketEnd(s, loc, closures) == BracketEnd(s, loc + 1, closures))
      && (b != Last(closures) && b == QUOTE ==>
        BracketEnd(s, loc, closures) == BracketEnd(s, QuoteEnd(s, loc + 1, b) + 1, closures))
      && (b != Last(closures) && (b == APOSTROPHE || b == BACKTICK) ==>
        BracketEnd(s, loc, closures) == BracketEnd(s, LiteralEnd(s, loc + 1, b) + 1, closures))
      && (b != Last(closures) && IsBracket(b) && b != QUOTE && b != APOSTROPHE && b != BACKTICK ==>
        BracketEnd(s, loc, closures) == BracketEnd(s, loc + 1, closures + [Match(b)]))
  {
    hide QuoteEnd, LiteralEnd;
  }

  /** Where the quotes of a quoted sequence end. */
  lemma QuotesEnd(s: seq<byte>, p: nat, g: Group)
    requires IsGroup(g) && !g.Brackets? && At(s, p, GroupText(g))
    ensures p < |s| && (g.Strings? ==> s[p] == QUOTE && QuoteEnd(s, p + 1, QUOTE) == p + |GroupText(g)| - 1)
    ensures g.Literals? ==> (s[p] == APOSTROPHE || s[p] == BACKTICK) && s[p] == g.quote as int
    ensures g.Literals? ==> LiteralEnd(s, p + 1, s[p]) == p + |GroupText(g)| - 1
  {
    hide QuoteEnd, LiteralEnd, At;
    AtIndex(s, p, GroupText(g), 0);
    match g
    case Strings(body) =>
      Joined([QUOTE], body, [QUOTE]);
      AtConcat(s, p, [QUOTE], body + [QUOTE]);
      StringsEnd(s, p + 1, body);
    case Literals(quote, body) =>
      var q := quote as int % 256;
      Joined([q], body, [q]);
      AtConcat(s, p, [q], body + [q]);
      LiteralsEnd(s, p + 1, body, q);
  }

  /** A bracket opens a sequence, and its own closing ends it. */
  lemma {:induction false} BracketsEnd(s: seq<byte>, p: nat, g: Group, closures: seq<byte>)
    requires IsGroup(g) && g.Brackets? && At(s, p, GroupText(g))
    requires closures != [] ==> ClosesBracket(Last(closures))
    ensures var c := g.close as int % 256; var e := p + |GroupText(g)| - 1;
      && p < e < |s| && s[p] == g.open as int && s[e] == c && IsBracket(s[p]) && Match(s[p]) == c && ClosesBracket(c)
      && BracketEnd(s, p + 1, closures + [c]) == BracketEnd(s, e, closures + [c])
    decreases g, 1
  {
    hide BracketEnd, At, PartsText;
    var c, text := g.close as int % 256, PartsText(g.parts);
    AtIndex(s, p, GroupText(g), 0);
    AtConcat(s, p, [g.open as int % 256], text + [c]);
    AtConcat(s, p + 1, text, [c]);
    AtIndex(s, p + 1 + |text|, [c], 0);
    PartsPassed(s, p + 1, g.parts, g.close, closures + [c]);
  }

  /** A sequence inside brackets is passed as a whole. */
  lemma {:induction false} GroupPassed(s: seq<byte>, p: nat, g: Group, closures: seq<byte>)
    requires IsGroup(g) && At(s, p, GroupText(g)) && closures != [] && ClosesBracket(Last(closures))
    ensures BracketEnd(s, p, closures) == BracketEnd(s, p + |GroupText(g)|, closures)
    decreases g, 2
  {
    hide BracketEnd, QuoteEnd, LiteralEnd, At, GroupText, IsGroup;
    if g.Brackets? {
      BracketsEnd(s, p, g, closures);
      BracketStep(s, p, closures);
      var c := g.close as int % 256;
      BracketStep(s, p + |GroupText(g)| - 1, closures + [c]);
      assert ButLast(closures + [c]) == closures;
    } else {
      QuotesEnd(s, p, g);
      BracketStep(s, p, closures);
    }
  }

  lemma {:induction false} PartsPassed(s: seq<byte>, p: nat, parts: seq<Part>, close: char, closures: seq<byte>)
    requires forall k :: 0 <= k < |parts| ==> IsPart(parts[k], close)
    requires At(s, p, PartsText(parts)) && closures != [] && close < 256 as char && Last(closures) == close as int
    requires ClosesBracket(close as int)
    ensures BracketEnd(s, p, closures) == BracketEnd(s, p + |PartsText(parts)|, closures)
    decreases parts, 0
  {
    hide BracketEnd, At, PartText, IsPart;
    if parts != [] {
      var first, rest := parts[0], parts[1..];
      AtConcat(s, p, PartText(first), PartsText(rest));
      PartPassed(s, p, first, close, closures);
      PartsPassed(s, p + |PartText(first)|, rest, close, closures);
    }
  }

  lemma {:induction false} PartPassed(s: seq<byte>, p: nat, part: Part, close: char, closures: seq<byte>)
    requires IsPart(part, close) && At(s, p, PartText(part))
    requires closures != [] && close < 256 as char && Last(closures) == close as int && ClosesBracket(close as int)
    ensures BracketEnd(s, p, closures) == BracketEnd(s, p + |PartText(part)|, closures)
    decreases part, 3
  {
    hide BracketEnd, At, GroupText, IsGroup;
    match part
    case Byte(b) =>
      AtIndex(s, p, [b], 0);
      BracketStep(s, p, closures);
    case Inner(g) =>
      GroupPassed(s, p, g, closures);
  }

  /** Wherever a sequence stands, the scanner for its kind stops on its last byte. */
  lemma GroupEnds(s: seq<byte>, p: nat, g: Group)
    requires IsGroup(g) && At(s, p, GroupText(g))
    ensures p + |GroupText(g)| <= |s| && IsBracket(s[p])
    ensures SequenceEnd(s, p, Match(s[p])) == p + |GroupText(g)| - 1
  {
    AtSpan(s, p, GroupText(g));
    hide BracketEnd, QuoteEnd, LiteralEnd, At, GroupText, IsGroup;
    if g.Brackets? {
      BracketsEnd(s, p, g, []);
      var c := g.close as int % 256;
      assert [] + [c] == [c];
      BracketStep(s, p + |GroupText(g)| - 1, [c]);
    } else {
      QuotesEnd(s, p, g);
    }
  }

  lemma AtSpan(s: seq<byte>, p: nat, x: seq<byte>)
    requires At(s, p, x)
    ensures p + |x| <= |s|
  {
  }

  // ---------------------------------------------------------------- the pieces

  /** Blanks in front of a text are nothing. */
  lemma BlanksGo(a: seq<byte>, s: seq<byte>, delimiter: byte)
    requires AllBlank(a)
    ensures SplitUp(a + s, delimiter) == SplitUp(s, delimiter)
    ensures SplitUp(a, delimiter) == []
  {
    TrimsAlike(a, s);
    Trims(a, [], []);
    assert a + [] + [] == a;
  }

  lemma {:induction false} AllTrimmed(s: seq<byte>)
    ensures RightTrim(s) == [] <==> AllBlank(s)
    decreases |s|
  {
    if s != [] {
      BlankIsSpace(Last(s));
      AllTrimmed(ButLast(s));
      assert AllBlank(s) <==> AllBlank(ButLast(s)) && IsBlank(Last(s));
    }
  }

  lemma {:induction false} RightTrimOver(a: seq<byte>, s: seq<byte>)
    requires RightTrim(s) != []
    ensures RightTrim(a + s) == a + RightTrim(s)
    decreases |s|
  {
    if IsSpace(Last(s)) {
      assert (a + s)[..|a + s| - 1] == a + ButLast(s);
      RightTrimOver(a, ButLast(s));
    }
  }

  lemma TrimsAlike(a: seq<byte>, s: seq<byte>)
    requires AllBlank(a)
    ensures Trim(a + s) == Trim(s)
  {
    if RightTrim(s) == [] {
      AllTrimmed(s);
      AllTrimmed(a + s);
    } else {
      RightTrimOver(a, s);
      LeftTrims(a, RightTrim(s));
    }
  }

  /** Blanks at the end of a text are nothing either. */
  lemma RightAlike(s: seq<byte>, delimiter: byte)
    ensures SplitUp(RightTrim(s), delimiter) == SplitUp(s, delimiter)
  {
    RightTrimmed(s);
    RightTrimsOnce(s);
  }

  lemma RightTrimsOnce(s: seq<byte>)
    ensures RightTrim(RightTrim(s)) == RightTrim(s)
  {
    RightTrimmed(s);
  }

  /** A text whose first and last bytes are no blanks, with anything behind it, as it is trimmed. */
  lemma TrimBehind(x: seq<byte>, more: seq<byte>)
    requires x != [] && IsTrimmed(x)
    ensures Trim(x + more) == x + RightTrim(more)
  {
    BlankIsSpace(x[0]);
    BlankIsSpace(Last(x));
    if RightTrim(more) == [] {
      AllTrimmed(more);
      RightTrims(x, more);
      assert x + [] == x;
    } else {
      RightTrimOver(x, more);
    }
  }

  /** What is left to split when the first piece and one byte behind it are gone. */
  lemma LeftBehind(d: byte, rest: seq<byte>, delimiter: byte)
    ensures var more := RightTrim([d] + rest);
      SplitUp(if more == [] then [] else more[1..], delimiter) == SplitUp(rest, delimiter)
  {
    if RightTrim(rest) == [] {
      AllTrimmed(rest);
      BlanksGo(rest, [], delimiter);
      BlanksGo([], [], delimiter);
      RightTrims([d], rest);
      assert [d][..0] == [];
      assert |RightTrim([d])| <= 1;
    } else {
      RightTrimOver([d], rest);
      RightAlike(rest, delimiter);
      assert ([d] + RightTrim(rest))[1..] == RightTrim(rest);
    }
  }

  lemma GroupTrimmed(g: Group)
    requires IsGroup(g)
    ensures IsTrimmed(GroupText(g)) && IsBracket(GroupText(g)[0])
  {
    hide PartsText;
  }

  lemma SplitStep(s: seq<byte>, t: seq<byte>, delimiter: byte)
    requires Trim(s) == t && t != []
    ensures SplitUp(s, delimiter) == [Cut(t, delimiter).0] + SplitUp(Cut(t, delimiter).1, delimiter)
  {
    hide Trim, Cut;
  }

  /** A sequence between quotes or brackets is a piece; the byte behind it is lost, whatever it is. */
  lemma GroupFirst(g: Group, d: byte, rest: seq<byte>, delimiter: byte)
    requires IsGroup(g)
    ensures SplitUp(GroupText(g) + [d] + rest, delimiter) == [GroupText(g)] + SplitUp(rest, delimiter)
  {
    hide Trim, RightTrim, SplitUp, GroupText, IsGroup, SequenceEnd;
    var x, more := GroupText(g), RightTrim([d] + rest);
    var t := x + more;
    GroupTrimmed(g);
    Joined(x, [d], rest);
    TrimBehind(x, [d] + rest);
    assert t[0..|x|] == x;
    GroupEnds(t, 0, g);
    SplitStep(x + [d] + rest, t, delimiter);
    assert t[..|x|] == x;
    assert more != [] ==> t[|x| + 1..] == more[1..];
    LeftBehind(d, rest, delimiter);
    assert more == [] ==> t == x;
  }

  lemma GroupAlone(g: Group, delimiter: byte)
    requires IsGroup(g)
    ensures SplitUp(GroupText(g), delimiter) == [GroupText(g)]
  {
    hide Trim, RightTrim, SplitUp, GroupText, IsGroup, SequenceEnd;
    var x := GroupText(g);
    GroupTrimmed(g);
    TrimWhole(x);
    assert x[0..|x|] == x && x[..|x|] == x;
    GroupEnds(x, 0, g);
    SplitStep(x, x, delimiter);
    BlanksGo([], [], delimiter);
  }

  lemma TrimWhole(x: seq<byte>)
    requires IsTrimmed(x)
    ensures Trim(x) == x
  {
    Trims([], x, []);
    assert [] + x + [] == x;
  }

  /** A word holds no separator and begins with none of the quotes and brackets; inside it they are plain bytes. */
  predicate IsWord(w: seq<byte>, delimiter: byte) {
    && w != [] && !IsBlank(w[0]) && !Opens(w[0])
    && forall k :: 0 <= k < |w| ==> !(if delimiter == NUL then IsBlank(w[k]) else w[k] == delimiter)
  }

  lemma {:induction false} SeparatorBehind(w: seq<byte>, more: seq<byte>, i: nat, delimiter: byte)
    requires IsWord(w, delimiter) && i <= |w| && (more == [] || Separates(more[0], delimiter))
    ensures FirstSeparator(w + more, i, delimiter) == |w|
    decreases |w| - i
  {
    if i < |w| {
      BlankIsSpace(w[i]);
      SeparatorBehind(w, more, i + 1, delimiter);
    }
  }

  /** A word is a piece in front of a separator. */
  lemma WordFirst(w: seq<byte>, d: byte, rest: seq<byte>, delimiter: byte)
    requires IsWord(w, delimiter) && (if delimiter == NUL then IsBlank(d) else d == delimiter && !IsBlank(d))
    ensures SplitUp(w + [d] + rest, delimiter) == [w] + SplitUp(rest, delimiter)
  {
    hide RightTrim, SplitUp;
    BlankIsSpace(d);
    var more := RightTrim([d] + rest);
    var t := w + more;
    Joined(w, [d], rest);
    WordTrimmed(w, d, rest, delimiter);
    MoreBegins(d, rest);
    SeparatorBehind(w, more, 0, delimiter);
    hide Trim;
    SplitStep(w + [d] + rest, t, delimiter);
    assert t[..|w|] == w;
    assert more != [] ==> t[|w| + 1..] == more[1..];
    LeftBehind(d, rest, delimiter);
    assert more == [] ==> t == w;
  }

  lemma MoreBegins(d: byte, rest: seq<byte>)
    ensures var more := RightTrim([d] + rest); more == [] || more[0] == d
  {
    if RightTrim(rest) != [] {
      RightTrimOver([d], rest);
    } else {
      AllTrimmed(rest);
      RightTrims([d], rest);
      assert [d][..0] == [];
    }
  }

  lemma WordTrimmed(w: seq<byte>, d: byte, rest: seq<byte>, delimiter: byte)
    requires IsWord(w, delimiter) && (if delimiter == NUL then IsBlank(d) else !IsBlank(d))
    ensures Trim(w + ([d] + rest)) == w + RightTrim([d] + rest)
  {
    BlankIsSpace(w[0]);
    if delimiter == NUL {
      TrimBehind(w, [d] + rest);
    } else {
      BlankIsSpace(d);
      AllTrimmed([d] + rest);
      assert ([d] + rest)[0] == d;
      RightTrimOver(w, [d] + rest);
    }
  }

  /** At the end of a text a word loses the blanks behind it. */
  lemma WordAlone(w: seq<byte>, delimiter: byte)
    requires IsWord(w, delimiter) && IsTrimmed(w)
    ensures SplitUp(w, delimiter) == [w]
  {
    hide RightTrim, SplitUp;
    TrimWhole(w);
    assert w + [] == w;
    SeparatorBehind(w, [], 0, delimiter);
    SplitStep(w, w, delimiter);
    BlanksGo([], [], delimiter);
  }

  /** What is written right behind a closing quote loses its first byte. */
  lemma LosesByte()
    ensures var text := ['"' as int, 'a' as int, '"' as int, 'b' as int, 'c' as int];
      SplitUp(text, NUL) == [['"' as int, 'a' as int, '"' as int], ['c' as int]]
  {
    hide SplitUp;
    var a: seq<byte>, c: seq<byte> := ['a' as int], ['c' as int];
    var g := Strings(a);
    assert a[1..] == [] && IsEscapedBody(a[1..]);
    GroupFirst(g, 'b' as int, c, NUL);
    WordAlone(c, NUL);
    hide IsGroup, IsWord;
    assert GroupText(g) == ['"' as int, 'a' as int, '"' as int];
    assert GroupText(g) + ['b' as int] + c == ['"' as int, 'a' as int, '"' as int, 'b' as int, 'c' as int];
    assert [GroupText(g)] + [c] == [GroupText(g), c];
  }
}

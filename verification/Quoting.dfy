/** Texts written behind quotes, lists of them, and the way back through the splitter. */
module Quoting {
  import opened Bytes
  import opened Escapes
  import opened Splitting

  /** What a writer of values puts down: bare words, `"..."` with escapes inside, `'...'` as it stands. */
  datatype Written = Plain(text: seq<byte>) | Quoted(text: seq<byte>) | Literal(text: seq<byte>)

  /** Letters, digits, points and signs: no quote, bracket, space, separator or comment mark. */
  predicate IsPlain(b: byte) {
    IsDigit(b) || 65 <= b <= 90 || 97 <= b <= 122 || b == PLUS || b == MINUS || b == DOT
  }

  ghost predicate Fits(w: Written) {
    match w
    case Plain(x) => x != [] && forall k :: 0 <= k < |x| ==> IsPlain(x[k])
    case Quoted(_) => true
    case Literal(x) => APOSTROPHE !in x && NEWLINE !in x
  }

  function Spelling(w: Written): (r: seq<byte>)
    ensures !w.Plain? ==> |r| >= 2
  {
    match w
    case Plain(x) => x
    case Quoted(x) => [QUOTE] + AddEscaped(x) + [QUOTE]
    case Literal(x) => [APOSTROPHE] + x + [APOSTROPHE]
  }

  /** The spellings with a separator between each two. */
  function Join(ws: seq<Written>, separator: seq<byte>): seq<byte> {
    if ws == [] then []
    else if |ws| == 1 then Spelling(ws[0])
    else Spelling(ws[0]) + separator + Join(ws[1..], separator)
  }

  function Spellings(ws: seq<Written>): (r: seq<seq<byte>>)
    ensures |r| == |ws|
  {
    if ws == [] then [] else [Spelling(ws[0])] + Spellings(ws[1..])
  }

  ghost predicate AllFit(ws: seq<Written>) {
    forall k :: 0 <= k < |ws| ==> Fits(ws[k])
  }

  // ---------------------------------------------------------------- scanning one spelling

  /** An escaped text has no closing quote of its own: the scanner stops exactly behind it. */
  lemma {:induction false} QuoteEndOfEscaped(s: seq<byte>, p: nat, x: seq<byte>)
    requires At(s, p, AddEscaped(x) + [QUOTE])
    ensures QuoteEnd(s, p, QUOTE) == p + |AddEscaped(x)|
    decreases |x|
  {
    hide QuoteEnd, EscapeOne;
    if x == [] {
      assert [] + [QUOTE] == [QUOTE];
      AtIndex(s, p, [QUOTE], 0);
      QuoteEndHere(s, p);
    } else {
      var one, more := EscapeOne(x[0]), AddEscaped(x[1..]);
      Joined(one, more, [QUOTE]);
      AtConcat(s, p, one, more + [QUOTE]);
      QuoteEndPast(s, p, x[0]);
      QuoteEndOfEscaped(s, p + |one|, x[1..]);
    }
  }

  lemma QuoteEndHere(s: seq<byte>, p: nat)
    requires p < |s| && s[p] == QUOTE
    ensures QuoteEnd(s, p, QUOTE) == p
  {
  }

  lemma QuoteEndPast(s: seq<byte>, p: nat, b: byte)
    requires At(s, p, EscapeOne(b))
    ensures QuoteEnd(s, p, QUOTE) == QuoteEnd(s, p + |EscapeOne(b)|, QUOTE)
  {
    AtIndex(s, p, EscapeOne(b), 0);
  }

  lemma {:induction false} LiteralEndAt(s: seq<byte>, loc: nat, end: nat, close: byte)
    requires loc <= end < |s| && s[end] == close
    requires forall k :: loc <= k < end ==> s[k] != close
    ensures LiteralEnd(s, loc, close) == end
    decreases end - loc
  {
    if loc < end {
      LiteralEndAt(s, loc + 1, end, close);
    }
  }

  /** The scanner finds the closing quote of a quoted text wherever it stands. */
  lemma ClosesAtEnd(s: seq<byte>, p: nat, w: Written)
    requires Fits(w) && !w.Plain? && At(s, p, Spelling(w))
    ensures p + |Spelling(w)| <= |s| && IsBracket(s[p])
    ensures s[p] == if w.Quoted? then QUOTE else APOSTROPHE
    ensures SequenceEnd(s, p, Match(s[p])) == p + |Spelling(w)| - 1
  {
    hide QuoteEnd, LiteralEnd, AddEscaped;
    AtIndex(s, p, Spelling(w), 0);
    if w.Quoted? {
      QuotedCloses(s, p, w.text);
    } else {
      LiteralCloses(s, p, w.text);
    }
  }

  lemma QuotedCloses(s: seq<byte>, p: nat, x: seq<byte>)
    requires At(s, p, [QUOTE] + AddEscaped(x) + [QUOTE])
    ensures QuoteEnd(s, p + 1, QUOTE) == p + 1 + |AddEscaped(x)|
  {
    hide QuoteEnd, AddEscaped;
    Joined([QUOTE], AddEscaped(x), [QUOTE]);
    AtConcat(s, p, [QUOTE], AddEscaped(x) + [QUOTE]);
    QuoteEndOfEscaped(s, p + 1, x);
  }

  lemma LiteralCloses(s: seq<byte>, p: nat, x: seq<byte>)
    requires At(s, p, [APOSTROPHE] + x + [APOSTROPHE]) && APOSTROPHE !in x
    ensures LiteralEnd(s, p + 1, APOSTROPHE) == p + 1 + |x|
  {
    hide LiteralEnd;
    var v := [APOSTROPHE] + x + [APOSTROPHE];
    forall k | p + 1 <= k <= p + |x| + 1 ensures s[k] == v[k - p] {
      AtIndex(s, p, v, k - p);
    }
    LiteralEndAt(s, p + 1, p + |x| + 1, APOSTROPHE);
  }

  /** No spelling runs over a line, and none begins like a value that does. */
  lemma OnOneLine(w: Written)
    requires Fits(w)
    ensures NEWLINE !in Spelling(w) && !StartsTriple(Spelling(w))
  {
    hide AddEscaped;
    if w.Quoted? {
      EscapedOnOneLine(w.text);
    }
  }

  /** Three equal quotes in front, as a value over several lines has them. */
  predicate StartsTriple(s: seq<byte>) {
    |s| >= 3 && (s[0] == QUOTE || s[0] == APOSTROPHE) && s[1] == s[0] && s[2] == s[0]
  }

  lemma {:induction false} EscapedOnOneLine(x: seq<byte>)
    ensures NEWLINE !in AddEscaped(x)
    ensures AddEscaped(x) == [] || AddEscaped(x)[0] != QUOTE
    decreases |x|
  {
    if x != [] {
      EscapedOnOneLine(x[1..]);
    }
  }

  lemma Sides(w: Written)
    requires Fits(w)
    ensures var r := Spelling(w); r != [] && !IsSpace(r[0]) && !IsSpace(r[|r| - 1])
  {
  }

  lemma {:induction false} JoinSides(ws: seq<Written>, separator: seq<byte>)
    requires ws != [] && AllFit(ws)
    ensures var r := Join(ws, separator); r != [] && !IsSpace(r[0]) && !IsSpace(r[|r| - 1])
    decreases |ws|
  {
    Sides(ws[0]);
    if |ws| > 1 {
      JoinSides(ws[1..], separator);
    }
  }

  // ---------------------------------------------------------------- splitting a joined list

  /** The separators that go with a delimiter: one space, or the delimiter and a space. */
  predicate SeparatorOf(separator: seq<byte>, delimiter: byte) {
    if delimiter == NUL then separator == [SPACE] else delimiter == COMMA && separator == [COMMA, SPACE]
  }

  /** A delimiter that bare words are free of. */
  predicate Outside(delimiter: byte) { delimiter == NUL || !IsPlain(delimiter) }

  lemma PlainNotSeparated(x: seq<byte>, delimiter: byte)
    requires Fits(Plain(x)) && Outside(delimiter)
    ensures forall k :: 0 <= k < |x| ==> !Separates(x[k], delimiter) && !IsBracket(x[k])
  {
  }

  /** A spelling on its own is one piece. */
  lemma CutAlone(w: Written, delimiter: byte)
    requires Fits(w) && Outside(delimiter)
    ensures Spelling(w) != [] && Cut(Spelling(w), delimiter) == (Spelling(w), [])
  {
    hide SequenceEnd, Separates, IsBracket, Spelling, Fits;
    Sides(w);
    var v := Spelling(w);
    assert v[0..|v|] == v[..|v|] == v;
    if w.Plain? {
      PlainSpelling(w);
      PlainNotSeparated(v, delimiter);
    } else {
      ClosesAtEnd(v, 0, w);
    }
  }

  lemma PlainSpelling(w: Written)
    requires w.Plain? && Fits(w)
    ensures Spelling(w) == w.text && Fits(Plain(w.text))
  {
  }

  /** In front of a separator the cut comes right behind the spelling. */
  lemma CutBefore(w: Written, s: seq<byte>, delimiter: byte)
    requires Fits(w) && Outside(delimiter)
    requires |Spelling(w)| < |s| && s[..|Spelling(w)|] == Spelling(w) && Separates(s[|Spelling(w)|], delimiter)
    ensures Cut(s, delimiter) == (Spelling(w), s[|Spelling(w)| + 1..])
  {
    hide SequenceEnd, Separates, IsBracket, Spelling, Fits;
    Sides(w);
    var v := Spelling(w);
    if w.Plain? {
      PlainSpelling(w);
      PlainNotSeparated(v, delimiter);
      assert forall k :: 0 <= k < |v| ==> s[k] == v[k];
    } else {
      assert s[0..|v|] == v;
      ClosesAtEnd(s, 0, w);
      assert |v| + 1 == |s| ==> s[|v| + 1..] == [];
    }
  }

  /** The first piece cut off is the first spelling; no quote, bracket or separator inside misleads the cut. */
  lemma CutFirst(w: Written, rest: seq<byte>, separator: seq<byte>, delimiter: byte)
    requires Fits(w) && SeparatorOf(separator, delimiter)
    ensures Spelling(w) != [] && Cut(Spelling(w), delimiter) == (Spelling(w), [])
    ensures Cut(Spelling(w) + separator + rest, delimiter) == (Spelling(w), separator[1..] + rest)
    ensures separator[1..] + rest == rest || separator[1..] + rest == [SPACE] + rest
  {
    hide Cut, Spelling, Fits;
    CutAlone(w, delimiter);
    var v := Spelling(w);
    var s := v + separator + rest;
    assert s[..|v|] == v && s[|v|] == separator[0] && s[|v| + 1..] == separator[1..] + rest;
    CutBefore(w, s, delimiter);
    assert delimiter == NUL ==> separator[1..] + rest == rest;
  }

  lemma LeadingSpace(s: seq<byte>)
    requires s != [] && !IsSpace(s[0]) && !IsSpace(s[|s| - 1])
    ensures Trim(s) == s && Trim([SPACE] + s) == s
  {
    KeptBySides(s);
    var t := [SPACE] + s;
    assert RightTrim(t) == t;
    assert t[1..] == s;
  }

  /** Splitting a joined list gives the spellings back, in order. */
  lemma {:induction false} SplitJoined(ws: seq<Written>, separator: seq<byte>, delimiter: byte)
    requires AllFit(ws) && SeparatorOf(separator, delimiter)
    ensures SplitUp(Join(ws, separator), delimiter) == Spellings(ws)
    decreases |ws|
  {
    hide Cut, Trim;
    if ws == [] {
      KeptBySides([]);
    } else {
      var s := Join(ws, separator);
      JoinSides(ws, separator);
      KeptBySides(s);
      if |ws| == 1 {
        CutFirst(ws[0], [], separator, delimiter);
        KeptBySides([]);
        assert Spellings(ws[1..]) == [];
      } else {
        var rest := Join(ws[1..], separator);
        CutFirst(ws[0], rest, separator, delimiter);
        JoinSides(ws[1..], separator);
        LeadingSpace(rest);
        SplitJoined(ws[1..], separator, delimiter);
      }
    }
  }

  // ---------------------------------------------------------------- the quotes taken off

  function StripQuotes(s: seq<byte>): (r: seq<byte>)
    ensures |r| <= |s|
  {
    if |s| > 1 && (s[0] == QUOTE || s[0] == APOSTROPHE || s[0] == BACKTICK) && s[0] == s[|s| - 1] then s[1..|s| - 1]
    else s
  }

  /** One argument; the escapes only count in a text between double quotes. None stands for the exception. */
  function Unquoted(arg: seq<byte>): Option<seq<byte>> {
    if arg != [] && arg[0] == QUOTE && arg[|arg| - 1] == QUOTE then RemoveEscaped(StripQuotes(arg))
    else Some(StripQuotes(arg))
  }

  function AllUnquoted(args: seq<seq<byte>>): Option<seq<seq<byte>>> {
    if args == [] then Some([])
    else if Unquoted(args[0]).None? || AllUnquoted(args[1..]).None? then None
    else Some([Unquoted(args[0]).value] + AllUnquoted(args[1..]).value)
  }

  lemma {:induction false} AllUnquotedAt(args: seq<seq<byte>>)
    ensures AllUnquoted(args).Some? <==> forall k :: 0 <= k < |args| ==> Unquoted(args[k]).Some?
    ensures AllUnquoted(args).Some? ==> |AllUnquoted(args).value| == |args|
    ensures var r := AllUnquoted(args);
      r.None? || forall k :: 0 <= k < |args| ==> r.value[k] == Unquoted(args[k]).value
    decreases |args|
  {
    hide Unquoted;
    if args != [] {
      AllUnquotedAt(args[1..]);
      assert forall k :: 1 <= k < |args| ==> args[k] == args[1..][k - 1];
    }
  }

  method RemoveQuotes(list: seq<seq<byte>>) returns (r: Option<seq<seq<byte>>>)
    ensures r == AllUnquoted(list)
  {
    var args := list;
    AllUnquotedAt(list);
    for i := 0 to |args|
      invariant |args| == |list|
      invariant forall k :: i <= k < |list| ==> args[k] == list[k]
      invariant forall k :: 0 <= k < i ==> Unquoted(list[k]) == Some(args[k])
    {
      var arg := args[i];
      if arg != [] && arg[0] == QUOTE && arg[|arg| - 1] == QUOTE {
        var plain := RemoveEscapedCharacters(StripQuotes(arg));
        if plain.None? {
          return None;
        }
        args := args[i := plain.value];
      } else {
        args := args[i := StripQuotes(arg)];
      }
    }
    assert args == AllUnquoted(list).value;
    return Some(args);
  }

  // ---------------------------------------------------------------- the command line

  /** Every argument behind double quotes. */
  function QuoteAll(args: seq<seq<byte>>): (r: seq<Written>)
    ensures |r| == |args| && AllFit(r)
  {
    if args == [] then [] else [Quoted(args[0])] + QuoteAll(args[1..])
  }

  lemma UnquotedSpelling(x: seq<byte>)
    ensures Unquoted(Spelling(Quoted(x))) == Some(x)
  {
    var s := Spelling(Quoted(x));
    assert s[1..|s| - 1] == AddEscaped(x);
    EscapeRoundTrip(x);
  }

  lemma {:induction false} UnquotedSpellings(args: seq<seq<byte>>)
    ensures AllUnquoted(Spellings(QuoteAll(args))) == Some(args)
    decreases |args|
  {
    hide Unquoted, Spelling;
    if args != [] {
      var ws := QuoteAll(args);
      UnquotedSpelling(args[0]);
      UnquotedSpellings(args[1..]);
      assert ws[1..] == QuoteAll(args[1..]);
      assert Spellings(ws)[1..] == Spellings(ws[1..]);
      assert [args[0]] + args[1..] == args;
    }
  }

  /** A command line of quoted arguments, split at white space and stripped, is the list it was made of. */
  lemma CommandLineRoundTrip(args: seq<seq<byte>>)
    ensures AllUnquoted(SplitUp(Join(QuoteAll(args), [SPACE]), NUL)) == Some(args)
  {
    SplitJoined(QuoteAll(args), [SPACE], NUL);
    UnquotedSpellings(args);
  }
}

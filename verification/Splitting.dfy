/** Splitting of command lines and configuration values at spaces or delimiters, outside quotes and brackets. */
module Splitting {
  import opened Bytes

  const BACKTICK: byte := 96
  const LESS: byte := 60
  const GREATER: byte := 62

  /** White space of the "C" locale. */
  predicate IsSpace(b: byte) { 9 <= b <= 13 || b == SPACE }

  function LeftTrim(s: seq<byte>): (r: seq<byte>)
    ensures |r| <= |s|
  {
    if s != [] && IsSpace(s[0]) then LeftTrim(s[1..]) else s
  }

  function RightTrim(s: seq<byte>): (r: seq<byte>)
    ensures |r| <= |s|
    decreases |s|
  {
    if s != [] && IsSpace(s[|s| - 1]) then RightTrim(s[..|s| - 1]) else s
  }

  function Trim(s: seq<byte>): (r: seq<byte>)
    ensures |r| <= |s|
  {
    LeftTrim(RightTrim(s))
  }

  // ---------------------------------------------------------------- where a quote or bracket closes

  predicate IsBracket(b: byte) {
    b == QUOTE || b == APOSTROPHE || b == BACKTICK || b == LBRACKET || b == LPAREN || b == LESS || b == LBRACE
  }

  /** The character that closes an opening one. */
  function Match(b: byte): byte
    requires IsBracket(b)
  {
    if b == LBRACKET then RBRACKET else if b == LPAREN then RPAREN
    else if b == LESS then GREATER else if b == LBRACE then RBRACE else b
  }

  predicate ClosesBracket(b: byte) { b == RBRACKET || b == RPAREN || b == GREATER || b == RBRACE }

  /** From loc on, the closing quote, with escaped characters skipped; it may lie one behind the end. */
  function QuoteEnd(s: seq<byte>, loc: nat, close: byte): (r: nat)
    ensures loc <= r && (loc <= |s| ==> r <= |s| + 1)
    decreases |s| - loc
  {
    if loc >= |s| || s[loc] == close then loc
    else if s[loc] == BACKSLASH then QuoteEnd(s, loc + 2, close)
    else QuoteEnd(s, loc + 1, close)
  }

  function LiteralEnd(s: seq<byte>, loc: nat, close: byte): (r: nat)
    ensures r <= |s| && (loc <= |s| ==> loc <= r)
    decreases |s| - loc
  {
    if loc >= |s| then |s| else if s[loc] == close then loc else LiteralEnd(s, loc + 1, close)
  }

  /** Where the stack of brackets still to close becomes empty; quotes inside are skipped as a whole. */
  function BracketEnd(s: seq<byte>, loc: nat, closures: seq<byte>): (r: nat)
    requires closures != []
    ensures r <= |s|
    decreases |s| - loc
  {
    if loc >= |s| then |s|
    else
      var b := s[loc];
      var left := if b == closures[|closures| - 1] then closures[..|closures| - 1] else closures;
      if left == [] then loc
      else if b == QUOTE then BracketEnd(s, QuoteEnd(s, loc + 1, b) + 1, left)
      else if b == APOSTROPHE || b == BACKTICK then BracketEnd(s, LiteralEnd(s, loc + 1, b) + 1, left)
      else BracketEnd(s, loc + 1, if IsBracket(b) then left + [Match(b)] else left)
  }

  function SequenceEnd(s: seq<byte>, start: nat, close: byte): nat {
    if close == QUOTE then QuoteEnd(s, start + 1, close)
    else if ClosesBracket(close) then BracketEnd(s, start + 1, [close])
    else LiteralEnd(s, start + 1, close)
  }

  method CloseStringQuote(s: seq<byte>, start: nat, close: byte) returns (loc: nat)
    ensures loc == QuoteEnd(s, start + 1, close)
  {
    loc := start + 1;
    while loc < |s|
      invariant QuoteEnd(s, start + 1, close) == QuoteEnd(s, loc, close)
    {
      if s[loc] == close {
        break;
      }
      if s[loc] == BACKSLASH {
        loc := loc + 1;
      }
      loc := loc + 1;
    }
  }

  method CloseLiteralQuote(s: seq<byte>, start: nat, close: byte) returns (loc: nat)
    ensures loc == LiteralEnd(s, start + 1, close)
  {
    loc := start + 1;
    while loc < |s| && s[loc] != close
      invariant LiteralEnd(s, start + 1, close) == LiteralEnd(s, loc, close)
    {
      loc := loc + 1;
    }
    if loc > |s| {
      loc := |s|;
    }
  }

  method CloseSequence(s: seq<byte>, start: nat, close: byte) returns (loc: nat)
    ensures loc == SequenceEnd(s, start, close)
  {
    if close == QUOTE {
      loc := CloseStringQuote(s, start, close);
      return;
    }
    if !ClosesBracket(close) {
      loc := CloseLiteralQuote(s, start, close);
      return;
    }
    var closures := [close];
    loc := start + 1;
    while loc < |s|
      invariant closures != []
      invariant BracketEnd(s, start + 1, [close]) == BracketEnd(s, loc, closures)
      decreases |s| - loc
    {
      var b := s[loc];
      if b == closures[|closures| - 1] {
        closures := closures[..|closures| - 1];
        if closures == [] {
          return;
        }
      }
      if b == QUOTE {
        loc := CloseStringQuote(s, loc, b);
      } else if b == APOSTROPHE || b == BACKTICK {
        loc := CloseLiteralQuote(s, loc, b);
      } else if IsBracket(b) {
        closures := closures + [Match(b)];
      }
      loc := loc + 1;
    }
    if loc > |s| {
      loc := |s|;
    }
  }

  // ---------------------------------------------------------------- the splitting

  predicate Separates(b: byte, delimiter: byte) {
    if delimiter == NUL then IsSpace(b) else b == delimiter
  }

  function FirstSeparator(s: seq<byte>, i: nat, delimiter: byte): (r: nat)
    requires i <= |s|
    ensures i <= r <= |s|
    ensures r < |s| ==> Separates(s[r], delimiter)
    ensures forall k :: i <= k < r ==> !Separates(s[k], delimiter)
    decreases |s| - i
  {
    if i == |s| || Separates(s[i], delimiter) then i else FirstSeparator(s, i + 1, delimiter)
  }

  /** The first piece of a trimmed text and what is left behind it. */
  function Cut(s: seq<byte>, delimiter: byte): (r: (seq<byte>, seq<byte>))
    requires s != []
    ensures |r.0| <= |s| && |r.1| < |s|
  {
    if IsBracket(s[0]) then
      var end := SequenceEnd(s, 0, Match(s[0]));
      if end >= |s| then (s, []) else (s[..end + 1], if end + 2 < |s| then s[end + 2..] else [])
    else
      var k := FirstSeparator(s, 0, delimiter);
      if k < |s| then (s[..k], s[k + 1..]) else (s, [])
  }

  function SplitUp(s: seq<byte>, delimiter: byte): (r: seq<seq<byte>>)
    ensures forall k :: 0 <= k < |r| ==> |r[k]| <= |s|
    decreases |s|
  {
    var t := Trim(s);
    if t == [] then [] else
      var cut := Cut(t, delimiter);
      [cut.0] + SplitUp(cut.1, delimiter)
  }

  /** One turn of the loop: the first piece, and what is left to split. */
  method CutOff(str: seq<byte>, delimiter: byte) returns (piece: seq<byte>, rest: seq<byte>)
    requires str != []
    ensures (piece, rest) == Cut(str, delimiter)
  {
    hide SequenceEnd;
    rest := [];
    if IsBracket(str[0]) {
      var end := CloseSequence(str, 0, Match(str[0]));
      if end >= |str| {
        piece := str;
      } else {
        piece := str[..end + 1];
        if end + 2 < |str| {
          rest := str[end + 2..];
        }
      }
    } else {
      var k := 0;
      while k < |str| && !Separates(str[k], delimiter)
        invariant k <= |str| && FirstSeparator(str, 0, delimiter) == FirstSeparator(str, k, delimiter)
      {
        k := k + 1;
      }
      if k < |str| {
        piece := str[..k];
        rest := str[k + 1..];
      } else {
        piece := str;
      }
    }
  }

  method Split(s: seq<byte>, delimiter: byte) returns (output: seq<seq<byte>>)
    ensures output == SplitUp(s, delimiter)
  {
    hide Trim, Cut;
    var str := Trim(s);
    output := [];
    TrimTwice(s);
    assert [] + SplitUp(s, delimiter) == SplitUp(s, delimiter);
    SplitTrimmed(s, delimiter);
    while str != []
      invariant Trim(str) == str
      invariant SplitUp(s, delimiter) == output + SplitUp(str, delimiter)
      decreases |str|
    {
      var piece, rest := CutOff(str, delimiter);
      assert output + ([piece] + SplitUp(rest, delimiter)) == (output + [piece]) + SplitUp(rest, delimiter);
      output := output + [piece];
      SplitTrimmed(rest, delimiter);
      TrimTwice(rest);
      str := Trim(rest);
    }
  }

  lemma SplitTrimmed(s: seq<byte>, delimiter: byte)
    ensures SplitUp(Trim(s), delimiter) == SplitUp(s, delimiter)
  {
    TrimTwice(s);
  }

  lemma TrimTwice(s: seq<byte>)
    ensures Trim(Trim(s)) == Trim(s)
  {
    var r := RightTrim(s);
    RightTrimmed(s);
    LeftTrimmed(r);
    KeptBySides(Trim(s));
  }

  lemma {:induction false} RightTrimmed(s: seq<byte>)
    ensures var r := RightTrim(s); r == [] || !IsSpace(r[|r| - 1])
    decreases |s|
  {
    if s != [] && IsSpace(s[|s| - 1]) {
      RightTrimmed(s[..|s| - 1]);
    }
  }

  lemma {:induction false} LeftTrimmed(s: seq<byte>)
    ensures var r := LeftTrim(s); r == [] || (!IsSpace(r[0]) && r[|r| - 1] == s[|s| - 1])
    decreases |s|
  {
    if s != [] && IsSpace(s[0]) {
      LeftTrimmed(s[1..]);
      LeftTrimNonempty(s);
    }
  }

  lemma LeftTrimNonempty(s: seq<byte>)
    ensures s == [] ==> LeftTrim(s) == []
  {
  }

  /** A text whose ends are no spaces is left alone. */
  lemma KeptBySides(s: seq<byte>)
    requires s == [] || (!IsSpace(s[0]) && !IsSpace(s[|s| - 1]))
    ensures Trim(s) == s
  {
  }
}

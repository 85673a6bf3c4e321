/** Laws of the reader of several lines that hold for any lines: joints, and double quotes in place of single ones. */
module MultiLineLaws {
  import opened Bytes
  import opened Escapes
  import opened Splitting
  import opened ConfigValue
  import opened MultiLine
  import L = SplitLaws

  /** A line that neither goes on nor closes the value. */
  predicate IsInner(line: seq<byte>, quote: byte) {
    !EndsIn(line, BACKSLASH) && !HasTriple(RightTrim(line), quote)
  }

  /** A line break behind a backslash, with blanks around what follows, changes nothing: the line is read as one. */
  lemma JointIsNothing(item: seq<byte>, a: seq<byte>, blanks: seq<byte>, b: seq<byte>, more: seq<byte>,
                       rest: seq<seq<byte>>, firstLine: bool, quote: byte)
    requires L.AllBlank(blanks) && L.AllBlank(more) && L.IsTrimmed(b) && b != []
    requires IsInner(a + b, quote) && !HasTriple(b, quote) && (quote == QUOTE || quote == APOSTROPHE)
    ensures ReadOn(item, [a + ['\\' as int], blanks + b + more] + rest, false, firstLine, quote)
      == ReadOn(item, [a + b] + rest, false, firstLine, quote)
  {
    hide Trim, RightTrim, LeftTrim;
    var first, second := a + [BACKSLASH], blanks + b + more;
    var lines := [first, second] + rest;
    BackslashStays(a);
    assert first[..|first| - 1] == a;
    assert lines[1..] == [second] + rest && ([second] + rest)[1..] == rest && ([a + b] + rest)[1..] == rest;
    L.Trims(blanks, b, more);
    RightOfSecond(blanks, b, more);
    NoTripleBehind(blanks, b, quote);
    assert Last(a + b) == Last(b);
    var glue := Glue(item, false, firstLine);
    Joined(item + glue, a, b);
    assert Glue(item + glue + a, true, false) == [];
    assert (item + glue + a) + [] == item + glue + a;
  }

  lemma BackslashStays(a: seq<byte>)
    ensures RightTrim(a + [BACKSLASH]) == a + [BACKSLASH]
  {
  }

  lemma RightOfSecond(blanks: seq<byte>, b: seq<byte>, more: seq<byte>)
    requires L.AllBlank(more) && L.IsTrimmed(b) && b != []
    ensures RightTrim(blanks + b + more) == blanks + b
  {
    L.RightTrims(blanks + b, more);
    L.BlankIsSpace(Last(b));
    assert Last(blanks + b) == Last(b);
  }

  lemma NoTripleBehind(blanks: seq<byte>, b: seq<byte>, quote: byte)
    requires L.AllBlank(blanks) && !HasTriple(b, quote) && !L.IsBlank(quote)
    ensures !HasTriple(blanks + b, quote)
  {
    var s := blanks + b;
    assert forall k :: 0 <= k < |blanks| ==> s[k] == blanks[k] && s[k] != quote;
  }

  // ---------------------------------------------------------------- double quotes

  predicate QuoteFree(line: seq<byte>) {
    '"' as int !in line && '\'' as int !in line
  }

  lemma {:induction false} TrimmedWithin(line: seq<byte>)
    ensures forall b <- RightTrim(line) :: b in line
    decreases |line|
  {
    if line != [] && IsSpace(Last(line)) {
      TrimmedWithin(ButLast(line));
    }
  }

  lemma NoTriple(line: seq<byte>)
    requires QuoteFree(line)
    ensures !HasTriple(line, QUOTE) && !HasTriple(line, APOSTROPHE)
    ensures !HasTriple(RightTrim(line), QUOTE) && !HasTriple(RightTrim(line), APOSTROPHE)
  {
    TrimmedWithin(line);
    NoTripleIn(line);
    NoTripleIn(RightTrim(line));
  }

  lemma NoTripleIn(s: seq<byte>)
    requires QuoteFree(s)
    ensures !HasTriple(s, QUOTE) && !HasTriple(s, APOSTROPHE)
  {
    assert |s| >= 3 ==> s[|s| - 1] in s;
  }

  lemma ClosingTriple(last: seq<byte>, quote: byte)
    requires quote == QUOTE || quote == APOSTROPHE
    ensures var line := last + [quote, quote, quote];
      RightTrim(line) == line && HasTriple(line, quote) && Stripped(line) == last && !EndsIn(line, BACKSLASH)
  {
  }

  /** Some lines, the closing one, and what follows in the file. */
  function Written(lines: seq<seq<byte>>, last: seq<byte>, quote: byte, more: seq<seq<byte>>): seq<seq<byte>> {
    lines + ([last + [quote, quote, quote]] + more)
  }

  lemma WrittenNext(lines: seq<seq<byte>>, last: seq<byte>, quote: byte, more: seq<seq<byte>>)
    ensures lines != [] ==> var w := Written(lines, last, quote, more);
      w != [] && w[0] == lines[0] && w[1..] == Written(lines[1..], last, quote, more)
    ensures lines == [] ==> var w := Written(lines, last, quote, more);
      w != [] && w[0] == last + [quote, quote, quote]
  {
  }

  lemma InnerStep(item: seq<byte>, lines: seq<seq<byte>>, extension: bool, firstLine: bool, quote: byte)
    requires lines != [] && !HasTriple(RightTrim(lines[0]), quote)
    ensures var text := if extension then Trim(lines[0]) else lines[0];
      var goesOn := EndsIn(text, BACKSLASH);
      ReadOn(item, lines, extension, firstLine, quote)
        == ReadOn(item + Glue(item, extension, firstLine) + (if goesOn then ButLast(text) else text), lines[1..],
                  goesOn,
                  false, quote)
  {
    hide RightTrim, LeftTrim, RemoveEscaped, Glue;
  }

  lemma LastStep(item: seq<byte>, lines: seq<seq<byte>>, last: seq<byte>, extension: bool, firstLine: bool, quote: byte)
    requires lines != [] && lines[0] == last + [quote, quote, quote] && (quote == QUOTE || quote == APOSTROPHE)
    ensures ReadOn(item, lines, extension, firstLine, quote) == Finished(
      WithoutBreak(item + Glue(item, extension, firstLine) + (if extension then LeftTrim(last) else last)), quote)
  {
    ClosingTriple(last, quote);
    hide RightTrim, LeftTrim, RemoveEscaped, Glue, HasTriple, Stripped;
  }

  /** Between double quotes the lines are put together in the same way, and then the escapes are resolved. */
  lemma {:induction false} QuotesAlike(item: seq<byte>, lines: seq<seq<byte>>, last: seq<byte>, more: seq<seq<byte>>,
                                       extension: bool, firstLine: bool)
    requires forall k :: 0 <= k < |lines| ==> QuoteFree(lines[k])
    ensures var double := ReadOn(item, Written(lines, last, QUOTE, more), extension, firstLine, QUOTE);
      var single := ReadOn(item, Written(lines, last, APOSTROPHE, more), extension, firstLine, APOSTROPHE);
      single.Some? && double == RemoveEscaped(single.value)
    decreases |lines|
  {
    hide RightTrim, LeftTrim, RemoveEscaped, ReadOn, Written, Glue, WithoutBreak;
    WrittenNext(lines, last, QUOTE, more);
    WrittenNext(lines, last, APOSTROPHE, more);
    if lines == [] {
      LastStep(item, Written(lines, last, QUOTE, more), last, extension, firstLine, QUOTE);
      LastStep(item, Written(lines, last, APOSTROPHE, more), last, extension, firstLine, APOSTROPHE);
    } else {
      NoTriple(lines[0]);
      InnerStep(item, Written(lines, last, QUOTE, more), extension, firstLine, QUOTE);
      InnerStep(item, Written(lines, last, APOSTROPHE, more), extension, firstLine, APOSTROPHE);
      var text := if extension then Trim(lines[0]) else lines[0];
      var goesOn := EndsIn(text, BACKSLASH);
      var next := item + Glue(item, extension, firstLine) + (if goesOn then ButLast(text) else text);
      QuotesAlike(next, lines[1..], last, more, goesOn, false);
    }
  }
}

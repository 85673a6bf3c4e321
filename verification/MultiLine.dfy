/** Values between triple quotes, spread over the lines of a configuration file, and how they are read back. */
module MultiLine {
  import opened Bytes
  import opened Escapes
  import opened Splitting
  import opened ConfigValue
  import B = BinaryEscapes

  // ---------------------------------------------------------------- lines

  /** What std::getline yields of a text, a last line without its end included. */
  function Lines(s: seq<byte>): (r: seq<seq<byte>>)
    ensures r != []
    decreases |s|
  {
    var k := FirstIndex(s, 0, NEWLINE);
    if k == |s| then [s] else [s[..k]] + Lines(s[k + 1..])
  }

  function JoinLines(lines: seq<seq<byte>>): seq<byte>
    requires lines != []
  {
    if |lines| == 1 then lines[0] else lines[0] + [NEWLINE] + JoinLines(lines[1..])
  }

  lemma {:induction false} JoinOfLines(s: seq<byte>)
    ensures JoinLines(Lines(s)) == s
    ensures forall line <- Lines(s) :: NEWLINE !in line
    decreases |s|
  {
    var k := FirstIndex(s, 0, NEWLINE);
    if k < |s| {
      var rest := s[k + 1..];
      JoinOfLines(rest);
      var lines := [s[..k]] + Lines(rest);
      assert lines[1..] == Lines(rest);
      assert s == s[..k] + [NEWLINE] + rest;
    }
  }

  lemma OneLine(s: seq<byte>)
    requires NEWLINE !in s
    ensures Lines(s) == [s]
  {
  }

  /** The lines of a value with the closing quotes behind the last one. */
  function Closed(lines: seq<seq<byte>>): (r: seq<seq<byte>>)
    requires lines != []
    ensures |r| == |lines|
  {
    if |lines| == 1 then [lines[0] + TRIPLE] else [lines[0]] + Closed(lines[1..])
  }

  lemma {:induction false} LinesClosed(s: seq<byte>)
    ensures Lines(s + TRIPLE) == Closed(Lines(s))
    decreases |s|
  {
    hide FirstIndex;
    var t, k := s + TRIPLE, FirstIndex(s, 0, NEWLINE);
    LineEndsAlike(s, TRIPLE);
    if k < |s| {
      assert t[..k] == s[..k] && t[k + 1..] == s[k + 1..] + TRIPLE;
      LinesClosed(s[k + 1..]);
      assert ([s[..k]] + Lines(s[k + 1..]))[1..] == Lines(s[k + 1..]);
    }
  }

  lemma LineEndsAlike(s: seq<byte>, more: seq<byte>)
    requires NEWLINE !in more
    ensures var k := FirstIndex(s, 0, NEWLINE);
      FirstIndex(s + more, 0, NEWLINE) == if k < |s| then k else |s + more|
  {
    var k, m := FirstIndex(s, 0, NEWLINE), FirstIndex(s + more, 0, NEWLINE);
    assert forall i :: 0 <= i < |s| ==> (s + more)[i] == s[i];
    assert forall i :: |s| <= i < |s + more| ==> (s + more)[i] == more[i - |s|];
    if m < |s + more| {
      assert (s + more)[m] == NEWLINE && m < |s|;
    }
  }

  lemma LinesStep(s: seq<byte>)
    ensures var k := FirstIndex(s, 0, NEWLINE);
      Lines(s) == if k == |s| then [s] else [s[..k]] + Lines(s[k + 1..])
  {
    hide FirstIndex;
  }

  lemma FirstBreakPrefixed(p: seq<byte>, x: seq<byte>)
    requires NEWLINE !in p
    ensures FirstIndex(p + x, 0, NEWLINE) == |p| + FirstIndex(x, 0, NEWLINE)
  {
    var k, m := FirstIndex(x, 0, NEWLINE), FirstIndex(p + x, 0, NEWLINE);
    assert forall i :: 0 <= i < |p| ==> (p + x)[i] == p[i];
    assert forall i :: |p| <= i < |p + x| ==> (p + x)[i] == x[i - |p|];
    if m < |p + x| {
      assert m >= |p| && x[m - |p|] == NEWLINE;
    }
    if k < |x| {
      assert (p + x)[|p| + k] == x[k];
    }
  }

  /** Bytes in front of a text stand on its first line. */
  lemma LinesPrefixed(p: seq<byte>, x: seq<byte>)
    requires NEWLINE !in p
    ensures Lines(p + x) == [p + Lines(x)[0]] + Lines(x)[1..]
  {
    hide FirstIndex, Lines;
    var k := FirstIndex(x, 0, NEWLINE);
    FirstBreakPrefixed(p, x);
    LinesStep(x);
    LinesStep(p + x);
    if k < |x| {
      assert (p + x)[..|p| + k] == p + x[..k] && (p + x)[|p| + k + 1..] == x[k + 1..];
      assert ([x[..k]] + Lines(x[k + 1..]))[1..] == Lines(x[k + 1..]);
    } else {
      assert [x][1..] == [] && [p + x] + [] == [p + x];
    }
  }

  // ---------------------------------------------------------------- reading

  predicate HasTriple(line: seq<byte>, quote: byte) {
    var n := |line|;
    n >= 3 && line[n - 1] == quote && line[n - 2] == quote && line[n - 3] == quote
  }

  predicate EndsIn(s: seq<byte>, b: byte) { s != [] && Last(s) == b }

  /** Escapes count between double quotes only; None stands for the exception. */
  function Finished(item: seq<byte>, quote: byte): Option<seq<byte>> {
    if quote == QUOTE then RemoveEscaped(item) else Some(item)
  }

  /** What stands between the text read so far and a further line. */
  function Glue(item: seq<byte>, extension: bool, firstLine: bool): seq<byte> {
    if extension || (firstLine && item == []) then [] else [NEWLINE]
  }

  function WithoutBreak(item: seq<byte>): seq<byte> {
    if EndsIn(item, NEWLINE) then ButLast(item) else item
  }

  function Stripped(line: seq<byte>): seq<byte>
    requires |line| >= 3
  {
    line[..|line| - 3]
  }

  /** The lines behind the first one; `extension` says that a backslash ended the line before. */
  function ReadOn(item: seq<byte>, lines: seq<seq<byte>>, extension: bool, firstLine: bool, quote: byte):
      Option<seq<byte>>
    decreases |lines|
  {
    if lines == [] then Some(item)
    else
      var line, glue := RightTrim(lines[0]), Glue(item, extension, firstLine);
      if HasTriple(line, quote) then
        var body := if extension then LeftTrim(Stripped(line)) else Stripped(line);
        Finished(WithoutBreak(item + glue + body), quote)
      else
        var text := if extension then Trim(lines[0]) else lines[0];
        var goesOn := EndsIn(text, BACKSLASH);
        ReadOn(item + glue + (if goesOn then ButLast(text) else text), lines[1..], goesOn, false, quote)
  }

  /** A value from behind its opening quotes on: the rest of that line, and the lines of the file behind it. */
  function ReadValue(lines: seq<seq<byte>>, quote: byte): Option<seq<byte>>
    requires lines != []
  {
    var first := lines[0];
    if EndsIn(first, BACKSLASH) then ReadOn(ButLast(first), lines[1..], true, true, quote)
    else if HasTriple(first, quote) then Finished(Stripped(first), quote)
    else ReadOn(first, lines[1..], false, true, quote)
  }

  method ReadMultiLine(lines: seq<seq<byte>>, quote: byte) returns (r: Option<seq<byte>>)
    requires lines != []
    ensures r == ReadValue(lines, quote)
  {
    hide RemoveEscaped, RightTrim, LeftTrim, Stripped;
    var item := lines[0];
    var lineExtension, firstLine, inValue := false, true, true;
    if EndsIn(item, BACKSLASH) {
      item := ButLast(item);
      lineExtension := true;
    } else if HasTriple(item, quote) {
      item := Stripped(item);
      inValue := false;
    }
    var k := 1;
    while inValue && k < |lines|
      invariant 1 <= k <= |lines|
      invariant inValue ==> ReadValue(lines, quote) == ReadOn(item, lines[k..], lineExtension, firstLine, quote)
      invariant !inValue ==> ReadValue(lines, quote) == Finished(item, quote)
      decreases |lines| - k, inValue
    {
      ghost var rest := lines[k..];
      assert rest[1..] == lines[k + 1..];
      ghost var before, glue := item, Glue(item, lineExtension, firstLine);
      var l2 := lines[k];
      var line := RightTrim(l2);
      k := k + 1;
      if HasTriple(line, quote) {
        line := Stripped(line);
        if lineExtension {
          line := LeftTrim(line);
        } else if !(firstLine && item == []) {
          item := item + [NEWLINE];
        }
        assert item == before + glue;
        item := item + line;
        inValue := false;
        if EndsIn(item, NEWLINE) {
          item := ButLast(item);
        }
      } else {
        if lineExtension {
          l2 := Trim(l2);
        } else if !(firstLine && item == []) {
          item := item + [NEWLINE];
        }
        assert item == before + glue;
        lineExtension := false;
        if EndsIn(l2, BACKSLASH) {
          lineExtension := true;
          l2 := ButLast(l2);
        }
        item := item + l2;
      }
      firstLine := false;
    }
    if inValue || quote != QUOTE {
      return Some(item);
    }
    r := RemoveEscapedCharacters(item);
  }

  // ---------------------------------------------------------------- which values come back

  /** No line before the last is taken for an extended or a closing one, and the last one is not empty. */
  predicate RestSafe(lines: seq<seq<byte>>)
    requires lines != []
  {
    if |lines| == 1 then lines[0] != []
    else
      && !EndsIn(lines[0], BACKSLASH) && !HasTriple(RightTrim(lines[0]), APOSTROPHE)
      && RestSafe(lines[1..])
  }

  /** A value on one line is safe; otherwise its first line must not be empty either. */
  predicate LineSafe(lines: seq<seq<byte>>)
    requires lines != []
  {
    |lines| == 1 ||
    (lines[0] != [] && !EndsIn(lines[0], BACKSLASH) && !HasTriple(lines[0], APOSTROPHE) && RestSafe(lines[1..]))
  }

  lemma ClosingLine(line: seq<byte>)
    ensures RightTrim(line + TRIPLE) == line + TRIPLE && HasTriple(line + TRIPLE, APOSTROPHE)
    ensures Stripped(line + TRIPLE) == line && !EndsIn(line + TRIPLE, BACKSLASH)
  {
  }

  /** Reading on never adds a byte, and the quotes behind the last line always end it. */
  lemma {:induction false} ReadOnBound(item: seq<byte>, lines: seq<seq<byte>>, extension: bool, firstLine: bool,
                                      more: seq<seq<byte>>)
    requires lines != []
    ensures var r := ReadOn(item, Closed(lines) + more, extension, firstLine, APOSTROPHE);
      r.Some? && |r.value| <= |item| + |Glue(item, extension, firstLine)| + |JoinLines(lines)|
    decreases |lines|
  {
    hide RightTrim, LeftTrim;
    var w := Closed(lines) + more;
    if |lines| == 1 {
      ClosingLine(lines[0]);
    } else {
      var text := if extension then Trim(lines[0]) else lines[0];
      var goesOn := EndsIn(text, BACKSLASH);
      var item' := item + Glue(item, extension, firstLine) + (if goesOn then ButLast(text) else text);
      assert w[1..] == Closed(lines[1..]) + more;
      ReadOnBound(item', lines[1..], goesOn, false, more);
    }
  }

  /** Behind some text, the lines come back exactly when they are safe; otherwise bytes are lost. */
  lemma {:induction false} ReadOnExact(item: seq<byte>, lines: seq<seq<byte>>, firstLine: bool, more: seq<seq<byte>>)
    requires lines != [] && item != [] && forall line <- lines :: NEWLINE !in line
    ensures var r := ReadOn(item, Closed(lines) + more, false, firstLine, APOSTROPHE);
      var full := item + [NEWLINE] + JoinLines(lines);
      r.Some? && (if RestSafe(lines) then r.value == full else |r.value| < |full|)
    decreases |lines|
  {
    hide RightTrim, LeftTrim, HasTriple, Stripped;
    var w, l := Closed(lines) + more, lines[0];
    assert l in lines;
    if |lines| == 1 {
      ClosingLine(l);
      LastOfLine(item, l);
    } else {
      assert w[1..] == Closed(lines[1..]) + more && w[0] == l;
      assert forall line <- lines[1..] :: line in lines;
      StrippedShorter(l);
      if EndsIn(l, BACKSLASH) {
        ReadOnBound(item + [NEWLINE] + ButLast(l), lines[1..], true, false, more);
      } else {
        ReadOnExact(item + [NEWLINE] + l, lines[1..], false, more);
        assert (item + [NEWLINE] + l) + [NEWLINE] + JoinLines(lines[1..])
          == item + [NEWLINE] + (l + [NEWLINE] + JoinLines(lines[1..]));
      }
    }
  }

  lemma LastOfLine(item: seq<byte>, l: seq<byte>)
    requires NEWLINE !in l
    ensures WithoutBreak(item + [NEWLINE] + l) == if l == [] then item else item + [NEWLINE] + l
  {
    var all := item + [NEWLINE] + l;
    if l == [] {
      assert ButLast(all) == item;
    } else {
      assert Last(all) == Last(l) && Last(l) in l;
    }
  }

  lemma StrippedShorter(l: seq<byte>)
    ensures HasTriple(RightTrim(l), APOSTROPHE) ==> |Stripped(RightTrim(l))| < |l|
  {
    hide RightTrim;
  }

  /** The text of a value that is written over lines, read back: all of it if its lines are safe, or less. */
  lemma LinesRead(arg: seq<byte>, more: seq<seq<byte>>)
    ensures var r := ReadValue(Lines(arg + TRIPLE) + more, APOSTROPHE);
      r.Some? && (if LineSafe(Lines(arg)) then r.value == arg else |r.value| < |arg|)
  {
    hide RightTrim, LeftTrim, Lines;
    var lines := Lines(arg);
    var first := lines[0];
    LinesClosed(arg);
    JoinOfLines(arg);
    var w := Closed(lines) + more;
    if |lines| == 1 {
      ClosingLine(first);
    } else {
      assert w[1..] == Closed(lines[1..]) + more && w[0] == first;
      assert forall line <- lines[1..] :: line in lines;
      if EndsIn(first, BACKSLASH) {
        ReadOnBound(ButLast(first), lines[1..], true, true, more);
      } else if first == [] {
        ReadOnBound(first, lines[1..], false, true, more);
      } else {
        ReadOnExact(first, lines[1..], true, more);
      }
    }
  }

  // ---------------------------------------------------------------- and which results come of them

  /** Resolving quotes leaves less than there was. */
  lemma ContentShorter(s: seq<byte>)
    requires IsQuoted(s, QUOTE, APOSTROPHE)
    ensures Content(s, QUOTE).Some? ==> |Content(s, QUOTE).value| < |s|
  {
    hide RemoveEscaped, B.Unhex;
    RemovalShortens(s[1..|s| - 1]);
    if B.IsBinaryEscaped(s) {
      B.UnhexShorter(s[3..|s| - 2]);
      if |s| >= 7 {
        B.UnhexShorter(s[4..|s| - 3]);
      }
    }
  }

  lemma {:induction false} HalvedShort(r: seq<byte>, ii: nat)
    requires 2 <= |r| && ii <= |r| - 1
    ensures Halved(r, ii).Some? ==> 2 * |Halved(r, ii).value| <= |r| - 1 - ii
    decreases |r| - ii
  {
    if ii < |r| - 2 && r[ii] == r[ii + 1] {
      HalvedShort(r, ii + 2);
    }
  }

  /** No result is longer than the text it was taken from. */
  lemma {:induction false} ResultsNoLonger(s: seq<byte>, spread: bool)
    ensures forall r <- Results(s, spread, NUL) :: |r| <= |s|
    ensures Undoubled(s).Some? ==> |Undoubled(s).value| < |s|
    decreases |s|, 0
  {
    hide Halved;
    if DoubleBracketed(s) {
      HalvedShort(s, 2);
    }
    if Undoubled(s).None? && spread && Bracketed(s) {
      PartsNoLonger(SplitUp(s[1..|s| - 1], COMMA), |s| - 2);
    }
  }

  lemma {:induction false} PartsNoLonger(parts: seq<seq<byte>>, longest: nat)
    requires forall k :: 0 <= k < |parts| ==> |parts[k]| <= longest
    ensures forall r <- AllResults(parts, longest, NUL) :: |r| <= longest
    decreases longest, |parts| + 1
  {
    hide Results;
    if parts != [] {
      if parts[0] != [] {
        ResultsNoLonger(parts[0], true);
      }
      PartsNoLonger(parts[1..], longest);
    }
  }

  /** The texts that are taken as they are: no quotes, no doubled brackets, no list for an option of several values. */
  predicate TakenAsIs(arg: seq<byte>, spread: bool) {
    !IsQuoted(arg, QUOTE, APOSTROPHE) && Undoubled(arg).None? && !(spread && Bracketed(arg))
  }

  /** An item as long as the value at most is the value, and nothing else is, after all that is done to items. */
  lemma ItemResults(item: seq<byte>, arg: seq<byte>, spread: bool)
    requires item == arg || |item| < |arg|
    ensures var p := Processed(item);
      (p.Some? && Results(p.value, spread, NUL) == [arg]) <==> (item == arg && TakenAsIs(arg, spread))
  {
    hide Results, IsQuoted, Content, Secondary, Undoubled;
    if IsQuoted(item, QUOTE, APOSTROPHE) {
      QuotedLength(item);
      ContentShorter(item);
      if Content(item, QUOTE).Some? {
        OneResult(Content(item, QUOTE).value, spread, NUL);
      }
    } else {
      PlainResults(item, arg, spread);
    }
  }

  lemma QuotedLength(item: seq<byte>)
    requires IsQuoted(item, QUOTE, APOSTROPHE)
    ensures |item| > 1
  {
  }

  lemma PlainResults(item: seq<byte>, arg: seq<byte>, spread: bool)
    requires item == arg || |item| < |arg|
    ensures Results(item, spread, NUL) == [arg] <==>
      item == arg && Undoubled(arg).None? && !(spread && Bracketed(arg))
  {
    hide Undoubled, AllResults, SplitUp;
    ResultsNoLonger(item, spread);
    if Results(item, spread, NUL) == [arg] {
      assert arg in Results(item, spread, NUL);
    }
    if Undoubled(item).None? && spread && Bracketed(item) {
      var parts := SplitUp(item[1..|item| - 1], COMMA);
      PartsNoLonger(parts, |item| - 2);
    }
  }

  /**
   A value between triple quotes comes back from the lines of the file if and only if its lines are safe and its
   text is taken as it is: the reader resolves quotes and takes lists apart once more.
   */
  lemma OverLinesRoundTrip(arg: seq<byte>, spread: bool, more: seq<seq<byte>>)
    ensures var item := ReadValue(Lines(arg + TRIPLE) + more, APOSTROPHE);
      item.Some? && var p := Processed(item.value);
      (p.Some? && Results(p.value, spread, NUL) == [arg]) <==> (LineSafe(Lines(arg)) && TakenAsIs(arg, spread))
  {
    hide Processed, Results, TakenAsIs, ReadValue, Lines, LineSafe;
    LinesRead(arg, more);
    ItemResults(ReadValue(Lines(arg + TRIPLE) + more, APOSTROPHE).value, arg, spread);
  }

  /** A backslash at the end of a line takes the line break with it. */
  lemma BackslashJoins()
    ensures ReadValue(Lines([65, BACKSLASH, NEWLINE, 66] + TRIPLE), APOSTROPHE) == Some([65, 66])
  {
    var arg: seq<byte> := [65, BACKSLASH, NEWLINE, 66];
    LinesClosed(arg);
    assert FirstIndex(arg, 2, NEWLINE) == 2 && FirstIndex(arg, 1, NEWLINE) == 2;
    assert FirstIndex(arg, 0, NEWLINE) == 2 && arg[..2] == [65, BACKSLASH] && arg[3..] == [66];
    OneLine([66]);
    var lines: seq<seq<byte>> := [[65, BACKSLASH], [66]];
    assert Lines(arg) == lines && lines[1..] == [[66]];
    var w := Closed(lines);
    assert w == [[65, BACKSLASH], [66] + TRIPLE] && w[1..] == [[66] + TRIPLE];
    ClosingLine([66]);
    assert LeftTrim([66]) == [66] && [65] + [] + [66] == [65, 66];
    assert ButLast([65, BACKSLASH]) == [65];
  }
}

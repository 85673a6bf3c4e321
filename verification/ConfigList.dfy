/** The values of one option on a line of a configuration file: joined by the writer, taken apart by the reader. */
module ConfigList {
  import opened Bytes
  import opened Splitting
  import opened Quoting
  import opened ConfigValue
  import opened MultiLine

  const HASH: byte := 35
  const BETWEEN: seq<byte> := [COMMA, SPACE]

  // ---------------------------------------------------------------- writing

  /** The written values, a comma and a space between each two. */
  function Converted(args: seq<seq<byte>>, numeric: seq<byte> -> bool, oneLine: bool): seq<byte> {
    if args == [] then []
    else if |args| == 1 then ConvertArg(args[0], numeric, oneLine)
    else ConvertArg(args[0], numeric, oneLine) + BETWEEN + Converted(args[1..], numeric, oneLine)
  }

  lemma {:induction false} ConvertedSnoc(
    args: seq<seq<byte>>, arg: seq<byte>, numeric: seq<byte> -> bool, oneLine: bool)
    requires args != []
    ensures Converted(args + [arg], numeric, oneLine)
      == Converted(args, numeric, oneLine) + BETWEEN + ConvertArg(arg, numeric, oneLine)
    decreases |args|
  {
    hide ConvertArg;
    assert (args + [arg])[1..] == args[1..] + [arg];
    if |args| > 1 {
      ConvertedSnoc(args[1..], arg, numeric, oneLine);
    }
  }

  function IniJoined(args: seq<seq<byte>>, numeric: seq<byte> -> bool): seq<byte> {
    if |args| > 1 then [LBRACKET] + Converted(args, numeric, true) + [RBRACKET] else Converted(args, numeric, false)
  }

  method IniJoin(args: seq<seq<byte>>, numeric: seq<byte> -> bool) returns (joined: seq<byte>)
    ensures joined == IniJoined(args, numeric)
  {
    hide ConvertArg;
    var oneLine := false;
    joined := [];
    if |args| > 1 {
      joined := joined + [LBRACKET];
      oneLine := true;
    }
    ghost var opening := joined;
    for start := 0 to |args|
      invariant joined == opening + Converted(args[..start], numeric, oneLine)
    {
      assert args[..start + 1] == args[..start] + [args[start]];
      if start > 0 {
        ConvertedSnoc(args[..start], args[start], numeric, oneLine);
        joined := joined + [COMMA];
        joined := joined + [SPACE];
      }
      joined := joined + ConvertArg(args[start], numeric, oneLine);
    }
    assert args[..|args|] == args;
    if |args| > 1 {
      joined := joined + [RBRACKET];
    }
  }

  // ---------------------------------------------------------------- reading

  /** A comment behind the item taken off, where the line has a comment mark behind its equals sign. */
  function WithoutComment(item: seq<byte>, commented: bool): seq<byte> {
    if commented && SplitUp(item, HASH) != [] then Trim(SplitUp(item, HASH)[0]) else item
  }

  /** The parts of an item that does not run on over further lines. */
  function ItemParts(item: seq<byte>): seq<seq<byte>> {
    if |item| > 1 && item[0] == LBRACKET then
      if item[|item| - 1] == RBRACKET then SplitUp(item[1..|item| - 1], COMMA) else SplitUp(item[1..], COMMA)
    else if COMMA in item then SplitUp(item, COMMA)
    else if SPACE in item then SplitUp(item, NUL)
    else [item]
  }

  function AllProcessed(items: seq<seq<byte>>): Option<seq<seq<byte>>> {
    if items == [] then Some([])
    else if Processed(items[0]).None? || AllProcessed(items[1..]).None? then None
    else Some([Processed(items[0]).value] + AllProcessed(items[1..]).value)
  }

  lemma {:induction false} AllProcessedAt(items: seq<seq<byte>>)
    ensures AllProcessed(items).Some? <==> forall k :: 0 <= k < |items| ==> Processed(items[k]).Some?
    ensures AllProcessed(items).Some? ==> |AllProcessed(items).value| == |items|
    ensures var r := AllProcessed(items);
      r.None? || forall k :: 0 <= k < |items| ==> r.value[k] == Processed(items[k]).value
    decreases |items|
  {
    hide Processed;
    if items != [] {
      AllProcessedAt(items[1..]);
      assert forall k :: 1 <= k < |items| ==> items[k] == items[1..][k - 1];
    }
  }

  method TakeApart(item: seq<byte>) returns (parts: seq<seq<byte>>)
    ensures parts == ItemParts(item)
  {
    hide SplitUp;
    if |item| > 1 && item[0] == LBRACKET {
      if item[|item| - 1] == RBRACKET {
        parts := Split(item[1..|item| - 1], COMMA);
      } else {
        parts := Split(item[1..], COMMA);
      }
    } else if COMMA in item {
      parts := Split(item, COMMA);
    } else if SPACE in item {
      parts := Split(item, NUL);
    } else {
      parts := [item];
    }
  }

  /**
   From the text behind the equals sign and the lines that follow in the file to the inputs of the option; None
   stands for the exception.
   */
  function ReadInputs(lines: seq<seq<byte>>, commented: bool): Option<seq<seq<byte>>>
    requires lines != []
  {
    var first := LeftTrim(lines[0]);
    if StartsTriple(first) then
      var item := ReadValue([first[3..]] + lines[1..], first[0]);
      if item.None? then None else AllProcessed([item.value])
    else AllProcessed(ItemParts(WithoutComment(Trim(lines[0]), commented)))
  }

  method ReadItem(lines: seq<seq<byte>>, commented: bool) returns (inputs: Option<seq<seq<byte>>>)
    requires lines != []
    ensures inputs == ReadInputs(lines, commented)
  {
    hide SplitUp, ItemParts, ProcessedWith, ReadValue, LeftTrim, RightTrim;
    var items: seq<seq<byte>>;
    var first := LeftTrim(lines[0]);
    if StartsTriple(first) {
      var value := ReadMultiLine([first[3..]] + lines[1..], first[0]);
      if value.None? {
        return None;
      }
      items := [value.value];
    } else {
      var item := Trim(lines[0]);
      if commented {
        var citems := Split(item, HASH);
        if citems != [] {
          item := Trim(citems[0]);
        }
      }
      items := TakeApart(item);
    }
    inputs := ProcessAll(items);
  }

  /** The loop that resolves the quotes of every item. */
  method ProcessAll(parts: seq<seq<byte>>) returns (inputs: Option<seq<seq<byte>>>)
    ensures inputs == AllProcessed(parts)
  {
    hide ProcessedWith;
    var items := parts;
    AllProcessedAt(parts);
    for i := 0 to |items|
      invariant |items| == |parts|
      invariant forall k :: i <= k < |parts| ==> items[k] == parts[k]
      invariant forall k :: 0 <= k < i ==> Processed(parts[k]) == Some(items[k])
    {
      var plain, quoted := ProcessQuotedString(items[i], QUOTE, APOSTROPHE);
      if plain.None? {
        return None;
      }
      items := items[i := plain.value];
    }
    assert items == AllProcessed(parts).value;
    return Some(items);
  }

  /** Each input added to the results of the option. */
  function AddedResults(inputs: seq<seq<byte>>, spread: bool, delimiter: byte): seq<seq<byte>> {
    if inputs == [] then []
    else Results(inputs[0], spread, delimiter) + AddedResults(inputs[1..], spread, delimiter)
  }

  lemma {:induction false} AddedSnoc(inputs: seq<seq<byte>>, p: seq<byte>, spread: bool, delimiter: byte)
    ensures AddedResults(inputs + [p], spread, delimiter)
      == AddedResults(inputs, spread, delimiter) + Results(p, spread, delimiter)
    decreases |inputs|
  {
    hide Results;
    if inputs == [] {
      assert (inputs + [p])[1..] == [];
    } else {
      assert (inputs + [p])[1..] == inputs[1..] + [p];
      AddedSnoc(inputs[1..], p, spread, delimiter);
    }
  }

  // ---------------------------------------------------------------- the list comes back

  /** The values as they reach the option: those in brackets doubled. */
  function Protected(args: seq<seq<byte>>): seq<seq<byte>> {
    if args == [] then [] else [Secondary(args[0])] + Protected(args[1..])
  }

  lemma {:induction false} Spelled(args: seq<seq<byte>>, numeric: seq<byte> -> bool, oneLine: bool)
    returns (ws: seq<Written>)
    requires forall k :: 0 <= k < |args| ==> !WrittenOverLines(args[k], oneLine)
    ensures |ws| == |args| && AllFit(ws)
    ensures Converted(args, numeric, oneLine) == Join(ws, BETWEEN)
    ensures AllProcessed(Spellings(ws)) == Some(Protected(args))
    decreases |args|
  {
    hide ConvertArg, Processed, Secondary, WrittenOverLines, Spelling;
    ws := [];
    if args != [] {
      var w := ConvertedReads(args[0], numeric, oneLine);
      var more := Spelled(args[1..], numeric, oneLine);
      ws := [w] + more;
      assert ws[1..] == more;
      assert Spellings(ws)[1..] == Spellings(more);
    }
  }

  lemma {:induction false} ProtectedResults(args: seq<seq<byte>>, spread: bool)
    ensures AddedResults(Protected(args), spread, NUL) == args
    decreases |args|
  {
    hide Secondary, Results;
    if args != [] {
      OneResult(args[0], spread, NUL);
      ProtectedResults(args[1..], spread);
      assert Protected(args)[1..] == Protected(args[1..]);
      assert [args[0]] + args[1..] == args;
    }
  }

  lemma PartsOfOne(w: Written)
    requires Fits(w)
    ensures ItemParts(Spelling(w)) == [Spelling(w)]
  {
    hide SplitUp, Spelling;
    var item := Spelling(w);
    FirstByte(w);
    assert Join([w], BETWEEN) == item == Join([w], [SPACE]);
    assert Spellings([w]) == [item] + Spellings([w][1..]) == [item];
    SplitJoined([w], BETWEEN, COMMA);
    SplitJoined([w], [SPACE], NUL);
  }

  lemma FirstByte(w: Written)
    requires Fits(w)
    ensures Spelling(w) != [] && Spelling(w)[0] != LBRACKET
  {
  }

  lemma PartsOfList(ws: seq<Written>)
    requires AllFit(ws)
    ensures ItemParts([LBRACKET] + Join(ws, BETWEEN) + [RBRACKET]) == Spellings(ws)
  {
    hide SplitUp, Join, Spellings;
    var item := [LBRACKET] + Join(ws, BETWEEN) + [RBRACKET];
    assert item[1..|item| - 1] == Join(ws, BETWEEN);
    SplitJoined(ws, BETWEEN, COMMA);
  }

  // ---------------------------------------------------------------- comment marks inside values

  lemma {:induction false} BracketPassesPlain(s: seq<byte>, p: nat, end: nat)
    requires p <= end <= |s|
    requires forall k :: p <= k < end ==> IsPlain(s[k]) || s[k] == COMMA || s[k] == SPACE
    ensures BracketEnd(s, p, [RBRACKET]) == BracketEnd(s, end, [RBRACKET])
    decreases end - p
  {
    if p < end {
      BracketPassesPlain(s, p + 1, end);
    }
  }

  /** The bracket scanner steps over a written value, whatever brackets and quotes the value holds. */
  lemma BracketPasses(s: seq<byte>, p: nat, w: Written)
    requires Fits(w) && At(s, p, Spelling(w))
    ensures BracketEnd(s, p, [RBRACKET]) == BracketEnd(s, p + |Spelling(w)|, [RBRACKET])
  {
    hide BracketEnd, Spelling, Fits;
    if w.Plain? {
      PlainSpelling(w);
      PlainBytes(s, p, w.text);
      BracketPassesPlain(s, p, p + |w.text|);
    } else {
      ClosesAtEnd(s, p, w);
      BracketPassesQuote(s, p);
    }
  }

  lemma PlainBytes(s: seq<byte>, p: nat, x: seq<byte>)
    requires At(s, p, x) && Fits(Plain(x))
    ensures p + |x| <= |s| && forall k :: p <= k < p + |x| ==> IsPlain(s[k])
  {
    forall k | p <= k < p + |x| ensures s[k] == x[k - p] {
      AtIndex(s, p, x, k - p);
    }
  }

  lemma BracketPassesQuote(s: seq<byte>, p: nat)
    requires p < |s| && (s[p] == QUOTE || s[p] == APOSTROPHE)
    ensures BracketEnd(s, p, [RBRACKET]) == BracketEnd(s, SequenceEnd(s, p, Match(s[p])) + 1, [RBRACKET])
  {
    hide QuoteEnd, LiteralEnd;
  }

  lemma {:induction false} BracketPassesJoin(s: seq<byte>, p: nat, ws: seq<Written>)
    requires AllFit(ws) && At(s, p, Join(ws, BETWEEN))
    ensures BracketEnd(s, p, [RBRACKET]) == BracketEnd(s, p + |Join(ws, BETWEEN)|, [RBRACKET])
    decreases |ws|
  {
    hide BracketEnd, Spelling;
    if |ws| == 1 {
      BracketPasses(s, p, ws[0]);
    } else if |ws| > 1 {
      var v, rest := Spelling(ws[0]), Join(ws[1..], BETWEEN);
      AtConcat(s, p, v + BETWEEN, rest);
      AtConcat(s, p, v, BETWEEN);
      BracketPasses(s, p, ws[0]);
      AtIndex(s, p + |v|, BETWEEN, 0);
      AtIndex(s, p + |v|, BETWEEN, 1);
      BracketPassesPlain(s, p + |v|, p + |v| + 2);
      BracketPassesJoin(s, p + |v| + 2, ws[1..]);
    }
  }

  lemma ListIsWhole(ws: seq<Written>)
    requires AllFit(ws)
    ensures var item := [LBRACKET] + Join(ws, BETWEEN) + [RBRACKET]; Cut(item, HASH).0 == item
  {
    hide BracketEnd, Join, AllFit, Cut;
    var x := Join(ws, BETWEEN);
    var item := [LBRACKET] + x + [RBRACKET];
    assert item[1..1 + |x|] == x;
    BracketPassesJoin(item, 1, ws);
    BracketEndHere(item, |item| - 1);
    CutBracketed(x);
  }

  lemma CutBracketed(x: seq<byte>)
    requires var item := [LBRACKET] + x + [RBRACKET]; BracketEnd(item, 1, [RBRACKET]) == |item| - 1
    ensures Cut([LBRACKET] + x + [RBRACKET], HASH).0 == [LBRACKET] + x + [RBRACKET]
  {
    hide BracketEnd;
    var item := [LBRACKET] + x + [RBRACKET];
    assert item[..|item|] == item;
  }

  lemma BracketEndHere(s: seq<byte>, p: nat)
    requires p < |s| && s[p] == RBRACKET
    ensures BracketEnd(s, p, [RBRACKET]) == p
  {
  }

  lemma NoCommentCut(item: seq<byte>, commented: bool)
    requires item != [] && !IsSpace(item[0]) && !IsSpace(item[|item| - 1]) && Cut(item, HASH).0 == item
    ensures WithoutComment(item, commented) == item
  {
    hide Cut, Trim;
    KeptBySides(item);
  }

  lemma {:induction false} JoinOnOneLine(ws: seq<Written>)
    requires AllFit(ws)
    ensures NEWLINE !in Join(ws, BETWEEN)
    decreases |ws|
  {
    hide Spelling, Fits;
    if ws != [] {
      OnOneLine(ws[0]);
      JoinOnOneLine(ws[1..]);
    }
  }

  /** The lists that come back: not the empty one, and one value over several lines only if it can be read so. */
  predicate ListSurvives(args: seq<seq<byte>>, spread: bool) {
    args != [] &&
    (|args| == 1 && WrittenOverLines(args[0], false) ==> LineSafe(Lines(args[0])) && TakenAsIs(args[0], spread))
  }

  /** The option, with what it adds to its results. */
  ghost predicate Gets(inputs: Option<seq<seq<byte>>>, spread: bool, args: seq<seq<byte>>) {
    inputs.Some? && AddedResults(inputs.value, spread, NUL) == args
  }

  /**
   The list of values an option holds, written to a file and read back from its lines, gives the option the same
   values in the same order - commas, spaces, brackets, quotes and comment marks inside the values do no harm -
   if and only if there is any, and one that stands alone and is written over several lines can be read so.
   */
  lemma ListRoundTrip(args: seq<seq<byte>>, numeric: seq<byte> -> bool, commented: bool, spread: bool,
                      more: seq<seq<byte>>)
    ensures Gets(ReadInputs(Lines(IniJoined(args, numeric)) + more, commented), spread, args)
      <==> ListSurvives(args, spread)
  {
    hide ReadInputs, Lines, IniJoined, Gets, WrittenOverLines, LineSafe, TakenAsIs;
    if args == [] {
      NothingRead(numeric, commented, spread, more);
    } else if |args| == 1 && WrittenOverLines(args[0], false) {
      OneOverLines(args, numeric, commented, spread, more);
    } else {
      OnOneLineRead(args, numeric, commented, spread, more);
    }
  }

  lemma NothingRead(numeric: seq<byte> -> bool, commented: bool, spread: bool, more: seq<seq<byte>>)
    ensures !Gets(ReadInputs(Lines(IniJoined([], numeric)) + more, commented), spread, [])
  {
    OneLine([]);
    assert (Lines([]) + more)[0] == [];
    assert LeftTrim([]) == [] && Trim([]) == [] && WithoutComment([], commented) == [];
    assert ItemParts([]) == [[]] && Processed([]) == Some([]);
    var one: seq<seq<byte>> := [[]];
    assert one[1..] == [] && AllProcessed(one) == Some([[]] + []);
    assert AddedResults(one, spread, NUL) == Results([], spread, NUL) + [] == one;
  }

  lemma OneOverLines(args: seq<seq<byte>>, numeric: seq<byte> -> bool, commented: bool, spread: bool,
                     more: seq<seq<byte>>)
    requires |args| == 1 && WrittenOverLines(args[0], false)
    ensures Gets(ReadInputs(Lines(IniJoined(args, numeric)) + more, commented), spread, args)
      <==> LineSafe(Lines(args[0])) && TakenAsIs(args[0], spread)
  {
    hide WrittenOverLines, ConvertArg, Lines, LineSafe, TakenAsIs, ReadValue, Results, Processed;
    var arg := args[0];
    OverLinesConverted(arg, numeric, false);
    var x := arg + TRIPLE;
    assert TRIPLE + arg + TRIPLE == TRIPLE + x;
    LinesPrefixed(TRIPLE, x);
    var lines := Lines(IniJoined(args, numeric)) + more;
    var first := TRIPLE + Lines(x)[0];
    assert lines[0] == first && LeftTrim(first) == first && first[3..] == Lines(x)[0];
    assert [first[3..]] + lines[1..] == Lines(x) + more;
    OverLinesRoundTrip(arg, spread, more);
    var item := ReadValue(Lines(x) + more, APOSTROPHE).value;
    AddedOne(item, spread, arg);
    assert args == [arg];
  }

  /** The inputs made of a single item. */
  lemma AddedOne(item: seq<byte>, spread: bool, arg: seq<byte>)
    ensures Gets(AllProcessed([item]), spread, [arg])
      <==> Processed(item).Some? && Results(Processed(item).value, spread, NUL) == [arg]
  {
    hide Processed, Results;
    var items: seq<seq<byte>> := [item];
    assert items[1..] == [] && AllProcessed([]) == Some([]);
    if Processed(item).Some? {
      var inputs: seq<seq<byte>> := [Processed(item).value];
      assert inputs + [] == inputs && inputs[1..] == [];
      assert AddedResults(inputs, spread, NUL) == Results(inputs[0], spread, NUL) + []
        == Results(inputs[0], spread, NUL);
    }
  }

  lemma OnOneLineRead(args: seq<seq<byte>>, numeric: seq<byte> -> bool, commented: bool, spread: bool,
                      more: seq<seq<byte>>)
    requires args != [] && (|args| == 1 ==> !WrittenOverLines(args[0], false))
    ensures Gets(ReadInputs(Lines(IniJoined(args, numeric)) + more, commented), spread, args)
  {
    hide Lines, IniJoined, WrittenOverLines, ItemParts, WithoutComment, AllProcessed, Spellings, Protected, AllFit,
      AddedResults, Trim, LeftTrim, StartsTriple;
    var ws, item := WrittenLine(args, numeric);
    LineIsRead(args, ws, item, commented);
    ItemOnOneLine(args, ws, item);
    OneLine(item);
    assert ([item] + more)[0] == item;
    ProtectedResults(args, spread);
  }

  lemma ItemOnOneLine(args: seq<seq<byte>>, ws: seq<Written>, item: seq<byte>)
    requires args != [] && |ws| == |args| && AllFit(ws)
    requires item == if |args| == 1 then Spelling(ws[0]) else [LBRACKET] + Join(ws, BETWEEN) + [RBRACKET]
    ensures NEWLINE !in item && !StartsTriple(item) && LeftTrim(item) == item && Trim(item) == item
  {
    hide Spelling, Join, Fits;
    if |args| == 1 {
      OnOneLine(ws[0]);
      Sides(ws[0]);
    } else {
      JoinOnOneLine(ws);
    }
    KeptBySides(item);
  }

  lemma WrittenLine(args: seq<seq<byte>>, numeric: seq<byte> -> bool) returns (ws: seq<Written>, item: seq<byte>)
    requires |args| == 1 ==> !WrittenOverLines(args[0], false)
    requires args != []
    ensures |ws| == |args| && AllFit(ws) && item == IniJoined(args, numeric)
    ensures item == if |args| == 1 then Spelling(ws[0]) else [LBRACKET] + Join(ws, BETWEEN) + [RBRACKET]
    ensures AllProcessed(Spellings(ws)) == Some(Protected(args))
  {
    hide AllProcessed, Protected, Converted, Spelling, AllFit;
    ws := Spelled(args, numeric, |args| > 1);
    item := IniJoined(args, numeric);
  }

  lemma LineIsRead(args: seq<seq<byte>>, ws: seq<Written>, item: seq<byte>, commented: bool)
    requires args != [] && |ws| == |args| && AllFit(ws)
    requires item == if |args| == 1 then Spelling(ws[0]) else [LBRACKET] + Join(ws, BETWEEN) + [RBRACKET]
    ensures WithoutComment(item, commented) == item && ItemParts(item) == Spellings(ws)
  {
    hide ItemParts, WithoutComment, Cut, Join, Spelling, Fits;
    if |args| == 1 {
      Sides(ws[0]);
      CutAlone(ws[0], HASH);
      PartsOfOne(ws[0]);
      assert ws[1..] == [] && Spellings(ws) == [item] + [];
    } else {
      ListIsWhole(ws);
      PartsOfList(ws);
    }
    NoCommentCut(item, commented);
  }

  datatype OptionState = Parsing | Validated | Reduced | CallbackRun

  /** An option of the program, with the results it has collected and what has been done about them. */
  class Options {
    const spread: bool
    const delimiter: byte
    var results: seq<seq<byte>>
    var state: OptionState

    constructor (spread: bool, delimiter: byte)
      ensures this.spread == spread && this.delimiter == delimiter && results == [] && state == Parsing
    {
      this.spread, this.delimiter, this.results, this.state := spread, delimiter, [], Parsing;
    }

    method AddAll(inputs: seq<seq<byte>>)
      modifies this
      ensures results == old(results) + AddedResults(inputs, spread, delimiter) && state == Parsing
    {
      hide Results;
      state := Parsing;
      for i := 0 to |inputs|
        invariant results == old(results) + AddedResults(inputs[..i], spread, delimiter) && state == Parsing
      {
        assert inputs[..i + 1] == inputs[..i] + [inputs[i]];
        AddedSnoc(inputs[..i], inputs[i], spread, delimiter);
        var added: nat;
        results, added := AddResult(inputs[i], results, spread, delimiter);
      }
      assert inputs[..|inputs|] == inputs;
    }
  }
}

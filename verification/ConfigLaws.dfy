/** What the reader of configuration files makes of lists and comments that its own writer would not write. */
module ConfigLaws {
  import opened Bytes
  import opened Splitting
  import opened Quoting
  import opened ConfigValue
  import opened ConfigList
  import Escapes
  import HexText
  import B = BinaryEscapes
  import L = SplitLaws

  // ---------------------------------------------------------------- lists without brackets

  lemma FirstOfJoin(ws: seq<Written>, separator: seq<byte>)
    requires ws != [] && AllFit(ws)
    ensures var s := Join(ws, separator); s != [] && s[0] != LBRACKET && Last(s) != RBRACKET
    decreases |ws|
  {
    assert Fits(ws[0]);
    var first := Spelling(ws[0]);
    assert first != [] && first[0] != LBRACKET && Last(first) != RBRACKET;
    if |ws| > 1 {
      FirstOfJoin(ws[1..], separator);
      assert Last(Join(ws, separator)) == Last(Join(ws[1..], separator));
    }
  }

  lemma SeparatorInside(ws: seq<Written>, separator: seq<byte>, b: byte)
    requires |ws| > 1 && b in separator
    ensures b in Join(ws, separator)
  {
  }

  /** Commas make a list without brackets, too; a bracket that is not closed on the line makes no difference. */
  lemma CommasMakeList(ws: seq<Written>)
    requires |ws| > 1 && AllFit(ws)
    ensures ItemParts(Join(ws, [COMMA, SPACE])) == Spellings(ws)
    ensures ItemParts([LBRACKET] + Join(ws, [COMMA, SPACE])) == Spellings(ws)
  {
    hide SplitUp, Join, Spelling;
    var s := Join(ws, [COMMA, SPACE]);
    FirstOfJoin(ws, [COMMA, SPACE]);
    SeparatorInside(ws, [COMMA, SPACE], COMMA);
    SplitJoined(ws, [COMMA, SPACE], COMMA);
    assert ([LBRACKET] + s)[1..] == s && Last([LBRACKET] + s) == Last(s);
  }

  /** Where there is no comma, spaces do. */
  lemma SpacesMakeList(ws: seq<Written>)
    requires |ws| > 1 && AllFit(ws) && COMMA !in Join(ws, [SPACE])
    ensures ItemParts(Join(ws, [SPACE])) == Spellings(ws)
  {
    hide SplitUp, Join, Spelling;
    FirstOfJoin(ws, [SPACE]);
    SeparatorInside(ws, [SPACE], SPACE);
    SplitJoined(ws, [SPACE], NUL);
  }

  // ---------------------------------------------------------------- comments

  /** A comment behind a quoted value or a list is taken off; so is one behind a word, with the blanks before it. */
  lemma CommentsGo(g: L.Group, w: seq<byte>, c: seq<byte>)
    requires L.IsGroup(g) && L.IsWord(w, HASH)
    ensures WithoutComment(L.GroupText(g) + [' ' as int] + (['#' as int] + c), true) == L.GroupText(g)
    ensures WithoutComment(w + ['#' as int] + c, true) == Trim(w)
    ensures WithoutComment(w, false) == w
  {
    hide SplitUp, Trim, L.GroupText, L.IsGroup;
    L.GroupFirst(g, SPACE, [HASH] + c, HASH);
    L.GroupTrimmed(g);
    L.TrimWhole(L.GroupText(g));
    L.WordFirst(w, HASH, c, HASH);
  }

  // ---------------------------------------------------------------- lists of lists

  /** A word, or a list in brackets of words and lists. */
  datatype Nest = Leaf(word: seq<byte>) | List(items: seq<Nest>)

  predicate IsNest(n: Nest)
    decreases n
  {
    match n
    case Leaf(word) => word != [] && forall k :: 0 <= k < |word| ==> IsPlain(word[k])
    case List(items) => forall k :: 0 <= k < |items| ==> IsNest(items[k])
  }

  function NestText(n: Nest): seq<byte>
    decreases n
  {
    match n
    case Leaf(word) => word
    case List(items) => ['[' as int] + NestsText(items) + [']' as int]
  }

  function NestsText(items: seq<Nest>): seq<byte>
    decreases items
  {
    if items == [] then []
    else if |items| == 1 then NestText(items[0])
    else NestText(items[0]) + [',' as int] + NestsText(items[1..])
  }

  function Leaves(n: Nest): seq<seq<byte>>
    decreases n
  {
    match n
    case Leaf(word) => [word]
    case List(items) => AllLeaves(items)
  }

  function AllLeaves(items: seq<Nest>): seq<seq<byte>>
    decreases items
  {
    if items == [] then [] else Leaves(items[0]) + AllLeaves(items[1..])
  }

  /** No list in it is taken for a text in brackets whose bytes were doubled. */
  predicate NotDoubled(n: Nest)
    decreases n
  {
    match n
    case Leaf(_) => true
    case List(items) =>
      Undoubled(NestText(n)).None? && forall k :: 0 <= k < |items| ==> NotDoubled(items[k])
  }

  /** The same text as a sequence between brackets. */
  function PartsOf(items: seq<Nest>): seq<L.Part>
    decreases items
  {
    if items == [] then []
    else PartsOfOne(items[0]) + (if |items| == 1 then [] else [L.Byte(',' as int)] + PartsOf(items[1..]))
  }

  function PartsOfOne(n: Nest): seq<L.Part>
    decreases n
  {
    match n
    case Leaf(word) => seq(|word|, k requires 0 <= k < |word| => L.Byte(word[k]))
    case List(items) => [L.Inner(L.Brackets('[', ']', PartsOf(items)))]
  }

  lemma {:induction false} PartsConcat(a: seq<L.Part>, b: seq<L.Part>)
    ensures L.PartsText(a + b) == L.PartsText(a) + L.PartsText(b)
    decreases |a|
  {
    if a == [] {
      assert a + b == b;
    } else {
      assert (a + b)[1..] == a[1..] + b && (a + b)[0] == a[0];
      PartsConcat(a[1..], b);
      Joined(L.PartText(a[0]), L.PartsText(a[1..]), L.PartsText(b));
    }
  }

  lemma {:induction false} BytesText(word: seq<byte>)
    ensures L.PartsText(seq(|word|, k requires 0 <= k < |word| => L.Byte(word[k]))) == word
    decreases |word|
  {
    var parts := seq(|word|, k requires 0 <= k < |word| => L.Byte(word[k]));
    if word != [] {
      var rest := word[1..];
      BytesText(rest);
      assert parts[1..] == seq(|rest|, k requires 0 <= k < |rest| => L.Byte(rest[k]));
      assert word == [word[0]] + rest;
    }
  }

  lemma PartsOnly(p: L.Part)
    ensures L.PartsText([p]) == L.PartText(p)
  {
    var parts := [p];
    assert parts[1..] == [];
    assert L.PartText(p) + [] == L.PartText(p);
  }

  predicate ArePartsIn(parts: seq<L.Part>) {
    forall k :: 0 <= k < |parts| ==> L.IsPart(parts[k], ']')
  }

  lemma {:induction false} NestIsParts(n: Nest)
    requires IsNest(n)
    ensures ArePartsIn(PartsOfOne(n)) && L.PartsText(PartsOfOne(n)) == NestText(n)
    decreases n, 1
  {
    match n
    case Leaf(word) =>
      BytesText(word);
    case List(items) =>
      NestsAreParts(items);
      var g := L.Brackets('[', ']', PartsOf(items));
      assert L.IsGroup(g);
      PartsOnly(L.Inner(g));
      Joined(['[' as int], NestsText(items), [']' as int]);
  }

  lemma {:induction false} NestsAreParts(items: seq<Nest>)
    requires forall k :: 0 <= k < |items| ==> IsNest(items[k])
    ensures ArePartsIn(PartsOf(items)) && L.PartsText(PartsOf(items)) == NestsText(items)
    decreases items, 0
  {
    hide PartsOfOne, NestText, IsNest, L.IsPart;
    if items != [] {
      NestIsParts(items[0]);
      if |items| == 1 {
        assert PartsOfOne(items[0]) + [] == PartsOfOne(items[0]);
      } else {
        NestsAreParts(items[1..]);
        CommaPart();
        var comma, rest := [L.Byte(',' as int)], PartsOf(items[1..]);
        PartsConcat(PartsOfOne(items[0]), comma + rest);
        PartsConcat(comma, rest);
        PartsOnly(L.Byte(',' as int));
        Joined(NestText(items[0]), [',' as int], NestsText(items[1..]));
      }
    }
  }

  lemma CommaPart()
    ensures L.IsPart(L.Byte(',' as int), ']')
  {
  }

  function Texts(items: seq<Nest>): (r: seq<seq<byte>>)
    ensures |r| == |items|
  {
    if items == [] then [] else [NestText(items[0])] + Texts(items[1..])
  }

  lemma PlainWord(word: seq<byte>)
    requires IsNest(Leaf(word))
    ensures L.IsWord(word, COMMA) && L.IsTrimmed(word) && word[0] != LBRACKET
  {
  }

  lemma {:induction false} NestFirst(n: Nest, rest: seq<byte>)
    requires IsNest(n)
    ensures SplitUp(NestText(n) + [',' as int] + rest, COMMA) == [NestText(n)] + SplitUp(rest, COMMA)
    ensures SplitUp(NestText(n), COMMA) == [NestText(n)]
  {
    hide SplitUp, NestsText, PartsOf, L.PartsText;
    match n
    case Leaf(word) =>
      PlainWord(word);
      L.WordFirst(word, COMMA, rest, COMMA);
      L.WordAlone(word, COMMA);
    case List(items) =>
      NestsAreParts(items);
      var g := L.Brackets('[', ']', PartsOf(items));
      Joined(['[' as int], NestsText(items), [']' as int]);
      assert L.GroupText(g) == NestText(n);
      L.GroupFirst(g, COMMA, rest, COMMA);
      L.GroupAlone(g, COMMA);
  }

  lemma {:induction false} NestsSplit(items: seq<Nest>)
    requires forall k :: 0 <= k < |items| ==> IsNest(items[k])
    ensures SplitUp(NestsText(items), COMMA) == Texts(items)
    decreases |items|
  {
    hide SplitUp, NestText, IsNest;
    if items == [] {
      L.BlanksGo([], [], COMMA);
    } else {
      NestFirst(items[0], if |items| == 1 then [] else NestsText(items[1..]));
      if |items| > 1 {
        NestsSplit(items[1..]);
      } else {
        assert Texts(items[1..]) == [];
      }
    }
  }

  lemma ResultsStep(s: seq<byte>)
    requires Undoubled(s).None? && Bracketed(s)
    ensures Results(s, true, NUL) == AllResults(SplitUp(s[1..|s| - 1], COMMA), |s| - 2, NUL)
  {
    hide SplitUp, Undoubled;
  }

  /** An option that takes several values gets the words of a list of lists, in order, however deep they stand. */
  lemma {:induction false} NestResults(n: Nest)
    requires IsNest(n) && NotDoubled(n)
    ensures Results(NestText(n), true, NUL) == Leaves(n)
    decreases n, 1
  {
    hide Undoubled, NestsText, AllResults;
    match n
    case Leaf(word) =>
      PlainWord(word);
      NoBrackets(word);
    case List(items) =>
      var s := NestText(n);
      assert s[1..|s| - 1] == NestsText(items);
      NestsSplit(items);
      ResultsStep(s);
      TextsShort(items, |s| - 2);
      NestsResults(items, |s| - 2);
  }

  lemma NoBrackets(s: seq<byte>)
    requires s != [] && s[0] != LBRACKET
    ensures Results(s, true, NUL) == [s]
  {
  }

  lemma {:induction false} TextsShort(items: seq<Nest>, longest: nat)
    requires |NestsText(items)| <= longest
    ensures forall k :: 0 <= k < |items| ==> |Texts(items)[k]| <= longest
    decreases |items|
  {
    hide NestText;
    if |items| > 1 {
      TextsShort(items[1..], longest);
    }
  }

  lemma {:induction false} NestsResults(items: seq<Nest>, longest: nat)
    requires forall k :: 0 <= k < |items| ==> IsNest(items[k]) && NotDoubled(items[k])
    requires forall k :: 0 <= k < |items| ==> |Texts(items)[k]| <= longest
    ensures AllResults(Texts(items), longest, NUL) == AllLeaves(items)
    decreases items, 0
  {
    hide NestText, Leaves, IsNest, NotDoubled, Results;
    if items != [] {
      NestResults(items[0]);
      NestNotEmpty(items[0]);
      assert Texts(items)[1..] == Texts(items[1..]);
      assert forall k :: 0 <= k < |items| - 1 ==> Texts(items[1..])[k] == Texts(items)[k + 1];
      NestsResults(items[1..], longest);
    }
  }

  lemma NestNotEmpty(n: Nest)
    requires IsNest(n)
    ensures NestText(n) != []
  {
  }

  lemma ListOfOne(n: Nest)
    ensures NestText(List([n])) == ['[' as int] + NestText(n) + [']' as int] && Leaves(List([n])) == Leaves(n)
  {
    hide NestText, Leaves;
    var items := [n];
    assert items[1..] == [] && Leaves(n) + [] == Leaves(n);
    assert AllLeaves(items) == Leaves(n) + AllLeaves(items[1..]);
    ListIs(items);
  }

  lemma ListIs(items: seq<Nest>)
    ensures NestText(List(items)) == ['[' as int] + NestsText(items) + [']' as int]
    ensures Leaves(List(items)) == AllLeaves(items)
  {
  }

  /** A list of a list of one word of two equal letters is taken for a text in brackets. */
  lemma DoubledByChance()
    ensures var word: seq<byte> := ['a' as int, 'a' as int]; var n := List([List([Leaf(word)])]);
      Leaves(n) == [word] && Results(NestText(n), true, NUL) == [['[' as int, 'a' as int, ']' as int]]
  {
    var word: seq<byte> := ['a' as int, 'a' as int];
    ListOfOne(Leaf(word));
    ListOfOne(List([Leaf(word)]));
    var n := List([List([Leaf(word)])]);
    hide NestText, Leaves;
    var s: seq<byte> := ['[' as int, '[' as int, 'a' as int, 'a' as int, ']' as int, ']' as int];
    WordLeaf(word);
    assert ['[' as int] + (['[' as int] + word + [']' as int]) + [']' as int] == s;
    DoubledText(s);
  }

  lemma WordLeaf(word: seq<byte>)
    ensures NestText(Leaf(word)) == word && Leaves(Leaf(word)) == [word]
  {
  }

  lemma DoubledText(s: seq<byte>)
    requires s == ['[' as int, '[' as int, 'a' as int, 'a' as int, ']' as int, ']' as int]
    ensures Results(s, true, NUL) == [['[' as int, 'a' as int, ']' as int]]
  {
    var a: seq<byte> := ['a' as int];
    assert Halved(s, 4) == Some([]);
    assert a + [] == a;
    assert Halved(s, 2) == Keep([s[2]], Halved(s, 4));
    assert [LBRACKET] + a + [RBRACKET] == ['[' as int, 'a' as int, ']' as int];
  }

  // ---------------------------------------------------------------- delimiters

  /** Texts with a delimiter between each two, or none of it at the ends. */
  function Delimited(texts: seq<seq<byte>>, delimiter: byte): seq<byte> {
    if texts == [] then []
    else if |texts| == 1 then texts[0]
    else texts[0] + [delimiter] + Delimited(texts[1..], delimiter)
  }

  function Filled(texts: seq<seq<byte>>): seq<seq<byte>> {
    if texts == [] then [] else (if texts[0] == [] then [] else [texts[0]]) + Filled(texts[1..])
  }

  lemma FirstDelimiter(text: seq<byte>, rest: seq<byte>, delimiter: byte)
    requires delimiter !in text
    ensures FirstIndex(text + [delimiter] + rest, 0, delimiter) == |text| && FirstIndex(text, 0, delimiter) == |text|
  {
    var s := text + [delimiter] + rest;
    var k, m := FirstIndex(s, 0, delimiter), FirstIndex(text, 0, delimiter);
    assert s[|text|] == delimiter;
    assert forall i :: 0 <= i < |text| ==> s[i] == text[i];
  }

  lemma {:induction false} PiecesOfDelimited(texts: seq<seq<byte>>, delimiter: byte)
    requires forall k :: 0 <= k < |texts| ==> delimiter !in texts[k]
    ensures NonEmpty(Pieces(Delimited(texts, delimiter), delimiter)) == Filled(texts)
    decreases |texts|
  {
    hide FirstIndex;
    if texts != [] {
      var first, rest := texts[0], Delimited(texts[1..], delimiter);
      FirstDelimiter(first, rest, delimiter);
      if |texts| == 1 {
        assert Filled(texts[1..]) == [];
        LonePiece(first, delimiter);
      } else {
        PiecesOfDelimited(texts[1..], delimiter);
        var s := first + [delimiter] + rest;
        assert s[..|first|] == first && s[|first| + 1..] == rest;
        assert Pieces(s, delimiter) == [first] + Pieces(rest, delimiter);
        assert ([first] + Pieces(rest, delimiter))[1..] == Pieces(rest, delimiter);
      }
    }
  }

  lemma LonePiece(text: seq<byte>, delimiter: byte)
    requires FirstIndex(text, 0, delimiter) == |text|
    ensures NonEmpty(Pieces(text, delimiter)) == if text == [] then [] else [text]
  {
    if text != [] {
      assert [text][1..] == [];
    }
  }

  /** With a delimiter of its own an option gets the texts between the delimiters, but for the empty ones. */
  lemma DelimiterCuts(texts: seq<seq<byte>>, spread: bool, delimiter: byte)
    requires |texts| > 1 && delimiter != NUL && forall k :: 0 <= k < |texts| ==> delimiter !in texts[k]
    requires var s := Delimited(texts, delimiter); s[0] != LBRACKET
    ensures Results(Delimited(texts, delimiter), spread, delimiter) == Filled(texts)
  {
    PiecesOfDelimited(texts, delimiter);
    var s := Delimited(texts, delimiter);
    hide Pieces, NonEmpty, Filled;
    assert s[|texts[0]|] == delimiter;
  }

  // ---------------------------------------------------------------- one argument

  /** Quotes of a kind at both ends are taken off; escapes count between double quotes. */
  lemma QuotesGo(x: seq<byte>, quote: char)
    requires quote == '"' || quote == '\'' || quote == '`'
    ensures var arg := [quote as int % 256] + x + [quote as int % 256];
      Unquoted(arg) == if quote == '"' then Escapes.RemoveEscaped(x) else Some(x)
  {
    hide Escapes.RemoveEscaped;
    var arg := [quote as int % 256] + x + [quote as int % 256];
    assert arg[1..|arg| - 1] == x;
    assert arg[0] == Last(arg) == quote as int;
  }

  lemma QuotesStay(arg: seq<byte>)
    requires |arg| > 1 ==>
      arg[0] != Last(arg) || (arg[0] != '"' as int && arg[0] != '\'' as int && arg[0] != '`' as int)
    requires |arg| == 1 ==> arg[0] != '"' as int
    ensures Unquoted(arg) == Some(arg)
  {
  }

  /** Quotes of a kind around an item are taken off; between double quotes escapes are resolved, if there are any. */
  lemma QuotesResolve(x: seq<byte>, quote: char)
    requires quote == '"' || quote == '\'' || quote == '`'
    requires !B.IsBinaryEscaped([quote as int % 256] + x + [quote as int % 256])
    ensures var item := Processed([quote as int % 256] + x + [quote as int % 256]);
      if quote == '"' && '\\' as int in x then
        var plain := Escapes.RemoveEscaped(x);
        item == if plain.None? then None else Some(Secondary(plain.value))
      else item == Some(Secondary(x))
  {
    hide Escapes.RemoveEscaped, Secondary, B.IsBinaryEscaped;
    var s := [quote as int % 256] + x + [quote as int % 256];
    assert s[1..|s| - 1] == x && s[0] == s[|s| - 1] == quote as int;
  }

  // ---------------------------------------------------------------- what the writer puts down

  /** Signs, digits, a point and an exponent, converted to a number, but no hexadecimal one. */
  predicate LooksNumber(arg: seq<byte>, numeric: seq<byte> -> bool) {
    && numeric(arg)
    && (forall k :: 0 <= k < |arg| ==>
      '0' as int <= arg[k] <= '9' as int
      || arg[k] in ['+' as int, '-' as int, '.' as int, 'e' as int, 'E' as int])
  }

  predicate LooksRadix(arg: seq<byte>) {
    && |arg| >= 2 && arg[0] == '0' as int
    && ((arg[1] == 'x' as int && forall k :: 2 <= k < |arg| ==> arg[k] in HexText.CAPITALS || arg[k] in HexText.SMALLS)
        || (arg[1] == 'o' as int && forall k :: 2 <= k < |arg| ==> '0' as int <= arg[k] <= '7' as int)
        || (arg[1] == 'b' as int && forall k :: 2 <= k < |arg| ==> '0' as int <= arg[k] <= '1' as int))
  }

  predicate StandsBare(arg: seq<byte>, numeric: seq<byte> -> bool) {
    || arg == ['t' as int, 'r' as int, 'u' as int, 'e' as int]
    || arg == ['f' as int, 'a' as int, 'l' as int, 's' as int, 'e' as int]
    || arg == ['n' as int, 'a' as int, 'n' as int] || arg == ['i' as int, 'n' as int, 'f' as int]
    || (arg != [] && LooksNumber(arg, numeric)) || LooksRadix(arg)
  }

  /** Bytes that are shown, and where more than one is to be written line breaks and tabs, too. */
  predicate IsShown(arg: seq<byte>) {
    forall k :: 0 <= k < |arg| ==>
      ' ' as int <= arg[k] <= '~' as int || (|arg| > 1 && (arg[k] == '\n' as int || arg[k] == '\t' as int))
  }

  /** Among the bytes that are shown, those with an escape. */
  predicate HasSpecial(arg: seq<byte>) {
    exists k :: 0 <= k < |arg| && arg[k] in ['\n' as int, '\t' as int, '"' as int, '\\' as int]
  }

  lemma RadixAlike(arg: seq<byte>)
    ensures IsRadixNumber(arg) <==> LooksRadix(arg)
  {
    forall b: byte ensures IsHexDigit(b) <==> b in HexText.CAPITALS || b in HexText.SMALLS {
      HexAlike(b);
    }
    assert forall k :: 0 <= k < |arg| ==>
      (IsHexDigit(arg[k]) <==> arg[k] in HexText.CAPITALS || arg[k] in HexText.SMALLS);
    hide IsHexDigit;
  }

  lemma HexAlike(b: byte)
    ensures IsHexDigit(b) <==> b in HexText.CAPITALS || b in HexText.SMALLS
  {
    assert b >= 48 && b <= 57 ==> HexText.CAPITALS[b - 48] == b;
    assert b >= 65 && b <= 70 ==> HexText.CAPITALS[b - 55] == b;
    assert b >= 97 && b <= 102 ==> HexText.SMALLS[b - 87] == b;
  }

  lemma NumberAlike(arg: seq<byte>, numeric: seq<byte> -> bool)
    ensures IsNumber(arg, numeric) <==> LooksNumber(arg, numeric)
  {
    if LooksNumber(arg, numeric) && |arg| >= 2 {
      assert arg[1] != 'x' as int && arg[1] != 'X' as int;
    }
  }

  lemma SpecialAlike(arg: seq<byte>)
    requires |arg| > 1 && IsShown(arg)
    ensures IsPrintable(arg) && (Escapes.HasEscapable(arg) <==> HasSpecial(arg))
  {
    if Escapes.HasEscapable(arg) {
      var k :| 0 <= k < |arg| && Escapes.EscapeCode(arg[k]).Some?;
      assert arg[k] in ['\n' as int, '\t' as int, '"' as int, '\\' as int];
    }
  }

  /** Which spelling the writer chooses for a value, for all values. */
  lemma WriterChooses(arg: seq<byte>, numeric: seq<byte> -> bool, oneLine: bool)
    ensures arg == [] ==> ConvertArg(arg, numeric, oneLine) == ['"' as int, '"' as int]
    ensures StandsBare(arg, numeric) ==> ConvertArg(arg, numeric, oneLine) == arg
    ensures arg != [] && !StandsBare(arg, numeric) ==>
      ConvertArg(arg, numeric, oneLine) ==
        if !IsShown(arg) then B.BinaryEscape(arg)
        else if arg == ['\'' as int] then ['"' as int, '\'' as int, '"' as int]
        else if |arg| == 1 then ['\'' as int] + arg + ['\'' as int]
        else if !HasSpecial(arg) then ['"' as int] + arg + ['"' as int]
        else if |arg| > 100 && !oneLine then
          ['\'' as int, '\'' as int, '\'' as int] + arg + ['\'' as int, '\'' as int, '\'' as int]
        else ['"' as int] + Escapes.AddEscaped(arg) + ['"' as int]
  {
    BareAlike(arg, numeric);
    hide StandsBare, IsShown, HasSpecial, ConvertArg, ConfigValue.IsWord, IsNumber, IsRadixNumber;
    if arg == [] || StandsBare(arg, numeric) {
      BareStays(arg, numeric, oneLine);
    } else if |arg| == 1 {
      LetterQuoted(arg, numeric, oneLine);
    } else {
      TextQuoted(arg, numeric, oneLine);
    }
  }

  lemma BareAlike(arg: seq<byte>, numeric: seq<byte> -> bool)
    ensures arg != [] ==>
      (StandsBare(arg, numeric) <==> ConfigValue.IsWord(arg) || IsNumber(arg, numeric) || IsRadixNumber(arg))
    ensures arg == [] ==> !StandsBare(arg, numeric)
  {
    RadixAlike(arg);
    NumberAlike(arg, numeric);
    WordsAlike(arg);
    assert arg == [] ==> !LooksRadix(arg);
    hide LooksRadix, LooksNumber, ConfigValue.IsWord, IsNumber, IsRadixNumber;
  }

  lemma BareStays(arg: seq<byte>, numeric: seq<byte> -> bool, oneLine: bool)
    requires arg == [] || ConfigValue.IsWord(arg) || IsNumber(arg, numeric) || IsRadixNumber(arg)
    ensures ConvertArg(arg, numeric, oneLine) == if arg == [] then ['"' as int, '"' as int] else arg
  {
    hide B.BinaryEscape, Escapes.AddEscaped, IsNumber, IsPrintable, Escapes.HasEscapable, ConfigValue.IsWord;
  }

  lemma LetterQuoted(arg: seq<byte>, numeric: seq<byte> -> bool, oneLine: bool)
    requires |arg| == 1 && !ConfigValue.IsWord(arg) && !IsNumber(arg, numeric)
    ensures ConvertArg(arg, numeric, oneLine) ==
      if !IsShown(arg) then B.BinaryEscape(arg)
      else if arg == ['\'' as int] then ['"' as int, '\'' as int, '"' as int]
      else ['\'' as int] + arg + ['\'' as int]
  {
    hide B.BinaryEscape, Escapes.AddEscaped, IsNumber, IsPrintable, Escapes.HasEscapable, ConfigValue.IsWord;
    assert arg == [arg[0]];
  }

  lemma TextQuoted(arg: seq<byte>, numeric: seq<byte> -> bool, oneLine: bool)
    requires |arg| > 1 && !ConfigValue.IsWord(arg) && !IsNumber(arg, numeric) && !IsRadixNumber(arg)
    ensures ConvertArg(arg, numeric, oneLine) ==
      if !IsShown(arg) then B.BinaryEscape(arg)
      else if !HasSpecial(arg) then ['"' as int] + arg + ['"' as int]
      else if |arg| > 100 && !oneLine then
        ['\'' as int, '\'' as int, '\'' as int] + arg + ['\'' as int, '\'' as int, '\'' as int]
      else ['"' as int] + Escapes.AddEscaped(arg) + ['"' as int]
  {
    if IsShown(arg) {
      SpecialAlike(arg);
    } else {
      NotShown(arg);
    }
    hide B.BinaryEscape, Escapes.AddEscaped, IsRadixNumber, IsNumber, IsPrintable, Escapes.HasEscapable, HasSpecial,
      IsShown, ConfigValue.IsWord;
  }

  lemma WordsAlike(arg: seq<byte>)
    ensures ConfigValue.IsWord(arg) <==>
      || arg == ['t' as int, 'r' as int, 'u' as int, 'e' as int]
      || arg == ['f' as int, 'a' as int, 'l' as int, 's' as int, 'e' as int]
      || arg == ['n' as int, 'a' as int, 'n' as int] || arg == ['i' as int, 'n' as int, 'f' as int]
  {
  }

  lemma NotShown(arg: seq<byte>)
    requires |arg| > 1 && !IsShown(arg)
    ensures !IsPrintable(arg)
  {
    var k :| 0 <= k < |arg| && !(' ' as int <= arg[k] <= '~' as int) && arg[k] != '\n' as int && arg[k] != '\t' as int;
    assert !B.IsPrint(arg[k]);
  }
}

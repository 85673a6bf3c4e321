/** One value of a configuration file: how it is written, read back and handed to an option. */
module ConfigValue {
  import opened Bytes
  import opened Escapes
  import opened Splitting
  import opened Quoting
  import B = BinaryEscapes

  // ---------------------------------------------------------------- writing

  const TRUE_WORD: seq<byte> := [116, 114, 117, 101]
  const FALSE_WORD: seq<byte> := [102, 97, 108, 115, 101]
  const NAN_WORD: seq<byte> := [110, 97, 110]
  const INF_WORD: seq<byte> := [105, 110, 102]
  const ZERO: byte := 48
  const LOWER_O: byte := 111

  predicate IsWord(arg: seq<byte>) {
    arg == TRUE_WORD || arg == FALSE_WORD || arg == NAN_WORD || arg == INF_WORD
  }

  predicate IsHexDigit(b: byte) { IsDigit(b) || 65 <= b <= 70 || 97 <= b <= 102 }

  predicate HexPrefixed(arg: seq<byte>) {
    |arg| >= 2 && arg[0] == ZERO && (arg[1] == LOWER_X || arg[1] == B.UPPER_X)
  }

  /** A number the conversion function accepts, spelled with the characters of decimal numbers only. */
  predicate IsNumber(arg: seq<byte>, numeric: seq<byte> -> bool) {
    !HexPrefixed(arg) && numeric(arg) && forall k :: 0 <= k < |arg| ==> IsNumeral(arg[k])
  }

  /** Digits of the base that the letter behind the leading zero names. */
  predicate IsRadixNumber(arg: seq<byte>) {
    && |arg| >= 2
    && arg[0] == ZERO
    && (
         || (arg[1] == LOWER_X && forall k :: 2 <= k < |arg| ==> IsHexDigit(arg[k]))
         || (arg[1] == LOWER_O && forall k :: 2 <= k < |arg| ==> 48 <= arg[k] <= 55)
         || (arg[1] == LOWER_B && forall k :: 2 <= k < |arg| ==> 48 <= arg[k] <= 49)
       )
  }

  predicate IsPrintable(arg: seq<byte>) {
    forall k :: 0 <= k < |arg| ==> B.IsPrint(arg[k]) || arg[k] == NEWLINE || arg[k] == TAB
  }

  const TRIPLE: seq<byte> := [APOSTROPHE, APOSTROPHE, APOSTROPHE]

  /** `numeric` is the conversion to double, which is not part of this model. */
  function ConvertArg(arg: seq<byte>, numeric: seq<byte> -> bool, oneLine: bool): seq<byte> {
    if arg == [] then [QUOTE, QUOTE]
    else if IsWord(arg) then arg
    else if IsNumber(arg, numeric) then arg
    else if |arg| == 1 then
      if !B.IsPrint(arg[0]) then B.BinaryEscape(arg)
      else if arg[0] == APOSTROPHE then [QUOTE, APOSTROPHE, QUOTE]
      else [APOSTROPHE] + arg + [APOSTROPHE]
    else if IsRadixNumber(arg) then arg
    else if !IsPrintable(arg) then B.BinaryEscape(arg)
    else if HasEscapable(arg) then
      if |arg| > 100 && !oneLine then TRIPLE + arg + TRIPLE else [QUOTE] + AddEscaped(arg) + [QUOTE]
    else [QUOTE] + arg + [QUOTE]
  }

  /** The values that are spread over lines of their own between triple quotes. */
  predicate WrittenOverLines(arg: seq<byte>, oneLine: bool) {
    !oneLine && |arg| > 100 && IsPrintable(arg) && HasEscapable(arg)
  }

  // ---------------------------------------------------------------- reading

  predicate Bracketed(s: seq<byte>) {
    |s| >= 2 && s[0] == LBRACKET && s[|s| - 1] == RBRACKET
  }

  function Doubled(s: seq<byte>): (r: seq<byte>)
    ensures |r| == 2 * |s|
  {
    if s == [] then [] else [s[0], s[0]] + Doubled(s[1..])
  }

  /** A text in brackets would be taken for a list; with every byte doubled it is not. */
  function Secondary(s: seq<byte>): seq<byte> {
    if Bracketed(s) then [LBRACKET, LBRACKET] + Doubled(s[1..]) else s
  }

  predicate Between(s: seq<byte>, quote: byte) {
    |s| > 1 && s[0] == quote && s[|s| - 1] == quote
  }

  /** Something to resolve: a binary escape, or quotes of one kind around the text. */
  predicate IsQuoted(s: seq<byte>, stringQuote: byte, literalQuote: byte) {
    |s| > 1 &&
    (B.IsBinaryEscaped(s) || Between(s, stringQuote) || Between(s, literalQuote) || Between(s, BACKTICK))
  }

  /** What stands in the quotes or in the binary escape; None stands for the exception of an ill-formed escape. */
  function Content(s: seq<byte>, stringQuote: byte): Option<seq<byte>>
    requires |s| > 1
  {
    if B.IsBinaryEscaped(s) then Some(B.Extract(s))
    else if Between(s, stringQuote) && BACKSLASH in s[1..|s| - 1] then RemoveEscaped(s[1..|s| - 1])
    else Some(s[1..|s| - 1])
  }

  /** An item with its quotes resolved. */
  function ProcessedWith(s: seq<byte>, stringQuote: byte, literalQuote: byte): Option<seq<byte>> {
    if !IsQuoted(s, stringQuote, literalQuote) then Some(s)
    else
      var content := Content(s, stringQuote);
      if content.None? then None else Some(Secondary(content.value))
  }

  /** The same with the quotes the writer uses. */
  function Processed(s: seq<byte>): Option<seq<byte>> {
    ProcessedWith(s, QUOTE, APOSTROPHE)
  }

  method HandleSecondaryArray(str: seq<byte>) returns (r: seq<byte>)
    ensures r == Secondary(str)
  {
    r := str;
    if Bracketed(str) {
      r := [LBRACKET, LBRACKET];
      ghost var done: seq<byte> := [];
      for ii := 1 to |str|
        invariant done == str[1..ii]
        invariant r == [LBRACKET, LBRACKET] + Doubled(done)
      {
        DoubledConcat(done, [str[ii]]);
        done := done + [str[ii]];
        r := r + [str[ii]];
        r := r + [str[ii]];
      }
      assert str[1..|str|] == str[1..];
    }
  }

  lemma {:induction false} DoubledConcat(a: seq<byte>, b: seq<byte>)
    ensures Doubled(a + b) == Doubled(a) + Doubled(b)
    decreases |a|
  {
    if a == [] {
      assert a + b == b;
    } else {
      assert (a + b)[1..] == a[1..] + b;
      DoubledConcat(a[1..], b);
    }
  }

  /** Tells, too, whether there was anything to resolve. */
  method ProcessQuotedString(str: seq<byte>, stringQuote: byte, literalQuote: byte)
    returns (r: Option<seq<byte>>, quoted: bool)
    ensures r == ProcessedWith(str, stringQuote, literalQuote)
    ensures quoted <==> IsQuoted(str, stringQuote, literalQuote)
  {
    hide Secondary, RemoveEscaped, B.IsBinaryEscaped, B.Extract;
    if |str| <= 1 {
      return Some(str), false;
    }
    var s := str;
    if B.IsBinaryEscaped(s) {
      s := B.ExtractBinaryString(s);
    } else if s[0] == stringQuote && s[|s| - 1] == stringQuote {
      s := s[1..|s| - 1];
      if BACKSLASH in s {
        var plain := RemoveEscapedCharacters(s);
        if plain.None? {
          return None, true;
        }
        s := plain.value;
      }
    } else if (s[0] == literalQuote || s[0] == BACKTICK) && s[|s| - 1] == s[0] {
      s := s[1..|s| - 1];
    } else {
      return Some(str), false;
    }
    s := HandleSecondaryArray(s);
    return Some(s), true;
  }

  // ---------------------------------------------------------------- handing over to the option

  predicate DoubleBracketed(r: seq<byte>) {
    |r| >= 4 && r[0] == r[1] == LBRACKET && r[|r| - 1] == r[|r| - 2] == RBRACKET
  }

  /** One byte of each pair up to the closing brackets; None when a pair differs. */
  function Halved(r: seq<byte>, ii: nat): Option<seq<byte>>
    requires |r| >= 2
    decreases |r| - ii
  {
    if ii >= |r| - 2 then Some([])
    else if r[ii] == r[ii + 1] then Keep([r[ii]], Halved(r, ii + 2))
    else None
  }

  function Undoubled(r: seq<byte>): Option<seq<byte>> {
    if DoubleBracketed(r) && Halved(r, 2).Some? then Some([LBRACKET] + Halved(r, 2).value + [RBRACKET]) else None
  }

  /** The pieces std::getline yields: no piece behind a delimiter that ends the text. */
  function Pieces(s: seq<byte>, delimiter: byte): (r: seq<seq<byte>>)
    decreases |s|
  {
    if s == [] then []
    else
      var k := FirstIndex(s, 0, delimiter);
      if k == |s| then [s] else [s[..k]] + Pieces(s[k + 1..], delimiter)
  }

  /** An empty text is one empty piece. */
  function SplitPieces(s: seq<byte>, delimiter: byte): seq<seq<byte>> {
    if s == [] then [[]] else Pieces(s, delimiter)
  }

  function FirstIndex(s: seq<byte>, i: nat, b: byte): (r: nat)
    requires i <= |s|
    ensures i <= r <= |s|
    ensures r < |s| ==> s[r] == b
    ensures forall k :: i <= k < r ==> s[k] != b
    decreases |s| - i
  {
    if i == |s| || s[i] == b then i else FirstIndex(s, i + 1, b)
  }

  function NonEmpty(parts: seq<seq<byte>>): seq<seq<byte>> {
    if parts == [] then [] else (if parts[0] == [] then [] else [parts[0]]) + NonEmpty(parts[1..])
  }

  /**
   What one text adds to the results of an option. `spread` says that the option takes several values;
   the delimiter is NUL when the option has none.
   */
  function Results(result: seq<byte>, spread: bool, delimiter: byte): seq<seq<byte>>
    decreases |result|, 0
  {
    if Undoubled(result).Some? then [Undoubled(result).value]
    else if spread && Bracketed(result) then
      AllResults(SplitUp(result[1..|result| - 1], COMMA), |result| - 2, delimiter)
    else if delimiter != NUL && delimiter in result then NonEmpty(Pieces(result, delimiter))
    else [result]
  }

  /** The parts of a list, each of them taken for a list of its own; empty parts are dropped. */
  function AllResults(parts: seq<seq<byte>>, longest: nat, delimiter: byte): seq<seq<byte>>
    requires forall k :: 0 <= k < |parts| ==> |parts[k]| <= longest
    decreases longest, |parts| + 1
  {
    if parts == [] then []
    else
      var first := if parts[0] == [] then [] else Results(parts[0], true, delimiter);
      first + AllResults(parts[1..], longest, delimiter)
  }

  // ---------------------------------------------------------------- the value comes back

  lemma {:induction false} PlainIsUntouched(arg: seq<byte>)
    requires Fits(Plain(arg))
    ensures Processed(arg) == Some(arg) && Secondary(arg) == arg
  {
    hide B.Extract, RemoveEscaped;
    assert IsPlain(arg[0]);
    assert |arg| >= 4 ==> arg[..3][1] == arg[1] && IsPlain(arg[1]);
    assert |arg| >= 4 ==> arg[..4][0] == arg[0];
  }

  lemma LiteralIsStripped(x: seq<byte>)
    requires !B.IsBinaryEscaped([APOSTROPHE] + x + [APOSTROPHE])
    ensures Processed([APOSTROPHE] + x + [APOSTROPHE]) == Some(Secondary(x))
  {
    var s := [APOSTROPHE] + x + [APOSTROPHE];
    assert s[1..|s| - 1] == x;
  }

  lemma NotBinary(s: seq<byte>)
    requires s != [] && s[0] == QUOTE
    ensures !B.IsBinaryEscaped(s)
  {
    assert |s| >= 4 ==> s[..3][0] == QUOTE && s[..4][0] == QUOTE;
  }

  /** Escaping puts a backslash down exactly when there is something to escape. */
  lemma {:induction false} EscapesShow(x: seq<byte>)
    ensures BACKSLASH in AddEscaped(x) <==> HasEscapable(x)
    decreases |x|
  {
    if x != [] {
      EscapesShow(x[1..]);
      assert forall k :: 1 <= k < |x| ==> x[1..][k - 1] == x[k];
      assert forall k :: 0 <= k < |x[1..]| ==> x[1..][k] == x[k + 1];
      var one, more := EscapeOne(x[0]), AddEscaped(x[1..]);
      assert BACKSLASH in one + more <==> BACKSLASH in one || BACKSLASH in more;
      assert one[0] == BACKSLASH <==> EscapeCode(x[0]).Some?;
      assert HasEscapable(x) <==> EscapeCode(x[0]).Some? || HasEscapable(x[1..]);
    }
  }

  lemma QuotedIsUnescaped(x: seq<byte>)
    ensures Processed(Spelling(Quoted(x))) == Some(Secondary(x))
  {
    hide RemoveEscaped, HasEscapable, B.IsBinaryEscaped;
    var s := Spelling(Quoted(x));
    NotBinary(s);
    assert s[1..|s| - 1] == AddEscaped(x);
    EscapeRoundTrip(x);
    EscapesShow(x);
    if !HasEscapable(x) {
      NothingToEscape(x);
    }
  }

  /** A binary escape, as a text between single quotes. */
  function BinaryText(arg: seq<byte>): seq<byte> {
    [B.UPPER_B, QUOTE, LPAREN] + B.HideQuotes(B.Body(arg, false)) + [RPAREN, QUOTE]
  }

  lemma BinarySpelling(arg: seq<byte>)
    requires B.Body(arg, false) != arg
    ensures B.BinaryEscape(arg) == Spelling(Literal(BinaryText(arg))) && Fits(Literal(BinaryText(arg)))
    ensures B.IsBinaryEscaped(B.BinaryEscape(arg)) && |B.BinaryEscape(arg)| > 1
  {
    hide B.Body, B.HideQuotes, B.IsBinaryEscaped, Fits;
    var body := B.HideQuotes(B.Body(arg, false));
    B.BodyIsPrintable(arg, false);
    BinaryFits(body);
    B.ExtractWrapped(body);
    var s := B.LITERAL_OPEN + body + B.LITERAL_CLOSE;
    assert s == [APOSTROPHE] + ([B.UPPER_B, QUOTE, LPAREN] + body + [RPAREN, QUOTE]) + [APOSTROPHE];
  }

  lemma BinaryFits(body: seq<byte>)
    requires APOSTROPHE !in body && forall b <- body :: B.IsPrint(b)
    ensures Fits(Literal([B.UPPER_B, QUOTE, LPAREN] + body + [RPAREN, QUOTE]))
  {
    assert !B.IsPrint(NEWLINE);
  }

  lemma BinaryIsExtracted(arg: seq<byte>)
    requires exists k :: 0 <= k < |arg| && !B.IsPrint(arg[k])
    ensures B.BinaryEscape(arg) == Spelling(Literal(BinaryText(arg))) && Fits(Literal(BinaryText(arg)))
    ensures Processed(B.BinaryEscape(arg)) == Some(Secondary(arg))
  {
    hide B.BinaryEscape, B.IsBinaryEscaped, B.Extract, Secondary, B.Body, BinaryText, Spelling, Fits;
    B.BodyUnchanged(arg, false);
    B.BinaryRoundTrip(arg);
    BinarySpelling(arg);
  }

  /** Which of the spellings is chosen, and that it is read back as the value. */
  lemma ConvertedReads(arg: seq<byte>, numeric: seq<byte> -> bool, oneLine: bool) returns (w: Written)
    requires !WrittenOverLines(arg, oneLine)
    ensures Fits(w) && Spelling(w) == ConvertArg(arg, numeric, oneLine)
    ensures Processed(ConvertArg(arg, numeric, oneLine)) == Some(Secondary(arg))
  {
    hide Processed, Secondary, B.BinaryEscape, B.IsBinaryEscaped, BinaryText;
    if arg == [] {
      w := Quoted([]);
      QuotedIsUnescaped([]);
    } else if IsWord(arg) || IsNumber(arg, numeric) || (|arg| > 1 && IsRadixNumber(arg)) {
      w := Plain(arg);
      PlainIsUntouched(arg);
    } else if (|arg| == 1 && !B.IsPrint(arg[0])) || (|arg| > 1 && !IsPrintable(arg)) {
      w := Literal(BinaryText(arg));
      BinaryIsExtracted(arg);
    } else if |arg| == 1 && arg[0] != APOSTROPHE {
      w := Literal(arg);
      ShortIsNotBinary([APOSTROPHE] + arg + [APOSTROPHE]);
      LiteralIsStripped(arg);
    } else if |arg| == 1 {
      w := Quoted(arg);
      assert AddEscaped(arg) == EscapeOne(arg[0]) + AddEscaped([]) == arg;
      QuotedIsUnescaped(arg);
    } else {
      w := Quoted(arg);
      if !HasEscapable(arg) {
        NothingToEscape(arg);
      }
      QuotedIsUnescaped(arg);
    }
  }

  lemma ShortIsNotBinary(s: seq<byte>)
    requires |s| < 5
    ensures !B.IsBinaryEscaped(s)
  {
  }

  lemma {:induction false} HalvedOfDoubled(r: seq<byte>, ii: nat, x: seq<byte>)
    requires At(r, ii, Doubled(x)) && ii + 2 * |x| + 2 == |r|
    ensures Halved(r, ii) == Some(x)
    decreases |x|
  {
    if x != [] {
      AtConcat(r, ii, [x[0], x[0]], Doubled(x[1..]));
      AtIndex(r, ii, [x[0], x[0]], 0);
      AtIndex(r, ii, [x[0], x[0]], 1);
      HalvedOfDoubled(r, ii + 2, x[1..]);
      assert [x[0]] + x[1..] == x;
    }
  }

  /** Doubling protects every text in brackets from being taken apart. */
  lemma SecondaryIsOneResult(s: seq<byte>, spread: bool, delimiter: byte)
    requires Bracketed(s)
    ensures Results(Secondary(s), spread, delimiter) == [s]
  {
    hide Halved, Secondary;
    SecondaryUndoubled(s);
  }

  lemma SecondaryUndoubled(s: seq<byte>)
    requires Bracketed(s)
    ensures Undoubled(Secondary(s)) == Some(s)
  {
    hide Halved, Doubled;
    var x := s[1..|s| - 1];
    assert s[1..] == x + [RBRACKET];
    DoubledConcat(x, [RBRACKET]);
    DoubledOne(RBRACKET);
    var r := [LBRACKET, LBRACKET] + Doubled(x) + [RBRACKET, RBRACKET];
    Joined([LBRACKET, LBRACKET], Doubled(x), [RBRACKET, RBRACKET]);
    assert r[2..2 + |Doubled(x)|] == Doubled(x);
    HalvedOfDoubled(r, 2, x);
    assert s == [LBRACKET] + x + [RBRACKET];
  }

  lemma DoubledOne(b: byte)
    ensures Doubled([b]) == [b, b]
  {
  }

  lemma {:induction false} PiecesHoldNoDelimiter(s: seq<byte>, delimiter: byte)
    ensures forall k :: 0 <= k < |NonEmpty(Pieces(s, delimiter))| ==> delimiter !in NonEmpty(Pieces(s, delimiter))[k]
    decreases |s|
  {
    if s != [] {
      var i := FirstIndex(s, 0, delimiter);
      if i < |s| {
        PiecesHoldNoDelimiter(s[i + 1..], delimiter);
        assert ([s[..i]] + Pieces(s[i + 1..], delimiter))[1..] == Pieces(s[i + 1..], delimiter);
      } else {
        assert [s][1..] == [] && NonEmpty([s]) == [s] + NonEmpty([]);
      }
    }
  }

  /** What comes of a text that was protected: itself alone, but for a delimiter of the option inside it. */
  lemma OneResult(s: seq<byte>, spread: bool, delimiter: byte)
    ensures Results(Secondary(s), spread, delimiter) == [s] <==> Bracketed(s) || delimiter == NUL || delimiter !in s
  {
    if Bracketed(s) {
      SecondaryIsOneResult(s, spread, delimiter);
    } else if delimiter != NUL && delimiter in s {
      PiecesHoldNoDelimiter(s, delimiter);
      if Results(s, spread, delimiter) == [s] {
        assert NonEmpty(Pieces(s, delimiter))[0] == s;
      }
    }
  }

  /** The text of a value written over lines, with the quotes that are left when one of each side is taken off. */
  function Tripled(arg: seq<byte>): seq<byte> {
    [APOSTROPHE, APOSTROPHE] + arg + [APOSTROPHE, APOSTROPHE]
  }

  lemma OverLinesProcessed(arg: seq<byte>, numeric: seq<byte> -> bool, oneLine: bool)
    requires WrittenOverLines(arg, oneLine)
    ensures ConvertArg(arg, numeric, oneLine) == TRIPLE + arg + TRIPLE
    ensures Processed(ConvertArg(arg, numeric, oneLine)) == Some(Tripled(arg))
  {
    OverLinesConverted(arg, numeric, oneLine);
    var s, inner := TRIPLE + arg + TRIPLE, Tripled(arg);
    assert s == [APOSTROPHE] + inner + [APOSTROPHE];
    assert s[..4][1] == APOSTROPHE && s[..3][0] == APOSTROPHE;
    LiteralIsStripped(inner);
  }

  lemma OverLinesConverted(arg: seq<byte>, numeric: seq<byte> -> bool, oneLine: bool)
    requires WrittenOverLines(arg, oneLine)
    ensures ConvertArg(arg, numeric, oneLine) == TRIPLE + arg + TRIPLE
  {
    var k :| 0 <= k < |arg| && EscapeCode(arg[k]).Some?;
    assert !IsNumeral(arg[k]) && !IsHexDigit(arg[k]);
    assert arg[k] != LOWER_X && arg[k] != LOWER_O && arg[k] != LOWER_B && arg[k] != ZERO;
  }

  /** Cut at single quotes, the quotes leave nothing behind. */
  lemma TripledPieces(arg: seq<byte>)
    requires arg != [] && APOSTROPHE !in arg
    ensures NonEmpty(Pieces(Tripled(arg), APOSTROPHE)) == [arg]
  {
    hide Pieces, NonEmpty, FirstIndex;
    var q := [APOSTROPHE];
    OnePiece([], q + (arg + (q + q)));
    OnePiece([], arg + (q + q));
    OnePiece(arg, q);
    OnePiece([], []);
    assert Tripled(arg) == [] + q + (q + (arg + (q + q)));
    assert q + (arg + (q + q)) == [] + q + (arg + (q + q));
    assert arg + (q + q) == arg + q + q;
    assert q == [] + q + [];
  }

  /** What a piece in front of a single quote adds. */
  lemma OnePiece(piece: seq<byte>, rest: seq<byte>)
    requires APOSTROPHE !in piece
    ensures NonEmpty(Pieces(piece + [APOSTROPHE] + rest, APOSTROPHE))
      == (if piece == [] then [] else [piece]) + NonEmpty(Pieces(rest, APOSTROPHE))
    ensures NonEmpty(Pieces([], APOSTROPHE)) == []
  {
    hide FirstIndex;
    var s := piece + [APOSTROPHE] + rest;
    var k := FirstIndex(s, 0, APOSTROPHE);
    assert s[|piece|] == APOSTROPHE;
    assert forall i :: 0 <= i < |piece| ==> s[i] == piece[i];
    assert s[..|piece|] == piece && s[|piece| + 1..] == rest;
    assert ([piece] + Pieces(rest, APOSTROPHE))[1..] == Pieces(rest, APOSTROPHE);
  }

  lemma TripledResults(arg: seq<byte>, spread: bool, delimiter: byte)
    requires arg != []
    ensures Results(Tripled(arg), spread, delimiter) == [arg] <==> delimiter == APOSTROPHE && APOSTROPHE !in arg
  {
    hide Pieces, NonEmpty;
    var s := Tripled(arg);
    assert |s| > |arg| && s[0] == APOSTROPHE;
    assert forall k :: 0 <= k < |arg| ==> arg[k] == s[k + 2];
    if delimiter != NUL && delimiter in s {
      PiecesHoldNoDelimiter(s, delimiter);
      if Results(s, spread, delimiter) == [arg] {
        assert NonEmpty(Pieces(s, delimiter))[0] == arg;
        TripledBytes(arg, delimiter);
      }
      if delimiter == APOSTROPHE && APOSTROPHE !in arg {
        TripledPieces(arg);
      }
    }
  }

  lemma TripledBytes(arg: seq<byte>, b: byte)
    ensures b in Tripled(arg) ==> b == APOSTROPHE || b in arg
  {
  }

  /** Which values an option with this delimiter gets back from the text of one item. */
  predicate Survives(arg: seq<byte>, oneLine: bool, delimiter: byte) {
    if WrittenOverLines(arg, oneLine) then delimiter == APOSTROPHE && APOSTROPHE !in arg
    else Bracketed(arg) || delimiter == NUL || delimiter !in arg
  }

  /**
   A written value, taken for an item of one line and handed over, is that value again exactly when it is kept on
   one line and the delimiter of the option does not cut it up; or, by chance, when the delimiter takes off the
   quotes of a value that is not.
   */
  lemma DelimitedRoundTrip(arg: seq<byte>, numeric: seq<byte> -> bool, oneLine: bool, spread: bool, delimiter: byte)
    ensures var item := Processed(ConvertArg(arg, numeric, oneLine));
      item.Some? && (Results(item.value, spread, delimiter) == [arg] <==> Survives(arg, oneLine, delimiter))
  {
    hide ConvertArg, Processed, Secondary, Results, Tripled;
    if WrittenOverLines(arg, oneLine) {
      OverLinesProcessed(arg, numeric, oneLine);
      TripledResults(arg, spread, delimiter);
    } else {
      var _ := ConvertedReads(arg, numeric, oneLine);
      OneResult(arg, spread, delimiter);
    }
  }

  /**
   With no delimiter, every byte string survives: it is the one result of the option, exactly when the writer
   keeps it on one line.
   */
  lemma ValueRoundTrip(arg: seq<byte>, numeric: seq<byte> -> bool, oneLine: bool, spread: bool)
    ensures var item := Processed(ConvertArg(arg, numeric, oneLine));
      item.Some? && (Results(item.value, spread, NUL) == [arg] <==> !WrittenOverLines(arg, oneLine))
  {
    hide ConvertArg, Processed, Results, WrittenOverLines;
    DelimitedRoundTrip(arg, numeric, oneLine, spread, NUL);
  }

  /** A hundred and one quotes are lost that way. */
  lemma QuotesAreLost(numeric: seq<byte> -> bool, spread: bool)
    ensures var arg := seq(101, _ => QUOTE);
      && WrittenOverLines(arg, false)
      && Processed(ConvertArg(arg, numeric, false)) == Some(Tripled(arg))
      && Results(Tripled(arg), spread, NUL) != [arg]
  {
    hide ConvertArg, Processed, Results, Tripled;
    var arg: seq<byte> := seq(101, _ => QUOTE);
    assert EscapeCode(arg[0]).Some?;
    OverLinesProcessed(arg, numeric, false);
    TripledResults(arg, spread, NUL);
  }

  /** A comma cuts `A,B` up for an option whose delimiter it is. */
  lemma CommaCuts(numeric: seq<byte> -> bool, spread: bool)
    ensures var item := Processed(ConvertArg([65, COMMA, 66], numeric, true));
      item.Some? && Results(item.value, spread, COMMA) == [[65], [66]]
  {
    hide ConvertArg, Processed, Secondary;
    var arg: seq<byte> := [65, COMMA, 66];
    var _ := ConvertedReads(arg, numeric, true);
    NotBracketed(arg);
    assert FirstIndex(arg, 0, COMMA) == 1 && arg[..1] == [65] && arg[2..] == [66];
    assert Pieces([66], COMMA) == [[66]];
    assert NonEmpty([[66]]) == [[66]] + NonEmpty([[66]][1..]) == [[66]];
    var all: seq<seq<byte>> := [[65], [66]];
    assert [[65]] + [[66]] == all && all[1..] == [[66]];
  }

  lemma NotBracketed(s: seq<byte>)
    requires !Bracketed(s)
    ensures Secondary(s) == s
  {
  }

  // ---------------------------------------------------------------- the loops of the option

  method HalveUpTo(result: seq<byte>) returns (nstrs: seq<byte>, duplicated: bool)
    requires |result| >= 4
    ensures duplicated <==> Halved(result, 2).Some?
    ensures duplicated ==> nstrs == [LBRACKET] + Halved(result, 2).value
  {
    nstrs := [LBRACKET];
    duplicated := true;
    var ii := 2;
    ghost var done: seq<byte> := [];
    KeepNothing(Halved(result, 2));
    while ii < |result| - 2
      invariant duplicated && Halved(result, 2) == Keep(done, Halved(result, ii))
      invariant nstrs == [LBRACKET] + done
      decreases |result| - ii
    {
      if result[ii] == result[ii + 1] {
        KeepConcat(done, [result[ii]], Halved(result, ii + 2));
        nstrs := nstrs + [result[ii]];
        done := done + [result[ii]];
      } else {
        duplicated := false;
        break;
      }
      ii := ii + 2;
    }
    assert done + [] == done;
  }

  method SplitAt(s: seq<byte>, delimiter: byte) returns (elems: seq<seq<byte>>)
    ensures elems == SplitPieces(s, delimiter)
  {
    if s == [] {
      elems := [[]];
    } else {
      elems := GetLines(s, delimiter);
    }
  }

  /** The loop around std::getline. */
  method GetLines(s: seq<byte>, delimiter: byte) returns (elems: seq<seq<byte>>)
    ensures elems == Pieces(s, delimiter)
  {
    hide Pieces;
    elems := [];
    var pos := 0;
    assert s[0..] == s && [] + Pieces(s, delimiter) == Pieces(s, delimiter);
    while pos < |s|
      invariant pos <= |s|
      invariant Pieces(s, delimiter) == elems + Pieces(s[pos..], delimiter)
    {
      ghost var rest := s[pos..];
      var end := pos;
      while end < |s| && s[end] != delimiter
        invariant pos <= end <= |s| && FirstIndex(rest, 0, delimiter) == FirstIndex(rest, end - pos, delimiter)
      {
        assert rest[end - pos] == s[end];
        end := end + 1;
      }
      assert end < |s| ==> rest[end - pos] == s[end];
      PiecesAt(s, pos, end, delimiter);
      elems := elems + [s[pos..end]];
      pos := if end < |s| then end + 1 else end;
    }
    assert s[pos..] == [] && elems + [] == elems;
    NoPieces(delimiter);
  }

  lemma PiecesStep(s: seq<byte>, delimiter: byte)
    requires s != []
    ensures var k := FirstIndex(s, 0, delimiter);
      Pieces(s, delimiter) == if k == |s| then [s] else [s[..k]] + Pieces(s[k + 1..], delimiter)
  {
    hide FirstIndex;
  }

  lemma NoPieces(delimiter: byte)
    ensures Pieces([], delimiter) == []
  {
  }

  lemma PiecesAt(s: seq<byte>, pos: nat, end: nat, delimiter: byte)
    requires pos <= end <= |s| && pos < |s| && FirstIndex(s[pos..], 0, delimiter) == end - pos
    ensures Pieces(s[pos..], delimiter) == [s[pos..end]]
      + (if end < |s| then Pieces(s[end + 1..], delimiter) else Pieces(s[|s|..], delimiter))
  {
    hide FirstIndex, Pieces;
    var rest := s[pos..];
    PiecesStep(rest, delimiter);
    if end < |s| {
      assert rest[..end - pos] == s[pos..end];
      assert rest[end - pos + 1..] == s[end + 1..];
    } else {
      assert rest == s[pos..end] && s[|s|..] == [];
      assert [rest] + [] == [rest];
      NoPieces(delimiter);
    }
  }

  lemma {:induction false} NonEmptySnoc(parts: seq<seq<byte>>, p: seq<byte>)
    ensures NonEmpty(parts + [p]) == NonEmpty(parts) + if p == [] then [] else [p]
    decreases |parts|
  {
    if parts == [] {
      assert parts + [p] == [p] && [p][1..] == [];
      assert NonEmpty([p]) == (if p == [] then [] else [p]) + [];
    } else {
      assert (parts + [p])[1..] == parts[1..] + [p];
      assert (parts + [p])[0] == parts[0];
      NonEmptySnoc(parts[1..], p);
    }
  }

  lemma {:induction false} AllResultsSnoc(parts: seq<seq<byte>>, p: seq<byte>, longest: nat, delimiter: byte)
    requires forall k :: 0 <= k < |parts| ==> |parts[k]| <= longest
    requires |p| <= longest
    ensures AllResults(parts + [p], longest, delimiter)
      == AllResults(parts, longest, delimiter) + if p == [] then [] else Results(p, true, delimiter)
    decreases |parts|
  {
    hide Results;
    if parts == [] {
      assert (parts + [p])[1..] == [];
    } else {
      assert (parts + [p])[1..] == parts[1..] + [p];
      AllResultsSnoc(parts[1..], p, longest, delimiter);
    }
  }

  /** Adds the results of one text behind those there are, and counts them. */
  method AddResult(result: seq<byte>, res: seq<seq<byte>>, spread: bool, delimiter: byte)
    returns (out: seq<seq<byte>>, count: nat)
    ensures out == res + Results(result, spread, delimiter)
    ensures count == |Results(result, spread, delimiter)|
    decreases |result|, 0
  {
    hide Halved;
    if DoubleBracketed(result) {
      var nstrs, duplicated := HalveUpTo(result);
      if duplicated {
        return res + [nstrs + [RBRACKET]], 1;
      }
    }
    if spread && result != [] && result[0] == LBRACKET && result[|result| - 1] == RBRACKET {
      out, count := AddParts(result, res, delimiter);
      return;
    }
    if delimiter == NUL || delimiter !in result {
      return res + [result], 1;
    }
    out, count := AddPieces(result, res, delimiter);
  }

  method AddParts(result: seq<byte>, res: seq<seq<byte>>, delimiter: byte)
    returns (out: seq<seq<byte>>, count: nat)
    requires Bracketed(result)
    ensures var r := AllResults(SplitUp(result[1..|result| - 1], COMMA), |result| - 2, delimiter);
      out == res + r && count == |r|
    decreases |result| - 1, 1
  {
    hide Results, SplitUp;
    var parts := Split(result[1..|result| - 1], COMMA);
    ghost var longest := |result| - 2;
    out, count := res, 0;
    for i := 0 to |parts|
      invariant out == res + AllResults(parts[..i], longest, delimiter)
      invariant count == |AllResults(parts[..i], longest, delimiter)|
    {
      assert parts[..i + 1] == parts[..i] + [parts[i]];
      AllResultsSnoc(parts[..i], parts[i], longest, delimiter);
      if parts[i] != [] {
        var more;
        out, more := AddResult(parts[i], out, true, delimiter);
        count := count + more;
      }
    }
    assert parts[..|parts|] == parts;
  }

  method AddPieces(result: seq<byte>, res: seq<seq<byte>>, delimiter: byte)
    returns (out: seq<seq<byte>>, count: nat)
    requires result != []
    ensures var r := NonEmpty(Pieces(result, delimiter)); out == res + r && count == |r|
  {
    var parts := SplitAt(result, delimiter);
    assert parts == Pieces(result, delimiter);
    out, count := res, 0;
    for i := 0 to |parts|
      invariant out == res + NonEmpty(parts[..i]) && count == |NonEmpty(parts[..i])|
    {
      assert parts[..i + 1] == parts[..i] + [parts[i]];
      NonEmptySnoc(parts[..i], parts[i]);
      if parts[i] != [] {
        out := out + [parts[i]];
        count := count + 1;
      }
    }
    assert parts[..|parts|] == parts;
  }
}

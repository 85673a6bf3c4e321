/**
 String literals of JSON text as they are written, piece by piece, and the bytes they stand for. The parser looks for
 the closing quote before it decodes, so a literal is divided twice, and the two divisions may disagree.
 */
module Literals {
  import opened Bytes
  import opened Unicode
  import opened HexText
  import opened JsonString
  import opened JsonParse

  // ---------------------------------------------------------------- pieces

  type Code = c: nat | c <= 0x10FFFF

  /** A byte for itself, an escape of one letter, or the one or two escapes of a code point. */
  datatype Piece =
    | Raw(b: byte)
    | Short(letter: char, b: byte)
    | Unit(digits: seq<byte>, code: Code)
    | Pair(high: seq<byte>, h: nat, low: seq<byte>, l: nat)

  predicate IsShort(letter: char, b: byte) {
    || (letter == 'b' && b == 8) || (letter == 't' && b == 9) || (letter == 'n' && b == 10)
    || (letter == 'f' && b == 12) || (letter == 'r' && b == 13)
    || (letter == '"' && b == '"' as int) || (letter == '\\' && b == '\\' as int) || (letter == '/' && b == '/' as int)
  }

  /** Digits that spell nothing stand for 0, and surrogates for a code point in pairs only. */
  ghost predicate IsPiece(p: Piece) {
    match p
    case Raw(b) => b != '\\' as int
    case Short(letter, b) => IsShort(letter, b)
    case Unit(digits, code) => |digits| == 4 && Means(digits, code) && !(0xD800 <= code <= 0xDFFF)
    case Pair(high, h, low, l) =>
      && |high| == 4 && Means(high, h) && 0xD800 <= h <= 0xDBFF
      && |low| == 4 && Means(low, l) && 0xDC00 <= l <= 0xDFFF
  }

  function PieceText(p: Piece): seq<byte> {
    match p
    case Raw(b) => [b]
    case Short(letter, _) => ['\\' as int, letter as int % 256]
    case Unit(digits, _) => ['\\' as int, 'u' as int] + digits
    case Pair(high, _, low, _) => ['\\' as int, 'u' as int] + high + (['\\' as int, 'u' as int] + low)
  }

  function PairCode(h: nat, l: nat): Code {
    if 0xD800 <= h <= 0xDBFF && 0xDC00 <= l <= 0xDFFF then 0x10000 + (h - 0xD800) * 0x400 + (l - 0xDC00) else 0
  }

  function PieceValue(p: Piece): seq<byte> {
    match p
    case Raw(b) => [b]
    case Short(_, b) => [b]
    case Unit(_, code) => Utf8(code)
    case Pair(_, h, _, l) => Utf8(PairCode(h, l))
  }

  ghost predicate ArePieces(pieces: seq<Piece>) {
    forall k :: 0 <= k < |pieces| ==> IsPiece(pieces[k])
  }

  function PiecesText(pieces: seq<Piece>): seq<byte> {
    if pieces == [] then [] else PieceText(pieces[0]) + PiecesText(pieces[1..])
  }

  function PiecesValue(pieces: seq<Piece>): seq<byte> {
    if pieces == [] then [] else PieceValue(pieces[0]) + PiecesValue(pieces[1..])
  }

  /** Between the quotes: every backslash takes the byte behind it along, so that no quote stands alone. */
  predicate IsBody(body: seq<byte>)
    decreases |body|
  {
    body == [] ||
    if body[0] == '\\' as int then |body| >= 2 && IsBody(body[2..])
    else body[0] != '"' as int && IsBody(body[1..])
  }

  /** The pieces fill the text up to the closing quote, or an escape at the end takes that quote for its letter. */
  predicate Fills(pieces: seq<Piece>, body: seq<byte>) {
    || PiecesText(pieces) == body
    || (pieces != [] && Last(pieces).Short? && PiecesText(pieces) == body + ['"' as int])
  }

  // ---------------------------------------------------------------- the first pass

  lemma {:induction false} ScanOfBody(t: seq<byte>, p: nat, body: seq<byte>)
    requires IsBody(body) && At(t, p, body + [QUOTE])
    ensures ScanString(t, p).Closed? && ScanString(t, p).end == p + |body|
    decreases |body|
  {
    AtIndex(t, p, body + [QUOTE], 0);
    if body != [] {
      var n := if body[0] == BACKSLASH then 2 else 1;
      assert body + [QUOTE] == body[..n] + (body[n..] + [QUOTE]);
      AtConcat(t, p, body[..n], body[n..] + [QUOTE]);
      ScanOfBody(t, p + n, body[n..]);
    }
  }

  lemma {:induction false} BodyOfScan(t: seq<byte>, p: nat)
    requires ScanString(t, p).Closed?
    ensures IsBody(t[p..ScanString(t, p).end])
    decreases |t| - p
  {
    var body := t[p..ScanString(t, p).end];
    if t[p] != QUOTE {
      var n := if t[p] == BACKSLASH then 2 else 1;
      BodyOfScan(t, p + n);
      assert body[n..] == t[p + n..ScanString(t, p).end];
    }
  }

  // ---------------------------------------------------------------- the second pass

  lemma ShortRead(letter: char, b: byte)
    ensures letter < 256 as char ==> (IsShort(letter, b) <==> SimpleEscape(letter as int % 256) == Some(b))
    ensures IsShort(letter, b) ==> letter < 256 as char
  {
  }

  lemma UnitRead(t: seq<byte>, p: nat, e: nat, digits: seq<byte>, code: Code)
    requires IsPiece(Unit(digits, code)) && At(t, p, PieceText(Unit(digits, code))) && p + 6 <= e <= |t|
    ensures ReadLiteral(t, p, e) == Some((code, 6))
  {
    hide Hex4, Means;
    AtConcat(t, p, [BACKSLASH, LOWER_U], digits);
    ReadsMeaning(t, p + 2, 4, code);
  }

  lemma PairRead(t: seq<byte>, p: nat, e: nat, high: seq<byte>, h: nat, low: seq<byte>, l: nat)
    requires IsPiece(Pair(high, h, low, l)) && At(t, p, PieceText(Pair(high, h, low, l))) && p + 12 <= e <= |t|
    ensures ReadLiteral(t, p, e) == Some((PairCode(h, l) as nat, 12))
  {
    hide Hex4, Means;
    AtConcat(t, p, [BACKSLASH, LOWER_U] + high, [BACKSLASH, LOWER_U] + low);
    AtConcat(t, p, [BACKSLASH, LOWER_U], high);
    AtConcat(t, p + 6, [BACKSLASH, LOWER_U], low);
    AtIndex(t, p + 6, [BACKSLASH, LOWER_U], 0);
    AtIndex(t, p + 6, [BACKSLASH, LOWER_U], 1);
    ReadsMeaning(t, p + 2, 4, h);
    ReadsMeaning(t, p + 8, 4, l);
  }

  lemma PieceBegins(t: seq<byte>, p: nat, piece: Piece)
    requires IsPiece(piece) && At(t, p, PieceText(piece))
    ensures p < |t| && (t[p] == BACKSLASH <==> !piece.Raw?) && (piece.Raw? ==> t[p] == piece.b)
    ensures !piece.Raw? ==> p + 1 < |t| && (t[p + 1] == LOWER_U <==> !piece.Short?)
    ensures piece.Short? ==> SimpleEscape(t[p + 1]) == Some(piece.b)
    ensures piece.Unit? ==> |PieceText(piece)| == 6
    ensures piece.Pair? ==> |PieceText(piece)| == 12
  {
    hide Means;
    AtIndex(t, p, PieceText(piece), 0);
    if !piece.Raw? {
      AtIndex(t, p, PieceText(piece), 1);
    }
  }

  lemma OnePieceRead(t: seq<byte>, p: nat, e: nat, piece: Piece)
    requires IsPiece(piece) && p < e < |t| && At(t, p, PieceText(piece))
    requires p + |PieceText(piece)| <= e || piece.Short?
    ensures Decode(t, p, e) == Decode(t, p + |PieceText(piece)|, e).Prepend(PieceValue(piece))
  {
    hide IsPiece, ReadLiteral, Utf8;
    PieceBegins(t, p, piece);
    match piece
    case Unit(digits, code) => UnitRead(t, p, e, digits, code);
    case Pair(high, h, low, l) => PairRead(t, p, e, high, h, low, l);
    case _ =>
  }

  /** Pieces that fill a literal are decoded to what they stand for. */
  lemma {:induction false} PiecesRead(t: seq<byte>, p: nat, e: nat, pieces: seq<Piece>)
    requires ArePieces(pieces) && p <= e < |t| && At(t, p, PiecesText(pieces))
    requires p + |PiecesText(pieces)| == e
      || (p + |PiecesText(pieces)| == e + 1 && pieces != [] && Last(pieces).Short?)
    ensures Decode(t, p, e) == Text(PiecesValue(pieces))
    decreases |pieces|
  {
    hide IsPiece, PieceText, PieceValue, Decode;
    NothingToDecode(t, e);
    if pieces != [] {
      var first, rest := pieces[0], pieces[1..];
      AtConcat(t, p, PieceText(first), PiecesText(rest));
      PieceSize(first);
      assert rest != [] ==> Last(rest) == Last(pieces);
      if rest != [] {
        ShortAtEnd(rest);
        PiecesRead(t, p + |PieceText(first)|, e, rest);
      }
      OnePieceRead(t, p, e, first);
    }
  }

  lemma NothingToDecode(t: seq<byte>, e: nat)
    requires e < |t|
    ensures Decode(t, e, e) == Decode(t, e + 1, e) == Text([])
  {
  }

  lemma PieceSize(piece: Piece)
    requires IsPiece(piece)
    ensures |PieceText(piece)| > 0 && (piece.Short? ==> |PieceText(piece)| == 2)
  {
  }

  lemma {:induction false} ShortAtEnd(pieces: seq<Piece>)
    requires ArePieces(pieces) && pieces != []
    ensures |PiecesText(pieces)| >= if Last(pieces).Short? then 2 else 1
    decreases |pieces|
  {
    hide IsPiece, PieceText;
    PieceSize(pieces[0]);
    if |pieces| > 1 {
      ShortAtEnd(pieces[1..]);
    }
  }

  // ---------------------------------------------------------------- what is accepted is made of pieces

  lemma UnitTaken(t: seq<byte>, p: nat, e: nat) returns (piece: Piece)
    requires p + 6 <= e < |t| && t[p] == BACKSLASH && t[p + 1] == LOWER_U && ReadLiteral(t, p, e).Some?
    ensures var (c, n) := ReadLiteral(t, p, e).value;
      && IsPiece(piece) && p + n <= e && PieceText(piece) == t[p..p + n] && PieceValue(piece) == Utf8(c)
  {
    hide Hex4, Means, Utf8;
    var (c, n) := ReadLiteral(t, p, e).value;
    ReadsMeaning(t, p + 2, 4, Hex4(t, p + 2));
    assert t[p..p + 6] == [BACKSLASH, LOWER_U] + t[p + 2..p + 6];
    if n == 6 {
      piece := Unit(t[p + 2..p + 6], c);
    } else {
      ReadsMeaning(t, p + 8, 4, Hex4(t, p + 8));
      assert t[p + 6..p + 12] == [BACKSLASH, LOWER_U] + t[p + 8..p + 12];
      assert t[p..p + 12] == t[p..p + 6] + t[p + 6..p + 12];
      piece := Pair(t[p + 2..p + 6], Hex4(t, p + 2), t[p + 8..p + 12], Hex4(t, p + 8));
    }
  }

  lemma OnePieceTaken(t: seq<byte>, p: nat, e: nat) returns (piece: Piece)
    requires p < e < |t| && t[e] == QUOTE && Decode(t, p, e).Text?
    ensures IsPiece(piece) && p + |PieceText(piece)| <= |t| && t[p..p + |PieceText(piece)|] == PieceText(piece)
    ensures p + |PieceText(piece)| <= e || (piece.Short? && p + |PieceText(piece)| == e + 1)
    ensures Decode(t, p, e) == Decode(t, p + |PieceText(piece)|, e).Prepend(PieceValue(piece))
  {
    hide ReadLiteral, Utf8, Means, IsShort, SimpleEscape;
    if t[p] != BACKSLASH {
      piece := Raw(t[p]);
    } else if t[p + 1] == LOWER_U {
      piece := UnitTaken(t, p, e);
    } else {
      piece := ShortTaken(t[p + 1]);
      assert t[p..p + 2] == [t[p], t[p + 1]];
    }
  }

  lemma ShortTaken(letter: byte) returns (piece: Piece)
    requires SimpleEscape(letter).Some?
    ensures piece.Short? && IsPiece(piece) && PieceText(piece) == [BACKSLASH, letter]
    ensures PieceValue(piece) == [SimpleEscape(letter).value]
  {
    piece := Short(letter as char, SimpleEscape(letter).value);
    ShortRead(letter as char, piece.b);
  }

  /** A literal that is decoded is filled by pieces, and decoded to what they stand for. */
  lemma {:induction false} PiecesTaken(t: seq<byte>, p: nat, e: nat) returns (pieces: seq<Piece>)
    requires p <= e < |t| && t[e] == QUOTE && Decode(t, p, e).Text?
    ensures ArePieces(pieces) && Fills(pieces, t[p..e]) && Decode(t, p, e) == Text(PiecesValue(pieces))
    decreases e - p
  {
    hide IsPiece, PieceText, PieceValue, PiecesText, PiecesValue, Fills, Decode;
    NothingToDecode(t, e);
    if p == e {
      pieces := [];
      FillsNothing();
      assert t[p..e] == [];
    } else {
      var first := OnePieceTaken(t, p, e);
      var q := p + |PieceText(first)|;
      PieceSize(first);
      if q > e {
        pieces := [first];
        assert t[p..q] == t[p..e] + [QUOTE];
        FillsAlone(first, t[p..e]);
        assert PieceValue(first) + [] == PieceValue(first);
      } else {
        var rest := PiecesTaken(t, q, e);
        pieces := [first] + rest;
        FillsMore(first, rest, t[q..e]);
        assert t[p..e] == PieceText(first) + t[q..e];
      }
    }
  }

  lemma FillsNothing()
    ensures Fills([], []) && PiecesValue([]) == []
  {
  }

  lemma FillsAlone(first: Piece, body: seq<byte>)
    requires first.Short? && PieceText(first) == body + [QUOTE]
    ensures Fills([first], body) && PiecesValue([first]) == PieceValue(first)
  {
    hide PieceText, PieceValue;
    var pieces := [first];
    assert pieces[1..] == [];
    assert PiecesText(pieces) == PieceText(first) + PiecesText(pieces[1..]) == PieceText(first);
    assert PiecesValue(pieces) == PieceValue(first) + PiecesValue(pieces[1..]) == PieceValue(first);
  }

  lemma FillsMore(first: Piece, rest: seq<Piece>, body: seq<byte>)
    requires Fills(rest, body)
    ensures Fills([first] + rest, PieceText(first) + body)
    ensures PiecesValue([first] + rest) == PieceValue(first) + PiecesValue(rest)
  {
    hide PieceText, PieceValue;
    var pieces := [first] + rest;
    assert pieces[1..] == rest;
    if PiecesText(rest) != body {
      assert Last(pieces) == Last(rest);
      Joined(PieceText(first), body, [QUOTE]);
    }
  }

  // ---------------------------------------------------------------- literals

  /** A literal as it is written: its body, filled by pieces. */
  datatype Literal = Literal(body: seq<byte>, pieces: seq<Piece>)

  ghost predicate IsLiteral(x: Literal) {
    IsBody(x.body) && ArePieces(x.pieces) && Fills(x.pieces, x.body)
  }

  function LiteralText(x: Literal): seq<byte> { ['"' as int] + x.body + ['"' as int] }

  /** What C sees of it. */
  function LiteralValue(x: Literal): seq<byte> { CString(PiecesValue(x.pieces)) }

  lemma LiteralRead(t: seq<byte>, i: nat, x: Literal)
    requires IsLiteral(x) && Terminated(t) && At(t, i, LiteralText(x))
    ensures i + |LiteralText(x)| < |t|
    ensures ParseString(t, i) == Done(LiteralValue(x), i + |LiteralText(x)|)
  {
    hide Decode, ScanString, IsBody, PiecesText, PiecesValue, IsPiece;
    var e := i + 1 + |x.body|;
    AtIndex(t, i, LiteralText(x), 0);
    AtIndex(t, i, LiteralText(x), 1 + |x.body|);
    assert LiteralText(x) == [QUOTE] + (x.body + [QUOTE]);
    AtConcat(t, i, [QUOTE], x.body + [QUOTE]);
    AtConcat(t, i + 1, x.body, [QUOTE]);
    ScanOfBody(t, i + 1, x.body);
    PiecesRead(t, i + 1, e, x.pieces);
  }

  lemma LiteralTaken(t: seq<byte>, i: nat) returns (x: Literal)
    requires Terminated(t) && i < |t| && ParseString(t, i).Done?
    ensures IsLiteral(x) && At(t, i, LiteralText(x))
    ensures ParseString(t, i) == Done(LiteralValue(x), i + |LiteralText(x)|)
  {
    hide Decode, ScanString, IsBody, PiecesText, PiecesValue, IsPiece;
    var e := ScanString(t, i + 1).end;
    BodyOfScan(t, i + 1);
    var pieces := PiecesTaken(t, i + 1, e);
    x := Literal(t[i + 1..e], pieces);
    assert t[i..e + 1] == [t[i]] + t[i + 1..e] + [t[e]];
  }

  // ---------------------------------------------------------------- what the printer writes

  /** The printer writes the escape of one letter where there is one; it leaves a slash alone. */
  lemma PrintsShort(letter: char, b: byte)
    requires IsShort(letter, b) && letter != '/'
    ensures EscapeByte(b) == PieceText(Short(letter, b))
  {
  }

  /** Other control bytes are four digits, with small letters, and everything else stands for itself. */
  lemma PrintsOthers(b: byte)
    requires b == '/' as int || forall letter: char :: !IsShort(letter, b)
    ensures b >= ' ' as int ==> EscapeByte(b) == [b]
    ensures 0 < b < ' ' as int ==>
      EscapeByte(b) == ['\\' as int, 'u' as int, '0' as int, '0' as int, SMALLS[b / 16], SMALLS[b % 16]]
  {
    assert IsShort('"', 34) && IsShort('\\', 92) && IsShort('b', 8) && IsShort('t', 9) && IsShort('n', 10);
    assert IsShort('f', 12) && IsShort('r', 13);
    HexChars(b / 16);
    HexChars(b % 16);
  }

  lemma HexChars(v: nat)
    requires v < 16
    ensures HexChar(v) == SMALLS[v]
  {
    DigitSpelled(HexChar(v), v);
    assert v >= 10 ==> HexChar(v) != CAPITALS[v] by {
      assert forall k :: 10 <= k < 16 ==> CAPITALS[k] < 71;
    }
    assert v < 10 ==> CAPITALS[v] == SMALLS[v];
  }
}

/** The escapes of CLI11 one by one, in front of any text: what each of them is read as, and what is refused. */
module EscapeLaws {
  import opened Bytes
  import opened Unicode
  import opened HexText
  import opened Escapes
  import BinaryEscapes
  import Literals

  // ---------------------------------------------------------------- backslash escapes

  /** A letter behind a backslash, and the byte it stands for. */
  predicate IsLetter(letter: char, b: byte) {
    || (letter == 'b' && b == 8) || (letter == 't' && b == 9) || (letter == 'n' && b == 10)
    || (letter == 'f' && b == 12) || (letter == 'r' && b == 13) || (letter == '0' && b == 0)
    || (letter == '"' && b == '"' as int) || (letter == '\\' && b == '\\' as int)
  }

  lemma RemovesNothing(b: byte, rest: seq<byte>)
    requires b != '\\' as int
    ensures RemoveEscaped([b] + rest) == Keep([b], RemoveEscaped(rest))
  {
    assert ([b] + rest)[1..] == rest;
  }

  lemma LetterStep(s: seq<byte>, b: byte)
    requires |s| >= 2 && s[0] == BACKSLASH && (EscapedByte(s[1]) == Some(b) || (s[1] == 48 && b == NUL))
    ensures RemoveEscaped(s) == Keep([b], RemoveEscaped(s[2..]))
  {
    hide HexValue, CodeBytes, Keep;
  }

  lemma RemovesLetter(letter: char, b: byte, rest: seq<byte>)
    requires IsLetter(letter, b)
    ensures RemoveEscaped(['\\' as int, letter as int % 256] + rest) == Keep([b], RemoveEscaped(rest))
  {
    hide RemoveEscaped, Keep;
    var s := [BACKSLASH, letter as int % 256] + rest;
    LetterStep(s, b);
    assert s[2..] == rest;
  }

  lemma CodeStep(s: seq<byte>, n: nat)
    requires |s| >= 2 + n && s[0] == BACKSLASH && ((s[1] == LOWER_U && n == 4) || (s[1] == 85 && n == 8))
    ensures RemoveEscaped(s) == KeepCode(HexValue(s, 2, n), RemoveEscaped(s[2 + n..]))
  {
    hide HexValue, KeepCode, Keep;
  }

  /** The escape of a code point in four or eight digits, by what the digits spell. */
  lemma RemovesCode(long: bool, digits: seq<byte>, code: nat, rest: seq<byte>)
    requires Spells(digits, code) && |digits| == if long then 8 else 4
    ensures var letter := if long then 'U' else 'u';
      RemoveEscaped(['\\' as int, letter as int % 256] + digits + rest) ==
        if code > 0x10FFFF then RemoveEscaped(rest)
        else if 0xD800 <= code <= 0xDFFF then None
        else Keep(Utf8(code), RemoveEscaped(rest))
  {
    hide HexValue, Spells, Utf8, RemoveEscaped, Keep;
    var n := |digits|;
    var s := [BACKSLASH, if long then 85 else LOWER_U] + digits + rest;
    assert s[2..2 + n] == digits && s[2 + n..] == rest;
    ReadsSpelled(s, 2, n, code);
    CodeStep(s, n);
    KeepNothing(RemoveEscaped(rest));
  }

  /** What is neither of these is refused: another letter, or digits that spell nothing or are too few. */
  lemma RefusesOthers(s: seq<byte>)
    requires s != [] && s[0] == '\\' as int
    requires |s| > 1 ==> forall letter: char, b: byte :: IsLetter(letter, b) ==> s[1] != letter as int
    requires |s| > 1 && s[1] == 'u' as int ==> |s| < 6 || forall code: nat :: !Spells(s[2..6], code)
    requires |s| > 1 && s[1] == 'U' as int ==> |s| < 10 || forall code: nat :: !Spells(s[2..10], code)
    ensures RemoveEscaped(s) == None
  {
    hide HexValue, Spells, IsLetter, RemoveEscaped;
    OtherStep(s);
    if |s| > 1 {
      NoLetter(s[1]);
      if s[1] == LOWER_U && |s| >= 6 {
        NoValue(s, 2, 4);
        CodeStep(s, 4);
      } else if s[1] == 85 && |s| >= 10 {
        NoValue(s, 2, 8);
        CodeStep(s, 8);
      }
    }
  }

  predicate TooShort(s: seq<byte>)
    requires |s| >= 2
  {
    (s[1] == LOWER_U ==> |s| < 6) && (s[1] == 85 ==> |s| < 10)
  }

  lemma OtherStep(s: seq<byte>)
    requires s != [] && s[0] == BACKSLASH
    ensures |s| < 2 ==> RemoveEscaped(s) == None
    ensures |s| >= 2 && EscapedByte(s[1]).None? && s[1] != 48 && TooShort(s) ==> RemoveEscaped(s) == None
  {
  }

  lemma NoLetter(c: byte)
    requires forall letter: char, b: byte :: IsLetter(letter, b) ==> c != letter as int
    ensures EscapedByte(c).None? && c != 48
  {
    if EscapedByte(c).Some? {
      assert IsLetter(c as char, EscapedByte(c).value);
    }
    assert IsLetter('0', 0);
  }

  lemma NoValue(s: seq<byte>, p: nat, n: nat)
    requires p + n <= |s| && var digits := s[p..p + n]; forall code: nat :: !Spells(digits, code)
    ensures HexValue(s, p, n).None?
  {
    hide HexValue, Spells;
    if HexValue(s, p, n).Some? {
      ReadsSpelled(s, p, n, HexValue(s, p, n).value);
    }
  }

  /** The writer escapes the bytes that have a letter, but for the terminator, and no others. */
  lemma AddsLetter(letter: char, b: byte, rest: seq<byte>)
    requires IsLetter(letter, b) && b != 0
    ensures AddEscaped([b] + rest) == ['\\' as int, letter as int % 256] + AddEscaped(rest)
  {
    assert ([b] + rest)[1..] == rest;
  }

  lemma AddsNothing(b: byte, rest: seq<byte>)
    requires b == 0 || forall letter: char :: !IsLetter(letter, b)
    ensures AddEscaped([b] + rest) == [b] + AddEscaped(rest)
  {
    assert ([b] + rest)[1..] == rest;
    if EscapeCode(b).Some? {
      assert IsLetter(EscapeCode(b).value as char, b);
    }
  }

  // ---------------------------------------------------------------- binary escapes

  lemma TwoDigits(s: seq<byte>, p: nat, v: byte)
    requires p + 2 <= |s|
    ensures Spells(s[p..p + 2], v) <==> HexDigit(s[p]) == Some(v / 16) && HexDigit(s[p + 1]) == Some(v % 16)
  {
    var digits := s[p..p + 2];
    DigitSpelled(s[p], v / 16);
    DigitSpelled(s[p + 1], v % 16);
    hide HexDigit;
    assert Last(digits) == s[p + 1] && ButLast(digits) == [s[p]];
    OneDigit(s[p], v / 16);
  }

  lemma OneDigit(b: byte, v: nat)
    requires v < 16
    ensures Spells([b], v) <==> b == CAPITALS[v] || b == SMALLS[v]
  {
    assert ButLast([b]) == [];
  }

  lemma ByteStep(s: seq<byte>)
    requires s != []
    ensures BinaryEscapes.Unhex(s) ==
      if |s| >= 4 && s[0] == BACKSLASH && BinaryEscapes.IsX(s[1]) && HexDigit(s[2]).Some? && HexDigit(s[3]).Some? then
        [16 * HexDigit(s[2]).value + HexDigit(s[3]).value] + BinaryEscapes.Unhex(s[4..])
      else [s[0]] + BinaryEscapes.Unhex(s[1..])
  {
  }

  /** Two digits behind a backslash and an x in either case are the byte they spell. */
  lemma UnhexesByte(x: char, digits: seq<byte>, b: byte, rest: seq<byte>)
    requires (x == 'x' || x == 'X') && |digits| == 2 && Spells(digits, b)
    ensures BinaryEscapes.Unhex(['\\' as int, x as int] + digits + rest) == [b] + BinaryEscapes.Unhex(rest)
  {
    hide BinaryEscapes.Unhex, HexDigit, Spells;
    var s := [BACKSLASH, x as int] + digits + rest;
    assert s[2..4] == digits && s[4..] == rest;
    TwoDigits(s, 2, b);
    ByteStep(s);
    assert b == 16 * (b / 16) + b % 16;
  }

  lemma DigitsOf(s: seq<byte>) returns (b: byte)
    requires |s| >= 4 && HexDigit(s[2]).Some? && HexDigit(s[3]).Some?
    ensures Spells(s[2..4], b)
  {
    hide Spells;
    var high, low := HexDigit(s[2]).value, HexDigit(s[3]).value;
    b := 16 * high + low;
    Quotient(high, low);
    TwoDigits(s, 2, b);
  }

  /** Any other byte stands for itself. */
  lemma UnhexesNothing(s: seq<byte>)
    requires s != []
    requires |s| >= 4 && s[0] == '\\' as int && (s[1] == 'x' as int || s[1] == 'X' as int) ==>
      forall b: byte :: !Spells(s[2..4], b)
    ensures BinaryEscapes.Unhex(s) == [s[0]] + BinaryEscapes.Unhex(s[1..])
  {
    hide BinaryEscapes.Unhex, HexDigit, Spells;
    ByteStep(s);
    if |s| >= 4 && HexDigit(s[2]).Some? && HexDigit(s[3]).Some? {
      var b := DigitsOf(s);
    }
  }

  /** The writer puts down two small digits for a byte that is not printed, and for an x right behind a backslash. */
  lemma HexesByte(b: byte, afterBackslash: bool)
    ensures BinaryEscapes.BodyOne(b, afterBackslash) ==
      if b < ' ' as int || b > '~' as int || (afterBackslash && (b == 'x' as int || b == 'X' as int)) then
        ['\\' as int, 'x' as int, SMALLS[b / 16], SMALLS[b % 16]]
      else [b]
  {
    Literals.HexChars(b / 16);
    Literals.HexChars(b % 16);
  }
}

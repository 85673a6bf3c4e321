/** Bytes, byte strings, and the few sequence facts and small definitions the other modules share. */
module Bytes {
  type byte = b: int | 0 <= b < 256

  datatype Option<+T> = None | Some(value: T)

  const NUL: byte := 0
  const TAB: byte := 9
  const NEWLINE: byte := 10
  const RETURN: byte := 13
  const SPACE: byte := 32
  const QUOTE: byte := 34
  const APOSTROPHE: byte := 39
  const STAR: byte := 42
  const LPAREN: byte := 40
  const RPAREN: byte := 41
  const PLUS: byte := 43
  const COMMA: byte := 44
  const MINUS: byte := 45
  const DOT: byte := 46
  const SLASH: byte := 47
  const COLON: byte := 58
  const LBRACKET: byte := 91
  const BACKSLASH: byte := 92
  const RBRACKET: byte := 93
  const LOWER_B: byte := 98
  const LOWER_F: byte := 102
  const LOWER_N: byte := 110
  const LOWER_R: byte := 114
  const LOWER_T: byte := 116
  const LOWER_U: byte := 117
  const LOWER_X: byte := 120
  const LBRACE: byte := 123
  const RBRACE: byte := 125

  /** The largest number an int of 32 bits holds. */
  const INT_MAX: nat := 0x7FFF_FFFF

  /** The bytes of a text in ASCII. */
  function Ascii(s: string): (r: seq<byte>)
    ensures |r| == |s|
    ensures forall i {:trigger r[i]} {:trigger s[i]} :: 0 <= i < |s| ==> r[i] == s[i] as int % 256
  {
    seq(|s|, i requires 0 <= i < |s| => s[i] as int % 256)
  }

  predicate IsDigit(b: byte) { 48 <= b <= 57 }

  /** The bytes that decimal numerals are made of, with exponents. */
  predicate IsNumeral(b: byte) {
    IsDigit(b) || b == PLUS || b == MINUS || b == 69 || b == 101 || b == DOT
  }

  function Max(a: nat, b: nat): nat { if a < b then b else a }

  function Last<T>(s: seq<T>): T
    requires s != []
  {
    s[|s| - 1]
  }

  function ButLast<T>(s: seq<T>): seq<T>
    requires s != []
  {
    s[..|s| - 1]
  }

  /** What has been written in front of what is still to come, if nothing goes wrong there. */
  function Keep(a: seq<byte>, r: Option<seq<byte>>): Option<seq<byte>> {
    if r.Some? then Some(a + r.value) else None
  }

  lemma KeepConcat(a: seq<byte>, b: seq<byte>, r: Option<seq<byte>>)
    ensures Keep(a, Keep(b, r)) == Keep(a + b, r)
  {
    if r.Some? {
      Joined(a, b, r.value);
    }
  }

  lemma KeepNothing(r: Option<seq<byte>>)
    ensures Keep([], r) == r
  {
    if r.Some? {
      assert [] + r.value == r.value;
    }
  }

  /** The bytes hold no terminator, so they are the content of a C string. */
  ghost predicate NulFree(s: seq<byte>) {
    forall i :: 0 <= i < |s| ==> s[i] != NUL
  }

  lemma NulFreeConcat(a: seq<byte>, b: seq<byte>)
    requires NulFree(a) && NulFree(b)
    ensures NulFree(a + b)
  {
  }

  /** A buffer whose last byte is the terminator, as strlen + 1 bytes of a C string are. */
  ghost predicate Terminated(t: seq<byte>) {
    0 < |t| && t[|t| - 1] == NUL
  }

  /** `s` stands in `t` at position `i`. */
  ghost predicate At(t: seq<byte>, i: nat, s: seq<byte>) {
    i + |s| <= |t| && t[i..i + |s|] == s
  }

  lemma AtConcat(t: seq<byte>, i: nat, a: seq<byte>, b: seq<byte>)
    requires At(t, i, a + b)
    ensures At(t, i, a) && At(t, i + |a|, b) && i + |a| + |b| <= |t|
  {
    var w := t[i..i + |a + b|];
    assert w[..|a|] == a && w[|a|..] == b;
    assert t[i..i + |a|] == w[..|a|];
    assert t[i + |a|..i + |a| + |b|] == w[|a|..];
  }

  lemma AtJoin(t: seq<byte>, i: nat, a: seq<byte>, b: seq<byte>)
    requires At(t, i, a) && At(t, i + |a|, b)
    ensures At(t, i, a + b)
  {
    assert t[i..i + |a + b|] == t[i..i + |a|] + t[i + |a|..i + |a| + |b|];
  }

  /** Pieces that are joined the other way round stand at the same place. */
  lemma Joined(a: seq<byte>, b: seq<byte>, c: seq<byte>)
    ensures (a + b) + c == a + (b + c)
  {
  }

  lemma AtIndex(t: seq<byte>, i: nat, s: seq<byte>, k: nat)
    requires At(t, i, s) && k < |s|
    ensures i + |s| <= |t| && t[i + k] == s[k]
  {
    assert t[i..i + |s|][k] == s[k];
  }

  /** The part of `s` a C function sees: everything before the first terminator. */
  function CString(s: seq<byte>): (r: seq<byte>)
    ensures |r| <= |s| && s[..|r|] == r && NulFree(r)
    ensures |r| < |s| ==> s[|r|] == NUL
  {
    if s == [] || s[0] == NUL then [] else
      var rest := CString(s[1..]);
      assert s[..1 + |rest|] == [s[0]] + s[1..][..|rest|];
      [s[0]] + rest
  }

  lemma CStringOfNulFree(s: seq<byte>)
    requires NulFree(s)
    ensures CString(s) == s
  {
    var r := CString(s);
    assert |r| == |s|;
    assert s[..|r|] == s;
  }
}

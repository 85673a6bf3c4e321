/**
 Code points, their UTF-16 form (RFC 2781) and their UTF-8 form (RFC 3629), and the two
 writers of the repository: the decoder of JSON escapes and the command line's code point appender.
 */
module Unicode {
  import opened Bytes
  import Bits

  // ---------------------------------------------------------------- reference definitions

  predicate IsScalar(c: nat) {
    c < 0xD800 || 0xDFFF < c <= 0x10FFFF
  }

  /** Section 3 of RFC 3629, read as arithmetic on groups of six bits. */
  function Utf8(c: nat): (r: seq<byte>)
    requires c <= 0x10FFFF
    ensures 1 <= |r| <= 4
  {
    if c < 0x80 then [c]
    else if c < 0x800 then [0xC0 + c / 64, 0x80 + c % 64]
    else if c < 0x10000 then [0xE0 + c / 64 / 64, 0x80 + c / 64 % 64, 0x80 + c % 64]
    else [0xF0 + c / 64 / 64 / 64, 0x80 + c / 64 / 64 % 64, 0x80 + c / 64 % 64, 0x80 + c % 64]
  }

  predicate IsTrail(b: byte) { 0x80 <= b < 0xC0 }

  /**
   Section 3 of RFC 3629, the other way: the first code point of `s` and its length, if `s` begins with a
   well-formed encoding: not overlong, no surrogate, nothing beyond Unicode.
   */
  function DecodeUtf8(s: seq<byte>): Option<(nat, nat)> {
    if s == [] then None
    else if s[0] < 0x80 then Some((s[0], 1))
    else if |s| >= 2 && 0xC2 <= s[0] < 0xE0 && IsTrail(s[1]) then
      var c: nat := (s[0] as int - 0xC0) * 64 + s[1] % 64;
      Some((c, 2))
    else if |s| >= 3 && 0xE0 <= s[0] < 0xF0 && IsTrail(s[1]) && IsTrail(s[2]) then
      var c: nat := ((s[0] as int - 0xE0) * 64 + s[1] % 64) * 64 + s[2] % 64;
      if c >= 0x800 && IsScalar(c) then Some((c, 3)) else None
    else if |s| >= 4 && 0xF0 <= s[0] < 0xF5 && IsTrail(s[1]) && IsTrail(s[2]) && IsTrail(s[3]) then
      var c: nat := (((s[0] as int - 0xF0) * 64 + s[1] % 64) * 64 + s[2] % 64) * 64 + s[3] % 64;
      if 0x10000 <= c <= 0x10FFFF then Some((c, 4)) else None
    else None
  }

  /** The examples of section 7 of RFC 3629. */
  lemma Utf8Examples()
    ensures Utf8(0x41) == [0x41]
    ensures Utf8(0x2262) == [0xE2, 0x89, 0xA2] && Utf8(0x0391) == [0xCE, 0x91]
    ensures Utf8(0xD55C) == [0xED, 0x95, 0x9C] && Utf8(0x65E5) == [0xE6, 0x97, 0xA5]
    ensures Utf8(0x233B4) == [0xF0, 0xA3, 0x8E, 0xB4]
  {
  }

  /** A code point is decoded from its encoding exactly when it is a scalar value. */
  lemma Utf8RoundTrip(c: nat, rest: seq<byte>)
    requires c <= 0x10FFFF
    ensures DecodeUtf8(Utf8(c) + rest) == if IsScalar(c) then Some((c, |Utf8(c)|)) else None
  {
    hide DecodeUtf8;
    if c < 0x80 {
      DecodesOne(Utf8(c) + rest);
    } else if c < 0x800 {
      DecodesTwo(Utf8(c) + rest, c);
    } else if c < 0x10000 {
      DecodesThree(Utf8(c) + rest, c);
    } else {
      DecodesFour(Utf8(c) + rest, c);
    }
  }

  lemma DecodesOne(s: seq<byte>)
    requires s != [] && s[0] < 0x80
    ensures DecodeUtf8(s) == Some((s[0] as nat, 1))
  {
  }

  lemma DecodesTwo(s: seq<byte>, c: nat)
    requires 0x80 <= c < 0x800 && |s| >= 2 && s[0] == 0xC0 + c / 64 && s[1] == 0x80 + c % 64
    ensures DecodeUtf8(s) == Some((c, 2))
  {
    TrailBits(c);
  }

  lemma DecodesThree(s: seq<byte>, c: nat)
    requires 0x800 <= c < 0x10000 && |s| >= 3
    requires s[0] == 0xE0 + c / 64 / 64 && s[1] == 0x80 + c / 64 % 64 && s[2] == 0x80 + c % 64
    ensures DecodeUtf8(s) == if IsScalar(c) then Some((c, 3)) else None
  {
    TrailBits(c);
    TrailBits(c / 64);
    assert ((s[0] as int - 0xE0) * 64 + s[1] % 64) * 64 + s[2] % 64 == c;
  }

  lemma DecodesFour(s: seq<byte>, c: nat)
    requires 0x10000 <= c <= 0x10FFFF && |s| >= 4
    requires s[0] == 0xF0 + c / 64 / 64 / 64 && s[1] == 0x80 + c / 64 / 64 % 64
    requires s[2] == 0x80 + c / 64 % 64 && s[3] == 0x80 + c % 64
    ensures DecodeUtf8(s) == Some((c, 4))
  {
    TrailBits(c);
    TrailBits(c / 64);
    TrailBits(c / 64 / 64);
    assert (((s[0] as int - 0xF0) * 64 + s[1] % 64) * 64 + s[2] % 64) * 64 + s[3] % 64 == c;
  }

  /** Nothing but the encoding of a code point is decoded to it. */
  lemma Utf8Unique(s: seq<byte>)
    ensures DecodeUtf8(s).Some? ==> var (c, n) := DecodeUtf8(s).value;
      IsScalar(c) && n <= |s| && s[..n] == Utf8(c)
  {
    hide Utf8;
    if DecodeUtf8(s).Some? {
      var (c, n) := DecodeUtf8(s).value;
      if n == 1 {
        EncodesOne(s[0]);
      } else if n == 2 {
        EncodesTwo(s[0] as int - 0xC0, s[1]);
      } else if n == 3 {
        EncodesThree(s[0] as int - 0xE0, s[1], s[2]);
      } else {
        EncodesFour(s[0] as int - 0xF0, s[1], s[2], s[3]);
      }
    }
  }

  lemma EncodesOne(b: byte)
    requires b < 0x80
    ensures Utf8(b) == [b]
  {
  }

  lemma EncodesTwo(high: nat, b1: byte)
    requires 2 <= high < 0x20 && IsTrail(b1)
    ensures Utf8(high * 64 + b1 % 64) == [0xC0 + high, b1]
  {
    Sextet(high, b1);
  }

  lemma EncodesThree(high: nat, b1: byte, b2: byte)
    requires high < 0x10 && IsTrail(b1) && IsTrail(b2) && (high * 64 + b1 % 64) * 64 + b2 % 64 >= 0x800
    ensures (high * 64 + b1 % 64) * 64 + b2 % 64 <= 0xFFFF
    ensures Utf8((high * 64 + b1 % 64) * 64 + b2 % 64) == [0xE0 + high, b1, b2]
  {
    Sextet(high, b1);
    Sextet(high * 64 + b1 % 64, b2);
  }

  lemma EncodesFour(high: nat, b1: byte, b2: byte, b3: byte)
    requires high < 5 && IsTrail(b1) && IsTrail(b2) && IsTrail(b3)
    requires 0x10000 <= ((high * 64 + b1 % 64) * 64 + b2 % 64) * 64 + b3 % 64 <= 0x10FFFF
    ensures Utf8(((high * 64 + b1 % 64) * 64 + b2 % 64) * 64 + b3 % 64) == [0xF0 + high, b1, b2, b3]
  {
    Sextet(high, b1);
    Sextet(high * 64 + b1 % 64, b2);
    Sextet((high * 64 + b1 % 64) * 64 + b2 % 64, b3);
  }

  lemma Sextet(high: nat, b: byte)
    requires IsTrail(b)
    ensures (high * 64 + b % 64) / 64 == high && (high * 64 + b % 64) % 64 == b % 64 && b == 0x80 + b % 64
  {
  }

  lemma TrailBits(x: nat)
    ensures (0x80 + x % 64) % 64 == x % 64 && x == 64 * (x / 64) + x % 64
  {
  }

  predicate IsHighSurrogate(w: nat) { 0xD800 <= w <= 0xDBFF }

  predicate IsLowSurrogate(w: nat) { 0xDC00 <= w <= 0xDFFF }

  /** Section 2.2 of RFC 2781: one code point from a first unit and, if there is one, a second. */
  function DecodeUtf16(w1: nat, w2: Option<nat>): (r: Option<nat>)
    requires w1 <= 0xFFFF
    ensures r.Some? ==> IsScalar(r.value)
  {
    if w1 < 0xD800 || w1 > 0xDFFF then Some(w1)
    else if !IsHighSurrogate(w1) then None
    else if w2.None? || !IsLowSurrogate(w2.value) then None
    else Some(0x10000 + (w1 - 0xD800) * 0x400 + (w2.value - 0xDC00))
  }

  /** Section 2.1 of RFC 2781. */
  function EncodeUtf16(c: nat): (r: (nat, Option<nat>))
    requires IsScalar(c)
    ensures r.0 <= 0xFFFF
    ensures DecodeUtf16(r.0, r.1) == Some(c)
  {
    if c < 0x10000 then (c, None)
    else (0xD800 + (c - 0x10000) / 0x400, Some(0xDC00 + (c - 0x10000) % 0x400))
  }

  // ---------------------------------------------------------------- hexadecimal digits

  function HexDigit(b: byte): (r: Option<nat>)
    ensures r.Some? ==> r.value < 16
  {
    if 48 <= b <= 57 then Some(b - 48)
    else if 65 <= b <= 70 then Some(b - 55)
    else if 97 <= b <= 102 then Some(b - 87)
    else None
  }

  /** The value of n hexadecimal digits at position p, when they all are digits. */
  function HexValue(t: seq<byte>, p: nat, n: nat): (r: Option<nat>)
    requires p + n <= |t|
    ensures r.Some? ==> r.value < Bits.Pow2(4 * n)
  {
    if n == 0 then Some(0)
    else
      var high := HexValue(t, p, n - 1);
      var low := HexDigit(t[p + n - 1]);
      assert Bits.Pow2(4 * n) == 16 * Bits.Pow2(4 * (n - 1)) by { PowStep(4 * (n - 1)); }
      if high.None? || low.None? then None else Some(16 * high.value + low.value)
  }

  lemma PowStep(k: nat)
    ensures Bits.Pow2(k + 4) == 16 * Bits.Pow2(k)
  {
    assert Bits.Pow2(k + 2) == 2 * Bits.Pow2(k + 1) == 4 * Bits.Pow2(k);
    assert Bits.Pow2(k + 4) == 2 * Bits.Pow2(k + 3) == 4 * Bits.Pow2(k + 2);
  }

  /** Lower case hexadecimal digit, as printf's %x writes it. */
  function HexChar(v: nat): (b: byte)
    requires v < 16
    ensures HexDigit(b) == Some(v) && b > 47
  {
    if v < 10 then 48 + v else 87 + v
  }

  /** What the four-digit reader answers: zero as soon as one digit is malformed. */
  function Hex4(t: seq<byte>, p: nat): (r: nat)
    requires p + 4 <= |t|
    ensures r <= 0xFFFF
  {
    var v := HexValue(t, p, 4);
    assert Bits.Pow2(16) == 65536 by { PowStep(0); PowStep(4); PowStep(8); PowStep(12); }
    if v.Some? then v.value else 0
  }

  lemma HexPrefix(t: seq<byte>, p: nat, k: nat, n: nat)
    requires k <= n && p + n <= |t|
    requires HexValue(t, p, k).None?
    ensures HexValue(t, p, n).None?
  {
  }

  method ParseHex4(t: seq<byte>, p: nat) returns (h: nat)
    requires p + 4 <= |t|
    ensures h == Hex4(t, p)
  {
    h := 0;
    var i := 0;
    while i < 4
      invariant i <= 4
      invariant HexValue(t, p, i).Some?
      invariant h == HexValue(t, p, i).value * (if i == 0 || i == 4 then 1 else 16)
    {
      var b := t[p + i];
      if IsDigit(b) {
        h := h + (b - 48);
      } else if 65 <= b <= 70 {
        h := h + 10 + (b - 65);
      } else if 97 <= b <= 102 {
        h := h + 10 + (b - 97);
      } else {
        HexPrefix(t, p, i + 1, 4);
        return 0;
      }
      if i < 3 {
        h := Bits.ShiftLeft(h, 4);
      }
      i := i + 1;
    }
  }

  // ---------------------------------------------------------------- escapes \uXXXX in JSON text

  /** The code point of the escape at p in a literal that ends at e, and how long the escape is. */
  function ReadLiteral(t: seq<byte>, p: nat, e: nat): (r: Option<(nat, nat)>)
    requires p <= e <= |t|
    ensures r.Some? ==> IsScalar(r.value.0) && (r.value.1 == 6 || r.value.1 == 12) && p + r.value.1 <= e
    ensures r.Some? && r.value.1 == 6 ==> r.value.0 <= 0xFFFF
  {
    if e - p < 6 then None else
      var w1 := Hex4(t, p + 2);
      if !IsHighSurrogate(w1) then
        var c := DecodeUtf16(w1, None);
        if c.None? then None else Some((c.value, 6))
      else if e - p < 12 || t[p + 6] != BACKSLASH || t[p + 7] != LOWER_U then None
      else
        var c := DecodeUtf16(w1, Some(Hex4(t, p + 8)));
        if c.None? then None else Some((c.value, 12))
  }

  /** Every scalar value is what the reader answers for its RFC 2781 units, written as escapes. */
  lemma ReadsEveryScalar(c: nat, t: seq<byte>, p: nat, e: nat)
    requires IsScalar(c) && p <= e <= |t|
    requires var u := EncodeUtf16(c); var n := if u.1.Some? then 12 else 6;
      && p + n <= e && HexValue(t, p + 2, 4) == Some(u.0)
      && (u.1.Some? ==> t[p + 6] == BACKSLASH && t[p + 7] == LOWER_U && HexValue(t, p + 8, 4) == u.1)
    ensures ReadLiteral(t, p, e) == Some((c, if c < 0x10000 then 6 else 12))
  {
  }

  /** A surrogate without its other half is refused. */
  lemma RefusesLoneSurrogate(t: seq<byte>, p: nat, e: nat)
    requires p <= e <= |t| && p + 6 <= e
    requires IsLowSurrogate(Hex4(t, p + 2)) || (IsHighSurrogate(Hex4(t, p + 2)) &&
      (p + 12 > e || t[p + 6] != BACKSLASH || t[p + 7] != LOWER_U || !IsLowSurrogate(Hex4(t, p + 8))))
    ensures ReadLiteral(t, p, e).None?
  {
  }

  /** The value left after n groups of six bits have been shifted out. */
  function Sextets(c: nat, n: nat): nat {
    if n == 0 then c else Sextets(c, n - 1) / 64
  }

  function Mark(n: nat): byte {
    if n == 1 then 0 else if n == 2 then 0xC0 else if n == 3 then 0xE0 else 0xF0
  }

  lemma SextetStep(c: nat, n: nat)
    ensures Sextets(c, 0) == c && Sextets(c, n + 1) == Sextets(c, n) / 64
  {
  }

  lemma MarkValues()
    ensures Mark(1) == 0 && Mark(2) == 0xC0 && Mark(3) == 0xE0 && Mark(4) == 0xF0
  {
  }

  lemma Utf8Bytes(c: nat)
    requires c <= 0x10FFFF
    ensures |Utf8(c)| == if c < 0x80 then 1 else if c < 0x800 then 2 else if c < 0x10000 then 3 else 4
    ensures var n := |Utf8(c)|; Utf8(c)[0] == Mark(n) + Sextets(c, n - 1)
    ensures var n := |Utf8(c)|; forall k :: 1 <= k < n ==> Utf8(c)[k] == 0x80 + Sextets(c, n - 1 - k) % 64
  {
    assert Sextets(c, 1) == c / 64;
    assert Sextets(c, 2) == c / 64 / 64;
    assert Sextets(c, 3) == c / 64 / 64 / 64;
  }

  lemma ShiftSextet(c: nat)
    ensures Bits.ShiftRight(c, 6) == c / 64
  {
    assert Bits.ShiftRight(c, 6) == Bits.ShiftRight(c / 2, 5) == Bits.ShiftRight(c / 4, 4);
    assert Bits.ShiftRight(c / 4, 4) == Bits.ShiftRight(c / 8, 3) == Bits.ShiftRight(c / 16, 2);
    assert Bits.ShiftRight(c / 16, 2) == Bits.ShiftRight(c / 32, 1) == Bits.ShiftRight(c / 64, 0);
  }

  /** `(c | 0x80) & 0xBF`, narrowed to a byte. */
  lemma TrailByte(c: nat)
    ensures Bits.And(Bits.Or(c, 0x80), 0xBF) % 256 == 0x80 + c % 64
  {
    hide Bits.And, Bits.Or;
    Bits.SmallPowers();
    Bits.TrailMask(c, 6, 64);
  }

  /** `(c | mark) & 0xFF`, when c leaves the bits of the mark alone. */
  lemma LeadByte(c: nat, mark: nat, k: nat)
    requires (k == 3 && mark == 0xF0) || (k == 4 && mark == 0xE0) || (k == 5 && mark == 0xC0)
    requires c < Bits.Pow2(k)
    ensures Bits.And(Bits.Or(c, mark), 0xFF) == mark + c
    ensures Bits.Or(mark, c) == mark + c
  {
    hide Bits.And, Bits.Or, Bits.Pow2;
    Bits.SmallPowers();
    if k == 3 {
      Bits.OrDisjoint(c, 30, 3, 8);
    } else if k == 4 {
      Bits.OrDisjoint(c, 14, 4, 16);
    } else {
      Bits.OrDisjoint(c, 6, 5, 32);
    }
    Bits.AndLowMask(mark + c, 8, 256);
  }

  lemma LeadFits(c: nat)
    requires 0x80 <= c <= 0x10FFFF
    ensures var n := |Utf8(c)|; Sextets(c, n - 1) < Bits.Pow2(7 - n)
  {
    Bits.SmallPowers();
    Utf8Bytes(c);
    assert Sextets(c, 1) == c / 64;
    assert Sextets(c, 2) == c / 64 / 64;
    assert Sextets(c, 3) == c / 64 / 64 / 64;
  }

  /** The trailing bytes of an encoding, last one first; what is left of the code point goes into the lead byte. */
  method WriteTrail(codepoint: nat, n: nat, output: array<byte>, o: nat) returns (c: nat)
    requires codepoint <= 0x10FFFF && n == |Utf8(codepoint)| && o + n <= output.Length
    modifies output
    ensures c == Sextets(codepoint, n - 1)
    ensures forall k :: 1 <= k < n ==> output[o + k] == Utf8(codepoint)[k]
    ensures forall k :: 0 <= k < output.Length && !(o < k < o + n) ==> output[k] == old(output[k])
  {
    hide *;
    Utf8Bytes(codepoint);
    SextetStep(codepoint, 0);
    c := codepoint;
    var position := n - 1;
    while position > 0
      invariant 0 <= position < n
      invariant c == Sextets(codepoint, n - 1 - position)
      invariant forall k :: 0 <= k < output.Length && !(o + position < k < o + n) ==> output[k] == old(output[k])
      invariant forall k :: position < k < n ==> output[o + k] == Utf8(codepoint)[k]
    {
      TrailByte(c);
      output[o + position] := Bits.And(Bits.Or(c, 0x80), 0xBF) % 256;
      ShiftSextet(c);
      SextetStep(codepoint, n - 1 - position);
      c := Bits.ShiftRight(c, 6);
      position := position - 1;
    }
  }

  /** The lead byte of an encoding of n bytes. */
  method LeadOf(codepoint: nat, n: nat, mark: nat, c: nat) returns (b: byte)
    requires codepoint <= 0x10FFFF && n == |Utf8(codepoint)| && c == Sextets(codepoint, n - 1) && mark == Mark(n)
    ensures b == Utf8(codepoint)[0]
  {
    hide *;
    Utf8Bytes(codepoint);
    MarkValues();
    Bits.SmallPowers();
    if n > 1 {
      LeadFits(codepoint);
      LeadByte(c, mark, 7 - n);
      b := Bits.And(Bits.Or(c, mark), 0xFF);
    } else {
      SextetStep(codepoint, 0);
      Bits.AndLowMask(c, 7, 128);
      b := Bits.And(c, 0x7F);
    }
  }

  /** The UTF-8 form of a code point, written at `output[o..]`. */
  method EncodeInto(codepoint: nat, output: array<byte>, o: nat) returns (n: nat)
    requires codepoint <= 0x10FFFF && o + |Utf8(codepoint)| <= output.Length
    modifies output
    ensures n == |Utf8(codepoint)|
    ensures output[o..o + n] == Utf8(codepoint)
    ensures forall k :: 0 <= k < output.Length && !(o <= k < o + n) ==> output[k] == old(output[k])
  {
    hide *;
    Utf8Bytes(codepoint);
    MarkValues();
    var mark := 0;
    if codepoint < 0x80 {
      n := 1;
    } else if codepoint < 0x800 {
      n, mark := 2, 0xC0;
    } else if codepoint < 0x10000 {
      n, mark := 3, 0xE0;
    } else {
      n, mark := 4, 0xF0;
    }
    var c := WriteTrail(codepoint, n, output, o);
    output[o] := LeadOf(codepoint, n, mark, c);
    assert forall k :: 0 <= k < n ==> output[o + k] == Utf8(codepoint)[k];
  }

  lemma CombineSurrogates(w1: nat, w2: nat)
    requires IsHighSurrogate(w1) && IsLowSurrogate(w2)
    ensures Bits.Or(Bits.ShiftLeft(Bits.And(w1, 0x3FF), 10), Bits.And(w2, 0x3FF))
         == (w1 - 0xD800) * 0x400 + (w2 - 0xDC00)
  {
    hide Bits.And, Bits.Or, Bits.ShiftLeft;
    Bits.SmallPowers();
    Bits.AndLowMask(w1, 10, 0x400);
    Bits.AndLowMask(w2, 10, 0x400);
    ShiftLeftTen(w1 - 0xD800);
    Bits.OrDisjoint(w2 - 0xDC00, w1 - 0xD800, 10, 0x400);
  }

  lemma ShiftLeftTen(a: nat)
    ensures Bits.ShiftLeft(a, 10) == a * 0x400
  {
    assert Bits.ShiftLeft(4 * a, 8) == Bits.ShiftLeft(8 * a, 7);
    assert Bits.ShiftLeft(8 * a, 7) == Bits.ShiftLeft(16 * a, 6);
    assert Bits.ShiftLeft(16 * a, 6) == Bits.ShiftLeft(32 * a, 5) == Bits.ShiftLeft(64 * a, 4);
    assert Bits.ShiftLeft(64 * a, 4) == Bits.ShiftLeft(128 * a, 3);
    assert Bits.ShiftLeft(128 * a, 3) == Bits.ShiftLeft(256 * a, 2) == Bits.ShiftLeft(512 * a, 1);
  }

  /** The code point of the escape at p and the length of the escape, 0 on failure. */
  method ReadUtf16(t: seq<byte>, p: nat, e: nat) returns (length: nat, codepoint: nat)
    requires p <= e <= |t|
    ensures ReadLiteral(t, p, e) == if length == 0 then None else Some((codepoint, length))
  {
    hide Bits.And, Bits.Or, Bits.ShiftLeft, Hex4;
    if e - p < 6 {
      return 0, 0;
    }
    var first := ParseHex4(t, p + 2);
    if 0xDC00 <= first <= 0xDFFF {
      return 0, 0;
    }
    if 0xD800 <= first <= 0xDBFF {
      if e - (p + 6) < 6 {
        return 0, 0;
      }
      if t[p + 6] != BACKSLASH || t[p + 7] != LOWER_U {
        return 0, 0;
      }
      var second := ParseHex4(t, p + 8);
      if second < 0xDC00 || second > 0xDFFF {
        return 0, 0;
      }
      CombineSurrogates(first, second);
      return 12, 0x10000 + Bits.Or(Bits.ShiftLeft(Bits.And(first, 0x3FF), 10), Bits.And(second, 0x3FF));
    }
    return 6, first;
  }

  /**
   Converts the escape at p to UTF-8 at `output[o..]`; the answer is its length in the text, 0 on failure.
   Nothing is written on failure, and no byte outside the encoding of the code point is touched.
   */
  method Utf16LiteralToUtf8(t: seq<byte>, p: nat, e: nat, output: array<byte>, o: nat)
    returns (length: nat, written: nat)
    requires p <= e <= |t|
    requires ReadLiteral(t, p, e).Some? ==> o + |Utf8(ReadLiteral(t, p, e).value.0)| <= output.Length
    modifies output
    ensures ReadLiteral(t, p, e).None? ==> length == 0 && written == 0
    ensures ReadLiteral(t, p, e).Some? ==>
      && var r := ReadLiteral(t, p, e).value;
      && length == r.1 && written == |Utf8(r.0)| && o + written <= output.Length
      && output[o..o + written] == Utf8(r.0)
    ensures forall k :: 0 <= k < output.Length && !(o <= k < o + written) ==> output[k] == old(output[k])
  {
    hide Utf8, ReadLiteral, Hex4;
    var codepoint;
    length, codepoint := ReadUtf16(t, p, e);
    written := 0;
    if length != 0 {
      written := EncodeInto(codepoint, output, o);
    }
  }

  // ---------------------------------------------------------------- the command line's appender

  /** What appending a code point yields: nothing past the Unicode range, None for the exception. */
  function Appended(s: seq<byte>, code: nat): Option<seq<byte>> {
    if IsScalar(code) then Some(s + Utf8(code))
    else if code <= 0xDFFF then None
    else Some(s)
  }

  /** `0x80 | (c & 0x3F)`, narrowed to a byte. */
  lemma TrailByteOr(c: nat)
    ensures Bits.Or(0x80, Bits.And(c, 0x3F)) % 256 == 0x80 + c % 64
  {
    hide Bits.And, Bits.Or;
    Bits.SmallPowers();
    Bits.AndLowMask(c, 6, 64);
    Bits.OrDisjoint(c % 64, 2, 6, 64);
  }

  lemma ShiftTwelve(c: nat)
    ensures Bits.ShiftRight(c, 12) == c / 64 / 64
    ensures Bits.ShiftRight(c, 18) == c / 64 / 64 / 64
  {
    ShiftRightBy(c, 6, 6);
    ShiftRightBy(c, 12, 6);
    ShiftSextet(c);
    ShiftSextet(c / 64);
    ShiftSextet(c / 64 / 64);
  }

  lemma {:induction false} ShiftRightBy(c: nat, j: nat, k: nat)
    ensures Bits.ShiftRight(c, j + k) == Bits.ShiftRight(Bits.ShiftRight(c, j), k)
    decreases j
  {
    if j > 0 {
      ShiftRightBy(c / 2, j - 1, k);
    }
  }

  lemma AppendsTwo(c: nat)
    requires 0x80 <= c < 0x800
    ensures Utf8(c) == [Bits.Or(0xC0, Bits.ShiftRight(c, 6)) % 256, Bits.Or(0x80, Bits.And(c, 0x3F)) % 256]
  {
    hide Bits.And, Bits.Or, Bits.ShiftRight;
    Bits.SmallPowers();
    ShiftSextet(c);
    LeadByte(c / 64, 0xC0, 5);
    TrailByteOr(c);
  }

  lemma AppendsThree(c: nat)
    requires 0x800 <= c < 0x10000
    ensures Utf8(c) == [Bits.Or(0xE0, Bits.ShiftRight(c, 12)) % 256,
      Bits.Or(0x80, Bits.And(Bits.ShiftRight(c, 6), 0x3F)) % 256, Bits.Or(0x80, Bits.And(c, 0x3F)) % 256]
  {
    hide Bits.And, Bits.Or, Bits.ShiftRight;
    Bits.SmallPowers();
    ShiftSextet(c);
    ShiftTwelve(c);
    LeadByte(c / 64 / 64, 0xE0, 4);
    TrailByteOr(c / 64);
    TrailByteOr(c);
  }

  lemma AppendsFour(c: nat)
    requires 0x10000 <= c <= 0x10FFFF
    ensures Utf8(c) == [Bits.Or(0xF0, Bits.ShiftRight(c, 18)) % 256,
      Bits.Or(0x80, Bits.And(Bits.ShiftRight(c, 12), 0x3F)) % 256,
      Bits.Or(0x80, Bits.And(Bits.ShiftRight(c, 6), 0x3F)) % 256, Bits.Or(0x80, Bits.And(c, 0x3F)) % 256]
  {
    hide Bits.And, Bits.Or, Bits.ShiftRight;
    Bits.SmallPowers();
    ShiftSextet(c);
    ShiftTwelve(c);
    LeadByte(c / 64 / 64 / 64, 0xF0, 3);
    TrailByteOr(c / 64 / 64);
    TrailByteOr(c / 64);
    TrailByteOr(c);
  }

  /** The appender writes, for every scalar value, the very bytes of the JSON decoder. */
  method AppendCodepoint(str: seq<byte>, code: nat) returns (r: Option<seq<byte>>)
    ensures r == Appended(str, code)
  {
    hide Bits.And, Bits.Or, Bits.ShiftRight;
    var s := str;
    if code < 0x80 {
      s := s + [code];
    } else if code < 0x800 {
      AppendsTwo(code);
      s := s + [Bits.Or(0xC0, Bits.ShiftRight(code, 6)) % 256];
      s := s + [Bits.Or(0x80, Bits.And(code, 0x3F)) % 256];
    } else if code < 0x10000 {
      if 0xD800 <= code <= 0xDFFF {
        return None;
      }
      AppendsThree(code);
      s := s + [Bits.Or(0xE0, Bits.ShiftRight(code, 12)) % 256];
      s := s + [Bits.Or(0x80, Bits.And(Bits.ShiftRight(code, 6), 0x3F)) % 256];
      s := s + [Bits.Or(0x80, Bits.And(code, 0x3F)) % 256];
    } else if code < 0x110000 {
      AppendsFour(code);
      s := s + [Bits.Or(0xF0, Bits.ShiftRight(code, 18)) % 256];
      s := s + [Bits.Or(0x80, Bits.And(Bits.ShiftRight(code, 12), 0x3F)) % 256];
      s := s + [Bits.Or(0x80, Bits.And(Bits.ShiftRight(code, 6), 0x3F)) % 256];
      s := s + [Bits.Or(0x80, Bits.And(code, 0x3F)) % 256];
    }
    assert IsScalar(code) ==> s == str + Utf8(code);
    return Some(s);
  }
}

/** Hexadecimal digits as they are written: the sixteen capital and the sixteen small ones, and no others. */
module HexText {
  import opened Bytes
  import opened Unicode

  const CAPITALS: seq<byte> := [48, 49, 50, 51, 52, 53, 54, 55, 56, 57, 65, 66, 67, 68, 69, 70]
  const SMALLS: seq<byte> := [48, 49, 50, 51, 52, 53, 54, 55, 56, 57, 97, 98, 99, 100, 101, 102]

  lemma DigitsSpelled()
    ensures CAPITALS == Ascii("0123456789ABCDEF") && SMALLS == Ascii("0123456789abcdef")
  {
  }

  /** The digits spell the number, the most significant one first, each in either case. */
  ghost predicate Spells(digits: seq<byte>, v: nat)
    decreases |digits|
  {
    if digits == [] then v == 0
    else
      && (Last(digits) == CAPITALS[v % 16] || Last(digits) == SMALLS[v % 16])
      && Spells(ButLast(digits), v / 16)
  }

  lemma DigitSpelled(b: byte, v: nat)
    ensures HexDigit(b) == Some(v) <==> v < 16 && (b == CAPITALS[v] || b == SMALLS[v])
  {
    if v < 16 {
      assert v == 0 || v == 1 || v == 2 || v == 3 || v == 4 || v == 5 || v == 6 || v == 7
        || v == 8 || v == 9 || v == 10 || v == 11 || v == 12 || v == 13 || v == 14 || v == 15;
    }
  }

  lemma HexStep(t: seq<byte>, p: nat, n: nat, v: nat)
    requires 0 < n && p + n <= |t|
    ensures HexValue(t, p, n) == Some(v) <==>
      HexValue(t, p, n - 1) == Some(v / 16) && HexDigit(t[p + n - 1]) == Some(v % 16)
  {
    hide HexDigit;
    var high, low := HexValue(t, p, n - 1), HexDigit(t[p + n - 1]);
    if high.Some? && low.Some? {
      assert HexValue(t, p, n) == Some(16 * high.value + low.value);
      Quotient(high.value, low.value);
    }
  }

  lemma Quotient(high: nat, low: nat)
    requires low < 16
    ensures (16 * high + low) / 16 == high && (16 * high + low) % 16 == low
  {
  }

  /** Digits are read as the number they spell, and anything else as no number. */
  lemma {:induction false} ReadsSpelled(t: seq<byte>, p: nat, n: nat, v: nat)
    requires p + n <= |t|
    ensures HexValue(t, p, n) == Some(v) <==> Spells(t[p..p + n], v)
    decreases n
  {
    var d := t[p..p + n];
    if n > 0 {
      hide HexValue, HexDigit;
      assert ButLast(d) == t[p..p + n - 1] && Last(d) == t[p + n - 1];
      HexStep(t, p, n, v);
      ReadsSpelled(t, p, n - 1, v / 16);
      DigitSpelled(t[p + n - 1], v % 16);
    }
  }

  /** What the reader of four digits makes of them: 0 when they spell nothing. */
  ghost predicate Means(digits: seq<byte>, v: nat) {
    Spells(digits, v) || (v == 0 && forall w: nat :: !Spells(digits, w))
  }

  lemma FourDigits(t: seq<byte>, p: nat, n: nat)
    requires p + n <= |t| && n == 4
    ensures Hex4(t, p) == if HexValue(t, p, n).Some? then HexValue(t, p, n).value else 0
  {
  }

  lemma ReadsMeaning(t: seq<byte>, p: nat, n: nat, v: nat)
    requires p + n <= |t| && n == 4
    ensures Hex4(t, p) == v <==> Means(t[p..p + n], v)
  {
    hide HexValue, Hex4, Spells;
    FourDigits(t, p, n);
    var d := t[p..p + n];
    ReadsSpelled(t, p, n, v);
    if HexValue(t, p, n).Some? {
      ReadsSpelled(t, p, n, HexValue(t, p, n).value);
    } else {
      forall w: nat ensures !Spells(d, w) {
        ReadsSpelled(t, p, n, w);
      }
    }
  }
}

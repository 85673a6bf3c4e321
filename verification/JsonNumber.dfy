/** Numbers in JSON text: the decimal form of an integer and the reading of a numeral. */
module JsonNumber {
  import opened Bytes
  import opened JsonValue

  // ---------------------------------------------------------------- writing

  function Digits(n: nat): (r: seq<byte>)
    ensures |r| > 0 && AllDigits(r)
  {
    if n < 10 then [48 + n] else Digits(n / 10) + [48 + n % 10]
  }

  /** What `%1.15g` prints for an integer of at most fifteen digits. */
  function IntText(n: int): (r: seq<byte>)
    ensures |r| > 0 && NulFree(r)
    ensures r[0] == MINUS || IsDigit(r[0])
    ensures forall k :: 0 <= k < |r| ==> IsNumeral(r[k])
  {
    if n < 0 then [MINUS] + Digits(-n) else Digits(n)
  }

  function Power(k: nat): nat { if k == 0 then 1 else 10 * Power(k - 1) }

  lemma PowerStep(k: nat)
    ensures Power(k + 3) == 1000 * Power(k)
  {
    assert Power(k + 3) == 10 * Power(k + 2) == 100 * Power(k + 1);
  }

  lemma {:induction false} DigitsLength(n: nat, k: nat)
    requires 0 < k && n < Power(k)
    ensures |Digits(n)| <= k
  {
    if n >= 10 {
      assert Power(1) == 10;
      DigitsLength(n / 10, k - 1);
    }
  }

  lemma IntTextLength(n: int)
    requires -NUMBER_BOUND < n < NUMBER_BOUND
    ensures |IntText(n)| <= 16
  {
    assert Power(15) == NUMBER_BOUND by {
      PowerStep(0);
      PowerStep(3);
      PowerStep(6);
      PowerStep(9);
      PowerStep(12);
    }
    DigitsLength(if n < 0 then -n else n, 15);
  }

  // ---------------------------------------------------------------- reading

  const NUMERAL_LIMIT: nat := 63

  /** How far the copying loop gets from position i when it has n bytes already. */
  function CopyEnd(t: seq<byte>, i: nat, n: nat): (r: nat)
    requires i + n <= |t| && n <= NUMERAL_LIMIT
    ensures n <= r <= NUMERAL_LIMIT && i + r <= |t|
    ensures forall k :: i + n <= k < i + r ==> IsNumeral(t[k])
    decreases NUMERAL_LIMIT - n
  {
    if n == NUMERAL_LIMIT || i + n == |t| || !IsNumeral(t[i + n]) then n else CopyEnd(t, i, n + 1)
  }

  function DigitsEnd(s: seq<byte>, i: nat): (r: nat)
    requires i <= |s|
    ensures i <= r <= |s| && forall k :: i <= k < r ==> IsDigit(s[k])
    ensures r < |s| ==> !IsDigit(s[r])
    decreases |s| - i
  {
    if i < |s| && IsDigit(s[i]) then DigitsEnd(s, i + 1) else i
  }

  predicate AllDigits(s: seq<byte>) {
    forall k :: 0 <= k < |s| ==> IsDigit(s[k])
  }

  /** The value of the digits of s, left to right, on top of m. */
  function ReadDigits(m: nat, s: seq<byte>): nat
    requires AllDigits(s)
    decreases |s|
  {
    if s == [] then m else
      assert IsDigit(s[0]);
      ReadDigits(10 * m + (s[0] as int - 48), s[1..])
  }

  function Scale(e: int): real
    decreases if e < 0 then -e else e
  {
    if e == 0 then 1.0 else if e > 0 then 10.0 * Scale(e - 1) else Scale(e + 1) / 10.0
  }

  function Times(m: int, e: int): real { m as real * Scale(e) }

  datatype Exponent = Exponent(value: int, end: nat)

  /** An exponent part at p, or nothing at all when it has no digit. */
  function ReadExponent(s: seq<byte>, p: nat): (r: Exponent)
    requires p <= |s|
    ensures p <= r.end <= |s|
  {
    if p == |s| || (s[p] != 69 && s[p] != 101) then Exponent(0, p) else
      var negative := p + 1 < |s| && s[p + 1] == MINUS;
      var q := if p + 1 < |s| && (s[p + 1] == MINUS || s[p + 1] == PLUS) then p + 2 else p + 1;
      var end := DigitsEnd(s, q);
      if end == q then Exponent(0, p) else
        var e: int := ReadDigits(0, s[q..end]);
        Exponent(if negative then -e else e, end)
  }

  /** strtod on such bytes: the longest numeral at the start, its exact value and its length. */
  function Strtod(s: seq<byte>): (r: Option<(real, nat)>)
    ensures r.Some? ==> 0 < r.value.1 <= |s|
  {
    var start := if s != [] && (s[0] == MINUS || s[0] == PLUS) then 1 else 0;
    var whole := DigitsEnd(s, start);
    var point := whole < |s| && s[whole] == DOT;
    var frac := if point then DigitsEnd(s, whole + 1) else whole;
    var places := if point then frac - whole - 1 else 0;
    if whole == start && places == 0 then None else
      var digits := s[start..whole] + (if point then s[whole + 1..frac] else []);
      assert AllDigits(digits);
      var m: int := ReadDigits(0, digits);
      var e := ReadExponent(s, frac);
      var signed := if s[0] == MINUS then -m else m;
      Some((Times(signed, e.value - places), e.end))
  }

  // ---------------------------------------------------------------- the two undo each other

  lemma {:induction false} ReadDigitsConcat(m: nat, a: seq<byte>, d: byte)
    requires AllDigits(a) && IsDigit(d)
    ensures AllDigits(a + [d]) && ReadDigits(m, a + [d]) == 10 * ReadDigits(m, a) + (d as int - 48)
    decreases |a|
  {
    if a == [] {
      assert a + [d] == [d];
      assert [d][1..] == [];
    } else {
      assert (a + [d])[1..] == a[1..] + [d];
      ReadDigitsConcat(10 * m + (a[0] as int - 48), a[1..], d);
    }
  }

  lemma {:induction false} ReadsDigits(n: nat)
    ensures ReadDigits(0, Digits(n)) == n
  {
    if n < 10 {
      assert Digits(n)[1..] == [];
    } else {
      ReadsDigits(n / 10);
      ReadDigitsConcat(0, Digits(n / 10), 48 + n % 10);
    }
  }

  lemma {:induction false} DigitsEndOfDigits(s: seq<byte>, i: nat)
    requires i <= |s| && forall k :: i <= k < |s| ==> IsDigit(s[k])
    ensures DigitsEnd(s, i) == |s|
  {
  }

  /** The reader of numerals gives an integer back from its text. */
  lemma StrtodOfIntText(n: int)
    ensures Strtod(IntText(n)) == Some((n as real, |IntText(n)|))
  {
    var s, m := IntText(n), if n < 0 then -n else n;
    var start := if n < 0 then 1 else 0;
    DigitsEndOfDigits(s, start);
    ReadsDigits(m);
    assert s[start..|s|] + [] == Digits(m);
    assert n < 0 || IsDigit(s[0]);
  }

  lemma {:induction false} CopiesText(t: seq<byte>, i: nat, n: nat, end: nat)
    requires n <= end <= NUMERAL_LIMIT && i + end < |t|
    requires forall k :: i + n <= k < i + end ==> IsNumeral(t[k])
    requires !IsNumeral(t[i + end])
    ensures CopyEnd(t, i, n) == end
    decreases end - n
  {
    if n < end {
      CopiesText(t, i, n + 1, end);
    }
  }
}

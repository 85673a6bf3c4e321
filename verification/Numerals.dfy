/** Numerals in JSON text as they are written, and the exact value each of them stands for. */
module Numerals {
  import opened Bytes
  import opened JsonNumber

  /** A numeral by its parts; the sign and the exponent may be missing, as may the digits on one side of the point. */
  datatype Numeral = Numeral(negative: bool, whole: seq<byte>, places: Option<seq<byte>>, power: Option<Power>)

  datatype Power = Power(mark: byte, sign: seq<byte>, digits: seq<byte>)

  function PowerText(power: Option<Power>): seq<byte> {
    if power.Some? then [power.value.mark] + power.value.sign + power.value.digits else []
  }

  predicate IsPowerText(power: Option<Power>) {
    power.Some? ==>
      && (power.value.mark == 'e' as int || power.value.mark == 'E' as int)
      && power.value.sign in [[], [PLUS], [MINUS]]
      && AllDigits(power.value.digits) && power.value.digits != []
  }

  function PowerValue(power: Option<Power>): int
    requires IsPowerText(power)
  {
    if power.None? then 0
    else if power.value.sign == [MINUS] then -(Decimal(power.value.digits) as int)
    else Decimal(power.value.digits) as int
  }

  predicate IsNumeralText(n: Numeral) {
    && AllDigits(n.whole)
    && (n.places.Some? ==> AllDigits(n.places.value))
    && (n.whole != [] || (n.places.Some? && n.places.value != []))
    && IsPowerText(n.power)
  }

  function NumeralText(n: Numeral): seq<byte> {
    (if n.negative then [MINUS] else []) + n.whole
    + (if n.places.Some? then [DOT] + n.places.value else [])
    + PowerText(n.power)
  }

  /** The number that decimal digits stand for. */
  function Decimal(digits: seq<byte>): nat
    requires AllDigits(digits)
    decreases |digits|
  {
    if digits == [] then 0 else 10 * Decimal(ButLast(digits)) + (Last(digits) as char - '0') as int
  }

  function TenTo(n: nat): (r: real)
    ensures r > 0.0
  {
    if n == 0 then 1.0 else 10.0 * TenTo(n - 1)
  }

  /** A number with its decimal point moved. */
  function Shifted(m: nat, shift: int): real {
    if shift >= 0 then m as real * TenTo(shift) else m as real / TenTo(-shift)
  }

  /** All digits as one integer, moved by the exponent and by the number of places. */
  function NumeralValue(n: Numeral): real
    requires IsNumeralText(n)
  {
    var places := if n.places.Some? then n.places.value else [];
    var size := Shifted(Decimal(n.whole + places), PowerValue(n.power) - |places|);
    if n.negative then -size else size
  }

  // ---------------------------------------------------------------- values

  lemma {:induction false} DecimalRead(d: seq<byte>)
    requires AllDigits(d)
    ensures ReadDigits(0, d) == Decimal(d)
    decreases |d|
  {
    if d != [] {
      DecimalRead(ButLast(d));
      ReadDigitsConcat(0, ButLast(d), Last(d));
      assert ButLast(d) + [Last(d)] == d;
    }
  }

  lemma {:induction false} ScaleUp(n: nat)
    ensures Scale(n) == TenTo(n)
  {
    if n > 0 {
      ScaleUp(n - 1);
    }
  }

  lemma {:induction false} ScaleDown(n: nat)
    ensures Scale(0 - n) * TenTo(n) == 1.0
  {
    if n > 0 {
      ScaleDown(n - 1);
      assert Scale(0 - n) == Scale(0 - (n - 1)) / 10.0;
      Cancelled(Scale(0 - (n - 1)), TenTo(n - 1));
    }
  }

  lemma Cancelled(a: real, b: real)
    ensures (a / 10.0) * (10.0 * b) == a * b
  {
  }

  lemma Divided(a: real, b: real, c: real)
    requires b * c == 1.0 && c > 0.0
    ensures a * b == a / c
  {
    assert a == a * (b * c) == (a * b) * c;
  }

  lemma Scaled(m: nat, e: int)
    ensures (m as real) * Scale(e) == Shifted(m, e)
  {
    if e >= 0 {
      ScaleUp(e);
    } else {
      ScaleDown(-e);
      Divided(m as real, Scale(e), TenTo(-e));
    }
  }

  // ---------------------------------------------------------------- reading

  lemma TakesPower(s: seq<byte>, p: nat) returns (power: Option<Power>)
    requires p <= |s|
    ensures IsPowerText(power) && PowerText(power) == s[p..ReadExponent(s, p).end]
    ensures PowerValue(power) == ReadExponent(s, p).value
  {
    var end := ReadExponent(s, p).end;
    power := None;
    if end > p {
      var q := if p + 1 < |s| && (s[p + 1] == MINUS || s[p + 1] == PLUS) then p + 2 else p + 1;
      power := Some(Power(s[p], s[p + 1..q], s[q..end]));
      DecimalRead(s[q..end]);
      assert s[p + 1..q] == if q == p + 1 then [] else [s[p + 1]];
      assert s[p..end] == [s[p]] + s[p + 1..q] + s[q..end];
    }
  }

  lemma SignedSize(negative: bool, m: nat, shift: int)
    ensures Times(if negative then -(m as int) else m, shift)
      == if negative then -Shifted(m, shift) else Shifted(m, shift)
  {
    Scaled(m, shift);
    hide Scale, Shifted;
    Negated(m, Scale(shift));
  }

  lemma Negated(m: int, x: real)
    ensures (-m) as real * x == -(m as real * x)
  {
  }

  /** Where the reader sees the parts of a numeral. */
  datatype Cut = Cut(start: nat, whole: nat, frac: nat, point: bool)

  function CutOf(s: seq<byte>): (c: Cut)
    ensures c.start <= c.whole <= c.frac <= |s| && (c.point ==> c.whole < c.frac) && (!c.point ==> c.whole == c.frac)
    ensures AllDigits(s[c.start..c.whole]) && AllDigits(Places(s, c))
  {
    var start := if s != [] && (s[0] == MINUS || s[0] == PLUS) then 1 else 0;
    var whole := DigitsEnd(s, start);
    var point := whole < |s| && s[whole] == DOT;
    Cut(start, whole, if point then DigitsEnd(s, whole + 1) else whole, point)
  }

  function Places(s: seq<byte>, c: Cut): seq<byte>
    requires c.whole <= c.frac <= |s| && (c.point ==> c.whole < c.frac)
  {
    if c.point then s[c.whole + 1..c.frac] else []
  }

  lemma StrtodCut(s: seq<byte>)
    ensures var c := CutOf(s); var e, places := ReadExponent(s, c.frac), Places(s, c);
      var digits := s[c.start..c.whole] + places;
      var m: int := ReadDigits(0, digits);
      Strtod(s) ==
        if c.whole == c.start && places == [] then None
        else Some((Times(if s[0] == MINUS then -m else m, e.value - |places|), e.end))
  {
    hide Times, ReadDigits, ReadExponent, DigitsEnd;
  }

  lemma CutText(s: seq<byte>, c: Cut, end: nat)
    requires s != [] && s[0] != PLUS && c == CutOf(s) && c.frac <= end <= |s|
    ensures s[..end] == (if s[0] == MINUS then [MINUS] else []) + s[c.start..c.whole]
      + (if c.point then [DOT] + Places(s, c) else []) + s[c.frac..end]
  {
    assert s[c.whole..c.frac] == if c.point then [DOT] + Places(s, c) else [];
    assert s[..c.start] == if s[0] == MINUS then [MINUS] else [];
    assert s[..end] == s[..c.start] + s[c.start..c.whole] + s[c.whole..c.frac] + s[c.frac..end];
  }

  /** What the reader of numerals takes is a numeral, with its value. */
  lemma TakesNumeral(s: seq<byte>) returns (n: Numeral)
    requires s != [] && s[0] != PLUS && Strtod(s).Some?
    ensures IsNumeralText(n) && NumeralText(n) == s[..Strtod(s).value.1] && NumeralValue(n) == Strtod(s).value.0
  {
    hide Strtod, Times, Shifted, ReadDigits, ReadExponent, PowerText, PowerValue, CutOf, Places, Decimal;
    var c := CutOf(s);
    var places := Places(s, c);
    var power := TakesPower(s, c.frac);
    n := Numeral(s[0] == MINUS, s[c.start..c.whole], if c.point then Some(places) else None, power);
    StrtodCut(s);
    CutText(s, c, ReadExponent(s, c.frac).end);
    NotPlaces(s, c);
    var digits := s[c.start..c.whole] + places;
    DecimalRead(digits);
    SignedSize(n.negative, Decimal(digits), PowerValue(power) - |places|);
  }

  lemma NotPlaces(s: seq<byte>, c: Cut)
    requires c == CutOf(s)
    ensures !c.point ==> Places(s, c) == []
    ensures c.whole == c.start <==> s[c.start..c.whole] == []
  {
  }

  // ---------------------------------------------------------------- no more and no less

  lemma {:induction false} DigitsReach(s: seq<byte>, i: nat, j: nat)
    requires i <= j <= |s| && forall k :: i <= k < j ==> IsDigit(s[k])
    ensures j <= DigitsEnd(s, i)
    ensures j == |s| || !IsDigit(s[j]) ==> DigitsEnd(s, i) == j
    decreases j - i
  {
    if i < j {
      DigitsReach(s, i + 1, j);
    }
  }

  function WholeEnd(n: Numeral): nat { (if n.negative then 1 else 0) + |n.whole| }

  function PlacesEnd(n: Numeral): nat { WholeEnd(n) + if n.places.Some? then 1 + |n.places.value| else 0 }

  lemma NumeralParts(n: Numeral, s: seq<byte>)
    requires NumeralText(n) <= s
    ensures WholeEnd(n) <= PlacesEnd(n) <= |NumeralText(n)| == PlacesEnd(n) + |PowerText(n.power)| <= |s|
    ensures n.negative ==> s[0] == MINUS
    ensures s[if n.negative then 1 else 0..WholeEnd(n)] == n.whole
    ensures n.places.Some? ==> s[WholeEnd(n)] == DOT && s[WholeEnd(n) + 1..PlacesEnd(n)] == n.places.value
    ensures s[PlacesEnd(n)..|NumeralText(n)|] == PowerText(n.power)
  {
    hide PowerText;
    var text := NumeralText(n);
    var sign := if n.negative then [MINUS] else [];
    var places := if n.places.Some? then [DOT] + n.places.value else [];
    assert text == sign + n.whole + places + PowerText(n.power);
    assert s[..|text|] == text;
    assert text[|sign|..WholeEnd(n)] == n.whole && text[WholeEnd(n)..PlacesEnd(n)] == places;
    assert s[|sign|..WholeEnd(n)] == text[|sign|..WholeEnd(n)];
    assert s[WholeEnd(n)..PlacesEnd(n)] == text[WholeEnd(n)..PlacesEnd(n)];
    if n.places.Some? {
      assert s[WholeEnd(n)] == places[0];
      assert s[WholeEnd(n) + 1..PlacesEnd(n)] == places[1..];
    }
  }

  lemma PowerParts(w: Power, s: seq<byte>, p: nat)
    requires IsPowerText(Some(w)) && At(s, p, PowerText(Some(w)))
    ensures var q := p + 1 + |w.sign|; var n := p + |PowerText(Some(w))|;
      && p < |s| && s[p] == w.mark && n == q + |w.digits| <= |s| && s[q..n] == w.digits
      && (forall k :: q <= k < n ==> IsDigit(s[k]))
      && (w.sign != [] ==> s[p + 1] == w.sign[0])
  {
    var q, n := p + 1 + |w.sign|, p + |PowerText(Some(w))|;
    AtConcat(s, p, [w.mark] + w.sign, w.digits);
    AtConcat(s, p, [w.mark], w.sign);
    AtIndex(s, p, [w.mark], 0);
    assert s[q..n] == w.digits;
    forall k | q <= k < n ensures IsDigit(s[k]) {
      assert s[k] == w.digits[k - q];
    }
    if w.sign != [] {
      AtIndex(s, p + 1, w.sign, 0);
    }
  }

  lemma PowerReach(power: Option<Power>, s: seq<byte>, p: nat)
    requires IsPowerText(power) && At(s, p, PowerText(power))
    ensures ReadExponent(s, p).end >= p + |PowerText(power)|
    ensures power.Some? && p + |PowerText(power)| == |s| ==>
      ReadExponent(s, p) == Exponent(PowerValue(power), |s|)
  {
    hide PowerText;
    if power.Some? {
      var w, n := power.value, p + |PowerText(power)|;
      PowerParts(w, s, p);
      DigitsReach(s, p + 1 + |w.sign|, n);
      DecimalRead(w.digits);
    } else {
      PowerBegins(power);
    }
  }

  /** No numeral at the start of a text is longer than what the reader takes. */
  lemma TakesLongest(n: Numeral, s: seq<byte>)
    requires IsNumeralText(n) && NumeralText(n) <= s
    ensures Strtod(s).Some? && Strtod(s).value.1 >= |NumeralText(n)|
  {
    hide Times, ReadDigits, ReadExponent, PowerText, PowerValue, NumeralText;
    NumeralParts(n, s);
    NumeralCut(n, s);
    StrtodCut(s);
    PowerBegins(n.power);
    var c := CutOf(s);
    if n.power.Some? {
      PowerReach(n.power, s, c.frac);
    }
  }

  /** Where the parts of a numeral end, when it is not cut short. */
  lemma NumeralCut(n: Numeral, s: seq<byte>)
    requires IsNumeralText(n) && NumeralText(n) <= s
    ensures var c := CutOf(s);
      && c.start == (if n.negative then 1 else 0) && s != [] && (s[0] == MINUS <==> n.negative)
      && WholeEnd(n) <= c.whole && PlacesEnd(n) <= c.frac
      && (n.places.Some? ==> c.point && c.whole == WholeEnd(n))
      && (n.power.Some? || NumeralText(n) == s ==>
        c.whole == WholeEnd(n) && c.frac == PlacesEnd(n) && c.point == n.places.Some?)
  {
    hide PowerText, PowerValue, NumeralText, DigitsEnd, IsPowerText;
    NumeralParts(n, s);
    PowerBegins(n.power);
    var start, w, f := if n.negative then 1 else 0, WholeEnd(n), PlacesEnd(n);
    assert s[0] == if n.negative then MINUS else if n.whole != [] then n.whole[0] else DOT;
    DigitsReach(s, start, w);
    if n.places.Some? {
      var places := n.places.value;
      forall k | w + 1 <= k < f ensures IsDigit(s[k]) {
        assert s[w + 1..f][k - (w + 1)] == s[k];
      }
      DigitsReach(s, w + 1, f);
    }
  }

  lemma PowerBegins(power: Option<Power>)
    requires IsPowerText(power)
    ensures power.Some? ==> PowerText(power) != [] && !IsDigit(PowerText(power)[0]) && PowerText(power)[0] != DOT
    ensures power.None? ==> PowerText(power) == []
  {
  }

  /** A numeral that is the whole text is taken as a whole, and for its value. */
  lemma TakesWhole(n: Numeral)
    requires IsNumeralText(n)
    ensures Strtod(NumeralText(n)) == Some((NumeralValue(n), |NumeralText(n)|))
  {
    hide Times, ReadDigits, ReadExponent, PowerText, PowerValue, NumeralText, Shifted, Strtod, CutOf, Decimal;
    var s := NumeralText(n);
    NumeralParts(n, s);
    NumeralCut(n, s);
    StrtodCut(s);
    PowerBegins(n.power);
    PowerReach(n.power, s, PlacesEnd(n));
    var places := if n.places.Some? then n.places.value else [];
    DecimalRead(n.whole + places);
    SignedSize(n.negative, Decimal(n.whole + places), PowerValue(n.power) - |places|);
    NoPower(n.power, s, PlacesEnd(n));
  }

  lemma NoPower(power: Option<Power>, s: seq<byte>, p: nat)
    ensures power.None? && p == |s| ==> ReadExponent(s, p) == Exponent(0, p) && PowerValue(power) == 0
  {
  }
}

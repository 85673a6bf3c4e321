/** String literals in JSON text: how they are escaped, scanned and decoded. */
module JsonString {
  import opened Bytes
  import opened Unicode
  import opened JsonValue

  // ---------------------------------------------------------------- writing

  function EscapeByte(b: byte): (r: seq<byte>)
    ensures 1 <= |r| <= 6
    ensures b != NUL ==> NulFree(r)
  {
    if b == QUOTE then [BACKSLASH, QUOTE]
    else if b == BACKSLASH then [BACKSLASH, BACKSLASH]
    else if b == 8 then [BACKSLASH, LOWER_B]
    else if b == 12 then [BACKSLASH, LOWER_F]
    else if b == NEWLINE then [BACKSLASH, LOWER_N]
    else if b == RETURN then [BACKSLASH, LOWER_R]
    else if b == TAB then [BACKSLASH, LOWER_T]
    else if b < 32 then [BACKSLASH, LOWER_U, 48, 48, HexChar(b / 16), HexChar(b % 16)]
    else [b]
  }

  function Escaped(s: seq<byte>): (r: seq<byte>)
    ensures |s| <= |r| <= 6 * |s|
    ensures NulFree(s) ==> NulFree(r)
  {
    if s == [] then [] else EscapeByte(s[0]) + Escaped(s[1..])
  }

  /** The literal the printer writes for a string. */
  function Quoted(s: seq<byte>): (r: seq<byte>)
    ensures |r| >= 2 && r[0] == QUOTE
    ensures NulFree(s) ==> NulFree(r)
  {
    [QUOTE] + Escaped(s) + [QUOTE]
  }

  // ---------------------------------------------------------------- the first pass: find the closing quote

  datatype Scan = Unclosed | Closed(end: nat, skipped: nat)

  /** The scan from p: where the closing quote is, and how many escapes were skipped on the way. */
  function ScanString(t: seq<byte>, p: nat): (r: Scan)
    ensures r.Closed? ==> p <= r.end < |t| && t[r.end] == QUOTE && p + 2 * r.skipped <= r.end
    decreases |t| - p
  {
    if p >= |t| then Unclosed
    else if t[p] == QUOTE then Closed(p, 0)
    else if t[p] == BACKSLASH then
      if p + 1 >= |t| then Unclosed else
        var r := ScanString(t, p + 2);
        if r.Closed? then Closed(r.end, r.skipped + 1) else Unclosed
    else ScanString(t, p + 1)
  }

  // ---------------------------------------------------------------- the second pass: decode the content

  datatype Decoded = Text(s: seq<byte>) | Bad(at: nat) {
    function Prepend(a: seq<byte>): Decoded {
      if Text? then Text(a + s) else this
    }
  }

  /** The escapes of one letter. */
  function SimpleEscape(b: byte): Option<byte> {
    if b == LOWER_B then Some(8)
    else if b == LOWER_F then Some(12)
    else if b == LOWER_N then Some(NEWLINE)
    else if b == LOWER_R then Some(RETURN)
    else if b == LOWER_T then Some(TAB)
    else if b == QUOTE || b == BACKSLASH || b == SLASH then Some(b)
    else None
  }

  /** What the decoding pass makes of the literal content from p up to its closing quote at e. */
  function Decode(t: seq<byte>, p: nat, e: nat): (r: Decoded)
    requires e < |t|
    ensures r.Bad? ==> p <= r.at < e
    decreases e - p
  {
    if p >= e then Text([])
    else if t[p] != BACKSLASH then Decode(t, p + 1, e).Prepend([t[p]])
    else if t[p + 1] == LOWER_U then
      var r := ReadLiteral(t, p, e);
      if r.None? then Bad(p) else Decode(t, p + r.value.1, e).Prepend(Utf8(r.value.0))
    else
      var r := SimpleEscape(t[p + 1]);
      if r.None? then Bad(p) else Decode(t, p + 2, e).Prepend([r.value])
  }

  // ---------------------------------------------------------------- the space computed by the scan is enough

  /** Of the escapes that the scan from q meets, those that begin at p or later. */
  function EscapesFrom(t: seq<byte>, q: nat, p: nat): nat
    requires ScanString(t, q).Closed?
    decreases |t| - q
  {
    if t[q] == QUOTE then 0
    else if t[q] == BACKSLASH then (if q >= p then 1 else 0) + EscapesFrom(t, q + 2, p)
    else EscapesFrom(t, q + 1, p)
  }

  lemma {:induction false} EscapesFromStart(t: seq<byte>, q: nat, p: nat)
    requires ScanString(t, q).Closed? && p <= q
    ensures EscapesFrom(t, q, p) == ScanString(t, q).skipped
    decreases |t| - q
  {
    if t[q] == QUOTE {
    } else if t[q] == BACKSLASH {
      EscapesFromStart(t, q + 2, p);
    } else {
      EscapesFromStart(t, q + 1, p);
    }
  }

  /** No escape begins at a byte that is not a backslash. */
  lemma {:induction false} EscapesFromPlain(t: seq<byte>, q: nat, p: nat)
    requires ScanString(t, q).Closed? && p < |t| && t[p] != BACKSLASH
    ensures EscapesFrom(t, q, p) == EscapesFrom(t, q, p + 1)
    decreases |t| - q
  {
    if t[q] == QUOTE {
    } else if t[q] == BACKSLASH {
      EscapesFromPlain(t, q + 2, p);
    } else {
      EscapesFromPlain(t, q + 1, p);
    }
  }

  /** At most one escape begins among two neighbouring bytes. */
  lemma {:induction false} EscapesFromPair(t: seq<byte>, q: nat, p: nat)
    requires ScanString(t, q).Closed?
    ensures EscapesFrom(t, q, p) <= EscapesFrom(t, q, p + 2) + 1
    decreases |t| - q
  {
    if t[q] == QUOTE {
    } else if t[q] == BACKSLASH {
      if q >= p {
        EscapesFromStart(t, q + 2, p);
        EscapesFromStart(t, q + 2, p + 2);
      } else {
        EscapesFromPair(t, q + 2, p);
      }
    } else {
      EscapesFromPair(t, q + 1, p);
    }
  }

  /** A sequence of n = 2k bytes holds the beginnings of at most k escapes. */
  lemma {:induction false} EscapesFromRun(t: seq<byte>, q: nat, p: nat, k: nat)
    requires ScanString(t, q).Closed?
    ensures EscapesFrom(t, q, p) <= EscapesFrom(t, q, p + 2 * k) + k
    decreases k
  {
    if k > 0 {
      EscapesFromPair(t, q, p);
      EscapesFromRun(t, q, p + 2, k - 1);
    }
  }

  /**
   The bytes still to be decoded at p are no more than the bytes of text left, less the escapes the
   scan counts among them; the scan and the decoder need not agree on where escapes begin.
   */
  lemma {:induction false} DecodedFits(t: seq<byte>, q: nat, p: nat)
    requires ScanString(t, q).Closed? && q <= p
    requires Decode(t, p, ScanString(t, q).end).Text?
    requires p <= ScanString(t, q).end + 1
    ensures |Decode(t, p, ScanString(t, q).end).s| + EscapesFrom(t, q, p) <= ScanString(t, q).end + 1 - p
    decreases ScanString(t, q).end + 1 - p
  {
    hide Utf8, ReadLiteral;
    var e := ScanString(t, q).end;
    if p >= e {
      NoEscapesAfterEnd(t, q, p);
    } else if t[p] != BACKSLASH {
      EscapesFromPlain(t, q, p);
      DecodedFits(t, q, p + 1);
    } else if t[p + 1] == LOWER_U {
      var n := ReadLiteral(t, p, e).value.1;
      Utf8Bytes(ReadLiteral(t, p, e).value.0);
      EscapesFromRun(t, q, p, n / 2);
      DecodedFits(t, q, p + n);
    } else {
      EscapesFromPair(t, q, p);
      DecodedFits(t, q, p + 2);
    }
  }

  lemma {:induction false} NoEscapesAfterEnd(t: seq<byte>, q: nat, p: nat)
    requires ScanString(t, q).Closed? && p >= ScanString(t, q).end
    ensures EscapesFrom(t, q, p) == 0
    decreases |t| - q
  {
    if t[q] == QUOTE {
    } else if t[q] == BACKSLASH {
      NoEscapesAfterEnd(t, q + 2, p);
    } else {
      NoEscapesAfterEnd(t, q + 1, p);
    }
  }

  /** From p on there are fewer escapes than bytes. */
  lemma EscapesFromBound(t: seq<byte>, q: nat, p: nat)
    requires ScanString(t, q).Closed? && p <= ScanString(t, q).end + 1
    ensures p + EscapesFrom(t, q, p) <= Max(p, ScanString(t, q).end)
  {
    var e := ScanString(t, q).end;
    var k: nat := if p > e then 0 else (e - p + 1) / 2;
    EscapesFromRun(t, q, p, k);
    NoEscapesAfterEnd(t, q, p + 2 * k);
  }

  // ---------------------------------------------------------------- the two passes of the parser

  function AddSkipped(r: Scan, n: nat): Scan {
    if r.Closed? then Closed(r.end, r.skipped + n) else r
  }

  method FindClosingQuote(t: seq<byte>, start: nat) returns (scan: Scan)
    requires start <= |t|
    ensures scan == ScanString(t, start)
  {
    var end, skipped := start, 0;
    while end < |t| && t[end] != QUOTE
      invariant start <= end <= |t|
      invariant ScanString(t, start) == AddSkipped(ScanString(t, end), skipped)
      decreases |t| - end
    {
      if t[end] == BACKSLASH {
        if end + 1 >= |t| {
          return Unclosed;
        }
        skipped := skipped + 1;
        end := end + 1;
      }
      end := end + 1;
    }
    if end >= |t| {
      return Unclosed;
    }
    return Closed(end, skipped);
  }

  /** The bytes written so far leave room for all that the rest of the literal can yield. */
  ghost predicate WithinBudget(t: seq<byte>, start: nat, p: nat, o: nat)
    requires ScanString(t, start).Closed?
  {
    && start <= p <= ScanString(t, start).end + 1
    && o + ScanString(t, start).skipped <= p - start + EscapesFrom(t, start, p)
  }

  /** The size of the block the scan asks for: the content less the skipped bytes, and a terminator. */
  function BlockSize(t: seq<byte>, start: nat): nat
    requires ScanString(t, start).Closed?
  {
    ScanString(t, start).end - (start - 1) - ScanString(t, start).skipped + 1
  }

  lemma BudgetFits(t: seq<byte>, start: nat, p: nat, o: nat)
    requires ScanString(t, start).Closed? && WithinBudget(t, start, p, o)
    ensures o < BlockSize(t, start)
  {
    EscapesFromBound(t, start, p);
  }

  lemma PrependConcat(r: Decoded, a: seq<byte>, b: seq<byte>)
    ensures r.Prepend(b).Prepend(a) == r.Prepend(a + b)
  {
    if r.Text? {
      assert a + (b + r.s) == (a + b) + r.s;
    }
  }

  /** One turn of the decoding loop; no store misses the block, whatever the escapes look like. */
  method DecodeStep(t: seq<byte>, start: nat, p: nat, output: array<byte>, o: nat)
    returns (bad: bool, p': nat, o': nat)
    requires ScanString(t, start).Closed? && p < ScanString(t, start).end
    requires WithinBudget(t, start, p, o) && output.Length == BlockSize(t, start)
    modifies output
    ensures bad ==> Decode(t, p, ScanString(t, start).end) == Bad(p)
    ensures !bad ==> p < p' && o <= o' <= output.Length && WithinBudget(t, start, p', o')
    ensures !bad ==>
      Decode(t, p, ScanString(t, start).end) == Decode(t, p', ScanString(t, start).end).Prepend(output[o..o'])
    ensures forall k :: 0 <= k < o && k < output.Length ==> output[k] == old(output[k])
  {
    hide ReadLiteral, Utf8, SimpleEscape, EscapesFrom, BlockSize;
    BudgetFits(t, start, p, o);
    if t[p] != BACKSLASH {
      EscapesFromPlain(t, start, p);
      output[o] := t[p];
      return false, p + 1, o + 1;
    }
    var sequence, c := 2, t[p + 1];
    if c == LOWER_U {
      LiteralFits(t, start, p, o);
      var written;
      sequence, written := Utf16LiteralToUtf8(t, p, ScanString(t, start).end, output, o);
      return sequence == 0, p + sequence, o + written;
    }
    EscapesFromPair(t, start, p);
    var letter := ReadEscape(c);
    if letter.None? {
      return true, p, o;
    }
    output[o] := letter.value;
    return false, p + sequence, o + 1;
  }

  /** A code point takes no more bytes than half of the escape it was read from leaves room for. */
  lemma LiteralFits(t: seq<byte>, start: nat, p: nat, o: nat)
    requires ScanString(t, start).Closed? && p < ScanString(t, start).end && WithinBudget(t, start, p, o)
    ensures var r := ReadLiteral(t, p, ScanString(t, start).end); r.Some? ==>
      var o' := o + |Utf8(r.value.0)|; WithinBudget(t, start, p + r.value.1, o') && o' < BlockSize(t, start)
  {
    hide ReadLiteral, Utf8, EscapesFrom;
    var r := ReadLiteral(t, p, ScanString(t, start).end);
    if r.Some? {
      Utf8Bytes(r.value.0);
      EscapesFromRun(t, start, p, r.value.1 / 2);
      BudgetFits(t, start, p + r.value.1, o + |Utf8(r.value.0)|);
    }
  }

  method ReadEscape(c: byte) returns (b: Option<byte>)
    ensures b == SimpleEscape(c)
  {
    if c == LOWER_B {
      return Some(8);
    } else if c == LOWER_F {
      return Some(12);
    } else if c == LOWER_N {
      return Some(NEWLINE);
    } else if c == LOWER_R {
      return Some(RETURN);
    } else if c == LOWER_T {
      return Some(TAB);
    } else if c == QUOTE || c == BACKSLASH || c == SLASH {
      return Some(c);
    }
    return None;
  }

  /** Second pass: the content is decoded into a block of exactly the computed size. */
  method DecodeLiteral(t: seq<byte>, start: nat, end: nat, size: nat) returns (decoded: Decoded)
    requires ScanString(t, start).Closed? && end == ScanString(t, start).end && size == BlockSize(t, start)
    ensures decoded == Decode(t, start, end)
    ensures decoded.Text? ==> |decoded.s| < size
  {
    var output := new byte[size](_ => NUL);
    var p, o := start, 0;
    EscapesFromStart(t, start, start);
    while p < end
      invariant WithinBudget(t, start, p, o) && o <= output.Length
      invariant Decode(t, start, end) == Decode(t, p, end).Prepend(output[..o])
      decreases end + 1 - p
    {
      ghost var before := output[..o];
      var bad, p', o' := DecodeStep(t, start, p, output, o);
      if bad {
        return Bad(p);
      }
      PrependConcat(Decode(t, p', end), before, output[o..o']);
      assert output[..o'] == before + output[o..o'];
      p, o := p', o';
    }
    BudgetFits(t, start, p, o);
    output[o] := NUL;
    return Text(output[..o]);
  }

  // ---------------------------------------------------------------- decoding undoes escaping

  /** The scan meets the closing quote right behind the escaped text. */
  lemma {:induction false} ScanOfEscaped(t: seq<byte>, p: nat, s: seq<byte>)
    requires NulFree(s) && At(t, p, Escaped(s) + [QUOTE])
    ensures ScanString(t, p).Closed? && ScanString(t, p).end == p + |Escaped(s)|
    decreases |s|
  {
    hide ScanString, EscapeByte, At;
    if s == [] {
      assert [] + [QUOTE] == [QUOTE];
      ClosedHere(t, p);
    } else {
      var a, b := EscapeByte(s[0]), Escaped(s[1..]);
      Joined(a, b, [QUOTE]);
      AtConcat(t, p, a, b + [QUOTE]);
      ScanOfEscaped(t, p + |a|, s[1..]);
      ScanOneByte(t, p, s[0]);
    }
  }

  lemma ClosedHere(t: seq<byte>, p: nat)
    requires At(t, p, [QUOTE])
    ensures ScanString(t, p).Closed? && ScanString(t, p).end == p && Decode(t, p, p) == Text([])
  {
    AtIndex(t, p, [QUOTE], 0);
  }

  lemma ScanOneByte(t: seq<byte>, p: nat, b: byte)
    requires b != NUL && At(t, p, EscapeByte(b)) && ScanString(t, p + |EscapeByte(b)|).Closed?
    ensures ScanString(t, p).Closed? && ScanString(t, p).end == ScanString(t, p + |EscapeByte(b)|).end
  {
    var a := EscapeByte(b);
    AtIndex(t, p, a, 0);
    if |a| >= 2 {
      AtIndex(t, p, a, 1);
    }
    if |a| == 6 {
      AtIndex(t, p, a, 2);
      AtIndex(t, p, a, 3);
      AtIndex(t, p, a, 4);
      AtIndex(t, p, a, 5);
      ScanPlain(t, p + 2, 4);
    }
  }

  /** The scan walks over n bytes that are neither quotes nor backslashes. */
  lemma {:induction false} ScanPlain(t: seq<byte>, p: nat, n: nat)
    requires p + n <= |t|
    requires forall k :: p <= k < p + n ==> t[k] != QUOTE && t[k] != BACKSLASH
    ensures ScanString(t, p) == ScanString(t, p + n)
    decreases n
  {
    if n > 0 {
      ScanPlain(t, p + 1, n - 1);
    }
  }

  lemma {:induction false} DecodeOfEscaped(t: seq<byte>, p: nat, s: seq<byte>)
    requires NulFree(s) && At(t, p, Escaped(s) + [QUOTE])
    ensures p + |Escaped(s)| < |t| && Decode(t, p, p + |Escaped(s)|) == Text(s)
    decreases |s|
  {
    hide Decode, EscapeByte, At;
    var e := p + |Escaped(s)|;
    if s == [] {
      assert [] + [QUOTE] == [QUOTE];
      ClosedHere(t, p);
    } else {
      var a, b := EscapeByte(s[0]), Escaped(s[1..]);
      Joined(a, b, [QUOTE]);
      AtConcat(t, p, a, b + [QUOTE]);
      DecodeOfEscaped(t, p + |a|, s[1..]);
      assert [s[0]] + s[1..] == s;
      DecodeOneByte(t, p, e, s[0]);
    }
  }

  lemma DecodeOneByte(t: seq<byte>, p: nat, e: nat, b: byte)
    requires b != NUL && At(t, p, EscapeByte(b)) && p + |EscapeByte(b)| <= e < |t|
    ensures Decode(t, p, e) == Decode(t, p + |EscapeByte(b)|, e).Prepend([b])
  {
    hide ReadLiteral, Utf8;
    var a := EscapeByte(b);
    AtIndex(t, p, a, 0);
    if |a| == 6 {
      DecodeControl(t, p, e, b);
    } else if |a| == 2 {
      AtIndex(t, p, a, 1);
    }
  }

  lemma DecodeControl(t: seq<byte>, p: nat, e: nat, b: byte)
    requires |EscapeByte(b)| == 6 && b != NUL && At(t, p, EscapeByte(b)) && p + 6 <= e < |t|
    ensures Decode(t, p, e) == Decode(t, p + 6, e).Prepend([b])
  {
    hide ReadLiteral;
    var a := EscapeByte(b);
    AtIndex(t, p, a, 0);
    AtIndex(t, p, a, 1);
    ReadsControl(t, p, e, b);
  }

  lemma ReadsControl(t: seq<byte>, p: nat, e: nat, b: byte)
    requires |EscapeByte(b)| == 6 && b != NUL && At(t, p, EscapeByte(b)) && p + 6 <= e < |t|
    ensures ReadLiteral(t, p, e) == Some((b as nat, 6)) && Utf8(b) == [b]
  {
    hide Hex4;
    var a := EscapeByte(b);
    AtIndex(t, p, a, 2);
    AtIndex(t, p, a, 3);
    AtIndex(t, p, a, 4);
    AtIndex(t, p, a, 5);
    HexOfControl(t, p + 2, b);
  }

  lemma HexOfControl(t: seq<byte>, p: nat, b: byte)
    requires b < 32 && p + 4 <= |t|
    requires t[p] == 48 && t[p + 1] == 48 && t[p + 2] == HexChar(b / 16) && t[p + 3] == HexChar(b % 16)
    ensures Hex4(t, p) == b
  {
    assert HexValue(t, p, 0) == Some(0);
    assert HexValue(t, p, 1) == Some(0);
    assert HexValue(t, p, 2) == Some(0);
    assert HexValue(t, p, 3) == Some(b / 16);
    assert HexValue(t, p, 4) == Some(b as nat);
  }
}

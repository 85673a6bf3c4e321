/** Binary escapes of configuration values: `'B"(...)"'` around a text whose odd bytes are hexadecimal. */
module BinaryEscapes {
  import opened Bytes
  import opened Unicode

  const UPPER_B: byte := 66
  const UPPER_X: byte := 88

  /** The printable bytes of the "C" locale. */
  predicate IsPrint(b: byte) { 32 <= b <= 126 }

  predicate IsX(b: byte) { b == LOWER_X || b == UPPER_X }

  const PLAIN_OPEN: seq<byte> := [UPPER_B, QUOTE, LPAREN]
  const PLAIN_CLOSE: seq<byte> := [RPAREN, QUOTE]
  const LITERAL_OPEN: seq<byte> := [APOSTROPHE, UPPER_B, QUOTE, LPAREN]
  const LITERAL_CLOSE: seq<byte> := [RPAREN, QUOTE, APOSTROPHE]

  function HexEscape(b: byte): (r: seq<byte>)
    ensures |r| == 4
  {
    [BACKSLASH, LOWER_X, HexChar(b / 16), HexChar(b % 16)]
  }

  /** What one byte becomes; an x behind a backslash must not look like an escape. */
  function BodyOne(b: byte, afterBackslash: bool): seq<byte> {
    if !IsPrint(b) || (IsX(b) && afterBackslash) then HexEscape(b) else [b]
  }

  function Body(s: seq<byte>, afterBackslash: bool): (r: seq<byte>)
    ensures |s| <= |r|
  {
    if s == [] then [] else BodyOne(s[0], afterBackslash) + Body(s[1..], s[0] == BACKSLASH)
  }

  /** Every single quote is hidden in turn. */
  function HideQuotes(s: seq<byte>): (r: seq<byte>)
    ensures APOSTROPHE !in r
  {
    if s == [] then [] else (if s[0] == APOSTROPHE then HexEscape(APOSTROPHE) else [s[0]]) + HideQuotes(s[1..])
  }

  function BinaryEscape(s: seq<byte>): seq<byte> {
    if Body(s, false) == s then s else LITERAL_OPEN + HideQuotes(Body(s, false)) + LITERAL_CLOSE
  }

  predicate Wrapped(s: seq<byte>, open: seq<byte>, close: seq<byte>) {
    |s| >= |open| + |close| && s[..|open|] == open && s[|s| - |close|..] == close
  }

  predicate IsBinaryEscaped(s: seq<byte>) {
    Wrapped(s, PLAIN_OPEN, PLAIN_CLOSE) || Wrapped(s, LITERAL_OPEN, LITERAL_CLOSE)
  }

  /** The escapes inside the wrapping, read back. */
  function Unhex(s: seq<byte>): seq<byte>
    decreases |s|
  {
    if s == [] then []
    else if |s| >= 4 && s[0] == BACKSLASH && IsX(s[1]) && HexDigit(s[2]).Some? && HexDigit(s[3]).Some? then
      [16 * HexDigit(s[2]).value + HexDigit(s[3]).value] + Unhex(s[4..])
    else [s[0]] + Unhex(s[1..])
  }

  function Extract(s: seq<byte>): seq<byte> {
    if Wrapped(s, PLAIN_OPEN, PLAIN_CLOSE) then Unhex(s[3..|s| - 2])
    else if Wrapped(s, LITERAL_OPEN, LITERAL_CLOSE) then Unhex(s[4..|s| - 3])
    else s
  }

  // ---------------------------------------------------------------- the two are inverse

  lemma UnhexPlain(b: byte, rest: seq<byte>)
    requires b == BACKSLASH ==> rest == [] || !IsX(rest[0])
    ensures Unhex([b] + rest) == [b] + Unhex(rest)
  {
    var s := [b] + rest;
    assert s[1..] == rest;
    assert rest != [] ==> s[1] == rest[0];
  }

  lemma UnhexEscape(b: byte, rest: seq<byte>)
    ensures Unhex(HexEscape(b) + rest) == [b] + Unhex(rest)
  {
    var s := HexEscape(b) + rest;
    assert s[4..] == rest;
  }

  lemma {:induction false} HideConcat(a: seq<byte>, b: seq<byte>)
    ensures HideQuotes(a + b) == HideQuotes(a) + HideQuotes(b)
    decreases |a|
  {
    if a == [] {
      assert a + b == b && [] + HideQuotes(b) == HideQuotes(b);
    } else {
      var one := if a[0] == APOSTROPHE then HexEscape(APOSTROPHE) else [a[0]];
      assert (a + b)[1..] == a[1..] + b && (a + b)[0] == a[0];
      HideConcat(a[1..], b);
      Joined(one, HideQuotes(a[1..]), HideQuotes(b));
    }
  }

  lemma HideEscape(b: byte)
    ensures HideQuotes(HexEscape(b)) == HexEscape(b)
  {
    NoQuotes(HexEscape(b));
  }

  /** Nothing that looks like an escape is made of a backslash and what follows it. */
  lemma BodyStart(s: seq<byte>)
    requires s != []
    ensures HideQuotes(Body(s, true)) != [] && !IsX(HideQuotes(Body(s, true))[0])
  {
    HideConcat(BodyOne(s[0], true), Body(s[1..], s[0] == BACKSLASH));
    HideEscape(s[0]);
    if BodyOne(s[0], true) == [s[0]] {
      assert HideQuotes([s[0]]) == (if s[0] == APOSTROPHE then HexEscape(APOSTROPHE) else [s[0]]) + HideQuotes([]);
    }
  }

  lemma {:induction false} UnhexBody(s: seq<byte>, afterBackslash: bool)
    ensures Unhex(HideQuotes(Body(s, afterBackslash))) == s
    decreases |s|
  {
    if s != [] {
      var b, rest := s[0], Body(s[1..], s[0] == BACKSLASH);
      HideConcat(BodyOne(b, afterBackslash), rest);
      UnhexBody(s[1..], b == BACKSLASH);
      assert [b] + s[1..] == s;
      if |BodyOne(b, afterBackslash)| == 4 {
        HideEscape(b);
        UnhexEscape(b, HideQuotes(rest));
      } else if b == APOSTROPHE {
        assert HideQuotes([b]) == HexEscape(b) + HideQuotes([]) == HexEscape(b);
        UnhexEscape(b, HideQuotes(rest));
      } else {
        assert HideQuotes([b]) == [b] + HideQuotes([]) == [b];
        if b == BACKSLASH && s[1..] != [] {
          BodyStart(s[1..]);
        }
        UnhexPlain(b, HideQuotes(rest));
      }
    }
  }

  /** The body of an escape is printable, whatever the text was. */
  lemma {:induction false} BodyIsPrintable(s: seq<byte>, afterBackslash: bool)
    ensures forall b <- HideQuotes(Body(s, afterBackslash)) :: IsPrint(b)
    decreases |s|
  {
    if s != [] {
      var one, rest := BodyOne(s[0], afterBackslash), Body(s[1..], s[0] == BACKSLASH);
      HideConcat(one, rest);
      BodyIsPrintable(s[1..], s[0] == BACKSLASH);
      OneIsPrintable(s[0], afterBackslash);
    }
  }

  lemma OneIsPrintable(b: byte, afterBackslash: bool)
    ensures forall c <- HideQuotes(BodyOne(b, afterBackslash)) :: IsPrint(c)
  {
    PrintableEscape(b);
    PrintableEscape(APOSTROPHE);
    HideEscape(b);
    assert HideQuotes([b]) == (if b == APOSTROPHE then HexEscape(APOSTROPHE) else [b]) + HideQuotes([]);
  }

  lemma PrintableEscape(b: byte)
    ensures forall c <- HexEscape(b) :: IsPrint(c)
  {
  }

  lemma ExtractWrapped(body: seq<byte>)
    ensures IsBinaryEscaped(LITERAL_OPEN + body + LITERAL_CLOSE)
    ensures Extract(LITERAL_OPEN + body + LITERAL_CLOSE) == Unhex(body)
  {
    var s := LITERAL_OPEN + body + LITERAL_CLOSE;
    assert s[..4] == LITERAL_OPEN && s[|s| - 3..] == LITERAL_CLOSE && s[4..|s| - 3] == body;
    assert s[..3][0] == APOSTROPHE;
  }

  lemma {:induction false} UnhexShorter(s: seq<byte>)
    ensures |Unhex(s)| <= |s|
    decreases |s|
  {
    if s != [] {
      if |s| >= 4 {
        UnhexShorter(s[4..]);
      }
      UnhexShorter(s[1..]);
    }
  }

  /** Every byte is printable, and no x stands right behind a backslash. */
  predicate NeedsNoEscape(s: seq<byte>) {
    && (forall k :: 0 <= k < |s| ==> IsPrint(s[k]))
    && (forall k :: 1 <= k < |s| ==> !(IsX(s[k]) && s[k - 1] == BACKSLASH))
  }

  /** A text of which the first byte may follow a backslash that is not part of it. */
  predicate Unescaped(s: seq<byte>, afterBackslash: bool) {
    NeedsNoEscape(s) && (s != [] && afterBackslash ==> !IsX(s[0]))
  }

  lemma UnescapedRest(s: seq<byte>, afterBackslash: bool)
    requires s != []
    ensures Unescaped(s, afterBackslash) <==>
      BodyOne(s[0], afterBackslash) == [s[0]] && Unescaped(s[1..], s[0] == BACKSLASH)
  {
    var rest := s[1..];
    assert forall k :: 1 <= k < |s| ==> s[k] == rest[k - 1];
    assert forall k :: 0 <= k < |rest| ==> rest[k] == s[k + 1];
    if Unescaped(rest, s[0] == BACKSLASH) {
      forall k | 2 <= k < |s| ensures !(IsX(s[k]) && s[k - 1] == BACKSLASH) {
        assert s[k] == rest[k - 1] && s[k - 1] == rest[k - 2];
      }
    }
    if NeedsNoEscape(s) {
      forall k | 1 <= k < |rest| ensures !(IsX(rest[k]) && rest[k - 1] == BACKSLASH) {
        assert rest[k] == s[k + 1] && rest[k - 1] == s[k];
      }
    }
  }

  /** The body is left as it is exactly for such a text. */
  lemma {:induction false} BodyUnchanged(s: seq<byte>, afterBackslash: bool)
    ensures Body(s, afterBackslash) == s <==> Unescaped(s, afterBackslash)
    decreases |s|
  {
    hide NeedsNoEscape;
    if s == [] {
      NothingUnescaped(afterBackslash);
    } else {
      var a, b := BodyOne(s[0], afterBackslash), Body(s[1..], s[0] == BACKSLASH);
      UnescapedRest(s, afterBackslash);
      BodyUnchanged(s[1..], s[0] == BACKSLASH);
      assert [s[0]] + s[1..] == s;
      if a + b == s {
        assert |a| == 1 && a == [(a + b)[0]] && b == (a + b)[1..];
      }
    }
  }

  lemma NothingUnescaped(afterBackslash: bool)
    ensures Unescaped([], afterBackslash)
  {
  }

  /**
   Extracting gives every byte string back from its binary escape, unless the string needs no escape and
   already looks like one.
   */
  lemma BinaryRoundTrip(s: seq<byte>)
    ensures Extract(BinaryEscape(s)) == s <==> !(NeedsNoEscape(s) && IsBinaryEscaped(s))
  {
    hide NeedsNoEscape;
    BodyUnchanged(s, false);
    if Body(s, false) != s {
      UnhexBody(s, false);
      ExtractWrapped(HideQuotes(Body(s, false)));
    } else if IsBinaryEscaped(s) {
      UnhexShorter(s[3..|s| - 2]);
      if |s| >= 7 {
        UnhexShorter(s[4..|s| - 3]);
      }
    }
  }

  /** The shortest text that is lost: `B"()"` is extracted to nothing. */
  lemma LooksEscaped()
    ensures var s := PLAIN_OPEN + PLAIN_CLOSE;
      NeedsNoEscape(s) && IsBinaryEscaped(s) && BinaryEscape(s) == s && Extract(s) == []
  {
    var s := PLAIN_OPEN + PLAIN_CLOSE;
    assert s == [UPPER_B, QUOTE, LPAREN, RPAREN, QUOTE];
    assert s[..3] == PLAIN_OPEN && s[|s| - 2..] == PLAIN_CLOSE && s[3..|s| - 2] == [];
    BodyUnchanged(s, false);
  }

  // ---------------------------------------------------------------- the loops

  lemma {:induction false} BodySnoc(s: seq<byte>, b: byte, afterBackslash: bool)
    ensures Body(s + [b], afterBackslash) == Body(s, afterBackslash)
      + BodyOne(b, if s == [] then afterBackslash else s[|s| - 1] == BACKSLASH)
    decreases |s|
  {
    if s == [] {
      assert s + [b] == [b] && [b][1..] == [];
    } else {
      assert (s + [b])[1..] == s[1..] + [b];
      BodySnoc(s[1..], b, s[0] == BACKSLASH);
      Joined(BodyOne(s[0], afterBackslash), Body(s[1..], s[0] == BACKSLASH),
             BodyOne(b, s[|s| - 1] == BACKSLASH));
      assert |s| > 1 ==> s[1..][|s[1..]| - 1] == s[|s| - 1];
    }
  }

  /** The last byte written tells whether the last byte read was a backslash. */
  lemma LastOfBody(s: seq<byte>)
    requires s != []
    ensures var r := Body(s, false); r != [] && (r[|r| - 1] == BACKSLASH <==> s[|s| - 1] == BACKSLASH)
  {
    var front, b := s[..|s| - 1], s[|s| - 1];
    assert front + [b] == s;
    BodySnoc(front, b, false);
  }

  method BinaryEscapeString(s: seq<byte>) returns (r: seq<byte>)
    ensures r == BinaryEscape(s)
  {
    r := [];
    assert s[..0] == [];
    for i := 0 to |s|
      invariant r == Body(s[..i], false)
    {
      var c := s[i];
      assert s[..i + 1] == s[..i] + [c];
      BodySnoc(s[..i], c, false);
      if i > 0 {
        LastOfBody(s[..i]);
      }
      if !IsPrint(c) {
        r := r + HexEscape(c);
      } else if IsX(c) {
        if r != [] && r[|r| - 1] == BACKSLASH {
          r := r + [BACKSLASH, LOWER_X] + (if c == LOWER_X then [55, 56] else [53, 56]);
        } else {
          r := r + [c];
        }
      } else {
        r := r + [c];
      }
    }
    assert s[..|s|] == s;
    if r != s {
      r := HideAllQuotes(r);
      r := LITERAL_OPEN + r;
      r := r + LITERAL_CLOSE;
    }
  }

  function CountQuotes(s: seq<byte>): nat {
    if s == [] then 0 else (if s[0] == APOSTROPHE then 1 else 0) + CountQuotes(s[1..])
  }

  lemma {:induction false} CountConcat(a: seq<byte>, b: seq<byte>)
    ensures CountQuotes(a + b) == CountQuotes(a) + CountQuotes(b)
    decreases |a|
  {
    if a == [] {
      assert a + b == b;
    } else {
      assert (a + b)[1..] == a[1..] + b;
      CountConcat(a[1..], b);
    }
  }

  lemma {:induction false} NoQuotes(s: seq<byte>)
    requires APOSTROPHE !in s
    ensures HideQuotes(s) == s && CountQuotes(s) == 0
    decreases |s|
  {
    if s != [] {
      NoQuotes(s[1..]);
    }
  }

  /** Always the first quote from the start of the text again, until there is none. */
  method HideAllQuotes(s: seq<byte>) returns (r: seq<byte>)
    ensures r == HideQuotes(s)
  {
    r := s;
    while APOSTROPHE in r
      invariant HideQuotes(r) == HideQuotes(s)
      decreases CountQuotes(r)
    {
      var at := 0;
      while r[at] != APOSTROPHE
        invariant at < |r| && APOSTROPHE !in r[..at]
        invariant APOSTROPHE in r
        decreases |r| - at
      {
        assert r[..at + 1] == r[..at] + [r[at]];
        assert r[..|r|] == r;
        at := at + 1;
      }
      HideFirst(r[..at], r[at + 1..]);
      assert r == r[..at] + ([APOSTROPHE] + r[at + 1..]);
      r := r[..at] + ([BACKSLASH] + [LOWER_X, 50, 55] + r[at + 1..]);
    }
    NoQuotes(r);
  }

  lemma HideFirst(front: seq<byte>, back: seq<byte>)
    ensures [BACKSLASH] + [LOWER_X, 50, 55] == HexEscape(APOSTROPHE)
    ensures HideQuotes(front + ([APOSTROPHE] + back)) == HideQuotes(front + (HexEscape(APOSTROPHE) + back))
    ensures CountQuotes(front + (HexEscape(APOSTROPHE) + back)) < CountQuotes(front + ([APOSTROPHE] + back))
  {
    HideConcat(front, [APOSTROPHE] + back);
    HideConcat(front, HexEscape(APOSTROPHE) + back);
    HideConcat(HexEscape(APOSTROPHE), back);
    HideEscape(APOSTROPHE);
    CountFirst(front, back);
    assert ([APOSTROPHE] + back)[1..] == back;
  }

  lemma CountFirst(front: seq<byte>, back: seq<byte>)
    ensures CountQuotes(front + (HexEscape(APOSTROPHE) + back)) < CountQuotes(front + ([APOSTROPHE] + back))
  {
    assert ([APOSTROPHE] + back)[1..] == back;
    CountConcat(front, [APOSTROPHE] + back);
    CountConcat(front, HexEscape(APOSTROPHE) + back);
    CountConcat(HexEscape(APOSTROPHE), back);
    NoQuotes(HexEscape(APOSTROPHE));
  }

  /** The byte at a position of a C++ string, which ends with a zero byte of its own. */
  function ByteAt(s: seq<byte>, i: nat): byte
    requires i <= |s|
  {
    if i < |s| then s[i] else NUL
  }

  /** One step of reading back, at a position where the closing is still to come. */
  lemma UnhexAt(s: seq<byte>, loc: nat, end: nat)
    requires loc < end && end + 2 <= |s| && s[end] == RPAREN && s[end + 1] == QUOTE
    ensures var d1, d2 := HexDigit(ByteAt(s, loc + 2)), HexDigit(ByteAt(s, loc + 3));
      Unhex(s[loc..end]) ==
        if s[loc] == BACKSLASH && IsX(s[loc + 1]) && d1.Some? && d2.Some? && loc + 4 <= end then
          [16 * d1.value + d2.value] + Unhex(s[loc + 4..end])
        else [s[loc]] + Unhex(s[loc + 1..end])
    ensures s[loc] == BACKSLASH && IsX(s[loc + 1]) && loc + 4 > end ==>
      HexDigit(ByteAt(s, loc + 2)).None? || HexDigit(ByteAt(s, loc + 3)).None?
  {
    var rest := s[loc..end];
    assert rest[1..] == s[loc + 1..end];
    if loc + 4 <= end {
      assert rest[4..] == s[loc + 4..end];
    }
  }

  /** The loop looks ahead past the end of the body, but never takes a byte of the closing. */
  method UnhexUpTo(s: seq<byte>, start: nat, end: nat) returns (out: seq<byte>)
    requires start <= end && end + 2 <= |s| && s[end] == RPAREN && s[end + 1] == QUOTE
    ensures out == Unhex(s[start..end])
  {
    hide Unhex, HexDigit;
    out := [];
    var loc := start;
    assert [] + Unhex(s[start..end]) == Unhex(s[start..end]);
    while loc < end
      invariant start <= loc <= end
      invariant Unhex(s[start..end]) == out + Unhex(s[loc..end])
    {
      UnhexAt(s, loc, end);
      if s[loc] == BACKSLASH && IsX(s[loc + 1]) {
        var d1, d2 := HexDigit(ByteAt(s, loc + 2)), HexDigit(ByteAt(s, loc + 3));
        if d1.Some? && d2.Some? {
          Joined(out, [16 * d1.value + d2.value], Unhex(s[loc + 4..end]));
          out, loc := out + [16 * d1.value + d2.value], loc + 4;
          continue;
        }
      }
      Joined(out, [s[loc]], Unhex(s[loc + 1..end]));
      out, loc := out + [s[loc]], loc + 1;
    }
    assert s[loc..end] == [];
    UnhexNothing();
    assert out + [] == out;
  }

  lemma UnhexNothing()
    ensures Unhex([]) == []
  {
  }

  method ExtractBinaryString(s: seq<byte>) returns (out: seq<byte>)
    ensures out == Extract(s)
  {
    var start, tail := 0, 0;
    if Wrapped(s, PLAIN_OPEN, PLAIN_CLOSE) {
      start, tail := 3, 2;
    } else if Wrapped(s, LITERAL_OPEN, LITERAL_CLOSE) {
      start, tail := 4, 3;
    }
    if start == 0 {
      return s;
    }
    assert s[|s| - tail..][0] == RPAREN && s[|s| - tail..][1] == QUOTE;
    out := UnhexUpTo(s, start, |s| - tail);
  }
}

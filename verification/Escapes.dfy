/** Backslash escapes of command lines and configuration values. */
module Escapes {
  import opened Bytes
  import opened Unicode

  /** The letter an escapable byte is written as. */
  function EscapeCode(b: byte): Option<byte> {
    if b == 8 then Some(LOWER_B)
    else if b == TAB then Some(LOWER_T)
    else if b == NEWLINE then Some(LOWER_N)
    else if b == 12 then Some(LOWER_F)
    else if b == RETURN then Some(LOWER_R)
    else if b == QUOTE || b == BACKSLASH then Some(b)
    else None
  }

  /** The byte a letter behind a backslash stands for. */
  function EscapedByte(c: byte): Option<byte> {
    if c == LOWER_B then Some(8)
    else if c == LOWER_T then Some(TAB)
    else if c == LOWER_N then Some(NEWLINE)
    else if c == LOWER_F then Some(12)
    else if c == LOWER_R then Some(RETURN)
    else if c == QUOTE || c == BACKSLASH then Some(c)
    else None
  }

  function EscapeOne(b: byte): (r: seq<byte>)
    ensures 1 <= |r| <= 2
  {
    if EscapeCode(b).Some? then [BACKSLASH, EscapeCode(b).value] else [b]
  }

  function AddEscaped(s: seq<byte>): (r: seq<byte>)
    ensures |s| <= |r|
    ensures s == [] <==> r == []
  {
    if s == [] then [] else EscapeOne(s[0]) + AddEscaped(s[1..])
  }

  predicate HasEscapable(s: seq<byte>) {
    exists k :: 0 <= k < |s| && EscapeCode(s[k]).Some?
  }

  /** What a code point adds to the output: nothing beyond Unicode, an exception for a surrogate. */
  function CodeBytes(code: nat): Option<seq<byte>> {
    if IsScalar(code) then Some(Utf8(code)) else if code <= 0xDFFF then None else Some([])
  }

  function KeepCode(code: Option<nat>, r: Option<seq<byte>>): Option<seq<byte>> {
    if code.None? || CodeBytes(code.value).None? then None else Keep(CodeBytes(code.value).value, r)
  }

  /** Removal of the escapes; None stands for the exception. */
  function RemoveEscaped(s: seq<byte>): Option<seq<byte>>
    decreases |s|
  {
    if s == [] then Some([])
    else if s[0] != BACKSLASH then Keep([s[0]], RemoveEscaped(s[1..]))
    else if |s| < 2 then None
    else if EscapedByte(s[1]).Some? then Keep([EscapedByte(s[1]).value], RemoveEscaped(s[2..]))
    else if s[1] == LOWER_U then
      if |s| < 6 then None else KeepCode(HexValue(s, 2, 4), RemoveEscaped(s[6..]))
    else if s[1] == 85 then
      if |s| < 10 then None else KeepCode(HexValue(s, 2, 8), RemoveEscaped(s[10..]))
    else if s[1] == 48 then Keep([NUL], RemoveEscaped(s[2..]))
    else None
  }

  // ---------------------------------------------------------------- the two are inverse

  lemma {:induction false} RemoveAdded(s: seq<byte>, rest: seq<byte>)
    ensures RemoveEscaped(AddEscaped(s) + rest) == Keep(s, RemoveEscaped(rest))
    decreases |s|
  {
    if s == [] {
      assert AddEscaped(s) + rest == rest;
      KeepNothing(RemoveEscaped(rest));
    } else {
      var a, b := EscapeOne(s[0]), AddEscaped(s[1..]);
      Joined(a, b, rest);
      RemoveAdded(s[1..], rest);
      RemoveOne(s[0], b + rest);
      KeepConcat([s[0]], s[1..], RemoveEscaped(rest));
      assert [s[0]] + s[1..] == s;
    }
  }

  lemma RemoveOne(b: byte, rest: seq<byte>)
    ensures RemoveEscaped(EscapeOne(b) + rest) == Keep([b], RemoveEscaped(rest))
  {
    hide HexValue, CodeBytes, Keep;
    var t := EscapeOne(b) + rest;
    if EscapeCode(b).Some? {
      assert EscapedByte(EscapeCode(b).value) == Some(b);
      assert t[2..] == rest;
    } else {
      assert t[1..] == rest;
    }
  }

  /** Removing the escapes gives every byte string back. */
  lemma EscapeRoundTrip(s: seq<byte>)
    ensures RemoveEscaped(AddEscaped(s)) == Some(s)
  {
    RemoveAdded(s, []);
    assert AddEscaped(s) + [] == AddEscaped(s) && s + [] == s;
  }

  /** Escaping leaves a text alone that has nothing to escape. */
  lemma {:induction false} NothingToEscape(s: seq<byte>)
    requires !HasEscapable(s)
    ensures AddEscaped(s) == s
    decreases |s|
  {
    if s != [] {
      assert forall k :: 0 <= k < |s[1..]| ==> s[1..][k] == s[k + 1];
      NothingToEscape(s[1..]);
    }
  }

  /** Removing escapes never adds a byte. */
  lemma {:induction false} RemovalShortens(s: seq<byte>)
    ensures RemoveEscaped(s).Some? ==> |RemoveEscaped(s).value| <= |s|
    decreases |s|
  {
    hide HexValue, CodeBytes;
    if |s| >= 1 {
      RemovalShortens(s[1..]);
    }
    if |s| >= 2 {
      RemovalShortens(s[2..]);
    }
    if |s| >= 6 {
      RemovalShortens(s[6..]);
      CodeIsShort(s, 4);
    }
    if |s| >= 10 {
      RemovalShortens(s[10..]);
      CodeIsShort(s, 8);
    }
  }

  lemma CodeIsShort(s: seq<byte>, n: nat)
    requires 2 + n <= |s|
    ensures var code := HexValue(s, 2, n);
      code.Some? && CodeBytes(code.value).Some? ==> |CodeBytes(code.value).value| <= 4
  {
    hide HexValue;
  }

  // ---------------------------------------------------------------- the loops

  lemma {:induction false} AddSnoc(s: seq<byte>, b: byte)
    ensures AddEscaped(s + [b]) == AddEscaped(s) + EscapeOne(b)
    decreases |s|
  {
    if s == [] {
      assert s + [b] == [b] && [b][1..] == [];
      assert EscapeOne(b) + [] == EscapeOne(b) == [] + EscapeOne(b);
    } else {
      assert (s + [b])[1..] == s[1..] + [b];
      AddSnoc(s[1..], b);
      Joined(EscapeOne(s[0]), AddEscaped(s[1..]), EscapeOne(b));
    }
  }

  method AddEscapedCharacters(str: seq<byte>) returns (out: seq<byte>)
    ensures out == AddEscaped(str)
  {
    out := [];
    assert str[..0] == [];
    for i := 0 to |str|
      invariant out == AddEscaped(str[..i])
    {
      assert str[..i + 1] == str[..i] + [str[i]];
      AddSnoc(str[..i], str[i]);
      var code := EscapeCode(str[i]);
      if code.Some? {
        out := out + [BACKSLASH];
        out := out + [code.value];
      } else {
        out := out + [str[i]];
      }
    }
    assert str[..|str|] == str;
  }

  function Power16(k: nat): (r: nat)
    ensures r > 0
  {
    if k == 0 then 1 else 16 * Power16(k - 1)
  }

  /** Reads n hexadecimal digits, the most significant one first; None stands for the exception. */
  method ReadHex(str: seq<byte>, p: nat, n: nat) returns (code: Option<nat>)
    requires p + n <= |str| && n > 0
    ensures code == HexValue(str, p, n)
  {
    hide Power16, HexValue;
    HexNothing(str, p);
    var value, multiplier := 0, Power16(n - 1);
    for ii := 0 to n
      invariant HexValue(str, p, ii).Some?
      invariant ii < n ==> multiplier == Power16(n - 1 - ii)
      invariant value == HexValue(str, p, ii).value * Power16(n - ii)
    {
      var digit := HexDigit(str[p + ii]);
      HexNext(str, p, ii);
      if digit.None? {
        HexPrefix(str, p, ii + 1, n);
        return None;
      }
      Shifted(HexValue(str, p, ii).value, digit.value, n - ii);
      value := value + digit.value * multiplier;
      multiplier := multiplier / 16;
    }
    PowerZero();
    return Some(value);
  }

  lemma HexNothing(t: seq<byte>, p: nat)
    requires p <= |t|
    ensures HexValue(t, p, 0) == Some(0)
  {
  }

  lemma HexNext(t: seq<byte>, p: nat, k: nat)
    requires p + k < |t|
    ensures var high, low := HexValue(t, p, k), HexDigit(t[p + k]);
      HexValue(t, p, k + 1) == if high.None? || low.None? then None else Some(16 * high.value + low.value)
  {
  }

  lemma PowerZero()
    ensures Power16(0) == 1
  {
  }

  /** One more digit, at the place that k - 1 digits leave for it. */
  lemma Shifted(high: nat, low: nat, k: nat)
    requires k > 0
    ensures high * Power16(k) + low * Power16(k - 1) == (16 * high + low) * Power16(k - 1)
    ensures low * Power16(k - 1) >= 0
    ensures k > 1 ==> Power16(k - 1) / 16 == Power16(k - 2)
  {
    var m := Power16(k - 1);
    assert Power16(k) == 16 * m;
    assert high * (16 * m) == (16 * high) * m;
    assert k > 1 ==> m == 16 * Power16(k - 2);
  }

  method RemoveEscapedCharacters(str: seq<byte>) returns (r: Option<seq<byte>>)
    ensures r == RemoveEscaped(str)
  {
    hide RemoveEscaped;
    var out: seq<byte> := [];
    var loc := 0;
    KeepNothing(RemoveEscaped(str));
    assert str[0..] == str;
    while loc < |str|
      invariant loc <= |str|
      invariant RemoveEscaped(str) == Keep(out, RemoveEscaped(str[loc..]))
    {
      ghost var rest := str[loc..];
      RemoveAt(str, loc);
      if str[loc] == BACKSLASH {
        if |str| - loc < 2 {
          return None;
        }
        var c := str[loc + 1];
        var b := EscapedByte(c);
        if b.Some? {
          KeepConcat(out, [b.value], RemoveEscaped(str[loc + 2..]));
          out, loc := out + [b.value], loc + 2;
        } else if c == LOWER_U || c == 85 {
          var n := if c == LOWER_U then 4 else 8;
          if |str| - loc < n + 2 {
            return None;
          }
          var code := ReadHex(str, loc + 2, n);
          if code.None? {
            return None;
          }
          var longer := AppendCodepoint(out, code.value);
          if longer.None? {
            return None;
          }
          KeepConcat(out, CodeBytes(code.value).value, RemoveEscaped(str[loc + 2 + n..]));
          assert out + [] == out;
          out, loc := longer.value, loc + 2 + n;
        } else if c == 48 {
          KeepConcat(out, [NUL], RemoveEscaped(str[loc + 2..]));
          out, loc := out + [NUL], loc + 2;
        } else {
          return None;
        }
      } else {
        KeepConcat(out, [str[loc]], RemoveEscaped(str[loc + 1..]));
        out, loc := out + [str[loc]], loc + 1;
      }
    }
    assert str[loc..] == [];
    RemoveNothing();
    assert out + [] == out;
    return Some(out);
  }

  lemma RemoveNothing()
    ensures RemoveEscaped([]) == Some([])
  {
  }

  /** One step of the removal, read at a position. */
  lemma RemoveAt(str: seq<byte>, loc: nat)
    requires loc < |str|
    ensures var s := str[loc..];
      RemoveEscaped(s) ==
        if str[loc] != BACKSLASH then Keep([str[loc]], RemoveEscaped(str[loc + 1..]))
        else if loc + 1 == |str| then None
        else if EscapedByte(str[loc + 1]).Some? then
          Keep([EscapedByte(str[loc + 1]).value], RemoveEscaped(str[loc + 2..]))
        else if str[loc + 1] == LOWER_U then
          if loc + 6 > |str| then None else KeepCode(HexValue(str, loc + 2, 4), RemoveEscaped(str[loc + 6..]))
        else if str[loc + 1] == 85 then
          if loc + 10 > |str| then None else KeepCode(HexValue(str, loc + 2, 8), RemoveEscaped(str[loc + 10..]))
        else if str[loc + 1] == 48 then Keep([NUL], RemoveEscaped(str[loc + 2..]))
        else None
  {
    hide HexValue, CodeBytes;
    var s := str[loc..];
    assert s[1..] == str[loc + 1..];
    if |s| >= 2 {
      assert s[2..] == str[loc + 2..];
    }
    if |s| >= 6 {
      assert s[6..] == str[loc + 6..];
      HexAt(str, loc, s, 4);
    }
    if |s| >= 10 {
      assert s[10..] == str[loc + 10..];
      HexAt(str, loc, s, 8);
    }
  }

  lemma {:induction false} HexAt(str: seq<byte>, loc: nat, s: seq<byte>, n: nat)
    requires loc <= |str| && s == str[loc..] && 2 + n <= |s|
    ensures HexValue(s, 2, n) == HexValue(str, loc + 2, n)
    decreases n
  {
    if n > 0 {
      HexAt(str, loc, s, n - 1);
    }
  }
}

/**
 The printer: it writes into a block that is either fixed or grows, and is proved to write the pure
 rendering of the tree. The buffer is terminated behind what each printing function wrote, and that
 terminator is how the next step finds the end of the text.
 */
module Printing {
  import opened Bytes
  import opened JsonValue
  import opened JsonNumber
  import opened JsonString
  import opened JsonRender
  import opened Growth

  lemma {:induction false} EscapedSnoc(s: seq<byte>, b: byte)
    ensures Escaped(s + [b]) == Escaped(s) + EscapeByte(b)
    decreases |s|
  {
    hide EscapeByte;
    if s == [] {
      assert [b][1..] == [];
      assert s + [b] == [b];
      assert Escaped([b]) == EscapeByte(b) + [] == EscapeByte(b);
      assert Escaped(s) + EscapeByte(b) == EscapeByte(b);
    } else {
      assert (s + [b])[1..] == s[1..] + [b];
      EscapedSnoc(s[1..], b);
      Joined(EscapeByte(s[0]), Escaped(s[1..]), EscapeByte(b));
    }
  }

  /** The part of an escaped text that stems from the first i bytes, and the next step of it. */
  lemma EscapedPrefix(s: seq<byte>, i: nat)
    requires i < |s|
    ensures Escaped(s[..i + 1]) == Escaped(s[..i]) + EscapeByte(s[i])
    ensures |Escaped(s[..i + 1])| <= |Escaped(s)|
  {
    assert s[..i + 1] == s[..i] + [s[i]];
    EscapedSnoc(s[..i], s[i]);
    EscapedMonotone(s, i + 1);
  }

  lemma {:induction false} EscapedMonotone(s: seq<byte>, i: nat)
    requires i <= |s|
    ensures |Escaped(s[..i])| + |Escaped(s[i..])| == |Escaped(s)|
    decreases |s|
  {
    hide EscapeByte;
    if i == 0 {
      assert s[..0] == [] && s[0..] == s;
    } else {
      EscapedMonotone(s[1..], i - 1);
      assert s[1..][..i - 1] == s[..i][1..];
      assert s[1..][i - 1..] == s[i..];
    }
  }

  lemma {:induction false} NothingEscaped(s: seq<byte>)
    requires |Escaped(s)| == |s|
    ensures Escaped(s) == s
    decreases |s|
  {
    if s != [] {
      NothingEscaped(s[1..]);
      assert EscapeByte(s[0]) == [s[0]];
    }
  }

  class PrintBuffer {
    var buffer: array<byte>
    var length: nat
    var offset: nat
    var depth: nat
    const noalloc: bool
    const format: bool
    ghost const initial: nat
    ghost var requests: seq<nat>
    ghost var copied: nat

    constructor (block: array<byte>, noalloc: bool, format: bool)
      requires block.Length <= INT_MAX
      ensures Valid() && buffer == block && offset == 0 && depth == 0
      ensures this.noalloc == noalloc && this.format == format
      ensures requests == [] && copied == 0 && initial == block.Length
    {
      buffer, length, offset, depth := block, block.Length, 0, 0;
      this.noalloc, this.format := noalloc, format;
      initial, requests, copied := block.Length, [], 0;
    }

    /** The cursor is inside the block, and the block is what the requests so far made of it. */
    ghost predicate Valid()
      reads this
    {
      && buffer.Length == length <= INT_MAX
      && (offset < length || (length == 0 && offset == 0))
      && initial <= INT_MAX
      && (forall k :: 0 <= k < |requests| ==> requests[k] <= INT_MAX)
      && Run(Capacity(initial, 0), requests) == Capacity(length, copied)
    }

    /** The bytes this printer can ever have. */
    ghost function Limit(): nat
      reads this
    {
      if noalloc then length else INT_MAX
    }

    /** `text` stands in the block with its terminator, and the cursor is on its unprocessed end. */
    ghost predicate Holds(text: seq<byte>)
      reads this, buffer
    {
      && buffer.Length == length
      && offset <= |text| < length
      && buffer[..|text|] == text && buffer[|text|] == NUL
      && (forall k :: offset <= k < |text| ==> text[k] != NUL)
    }

    /** The depth plays no part in what the block holds. */
    twostate lemma HoldsFrame(text: seq<byte>)
      requires old(Holds(text)) && buffer == old(buffer) && length == old(length) && offset == old(offset)
      requires buffer[..] == old(buffer[..])
      ensures Holds(text)
    {
      assert forall k :: 0 <= k < buffer.Length ==> buffer[k] == buffer[..][k];
      assert buffer[..|text|] == buffer[..][..|text|];
      assert old(buffer[..|text|]) == old(buffer[..])[..|text|];
      assert buffer[|text|] == buffer[..][|text|] && old(buffer[|text|]) == old(buffer[..])[|text|];
    }

    /** Text and terminator are in place behind the cursor. */
    lemma HoldsText(before: seq<byte>, s: seq<byte>)
      requires buffer.Length == length && NulFree(s) && offset + |s| < length
      requires buffer[..offset] == before && buffer[offset..offset + |s|] == s && buffer[offset + |s|] == NUL
      ensures Holds(before + s)
    {
      assert buffer[..offset + |s|] == buffer[..offset] + buffer[offset..offset + |s|];
    }

    /** Room for `needed` more bytes and one to spare, by reallocation where that is allowed. */
    method Ensure(needed: nat) returns (ok: bool)
      requires Valid()
      modifies this`buffer, this`length, this`requests, this`copied
      ensures Valid()
      ensures ok <==> offset + needed + 1 <= old(Limit())
      ensures ok ==> offset + needed + 1 <= length
      ensures old(length) <= length && (noalloc ==> length == old(length))
      ensures buffer == old(buffer) || fresh(buffer)
      ensures noalloc ==> buffer == old(buffer)
      ensures forall k :: 0 <= k < old(length) ==> buffer[k] == old(buffer[k])
      ensures ok ==> buffer[..offset] == old(buffer[..offset])
    {
      hide Run;
      if length > 0 && offset >= length {
        return false;
      }
      if needed > INT_MAX {
        return false;
      }
      var total := needed + offset + 1;
      if total <= length {
        return true;
      }
      if noalloc {
        return false;
      }
      var newSize;
      if total > INT_MAX / 2 {
        if total <= INT_MAX {
          newSize := INT_MAX;
        } else {
          return false;
        }
      } else {
        newSize := total * 2;
      }
      var block := Reallocate(buffer, newSize);
      RunStep(Capacity(initial, 0), requests, total);
      copied := copied + length;
      requests := requests + [total];
      length := newSize;
      buffer := block;
      return true;
    }

    /** A larger block that begins with the bytes of the old one. */
    static method Reallocate(block: array<byte>, size: nat) returns (r: array<byte>)
      requires block.Length <= size
      ensures fresh(r) && r.Length == size
      ensures forall k :: 0 <= k < block.Length ==> r[k] == block[k]
    {
      r := new byte[size](_ => NUL);
      forall k | 0 <= k < block.Length {
        r[k] := block[k];
      }
    }

    /** Finds the terminator behind the text just printed. */
    method UpdateOffset(ghost text: seq<byte>)
      requires Valid() && Holds(text)
      modifies this`offset
      ensures Valid() && Holds(text) && offset == |text| <= buffer.Length && buffer[..offset] == text
    {
      while buffer[offset] != NUL
        invariant offset <= |text| && Holds(text) && Valid()
        invariant forall k :: offset <= k < |text| ==> buffer[k] != NUL
        decreases |text| - offset
      {
        offset := offset + 1;
      }
    }

    /** The bytes of `s` are stored at `at`, one after the other. */
    method Store(at: nat, s: seq<byte>)
      requires at + |s| <= buffer.Length
      modifies buffer
      ensures forall k :: 0 <= k < |s| ==> buffer[at + k] == s[k]
      ensures forall k :: 0 <= k < buffer.Length && !(at <= k < at + |s|) ==> buffer[k] == old(buffer[k])
    {
      for i := 0 to |s|
        invariant forall k :: 0 <= k < i ==> buffer[at + k] == s[k]
        invariant forall k :: 0 <= k < buffer.Length && !(at <= k < at + i) ==> buffer[k] == old(buffer[k])
      {
        buffer[at + i] := s[i];
      }
    }

    /** Punctuation: room is asked for, the bytes are stored and the cursor moves behind them. */
    method Append(s: seq<byte>, needed: nat, terminate: bool) returns (ok: bool)
      requires Valid() && |s| + (if terminate then 1 else 0) <= needed
      modifies this`buffer, this`length, this`requests, this`copied, this`offset, buffer
      ensures ok ==> Valid() && offset == old(offset) + |s| <= buffer.Length
      ensures ok ==> buffer[..offset] == old(buffer[..offset]) + s
      ensures ok <==> old(offset) + needed + 1 <= old(Limit())
      ensures Limit() == old(Limit())
      ensures buffer == old(buffer) || fresh(buffer)
      ensures noalloc ==> buffer == old(buffer)
    {
      hide Run;
      ok := Ensure(needed);
      if ok {
        assert buffer[..offset] == old(buffer[..offset]);
        ghost var before := buffer[..offset];
        Store(offset, if terminate then s + [NUL] else s);
        assert buffer[..offset] == before;
        assert forall k :: 0 <= k < |s| ==> (s + [NUL])[k] == s[k];
        offset := offset + |s|;
        assert buffer[..offset] == before + s;
      }
    }

    /** Text that is stored with its terminator while the cursor stays in front of it. */
    method Put(s: seq<byte>) returns (ok: bool)
      requires Valid() && NulFree(s)
      modifies this`buffer, this`length, this`requests, this`copied, buffer
      ensures ok ==> Valid() && Holds(old(buffer[..offset]) + s)
      ensures ok <==> offset + |s| + 2 <= old(Limit())
      ensures Limit() == old(Limit())
      ensures buffer == old(buffer) || fresh(buffer)
      ensures noalloc ==> buffer == old(buffer)
    {
      ok := Ensure(|s| + 1);
      if ok {
        assert buffer[..offset] == old(buffer[..offset]);
        ghost var before := buffer[..offset];
        Store(offset, s + [NUL]);
        assert (s + [NUL])[|s|] == NUL && buffer[offset + |s|] == NUL;
        assert forall k :: 0 <= k < |s| ==> (s + [NUL])[k] == s[k];
        assert buffer[..offset] == before;
        HoldsText(before, s);
      }
    }

    /** A number goes through a small buffer of its own; the cursor moves behind it at once. */
    method PrintNumber(x: real) returns (ok: bool)
      requires Valid() && IsShortInteger(x)
      modifies this`buffer, this`length, this`requests, this`copied, this`offset, buffer
      ensures ok ==> Valid() && Holds(old(buffer[..offset]) + IntText(x.Floor)) && old(offset) <= offset
      ensures ok <==> old(offset) + |IntText(x.Floor)| + 2 <= old(Limit())
      ensures Limit() == old(Limit())
      ensures buffer == old(buffer) || fresh(buffer)
      ensures noalloc ==> buffer == old(buffer)
    {
      hide IntText;
      var number := IntText(x.Floor);
      IntTextLength(x.Floor);
      if |number| > 25 {
        return false;
      }
      ghost var text := buffer[..offset] + number;
      ok := Put(number);
      if ok {
        offset := offset + |number|;
      }
    }

    /** First pass over a string: how many bytes escaping adds. */
    static method CountEscapes(s: seq<byte>) returns (extra: nat)
      requires NulFree(s)
      ensures |s| + extra == |Escaped(s)|
    {
      extra := 0;
      assert s[..0] == [];
      for i := 0 to |s|
        invariant i + extra == |Escaped(s[..i])|
      {
        EscapedPrefix(s, i);
        var b := s[i];
        if b == QUOTE || b == BACKSLASH || b == 8 || b == 12 || b == NEWLINE || b == RETURN || b == TAB {
          extra := extra + 1;
        } else if b < 32 {
          extra := extra + 5;
        }
      }
      assert s[..|s|] == s;
    }

    /** Second pass: the escaped bytes go between the quotes, one input byte at a time. */
    method StoreEscaped(s: seq<byte>, at: nat)
      requires NulFree(s) && at + |Escaped(s)| < buffer.Length
      modifies buffer
      ensures forall k :: 0 <= k < |Escaped(s)| ==> buffer[at + k] == Escaped(s)[k]
      ensures forall k :: 0 <= k < at ==> buffer[k] == old(buffer[k])
    {
      hide Escaped;
      var o := at;
      EscapedOfNothing();
      assert s[..0] == [];
      for i := 0 to |s|
        invariant o == at + |Escaped(s[..i])| <= at + |Escaped(s)|
        invariant forall k :: 0 <= k < |Escaped(s[..i])| ==> buffer[at + k] == Escaped(s[..i])[k]
        invariant forall k :: 0 <= k < at ==> buffer[k] == old(buffer[k])
      {
        EscapedPrefix(s, i);
        var b := s[i];
        var piece := EscapeByte(b);
        if b > 31 && b != QUOTE && b != BACKSLASH {
          buffer[o] := b;
        } else {
          Store(o, if |piece| == 6 then piece + [NUL] else piece);
        }
        assert forall k :: 0 <= k < |piece| ==> (piece + [NUL])[k] == piece[k];
        assert forall k :: 0 <= k < |piece| ==> buffer[o + k] == piece[k];
        ghost var done := Escaped(s[..i]) + piece;
        assert forall k :: |done| - |piece| <= k < |done| ==> done[k] == piece[k - (|done| - |piece|)];
        o := o + |piece|;
      }
      assert s[..|s|] == s;
    }

    /** The content of a literal; a text with nothing to escape is copied as a whole. */
    method StoreContent(s: seq<byte>, at: nat, length: nat)
      requires NulFree(s) && length == |Escaped(s)| && at + length < buffer.Length
      modifies buffer
      ensures buffer[at..at + length] == Escaped(s)
      ensures forall k :: 0 <= k < at ==> buffer[k] == old(buffer[k])
    {
      hide Escaped;
      if length == |s| {
        NothingEscaped(s);
        Store(at, s);
      } else {
        StoreEscaped(s, at);
      }
    }

    /** The quotes, what is between them, and the terminator. */
    method StoreQuoted(s: seq<byte>, outputLength: nat)
      requires NulFree(s) && outputLength == |Escaped(s)| && offset + outputLength + 2 < buffer.Length
      modifies buffer
      ensures |Quoted(s)| == outputLength + 2 && buffer[offset + outputLength + 2] == NUL
      ensures buffer[offset..offset + |Quoted(s)|] == Quoted(s)
      ensures buffer[..offset] == old(buffer[..offset])
    {
      hide Escaped;
      buffer[offset] := QUOTE;
      StoreContent(s, offset + 1, outputLength);
      assert buffer[offset] == QUOTE;
      buffer[offset + outputLength + 1] := QUOTE;
      buffer[offset + outputLength + 2] := NUL;
      QuotedAt(buffer, offset, Escaped(s));
    }

    /** A literal; a missing string is printed as an empty one. */
    method PrintString(input: Option<seq<byte>>) returns (ok: bool)
      requires Valid() && (input.Some? ==> NulFree(input.value))
      modifies this`buffer, this`length, this`requests, this`copied, buffer
      ensures var s := if input.Some? then input.value else [];
        && (ok ==> Valid() && Holds(old(buffer[..offset]) + Quoted(s)))
        && (ok <==> offset + |Quoted(s)| + 2 <= old(Limit()))
      ensures Limit() == old(Limit())
      ensures buffer == old(buffer) || fresh(buffer)
      ensures noalloc ==> buffer == old(buffer)
    {
      hide Escaped, Quoted, Run, Holds;
      if input.None? {
        QuotedNothing();
        ok := Put([QUOTE, QUOTE]);
      } else {
        ok := PrintLiteral(input.value);
      }
    }

    method PrintLiteral(s: seq<byte>) returns (ok: bool)
      requires Valid() && NulFree(s)
      modifies this`buffer, this`length, this`requests, this`copied, buffer
      ensures ok ==> Valid() && Holds(old(buffer[..offset]) + Quoted(s))
      ensures ok <==> offset + |Quoted(s)| + 2 <= old(Limit())
      ensures Limit() == old(Limit())
      ensures buffer == old(buffer) || fresh(buffer)
      ensures noalloc ==> buffer == old(buffer)
    {
      QuotedNulFree(s);
      hide Escaped, Quoted, Run, Holds;
      var extra := CountEscapes(s);
      ok := Ensure(|s| + extra + 3);
      if ok {
        StoreLiteral(s, |s| + extra);
      }
    }

    method StoreLiteral(s: seq<byte>, outputLength: nat)
      requires Valid() && NulFree(s) && outputLength == |Escaped(s)| && offset + outputLength + 2 < length
      modifies buffer
      ensures Valid() && Holds(old(buffer[..offset]) + Quoted(s))
    {
      QuotedNulFree(s);
      hide Escaped, Quoted, Run, Holds;
      StoreQuoted(s, outputLength);
      HoldsText(buffer[..offset], Quoted(s));
    }

    // -------------------------------------------------------------- values, arrays and objects

    method PrintValue(j: Json) returns (ok: bool)
      requires Valid() && Printable(j)
      modifies this, buffer
      ensures ok ==> Valid() && Holds(old(buffer[..offset]) + Render(j, format, old(depth)))
      ensures ok ==> old(offset) <= offset && depth == old(depth)
      ensures ok <==> old(offset) + |Render(j, format, old(depth))| + 2 <= old(Limit())
      ensures Limit() == old(Limit())
      ensures buffer == old(buffer) || fresh(buffer)
      ensures noalloc ==> buffer == old(buffer)
      decreases j, 0
    {
      hide Run, Holds, RenderItems, RenderMembers, Quoted, IntText;
      match j
      case Null => ok := Put(NULL_TEXT);
      case Bool(b) => ok := Put(if b then TRUE_TEXT else FALSE_TEXT);
      case Num(x) => ok := PrintNumber(x);
      case Str(s) => ok := PrintString(Some(s));
      case Arr(items) => ok := PrintArray(items);
      case Obj(members) => ok := PrintObject(members);
    }

    /** The end of an array or object, one level further out. */
    method PutClosing(s: seq<byte>, ghost whole: seq<byte>) returns (ok: bool)
      requires Valid() && NulFree(s) && depth > 0 && whole == buffer[..offset] + s
      modifies this`buffer, this`length, this`requests, this`copied, this`depth, buffer
      ensures ok ==> Valid() && Holds(whole) && depth == old(depth) - 1
      ensures ok <==> |whole| + 2 <= old(Limit())
      ensures Limit() == old(Limit())
      ensures buffer == old(buffer) || fresh(buffer)
      ensures noalloc ==> buffer == old(buffer)
    {
      hide Run, Holds;
      ok := Put(s);
      if ok {
        label Closed:
        depth := depth - 1;
        HoldsFrame@Closed(whole);
      }
    }

    method PrintArray(items: seq<Json>) returns (ok: bool)
      requires Valid() && AllPrintable(items)
      modifies this, buffer
      ensures ok ==> Valid() && Holds(old(buffer[..offset]) + Render(Arr(items), format, old(depth)))
      ensures ok ==> old(offset) <= offset && depth == old(depth)
      ensures ok <==> old(offset) + |Render(Arr(items), format, old(depth))| + 2 <= old(Limit())
      ensures Limit() == old(Limit())
      ensures buffer == old(buffer) || fresh(buffer)
      ensures noalloc ==> buffer == old(buffer)
      decreases items, 2
    {
      hide Run, Holds, Render, RenderItems, Printable, AllPrintable;
      ghost var whole := buffer[..offset] + Render(Arr(items), format, depth);
      ArrayText(buffer[..offset], items, format, depth);
      ok := Append([LBRACKET], 1, false);
      if ok {
        depth := depth + 1;
        ok := PrintElements(items);
        if ok {
          ok := PutClosing([RBRACKET], whole);
        }
      }
    }

    /** The loop over the elements of an array. */
    method PrintElements(items: seq<Json>) returns (ok: bool)
      requires Valid() && AllPrintable(items)
      modifies this, buffer
      ensures ok ==> Valid() && old(offset) <= offset <= buffer.Length && depth == old(depth)
      ensures ok ==> buffer[..offset] == old(buffer[..offset]) + RenderItems(items, format, old(depth))
      ensures !ok ==> old(offset) + |RenderItems(items, format, old(depth))| + 2 > old(Limit())
      ensures Limit() == old(Limit())
      ensures buffer == old(buffer) || fresh(buffer)
      ensures noalloc ==> buffer == old(buffer)
      decreases items, 1
    {
      hide Run, Holds, Render, RenderElement, RenderItems, Printable, AllPrintable;
      ghost var whole := buffer[..offset] + RenderItems(items, format, depth);
      ok := true;
      var k := 0;
      assert items[0..] == items;
      while ok && k < |items|
        invariant k <= |items|
        invariant ok ==> Valid() && depth == old(depth) && old(offset) <= offset <= buffer.Length
        invariant ok ==> buffer[..offset] + RenderItems(items[k..], format, depth) == whole
        invariant !ok ==> |whole| + 2 > old(Limit())
        invariant Limit() == old(Limit()) && (noalloc ==> buffer == old(buffer))
        invariant buffer == old(buffer) || fresh(buffer)
        decreases |items| - k, ok
      {
        ItemText(buffer[..offset], items, k, format, depth);
        ok := PrintElement(items[k], k + 1 == |items|);
        k := k + 1;
      }
      if ok {
        NoItemsLeft(buffer[..offset], items, format, depth);
      }
    }

    /** One turn of the array loop. */
    method PrintElement(j: Json, last: bool) returns (ok: bool)
      requires Valid() && Printable(j)
      modifies this, buffer
      ensures ok ==> Valid() && old(offset) <= offset <= buffer.Length && depth == old(depth)
      ensures ok ==> buffer[..offset] == old(buffer[..offset]) + RenderElement(j, last, format, old(depth))
      ensures ok <==> old(offset) + |RenderElement(j, last, format, old(depth))| + 2 <= old(Limit())
      ensures Limit() == old(Limit())
      ensures buffer == old(buffer) || fresh(buffer)
      ensures noalloc ==> buffer == old(buffer)
      decreases j, 1
    {
      hide Run, Holds, Render, Printable, Separator;
      ghost var before := buffer[..offset];
      ok := PrintValue(j);
      if ok {
        UpdateOffset(before + Render(j, format, depth));
        if !last {
          Joined(before, Render(j, format, depth), Separator(format));
          ok := Append(Separator(format), |Separator(format)| + 1, true);
        }
      }
    }

    /** The indentation, the key and the colon of a member. */
    method PrintKey(key: seq<byte>) returns (ok: bool)
      requires Valid() && NulFree(key)
      modifies this, buffer
      ensures ok ==> Valid() && old(offset) <= offset <= buffer.Length && depth == old(depth)
      ensures ok ==> buffer[..offset] == old(buffer[..offset]) + RenderKey(key, format, old(depth))
      ensures ok <==> old(offset) + |RenderKey(key, format, old(depth))| + 1 <= old(Limit())
      ensures Limit() == old(Limit())
      ensures buffer == old(buffer) || fresh(buffer)
      ensures noalloc ==> buffer == old(buffer)
    {
      hide Run, Holds, Quoted, RenderKey, Indent, KeyEnd;
      ghost var before := buffer[..offset];
      KeyText(before, key, format, depth);
      ok := true;
      if format {
        ok := Append(Tabs(depth), depth, false);
      }
      if ok {
        ghost var indented := before + Indent(format, depth);
        assert buffer[..offset] == indented;
        ok := PrintString(Some(key));
        if ok {
          UpdateOffset(indented + Quoted(key));
          ok := Append(KeyEnd(format), |KeyEnd(format)|, false);
        }
      }
    }

    /** One turn of the object loop. */
    method PrintMember(m: Member, last: bool) returns (ok: bool)
      requires Valid() && NulFree(m.key) && Printable(m.value)
      modifies this, buffer
      ensures ok ==> Valid() && old(offset) <= offset <= buffer.Length && depth == old(depth)
      ensures ok ==> buffer[..offset] == old(buffer[..offset]) + RenderMember(m, last, format, old(depth))
      ensures ok <==> old(offset) + |RenderMember(m, last, format, old(depth))| + 2 <= old(Limit())
      ensures Limit() == old(Limit())
      ensures buffer == old(buffer) || fresh(buffer)
      ensures noalloc ==> buffer == old(buffer)
      decreases m, 0
    {
      hide Run, Holds, Render, RenderKey, Printable, RenderMember, MemberEnd;
      MemberText(buffer[..offset], m, last, format, depth);
      ok := PrintKey(m.key);
      if ok {
        ghost var keyed := buffer[..offset];
        ok := PrintValue(m.value);
        if ok {
          UpdateOffset(keyed + Render(m.value, format, depth));
          ok := Append(MemberEnd(last, format), |MemberEnd(last, format)| + 1, true);
        }
      }
    }

    method PrintObject(members: seq<Member>) returns (ok: bool)
      requires Valid() && AllMembersPrintable(members)
      modifies this, buffer
      ensures ok ==> Valid() && Holds(old(buffer[..offset]) + Render(Obj(members), format, old(depth)))
      ensures ok ==> old(offset) <= offset && depth == old(depth)
      ensures ok <==> old(offset) + |Render(Obj(members), format, old(depth))| + 2 <= old(Limit())
      ensures Limit() == old(Limit())
      ensures buffer == old(buffer) || fresh(buffer)
      ensures noalloc ==> buffer == old(buffer)
      decreases members, 2
    {
      hide Run, Holds, Render, RenderMembers, Printable, AllMembersPrintable, LineBreak, Indent;
      ghost var whole := buffer[..offset] + Render(Obj(members), format, depth);
      ObjectText(buffer[..offset], members, format, depth);
      ok := Append([LBRACE] + LineBreak(format), |LineBreak(format)| + 2, false);
      if ok {
        depth := depth + 1;
        ok := PrintMembers(members);
        if ok {
          ClosingNulFree(format, depth - 1);
          Joined(buffer[..offset], Indent(format, depth - 1), [RBRACE]);
          ok := PutClosing(Indent(format, depth - 1) + [RBRACE], whole);
        }
      }
    }

    /** The loop over the members of an object. */
    method PrintMembers(members: seq<Member>) returns (ok: bool)
      requires Valid() && AllMembersPrintable(members)
      modifies this, buffer
      ensures ok ==> Valid() && old(offset) <= offset <= buffer.Length && depth == old(depth)
      ensures ok ==> buffer[..offset] == old(buffer[..offset]) + RenderMembers(members, format, old(depth))
      ensures !ok ==> old(offset) + |RenderMembers(members, format, old(depth))| + 2 > old(Limit())
      ensures Limit() == old(Limit())
      ensures buffer == old(buffer) || fresh(buffer)
      ensures noalloc ==> buffer == old(buffer)
      decreases members, 1
    {
      hide Run, Holds, Render, RenderMember, RenderMembers, Printable, AllMembersPrintable;
      ghost var whole := buffer[..offset] + RenderMembers(members, format, depth);
      ok := true;
      var k := 0;
      assert members[0..] == members;
      while ok && k < |members|
        invariant k <= |members|
        invariant ok ==> Valid() && depth == old(depth) && old(offset) <= offset <= buffer.Length
        invariant ok ==> buffer[..offset] + RenderMembers(members[k..], format, depth) == whole
        invariant !ok ==> |whole| + 2 > old(Limit())
        invariant Limit() == old(Limit()) && (noalloc ==> buffer == old(buffer))
        invariant buffer == old(buffer) || fresh(buffer)
        decreases |members| - k, ok
      {
        MembersText(buffer[..offset], members, k, format, depth);
        ok := PrintMember(members[k], k + 1 == |members|);
        k := k + 1;
      }
      if ok {
        NoMembersLeft(buffer[..offset], members, format, depth);
      }
    }
  }

  // ---------------------------------------------------------------- how the texts are put together

  /** One member with all that surrounds it. */
  ghost function RenderMember(m: Member, last: bool, format: bool, depth: nat): seq<byte> {
    RenderKey(m.key, format, depth) + Render(m.value, format, depth) + MemberEnd(last, format)
  }

  lemma ClosingNulFree(format: bool, depth: nat)
    ensures NulFree(Indent(format, depth) + [RBRACE])
  {
  }

  /** One element with the separator behind it. */
  ghost function RenderElement(j: Json, last: bool, format: bool, depth: nat): seq<byte> {
    Render(j, format, depth) + (if last then [] else Separator(format))
  }

  lemma ArrayText(before: seq<byte>, items: seq<Json>, format: bool, depth: nat)
    ensures before + Render(Arr(items), format, depth)
      == ((before + [LBRACKET]) + RenderItems(items, format, depth + 1)) + [RBRACKET]
  {
    hide RenderItems;
    Joined([LBRACKET], RenderItems(items, format, depth + 1), [RBRACKET]);
    Joined(before, [LBRACKET], RenderItems(items, format, depth + 1) + [RBRACKET]);
    Joined(before + [LBRACKET], RenderItems(items, format, depth + 1), [RBRACKET]);
  }

  lemma ItemText(before: seq<byte>, items: seq<Json>, k: nat, format: bool, depth: nat)
    requires k < |items| && AllPrintable(items)
    ensures Printable(items[k])
    ensures var r := RenderElement(items[k], k + 1 == |items|, format, depth);
      before + RenderItems(items[k..], format, depth) == (before + r) + RenderItems(items[k + 1..], format, depth)
  {
    PrintableItem(items, k);
    var tail := items[k..];
    assert tail[0] == items[k] && tail[1..] == items[k + 1..];
    hide Render, Printable, Separator;
    var r, s := Render(items[k], format, depth), Separator(format);
    var rest := RenderItems(items[k + 1..], format, depth);
    var element := RenderElement(items[k], k + 1 == |items|, format, depth);
    if k + 1 < |items| {
      assert RenderItems(tail, format, depth) == r + (s + rest);
      Joined(r, s, rest);
    } else {
      assert RenderItems(tail, format, depth) == r + [] == r + rest;
    }
    assert RenderItems(tail, format, depth) == element + rest;
    Joined(before, element, rest);
  }

  lemma {:induction false} PrintableItem(items: seq<Json>, k: nat)
    requires k < |items| && AllPrintable(items)
    ensures Printable(items[k])
    decreases k
  {
    if k > 0 {
      PrintableItem(items[1..], k - 1);
    }
  }

  lemma NoItemsLeft(before: seq<byte>, items: seq<Json>, format: bool, depth: nat)
    ensures before + RenderItems(items[|items|..], format, depth) == before
  {
    assert items[|items|..] == [];
    assert RenderItems([], format, depth) == [];
  }

  lemma KeyText(before: seq<byte>, key: seq<byte>, format: bool, depth: nat)
    ensures before + Indent(format, depth) + Quoted(key) + KeyEnd(format) == before + RenderKey(key, format, depth)
    ensures |RenderKey(key, format, depth)| == |Indent(format, depth)| + |Quoted(key)| + |KeyEnd(format)|
    ensures |KeyEnd(format)| > 0
    ensures if format then Indent(format, depth) == Tabs(depth) else before + Indent(format, depth) == before
    ensures !format ==> Indent(format, depth) == []
  {
    hide Quoted;
    Joined(before, Indent(format, depth), Quoted(key));
    Joined(before, Indent(format, depth) + Quoted(key), KeyEnd(format));
  }

  lemma MemberText(before: seq<byte>, m: Member, last: bool, format: bool, depth: nat)
    ensures before + RenderKey(m.key, format, depth) + Render(m.value, format, depth) + MemberEnd(last, format)
      == before + RenderMember(m, last, format, depth)
    ensures |RenderMember(m, last, format, depth)|
      == |RenderKey(m.key, format, depth)| + |Render(m.value, format, depth)| + |MemberEnd(last, format)|
  {
    hide Render, RenderKey, MemberEnd;
    var k, v, e := RenderKey(m.key, format, depth), Render(m.value, format, depth), MemberEnd(last, format);
    Joined(before, k, v);
    Joined(before, k + v, e);
  }

  lemma ObjectText(before: seq<byte>, members: seq<Member>, format: bool, depth: nat)
    ensures var open := [LBRACE] + LineBreak(format); var tail := Indent(format, depth) + [RBRACE];
      before + Render(Obj(members), format, depth)
        == ((before + open) + RenderMembers(members, format, depth + 1)) + tail
  {
    hide RenderMembers, Indent, LineBreak;
    var open, text := [LBRACE] + LineBreak(format), RenderMembers(members, format, depth + 1);
    Joined(open + text, Indent(format, depth), [RBRACE]);
    Joined(open, text, Indent(format, depth) + [RBRACE]);
    Joined(before, open, text + (Indent(format, depth) + [RBRACE]));
    Joined(before + open, text, Indent(format, depth) + [RBRACE]);
  }

  lemma MembersText(before: seq<byte>, members: seq<Member>, k: nat, format: bool, depth: nat)
    requires k < |members| && AllMembersPrintable(members)
    ensures NulFree(members[k].key) && Printable(members[k].value)
    ensures var m := RenderMember(members[k], k + 1 == |members|, format, depth);
      before + RenderMembers(members[k..], format, depth)
      == (before + m) + RenderMembers(members[k + 1..], format, depth)
  {
    PrintableMember(members, k);
    var rest := members[k..];
    assert rest[0] == members[k] && rest[1..] == members[k + 1..];
    hide Render, RenderKey, MemberEnd, Printable;
    var m := RenderMember(members[k], k + 1 == |members|, format, depth);
    var text := RenderMembers(members[k + 1..], format, depth);
    assert RenderMembers(rest, format, depth) == m + text;
    Joined(before, m, text);
  }

  lemma {:induction false} PrintableMember(members: seq<Member>, k: nat)
    requires k < |members| && AllMembersPrintable(members)
    ensures NulFree(members[k].key) && Printable(members[k].value)
    decreases k
  {
    if k > 0 {
      PrintableMember(members[1..], k - 1);
    }
  }

  lemma NoMembersLeft(before: seq<byte>, members: seq<Member>, format: bool, depth: nat)
    ensures before + RenderMembers(members[|members|..], format, depth) == before
  {
    assert members[|members|..] == [];
    assert RenderMembers([], format, depth) == [];
  }

  lemma EscapedOfNothing()
    ensures Escaped([]) == []
  {
  }

  lemma QuotedAt(b: array<byte>, o: nat, e: seq<byte>)
    requires o + |e| + 1 < b.Length && b[o] == QUOTE && b[o + |e| + 1] == QUOTE && b[o + 1..o + 1 + |e|] == e
    ensures b[o..o + |e| + 2] == [QUOTE] + e + [QUOTE]
  {
  }

  lemma QuotedNothing()
    ensures Quoted([]) == [QUOTE, QUOTE] && NulFree([QUOTE, QUOTE])
  {
  }

  lemma QuotedNulFree(s: seq<byte>)
    requires NulFree(s)
    ensures NulFree(Quoted(s)) && |Quoted(s)| == |Escaped(s)| + 2
  {
  }

  // ---------------------------------------------------------------- the printing functions of the interface

  /** After any run of printing calls the bytes moved are paid for by the capacity in use. */
  lemma PaidFor(p: PrintBuffer)
    requires p.Valid()
    ensures p.length != p.initial ==> (p.copied < p.length <==> !EndsLate(p.initial, p.requests))
    ensures EndsLate(p.initial, p.requests) ==> p.length == INT_MAX
    ensures p.length != p.initial ==> p.copied < 2 * p.length && p.length <= 2 * Largest(p.requests)
    ensures p.length == p.initial ==> p.copied == 0
    ensures Largest(p.requests) <= p.length
  {
    AmortisedGrowth(p.initial, p.requests);
    CopiedBelowCapacity(p.initial, p.requests);
  }

  /** Prints into the caller's block of `len` bytes, which is never replaced and never overrun. */
  method PrintPreallocated(item: Json, buf: array?<byte>, len: int, format: bool) returns (ok: bool)
    requires Printable(item) && (buf != null && 0 <= len ==> buf.Length == len <= INT_MAX)
    modifies buf
    ensures ok <==> buf != null && |Render(item, format, 0)| + 2 <= len
    ensures ok ==> |Render(item, format, 0)| + 1 < buf.Length
    ensures ok ==> buf[..|Render(item, format, 0)| + 1] == Render(item, format, 0) + [NUL]
  {
    if len < 0 || buf == null {
      return false;
    }
    hide Render, Run;
    var p := new PrintBuffer(buf, true, format);
    ghost var text := Render(item, format, 0);
    assert buf[..0] + text == text;
    ok := p.PrintValue(item);
  }

  /** Prints into a block that grows from 256 bytes on, and cuts it to the text and its terminator. */
  method Print(item: Json, format: bool) returns (printed: Option<array<byte>>)
    requires Printable(item)
    ensures printed.Some? <==> |Render(item, format, 0)| + 2 <= INT_MAX
    ensures printed.Some? ==> fresh(printed.value) && printed.value[..] == Render(item, format, 0) + [NUL]
  {
    hide Render, Run;
    var block := new byte[256](_ => NUL);
    var p := new PrintBuffer(block, false, format);
    ghost var text := Render(item, format, 0);
    assert block[..0] + text == text;
    var ok := p.PrintValue(item);
    if !ok {
      return None;
    }
    p.UpdateOffset(text);
    var result := new byte[p.offset + 1](_ => NUL);
    forall k | 0 <= k < p.offset + 1 {
      result[k] := p.buffer[k];
    }
    assert p.buffer[..|text| + 1] == text + [NUL];
    assert result[..] == p.buffer[..|text| + 1];
    return Some(result);
  }

  /** Prints into a block that grows from `prebuffer` bytes on, and hands out the block itself. */
  method PrintBuffered(item: Json, prebuffer: int, format: bool) returns (printed: Option<array<byte>>)
    requires Printable(item) && prebuffer <= INT_MAX
    ensures printed.Some? <==> 0 <= prebuffer && |Render(item, format, 0)| + 2 <= INT_MAX
    ensures printed.Some? ==> |Render(item, format, 0)| < printed.value.Length <= INT_MAX
    ensures printed.Some? ==> printed.value[..|Render(item, format, 0)| + 1] == Render(item, format, 0) + [NUL]
  {
    if prebuffer < 0 {
      return None;
    }
    hide Render, Run;
    var block := new byte[prebuffer](_ => NUL);
    var p := new PrintBuffer(block, false, format);
    ghost var text := Render(item, format, 0);
    assert block[..0] + text == text;
    var ok := p.PrintValue(item);
    if !ok {
      return None;
    }
    return Some(p.buffer);
  }
}

/**
 The recursive descent parser: first the function of the text it computes, then the parser itself,
 which moves a cursor over the text and is proved to compute that function.
 A text is a C string with its terminator, and the terminator counts as white space.
 */
module JsonParse {
  import opened Bytes
  import opened JsonValue
  import opened JsonNumber
  import opened JsonString
  import opened JsonRender

  /** A value and where the cursor stands behind it, or where the cursor stands on failure. */
  datatype Parsed<+T> = Done(value: T, offset: nat) | Failed(offset: nat)

  // ---------------------------------------------------------------- the text read by each parsing function

  /** White space is skipped, the terminator with it, and the cursor steps back when it ran out of text. */
  function SkipSpace(t: seq<byte>, i: nat): (r: nat)
    requires i < |t|
    ensures i <= r < |t|
    ensures t[r] > 32 || r + 1 == |t|
    decreases |t| - i
  {
    if t[i] > 32 || i + 1 == |t| then i else SkipSpace(t, i + 1)
  }

  predicate StartsWith(t: seq<byte>, i: nat, s: seq<byte>) {
    i + |s| <= |t| && t[i..i + |s|] == s
  }

  /** A keyword never reaches the terminator. */
  lemma KeywordEnds(t: seq<byte>, i: nat, s: seq<byte>)
    requires Terminated(t) && StartsWith(t, i, s) && NulFree(s) && |s| > 0
    ensures i + |s| < |t|
  {
    assert t[i + |s| - 1] == t[i..i + |s|][|s| - 1];
  }

  lemma NumeralEnds(t: seq<byte>, i: nat, n: nat)
    requires Terminated(t) && 0 < n && i + n <= |t|
    requires forall k :: i <= k < i + n ==> IsNumeral(t[k])
    ensures i + n < |t|
  {
    assert IsNumeral(t[i + n - 1]);
  }

  function ParseNumber(t: seq<byte>, i: nat): (r: Parsed<Json>)
    requires Terminated(t) && i < |t|
    ensures r.Done? ==> i < r.offset < |t|
    ensures r.Failed? ==> r.offset == i
  {
    var n := CopyEnd(t, i, 0);
    var v := Strtod(t[i..i + n]);
    if v.None? then Failed(i) else
      NumeralEnds(t, i, n);
      Done(Num(v.value.0), i + v.value.1)
  }

  function ParseString(t: seq<byte>, i: nat): (r: Parsed<seq<byte>>)
    requires Terminated(t) && i < |t|
    ensures r.Done? ==> i < r.offset < |t| && NulFree(r.value)
    ensures r.Failed? ==> r.offset <= |t|
  {
    if t[i] != QUOTE then Failed(i + 1) else
      var scan := ScanString(t, i + 1);
      if scan.Unclosed? then Failed(i + 1) else
        var text := Decode(t, i + 1, scan.end);
        if text.Bad? then Failed(text.at) else Done(CString(text.s), scan.end + 1)
  }

  function ParseValue(t: seq<byte>, i: nat, depth: nat): (r: Parsed<Json>)
    requires Terminated(t) && i < |t|
    ensures r.Done? ==> i < r.offset < |t|
    ensures r.Failed? ==> r.offset <= |t|
    decreases |t| - i, 1
  {
    if StartsWith(t, i, NULL_TEXT) then KeywordEnds(t, i, NULL_TEXT); Done(Null, i + 4)
    else if StartsWith(t, i, FALSE_TEXT) then KeywordEnds(t, i, FALSE_TEXT); Done(Bool(false), i + 5)
    else if StartsWith(t, i, TRUE_TEXT) then KeywordEnds(t, i, TRUE_TEXT); Done(Bool(true), i + 4)
    else if t[i] == QUOTE then
      var s := ParseString(t, i);
      if s.Failed? then Failed(s.offset) else Done(Str(s.value), s.offset)
    else if t[i] == MINUS || IsDigit(t[i]) then ParseNumber(t, i)
    else if t[i] == LBRACKET then ParseArray(t, i, depth)
    else if t[i] == LBRACE then ParseObject(t, i, depth)
    else Failed(i)
  }

  function ParseArray(t: seq<byte>, i: nat, depth: nat): (r: Parsed<Json>)
    requires Terminated(t) && i < |t| && t[i] == LBRACKET
    ensures r.Done? ==> i < r.offset < |t|
    ensures r.Failed? ==> r.offset <= |t|
    decreases |t| - i, 0
  {
    if depth >= NESTING_LIMIT then Failed(i) else
      var a := SkipSpace(t, i + 1);
      if t[a] == RBRACKET then Done(Arr([]), a + 1) else
        var r := ParseItems(t, a, depth + 1);
        if r.Failed? then Failed(r.offset) else Done(Arr(r.value), r.offset)
  }

  /** The elements from i on, up to and with the closing bracket. */
  function ParseItems(t: seq<byte>, i: nat, depth: nat): (r: Parsed<seq<Json>>)
    requires Terminated(t) && i < |t|
    ensures r.Done? ==> i < r.offset < |t| && |r.value| > 0
    ensures r.Failed? ==> r.offset <= |t|
    decreases |t| - i, 2
  {
    var v := ParseValue(t, SkipSpace(t, i), depth);
    if v.Failed? then Failed(v.offset) else
      var c := SkipSpace(t, v.offset);
      if t[c] == COMMA then PrependItem(v.value, ParseItems(t, c + 1, depth))
      else if t[c] == RBRACKET then Done([v.value], c + 1)
      else Failed(c)
  }

  function PrependItem<T>(x: T, r: Parsed<seq<T>>): Parsed<seq<T>> {
    if r.Failed? then r else Done([x] + r.value, r.offset)
  }

  function ParseObject(t: seq<byte>, i: nat, depth: nat): (r: Parsed<Json>)
    requires Terminated(t) && i < |t| && t[i] == LBRACE
    ensures r.Done? ==> i < r.offset < |t|
    ensures r.Failed? ==> r.offset <= |t|
    decreases |t| - i, 0
  {
    if depth >= NESTING_LIMIT then Failed(i) else
      var a := SkipSpace(t, i + 1);
      if t[a] == RBRACE then Done(Obj([]), a + 1) else
        var r := ParseMembers(t, a, depth + 1);
        if r.Failed? then Failed(r.offset) else Done(Obj(r.value), r.offset)
  }

  /** One member: key, colon and value; the cursor ends right behind the value. */
  function ParseMember(t: seq<byte>, i: nat, depth: nat): (r: Parsed<Member>)
    requires Terminated(t) && i < |t|
    ensures r.Done? ==> i < r.offset < |t|
    ensures r.Failed? ==> r.offset <= |t|
    decreases |t| - i, 2
  {
    var key := ParseString(t, SkipSpace(t, i));
    if key.Failed? then Failed(key.offset) else
      var c := SkipSpace(t, key.offset);
      if t[c] != COLON then Failed(c) else
        var v := ParseValue(t, SkipSpace(t, c + 1), depth);
        if v.Failed? then Failed(v.offset) else Done(Member(key.value, v.value), v.offset)
  }

  function ParseMembers(t: seq<byte>, i: nat, depth: nat): (r: Parsed<seq<Member>>)
    requires Terminated(t) && i < |t|
    ensures r.Done? ==> i < r.offset < |t| && |r.value| > 0
    ensures r.Failed? ==> r.offset <= |t|
    decreases |t| - i, 3
  {
    var m := ParseMember(t, i, depth);
    if m.Failed? then Failed(m.offset) else
      var c := SkipSpace(t, m.offset);
      if t[c] == COMMA then PrependItem(m.value, ParseMembers(t, c + 1, depth))
      else if t[c] == RBRACE then Done([m.value], c + 1)
      else Failed(c)
  }

  /** Where parsing begins: behind a byte order mark if there is one. */
  function SkipMark(t: seq<byte>): (r: nat)
    ensures |t| > 0 ==> r < |t|
  {
    if |t| > 4 && t[..3] == [0xEF, 0xBB, 0xBF] then 3 else 0
  }

  /** The whole text: a tree if there is one, and the position that is reported either way. */
  function ParseText(t: seq<byte>, requireEnd: bool): (r: (Option<Json>, nat))
    requires Terminated(t)
    ensures r.1 < |t|
  {
    match ParseValue(t, SkipSpace(t, SkipMark(t)), 0)
    case Failed(at) => (None, if at < |t| then at else |t| - 1)
    case Done(j, end) =>
      if !requireEnd then (Some(j), end) else
        var z := SkipSpace(t, end);
        if t[z] == NUL then (Some(j), z) else (None, z)
  }

  // ---------------------------------------------------------------- the parser

  class ParseBuffer {
    const content: seq<byte>
    var offset: nat
    var depth: nat

    constructor (text: seq<byte>)
      ensures content == text && offset == 0 && depth == 0
    {
      content, offset, depth := text, 0, 0;
    }

    /** The cursor is on a byte of the text, and no more is open than may be. */
    ghost predicate Ready()
      reads this
    {
      Terminated(content) && offset < |content| && depth <= NESTING_LIMIT
    }

    method SkipWhitespace()
      requires Ready()
      modifies this`offset
      ensures offset == SkipSpace(content, old(offset))
      ensures Ready()
    {
      while offset < |content| && content[offset] <= 32
        invariant old(offset) <= offset <= |content|
        invariant forall k :: old(offset) <= k < offset ==> content[k] <= 32
        decreases |content| - offset
      {
        offset := offset + 1;
      }
      if offset == |content| {
        offset := offset - 1;
      }
      SkipSpaceStops(content, old(offset), offset);
    }

    /** The numeral is copied out of the text before it is read. */
    method ReadNumber() returns (item: Option<Json>)
      requires Ready()
      modifies this`offset
      ensures item == Outcome(ParseNumber(content, old(offset)))
      ensures offset == ParseNumber(content, old(offset)).offset
    {
      hide Strtod;
      var numeral: seq<byte> := [];
      var i := 0;
      while i < NUMERAL_LIMIT && offset + i < |content| && IsNumeral(content[offset + i])
        invariant i <= NUMERAL_LIMIT && offset + i <= |content|
        invariant numeral == content[offset..offset + i]
        invariant CopyEnd(content, offset, i) == CopyEnd(content, offset, 0)
      {
        numeral := numeral + [content[offset + i]];
        i := i + 1;
      }
      var number := Strtod(numeral);
      if number.None? {
        return None;
      }
      offset := offset + number.value.1;
      return Some(Num(number.value.0));
    }

    method ReadString() returns (text: Option<seq<byte>>)
      requires Ready()
      modifies this`offset
      ensures text == Outcome(ParseString(content, old(offset)))
      ensures offset == ParseString(content, old(offset)).offset
    {
      hide Decode;
      if content[offset] != QUOTE {
        offset := offset + 1;
        return None;
      }
      var scan := FindClosingQuote(content, offset + 1);
      if scan.Unclosed? {
        offset := offset + 1;
        return None;
      }
      var decoded := DecodeLiteral(content, offset + 1, scan.end, scan.end - offset - scan.skipped + 1);
      if decoded.Bad? {
        offset := decoded.at;
        return None;
      }
      offset := scan.end + 1;
      return Some(CString(decoded.s));
    }

    method ReadValue() returns (item: Option<Json>)
      requires Ready()
      modifies this
      ensures item == Outcome(ParseValue(content, old(offset), old(depth)))
      ensures offset == ParseValue(content, old(offset), old(depth)).offset
      ensures depth <= NESTING_LIMIT && (item.Some? ==> depth == old(depth))
      decreases |content| - offset, 1
    {
      if StartsWith(content, offset, NULL_TEXT) {
        offset := offset + 4;
        return Some(Null);
      }
      if StartsWith(content, offset, FALSE_TEXT) {
        offset := offset + 5;
        return Some(Bool(false));
      }
      if StartsWith(content, offset, TRUE_TEXT) {
        offset := offset + 4;
        return Some(Bool(true));
      }
      var first := content[offset];
      if first == QUOTE {
        var text := ReadString();
        return if text.Some? then Some(Str(text.value)) else None;
      }
      if first == MINUS || IsDigit(first) {
        item := ReadNumber();
      } else if first == LBRACKET {
        item := ReadArray();
      } else if first == LBRACE {
        item := ReadObject();
      } else {
        item := None;
      }
    }

    method ReadArray() returns (item: Option<Json>)
      requires Ready() && content[offset] == LBRACKET
      modifies this
      ensures item == Outcome(ParseArray(content, old(offset), old(depth)))
      ensures offset == ParseArray(content, old(offset), old(depth)).offset
      ensures depth <= NESTING_LIMIT && (item.Some? ==> depth == old(depth))
      decreases |content| - offset, 0
    {
      hide ParseValue;
      if depth >= NESTING_LIMIT {
        return None;
      }
      depth := depth + 1;
      offset := offset + 1;
      SkipWhitespace();
      if content[offset] == RBRACKET {
        depth := depth - 1;
        offset := offset + 1;
        return Some(Arr([]));
      }
      offset := offset - 1;
      var items := ReadItems();
      if items.None? {
        return None;
      }
      depth := depth - 1;
      offset := offset + 1;
      return Some(Arr(items.value));
    }

    /** The loop over the elements, from the byte in front of the first one to the closing bracket. */
    method ReadItems() returns (list: Option<seq<Json>>)
      requires Ready() && offset + 1 < |content|
      modifies this
      ensures list == Outcome(ParseItems(content, old(offset) + 1, old(depth)))
      ensures list.None? ==> offset == ParseItems(content, old(offset) + 1, old(depth)).offset
      ensures list.Some? ==> offset + 1 == ParseItems(content, old(offset) + 1, old(depth)).offset
      ensures depth <= NESTING_LIMIT && (list.Some? ==> depth == old(depth))
      decreases |content| - (offset + 1), 3
    {
      hide ParseValue, ParseItems, SkipSpace;
      var items: seq<Json> := [];
      ghost var whole := ParseItems(content, offset + 1, depth);
      PrependNothing(whole);
      var more := true;
      while more
        invariant Ready() && old(offset) <= offset && depth == old(depth)
        invariant more ==> offset + 1 < |content|
        invariant more ==> whole == PrependAll(items, ParseItems(content, offset + 1, depth))
        invariant !more ==> content[offset] != COMMA
        invariant !more ==> whole == CloseWith(items, content, offset, RBRACKET)
        decreases more, |content| - offset
      {
        ItemsStep(content, offset + 1, depth);
        offset := offset + 1;
        SkipWhitespace();
        var value := ReadValue();
        if value.None? {
          return None;
        }
        SkipWhitespace();
        ghost var rest := if offset + 1 < |content| then ParseItems(content, offset + 1, depth) else Failed(0);
        PrependStep(items, value.value, rest);
        items := items + [value.value];
        more := content[offset] == COMMA;
      }
      if content[offset] != RBRACKET {
        return None;
      }
      return Some(items);
    }

    /** One turn of the object loop up to its value. */
    method ReadMember() returns (member: Option<Member>)
      requires Ready()
      modifies this
      ensures member == Outcome(ParseMember(content, old(offset), old(depth)))
      ensures offset == ParseMember(content, old(offset), old(depth)).offset
      ensures depth <= NESTING_LIMIT && (member.Some? ==> depth == old(depth))
      decreases |content| - offset, 2
    {
      hide ParseValue, ParseString;
      SkipWhitespace();
      var key := ReadString();
      if key.None? {
        return None;
      }
      SkipWhitespace();
      if content[offset] != COLON {
        return None;
      }
      offset := offset + 1;
      SkipWhitespace();
      var value := ReadValue();
      if value.None? {
        return None;
      }
      return Some(Member(key.value, value.value));
    }

    method ReadObject() returns (item: Option<Json>)
      requires Ready() && content[offset] == LBRACE
      modifies this
      ensures item == Outcome(ParseObject(content, old(offset), old(depth)))
      ensures offset == ParseObject(content, old(offset), old(depth)).offset
      ensures depth <= NESTING_LIMIT && (item.Some? ==> depth == old(depth))
      decreases |content| - offset, 0
    {
      hide ParseMember;
      if depth >= NESTING_LIMIT {
        return None;
      }
      depth := depth + 1;
      offset := offset + 1;
      SkipWhitespace();
      if content[offset] == RBRACE {
        depth := depth - 1;
        offset := offset + 1;
        return Some(Obj([]));
      }
      offset := offset - 1;
      var members := ReadMembers();
      if members.None? {
        return None;
      }
      depth := depth - 1;
      offset := offset + 1;
      return Some(Obj(members.value));
    }

    /** The loop over the members, from the byte in front of the first one to the closing bracket. */
    method ReadMembers() returns (list: Option<seq<Member>>)
      requires Ready() && offset + 1 < |content|
      modifies this
      ensures list == Outcome(ParseMembers(content, old(offset) + 1, old(depth)))
      ensures list.None? ==> offset == ParseMembers(content, old(offset) + 1, old(depth)).offset
      ensures list.Some? ==> offset + 1 == ParseMembers(content, old(offset) + 1, old(depth)).offset
      ensures depth <= NESTING_LIMIT && (list.Some? ==> depth == old(depth))
      decreases |content| - (offset + 1), 3
    {
      hide ParseMember, ParseMembers, SkipSpace;
      var members: seq<Member> := [];
      ghost var whole := ParseMembers(content, offset + 1, depth);
      PrependNothing(whole);
      var more := true;
      while more
        invariant Ready() && old(offset) <= offset && depth == old(depth)
        invariant more ==> offset + 1 < |content|
        invariant more ==> whole == PrependAll(members, ParseMembers(content, offset + 1, depth))
        invariant !more ==> content[offset] != COMMA
        invariant !more ==> whole == CloseWith(members, content, offset, RBRACE)
        decreases more, |content| - offset
      {
        MembersStep(content, offset + 1, depth);
        offset := offset + 1;
        var member := ReadMember();
        if member.None? {
          return None;
        }
        SkipWhitespace();
        ghost var rest := if offset + 1 < |content| then ParseMembers(content, offset + 1, depth) else Failed(0);
        PrependStep(members, member.value, rest);
        members := members + [member.value];
        more := content[offset] == COMMA;
      }
      if content[offset] != RBRACE {
        return None;
      }
      return Some(members);
    }
  }

  /**
   Parses a C string. The answer holds the tree, if there is one, and the position reported to the
   caller: the end of the value, or where parsing failed, clamped to the text.
   */
  method ParseWithOpts(text: seq<byte>, requireEnd: bool) returns (item: Option<Json>, end: nat)
    requires NulFree(text)
    ensures (item, end) == ParseText(text + [NUL], requireEnd)
  {
    var buffer := new ParseBuffer(text + [NUL]);
    if buffer.offset + 4 < |buffer.content| && buffer.content[..3] == [0xEF, 0xBB, 0xBF] {
      buffer.offset := buffer.offset + 3;
    }
    buffer.SkipWhitespace();
    item := buffer.ReadValue();
    if item.Some? && requireEnd {
      buffer.SkipWhitespace();
      if buffer.content[buffer.offset] != NUL {
        item := None;
      }
    }
    end := if buffer.offset < |buffer.content| then buffer.offset else |buffer.content| - 1;
  }

  function Outcome<T>(r: Parsed<T>): Option<T> {
    if r.Done? then Some(r.value) else None
  }

  /** The result of reading some more elements, seen from before the elements already read. */
  ghost function PrependAll<T>(xs: seq<T>, r: Parsed<seq<T>>): Parsed<seq<T>> {
    if r.Failed? then r else Done(xs + r.value, r.offset)
  }

  lemma PrependNothing<T>(r: Parsed<seq<T>>)
    ensures PrependAll([], r) == r
  {
    if r.Done? {
      assert [] + r.value == r.value;
    }
  }

  lemma PrependStep<T>(xs: seq<T>, x: T, r: Parsed<seq<T>>)
    ensures PrependAll(xs, PrependItem(x, r)) == PrependAll(xs + [x], r)
    ensures xs + [x] == PrependAll(xs, Done([x], 0)).value
  {
    if r.Done? {
      assert xs + ([x] + r.value) == (xs + [x]) + r.value;
    }
  }

  // ---------------------------------------------------------------- one step of each function

  lemma ValueIsString(t: seq<byte>, i: nat, depth: nat)
    requires Terminated(t) && i < |t| && t[i] == QUOTE
    ensures ParseValue(t, i, depth) ==
      var s := ParseString(t, i);
      if s.Failed? then Failed(s.offset) else Done(Str(s.value), s.offset)
  {
    hide ParseString;
    NoKeyword(t, i);
  }

  lemma ValueIsNumber(t: seq<byte>, i: nat, depth: nat)
    requires Terminated(t) && i < |t| && (t[i] == MINUS || IsDigit(t[i]))
    ensures ParseValue(t, i, depth) == ParseNumber(t, i)
  {
    hide ParseNumber;
    NoKeyword(t, i);
  }

  lemma ValueIsArray(t: seq<byte>, i: nat, depth: nat)
    requires Terminated(t) && i < |t| && t[i] == LBRACKET
    ensures ParseValue(t, i, depth) == ParseArray(t, i, depth)
  {
    hide ParseArray;
    NoKeyword(t, i);
  }

  lemma ValueIsObject(t: seq<byte>, i: nat, depth: nat)
    requires Terminated(t) && i < |t| && t[i] == LBRACE
    ensures ParseValue(t, i, depth) == ParseObject(t, i, depth)
  {
    hide ParseObject;
    NoKeyword(t, i);
  }

  lemma NoKeyword(t: seq<byte>, i: nat)
    requires i < |t| && t[i] != 110 && t[i] != 102 && t[i] != 116
    ensures !StartsWith(t, i, NULL_TEXT) && !StartsWith(t, i, FALSE_TEXT) && !StartsWith(t, i, TRUE_TEXT)
  {
    StartsWithFirst(t, i, NULL_TEXT);
    StartsWithFirst(t, i, FALSE_TEXT);
    StartsWithFirst(t, i, TRUE_TEXT);
  }

  lemma StartsWithFirst(t: seq<byte>, i: nat, s: seq<byte>)
    requires i < |t| && s != []
    ensures StartsWith(t, i, s) ==> t[i] == s[0]
  {
    if StartsWith(t, i, s) {
      assert t[i..i + |s|][0] == t[i];
    }
  }

  lemma ArrayStep(t: seq<byte>, i: nat, depth: nat)
    requires Terminated(t) && i < |t| && t[i] == LBRACKET
    ensures depth >= NESTING_LIMIT ==> ParseArray(t, i, depth).Failed?
    ensures depth < NESTING_LIMIT && i + 1 < |t| ==>
      var a := SkipSpace(t, i + 1);
      var r := ParseItems(t, a, depth + 1);
      ParseArray(t, i, depth) ==
        if t[a] == RBRACKET && a + 1 < |t| then Done(Arr([]), a + 1)
        else if r.Failed? then Failed(r.offset) else Done(Arr(r.value), r.offset)
  {
    hide ParseItems, SkipSpace;
  }

  lemma ObjectStep(t: seq<byte>, i: nat, depth: nat)
    requires Terminated(t) && i < |t| && t[i] == LBRACE
    ensures depth >= NESTING_LIMIT ==> ParseObject(t, i, depth).Failed?
    ensures depth < NESTING_LIMIT && i + 1 < |t| ==>
      var a := SkipSpace(t, i + 1);
      var r := ParseMembers(t, a, depth + 1);
      ParseObject(t, i, depth) ==
        if t[a] == RBRACE && a + 1 < |t| then Done(Obj([]), a + 1)
        else if r.Failed? then Failed(r.offset) else Done(Obj(r.value), r.offset)
  {
    hide ParseMembers, SkipSpace;
  }

  lemma MemberStep(t: seq<byte>, i: nat, depth: nat)
    requires Terminated(t) && i < |t|
    ensures ParseMember(t, i, depth) ==
      var key := ParseString(t, SkipSpace(t, i));
      if key.Failed? then Failed(key.offset) else
        var c := SkipSpace(t, key.offset);
        if t[c] != COLON || c + 1 >= |t| then Failed(c) else
          var v := ParseValue(t, SkipSpace(t, c + 1), depth);
          if v.Failed? then Failed(v.offset) else Done(Member(key.value, v.value), v.offset)
  {
    hide ParseString, ParseValue, SkipSpace;
  }

  lemma ItemsStep(t: seq<byte>, i: nat, depth: nat)
    requires Terminated(t) && i < |t|
    ensures ParseItems(t, i, depth) ==
      var v := ParseValue(t, SkipSpace(t, i), depth);
      if v.Failed? then Failed(v.offset) else
        var c := SkipSpace(t, v.offset);
        if t[c] == COMMA && c + 1 < |t| then PrependItem(v.value, ParseItems(t, c + 1, depth))
        else CloseWith([v.value], t, c, RBRACKET)
  {
    hide ParseValue, SkipSpace;
  }

  lemma MembersStep(t: seq<byte>, i: nat, depth: nat)
    requires Terminated(t) && i < |t|
    ensures ParseMembers(t, i, depth) ==
      var m := ParseMember(t, i, depth);
      if m.Failed? then Failed(m.offset) else
        var c := SkipSpace(t, m.offset);
        if t[c] == COMMA && c + 1 < |t| then PrependItem(m.value, ParseMembers(t, c + 1, depth))
        else CloseWith([m.value], t, c, RBRACE)
  {
    hide ParseMember, SkipSpace;
  }

  /** What is made of the elements read when no comma follows them. */
  ghost function CloseWith<T>(xs: seq<T>, t: seq<byte>, i: nat, bracket: byte): Parsed<seq<T>>
    requires i < |t|
  {
    if t[i] == bracket then Done(xs, i + 1) else Failed(i)
  }

  lemma {:induction false} SkipSpaceStops(t: seq<byte>, i: nat, r: nat)
    requires i <= r < |t| && (t[r] > 32 || r + 1 == |t|)
    requires forall k :: i <= k < r ==> t[k] <= 32
    ensures SkipSpace(t, i) == r
    decreases r - i
  {
    if i < r {
      SkipSpaceStops(t, i + 1, r);
    }
  }
}

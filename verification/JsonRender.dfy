/** The text of a tree in the two layouts of the printer, as a pure function of the tree. */
module JsonRender {
  import opened Bytes
  import opened JsonValue
  import opened JsonNumber
  import opened JsonString

  const NULL_TEXT: seq<byte> := [110, 117, 108, 108]
  const TRUE_TEXT: seq<byte> := [116, 114, 117, 101]
  const FALSE_TEXT: seq<byte> := [102, 97, 108, 115, 101]

  function Tabs(n: nat): (r: seq<byte>)
    ensures |r| == n && forall k :: 0 <= k < n ==> r[k] == TAB
  {
    seq(n, _ => TAB)
  }

  /** What stands between two elements of an array. */
  function Separator(format: bool): seq<byte> {
    if format then [COMMA, SPACE] else [COMMA]
  }

  function LineBreak(format: bool): seq<byte> {
    if format then [NEWLINE] else []
  }

  function Indent(format: bool, depth: nat): seq<byte> {
    if format then Tabs(depth) else []
  }

  /** What stands between the key and the value of a member. */
  function KeyEnd(format: bool): seq<byte> {
    if format then [COLON, TAB] else [COLON]
  }

  /** The text of `j` where `depth` arrays and objects are open around it. */
  function Render(j: Json, format: bool, depth: nat): (r: seq<byte>)
    ensures |r| > 0 && r[0] > 32
    decreases j
  {
    match j
    case Null => NULL_TEXT
    case Bool(b) => if b then TRUE_TEXT else FALSE_TEXT
    case Num(x) => IntText(x.Floor)
    case Str(s) => Quoted(s)
    case Arr(items) => [LBRACKET] + RenderItems(items, format, depth + 1) + [RBRACKET]
    case Obj(members) =>
      [LBRACE] + LineBreak(format) + RenderMembers(members, format, depth + 1) + Indent(format, depth) + [RBRACE]
  }

  function RenderItems(items: seq<Json>, format: bool, depth: nat): seq<byte>
    decreases items
  {
    if items == [] then [] else
      Render(items[0], format, depth) + ItemsRest(items[1..], format, depth)
  }

  /** The elements behind the first one, each with the separator in front of it. */
  function ItemsRest(items: seq<Json>, format: bool, depth: nat): seq<byte>
    decreases items
  {
    if items == [] then [] else
      Separator(format) + (Render(items[0], format, depth) + ItemsRest(items[1..], format, depth))
  }

  /** One member up to its value. */
  function RenderKey(key: seq<byte>, format: bool, depth: nat): seq<byte> {
    Indent(format, depth) + Quoted(key) + KeyEnd(format)
  }

  /** What follows a value: a comma unless it is the last one, and the end of the line. */
  function MemberEnd(last: bool, format: bool): seq<byte> {
    (if last then [] else [COMMA]) + LineBreak(format)
  }

  function RenderMembers(members: seq<Member>, format: bool, depth: nat): seq<byte>
    decreases members
  {
    if members == [] then [] else
      RenderKey(members[0].key, format, depth) + Render(members[0].value, format, depth)
      + MemberEnd(|members| == 1, format) + RenderMembers(members[1..], format, depth)
  }

  /** None of the pieces between the values holds a terminator. */
  lemma PiecesNulFree(format: bool, depth: nat)
    ensures NulFree(Indent(format, depth)) && NulFree(LineBreak(format)) && NulFree(KeyEnd(format))
    ensures NulFree(Separator(format)) && NulFree(MemberEnd(true, format)) && NulFree(MemberEnd(false, format))
    ensures NulFree([]) && NulFree([LBRACKET]) && NulFree([RBRACKET]) && NulFree([LBRACE]) && NulFree([RBRACE])
  {
  }

  /** Printed text holds no terminator before its end. */
  lemma {:induction false} RenderNulFree(j: Json, format: bool, depth: nat)
    requires Printable(j)
    ensures NulFree(Render(j, format, depth))
    decreases j, 0
  {
    match j
    case Arr(items) => ItemsNulFree(items, format, depth);
    case Obj(members) => ObjectNulFree(members, format, depth);
    case _ =>
  }

  lemma {:induction false} ItemsNulFree(items: seq<Json>, format: bool, depth: nat)
    requires AllPrintable(items)
    ensures NulFree(Render(Arr(items), format, depth))
    decreases items, 1
  {
    hide NulFree, ItemsRest;
    var text := RenderItems(items, format, depth + 1);
    PiecesNulFree(format, depth);
    if items != [] {
      var first := Render(items[0], format, depth + 1);
      RenderNulFree(items[0], format, depth + 1);
      ItemsRestNulFree(items[1..], format, depth + 1);
      NulFreeConcat(first, ItemsRest(items[1..], format, depth + 1));
    }
    NulFreeConcat([LBRACKET], text);
    NulFreeConcat([LBRACKET] + text, [RBRACKET]);
  }

  lemma {:induction false} ItemsRestNulFree(items: seq<Json>, format: bool, depth: nat)
    requires AllPrintable(items)
    ensures NulFree(ItemsRest(items, format, depth))
    decreases items
  {
    hide NulFree, Separator, Render;
    PiecesNulFree(format, depth);
    if items != [] {
      var first, rest := Render(items[0], format, depth), ItemsRest(items[1..], format, depth);
      RenderNulFree(items[0], format, depth);
      ItemsRestNulFree(items[1..], format, depth);
      NulFreeConcat(first, rest);
      NulFreeConcat(Separator(format), first + rest);
    }
  }

  lemma {:induction false} ObjectNulFree(members: seq<Member>, format: bool, depth: nat)
    requires AllMembersPrintable(members)
    ensures NulFree(Render(Obj(members), format, depth))
    decreases members, 1
  {
    hide NulFree, RenderMembers, LineBreak, Indent;
    var text, open := RenderMembers(members, format, depth + 1), [LBRACE] + LineBreak(format);
    PiecesNulFree(format, depth);
    MembersNulFree(members, format, depth + 1);
    NulFreeConcat([LBRACE], LineBreak(format));
    NulFreeConcat(open, text);
    NulFreeConcat(open + text, Indent(format, depth));
    NulFreeConcat(open + text + Indent(format, depth), [RBRACE]);
  }

  lemma KeyNulFree(key: seq<byte>, format: bool, depth: nat)
    requires NulFree(key)
    ensures NulFree(RenderKey(key, format, depth))
  {
    hide NulFree, Indent, KeyEnd;
    PiecesNulFree(format, depth);
    NulFreeConcat(Indent(format, depth), Quoted(key));
    NulFreeConcat(Indent(format, depth) + Quoted(key), KeyEnd(format));
  }

  lemma {:induction false} MembersNulFree(members: seq<Member>, format: bool, depth: nat)
    requires AllMembersPrintable(members)
    ensures NulFree(RenderMembers(members, format, depth))
    decreases members, 0
  {
    hide NulFree, RenderKey, Render, MemberEnd;
    PiecesNulFree(format, depth);
    if members != [] {
      var m, rest := members[0], RenderMembers(members[1..], format, depth);
      var key, value := RenderKey(m.key, format, depth), Render(m.value, format, depth);
      var end := MemberEnd(|members| == 1, format);
      KeyNulFree(m.key, format, depth);
      RenderNulFree(m.value, format, depth);
      MembersNulFree(members[1..], format, depth);
      NulFreeConcat(key, value);
      NulFreeConcat(key + value, end);
      NulFreeConcat(key + value + end, rest);
    }
  }
}

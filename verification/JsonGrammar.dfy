/**
 JSON texts as they are written: a tree of tokens with what stands between them. The grammar knows nothing of the
 parser; the parser is proved to accept exactly its texts and to answer what they stand for.
 */
module JsonGrammar {
  import opened Bytes
  import opened JsonValue
  import opened JsonNumber
  import opened JsonRender
  import opened JsonString
  import opened JsonParse
  import opened Numerals
  import opened Literals

  // ---------------------------------------------------------------- what stands between tokens

  /** A blank, or a comment; comments are for the minifier, the parser knows none. */
  datatype Filler =
    | Blank(b: byte)
    | LineComment(text: seq<byte>)
    | BlockComment(text: seq<byte>)

  type Gap = seq<Filler>

  predicate AllBlank(gap: Gap) {
    forall k :: 0 <= k < |gap| ==> gap[k].Blank? && 0 < gap[k].b <= ' ' as int
  }

  function FillerText(f: Filler): seq<byte> {
    match f
    case Blank(b) => [b]
    case LineComment(text) => ['/' as int, '/' as int] + text + ['\n' as int]
    case BlockComment(text) => ['/' as int, '*' as int] + text
  }

  function GapText(gap: Gap): seq<byte> {
    if gap == [] then [] else FillerText(gap[0]) + GapText(gap[1..])
  }

  // ---------------------------------------------------------------- documents

  datatype Doc =
    | Word(j: Json)
    | Number(n: Numeral)
    | Chars(x: Literal)
    | Array(inner: Gap, items: seq<Entry>)
    | Object(inner: Gap, members: seq<Property>)

  datatype Entry = Entry(before: Gap, doc: Doc, after: Gap)

  datatype Property = Property(before: Gap, key: Literal, between: Gap, value: Entry)

  function WordText(j: Json): seq<byte> {
    if j == Null then ['n' as int, 'u' as int, 'l' as int, 'l' as int]
    else if j == Bool(true) then ['t' as int, 'r' as int, 'u' as int, 'e' as int]
    else ['f' as int, 'a' as int, 'l' as int, 's' as int, 'e' as int]
  }

  function DocText(d: Doc): seq<byte>
    decreases d
  {
    match d
    case Word(j) => WordText(j)
    case Number(n) => NumeralText(n)
    case Chars(x) => LiteralText(x)
    case Array(inner, items) => ['[' as int] + if items == [] then GapText(inner) + [']' as int] else ItemsText(items)
    case Object(inner, members) =>
      ['{' as int] + if members == [] then GapText(inner) + ['}' as int] else MembersText(members)
  }

  function EntryText(e: Entry): seq<byte>
    decreases e
  {
    GapText(e.before) + (DocText(e.doc) + GapText(e.after))
  }

  /** The elements, parted by commas, and the closing bracket. */
  function ItemsText(items: seq<Entry>): seq<byte>
    requires items != []
    decreases items
  {
    EntryText(items[0]) + if |items| == 1 then [']' as int] else [',' as int] + ItemsText(items[1..])
  }

  function KeyText(m: Property): seq<byte> {
    GapText(m.before) + (LiteralText(m.key) + (GapText(m.between) + [':' as int]))
  }

  /** The members, parted by commas, and the closing brace. */
  function MembersText(members: seq<Property>): seq<byte>
    requires members != []
    decreases members
  {
    KeyText(members[0]) + (EntryText(members[0].value) +
      if |members| == 1 then ['}' as int] else [',' as int] + MembersText(members[1..]))
  }

  /** What a document stands for. */
  function DocValue(d: Doc): Json
    decreases d
  {
    match d
    case Word(j) => j
    case Number(n) => if IsNumeralText(n) then Num(NumeralValue(n)) else Null
    case Chars(x) => Str(LiteralValue(x))
    case Array(_, items) => Arr(ItemsValue(items))
    case Object(_, members) => Obj(MembersValue(members))
  }

  function ItemsValue(items: seq<Entry>): seq<Json>
    decreases items
  {
    if items == [] then [] else [DocValue(items[0].doc)] + ItemsValue(items[1..])
  }

  function MembersValue(members: seq<Property>): seq<Member>
    decreases members
  {
    if members == [] then []
    else [Member(LiteralValue(members[0].key), DocValue(members[0].value.doc))] + MembersValue(members[1..])
  }

  /** The tokens are well formed, with numerals short enough for the buffer they are read from. */
  ghost predicate IsDoc(d: Doc)
    decreases d
  {
    match d
    case Word(j) => j == Null || j.Bool?
    case Number(n) => IsNumeralText(n) && (n.negative || n.whole != []) && |NumeralText(n)| <= 63
    case Chars(x) => IsLiteral(x)
    case Array(inner, items) => (items == [] || inner == []) && forall k :: 0 <= k < |items| ==> IsDoc(items[k].doc)
    case Object(inner, members) =>
      && (members == [] || inner == [])
      && forall k :: 0 <= k < |members| ==> IsLiteral(members[k].key) && IsDoc(members[k].value.doc)
  }

  /** Nothing but blanks between the tokens. */
  predicate NoComments(d: Doc)
    decreases d
  {
    match d
    case Array(inner, items) => AllBlank(inner) && forall k :: 0 <= k < |items| ==> PlainEntry(items[k])
    case Object(inner, members) =>
      && AllBlank(inner)
      && forall k :: 0 <= k < |members| ==>
        AllBlank(members[k].before) && AllBlank(members[k].between) && PlainEntry(members[k].value)
    case _ => true
  }

  predicate PlainEntry(e: Entry)
    decreases e
  {
    AllBlank(e.before) && NoComments(e.doc) && AllBlank(e.after)
  }

  /** No more than so many arrays and objects are open around any token. */
  predicate FitsDepth(d: Doc, depth: int)
    decreases d
  {
    match d
    case Array(_, items) => depth > 0 && forall k :: 0 <= k < |items| ==> FitsDepth(items[k].doc, depth - 1)
    case Object(_, members) =>
      depth > 0 && forall k :: 0 <= k < |members| ==> FitsDepth(members[k].value.doc, depth - 1)
    case _ => true
  }

  /** Well formed, nothing but blanks between the tokens, and not nested too deeply. */
  ghost predicate GoodDoc(d: Doc, depth: int) {
    IsDoc(d) && NoComments(d) && FitsDepth(d, depth)
  }

  ghost predicate GoodEntry(e: Entry, depth: int) {
    AllBlank(e.before) && GoodDoc(e.doc, depth) && AllBlank(e.after)
  }

  ghost predicate GoodProperty(m: Property, depth: int) {
    AllBlank(m.before) && IsLiteral(m.key) && AllBlank(m.between) && GoodEntry(m.value, depth)
  }

  lemma ArrayParts(inner: Gap, items: seq<Entry>, depth: int)
    ensures GoodDoc(Array(inner, items), depth) <==>
      && depth > 0 && AllBlank(inner) && (items == [] || inner == [])
      && forall k :: 0 <= k < |items| ==> GoodEntry(items[k], depth - 1)
  {
    var d := Array(inner, items);
    assert IsDoc(d) <==> (items == [] || inner == []) && forall k :: 0 <= k < |items| ==> IsDoc(items[k].doc);
    assert NoComments(d) <==> AllBlank(inner) && forall k :: 0 <= k < |items| ==> PlainEntry(items[k]);
    assert FitsDepth(d, depth) <==> depth > 0 && forall k :: 0 <= k < |items| ==> FitsDepth(items[k].doc, depth - 1);
    hide AllBlank, IsDoc, NoComments, FitsDepth;
  }

  lemma ObjectParts(inner: Gap, members: seq<Property>, depth: int)
    ensures GoodDoc(Object(inner, members), depth) <==>
      && depth > 0 && AllBlank(inner) && (members == [] || inner == [])
      && forall k :: 0 <= k < |members| ==> GoodProperty(members[k], depth - 1)
  {
    var d := Object(inner, members);
    assert IsDoc(d) <==>
      && (members == [] || inner == [])
      && forall k :: 0 <= k < |members| ==> IsLiteral(members[k].key) && IsDoc(members[k].value.doc);
    assert NoComments(d) <==>
      && AllBlank(inner)
      && forall k :: 0 <= k < |members| ==>
        AllBlank(members[k].before) && AllBlank(members[k].between) && PlainEntry(members[k].value);
    assert FitsDepth(d, depth) <==>
      depth > 0 && forall k :: 0 <= k < |members| ==> FitsDepth(members[k].value.doc, depth - 1);
    hide AllBlank, IsLiteral, IsDoc, NoComments, FitsDepth;
  }
}

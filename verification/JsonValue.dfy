/** The value a tree of cJSON nodes stands for, and the part of it the printer can write back. */
module JsonValue {
  import opened Bytes

  /**
   A number is its exact decimal value; keys and strings are what C sees of them.
   The members of an object keep their order, and a key may occur more than once.
   */
  datatype Json =
    | Null
    | Bool(b: bool)
    | Num(x: real)
    | Str(s: seq<byte>)
    | Arr(items: seq<Json>)
    | Obj(members: seq<Member>)

  datatype Member = Member(key: seq<byte>, value: Json)

  const NUMBER_BOUND: int := 1_000_000_000_000_000

  const NESTING_LIMIT: nat := 1000

  /** Integers short enough for the printer's fifteen significant digits. */
  predicate IsShortInteger(x: real) {
    x.Floor as real == x && -NUMBER_BOUND < x.Floor < NUMBER_BOUND
  }

  /** The trees this project follows through the printer. */
  ghost predicate Printable(j: Json)
    decreases j
  {
    match j
    case Num(x) => IsShortInteger(x)
    case Str(s) => NulFree(s)
    case Arr(items) => AllPrintable(items)
    case Obj(members) => AllMembersPrintable(members)
    case _ => true
  }

  ghost predicate AllPrintable(items: seq<Json>)
    decreases items
  {
    items == [] || (Printable(items[0]) && AllPrintable(items[1..]))
  }

  ghost predicate AllMembersPrintable(members: seq<Member>)
    decreases members
  {
    members == [] ||
    (NulFree(members[0].key) && Printable(members[0].value) && AllMembersPrintable(members[1..]))
  }

  /** How many arrays and objects are open around the innermost one. */
  function Nesting(j: Json): nat
    decreases j
  {
    match j
    case Arr(items) => 1 + ItemsNesting(items)
    case Obj(members) => 1 + MembersNesting(members)
    case _ => 0
  }

  function ItemsNesting(items: seq<Json>): nat
    decreases items
  {
    if items == [] then 0 else Max(Nesting(items[0]), ItemsNesting(items[1..]))
  }

  function MembersNesting(members: seq<Member>): nat
    decreases members
  {
    if members == [] then 0 else Max(Nesting(members[0].value), MembersNesting(members[1..]))
  }

  lemma NestingOfObject(members: seq<Member>)
    ensures Nesting(Obj(members)) == 1 + MembersNesting(members) && MembersNesting([]) == 0
  {
  }

  lemma NestingOfItems(items: seq<Json>)
    requires items != []
    ensures ItemsNesting(items) == Max(Nesting(items[0]), ItemsNesting(items[1..]))
    ensures |items| == 1 ==> ItemsNesting(items) == Nesting(items[0])
  {
    assert |items| == 1 ==> items[1..] == [];
  }

  lemma NestingOfMembers(members: seq<Member>)
    requires members != []
    ensures MembersNesting(members) == Max(Nesting(members[0].value), MembersNesting(members[1..]))
    ensures |members| == 1 ==> MembersNesting(members) == Nesting(members[0].value)
  {
    assert |members| == 1 ==> members[1..] == [];
  }
}

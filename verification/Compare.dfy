/**
 Comparison and duplication of trees. Two trees that share no node are compared, so the shortcut for a
 node compared with itself plays no part.
 */
module Compare {
  import opened Bytes
  import opened JsonValue

  // ---------------------------------------------------------------- keys and members

  function Lower(b: byte): byte {
    if 65 <= b <= 90 then b + 32 else b
  }

  predicate SameKey(x: seq<byte>, y: seq<byte>, caseSensitive: bool) {
    if caseSensitive then x == y
    else |x| == |y| && forall i :: 0 <= i < |x| ==> Lower(x[i]) == Lower(y[i])
  }

  /** The first member whose key matches, or the number of members. */
  function Find(members: seq<Member>, key: seq<byte>, caseSensitive: bool): (r: nat)
    ensures r <= |members|
    ensures r < |members| ==> SameKey(key, members[r].key, caseSensitive)
    ensures forall k :: 0 <= k < r ==> !SameKey(key, members[k].key, caseSensitive)
  {
    if members == [] || SameKey(key, members[0].key, caseSensitive) then 0
    else
      var r := Find(members[1..], key, caseSensitive);
      assert r < |members| - 1 ==> members[1..][r] == members[r + 1];
      assert forall k :: 1 <= k < r + 1 ==> members[k] == members[1..][k - 1];
      r + 1
  }

  /** The lookup of a member answers nothing for a null member. */
  function GetItem(members: seq<Member>, key: seq<byte>, caseSensitive: bool): Option<Json> {
    var k := Find(members, key, caseSensitive);
    if k == |members| || members[k].value.Null? then None else Some(members[k].value)
  }

  /** The order of two C strings in lower case: the difference of the first bytes that differ. */
  function FoldedOrder(x: seq<byte>, y: seq<byte>): int {
    if x == [] && y == [] then 0
    else if x == [] then -(Lower(y[0]) as int)
    else if y == [] then Lower(x[0])
    else if Lower(x[0]) == Lower(y[0]) then FoldedOrder(x[1..], y[1..])
    else Lower(x[0]) as int - Lower(y[0]) as int
  }

  lemma {:induction false} FoldedEqual(x: seq<byte>, y: seq<byte>)
    requires NulFree(x) && NulFree(y)
    ensures FoldedOrder(x, y) == 0 <==> SameKey(x, y, false)
    decreases |x|
  {
    if x != [] && y != [] && Lower(x[0]) == Lower(y[0]) {
      FoldedEqual(x[1..], y[1..]);
      if SameKey(x, y, false) {
        assert forall i :: 0 <= i < |x[1..]| ==> x[1..][i] == x[i + 1] && y[1..][i] == y[i + 1];
      } else if |x| == |y| {
        var i :| 0 <= i < |x| && Lower(x[i]) != Lower(y[i]);
        assert x[1..][i - 1] == x[i] && y[1..][i - 1] == y[i];
      }
    }
  }

  /** Keys are compared byte by byte up to the first difference or the common end; no missing key equals any. */
  method CaseInsensitiveStrcmp(string1: Option<seq<byte>>, string2: Option<seq<byte>>) returns (order: int)
    requires string1.Some? ==> NulFree(string1.value)
    requires string2.Some? ==> NulFree(string2.value)
    ensures order ==
      if string1.None? || string2.None? then 1 else FoldedOrder(string1.value, string2.value)
  {
    if string1.None? || string2.None? {
      return 1;
    }
    var x, y := string1.value, string2.value;
    var s, t, i := x + [NUL], y + [NUL], 0;
    assert x[0..] == x && y[0..] == y;
    while Lower(s[i]) == Lower(t[i])
      invariant i <= |x| && i <= |y|
      invariant FoldedOrder(x, y) == FoldedOrder(x[i..], y[i..])
      decreases |x| - i
    {
      if s[i] == NUL {
        assert x[i..] == [] && y[i..] == [];
        return 0;
      }
      assert x[i..][1..] == x[i + 1..] && y[i..][1..] == y[i + 1..];
      i := i + 1;
    }
    order := Lower(s[i]) as int - Lower(t[i]) as int;
  }

  method GetObjectItem(members: seq<Member>, name: seq<byte>, caseSensitive: bool) returns (item: Option<Json>)
    requires NulFree(name) && KeysNulFree(members)
    ensures item == GetItem(members, name, caseSensitive)
  {
    var k := 0;
    while k < |members|
      invariant k <= |members|
      invariant forall i :: 0 <= i < k ==> !SameKey(name, members[i].key, caseSensitive)
    {
      var same := members[k].key == name;
      if !caseSensitive {
        var order := CaseInsensitiveStrcmp(Some(name), Some(members[k].key));
        FoldedEqual(name, members[k].key);
        same := order == 0;
      }
      if same {
        break;
      }
      k := k + 1;
    }
    if k < |members| && !members[k].value.Null? {
      return Some(members[k].value);
    }
    return None;
  }

  ghost predicate KeysNulFree(members: seq<Member>) {
    forall k :: 0 <= k < |members| ==> NulFree(members[k].key)
  }

  // ---------------------------------------------------------------- the comparison

  function Size(j: Json): (r: nat)
    ensures r > 0
    decreases j
  {
    match j
    case Arr(items) => 1 + ItemsSize(items)
    case Obj(members) => 1 + MembersSize(members)
    case _ => 1
  }

  function ItemsSize(items: seq<Json>): nat
    decreases items
  {
    if items == [] then 0 else Size(items[0]) + ItemsSize(items[1..])
  }

  function MembersSize(members: seq<Member>): nat
    decreases members
  {
    if members == [] then 0 else Size(members[0].value) + MembersSize(members[1..])
  }

  lemma {:induction false} ItemSmaller(items: seq<Json>, k: nat)
    requires k < |items|
    ensures Size(items[k]) <= ItemsSize(items)
    decreases k
  {
    if k > 0 {
      ItemSmaller(items[1..], k - 1);
    }
  }

  lemma {:induction false} MemberSmaller(members: seq<Member>, k: nat)
    requires k < |members|
    ensures Size(members[k].value) <= MembersSize(members)
    decreases k
  {
    if k > 0 {
      MemberSmaller(members[1..], k - 1);
    }
  }

  predicate SameKind(a: Json, b: Json) {
    match a
    case Null => b.Null?
    case Bool(x) => b.Bool? && x == b.b
    case Num(_) => b.Num?
    case Str(_) => b.Str?
    case Arr(_) => b.Arr?
    case Obj(_) => b.Obj?
  }

  predicate Equal(a: Json, b: Json, caseSensitive: bool)
    decreases Size(a) + Size(b), 1
  {
    SameKind(a, b) &&
    match a
    case Null => true
    case Bool(_) => true
    case Num(x) => x == b.x
    case Str(s) => s == b.s
    case Arr(items) =>
      && |items| == |b.items|
      && forall k :: 0 <= k < |items| ==> (
        ItemSmaller(items, k); ItemSmaller(b.items, k);
        Equal(items[k], b.items[k], caseSensitive))
    case Obj(members) =>
      Covers(members, b.members, caseSensitive) && Covers(b.members, members, caseSensitive)
  }

  /** Every member of one object equals the member that the other one answers for its key. */
  predicate Covers(members: seq<Member>, others: seq<Member>, caseSensitive: bool)
    decreases MembersSize(members) + MembersSize(others) + 1, 0
  {
    forall k :: 0 <= k < |members| ==> Covered(members, k, others, caseSensitive)
  }

  predicate Covered(members: seq<Member>, k: nat, others: seq<Member>, caseSensitive: bool)
    requires k < |members|
    decreases MembersSize(members) + MembersSize(others), 2
  {
    var r := Find(others, members[k].key, caseSensitive);
    r < |others| && !others[r].value.Null? && (
      MemberSmaller(members, k); MemberSmaller(others, r);
      Equal(members[k].value, others[r].value, caseSensitive))
  }

  // ---------------------------------------------------------------- laws of the comparison

  /** Matching is an equivalence of keys, so equivalent keys find the same member. */
  lemma SameMember(members: seq<Member>, x: seq<byte>, y: seq<byte>, caseSensitive: bool)
    requires SameKey(x, y, caseSensitive)
    ensures Find(members, x, caseSensitive) == Find(members, y, caseSensitive)
  {
    var r, q := Find(members, x, caseSensitive), Find(members, y, caseSensitive);
    assert r < |members| ==> SameKey(y, members[r].key, caseSensitive);
    assert q < |members| ==> SameKey(x, members[q].key, caseSensitive);
  }

  lemma {:induction false} Symmetric(a: Json, b: Json, caseSensitive: bool)
    ensures Equal(a, b, caseSensitive) == Equal(b, a, caseSensitive)
    decreases Size(a) + Size(b)
  {
    if a.Arr? && b.Arr? && |a.items| == |b.items| {
      forall k | 0 <= k < |a.items|
        ensures Equal(a.items[k], b.items[k], caseSensitive) == Equal(b.items[k], a.items[k], caseSensitive)
      {
        ItemSmaller(a.items, k);
        ItemSmaller(b.items, k);
        Symmetric(a.items[k], b.items[k], caseSensitive);
      }
    }
  }

  lemma {:induction false} Transitive(a: Json, b: Json, c: Json, caseSensitive: bool)
    requires Equal(a, b, caseSensitive) && Equal(b, c, caseSensitive)
    ensures Equal(a, c, caseSensitive)
    decreases Size(a) + Size(b) + Size(c), 1
  {
    if a.Arr? {
      forall k | 0 <= k < |a.items| ensures Equal(a.items[k], c.items[k], caseSensitive) {
        ItemSmaller(a.items, k);
        ItemSmaller(b.items, k);
        ItemSmaller(c.items, k);
        Transitive(a.items[k], b.items[k], c.items[k], caseSensitive);
      }
    } else if a.Obj? {
      CoversTransitive(a.members, b.members, c.members, caseSensitive);
      CoversTransitive(c.members, b.members, a.members, caseSensitive);
    }
  }

  lemma {:induction false} CoversTransitive(a: seq<Member>, b: seq<Member>, c: seq<Member>, caseSensitive: bool)
    requires Covers(a, b, caseSensitive) && Covers(b, c, caseSensitive)
    ensures Covers(a, c, caseSensitive)
    decreases MembersSize(a) + MembersSize(b) + MembersSize(c) + 3, 0
  {
    forall k | 0 <= k < |a| ensures Covered(a, k, c, caseSensitive) {
      assert Covered(a, k, b, caseSensitive);
      var r := Find(b, a[k].key, caseSensitive);
      assert Covered(b, r, c, caseSensitive);
      SameMember(c, a[k].key, b[r].key, caseSensitive);
      var q := Find(c, a[k].key, caseSensitive);
      MemberSmaller(a, k);
      MemberSmaller(b, r);
      MemberSmaller(c, q);
      Transitive(a[k].value, b[r].value, c[q].value, caseSensitive);
    }
  }

  /**
   No object of the tree has a null member, and every member equals the first one with its key. A caller
   sees this at once when the keys of each object differ from each other.
   */
  predicate Comparable(j: Json, caseSensitive: bool)
    decreases j
  {
    match j
    case Arr(items) => forall k :: 0 <= k < |items| ==> Comparable(items[k], caseSensitive)
    case Obj(members) => forall k :: 0 <= k < |members| ==> ComparableMember(members, k, caseSensitive)
    case _ => true
  }

  predicate ComparableMember(members: seq<Member>, k: nat, caseSensitive: bool)
    requires k < |members|
    decreases members
  {
    FindsSelf(members, k, caseSensitive);
    && !members[k].value.Null?
    && Comparable(members[k].value, caseSensitive)
    && Equal(members[k].value, members[Find(members, members[k].key, caseSensitive)].value, caseSensitive)
  }

  lemma FindsSelf(members: seq<Member>, k: nat, caseSensitive: bool)
    requires k < |members|
    ensures Find(members, members[k].key, caseSensitive) <= k
  {
    assert SameKey(members[k].key, members[k].key, caseSensitive);
  }

  /** A tree equals its own copy exactly when it is comparable in this sense. */
  lemma {:induction false} EqualToCopy(j: Json, caseSensitive: bool)
    ensures Equal(j, j, caseSensitive) <==> Comparable(j, caseSensitive)
    decreases j
  {
    match j
    case Arr(items) =>
      forall k | 0 <= k < |items|
        ensures Equal(items[k], items[k], caseSensitive) <==> Comparable(items[k], caseSensitive)
      {
        EqualToCopy(items[k], caseSensitive);
      }
    case Obj(members) =>
      forall k | 0 <= k < |members|
        ensures Covered(members, k, members, caseSensitive) <==> ComparableMember(members, k, caseSensitive)
      {
        FindsSelf(members, k, caseSensitive);
        var v, first := members[k].value, members[Find(members, members[k].key, caseSensitive)].value;
        EqualToCopy(v, caseSensitive);
        if Equal(v, first, caseSensitive) {
          Symmetric(v, first, caseSensitive);
          Transitive(v, first, v, caseSensitive);
        }
      }
      assert Equal(j, j, caseSensitive) == Covers(members, members, caseSensitive);
    case _ =>
  }

  predicate DistinctKeys(j: Json, caseSensitive: bool)
    decreases j
  {
    match j
    case Arr(items) => forall k :: 0 <= k < |items| ==> DistinctKeys(items[k], caseSensitive)
    case Obj(members) =>
      && (forall k :: 0 <= k < |members| ==> !members[k].value.Null? && DistinctKeys(members[k].value, caseSensitive))
      && (forall k, l :: 0 <= k < l < |members| ==> !SameKey(members[l].key, members[k].key, caseSensitive))
    case _ => true
  }

  lemma {:induction false} DistinctKeysCompare(j: Json, caseSensitive: bool)
    requires DistinctKeys(j, caseSensitive)
    ensures Equal(j, j, caseSensitive)
    decreases j
  {
    match j
    case Arr(items) =>
      forall k | 0 <= k < |items| ensures Equal(items[k], items[k], caseSensitive) {
        DistinctKeysCompare(items[k], caseSensitive);
      }
    case Obj(members) =>
      forall k | 0 <= k < |members| ensures Covered(members, k, members, caseSensitive) {
        FindsSelf(members, k, caseSensitive);
        DistinctKeysCompare(members[k].value, caseSensitive);
      }
    case _ =>
  }

  /** A null member makes an object differ from its own copy. */
  lemma NullMemberDiffers(key: seq<byte>)
    ensures !Equal(Obj([Member(key, Null)]), Obj([Member(key, Null)]), true)
  {
    EqualToCopy(Obj([Member(key, Null)]), true);
    assert !ComparableMember([Member(key, Null)], 0, true);
  }

  // ---------------------------------------------------------------- the functions of the interface

  ghost predicate StringsNulFree(j: Json)
    decreases j
  {
    match j
    case Str(s) => NulFree(s)
    case Arr(items) => forall k :: 0 <= k < |items| ==> StringsNulFree(items[k])
    case Obj(members) =>
      forall k :: 0 <= k < |members| ==> NulFree(members[k].key) && StringsNulFree(members[k].value)
    case _ => true
  }

  method Compare(a: Json, b: Json, caseSensitive: bool) returns (equal: bool)
    requires StringsNulFree(a) && StringsNulFree(b)
    ensures equal == Equal(a, b, caseSensitive)
    decreases Size(a) + Size(b), 1
  {
    if !SameKind(a, b) {
      return false;
    }
    match a
    case Null => return true;
    case Bool(_) => return true;
    case Num(x) => return x == b.x;
    case Str(s) => return s == b.s;
    case Arr(items) =>
      var k := 0;
      while k < |items| && k < |b.items|
        invariant k <= |items| && k <= |b.items|
        invariant forall i :: 0 <= i < k ==> Equal(items[i], b.items[i], caseSensitive)
      {
        ItemSmaller(items, k);
        ItemSmaller(b.items, k);
        var same := Compare(items[k], b.items[k], caseSensitive);
        if !same {
          return false;
        }
        k := k + 1;
      }
      return k == |items| && k == |b.items|;
    case Obj(members) =>
      var covered := CompareMembers(members, b.members, caseSensitive);
      if !covered {
        return false;
      }
      equal := CompareMembers(b.members, members, caseSensitive);
  }

  /** The loop over the members of one object, each compared with what the other object answers. */
  method CompareMembers(members: seq<Member>, others: seq<Member>, caseSensitive: bool) returns (covered: bool)
    requires forall k :: 0 <= k < |members| ==> NulFree(members[k].key) && StringsNulFree(members[k].value)
    requires forall k :: 0 <= k < |others| ==> NulFree(others[k].key) && StringsNulFree(others[k].value)
    ensures covered == Covers(members, others, caseSensitive)
    decreases MembersSize(members) + MembersSize(others) + 1, 0
  {
    for k := 0 to |members|
      invariant forall i :: 0 <= i < k ==> Covered(members, i, others, caseSensitive)
    {
      var item := GetObjectItem(others, members[k].key, caseSensitive);
      if item.None? {
        assert !Covered(members, k, others, caseSensitive);
        return false;
      }
      MemberSmaller(members, k);
      MemberSmaller(others, Find(others, members[k].key, caseSensitive));
      var same := Compare(members[k].value, item.value, caseSensitive);
      if !same {
        assert !Covered(members, k, others, caseSensitive);
        return false;
      }
    }
    return true;
  }

  /** The copy of a tree, with its children one by one or without any. */
  method Duplicate(item: Json, recurse: bool) returns (copy: Json)
    ensures recurse ==> copy == item
    ensures !recurse ==> copy == (match item case Arr(_) => Arr([]) case Obj(_) => Obj([]) case _ => item)
    decreases item
  {
    match item
    case Arr(items) =>
      var children: seq<Json> := [];
      if recurse {
        for k := 0 to |items|
          invariant children == items[..k]
        {
          var child := Duplicate(items[k], true);
          children := children + [child];
        }
      }
      return Arr(children);
    case Obj(members) =>
      var children: seq<Member> := [];
      if recurse {
        for k := 0 to |members|
          invariant children == members[..k]
        {
          var child := Duplicate(members[k].value, true);
          children := children + [Member(members[k].key, child)];
        }
      }
      return Obj(children);
    case _ => return item;
  }
}

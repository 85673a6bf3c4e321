/**
 What it means that two trees compare equal: they stand for the same value, in which an object is a map from keys,
 and no object of either of them holds a null member or tells its keys apart in the order of its members.
 */
module CompareMeaning {
  import opened Bytes
  import opened JsonValue
  import opened Compare

  /** A tree without the order of members and without the spelling of keys that are matched regardless of case. */
  datatype Meaning =
    | Leaf(j: Json)
    | List(items: seq<Meaning>)
    | Table(members: map<seq<byte>, Meaning>)

  function Folded(key: seq<byte>, caseSensitive: bool): seq<byte> {
    if caseSensitive then key else seq(|key|, i requires 0 <= i < |key| => Lower(key[i]))
  }

  lemma FoldedAlike(x: seq<byte>, y: seq<byte>, caseSensitive: bool)
    ensures SameKey(x, y, caseSensitive) <==> Folded(x, caseSensitive) == Folded(y, caseSensitive)
  {
    if !caseSensitive && Folded(x, false) == Folded(y, false) {
      assert |x| == |Folded(x, false)| == |y|;
      forall i | 0 <= i < |x| ensures Lower(x[i]) == Lower(y[i]) {
        assert Folded(x, false)[i] == Folded(y, false)[i];
      }
    }
  }

  /** Folding takes capital letters to small ones, and leaves every other byte alone. */
  lemma LettersFold(c: char)
    ensures 'A' <= c <= 'Z' ==> Lower(c as int) == (c - 'A' + 'a') as int
    ensures c < 256 as char && !('A' <= c <= 'Z') ==> Lower(c as int) == c as int
  {
  }

  function MeaningOf(j: Json, caseSensitive: bool): Meaning
    decreases j
  {
    match j
    case Arr(items) => List(ItemsMeaning(items, caseSensitive))
    case Obj(members) => Table(MembersMeaning(members, caseSensitive))
    case _ => Leaf(j)
  }

  function ItemsMeaning(items: seq<Json>, caseSensitive: bool): (r: seq<Meaning>)
    ensures |r| == |items|
    ensures forall k :: 0 <= k < |items| ==> r[k] == MeaningOf(items[k], caseSensitive)
    decreases items
  {
    seq(|items|, k requires 0 <= k < |items| => MeaningOf(items[k], caseSensitive))
  }

  /** Of members with one key, the first has the say. */
  function MembersMeaning(members: seq<Member>, caseSensitive: bool): map<seq<byte>, Meaning>
    decreases members
  {
    if members == [] then map[]
    else MembersMeaning(members[1..], caseSensitive)
      [Folded(members[0].key, caseSensitive) := MeaningOf(members[0].value, caseSensitive)]
  }

  /** No object holds a null member, and no two members with one key stand for different values. */
  predicate Uniform(j: Json, caseSensitive: bool)
    decreases j
  {
    match j
    case Arr(items) => forall k :: 0 <= k < |items| ==> Uniform(items[k], caseSensitive)
    case Obj(members) => forall k :: 0 <= k < |members| ==> UniformMember(members, k, caseSensitive)
    case _ => true
  }

  predicate UniformMember(members: seq<Member>, k: nat, caseSensitive: bool)
    requires k < |members|
    decreases members
  {
    var key, value := Folded(members[k].key, caseSensitive), members[k].value;
    && !value.Null? && Uniform(value, caseSensitive)
    && (forall i :: 0 <= i < |members| && Folded(members[i].key, caseSensitive) == key ==>
      MeaningOf(members[i].value, caseSensitive) == MeaningOf(value, caseSensitive))
  }

  lemma {:induction false} TableFinds(members: seq<Member>, key: seq<byte>, caseSensitive: bool)
    ensures var table, r := MembersMeaning(members, caseSensitive), Find(members, key, caseSensitive);
      && (Folded(key, caseSensitive) in table <==> r < |members|)
      && (r < |members| ==> table[Folded(key, caseSensitive)] == MeaningOf(members[r].value, caseSensitive))
  {
    if members != [] {
      FoldedAlike(key, members[0].key, caseSensitive);
      TableFinds(members[1..], key, caseSensitive);
    }
  }

  lemma {:induction false} KeyOfTable(members: seq<Member>, f: seq<byte>, caseSensitive: bool) returns (k: nat)
    requires f in MembersMeaning(members, caseSensitive)
    ensures k < |members| && Folded(members[k].key, caseSensitive) == f
  {
    if Folded(members[0].key, caseSensitive) == f {
      k := 0;
    } else {
      k := KeyOfTable(members[1..], f, caseSensitive);
      k := k + 1;
    }
  }

  /**
   Two trees compare equal if and only if they stand for the same value and each is uniform in itself: an exact
   characterisation for all trees, in both modes.
   */
  lemma {:induction false} EqualMeans(a: Json, b: Json, caseSensitive: bool)
    ensures Equal(a, b, caseSensitive) <==>
      && MeaningOf(a, caseSensitive) == MeaningOf(b, caseSensitive)
      && Uniform(a, caseSensitive) && Uniform(b, caseSensitive)
    decreases Size(a) + Size(b), 0
  {
    if a.Arr? && b.Arr? {
      if |a.items| == |b.items| {
        ItemsMean(a.items, b.items, caseSensitive);
      }
    } else if a.Obj? && b.Obj? {
      if Equal(a, b, caseSensitive) {
        CoversMeans(a.members, b.members, caseSensitive);
        CoversMeans(b.members, a.members, caseSensitive);
      } else if MeaningOf(a, caseSensitive) == MeaningOf(b, caseSensitive)
          && Uniform(a, caseSensitive) && Uniform(b, caseSensitive) {
        MeansCovers(a.members, b.members, caseSensitive);
        MeansCovers(b.members, a.members, caseSensitive);
      }
    }
  }

  lemma {:induction false} ItemsMean(items: seq<Json>, others: seq<Json>, caseSensitive: bool)
    requires |items| == |others|
    ensures Equal(Arr(items), Arr(others), caseSensitive) <==>
      && ItemsMeaning(items, caseSensitive) == ItemsMeaning(others, caseSensitive)
      && Uniform(Arr(items), caseSensitive) && Uniform(Arr(others), caseSensitive)
    decreases ItemsSize(items) + ItemsSize(others) + 1
  {
    forall k | 0 <= k < |items|
      ensures Equal(items[k], others[k], caseSensitive) <==>
        && ItemsMeaning(items, caseSensitive)[k] == ItemsMeaning(others, caseSensitive)[k]
        && Uniform(items[k], caseSensitive) && Uniform(others[k], caseSensitive)
    {
      ItemSmaller(items, k);
      ItemSmaller(others, k);
      EqualMeans(items[k], others[k], caseSensitive);
    }
  }

  lemma {:induction false} CoversMeans(members: seq<Member>, others: seq<Member>, caseSensitive: bool)
    requires Covers(members, others, caseSensitive) && Covers(others, members, caseSensitive)
    ensures MembersMeaning(members, caseSensitive) == MembersMeaning(others, caseSensitive)
    ensures Uniform(Obj(members), caseSensitive)
    decreases MembersSize(members) + MembersSize(others) + 1, 1
  {
    hide Equal, Covers, MembersMeaning, UniformMember;
    CoversTable(members, others, caseSensitive);
    CoversTable(others, members, caseSensitive);
    forall k | 0 <= k < |members| ensures UniformMember(members, k, caseSensitive) {
      CoversUniform(members, k, others, caseSensitive);
    }
  }

  lemma {:induction false} CoversTable(members: seq<Member>, others: seq<Member>, caseSensitive: bool)
    requires Covers(members, others, caseSensitive)
    ensures var table, other := MembersMeaning(members, caseSensitive), MembersMeaning(others, caseSensitive);
      forall f <- table :: f in other && table[f] == other[f]
    decreases MembersSize(members) + MembersSize(others) + 1, 0
  {
    hide Equal, MembersMeaning, Uniform;
    var table, other := MembersMeaning(members, caseSensitive), MembersMeaning(others, caseSensitive);
    forall f <- table ensures f in other && table[f] == other[f] {
      var k := KeyOfTable(members, f, caseSensitive);
      var key := members[k].key;
      FindsSelf(members, k, caseSensitive);
      TableFinds(members, key, caseSensitive);
      TableFinds(others, key, caseSensitive);
      var r := Find(members, key, caseSensitive);
      SameMember(others, key, members[r].key, caseSensitive);
      CoveredMeans(members, r, others, caseSensitive);
    }
  }

  lemma {:induction false} CoveredMeans(members: seq<Member>, k: nat, others: seq<Member>, caseSensitive: bool)
    requires k < |members| && Covers(members, others, caseSensitive)
    ensures var r, value := Find(others, members[k].key, caseSensitive), members[k].value;
      && r < |others| && !value.Null? && Uniform(value, caseSensitive)
      && MeaningOf(value, caseSensitive) == MeaningOf(others[r].value, caseSensitive)
    decreases MembersSize(members) + MembersSize(others), 1
  {
    hide Uniform, MeaningOf;
    assert Covered(members, k, others, caseSensitive);
    var r := Find(others, members[k].key, caseSensitive);
    MemberSmaller(members, k);
    MemberSmaller(others, r);
    EqualMeans(members[k].value, others[r].value, caseSensitive);
  }

  lemma {:induction false} CoversUniform(members: seq<Member>, k: nat, others: seq<Member>, caseSensitive: bool)
    requires k < |members| && Covers(members, others, caseSensitive)
    ensures UniformMember(members, k, caseSensitive)
    decreases MembersSize(members) + MembersSize(others) + 1, 0
  {
    hide Equal, Covers, MeaningOf, Uniform, Folded;
    CoveredMeans(members, k, others, caseSensitive);
    forall i | 0 <= i < |members| && Folded(members[i].key, caseSensitive) == Folded(members[k].key, caseSensitive)
      ensures MeaningOf(members[i].value, caseSensitive) == MeaningOf(members[k].value, caseSensitive)
    {
      FoldedAlike(members[i].key, members[k].key, caseSensitive);
      SameMember(others, members[i].key, members[k].key, caseSensitive);
      CoveredMeans(members, i, others, caseSensitive);
    }
  }

  lemma {:induction false} MeansCovers(members: seq<Member>, others: seq<Member>, caseSensitive: bool)
    requires MembersMeaning(members, caseSensitive) == MembersMeaning(others, caseSensitive)
    requires Uniform(Obj(members), caseSensitive) && Uniform(Obj(others), caseSensitive)
    ensures Covers(members, others, caseSensitive)
    decreases MembersSize(members) + MembersSize(others) + 1
  {
    hide Equal, MembersMeaning, MeaningOf, Folded;
    forall k | 0 <= k < |members| ensures Covered(members, k, others, caseSensitive) {
      var key := members[k].key;
      FindsSelf(members, k, caseSensitive);
      TableFinds(members, key, caseSensitive);
      TableFinds(others, key, caseSensitive);
      var r, q := Find(members, key, caseSensitive), Find(others, key, caseSensitive);
      FoldedAlike(key, members[r].key, caseSensitive);
      assert UniformMember(members, k, caseSensitive) && UniformMember(others, q, caseSensitive);
      MemberSmaller(members, k);
      MemberSmaller(others, q);
      EqualMeans(members[k].value, others[q].value, caseSensitive);
    }
  }

  // ---------------------------------------------------------------- what follows for simple trees

  predicate ObjectFree(j: Json)
    decreases j
  {
    match j
    case Arr(items) => forall k :: 0 <= k < |items| ==> ObjectFree(items[k])
    case Obj(_) => false
    case _ => true
  }

  /** Trees without objects compare equal if and only if they are the same. */
  lemma {:induction false} ObjectFreeEqual(a: Json, b: Json, caseSensitive: bool)
    requires ObjectFree(a)
    ensures Equal(a, b, caseSensitive) <==> a == b
    decreases a
  {
    if a.Arr? && b.Arr? && |a.items| == |b.items| {
      forall k | 0 <= k < |a.items| ensures Equal(a.items[k], b.items[k], caseSensitive) <==> a.items[k] == b.items[k] {
        ObjectFreeEqual(a.items[k], b.items[k], caseSensitive);
      }
    }
  }

  lemma {:induction false} DistinctKeysUniform(j: Json, caseSensitive: bool)
    requires DistinctKeys(j, caseSensitive)
    ensures Uniform(j, caseSensitive)
    decreases j
  {
    match j
    case Arr(items) =>
      forall k | 0 <= k < |items| ensures Uniform(items[k], caseSensitive) {
        DistinctKeysUniform(items[k], caseSensitive);
      }
    case Obj(members) =>
      forall k | 0 <= k < |members| ensures UniformMember(members, k, caseSensitive) {
        DistinctKeysUniform(members[k].value, caseSensitive);
        forall i | 0 <= i < |members| && Folded(members[i].key, caseSensitive) == Folded(members[k].key, caseSensitive)
          ensures i == k
        {
          FoldedAlike(members[i].key, members[k].key, caseSensitive);
          FoldedAlike(members[k].key, members[i].key, caseSensitive);
        }
      }
    case _ =>
  }

  /** Trees with distinct keys and without null members compare equal if and only if they stand for the same value. */
  lemma DistinctKeysEqual(a: Json, b: Json, caseSensitive: bool)
    requires DistinctKeys(a, caseSensitive) && DistinctKeys(b, caseSensitive)
    ensures Equal(a, b, caseSensitive) <==> MeaningOf(a, caseSensitive) == MeaningOf(b, caseSensitive)
  {
    EqualMeans(a, b, caseSensitive);
    DistinctKeysUniform(a, caseSensitive);
    DistinctKeysUniform(b, caseSensitive);
  }

  // ---------------------------------------------------------------- the order of keys

  /** Two strings are told apart by the first byte that differs in lower case, the end of a string counting as 0. */
  lemma {:induction false} OrderByFirst(x: seq<byte>, y: seq<byte>, k: nat)
    requires k <= |x| && k <= |y| && Folded(x[..k], false) == Folded(y[..k], false)
    requires k < |x| && k < |y| ==> Lower(x[k]) != Lower(y[k])
    ensures FoldedOrder(x, y) ==
      (if k < |x| then Lower(x[k]) as int else 0) - (if k < |y| then Lower(y[k]) as int else 0)
    decreases k
  {
    if k > 0 {
      FoldedAt(x[..k], y[..k], 0);
      var a, b := x[1..][..k - 1], y[1..][..k - 1];
      forall i | 0 <= i < |a| ensures Lower(a[i]) == Lower(b[i]) {
        FoldedAt(x[..k], y[..k], i + 1);
      }
      FoldedAlike(a, b, false);
      OrderByFirst(x[1..], y[1..], k - 1);
    }
  }

  lemma FoldedAt(x: seq<byte>, y: seq<byte>, i: nat)
    requires Folded(x, false) == Folded(y, false) && i < |x|
    ensures |x| == |y| && Lower(x[i]) == Lower(y[i])
  {
    assert |x| == |Folded(x, false)| == |y|;
    assert Folded(x, false)[i] == Lower(x[i]) && Folded(y, false)[i] == Lower(y[i]);
  }
}

/** The growth policy of the print buffer, seen over any run of requests. */
module Growth {
  import opened Bytes

  /** The capacity in use and the bytes moved by reallocation so far. */
  datatype Capacity = Capacity(length: nat, copied: nat)

  function NewSize(total: nat): nat {
    if total > INT_MAX / 2 then INT_MAX else 2 * total
  }

  /** A request for `total` bytes in all. */
  function Grow(c: Capacity, total: nat): Capacity {
    if total <= c.length then c else Capacity(NewSize(total), c.copied + c.length)
  }

  function Run(c: Capacity, totals: seq<nat>): Capacity
    decreases |totals|
  {
    if totals == [] then c else Grow(Run(c, totals[..|totals| - 1]), totals[|totals| - 1])
  }

  function Largest(totals: seq<nat>): nat
    decreases |totals|
  {
    if totals == [] then 0 else
      var rest := Largest(totals[..|totals| - 1]);
      if rest < totals[|totals| - 1] then totals[|totals| - 1] else rest
  }

  lemma RunStep(c: Capacity, totals: seq<nat>, total: nat)
    ensures Run(c, totals + [total]) == Grow(Run(c, totals), total)
  {
    assert (totals + [total])[..|totals|] == totals;
  }

  /** A reallocation always suffices, and more than doubles the capacity exactly from half the cap downwards. */
  lemma MoreThanDoubles(c: Capacity, total: nat)
    requires c.length < total <= INT_MAX
    ensures Grow(c, total).length >= total
    ensures Grow(c, total).length > 2 * c.length <==> c.length <= INT_MAX / 2
  {
  }

  /** A request that does not fit gets twice what it asks for, or the cap. */
  lemma TwiceOrCap(c: Capacity, total: nat)
    requires c.length < total <= INT_MAX
    ensures Grow(c, total) ==
      Capacity(if 2 * total < 0x8000_0000 then 2 * total else 0x7FFF_FFFF, c.copied + c.length)
    ensures Grow(c, c.length) == c
  {
  }

  /**
   Over any run of requests the bytes moved stay below twice the final capacity, and below the capacity itself
   short of the cap; the capacity stays within twice the largest request once the buffer has grown at all.
   */
  lemma {:induction false} AmortisedGrowth(initial: nat, totals: seq<nat>)
    requires initial <= INT_MAX && forall k :: 0 <= k < |totals| ==> totals[k] <= INT_MAX
    ensures var c := Run(Capacity(initial, 0), totals);
      && c.length <= INT_MAX
      && Largest(totals) <= Max(c.length, initial)
      && (c.length != initial ==> c.length > initial && c.length <= 2 * Largest(totals))
      && (c.length == initial ==> c.copied == 0)
      && (c.length != initial && c.length < INT_MAX ==> c.copied < c.length)
      && (c.length != initial ==> c.copied < 2 * c.length)
    decreases |totals|
  {
    if totals != [] {
      var n := |totals| - 1;
      AmortisedGrowth(initial, totals[..n]);
      var before := Run(Capacity(initial, 0), totals[..n]);
      if totals[n] > before.length && totals[n] <= INT_MAX / 2 {
        MoreThanDoubles(before, totals[n]);
      }
    }
  }

  /** After any run, the one step that does not double: to the cap, from above half of it, with bytes moved before. */
  predicate JumpsLate(initial: nat, before: Capacity, total: nat) {
    && before.length < total && before.length != initial
    && before.length > INT_MAX / 2
    && before.copied + before.length >= INT_MAX
  }

  /** One more request, after any run: the bytes moved stay below the capacity but for a late jump. */
  lemma OneMoreRequest(initial: nat, totals: seq<nat>, total: nat)
    requires initial <= INT_MAX && forall k :: 0 <= k < |totals| ==> totals[k] <= INT_MAX
    requires total <= INT_MAX
    ensures var before := Run(Capacity(initial, 0), totals); var c := Grow(before, total);
      before.length < total ==> (c.copied < c.length <==> !JumpsLate(initial, before, total))
  {
    AmortisedGrowth(initial, totals);
    var before := Run(Capacity(initial, 0), totals);
    if before.length < total {
      MoreThanDoubles(before, total);
    }
  }

  /** A run meets a late jump, at its last growth; there is no growth behind one. */
  predicate EndsLate(initial: nat, totals: seq<nat>)
    decreases |totals|
  {
    totals != [] && (
      || JumpsLate(initial, Run(Capacity(initial, 0), ButLast(totals)), Last(totals))
      || EndsLate(initial, ButLast(totals)))
  }

  /** Once the buffer has grown, the bytes moved are fewer than its capacity if and only if no late jump was met. */
  lemma {:induction false} CopiedBelowCapacity(initial: nat, totals: seq<nat>)
    requires initial <= INT_MAX && forall k :: 0 <= k < |totals| ==> totals[k] <= INT_MAX
    ensures var c := Run(Capacity(initial, 0), totals);
      && (EndsLate(initial, totals) ==> c.length == INT_MAX)
      && (c.length != initial ==> (c.copied < c.length <==> !EndsLate(initial, totals)))
      && (c.length == initial ==> !EndsLate(initial, totals))
    decreases |totals|
  {
    if totals != [] {
      CopiedBelowCapacity(initial, ButLast(totals));
      OneMoreRequest(initial, ButLast(totals), Last(totals));
      AmortisedGrowth(initial, ButLast(totals));
    }
  }

  /** Two requests, each just too large, move more bytes than the final capacity. */
  lemma LateJump()
    ensures var c := Run(Capacity(0x3FFF_FFFE, 0), [0x3FFF_FFFF, 0x7FFF_FFFF]);
      c.length == INT_MAX && c.copied >= c.length
    ensures EndsLate(0x3FFF_FFFE, [0x3FFF_FFFF, 0x7FFF_FFFF])
  {
    var first := [0x3FFF_FFFF];
    var both := [0x3FFF_FFFF, 0x7FFF_FFFF];
    assert ButLast(both) == first && ButLast(first) == [];
    assert Run(Capacity(0x3FFF_FFFE, 0), first) == Capacity(0x7FFF_FFFE, 0x3FFF_FFFE);
    CopiedBelowCapacity(0x3FFF_FFFE, both);
  }
}

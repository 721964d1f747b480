/**
 * Specification functions over a table of boolean slot flags, shared by the
 * two semaphore-guarded pools: `ResourcePool` keeps an "available" flag per
 * resource, `Pool` keeps a "used" flag per item.
 */
module Slots {
  import opened Options

  /** Number of slots whose flag equals `b`. */
  function Count(flags: seq<bool>, b: bool): (n: nat)
    ensures n <= |flags|
  {
    if flags == [] then 0
    else (if flags[0] == b then 1 else 0) + Count(flags[1..], b)
  }

  /**
   * The lowest index holding `x`, comparing with `==` (object identity for
   * references): the slot a first-fit scan stops at.
   */
  function FirstIndex<T(==)>(s: seq<T>, x: T): (r: Option<nat>)
    ensures r.Some? ==> r.value < |s| && s[r.value] == x
    ensures r.Some? ==> forall j :: 0 <= j < r.value ==> s[j] != x
    ensures r.None? <==> x !in s
  {
    if s == [] then None
    else if s[0] == x then Some(0)
    else match FirstIndex(s[1..], x)
      case None => None
      case Some(k) => Some(k + 1)
  }

  /** A first-fit scan finds nothing exactly when no slot carries the flag. */
  lemma {:induction false} FirstIndexNoneIffCountZero(flags: seq<bool>, b: bool)
    ensures FirstIndex(flags, b).None? <==> Count(flags, b) == 0
  {
    if flags != [] {
      FirstIndexNoneIffCountZero(flags[1..], b);
    }
  }

  /** Flipping one slot that carries `b` lowers the count of `b` slots by exactly one. */
  lemma {:induction false} CountFlipAway(flags: seq<bool>, i: nat, b: bool)
    requires i < |flags| && flags[i] == b
    ensures Count(flags[i := !b], b) == Count(flags, b) - 1
  {
    if i > 0 {
      CountFlipAway(flags[1..], i - 1, b);
      assert flags[i := !b][1..] == flags[1..][i - 1 := !b];
    }
  }

  /** Flipping one slot that does not carry `b` raises the count of `b` slots by exactly one. */
  lemma {:induction false} CountFlipTo(flags: seq<bool>, i: nat, b: bool)
    requires i < |flags| && flags[i] != b
    ensures Count(flags[i := b], b) == Count(flags, b) + 1
  {
    if i > 0 {
      CountFlipTo(flags[1..], i - 1, b);
      assert flags[i := b][1..] == flags[1..][i - 1 := b];
    }
  }

  /** A table whose every slot carries `b` counts all of its slots. */
  lemma {:induction false} CountAll(flags: seq<bool>, b: bool)
    requires forall j :: 0 <= j < |flags| ==> flags[j] == b
    ensures Count(flags, b) == |flags|
  {
    if flags != [] {
      CountAll(flags[1..], b);
    }
  }

  /** Every slot carries one flag or the other, so the two counts add up to the table size. */
  lemma {:induction false} CountComplement(flags: seq<bool>, b: bool)
    ensures Count(flags, b) + Count(flags, !b) == |flags|
  {
    if flags != [] {
      CountComplement(flags[1..], b);
    }
  }
}

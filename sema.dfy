/**
 * The two counting-semaphore resource pools: `ResourcePool` (a table of
 * `Resource` objects with an availability flag each) and `Pool` (a table of
 * item strings with a parallel `used` array). The semaphore is an integer
 * `permits`: `acquire` may only run when a permit is left (the blocking wait
 * becomes a precondition) and takes one, `release` gives one back. Each
 * `synchronized` method is one atomic call.
 */
module Sema {
  import opened Options
  import opened Slots

  /** Decimal digits of `n`, as Java's string concatenation writes an int. */
  function DecimalString(n: nat): (s: string)
    ensures |s| >= 1
    ensures forall i :: 0 <= i < |s| ==> '0' <= s[i] <= '9'
    ensures s[0] == '0' ==> n == 0
    ensures |s| == 1 <==> n < 10
  {
    if n < 10 then [('0' as int + n) as char]
    else DecimalString(n / 10) + [('0' as int + n % 10) as char]
  }

  /** A resource that threads check out of a `ResourcePool` and put back. */
  class Resource {
    const name: string
    var available: bool

    constructor (name: string)
      ensures this.name == name && available
    {
      this.name := name;
      available := true;
    }
  }

  /** The availability flag of each resource in `rs`, in order. */
  ghost function Flags(rs: seq<Resource>): (flags: seq<bool>)
    reads rs
    ensures |flags| == |rs|
    ensures forall i :: 0 <= i < |rs| ==> flags[i] == rs[i].available
  {
    if rs == [] then [] else [rs[0].available] + Flags(rs[1..])
  }

  class ResourcePool {
    static const MaxPermits := 10
    /** The permits left in the pool's counting semaphore. */
    var permits: int
    const resources: array<Resource>
    /** The resources in table order; the array's entries are never reassigned. */
    ghost const slots: seq<Resource>

    /** The table holds `MaxPermits` distinct resources, the ones `slots` lists. */
    ghost predicate WellFormed()
      reads resources
    {
      resources.Length == MaxPermits && |slots| == MaxPermits &&
      (forall i :: 0 <= i < MaxPermits ==> resources[i] == slots[i]) &&
      forall i, j :: 0 <= i < j < |slots| ==> slots[i] != slots[j]
    }

    /** The availability flag of each resource, in table order. */
    ghost function Availability(): (flags: seq<bool>)
      reads slots
    {
      Flags(slots)
    }

    /** The pool invariant: one permit per available resource. */
    ghost predicate Valid()
      reads this, resources, slots
    {
      WellFormed() && permits == Count(Availability(), true)
    }

    constructor ()
      ensures Valid() && fresh(resources)
      ensures permits == MaxPermits
      ensures forall i :: 0 <= i < MaxPermits ==>
        fresh(resources[i]) && resources[i].available && resources[i].name == "Resource" + DecimalString(i)
    {
      var rs: seq<Resource> := [];
      var i := 0;
      while i < MaxPermits
        invariant 0 <= i <= MaxPermits && |rs| == i
        invariant forall k :: 0 <= k < i ==>
          fresh(rs[k]) && rs[k].available && rs[k].name == "Resource" + DecimalString(k)
        invariant forall k, l :: 0 <= k < l < i ==> rs[k] != rs[l]
      {
        var r := new Resource("Resource" + DecimalString(i));
        rs := rs + [r];
        i := i + 1;
      }
      permits := MaxPermits;
      resources := new Resource[MaxPermits](k requires 0 <= k < |rs| => rs[k]);
      slots := rs;
      new;
      CountAll(Availability(), true);
    }

    /**
     * The semaphore's guarantee: while the invariant holds the permits left
     * and the resources checked out add up to `MaxPermits`, so at most
     * `MaxPermits` resources are out at once and the permit count stays in range.
     */
    lemma CheckedOutBound()
      requires Valid()
      ensures permits + Count(Availability(), false) == MaxPermits
      ensures 0 <= permits <= MaxPermits
    {
      CountComplement(Availability(), true);
    }

    /** Acquires a permit, then checks out the first available resource. */
    method GetResource() returns (r: Resource?)
      requires Valid() && permits > 0
      modifies this`permits, slots
      ensures Valid() && permits == old(permits) - 1
      ensures r != null
      ensures FirstIndex(old(Availability()), true).Some?
      ensures r == resources[FirstIndex(old(Availability()), true).value]
      ensures Availability() == old(Availability())[FirstIndex(old(Availability()), true).value := false]
    {
      ghost var before := Availability();
      FirstIndexNoneIffCountZero(before, true);
      ghost var k := FirstIndex(before, true).value;
      CountFlipAway(before, k, true);
      permits := permits - 1;
      r := GetAvailableResource();
    }

    /** Puts a resource back; the permit is released only if the resource was checked out. */
    method PutResource(resource: Resource)
      requires Valid()
      modifies this`permits, resource
      ensures resource.available
      ensures permits == old(permits) + (if old(resource.available) then 0 else 1)
      ensures resource in slots ==>
        Availability() == old(Availability())[FirstIndex(slots, resource).value := true]
      ensures resource !in slots ==> Availability() == old(Availability())
      ensures Valid() <==> resource in slots || old(resource.available)
    {
      ghost var before := Availability();
      var returned := ResourceHasBeenReturned(resource);
      if returned {
        permits := permits + 1;
        if resource in slots {
          var k := FirstIndex(slots, resource).value;
          assert before[k] == false;
          CountFlipTo(before, k, true);
          assert Availability() == before[k := true];
        } else {
          assert Availability() == before;
        }
      } else if resource in slots {
        var k := FirstIndex(slots, resource).value;
        assert before[k := true] == before;
      }
    }

    /** First-fit scan: marks the lowest-indexed available resource as checked out and returns it. */
    method GetAvailableResource() returns (r: Resource?)
      requires WellFormed()
      modifies slots
      ensures FirstIndex(old(Availability()), true).None? ==>
        r == null && Availability() == old(Availability())
      ensures FirstIndex(old(Availability()), true).Some? ==>
        r == resources[FirstIndex(old(Availability()), true).value] &&
        Availability() == old(Availability())[FirstIndex(old(Availability()), true).value := false]
    {
      for i := 0 to resources.Length
        invariant forall j :: 0 <= j < i ==> !resources[j].available
        invariant Availability() == old(Availability())
      {
        if resources[i].available {
          resources[i].available := false;
          assert Availability() == old(Availability())[i := false];
          return resources[i];
        }
      }
      return null;
    }

    /** Marks a checked-out resource available again; refuses one that is already available. */
    method ResourceHasBeenReturned(resource: Resource) returns (returned: bool)
      requires WellFormed()
      modifies resource
      ensures returned == !old(resource.available)
      ensures resource.available
      ensures resource in slots ==>
        Availability() == old(Availability())[FirstIndex(slots, resource).value := true]
      ensures resource !in slots ==> Availability() == old(Availability())
    {
      if resource.available {
        return false;
      }
      resource.available := true;
      return true;
    }
  }

  /** A java.lang.String object; `Pool` compares items by reference, not by content. */
  class Item {
    const text: string

    constructor (text: string)
      ensures this.text == text
    {
      this.text := text;
    }
  }

  class Pool {
    static const MaxAvailable := 10
    /** The permits left in the pool's counting semaphore `available`. */
    var permits: int
    const items: array<Item>
    const used: array<bool>

    /** Both tables have `MaxAvailable` slots and the items are distinct objects. */
    ghost predicate WellFormed()
      reads items
    {
      items.Length == MaxAvailable && used.Length == MaxAvailable &&
      forall i, j :: 0 <= i < j < items.Length ==> items[i] != items[j]
    }

    /** The pool invariant: one permit per unused item. */
    ghost predicate Valid()
      reads this, used, items
    {
      WellFormed() && permits == Count(used[..], false)
    }

    /** The slot of `item` in the table, by identity. */
    ghost function Slot(item: Item?): (slot: Option<nat>)
      reads items
    {
      FirstIndex(items[..], item)
    }

    constructor ()
      ensures Valid() && fresh(items) && fresh(used)
      ensures permits == MaxAvailable
      ensures forall i :: 0 <= i < MaxAvailable ==>
        !used[i] && fresh(items[i]) && items[i].text == "Item" + DecimalString(i)
    {
      var xs: seq<Item> := [];
      var i := 0;
      while i < MaxAvailable
        invariant 0 <= i <= MaxAvailable && |xs| == i
        invariant forall k :: 0 <= k < i ==> fresh(xs[k]) && xs[k].text == "Item" + DecimalString(k)
        invariant forall k, l :: 0 <= k < l < i ==> xs[k] != xs[l]
      {
        var x := new Item("Item" + DecimalString(i));
        xs := xs + [x];
        i := i + 1;
      }
      permits := MaxAvailable;
      used := new bool[MaxAvailable](_ => false);
      items := new Item[MaxAvailable](k requires 0 <= k < |xs| => xs[k]);
      new;
      assert items[..] == xs;
      CountAll(used[..], false);
    }

    /** While the invariant holds the permits left and the items in use add up to `MaxAvailable`. */
    lemma InUseBound()
      requires Valid()
      ensures permits + Count(used[..], true) == MaxAvailable
      ensures 0 <= permits <= MaxAvailable
    {
      CountComplement(used[..], false);
    }

    /** Acquires a permit, then checks out the first unused item; never null while the invariant holds. */
    method GetItem() returns (item: Item?)
      requires Valid() && permits > 0
      modifies this`permits, used
      ensures Valid() && permits == old(permits) - 1
      ensures item != null
      ensures FirstIndex(old(used[..]), false).Some?
      ensures item == items[FirstIndex(old(used[..]), false).value]
      ensures used[..] == old(used[..])[FirstIndex(old(used[..]), false).value := true]
    {
      ghost var before := used[..];
      FirstIndexNoneIffCountZero(before, false);
      permits := permits - 1;
      item := GetNextAvailableItem();
      CountFlipAway(before, FirstIndex(before, false).value, false);
    }

    /** Puts an item back; the permit is released only if `MarkAsUnused` succeeded. */
    method PutItem(item: Item?)
      requires Valid()
      modifies this`permits, used
      ensures Valid()
      ensures permits == old(permits) + (if Slot(item).Some? && old(used[..])[Slot(item).value] then 1 else 0)
      ensures Slot(item).Some? && old(used[..])[Slot(item).value] ==>
        used[..] == old(used[..])[Slot(item).value := false]
      ensures !(Slot(item).Some? && old(used[..])[Slot(item).value]) ==> used[..] == old(used[..])
    {
      ghost var before := used[..];
      var unused := MarkAsUnused(item);
      if unused {
        permits := permits + 1;
        CountFlipTo(before, Slot(item).value, false);
      }
    }

    /** First-fit scan: sets the lowest clear `used` flag and returns that slot's item; null if all are used. */
    method GetNextAvailableItem() returns (item: Item?)
      requires WellFormed()
      modifies used
      ensures FirstIndex(old(used[..]), false).None? ==> item == null && used[..] == old(used[..])
      ensures FirstIndex(old(used[..]), false).Some? ==>
        item == items[FirstIndex(old(used[..]), false).value] &&
        used[..] == old(used[..])[FirstIndex(old(used[..]), false).value := true]
    {
      for i := 0 to MaxAvailable
        invariant forall j :: 0 <= j < i ==> used[j]
        invariant used[..] == old(used[..])
      {
        if !used[i] {
          used[i] := true;
          return items[i];
        }
      }
      return null; // not reached while a permit is held
    }

    /** Clears the `used` flag of `item` (found by identity); false if it is not in use or not in the table. */
    method MarkAsUnused(item: Item?) returns (unused: bool)
      requires WellFormed()
      modifies used
      ensures unused <==> Slot(item).Some? && old(used[..])[Slot(item).value]
      ensures unused ==> used[..] == old(used[..])[Slot(item).value := false]
      ensures !unused ==> used[..] == old(used[..])
    {
      for i := 0 to MaxAvailable
        invariant forall j :: 0 <= j < i ==> items[j] != item
        invariant used[..] == old(used[..])
      {
        if item == items[i] {
          if used[i] {
            used[i] := false;
            return true;
          } else {
            return false;
          }
        }
      }
      return false;
    }
  }
}

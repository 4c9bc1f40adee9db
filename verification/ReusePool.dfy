/** The reuse pool as the runtime keeps it: a deque per compatibility key, scanned for the first slot that
    is large enough. The ghost field order merges the deques in the order the slots were put. */
module ReusePool {
  import opened Wrappers
  import opened Types
  import opened Sums
  import opened Accounting
  import opened Storage

  datatype PoolSlot = PoolSlot(backing: Backing, lastOwner: NamespaceId)

  function SlotOf(e: PoolEntry): PoolSlot {
    PoolSlot(e.backing, e.lastOwner)
  }

  function EntryOf(key: PoolKey, slot: PoolSlot): PoolEntry {
    PoolEntry(key, slot.backing, slot.lastOwner)
  }

  /** The slots of one key, oldest first. */
  function Deque(order: Pool, key: PoolKey): seq<PoolSlot> {
    if order == [] then []
    else (if order[0].key == key then [SlotOf(order[0])] else []) + Deque(order[1..], key)
  }

  function Slots(deques: map<PoolKey, seq<PoolSlot>>, key: PoolKey): seq<PoolSlot> {
    if key in deques then deques[key] else []
  }

  /** Where in the merged order the j-th slot of a key is; past the end if there is none. */
  function Position(order: Pool, key: PoolKey, j: nat): (i: nat)
    ensures i <= |order|
  {
    if order == [] then 0
    else if order[0].key == key then if j == 0 then 0 else 1 + Position(order[1..], key, j - 1)
    else 1 + Position(order[1..], key, j)
  }

  lemma {:induction false} PositionMeans(order: Pool, key: PoolKey, j: nat)
    ensures
      var i := Position(order, key, j);
      && (j < |Deque(order, key)| <==> i < |order|)
      && (i < |order| ==> order[i] == EntryOf(key, Deque(order, key)[j]))
  {
    if order != [] {
      PositionMeans(order[1..], key, j);
      if j > 0 {
        PositionMeans(order[1..], key, j - 1);
      }
    }
  }

  /** Removing a slot from its deque is removing it from the order, and other deques do not notice. */
  lemma {:induction false} DequeRemove(order: Pool, key: PoolKey, j: nat, other: PoolKey)
    requires j < |Deque(order, key)|
    ensures
      var i := Position(order, key, j);
      && i < |order|
      && Deque(RemoveAt(order, i), other)
      == if other == key then RemoveAt(Deque(order, key), j) else Deque(order, other)
  {
    PositionMeans(order, key, j);
    var i := Position(order, key, j);
    if i == 0 {
      assert RemoveAt(order, 0) == order[1..];
    } else {
      assert RemoveAt(order, i)[0] == order[0];
      assert RemoveAt(order, i)[1..] == RemoveAt(order[1..], i - 1);
      DequeRemove(order[1..], key, if order[0].key == key then j - 1 else j, other);
    }
  }

  lemma {:induction false} DequeAppend(order: Pool, e: PoolEntry, key: PoolKey)
    ensures Deque(order + [e], key) == Deque(order, key) + if e.key == key then [SlotOf(e)] else []
  {
    if order == [] {
      assert order + [e] == [e] && [e][1..] == [];
    } else {
      assert (order + [e])[0] == order[0] && (order + [e])[1..] == order[1..] + [e];
      DequeAppend(order[1..], e, key);
    }
  }

  /** The first slot of the deque that is large enough is the first fitting entry of the merged order. */
  lemma {:induction false} ScanFinds(order: Pool, key: PoolKey, bytes: nat, j: nat)
    requires j <= |Deque(order, key)|
    requires forall x :: 0 <= x < j ==> Deque(order, key)[x].backing.committed < bytes
    requires j < |Deque(order, key)| ==> Deque(order, key)[j].backing.committed >= bytes
    ensures FindSlot(order, key, bytes) == Position(order, key, j)
  {
    if order != [] {
      var rest := order[1..];
      if order[0].key == key {
        assert Deque(order, key)[0] == SlotOf(order[0]);
        assert Deque(order, key)[1..] == Deque(rest, key);
        if j > 0 {
          assert forall x :: 0 <= x < j - 1 ==> Deque(rest, key)[x] == Deque(order, key)[x + 1];
          ScanFinds(rest, key, bytes, j - 1);
        }
      } else {
        assert Deque(order, key) == Deque(rest, key);
        ScanFinds(rest, key, bytes, j);
      }
    }
  }

  lemma SomeDeque(order: Pool)
    requires order != []
    ensures Deque(order, order[0].key) != []
  {
    assert Deque(order, order[0].key)[0] == SlotOf(order[0]);
  }

  class SlotPool {
    var deques: map<PoolKey, seq<PoolSlot>>
    var count: nat
    var idle: nat
    ghost var order: Pool

    ghost predicate Valid()
      reads this
    {
      forall key :: Slots(deques, key) == Deque(order, key)
    }

    constructor ()
      ensures Valid() && order == [] && count == 0 && idle == 0
    {
      deques, count, idle, order := map[], 0, 0, [];
    }

    /** Drop slot j of a key's deque, with the counters. */
    method Remove(key: PoolKey, j: nat) returns (slot: PoolSlot)
      requires Valid() && j < |Slots(deques, key)|
      modifies this
      ensures Valid()
      ensures
        var i := Position(old(order), key, j);
        && i < |old(order)| && old(order)[i] == EntryOf(key, slot)
        && order == RemoveAt(old(order), i)
      ensures count == Minus(old(count), 1) && idle == Minus(old(idle), slot.backing.committed)
      ensures deques.Keys == old(deques).Keys
      ensures Slots(deques, key) == RemoveAt(old(Slots(deques, key)), j)
      ensures forall other :: other != key ==> Slots(deques, other) == old(Slots(deques, other))
    {
      var q := deques[key];
      slot := q[j];
      PositionMeans(order, key, j);
      forall other
        ensures Deque(RemoveAt(order, Position(order, key, j)), other)
             == if other == key then RemoveAt(Deque(order, key), j) else Deque(order, other)
      {
        DequeRemove(order, key, j, other);
      }
      deques := deques[key := RemoveAt(q, j)];
      order := RemoveAt(order, Position(order, key, j));
      if count > 0 {
        count := count - 1;
      }
      idle := if idle >= slot.backing.committed then idle - slot.backing.committed else 0;
    }

    /** pool_take: scan the key's deque for the first slot that is large enough. */
    method Take(key: PoolKey, bytes: nat) returns (slot: Option<PoolSlot>)
      requires Valid()
      modifies this
      ensures Valid()
      ensures
        var i := FindSlot(old(order), key, bytes);
        if i < |old(order)| then
          && slot == Some(SlotOf(old(order)[i])) && order == RemoveAt(old(order), i)
          && count == Minus(old(count), 1) && idle == Minus(old(idle), old(order)[i].backing.committed)
        else
          slot == None && order == old(order) && count == old(count) && idle == old(idle)
    {
      if key !in deques {
        ScanFinds(order, key, bytes, 0);
        PositionMeans(order, key, 0);
        return None;
      }
      var q, j := deques[key], 0;
      while j < |q| && q[j].backing.committed < bytes
        invariant 0 <= j <= |q|
        invariant forall x :: 0 <= x < j ==> q[x].backing.committed < bytes
      {
        j := j + 1;
      }
      assert q == Deque(order, key);
      ScanFinds(order, key, bytes, j);
      PositionMeans(order, key, j);
      if j == |q| {
        return None;
      }
      var s := Remove(key, j);
      slot := Some(s);
    }

    /** pool_put, when the pool has room. */
    method Put(key: PoolKey, slot: PoolSlot)
      requires Valid()
      modifies this
      ensures Valid() && order == old(order) + [EntryOf(key, slot)]
      ensures count == old(count) + 1 && idle == old(idle) + slot.backing.committed
    {
      forall other
        ensures Deque(order + [EntryOf(key, slot)], other) == Deque(order, other) + if key == other then [slot] else []
      {
        DequeAppend(order, EntryOf(key, slot), other);
      }
      deques := deques[key := (if key in deques then deques[key] else []) + [slot]];
      order := order + [EntryOf(key, slot)];
      count, idle := count + 1, idle + slot.backing.committed;
    }
  }
}

/** The bounded result channel shared by all kernel instances: a match counter
    and a fixed number of offset slots. */
module Channel {

  function Min(a: nat, b: nat): nat
  {
    if a <= b then a else b
  }

  datatype Option<T> = None | Some(value: T)

  /** Where the match that drew pre-increment value `count` is stored under
      capacity `cap`: its own slot `count`, or nowhere once the capacity is
      reached (the match is then only counted). */
  function SlotFor(cap: nat, count: nat): Option<nat>
  {
    if count < cap then Some(count) else None
  }

  class ResultChannel {
    /** The logical number of matches reported so far; may exceed capacity. */
    var counter: nat
    /** The shared offsets buffer. */
    const slots: array<int>
    /** The kernel's bound on slot indices. */
    const capacity: nat
    /** Every offset reported so far, in the order the counter handed out. */
    ghost var Found: seq<int>

    ghost predicate Valid()
      reads this, slots
    {
      capacity <= slots.Length &&
      counter == |Found| &&
      forall k :: 0 <= k < Min(counter, capacity) ==> slots[k] == Found[k]
    }

    /** The offsets actually kept: the first min(counter, capacity) slots. */
    ghost function Retained(): (r: seq<int>)
      reads this, slots
      requires Valid()
      ensures r == Found[..Min(counter, capacity)]
    {
      slots[..Min(counter, capacity)]
    }

    /** A zero-filled buffer of `slotCount` slots and a zero counter. */
    constructor (slotCount: nat, cap: nat)
      requires cap <= slotCount
      ensures Valid() && fresh(slots)
      ensures slots.Length == slotCount && capacity == cap
      ensures counter == 0 && Found == []
      ensures forall k :: 0 <= k < slots.Length ==> slots[k] == 0
    {
      slots := new int[slotCount](_ => 0);
      capacity := cap;
      counter := 0;
      Found := [];
    }

    /** One atomic fetch-and-add followed by the guarded slot write: the
        pre-increment value is returned, and `o` lands in that slot only when
        the value is below capacity. No slot already holding a retained offset
        is touched. */
    method Reserve(o: int) returns (count: nat)
      requires Valid()
      modifies this, slots
      ensures Valid()
      ensures count == old(counter) && counter == old(counter) + 1
      ensures Found == old(Found) + [o]
      ensures SlotFor(capacity, count).Some? ==> slots[count] == o
      ensures forall k :: 0 <= k < slots.Length && k != count ==> slots[k] == old(slots[k])
      ensures forall k :: 0 <= k < Min(old(counter), capacity) ==> slots[k] == old(slots[k])
      ensures SlotFor(capacity, count).None? ==> slots[..] == old(slots[..])
      ensures Retained() == old(Retained()) + (if count < capacity then [o] else [])
    {
      count := counter;
      counter := counter + 1;
      var slot := SlotFor(capacity, count);
      if slot.Some? {
        slots[slot.value] := o;
      }
      Found := Found + [o];
      assert Found[..Min(counter, capacity)] ==
             old(Found)[..Min(old(counter), capacity)] + (if count < capacity then [o] else []);
    }
  }
}

/** The growable pool behind C11 mutexes and condition variables. */
module C11Pool {
  import opened Arith
  import opened Bytes

  const CHUNK := 1024
  const CHUNKS := 64
  const SLOTS := 65536

  datatype Slot = Slot(kind: u32, owner: u32, depth: u32, inUse: bool)

  const FREE := Slot(0, 0, 0, false)

  // ---- the scan ----

  /** The slot that step `k` of the scan looks at. */
  function Visit(next: nat, live: nat, k: nat): (i: nat)
    requires live > 0
    ensures i < live
  {
    (next + k) % live
  }

  /** The step at which the scan looks at slot `i`. */
  function StepOf(next: nat, live: nat, i: nat): (k: nat)
    requires i < live
    ensures k < live
  {
    var first := next % live;
    if i >= first then i - first else i + live - first
  }

  /** The scan looks at every slot exactly once. */
  lemma {:induction false} ScanIsBijective(next: nat, live: nat, i: nat, k: nat)
    requires i < live && k < live
    ensures Visit(next, live, k) == i <==> k == StepOf(next, live, i)
  {
    var q, first := next / live, next % live;
    assert next == q * live + first;
    if first + k < live {
      Quotient(next + k, live, q);
    } else {
      assert next + k == (q + 1) * live + (first + k - live);
      Quotient(next + k, live, q + 1);
    }
  }

  class Pool {
    /** Whether a chunk has been allocated, and all slots, chunk after chunk. */
    const chunks: array<bool>
    const slots: array<Slot>
    var next: nat
    var high: nat

    /** Number of allocated chunks. */
    ghost var count: nat

    ghost predicate Valid()
      reads this, chunks, slots
    {
      && chunks.Length == CHUNKS && slots.Length == SLOTS && count <= CHUNKS
      && (forall c :: 0 <= c < CHUNKS ==> chunks[c] == (c < count))
      && high == (if count == 0 then 0 else count - 1)
      && (forall i :: 1024 * count <= i < SLOTS ==> slots[i] == FREE)
    }

    /** The handles that denote a slot in use: index plus one, so that zero never does. */
    ghost function Live(): set<nat>
      reads slots
      requires slots.Length == SLOTS
    {
      set h: nat | 0 < h <= SLOTS && InUse(h)
    }

    predicate InUse(handle: nat)
      reads slots
      requires slots.Length == SLOTS && 0 < handle <= SLOTS
    {
      slots[handle - 1].inUse
    }

    constructor ()
      ensures Valid() && fresh(chunks) && fresh(slots) && Live() == {}
    {
      chunks := new bool[CHUNKS](_ => false);
      slots := new Slot[SLOTS](_ => FREE);
      next, high, count := 0, 0, 0;
    }

    /** `slot_at`: none when the index is out of range or its chunk is not there. */
    method SlotAt(i: nat) returns (there: bool)
      requires Valid()
      ensures there <==> i < 1024 * count
    {
      return i < SLOTS && chunks[i / CHUNK];
    }

    /** `slot_of`. */
    method SlotOf(handle: nat) returns (slot: Option<nat>)
      requires Valid()
      ensures slot == if 0 < handle <= 1024 * count then Some(handle - 1) else None
      ensures handle in Live() ==> slot == Some(handle - 1)
    {
      if handle == 0 || handle > SLOTS {
        return None;
      }
      var there := SlotAt(handle - 1);
      return if there then Some(handle - 1) else None;
    }

    /** The first loop: a free slot of an allocated chunk. */
    method Scan() returns (found: Option<nat>)
      requires Valid()
      ensures found.Some? ==> found.value < 1024 * count && !slots[found.value].inUse
      ensures found.None? ==> forall i :: 0 <= i < 1024 * count ==> slots[i].inUse
    {
      var live := (high + 1) * CHUNK;
      for k := 0 to live
        invariant forall j: nat {:trigger Visit(next, live, j)} ::
          j < k ==> Visit(next, live, j) < 1024 * count ==> slots[Visit(next, live, j)].inUse
      {
        var i := Visit(next, live, k);
        var there := SlotAt(i);
        if there && !slots[i].inUse {
          return Some(i);
        }
      }
      forall i | 0 <= i < 1024 * count ensures slots[i].inUse {
        ScanIsBijective(next, live, i, StepOf(next, live, i));
      }
      return None;
    }

    /** The second loop: the first chunk that is not there is allocated, if memory can be had. */
    method Grow(memOk: bool) returns (c: Option<nat>)
      requires Valid()
      modifies this`high, this`count, chunks, slots
      ensures Valid() && c == if old(count) < CHUNKS && memOk then Some(old(count)) else None
      ensures count == old(count) + (if c.Some? then 1 else 0) && slots[..] == old(slots[..]) && Live() == old(Live())
    {
      for i := 0 to CHUNKS
        invariant i <= count && Valid() && count == old(count) && slots[..] == old(slots[..]) && Live() == old(Live())
      {
        if !chunks[i] {
          if !memOk {
            return None;
          }
          chunks[i] := true;
          if i > high {
            high := i;
          }
          count := count + 1;
          return Some(i);
        }
      }
      return None;
    }

    /** Takes a free slot. */
    method Take(i: nat, kind: u32)
      requires Valid() && i < 1024 * count && !slots[i].inUse
      modifies slots
      ensures Valid() && slots[..] == old(slots[..])[i := Slot(kind, 0, 0, true)]
      ensures i + 1 !in old(Live()) && Live() == old(Live()) + {i + 1}
    {
      ghost var before := Live();
      slots[i] := Slot(kind, 0, 0, true);
      forall h: nat | 0 < h <= SLOTS ensures h in Live() <==> h in before || h == i + 1 {
        assert InUse(h) <==> slots[h - 1].inUse;
      }
    }

    /** No handle is left: all chunks there are full and no other can be had. */
    ghost predicate Exhausted(memOk: bool)
      reads this, slots
      requires slots.Length == SLOTS && count <= CHUNKS
    {
      (forall i :: 0 <= i < 1024 * count ==> slots[i].inUse) && (count == CHUNKS || !memOk)
    }

    /**
     * `slot_new`: a handle of a slot nobody else has, zeroed but for its kind; or zero when every slot of every
     * chunk there is in use and no further chunk can be had.
     */
    method New(kind: u32, memOk: bool) returns (handle: nat)
      requires Valid()
      modifies this, chunks, slots
      ensures Valid() && (handle == 0 <==> old(Exhausted(memOk)))
      ensures handle == 0 ==> slots[..] == old(slots[..]) && Live() == old(Live())
      ensures handle > 0 ==> handle <= SLOTS && handle !in old(Live()) && Live() == old(Live()) + {handle}
      ensures handle > 0 ==> slots[..] == old(slots[..])[handle - 1 := Slot(kind, 0, 0, true)]
    {
      hide Live, InUse;
      var live := (high + 1) * CHUNK;
      var found := Scan();
      if found.Some? {
        Take(found.value, kind);
        next := (found.value + 1) % live;
        return found.value + 1;
      }
      var c := Grow(memOk);
      if c.None? {
        return 0;
      }
      var i := c.value * CHUNK;
      Take(i, kind);
      next := i + 1;
      return i + 1;
    }

    /** `mtx_destroy`: the slot is free again; the handle becomes zero when it denoted one. */
    method Destroy(handle: nat) returns (after: nat)
      requires Valid()
      modifies slots
      ensures Valid() && Live() == old(Live()) - {handle}
      ensures handle in old(Live()) ==> after == 0
      ensures forall i :: 0 <= i < SLOTS && i + 1 != handle ==> slots[i] == old(slots[i])
    {
      var slot := SlotOf(handle);
      if slot.None? {
        assert handle !in Live();
        return handle;
      }
      ghost var before := Live();
      slots[slot.value] := slots[slot.value].(inUse := false);
      forall h: nat | 0 < h <= SLOTS ensures h in Live() <==> h in before && h != handle {
        assert InUse(h) <==> slots[h - 1].inUse;
      }
      return 0;
    }
  }
}

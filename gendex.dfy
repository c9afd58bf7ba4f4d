/** Generational indices: a slot allocator that hands out (index, generation)
    handles, and a store keyed by those handles that uses the generation to
    reject a handle whose slot has since been reused. */
module GenDex {

  datatype Option<T> = None | Some(value: T)

  /** A handle: a slot index and the generation the slot had when the handle
      was handed out. Two handles are equal when both fields are. */
  datatype GenerationalIndex = GenerationalIndex(index: nat, generation: nat)

  /** Equality of handles is field-wise (the derived PartialEq). */
  lemma HandleEquality(a: GenerationalIndex, b: GenerationalIndex)
    ensures a == b <==> a.index == b.index && a.generation == b.generation
  {
  }

  // ---------------------------------------------------------------------
  // Allocator
  // ---------------------------------------------------------------------

  datatype AllocatorEntry = AllocatorEntry(isLive: bool, generation: nat)

  /** The number of live entries. */
  function CountLive(entries: seq<AllocatorEntry>): (r: nat)
    ensures r <= |entries|
  {
    if entries == [] then 0
    else CountLive(entries[..|entries| - 1]) + (if entries[|entries| - 1].isLive then 1 else 0)
  }

  /** The allocator's invariant: the free list names every slot that is not
      live, each exactly once, and nothing else. */
  ghost predicate FreeListExact(entries: seq<AllocatorEntry>, free: seq<nat>)
    ensures FreeListExact(entries, free) ==>
      forall k :: 0 <= k < |entries| ==> (k in free <==> !entries[k].isLive)
  {
    (forall j :: 0 <= j < |free| ==> free[j] < |entries| && !entries[free[j]].isLive)
    && (forall i, j :: 0 <= i < j < |free| ==> free[i] != free[j])
    && (forall k :: 0 <= k < |entries| && !entries[k].isLive ==> k in free)
  }

  /** Dropping a live last slot keeps the invariant with the same free list. */
  lemma FreeListDropLive(entries: seq<AllocatorEntry>, free: seq<nat>)
    requires FreeListExact(entries, free)
    requires entries != [] && entries[|entries| - 1].isLive
    ensures FreeListExact(entries[..|entries| - 1], free)
  {
  }

  /** Dropping a free last slot keeps the invariant once that slot's one
      occurrence, at position `j`, is taken out of the free list. */
  lemma FreeListDropFree(entries: seq<AllocatorEntry>, free: seq<nat>, j: nat)
    requires FreeListExact(entries, free)
    requires entries != [] && j < |free| && free[j] == |entries| - 1
    ensures FreeListExact(entries[..|entries| - 1], free[..j] + free[j + 1..])
  {
  }

  /** Under the invariant, the free list is exactly as long as the number of
      slots that are not live, so `entries.len() - free.len()` cannot
      underflow and counts the live slots. */
  lemma {:induction false} FreeListCount(entries: seq<AllocatorEntry>, free: seq<nat>)
    requires FreeListExact(entries, free)
    ensures |free| + CountLive(entries) == |entries|
  {
    if free != [] {
      assert free[0] < |entries|;
    }
    if entries != [] {
      var n := |entries| - 1;
      if entries[n].isLive {
        FreeListDropLive(entries, free);
        FreeListCount(entries[..n], free);
      } else {
        assert n in free;
        var j :| 0 <= j < |free| && free[j] == n;
        FreeListDropFree(entries, free, j);
        FreeListCount(entries[..n], free[..j] + free[j + 1..]);
      }
    }
  }

  /** No slot disappears and no slot's generation goes down. */
  ghost predicate GenerationsGrow(before: seq<AllocatorEntry>, after: seq<AllocatorEntry>)
  {
    |before| <= |after|
    && forall k :: 0 <= k < |before| ==> before[k].generation <= after[k].generation
  }

  /** Hands out handles; freed slot indices wait in a FIFO free list and are
      reused with their generation raised by one. */
  class GenerationalIndexAllocator {
    var entries: seq<AllocatorEntry>
    var free: seq<nat>

    ghost predicate Valid()
      reads this
    {
      FreeListExact(entries, free)
    }

    constructor ()
      ensures Valid()
      ensures entries == [] && free == []
    {
      entries := [];
      free := [];
    }

    /** Reuses the slot at the front of the free list with its generation
        raised by one, or appends a fresh live slot of generation 0. */
    method Allocate() returns (h: GenerationalIndex)
      requires Valid()
      modifies this
      ensures Valid()
      ensures old(free) == [] ==>
        h == GenerationalIndex(|old(entries)|, 0)
        && entries == old(entries) + [AllocatorEntry(true, 0)]
        && free == []
      ensures old(free) != [] ==>
        h.index == old(free)[0]
        && h.generation == old(entries)[h.index].generation + 1
        && entries == old(entries)[h.index := AllocatorEntry(true, h.generation)]
        && free == old(free)[1..]
      ensures h.index < |entries| && entries[h.index] == AllocatorEntry(true, h.generation)
      ensures GenerationsGrow(old(entries), entries)
    {
      if |free| > 0 {
        var index := free[0];
        free := free[1..];
        entries := entries[index := entries[index].(isLive := true)];
        entries := entries[index := entries[index].(generation := entries[index].generation + 1)];
        h := GenerationalIndex(index, entries[index].generation);
        forall k | 0 <= k < |entries| && !entries[k].isLive
          ensures k in free
        {
          assert k in old(free) && k != old(free)[0];
          var m :| 0 <= m < |old(free)| && old(free)[m] == k;
          assert free[m - 1] == k;
        }
      } else {
        entries := entries + [AllocatorEntry(true, 0)];
        h := GenerationalIndex(|entries| - 1, 0);
      }
    }

    /** Frees the slot of a handle that is live and current; any other
        handle leaves the allocator as it was. */
    method Deallocate(h: GenerationalIndex) returns (ok: bool)
      requires Valid()
      requires h.index < |entries|
      modifies this
      ensures Valid()
      ensures ok <==> old(entries)[h.index].generation == h.generation && old(entries)[h.index].isLive
      ensures ok ==>
        entries == old(entries)[h.index := AllocatorEntry(false, h.generation)]
        && free == old(free) + [h.index]
      ensures !ok ==> entries == old(entries) && free == old(free)
      ensures GenerationsGrow(old(entries), entries)
    {
      if entries[h.index].generation == h.generation && entries[h.index].isLive {
        entries := entries[h.index := entries[h.index].(isLive := false)];
        free := free + [h.index];
        ok := true;
      } else {
        ok := false;
      }
    }

    /** Liveness of the handle's slot. Under the invariant, a slot is live
        exactly when it is not waiting in the free list. */
    function IsLive(h: GenerationalIndex): (r: bool)
      reads this
      requires h.index < |entries|
      ensures Valid() ==> (r <==> h.index !in free)
    {
      entries[h.index].isLive
    }

    /** `IsLive` looks at the slot only: the handle's generation plays no part. */
    lemma IsLiveIgnoresGeneration(h: GenerationalIndex, g: nat)
      requires h.index < |entries|
      ensures IsLive(h) == IsLive(GenerationalIndex(h.index, g))
    {
    }

    /** Slots minus free slots: the number of live slots. */
    function LiveEntityCount(): (r: nat)
      reads this
      requires Valid()
      ensures r == CountLive(entries)
    {
      FreeListCount(entries, free);
      |entries| - |free|
    }

    /** Every slot ever created: the live ones and the free ones. */
    function AllocatedEntityCount(): (r: nat)
      reads this
      requires Valid()
      ensures r == LiveEntityCount() + |free|
    {
      FreeListCount(entries, free);
      |entries|
    }
  }

  // ---------------------------------------------------------------------
  // Keyed store
  // ---------------------------------------------------------------------

  datatype ArrayEntry<T> = ArrayEntry(value: T, generation: nat)

  type Slot<T> = Option<ArrayEntry<T>>

  /** Lookup of a handle in a store's backing vector: the value is returned
      only when the slot exists, holds an entry, and the entry's generation
      is the handle's. */
  function Resolve<T>(slots: seq<Slot<T>>, h: GenerationalIndex): (r: Option<T>)
    ensures r.Some? ==> h.index < |slots| && slots[h.index] == Some(ArrayEntry(r.value, h.generation))
  {
    if h.index < |slots| then
      match slots[h.index]
      case Some(entry) => if entry.generation == h.generation then Some(entry.value) else None
      case None => None
    else
      None
  }

  function Nones<T>(n: nat): seq<Slot<T>>
  {
    seq(n, _ => None)
  }

  /** `Vec::insert`: `x` goes in at position `i` and the rest shifts right. */
  function Insert<X>(s: seq<X>, i: nat, x: X): seq<X>
    requires i <= |s|
  {
    s[..i] + [x] + s[i..]
  }

  /** The backing vector after `set(h, value)` as the code computes it: an
      in-range slot is overwritten; otherwise the vector is padded with
      empty slots until `h.index` is in range and the entry is then
      INSERTED at `h.index`, which leaves one extra empty slot behind it. */
  function Stored<T>(slots: seq<Slot<T>>, h: GenerationalIndex, value: T): (r: seq<Slot<T>>)
    ensures |slots| <= |r| && h.index < |r|
  {
    var entry := Some(ArrayEntry(value, h.generation));
    if |slots| > h.index then slots[h.index := entry]
    else Insert(slots + Nones(h.index + 1 - |slots|), h.index, entry)
  }

  /** Reference behaviour: make `h.index` addressable, then assign there. */
  function AssignedAt<T>(slots: seq<Slot<T>>, h: GenerationalIndex, value: T): seq<Slot<T>>
  {
    var sized := if |slots| > h.index then slots else slots + Nones(h.index + 1 - |slots|);
    sized[h.index := Some(ArrayEntry(value, h.generation))]
  }

  /** The whole vector after `set`: its length (two past the index when it
      grew), the new entry, empty slots where it grew, and every other old
      slot untouched. */
  lemma StoredShape<T>(slots: seq<Slot<T>>, h: GenerationalIndex, value: T)
    ensures |Stored(slots, h, value)| == if |slots| > h.index then |slots| else h.index + 2
    ensures Stored(slots, h, value)[h.index] == Some(ArrayEntry(value, h.generation))
    ensures forall k :: 0 <= k < |Stored(slots, h, value)| && k != h.index ==>
      Stored(slots, h, value)[k] == if k < |slots| then slots[k] else None
  {
  }

  /** Round trip: `get(h)` right after `set(h, v)` is `Some(v)`. */
  lemma SetThenGet<T>(slots: seq<Slot<T>>, h: GenerationalIndex, value: T)
    ensures Resolve(Stored(slots, h, value), h) == Some(value)
  {
  }

  /** `set` does not change the lookup of a handle for another slot, even
      when the vector grows by push-then-insert. */
  lemma SetKeepsOtherSlots<T>(slots: seq<Slot<T>>, h: GenerationalIndex, value: T, other: GenerationalIndex)
    requires other.index != h.index
    ensures Resolve(Stored(slots, h, value), other) == Resolve(slots, other)
  {
  }

  /** After `set(h, v)`, a handle for the same slot with another generation
      (the old occupant's) resolves to nothing. */
  lemma SetRejectsOtherGeneration<T>(slots: seq<Slot<T>>, h: GenerationalIndex, value: T, stale: GenerationalIndex)
    requires stale.index == h.index && stale.generation != h.generation
    ensures Resolve(Stored(slots, h, value), stale) == None
  {
  }

  /** Push-then-insert and assign-at-index are indistinguishable by lookups;
      they differ only in the one trailing empty slot. */
  lemma StoredAgreesWithAssignment<T>(slots: seq<Slot<T>>, h: GenerationalIndex, value: T, any: GenerationalIndex)
    ensures Resolve(Stored(slots, h, value), any) == Resolve(AssignedAt(slots, h, value), any)
    ensures |Stored(slots, h, value)| == |AssignedAt(slots, h, value)| + (if |slots| > h.index then 0 else 1)
  {
  }

  /** The backing vector after writing `value` through a mutable reference
      to the entry at `place`: the entry keeps its generation. */
  function Written<T>(slots: seq<Slot<T>>, place: nat, value: T): (r: seq<Slot<T>>)
    requires place < |slots| && slots[place].Some?
    ensures |r| == |slots| && r[place] == Some(ArrayEntry(value, slots[place].value.generation))
    ensures forall k :: 0 <= k < |r| && k != place ==> r[k] == slots[k]
  {
    slots[place := Some(slots[place].value.(value := value))]
  }

  /** A write through `get_mut` is what a later `get` sees, for every handle
      that resolved before; nothing else resolves differently. */
  lemma WrittenResolve<T>(slots: seq<Slot<T>>, place: nat, value: T, h: GenerationalIndex)
    requires place < |slots| && slots[place].Some?
    ensures Resolve(Written(slots, place, value), h)
      == if h.index == place && Resolve(slots, h).Some? then Some(value) else Resolve(slots, h)
  {
  }

  /** A mutable reference handed out by `get_mut`: where the entry lives and
      the value it currently holds. */
  datatype MutRef<T> = MutRef(place: nat, current: T)

  /** A vector of optional entries addressed by handles. */
  class GenerationalIndexArray<T> {
    var slots: seq<Slot<T>>

    constructor ()
      ensures slots == []
    {
      slots := [];
    }

    /** The backing vector's length; no handle at or past it resolves. */
    function Len(): (r: nat)
      reads this
      ensures forall h: GenerationalIndex :: r <= h.index ==> Get(h) == None
    {
      |slots|
    }

    /** Stores `value` at the handle's slot, stamped with its generation. */
    method Set(h: GenerationalIndex, value: T)
      modifies this
      ensures slots == Stored(old(slots), h, value)
      ensures Get(h) == Some(value)
      ensures forall other: GenerationalIndex :: other.index != h.index ==> Get(other) == old(Get(other))
    {
      if |slots| > h.index {
        slots := slots[h.index := Some(ArrayEntry(value, h.generation))];
      } else {
        while |slots| <= h.index
          invariant |old(slots)| <= |slots| <= h.index + 1
          invariant slots == old(slots) + Nones(|slots| - |old(slots)|)
          decreases h.index + 1 - |slots|
        {
          slots := slots + [None];
        }
        slots := Insert(slots, h.index, Some(ArrayEntry(value, h.generation)));
      }
      SetThenGet(old(slots), h, value);
      forall other: GenerationalIndex | other.index != h.index
        ensures Get(other) == old(Get(other))
      {
        SetKeepsOtherSlots(old(slots), h, value, other);
      }
    }

    /** The value for a handle, only if the slot holds an entry of the
        handle's generation. */
    function Get(h: GenerationalIndex): (r: Option<T>)
      reads this
      ensures r.Some? <==>
        h.index < |slots| && slots[h.index].Some? && slots[h.index].value.generation == h.generation
      ensures r.Some? ==> slots[h.index].value.value == r.value
    {
      Resolve(slots, h)
    }

    /** The same matching rule as `Get`, handing out a mutable reference. */
    method GetMut(h: GenerationalIndex) returns (r: Option<MutRef<T>>)
      ensures r.Some? <==> Get(h).Some?
      ensures r.Some? ==> r.value.place == h.index && r.value.current == Get(h).value
    {
      if h.index < |slots| {
        match slots[h.index]
        case Some(entry) =>
          if entry.generation == h.generation {
            r := Some(MutRef(h.index, entry.value));
          } else {
            r := None;
          }
        case None =>
          r := None;
      } else {
        r := None;
      }
    }

    /** Assignment through a reference obtained from `GetMut`. */
    method WriteThrough(ref: MutRef<T>, value: T)
      requires ref.place < |slots| && slots[ref.place].Some?
      modifies this
      ensures slots == Written(old(slots), ref.place, value)
      ensures forall h: GenerationalIndex ::
        Get(h) == (if h.index == ref.place && old(Get(h)).Some? then Some(value) else old(Get(h)))
    {
      slots := Written(slots, ref.place, value);
      forall h: GenerationalIndex
        ensures Get(h) == if h.index == ref.place && old(Get(h)).Some? then Some(value) else old(Get(h))
      {
        WrittenResolve(old(slots), ref.place, value, h);
      }
    }
  }
}

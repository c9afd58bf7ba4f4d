/** The entity-component test program: a game state holding an allocator, a
    ledger of handles and two component stores, the movement system that
    moves every entity having both a position and a velocity, and the setup
    that creates ten entities. The f32 arithmetic of the movement rule is
    the parameter `step`. */
module EcsTest {
  import opened GenDex

  /** One handle's turn in the movement system: the position entry is
      replaced by `step(p, v)` when both the position and the velocity
      lookups succeed, and nothing happens otherwise. */
  function MoveOne<P, V>(pos: seq<Slot<P>>, vel: seq<Slot<V>>, e: GenerationalIndex, step: (P, V) -> P): (r: seq<Slot<P>>)
    ensures SameKeys(r, pos)
    ensures forall k :: 0 <= k < |pos| && k != e.index ==> r[k] == pos[k]
  {
    match (Resolve(pos, e), Resolve(vel, e))
    case (Some(p), Some(v)) => pos[e.index := Some(ArrayEntry(step(p, v), e.generation))]
    case _ => pos
  }

  /** The position vector after one pass of the movement system over the
      ledger `es`, in ledger order. */
  function MoveAll<P, V>(pos: seq<Slot<P>>, vel: seq<Slot<V>>, es: seq<GenerationalIndex>, step: (P, V) -> P): (r: seq<Slot<P>>)
    ensures |r| == |pos|
    decreases |es|
  {
    if es == [] then pos
    else MoveOne(MoveAll(pos, vel, es[..|es| - 1], step), vel, es[|es| - 1], step)
  }

  /** Two vectors of the same length whose slots are occupied alike, with
      the same generations: only stored values may differ. */
  ghost predicate SameKeys<P>(a: seq<Slot<P>>, b: seq<Slot<P>>)
  {
    |a| == |b|
    && forall k :: 0 <= k < |a| ==>
      (a[k].Some? <==> b[k].Some?) && (a[k].Some? ==> a[k].value.generation == b[k].value.generation)
  }

  /** A pass never changes the store's length, which slots are occupied, or
      any generation: it only rewrites values. */
  lemma {:induction false} MoveAllKeepsKeys<P, V>(pos: seq<Slot<P>>, vel: seq<Slot<V>>, es: seq<GenerationalIndex>, step: (P, V) -> P)
    ensures SameKeys(MoveAll(pos, vel, es, step), pos)
  {
    if es != [] {
      MoveAllKeepsKeys(pos, vel, es[..|es| - 1], step);
    }
  }

  /** Conjunctive query: a position slot keeps its entry unless some ledger
      handle for that slot resolves in BOTH stores. */
  lemma {:induction false} MoveAllUntouched<P, V>(pos: seq<Slot<P>>, vel: seq<Slot<V>>, es: seq<GenerationalIndex>, step: (P, V) -> P, k: nat)
    requires k < |pos|
    requires forall j :: 0 <= j < |es| && es[j].index == k ==> Resolve(pos, es[j]).None? || Resolve(vel, es[j]).None?
    ensures k < |MoveAll(pos, vel, es, step)| && MoveAll(pos, vel, es, step)[k] == pos[k]
  {
    MoveAllKeepsKeys(pos, vel, es, step);
    if es != [] {
      var n := |es| - 1;
      var prefix := es[..n];
      assert forall j :: 0 <= j < n ==> prefix[j] == es[j];
      MoveAllUntouched(pos, vel, prefix, step, k);
      var before := MoveAll(pos, vel, prefix, step);
      MoveAllKeepsKeys(pos, vel, prefix, step);
      if es[n].index == k {
        assert Resolve(before, es[n]) == Resolve(pos, es[n]);
      }
    }
  }

  /** Handles of a ledger name pairwise different slots. */
  ghost predicate DistinctSlots(es: seq<GenerationalIndex>)
  {
    forall a, b :: 0 <= a < b < |es| ==> es[a].index != es[b].index
  }

  /** When the ledger names each slot at most once, one pass moves every
      handle that resolves in both stores exactly once, by `step`, and any
      other ledger handle resolves as before. */
  lemma {:induction false} MoveAllMovesEachOnce<P, V>(pos: seq<Slot<P>>, vel: seq<Slot<V>>, es: seq<GenerationalIndex>, step: (P, V) -> P, j: nat)
    requires DistinctSlots(es)
    requires j < |es|
    ensures Resolve(pos, es[j]).Some? && Resolve(vel, es[j]).Some? ==>
      Resolve(MoveAll(pos, vel, es, step), es[j]) == Some(step(Resolve(pos, es[j]).value, Resolve(vel, es[j]).value))
    ensures Resolve(pos, es[j]).None? || Resolve(vel, es[j]).None? ==>
      Resolve(MoveAll(pos, vel, es, step), es[j]) == Resolve(pos, es[j])
  {
    var n := |es| - 1;
    var prefix := es[..n];
    var before := MoveAll(pos, vel, prefix, step);
    var last := es[n];
    MoveAllKeepsKeys(pos, vel, prefix, step);
    if j == n {
      if last.index < |pos| {
        forall i | 0 <= i < |prefix|
          ensures prefix[i].index != last.index
        {
          assert prefix[i] == es[i];
        }
        MoveAllUntouched(pos, vel, prefix, step, last.index);
      }
      assert Resolve(before, last) == Resolve(pos, last);
    } else {
      assert prefix[j] == es[j];
      assert DistinctSlots(prefix) by {
        forall a, b | 0 <= a < b < |prefix| ensures prefix[a].index != prefix[b].index {
          assert prefix[a] == es[a] && prefix[b] == es[b];
        }
      }
      MoveAllMovesEachOnce(pos, vel, prefix, step, j);
      assert es[j].index != last.index;
    }
  }

  /** The state the test program runs on. */
  class GameState<P, V> {
    const entityAllocator: GenerationalIndexAllocator
    var entities: seq<GenerationalIndex>
    const positionComponents: GenerationalIndexArray<P>
    const velocityComponents: GenerationalIndexArray<V>

    ghost predicate Valid()
      reads this, entityAllocator
    {
      entityAllocator.Valid()
      && positionComponents as object != velocityComponents as object
    }

    /** An empty allocator, an empty ledger and two empty stores. */
    constructor ()
      ensures Valid()
      ensures fresh(entityAllocator) && fresh(positionComponents) && fresh(velocityComponents)
      ensures entities == []
      ensures entityAllocator.entries == [] && entityAllocator.free == []
      ensures positionComponents.slots == [] && velocityComponents.slots == []
    {
      entityAllocator := new GenerationalIndexAllocator();
      entities := [];
      positionComponents := new GenerationalIndexArray<P>();
      velocityComponents := new GenerationalIndexArray<V>();
    }

    /** The movement system: for every ledger handle, in order, the position
        is advanced by the velocity when both lookups succeed. Velocities,
        the ledger and the allocator are only read. */
    method Process(step: (P, V) -> P)
      requires positionComponents as object != velocityComponents as object
      modifies positionComponents
      ensures positionComponents.slots
        == MoveAll(old(positionComponents.slots), velocityComponents.slots, entities, step)
      ensures velocityComponents.slots == old(velocityComponents.slots)
      ensures |positionComponents.slots| == |old(positionComponents.slots)|
    {
      for i := 0 to |entities|
        invariant positionComponents.slots
          == MoveAll(old(positionComponents.slots), velocityComponents.slots, entities[..i], step)
      {
        var e := entities[i];
        var v := velocityComponents.Get(e);
        var p := positionComponents.GetMut(e);
        match (p, v) {
          case (Some(p), Some(v)) =>
            positionComponents.WriteThrough(p, step(p.current, v));
          case _ =>
        }
        assert entities[..i + 1][..i] == entities[..i];
      }
      assert entities[..|entities|] == entities;
      MoveAllKeepsKeys(old(positionComponents.slots), velocityComponents.slots, entities, step);
    }

    /** The setup in the program's entry point: ten allocations from the
        fresh allocator, each handle inserted into the ledger at its own
        index (always the ledger's end here) and given an initial position
        and velocity computed from the loop counter. */
    method SetUp(initialPosition: nat -> P, initialVelocity: nat -> V)
      requires Valid()
      requires entities == []
      requires entityAllocator.entries == [] && entityAllocator.free == []
      requires positionComponents.slots == [] && velocityComponents.slots == []
      modifies this, entityAllocator, positionComponents, velocityComponents
      ensures Valid()
      ensures |entities| == 10
      ensures forall i :: 0 <= i < 10 ==> entities[i] == GenerationalIndex(i, 0)
      ensures forall i :: 0 <= i < 10 ==>
        positionComponents.Get(entities[i]) == Some(initialPosition(i))
        && velocityComponents.Get(entities[i]) == Some(initialVelocity(i))
      ensures |entityAllocator.entries| == 10 && entityAllocator.free == []
      ensures forall k :: 0 <= k < 10 ==> entityAllocator.entries[k] == AllocatorEntry(true, 0)
      ensures entityAllocator.LiveEntityCount() == 10
      ensures positionComponents.slots == seq(10, (k: int) requires 0 <= k => Some(ArrayEntry(initialPosition(k), 0)))
      ensures velocityComponents.slots == seq(10, (k: int) requires 0 <= k => Some(ArrayEntry(initialVelocity(k), 0)))
    {
      for i := 0 to 10
        invariant Valid()
        invariant |entityAllocator.entries| == i && entityAllocator.free == []
        invariant forall k :: 0 <= k < i ==> entityAllocator.entries[k] == AllocatorEntry(true, 0)
        invariant |entities| == i
        invariant forall k :: 0 <= k < i ==> entities[k] == GenerationalIndex(k, 0)
        invariant forall k :: 0 <= k < i ==>
          positionComponents.Get(GenerationalIndex(k, 0)) == Some(initialPosition(k))
          && velocityComponents.Get(GenerationalIndex(k, 0)) == Some(initialVelocity(k))
        // `set` pads and inserts on every even step, so the vectors run one
        // slot ahead of the counter after an odd number of steps
        invariant |positionComponents.slots| == (if i % 2 == 0 then i else i + 1)
        invariant |velocityComponents.slots| == (if i % 2 == 0 then i else i + 1)
        invariant forall k :: 0 <= k < i ==> positionComponents.slots[k] == Some(ArrayEntry(initialPosition(k), 0))
        invariant forall k :: 0 <= k < i ==> velocityComponents.slots[k] == Some(ArrayEntry(initialVelocity(k), 0))
        invariant i % 2 == 1 ==> positionComponents.slots[i] == None && velocityComponents.slots[i] == None
      {
        var e := entityAllocator.Allocate();
        entities := Insert(entities, e.index, e);
        positionComponents.Set(e, initialPosition(i));
        velocityComponents.Set(e, initialVelocity(i));
      }
      assert CountLive(entityAllocator.entries) == 10 by {
        FreeListCount(entityAllocator.entries, entityAllocator.free);
      }
    }
  }
}

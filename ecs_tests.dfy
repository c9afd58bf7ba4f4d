/** The test program's unit tests for the keyed store, and what one tick of
    the movement system does to the state the setup builds. */
module EcsTests {
  import opened GenDex
  import opened EcsTest

  /** Each of ten fresh handles reads back the value just set for it. */
  method EntityMapSetGet<T>(value: nat -> T) returns (got: seq<Option<T>>)
    ensures |got| == 10
    ensures forall i :: 0 <= i < 10 ==> got[i] == Some(value(i))
  {
    var a := new GenerationalIndexAllocator();
    var em := new GenerationalIndexArray<T>();
    got := [];
    for i := 0 to 10
      invariant a.Valid()
      invariant |got| == i
      invariant forall k :: 0 <= k < i ==> got[k] == Some(value(k))
    {
      var e1 := a.Allocate();
      em.Set(e1, value(i));
      var r := em.Get(e1);
      got := got + [r];
    }
  }

  /** Ten fresh handles are set, read back, and then overwritten through
      `GetMut`; afterwards the handles rebuilt as (i, 0) find the values
      written through the references. */
  method EntityMapGetMutSet<T>(initial: nat -> T, updated: nat -> T)
    returns (afterSet: seq<Option<T>>, afterWrite: seq<Option<T>>)
    ensures |afterSet| == 10 && |afterWrite| == 10
    ensures forall i :: 0 <= i < 10 ==> afterSet[i] == Some(initial(i))
    ensures forall i :: 0 <= i < 10 ==> afterWrite[i] == Some(updated(i))
  {
    var a := new GenerationalIndexAllocator();
    var em := new GenerationalIndexArray<T>();
    afterSet := [];
    for i := 0 to 10
      invariant a.Valid()
      invariant |a.entries| == i && a.free == []
      invariant |afterSet| == i
      invariant forall k :: 0 <= k < i ==> afterSet[k] == Some(initial(k))
      invariant forall k :: 0 <= k < i ==> em.Get(GenerationalIndex(k, 0)) == Some(updated(k))
    {
      var e1 := a.Allocate();
      em.Set(e1, initial(i));
      var r := em.Get(e1);
      afterSet := afterSet + [r];
      var m := em.GetMut(e1);
      em.WriteThrough(m.value, updated(i));
    }
    afterWrite := [];
    for i := 0 to 10
      invariant |afterWrite| == i
      invariant forall k :: 0 <= k < i ==> afterWrite[k] == Some(updated(k))
    {
      var index := GenerationalIndex(i, 0);
      var r := em.Get(index);
      afterWrite := afterWrite + [r];
    }
  }

  /** After the setup, one tick of the movement system advances every one of
      the ten entities exactly once, from its initial position by its
      initial velocity, and leaves the velocities as they were. */
  method FirstTick<P, V>(initialPosition: nat -> P, initialVelocity: nat -> V, step: (P, V) -> P)
    returns (positions: seq<Option<P>>, velocities: seq<Option<V>>)
    ensures |positions| == 10 && |velocities| == 10
    ensures forall i :: 0 <= i < 10 ==> positions[i] == Some(step(initialPosition(i), initialVelocity(i)))
    ensures forall i :: 0 <= i < 10 ==> velocities[i] == Some(initialVelocity(i))
  {
    var state := new GameState<P, V>();
    state.SetUp(initialPosition, initialVelocity);
    ghost var pos0 := state.positionComponents.slots;
    ghost var es := state.entities;
    state.Process(step);
    assert DistinctSlots(es);
    positions := [];
    velocities := [];
    for i := 0 to 10
      modifies {}
      invariant |positions| == i && |velocities| == i
      invariant forall k :: 0 <= k < i ==> positions[k] == Some(step(initialPosition(k), initialVelocity(k)))
      invariant forall k :: 0 <= k < i ==> velocities[k] == Some(initialVelocity(k))
    {
      MoveAllMovesEachOnce(pos0, state.velocityComponents.slots, es, step, i);
      var p := state.positionComponents.Get(state.entities[i]);
      var v := state.velocityComponents.Get(state.entities[i]);
      positions := positions + [p];
      velocities := velocities + [v];
    }
  }
}

/** The unit tests that accompany the generational-index module, stated as
    methods whose postconditions are the tests' assertions. */
module GenDexTests {
  import opened GenDex

  /** A fresh allocator's first handle is (0, 0). */
  method AllocatorCreateEntity() returns (entity: GenerationalIndex)
    ensures entity == GenerationalIndex(0, 0)
  {
    var a := new GenerationalIndexAllocator();
    entity := a.Allocate();
  }

  /** Without frees, indices are handed out in order, at generation 0. */
  method AllocatorCreateTwoEntities() returns (e1: GenerationalIndex, e2: GenerationalIndex)
    ensures e1 == GenerationalIndex(0, 0)
    ensures e2 == GenerationalIndex(1, 0)
  {
    var a := new GenerationalIndexAllocator();
    e1 := a.Allocate();
    e2 := a.Allocate();
  }

  /** A freed slot comes back with its generation raised by one. */
  method AllocatorRecreateEntity() returns (freed: bool, e1: GenerationalIndex)
    ensures freed
    ensures e1 == GenerationalIndex(0, 1)
  {
    var a := new GenerationalIndexAllocator();
    e1 := a.Allocate();
    freed := a.Deallocate(e1);
    e1 := a.Allocate();
  }

  /** Freeing the middle of three handles works once and not twice, and the
      next allocation reuses that slot as (1, 1); three slots stay live. */
  method AllocatorRecreateEntityMiddle() returns (first: bool, second: bool, e: GenerationalIndex, live: nat)
    ensures first && !second
    ensures e == GenerationalIndex(1, 1)
    ensures live == 3
  {
    var a := new GenerationalIndexAllocator();
    var e0 := a.Allocate();
    var e1 := a.Allocate();
    var e2 := a.Allocate();
    first := a.Deallocate(e1);
    second := a.Deallocate(e1);
    e := a.Allocate();
    live := a.LiveEntityCount();
  }

  /** After the middle slot is freed and reused, the old handle is stale.
      Staleness is detected lazily: until the store is written with the new
      handle, the old handle still finds the old value; afterwards it finds
      nothing, and the new handle finds the new value. */
  method StaleHandleAfterReuse<T>(before: T, after: T)
    returns (kept: Option<T>, stale: Option<T>, current: Option<T>, liveStale: bool, liveCurrent: bool)
    ensures kept == Some(before)
    ensures stale == None
    ensures current == Some(after)
    ensures liveStale && liveCurrent
  {
    var a := new GenerationalIndexAllocator();
    var store := new GenerationalIndexArray<T>();
    var e0 := a.Allocate();
    var e1 := a.Allocate();
    var e2 := a.Allocate();
    store.Set(e1, before);
    var freed := a.Deallocate(e1);
    var e1New := a.Allocate();
    assert e1New == GenerationalIndex(1, 1);
    kept := store.Get(e1);
    store.Set(e1New, after);
    stale := store.Get(e1);
    current := store.Get(e1New);
    // the coarser liveness check cannot tell the stale handle from the new one
    liveStale := a.IsLive(e1);
    liveCurrent := a.IsLive(e1New);
  }
}

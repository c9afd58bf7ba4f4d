# Generational-index entity store, modelled in Dafny

This project models the entity store that the `rust-game-experiments` prototypes rest on. It has three parts.

- **`GenerationalIndexAllocator`** hands out `(index, generation)` handles. A freed slot index waits in a FIFO free list. When the slot is reused, its generation goes up by one.
- **`GenerationalIndexArray<T>`** is a component store. It is a vector of optional `(value, generation)` entries. A lookup succeeds only when the stored generation equals the handle's generation, so a handle to a reused slot finds nothing.
- **The `ecs-test` program** holds a game state: an allocator, a ledger of handles, and a position store and a velocity store. Its movement system advances every entity that has both a position and a velocity. Its setup creates ten entities.

The model follows the source's own form:

- The allocator, the stores and the game state are classes whose methods change their fields.
- `set` keeps its padding `while` loop.
- The movement system and the setup keep their `for` loops.
- `Allocate`, `Deallocate`, `Set`, `WriteThrough` and `Process` are proved against value-level functions (`Stored`, `Written`, `MoveAll`) or a full description of the new state. The properties the source promises are lemmas about those functions.
- `SetUp` gives the ledger, every allocator slot, the free list, and both stores' backing vectors: exactly ten entries `(initial value, 0)`. The loop invariant tracks how `set`'s pad-then-insert growth runs one slot ahead after an odd number of steps and lands on exactly ten.

Files:

- `gendex.dfy`, module `GenDex`: handles, allocator, keyed store, and the lemmas about them.
- `gendex_tests.dfy`, module `GenDexTests`: the allocator's unit tests, plus a stale-handle scenario.
- `ecs.dfy`, module `EcsTest`: the game state, the movement system and the setup.
- `ecs_tests.dfy`, module `EcsTests`: the store's unit tests from `ecs-test`, plus one tick after the setup.

Modelling choices:

- Generations and indices are unbounded `nat`s.
- Position and velocity are the type parameters `P` and `V`.
- The movement rule's f32 arithmetic (`p.x += v.xv; p.y += v.yv`) is a parameter `step: (P, V) -> P`.
- The setup's initial values (`i as f32`, `(i+1) as f32`) are parameters `nat -> P` and `nat -> V`.
- The mutable reference that `get_mut` returns is a `MutRef`: the place of the entry and its current value. A write through the reference is `WriteThrough`.
- `ecs-test/src/main.rs` declares its own `mod gendex`, whose file is not part of this model. The model uses `ggez-test2/src/gendex.rs` in its place, assuming the two expose the same API.

Three behaviours of the code that the model keeps as they are:

- **Staleness is detected lazily.** Freeing a handle does not clear any store. The old handle keeps resolving to its old value until the store is written again at that slot with the new handle. `GenDexTests.StaleHandleAfterReuse` proves this: `kept == Some(before)`.
- **`set` is modelled as written.** When `set` has to grow the vector, it pads with `None` up to `index + 1` and then calls `Vec::insert`. This leaves one extra trailing `None`, so the length becomes `index + 2`. `StoredAgreesWithAssignment` proves that no lookup can tell this apart from assigning at a pre-sized index. Only `len()` differs.
- **No liveness check in the movement system.** The `ecs-test` movement system does not call `is_live`. It relies on the generation check alone, so `Process` does not check liveness either.

## Model

| member | source | states |
|---|---|---|
| `GenDex.HandleEquality` | ggez-test2/src/gendex.rs:3-7 | handles are equal exactly when index and generation both agree (the derived equality that `genindex_equality_test`, lines 151-158, exercises) |
| `GenDex.CountLive` | ggez-test2/src/gendex.rs:70-72 | the number of live slots, which `live_entity_count` is meant to return; never more than the number of slots |
| `GenDex.FreeListExact` | ggez-test2/src/gendex.rs:17-18 | the allocator invariant: free-list indices are in range, distinct and non-live, and every non-live slot is in the free list; hence a slot is in the free list exactly when it is not live |
| `GenDex.FreeListCount` | ggez-test2/src/gendex.rs:17-18 | under the allocator invariant (free list = the non-live slots, each once), the free list's length plus the number of live slots is the number of slots |
| `GenDex.GenerationalIndexAllocator.constructor` | ggez-test2/src/gendex.rs:22-27 | a new allocator has no slots and an empty free list, and satisfies the invariant |
| `GenDex.GenerationalIndexAllocator.Allocate` | ggez-test2/src/gendex.rs:29-52 | with an empty free list: appends a live generation-0 slot and returns (old length, 0); otherwise: pops the FIFO front, marks it live, returns it with generation old+1; all other slots and the rest of the free list unchanged; the invariant is kept; generations never decrease |
| `GenDex.GenerationalIndexAllocator.Deallocate` | ggez-test2/src/gendex.rs:54-64 | returns true iff the slot's generation equals the handle's and the slot is live; on success only that slot turns non-live and its index is pushed to the back of the free list; otherwise nothing changes; the invariant is kept |
| `GenDex.GenerationalIndexAllocator.IsLive` | ggez-test2/src/gendex.rs:66-68 | under the invariant, a slot is live exactly when its index is not in the free list |
| `GenDex.GenerationalIndexAllocator.IsLiveIgnoresGeneration` | ggez-test2/src/gendex.rs:66-68 | liveness does not depend on the handle's generation |
| `GenDex.GenerationalIndexAllocator.LiveEntityCount` | ggez-test2/src/gendex.rs:70-72 | `entries.len() - free.len()` never underflows and equals the number of live slots |
| `GenDex.GenerationalIndexAllocator.AllocatedEntityCount` | ggez-test2/src/gendex.rs:74-76 | the number of slots is the live count plus the free-list length |
| `GenDex.Resolve` | ggez-test2/src/gendex.rs:113-128 | a lookup result exists only if the slot is in range and holds exactly that value stamped with the handle's generation |
| `GenDex.GenerationalIndexArray.constructor` | ggez-test2/src/gendex.rs:89-91 | a new store has an empty backing vector |
| `GenDex.GenerationalIndexArray.Len` | ggez-test2/src/gendex.rs:93-95 | no handle whose index is at or past the length resolves |
| `GenDex.GenerationalIndexArray.Set` | ggez-test2/src/gendex.rs:97-111 | the new vector is the as-written result (overwrite in range; else pad with `None` and insert); afterwards `get(h)` is the value just set and `get` of every handle for another slot is unchanged |
| `GenDex.GenerationalIndexArray.Get` | ggez-test2/src/gendex.rs:113-128 | succeeds iff the slot exists, holds an entry and the entry's generation is the handle's, and then returns that entry's value |
| `GenDex.GenerationalIndexArray.GetMut` | ggez-test2/src/gendex.rs:130-145 | succeeds exactly when `get` does, referring to the handle's slot and its current value |
| `GenDex.GenerationalIndexArray.WriteThrough` | ecs-test/src/main.rs:106-108 | writing through a `get_mut` reference replaces that entry's value, keeps its generation, and changes `get` only for handles that resolved to it, which now see the written value |
| `GenDex.Stored` | ggez-test2/src/gendex.rs:97-111 | the backing vector after `set`, as written (overwrite in range; else pad with `None` and `Vec::insert`); it never shrinks and always reaches the handle's index |
| `GenDex.Written` | ecs-test/src/main.rs:39-40 | the backing vector after a write through a `get_mut` reference: same length, the entry at that place holds the new value under its old generation, every other slot unchanged |
| `GenDex.StoredShape` | ggez-test2/src/gendex.rs:97-111 | after `set` on a slot past the end the length is `index + 2` (entry at `index`, one trailing `None`), new padding slots are `None`, and every other old slot is unchanged; in range, only that slot changes |
| `GenDex.SetThenGet` | ggez-test2/src/gendex.rs:97-128 | `get(h)` right after `set(h, v)` is `Some(v)` |
| `GenDex.SetKeepsOtherSlots` | ggez-test2/src/gendex.rs:97-128 | `set(h, v)` leaves `get(h')` unchanged for every `h'` of another slot index, also when the vector grows |
| `GenDex.SetRejectsOtherGeneration` | ggez-test2/src/gendex.rs:113-128 | after `set(h, v)`, a handle for the same slot with a different generation resolves to nothing |
| `GenDex.StoredAgreesWithAssignment` | ggez-test2/src/gendex.rs:103-110 | push-then-insert and assign-at-pre-sized-index give the same lookup for every handle; the former is one slot longer when the vector grew |
| `GenDex.WrittenResolve` | ggez-test2/src/gendex.rs:130-145 | after a write through the entry at a slot, handles that resolved there see the new value and every other lookup is unchanged |
| `GenDexTests.AllocatorCreateEntity` | ggez-test2/src/gendex.rs:168-175 | a fresh allocator's first handle is (0, 0) |
| `GenDexTests.AllocatorCreateTwoEntities` | ggez-test2/src/gendex.rs:177-187 | the first two handles are (0, 0) and (1, 0) |
| `GenDexTests.AllocatorRecreateEntity` | ggez-test2/src/gendex.rs:189-200 | freeing (0, 0) succeeds and the next allocation is (0, 1) |
| `GenDexTests.AllocatorRecreateEntityMiddle` | ggez-test2/src/gendex.rs:202-214 | freeing (1, 0) gives true then false, the next allocation is (1, 1), and three slots are live |
| `GenDexTests.StaleHandleAfterReuse` | ggez-test2/src/gendex.rs:29-128 | after its slot is freed and reused, the old handle still finds the old value until `set` with the new handle, then finds nothing; the new handle finds the new value; `is_live` is true for both the stale and the new handle, so it cannot tell them apart |
| `EcsTest.MoveOne` | ecs-test/src/main.rs:34-43 | one handle's turn of the movement loop: only the handle's own slot may change, and no slot's occupancy or generation changes |
| `EcsTest.MoveAll` | ecs-test/src/main.rs:33-44 | the position vector after a pass over the ledger in ledger order; its length is unchanged |
| `EcsTest.MoveAllKeepsKeys` | ecs-test/src/main.rs:33-44 | a movement pass keeps the position store's length, which slots are occupied, and every generation |
| `EcsTest.MoveAllUntouched` | ecs-test/src/main.rs:33-44 | a position slot is unchanged by a pass unless some ledger handle for it resolves in both the position and the velocity store (conjunctive query) |
| `EcsTest.MoveAllMovesEachOnce` | ecs-test/src/main.rs:33-44 | for a ledger naming distinct slots, each handle that resolves in both stores ends at `step(position, velocity)`, and each other ledger handle resolves as before |
| `EcsTest.GameState.constructor` | ecs-test/src/main.rs:49-54 | the state starts with an empty allocator, ledger and stores |
| `EcsTest.GameState.Process` | ecs-test/src/main.rs:32-45 | the new position vector is the ledger-order pass `MoveAll` over the old one; velocities are unchanged; the position store's length is unchanged |
| `EcsTest.GameState.SetUp` | ecs-test/src/main.rs:56-61 | ten allocations from the fresh allocator leave ledger entry `i == (i, 0)`, with position and velocity `i` readable through it; allocator slot `i` is live at generation 0, the free list is empty, and the live count is ten; each store's backing vector is exactly ten entries, entry `i` holding the initial value `i` at generation 0, so `len()` is ten and no handle at slot ten or beyond resolves |
| `EcsTests.EntityMapSetGet` | ecs-test/src/main.rs:81-92 | each of ten fresh handles reads back the value just set for it |
| `EcsTests.EntityMapGetMutSet` | ecs-test/src/main.rs:95-124 | values read back right after `set`, and values written through `get_mut` are what later `get`s with the rebuilt handles `(i, 0)` return |
| `EcsTests.FirstTick` | ecs-test/src/main.rs:56-65 | after the setup, one movement pass moves every entity once, from its initial position by its initial velocity, and leaves velocities as they were |

## Left out

- Printing (ecs-test/src/main.rs:64-73): the per-tick printing is I/O. The ten-times repetition of the movement pass is interleaved with it, so the model does not repeat the pass. One pass is `GameState.Process`; `FirstTick` shows its effect after the setup.
- f32 arithmetic: the movement rule's body is the parameter `step`. The model proves which entries change, not the sums.
- Integer widths: generations are `nat`. The u64 `generation += 1` cannot wrap or overflow here, and `usize` indices are unbounded.
- Out-of-range panics: indexing out of range in `deallocate` and `is_live` panics in the source. Here it is a precondition, `h.index < |entries|`.
- `GenerationalIndexAllocator.Allocate`, `Deallocate`, `IsLive` (under its ensures), `LiveEntityCount`, `AllocatedEntityCount`: these assume the allocator invariant `Valid()`. The constructor establishes it and every operation keeps it.
- Ledger insertion past the end: `Vec::insert` with an index past the ledger's length panics. Only the case the setup exercises is modelled: each index equals the current length.
- Borrowing: the Rust borrow discipline for `get_mut` is not modelled. A reference is a slot position plus a snapshot of the value, and a write goes back through `WriteThrough`.
- `genindex_getters_test` (ggez-test2/src/gendex.rs:160-166) only reads the two fields of a handle literal. It is covered by the handle datatype itself.
- ggez-test/src/main.rs is not part of this model. It is window creation, drawing and frame timing.
- ggez-test2/src/main.rs: its systems are f32 clamping, damping and collision rules that depend on the screen size and a random number generator. Rendering, entity generation and the event handlers are host glue. None of these are part of this model. They share only the conjunctive `match` over store lookups with `Process`. Their `is_live` guard (ggez-test2/src/main.rs:25, 64, 97) has no counterpart in the model.
- ggez-test2/src/components.rs is not part of this model. Its plain records are replaced by type parameters.

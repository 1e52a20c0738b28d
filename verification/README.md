# A verified model of the pixel entity-component-system runtime

The pixel engine organises its game objects as an entity-component-system
(ECS). This project models that runtime (`src/ECS.h`, `src/ECS.cpp`) in
Dafny and proves what its operations do. The runtime has five parts:

- **Entities** are plain ids.
- **Components** are typed data. Each component type gets a small integer
  id from a global counter the first time it is used.
- **Signatures** are 32-bit bitsets, one bit per component type.
- **Pools** are the dense per-component-type stores: a value vector and two
  maps, entity to slot and slot to entity. Removal is a swap-remove.
- **Systems** each hold the signature they require and the ordered list of
  entities they process.

The **coordinator** ties these together. It does the following:

- hands out entity ids, either from a FIFO free list or from a counter;
- grows the signature table by doubling;
- stores and removes components;
- registers systems by type;
- defers creation and destruction until `update`, the flush.

During the flush, created entities join the systems whose required
signature their own signature contains. Then destroyed entities leave every
system and every pool, get an empty signature, and have their ids queued
for reuse.

## Modules

| file | module | models |
|---|---|---|
| `signatures.dfy` | `Signatures` | the bitset and the matching rule `(e & s) == s` |
| `entities.dfy` | `Entities` | entity ids, and the ascending order in which an ordered set of entities is visited |
| `pool.dfy` | `Pools` | `Pool<T>` as a class over a `seq` and two `map`s, with its bijection invariant |
| `components.dfy` | `ComponentIds` | the `Component<T>::getId` counter as a registry class |
| `system.dfy` | `Systems` | `System` as a class, plus the list functions its methods are specified by |
| `coordinator.dfy` | `Coordinators` | `Coordinator` as a class with a `Valid()` invariant, plus the functions that specify `update` |

The model represents the source's types as follows:

- A signature is the set of the bit positions that are on.
- A component type is its id.
- A system type is a key of the coordinator's type parameter `S`.
- A component value is of the type parameter `V`.
- Each pool also carries a ghost map `Contents`, its abstract value. The
  coordinator carries a ghost map `Stores` that collects these values per
  component id.
- The coordinator's invariant includes `Agree`: an entity's bit for a
  component type is on exactly when that type's pool holds the entity
  (src/ECS.h:258-261). So `hasComponent` is the test that makes
  `getComponent` safe.

## Model

| member | source | states |
|---|---|---|
| Signatures.And | src/ECS.h:20-21 | a component is in `a & b` exactly when it is in both signatures |
| Signatures.Matches | src/ECS.cpp:88 | `(e & s) == s` holds exactly when `s` is a subset of `e`, that is, when the entity has every component the system requires |
| Signatures.MatchesMonotone | src/ECS.cpp:88 | extra components never disqualify an entity, and dropping a requirement never disqualifies one |
| Entities.Least | src/ECS.h:52 | the chosen id belongs to the set and is no larger than any member |
| Entities.Ascending | src/ECS.h:237-238 | the listing of an ordered set holds exactly its ids, each once (length equals the set's size) |
| Entities.AscendingIsIncreasing | src/ECS.h:237-238 | the listing of an ordered set is strictly increasing, as `std::set` iteration is |
| Pools.BijectionSize | src/ECS.h:116-119 | while the two maps are mutual inverses over `[0, size)`, both have exactly `size` entries, so `size` counts the stored entities |
| Pools.InsertKeepsBijection | src/ECS.h:151-163 | recording a new entity at slot `size` in both maps keeps them inverse over `[0, size + 1)` |
| Pools.SwapRemoveKeepsBijection | src/ECS.h:171-182 | the swap-remove map updates (last entity takes the vacated slot, then the removed entity and the last slot are erased) keep the maps inverse over `[0, size - 1)`, including when the removed entity is the last one |
| Pools.StaleMapsBreakBijection | src/ECS.h:141-144 | zeroing `size` while a map still holds an entity leaves the maps inconsistent with the slots in use |
| Pools.Pool.constructor | src/ECS.h:122-125 | a new pool is valid and stores nothing |
| Pools.Pool.IsEmpty | src/ECS.h:129-131 | the answer is true exactly when no entity is stored |
| Pools.Pool.GetSize | src/ECS.h:133-135 | the answer is the number of stored entities |
| Pools.Pool.Set | src/ECS.h:146-164 | the invariant is kept and the entity's value becomes the new one. A present entity is overwritten in its own slot, with `size` and both maps unchanged. A new entity is placed at slot `old(size)`, recorded in both maps, and `size` grows by one, with the slots below it untouched |
| Pools.Pool.Remove | src/ECS.h:166-183 | an absent entity leaves the pool unchanged. Otherwise `size` drops by one and the entity leaves the maps. The former last entity sits in the vacated slot with its value. Every other entity keeps its slot and value. The invariant is kept |
| Pools.Pool.ClearAsWritten | src/ECS.h:141-144 | `clear` as written: `data` is emptied and `size` zeroed, but both maps are kept, so a valid pool that stored anything is no longer valid afterwards |
| Pools.Pool.Clear | src/ECS.h:141-144 | corrected `clear`: the pool is valid and stores nothing |
| Pools.Pool.Get | src/ECS.h:185-197 | the value returned is the stored entity's component |
| ComponentIds.ComponentRegistry.constructor | src/ECS.cpp:8 | the counter starts at 0 and no type has an id |
| ComponentIds.ComponentRegistry.GetId | src/ECS.h:93-98 | a type keeps the id it got first. A new type gets the counter's value and the counter advances by one. Ids stay distinct and below the counter |
| Systems.Without | src/ECS.cpp:18-27 | the erase/remove_if result is never longer than the list; its exact contents are given by `WithoutCount`, `WithoutMembers` and `WithoutConcat` |
| Systems.WithoutCount | src/ECS.cpp:17-28 | deleting an id removes exactly its copies: as a multiset the result is the list with that id's count set to zero |
| Systems.WithoutMembers | src/ECS.cpp:17-28 | deleting an id removes exactly its occurrences: membership is membership minus that id, and the multiset loses exactly that id's copies |
| Systems.WithoutConcat | src/ECS.cpp:17-28 | deletion works piecewise over a concatenation, so the survivors keep their relative order |
| Systems.WithoutAll | src/ECS.cpp:107-110 | deleting a list of ids one after another never lengthens a system's list; its contents are given by `WithoutAllMembers` |
| Systems.WithoutAllAppend | src/ECS.cpp:107-110 | deleting one more id deletes it from what deleting the earlier ids left |
| Systems.WithoutAllMembers | src/ECS.cpp:107-110 | deleting a list of ids keeps exactly the entries not in the list |
| Systems.Matching | src/ECS.cpp:85-92 | the candidates a system accepts, in candidate order, are never more than the candidates; which ones they are is `MatchingMembers` |
| Systems.MatchingMembers | src/ECS.cpp:85-92 | the matches of a candidate list are exactly the candidates whose signature the requirement matches |
| Systems.MatchingAppend | src/ECS.cpp:102-104 | one more candidate adds itself at the end of the matches iff it matches |
| Systems.ExtendMatching | src/ECS.cpp:102-104 | a system list holding its old entries followed by the matches of the first candidates, once the next candidate is appended iff it matches, holds its old entries followed by the matches of one more candidate |
| Systems.Require | src/ECS.h:426-429 | requiring a component turns its bit on and leaves every other bit as it was |
| Systems.RequireIdempotent | src/ECS.h:426-429 | requiring the same component twice is the same as requiring it once |
| Systems.Flushed | src/ECS.cpp:101-125 | a system's list after a flush is never longer than its old list plus the created entities; its members are `FlushedMembers` |
| Systems.FlushedMembers | src/ECS.cpp:101-125 | after a flush a system lists exactly the entities it listed or that were created with a matching signature, minus every destroyed entity |
| Systems.CreatedAndDestroyedInNoSystem | src/ECS.cpp:102-110 | an entity created and destroyed before the same flush is in no system afterwards |
| Systems.System.constructor | src/ECS.h:215 | a new system requires the given signature and lists no entity |
| Systems.System.RequireComponent | src/ECS.h:426-429 | the signature gains the component's bit; the entity list is unchanged |
| Systems.System.AddEntityToSystem | src/ECS.cpp:13-15 | the entity is appended at the end (duplicates allowed); the signature is unchanged |
| Systems.System.RemoveEntityToSystem | src/ECS.cpp:17-28 | every entry with the entity's id is deleted; the others keep their order; the signature is unchanged |
| Systems.System.GetSystemEntities | src/ECS.cpp:30-32 | the answer is the entity list |
| Systems.System.GetComponentSignature | src/ECS.cpp:34-36 | the answer is the required signature |
| Coordinators.GrownSize | src/ECS.cpp:55-56 | the grown table size is larger than the old size, at least 2, and at most double plus two |
| Coordinators.WithoutEntity | src/ECS.cpp:115-119 | purging one entity from every pool keeps every pool, as the loop skips null pools and never creates one; what each pool loses is `WithoutEntitiesAt` |
| Coordinators.WithoutEntities | src/ECS.cpp:107-124 | purging the destroyed entities one after another keeps every pool |
| Coordinators.WithoutEntitiesAppend | src/ECS.cpp:114-119 | purging one more entity purges it from what purging the earlier ones left |
| Coordinators.WithoutEntitiesAt | src/ECS.cpp:114-119 | purging a list of entities keeps every pool and drops exactly the listed entities from each, leaving all other stored components as they were |
| Coordinators.ResetSignatures | src/ECS.cpp:112 | resetting the destroyed entities' signatures keeps the table's size; which entries change is `ResetSignaturesAt` |
| Coordinators.ResetSignaturesAt | src/ECS.cpp:111-112 | after resetting a list of entities, exactly their signatures are empty and every other signature is unchanged |
| Coordinators.ResetOneMore | src/ECS.cpp:111-112 | resetting one more entry is resetting the longer list |
| Coordinators.RetiredEntityCleared | src/ECS.cpp:107-124 | after a flush every destroyed entity has an empty signature and no component in any pool |
| Coordinators.AgreeGrow | src/ECS.cpp:54-57 | growing the signature table with empty signatures keeps the table in agreement with the pools, since no pool holds a new id |
| Coordinators.AgreeNewPool | src/ECS.h:341-344 | adding an empty pool keeps the agreement, since no entity has that type's bit on yet |
| Coordinators.AgreeAdd | src/ECS.h:355-359 | storing a component and turning its bit on keeps the agreement |
| Coordinators.AgreeRemove | src/ECS.h:375-379 | dropping a component and turning its bit off keeps the agreement |
| Coordinators.AgreeRetire | src/ECS.cpp:111-119 | resetting a signature while the entity leaves every pool keeps the agreement |
| Coordinators.Coordinator.constructor | src/ECS.cpp:41-43 | a new coordinator is valid and holds no entity, pool, system or signature |
| Coordinators.Coordinator.Create | src/ECS.cpp:49-69 | the returned id indexes the signature table, and the id waits in the pending-creation set. With an empty free list, the id is the counter's old value, the counter advances, and the table grows to 2 or double with empty signatures when the id reaches its size. Otherwise the id is the front of the free list, which loses it (FIFO) |
| Coordinators.Coordinator.Destroy | src/ECS.cpp:71-73 | the entity is added to the pending-destruction set, so destroying twice is destroying once, and nothing else changes |
| Coordinators.Coordinator.EnsurePool | src/ECS.h:335-344 | afterwards the component type has a pool. An existing pool is kept; otherwise a fresh empty one is added |
| Coordinators.Coordinator.SetInPool | src/ECS.h:355-356 | the entity's value is stored in that type's pool, and every other pool is unchanged |
| Coordinators.Coordinator.RemoveFromPool | src/ECS.h:375-376 | the entity leaves that type's pool, and every other pool is unchanged |
| Coordinators.Coordinator.StoreComponent | src/ECS.h:355-359 | the value is stored in the type's existing pool and the bit turned on, with nothing else changed and the invariant kept |
| Coordinators.Coordinator.AddComponent | src/ECS.h:329-362 | the type's pool exists and stores `value` for the entity, and no other stored value changes. The entity's signature gains the bit, so `hasComponent` becomes true, and no other signature changes |
| Coordinators.Coordinator.RemoveComponent | src/ECS.h:364-380 | with no pool for the type nothing changes; otherwise the entity leaves that pool and its bit is cleared, and nothing else changes |
| Coordinators.Coordinator.HasComponent | src/ECS.h:382-387 | the answer is true exactly when the component's bit is on in the entity's signature, which the invariant makes the same as that type's pool holding the entity |
| Coordinators.Coordinator.GetComponent | src/ECS.h:389-397 | for an entity that has the component (the `hasComponent` test), the pool exists, holds the entity, and the value returned is its stored component |
| Coordinators.Coordinator.AddSystem | src/ECS.h:399-404 | afterwards a system is registered under the key. An existing one is kept unchanged; otherwise a fresh system with the required signature and no entities is added |
| Coordinators.Coordinator.RemoveSystem | src/ECS.h:406-412 | the key is no longer registered and every other registration is kept (a missing key changes nothing) |
| Coordinators.Coordinator.HasSystem | src/ECS.h:414-417 | the answer is true exactly when a system is registered under the key |
| Coordinators.Coordinator.GetSystem | src/ECS.h:419-424 | the answer is the system registered under the key |
| Coordinators.Coordinator.AddEntityToSystems | src/ECS.cpp:75-93 | an id outside the signature table changes nothing. Otherwise the entity is appended to exactly the systems whose requirement its signature matches, and every other system is unchanged |
| Coordinators.Coordinator.RemoveEntityFromSystems | src/ECS.cpp:95-99 | every system's list loses exactly the entity's entries |
| Coordinators.Coordinator.RemoveFromPools | src/ECS.cpp:114-119 | the entity leaves every existing pool; all other stored components stay |
| Coordinators.Coordinator.AddCreatedToSystems | src/ECS.cpp:102-105 | the pending-created entities, in ascending id order, are appended to each system they match, and the pending set ends empty |
| Coordinators.Coordinator.Retire | src/ECS.cpp:108-122 | the entity leaves every system and every pool, its signature becomes empty, its id is appended to the back of the free list, and the invariant is kept |
| Coordinators.Coordinator.Purge | src/ECS.cpp:111-122 | the entity's signature becomes empty, it leaves every pool and its id is appended to the back of the free list, with the invariant kept |
| Coordinators.Coordinator.ClearDestroyed | src/ECS.cpp:124 | the pending-destruction set ends empty and the invariant is kept |
| Coordinators.Coordinator.RetireDestroyed | src/ECS.cpp:107-124 | the pending-destroyed entities, in ascending id order, are removed from each system and each pool and their signatures reset. Their ids are appended to the free list in that order, the pending set ends empty, and the invariant is kept |
| Coordinators.Coordinator.Update | src/ECS.cpp:101-125 | both pending sets end empty. Each system's list is `Flushed`: created matches are added before destroyed entities are removed (see `FlushedMembers` and `CreatedAndDestroyedInNoSystem`). Destroyed entities have empty signatures and no stored component (see `RetiredEntityCleared`), and their ids are queued for reuse in ascending order. The invariant is kept |

## Left out

- Tags and groups: the coordinator only declares them (src/ECS.h:266-269, 306-317) and nothing implements them.
- `Game`, the physics system and the component payload types are outside this model. They are window, input, rendering and floating-point code.
- Logging calls are left out; they have no effect on the state.
- Pool capacity is abstracted. The model leaves out the `data.capacity()` test, the resize to `size * 2` (which resizes to 0 when `size` is 0), the initial capacity of 100, `resize` and `operator[]`. The dense storage is a sequence that grows by one slot when needed.
- Pools.Pool.Get: requires the entity to be stored. On an absent entity the source's `operator[]` silently inserts a mapping to slot 0 and returns that slot's value.
- Coordinators.Coordinator.GetComponent: requires the entity to have the component, and its id to index the signature table. The source indexes the pool vector unchecked.
- Coordinators.Coordinator.GetComponent: returns a copy of the stored value, where the source returns a reference into the pool that callers write through (src/Systems.h:19-24). Such a write-back is modelled by calling `AddComponent` on an entity that already has the component, which overwrites the value in its slot.
- Pools.Pool.Get: returns a copy of the stored value, where the source returns a mutable reference into `data`. A write through it is modelled by `Set` on the stored entity, which overwrites its slot.
- Coordinators.Coordinator.HasComponent: requires the entity's id to index the signature table. The source indexes the table unchecked (src/ECS.h:386).
- Coordinators.Coordinator.RemoveComponent: requires the entity's id to index the signature table when the type has a pool. The source clears the bit unchecked otherwise (src/ECS.h:379).
- Coordinators.Coordinator.GetSystem: requires a system under the key. The source dereferences `end()` otherwise.
- Coordinators.Coordinator.AddComponent: requires the entity's id to index the signature table. The source writes out of bounds otherwise.
- Coordinators.Coordinator.Destroy: requires the entity's id to index the signature table. The source accepts any id, but `update` would later reset an out-of-range signature.
- Component type ids of 32 or more are excluded by the `ComponentId` type. In the source, `bitset::set` throws for them after the pool was already created and written.
- Coordinators.Coordinator.AddComponent and the other coordinator members take an already resolved component id. `Component<T>::getId` is modelled separately as `ComponentIds.ComponentRegistry` and is not a field of the coordinator.
- The pool vector of shared, nullable pool pointers is a map from component id to pool. The map has an entry exactly where the vector holds a non-null pointer, so the resize of the vector has no counterpart.
- Shared ownership of systems and pools is replaced by exclusive references owned by the coordinator.
- Coordinators.Coordinator.AddEntityToSystems, RemoveEntityFromSystems and Update state their effect per system. The source visits the systems of an `unordered_map` in an unspecified order, and no result depends on that order.
- Coordinators.Coordinator.Update does not deduplicate the free list, as in the source. If an id is retired and then destroyed again before any `create`, it is queued twice, and two later creates both return it.
- Fixed-width integers (`size_t`, `int`) are unbounded here, so wrap-around of the entity counter and of the component-id counter is not modelled.

## Notes on the source

- `addSystem` (src/ECS.h:399-404): the comment at line 401 says a second registration replaces the first. The code uses `unordered_map::insert`, which keeps the existing entry. The model follows the code.
- `removeComponent` (src/ECS.h:364-380): line 375 declares the pool pointer with the component's type rather than the pool's, so the template would not compile if instantiated. The model follows the evident intent: remove the entity from the pool and clear its bit.

## Findings

| source | as written | input that shows it | evidently intended | confidence | as-written member | corrected member |
|---|---|---|---|---|---|---|
| src/ECS.h:141-144 | `clear` empties `data` and zeroes `size` but keeps both maps | a pool storing entity 7 at slot 0, then `clear()`: `indexToEntityId` still maps slot 0 to 7 with `size == 0`, so a later `set` of a new entity cannot record its slot (`emplace` does not overwrite) | `clear` leaves a valid, empty pool | not executed | Pools.Pool.ClearAsWritten, Pools.StaleMapsBreakBijection | Pools.Pool.Clear |

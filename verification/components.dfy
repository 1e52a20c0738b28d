/**
 Component-type ids (ECS.h, lines 86-98; ECS.cpp, line 8).

 Every component type gets a small integer id the first time its
 `Component<T>::getId` runs: the shared counter `IComponent::nextId` is read
 and incremented once, and the id is cached for the type. A type is
 represented here by a key of type `K`; the per-type caches are the map
 `ids`.
 */
module ComponentIds {

  class ComponentRegistry<K(==)> {
    /** `IComponent::nextId`: the id the next new component type receives. */
    var nextId: nat
    /** The id cached for each component type that has asked for one. */
    var ids: map<K, nat>

    /**
     The ids handed out are exactly `0 .. nextId - 1`, one per component type.
     */
    ghost predicate Valid()
      reads this
    {
      && (forall k :: k in ids ==> ids[k] < nextId)
      && (forall k, j :: k in ids && j in ids && k != j ==> ids[k] != ids[j])
      && |ids| == nextId
    }

    /** The static initialisation `IComponent::nextId = 0`: no type has an id yet. */
    constructor ()
      ensures Valid()
      ensures nextId == 0 && ids == map[]
    {
      nextId := 0;
      ids := map[];
    }

    /**
     `Component<T>::getId`: a type that already has an id keeps it; a new type
     receives `nextId`, which then advances by one.
     */
    method GetId(k: K) returns (id: nat)
      requires Valid()
      modifies this
      ensures Valid()
      ensures k in ids && id == ids[k]
      ensures k in old(ids) ==> id == old(ids)[k] && ids == old(ids) && nextId == old(nextId)
      ensures k !in old(ids) ==> id == old(nextId) && ids == old(ids)[k := id] && nextId == old(nextId) + 1
    {
      if k in ids {
        id := ids[k];
      } else {
        id := nextId;
        ids := ids[k := id];
        nextId := nextId + 1;
      }
    }
  }
}

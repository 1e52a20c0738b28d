/**
 The dense per-component storage `Pool<T>` (ECS.h, lines 101-202).

 A pool keeps its values packed in `data[0..size)` and two maps between
 entity ids and slots. Insertion appends at slot `size`; removal moves the
 last slot's value into the vacated slot (swap-remove), so the slots below
 `size` never have gaps.
 */
module Pools {

  /**
   The two maps are mutual inverses and the slots in use are exactly
   `[0, size)`.
   */
  ghost predicate Bijection(entityIdToIndex: map<int, int>, indexToEntityId: map<int, int>, size: int)
  {
    && 0 <= size
    && (forall i :: i in indexToEntityId <==> 0 <= i < size)
    && (forall e :: e in entityIdToIndex ==>
          entityIdToIndex[e] in indexToEntityId && indexToEntityId[entityIdToIndex[e]] == e)
    && (forall i :: i in indexToEntityId ==>
          indexToEntityId[i] in entityIdToIndex && entityIdToIndex[indexToEntityId[i]] == i)
  }

  /** Under the bijection, `size` is the number of entities stored. */
  lemma {:induction false} BijectionSize(entityIdToIndex: map<int, int>, indexToEntityId: map<int, int>, size: int)
    requires Bijection(entityIdToIndex, indexToEntityId, size)
    ensures |entityIdToIndex| == size
    ensures |indexToEntityId| == size
    decreases size
  {
    if size == 0 {
      assert forall i :: i !in indexToEntityId;
      assert forall e :: e !in entityIdToIndex;
      assert entityIdToIndex.Keys == {};
      assert indexToEntityId.Keys == {};
    } else {
      var last := indexToEntityId[size - 1];
      SwapRemoveKeepsBijection(entityIdToIndex, indexToEntityId, size, last);
      var e2i := entityIdToIndex - {last};
      var i2e := indexToEntityId - {size - 1};
      assert e2i == entityIdToIndex[last := size - 1] - {last};
      assert i2e == indexToEntityId[size - 1 := last] - {size - 1};
      BijectionSize(e2i, i2e, size - 1);
      assert entityIdToIndex.Keys == e2i.Keys + {last};
      assert indexToEntityId.Keys == i2e.Keys + {size - 1};
    }
  }

  /** Inserting a new entity at slot `size` keeps the bijection. */
  lemma InsertKeepsBijection(entityIdToIndex: map<int, int>, indexToEntityId: map<int, int>, size: int, entityId: int)
    requires Bijection(entityIdToIndex, indexToEntityId, size)
    requires entityId !in entityIdToIndex
    ensures Bijection(entityIdToIndex[entityId := size], indexToEntityId[size := entityId], size + 1)
  {
  }

  /**
   The map updates of a swap-remove (the last slot's entity takes the removed
   entity's slot; then the removed entity and the last slot are erased) keep
   the bijection with one slot fewer.
   */
  lemma SwapRemoveKeepsBijection(entityIdToIndex: map<int, int>, indexToEntityId: map<int, int>, size: int, entityId: int)
    requires Bijection(entityIdToIndex, indexToEntityId, size)
    requires entityId in entityIdToIndex
    ensures size - 1 in indexToEntityId
    ensures
      var removed := entityIdToIndex[entityId];
      var lastEntity := indexToEntityId[size - 1];
      Bijection(entityIdToIndex[lastEntity := removed] - {entityId},
                indexToEntityId[removed := lastEntity] - {size - 1},
                size - 1)
  {
    var removed := entityIdToIndex[entityId];
    var lastEntity := indexToEntityId[size - 1];
    var e2i := entityIdToIndex[lastEntity := removed] - {entityId};
    var i2e := indexToEntityId[removed := lastEntity] - {size - 1};
    if lastEntity == entityId {
      assert e2i == entityIdToIndex - {entityId};
      assert i2e == indexToEntityId - {size - 1};
    } else {
      assert removed != size - 1;
      forall e | e in e2i
        ensures e2i[e] in i2e && i2e[e2i[e]] == e
      {
        if e != lastEntity {
          assert e2i[e] == entityIdToIndex[e];
        }
      }
    }
  }

  /**
   Zeroing the size while keeping the maps of a pool that stores some entity
   leaves a slot recorded at or above the new size, so the maps no longer
   describe the slots in use.
   */
  lemma StaleMapsBreakBijection(entityIdToIndex: map<int, int>, indexToEntityId: map<int, int>, size: int,
                                entityId: int)
    requires Bijection(entityIdToIndex, indexToEntityId, size)
    requires entityId in entityIdToIndex
    ensures !Bijection(entityIdToIndex, indexToEntityId, 0)
  {
    var slot := entityIdToIndex[entityId];
    assert slot in indexToEntityId;
    assert !(0 <= slot < 0);
  }

  class Pool<T> {
    var data: seq<T>
    var size: int
    var entityIdToIndex: map<int, int>
    var indexToEntityId: map<int, int>

    /** The abstract value: each stored entity's component. */
    ghost var Contents: map<int, T>

    /**
     The storage invariant: the maps are mutual inverses over `[0, size)`, and
     each stored entity's component sits in its slot.
     */
    ghost predicate Valid()
      reads this
    {
      && size <= |data|
      && Bijection(entityIdToIndex, indexToEntityId, size)
      && Contents.Keys == entityIdToIndex.Keys
      && (forall e :: e in entityIdToIndex ==> Contents[e] == data[entityIdToIndex[e]])
    }

    constructor ()
      ensures Valid()
      ensures size == 0 && entityIdToIndex == map[] && indexToEntityId == map[]
      ensures Contents == map[]
    {
      data := [];
      size := 0;
      entityIdToIndex := map[];
      indexToEntityId := map[];
      Contents := map[];
    }

    /** `isEmpty`: no entity is stored. */
    method IsEmpty() returns (r: bool)
      requires Valid()
      ensures r <==> Contents == map[]
    {
      BijectionSize(entityIdToIndex, indexToEntityId, size);
      r := size == 0;
    }

    /** `getSize`: the number of entities stored. */
    method GetSize() returns (r: int)
      requires Valid()
      ensures r == |Contents|
    {
      BijectionSize(entityIdToIndex, indexToEntityId, size);
      r := size;
    }

    /**
     `set`: overwrite the entity's value in its slot, or append a new entity
     at slot `size`.
     */
    method Set(entityId: int, value: T)
      requires Valid()
      modifies this
      ensures Valid()
      ensures Contents == old(Contents)[entityId := value]
      ensures entityId in old(entityIdToIndex) ==>
        && size == old(size)
        && entityIdToIndex == old(entityIdToIndex)
        && indexToEntityId == old(indexToEntityId)
        && data == old(data)[old(entityIdToIndex)[entityId] := value]
      ensures entityId !in old(entityIdToIndex) ==>
        && size == old(size) + 1
        && entityIdToIndex == old(entityIdToIndex)[entityId := old(size)]
        && indexToEntityId == old(indexToEntityId)[old(size) := entityId]
        && data[old(size)] == value
        && data[..old(size)] == old(data)[..old(size)]
    {
      if entityId in entityIdToIndex {
        var index := entityIdToIndex[entityId];
        data := data[index := value];
        forall e | e in entityIdToIndex && e != entityId
          ensures data[entityIdToIndex[e]] == old(data)[entityIdToIndex[e]]
        {
          assert indexToEntityId[entityIdToIndex[e]] == e;
        }
        Contents := Contents[entityId := value];
      } else {
        var index := size;
        InsertKeepsBijection(entityIdToIndex, indexToEntityId, size, entityId);
        entityIdToIndex := entityIdToIndex[entityId := index];
        indexToEntityId := indexToEntityId[index := entityId];
        if index >= |data| {
          data := data + [value];
        } else {
          data := data[index := value];
        }
        size := size + 1;
        forall e | e in entityIdToIndex && e != entityId
          ensures data[entityIdToIndex[e]] == old(data)[entityIdToIndex[e]]
        {
          assert entityIdToIndex[e] in old(indexToEntityId);
        }
        Contents := Contents[entityId := value];
      }
    }

    /**
     `remove`: nothing happens for an absent entity; otherwise the last slot's
     entity and value move into the removed entity's slot.
     */
    method Remove(entityId: int)
      requires Valid()
      modifies this
      ensures Valid()
      ensures Contents == old(Contents) - {entityId}
      ensures entityId !in old(entityIdToIndex) ==> unchanged(this)
      ensures entityId in old(entityIdToIndex) ==>
        var removed := old(entityIdToIndex)[entityId];
        var lastEntity := old(indexToEntityId)[old(size) - 1];
        && size == old(size) - 1
        && entityIdToIndex.Keys == old(entityIdToIndex).Keys - {entityId}
        && (lastEntity != entityId ==>
              entityIdToIndex[lastEntity] == removed && data[removed] == old(data)[old(size) - 1])
        && (forall e :: e in entityIdToIndex && e != lastEntity ==>
              entityIdToIndex[e] == old(entityIdToIndex)[e] && data[entityIdToIndex[e]] == old(data)[entityIdToIndex[e]])
    {
      if entityId !in entityIdToIndex {
        return;
      }
      var indexOfRemoved := entityIdToIndex[entityId];
      var indexOfLast := size - 1;
      SwapRemoveKeepsBijection(entityIdToIndex, indexToEntityId, size, entityId);
      data := data[indexOfRemoved := data[indexOfLast]];

      var entityIdOfLast := indexToEntityId[indexOfLast];
      entityIdToIndex := entityIdToIndex[entityIdOfLast := indexOfRemoved];
      indexToEntityId := indexToEntityId[indexOfRemoved := entityIdOfLast];

      entityIdToIndex := entityIdToIndex - {entityId};
      indexToEntityId := indexToEntityId - {indexOfLast};

      size := size - 1;
      Contents := Contents - {entityId};
      forall e | e in entityIdToIndex
        ensures data[entityIdToIndex[e]] == old(data)[old(entityIdToIndex)[e]]
      {
        if e != entityIdOfLast {
          assert old(indexToEntityId)[old(entityIdToIndex)[e]] == e;
        }
      }
    }

    /**
     `clear` as written: `data` is emptied and `size` zeroed, but both maps
     keep their entries, so a pool that stored anything is left inconsistent.
     */
    method ClearAsWritten()
      modifies this
      ensures data == [] && size == 0
      ensures entityIdToIndex == old(entityIdToIndex) && indexToEntityId == old(indexToEntityId)
      ensures Contents == old(Contents)
      ensures old(Valid()) && old(Contents) != map[] ==> !Valid()
    {
      if Valid() && Contents != map[] {
        BijectionSize(entityIdToIndex, indexToEntityId, size);
        assert |Contents.Keys| == |entityIdToIndex.Keys|;
        assert 0 in indexToEntityId;
        StaleMapsBreakBijection(entityIdToIndex, indexToEntityId, size, indexToEntityId[0]);
      }
      data := [];
      size := 0;
    }

    /** `clear` as evidently intended: the pool holds no entity afterwards. */
    method Clear()
      requires Valid()
      modifies this
      ensures Valid()
      ensures Contents == map[]
      ensures size == 0 && entityIdToIndex == map[] && indexToEntityId == map[]
    {
      data := [];
      size := 0;
      entityIdToIndex := map[];
      indexToEntityId := map[];
      Contents := map[];
    }

    /** `get`: the entity's value; the entity must be stored. */
    method Get(entityId: int) returns (r: T)
      requires Valid()
      requires entityId in entityIdToIndex
      ensures entityId in Contents && r == Contents[entityId]
    {
      r := data[entityIdToIndex[entityId]];
    }
  }
}

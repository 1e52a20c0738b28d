/**
 The coordinator (ECS.h, lines 226-424; ECS.cpp, lines 38-125): the one
 object that owns the entity registry, the component pools, the signature
 table and the systems.

 A template parameter `TComponent` is represented by its component-type id
 (see ComponentIds), a system type by a key of type `S`, and every component
 value by a value of type `V`.
 */
module Coordinators {
  import opened Signatures
  import opened Entities
  import opened Pools
  import opened Systems

  /**
   The size the signature table grows to when an id reaches it: 2 when it is
   empty, otherwise double.
   */
  function GrownSize(n: nat): (r: nat)
    ensures n < r && 2 <= r
    ensures r <= 2 * n + 2
  {
    if n == 0 then 2 else 2 * n
  }

  /** Every pool's contents with the entity `e` taken out: the pool loop of `update`. */
  function WithoutEntity<W>(stores: map<int, map<int, W>>, e: int): (r: map<int, map<int, W>>)
    ensures r.Keys == stores.Keys
  {
    map c | c in stores :: stores[c] - {e}
  }

  /** Every pool's contents with the entities listed in `ids` taken out, one after another. */
  function WithoutEntities<W>(stores: map<int, map<int, W>>, ids: seq<int>): (r: map<int, map<int, W>>)
    ensures r.Keys == stores.Keys
    decreases |ids|
  {
    if ids == [] then stores
    else WithoutEntity(WithoutEntities(stores, ids[..|ids| - 1]), ids[|ids| - 1])
  }

  /** Taking out one more entity takes it out of what the earlier ones left. */
  lemma WithoutEntitiesAppend<W>(stores: map<int, map<int, W>>, ids: seq<int>, e: int)
    ensures WithoutEntities(stores, ids + [e]) == WithoutEntity(WithoutEntities(stores, ids), e)
  {
    assert (ids + [e])[..|ids|] == ids;
  }

  /**
   Taking out entities keeps every pool and drops from each exactly the
   listed entities, leaving every other stored component as it was.
   */
  lemma {:induction false} WithoutEntitiesAt<W>(stores: map<int, map<int, W>>, ids: seq<int>)
    ensures forall c :: c in stores ==> WithoutEntities(stores, ids)[c] == stores[c] - (set e | e in ids)
    decreases |ids|
  {
    if ids == [] {
      forall c | c in stores
        ensures WithoutEntities(stores, ids)[c] == stores[c] - (set e | e in ids)
      {
        assert (set e | e in ids) == {};
      }
    } else {
      var front, last := ids[..|ids| - 1], ids[|ids| - 1];
      WithoutEntitiesAt(stores, front);
      assert ids == front + [last];
      assert (set e | e in ids) == (set e | e in front) + {last};
    }
  }

  /** The signature table with the entries listed in `ids` reset to the empty signature, one after another. */
  function ResetSignatures(signatures: seq<Signature>, ids: seq<EntityId>): (r: seq<Signature>)
    ensures |r| == |signatures|
    decreases |ids|
  {
    if ids == [] then signatures
    else
      var earlier := ResetSignatures(signatures, ids[..|ids| - 1]);
      var e := ids[|ids| - 1];
      if e < |earlier| then earlier[e := EMPTY] else earlier
  }

  /** Exactly the listed entries are empty afterwards; every other one is unchanged. */
  lemma {:induction false} ResetSignaturesAt(signatures: seq<Signature>, ids: seq<EntityId>)
    ensures forall e :: 0 <= e < |signatures| ==>
      ResetSignatures(signatures, ids)[e] == if e in ids then EMPTY else signatures[e]
    decreases |ids|
  {
    if ids != [] {
      var front := ids[..|ids| - 1];
      ResetSignaturesAt(signatures, front);
      assert ids == front + [ids[|ids| - 1]];
    }
  }

  /** Resetting one more entry is resetting the longer list. */
  lemma ResetOneMore(signatures: seq<Signature>, ids: seq<EntityId>, e: EntityId)
    requires e < |signatures|
    ensures ResetSignatures(signatures, ids)[e := EMPTY] == ResetSignatures(signatures, ids + [e])
  {
    assert (ids + [e])[..|ids|] == ids;
  }

  /**
   What a flush leaves of a destroyed entity: an empty signature, and no
   component in any pool.
   */
  lemma RetiredEntityCleared<W>(signatures: seq<Signature>, stores: map<int, map<int, W>>,
                                destroyed: set<EntityId>, e: EntityId)
    requires e in destroyed && e < |signatures|
    ensures ResetSignatures(signatures, Ascending(destroyed))[e] == EMPTY
    ensures forall c :: c in stores ==> e !in WithoutEntities(stores, Ascending(destroyed))[c]
  {
    ResetSignaturesAt(signatures, Ascending(destroyed));
    WithoutEntitiesAt(stores, Ascending(destroyed));
  }

  /**
   The signature table agrees with the stored components: every stored
   entity has a signature, and an entity's bit for a component type is on
   exactly when that type's pool holds the entity.
   */
  ghost predicate Agree<W>(signatures: seq<Signature>, stores: map<int, map<int, W>>)
  {
    && (forall c, e :: c in stores && e in stores[c] ==> 0 <= e < |signatures|)
    && (forall e: EntityId, c: ComponentId :: e < |signatures| ==>
          (c in signatures[e] <==> c in stores && e in stores[c]))
  }

  /** Growing the table with empty signatures keeps the agreement: no pool holds a new id. */
  lemma AgreeGrow<W>(signatures: seq<Signature>, stores: map<int, map<int, W>>, n: nat)
    requires Agree(signatures, stores)
    ensures Agree(signatures + seq(n, _ => EMPTY), stores)
  {
    var grown := signatures + seq(n, _ => EMPTY);
    forall e: EntityId, c: ComponentId | e < |grown|
      ensures c in grown[e] <==> c in stores && e in stores[c]
    {
      if e < |signatures| {
        assert grown[e] == signatures[e];
      } else {
        assert grown[e] == EMPTY;
      }
    }
  }

  /** A new, empty pool keeps the agreement: no entity has that type's bit on. */
  lemma AgreeNewPool<W>(signatures: seq<Signature>, stores: map<int, map<int, W>>, c: int)
    requires Agree(signatures, stores)
    requires c !in stores
    ensures Agree(signatures, stores[c := map[]])
  {
  }

  /** Storing a component and turning its bit on keeps the agreement. */
  lemma AgreeAdd<W>(signatures: seq<Signature>, stores: map<int, map<int, W>>, c: ComponentId, e: EntityId, value: W)
    requires Agree(signatures, stores)
    requires e < |signatures| && c in stores
    ensures Agree(signatures[e := signatures[e] + {c}], stores[c := stores[c][e := value]])
  {
  }

  /** Dropping a component and turning its bit off keeps the agreement. */
  lemma AgreeRemove<W>(signatures: seq<Signature>, stores: map<int, map<int, W>>, c: ComponentId, e: EntityId)
    requires Agree(signatures, stores)
    requires e < |signatures| && c in stores
    ensures Agree(signatures[e := signatures[e] - {c}], stores[c := stores[c] - {e}])
  {
  }

  /** Resetting an entity's signature while it leaves every pool keeps the agreement. */
  lemma AgreeRetire<W>(signatures: seq<Signature>, stores: map<int, map<int, W>>, e: EntityId)
    requires Agree(signatures, stores)
    requires e < |signatures|
    ensures Agree(signatures[e := EMPTY], WithoutEntity(stores, e))
  {
  }

  class Coordinator<S(==), V> {
    var numEntities: nat
    var entitiesToBeCreated: set<EntityId>
    var entitiesToBeDestroyed: set<EntityId>
    var freeIds: seq<EntityId>
    var componentPools: map<int, Pool<V>>
    var systems: map<S, System>
    var entityComponentSignatures: seq<Signature>

    /** The component pools the coordinator owns. */
    ghost var PoolRepr: set<Pool<V>>
    /** The stored components, per component type whose pool exists. */
    ghost var Stores: map<int, map<int, V>>

    /**
     Every pool is consistent, no pool serves two component types, and
     `Stores` is what the pools hold.
     */
    ghost predicate PoolsValid()
      reads this`componentPools, this`Stores, this`PoolRepr, PoolRepr
    {
      && (forall c {:trigger componentPools[c]} :: c in componentPools ==> componentPools[c] in PoolRepr && componentPools[c].Valid())
      && (forall c, d :: c in componentPools && d in componentPools && c != d ==>
            componentPools[c] != componentPools[d])
      && (forall c :: c in componentPools ==> 0 <= c < MAX_COMPONENTS)
      && Stores.Keys == componentPools.Keys
      && (forall c {:trigger componentPools[c]} :: c in componentPools ==> Stores[c] == componentPools[c].Contents)
    }

    /** Every id the coordinator holds on to indexes the signature table. */
    ghost predicate EntitiesValid()
      reads this`numEntities, this`freeIds, this`entitiesToBeDestroyed, this`entityComponentSignatures
    {
      && numEntities <= |entityComponentSignatures|
      && (forall i :: 0 <= i < |freeIds| ==> freeIds[i] < |entityComponentSignatures|)
      && (forall e :: e in entitiesToBeDestroyed ==> e < |entityComponentSignatures|)
    }

    /** No system is registered twice. */
    ghost predicate SystemsValid()
      reads this`systems
    {
      forall k, j :: k in systems && j in systems && k != j ==> systems[k] != systems[j]
    }

    /**
     The coordinator's invariant. It reads no system, so changing a system's
     list cannot break it. An entity's signature bit is on exactly when the
     pool of that component type holds the entity, so `hasComponent` is the
     test that makes `getComponent` safe.
     */
    ghost predicate Valid()
      reads this`PoolRepr, this`componentPools, this`Stores, this`numEntities, this`freeIds,
        this`entitiesToBeDestroyed, this`entityComponentSignatures, this`systems, PoolRepr
    {
      && PoolsValid()
      && EntitiesValid()
      && SystemsValid()
      && Agree(entityComponentSignatures, Stores)
    }

    constructor ()
      ensures Valid() && PoolRepr == {}
      ensures numEntities == 0 && freeIds == []
      ensures entitiesToBeCreated == {} && entitiesToBeDestroyed == {}
      ensures componentPools == map[] && systems == map[] && entityComponentSignatures == []
    {
      numEntities := 0;
      entitiesToBeCreated := {};
      entitiesToBeDestroyed := {};
      freeIds := [];
      componentPools := map[];
      systems := map[];
      entityComponentSignatures := [];
      PoolRepr := {};
      Stores := map[];
    }

    ////////////////////////////////////////////////////////////////////////
    // Entity management
    ////////////////////////////////////////////////////////////////////////

    /**
     `create`: recycle the oldest freed id, or mint the next one (growing the
     signature table when the id reaches its size); the entity waits in the
     pending-creation set until the next `update`.
     */
    method Create() returns (e: EntityId)
      requires Valid()
      modifies this`numEntities, this`freeIds, this`entityComponentSignatures, this`entitiesToBeCreated
      ensures Valid()
      ensures e < |entityComponentSignatures|
      ensures old(freeIds) == [] ==>
        && e == old(numEntities)
        && numEntities == old(numEntities) + 1
        && freeIds == []
        && entityComponentSignatures ==
             if old(numEntities) < |old(entityComponentSignatures)| then old(entityComponentSignatures)
             else old(entityComponentSignatures)
                  + seq(GrownSize(|old(entityComponentSignatures)|) - |old(entityComponentSignatures)|, _ => EMPTY)
      ensures old(freeIds) != [] ==>
        && e == old(freeIds)[0]
        && freeIds == old(freeIds)[1..]
        && numEntities == old(numEntities)
        && entityComponentSignatures == old(entityComponentSignatures)
      ensures entitiesToBeCreated == old(entitiesToBeCreated) + {e}
    {
      if freeIds == [] {
        e := numEntities;
        numEntities := numEntities + 1;
        if e >= |entityComponentSignatures| {
          var newSize := GrownSize(|entityComponentSignatures|);
          AgreeGrow(entityComponentSignatures, Stores, newSize - |entityComponentSignatures|);
          entityComponentSignatures := entityComponentSignatures
            + seq(newSize - |entityComponentSignatures|, _ => EMPTY);
        }
      } else {
        e := freeIds[0];
        freeIds := freeIds[1..];
      }
      entitiesToBeCreated := entitiesToBeCreated + {e};
    }

    /**
     `destroy`: the entity waits in the pending-destruction set until the next
     `update`; destroying it again before then changes nothing.
     */
    method Destroy(e: EntityId)
      requires Valid()
      requires e < |entityComponentSignatures|
      modifies this`entitiesToBeDestroyed
      ensures Valid()
      ensures entitiesToBeDestroyed == old(entitiesToBeDestroyed) + {e}
    {
      entitiesToBeDestroyed := entitiesToBeDestroyed + {e};
    }

    ////////////////////////////////////////////////////////////////////////
    // Component management
    ////////////////////////////////////////////////////////////////////////

    /**
     The first half of `addComponent`: create the component type's pool if it
     has none.
     */
    method EnsurePool(c: ComponentId) returns (pool: Pool<V>)
      requires Valid()
      modifies this`componentPools, this`Stores, this`PoolRepr
      ensures Valid() && fresh(PoolRepr - old(PoolRepr))
      ensures c in componentPools && componentPools[c] == pool
      ensures c in old(componentPools) ==> componentPools == old(componentPools) && Stores == old(Stores)
      ensures c !in old(componentPools) ==>
        && fresh(pool)
        && componentPools == old(componentPools)[c := pool]
        && Stores == old(Stores)[c := map[]]
    {
      if c !in componentPools {
        var newPool := new Pool<V>();
        AgreeNewPool(entityComponentSignatures, Stores, c);
        componentPools, Stores := componentPools[c := newPool], Stores[c := map[]];
        PoolRepr := PoolRepr + {newPool};
      }
      pool := componentPools[c];
    }

    /** Store `value` for the entity in the component type's existing pool. */
    method SetInPool(c: int, e: EntityId, value: V)
      requires PoolsValid()
      requires c in componentPools
      modifies this`Stores, PoolRepr
      ensures PoolsValid()
      ensures Stores == old(Stores)[c := old(Stores)[c][e := value]]
    {
      var pool := componentPools[c];
      pool.Set(e, value);
      Stores := Stores[c := Stores[c][e := value]];
      forall d | d in componentPools && d != c
        ensures componentPools[d].Valid() && Stores[d] == componentPools[d].Contents
      {
        assert componentPools[d] != pool;
      }
    }

    /** Drop the entity from the component type's existing pool. */
    method RemoveFromPool(c: int, e: EntityId)
      requires PoolsValid()
      requires c in componentPools
      modifies this`Stores, PoolRepr
      ensures PoolsValid()
      ensures Stores == old(Stores)[c := old(Stores)[c] - {e}]
    {
      var pool := componentPools[c];
      pool.Remove(e);
      Stores := Stores[c := Stores[c] - {e}];
      forall d | d in componentPools && d != c
        ensures componentPools[d].Valid() && Stores[d] == componentPools[d].Contents
      {
        assert componentPools[d] != pool;
      }
    }

    /**
     `addComponent`: create the component type's pool on first use, store the
     value for the entity and turn on the component's bit in the entity's
     signature. No system membership changes.
     */
    method AddComponent(c: ComponentId, e: EntityId, value: V)
      requires Valid()
      requires e < |entityComponentSignatures|
      modifies this`componentPools, this`Stores, this`PoolRepr, this`entityComponentSignatures, PoolRepr
      ensures Valid() && fresh(PoolRepr - old(PoolRepr))
      ensures c in Stores
      ensures Stores == old(Stores)[c := (if c in old(Stores) then old(Stores)[c] else map[])[e := value]]
      ensures entityComponentSignatures == old(entityComponentSignatures)[e := old(entityComponentSignatures)[e] + {c}]
    {
      var pool := EnsurePool(c);
      StoreComponent(c, e, value);
    }

    /**
     The second half of `addComponent`: store the value in the component
     type's existing pool and turn the component's bit on.
     */
    method StoreComponent(c: ComponentId, e: EntityId, value: V)
      requires Valid()
      requires c in componentPools && e < |entityComponentSignatures|
      modifies this`Stores, this`entityComponentSignatures, PoolRepr
      ensures Valid()
      ensures Stores == old(Stores)[c := old(Stores)[c][e := value]]
      ensures entityComponentSignatures == old(entityComponentSignatures)[e := old(entityComponentSignatures)[e] + {c}]
    {
      AgreeAdd(entityComponentSignatures, Stores, c, e, value);
      SetInPool(c, e, value);
      entityComponentSignatures := entityComponentSignatures[e := entityComponentSignatures[e] + {c}];
    }

    /**
     `removeComponent`: nothing happens when the component type has no pool;
     otherwise the entity's value leaves the pool and the component's bit in
     its signature turns off.
     */
    method RemoveComponent(c: ComponentId, e: EntityId)
      requires Valid()
      requires c in componentPools ==> e < |entityComponentSignatures|
      modifies this`Stores, this`entityComponentSignatures, PoolRepr
      ensures Valid()
      ensures c !in old(componentPools) ==>
        Stores == old(Stores) && entityComponentSignatures == old(entityComponentSignatures)
      ensures c in old(componentPools) ==>
        && Stores == old(Stores)[c := old(Stores)[c] - {e}]
        && entityComponentSignatures == old(entityComponentSignatures)[e := old(entityComponentSignatures)[e] - {c}]
    {
      if c in componentPools {
        AgreeRemove(entityComponentSignatures, Stores, c, e);
        RemoveFromPool(c, e);
        entityComponentSignatures := entityComponentSignatures[e := entityComponentSignatures[e] - {c}];
      }
    }

    /** `hasComponent`: the component's bit in the entity's signature. */
    method HasComponent(c: ComponentId, e: EntityId) returns (r: bool)
      requires Valid()
      requires e < |entityComponentSignatures|
      ensures r <==> c in entityComponentSignatures[e]
      ensures r <==> c in Stores && e in Stores[c]
    {
      r := c in entityComponentSignatures[e];
    }

    /**
     `getComponent`: the entity's value in the component type's pool. The
     entity must have the component, which `hasComponent` tests.
     */
    method GetComponent(c: ComponentId, e: EntityId) returns (value: V)
      requires Valid()
      requires e < |entityComponentSignatures| && c in entityComponentSignatures[e]
      ensures c in Stores && e in Stores[c] && value == Stores[c][e]
    {
      var pool := componentPools[c];
      value := pool.Get(e);
    }

    ////////////////////////////////////////////////////////////////////////
    // System management
    ////////////////////////////////////////////////////////////////////////

    /**
     `addSystem`: register a fresh system requiring `required` under `k`,
     unless a system is already registered under `k`, which is then kept
     (`unordered_map::insert` does not overwrite).
     */
    method AddSystem(k: S, required: Signature)
      requires Valid()
      modifies this`systems
      ensures Valid()
      ensures k in systems
      ensures k in old(systems) ==> systems == old(systems)
      ensures k !in old(systems) ==>
        && fresh(systems[k])
        && systems == old(systems)[k := systems[k]]
        && systems[k].componentSignature == required
        && systems[k].entities == []
    {
      var newSystem := new System(required);
      if k !in systems {
        systems := systems[k := newSystem];
      }
    }

    /** `removeSystem`: unregister the system under `k`, if any. */
    method RemoveSystem(k: S)
      requires Valid()
      modifies this`systems
      ensures Valid()
      ensures systems == old(systems) - {k}
    {
      if k in systems {
        systems := systems - {k};
      }
    }

    /** `hasSystem`. */
    method HasSystem(k: S) returns (r: bool)
      ensures r <==> k in systems
    {
      r := k in systems;
    }

    /** `getSystem`: a system must be registered under `k`. */
    method GetSystem(k: S) returns (s: System)
      requires k in systems
      ensures s == systems[k]
    {
      s := systems[k];
    }

    ////////////////////////////////////////////////////////////////////////
    // Entity-system management
    ////////////////////////////////////////////////////////////////////////

    /**
     `addEntityToSystems`: append the entity to every system whose required
     signature its signature matches; nothing happens for an id outside the
     signature table.
     */
    method AddEntityToSystems(e: EntityId)
      requires SystemsValid()
      modifies systems.Values`entities
      ensures forall k :: k in systems ==>
        systems[k].entities == old(systems[k].entities)
          + if e < |entityComponentSignatures| && Matches(entityComponentSignatures[e], systems[k].componentSignature)
            then [e] else []
    {
      if e >= |entityComponentSignatures| {
        return;
      }
      var signature := entityComponentSignatures[e];
      var pending := systems.Keys;
      while pending != {}
        invariant pending <= systems.Keys
        invariant forall k :: k in systems ==>
          systems[k].entities == old(systems[k].entities)
            + if k !in pending && Matches(signature, systems[k].componentSignature) then [e] else []
        decreases pending
      {
        var k :| k in pending;
        var system := systems[k];
        if Matches(signature, system.componentSignature) {
          system.AddEntityToSystem(e);
        }
        pending := pending - {k};
      }
    }

    /** `removeEntityFromSystems`: delete the entity from every system's list. */
    method RemoveEntityFromSystems(e: EntityId)
      requires SystemsValid()
      modifies systems.Values`entities
      ensures forall k :: k in systems ==> systems[k].entities == Without(old(systems[k].entities), e)
    {
      var pending := systems.Keys;
      while pending != {}
        invariant pending <= systems.Keys
        invariant forall k :: k in systems ==>
          systems[k].entities == if k in pending then old(systems[k].entities) else Without(old(systems[k].entities), e)
        decreases pending
      {
        var k :| k in pending;
        var system := systems[k];
        system.RemoveEntityToSystem(e);
        pending := pending - {k};
      }
    }

    /** The pool loop of `update`: remove the entity from every pool that exists. */
    method RemoveFromPools(e: EntityId)
      requires PoolsValid()
      modifies this`Stores, PoolRepr
      ensures PoolsValid()
      ensures Stores == WithoutEntity(old(Stores), e)
    {
      for c := 0 to MAX_COMPONENTS
        invariant PoolsValid()
        invariant Stores.Keys == old(Stores).Keys
        invariant forall d :: d in Stores ==> Stores[d] == if d < c then old(Stores)[d] - {e} else old(Stores)[d]
      {
        if c in componentPools {
          RemoveFromPool(c, e);
        }
      }
      assert Stores == WithoutEntity(old(Stores), e);
    }

    ////////////////////////////////////////////////////////////////////////
    // General
    ////////////////////////////////////////////////////////////////////////

    /**
     The first loop of `update`: every pending-created entity, in ascending
     id order, joins the systems its signature matches.
     */
    method AddCreatedToSystems()
      requires SystemsValid()
      modifies this`entitiesToBeCreated, systems.Values`entities
      ensures entitiesToBeCreated == {}
      ensures forall k :: k in systems ==>
        systems[k].entities == old(systems[k].entities)
          + Matching(Ascending(old(entitiesToBeCreated)), entityComponentSignatures, systems[k].componentSignature)
    {
      var created := Ascending(entitiesToBeCreated);
      for i := 0 to |created|
        modifies systems.Values`entities
        invariant forall k :: k in systems ==>
          systems[k].entities == old(systems[k].entities)
            + Matching(created[..i], entityComponentSignatures, systems[k].componentSignature)
      {
        label Before:
        AddEntityToSystems(created[i]);
        assert created[..i + 1] == created[..i] + [created[i]];
        forall k | k in systems
          ensures systems[k].entities == old(systems[k].entities)
            + Matching(created[..i + 1], entityComponentSignatures, systems[k].componentSignature)
        {
          ExtendMatching(old@Before(systems[k].entities), systems[k].entities, old(systems[k].entities),
                         created[..i], created[i], entityComponentSignatures, systems[k].componentSignature);
        }
      }
      assert created[..|created|] == created;
      entitiesToBeCreated := {};
    }

    /**
     The body of the second loop of `update`: the entity leaves every system,
     its signature is reset, it leaves every pool and its id goes to the back
     of the free list.
     */
    method Retire(e: EntityId)
      requires Valid()
      requires e < |entityComponentSignatures|
      modifies this`entityComponentSignatures, this`Stores, this`freeIds, systems.Values`entities, PoolRepr
      ensures Valid()
      ensures forall k :: k in systems ==> systems[k].entities == Without(old(systems[k].entities), e)
      ensures entityComponentSignatures == old(entityComponentSignatures)[e := EMPTY]
      ensures Stores == WithoutEntity(old(Stores), e)
      ensures freeIds == old(freeIds) + [e]
    {
      RemoveEntityFromSystems(e);
      Purge(e);
    }

    /**
     The rest of the second loop's body once the entity has left the systems:
     its signature is reset, it leaves every pool and its id goes to the back
     of the free list.
     */
    method Purge(e: EntityId)
      requires Valid()
      requires e < |entityComponentSignatures|
      modifies this`entityComponentSignatures, this`Stores, this`freeIds, PoolRepr
      ensures Valid()
      ensures entityComponentSignatures == old(entityComponentSignatures)[e := EMPTY]
      ensures Stores == WithoutEntity(old(Stores), e)
      ensures freeIds == old(freeIds) + [e]
    {
      AgreeRetire(entityComponentSignatures, Stores, e);
      entityComponentSignatures := entityComponentSignatures[e := EMPTY];
      RemoveFromPools(e);
      freeIds := freeIds + [e];
    }

    /** The `clear` that ends `update`: no entity waits for destruction any more. */
    method ClearDestroyed()
      requires Valid()
      modifies this`entitiesToBeDestroyed
      ensures Valid()
      ensures entitiesToBeDestroyed == {}
    {
      entitiesToBeDestroyed := {};
    }

    /**
     The second loop of `update`: every pending-destroyed entity, in
     ascending id order, is retired.
     */
    method RetireDestroyed()
      requires Valid()
      modifies this`entitiesToBeDestroyed, this`entityComponentSignatures, this`Stores, this`freeIds,
        systems.Values`entities, PoolRepr
      ensures Valid()
      ensures entitiesToBeDestroyed == {}
      ensures forall k :: k in systems ==>
        systems[k].entities == WithoutAll(old(systems[k].entities), Ascending(old(entitiesToBeDestroyed)))
      ensures entityComponentSignatures == ResetSignatures(old(entityComponentSignatures), Ascending(old(entitiesToBeDestroyed)))
      ensures Stores == WithoutEntities(old(Stores), Ascending(old(entitiesToBeDestroyed)))
      ensures freeIds == old(freeIds) + Ascending(old(entitiesToBeDestroyed))
    {
      var destroyed := Ascending(entitiesToBeDestroyed);
      for i := 0 to |destroyed|
        modifies this`entityComponentSignatures, this`Stores, this`freeIds, systems.Values`entities, PoolRepr
        invariant Valid()
        invariant forall k :: k in systems ==>
          systems[k].entities == WithoutAll(old(systems[k].entities), destroyed[..i])
        invariant entityComponentSignatures == ResetSignatures(old(entityComponentSignatures), destroyed[..i])
        invariant Stores == WithoutEntities(old(Stores), destroyed[..i])
        invariant freeIds == old(freeIds) + destroyed[..i]
      {
        var e := destroyed[i];
        assert e in entitiesToBeDestroyed;
        ResetOneMore(old(entityComponentSignatures), destroyed[..i], e);
        WithoutEntitiesAppend(old(Stores), destroyed[..i], e);
        Retire(e);
        assert destroyed[..i + 1] == destroyed[..i] + [e];
      }
      assert destroyed[..|destroyed|] == destroyed;
      ClearDestroyed();
    }

    /**
     `update`, the flush: first every pending-created entity joins the
     systems it matches, then every pending-destroyed entity is retired, and
     both pending sets end empty.
     */
    method Update()
      requires Valid()
      modifies this`entitiesToBeCreated, this`entitiesToBeDestroyed, this`entityComponentSignatures,
        this`Stores, this`freeIds, systems.Values`entities, PoolRepr
      ensures Valid()
      ensures entitiesToBeCreated == {} && entitiesToBeDestroyed == {}
      ensures forall k :: k in systems ==>
        systems[k].entities == Flushed(old(systems[k].entities), systems[k].componentSignature,
                                       old(entityComponentSignatures),
                                       old(entitiesToBeCreated), old(entitiesToBeDestroyed))
      ensures entityComponentSignatures == ResetSignatures(old(entityComponentSignatures), Ascending(old(entitiesToBeDestroyed)))
      ensures Stores == WithoutEntities(old(Stores), Ascending(old(entitiesToBeDestroyed)))
      ensures freeIds == old(freeIds) + Ascending(old(entitiesToBeDestroyed))
    {
      AddCreatedToSystems();
      RetireDestroyed();
    }
  }
}

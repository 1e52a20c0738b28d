/**
 Systems (ECS.h, lines 204-224 and 426-429; ECS.cpp, lines 10-36).

 A system holds the signature it requires and the ordered list of entities
 it processes. Appending allows duplicates; removal deletes every entry with
 the given id and keeps the others in order.
 */
module Systems {
  import opened Signatures
  import opened Entities

  /** `s` with every occurrence of `e` deleted (the erase/remove_if idiom). */
  function Without(s: seq<EntityId>, e: EntityId): (r: seq<EntityId>)
    ensures |r| <= |s|
  {
    if s == [] then []
    else (if s[0] == e then [] else [s[0]]) + Without(s[1..], e)
  }

  /** Removal deletes exactly the copies of `e`: every other id keeps its count. */
  lemma {:induction false} WithoutCount(s: seq<EntityId>, e: EntityId)
    ensures multiset(Without(s, e)) == multiset(s)[e := 0]
  {
    if s != [] {
      WithoutCount(s[1..], e);
      var head := if s[0] == e then [] else [s[0]];
      assert s == [s[0]] + s[1..];
      assert Without(s, e) == head + Without(s[1..], e);
      assert multiset(head) == multiset([s[0]])[e := 0];
      var a, b := multiset([s[0]]), multiset(s[1..]);
      assert (a + b)[e := 0] == a[e := 0] + b[e := 0];
    }
  }

  /** Removal deletes exactly the entries equal to `e` and keeps every other one. */
  lemma WithoutMembers(s: seq<EntityId>, e: EntityId)
    ensures forall x :: x in Without(s, e) <==> x in s && x != e
    ensures multiset(Without(s, e)) == multiset(s)[e := 0]
  {
    WithoutCount(s, e);
    forall x
      ensures x in Without(s, e) <==> x in s && x != e
    {
      assert x in Without(s, e) <==> x in multiset(Without(s, e));
      assert x in s <==> x in multiset(s);
    }
  }

  /**
   Removal works piece by piece: the survivors of a concatenation are the
   survivors of each part, in their original order.
   */
  lemma {:induction false} WithoutConcat(a: seq<EntityId>, b: seq<EntityId>, e: EntityId)
    ensures Without(a + b, e) == Without(a, e) + Without(b, e)
  {
    if a == [] {
      assert a + b == b;
    } else {
      assert (a + b)[1..] == a[1..] + b;
      WithoutConcat(a[1..], b, e);
    }
  }

  /** Every entry of `s` whose id is in `ds` deleted, one id at a time. */
  function WithoutAll(s: seq<EntityId>, ds: seq<EntityId>): (r: seq<EntityId>)
    ensures |r| <= |s|
    decreases |ds|
  {
    if ds == [] then s
    else Without(WithoutAll(s, ds[..|ds| - 1]), ds[|ds| - 1])
  }

  /** Removing one more id removes it from what the earlier ids left. */
  lemma WithoutAllAppend(ds: seq<EntityId>, e: EntityId)
    ensures forall s :: WithoutAll(s, ds + [e]) == Without(WithoutAll(s, ds), e)
  {
    assert (ds + [e])[..|ds|] == ds;
  }

  /** Removing a list of ids keeps exactly the entries not in the list. */
  lemma {:induction false} WithoutAllMembers(s: seq<EntityId>, ds: seq<EntityId>)
    ensures forall x :: x in WithoutAll(s, ds) <==> x in s && x !in ds
    decreases |ds|
  {
    if ds != [] {
      var last := ds[|ds| - 1];
      WithoutAllMembers(s, ds[..|ds| - 1]);
      WithoutMembers(WithoutAll(s, ds[..|ds| - 1]), last);
      assert ds == ds[..|ds| - 1] + [last];
    }
  }

  /**
   The entities of `es`, in order, whose id has a signature in `signatures`
   that the `required` signature matches.
   */
  function Matching(es: seq<EntityId>, signatures: seq<Signature>, required: Signature): (r: seq<EntityId>)
    ensures |r| <= |es|
    decreases |es|
  {
    if es == [] then []
    else
      var e := es[|es| - 1];
      Matching(es[..|es| - 1], signatures, required)
        + (if e < |signatures| && Matches(signatures[e], required) then [e] else [])
  }

  /** The matches are exactly the candidates whose signature the requirement matches. */
  lemma {:induction false} MatchingMembers(es: seq<EntityId>, signatures: seq<Signature>, required: Signature)
    ensures forall x :: x in Matching(es, signatures, required) <==>
      x in es && x < |signatures| && Matches(signatures[x], required)
    decreases |es|
  {
    if es != [] {
      MatchingMembers(es[..|es| - 1], signatures, required);
      assert es == es[..|es| - 1] + [es[|es| - 1]];
    }
  }

  /**
   Appending an entity to the candidates appends it to the matches iff it
   matches.
   */
  lemma MatchingAppend(es: seq<EntityId>, e: EntityId, signatures: seq<Signature>, required: Signature)
    ensures Matching(es + [e], signatures, required)
      == Matching(es, signatures, required)
         + (if e < |signatures| && Matches(signatures[e], required) then [e] else [])
  {
    assert (es + [e])[..|es|] == es;
  }

  /**
   A list that held `base` followed by the matches of `es`, and then had the
   next candidate `e` appended iff it matches, holds `base` followed by the
   matches of `es + [e]`.
   */
  lemma ExtendMatching(before: seq<EntityId>, after: seq<EntityId>, base: seq<EntityId>,
                       es: seq<EntityId>, e: EntityId, signatures: seq<Signature>, required: Signature)
    requires before == base + Matching(es, signatures, required)
    requires after == before + (if e < |signatures| && Matches(signatures[e], required) then [e] else [])
    ensures after == base + Matching(es + [e], signatures, required)
  {
    var tail := if e < |signatures| && Matches(signatures[e], required) then [e] else [];
    var earlier := Matching(es, signatures, required);
    MatchingAppend(es, e, signatures, required);
    assert base + earlier + tail == base + (earlier + tail);
  }

  /** The signature with one more required component (`bitset::set`). */
  function Require(required: Signature, c: ComponentId): (r: Signature)
    ensures c in r
    ensures forall d :: d != c ==> (d in r <==> d in required)
  {
    required + {c}
  }

  /** Requiring a component is idempotent. */
  lemma RequireIdempotent(required: Signature, c: ComponentId)
    ensures Require(Require(required, c), c) == Require(required, c)
  {
  }

  /**
   The list a flush leaves in a system: its entities, then the newly created
   ones it matches in ascending id order, with every destroyed entity
   deleted.
   */
  function Flushed(entities: seq<EntityId>, required: Signature, signatures: seq<Signature>,
                   created: set<EntityId>, destroyed: set<EntityId>): (r: seq<EntityId>)
    ensures |r| <= |entities| + |created|
  {
    WithoutAll(entities + Matching(Ascending(created), signatures, required), Ascending(destroyed))
  }

  /**
   After a flush a system lists exactly the entities it listed or that were
   created with a matching signature, minus the destroyed ones.
   */
  lemma FlushedMembers(entities: seq<EntityId>, required: Signature, signatures: seq<Signature>,
                       created: set<EntityId>, destroyed: set<EntityId>)
    ensures forall x :: x in Flushed(entities, required, signatures, created, destroyed) <==>
      && (x in entities || (x in created && x < |signatures| && Matches(signatures[x], required)))
      && x !in destroyed
  {
    var matched := Matching(Ascending(created), signatures, required);
    MatchingMembers(Ascending(created), signatures, required);
    WithoutAllMembers(entities + matched, Ascending(destroyed));
  }

  /**
   Creation is flushed before destruction, so an entity both created and
   destroyed before the same flush ends up in no system.
   */
  lemma CreatedAndDestroyedInNoSystem(entities: seq<EntityId>, required: Signature, signatures: seq<Signature>,
                                      created: set<EntityId>, destroyed: set<EntityId>, e: EntityId)
    requires e in created && e in destroyed
    ensures e !in Flushed(entities, required, signatures, created, destroyed)
  {
    FlushedMembers(entities, required, signatures, created, destroyed);
  }

  class System {
    var componentSignature: Signature
    var entities: seq<EntityId>

    /**
     A system as its constructor leaves it: it requires `required` (the
     constructor's `requireComponent` calls) and processes no entity yet.
     */
    constructor (required: Signature)
      ensures componentSignature == required && entities == []
    {
      componentSignature := required;
      entities := [];
    }

    /** `requireComponent`: turn on the component's bit. */
    method RequireComponent(c: ComponentId)
      modifies this
      ensures componentSignature == Require(old(componentSignature), c)
      ensures entities == old(entities)
    {
      componentSignature := Require(componentSignature, c);
    }

    /** `addEntityToSystem`: append, duplicates allowed. */
    method AddEntityToSystem(e: EntityId)
      modifies this`entities
      ensures entities == old(entities) + [e]
      ensures componentSignature == old(componentSignature)
    {
      entities := entities + [e];
    }

    /** `removeEntityToSystem`: delete every entry with the entity's id. */
    method RemoveEntityToSystem(e: EntityId)
      modifies this`entities
      ensures entities == Without(old(entities), e)
      ensures componentSignature == old(componentSignature)
    {
      entities := Without(entities, e);
    }

    /** `getSystemEntities`. */
    method GetSystemEntities() returns (r: seq<EntityId>)
      ensures r == entities
    {
      r := entities;
    }

    /** `getComponentSignature`. */
    method GetComponentSignature() returns (r: Signature)
      ensures r == componentSignature
    {
      r := componentSignature;
    }
  }
}

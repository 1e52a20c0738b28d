/**
 Component signatures (ECS.h, lines 14-21).

 A signature is a fixed-width bitset with one bit per component type. It is
 modelled as the set of the positions whose bit is on; a position is a
 component-type id, which must be below the bitset's width.
 */
module Signatures {

  /** The bitset width: at most this many distinct component types. */
  const MAX_COMPONENTS: nat := 32

  /** A component-type id that fits in a signature. */
  type ComponentId = c: nat | c < MAX_COMPONENTS

  /** The positions whose bit is set. */
  type Signature = set<ComponentId>

  /** The signature with every bit off (`std::bitset` default, and `reset()`). */
  const EMPTY: Signature := {}

  /** Bitwise AND of two signatures. */
  function And(a: Signature, b: Signature): (r: Signature)
    ensures forall c :: c in r <==> c in a && c in b
  {
    a * b
  }

  /**
   The matching rule: a system requiring `required` is interested in an entity
   with signature `entity` when `(entity & required) == required`, that is,
   when the entity has every required component.
   */
  predicate Matches(entity: Signature, required: Signature): (r: bool)
    ensures r <==> required <= entity
  {
    And(entity, required) == required
  }

  /**
   Extra components never disqualify an entity, and dropping a requirement
   never disqualifies one.
   */
  lemma MatchesMonotone(entity: Signature, more: Signature, required: Signature, fewer: Signature)
    requires fewer <= required
    ensures Matches(entity, required) ==> Matches(entity + more, fewer)
  {
  }
}

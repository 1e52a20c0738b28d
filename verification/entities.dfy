/**
 Entities (ECS.h, lines 23-56) and the ascending order in which the
 coordinator visits a `std::set<Entity>` (ECS.h:237-238).
 */
module Entities {

  /** An entity is only its id (`size_t`). */
  type EntityId = nat

  /** A bound below every element of `s - {y}` and below `y` is below all of `s`. */
  lemma BelowAll(s: set<EntityId>, y: EntityId, m: EntityId)
    requires y in s && m <= y
    requires forall x :: x in s - {y} ==> m <= x
    ensures forall x :: x in s ==> m <= x
  {
    forall x | x in s
      ensures m <= x
    {
      if x != y {
        assert x in s - {y};
      }
    }
  }

  /** A smallest element of a non-empty set of ids, found by recursion. */
  ghost function LeastWitness(s: set<EntityId>): (m: EntityId)
    requires s != {}
    ensures m in s
    ensures forall x :: x in s ==> m <= x
    decreases s
  {
    var y :| y in s;
    if s - {y} == {} then
      BelowAll(s, y, y);
      y
    else
      var m := LeastWitness(s - {y});
      if y <= m then
        BelowAll(s, y, y);
        y
      else
        BelowAll(s, y, m);
        m
  }

  /** The smallest id of a non-empty set. */
  function Least(s: set<EntityId>): (m: EntityId)
    requires s != {}
    ensures m in s
    ensures forall x :: x in s ==> m <= x
  {
    var w := LeastWitness(s);
    assert w in s && forall x :: x in s ==> w <= x;
    var m :| m in s && forall x :: x in s ==> m <= x;
    m
  }

  /**
   The ids of `s` in the order an ordered set iterates them: smallest first.
   That this lists every id once and in strictly ascending order is
   `AscendingIsIncreasing`.
   */
  function Ascending(s: set<EntityId>): (r: seq<EntityId>)
    ensures forall x :: x in r <==> x in s
    ensures |r| == |s|
    decreases |s|
  {
    if s == {} then []
    else
      var m := Least(s);
      [m] + Ascending(s - {m})
  }

  /** Each id is smaller than every later one. */
  ghost predicate StrictlyIncreasing(r: seq<EntityId>)
  {
    forall i, j :: 0 <= i < j < |r| ==> r[i] < r[j]
  }

  /** An id below a strictly increasing list can go in front of it. */
  lemma PrependIncreasing(m: EntityId, t: seq<EntityId>)
    requires StrictlyIncreasing(t)
    requires forall i :: 0 <= i < |t| ==> m < t[i]
    ensures StrictlyIncreasing([m] + t)
  {
    var r := [m] + t;
    forall i, j | 0 <= i < j < |r|
      ensures r[i] < r[j]
    {
      assert r[j] == t[j - 1];
      if 0 < i {
        assert r[i] == t[i - 1];
      }
    }
  }

  /** An ordered set iterates its ids in strictly ascending order. */
  lemma {:induction false} AscendingIsIncreasing(s: set<EntityId>)
    ensures StrictlyIncreasing(Ascending(s))
    decreases |s|
  {
    if s != {} {
      var m := Least(s);
      var t := Ascending(s - {m});
      AscendingIsIncreasing(s - {m});
      forall i | 0 <= i < |t|
        ensures m < t[i]
      {
        assert t[i] in s - {m};
      }
      PrependIncreasing(m, t);
    }
  }
}

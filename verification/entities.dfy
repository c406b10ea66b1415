/**
 * Graph nodes and the registry that owns them.
 *
 * An entity is referred to by its position in the registry, never by its
 * identifier: identifiers read from the input need not be unique, and the
 * chain operations compare entities by reference.
 */
module Entities {

  /** The position of an entity in its registry. */
  type EntityRef = nat

  /** A node: the identifier read from the input and the entities it depends
      on, in the order the dependencies were discovered. */
  datatype Entity = Entity(id: int, deps: seq<EntityRef>)

  /** All entities, in creation order. */
  type Registry = seq<Entity>

  /** Every dependency refers to an entity of the registry. */
  predicate ValidRegistry(g: Registry) {
    forall k, j :: 0 <= k < |g| && 0 <= j < |g[k].deps| ==> g[k].deps[j] < |g|
  }

  /** No dependency list mentions the same entity twice. */
  predicate DistinctDeps(g: Registry) {
    forall k, i, j :: 0 <= k < |g| && 0 <= i < j < |g[k].deps| ==> g[k].deps[i] != g[k].deps[j]
  }

  /** The identifiers of the registry's entities, in registry order. */
  function Ids(g: Registry): (r: seq<int>)
    ensures |r| == |g|
    ensures forall k :: 0 <= k < |g| ==> r[k] == g[k].id
  {
    seq(|g|, k requires 0 <= k < |g| => g[k].id)
  }

  /** No entity depends on anything. */
  predicate NoEdges(g: Registry) {
    forall k :: 0 <= k < |g| ==> |g[k].deps| == 0
  }
}

/**
 * A dependency chain: a path of entities in which each entity is a
 * dependency of the one before it, with the predicates the cycle search
 * asks of it (cycled? contains a sub-cycle?) and equivalence of two
 * cycles up to rotation.
 */
module DependencyChains {
  import opened Wrappers
  import opened Entities

  /** The entities of a chain, first to last. */
  type Chain = seq<EntityRef>

  /** Why a chain refused to grow. */
  datatype ChainError =
    | EntityCannotFollow(entity: EntityRef)
    | ChainCannotFollow(head: EntityRef)

  /** Every entity of the chain belongs to the registry. */
  predicate InRegistry(g: Registry, c: Chain) {
    forall k :: 0 <= k < |c| ==> c[k] < |g|
  }

  /** Each entity of the chain after the first is a dependency of its predecessor. */
  predicate IsWalk(g: Registry, c: Chain) {
    InRegistry(g, c) && forall k :: 0 < k < |c| ==> c[k] in g[c[k - 1]].deps
  }

  // ---------------------------------------------------------------------------
  // Growing a chain
  // ---------------------------------------------------------------------------

  /** The dependencies of the chain's last entity; nothing for an empty chain. */
  function GetDependenciesList(g: Registry, c: Chain): (r: seq<EntityRef>)
    requires InRegistry(g, c)
    ensures |c| == 0 ==> r == []
    ensures |c| > 0 ==> r == g[c[|c| - 1]].deps
  {
    if |c| == 0 then [] else g[c[|c| - 1]].deps
  }

  /** Appends `e`, which must be a dependency of the last entity unless the chain is empty. */
  function Add(g: Registry, c: Chain, e: EntityRef): (r: Result<Chain, ChainError>)
    requires InRegistry(g, c)
    ensures |c| == 0 ==> r == Success([e])
    ensures r.Failure? <==> |c| > 0 && e !in g[c[|c| - 1]].deps
    ensures r.Success? ==> |r.value| == |c| + 1 && c <= r.value && r.value[|c|] == e
  {
    if |c| > 0 && e !in GetDependenciesList(g, c) then Failure(EntityCannotFollow(e))
    else
      assert |c| == 0 ==> c + [e] == [e];
      Success(c + [e])
  }

  /** Appending to a walk keeps it a walk whenever `Add` accepts the entity. */
  lemma AddKeepsWalk(g: Registry, c: Chain, e: EntityRef)
    requires IsWalk(g, c) && e < |g|
    ensures Add(g, c, e).Success? ==> IsWalk(g, Add(g, c, e).value)
  {
    WalkAppend(g, c, e);
  }

  /** A chain extended by `e` is a walk exactly when the chain is one and `e`
      may follow it: `e` belongs to the registry and, unless the chain is
      empty, is among the dependencies of its tail. */
  lemma {:induction false} WalkAppend(g: Registry, c: Chain, e: EntityRef)
    ensures IsWalk(g, c + [e]) <==> IsWalk(g, c) && e < |g| && (|c| == 0 || e in GetDependenciesList(g, c))
  {
    var x := c + [e];
    assert forall k :: 0 <= k < |c| ==> x[k] == c[k];
    assert x[|c|] == e;
  }

  /** Appending to a non-empty chain closes it exactly when the appended
      entity is the chain's first one. */
  lemma AddClosesCycle(g: Registry, c: Chain, e: EntityRef)
    requires InRegistry(g, c) && 0 < |c| && Add(g, c, e).Success?
    ensures IsCycled(Add(g, c, e).value) <==> e == c[0]
  {
  }

  /** Appends the whole of `dc`; only its first entity is checked against the chain's tail.
      The first entity of `dc` is read only when this chain is non-empty. */
  function AddDependencyChain(g: Registry, c: Chain, dc: Chain): (r: Result<Chain, ChainError>)
    requires InRegistry(g, c)
    requires |c| > 0 ==> |dc| > 0
    ensures |c| == 0 ==> r == Success(dc)
    ensures r.Failure? <==> |c| > 0 && dc[0] !in g[c[|c| - 1]].deps
    ensures r.Success? ==> |r.value| == |c| + |dc| && c <= r.value && r.value[|c|..] == dc
  {
    if |c| > 0 && dc[0] !in GetDependenciesList(g, c) then Failure(ChainCannotFollow(dc[0]))
    else
      assert |c| == 0 ==> c + dc == dc;
      Success(c + dc)
  }

  /** Joining two walks at a checked junction gives a walk. */
  lemma {:induction false} AddDependencyChainKeepsWalk(g: Registry, c: Chain, dc: Chain)
    requires IsWalk(g, c) && IsWalk(g, dc)
    requires |c| > 0 ==> |dc| > 0
    ensures AddDependencyChain(g, c, dc).Success? ==> IsWalk(g, AddDependencyChain(g, c, dc).value)
  {
    if AddDependencyChain(g, c, dc).Success? {
      var r := c + dc;
      forall k | 0 < k < |r|
        ensures r[k] in g[r[k - 1]].deps
      {
        if k > |c| {
          assert r[k] == dc[k - |c|] && r[k - 1] == dc[k - 1 - |c|];
        } else if k < |c| {
          assert r[k] == c[k] && r[k - 1] == c[k - 1];
        }
      }
    }
  }

  /** Appending a one-entity chain is the same as appending the entity. */
  lemma AddDependencyChainSingleton(g: Registry, c: Chain, e: EntityRef)
    requires InRegistry(g, c)
    ensures AddDependencyChain(g, c, [e]).Success? <==> Add(g, c, e).Success?
    ensures Add(g, c, e).Success? ==> AddDependencyChain(g, c, [e]) == Add(g, c, e)
  {
  }

  // ---------------------------------------------------------------------------
  // Cycles and sub-cycles
  // ---------------------------------------------------------------------------

  /** The first entity is the last one. A one-entity chain is therefore cycled. */
  function IsCycled(c: Chain): (r: bool)
    requires |c| > 0
    ensures |c| == 1 ==> r
  {
    c[0] == c[|c| - 1]
  }

  /** The two windows of length `len` that the sub-cycle scan compares at
      `start`: [start, start+len) and [start+len+1, start+2*len+1). Exactly
      one entity sits between them. */
  predicate WindowsMatch(c: Chain, len: nat, start: nat)
    requires start + 2 * len + 1 <= |c|
  {
    c[start..start + len] == c[start + len + 1..start + 2 * len + 1]
  }

  /** A "parasitic" repeat: some window length of at least 2 and some start
      inside the scan's bounds whose two windows agree. */
  ghost predicate HasGappedRepeat(c: Chain) {
    exists len: nat, start: nat :: 2 <= len && start < |c| - 2 * len && WindowsMatch(c, len, start)
  }

  /** The inner loop of the sub-cycle scan: starts from `start` up to (excluding) |c| - 2*len. */
  function ScanStarts(c: Chain, len: nat, start: nat): (r: bool)
    ensures r <==> exists s: nat :: start <= s < |c| - 2 * len && WindowsMatch(c, len, s)
    decreases |c| - start
  {
    if start >= |c| - 2 * len then false
    else WindowsMatch(c, len, start) || ScanStarts(c, len, start + 1)
  }

  /** The outer loop of the sub-cycle scan: window lengths from `len` up to (excluding) |c|. */
  function ScanLengths(c: Chain, len: nat): (r: bool)
    requires 2 <= len
    ensures r <==> exists l: nat, s: nat :: len <= l && s < |c| - 2 * l && WindowsMatch(c, l, s)
    decreases |c| - len
  {
    if len >= |c| then false
    else ScanStarts(c, len, 0) || ScanLengths(c, len + 1)
  }

  /** Does the chain contain a repeated window, two equal runs one entity apart? */
  function ContainSubCycles(c: Chain): (r: bool)
    ensures r <==> HasGappedRepeat(c)
    ensures |c| <= 4 ==> !r
  {
    ScanLengths(c, 2)
  }

  // ---------------------------------------------------------------------------
  // Equivalence as cycles
  // ---------------------------------------------------------------------------

  /** `s` rotated left by `i`: s[i..] followed by s[..i]. */
  function Rotate(s: Chain, i: nat): (r: Chain)
    requires i <= |s|
    ensures |r| == |s|
    ensures forall k :: 0 <= k < |s| ==> r[k] == if k + i < |s| then s[k + i] else s[k + i - |s|]
  {
    s[i..] + s[..i]
  }

  /** The cycle without its closing entity. */
  function PureCycle(c: Chain): (r: Chain)
    requires |c| > 0
    ensures |r| == |c| - 1 && r <= c
  {
    c[..|c| - 1]
  }

  /** The rotation loop of `EqualsAsCycles`, from offset `from` on. */
  function MatchesRotationFrom(pa: Chain, pb: Chain, from: nat): (r: bool)
    ensures r <==> exists i: nat :: from <= i < |pb| && pa == Rotate(pb, i)
    decreases |pb| - from
  {
    if from >= |pb| then false
    else pa == Rotate(pb, from) || MatchesRotationFrom(pa, pb, from + 1)
  }

  /** Two cycles of the same size are equivalent when the first, without its
      closing entity, is a rotation of the second by an offset smaller than
      that length. Direction matters: reversal is not equivalence. Both chains
      are inspected only when their sizes agree. */
  function EqualsAsCycles(a: Chain, b: Chain): (r: bool)
    requires |a| == |b| ==> |a| > 0
    ensures r <==> |a| == |b| && IsCycled(a) && IsCycled(b)
                   && exists i: nat :: i < |a| - 1 && PureCycle(a) == Rotate(PureCycle(b), i)
    ensures |a| <= 1 ==> !r
  {
    if |a| != |b| || !IsCycled(a) || !IsCycled(b) then false
    else MatchesRotationFrom(PureCycle(a), PureCycle(b), 0)
  }

  /** Rotating by `i` and then by the complement gives back the original. */
  lemma {:induction false} RotateInverse(s: Chain, i: nat)
    requires 0 < i < |s|
    ensures Rotate(Rotate(s, i), |s| - i) == s
  {
    var t := Rotate(s, i);
    assert t[..|s| - i] == s[i..];
    assert t[|s| - i..] == s[..i];
    assert s[..i] + s[i..] == s;
  }

  /** Two rotations compose into one, offsets adding modulo the length. */
  lemma {:induction false} RotateCompose(s: Chain, i: nat, j: nat)
    requires i < |s| && j < |s|
    ensures Rotate(Rotate(s, i), j) == Rotate(s, if i + j < |s| then i + j else i + j - |s|)
  {
    var lhs := Rotate(Rotate(s, i), j);
    var rhs := Rotate(s, if i + j < |s| then i + j else i + j - |s|);
    forall k | 0 <= k < |s|
      ensures lhs[k] == rhs[k]
    {
    }
  }

  /** Equivalence as cycles is symmetric. */
  lemma {:induction false} EqualsAsCyclesSymmetric(a: Chain, b: Chain)
    requires |a| == |b| ==> |a| > 0
    ensures EqualsAsCycles(a, b) <==> EqualsAsCycles(b, a)
  {
    if EqualsAsCycles(a, b) {
      EquivalentBack(a, b);
    }
    if EqualsAsCycles(b, a) {
      EquivalentBack(b, a);
    }
  }

  /** One direction of symmetry: the witness offset is the complement of the forward one. */
  lemma {:induction false} EquivalentBack(a: Chain, b: Chain)
    requires |a| == |b| ==> |a| > 0
    requires EqualsAsCycles(a, b)
    ensures EqualsAsCycles(b, a)
  {
    var pa, pb := PureCycle(a), PureCycle(b);
    var i: nat :| i < |a| - 1 && pa == Rotate(pb, i);
    if i == 0 {
      assert pb == Rotate(pa, 0);
    } else {
      RotateInverse(pb, i);
      assert pb == Rotate(pa, |pb| - i);
    }
  }

  /** A cycled chain of two or more entities is equivalent to itself (offset 0). */
  lemma {:induction false} EqualsAsCyclesReflexive(a: Chain)
    requires |a| >= 2 && IsCycled(a)
    ensures EqualsAsCycles(a, a)
  {
    assert PureCycle(a) == Rotate(PureCycle(a), 0);
  }

  /** A chain is equivalent to itself exactly when it is cycled and has at
      least two entities. */
  lemma {:induction false} SelfEquivalentIffCycled(a: Chain)
    requires 0 < |a|
    ensures EqualsAsCycles(a, a) <==> 2 <= |a| && IsCycled(a)
  {
    if 2 <= |a| && IsCycled(a) {
      EqualsAsCyclesReflexive(a);
    }
  }

  /** Equivalence as cycles is transitive. */
  lemma {:induction false} EqualsAsCyclesTransitive(a: Chain, b: Chain, c: Chain)
    requires |a| > 0 && |b| > 0 && |c| > 0
    requires EqualsAsCycles(a, b) && EqualsAsCycles(b, c)
    ensures EqualsAsCycles(a, c)
  {
    var pa, pb, pc := PureCycle(a), PureCycle(b), PureCycle(c);
    var i: nat :| i < |a| - 1 && pa == Rotate(pb, i);
    var j: nat :| j < |b| - 1 && pb == Rotate(pc, j);
    RotateCompose(pc, j, i);
    var k: nat := if j + i < |pc| then j + i else j + i - |pc|;
    assert pa == Rotate(pc, k);
  }

  // ---------------------------------------------------------------------------
  // Equality
  // ---------------------------------------------------------------------------

  /** Chains are equal when they hold the same entities in the same order,
      compared element by element. */
  method ChainEquals(a: Chain, b: Chain) returns (r: bool)
    ensures r <==> a == b
  {
    if |a| != |b| {
      return false;
    }
    var k := 0;
    while k < |a|
      invariant 0 <= k <= |a|
      invariant a[..k] == b[..k]
    {
      if a[k] != b[k] {
        return false;
      }
      k := k + 1;
    }
    assert a == a[..k] && b == b[..k];
    return true;
  }
}

/**
 * The cycle search: every dependency edge seeds a two-entity chain, each
 * chain is extended entity by entity until it closes on its first entity
 * or shows a parasitic repeat, and the closed chains are then reduced to
 * one representative per rotation class.
 *
 * The search is exhaustive and not evidently terminating, so it carries a
 * `fuel` bound on the extension depth; a branch that runs out of fuel
 * contributes nothing.
 */
module Researcher {
  import opened Wrappers
  import opened Entities
  import opened DependencyChains

  // ---------------------------------------------------------------------------
  // Recursive path extension
  // ---------------------------------------------------------------------------

  /** `x` is what the search can return from `c`: it extends `c`, it is
      cycled, and every chain the search passed through on the way (from `c`
      itself up to, but excluding, `x`) was neither cycled nor contained a
      sub-cycle. */
  ghost predicate ClosedBySearch(c: Chain, x: Chain) {
    && 0 < |c|
    && c <= x
    && IsCycled(x)
    && forall j :: |c| <= j < |x| ==> !IsCycled(x[..j]) && !ContainSubCycles(x[..j])
  }

  /** If `x` is reachable from `c + [d]`, and `c` itself was neither cycled nor
      had a sub-cycle, then `x` is reachable from `c`. */
  lemma {:induction false} ClosedBySearchStep(c: Chain, d: EntityRef, x: Chain)
    requires 0 < |c| && !IsCycled(c) && !ContainSubCycles(c)
    requires ClosedBySearch(c + [d], x)
    ensures ClosedBySearch(c, x)
  {
    assert c <= c + [d];
    assert x[..|c|] == c;
  }

  /** All chains returned by the search from `c` ... */
  ghost predicate AllClosedBySearch(g: Registry, c: Chain, rs: seq<Chain>) {
    forall k :: 0 <= k < |rs| ==> ClosedBySearch(c, rs[k]) && InRegistry(g, rs[k])
  }

  /** ... and, when `c` is a walk, each of them is a walk too. */
  ghost predicate AllWalksIfWalk(g: Registry, c: Chain, rs: seq<Chain>) {
    IsWalk(g, c) ==> forall k :: 0 <= k < |rs| ==> IsWalk(g, rs[k])
  }

  /** The cycles reachable from `c`: `c` itself if it is cycled, nothing if it
      contains a sub-cycle, and otherwise the cycles reachable from `c`
      extended by each dependency of its tail, in dependency order. */
  function GetChildCycles(g: Registry, c: Chain, fuel: nat): (r: seq<Chain>)
    requires ValidRegistry(g) && InRegistry(g, c) && 0 < |c|
    ensures IsCycled(c) ==> r == [c]
    ensures !IsCycled(c) && ContainSubCycles(c) ==> r == []
    ensures AllClosedBySearch(g, c, r)
    ensures AllWalksIfWalk(g, c, r)
    decreases fuel, 1
  {
    if IsCycled(c) then [c]
    else if ContainSubCycles(c) then []
    else if fuel == 0 then []
    else ExtendEach(g, c, 0, fuel)
  }

  /** The loop over the tail's dependencies from position `i` on: each one is
      appended to a copy of `c` and the search recurses on the copy. */
  function ExtendEach(g: Registry, c: Chain, i: nat, fuel: nat): (r: seq<Chain>)
    requires ValidRegistry(g) && InRegistry(g, c) && 0 < |c|
    requires !IsCycled(c) && !ContainSubCycles(c)
    requires 0 < fuel
    requires i <= |GetDependenciesList(g, c)|
    ensures AllClosedBySearch(g, c, r)
    ensures AllWalksIfWalk(g, c, r)
    decreases fuel, 0, |GetDependenciesList(g, c)| - i
  {
    var deps := GetDependenciesList(g, c);
    if i == |deps| then []
    else
      match Add(g, c, deps[i])
      case Failure(_) => assert false; []
      case Success(next) =>
        assert next == c + [deps[i]];
        var head := GetChildCycles(g, next, fuel - 1);
        var rest := ExtendEach(g, c, i + 1, fuel);
        ExtendedAllClosed(g, c, deps[i], head);
        head + rest
  }

  /** The results found from `c + [d]` are results from `c`. */
  lemma {:induction false} ExtendedAllClosed(g: Registry, c: Chain, d: EntityRef, head: seq<Chain>)
    requires ValidRegistry(g) && InRegistry(g, c) && 0 < |c| && !IsCycled(c) && !ContainSubCycles(c)
    requires d in g[c[|c| - 1]].deps
    requires AllClosedBySearch(g, c + [d], head)
    requires AllWalksIfWalk(g, c + [d], head)
    ensures AllClosedBySearch(g, c, head)
    ensures AllWalksIfWalk(g, c, head)
  {
    forall k | 0 <= k < |head|
      ensures ClosedBySearch(c, head[k])
    {
      ClosedBySearchStep(c, d, head[k]);
    }
    if IsWalk(g, c) {
      AddKeepsWalk(g, c, d);
      assert IsWalk(g, c + [d]);
    }
  }

  // ---------------------------------------------------------------------------
  // Removing rotations of cycles already found
  // ---------------------------------------------------------------------------

  /** Every chain of the list is non-empty, so that it can be asked whether it is cycled. */
  predicate AllNonEmpty(cs: seq<Chain>) {
    forall k :: 0 <= k < |cs| ==> 0 < |cs[k]|
  }

  /** The number of leading cycled chains: where the deduplication stops. */
  function CycledPrefix(cs: seq<Chain>): (n: nat)
    requires AllNonEmpty(cs)
    ensures n <= |cs|
    ensures forall k :: 0 <= k < n ==> IsCycled(cs[k])
    ensures n < |cs| ==> !IsCycled(cs[n])
  {
    if |cs| == 0 || !IsCycled(cs[0]) then 0 else 1 + CycledPrefix(cs[1..])
  }

  /** `xs` is `ys` with some elements left out, order kept. */
  ghost predicate Subsequence(xs: seq<Chain>, ys: seq<Chain>)
    decreases |ys|
  {
    || |xs| == 0
    || (0 < |ys| && ((xs[0] == ys[0] && Subsequence(xs[1..], ys[1..])) || Subsequence(xs, ys[1..])))
  }

  /** Some chain of `kept` is equivalent as a cycle to `c`: the inner search loop of the deduplication. */
  predicate HasEquivalent(kept: seq<Chain>, c: Chain)
    requires 0 < |c|
  {
    exists k :: 0 <= k < |kept| && EqualsAsCycles(c, kept[k])
  }

  /** `c` was either kept or has an equivalent among the kept chains. */
  predicate Represented(kept: seq<Chain>, c: Chain)
    requires 0 < |c|
  {
    c in kept || HasEquivalent(kept, c)
  }

  /** Cycled chains, none equivalent to an earlier one. */
  predicate DistinctCycles(cs: seq<Chain>) {
    && (forall k :: 0 <= k < |cs| ==> 0 < |cs[k]| && IsCycled(cs[k]))
    && (forall i, j :: 0 <= i < j < |cs| ==> !EqualsAsCycles(cs[j], cs[i]))
  }

  /** `cs[m]` opens a new rotation class: it is equivalent neither to a chain
      of `kept` nor to a chain before it in `cs`. */
  predicate OpensClass(kept: seq<Chain>, cs: seq<Chain>, m: nat)
    requires AllNonEmpty(cs) && m < |cs|
  {
    && !HasEquivalent(kept, cs[m])
    && forall p :: 0 <= p < m ==> !EqualsAsCycles(cs[m], cs[p])
  }

  /** The first `n` chains of `cs`, in order, keeping exactly those that
      open a new rotation class: what deduplication should return. */
  function FirstOfClass(kept: seq<Chain>, cs: seq<Chain>, n: nat): seq<Chain>
    requires AllNonEmpty(cs) && n <= |cs|
  {
    if n == 0 then []
    else FirstOfClass(kept, cs, n - 1) + (if OpensClass(kept, cs, n - 1) then [cs[n - 1]] else [])
  }

  /** Whether a later chain opens a class is the same when its first chain is
      moved into `kept` (if it opened a class itself) or dropped (if not). */
  lemma OpensClassShift(kept: seq<Chain>, cs: seq<Chain>, m: nat)
    requires AllNonEmpty(cs) && 0 < m < |cs|
    ensures AllNonEmpty(cs[1..])
    ensures var kept' := if HasEquivalent(kept, cs[0]) then kept else kept + [cs[0]];
            OpensClass(kept, cs, m) <==> OpensClass(kept', cs[1..], m - 1)
  {
    var c, x, rest := cs[0], cs[m], cs[1..];
    assert forall k :: 0 <= k < |rest| ==> rest[k] == cs[k + 1];
    assert x == rest[m - 1];
    if HasEquivalent(kept, c) {
      if !HasEquivalent(kept, x) && EqualsAsCycles(x, c) {
        var k :| 0 <= k < |kept| && EqualsAsCycles(c, kept[k]);
        EqualsAsCyclesTransitive(x, c, kept[k]);
      }
    } else {
      var k' := kept + [c];
      assert forall k :: 0 <= k < |kept| ==> k'[k] == kept[k];
      assert k'[|kept|] == c;
    }
  }

  /** The reference read from the front: the first chain, if it opens a
      class, followed by the reference on the rest with `kept` updated. */
  lemma {:induction false} FirstOfClassShift(kept: seq<Chain>, kept': seq<Chain>, head: seq<Chain>, cs: seq<Chain>, n: nat)
    requires AllNonEmpty(cs) && n < |cs|
    requires head == if HasEquivalent(kept, cs[0]) then [] else [cs[0]]
    requires kept' == kept + head
    requires AllNonEmpty(cs[1..])
    ensures FirstOfClass(kept, cs, n + 1) == head + FirstOfClass(kept', cs[1..], n)
    decreases n
  {
    if n == 0 {
      FirstOfClassOne(kept, cs, head);
      assert FirstOfClass(kept', cs[1..], 0) == [];
    } else {
      FirstOfClassShift(kept, kept', head, cs, n - 1);
      FirstOfClassShiftStep(kept, kept', head, cs, n);
    }
  }

  /** The reference on one chain: that chain if it has no equivalent in `kept`. */
  lemma FirstOfClassOne(kept: seq<Chain>, cs: seq<Chain>, head: seq<Chain>)
    requires AllNonEmpty(cs) && 0 < |cs|
    requires head == if HasEquivalent(kept, cs[0]) then [] else [cs[0]]
    ensures FirstOfClass(kept, cs, 1) == head + []
  {
    assert FirstOfClass(kept, cs, 0) == [];
    assert OpensClass(kept, cs, 0) == !HasEquivalent(kept, cs[0]);
  }

  /** The inductive step of `FirstOfClassShift`: both sides gain the same
      last chain. */
  lemma FirstOfClassShiftStep(kept: seq<Chain>, kept': seq<Chain>, head: seq<Chain>, cs: seq<Chain>, n: nat)
    requires AllNonEmpty(cs) && 0 < n < |cs| && AllNonEmpty(cs[1..])
    requires head == if HasEquivalent(kept, cs[0]) then [] else [cs[0]]
    requires kept' == kept + head
    requires FirstOfClass(kept, cs, n) == head + FirstOfClass(kept', cs[1..], n - 1)
    ensures FirstOfClass(kept, cs, n + 1) == head + FirstOfClass(kept', cs[1..], n)
  {
    OpensClassShift(kept, cs, n);
    assert kept' == if HasEquivalent(kept, cs[0]) then kept else kept + [cs[0]];
    assert cs[1..][n - 1] == cs[n];
    var tail: seq<Chain> := if OpensClass(kept, cs, n) then [cs[n]] else [];
    var a := FirstOfClass(kept', cs[1..], n - 1);
    assert FirstOfClass(kept', cs[1..], n) == a + tail;
    assert FirstOfClass(kept, cs, n + 1) == FirstOfClass(kept, cs, n) + tail;
    assert head + a + tail == head + (a + tail);
  }

  /** The deduplication loop from `cycles` on, with `kept` accepted so far:
      stops at the first chain that is not cycled, skips a chain equivalent to
      one already kept, and keeps every other chain. */
  function RemoveDoublesFrom(cycles: seq<Chain>, kept: seq<Chain>): (r: seq<Chain>)
    requires AllNonEmpty(cycles)
    requires DistinctCycles(kept)
    ensures kept <= r
    ensures Subsequence(r[|kept|..], cycles[..CycledPrefix(cycles)])
    ensures DistinctCycles(r)
    ensures forall k :: 0 <= k < CycledPrefix(cycles) ==> Represented(r, cycles[k])
    ensures r == kept + FirstOfClass(kept, cycles, CycledPrefix(cycles))
    decreases |cycles|
  {
    if |cycles| == 0 || !IsCycled(cycles[0]) then
      assert kept[|kept|..] == [];
      assert kept + [] == kept;
      kept
    else
      var c := cycles[0];
      var kept' := if HasEquivalent(kept, c) then kept else kept + [c];
      var r := RemoveDoublesFrom(cycles[1..], kept');
      RemoveDoublesStep(cycles, kept, kept', r);
      RemoveDoublesMatchesReference(cycles, kept, kept', r);
      r
  }

  /** The step of the equality between the loop and its reference. */
  lemma RemoveDoublesMatchesReference(cycles: seq<Chain>, kept: seq<Chain>, kept': seq<Chain>, r: seq<Chain>)
    requires AllNonEmpty(cycles) && 0 < |cycles| && IsCycled(cycles[0]) && AllNonEmpty(cycles[1..])
    requires kept' == if HasEquivalent(kept, cycles[0]) then kept else kept + [cycles[0]]
    requires r == kept' + FirstOfClass(kept', cycles[1..], CycledPrefix(cycles[1..]))
    ensures r == kept + FirstOfClass(kept, cycles, CycledPrefix(cycles))
  {
    var n := CycledPrefix(cycles[1..]);
    assert CycledPrefix(cycles) == n + 1;
    var head: seq<Chain> := if HasEquivalent(kept, cycles[0]) then [] else [cycles[0]];
    KeptHead(kept, kept', head, cycles[0]);
    FirstOfClassShift(kept, kept', head, cycles, n);
    ConcatShift(kept, head, FirstOfClass(kept', cycles[1..], n));
  }

  /** The kept list after one pass is the kept list before it followed by
      what the pass kept. */
  lemma KeptHead(kept: seq<Chain>, kept': seq<Chain>, head: seq<Chain>, c: Chain)
    requires 0 < |c|
    requires kept' == if HasEquivalent(kept, c) then kept else kept + [c]
    requires head == if HasEquivalent(kept, c) then [] else [c]
    ensures kept' == kept + head
  {
    if HasEquivalent(kept, c) {
      assert kept + [] == kept;
    }
  }

  /** Moving a block from the end of one part to the front of the next. */
  lemma ConcatShift(a: seq<Chain>, b: seq<Chain>, c: seq<Chain>)
    ensures (a + b) + c == a + (b + c)
  {
  }

  /** One step of the deduplication loop preserves its postcondition. */
  lemma {:induction false} RemoveDoublesStep(cycles: seq<Chain>, kept: seq<Chain>, kept': seq<Chain>, r: seq<Chain>)
    requires AllNonEmpty(cycles) && 0 < |cycles| && IsCycled(cycles[0])
    requires kept' == if HasEquivalent(kept, cycles[0]) then kept else kept + [cycles[0]]
    requires kept' <= r
    requires Subsequence(r[|kept'|..], cycles[1..][..CycledPrefix(cycles[1..])])
    requires forall k :: 0 <= k < CycledPrefix(cycles[1..]) ==> Represented(r, cycles[1..][k])
    ensures Subsequence(r[|kept|..], cycles[..CycledPrefix(cycles)])
    ensures forall k :: 0 <= k < CycledPrefix(cycles) ==> Represented(r, cycles[k])
  {
    var n := CycledPrefix(cycles[1..]);
    assert CycledPrefix(cycles) == n + 1;
    RemoveDoublesStepOrder(cycles, kept, kept', r, n);
    RemoveDoublesStepCover(cycles, kept, kept', r, n);
  }

  /** The kept chains stay a subsequence of the input up to the stop point. */
  lemma {:induction false} RemoveDoublesStepOrder(cycles: seq<Chain>, kept: seq<Chain>, kept': seq<Chain>, r: seq<Chain>, n: nat)
    requires AllNonEmpty(cycles) && 0 < |cycles| && n < |cycles|
    requires kept' == if HasEquivalent(kept, cycles[0]) then kept else kept + [cycles[0]]
    requires kept' <= r
    requires Subsequence(r[|kept'|..], cycles[1..][..n])
    ensures Subsequence(r[|kept|..], cycles[..n + 1])
  {
    var c := cycles[0];
    assert cycles[..n + 1] == [c] + cycles[1..][..n];
    if kept' == kept {
      SubsequenceSkip(r[|kept|..], c, cycles[1..][..n]);
    } else {
      assert r[|kept|] == c;
      assert r[|kept|..][1..] == r[|kept'|..];
    }
  }

  /** Every chain up to the stop point stays represented. */
  lemma {:induction false} RemoveDoublesStepCover(cycles: seq<Chain>, kept: seq<Chain>, kept': seq<Chain>, r: seq<Chain>, n: nat)
    requires AllNonEmpty(cycles) && 0 < |cycles| && n < |cycles|
    requires kept' == if HasEquivalent(kept, cycles[0]) then kept else kept + [cycles[0]]
    requires kept' <= r
    requires forall k :: 0 <= k < n ==> Represented(r, cycles[1..][k])
    ensures forall k :: 0 <= k < n + 1 ==> Represented(r, cycles[k])
  {
    var c := cycles[0];
    if HasEquivalent(kept, c) {
      var m :| 0 <= m < |kept| && EqualsAsCycles(c, kept[m]);
      assert r[m] == kept[m];
      assert HasEquivalent(r, c);
    } else {
      assert r[|kept|] == c;
    }
    forall k | 0 < k < n + 1
      ensures Represented(r, cycles[k])
    {
      assert cycles[k] == cycles[1..][k - 1];
    }
  }

  /** A subsequence of `ys` is a subsequence of `ys` with anything in front. */
  lemma {:induction false} SubsequenceSkip(xs: seq<Chain>, y: Chain, ys: seq<Chain>)
    requires Subsequence(xs, ys)
    ensures Subsequence(xs, [y] + ys)
  {
    assert ([y] + ys)[1..] == ys;
  }

  /** Every chain of `r` from position `from` on is the first chain of its
      rotation class among the first `n` input chains: whichever of those
      it is equivalent to, an input chain no later than that one is it. */
  ghost predicate KeptFirst(r: seq<Chain>, from: nat, cycles: seq<Chain>, n: nat) {
    forall i, m :: from <= i < |r| && 0 <= m < n && m < |cycles| && 0 < |r[i]| && EqualsAsCycles(r[i], cycles[m]) ==>
      exists p :: 0 <= p <= m && cycles[p] == r[i]
  }

  /** Every one of the first `n` input chains that is equivalent neither to
      a chain of `kept` nor to an earlier input chain appears in `r`. */
  ghost predicate KeepsFresh(r: seq<Chain>, kept: seq<Chain>, cycles: seq<Chain>, n: nat) {
    forall m ::
      (&& 0 <= m < n && m < |cycles| && 0 < |cycles[m]| && !HasEquivalent(kept, cycles[m])
       && forall p :: 0 <= p < m ==> !EqualsAsCycles(cycles[m], cycles[p]))
      ==> cycles[m] in r
  }

  /** The chain `x` is one of the first `n` chains of `cs` that opens a class. */
  ghost predicate IsOpener(x: Chain, kept: seq<Chain>, cs: seq<Chain>, n: nat)
    requires AllNonEmpty(cs) && n <= |cs|
  {
    exists q: nat :: q < n && x == cs[q] && OpensClass(kept, cs, q)
  }

  /** Every chain of `f` is one of the first `n` chains of `cs` that opens a class. */
  ghost predicate FromOpeners(f: seq<Chain>, kept: seq<Chain>, cs: seq<Chain>, n: nat)
    requires AllNonEmpty(cs) && n <= |cs|
  {
    forall j :: 0 <= j < |f| ==> IsOpener(f[j], kept, cs, n)
  }

  /** Every chain of the reference is an input chain that opens a class. */
  lemma {:induction false} FirstOfClassMembers(kept: seq<Chain>, cs: seq<Chain>, n: nat)
    requires AllNonEmpty(cs) && n <= |cs|
    ensures FromOpeners(FirstOfClass(kept, cs, n), kept, cs, n)
    decreases n
  {
    if n == 0 {
      assert FirstOfClass(kept, cs, 0) == [];
    } else {
      FirstOfClassMembers(kept, cs, n - 1);
      FirstOfClassMembersStep(kept, cs, n, FirstOfClass(kept, cs, n - 1), FirstOfClass(kept, cs, n));
    }
  }

  /** The step of `FirstOfClassMembers`: the reference on `n` chains adds at
      most the last chain, and only when it opens a class. */
  lemma FirstOfClassMembersStep(kept: seq<Chain>, cs: seq<Chain>, n: nat, a: seq<Chain>, r: seq<Chain>)
    requires AllNonEmpty(cs) && 0 < n <= |cs|
    requires r == a + (if OpensClass(kept, cs, n - 1) then [cs[n - 1]] else [])
    requires FromOpeners(a, kept, cs, n - 1)
    ensures FromOpeners(r, kept, cs, n)
  {
    forall j | 0 <= j < |r| ensures IsOpener(r[j], kept, cs, n) {
      if j < |a| {
        assert r[j] == a[j] && IsOpener(a[j], kept, cs, n - 1);
        var q: nat :| q < n - 1 && a[j] == cs[q] && OpensClass(kept, cs, q);
        assert r[j] == cs[q];
      } else {
        assert OpensClass(kept, cs, n - 1) && r[j] == cs[n - 1];
      }
    }
  }

  /** Every one of the first `n` input chains that opens a class is in the reference. */
  lemma {:induction false} FirstOfClassHas(kept: seq<Chain>, cs: seq<Chain>, n: nat, m: nat)
    requires AllNonEmpty(cs) && m < n <= |cs| && OpensClass(kept, cs, m)
    ensures cs[m] in FirstOfClass(kept, cs, n)
    decreases n
  {
    var a := FirstOfClass(kept, cs, n - 1);
    var tail: seq<Chain> := if OpensClass(kept, cs, n - 1) then [cs[n - 1]] else [];
    assert FirstOfClass(kept, cs, n) == a + tail;
    if m < n - 1 {
      FirstOfClassHas(kept, cs, n - 1, m);
      var k :| 0 <= k < |a| && a[k] == cs[m];
      assert (a + tail)[k] == cs[m];
    } else {
      assert (a + tail)[|a|] == cs[m];
    }
  }

  /** The deduplication loop keeps the first chain of each rotation class:
      a later equivalent chain is skipped, never kept in its place. */
  lemma RemoveDoublesKeepsFirst(cycles: seq<Chain>, kept: seq<Chain>)
    requires AllNonEmpty(cycles)
    requires DistinctCycles(kept)
    ensures KeptFirst(RemoveDoublesFrom(cycles, kept), |kept|, cycles, CycledPrefix(cycles))
  {
    var n := CycledPrefix(cycles);
    var f := FirstOfClass(kept, cycles, n);
    var r := RemoveDoublesFrom(cycles, kept);
    FirstOfClassMembers(kept, cycles, n);
    forall i, m | |kept| <= i < |r| && 0 <= m < n && m < |cycles| && 0 < |r[i]| && EqualsAsCycles(r[i], cycles[m])
      ensures exists p :: 0 <= p <= m && cycles[p] == r[i]
    {
      assert r[i] == f[i - |kept|] && IsOpener(f[i - |kept|], kept, cycles, n);
      var q: nat :| q < n && r[i] == cycles[q] && OpensClass(kept, cycles, q);
      assert q <= m;
    }
  }

  /** The deduplication loop keeps every chain with no equivalent before it,
      including one-entity chains, which are equivalent to nothing. */
  lemma RemoveDoublesKeepsFresh(cycles: seq<Chain>, kept: seq<Chain>)
    requires AllNonEmpty(cycles)
    requires DistinctCycles(kept)
    ensures KeepsFresh(RemoveDoublesFrom(cycles, kept), kept, cycles, CycledPrefix(cycles))
  {
    var n := CycledPrefix(cycles);
    forall m | 0 <= m < n && OpensClass(kept, cycles, m)
      ensures cycles[m] in RemoveDoublesFrom(cycles, kept)
    {
      FirstOfClassHas(kept, cycles, n, m);
    }
  }

  /** The deduplicated list: one representative per rotation class, in
      first-seen order, up to the first chain that is not cycled; the
      representative of a class is its first chain in the input. */
  function RemoveDoubles(cycles: seq<Chain>): (r: seq<Chain>)
    requires AllNonEmpty(cycles)
    ensures Subsequence(r, cycles[..CycledPrefix(cycles)])
    ensures DistinctCycles(r)
    ensures forall k :: 0 <= k < CycledPrefix(cycles) ==> Represented(r, cycles[k])
    ensures KeptFirst(r, 0, cycles, CycledPrefix(cycles))
    ensures KeepsFresh(r, [], cycles, CycledPrefix(cycles))
    ensures r == FirstOfClass([], cycles, CycledPrefix(cycles))
  {
    RemoveDoublesKeepsFirst(cycles, []);
    RemoveDoublesKeepsFresh(cycles, []);
    RemoveDoublesFrom(cycles, [])
  }

  // ---------------------------------------------------------------------------
  // Seeding one search per dependency edge
  // ---------------------------------------------------------------------------

  /** The base chain `[e, d]` built by two appends to an empty chain, and the
      cycles found from it. */
  function SearchFromEdge(g: Registry, e: EntityRef, d: EntityRef, fuel: nat): (r: seq<Chain>)
    requires ValidRegistry(g) && e < |g| && d in g[e].deps
    ensures forall k :: 0 <= k < |r| ==> 2 <= |r[k]| && r[k][0] == e && r[k][1] == d
    ensures forall k :: 0 <= k < |r| ==> ClosedBySearch([e, d], r[k]) && IsWalk(g, r[k])
  {
    match Add(g, [], e)
    case Failure(_) => assert false; []
    case Success(one) =>
      match Add(g, one, d)
      case Failure(_) => assert false; []
      case Success(base) =>
        assert base == [e, d];
        var r := GetChildCycles(g, base, fuel);
        EdgeResults(g, e, d, r);
        r
  }

  /** What the search from the base chain `[e, d]` returns, restated per result. */
  lemma {:induction false} EdgeResults(g: Registry, e: EntityRef, d: EntityRef, r: seq<Chain>)
    requires ValidRegistry(g) && e < |g| && d in g[e].deps
    requires AllClosedBySearch(g, [e, d], r) && AllWalksIfWalk(g, [e, d], r)
    ensures forall k :: 0 <= k < |r| ==> 2 <= |r[k]| && r[k][0] == e && r[k][1] == d
    ensures forall k :: 0 <= k < |r| ==> ClosedBySearch([e, d], r[k]) && IsWalk(g, r[k])
  {
    assert IsWalk(g, [e, d]);
    forall k | 0 <= k < |r|
      ensures 2 <= |r[k]| && r[k][0] == e && r[k][1] == d
    {
      assert [e, d] <= r[k];
    }
  }

  /** The cycles found from the edges of entity `e` to its dependencies from position `j` on. */
  function SearchFromDependencies(g: Registry, e: EntityRef, j: nat, fuel: nat): (r: seq<Chain>)
    requires ValidRegistry(g) && e < |g| && j <= |g[e].deps|
    ensures forall k :: 0 <= k < |r| ==> 2 <= |r[k]| && r[k][0] == e && r[k][1] in g[e].deps[j..]
    ensures forall k :: 0 <= k < |r| ==> IsCycled(r[k]) && IsWalk(g, r[k])
    ensures j == |g[e].deps| ==> r == []
    ensures InDependencyOrder(g, e, j, r)
    decreases |g[e].deps| - j
  {
    if j == |g[e].deps| then []
    else
      var head := SearchFromEdge(g, e, g[e].deps[j], fuel);
      var rest := SearchFromDependencies(g, e, j + 1, fuel);
      assert forall k :: 0 <= k < |head| ==> ClosedBySearch([e, g[e].deps[j]], head[k]);
      assert forall x :: x in g[e].deps[j + 1..] ==> x in g[e].deps[j..];
      DependencyOrderJoin(g, e, j, head, rest);
      head + rest
  }

  /** Within one entity, the results follow its dependency list from position
      `j` on: an earlier result went through a dependency at some position `p`,
      and a later one through the dependency at `p` or after it. */
  ghost predicate InDependencyOrder(g: Registry, e: EntityRef, j: nat, r: seq<Chain>)
    requires e < |g|
  {
    forall a, b :: 0 <= a < b < |r| && 2 <= |r[a]| && 2 <= |r[b]| ==>
      exists p :: j <= p < |g[e].deps| && g[e].deps[p] == r[a][1] && r[b][1] in g[e].deps[p..]
  }

  /** The results through dependency `j`, followed by those through the later
      dependencies, are in dependency order. */
  lemma {:induction false} DependencyOrderJoin(g: Registry, e: EntityRef, j: nat, head: seq<Chain>, rest: seq<Chain>)
    requires e < |g| && j < |g[e].deps|
    requires forall k :: 0 <= k < |head| ==> 2 <= |head[k]| && head[k][1] == g[e].deps[j]
    requires forall k :: 0 <= k < |rest| ==> 2 <= |rest[k]| && rest[k][1] in g[e].deps[j + 1..]
    requires InDependencyOrder(g, e, j + 1, rest)
    ensures InDependencyOrder(g, e, j, head + rest)
  {
    var deps := g[e].deps;
    var r := head + rest;
    assert deps[j..][0] == deps[j];
    assert deps[j..] == [deps[j]] + deps[j + 1..];
    forall a, b | 0 <= a < b < |r| && 2 <= |r[a]| && 2 <= |r[b]|
      ensures exists p :: j <= p < |deps| && deps[p] == r[a][1] && r[b][1] in deps[p..]
    {
      if b < |head| {
        assert r[a] == head[a] && r[b] == head[b];
        assert deps[j] == r[a][1] && r[b][1] in deps[j..];
      } else if a < |head| {
        assert r[a] == head[a] && r[b] == rest[b - |head|];
        assert deps[j] == r[a][1] && r[b][1] in deps[j..];
      } else {
        assert r[a] == rest[a - |head|] && r[b] == rest[b - |head|];
        var p :| j + 1 <= p < |deps| && deps[p] == r[a][1] && r[b][1] in deps[p..];
      }
    }
  }

  /** The cycles found from the edges of the entities from `e` on, entity by entity. */
  function SearchFromEntities(g: Registry, e: nat, fuel: nat): (r: seq<Chain>)
    requires ValidRegistry(g) && e <= |g|
    ensures forall k :: 0 <= k < |r| ==> 2 <= |r[k]| && e <= r[k][0] < |g| && r[k][1] in g[r[k][0]].deps
    ensures forall k :: 0 <= k < |r| ==> IsCycled(r[k]) && IsWalk(g, r[k])
    ensures forall i, j :: 0 <= i < j < |r| ==> r[i][0] <= r[j][0]
    ensures (forall k :: e <= k < |g| ==> |g[k].deps| == 0) ==> r == []
    ensures SeededInOrder(g, r)
    decreases |g| - e
  {
    if e == |g| then []
    else
      var head := SearchFromDependencies(g, e, 0, fuel);
      var rest := SearchFromEntities(g, e + 1, fuel);
      EntityOrderJoin(g, e, head, rest);
      head + rest
  }

  /** `y` was seeded no earlier than `x`: from a later entity, or from the same
      entity through the same or a later position of its dependency list. */
  ghost predicate SeededNoEarlier(g: Registry, x: Chain, y: Chain) {
    && 2 <= |x| && 2 <= |y| && x[0] < |g|
    && (|| x[0] < y[0]
        || (x[0] == y[0] && exists p :: 0 <= p < |g[x[0]].deps| && g[x[0]].deps[p] == x[1] && y[1] in g[x[0]].deps[p..]))
  }

  /** The chains are in the order their searches were seeded: entity by
      entity in registry order, and within an entity in dependency order. */
  ghost predicate SeededInOrder(g: Registry, cs: seq<Chain>) {
    forall a, b :: 0 <= a < b < |cs| ==> SeededNoEarlier(g, cs[a], cs[b])
  }

  /** The results of entity `e`, followed by those of the later entities, are in seeding order. */
  lemma {:induction false} EntityOrderJoin(g: Registry, e: EntityRef, head: seq<Chain>, rest: seq<Chain>)
    requires e < |g|
    requires forall k :: 0 <= k < |head| ==> 2 <= |head[k]| && head[k][0] == e
    requires InDependencyOrder(g, e, 0, head)
    requires forall k :: 0 <= k < |rest| ==> 2 <= |rest[k]| && e < rest[k][0] < |g|
    requires SeededInOrder(g, rest)
    ensures SeededInOrder(g, head + rest)
  {
    var r := head + rest;
    forall a, b | 0 <= a < b < |r|
      ensures SeededNoEarlier(g, r[a], r[b])
    {
      if b < |head| {
        assert r[a] == head[a] && r[b] == head[b];
      } else if a < |head| {
        assert r[a] == head[a] && r[b] == rest[b - |head|];
      } else {
        assert r[a] == rest[a - |head|] && r[b] == rest[b - |head|];
      }
    }
  }

  /** When every chain is cycled, deduplication never stops early. */
  lemma {:induction false} CycledPrefixAll(cs: seq<Chain>)
    requires AllNonEmpty(cs)
    requires forall k :: 0 <= k < |cs| ==> IsCycled(cs[k])
    ensures CycledPrefix(cs) == |cs|
  {
    if |cs| > 0 {
      CycledPrefixAll(cs[1..]);
    }
  }

  /** A subsequence takes its elements from the original. */
  lemma {:induction false} SubsequenceMembers(xs: seq<Chain>, ys: seq<Chain>)
    requires Subsequence(xs, ys)
    ensures forall k :: 0 <= k < |xs| ==> xs[k] in ys
    decreases |ys|
  {
    if |xs| > 0 {
      if xs[0] == ys[0] && Subsequence(xs[1..], ys[1..]) {
        SubsequenceMembers(xs[1..], ys[1..]);
        forall k | 0 < k < |xs|
          ensures xs[k] in ys
        {
          assert xs[k] == xs[1..][k - 1];
        }
      } else {
        SubsequenceMembers(xs, ys[1..]);
      }
    }
  }

  /** A subsequence of a list in seeding order is in seeding order. */
  lemma {:induction false} SubsequenceOrdered(g: Registry, xs: seq<Chain>, ys: seq<Chain>)
    requires SeededInOrder(g, ys)
    requires Subsequence(xs, ys)
    ensures SeededInOrder(g, xs)
    decreases |ys|
  {
    if |xs| > 0 {
      if xs[0] == ys[0] && Subsequence(xs[1..], ys[1..]) {
        SubsequenceOrdered(g, xs[1..], ys[1..]);
        SubsequenceMembers(xs[1..], ys[1..]);
        forall i, j | 0 <= i < j < |xs|
          ensures SeededNoEarlier(g, xs[i], xs[j])
        {
          if i == 0 {
            assert xs[j] == xs[1..][j - 1];
            var m :| 0 <= m < |ys[1..]| && ys[1..][m] == xs[j];
            assert ys[m + 1] == xs[j];
          } else {
            assert xs[i] == xs[1..][i - 1] && xs[j] == xs[1..][j - 1];
          }
        }
      } else {
        SubsequenceOrdered(g, xs, ys[1..]);
      }
    }
  }

  /** Distinct cycles are distinct in both directions, by symmetry of the equivalence. */
  lemma {:induction false} DistinctCyclesBothWays(cs: seq<Chain>)
    requires DistinctCycles(cs)
    ensures MutuallyInequivalent(cs)
  {
    forall i, j | 0 <= i < j < |cs|
      ensures !EqualsAsCycles(cs[i], cs[j])
    {
      EqualsAsCyclesSymmetric(cs[i], cs[j]);
    }
  }

  /** Cycled walks of at least two entities. */
  predicate CycledWalks(g: Registry, cs: seq<Chain>) {
    forall k :: 0 <= k < |cs| ==> 2 <= |cs[k]| && IsCycled(cs[k]) && IsWalk(g, cs[k])
  }

  /** No chain is equivalent as a cycle to another, in either order. */
  predicate MutuallyInequivalent(cs: seq<Chain>) {
    && AllNonEmpty(cs)
    && forall i, j :: 0 <= i < j < |cs| ==> !EqualsAsCycles(cs[i], cs[j]) && !EqualsAsCycles(cs[j], cs[i])
  }

  /** Every chain of `raw` is represented in `kept`. */
  predicate AllRepresented(kept: seq<Chain>, raw: seq<Chain>) {
    && AllNonEmpty(raw)
    && forall k :: 0 <= k < |raw| ==> Represented(kept, raw[k])
  }

  /** On a list of cycled chains the deduplication reaches the end: its
      first-of-class properties and its reference cover the whole list. */
  lemma WholeListDeduplicated(raw: seq<Chain>)
    requires AllNonEmpty(raw) && CycledPrefix(raw) == |raw|
    ensures KeptFirst(RemoveDoubles(raw), 0, raw, |raw|)
    ensures KeepsFresh(RemoveDoubles(raw), [], raw, |raw|)
    ensures RemoveDoubles(raw) == FirstOfClass([], raw, |raw|)
  {
  }

  /** Deduplicating the search's output: nothing is cut off, and what remains
      keeps the raw cycles' shape and order. */
  lemma {:induction false} DeduplicatedSearch(g: Registry, raw: seq<Chain>)
    requires ValidRegistry(g)
    requires CycledWalks(g, raw)
    requires SeededInOrder(g, raw)
    ensures CycledWalks(g, RemoveDoubles(raw))
    ensures MutuallyInequivalent(RemoveDoubles(raw))
    ensures SeededInOrder(g, RemoveDoubles(raw))
    ensures AllRepresented(RemoveDoubles(raw), raw)
    ensures KeptFirst(RemoveDoubles(raw), 0, raw, |raw|)
    ensures KeepsFresh(RemoveDoubles(raw), [], raw, |raw|)
    ensures RemoveDoubles(raw) == FirstOfClass([], raw, |raw|)
  {
    CycledPrefixAll(raw);
    WholeListDeduplicated(raw);
    assert raw[..CycledPrefix(raw)] == raw;
    var r := RemoveDoubles(raw);
    SubsequenceMembers(r, raw);
    SubsequenceOrdered(g, r, raw);
    DistinctCyclesBothWays(r);
  }

  /** The distinct cycles of the registry: every edge seeds a search, and the
      results are deduplicated up to rotation. They are cycled walks, pairwise
      inequivalent, in the order their searches were seeded; every cycle the
      search found is kept or has an equivalent among the kept ones, and the
      one kept for a rotation class is the first the search found, so a found
      cycle with no equivalent found before it is kept. */
  function GetCycleDependencies(g: Registry, fuel: nat): (r: seq<Chain>)
    requires ValidRegistry(g)
    ensures CycledWalks(g, r)
    ensures MutuallyInequivalent(r)
    ensures SeededInOrder(g, r)
    ensures AllRepresented(r, SearchFromEntities(g, 0, fuel))
    ensures KeptFirst(r, 0, SearchFromEntities(g, 0, fuel), |SearchFromEntities(g, 0, fuel)|)
    ensures KeepsFresh(r, [], SearchFromEntities(g, 0, fuel), |SearchFromEntities(g, 0, fuel)|)
    ensures r == FirstOfClass([], SearchFromEntities(g, 0, fuel), |SearchFromEntities(g, 0, fuel)|)
    ensures NoEdges(g) ==> r == []
  {
    var raw := SearchFromEntities(g, 0, fuel);
    DeduplicatedSearch(g, raw);
    RemoveDoubles(raw)
  }

  // ---------------------------------------------------------------------------
  // Graphs without cycles
  // ---------------------------------------------------------------------------

  /** Every dependency points to a later entity of the registry. */
  predicate PointsForward(g: Registry) {
    forall k, j :: 0 <= k < |g| && 0 <= j < |g[k].deps| ==> k < g[k].deps[j]
  }

  /** In such a registry a walk only moves forward. */
  lemma {:induction false} ForwardWalkRises(g: Registry, x: Chain, k: nat)
    requires PointsForward(g) && IsWalk(g, x) && 0 < k < |x|
    ensures x[0] < x[k]
  {
    assert x[k] in g[x[k - 1]].deps;
    if k > 1 {
      ForwardWalkRises(g, x, k - 1);
    }
  }

  /** A registry whose dependencies all point forward has no cycle, whatever the fuel. */
  lemma {:induction false} ForwardRegistryHasNoCycles(g: Registry, fuel: nat)
    requires ValidRegistry(g) && PointsForward(g)
    ensures GetCycleDependencies(g, fuel) == []
  {
    var raw := SearchFromEntities(g, 0, fuel);
    if |raw| > 0 {
      var x := raw[0];
      ForwardWalkRises(g, x, |x| - 1);
      assert false;
    }
    assert RemoveDoubles(raw) == [];
  }
}

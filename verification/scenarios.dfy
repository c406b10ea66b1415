/**
 * Small worked inputs: the behaviour the model gives on concrete chains,
 * token streams and registries.
 */
module Scenarios {
  import opened Wrappers
  import opened Entities
  import opened DependencyChains
  import opened Researcher
  import opened Parser

  /** `1 2 1` and `2 1 2` are the same cycle; a cycle and its reversal are not. */
  lemma RotationNotReflection()
    ensures EqualsAsCycles([1, 2, 1], [2, 1, 2])
    ensures EqualsAsCycles([0, 1, 2, 0], [1, 2, 0, 1])
    ensures !EqualsAsCycles([0, 1, 2, 0], [0, 2, 1, 0])
  {
    assert PureCycle([1, 2, 1]) == Rotate(PureCycle([2, 1, 2]), 1);
    assert PureCycle([0, 1, 2, 0]) == Rotate(PureCycle([1, 2, 0, 1]), 2);
    var pa, pb := PureCycle([0, 1, 2, 0]), PureCycle([0, 2, 1, 0]);
    assert pa != Rotate(pb, 0) && pa != Rotate(pb, 1) && pa != Rotate(pb, 2) by {
      assert pa[0] == 0 && pa[1] == 1;
      assert Rotate(pb, 0)[1] == 2 && Rotate(pb, 1)[0] == 2 && Rotate(pb, 2)[0] == 1;
    }
  }

  /** The scan compares windows one entity apart, so an immediately repeated
      pair `0 1 0 1` is not a sub-cycle, while `0 1 2 0 1` is. */
  lemma GappedWindows()
    ensures !ContainSubCycles([0, 1, 0, 1, 2])
    ensures ContainSubCycles([0, 1, 2, 0, 1])
  {
    assert WindowsMatch([0, 1, 2, 0, 1], 2, 0);
    var c: Chain := [0, 1, 0, 1, 2];
    assert !WindowsMatch(c, 2, 0) by {
      assert c[0..2][0] == 0 && c[3..5][0] == 1;
    }
  }

  /** Reading starts with the first pair, then goes on with the rest. */
  lemma ParseOnePair(ts: seq<Token>, g: Registry)
    requires ValidRegistry(g) && DistinctDeps(g)
    requires 2 <= |ts| && IsInt(ts[0]) && IsInt(ts[1])
    ensures ParseFrom(ts, g) == ParseFrom(ts[2..], Register(g, ts[0].value, ts[1].value))
  {
  }

  /** One pass of the reading loop, with the registry it produces and the
      outcome of the rest given. */
  lemma ParseStep(ts: seq<Token>, g: Registry, g': Registry, r: Result<Registry, ParseError>)
    requires ValidRegistry(g) && DistinctDeps(g)
    requires 2 <= |ts| && IsInt(ts[0]) && IsInt(ts[1])
    requires Register(g, ts[0].value, ts[1].value) == g'
    requires ParseFrom(ts[2..], g') == r
    ensures ParseFrom(ts, g) == r
  {
    ParseOnePair(ts, g);
  }

  /** The registries after each pair of a loop `a b`, `b c`, `c a`. The
      reading lemmas below take them as parameters constrained here rather
      than as literals, which keeps each proof obligation small. */
  predicate LoopRegistries(a: int, b: int, c: int, g1: Registry, g2: Registry, g3: Registry) {
    && g1 == [Entity(a, [1]), Entity(b, [])]
    && g2 == [Entity(a, [1]), Entity(b, [2]), Entity(c, [])]
    && g3 == [Entity(a, [1]), Entity(b, [2]), Entity(c, [0])]
  }

  /** The three registries of a loop are well formed. */
  lemma LoopRegistriesValid(a: int, b: int, c: int, g1: Registry, g2: Registry, g3: Registry)
    requires LoopRegistries(a, b, c, g1, g2, g3)
    ensures ValidRegistry(g1) && DistinctDeps(g1)
    ensures ValidRegistry(g2) && DistinctDeps(g2)
    ensures ValidRegistry(g3) && DistinctDeps(g3)
  {
  }

  /** The second pair of a loop `a b`, `b c`, `c a`: `b` is known, `c` is new. */
  lemma LoopSecondPair(a: int, b: int, c: int, g1: Registry, g2: Registry, g3: Registry)
    requires a != b && b != c && c != a && LoopRegistries(a, b, c, g1, g2, g3)
    ensures Register(g1, b, c) == g2
  {
    assert Ids(g1)[1] == b;
    assert Lookup(g1, b) == Some(1);
    assert Lookup(g1, c) == None;
    var g1' := g1 + [Entity(c, [])];
    assert Obtain(g1, None, c) == (g1', 2);
    assert g1'[1].deps + [2] == [2];
  }

  /** The third pair of a loop `a b`, `b c`, `c a`: both identifiers are known. */
  lemma LoopThirdPair(a: int, b: int, c: int, g1: Registry, g2: Registry, g3: Registry)
    requires a != b && b != c && c != a && LoopRegistries(a, b, c, g1, g2, g3)
    ensures Register(g2, c, a) == g3
  {
    assert Ids(g2)[2] == c;
    assert Lookup(g2, c) == Some(2);
    assert Ids(g2)[0] == a;
    assert Lookup(g2, a) == Some(0);
    assert g2[2].deps + [0] == [0];
  }

  /** The reading loop on the last pair `c a` of a loop. */
  lemma ReadLoopLast(ts: seq<Token>, a: int, b: int, c: int, g1: Registry, g2: Registry, g3: Registry)
    requires a != b && b != c && c != a && LoopRegistries(a, b, c, g1, g2, g3)
    requires |ts| == 2 && ts[0] == Number(c) && ts[1] == Number(a) && IsInt(ts[0]) && IsInt(ts[1])
    ensures ParseFrom(ts, g2) == Success(g3)
  {
    LoopRegistriesValid(a, b, c, g1, g2, g3);
    LoopThirdPair(a, b, c, g1, g2, g3);
    ParseEnds(ts[2..], g3);
    ParseStep(ts, g2, g3, Success(g3));
  }

  /** The reading loop on the last two pairs `b c`, `c a` of a loop. */
  lemma ReadLoopTail(ts: seq<Token>, a: int, b: int, c: int, g1: Registry, g2: Registry, g3: Registry)
    requires a != b && b != c && c != a && LoopRegistries(a, b, c, g1, g2, g3)
    requires |ts| == 4 && forall k :: 0 <= k < 4 ==> IsInt(ts[k])
    requires ts[0] == Number(b) && ts[1] == Number(c) && ts[2] == Number(c) && ts[3] == Number(a)
    ensures ParseFrom(ts, g1) == Success(g3)
  {
    LoopRegistriesValid(a, b, c, g1, g2, g3);
    LoopSecondPair(a, b, c, g1, g2, g3);
    var t := ts[2..];
    assert |t| == 2 && t[0] == ts[2] && t[1] == ts[3];
    ReadLoopLast(t, a, b, c, g1, g2, g3);
    ParseStep(ts, g1, g2, Success(g3));
  }

  /** The reading loop on `a b`, `b c`, `c a`, with the three identifiers distinct. */
  lemma ReadLoop(ts: seq<Token>, a: int, b: int, c: int, g1: Registry, g2: Registry, g3: Registry)
    requires a != b && b != c && c != a && LoopRegistries(a, b, c, g1, g2, g3)
    requires |ts| == 6 && forall k :: 0 <= k < 6 ==> IsInt(ts[k])
    requires ts[0] == Number(a) && ts[1] == Number(b) && ts[2] == Number(b)
    requires ts[3] == Number(c) && ts[4] == Number(c) && ts[5] == Number(a)
    ensures ParseFrom(ts, []) == Success(g3)
  {
    RegisterBothNew([], a, b);
    assert [] + [Entity(a, [1]), Entity(b, [])] == g1;
    var t := ts[2..];
    assert |t| == 4 && t[0] == ts[2] && t[1] == ts[3] && t[2] == ts[4] && t[3] == ts[5];
    ReadLoopTail(t, a, b, c, g1, g2, g3);
    ParseStep(ts, [], g1, Success(g3));
  }

  /** The three-entity loop `1 2`, `2 3`, `3 1`. */
  lemma ParseTriangle()
    ensures ParseSourceScanner([Number(1), Number(2), Number(2), Number(3), Number(3), Number(1)])
         == Success([Entity(1, [1]), Entity(2, [2]), Entity(3, [0])])
  {
    var ts := [Number(1), Number(2), Number(2), Number(3), Number(3), Number(1)];
    var g3 := [Entity(1, [1]), Entity(2, [2]), Entity(3, [0])];
    ReadLoop(ts, 1, 2, 3, [Entity(1, [1]), Entity(2, [])], [Entity(1, [1]), Entity(2, [2]), Entity(3, [])], g3);
    ScannerRuns(ts, g3);
  }

  /** The scanner reads the whole stream with the reading loop. Stated on
      its own so that a literal token stream is unfolded by the reading
      lemmas, not by the scanner's definition. */
  lemma ScannerRuns(ts: seq<Token>, g: Registry)
    requires ParseFrom(ts, []) == Success(g)
    ensures ParseSourceScanner(ts) == Success(g)
  {
  }

  /** Reading stops, successfully, where no integer follows. */
  lemma ParseEnds(ts: seq<Token>, g: Registry)
    requires ValidRegistry(g) && DistinctDeps(g)
    requires |ts| == 0 || !IsInt(ts[0])
    ensures ParseFrom(ts, g) == Success(g)
  {
  }

  /** A first pair of two unknown identifiers, then no further integer:
      two fresh entities, the first depending on the second. */
  lemma ParseFirstPairOnly(ts: seq<Token>, a: int, b: int)
    requires 2 <= |ts| && ts[0] == Number(a) && ts[1] == Number(b)
    requires |ts| == 2 || !IsInt(ts[2])
    requires IsInt(ts[0]) && IsInt(ts[1])
    ensures ParseSourceScanner(ts) == Success([Entity(a, [1]), Entity(b, [])])
  {
    var g: Registry := [Entity(a, [1]), Entity(b, [])];
    RegisterBothNew([], a, b);
    assert [] + [Entity(a, [1]), Entity(b, [])] == g;
    ParseOnePair(ts, []);
    ParseEnds(ts[2..], g);
    ScannerRuns(ts, g);
  }

  /** A fresh self-pair creates two entities with the same identifier. */
  lemma ParseFreshSelfPair()
    ensures ParseSourceScanner([Number(5), Number(5)]) == Success([Entity(5, [1]), Entity(5, [])])
  {
    ParseFirstPairOnly([Number(5), Number(5)], 5, 5);
  }

  /** An unpaired integer is a format error. */
  lemma ParseOddCount()
    ensures ParseSourceScanner([Number(1), Number(2), Number(3)]) == Failure(WrongFormat)
  {
    var ts := [Number(1), Number(2), Number(3)];
    assert LeadingInts(ts) == 3 by {
      assert ts[1..] == [Number(2), Number(3)];
      assert ts[1..][1..] == [Number(3)];
      assert ts[1..][1..][1..] == [];
    }
  }

  /** A word ends the input: the integers after it are never read. */
  lemma ParseStopsAtWord()
    ensures ParseSourceScanner([Number(1), Number(2), Word("x"), Number(3)]) == Success([Entity(1, [1]), Entity(2, [])])
  {
    ParseFirstPairOnly([Number(1), Number(2), Word("x"), Number(3)], 1, 2);
  }

  /** Three entities in a loop, each depending only on the next: the shape
      read from `1 2`, `2 3`, `3 1`, whatever the identifiers. */
  predicate IsTriangle(g: Registry) {
    |g| == 3 && g[0].deps == [1] && g[1].deps == [2] && g[2].deps == [0]
  }

  /** A chain that is neither cycled nor pruned, whose tail has a single
      dependency `x`, is searched by searching `c + [x]` with one less fuel. */
  lemma SingleExtension(g: Registry, c: Chain, x: EntityRef, fuel: nat)
    requires ValidRegistry(g) && InRegistry(g, c) && 0 < |c| && 0 < fuel
    requires !IsCycled(c) && !ContainSubCycles(c)
    requires g[c[|c| - 1]].deps == [x]
    ensures InRegistry(g, c + [x])
    ensures GetChildCycles(g, c, fuel) == GetChildCycles(g, c + [x], fuel - 1)
  {
    assert GetDependenciesList(g, c) == [x];
    assert Add(g, c, x) == Success(c + [x]);
    assert ExtendEach(g, c, 1, fuel) == [];
    assert ExtendEach(g, c, 0, fuel) == GetChildCycles(g, c + [x], fuel - 1) + [];
  }

  /** From `[e, d, f]`, with `f` depending only on `e`, the search closes the
      loop, given fuel for one more step. */
  lemma LoopClose(g: Registry, e: EntityRef, d: EntityRef, f: EntityRef, fuel: nat)
    requires ValidRegistry(g) && e < |g| && d < |g| && f < |g| && f != e
    requires g[f].deps == [e] && 1 <= fuel
    ensures GetChildCycles(g, [e, d, f], fuel) == [[e, d, f, e]]
  {
    var c: Chain := [e, d, f];
    assert !IsCycled(c);
    SingleExtension(g, c, e, fuel);
    var x := c + [e];
    assert x == [e, d, f, e];
    assert x[0] == x[|x| - 1];
  }

  /** From the seed `[e, d]` of a loop `e -> d -> f -> e` of single
      dependencies, the search walks once around it, given fuel for the two
      steps the walk takes. */
  lemma LoopSeed(g: Registry, e: EntityRef, d: EntityRef, f: EntityRef, fuel: nat)
    requires ValidRegistry(g) && e < |g| && d < |g| && f < |g|
    requires e != d && f != e
    requires g[d].deps == [f] && g[f].deps == [e] && 2 <= fuel
    ensures GetChildCycles(g, [e, d], fuel) == [[e, d, f, e]]
  {
    assert !IsCycled([e, d]);
    assert [e, d] + [f] == [e, d, f];
    SingleExtension(g, [e, d], f, fuel);
    LoopClose(g, e, d, f, fuel - 1);
  }

  /** The search from an edge `e -> d` starts from the chain `[e, d]`. */
  lemma EdgeSearch(g: Registry, e: EntityRef, d: EntityRef, fuel: nat)
    requires ValidRegistry(g) && e < |g| && d in g[e].deps
    ensures SearchFromEdge(g, e, d, fuel) == GetChildCycles(g, [e, d], fuel)
  {
    assert Add(g, [], e) == Success([e]);
    assert [e] + [d] == [e, d];
    assert Add(g, [e], d) == Success([e, d]);
  }

  /** An entity with a single dependency seeds a single search. */
  lemma SingleDependencySearch(g: Registry, e: EntityRef, fuel: nat)
    requires ValidRegistry(g) && e < |g| && |g[e].deps| == 1
    ensures SearchFromDependencies(g, e, 0, fuel) == SearchFromEdge(g, e, g[e].deps[0], fuel)
  {
    assert SearchFromDependencies(g, e, 1, fuel) == [];
  }

  /** Each edge of the three-entity loop seeds one walk around it. */
  lemma TriangleEdge(g: Registry, e: nat, d: nat, f: nat, fuel: nat)
    requires IsTriangle(g)
    requires e < 3 && d < 3 && f < 3 && d == (e + 1) % 3 && f == (e + 2) % 3
    ensures ValidRegistry(g)
    requires 2 <= fuel
    ensures SearchFromDependencies(g, e, 0, fuel) == [[e, d, f, e]]
  {
    assert g[e].deps == [d];
    LoopSeed(g, e, d, f, fuel);
    EdgeSearch(g, e, d, fuel);
    SingleDependencySearch(g, e, fuel);
  }

  /** The search over entities takes each entity's dependencies in turn. */
  lemma EntitiesSearch(g: Registry, e: nat, fuel: nat)
    requires ValidRegistry(g) && e < |g|
    ensures SearchFromEntities(g, e, fuel) == SearchFromDependencies(g, e, 0, fuel) + SearchFromEntities(g, e + 1, fuel)
  {
  }

  /** The search from the last of three entities. */
  lemma SearchLastOfThree(g: Registry, fuel: nat, z: Chain)
    requires ValidRegistry(g) && |g| == 3
    requires SearchFromDependencies(g, 2, 0, fuel) == [z]
    ensures SearchFromEntities(g, 2, fuel) == [z]
  {
    assert SearchFromEntities(g, 3, fuel) == [];
    EntitiesSearch(g, 2, fuel);
    assert [z] + [] == [z];
  }

  /** The search from the last two of three entities. */
  lemma SearchLastTwoOfThree(g: Registry, fuel: nat, y: Chain, z: Chain)
    requires ValidRegistry(g) && |g| == 3
    requires SearchFromDependencies(g, 1, 0, fuel) == [y]
    requires SearchFromDependencies(g, 2, 0, fuel) == [z]
    ensures SearchFromEntities(g, 1, fuel) == [y, z]
  {
    SearchLastOfThree(g, fuel, z);
    EntitiesSearch(g, 1, fuel);
    assert [y] + [z] == [y, z];
  }

  /** Prepending one chain to a pair of chains: the sequence identity
      `SearchThree` needs, stated apart because the solver does not find it
      inside that proof. */
  lemma PrependToPair(x: Chain, y: Chain, z: Chain)
    ensures [x] + [y, z] == [x, y, z]
  {
  }

  /** On three entities with one search result each, the raw search lists
      the three results in entity order. */
  lemma SearchThree(g: Registry, fuel: nat, x: Chain, y: Chain, z: Chain)
    requires ValidRegistry(g) && |g| == 3
    requires SearchFromDependencies(g, 0, 0, fuel) == [x]
    requires SearchFromDependencies(g, 1, 0, fuel) == [y]
    requires SearchFromDependencies(g, 2, 0, fuel) == [z]
    ensures SearchFromEntities(g, 0, fuel) == [x, y, z]
  {
    EntitiesSearch(g, 0, fuel);
    SearchLastTwoOfThree(g, fuel, y, z);
    PrependToPair(x, y, z);
  }

  /** The raw search on the three-entity loop finds the cycle once per edge. */
  lemma TriangleSearch(g: Registry, fuel: nat)
    requires IsTriangle(g) && 2 <= fuel
    ensures ValidRegistry(g)
    ensures SearchFromEntities(g, 0, fuel) == [[0, 1, 2, 0], [1, 2, 0, 1], [2, 0, 1, 2]]
  {
    TriangleEdge(g, 0, 1, 2, fuel);
    TriangleEdge(g, 1, 2, 0, fuel);
    TriangleEdge(g, 2, 0, 1, fuel);
    SearchThree(g, fuel, [0, 1, 2, 0], [1, 2, 0, 1], [2, 0, 1, 2]);
  }

  /** The deduplication loop skips a chain equivalent to one already kept. */
  lemma DedupSkips(cycles: seq<Chain>, kept: seq<Chain>)
    requires AllNonEmpty(cycles) && DistinctCycles(kept)
    requires 0 < |cycles| && IsCycled(cycles[0]) && HasEquivalent(kept, cycles[0])
    ensures RemoveDoublesFrom(cycles, kept) == RemoveDoublesFrom(cycles[1..], kept)
  {
  }

  /** The deduplication loop keeps a chain with no equivalent so far. */
  lemma DedupKeeps(cycles: seq<Chain>, kept: seq<Chain>)
    requires AllNonEmpty(cycles) && DistinctCycles(kept)
    requires 0 < |cycles| && IsCycled(cycles[0]) && !HasEquivalent(kept, cycles[0])
    ensures DistinctCycles(kept + [cycles[0]])
    ensures RemoveDoublesFrom(cycles, kept) == RemoveDoublesFrom(cycles[1..], kept + [cycles[0]])
  {
  }

  /** The walks around the loop from its second and third entity are
      rotations of the walk from its first. */
  lemma TriangleRotations()
    ensures EqualsAsCycles([1, 2, 0, 1], [0, 1, 2, 0])
    ensures EqualsAsCycles([2, 0, 1, 2], [0, 1, 2, 0])
  {
    assert PureCycle([1, 2, 0, 1]) == Rotate(PureCycle([0, 1, 2, 0]), 1);
    assert PureCycle([2, 0, 1, 2]) == Rotate(PureCycle([0, 1, 2, 0]), 2);
  }

  /** Chains that all have an equivalent among the kept ones add nothing. */
  lemma {:induction false} DedupSkipsAll(cycles: seq<Chain>, kept: seq<Chain>)
    requires AllNonEmpty(cycles) && DistinctCycles(kept)
    requires forall k :: 0 <= k < |cycles| ==> IsCycled(cycles[k]) && HasEquivalent(kept, cycles[k])
    ensures RemoveDoublesFrom(cycles, kept) == kept
    decreases |cycles|
  {
    if |cycles| > 0 {
      var rest := cycles[1..];
      forall k | 0 <= k < |rest|
        ensures 0 < |rest[k]| && IsCycled(rest[k]) && HasEquivalent(kept, rest[k])
      {
        assert rest[k] == cycles[k + 1];
      }
      DedupSkips(cycles, kept);
      DedupSkipsAll(rest, kept);
    }
  }

  /** Two rotations of the one kept cycle add nothing. */
  lemma DedupRotationsTail(c: Chain, x: Chain, y: Chain)
    requires 0 < |c| && 0 < |x| && 0 < |y| && IsCycled(c)
    requires EqualsAsCycles(x, c) && EqualsAsCycles(y, c)
    ensures DistinctCycles([c])
    ensures RemoveDoublesFrom([x, y], [c]) == [c]
  {
    assert HasEquivalent([c], x) by { assert [c][0] == c; }
    assert HasEquivalent([c], y) by { assert [c][0] == c; }
    DedupSkipsAll([x, y], [c]);
  }

  /** A cycle followed by two rotations of it deduplicates to the cycle alone. */
  lemma DedupRotations(c: Chain, x: Chain, y: Chain)
    requires 0 < |c| && 0 < |x| && 0 < |y| && IsCycled(c)
    requires EqualsAsCycles(x, c) && EqualsAsCycles(y, c)
    ensures RemoveDoubles([c, x, y]) == [c]
  {
    var raw: seq<Chain> := [c, x, y];
    assert raw[1..] == [x, y];
    assert [] + [c] == [c];
    DedupKeeps(raw, []);
    DedupRotationsTail(c, x, y);
  }

  /** Deduplication keeps only the first of the three walks. */
  lemma TriangleDeduplicated()
    ensures RemoveDoubles([[0, 1, 2, 0], [1, 2, 0, 1], [2, 0, 1, 2]]) == [[0, 1, 2, 0]]
  {
    TriangleRotations();
    DedupRotations([0, 1, 2, 0], [1, 2, 0, 1], [2, 0, 1, 2]);
  }

  /** The three-entity loop has exactly one cycle: the search finds it from
      each of its three edges, and deduplication keeps the first. */
  lemma TriangleCycles(g: Registry, fuel: nat)
    requires IsTriangle(g) && 2 <= fuel
    ensures ValidRegistry(g)
    ensures GetCycleDependencies(g, fuel) == [[0, 1, 2, 0]]
  {
    TriangleSearch(g, fuel);
    TriangleDeduplicated();
  }

  /** The raw search on a self-loop, whatever the fuel: the seed is already cycled. */
  lemma SelfLoopSearch(fuel: nat)
    ensures SearchFromEntities([Entity(7, [0])], 0, fuel) == [[0, 0]]
  {
    var g := [Entity(7, [0])];
    assert GetChildCycles(g, [0, 0], fuel) == [[0, 0]];
    EdgeSearch(g, 0, 0, fuel);
    SingleDependencySearch(g, 0, fuel);
    assert SearchFromEntities(g, 1, fuel) == [];
  }

  /** A self-loop is one cycle of two entities, whatever the fuel. */
  lemma SelfLoopCycle(fuel: nat)
    ensures GetCycleDependencies([Entity(7, [0])], fuel) == [[0, 0]]
  {
    var raw: seq<Chain> := [[0, 0]];
    SelfLoopSearch(fuel);
    assert !HasEquivalent([], raw[0]);
    DedupKeeps(raw, []);
    assert [] + [raw[0]] == raw;
    assert raw[1..] == [];
  }

  /** The chain `1 2`, `2 3` has no cycle, whatever the fuel. */
  lemma ChainHasNoCycle(fuel: nat)
    ensures GetCycleDependencies([Entity(1, [1]), Entity(2, [2]), Entity(3, [])], fuel) == []
  {
    ForwardRegistryHasNoCycles([Entity(1, [1]), Entity(2, [2]), Entity(3, [])], fuel);
  }

  /** Two entities, the first depending on the second: no cycle, whatever the fuel. */
  lemma OneEdgeHasNoCycle(g: Registry, a: int, b: int, fuel: nat)
    requires g == [Entity(a, [1]), Entity(b, [])]
    ensures ValidRegistry(g) && GetCycleDependencies(g, fuel) == []
  {
    ForwardRegistryHasNoCycles(g, fuel);
  }

  /** The input `7 7` alone has no cycle: it creates two entities with
      identifier 7, the first depending on the second, and the search reports
      nothing, whatever the fuel. A later pair on 7 attaches to the second
      entity and can close a cycle (`ReadAndSearchSelfPairTwice`). */
  lemma SelfPairHasNoCycle(fuel: nat)
    ensures ParseSourceScanner([Number(7), Number(7)]) == Success([Entity(7, [1]), Entity(7, [])])
    ensures GetCycleDependencies([Entity(7, [1]), Entity(7, [])], fuel) == []
  {
    ParseFirstPairOnly([Number(7), Number(7)], 7, 7);
    OneEdgeHasNoCycle([Entity(7, [1]), Entity(7, [])], 7, 7, fuel);
  }

  /** A second self-pair `a a` after a first one: both identifiers resolve to
      the last entity with identifier `a`, which comes to depend on itself. */
  lemma RepeatedSelfPair(a: int, g1: Registry, g2: Registry)
    requires g1 == [Entity(a, [1]), Entity(a, [])] && g2 == [Entity(a, [1]), Entity(a, [1])]
    ensures Register(g1, a, a) == g2
  {
    assert Ids(g1)[1] == a;
    assert Lookup(g1, a) == Some(1);
    assert g1[1].deps + [1] == [1];
  }

  /** The reading loop on a second self-pair `a a`. */
  lemma ReadRepeatedSelfPair(ts: seq<Token>, a: int, g1: Registry, g2: Registry)
    requires g1 == [Entity(a, [1]), Entity(a, [])] && g2 == [Entity(a, [1]), Entity(a, [1])]
    requires |ts| == 2 && ts[0] == Number(a) && ts[1] == Number(a) && IsInt(ts[0])
    ensures ParseFrom(ts, g1) == Success(g2)
  {
    RepeatedSelfPair(a, g1, g2);
    ParseEnds(ts[2..], g2);
    ParseStep(ts, g1, g2, Success(g2));
  }

  /** The reading loop on `a a a a`. */
  lemma ReadSelfPairTwice(ts: seq<Token>, a: int, g1: Registry, g2: Registry)
    requires g1 == [Entity(a, [1]), Entity(a, [])] && g2 == [Entity(a, [1]), Entity(a, [1])]
    requires |ts| == 4 && IsInt(ts[0]) && forall k :: 0 <= k < 4 ==> ts[k] == Number(a)
    ensures ParseFrom(ts, []) == Success(g2)
  {
    RegisterBothNew([], a, a);
    assert [] + g1 == g1;
    var t := ts[2..];
    assert |t| == 2 && t[0] == ts[2] && t[1] == ts[3];
    ReadRepeatedSelfPair(t, a, g1, g2);
    ParseStep(ts, [], g1, Success(g2));
  }

  /** `7 7 7 7` reads as two entities with identifier 7: the first depends on
      the second, and the second on itself. */
  lemma ParseSelfPairTwice()
    ensures ParseSourceScanner([Number(7), Number(7), Number(7), Number(7)]) == Success([Entity(7, [1]), Entity(7, [1])])
  {
    var ts := [Number(7), Number(7), Number(7), Number(7)];
    var g2: Registry := [Entity(7, [1]), Entity(7, [1])];
    ReadSelfPairTwice(ts, 7, [Entity(7, [1]), Entity(7, [])], g2);
    ScannerRuns(ts, g2);
  }

  /** The chains `0 1 ... 1` the search walks from the first entity when the
      second depends only on itself. */
  predicate IntoSelfLoop(c: Chain) {
    2 <= |c| <= 6 && c[0] == 0 && forall k :: 1 <= k < |c| ==> c[k] == 1
  }

  /** Below six entries a chain `0 1 ... 1` is neither cycled nor cut, and
      it grows by the self-loop into another such chain. */
  lemma IntoSelfLoopOpen(c: Chain)
    requires IntoSelfLoop(c) && |c| < 6
    ensures !IsCycled(c) && !ContainSubCycles(c) && IntoSelfLoop(c + [1])
  {
    assert c[|c| - 1] == 1;
    if |c| == 5 {
      assert !WindowsMatch(c, 2, 0) by {
        assert c[0..2][0] == 0 && c[3..5][0] == 1;
      }
    }
    var x := c + [1];
    assert forall k :: 0 <= k < |c| ==> x[k] == c[k];
  }

  /** At six entries the run `1 1` repeats two entities apart and the
      sub-cycle scan cuts the chain. */
  lemma IntoSelfLoopCut(c: Chain)
    requires IntoSelfLoop(c) && |c| == 6
    ensures ContainSubCycles(c)
  {
    assert WindowsMatch(c, 2, 1) by {
      assert c[1..3] == [1, 1] && c[4..6] == [1, 1];
    }
  }

  /** From `0 1 ... 1` the search never closes a cycle: it runs around the
      self-loop until `1 1` repeats two entities apart, which the sub-cycle
      scan cuts, or the fuel runs out. */
  lemma IntoSelfLoopFindsNothing(g: Registry, a: int, c: Chain, fuel: nat)
    requires g == [Entity(a, [1]), Entity(a, [1])] && IntoSelfLoop(c)
    ensures ValidRegistry(g) && InRegistry(g, c) && GetChildCycles(g, c, fuel) == []
    decreases 6 - |c|
  {
    assert c[0] != c[|c| - 1];
    if |c| == 6 {
      IntoSelfLoopCut(c);
    } else {
      IntoSelfLoopOpen(c);
      if 0 < fuel {
        SingleExtension(g, c, 1, fuel);
        IntoSelfLoopFindsNothing(g, a, c + [1], fuel - 1);
      }
    }
  }

  /** A repeated self-pair is a cycle: the registry read from `a a a a` has
      the one cycle `1 1`, whatever the fuel. */
  lemma SelfPairTwiceCycles(g: Registry, a: int, fuel: nat)
    requires g == [Entity(a, [1]), Entity(a, [1])]
    ensures ValidRegistry(g) && GetCycleDependencies(g, fuel) == [[1, 1]]
  {
    IntoSelfLoopFindsNothing(g, a, [0, 1], fuel);
    EdgeSearch(g, 0, 1, fuel);
    SingleDependencySearch(g, 0, fuel);
    EdgeSearch(g, 1, 1, fuel);
    SingleDependencySearch(g, 1, fuel);
    EntitiesSearch(g, 0, fuel);
    EntitiesSearch(g, 1, fuel);
    assert SearchFromEntities(g, 2, fuel) == [];
    var raw: seq<Chain> := [[1, 1]];
    assert SearchFromEntities(g, 0, fuel) == raw;
    assert !HasEquivalent([], raw[0]);
    DedupKeeps(raw, []);
    assert [] + [raw[0]] == raw;
    assert raw[1..] == [];
  }

  /** End to end: `7 7 7 7` reports the self-loop of the second entity. */
  lemma ReadAndSearchSelfPairTwice(fuel: nat)
    ensures ParseSourceScanner([Number(7), Number(7), Number(7), Number(7)]) == Success([Entity(7, [1]), Entity(7, [1])])
    ensures GetCycleDependencies([Entity(7, [1]), Entity(7, [1])], fuel) == [[1, 1]]
  {
    ParseSelfPairTwice();
    SelfPairTwiceCycles([Entity(7, [1]), Entity(7, [1])], 7, fuel);
  }

  /** End to end: reading `1 2 2 3 3 1` and searching it reports the one
      cycle through the three entities, starting from the first, given fuel
      for the two steps of the walk around it. */
  lemma ReadAndSearchTriangle(fuel: nat)
    requires 2 <= fuel
    ensures var r := ParseSourceScanner([Number(1), Number(2), Number(2), Number(3), Number(3), Number(1)]);
            r.Success? && ValidRegistry(r.value) && GetCycleDependencies(r.value, fuel) == [[0, 1, 2, 0]]
  {
    var g: Registry := [Entity(1, [1]), Entity(2, [2]), Entity(3, [0])];
    ParseTriangle();
    assert IsTriangle(g);
    TriangleCycles(g, fuel);
  }
}

# DependencyResearcher: the cycle search, modelled in Dafny

DependencyResearcher reads a list of integer pairs `entityId dependencyId`. Each pair means "entity `entityId` depends on entity `dependencyId`". It reports every dependency cycle of the resulting graph once, up to rotation.

This project models the program's core:

- **Dependency chains** (`chain.dfy`, module `DependencyChains`). A chain grows with `add` and `addDependencyChain`. It also answers three questions: is it cycled (`isCycled`), does it hold a "parasitic" repeat (`containSubCycles`), and is it the same cycle as another up to rotation (`equalsAsCycles`).
- **The recursive search** (`researcher.dfy`, module `Researcher`):
  - `getChildCycles` runs the search.
  - `getCycleDependencies` seeds one search per dependency edge.
  - `removeDoubles` deduplicates the results.
- **The input reader** (`parser.dfy`, module `Parser`). `parseSourceScanner` runs over a finite sequence of tokens.
- **Shared types.** `entities.dfy` holds the entity registry and `wrappers.dfy` holds `Option`/`Result`.
- **Worked inputs** (`scenarios.dfy`, module `Scenarios`):
  - the three-entity loop `1 2 2 3 3 1`, read and then searched end to end;
  - a self-loop; the input `7 7`, which reads as two entities and reports no cycle; and `7 7 7 7`, which reports the self-loop of the second entity;
  - a loop-free chain;
  - rotations against reflections;
  - the exact placement of the sub-cycle windows;
  - malformed input.

## How the program's objects are represented

- **Entities are positions in a registry.** An entity is `Entity(id, deps)`, and `deps` lists positions in the registry `seq<Entity>`. The program links entities by object reference. `isCycled` compares them with `==`. `containSubCycles`, `equalsAsCycles`, `add` and the reader go through `List.equals` and `List.contains`, that is through `Entity.equals`. `Entity.java` is not part of this model, so the model compares entities by position everywhere, never by identifier.
  - Identifiers are not unique. A pair `x x` with `x` unknown creates two entities with identifier `x`, the first depending on the second, because both identifiers are looked up before either is created (`Scenarios.ParseFreshSelfPair`).
  - As a consequence, the input `7 7` alone reports no cycle (`Scenarios.SelfPairHasNoCycle`). Later pairs on `x` attach to the second entity, since the lookup keeps the last match, and can close cycles through it. A second `x x` makes that entity depend on itself: `7 7 7 7` reports the cycle `1 1` (`Scenarios.ReadAndSearchSelfPairTwice`).
  - The lookup loop does not stop at a match, so the last entity with the identifier wins (`Parser.Lookup`).
- **A chain is a `seq` of positions.** Copying a chain (the program's copy constructor) is a value.
- **Exceptions become values.** `DependencyResearcherException` is modelled as `Result.Failure`:
  - `ChainError` for a refused append;
  - `ParseError.WrongFormat` for an unpaired integer.
  - Inside the search both appends always succeed, and the model proves those failure branches unreachable.
- **The input is a token sequence.** `java.util.Scanner` becomes a `seq<Token>`.
  - `hasNextInt` holds for a `Number` token within the 32-bit signed range.
  - Any other token, or a number outside that range, ends the reading loop without an error.
  - An integer that is not followed by another integer is the format error.
- **The search carries `fuel`.** The recursion in `getChildCycles` is not evidently terminating, so its extension depth is bounded by a `fuel` argument. A branch that runs out of fuel contributes nothing.

Some behaviours of the program are easy to misread; the model follows the code:

- **`containSubCycles` compares windows one entity apart.** The comment at `DependencyResearcher.java:50-52` calls a run repeated "in a row" a parasitic cycle. But `DependencyChainImpl.java:153` puts one entity between the two windows: for length `len` they are `[s, s+len)` and `[s+len+1, s+2len+1)`. An immediately repeated run such as `0 1 0 1 2` is therefore NOT pruned, while `0 1 2 0 1` is (`Scenarios.GappedWindows`).
  - The window length runs up to `size - 1`, not half the size. The inner loop is empty beyond half, so the effect is the same.
- **`isCycled` holds for a one-entity chain.** The first entity is the last one.
- **`addDependencyChain` reads the appended chain's first entity only when this chain is non-empty.** Its precondition is therefore `|c| > 0 ==> |dc| > 0`.
- **A non-integer token is not an error.** It silently ends the input.
- **`removeDoubles` stops at the first chain that is not cycled.** The search only ever returns cycled chains, so the stop never triggers on its output (`Researcher.DeduplicatedSearch`).

## Model

| member | source | states |
|---|---|---|
| DependencyChains.GetDependenciesList | src/com/github/iliaevg/dependencyresearcher/DependencyChainImpl.java:123-130 | an empty chain has no dependencies; otherwise the result is the dependency list of the chain's last entity |
| DependencyChains.WalkAppend | src/com/github/iliaevg/dependencyresearcher/DependencyChainImpl.java:95-130 | a chain extended by `e` is a walk exactly when the chain is a walk, `e` belongs to the registry, and, unless the chain is empty, `e` is among the dependencies of its tail; so, for entities of the registry, `add` accepts exactly the appends that keep a walk a walk |
| DependencyChains.Add | src/com/github/iliaevg/dependencyresearcher/DependencyChainImpl.java:94-102 | an empty chain accepts any entity and becomes `[e]`; the append fails exactly when the chain is non-empty and `e` is not a dependency of its last entity; on success the chain is extended by `e` at the end, with everything before it unchanged |
| DependencyChains.AddKeepsWalk | src/com/github/iliaevg/dependencyresearcher/DependencyChainImpl.java:94-102 | whenever `add` accepts an entity, a walk (each entity a dependency of its predecessor) stays a walk |
| DependencyChains.AddDependencyChain | src/com/github/iliaevg/dependencyresearcher/DependencyChainImpl.java:107-118 | appending to an empty chain gives the appended chain; it fails exactly when this chain is non-empty and the other chain's first entity is not a dependency of this chain's tail; on success the result is this chain followed by all of the other |
| DependencyChains.AddDependencyChainKeepsWalk | src/com/github/iliaevg/dependencyresearcher/DependencyChainImpl.java:107-118 | joining two walks at a checked junction gives a walk: only the junction is checked, and it is the only new link |
| DependencyChains.AddDependencyChainSingleton | src/com/github/iliaevg/dependencyresearcher/DependencyChainImpl.java:94-118 | appending a one-entity chain succeeds exactly when `add` of that entity does, with the same result |
| DependencyChains.IsCycled | src/com/github/iliaevg/dependencyresearcher/DependencyChainImpl.java:135-138 | a one-entity chain is cycled, since its first entity is its last |
| DependencyChains.AddClosesCycle | src/com/github/iliaevg/dependencyresearcher/DependencyChainImpl.java:95-138 | appending to a non-empty chain makes it cycled exactly when the appended entity is the chain's first one |
| DependencyChains.ScanStarts | src/com/github/iliaevg/dependencyresearcher/DependencyChainImpl.java:149-160 | the inner loop finds a match exactly when some start from `start` up to `size - 2*len` has equal windows one entity apart |
| DependencyChains.ScanLengths | src/com/github/iliaevg/dependencyresearcher/DependencyChainImpl.java:147-161 | the outer loop finds a match exactly when some window length of at least `len`, with some start, has equal windows |
| DependencyChains.ContainSubCycles | src/com/github/iliaevg/dependencyresearcher/DependencyChainImpl.java:143-164 | true exactly when the chain has two equal runs of length at least 2 with one entity between them; never true for a chain of at most four entities |
| DependencyChains.MatchesRotationFrom | src/com/github/iliaevg/dependencyresearcher/DependencyChainImpl.java:65-75 | the rotation loop succeeds exactly when the first cycle body equals the second rotated left by some offset from `from` up to its length |
| DependencyChains.EqualsAsCycles | src/com/github/iliaevg/dependencyresearcher/DependencyChainImpl.java:54-76 | true exactly when both chains have the same size, both are cycled, and one body (the chain without its closing entity) is a rotation of the other; chains of at most one entity are never equivalent |
| DependencyChains.RotateInverse | src/com/github/iliaevg/dependencyresearcher/DependencyChainImpl.java:65-69 | rotating left by `i` and then by the complement restores the body |
| DependencyChains.RotateCompose | src/com/github/iliaevg/dependencyresearcher/DependencyChainImpl.java:65-69 | two rotations compose into one, with offsets adding modulo the length |
| DependencyChains.EquivalentBack | src/com/github/iliaevg/dependencyresearcher/DependencyChainImpl.java:54-76 | if `a` is a rotation of `b`, then `b` is a rotation of `a` |
| DependencyChains.EqualsAsCyclesSymmetric | src/com/github/iliaevg/dependencyresearcher/DependencyChainImpl.java:54-76 | equivalence as cycles does not depend on argument order |
| DependencyChains.EqualsAsCyclesReflexive | src/com/github/iliaevg/dependencyresearcher/DependencyChainImpl.java:54-76 | every cycled chain of two or more entities is equivalent to itself |
| DependencyChains.SelfEquivalentIffCycled | src/com/github/iliaevg/dependencyresearcher/DependencyChainImpl.java:54-76 | a chain is equivalent to itself as a cycle exactly when it is cycled and has at least two entities |
| DependencyChains.EqualsAsCyclesTransitive | src/com/github/iliaevg/dependencyresearcher/DependencyChainImpl.java:54-76 | equivalence as cycles is transitive, so deduplication classes are well defined |
| DependencyChains.ChainEquals | src/com/github/iliaevg/dependencyresearcher/DependencyChainImpl.java:186-197 | two chains are equal exactly when they hold the same entities in the same order |
| Researcher.ClosedBySearchStep | src/com/github/iliaevg/dependencyresearcher/DependencyResearcher.java:57-64 | a result reachable from an extended chain is reachable from the chain itself, provided the chain was neither cycled nor pruned |
| Researcher.GetChildCycles | src/com/github/iliaevg/dependencyresearcher/DependencyResearcher.java:40-66 | a cycled chain is its own only result; a chain with a sub-cycle yields nothing; every result extends the chain, is cycled, and passed only through chains that were neither cycled nor pruned; when the chain is a walk, every result is a walk |
| Researcher.ExtendEach | src/com/github/iliaevg/dependencyresearcher/DependencyResearcher.java:57-65 | the loop over the tail's dependencies returns only results reachable from the chain, which are walks when the chain is one |
| Researcher.ExtendedAllClosed | src/com/github/iliaevg/dependencyresearcher/DependencyResearcher.java:59-63 | results found from the chain extended by one dependency of its tail are results of the chain |
| Researcher.CycledPrefix | src/com/github/iliaevg/dependencyresearcher/DependencyResearcher.java:77-81 | the deduplication stops at the first chain that is not cycled: every chain before that point is cycled |
| Researcher.RemoveDoublesFrom | src/com/github/iliaevg/dependencyresearcher/DependencyResearcher.java:73-97 | the result is exactly the accepted chains followed, in input order, by each input chain before the stop point that opens a new rotation class: equivalent to no accepted chain and to no earlier input chain (`FirstOfClass`); hence the kept chains are cycled, pairwise inequivalent, and every input chain before the stop point is kept or has an equivalent kept chain |
| Researcher.RemoveDoublesStep | src/com/github/iliaevg/dependencyresearcher/DependencyResearcher.java:77-94 | one pass of the loop, keeping or skipping a chain, preserves the order and cover properties of the result |
| Researcher.RemoveDoublesStepOrder | src/com/github/iliaevg/dependencyresearcher/DependencyResearcher.java:83-93 | after a keep or a skip, the kept chains are still a subsequence of the input |
| Researcher.RemoveDoublesStepCover | src/com/github/iliaevg/dependencyresearcher/DependencyResearcher.java:83-93 | after a keep or a skip, the current chain is represented among the kept ones |
| Researcher.FirstOfClassShift | src/com/github/iliaevg/dependencyresearcher/DependencyResearcher.java:77-94 | the reference result of the loop over a list equals its verdict on the first chain followed by the reference result over the rest, with that chain added to the accepted ones when kept |
| Researcher.OpensClassShift | src/com/github/iliaevg/dependencyresearcher/DependencyResearcher.java:83-93 | a later chain opens a new class against the accepted chains exactly when it opens one against the rest of the list once the first chain has been judged |
| Researcher.RemoveDoublesMatchesReference | src/com/github/iliaevg/dependencyresearcher/DependencyResearcher.java:77-94 | one pass of the loop followed by the loop over the rest gives the reference result over the whole list |
| Researcher.FirstOfClassMembers | src/com/github/iliaevg/dependencyresearcher/DependencyResearcher.java:77-94 | every chain of the reference result is an input chain, before the bound, that opens a new class |
| Researcher.FirstOfClassHas | src/com/github/iliaevg/dependencyresearcher/DependencyResearcher.java:77-94 | every input chain before the bound that opens a new class is in the reference result |
| Researcher.RemoveDoublesKeepsFirst | src/com/github/iliaevg/dependencyresearcher/DependencyResearcher.java:77-94 | every chain the loop keeps is the first input chain of its rotation class: a later equivalent chain is skipped, never kept in its place |
| Researcher.RemoveDoublesKeepsFresh | src/com/github/iliaevg/dependencyresearcher/DependencyResearcher.java:77-94 | the loop keeps every input chain before the stop point that is equivalent neither to a chain kept beforehand nor to an earlier input chain, one-entity chains included; derived from the exact result |
| Researcher.RemoveDoubles | src/com/github/iliaevg/dependencyresearcher/DependencyResearcher.java:73-97 | the result is exactly, in input order, each input chain before the stop point that is equivalent to no earlier input chain (`FirstOfClass` with nothing accepted); so it is a subsequence of the input, holds cycled and pairwise inequivalent chains, represents every input chain before the stop point, and keeps each class by its first chain |
| Researcher.WholeListDeduplicated | src/com/github/iliaevg/dependencyresearcher/DependencyResearcher.java:159-174 | on a list whose chains are all cycled, the loop never stops early, and its result is the first chain of every rotation class of the whole list, in order |
| Researcher.SearchFromEdge | src/com/github/iliaevg/dependencyresearcher/DependencyResearcher.java:164-168 | every cycle found from the edge `e -> d` starts with `e, d`, is a walk, and was reached from the base chain `[e, d]` |
| Researcher.EdgeResults | src/com/github/iliaevg/dependencyresearcher/DependencyResearcher.java:165-168 | every result of the search from the base chain `[e, d]` starts with `e, d`, was reached from it, and is a walk |
| Researcher.SearchFromDependencies | src/com/github/iliaevg/dependencyresearcher/DependencyResearcher.java:164-169 | every cycle found from entity `e` starts at `e` and continues with one of its dependencies from position `j` on; each is a cycled walk; an entity without dependencies yields nothing; the cycles follow the order of the dependency list |
| Researcher.DependencyOrderJoin | src/com/github/iliaevg/dependencyresearcher/DependencyResearcher.java:164-169 | the cycles through the dependency at position `j`, followed by those through later positions, are in dependency order |
| Researcher.SearchFromEntities | src/com/github/iliaevg/dependencyresearcher/DependencyResearcher.java:163-170 | every raw cycle is a cycled walk from an entity at or after `e` through one of its dependencies; the cycles are in seeding order: by first entity in registry order, and within an entity by dependency order; nothing is found when no entity has a dependency |
| Researcher.EntityOrderJoin | src/com/github/iliaevg/dependencyresearcher/DependencyResearcher.java:163-170 | the cycles of entity `e`, followed by those of later entities, are in seeding order |
| Researcher.CycledPrefixAll | src/com/github/iliaevg/dependencyresearcher/DependencyResearcher.java:79-81 | when every chain is cycled, the deduplication never stops early |
| Researcher.SubsequenceOrdered | src/com/github/iliaevg/dependencyresearcher/DependencyResearcher.java:84-93 | keeping only some chains of a list in seeding order keeps it in seeding order |
| Researcher.DistinctCyclesBothWays | src/com/github/iliaevg/dependencyresearcher/DependencyResearcher.java:84-88 | kept chains are inequivalent whichever of the two is compared first |
| Researcher.DeduplicatedSearch | src/com/github/iliaevg/dependencyresearcher/DependencyResearcher.java:159-174 | deduplicating the raw search keeps cycled walks in seeding order, pairwise inequivalent; the result is exactly the first raw cycle of every rotation class, in the order the search found them |
| Researcher.GetCycleDependencies | src/com/github/iliaevg/dependencyresearcher/DependencyResearcher.java:159-174 | the reported cycles are exactly the first cycle of each rotation class among those the search found, in the order their searches were seeded (entity, then dependency); they are cycled walks of the graph, pairwise inequivalent, and every found cycle has an equivalent reported; a graph without edges has no cycles |
| Researcher.ForwardWalkRises | src/com/github/iliaevg/dependencyresearcher/DependencyResearcher.java:163-168 | in a registry whose dependencies all point to later entities, every walk only moves forward |
| Researcher.ForwardRegistryHasNoCycles | src/com/github/iliaevg/dependencyresearcher/DependencyResearcher.java:159-174 | a registry whose dependencies all point to later entities has no reported cycle, whatever the fuel |
| Parser.LeadingInts | src/com/github/iliaevg/dependencyresearcher/DependencyResearcher.java:109-116 | counts the integer tokens the reading loop can see: all tokens before the count are integers, and the token at the count is not |
| Parser.Pairs | src/com/github/iliaevg/dependencyresearcher/DependencyResearcher.java:109-116 | the reading loop takes half the leading integers as pairs, rounding down |
| Parser.PairAt | src/com/github/iliaevg/dependencyresearcher/DependencyResearcher.java:112-116 | pair `k` is made of the integer tokens at positions `2k` and `2k+1` |
| Parser.FindLast | src/com/github/iliaevg/dependencyresearcher/DependencyResearcher.java:125-132 | the lookup loop returns an entity with the identifier such that no later entity has it, or none when no entity has it |
| Parser.Lookup | src/com/github/iliaevg/dependencyresearcher/DependencyResearcher.java:125-132 | nothing is found exactly when the identifier is not in the registry; otherwise the result is the last entity with that identifier |
| Parser.Obtain | src/com/github/iliaevg/dependencyresearcher/DependencyResearcher.java:134-141 | a found entity is reused; otherwise a fresh entity with no dependencies is appended; either way the result carries the identifier |
| Parser.ObtainKeeps | src/com/github/iliaevg/dependencyresearcher/DependencyResearcher.java:134-141 | obtaining an entity only ever appends, keeps the registry well formed, and adds the identifier exactly when it was not found |
| Parser.AddDependency | src/com/github/iliaevg/dependencyresearcher/DependencyResearcher.java:144-146 | the dependency is appended to the entity's list unless it is already there; no other entity changes, and nothing else is added |
| Parser.AddDependencyKeeps | src/com/github/iliaevg/dependencyresearcher/DependencyResearcher.java:144-146 | recording a dependency keeps references in range, keeps lists free of duplicates, and keeps identifiers |
| Parser.Register | src/com/github/iliaevg/dependencyresearcher/DependencyResearcher.java:111-146 | reading one pair keeps the registry well formed and only appends entities or extends dependency lists |
| Parser.RegisterEffects | src/com/github/iliaevg/dependencyresearcher/DependencyResearcher.java:120-146 | after one pair, the identifiers that were not yet known are appended (entity before dependency), the edge `a -> b` exists, and no other new edge appears |
| Parser.RegisterBothNew | src/com/github/iliaevg/dependencyresearcher/DependencyResearcher.java:120-146 | a pair of two unknown identifiers appends two entities, the first depending on the second, even when the identifiers are equal |
| Parser.RegisterFacts | src/com/github/iliaevg/dependencyresearcher/DependencyResearcher.java:120-146 | the registry after a pair's lookups, creations and recording grows the old one, carries the new identifiers, and gains only the pair's edge |
| Parser.ParseFrom | src/com/github/iliaevg/dependencyresearcher/DependencyResearcher.java:109-147 | the reading loop fails exactly when the run of leading integers has odd length; on success the registry is well formed and grows the starting one |
| Parser.ParseRecordsEveryPair | src/com/github/iliaevg/dependencyresearcher/DependencyResearcher.java:109-147 | every pair read appears as an edge between entities with those identifiers |
| Parser.ParseAddsOnlyInputEdges | src/com/github/iliaevg/dependencyresearcher/DependencyResearcher.java:109-147 | every edge of the result was already present or joins the identifiers of a pair read |
| Parser.ParseIdsInFirstAppearanceOrder | src/com/github/iliaevg/dependencyresearcher/DependencyResearcher.java:120-141 | the entities' identifiers follow the order of first appearance, agreeing with an independent definition over the pairs |
| Parser.ParseStopsAtNonInt | src/com/github/iliaevg/dependencyresearcher/DependencyResearcher.java:109 | tokens after the first one that is not an integer never affect the result |
| Parser.ParseSourceScanner | src/com/github/iliaevg/dependencyresearcher/DependencyResearcher.java:105-150 | reading fails exactly on an unpaired leading integer; otherwise the registry is well formed with duplicate-free dependency lists; the pairs read are exactly its edges; its identifiers are in first-appearance order; only the leading integers matter |
| Scenarios.RotationNotReflection | src/com/github/iliaevg/dependencyresearcher/DependencyChainImpl.java:49-76 | `1 2 1` and `2 1 2` are one cycle, while a three-entity cycle and its reversal are not |
| Scenarios.GappedWindows | src/com/github/iliaevg/dependencyresearcher/DependencyChainImpl.java:147-160 | `0 1 0 1 2` has no sub-cycle for the scan, but `0 1 2 0 1` has one |
| Scenarios.ParseFreshSelfPair | src/com/github/iliaevg/dependencyresearcher/DependencyResearcher.java:120-141 | `5 5` creates two entities with identifier 5, the first depending on the second |
| Scenarios.ParseOddCount | src/com/github/iliaevg/dependencyresearcher/DependencyResearcher.java:112-115 | `1 2 3` is a format error |
| Scenarios.ParseStopsAtWord | src/com/github/iliaevg/dependencyresearcher/DependencyResearcher.java:109 | in `1 2 x 3`, the word ends the input and the `3` is never read |
| Scenarios.ParseTriangle | src/com/github/iliaevg/dependencyresearcher/DependencyResearcher.java:105-150 | `1 2 2 3 3 1` reads as three entities in a loop |
| Scenarios.LoopSeed | src/com/github/iliaevg/dependencyresearcher/DependencyResearcher.java:40-66 | from the edge of a three-entity loop of single dependencies, with any fuel of at least two, the search goes once around and returns that one walk |
| Scenarios.TriangleSearch | src/com/github/iliaevg/dependencyresearcher/DependencyResearcher.java:163-170 | on the three-entity loop, with any fuel of at least two, the raw search finds the cycle once from each edge, in entity order |
| Scenarios.DedupRotations | src/com/github/iliaevg/dependencyresearcher/DependencyResearcher.java:73-97 | a cycle followed by two of its rotations deduplicates to the cycle alone |
| Scenarios.TriangleCycles | src/com/github/iliaevg/dependencyresearcher/DependencyResearcher.java:159-174 | with any fuel of at least two, the three-entity loop has exactly one reported cycle, starting at the first entity |
| Scenarios.SelfLoopCycle | src/com/github/iliaevg/dependencyresearcher/DependencyResearcher.java:159-174 | for every fuel, a one-entity registry whose entity depends on itself has one cycle of two entries; the reader builds a self-loop only on an entity that already exists, see `Scenarios.ReadAndSearchSelfPairTwice` |
| Scenarios.ChainHasNoCycle | src/com/github/iliaevg/dependencyresearcher/DependencyResearcher.java:159-174 | the chain `1 2`, `2 3` has no cycle, whatever the fuel |
| Scenarios.SelfPairHasNoCycle | src/com/github/iliaevg/dependencyresearcher/DependencyResearcher.java:120-174 | the input `7 7` alone reads as two entities with identifier 7, the first depending on the second, and the search reports no cycle, whatever the fuel |
| Scenarios.OneEdgeHasNoCycle | src/com/github/iliaevg/dependencyresearcher/DependencyResearcher.java:159-174 | two entities with a single edge from the first to the second have no cycle |
| Scenarios.RepeatedSelfPair | src/com/github/iliaevg/dependencyresearcher/DependencyResearcher.java:120-146 | a second pair `a a` finds the second entity with identifier `a` for both sides, since the lookup keeps the last match, and makes it depend on itself |
| Scenarios.ParseSelfPairTwice | src/com/github/iliaevg/dependencyresearcher/DependencyResearcher.java:105-150 | `7 7 7 7` reads as two entities with identifier 7, the first depending on the second and the second on itself |
| Scenarios.IntoSelfLoopFindsNothing | src/com/github/iliaevg/dependencyresearcher/DependencyResearcher.java:40-66 | from `0 1 ... 1`, with entity 1 depending only on itself, the search finds nothing: it circles the self-loop until the sub-cycle scan cuts `0 1 1 1 1 1` or the fuel runs out |
| Scenarios.SelfPairTwiceCycles | src/com/github/iliaevg/dependencyresearcher/DependencyResearcher.java:159-174 | the registry read from `a a a a` has exactly the cycle `1 1`, whatever the fuel |
| Scenarios.ReadAndSearchSelfPairTwice | src/com/github/iliaevg/dependencyresearcher/DependencyResearcher.java:105-174 | end to end, `7 7 7 7` reports the one cycle `1 1`, whatever the fuel |
| Scenarios.ReadAndSearchTriangle | src/com/github/iliaevg/dependencyresearcher/DependencyResearcher.java:105-174 | with any fuel of at least two, reading `1 2 2 3 3 1` and searching the result reports the single cycle `0 1 2 0` |

## Left out

- `main`, `getDependencyCyclesPrintView`, `formattedView` and `toString` are left out. They handle command-line handling, file and console I/O, logging, sorting for display and text formatting.
- `size`, `getListValue`, `iterator` and the three constructors are left out. They are accessors or copies; a chain is a `seq` value here.
- `DependencyChain.java` is left out. It only declares the chain operations, which are modelled on the implementation.
- `Entity.java` is not part of this model. Entities are compared by position, matching the reference comparison `==` in `isCycled`. `List.contains` and `List.equals` call `Entity.equals`, which is taken to be the identity comparison inherited from `Object`, so they are modelled by the same comparison.
- DependencyChains.AddDependencyChain: appending an empty chain to a non-empty one is excluded by the precondition `|c| > 0 ==> |dc| > 0`. The program reads `dc.value.get(0)` and would throw `IndexOutOfBoundsException` (`DependencyChainImpl.java:110`). Nothing in the program calls `addDependencyChain`.
- DependencyChains.IsCycled: an empty chain is excluded by the precondition. The program reads `value.get(0)` and would throw `IndexOutOfBoundsException` (`DependencyChainImpl.java:137`). The search never asks it of an empty chain.
- DependencyChains.EqualsAsCycles: two empty chains are excluded by the precondition. The sizes agree, so the program goes on to `isCycled` and throws (`DependencyChainImpl.java:56-58`). The deduplication never compares empty chains.
- `java.util.Scanner` is replaced by a token sequence. Reading from a file or standard input, and `Scanner`'s own number syntax, are not modelled.
- The search is not shown to terminate, and its results are not shown to be complete. `getChildCycles` carries a `fuel` bound, and a branch that runs out of fuel contributes nothing. So the model states which cycles the search CAN return, not that it returns all cycles of the graph.
- Researcher.GetChildCycles: soundness only (every result is a closed, unpruned extension of the chain), not completeness, because of the fuel bound.
- Researcher.GetCycleDependencies: its result is exact only with respect to the fuel-bounded search; it is not shown to hold every cycle of the graph, for the same reason.
- DependencyChains.IsCycled: the contract states only the one-entity case. The comparison of first and last entity is the definition itself. Its partner is `DependencyChains.AddClosesCycle`, which relates it to `add`.
- The program mutates an entity's dependency list in place while reading, and chains share those lists by reference. The model builds the registry first and searches it afterwards, which is the order the program follows, so the aliasing is not observable.
- Running the search twice gives the same result. This holds trivially in the model because every operation is a pure function, so it is not stated separately.

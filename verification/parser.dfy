/**
 * Building the registry from the input: integers are read in pairs
 * `entityId dependencyId`, entities are created the first time their
 * identifier is looked up without success, and each pair appends the
 * dependency to the entity's list unless it is already there.
 *
 * The input stream is modelled as a finite sequence of tokens.
 */
module Parser {
  import opened Wrappers
  import opened Entities

  /** A whitespace-separated token of the input. */
  datatype Token = Number(value: int) | Word(text: string)

  /** The range of a 32-bit signed integer. */
  const IntMin: int := -0x8000_0000
  const IntMax: int := 0x7FFF_FFFF

  /** The reader accepts the token as an integer: a number that fits in 32 bits. */
  predicate IsInt(t: Token) {
    t.Number? && IntMin <= t.value <= IntMax
  }

  datatype ParseError = WrongFormat

  // ---------------------------------------------------------------------------
  // What the reader sees
  // ---------------------------------------------------------------------------

  /** The number of integer tokens before the first token that is not one. */
  function LeadingInts(ts: seq<Token>): (n: nat)
    ensures n <= |ts|
    ensures forall k :: 0 <= k < n ==> IsInt(ts[k])
    ensures n < |ts| ==> !IsInt(ts[n])
  {
    if |ts| == 0 || !IsInt(ts[0]) then 0 else 1 + LeadingInts(ts[1..])
  }

  /** Two integers in front add two to the leading run. */
  lemma {:induction false} LeadingIntsStep(ts: seq<Token>)
    requires 2 <= |ts| && IsInt(ts[0]) && IsInt(ts[1])
    ensures LeadingInts(ts) == 2 + LeadingInts(ts[2..])
  {
    assert ts[1..][1..] == ts[2..];
  }

  /** A lone integer in front, not followed by another, is the whole leading run. */
  lemma {:induction false} LeadingIntsOne(ts: seq<Token>)
    requires 1 <= |ts| && IsInt(ts[0]) && (|ts| == 1 || !IsInt(ts[1]))
    ensures LeadingInts(ts) == 1
  {
    assert LeadingInts(ts) == 1 + LeadingInts(ts[1..]);
  }

  /** The pairs read from the leading run of integers; an unpaired last integer is not a pair. */
  function Pairs(ts: seq<Token>): (ps: seq<(int, int)>)
    ensures |ps| == LeadingInts(ts) / 2
  {
    if |ts| == 0 || !IsInt(ts[0]) then []
    else if |ts| == 1 || !IsInt(ts[1]) then
      LeadingIntsOne(ts);
      []
    else
      LeadingIntsStep(ts);
      [(ts[0].value, ts[1].value)] + Pairs(ts[2..])
  }

  /** The k-th pair is made of the tokens at positions 2k and 2k+1, both integers. */
  lemma {:induction false} PairAt(ts: seq<Token>, k: nat)
    requires k < |Pairs(ts)|
    ensures IsInt(ts[2 * k]) && IsInt(ts[2 * k + 1])
    ensures Pairs(ts)[k] == (ts[2 * k].value, ts[2 * k + 1].value)
  {
    if k > 0 {
      PairAt(ts[2..], k - 1);
      assert ts[2..][2 * (k - 1)] == ts[2 * k];
      assert ts[2..][2 * (k - 1) + 1] == ts[2 * k + 1];
    }
  }

  // ---------------------------------------------------------------------------
  // Registry updates
  // ---------------------------------------------------------------------------

  /** The lookup loop from position `i` on, with `found` the last match so
      far. It does not stop at a match, so the LAST entity with the
      identifier wins. */
  function FindLast(g: Registry, id: int, i: nat, found: Option<EntityRef>): (r: Option<EntityRef>)
    requires i <= |g|
    requires found.Some? ==> found.value < i && g[found.value].id == id
    requires found.Some? ==> forall j :: found.value < j < i ==> g[j].id != id
    requires found.None? ==> forall j :: 0 <= j < i ==> g[j].id != id
    ensures r.Some? ==> r.value < |g| && g[r.value].id == id && forall j :: r.value < j < |g| ==> g[j].id != id
    ensures r.None? ==> forall j :: 0 <= j < |g| ==> g[j].id != id
    decreases |g| - i
  {
    if i == |g| then found
    else FindLast(g, id, i + 1, if g[i].id == id then Some(i) else found)
  }

  /** The last entity of the registry with identifier `id`, if any. */
  function Lookup(g: Registry, id: int): (r: Option<EntityRef>)
    ensures r.None? <==> id !in Ids(g)
    ensures r.Some? ==> r.value < |g| && g[r.value].id == id && forall j :: r.value < j < |g| ==> g[j].id != id
  {
    FindLast(g, id, 0, None)
  }

  /** Uses the entity found by the lookup, or appends a fresh entity with no dependencies. */
  function Obtain(g: Registry, found: Option<EntityRef>, id: int): (r: (Registry, EntityRef))
    requires found.Some? ==> found.value < |g| && g[found.value].id == id
    ensures r.1 < |r.0| && r.0[r.1].id == id
    ensures found.Some? ==> r == (g, found.value)
    ensures found.None? ==> r.0 == g + [Entity(id, [])] && r.1 == |g|
  {
    if found.Some? then (g, found.value) else (g + [Entity(id, [])], |g|)
  }

  /** Obtaining an entity keeps the registry well formed and only ever appends. */
  lemma {:induction false} ObtainKeeps(g: Registry, found: Option<EntityRef>, id: int)
    requires ValidRegistry(g) && DistinctDeps(g)
    requires found.Some? ==> found.value < |g| && g[found.value].id == id
    ensures ValidRegistry(Obtain(g, found, id).0) && DistinctDeps(Obtain(g, found, id).0)
    ensures Ids(Obtain(g, found, id).0) == Ids(g) + (if found.None? then [id] else [])
    ensures g <= Obtain(g, found, id).0
  {
    var r := Obtain(g, found, id).0;
    assert forall k :: 0 <= k < |g| ==> r[k] == g[k];
    assert Ids(r) == Ids(g) + (if found.None? then [id] else []);
  }

  /** Appends `di` to the dependencies of `ci` unless it is already there. */
  function AddDependency(g: Registry, ci: EntityRef, di: EntityRef): (r: Registry)
    requires ci < |g|
    ensures |r| == |g| && r[ci].id == g[ci].id
    ensures forall k :: 0 <= k < |g| && k != ci ==> r[k] == g[k]
    ensures di in r[ci].deps
    ensures g[ci].deps <= r[ci].deps
    ensures forall x :: x in r[ci].deps ==> x in g[ci].deps || x == di
    ensures di in g[ci].deps ==> r == g
    ensures di !in g[ci].deps ==> r[ci].deps == g[ci].deps + [di]
  {
    if di in g[ci].deps then g
    else g[ci := Entity(g[ci].id, g[ci].deps + [di])]
  }

  /** Adding a dependency keeps the registry well formed, keeps identifiers, and only extends lists. */
  lemma {:induction false} AddDependencyKeeps(g: Registry, ci: EntityRef, di: EntityRef)
    requires ValidRegistry(g) && DistinctDeps(g) && ci < |g| && di < |g|
    ensures ValidRegistry(AddDependency(g, ci, di)) && DistinctDeps(AddDependency(g, ci, di))
    ensures Ids(AddDependency(g, ci, di)) == Ids(g)
    ensures Grows(g, AddDependency(g, ci, di))
  {
    var r := AddDependency(g, ci, di);
    if di !in g[ci].deps {
      forall k, j | 0 <= k < |r| && 0 <= j < |r[k].deps|
        ensures r[k].deps[j] < |r|
      {
        if k == ci && j == |g[ci].deps| {
        } else {
          assert r[k].deps[j] == g[k].deps[j];
        }
      }
      forall k, i, j | 0 <= k < |r| && 0 <= i < j < |r[k].deps|
        ensures r[k].deps[i] != r[k].deps[j]
      {
        if k == ci && j == |g[ci].deps| {
          assert r[k].deps[i] == g[ci].deps[i];
        }
      }
    }
    assert Ids(r) == Ids(g);
  }

  /** The identifiers a pair introduces, entity before dependency; both are
      looked up before either is created, so a fresh `x x` introduces `x` twice. */
  function NewIds(ids: seq<int>, a: int, b: int): seq<int> {
    (if a in ids then [] else [a]) + (if b in ids then [] else [b])
  }

  /** The identifiers after reading `ps`, starting from `ids`: a reference
      definition that tracks identifiers only. */
  function IdsAfter(ids: seq<int>, ps: seq<(int, int)>): seq<int>
    decreases |ps|
  {
    if |ps| == 0 then ids else IdsAfter(ids + NewIds(ids, ps[0].0, ps[0].1), ps[1..])
  }

  /** `r` is `g` with entities appended and dependency lists extended at
      their ends: nothing earlier is changed or reordered. */
  ghost predicate Grows(g: Registry, r: Registry) {
    && |g| <= |r|
    && forall k :: 0 <= k < |g| ==> r[k].id == g[k].id && g[k].deps <= r[k].deps
  }

  /** Some entity with identifier `a` has some entity with identifier `b` among its dependencies. */
  ghost predicate HasEdge(g: Registry, a: int, b: int) {
    exists i, j :: 0 <= i < |g| && 0 <= j < |g| && g[i].id == a && g[j].id == b && j in g[i].deps
  }

  /** Every edge of `r` was already an edge of `g` or joins the identifiers of some pair of `ps`. */
  ghost predicate EdgesExplained(r: Registry, g: Registry, ps: seq<(int, int)>) {
    forall i, j :: 0 <= i < |r| && 0 <= j < |r| && j in r[i].deps ==>
      (i < |g| && j in g[i].deps) || (r[i].id, r[j].id) in ps
  }

  /** Reads one pair into the registry: looks both identifiers up, creates
      the entities not found (entity first), and records the dependency. */
  function Register(g: Registry, a: int, b: int): (r: Registry)
    requires ValidRegistry(g) && DistinctDeps(g)
    ensures ValidRegistry(r) && DistinctDeps(r)
    ensures Grows(g, r)
  {
    var cur := Lookup(g, a);
    var dep := Lookup(g, b);
    var (g1, ci) := Obtain(g, cur, a);
    ObtainKeeps(g, cur, a);
    var (g2, di) := Obtain(g1, dep, b);
    ObtainKeeps(g1, dep, b);
    AddDependencyKeeps(g2, ci, di);
    var r := AddDependency(g2, ci, di);
    RegisterFacts(g, a, b, g1, ci, g2, di, r);
    r
  }

  /** What reading one pair does: the pair's identifiers that were not yet
      known are appended, entity before dependency; the dependency is recorded;
      and no other edge appears. */
  lemma {:induction false} RegisterEffects(g: Registry, a: int, b: int)
    requires ValidRegistry(g) && DistinctDeps(g)
    ensures Ids(Register(g, a, b)) == Ids(g) + NewIds(Ids(g), a, b)
    ensures HasEdge(Register(g, a, b), a, b)
    ensures EdgesExplained(Register(g, a, b), g, [(a, b)])
  {
    var cur := Lookup(g, a);
    var dep := Lookup(g, b);
    var (g1, ci) := Obtain(g, cur, a);
    ObtainKeeps(g, cur, a);
    var (g2, di) := Obtain(g1, dep, b);
    ObtainKeeps(g1, dep, b);
    AddDependencyKeeps(g2, ci, di);
    RegisterFacts(g, a, b, g1, ci, g2, di, AddDependency(g2, ci, di));
  }

  /** A pair of two unknown identifiers appends two entities, the first
      depending on the second, even when the identifiers are equal. */
  lemma {:induction false} RegisterBothNew(g: Registry, a: int, b: int)
    requires ValidRegistry(g) && DistinctDeps(g)
    requires a !in Ids(g) && b !in Ids(g)
    ensures Register(g, a, b) == g + [Entity(a, [|g| + 1]), Entity(b, [])]
  {
    var g1 := g + [Entity(a, [])];
    assert Obtain(g, None, a) == (g1, |g|);
    assert Obtain(g1, None, b) == (g1 + [Entity(b, [])], |g| + 1);
    var g2 := g1 + [Entity(b, [])];
    assert g2[|g|] == Entity(a, []);
    assert g2[|g|].deps + [|g| + 1] == [|g| + 1];
    assert AddDependency(g2, |g|, |g| + 1) == g2[|g| := Entity(a, [|g| + 1])];
    assert g2[|g| := Entity(a, [|g| + 1])] == g + [Entity(a, [|g| + 1]), Entity(b, [])];
  }

  /** The growth, edge and identifier facts of `Register`. */
  lemma {:induction false} RegisterFacts(g: Registry, a: int, b: int,
                                         g1: Registry, ci: EntityRef, g2: Registry, di: EntityRef, r: Registry)
    requires g <= g1 <= g2
    requires Ids(g1) == Ids(g) + (if Lookup(g, a).None? then [a] else [])
    requires Ids(g2) == Ids(g1) + (if Lookup(g, b).None? then [b] else [])
    requires ValidRegistry(g) && ci < |g2| && di < |g2| && g2[ci].id == a && g2[di].id == b
    requires forall k :: |g| <= k < |g2| ==> g2[k].deps == []
    requires r == AddDependency(g2, ci, di)
    requires Grows(g2, r) && Ids(r) == Ids(g2)
    ensures Grows(g, r)
    ensures Ids(r) == Ids(g) + NewIds(Ids(g), a, b)
    ensures HasEdge(r, a, b)
    ensures EdgesExplained(r, g, [(a, b)])
  {
    assert r[ci].id == a && r[di].id == b;
    assert HasEdge(r, a, b);
    forall k | 0 <= k < |g|
      ensures r[k].id == g[k].id && g[k].deps <= r[k].deps
    {
      assert g2[k] == g[k];
    }
    forall i, j | 0 <= i < |r| && 0 <= j < |r| && j in r[i].deps
      ensures (i < |g| && j in g[i].deps) || (r[i].id, r[j].id) in [(a, b)]
    {
      if i != ci {
        assert r[i] == g2[i];
      }
      if i < |g| {
        assert g2[i] == g[i];
      }
    }
  }

  // ---------------------------------------------------------------------------
  // The reading loop
  // ---------------------------------------------------------------------------

  /** Reads pairs while the next token is an integer; an integer without an
      integer partner is a format error; the first other token ends the input. */
  function ParseFrom(ts: seq<Token>, g: Registry): (r: Result<Registry, ParseError>)
    requires ValidRegistry(g) && DistinctDeps(g)
    ensures r.Failure? <==> LeadingInts(ts) % 2 == 1
    ensures r.Success? ==> ValidRegistry(r.value) && DistinctDeps(r.value) && Grows(g, r.value)
    decreases |ts|
  {
    if |ts| == 0 || !IsInt(ts[0]) then Success(g)
    else if |ts| == 1 || !IsInt(ts[1]) then
      LeadingIntsOne(ts);
      Failure(WrongFormat)
    else
      var g' := Register(g, ts[0].value, ts[1].value);
      LeadingIntsStep(ts);
      assert LeadingInts(ts) % 2 == LeadingInts(ts[2..]) % 2;
      var r := ParseFrom(ts[2..], g');
      GrowsTransitive(g, g', r);
      r
  }

  /** Growth composes. */
  lemma {:induction false} GrowsTransitive(g: Registry, g': Registry, r: Result<Registry, ParseError>)
    requires Grows(g, g')
    requires r.Success? ==> Grows(g', r.value)
    ensures r.Success? ==> Grows(g, r.value)
  {
    if r.Success? {
      forall k | 0 <= k < |g|
        ensures g[k].deps <= r.value[k].deps
      {
        assert g[k].deps <= g'[k].deps <= r.value[k].deps;
      }
    }
  }

  /** An edge survives growth. */
  lemma {:induction false} HasEdgeGrows(g: Registry, r: Registry, a: int, b: int)
    requires Grows(g, r) && HasEdge(g, a, b)
    ensures HasEdge(r, a, b)
  {
    var i, j :| 0 <= i < |g| && 0 <= j < |g| && g[i].id == a && g[j].id == b && j in g[i].deps;
    assert g[i].deps <= r[i].deps;
    var m :| 0 <= m < |g[i].deps| && g[i].deps[m] == j;
    assert r[i].deps[m] == j;
  }

  // ---------------------------------------------------------------------------
  // What the reading loop builds
  // ---------------------------------------------------------------------------

  /** Every pair read leaves the dependency's entity in the entity's dependency list. */
  lemma {:induction false} ParseRecordsEveryPair(ts: seq<Token>, g: Registry)
    requires ValidRegistry(g) && DistinctDeps(g)
    ensures ParseFrom(ts, g).Success? ==>
      forall k :: 0 <= k < |Pairs(ts)| ==> HasEdge(ParseFrom(ts, g).value, Pairs(ts)[k].0, Pairs(ts)[k].1)
    decreases |ts|
  {
    if 2 <= |ts| && IsInt(ts[0]) && IsInt(ts[1]) && ParseFrom(ts, g).Success? {
      var a, b := ts[0].value, ts[1].value;
      var g' := Register(g, a, b);
      var r := ParseFrom(ts[2..], g');
      assert ParseFrom(ts, g) == r;
      ParseRecordsEveryPair(ts[2..], g');
      RegisterEffects(g, a, b);
      HasEdgeGrows(g', r.value, a, b);
      var ps := Pairs(ts);
      assert ps == [(a, b)] + Pairs(ts[2..]);
      forall k | 0 <= k < |ps|
        ensures HasEdge(r.value, ps[k].0, ps[k].1)
      {
        if k > 0 {
          assert ps[k] == Pairs(ts[2..])[k - 1];
        }
      }
    }
  }

  /** Explanations compose across two stages of growth. */
  lemma {:induction false} EdgesExplainedCompose(g: Registry, g': Registry, r: Registry, p: (int, int), ps: seq<(int, int)>)
    requires ValidRegistry(g') && Grows(g', r)
    requires EdgesExplained(g', g, [p])
    requires EdgesExplained(r, g', ps)
    ensures EdgesExplained(r, g, [p] + ps)
  {
    forall i, j | 0 <= i < |r| && 0 <= j < |r| && j in r[i].deps
      ensures (i < |g| && j in g[i].deps) || (r[i].id, r[j].id) in [p] + ps
    {
      if i < |g'| && j in g'[i].deps {
        assert j < |g'|;
        assert r[i].id == g'[i].id && r[j].id == g'[j].id;
      }
    }
  }

  /** Every edge of the result was already there or was read from the input. */
  lemma {:induction false} ParseAddsOnlyInputEdges(ts: seq<Token>, g: Registry)
    requires ValidRegistry(g) && DistinctDeps(g)
    ensures ParseFrom(ts, g).Success? ==> EdgesExplained(ParseFrom(ts, g).value, g, Pairs(ts))
    decreases |ts|
  {
    if |ts| == 0 || !IsInt(ts[0]) {
    } else if 2 <= |ts| && IsInt(ts[1]) && ParseFrom(ts, g).Success? {
      var a, b := ts[0].value, ts[1].value;
      var g' := Register(g, a, b);
      var r := ParseFrom(ts[2..], g');
      assert ParseFrom(ts, g) == r;
      ParseAddsOnlyInputEdges(ts[2..], g');
      RegisterEffects(g, a, b);
      EdgesExplainedCompose(g, g', r.value, (a, b), Pairs(ts[2..]));
    }
  }

  /** The identifiers of the result are those of the reference definition:
      new entities in order of first appearance, entity before dependency. */
  lemma {:induction false} ParseIdsInFirstAppearanceOrder(ts: seq<Token>, g: Registry)
    requires ValidRegistry(g) && DistinctDeps(g)
    ensures ParseFrom(ts, g).Success? ==> Ids(ParseFrom(ts, g).value) == IdsAfter(Ids(g), Pairs(ts))
    decreases |ts|
  {
    if 2 <= |ts| && IsInt(ts[0]) && IsInt(ts[1]) && ParseFrom(ts, g).Success? {
      var a, b := ts[0].value, ts[1].value;
      var g' := Register(g, a, b);
      ParseIdsInFirstAppearanceOrder(ts[2..], g');
      RegisterEffects(g, a, b);
    }
  }

  /** Tokens after the first one that is not an integer are never read. */
  lemma {:induction false} ParseStopsAtNonInt(ts: seq<Token>, g: Registry)
    requires ValidRegistry(g) && DistinctDeps(g)
    ensures ParseFrom(ts, g) == ParseFrom(ts[..LeadingInts(ts)], g)
    decreases |ts|
  {
    var n := LeadingInts(ts);
    var pre := ts[..n];
    if |ts| == 0 || !IsInt(ts[0]) {
      assert pre == [];
    } else if |ts| == 1 || !IsInt(ts[1]) {
      LeadingIntsOne(ts);
      assert pre == [ts[0]];
    } else {
      LeadingIntsStep(ts);
      var g' := Register(g, ts[0].value, ts[1].value);
      ParseStopsAtNonInt(ts[2..], g');
      assert pre[0] == ts[0] && pre[1] == ts[1];
      assert pre[2..] == ts[2..][..LeadingInts(ts[2..])];
    }
  }

  /** Starting from an empty registry, every edge was read from the input. */
  lemma {:induction false} EdgesExplainedFromEmpty(r: Result<Registry, ParseError>, ps: seq<(int, int)>)
    requires r.Success? ==> EdgesExplained(r.value, [], ps)
    ensures r.Success? ==> forall i, j :: 0 <= i < |r.value| && 0 <= j < |r.value| && j in r.value[i].deps ==>
                                          (r.value[i].id, r.value[j].id) in ps
  {
  }

  /** Reads the whole input into a fresh registry. Fails exactly when the
      leading run of integers has odd length; otherwise every pair read is an
      edge of the result, every edge of the result was read, no dependency
      list holds a duplicate, entities appear in the order the reference
      definition gives, and nothing after the first non-integer token matters. */
  function ParseSourceScanner(ts: seq<Token>): (r: Result<Registry, ParseError>)
    ensures r.Failure? <==> LeadingInts(ts) % 2 == 1
    ensures r.Success? ==> ValidRegistry(r.value) && DistinctDeps(r.value)
    ensures r.Success? ==> forall k :: 0 <= k < |Pairs(ts)| ==> HasEdge(r.value, Pairs(ts)[k].0, Pairs(ts)[k].1)
    ensures r.Success? ==> forall i, j :: 0 <= i < |r.value| && 0 <= j < |r.value| && j in r.value[i].deps ==>
                                          (r.value[i].id, r.value[j].id) in Pairs(ts)
    ensures r.Success? ==> Ids(r.value) == IdsAfter([], Pairs(ts))
    ensures r == ParseFrom(ts[..LeadingInts(ts)], [])
  {
    var r := ParseFrom(ts, []);
    ParseRecordsEveryPair(ts, []);
    ParseAddsOnlyInputEdges(ts, []);
    EdgesExplainedFromEmpty(r, Pairs(ts));
    ParseIdsInFirstAppearanceOrder(ts, []);
    ParseStopsAtNonInt(ts, []);
    assert Ids([]) == [];
    r
  }
}

/** Worked instances of the model: the dependency table and the output
    order of test/test.js, and the matches of one of its module texts. */
module Examples {
  import opened Wrappers
  import opened Graph
  import opened Assembly
  import opened Matcher

  /** The table of test/test.js:28-54 over six distinct ids: a chain
      `bbb -> bb -> aa -> aaa -> module -> cc` whose only entry is `bbb`. */
  function ChainNodes(aa: string, aaa: string, bb: string, bbb: string, cc: string, modl: string): map<string, Node> {
    map[
      aa := Node([aaa], [bb], false),
      aaa := Node([modl], [aa], false),
      bb := Node([aa], [bbb], false),
      bbb := Node([bb], [], false),
      cc := Node([], [modl], false),
      modl := Node([cc], [aaa], false)
    ]
  }

  /** Positions along the chain, lowered by every forward edge. */
  function ChainRank(aa: string, aaa: string, bb: string, bbb: string, cc: string, modl: string): map<string, nat> {
    map[cc := 0, modl := 1, aaa := 2, aa := 3, bb := 4, bbb := 5]
  }

  /** Six ids, pairwise different. */
  predicate Distinct6(aa: string, aaa: string, bb: string, bbb: string, cc: string, modl: string) {
    && aa != aaa && aa != bb && aa != bbb && aa != cc && aa != modl
    && aaa != bb && aaa != bbb && aaa != cc && aaa != modl
    && bb != bbb && bb != cc && bb != modl
    && bbb != cc && bbb != modl
    && cc != modl
  }

  /** The rank of the chain covers its whole table and is lowered by every
      forward edge: the table has no cycle. */
  lemma ChainRanked(aa: string, aaa: string, bb: string, bbb: string, cc: string, modl: string)
    requires Distinct6(aa, aaa, bb, bbb, cc, modl)
    ensures Ranked(ChainNodes(aa, aaa, bb, bbb, cc, modl), ChainRank(aa, aaa, bb, bbb, cc, modl))
    ensures RanksAll(ChainNodes(aa, aaa, bb, bbb, cc, modl), ChainRank(aa, aaa, bb, bbb, cc, modl))
  {
    var n := ChainNodes(aa, aaa, bb, bbb, cc, modl);
    var r := ChainRank(aa, aaa, bb, bbb, cc, modl);
    forall a, i | a in n && a in r && 0 <= i < |n[a].deps|
      ensures n[a].deps[i] in n && n[a].deps[i] in r && r[n[a].deps[i]] < r[a]
    {
      if a == aa {
        assert n[a].deps == [aaa] && r[aaa] < r[aa];
      } else if a == aaa {
        assert n[a].deps == [modl] && r[modl] < r[aaa];
      } else if a == bb {
        assert n[a].deps == [aa] && r[aa] < r[bb];
      } else if a == bbb {
        assert n[a].deps == [bb] && r[bb] < r[bbb];
      } else {
        assert a == cc || a == modl;
        assert n[cc].deps == [] && n[modl].deps == [cc] && r[cc] < r[modl];
      }
    }
  }

  /** A writable node without forward edges writes only itself. */
  lemma WalkLeaf(nodes: map<string, Node>, cache: Cache, rank: map<string, nat>, a: string)
    requires Ranked(nodes, rank) && a in nodes && a in rank && nodes[a].deps == [] && Emits(nodes, cache, a)
    ensures Walk(nodes, cache, rank, a) == [a]
  {
  }

  /** A writable node with a single forward edge writes after that edge's walk. */
  lemma WalkOne(nodes: map<string, Node>, cache: Cache, rank: map<string, nat>, a: string, b: string)
    requires Ranked(nodes, rank) && a in nodes && a in rank && nodes[a].deps == [b] && Emits(nodes, cache, a)
    ensures b in nodes && b in rank
    ensures Walk(nodes, cache, rank, a) == Walk(nodes, cache, rank, b) + [a]
  {
    assert nodes[a].deps[0] == b;
    var bound := rank[a];
    assert Below(nodes, rank, [b], bound);
    assert WalkList(nodes, cache, rank, [b][..0], bound) == [] by {
      assert [b][..0] == [];
    }
    assert WalkList(nodes, cache, rank, [b], bound) == Walk(nodes, cache, rank, b);
  }

  /** Keys that are all referenced by some module contribute nothing. */
  lemma {:induction false} AssembleNoEntry(nodes: map<string, Node>, cache: Cache, rank: map<string, nat>, keys: seq<string>)
    requires Ranked(nodes, rank) && forall i :: 0 <= i < |keys| ==> keys[i] in nodes && nodes[keys[i]].refs != []
    decreases |keys|
    ensures Assemble(nodes, cache, rank, keys) == []
  {
    if keys != [] {
      AssembleNoEntry(nodes, cache, rank, keys[..|keys| - 1]);
    }
  }

  /** With a single entry among the keys, the output is that entry's walk. */
  lemma {:induction false} AssembleOneEntry(nodes: map<string, Node>, cache: Cache, rank: map<string, nat>, keys: seq<string>, e: nat)
    requires Ranked(nodes, rank) && EntriesRanked(nodes, rank, keys)
    requires e < |keys| && nodes[keys[e]].refs == []
    requires forall i :: 0 <= i < |keys| && i != e ==> nodes[keys[i]].refs != []
    decreases |keys|
    ensures Assemble(nodes, cache, rank, keys) == Walk(nodes, cache, rank, keys[e])
  {
    var front := keys[..|keys| - 1];
    if e == |keys| - 1 {
      AssembleNoEntry(nodes, cache, rank, front);
    } else {
      AssembleOneEntry(nodes, cache, rank, front, e);
    }
  }

  /** The walk from the entry `bbb` writes the whole chain, far end first. */
  lemma ChainWalk(aa: string, aaa: string, bb: string, bbb: string, cc: string, modl: string, cache: Cache)
    requires Distinct6(aa, aaa, bb, bbb, cc, modl)
    requires aa in cache && aaa in cache && bb in cache && bbb in cache && cc in cache && modl in cache
    requires cache[aa].Some? && cache[aaa].Some? && cache[bb].Some? && cache[bbb].Some? && cache[cc].Some? && cache[modl].Some?
    ensures Ranked(ChainNodes(aa, aaa, bb, bbb, cc, modl), ChainRank(aa, aaa, bb, bbb, cc, modl))
    ensures bbb in ChainNodes(aa, aaa, bb, bbb, cc, modl) && bbb in ChainRank(aa, aaa, bb, bbb, cc, modl)
    ensures Walk(ChainNodes(aa, aaa, bb, bbb, cc, modl), cache, ChainRank(aa, aaa, bb, bbb, cc, modl), bbb)
      == [cc, modl, aaa, aa, bb, bbb]
  {
    var n := ChainNodes(aa, aaa, bb, bbb, cc, modl);
    var r := ChainRank(aa, aaa, bb, bbb, cc, modl);
    ChainRanked(aa, aaa, bb, bbb, cc, modl);
    WalkLeaf(n, cache, r, cc);
    WalkOne(n, cache, r, modl, cc);
    WalkOne(n, cache, r, aaa, modl);
    WalkOne(n, cache, r, aa, aaa);
    WalkOne(n, cache, r, bb, aa);
    WalkOne(n, cache, r, bbb, bb);
  }

  /** test/test.js:149-157: with every chunk cached (test/test.js:17-24) and
      the keys in the order of the test table, the only entry is `bbb` and
      the chunks come out from the far end of the chain back to it. */
  lemma ChainOutputOrder(aa: string, aaa: string, bb: string, bbb: string, cc: string, modl: string, cache: Cache)
    requires Distinct6(aa, aaa, bb, bbb, cc, modl)
    requires aa in cache && aaa in cache && bb in cache && bbb in cache && cc in cache && modl in cache
    requires cache[aa].Some? && cache[aaa].Some? && cache[bb].Some? && cache[bbb].Some? && cache[cc].Some? && cache[modl].Some?
    ensures var n := ChainNodes(aa, aaa, bb, bbb, cc, modl);
      && Ranked(n, ChainRank(aa, aaa, bb, bbb, cc, modl))
      && Assemble(n, cache, ChainRank(aa, aaa, bb, bbb, cc, modl), [aa, aaa, bb, bbb, cc, modl])
        == [cc, modl, aaa, aa, bb, bbb]
  {
    var n := ChainNodes(aa, aaa, bb, bbb, cc, modl);
    var r := ChainRank(aa, aaa, bb, bbb, cc, modl);
    ChainWalk(aa, aaa, bb, bbb, cc, modl, cache);
    var keys := [aa, aaa, bb, bbb, cc, modl];
    assert n[aa].refs != [] && n[aaa].refs != [] && n[bb].refs != [] && n[cc].refs != [] && n[modl].refs != [];
    AssembleOneEntry(n, cache, r, keys, 3);
  }

  /** The table left by `a.js` requiring `b` and `b.js` requiring `a`: each
      node is the other's referrer, so neither is an entry point. */
  function CycleNodes(a: string, b: string): map<string, Node> {
    map[a := Node([b], [b], false), b := Node([a], [a], false)]
  }

  /** index.js:69-87 run for `a` with the match `b`, then for `b` with the
      match `a`, builds exactly that table, keys in creation order. */
  lemma CycleRegistered(a: string, b: string)
    requires a != b
    ensures Register(Register(Empty, a, [b]), b, [a]) == DepTree(CycleNodes(a, b), [a, b])
  {
    var t1 := DepTree(map[a := Node([b], [], false), b := Node([], [a], false)], [a, b]);
    CycleFirst(a, b, t1);
    CycleSecond(a, b, t1);
  }

  /** The first registration: `a` gets its node, `b` is created by the match. */
  lemma CycleFirst(a: string, b: string, t1: DepTree)
    requires a != b && t1 == DepTree(map[a := Node([b], [], false), b := Node([], [a], false)], [a, b])
    ensures Register(Empty, a, [b]) == t1
  {
    var t0 := DepTree(map[a := NewNode], [a]);
    EnsureEmpty(a, t0);
    SingleMatch(Empty, a, b);
    FreshPair(t0, a, b, t1);
  }

  /** Creating a node in the empty table. */
  lemma EnsureEmpty(a: string, t0: DepTree)
    requires t0 == DepTree(map[a := NewNode], [a])
    ensures Ensure(Empty, a) == t0
  {
  }

  /** The match `b` of `a` in the table holding only `a`. */
  lemma FreshPair(t0: DepTree, a: string, b: string, t1: DepTree)
    requires a != b && t0 == DepTree(map[a := NewNode], [a])
    requires t1 == DepTree(map[a := Node([b], [], false), b := Node([], [a], false)], [a, b])
    ensures AddEdge(t0, a, b) == t1
  {
    AddFresh(t0, a, b);
    var na := t0.nodes[a].(deps := t0.nodes[a].deps + [b]);
    assert na == Node([b], [], false);
    assert t0.nodes[a := na] == map[a := na];
    assert t0.nodes[a := na][b := Node([], [a], false)] == t1.nodes;
    assert t0.keys + [b] == t1.keys;
  }

  /** The second registration: `b` already has a node, and so has `a`. */
  lemma CycleSecond(a: string, b: string, t1: DepTree)
    requires a != b && t1 == DepTree(map[a := Node([b], [], false), b := Node([], [a], false)], [a, b])
    ensures Register(t1, b, [a]) == DepTree(CycleNodes(a, b), [a, b])
  {
    assert Ensure(t1, b) == t1;
    SingleMatch(t1, b, a);
    KnownPair(a, b, t1);
  }

  /** The match `a` of `b` once both have nodes: the cycle closes. */
  lemma KnownPair(a: string, b: string, t1: DepTree)
    requires a != b && t1 == DepTree(map[a := Node([b], [], false), b := Node([], [a], false)], [a, b])
    ensures AddEdge(t1, b, a) == DepTree(CycleNodes(a, b), [a, b])
  {
    AddKnown(t1, b, a);
    var nb := t1.nodes[b].(deps := t1.nodes[b].deps + [a]);
    var na := t1.nodes[a].(refs := t1.nodes[a].refs + [b]);
    assert nb == Node([a], [a], false) && na == Node([b], [b], false);
    assert t1.nodes[b := nb][a := na] == CycleNodes(a, b);
  }

  /** A module with one match: its node is ensured, then one turn runs. */
  lemma SingleMatch(t: DepTree, key: string, k: string)
    ensures Register(t, key, [k]) == AddEdge(Ensure(t, key), key, k)
  {
    var t0 := Ensure(t, key);
    assert key in t0.nodes;
    assert [k][..0] == [];
    assert AddEdges(t0, key, []) == t0;
    assert AddEdges(t0, key, [k]) == AddEdge(AddEdges(t0, key, []), key, k);
  }

  /** One turn for an id `k` that has no node yet. */
  lemma AddFresh(t: DepTree, key: string, k: string)
    requires key in t.nodes && k !in t.nodes
    ensures AddEdge(t, key, k)
      == DepTree(t.nodes[key := t.nodes[key].(deps := t.nodes[key].deps + [k])][k := Node([], [key], false)], t.keys + [k])
  {
    var x := t.nodes[key].(deps := t.nodes[key].deps + [k]);
    var y := Node([], [key], false);
    var t1 := Put(t, k, NewNode);
    assert Ensure(t, k) == t1 && t1.keys == t.keys + [k];
    assert t1.nodes[key] == t.nodes[key];
    var t2 := Put(t1, key, x);
    assert t2.keys == t1.keys && t2.nodes[k] == NewNode;
    assert t2.nodes[k].(refs := t2.nodes[k].refs + [key]) == y;
    var t3 := Put(t2, k, y);
    assert AddEdge(t, key, k) == t3;
    assert t3.nodes == t.nodes[key := x][k := y];
  }

  /** One turn for an id `k` other than `key` that already has a node. */
  lemma AddKnown(t: DepTree, key: string, k: string)
    requires key in t.nodes && k in t.nodes && k != key
    ensures AddEdge(t, key, k)
      == DepTree(t.nodes[key := t.nodes[key].(deps := t.nodes[key].deps + [k])][k := t.nodes[k].(refs := t.nodes[k].refs + [key])], t.keys)
  {
    assert Ensure(t, k) == t;
  }

  /** No rank covers a node of the cycle: exactly the case where `dfs` would
      recurse without end, had anything called it on one of them. */
  lemma CycleUnranked(a: string, b: string, rank: map<string, nat>)
    requires a != b && Ranked(CycleNodes(a, b), rank)
    ensures a !in rank && b !in rank
  {
    var n := CycleNodes(a, b);
    assert n[a].deps[0] == b && n[b].deps[0] == a;
  }

  /** index.js:105-113 on the cycle: there is no entry point, so nothing is
      written after the header, the pass ends, and both modules are left
      out. The empty rank is all it takes. */
  lemma CycleLeftOut(a: string, b: string, cache: Cache)
    requires a != b
    ensures Ranked(CycleNodes(a, b), map[]) && AnchorsRanked(CycleNodes(a, b), map[])
    ensures EntriesRanked(CycleNodes(a, b), map[], [a, b])
    ensures Assemble(CycleNodes(a, b), cache, map[], [a, b]) == []
  {
    AssembleNoEntry(CycleNodes(a, b), cache, map[], [a, b]);
  }

  /** The cycle beside a module `c` that requires nothing. */
  function CycleAndLeaf(a: string, b: string, c: string): map<string, Node> {
    CycleNodes(a, b)[c := NewNode]
  }

  /** A cycle that the entry `c` does not reach does not stop `dfs(c)`:
      only `c` is written, and the cycle's modules are left out. */
  lemma CycleBesideEntry(a: string, b: string, c: string, cache: Cache)
    requires a != b && a != c && b != c && c in cache && cache[c].Some?
    ensures var n := CycleAndLeaf(a, b, c);
      && Ranked(n, map[c := 0]) && EntriesRanked(n, map[c := 0], [a, b, c])
      && Assemble(n, cache, map[c := 0], [a, b, c]) == [c]
  {
    var n := CycleAndLeaf(a, b, c);
    var r := map[c := 0];
    assert Ranked(n, r);
    WalkLeaf(n, cache, r, c);
    AssembleOneEntry(n, cache, r, [a, b, c], 2);
  }

  /** Two calls separated by white space, as in the text of `is/aa.js` of
      test/test.js:65, yield their ids in text order. */
  lemma TwoCallsScanned(first: string, second: string, quote: char)
    requires first != [] && second != [] && IsQuote(quote)
    requires forall k :: 0 <= k < |first| ==> first[k] != ')'
    requires forall k :: 0 <= k < |second| ==> second[k] != ')'
    ensures RequireIds(RequireCall(first, quote) + " " + RequireCall(second, quote)) == [first, second]
  {
    var tail := RequireCall(second, quote);
    ScanRequireCall(second, quote, []);
    assert tail + [] == tail;
    assert RequireIds([]) == [];
    ScanSkip(' ', tail);
    ScanRequireCall(first, quote, " " + tail);
    assert RequireCall(first, quote) + " " + tail == RequireCall(first, quote) + (" " + tail);
  }

  /** Registering a module `key` that requires `x` and then `y` in an empty
      table (index.js:69-87), as `is/aa` does in test/test.js:65 and
      test/test.js:115-118: three entries in creation order, one edge each
      way per match. */
  lemma FirstRegistration(key: string, x: string, y: string)
    requires key != x && key != y && x != y
    ensures var t := Register(Empty, key, [x, y]);
      && t.keys == [key, x, y]
      && t.nodes.Keys == {key, x, y}
      && t.nodes[key] == Node([x, y], [], false)
      && t.nodes[x] == Node([], [key], false)
      && t.nodes[y] == Node([], [key], false)
  {
    var t0 := Ensure(Empty, key);
    assert t0 == DepTree(map[key := NewNode], [key]);
    AddEdgesEffect(t0, key, [x, y]);
    var r := AddEdges(t0, key, [x, y]);
    FirstRegistrationKeys(t0, r, key, x, y);
    RegisteredModule(t0, r, key, x, y);
    RegisteredId(t0, r, key, x, y, x);
    RegisteredId(t0, r, key, x, y, y);
  }

  /** The key order and the entries that the effect of the loop describes
      for two fresh ids added to a table holding only `key`. */
  lemma FirstRegistrationKeys(t0: DepTree, r: DepTree, key: string, x: string, y: string)
    requires key != x && key != y && x != y
    requires t0 == DepTree(map[key := NewNode], [key])
    requires r.keys == Appended(t0.keys, [x, y])
    requires r.nodes.Keys == t0.nodes.Keys + set z | z in [x, y]
    ensures r.keys == [key, x, y]
    ensures r.nodes.Keys == {key, x, y}
  {
    AppendedFresh([key], x, y);
  }

  /** The module's own node after the loop: both ids as forward edges. */
  lemma RegisteredModule(t0: DepTree, r: DepTree, key: string, x: string, y: string)
    requires key != x && key != y && x != y
    requires t0 == DepTree(map[key := NewNode], [key])
    requires key in r.nodes && Extended(t0, r, key, [x, y], multiset([x, y])[key], key)
    ensures r.nodes[key] == Node([x, y], [], false)
  {
    assert multiset([x, y])[key] == 0;
    ExtendedNode(t0, r, key, [x, y], 0, key);
  }

  /** The node of one of the two ids after the loop: one reverse edge. */
  lemma RegisteredId(t0: DepTree, r: DepTree, key: string, x: string, y: string, z: string)
    requires key != x && key != y && x != y && (z == x || z == y)
    requires t0 == DepTree(map[key := NewNode], [key])
    requires z in r.nodes && Extended(t0, r, key, [x, y], multiset([x, y])[z], z)
    ensures r.nodes[z] == Node([], [key], false)
  {
    assert multiset([x, y])[z] == 1;
    ExtendedNode(t0, r, key, [x, y], 1, z);
  }

  /** Two new ids go to the end of the key order, in match order. */
  lemma AppendedFresh(keys: seq<string>, x: string, y: string)
    requires x !in keys && y !in keys && x != y
    ensures Appended(keys, [x, y]) == keys + [x, y]
  {
    assert [x, y][..1] == [x] && [x][..0] == [];
    assert Appended(keys, [x]) == keys + [x];
    assert y !in keys + [x];
  }

  /** A node described by `Extended` relative to a table holding only `key`. */
  lemma ExtendedNode(t0: DepTree, r: DepTree, key: string, ids: seq<string>, n: nat, z: string)
    requires t0 == DepTree(map[key := NewNode], [key])
    requires z in r.nodes && Extended(t0, r, key, ids, n, z) && n <= 1
    ensures r.nodes[z] == Node(if z == key then ids else [], if n == 1 then [key] else [], false)
  {
    assert Get(t0, z) == NewNode;
    assert Repeat(key, 0) == [] && Repeat(key, 1) == [key];
  }
}

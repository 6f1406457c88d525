/** What `buildOutput` and `dfs` (index.js:93-134) emit, as functions of the
    table and the cache: a post-order walk over forward edges from every
    node without referrers. The walk has no visited set: `dfs(k)` ends only
    when no cycle is reachable from `k`, which `Ranked` states by a rank,
    lowered by every forward edge, on the part of the table it covers. A
    cycle that no entry point reaches is never walked at all. */
module Assembly {
  import opened Wrappers
  import opened Graph

  /** `cache`: rendered chunks by key; `None` is a key whose entry was set to
      `undefined` once its chunk was written (index.js:130). */
  type Cache = map<string, Option<string>>

  /** Every forward edge out of a ranked node leads to a node of lower rank:
      no cycle is reachable from a ranked node. Nodes outside the rank are
      unconstrained and may lie on cycles. */
  ghost predicate Ranked(nodes: map<string, Node>, rank: map<string, nat>) {
    forall a, i :: a in nodes && a in rank && 0 <= i < |nodes[a].deps| ==>
      nodes[a].deps[i] in nodes && nodes[a].deps[i] in rank && rank[nodes[a].deps[i]] < rank[a]
  }

  /** The rank covers the whole table: the table has no cycle at all. */
  ghost predicate RanksAll(nodes: map<string, Node>, rank: map<string, nat>) {
    forall a :: a in nodes ==> a in rank
  }

  /** Every key is an entry, and every key without referrers, which
      `buildOutput` walks, is ranked. */
  ghost predicate EntriesRanked(nodes: map<string, Node>, rank: map<string, nat>, keys: seq<string>) {
    forall i :: 0 <= i < |keys| ==> keys[i] in nodes && (nodes[keys[i]].refs == [] ==> keys[i] in rank)
  }

  /** Every node without referrers, which `buildOutput` walks, is ranked. */
  ghost predicate AnchorsRanked(nodes: map<string, Node>, rank: map<string, nat>) {
    forall a :: a in nodes && nodes[a].refs == [] ==> a in rank
  }

  /** Every id of `ds` is a node ranked below `bound`. */
  ghost predicate Below(nodes: map<string, Node>, rank: map<string, nat>, ds: seq<string>, bound: nat) {
    forall i :: 0 <= i < |ds| ==> ds[i] in nodes && ds[i] in rank && rank[ds[i]] < bound
  }

  /** index.js:124: the node's chunk is written when the node is not flushed
      and its cache entry is defined. */
  predicate Emits(nodes: map<string, Node>, cache: Cache, k: string) {
    k in nodes && !nodes[k].flush && k in cache && cache[k].Some?
  }

  /** The keys whose chunks `dfs(k)` writes, in order. */
  ghost function Walk(nodes: map<string, Node>, cache: Cache, rank: map<string, nat>, k: string): (r: seq<string>)
    requires Ranked(nodes, rank) && k in nodes && k in rank
    decreases rank[k], 1, 0
    ensures forall i :: 0 <= i < |r| ==> Emits(nodes, cache, r[i])
  {
    WalkList(nodes, cache, rank, nodes[k].deps, rank[k])
      + (if Emits(nodes, cache, k) then [k] else [])
  }

  /** The keys written by `ds.forEach(adj => dfs(adj))` (index.js:119-121). */
  ghost function WalkList(nodes: map<string, Node>, cache: Cache, rank: map<string, nat>, ds: seq<string>, bound: nat): (r: seq<string>)
    requires Ranked(nodes, rank) && Below(nodes, rank, ds, bound)
    decreases bound, 0, |ds|
    ensures forall i :: 0 <= i < |r| ==> Emits(nodes, cache, r[i])
  {
    if ds == [] then []
    else
      WalkList(nodes, cache, rank, ds[..|ds| - 1], bound)
        + Walk(nodes, cache, rank, ds[|ds| - 1])
  }

  /** The completion of a write (index.js:128-131) sets the cache entry to
      `undefined` and the node's flag: that key is never written again, and
      whether any other key is written does not change. */
  lemma FlushedNotEmitted(t: DepTree, cache: Cache, key: string, x: string)
    requires key in t.nodes
    ensures !Emits(MarkFlushed(t, key).nodes, cache[key := None], key)
    ensures x != key ==> (Emits(MarkFlushed(t, key).nodes, cache[key := None], x) <==> Emits(t.nodes, cache, x))
  {
  }

  /** Marking a node flushed keeps every edge, so any rank stays valid. */
  lemma RankedAfterFlush(t: DepTree, rank: map<string, nat>, key: string)
    requires Ranked(t.nodes, rank) && key in t.nodes
    ensures Ranked(MarkFlushed(t, key).nodes, rank)
  {
    var r := MarkFlushed(t, key);
    forall a | a in r.nodes
      ensures r.nodes[a].deps == t.nodes[a].deps
    {
    }
  }

  /** After the write of `key` completes, no later walk writes it again. */
  lemma FlushedNotWalked(t: DepTree, cache: Cache, rank: map<string, nat>, key: string, k: string)
    requires Ranked(t.nodes, rank) && key in t.nodes && k in t.nodes && k in rank
    ensures Ranked(MarkFlushed(t, key).nodes, rank)
    ensures key !in Walk(MarkFlushed(t, key).nodes, cache[key := None], rank, k)
  {
    RankedAfterFlush(t, rank, key);
  }

  /** `b` is reachable from `a` by one or more forward edges. */
  ghost predicate Reaches(nodes: map<string, Node>, rank: map<string, nat>, a: string, b: string)
    requires Ranked(nodes, rank) && a in nodes && a in rank
    decreases rank[a]
  {
    exists i :: 0 <= i < |nodes[a].deps| &&
      (nodes[a].deps[i] == b || Reaches(nodes, rank, nodes[a].deps[i], b))
  }

  /** Reaching follows forward edges only downwards in rank, so no node
      reaches itself. */
  lemma {:induction false} ReachesLowersRank(nodes: map<string, Node>, rank: map<string, nat>, a: string, b: string)
    requires Ranked(nodes, rank) && a in nodes && a in rank && Reaches(nodes, rank, a, b)
    decreases rank[a]
    ensures b in nodes && b in rank && rank[b] < rank[a]
  {
    var i :| 0 <= i < |nodes[a].deps| &&
      (nodes[a].deps[i] == b || Reaches(nodes, rank, nodes[a].deps[i], b));
    if nodes[a].deps[i] != b {
      ReachesLowersRank(nodes, rank, nodes[a].deps[i], b);
    }
  }

  /** A ranked table has no cycle: no node reaches itself. */
  lemma NoCycle(nodes: map<string, Node>, rank: map<string, nat>, k: string)
    requires Ranked(nodes, rank) && k in nodes && k in rank
    ensures !Reaches(nodes, rank, k, k)
  {
    if Reaches(nodes, rank, k, k) {
      ReachesLowersRank(nodes, rank, k, k);
    }
  }

  /** Reaching is transitive. */
  lemma {:induction false} ReachesTrans(nodes: map<string, Node>, rank: map<string, nat>, a: string, b: string, c: string)
    requires Ranked(nodes, rank) && a in nodes && a in rank && b in nodes && b in rank
    requires Reaches(nodes, rank, a, b) && Reaches(nodes, rank, b, c)
    decreases rank[a]
    ensures Reaches(nodes, rank, a, c)
  {
    var i :| 0 <= i < |nodes[a].deps| &&
      (nodes[a].deps[i] == b || Reaches(nodes, rank, nodes[a].deps[i], b));
    var d := nodes[a].deps[i];
    if d != b {
      ReachesTrans(nodes, rank, d, b, c);
    }
    assert Reaches(nodes, rank, d, c);
  }

  /** Whatever the walk of `ds` writes comes from the walk of one of them. */
  lemma {:induction false} WalkListFrom(nodes: map<string, Node>, cache: Cache, rank: map<string, nat>, ds: seq<string>, bound: nat, x: string)
    requires Ranked(nodes, rank) && Below(nodes, rank, ds, bound)
    requires x in WalkList(nodes, cache, rank, ds, bound)
    decreases |ds|
    ensures exists i :: 0 <= i < |ds| && x in Walk(nodes, cache, rank, ds[i])
  {
    var front := ds[..|ds| - 1];
    if x in WalkList(nodes, cache, rank, front, bound) {
      WalkListFrom(nodes, cache, rank, front, bound, x);
      var i :| 0 <= i < |front| && x in Walk(nodes, cache, rank, front[i]);
      assert ds[i] == front[i];
    } else {
      assert x in Walk(nodes, cache, rank, ds[|ds| - 1]);
    }
  }

  /** The walk of `ds` writes everything the walk of each of them writes. */
  lemma {:induction false} WalkListHas(nodes: map<string, Node>, cache: Cache, rank: map<string, nat>, ds: seq<string>, bound: nat, i: nat, x: string)
    requires Ranked(nodes, rank) && Below(nodes, rank, ds, bound)
    requires i < |ds| && x in Walk(nodes, cache, rank, ds[i])
    decreases |ds|
    ensures x in WalkList(nodes, cache, rank, ds, bound)
  {
    if i < |ds| - 1 {
      var front := ds[..|ds| - 1];
      assert front[i] == ds[i];
      WalkListHas(nodes, cache, rank, front, bound, i, x);
    }
  }

  /** The walk from `k` writes only `k` and nodes reachable from it, and only
      nodes that are not flushed and have a chunk. */
  lemma {:induction false} WalkSound(nodes: map<string, Node>, cache: Cache, rank: map<string, nat>, k: string, x: string)
    requires Ranked(nodes, rank) && k in nodes && k in rank && x in Walk(nodes, cache, rank, k)
    decreases rank[k]
    ensures Emits(nodes, cache, x)
    ensures x == k || Reaches(nodes, rank, k, x)
  {
    var ds := nodes[k].deps;
    if x in WalkList(nodes, cache, rank, ds, rank[k]) {
      WalkListFrom(nodes, cache, rank, ds, rank[k], x);
      var i :| 0 <= i < |ds| && x in Walk(nodes, cache, rank, ds[i]);
      WalkSound(nodes, cache, rank, ds[i], x);
    }
  }

  /** The walk from `k` writes every node reachable from `k` that is not
      flushed and has a chunk; a dangling node on the way does not stop it. */
  lemma {:induction false} WalkComplete(nodes: map<string, Node>, cache: Cache, rank: map<string, nat>, k: string, x: string)
    requires Ranked(nodes, rank) && k in nodes && k in rank && Emits(nodes, cache, x)
    requires x == k || Reaches(nodes, rank, k, x)
    decreases rank[k]
    ensures x in Walk(nodes, cache, rank, k)
  {
    if x != k {
      var ds := nodes[k].deps;
      var i :| 0 <= i < |ds| && (ds[i] == x || Reaches(nodes, rank, ds[i], x));
      WalkComplete(nodes, cache, rank, ds[i], x);
      WalkListHas(nodes, cache, rank, ds, rank[k], i, x);
    }
  }

  /** Every written node is preceded by every node reachable from it that is
      written at all: dependencies come first. */
  ghost predicate PostOrdered(nodes: map<string, Node>, cache: Cache, rank: map<string, nat>, w: seq<string>)
    requires Ranked(nodes, rank)
  {
    forall p, x :: 0 <= p < |w| && w[p] in nodes && w[p] in rank && Reaches(nodes, rank, w[p], x) && Emits(nodes, cache, x)
      ==> x in w[..p]
  }

  /** Post-order is kept by concatenation. */
  lemma PostOrderedConcat(nodes: map<string, Node>, cache: Cache, rank: map<string, nat>, u: seq<string>, v: seq<string>)
    requires Ranked(nodes, rank)
    requires PostOrdered(nodes, cache, rank, u) && PostOrdered(nodes, cache, rank, v)
    ensures PostOrdered(nodes, cache, rank, u + v)
  {
    var w := u + v;
    forall p, x | 0 <= p < |w| && w[p] in nodes && w[p] in rank && Reaches(nodes, rank, w[p], x) && Emits(nodes, cache, x)
      ensures x in w[..p]
    {
      if p < |u| {
        assert w[p] == u[p] && w[..p] == u[..p];
      } else {
        var q := p - |u|;
        assert w[p] == v[q];
        assert x in v[..q];
        assert w[..p] == u + v[..q];
      }
    }
  }

  /** The walk from `k` is post-ordered. */
  lemma {:induction false} WalkPostOrdered(nodes: map<string, Node>, cache: Cache, rank: map<string, nat>, k: string)
    requires Ranked(nodes, rank) && k in nodes && k in rank
    decreases rank[k], 1, 0
    ensures PostOrdered(nodes, cache, rank, Walk(nodes, cache, rank, k))
  {
    var ds := nodes[k].deps;
    var front := WalkList(nodes, cache, rank, ds, rank[k]);
    WalkListPostOrdered(nodes, cache, rank, ds, rank[k]);
    if Emits(nodes, cache, k) {
      var w := front + [k];
      forall p, x | 0 <= p < |w| && w[p] in nodes && w[p] in rank && Reaches(nodes, rank, w[p], x) && Emits(nodes, cache, x)
        ensures x in w[..p]
      {
        if p < |front| {
          assert w[p] == front[p] && w[..p] == front[..p];
        } else {
          assert w[p] == k && w[..p] == front;
          WalkComplete(nodes, cache, rank, k, x);
          NoCycle(nodes, rank, k);
          assert x != k;
        }
      }
    } else {
      assert Walk(nodes, cache, rank, k) == front;
    }
  }

  /** The walk of a list of dependencies is post-ordered. */
  lemma {:induction false} WalkListPostOrdered(nodes: map<string, Node>, cache: Cache, rank: map<string, nat>, ds: seq<string>, bound: nat)
    requires Ranked(nodes, rank) && Below(nodes, rank, ds, bound)
    decreases bound, 0, |ds|
    ensures PostOrdered(nodes, cache, rank, WalkList(nodes, cache, rank, ds, bound))
  {
    if ds != [] {
      WalkListPostOrdered(nodes, cache, rank, ds[..|ds| - 1], bound);
      WalkPostOrdered(nodes, cache, rank, ds[|ds| - 1]);
      PostOrderedConcat(nodes, cache, rank,
        WalkList(nodes, cache, rank, ds[..|ds| - 1], bound), Walk(nodes, cache, rank, ds[|ds| - 1]));
    }
  }

  /** The walk does not depend on which rank shows that no cycle is
      reachable from `k`: the output is determined by the table, the cache
      and the key order. */
  lemma {:induction false} WalkRankFree(nodes: map<string, Node>, cache: Cache, r1: map<string, nat>, r2: map<string, nat>, k: string)
    requires Ranked(nodes, r1) && Ranked(nodes, r2) && k in nodes && k in r1 && k in r2
    decreases r1[k], 1, 0
    ensures Walk(nodes, cache, r1, k) == Walk(nodes, cache, r2, k)
  {
    WalkListRankFree(nodes, cache, r1, r2, nodes[k].deps, r1[k], r2[k]);
  }

  lemma {:induction false} WalkListRankFree(nodes: map<string, Node>, cache: Cache, r1: map<string, nat>, r2: map<string, nat>, ds: seq<string>, b1: nat, b2: nat)
    requires Ranked(nodes, r1) && Ranked(nodes, r2)
    requires Below(nodes, r1, ds, b1) && Below(nodes, r2, ds, b2)
    decreases b1, 0, |ds|
    ensures WalkList(nodes, cache, r1, ds, b1) == WalkList(nodes, cache, r2, ds, b2)
  {
    if ds != [] {
      WalkListRankFree(nodes, cache, r1, r2, ds[..|ds| - 1], b1, b2);
      WalkRankFree(nodes, cache, r1, r2, ds[|ds| - 1]);
    }
  }

  /** A node written by the walks of two of the `ds` is written twice by
      the walk of all of them. */
  lemma {:induction false} WalkListTwice(nodes: map<string, Node>, cache: Cache, rank: map<string, nat>, ds: seq<string>, bound: nat, i: nat, j: nat, x: string)
    requires Ranked(nodes, rank) && Below(nodes, rank, ds, bound) && i < j < |ds|
    requires x in Walk(nodes, cache, rank, ds[i]) && x in Walk(nodes, cache, rank, ds[j])
    decreases |ds|
    ensures multiset(WalkList(nodes, cache, rank, ds, bound))[x] >= 2
  {
    var front := ds[..|ds| - 1];
    var w := WalkList(nodes, cache, rank, ds, bound);
    var u := WalkList(nodes, cache, rank, front, bound);
    var v := Walk(nodes, cache, rank, ds[|ds| - 1]);
    assert w == u + v;
    assert front[i] == ds[i];
    if j < |ds| - 1 {
      assert front[j] == ds[j];
      WalkListTwice(nodes, cache, rank, front, bound, i, j, x);
    } else {
      WalkListHas(nodes, cache, rank, front, bound, i, x);
      assert multiset(u)[x] >= 1 && multiset(v)[x] >= 1;
    }
    assert multiset(w) == multiset(u) + multiset(v);
  }

  /** No emit-once guarantee: `flush` only changes when a write completes, so
      a node reached through two dependencies of `k` is written twice. */
  lemma SharedDependencyWrittenTwice(nodes: map<string, Node>, cache: Cache, rank: map<string, nat>, k: string, i: nat, j: nat, x: string)
    requires Ranked(nodes, rank) && k in nodes && k in rank && i < j < |nodes[k].deps| && Emits(nodes, cache, x)
    requires nodes[k].deps[i] == x || Reaches(nodes, rank, nodes[k].deps[i], x)
    requires nodes[k].deps[j] == x || Reaches(nodes, rank, nodes[k].deps[j], x)
    ensures multiset(Walk(nodes, cache, rank, k))[x] >= 2
  {
    var ds := nodes[k].deps;
    WalkComplete(nodes, cache, rank, ds[i], x);
    WalkComplete(nodes, cache, rank, ds[j], x);
    WalkListTwice(nodes, cache, rank, ds, rank[k], i, j, x);
    var u := WalkList(nodes, cache, rank, ds, rank[k]);
    var w := Walk(nodes, cache, rank, k);
    assert w == u + (if Emits(nodes, cache, k) then [k] else []);
    assert multiset(w) == multiset(u) + multiset(if Emits(nodes, cache, k) then [k] else []);
  }

  /** What the callback of index.js:107-110 writes for one key: the walk
      from it when it has no referrers, nothing otherwise. */
  ghost function EntryWalk(nodes: map<string, Node>, cache: Cache, rank: map<string, nat>, k: string): seq<string>
    requires Ranked(nodes, rank) && k in nodes && (nodes[k].refs == [] ==> k in rank)
  {
    if nodes[k].refs == [] then Walk(nodes, cache, rank, k) else []
  }

  /** index.js:106-111: for every key in `Object.keys` order, a node without
      referrers is an entry point and is walked. */
  ghost function Assemble(nodes: map<string, Node>, cache: Cache, rank: map<string, nat>, keys: seq<string>): (r: seq<string>)
    requires Ranked(nodes, rank) && EntriesRanked(nodes, rank, keys)
    decreases |keys|
    ensures forall i :: 0 <= i < |r| ==> Emits(nodes, cache, r[i])
  {
    if keys == [] then []
    else
      var last := keys[|keys| - 1];
      Assemble(nodes, cache, rank, keys[..|keys| - 1])
        + EntryWalk(nodes, cache, rank, last)
  }

  /** The assembly is post-ordered: every chunk follows the chunks of all
      the modules it reaches. */
  lemma {:induction false} AssemblePostOrdered(nodes: map<string, Node>, cache: Cache, rank: map<string, nat>, keys: seq<string>)
    requires Ranked(nodes, rank) && EntriesRanked(nodes, rank, keys)
    decreases |keys|
    ensures PostOrdered(nodes, cache, rank, Assemble(nodes, cache, rank, keys))
  {
    if keys != [] {
      var last := keys[|keys| - 1];
      var front := keys[..|keys| - 1];
      var u := Assemble(nodes, cache, rank, front);
      var v := EntryWalk(nodes, cache, rank, last);
      assert Assemble(nodes, cache, rank, keys) == u + v;
      AssemblePostOrdered(nodes, cache, rank, front);
      if nodes[last].refs == [] {
        WalkPostOrdered(nodes, cache, rank, last);
      } else {
        assert PostOrdered(nodes, cache, rank, v);
      }
      PostOrderedConcat(nodes, cache, rank, u, v);
    }
  }

  /** Everything assembled is an entry point or reachable from one. */
  lemma {:induction false} AssembleSound(nodes: map<string, Node>, cache: Cache, rank: map<string, nat>, keys: seq<string>, x: string)
    requires Ranked(nodes, rank) && EntriesRanked(nodes, rank, keys)
    requires x in Assemble(nodes, cache, rank, keys)
    decreases |keys|
    ensures exists a :: a in keys && a in nodes && a in rank && nodes[a].refs == [] && (a == x || Reaches(nodes, rank, a, x))
  {
    var last := keys[|keys| - 1];
    var front := keys[..|keys| - 1];
    if x in Assemble(nodes, cache, rank, front) {
      AssembleSound(nodes, cache, rank, front, x);
      var a :| a in front && a in nodes && a in rank && nodes[a].refs == [] && (a == x || Reaches(nodes, rank, a, x));
      assert a in keys;
    } else {
      WalkSound(nodes, cache, rank, last, x);
    }
  }

  /** A node that is neither an entry point nor reachable from one is not
      written. In particular the modules of a cycle that no entry point
      reaches are left out of the output, while `buildOutput` still ends. */
  lemma AssembleUnreached(nodes: map<string, Node>, cache: Cache, rank: map<string, nat>, keys: seq<string>, x: string)
    requires Ranked(nodes, rank) && EntriesRanked(nodes, rank, keys)
    requires forall a :: a in keys && a in nodes && a in rank && nodes[a].refs == [] ==> a != x && !Reaches(nodes, rank, a, x)
    ensures x !in Assemble(nodes, cache, rank, keys)
  {
    if x in Assemble(nodes, cache, rank, keys) {
      AssembleSound(nodes, cache, rank, keys, x);
    }
  }

  /** Everything the walk from an entry point `keys[i]` writes is assembled. */
  lemma {:induction false} AssembleHas(nodes: map<string, Node>, cache: Cache, rank: map<string, nat>, keys: seq<string>, i: nat, x: string)
    requires Ranked(nodes, rank) && EntriesRanked(nodes, rank, keys)
    requires i < |keys| && nodes[keys[i]].refs == [] && x in Walk(nodes, cache, rank, keys[i])
    decreases |keys|
    ensures x in Assemble(nodes, cache, rank, keys)
  {
    if i < |keys| - 1 {
      var front := keys[..|keys| - 1];
      assert front[i] == keys[i];
      AssembleHas(nodes, cache, rank, front, i, x);
    }
  }

  /** The nodes ranked strictly above `b`. */
  ghost function Above(nodes: map<string, Node>, rank: map<string, nat>, b: string): set<string>
    requires Ranked(nodes, rank) && RanksAll(nodes, rank) && b in nodes
  {
    set x | x in nodes && rank[x] > rank[b]
  }

  /** Fewer nodes are ranked above a higher-ranked node. */
  lemma AboveShrinks(nodes: map<string, Node>, rank: map<string, nat>, p: string, b: string)
    requires Ranked(nodes, rank) && RanksAll(nodes, rank) && p in nodes && b in nodes && rank[b] < rank[p]
    ensures |Above(nodes, rank, p)| < |Above(nodes, rank, b)|
  {
    var hi, lo := Above(nodes, rank, p), Above(nodes, rank, b);
    assert hi <= lo;
    assert p in lo - hi;
    assert lo == hi + (lo - hi);
  }

  /** A node with a referrer is reached by a forward edge from its first
      referrer. */
  lemma FirstReferrer(t: DepTree, rank: map<string, nat>, b: string)
    requires Closed(t) && Symmetric(t) && Ranked(t.nodes, rank) && RanksAll(t.nodes, rank) && b in t.nodes && t.nodes[b].refs != []
    ensures t.nodes[b].refs[0] in t.nodes && Reaches(t.nodes, rank, t.nodes[b].refs[0], b)
  {
    var p := t.nodes[b].refs[0];
    ReferrerHasEdge(t, b, p);
    EdgeReaches(t.nodes, rank, p, b);
  }

  /** A referrer of `b` has `b` among its forward edges. */
  lemma ReferrerHasEdge(t: DepTree, b: string, p: string)
    requires Closed(t) && Symmetric(t) && b in t.nodes && p in t.nodes[b].refs
    ensures p in t.nodes && b in t.nodes[p].deps
  {
    assert Count(t.nodes[b].refs, p) > 0;
  }

  /** One forward edge is a path. */
  lemma EdgeReaches(nodes: map<string, Node>, rank: map<string, nat>, a: string, b: string)
    requires Ranked(nodes, rank) && a in nodes && a in rank && b in nodes[a].deps
    ensures Reaches(nodes, rank, a, b)
  {
    var i :| 0 <= i < |nodes[a].deps| && nodes[a].deps[i] == b;
  }

  /** In a well-formed table without cycles every node is an entry point or is
      reachable from one: following reverse edges climbs in rank. */
  lemma {:induction false} HasAnchor(t: DepTree, rank: map<string, nat>, b: string)
    requires Closed(t) && Symmetric(t) && Ranked(t.nodes, rank) && RanksAll(t.nodes, rank) && b in t.nodes
    decreases |Above(t.nodes, rank, b)|
    ensures exists a :: a in t.nodes && t.nodes[a].refs == [] && (a == b || Reaches(t.nodes, rank, a, b))
  {
    if t.nodes[b].refs != [] {
      var p := t.nodes[b].refs[0];
      FirstReferrer(t, rank, b);
      ReachesLowersRank(t.nodes, rank, p, b);
      AboveShrinks(t.nodes, rank, p, b);
      HasAnchor(t, rank, p);
      var a :| a in t.nodes && t.nodes[a].refs == [] && (a == p || Reaches(t.nodes, rank, a, p));
      if a != p {
        ReachesTrans(t.nodes, rank, a, p, b);
      }
    }
  }

  /** Where an entry sits in the key order. */
  lemma KeyIndex(t: DepTree, a: string) returns (i: nat)
    requires Ordered(t) && a in t.nodes
    ensures i < |t.keys| && t.keys[i] == a
  {
    assert a in t.keys;
    i :| i < |t.keys| && t.keys[i] == a;
  }

  /** Nothing in a well-formed table without cycles is left out: every node that is
      not flushed and has a chunk is assembled. */
  lemma AssembleComplete(t: DepTree, cache: Cache, rank: map<string, nat>, x: string)
    requires Valid(t) && Ranked(t.nodes, rank) && RanksAll(t.nodes, rank) && Emits(t.nodes, cache, x)
    ensures EntriesRanked(t.nodes, rank, t.keys)
    ensures x in Assemble(t.nodes, cache, rank, t.keys)
  {
    assert EntriesRanked(t.nodes, rank, t.keys) by {
      assert Ordered(t);
    }
    assert Closed(t) && Symmetric(t);
    HasAnchor(t, rank, x);
    var a :| a in t.nodes && t.nodes[a].refs == [] && (a == x || Reaches(t.nodes, rank, a, x));
    var i := KeyIndex(t, a);
    WalkComplete(t.nodes, cache, rank, a, x);
    AssembleHas(t.nodes, cache, rank, t.keys, i, x);
  }
}

/** The module-level state of index.js:5-7 and the operations that change
    it: registering one file (the `readFile` callback of index.js:53-91),
    the completion check `done`, the output pass `buildOutput`/`dfs` and the
    write-completion callback. The output file is a sequence of the strings
    written to it, in write order. */
module Bundler {
  import opened Wrappers
  import opened Graph
  import opened Assembly
  import Chunk
  import Matcher

  /** The chunks cached for `ks`, in order: what the writes for those keys put
      in the output. A key without a chunk contributes nothing. */
  function Chunks(cache: Cache, ks: seq<string>): seq<string>
    decreases |ks|
  {
    if ks == [] then []
    else
      var k := ks[|ks| - 1];
      Chunks(cache, ks[..|ks| - 1]) + (if k in cache && cache[k].Some? then [cache[k].value] else [])
  }

  /** For keys that all have a chunk, one chunk per key, in the same order. */
  lemma {:induction false} ChunksAt(cache: Cache, ks: seq<string>)
    requires forall i :: 0 <= i < |ks| ==> ks[i] in cache && cache[ks[i]].Some?
    decreases |ks|
    ensures |Chunks(cache, ks)| == |ks|
    ensures forall i :: 0 <= i < |ks| ==> Chunks(cache, ks)[i] == cache[ks[i]].value
  {
    if ks != [] {
      ChunksAt(cache, ks[..|ks| - 1]);
    }
  }

  /** The chunks of two runs of writes are the chunks of each, in turn. */
  lemma {:induction false} ChunksConcat(cache: Cache, u: seq<string>, v: seq<string>)
    decreases |v|
    ensures Chunks(cache, u + v) == Chunks(cache, u) + Chunks(cache, v)
  {
    if v == [] {
      assert u + v == u;
    } else {
      var w := v[..|v| - 1];
      ChunksConcat(cache, u, w);
      assert (u + v)[..|u + v| - 1] == u + w;
    }
  }

  /** The chunks written by the walk of `ds[..i + 1]`: those of `ds[..i]`,
      then those of the walk from `ds[i]`. */
  lemma WalkListChunksStep(nodes: map<string, Node>, cache: Cache, rank: map<string, nat>, ds: seq<string>, bound: nat, i: nat)
    requires Ranked(nodes, rank) && Below(nodes, rank, ds, bound) && i < |ds|
    ensures Below(nodes, rank, ds[..i], bound) && Below(nodes, rank, ds[..i + 1], bound)
    ensures Chunks(cache, WalkList(nodes, cache, rank, ds[..i + 1], bound))
      == Chunks(cache, WalkList(nodes, cache, rank, ds[..i], bound)) + Chunks(cache, Walk(nodes, cache, rank, ds[i]))
  {
    assert ds[..i + 1][..i] == ds[..i];
    var before := WalkList(nodes, cache, rank, ds[..i], bound);
    var step := Walk(nodes, cache, rank, ds[i]);
    assert WalkList(nodes, cache, rank, ds[..i + 1], bound) == before + step;
    ChunksConcat(cache, before, step);
  }

  /** The chunks written by the walk from `k`: those of its dependencies,
      then its own if it is written. */
  lemma WalkChunks(nodes: map<string, Node>, cache: Cache, rank: map<string, nat>, k: string)
    requires Ranked(nodes, rank) && k in nodes && k in rank
    ensures Below(nodes, rank, nodes[k].deps, rank[k])
    ensures Chunks(cache, Walk(nodes, cache, rank, k))
      == Chunks(cache, WalkList(nodes, cache, rank, nodes[k].deps, rank[k]))
        + (if Emits(nodes, cache, k) then [cache[k].value] else [])
  {
    var inner := WalkList(nodes, cache, rank, nodes[k].deps, rank[k]);
    var own := if Emits(nodes, cache, k) then [k] else [];
    assert Walk(nodes, cache, rank, k) == inner + own;
    ChunksConcat(cache, inner, own);
    assert Chunks(cache, own) == if Emits(nodes, cache, k) then [cache[k].value] else [];
  }

  /** Every key in the key order names an entry of a well-formed table, and
      the keys without referrers are ranked when every such node is. */
  lemma KeysRanked(t: DepTree, rank: map<string, nat>)
    requires Graph.Valid(t) && AnchorsRanked(t.nodes, rank)
    ensures EntriesRanked(t.nodes, rank, t.keys)
  {
  }

  /** The keys `front` then `k`: the entries stay ranked, and what the key
      `k` contributes follows the output for `front`. */
  lemma AssembleAppend(nodes: map<string, Node>, cache: Cache, rank: map<string, nat>, front: seq<string>, k: string)
    requires Ranked(nodes, rank) && k in nodes && (nodes[k].refs == [] ==> k in rank)
    requires EntriesRanked(nodes, rank, front)
    ensures EntriesRanked(nodes, rank, front + [k])
    ensures Assemble(nodes, cache, rank, front + [k]) == Assemble(nodes, cache, rank, front) + EntryWalk(nodes, cache, rank, k)
  {
    var w := front + [k];
    assert w[..|front|] == front && w[|front|] == k;
  }

  /** Appending the chunks of two runs of writes in turn. */
  lemma ChunksStep(cache: Cache, u: seq<string>, v: seq<string>, o0: seq<string>, o1: seq<string>, o2: seq<string>)
    requires o1 == o0 + Chunks(cache, u) && o2 == o1 + Chunks(cache, v)
    ensures o2 == o0 + Chunks(cache, u + v)
  {
    ChunksConcat(cache, u, v);
    assert o0 + Chunks(cache, u) + Chunks(cache, v) == o0 + (Chunks(cache, u) + Chunks(cache, v));
  }

  /** One turn of the loop over the keys: output `o1` after the keys
      `front`, `o2` after the next key `k`. */
  lemma EntryStep(nodes: map<string, Node>, cache: Cache, rank: map<string, nat>, front: seq<string>, k: string,
                  o0: seq<string>, o1: seq<string>, o2: seq<string>)
    requires Ranked(nodes, rank) && k in nodes && (nodes[k].refs == [] ==> k in rank)
    requires EntriesRanked(nodes, rank, front)
    requires o1 == o0 + Chunks(cache, Assemble(nodes, cache, rank, front))
    requires o2 == o1 + Chunks(cache, EntryWalk(nodes, cache, rank, k))
    ensures EntriesRanked(nodes, rank, front + [k])
    ensures o2 == o0 + Chunks(cache, Assemble(nodes, cache, rank, front + [k]))
  {
    AssembleAppend(nodes, cache, rank, front, k);
    ChunksStep(cache, Assemble(nodes, cache, rank, front), EntryWalk(nodes, cache, rank, k), o0, o1, o2);
  }

  /** One turn of the loop over the dependencies: output `o1` after the
      first `i` of them, `o2` after dependency `i`. */
  lemma EachStep(nodes: map<string, Node>, cache: Cache, rank: map<string, nat>, ds: seq<string>, bound: nat, i: nat,
                 o0: seq<string>, o1: seq<string>, o2: seq<string>)
    requires Ranked(nodes, rank) && Below(nodes, rank, ds, bound) && i < |ds|
    requires o1 == o0 + Chunks(cache, WalkList(nodes, cache, rank, ds[..i], bound))
    requires o2 == o1 + Chunks(cache, Walk(nodes, cache, rank, ds[i]))
    ensures Below(nodes, rank, ds[..i + 1], bound)
    ensures o2 == o0 + Chunks(cache, WalkList(nodes, cache, rank, ds[..i + 1], bound))
  {
    WalkListChunksStep(nodes, cache, rank, ds, bound, i);
  }

  /** index.js:69: a module whose text never spells `require` is cached
      but leaves the table as it is; in particular it gets no node of its own. */
  lemma UnmatchedLeavesTable(t: DepTree, key: string, data: string)
    requires forall i: nat :: !Matcher.KeywordAt(data, i)
    ensures Register(t, key, Matcher.RequireIds(data)) == t
  {
    Matcher.NoKeywordNoIds(data);
  }

  /** index.js:69: a text whose scan finds no match, even one that spells
      `require`, leaves the table unchanged. */
  lemma NoMatchLeavesTable(t: DepTree, key: string, data: string)
    requires Matcher.RequireIds(data) == []
    ensures Register(t, key, Matcher.RequireIds(data)) == t
  {
  }

  /** The loop of `Record` run over all the ids from the table with the
      module's node ensured computes `Register`. */
  lemma RegisterLoop(t: DepTree, key: string, ids: seq<string>, t0: DepTree, r: DepTree)
    requires ids != [] && t0 == (if key in t.nodes then t else Put(t, key, NewNode))
    requires key in t0.nodes && r == AddEdges(t0, key, ids[..|ids|])
    ensures r == Register(t, key, ids)
  {
    assert ids[..|ids|] == ids;
  }

  /** index.js:69-87 on the table: a module with matches gets its node if
      missing, then one forward and one reverse edge per match, in order. */
  method Record(t: DepTree, key: string, ids: seq<string>) returns (r: DepTree)
    ensures r == Register(t, key, ids)
  {
    if |ids| == 0 {
      return t;
    }
    r := t;
    if key !in r.nodes {
      r := Put(r, key, NewNode);
    }
    ghost var t0 := r;
    for i := 0 to |ids|
      invariant key in r.nodes
      invariant r == AddEdges(t0, key, ids[..i])
    {
      assert ids[..i + 1][..i] == ids[..i];
      r := AddEdge(r, key, ids[i]);
    }
    RegisterLoop(t, key, ids, t0, r);
  }

  /** In a well-formed table the key order lists every entry once. */
  lemma KeysCountWhenValid(t: DepTree)
    ensures Graph.Valid(t) ==> |t.keys| == |t.nodes|
  {
    if Graph.Valid(t) {
      KeysCount(t);
    }
  }

  /** What a build leaves in the output file `out` (index.js:93-134): the
      header, then the chunks of the walks from every anchor, in key order. */
  ghost predicate Built(t: DepTree, c: Cache, rank: map<string, nat>, out: seq<string>) {
    && Ranked(t.nodes, rank) && EntriesRanked(t.nodes, rank, t.keys)
    && out == [Chunk.Header()] + Chunks(c, Assemble(t.nodes, c, rank, t.keys))
  }

  /** What a build needs (index.js:37-38, 106-111): whenever `n` files
      started matches the key counts of the table and the cache, the anchors
      and everything they reach are ranked. */
  ghost predicate BuildReady(t: DepTree, c: Cache, n: nat, rank: map<string, nat>) {
    (n == |t.keys| && n == |c|) ==> Ranked(t.nodes, rank) && AnchorsRanked(t.nodes, rank)
  }

  class Bundler {
    /** `cache`: the rendered chunk of every file read, by key. */
    var cache: Cache
    /** `depTree`: the dependency table. */
    var depTree: DepTree
    /** `totalCount`: files started. */
    var totalCount: nat
    /** The output file, as the strings written to it in order. */
    var out: seq<string>

    /** The table is well formed and its edges symmetric. */
    ghost predicate Valid()
      reads this`depTree
    {
      Graph.Valid(depTree)
    }

    /** The condition of `done` (index.js:37-38): as many files started as
        `Object.keys` lists for the table and for the cache, that is, as
        there are table entries and cache entries. */
    predicate Full()
      reads this`totalCount, this`depTree, this`cache
      ensures Valid() ==> (Full() <==> totalCount == |depTree.nodes| && totalCount == |cache|)
    {
      KeysCountWhenValid(depTree);
      totalCount == |depTree.keys| && totalCount == |cache|
    }

    /** index.js:5-7: all state empty; the output file not yet written. */
    constructor ()
      ensures Valid()
      ensures cache == map[] && depTree == Empty && totalCount == 0 && out == []
    {
      cache := map[];
      depTree := Empty;
      totalCount := 0;
      out := [];
    }

    /** index.js:11: every call of `requireBuild` resets the count. */
    method Restart()
      modifies this`totalCount
      ensures totalCount == 0
    {
      totalCount := 0;
    }

    /** `begin` (index.js:31-33): one more file started. */
    method Begin()
      modifies this`totalCount
      ensures totalCount == old(totalCount) + 1
    {
      totalCount := totalCount + 1;
    }

    /** The `readFile` callback of index.js:54-87 for the file
        `rootdir + '/' + file` with text `data` and key `key`: its chunk is
        cached, then its matches are recorded in the table, in order. */
    method AddModule(key: string, rootdir: string, file: string, data: string)
      requires Valid()
      modifies this`cache, this`depTree
      ensures Valid()
      ensures cache == old(cache)[key := Some(Chunk.Render(key, rootdir, file, data))]
      ensures depTree == Register(old(depTree), key, Matcher.RequireIds(data))
    {
      cache := cache[key := Some(Chunk.Render(key, rootdir, file, data))];
      var ids := Matcher.RequireIds(data);
      var t := Record(depTree, key, ids);
      RegisterValid(depTree, key, ids);
      depTree := t;
    }

    /** `dfs(key)` (index.js:116-134): the dependencies first, in push order,
        then the write of the node's own chunk if it is not flushed and still
        cached. The writes are appended in the order they are issued. */
    method Dfs(key: string, ghost rank: map<string, nat>)
      requires Ranked(depTree.nodes, rank) && key in depTree.nodes && key in rank
      modifies this`out
      decreases rank[key], 1
      ensures out == old(out) + Chunks(cache, Walk(depTree.nodes, cache, rank, key))
    {
      WalkChunks(depTree.nodes, cache, rank, key);
      DfsEach(depTree.nodes[key].deps, rank, rank[key]);
      if !depTree.nodes[key].flush && key in cache && cache[key].Some? {
        var chunk := cache[key].value;
        out := out + [chunk];
      }
    }

    /** `depTree[key].deps.forEach(adj => dfs(adj))` (index.js:119-121). */
    method DfsEach(ds: seq<string>, ghost rank: map<string, nat>, ghost bound: nat)
      requires Ranked(depTree.nodes, rank) && Below(depTree.nodes, rank, ds, bound)
      modifies this`out
      decreases bound, 0
      ensures out == old(out) + Chunks(cache, WalkList(depTree.nodes, cache, rank, ds, bound))
    {
      for i := 0 to |ds|
        invariant Below(depTree.nodes, rank, ds[..i], bound)
        invariant out == old(out) + Chunks(cache, WalkList(depTree.nodes, cache, rank, ds[..i], bound))
      {
        WalkListChunksStep(depTree.nodes, cache, rank, ds, bound, i);
        ghost var before := out;
        Dfs(ds[i], rank);
        EachStep(depTree.nodes, cache, rank, ds, bound, i, old(out), before, out);
      }
      assert ds[..|ds|] == ds;
    }

    /** `buildOutput` (index.js:93-114): the header truncates the file, then
        every entry without referrers is walked, in key order. */
    method BuildOutput(ghost rank: map<string, nat>)
      requires Valid() && Ranked(depTree.nodes, rank) && AnchorsRanked(depTree.nodes, rank)
      modifies this`out
      ensures EntriesRanked(depTree.nodes, rank, depTree.keys)
      ensures out == [Chunk.Header()] + Chunks(cache, Assemble(depTree.nodes, cache, rank, depTree.keys))
    {
      out := [Chunk.Header()];
      KeysRanked(depTree, rank);
      DfsEntries(depTree.keys, rank);
    }

    /** `Object.keys(depTree).forEach(...)` (index.js:106-111): `dfs` from
        every key whose node has no referrers. */
    method DfsEntries(keys: seq<string>, ghost rank: map<string, nat>)
      requires Ranked(depTree.nodes, rank) && EntriesRanked(depTree.nodes, rank, keys)
      modifies this`out
      ensures out == old(out) + Chunks(cache, Assemble(depTree.nodes, cache, rank, keys))
    {
      ghost var nodes, c := depTree.nodes, cache;
      for i := 0 to |keys|
        invariant EntriesRanked(nodes, rank, keys[..i])
        invariant out == old(out) + Chunks(c, Assemble(nodes, c, rank, keys[..i]))
      {
        var k := keys[i];
        ghost var front := keys[..i];
        assert front + [k] == keys[..i + 1];
        ghost var before := out;
        Entry(k, rank);
        EntryStep(nodes, c, rank, front, k, old(out), before, out);
      }
      assert keys[..|keys|] == keys;
    }

    /** The callback of index.js:106-111 for one key: a node without
        referrers can be an entry point and is walked. */
    method Entry(key: string, ghost rank: map<string, nat>)
      requires Ranked(depTree.nodes, rank) && key in depTree.nodes
      requires depTree.nodes[key].refs == [] ==> key in rank
      modifies this`out
      ensures out == old(out) + Chunks(cache, EntryWalk(depTree.nodes, cache, rank, key))
    {
      if depTree.nodes[key].refs == [] {
        Dfs(key, rank);
      } else {
        assert EntryWalk(depTree.nodes, cache, rank, key) == [];
        assert out == old(out) + [];
      }
    }

    /** `done` (index.js:36-41, called at index.js:89): the output is built
        exactly when the counts agree. The walk has no visited set, so a
        rank over the anchors and what they reach is needed whenever it
        runs. */
    method Done(ghost rank: map<string, nat>) returns (built: bool)
      requires Valid() && BuildReady(depTree, cache, totalCount, rank)
      modifies this`out
      ensures built <==> Full()
      ensures built ==> Built(depTree, cache, rank, out)
      ensures !built ==> out == old(out)
    {
      built := totalCount == |depTree.keys| && totalCount == |cache|;
      if built {
        BuildOutput(rank);
      }
    }

    /** The whole `readFile` callback of index.js:54-90: the module is
        added, then `done` decides whether to build. */
    method FileRead(key: string, rootdir: string, file: string, data: string, ghost rank: map<string, nat>) returns (built: bool)
      requires Valid()
      requires BuildReady(Register(depTree, key, Matcher.RequireIds(data)),
        cache[key := Some(Chunk.Render(key, rootdir, file, data))], totalCount, rank)
      modifies this`cache, this`depTree, this`out
      ensures Valid()
      ensures cache == old(cache)[key := Some(Chunk.Render(key, rootdir, file, data))]
      ensures depTree == Register(old(depTree), key, Matcher.RequireIds(data))
      ensures built <==> Full()
      ensures built ==> Built(depTree, cache, rank, out)
      ensures !built ==> out == old(out)
    {
      ghost var t := Register(depTree, key, Matcher.RequireIds(data));
      ghost var c := cache[key := Some(Chunk.Render(key, rootdir, file, data))];
      ghost var n := totalCount;
      AddModule(key, rootdir, file, data);
      assert depTree == t && cache == c && totalCount == n;
      built := Done(rank);
    }

    /** The callback of the append of `key`'s chunk (index.js:128-131): the
        cache entry becomes `undefined` and the node is marked flushed. */
    method WriteCompleted(key: string)
      requires Valid() && key in depTree.nodes
      modifies this`cache, this`depTree
      ensures Valid()
      ensures cache == old(cache)[key := None]
      ensures depTree == MarkFlushed(old(depTree), key)
    {
      ghost var t := depTree;
      var r := MarkFlushed(depTree, key);
      MarkFlushedValid(t, key);
      depTree := r;
      cache := cache[key := None];
    }
  }
}

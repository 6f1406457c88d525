/** The dependency table `depTree` of index.js:6 and the way one module's
    matches are recorded in it (index.js:69-87). */
module Graph {

  /** One entry of `depTree`: forward edges, reverse edges (both with
      multiplicity, in push order) and the flag set once the chunk is written. */
  datatype Node = Node(deps: seq<string>, refs: seq<string>, flush: bool)

  /** `{ deps: [], refs: [], flush: false }`, the node created on demand. */
  const NewNode := Node([], [], false)

  /** A JavaScript object from ids to nodes: the entries, and the keys in the
      insertion order that `Object.keys` reports. */
  datatype DepTree = DepTree(nodes: map<string, Node>, keys: seq<string>)

  /** `keys` lists every entry exactly once. */
  ghost predicate Ordered(t: DepTree) {
    && (forall k :: k in t.nodes <==> k in t.keys)
    && (forall i, j :: 0 <= i < j < |t.keys| ==> t.keys[i] != t.keys[j])
  }

  /** Every edge, forward or reverse, ends at an entry of the table. */
  ghost predicate Closed(t: DepTree) {
    && (forall a, i :: a in t.nodes && 0 <= i < |t.nodes[a].deps| ==> t.nodes[a].deps[i] in t.nodes)
    && (forall a, i :: a in t.nodes && 0 <= i < |t.nodes[a].refs| ==> t.nodes[a].refs[i] in t.nodes)
  }

  /** Each forward edge `a -> b` is matched by a reverse edge `b <- a`, with
      the same multiplicity. */
  ghost predicate Symmetric(t: DepTree) {
    forall a, b :: a in t.nodes && b in t.nodes ==> Count(t.nodes[a].deps, b) == Count(t.nodes[b].refs, a)
  }

  /** How many times `x` occurs in `s`. */
  function Count(s: seq<string>, x: string): nat {
    multiset(s)[x]
  }

  ghost predicate Valid(t: DepTree) {
    Ordered(t) && Closed(t) && Symmetric(t)
  }

  const Empty := DepTree(map[], [])

  /** A sequence without repeats has as many distinct elements as entries. */
  lemma {:induction false} DistinctCard(s: seq<string>)
    requires forall i, j :: 0 <= i < j < |s| ==> s[i] != s[j]
    ensures |set x | x in s| == |s|
  {
    if s != [] {
      var p := s[..|s| - 1];
      var last := s[|s| - 1];
      DistinctCard(p);
      assert last !in p by {
        forall i | 0 <= i < |p|
          ensures p[i] != last
        {
          assert p[i] == s[i];
        }
      }
      assert s == p + [last];
      assert (set x | x in s) == (set x | x in p) + {last};
    }
  }

  /** `Object.keys(depTree).length` is the number of entries. */
  lemma KeysCount(t: DepTree)
    requires Ordered(t)
    ensures |t.keys| == |t.nodes|
  {
    DistinctCard(t.keys);
    assert t.nodes.Keys == set x | x in t.keys;
  }

  /** The node stored under `k`, or the node that would be created for it. */
  function Get(t: DepTree, k: string): Node {
    if k in t.nodes then t.nodes[k] else NewNode
  }

  /** `depTree[k] = n`: a new key goes to the end of the key order. */
  function Put(t: DepTree, k: string, n: Node): (r: DepTree)
    ensures Ordered(t) ==> Ordered(r)
  {
    DepTree(t.nodes[k := n], if k in t.nodes then t.keys else t.keys + [k])
  }

  /** `if (typeof depTree[k] === 'undefined') depTree[k] = {...}`
      (index.js:71-73, 80-82): an existing node is never reset. */
  function Ensure(t: DepTree, k: string): (r: DepTree)
    ensures k in r.nodes && r.nodes.Keys == t.nodes.Keys + {k}
    ensures forall x :: x in t.nodes ==> r.nodes[x] == t.nodes[x]
    ensures r.nodes[k] == Get(t, k)
    ensures r.keys == if k in t.nodes then t.keys else t.keys + [k]
  {
    if k in t.nodes then t else Put(t, k, NewNode)
  }

  /** One turn of the loop at index.js:76-86, for the id `k` matched in the
      text of module `key`. */
  function AddEdge(t: DepTree, key: string, k: string): (r: DepTree)
    requires key in t.nodes
    ensures r.nodes.Keys == t.nodes.Keys + {k}
    ensures r.nodes[key].deps == t.nodes[key].deps + [k]
    ensures r.nodes[k].refs == Get(t, k).refs + [key]
  {
    var t1 := Ensure(t, k);
    var t2 := Put(t1, key, t1.nodes[key].(deps := t1.nodes[key].deps + [k]));
    Put(t2, k, t2.nodes[k].(refs := t2.nodes[k].refs + [key]))
  }

  /** The whole loop at index.js:76-86, over the ids in match order. */
  function AddEdges(t: DepTree, key: string, ids: seq<string>): (r: DepTree)
    requires key in t.nodes
    decreases |ids|
    ensures r.nodes.Keys == t.nodes.Keys + set x | x in ids
  {
    if ids == [] then t
    else
      var last := ids[|ids| - 1];
      assert ids == ids[..|ids| - 1] + [last];
      AddEdge(AddEdges(t, key, ids[..|ids| - 1]), key, last)
  }

  /** index.js:69-87: a module whose text has no match leaves the table
      alone; otherwise its own node is created if missing and its edges added. */
  function Register(t: DepTree, key: string, ids: seq<string>): (r: DepTree)
    ensures ids == [] ==> r == t
    ensures ids != [] ==> key in r.nodes && r.nodes.Keys == t.nodes.Keys + {key} + set x | x in ids
  {
    if ids == [] then t else AddEdges(Ensure(t, key), key, ids)
  }

  /** `n` copies of `x`. */
  function Repeat(x: string, n: nat): (r: seq<string>)
    ensures |r| == n && forall i :: 0 <= i < n ==> r[i] == x
  {
    if n == 0 then [] else Repeat(x, n - 1) + [x]
  }

  /** The key order after creating nodes for `xs`, in order, where missing. */
  function Appended(keys: seq<string>, xs: seq<string>): seq<string>
    decreases |xs|
  {
    if xs == [] then keys
    else
      var p := Appended(keys, xs[..|xs| - 1]);
      if xs[|xs| - 1] in p then p else p + [xs[|xs| - 1]]
  }

  /** Node `x` of `r` is node `x` of `t` (or a new node) with the forward
      edges `added` to the module `key`, and `key` pushed `n` times onto its
      reverse edges; its flag is untouched. */
  ghost predicate Extended(t: DepTree, r: DepTree, key: string, added: seq<string>, n: nat, x: string)
    requires x in r.nodes
  {
    && r.nodes[x].deps == Get(t, x).deps + (if x == key then added else [])
    && r.nodes[x].refs == Get(t, x).refs + Repeat(key, n)
    && r.nodes[x].flush == Get(t, x).flush
  }

  /** What one turn of the loop does to every node and to the key order. */
  lemma AddEdgeEffect(t: DepTree, key: string, k: string)
    requires key in t.nodes && Ordered(t)
    ensures var r := AddEdge(t, key, k);
      && Ordered(r)
      && r.nodes.Keys == t.nodes.Keys + {k}
      && r.keys == (if k in t.keys then t.keys else t.keys + [k])
      && forall x :: x in r.nodes ==> Extended(t, r, key, [k], if x == k then 1 else 0, x)
  {
    var t1 := Ensure(t, k);
    var t2 := Put(t1, key, t1.nodes[key].(deps := t1.nodes[key].deps + [k]));
    var r := AddEdge(t, key, k);
    assert Ordered(r) && r.keys == (if k in t.keys then t.keys else t.keys + [k]) by {
      assert Ordered(t1) && Ordered(t2);
    }
    forall x | x in r.nodes
      ensures Extended(t, r, key, [k], if x == k then 1 else 0, x)
    {
      AddEdgeNode(t, key, k, x);
    }
  }

  /** What one turn of the loop does to one node. */
  lemma AddEdgeNode(t: DepTree, key: string, k: string, x: string)
    requires key in t.nodes && x in AddEdge(t, key, k).nodes
    ensures Extended(t, AddEdge(t, key, k), key, [k], if x == k then 1 else 0, x)
  {
    var t1 := Ensure(t, k);
    var n1 := t1.nodes[key].(deps := t1.nodes[key].deps + [k]);
    var t2 := Put(t1, key, n1);
    var n2 := t2.nodes[k].(refs := t2.nodes[k].refs + [key]);
    var r := Put(t2, k, n2);
    assert r == AddEdge(t, key, k);
    assert Get(t1, x) == Get(t, x);
    assert Repeat(key, 1) == [key];
    if x == k && x == key {
      assert r.nodes[x] == n2 && t2.nodes[x] == n1;
    } else if x == k {
      assert r.nodes[x] == n2 && t2.nodes[x] == t1.nodes[x];
    } else if x == key {
      assert r.nodes[x] == n1;
    } else {
      assert r.nodes[x] == t1.nodes[x];
    }
  }

  /** What the loop does: the module's node gains exactly the matched ids, in
      match order; each matched id's node gains the module once per
      occurrence; nothing else changes, nothing is reset, and the key order
      grows by the ids first seen. */
  lemma {:induction false} AddEdgesEffect(t: DepTree, key: string, ids: seq<string>)
    requires key in t.nodes && Ordered(t)
    decreases |ids|
    ensures var r := AddEdges(t, key, ids);
      && Ordered(r)
      && r.keys == Appended(t.keys, ids)
      && forall x :: x in r.nodes ==> Extended(t, r, key, ids, multiset(ids)[x], x)
  {
    if ids != [] {
      var front := ids[..|ids| - 1];
      var last := ids[|ids| - 1];
      assert ids == front + [last];
      AddEdgesEffect(t, key, front);
      var p := AddEdges(t, key, front);
      AddEdgeEffect(p, key, last);
      var r := AddEdge(p, key, last);
      assert r == AddEdges(t, key, ids);
      forall x | x in r.nodes
        ensures Extended(t, r, key, ids, multiset(ids)[x], x)
      {
        ExtendedStep(t, p, r, key, front, last, x);
      }
      assert r.keys == Appended(t.keys, ids) by {
        assert ids[..|ids| - 1] == front;
      }
    }
  }

  /** Composing the effect of the first ids with that of the last one. */
  lemma ExtendedStep(t: DepTree, p: DepTree, r: DepTree, key: string, front: seq<string>, last: string, x: string)
    requires x in r.nodes && key in t.nodes
    requires r.nodes.Keys == p.nodes.Keys + {last} && t.nodes.Keys <= p.nodes.Keys
    requires p.nodes.Keys == t.nodes.Keys + set y | y in front
    requires x in p.nodes ==> Extended(t, p, key, front, multiset(front)[x], x)
    requires Extended(p, r, key, [last], if x == last then 1 else 0, x)
    ensures Extended(t, r, key, front + [last], multiset(front + [last])[x], x)
  {
    var m := multiset(front)[x];
    var ids := front + [last];
    assert multiset(ids)[x] == m + (if x == last then 1 else 0);
    if x in p.nodes {
      if x == key {
        assert r.nodes[x].deps == (Get(t, x).deps + front) + [last];
      }
      if x == last {
        assert Repeat(key, m + 1) == Repeat(key, m) + [key];
        assert r.nodes[x].refs == (Get(t, x).refs + Repeat(key, m)) + [key];
      } else {
        assert r.nodes[x].refs == (Get(t, x).refs + Repeat(key, m)) + [];
      }
    } else {
      assert x == last && x !in t.nodes && x != key;
      assert x !in front;
      assert m == 0;
      assert Repeat(key, 1) == [key];
    }
  }

  /** The whole registration of a module with at least one match. */
  lemma RegisterEffect(t: DepTree, key: string, ids: seq<string>)
    requires Ordered(t) && ids != []
    ensures var r := Register(t, key, ids);
      && Ordered(r)
      && r.nodes.Keys == t.nodes.Keys + {key} + (set x | x in ids)
      && r.keys == Appended(t.keys, [key] + ids)
      && forall x :: x in r.nodes ==> Extended(t, r, key, ids, multiset(ids)[x], x)
  {
    var t0 := Ensure(t, key);
    assert Ordered(t0) && t0.nodes.Keys == t.nodes.Keys + {key};
    AddEdgesEffect(t0, key, ids);
    var r := AddEdges(t0, key, ids);
    forall x | x in r.nodes
      ensures Extended(t, r, key, ids, multiset(ids)[x], x)
    {
      EnsureThenExtended(t, r, key, ids, x);
    }
    AppendedCons(t.keys, key, ids);
  }

  /** Creating the module's node first does not change what the loop adds. */
  lemma EnsureThenExtended(t: DepTree, r: DepTree, key: string, ids: seq<string>, x: string)
    requires x in r.nodes && Extended(Ensure(t, key), r, key, ids, multiset(ids)[x], x)
    ensures Extended(t, r, key, ids, multiset(ids)[x], x)
  {
    assert Get(Ensure(t, key), x) == Get(t, x);
  }

  /** Appending one key first and then the rest is appending them all. */
  lemma {:induction false} AppendedCons(keys: seq<string>, k: string, xs: seq<string>)
    ensures Appended(keys, [k] + xs) == Appended(if k in keys then keys else keys + [k], xs)
    decreases |xs|
  {
    if xs == [] {
      assert [k] + xs == [k];
      assert Appended(keys, [k]) == Appended(keys, []) + (if k in keys then [] else [k]);
    } else {
      var front := xs[..|xs| - 1];
      AppendedCons(keys, k, front);
      assert ([k] + xs)[..|[k] + xs| - 1] == [k] + front;
    }
  }

  /** A closed table has no edge to an id it does not hold. */
  lemma NoEdgeToAbsent(t: DepTree, a: string, b: string)
    requires Closed(t) && a in t.nodes && b !in t.nodes
    ensures multiset(t.nodes[a].deps)[b] == 0 && multiset(t.nodes[a].refs)[b] == 0
  {
    assert forall i :: 0 <= i < |t.nodes[a].deps| ==> t.nodes[a].deps[i] != b;
    assert forall i :: 0 <= i < |t.nodes[a].refs| ==> t.nodes[a].refs[i] != b;
    assert b !in t.nodes[a].deps && b !in t.nodes[a].refs;
  }

  /** Before the turn, `a` has as many forward edges to `b` as `b` has
      reverse edges from `a`, also when either node is yet to be created. */
  lemma CountsBefore(t: DepTree, a: string, b: string)
    requires Closed(t) && Symmetric(t)
    ensures multiset(Get(t, a).deps)[b] == multiset(Get(t, b).refs)[a]
  {
    if a !in t.nodes && b in t.nodes {
      NoEdgeToAbsent(t, b, a);
    } else if b !in t.nodes && a in t.nodes {
      NoEdgeToAbsent(t, a, b);
    }
  }

  /** Pushing `k` onto the forward edges of `key` and `key` onto the reverse
      edges of `k` adds one to both counts of that pair and to no other. */
  lemma CountsAfter(t: DepTree, r: DepTree, key: string, k: string, a: string, b: string)
    requires a in r.nodes && b in r.nodes
    requires multiset(Get(t, a).deps)[b] == multiset(Get(t, b).refs)[a]
    requires Extended(t, r, key, [k], if a == k then 1 else 0, a)
    requires Extended(t, r, key, [k], if b == k then 1 else 0, b)
    ensures multiset(r.nodes[a].deps)[b] == multiset(r.nodes[b].refs)[a]
  {
    var da, rb := Get(t, a).deps, Get(t, b).refs;
    var fwd := if a == key then [k] else [];
    var rev := Repeat(key, if b == k then 1 else 0);
    assert rev == if b == k then [key] else [];
    assert r.nodes[a].deps == da + fwd;
    assert r.nodes[b].refs == rb + rev;
    assert multiset(da + fwd) == multiset(da) + multiset(fwd);
    assert multiset(rb + rev) == multiset(rb) + multiset(rev);
  }

  /** A table obtained by one turn of the loop keeps every edge inside it. */
  lemma ClosedAfterEdge(t: DepTree, r: DepTree, key: string, k: string)
    requires Closed(t) && key in t.nodes && r.nodes.Keys == t.nodes.Keys + {k}
    requires forall x :: x in r.nodes ==> Extended(t, r, key, [k], if x == k then 1 else 0, x)
    ensures Closed(r)
  {
    assert Repeat(key, 1) == [key];
    forall a, i | a in r.nodes && 0 <= i < |r.nodes[a].deps|
      ensures r.nodes[a].deps[i] in r.nodes
    {
      assert Extended(t, r, key, [k], if a == k then 1 else 0, a);
      if i < |Get(t, a).deps| { assert r.nodes[a].deps[i] == Get(t, a).deps[i]; }
    }
    forall a, i | a in r.nodes && 0 <= i < |r.nodes[a].refs|
      ensures r.nodes[a].refs[i] in r.nodes
    {
      assert Extended(t, r, key, [k], if a == k then 1 else 0, a);
      if i < |Get(t, a).refs| { assert r.nodes[a].refs[i] == Get(t, a).refs[i]; }
    }
  }

  /** A table obtained by one turn of the loop keeps its edges symmetric. */
  lemma SymmetricAfterEdge(t: DepTree, r: DepTree, key: string, k: string)
    requires Closed(t) && Symmetric(t) && key in t.nodes && r.nodes.Keys == t.nodes.Keys + {k}
    requires forall x :: x in r.nodes ==> Extended(t, r, key, [k], if x == k then 1 else 0, x)
    ensures Symmetric(r)
  {
    forall a, b | a in r.nodes && b in r.nodes
      ensures multiset(r.nodes[a].deps)[b] == multiset(r.nodes[b].refs)[a]
    {
      CountsBefore(t, a, b);
      CountsAfter(t, r, key, k, a, b);
    }
  }

  /** One turn of the loop keeps the table well formed and its edges symmetric. */
  lemma AddEdgeValid(t: DepTree, key: string, k: string)
    requires Valid(t) && key in t.nodes
    ensures Valid(AddEdge(t, key, k))
  {
    AddEdgeEffect(t, key, k);
    ClosedAfterEdge(t, AddEdge(t, key, k), key, k);
    SymmetricAfterEdge(t, AddEdge(t, key, k), key, k);
  }

  /** The whole loop keeps the table well formed and its edges symmetric. */
  lemma {:induction false} AddEdgesValid(t: DepTree, key: string, ids: seq<string>)
    requires Valid(t) && key in t.nodes
    decreases |ids|
    ensures Valid(AddEdges(t, key, ids))
  {
    if ids != [] {
      AddEdgesValid(t, key, ids[..|ids| - 1]);
      AddEdgeValid(AddEdges(t, key, ids[..|ids| - 1]), key, ids[|ids| - 1]);
    }
  }

  /** Registering a module keeps the table well formed and its edges symmetric. */
  lemma RegisterValid(t: DepTree, key: string, ids: seq<string>)
    requires Valid(t)
    ensures Valid(Register(t, key, ids))
  {
    if ids != [] {
      EnsureValid(t, key);
      AddEdgesValid(Ensure(t, key), key, ids);
    }
  }

  /** Creating a missing node keeps the table well formed and its edges
      symmetric. */
  lemma EnsureValid(t: DepTree, key: string)
    requires Valid(t)
    ensures Valid(Ensure(t, key)) && key in Ensure(t, key).nodes
  {
    if key !in t.nodes {
      var t0 := Put(t, key, NewNode);
      assert Ensure(t, key) == t0;
      PutNewValid(t, key, t0);
    } else {
      assert Ensure(t, key) == t;
    }
  }

  /** Storing a fresh node under a missing key adds no edge. */
  lemma PutNewValid(t: DepTree, key: string, t0: DepTree)
    requires Valid(t) && key !in t.nodes && t0 == Put(t, key, NewNode)
    ensures Valid(t0)
  {
    forall a, b | a in t0.nodes && b in t0.nodes
      ensures Count(t0.nodes[a].deps, b) == Count(t0.nodes[b].refs, a)
    {
      CountsBefore(t, a, b);
      assert Get(t, a) == t0.nodes[a] && Get(t, b) == t0.nodes[b];
    }
  }

  /** `depTree[key].flush = true` (index.js:131): only the flag of `key`
      changes. */
  function MarkFlushed(t: DepTree, key: string): (r: DepTree)
    requires key in t.nodes
    ensures r.keys == t.keys && r.nodes.Keys == t.nodes.Keys
    ensures r.nodes[key].flush
    ensures r.nodes[key].deps == t.nodes[key].deps && r.nodes[key].refs == t.nodes[key].refs
    ensures forall x :: x in t.nodes && x != key ==> r.nodes[x] == t.nodes[x]
  {
    DepTree(t.nodes[key := t.nodes[key].(flush := true)], t.keys)
  }

  /** Marking a node flushed keeps the table well formed and its edges symmetric. */
  lemma MarkFlushedValid(t: DepTree, key: string)
    requires Valid(t) && key in t.nodes
    ensures Valid(MarkFlushed(t, key))
  {
    var r := MarkFlushed(t, key);
    assert Ordered(r);
    forall x | x in r.nodes
      ensures r.nodes[x].deps == t.nodes[x].deps && r.nodes[x].refs == t.nodes[x].refs
    {
      if x != key {
        assert r.nodes[x] == t.nodes[x];
      }
    }
    assert Closed(r);
    forall a, b | a in r.nodes && b in r.nodes
      ensures multiset(r.nodes[a].deps)[b] == multiset(r.nodes[b].refs)[a]
    {
      assert r.nodes[a].deps == t.nodes[a].deps && r.nodes[b].refs == t.nodes[b].refs;
    }
  }
}

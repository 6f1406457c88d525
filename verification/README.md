# require-build, modelled in Dafny

`require-build` concatenates the JavaScript modules of a directory tree into
one file, each dependency ahead of the modules that use it. Its core is
`index.js`. This project models that file:

- **Module ids** (`keys.dfy`). `generateKey` turns a directory prefix and a
  file name into an id. It removes the first `.js`, drops one leading `/`,
  collapses `index` to its directory, and joins the two parts with `/` only
  when both are non-empty.
- **Dependency discovery** (`matcher.dfy`). The global regular expression of
  `index.js:67` and the anchored re-match of `index.js:78` are written as a
  scanner. Its token shape is the regex's: `require`, white space, `(`,
  white space, one character of the class `'`, `|`, `"`, a non-empty run
  without `)`, one character of the class again, white space, `)`. The
  class really contains `|`, and the two quotes need not agree.
- **Chunks** (`chunk.dfy`). This covers the text cached for a module
  (`index.js:58-64`) and the header that starts the output
  (`index.js:96-99`, `Chunk.Header`).
- **The dependency table** (`graph.dfy`). `depTree` is a JavaScript object.
  It is modelled as a map from ids to nodes plus its keys in insertion
  order. Each node has `deps` and `refs`, both in push order with
  duplicates, and a `flush` flag. The loop of `index.js:69-87` is modelled
  as functions on the table. The invariants it keeps are proved: every key
  listed once, edges closed, and forward and reverse edges matching with
  multiplicity.
- **Assembly** (`assembly.dfy`). This is what `buildOutput` and `dfs`
  write, as ghost functions. `Walk` is the post-order walk of one `dfs`;
  `Assemble` runs it from every node without referrers (an *anchor*), in
  key order. The walk has no visited set, so `dfs(k)` ends only when no
  cycle is reachable from `k`. A ghost `rank`, lowered by every forward
  edge out of a ranked node, states this and serves as the termination
  measure. Only the anchors and what they reach need a rank. A cycle that
  no anchor reaches is never walked, and its modules are left out of the
  output (`Assembly.AssembleUnreached`, `Examples.CycleLeftOut`).
- **The module state** (`bundler.dfy`). Class `Bundler.Bundler` holds
  `cache`, `depTree`, `totalCount` and the output file, as the sequence of
  strings written to it. Each method is one operation of `index.js`:
  - `Restart` and `Begin`;
  - `AddModule`, the read callback;
  - `Done`, and `FileRead`, which is the read callback followed by `done`;
  - `BuildOutput`, `DfsEntries`, `Entry`, `Dfs` and `DfsEach`;
  - `WriteCompleted`, the write callback.

  Each method is proved against the functions above.
- **Worked instances** (`examples.dfy`). These are the dependency chain and
  output order of `test/test.js`, and one module of its test tree.

Some behaviours of the code are easy to miss when reading it:

- **No emit-once.** `flush` is set only when a write completes
  (`index.js:128-131`), not when the write is issued. Within one
  synchronous walk, a module reachable along several paths is therefore
  written once per path (`Assembly.SharedDependencyWrittenTwice`). A write
  that has completed is never repeated (`Assembly.FlushedNotWalked`).
- **Cycles.** There is no cycle detection and no error. A cycle that an
  anchor reaches makes `dfs` recurse without end; the model requires a
  rank over what the anchors reach instead. A cycle that no anchor reaches
  is silently left out of the output (`Examples.CycleBesideEntry`).
- **Duplicate referrers.** Reverse edges are a list, not a set: the code
  pushes one referrer per match, duplicates included.
- **Shared ids.** Two files can get the same id: `name.js` at the root and
  `name/index.js` both become `name` (`Keys.SharedKey`). They then share
  one cache entry, the later read overwriting the earlier one. They share
  one table node only when one of the two files has a match
  (`index.js:69-73`) or another module requires `name`. `begin` counts
  both files, so the clash can throw off the completion check of
  `index.js:37-38`. Whether it does depends on the order of the callbacks,
  because each recursive `requireBuild` call (`index.js:19`) resets the
  count of started files (`index.js:11`). Only the id clash is proved; the
  model does not follow the counts through a directory walk.
- **Absent from `index.js`.** There is no build-time marker in the
  header, no console output of chunks, no rebuild controller, no polling
  and no signal handling.

## Model

| member | source | states |
|---|---|---|
| Keys.FindFrom | index.js:44 | the first index at or after `from` where the pattern occurs, or none when it occurs nowhere from there |
| Keys.RemoveFirst | index.js:44 | `String.replace` with a string pattern: the text is unchanged without an occurrence, otherwise exactly the first occurrence is cut out |
| Keys.Dir | index.js:45 | the prefix loses exactly one leading `/`, and is kept whole exactly when it is empty or does not start with `/` |
| Keys.Base | index.js:44-47 | the base name is the file name with its first `.js` removed, and is empty exactly when that leaves `""` or `index` |
| Keys.GenerateKey | index.js:43-51 | the id is the prefix minus one leading `/`, then the base name, with a `/` between exactly when both are non-empty |
| Keys.FirstJsAtEnd | index.js:44 | for a name without `.js`, stripping `name.js` gives back the name: no occurrence straddles the boundary |
| Keys.NestedKey | index.js:43-51 | `name.js` in directory `/dir` gets the id `dir/name` |
| Keys.RootKey | index.js:43-51 | `name.js` at the root gets the id `name` |
| Keys.IndexKey | index.js:47 | `index.js` in `/dir` collapses to `dir`, for every `dir` |
| Keys.SharedKey | index.js:43-51 | `name.js` at the root and `index.js` in directory `/name` get the same id |
| Keys.RootIndexExample | index.js:43-51 | `generateKey("", "index.js")` is `""` |
| Keys.DirIndexExample | index.js:43-51 | `generateKey("/a", "index.js")` is `"a"` |
| Keys.NestedExample | index.js:43-51 | `generateKey("/a", "b.js")` is `"a/b"` |
| Keys.FirstJsOnly | index.js:44 | only the first `.js` is removed: `a.js.js` becomes `a.js` |
| Keys.OneSlashOnly | index.js:45 | only one leading `/` is dropped: prefix `//a` gives `/a/b` |
| Keys.IndexExactOnly | index.js:47 | a name that merely starts with `index` is kept whole |
| Matcher.SkipSpaces | index.js:67 | the first index at or after `i` that is not `\s`, with only `\s` before it |
| Matcher.FindClose | index.js:67 | the first `)` at or after `i`; `[^)]+` cannot run past it |
| Matcher.LastNonSpace | index.js:67 | the last character before the `)` that is not `\s`, with only `\s` after it |
| Matcher.MatchPrefix | index.js:78 | a match has positive length within the text, and its id is non-empty and free of `)` |
| Matcher.MatchPrefixSound | index.js:78 | every match has the regex's token shape and captures the text between the two quote characters |
| Matcher.MatchPrefixComplete | index.js:78 | every token shape at the start of the text is found, with that id and length: the positions are forced |
| Matcher.RequireIds | index.js:67-78 | the ids of the leftmost non-overlapping matches are non-empty and contain no `)` |
| Matcher.ScanRequireCall | index.js:67-78 | a `require` call written out from an id yields that id, and scanning resumes right after it |
| Matcher.ScanSkip | index.js:67 | a character that cannot begin `require` is skipped |
| Matcher.NoKeywordNoIds | index.js:67-69 | text that never spells `require` yields no ids |
| Chunk.Render | index.js:58-64 | the chunk begins with the comment naming `rootdir/file` and embeds the module text verbatim between the wrapper's opening and closing |
| Chunk.UnwrapRender | index.js:58-64 | the module text can be read back from its chunk |
| Chunk.RenderInjective | index.js:62-64 | different texts under the same key and path give different chunks |
| Chunk.Header | index.js:96-99 | the header is non-empty and starts with `__module_exports_cache = {};`, which resets the registry |
| Chunk.HeaderNotChunk | index.js:58-64 | every chunk starts with its comment, so no chunk equals the header |
| Graph.Put | index.js:72 | assigning an entry keeps every key listed exactly once |
| Graph.Ensure | index.js:80-82 | the id has a node afterwards; an existing node is kept unchanged, a missing one is created empty and appended to the key order; no other entry changes |
| Graph.AddEdge | index.js:80-85 | one turn adds the id to the table, appends it to the module's `deps` and appends the module to the id's `refs` |
| Graph.AddEdges | index.js:76-86 | the loop adds exactly the matched ids to the table's entries |
| Graph.AddEdgeEffect | index.js:80-85 | one turn: the key order grows by a new id, `deps` of the module gains the id, `refs` of the id gains the module, nothing else changes |
| Graph.AddEdgesEffect | index.js:76-86 | the module's `deps` gains exactly the ids in match order, each id's `refs` gains the module once per occurrence, no node is reset, and new ids join the key order in first-match order |
| Graph.Register | index.js:69-87 | a text without a match leaves the table unchanged; otherwise the module has a node afterwards and the entries grow by exactly the module and the matched ids (the full effect is `Graph.RegisterEffect`, validity `Graph.RegisterValid`) |
| Graph.RegisterEffect | index.js:69-87 | the same for the whole registration, including the module's own node created first when missing |
| Graph.EnsureThenExtended | index.js:71-73 | creating the module's node first changes nothing that the loop adds |
| Graph.ClosedAfterEdge | index.js:80-85 | one turn keeps every edge inside the table |
| Graph.SymmetricAfterEdge | index.js:84-85 | one turn keeps forward and reverse edges matched, with multiplicity |
| Graph.AddEdgeValid | index.js:80-85 | one turn keeps the table well formed |
| Graph.AddEdgesValid | index.js:76-86 | the whole loop keeps the table well formed |
| Graph.RegisterValid | index.js:69-87 | registering a module keeps the table well formed |
| Graph.EnsureValid | index.js:71-73 | creating a missing node keeps the table well formed |
| Graph.PutNewValid | index.js:71-73 | storing an empty node under a missing id keeps the table well formed |
| Graph.DistinctCard | index.js:37 | a list without repeats has as many distinct elements as entries |
| Graph.KeysCount | index.js:37 | `Object.keys(depTree).length` equals the number of entries of the table |
| Graph.MarkFlushed | index.js:131 | only the `flush` flag of that node changes, to true |
| Graph.MarkFlushedValid | index.js:131 | marking a node flushed keeps the table well formed |
| Assembly.Walk | index.js:116-134 | for a key from which no cycle is reachable, `dfs` writes only nodes that are not flushed and have a cached chunk; dangling ids write nothing |
| Assembly.WalkList | index.js:119-121 | the same for the loop over a node's dependencies |
| Assembly.FlushedNotEmitted | index.js:124-131 | once a write completes, its key is no longer written, and whether any other key is written is unchanged |
| Assembly.RankedAfterFlush | index.js:131 | marking a node flushed keeps every rank valid |
| Assembly.FlushedNotWalked | index.js:116-131 | after the write of a key completes, no later `dfs` writes it again |
| Assembly.ReachesLowersRank | index.js:116-121 | following forward edges strictly lowers the rank |
| Assembly.NoCycle | index.js:116-121 | in a ranked table no node reaches itself |
| Assembly.WalkSound | index.js:116-134 | `dfs(k)` writes only `k` and nodes reachable from it, and only writable ones |
| Assembly.WalkComplete | index.js:116-134 | `dfs(k)` writes every writable node reachable from `k`: a dangling id does not stop its referrers |
| Assembly.WalkPostOrdered | index.js:116-134 | the walk is post-ordered: each written node follows every written node it reaches |
| Assembly.WalkListPostOrdered | index.js:119-121 | the dependency loop is post-ordered |
| Assembly.WalkRankFree | index.js:116-134 | what `dfs` writes does not depend on which rank shows that no cycle is reachable |
| Assembly.WalkListTwice | index.js:119-121 | a node written by the walks of two dependencies is written at least twice |
| Assembly.SharedDependencyWrittenTwice | index.js:119-131 | no emit-once: a node reached through two dependencies of `k` is written at least twice by `dfs(k)` |
| Assembly.Assemble | index.js:106-111 | `buildOutput` writes only nodes that are not flushed and have a cached chunk |
| Assembly.AssemblePostOrdered | index.js:106-121 | the whole output is post-ordered |
| Assembly.AssembleSound | index.js:106-111 | everything written is an anchor (no referrers) in the key order, or reachable from one |
| Assembly.AssembleHas | index.js:106-111 | everything the walk from an anchor writes is in the output |
| Assembly.AssembleUnreached | index.js:106-121 | a node that is not an anchor in the key order and that no anchor reaches is never written, even when it lies on a cycle |
| Assembly.FirstReferrer | index.js:84-85 | a node with a referrer is reached by a forward edge from its first referrer |
| Assembly.ReferrerHasEdge | index.js:84-85 | every referrer has a forward edge to the node |
| Assembly.HasAnchor | index.js:106-111 | in a well-formed table without any cycle, every node is an anchor or reachable from one |
| Assembly.AssembleComplete | index.js:93-134 | in a well-formed table without any cycle, every writable node is in the output |
| Bundler.ChunksAt | index.js:124-127 | for keys that all have a chunk, the writes are exactly those chunks in key order |
| Bundler.WalkChunks | index.js:116-134 | the chunks of `dfs(k)` are those of its dependencies, then its own if it is writable |
| Bundler.UnmatchedLeavesTable | index.js:69 | a module whose text never spells `require` leaves the table unchanged and gets no node |
| Bundler.NoMatchLeavesTable | index.js:69 | a text whose scan finds no match, even one that spells `require`, leaves the table unchanged |
| Bundler.RegisterLoop | index.js:69-87 | after the module's node is ensured, the loop over all the matched ids computes the registration |
| Bundler.Record | index.js:69-87 | the loop over the matches computes exactly the registration of the module |
| Bundler.Bundler.constructor | index.js:5-7 | all state starts empty, and the table is well formed |
| Bundler.Bundler.Restart | index.js:11 | the count of started files is reset to zero |
| Bundler.Bundler.Begin | index.js:31-33 | the count of started files goes up by one |
| Bundler.Bundler.Full | index.js:37-38 | in a well-formed table, the count of `Object.keys(depTree)` is its number of entries, so `done` compares the count of started files with the table's and the cache's entries |
| Bundler.Bundler.AddModule | index.js:57-87 | the chunk is cached under the key, the matches are registered in match order, and the table stays well formed |
| Bundler.Bundler.Dfs | index.js:116-134 | appends exactly the chunks of the post-order walk from the key |
| Bundler.Bundler.DfsEach | index.js:119-121 | appends exactly the chunks of the walks of the dependencies, in push order |
| Bundler.Bundler.BuildOutput | index.js:93-114 | when no anchor reaches a cycle, the header truncates the file, then exactly the chunks of the walks from all anchors, in key order, are appended |
| Bundler.Bundler.DfsEntries | index.js:106-111 | appends exactly the chunks of the walks from the anchors among the keys, in order |
| Bundler.Bundler.Entry | index.js:107-110 | walks a key only when it has no referrers |
| Bundler.Bundler.Done | index.js:36-41 | builds exactly when the count equals both the table's and the cache's number of keys, and otherwise leaves the output alone |
| Bundler.Bundler.FileRead | index.js:54-90 | the whole read callback: the module is added as above, then the output is built exactly when the counts agree, and otherwise left alone |
| Bundler.Bundler.WriteCompleted | index.js:128-132 | the cache entry becomes undefined while its key remains, the node is marked flushed, and the table stays well formed |
| Examples.ChainRanked | test/test.js:28-54 | the chain table of the test has no cycle: its rank covers every node |
| Examples.WalkLeaf | index.js:116-134 | a writable node without dependencies writes only itself |
| Examples.WalkOne | index.js:116-134 | a writable node with one dependency writes after that dependency's walk |
| Examples.AssembleNoEntry | index.js:106-111 | keys that all have referrers contribute nothing |
| Examples.AssembleOneEntry | index.js:106-111 | with one anchor among the keys, the output is that anchor's walk |
| Examples.ChainWalk | test/test.js:28-54 | the walk from `is/a/bbb` writes the whole chain, far end first |
| Examples.ChainOutputOrder | test/test.js:148-157 | the test's expected output order `cc, index, aaa, aa, bb, bbb` |
| Examples.TwoCallsScanned | test/test.js:65 | the text of `is/aa.js` yields its two ids in text order |
| Examples.FirstRegistration | test/test.js:115-118 | registering `is/aa` with its two matches in an empty table gives three entries, in creation order, with one edge each way per match |
| Examples.FirstRegistrationKeys | index.js:76-86 | two fresh ids join the key order after the module, in match order |
| Examples.RegisteredModule | index.js:84 | the module's own node gets both ids as forward edges and no referrer |
| Examples.RegisteredId | index.js:80-85 | each new id's node gets one reverse edge to the module |
| Examples.CycleRegistered | index.js:69-87 | `a` requiring `b` and `b` requiring `a` give two nodes, each the other's only dependency and only referrer |
| Examples.CycleUnranked | index.js:116-121 | no rank covers a node of that cycle: a `dfs` started on it would not end |
| Examples.CycleLeftOut | index.js:93-113 | the cycle has no anchor: the empty rank suffices and nothing is written after the header |
| Examples.CycleBesideEntry | index.js:106-121 | beside that cycle, an entry without dependencies is written alone and the cycle's modules are left out |

## Left out

- The file system is not modelled: `fs.readdir`, `fs.stat`, `fs.readFile`, `fs.writeFile` and `fs.writeFileSync` (index.js:14-27, 54, 101, 125), and the recursive directory walk of `requireBuild` (index.js:9-28). The file name, its directory and its text are parameters of `AddModule`. The output file is the sequence `out`.
- `if (err) throw err` in the I/O callbacks is left out along with the I/O.
- Asynchronous ordering is not modelled. Appends are taken to land in the order they are issued, and each write's completion callback is the separate operation `WriteCompleted`, which a caller may invoke between other operations. The interleaving of read callbacks, and with it which `done` call sees full counts, is not modelled. The operations are only given in some order.
- Bundler.Bundler.Done: whenever the counts agree, requires a rank over every anchor and everything it reaches. When a cycle is reachable from an anchor, `dfs` recurses until the JavaScript stack overflows, and that outcome is not modelled. Cycles that no anchor reaches need no rank.
- Bundler.Bundler.BuildOutput: requires the same rank over the anchors and what they reach, for the same reason.
- Bundler.Bundler.Dfs: requires the key to be ranked, for the same reason. This holds likewise for `DfsEach`, `DfsEntries`, `Entry` and `FileRead`.
- Graph.Register: ids such as `toString`, `constructor`, `valueOf`, `hasOwnProperty` and `__proto__` are not modelled as the code treats them. `depTree` and `cache` are plain objects that inherit from `Object.prototype`. For such an id, `typeof depTree[k] === 'undefined'` (index.js:71, 80) is false, so no node is created, and `depTree[k].refs.push(key)` (index.js:85) throws a `TypeError`. Likewise `cache['__proto__'] = ...` (index.js:62) stores no key. The model treats every id alike: it creates the node and adds the edges.
- `console.log("Build Succeed")` (index.js:113) is console output and is not modelled.
- `bin.js` is left out: it parses command-line arguments and calls `requireBuild`.
- `Object.keys` lists integer-like keys first, in numeric order. The model keeps every key in insertion order.
- The regular expression is modelled by its token shape, not by a general regex engine. Strings are sequences of characters, not UTF-16 code units.
- `test/test.js` exercises another interface (`require('../').test`, promise-returning `makeDependencyTree` and `buildOutput`). `index.js` does not export it. Its tables and expected output are used only as worked instances of the same logic. Its stdout capture and temporary directories are left out.

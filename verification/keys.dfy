/** Logical module ids: how a directory prefix and a file name become the key
    under which a module is cached and registered (index.js `generateKey`). */
module Keys {
  import opened Wrappers

  /** `pat` occurs in `s` starting at index `i`. */
  predicate Occurs(s: string, pat: string, i: nat) {
    i + |pat| <= |s| && s[i..i + |pat|] == pat
  }

  /** The first index at or after `from` where `pat` occurs, if any. */
  function FindFrom(s: string, pat: string, from: nat): (r: Option<nat>)
    decreases |s| - from
    ensures r.Some? ==> from <= r.value && Occurs(s, pat, r.value)
    ensures r.Some? ==> forall j: nat :: from <= j < r.value ==> !Occurs(s, pat, j)
    ensures r.None? ==> forall j: nat :: from <= j ==> !Occurs(s, pat, j)
  {
    if from + |pat| > |s| then None
    else if s[from..from + |pat|] == pat then Some(from)
    else FindFrom(s, pat, from + 1)
  }

  /** JavaScript `s.replace(pat, "")` with a string pattern: only the first
      occurrence of `pat` is removed. */
  function RemoveFirst(s: string, pat: string): (r: string)
    ensures (forall j: nat :: !Occurs(s, pat, j)) ==> r == s
    ensures forall i: nat :: Occurs(s, pat, i) && (forall j: nat :: j < i ==> !Occurs(s, pat, j))
              ==> r == s[..i] + s[i + |pat|..]
  {
    match FindFrom(s, pat, 0)
    case None => s
    case Some(i) => s[..i] + s[i + |pat|..]
  }

  /** The prefix with at most one leading '/' dropped (index.js:45). */
  function Dir(prefix: string): (d: string)
    ensures prefix == d || prefix == "/" + d
    ensures d == prefix <==> (prefix == "" || prefix[0] != '/')
  {
    if |prefix| > 0 && prefix[0] == '/' then prefix[1..] else prefix
  }

  /** The file name with its first ".js" removed, and "index" collapsed to
      the empty name of its directory (index.js:44, 47). */
  function Base(file: string): (b: string)
    ensures b == "" <==> RemoveFirst(file, ".js") == "" || RemoveFirst(file, ".js") == "index"
    ensures b != "" ==> b == RemoveFirst(file, ".js")
  {
    var f := RemoveFirst(file, ".js");
    if f == "index" then "" else f
  }

  /** index.js:43-51: the directory part and the file part, joined by '/'
      only when both are non-empty. */
  function GenerateKey(prefix: string, file: string): (r: string)
    ensures |r| == |Dir(prefix)| + |Base(file)| + (if Dir(prefix) != "" && Base(file) != "" then 1 else 0)
    ensures r[..|Dir(prefix)|] == Dir(prefix)
    ensures r[|r| - |Base(file)|..] == Base(file)
    ensures Dir(prefix) != "" && Base(file) != "" ==> r[|Dir(prefix)|] == '/'
  {
    var d := Dir(prefix);
    var b := Base(file);
    if d != "" && b != "" then d + "/" + b else d + b
  }

  /** `name` contains no ".js" anywhere. */
  ghost predicate NoJs(name: string) {
    forall j: nat :: !Occurs(name, ".js", j)
  }

  /** A name without a dot cannot contain ".js". */
  lemma NoDotNoJs(name: string)
    requires forall i :: 0 <= i < |name| ==> name[i] != '.'
    ensures NoJs(name)
  {
    forall j: nat | j + 3 <= |name|
      ensures !Occurs(name, ".js", j)
    {
      assert name[j..j + 3][0] == name[j];
    }
  }

  /** Appending ".js" to a name without ".js" puts the first occurrence at
      the end: no occurrence can straddle the boundary. */
  lemma FirstJsAtEnd(name: string)
    requires NoJs(name)
    ensures RemoveFirst(name + ".js", ".js") == name
  {
    var s := name + ".js";
    assert Occurs(s, ".js", |name|) by {
      assert s[|name|..|name| + 3] == ".js";
    }
    forall j: nat | j < |name|
      ensures !Occurs(s, ".js", j)
    {
      if j + 3 <= |name| {
        assert !Occurs(name, ".js", j);
        assert s[j..j + 3] == name[j..j + 3];
      } else if j + 2 == |name| {
        assert s[j..j + 3][2] == '.';
      } else {
        assert s[j..j + 3][1] == '.';
      }
    }
    assert s[..|name|] == name;
  }

  /** A file `name.js` inside directory `/dir` gets the key `dir/name`. */
  lemma NestedKey(dir: string, name: string)
    requires dir != "" && name != "" && name != "index" && NoJs(name)
    ensures GenerateKey("/" + dir, name + ".js") == dir + "/" + name
  {
    FirstJsAtEnd(name);
    assert Dir("/" + dir) == dir;
  }

  /** A file `name.js` at the scan root gets the key `name`. */
  lemma RootKey(name: string)
    requires name != "index" && NoJs(name)
    ensures GenerateKey("", name + ".js") == name
  {
    FirstJsAtEnd(name);
  }

  /** `index.js` inside directory `/dir` collapses to `dir`, whatever `dir` is. */
  lemma IndexKey(dir: string)
    ensures GenerateKey("/" + dir, "index.js") == dir
  {
    NoDotNoJs("index");
    FirstJsAtEnd("index");
    assert "index" + ".js" == "index.js";
    assert Dir("/" + dir) == dir;
  }

  /** A file `name.js` at the root and the file `index.js` in directory
      `/name` get the same key, so they share one cache entry. */
  lemma SharedKey(name: string)
    requires name != "index" && NoJs(name)
    ensures GenerateKey("", name + ".js") == GenerateKey("/" + name, "index.js")
  {
    RootKey(name);
    IndexKey(name);
  }

  /** `index.js` at the scan root gets the empty key. */
  lemma RootIndexExample()
    ensures GenerateKey("", "index.js") == ""
  {
    IndexKey("");
  }

  /** `index.js` in directory `/a` gets the key of its directory. */
  lemma DirIndexExample()
    ensures GenerateKey("/a", "index.js") == "a"
  {
    IndexKey("a");
    assert "/" + "a" == "/a";
  }

  /** `b.js` in directory `/a` gets the key `a/b`. */
  lemma NestedExample()
    ensures GenerateKey("/a", "b.js") == "a/b"
  {
    NoDotNoJs("b");
    NestedKey("a", "b");
    assert "b" + ".js" == "b.js";
    assert "/" + "a" == "/a";
    assert "a" + "/" + "b" == "a/b";
  }

  /** Only the first ".js" of the file name is removed. */
  lemma FirstJsOnly()
    ensures GenerateKey("", "a.js.js") == "a.js"
  {
    var s := "a.js.js";
    assert Occurs(s, ".js", 1);
    assert !Occurs(s, ".js", 0) by {
      assert s[0..3][0] == 'a';
    }
    assert RemoveFirst(s, ".js") == "a.js";
  }

  /** Only one leading '/' of the prefix is removed. */
  lemma OneSlashOnly()
    ensures GenerateKey("//a", "b.js") == "/a/b"
  {
    NoDotNoJs("b");
    NestedKey("/a", "b");
    assert "b" + ".js" == "b.js";
    assert "/" + "/a" == "//a";
    assert "/a" + "/" + "b" == "/a/b";
  }

  /** Only the exact name "index" collapses to its directory: a longer
      name that starts with "index" is kept whole. */
  lemma IndexExactOnly(dir: string, suffix: string)
    requires dir != "" && suffix != ""
    requires forall i :: 0 <= i < |suffix| ==> suffix[i] != '.'
    ensures GenerateKey("/" + dir, "index" + suffix + ".js") == dir + "/" + ("index" + suffix)
  {
    var name := "index" + suffix;
    assert forall i :: 0 <= i < |name| ==> name[i] != '.' by {
      forall i | 0 <= i < |name|
        ensures name[i] != '.'
      {
        if i >= 5 {
          assert name[i] == suffix[i - 5];
        }
      }
    }
    NoDotNoJs(name);
    assert |name| != |"index"|;
    NestedKey(dir, name);
  }
}

/** The text the bundler writes: the preamble of index.js:96-99 and the
    rendered chunk stored in `cache[key]` by index.js:58-64. */
module Chunk {
  import opened Wrappers

  /** The registry bootstrap written first into a freshly truncated output:
      it starts by resetting the registry, never with a comment. */
  function Header(): (h: string)
    ensures |h| > 0 && h[0] == '_'
    ensures |h| >= 28 && h[..28] == "__module_exports_cache = {};"
  {
    "__module_exports_cache = {};\n"
    + "function require(path) {"
    + "return __module_exports_cache[path].exports;"
    + "};\n\n"
  }

  /** The provenance comment naming the module's source path. */
  function Comment(path: string): string {
    "/**\n" + "* require-concat origin file : " + path + "\n*/\n\n"
  }

  /** Everything of a chunk before the module's own text: the comment, the
      registration of `key` and the opening of the scope wrapper. */
  function Opening(key: string, path: string): string {
    Comment(path)
    + "__module_exports_cache['" + key + "'] = { exports: {} };\n"
    + "(function(module, exports) { \n"
  }

  /** Everything of a chunk after the module's own text: the wrapper is
      applied to the registered slot of `key` and its `exports`. */
  function Closing(key: string): string {
    "})(__module_exports_cache['" + key + "'], "
    + "__module_exports_cache['" + key + "'].exports);"
  }

  /** `cache[key]` for the file `rootdir + '/' + file` with text `data`. */
  function Render(key: string, rootdir: string, file: string, data: string): (r: string)
    ensures |r| == |Opening(key, rootdir + "/" + file)| + |data| + |Closing(key)|
    ensures r[..|Comment(rootdir + "/" + file)|] == Comment(rootdir + "/" + file)
    ensures r[|Opening(key, rootdir + "/" + file)|..|r| - |Closing(key)|] == data
  {
    var r := Opening(key, rootdir + "/" + file) + data + Closing(key);
    assert r[..|Comment(rootdir + "/" + file)|] == Opening(key, rootdir + "/" + file)[..|Comment(rootdir + "/" + file)|];
    r
  }

  /** The module text inside a chunk rendered for `key` and `path`, if the
      chunk has that wrapper. */
  function Unwrap(key: string, path: string, chunk: string): Option<string> {
    var o := Opening(key, path);
    var c := Closing(key);
    if |o| + |c| <= |chunk| && chunk[..|o|] == o && chunk[|chunk| - |c|..] == c
    then Some(chunk[|o|..|chunk| - |c|])
    else None
  }

  /** The module text is embedded verbatim: it can be read back from the chunk. */
  lemma UnwrapRender(key: string, rootdir: string, file: string, data: string)
    ensures Unwrap(key, rootdir + "/" + file, Render(key, rootdir, file, data)) == Some(data)
  {
    var path := rootdir + "/" + file;
    var r := Render(key, rootdir, file, data);
    assert r == Opening(key, path) + data + Closing(key);
    assert r[..|Opening(key, path)|] == Opening(key, path);
    assert r[|r| - |Closing(key)|..] == Closing(key);
  }

  /** Two modules with the same key and path render alike only when their
      texts are the same. */
  lemma RenderInjective(key: string, rootdir: string, file: string, d1: string, d2: string)
    requires Render(key, rootdir, file, d1) == Render(key, rootdir, file, d2)
    ensures d1 == d2
  {
    UnwrapRender(key, rootdir, file, d1);
    UnwrapRender(key, rootdir, file, d2);
  }

  /** The header cannot be mistaken for a chunk: every chunk opens with its
      provenance comment. */
  lemma HeaderNotChunk(key: string, rootdir: string, file: string, data: string)
    ensures Render(key, rootdir, file, data)[0] == '/'
    ensures Render(key, rootdir, file, data) != Header()
  {
    var path := rootdir + "/" + file;
    var c := Comment(path);
    assert c[0] == '/';
    var r := Render(key, rootdir, file, data);
    assert r[..|c|] == c;
    assert r[0] == c[0];
  }
}

/** Lexical discovery of dependencies: the global regular expression of
    index.js:67 and the anchored re-match of index.js:78, written as a
    scanner over the module text. A match is the literal `require`,
    optional white space, `(`, optional white space, one character of the
    class {', |, "}, a non-empty run of characters other than `)`, one
    character of the same class, optional white space and `)`. */
module Matcher {
  import opened Wrappers

  /** JavaScript's `\s`: the white space and line terminator characters. */
  predicate IsSpace(c: char) {
    c == '\t' || c == '\n' || c == '\U{B}' || c == '\U{C}' || c == '\r' || c == ' '
    || c == '\U{A0}' || c == '\U{1680}' || ('\U{2000}' <= c <= '\U{200A}')
    || c == '\U{2028}' || c == '\U{2029}' || c == '\U{202F}' || c == '\U{205F}'
    || c == '\U{3000}' || c == '\U{FEFF}'
  }

  /** The bracket class `[\'|\"]` of index.js:67, which really includes '|'. */
  predicate IsQuote(c: char) {
    c == '\'' || c == '|' || c == '"'
  }

  /** Every character of `s[i..j]` is white space. */
  ghost predicate Spaces(s: string, i: nat, j: nat)
    requires i <= j <= |s|
  {
    forall k :: i <= k < j ==> IsSpace(s[k])
  }

  const Keyword := "require"

  /** `s` starts with a match whose `(` is at `a`, whose quotes are at `q`
      and `j`, and whose `)` is at `e`; the captured id is `s[q + 1..j]`. */
  ghost predicate TokenShape(s: string, a: nat, q: nat, j: nat, e: nat) {
    && |Keyword| <= a < q < j < e < |s|
    && s[..|Keyword|] == Keyword
    && Spaces(s, |Keyword|, a) && s[a] == '('
    && Spaces(s, a + 1, q) && IsQuote(s[q])
    && q + 1 < j && (forall k :: q < k < j ==> s[k] != ')')
    && IsQuote(s[j])
    && Spaces(s, j + 1, e) && s[e] == ')'
  }

  /** The first index at or after `i` that is not white space. */
  function SkipSpaces(s: string, i: nat): (r: nat)
    requires i <= |s|
    decreases |s| - i
    ensures i <= r <= |s| && Spaces(s, i, r)
    ensures r < |s| ==> !IsSpace(s[r])
  {
    if i == |s| || !IsSpace(s[i]) then i else SkipSpaces(s, i + 1)
  }

  /** The first `)` at or after `i`, or `|s|` when there is none. */
  function FindClose(s: string, i: nat): (r: nat)
    requires i <= |s|
    decreases |s| - i
    ensures i <= r <= |s|
    ensures forall k :: i <= k < r ==> s[k] != ')'
    ensures r < |s| ==> s[r] == ')'
  {
    if i == |s| || s[i] == ')' then i else FindClose(s, i + 1)
  }

  /** The last index in `[lo, hi)` that is not white space, or `lo - 1`. */
  function LastNonSpace(s: string, lo: nat, hi: nat): (r: int)
    requires lo <= hi <= |s|
    decreases hi - lo
    ensures lo - 1 <= r < hi && Spaces(s, r + 1, hi)
    ensures r >= lo ==> !IsSpace(s[r])
  {
    if hi == lo then lo - 1
    else if IsSpace(s[hi - 1]) then LastNonSpace(s, lo, hi - 1)
    else hi - 1
  }

  /** A successful match: the captured id and the length of the matched text. */
  datatype Call = Call(id: string, len: nat)

  /** The regular expression tried at the start of `s`. */
  function MatchPrefix(s: string): (r: Option<Call>)
    ensures r.Some? ==> 0 < r.value.len <= |s|
    ensures r.Some? ==> r.value.id != [] && forall k :: 0 <= k < |r.value.id| ==> r.value.id[k] != ')'
  {
    if |s| < |Keyword| || s[..|Keyword|] != Keyword then None
    else
      var a := SkipSpaces(s, |Keyword|);
      if a == |s| || s[a] != '(' then None
      else
        var q := SkipSpaces(s, a + 1);
        if q == |s| || !IsQuote(s[q]) then None
        else
          var e := FindClose(s, q + 1);
          if e == |s| then None
          else
            var j := LastNonSpace(s, q + 1, e);
            if j < q + 2 || !IsQuote(s[j]) then None
            else Some(Call(s[q + 1..j], e + 1))
  }

  /** Whatever MatchPrefix returns has the token shape. */
  lemma MatchPrefixSound(s: string)
    requires MatchPrefix(s).Some?
    ensures exists a: nat, q: nat, j: nat, e: nat :: TokenShape(s, a, q, j, e) && MatchPrefix(s).value == Call(s[q + 1..j], e + 1)
  {
    assert |s| >= |Keyword| && s[..|Keyword|] == Keyword;
    var a := SkipSpaces(s, |Keyword|);
    assert a < |s| && s[a] == '(';
    var q := SkipSpaces(s, a + 1);
    assert q < |s| && IsQuote(s[q]);
    var e := FindClose(s, q + 1);
    assert e < |s|;
    var j := LastNonSpace(s, q + 1, e);
    assert q + 2 <= j && IsQuote(s[j]);
    assert TokenShape(s, a, q, j, e);
  }

  /** Every token shape at the start of `s` is found, and it is the only one:
      the positions are forced, so the captured id is unique. */
  lemma MatchPrefixComplete(s: string, a: nat, q: nat, j: nat, e: nat)
    requires TokenShape(s, a, q, j, e)
    ensures MatchPrefix(s) == Some(Call(s[q + 1..j], e + 1))
  {
    assert |s| >= |Keyword| && s[..|Keyword|] == Keyword;
    SkipSpacesAt(s, |Keyword|, a);
    SkipSpacesAt(s, a + 1, q);
    FindCloseAt(s, q + 1, e) by {
      NoCloseBefore(s, a, q, j, e);
    }
    LastNonSpaceAt(s, q + 1, e, j);
    MatchPrefixAt(s, a, q, j, e);
  }

  /** MatchPrefix with each of its intermediate positions given. */
  lemma MatchPrefixAt(s: string, a: nat, q: nat, j: nat, e: nat)
    requires |s| >= |Keyword| && s[..|Keyword|] == Keyword
    requires a < |s| && SkipSpaces(s, |Keyword|) == a && s[a] == '('
    requires a + 1 <= q < |s| && SkipSpaces(s, a + 1) == q && IsQuote(s[q])
    requires q + 1 <= e < |s| && FindClose(s, q + 1) == e
    requires LastNonSpace(s, q + 1, e) == j && q + 2 <= j && IsQuote(s[j])
    ensures MatchPrefix(s) == Some(Call(s[q + 1..j], e + 1))
  { }

  /** In a token shape the `)` at `e` is the first one after the opening quote. */
  lemma NoCloseBefore(s: string, a: nat, q: nat, j: nat, e: nat)
    requires TokenShape(s, a, q, j, e)
    ensures forall k :: q + 1 <= k < e ==> s[k] != ')'
  {
    forall k | j <= k < e ensures s[k] != ')' {
      assert k == j || IsSpace(s[k]);
    }
  }

  /** SkipSpaces stops exactly at the first non-space character. */
  lemma {:induction false} SkipSpacesAt(s: string, i: nat, a: nat)
    requires i <= a < |s| && Spaces(s, i, a) && !IsSpace(s[a])
    ensures SkipSpaces(s, i) == a
    decreases a - i
  {
    if i < a { SkipSpacesAt(s, i + 1, a); }
  }

  /** FindClose stops exactly at the first ')'. */
  lemma {:induction false} FindCloseAt(s: string, i: nat, e: nat)
    requires i <= e < |s| && s[e] == ')'
    requires forall k :: i <= k < e ==> s[k] != ')'
    ensures FindClose(s, i) == e
    decreases e - i
  {
    if i < e { FindCloseAt(s, i + 1, e); }
  }

  /** LastNonSpace finds the non-space character followed only by spaces. */
  lemma {:induction false} LastNonSpaceAt(s: string, lo: nat, hi: nat, j: nat)
    requires lo <= j < hi <= |s| && !IsSpace(s[j]) && Spaces(s, j + 1, hi)
    ensures LastNonSpace(s, lo, hi) == j
    decreases hi - lo
  {
    if j + 1 < hi { LastNonSpaceAt(s, lo, hi - 1, j); }
  }

  /** index.js:67 with the `g` flag, then index.js:78 on each match: the ids
      of the leftmost, non-overlapping matches, in text order. */
  function RequireIds(s: string): (r: seq<string>)
    decreases |s|
    ensures forall i :: 0 <= i < |r| ==> r[i] != []
    ensures forall i, k :: 0 <= i < |r| && 0 <= k < |r[i]| ==> r[i][k] != ')'
  {
    if s == [] then []
    else
      match MatchPrefix(s)
      case Some(c) => [c.id] + RequireIds(s[c.len..])
      case None => RequireIds(s[1..])
  }

  /** The canonical call that the matcher is meant to recognise. */
  function RequireCall(id: string, quote: char): string {
    Keyword + "(" + [quote] + id + [quote] + ")"
  }

  /** Scanning a call written out from an id gives that id back, and the scan
      then resumes right after the call. */
  lemma ScanRequireCall(id: string, quote: char, rest: string)
    requires id != [] && IsQuote(quote)
    requires forall k :: 0 <= k < |id| ==> id[k] != ')'
    ensures RequireIds(RequireCall(id, quote) + rest) == [id] + RequireIds(rest)
  {
    var call := RequireCall(id, quote);
    var s := call + rest;
    var n := |Keyword|;
    assert s[..n] == Keyword;
    assert s[n] == '(';
    assert s[n + 1] == quote;
    forall k | n + 1 < k < n + 2 + |id|
      ensures s[k] != ')'
    {
      assert s[k] == id[k - n - 2];
    }
    assert s[n + 2 + |id|] == quote;
    assert s[n + 3 + |id|] == ')';
    assert TokenShape(s, n, n + 1, n + 2 + |id|, n + 3 + |id|);
    MatchPrefixComplete(s, n, n + 1, n + 2 + |id|, n + 3 + |id|);
    assert s[n + 2..n + 2 + |id|] == id;
    assert s[n + 4 + |id|..] == rest;
  }

  /** A character that cannot begin `require` is skipped by the scan. */
  lemma ScanSkip(c: char, rest: string)
    requires c != 'r'
    ensures RequireIds([c] + rest) == RequireIds(rest)
  {
    var s := [c] + rest;
    assert MatchPrefix(s).None? by {
      if |s| >= |Keyword| { assert s[..|Keyword|][0] == c; }
    }
    assert s[1..] == rest;
  }

  /** The keyword `require` starts at index `i` of `s`. */
  predicate KeywordAt(s: string, i: nat) {
    i + |Keyword| <= |s| && s[i..i + |Keyword|] == Keyword
  }

  /** Text that never contains `require` yields no ids. */
  lemma {:induction false} NoKeywordNoIds(s: string)
    requires forall i: nat :: !KeywordAt(s, i)
    ensures RequireIds(s) == []
  {
    if s != [] {
      assert MatchPrefix(s).None? by {
        assert !KeywordAt(s, 0);
      }
      forall i: nat
        ensures !KeywordAt(s[1..], i)
      {
        assert !KeywordAt(s, i + 1);
        if i + |Keyword| <= |s[1..]| {
          assert s[1..][i..i + |Keyword|] == s[i + 1..i + 1 + |Keyword|];
        }
      }
      NoKeywordNoIds(s[1..]);
    }
  }
}

/** `should_exclude_path`: whether a file or directory met during a walk is
    skipped, given the job's comma-separated exclusion text. */
module Exclusion {
  import opened Text

  /** The exclusion text split on commas, each piece stripped, blank pieces dropped. */
  function Patterns(text: string): (ps: seq<string>)
    ensures forall p :: p in ps ==> p != "" && Strip(p) == p
  {
    Kept(Split(text, ','))
  }

  function Kept(parts: seq<string>): (ps: seq<string>)
    ensures forall q :: q in ps ==> q != "" && Strip(q) == q
  {
    if parts == [] then []
    else
      var rest := Kept(parts[1..]);
      var p := Strip(parts[0]);
      if p != "" then StripIdempotent(parts[0]); [p] + rest else rest
  }

  lemma StripIdempotent(s: string)
    ensures Strip(Strip(s)) == Strip(s)
  {
    StripIsTrimmedSlice(s);
    StripNoSpace(Strip(s));
  }

  /** The patterns are exactly the non-blank stripped pieces. */
  lemma {:induction false} KeptMembers(parts: seq<string>, p: string)
    ensures p in Kept(parts) <==> p != "" && exists q :: q in parts && Strip(q) == p
  {
    if parts != [] {
      KeptMembers(parts[1..], p);
      if p in Kept(parts) && p !in Kept(parts[1..]) {
        assert Strip(parts[0]) == p;
      }
      if p != "" && (exists q :: q in parts && Strip(q) == p) {
        var q :| q in parts && Strip(q) == p;
        if q != parts[0] {
          assert q in parts[1..];
        }
      }
    }
  }

  // ---------------------------------------------------------------- `*` globbing

  /** `fnmatch` restricted to `*`: the whole name must match, `*` standing for any
      run of characters and every other character for itself. */
  predicate Glob(p: string, s: string)
    decreases |p| + |s|
  {
    if p == [] then s == []
    else if p[0] == '*' then Glob(p[1..], s) || (s != [] && Glob(p, s[1..]))
    else s != [] && s[0] == p[0] && Glob(p[1..], s[1..])
  }

  /** Without `*` a glob matches only itself. */
  lemma {:induction false} GlobLiteral(p: string, s: string)
    requires '*' !in p
    ensures Glob(p, s) <==> p == s
    decreases |p| + |s|
  {
    if p != [] && s != [] {
      GlobLiteral(p[1..], s[1..]);
      if p[0] == s[0] && p[1..] == s[1..] {
        assert p == [p[0]] + p[1..] && s == [s[0]] + s[1..];
      }
    }
  }

  /** `*` followed by a literal matches exactly the names ending with it. */
  lemma {:induction false} GlobSuffix(lit: string, s: string)
    requires '*' !in lit
    ensures Glob("*" + lit, s) <==> |lit| <= |s| && s[|s| - |lit|..] == lit
    decreases |s|
  {
    var p := "*" + lit;
    assert p[1..] == lit;
    GlobLiteral(lit, s);
    if s != [] {
      GlobSuffix(lit, s[1..]);
      assert |lit| <= |s| - 1 ==> s[1..][|s| - 1 - |lit|..] == s[|s| - |lit|..];
    }
  }

  // ---------------------------------------------------------------- the rule

  /** One pattern against a name and the full path text: the name equals it, it
      has a `*` and globs the name, or it occurs anywhere in the path. */
  predicate Matches(p: string, name: string, path: string) {
    name == p || ('*' in p && Glob(p, name)) || IsSubstring(p, path)
  }

  /** The loop over the patterns, returning at the first that matches. */
  function AnyMatch(ps: seq<string>, name: string, path: string): (r: bool)
    ensures r <==> exists k :: 0 <= k < |ps| && Matches(ps[k], name, path)
  {
    if ps == [] then false
    else if Matches(ps[0], name, path) then true
    else
      var r := AnyMatch(ps[1..], name, path);
      assert forall k :: 1 <= k < |ps| ==> ps[k] == ps[1..][k - 1];
      r
  }

  /** `should_exclude_path(path, text)`: `name` is the last component of `path`. */
  predicate ShouldExclude(path: string, name: string, text: string) {
    text != "" && AnyMatch(Patterns(text), name, path)
  }

  /** The rule as an existential: some non-blank stripped piece of the text matches. */
  lemma ExcludeIff(path: string, name: string, text: string)
    ensures ShouldExclude(path, name, text) <==>
      exists q :: q in Split(text, ',') && Strip(q) != "" && Matches(Strip(q), name, path)
  {
    if ShouldExclude(path, name, text) {
      ExcludedByPiece(path, name, text);
    }
    if exists q :: q in Split(text, ',') && Strip(q) != "" && Matches(Strip(q), name, path) {
      var q :| q in Split(text, ',') && Strip(q) != "" && Matches(Strip(q), name, path);
      PieceExcludes(path, name, text, q);
    }
  }

  lemma ExcludedByPiece(path: string, name: string, text: string)
    requires ShouldExclude(path, name, text)
    ensures exists q :: q in Split(text, ',') && Strip(q) != "" && Matches(Strip(q), name, path)
  {
    var parts, ps := Split(text, ','), Patterns(text);
    var k :| 0 <= k < |ps| && Matches(ps[k], name, path);
    KeptMembers(parts, ps[k]);
    var q :| q in parts && Strip(q) == ps[k];
    assert q in parts && Strip(q) != "" && Matches(Strip(q), name, path);
  }

  lemma PieceExcludes(path: string, name: string, text: string, q: string)
    requires q in Split(text, ',') && Strip(q) != "" && Matches(Strip(q), name, path)
    ensures ShouldExclude(path, name, text)
  {
    var parts, ps := Split(text, ','), Patterns(text);
    KeptMembers(parts, Strip(q));
    var k :| 0 <= k < |ps| && ps[k] == Strip(q);
    PatternExcludes(path, name, text, k);
  }

  /** A matching pattern excludes the path. */
  lemma PatternExcludes(path: string, name: string, text: string, k: int)
    requires 0 <= k < |Patterns(text)| && Matches(Patterns(text)[k], name, path)
    ensures ShouldExclude(path, name, text)
  {
    var ps := Patterns(text);
    assert AnyMatch(ps, name, path);
    assert text != "" by {
      PatternsOfEmpty();
    }
  }

  /** The empty text has no patterns. */
  lemma PatternsOfEmpty()
    ensures Patterns("") == []
  {
    assert Split("", ',') == [""];
  }

  /** Empty or blank-only exclusion text excludes nothing. */
  lemma BlankExcludesNothing(path: string, name: string, text: string)
    requires forall i :: 0 <= i < |text| ==> IsSpace(text[i]) || text[i] == ','
    ensures !ShouldExclude(path, name, text)
  {
    forall q | q in Split(text, ',')
      ensures Strip(q) == ""
    {
      SplitPiecesOf(text, ',', q);
      StripBlank(q);
    }
    ExcludeIff(path, name, text);
  }

  /** Every piece of a split is made of characters of the input, none of them the separator. */
  lemma {:induction false} SplitPiecesOf(s: string, sep: char, q: string)
    requires q in Split(s, sep)
    ensures forall i :: 0 <= i < |q| ==> q[i] in s && q[i] != sep
    decreases |s|
  {
    var i := IndexOf(s, sep);
    if i < |s| && q != s[..i] {
      assert q in Split(s[i + 1..], sep);
      SplitPiecesOf(s[i + 1..], sep, q);
      forall j | 0 <= j < |q| ensures q[j] in s {
        assert q[j] in s[i + 1..];
      }
    } else {
      forall j | 0 <= j < |q| ensures q[j] in s {
        assert q[j] == s[j];
      }
    }
  }

  /** Only which patterns occur matters, not their order or repetition. */
  lemma PatternOrderIrrelevant(path: string, name: string, a: string, b: string)
    requires a != "" && b != ""
    requires forall p :: p in Patterns(a) <==> p in Patterns(b)
    ensures ShouldExclude(path, name, a) == ShouldExclude(path, name, b)
  {
    var pa, pb := Patterns(a), Patterns(b);
    if ShouldExclude(path, name, a) {
      var k :| 0 <= k < |pa| && Matches(pa[k], name, path);
      assert pa[k] in pb;
      var j :| 0 <= j < |pb| && pb[j] == pa[k];
    }
    if ShouldExclude(path, name, b) {
      var k :| 0 <= k < |pb| && Matches(pb[k], name, path);
      assert pb[k] in pa;
      var j :| 0 <= j < |pa| && pa[j] == pb[k];
    }
  }

  /** When the path text ends with the name, an exact name match is also a
      substring match, so the first rule never excludes anything the third
      would not. */
  lemma NameMatchIsSubstring(p: string, name: string, path: string)
    requires |name| <= |path| && path[|path| - |name|..] == name
    ensures Matches(p, name, path) <==> ('*' in p && Glob(p, name)) || IsSubstring(p, path)
  {
    if name == p {
      SuffixIsSubstring(p, path);
    }
  }

  /** A pattern occurring in the directory the walk starts from excludes every
      path below it. */
  lemma RootPatternExcludesAll(root: string, rest: string, name: string, text: string, p: string)
    requires p in Patterns(text) && IsSubstring(p, root)
    ensures ShouldExclude(root + rest, name, text)
  {
    var ps := Patterns(text);
    var k :| 0 <= k < |ps| && ps[k] == p;
    assert IsSubstring(p, root + rest) by {
      SubstringAt(p, root);
      var i :| OccursAt(p, root, i);
      assert (root + rest)[i..i + |p|] == root[i..i + |p|];
      assert OccursAt(p, root + rest, i);
      SubstringAt(p, root + rest);
    }
    PatternExcludes(root + rest, name, text, k);
  }
}

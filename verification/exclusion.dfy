/**
 * The exclusion filter (`isExcludedFile` in src/utils.ts): backslashes in the
 * path are turned into slashes, the file name is taken after the last slash,
 * and the file is excluded when some pattern matches the path or the file name.
 * The glob engine is not modelled: matching is a parameter.
 */
module Exclusion {
  import opened Text

  /** Decides whether a path matches a glob pattern (`minimatch(path, pattern)`). */
  type Matcher = (string, string) -> bool

  /** The path with every backslash replaced by a forward slash. */
  function NormalizePath(filePath: string): (r: string)
    ensures |r| == |filePath|
    ensures '\\' !in r
    ensures forall i :: 0 <= i < |filePath| && filePath[i] == '\\' ==> r[i] == '/'
    ensures forall i :: 0 <= i < |filePath| && filePath[i] != '\\' ==> r[i] == filePath[i]
  {
    Replace(filePath, '\\', '/')
  }

  /** Normalising an already normalised path changes nothing. */
  lemma NormalizePathIdempotent(filePath: string)
    ensures NormalizePath(NormalizePath(filePath)) == NormalizePath(filePath)
  {
    ReplaceIdempotent(filePath, '\\', '/');
  }

  /** The part of `p` after its last `'/'` (all of `p` when it has none). */
  function Basename(p: string): (r: string)
    ensures '/' !in r
    ensures |r| <= |p|
  {
    if |p| == 0 || p[|p| - 1] == '/' then ""
    else Basename(p[..|p| - 1]) + [p[|p| - 1]]
  }

  /** The file name is the suffix of the path that follows its last `'/'`. */
  lemma {:induction false} BasenameIsLastSegment(p: string)
    ensures var r := Basename(p);
      r == p[|p| - |r|..] && (|r| < |p| ==> p[|p| - |r| - 1] == '/')
  {
    if |p| > 0 && p[|p| - 1] != '/' {
      var init := p[..|p| - 1];
      BasenameIsLastSegment(init);
      assert Basename(init) == p[|init| - |Basename(init)|..|p| - 1];
    }
  }

  /** The file name of `dir/name` is `name`. */
  lemma {:induction false} BasenameOfPath(dir: string, name: string)
    requires '/' !in name
    ensures Basename(dir + "/" + name) == name
  {
    var p := dir + "/" + name;
    if |name| > 0 {
      var init := name[..|name| - 1];
      assert '/' !in init by {
        forall i | 0 <= i < |init| ensures init[i] != '/' {
          assert init[i] == name[i];
        }
      }
      assert p[|p| - 1] == name[|name| - 1];
      assert p[..|p| - 1] == dir + "/" + init;
      BasenameOfPath(dir, init);
      assert init + [name[|name| - 1]] == name;
    }
  }

  /** A path without a slash is its own file name. */
  lemma {:induction false} BasenameWithoutSlash(name: string)
    requires '/' !in name
    ensures Basename(name) == name
  {
    if |name| > 0 {
      var init := name[..|name| - 1];
      assert '/' !in init by {
        forall i | 0 <= i < |init| ensures init[i] != '/' {
          assert init[i] == name[i];
        }
      }
      BasenameWithoutSlash(init);
      assert init + [name[|name| - 1]] == name;
    }
  }

  /** `pattern` matches the given normalised path or the given file name. */
  predicate MatchesEither(normalizedPath: string, fileName: string, pattern: string, matches: Matcher)
  {
    matches(normalizedPath, pattern) || matches(fileName, pattern)
  }

  /** The file name is the last piece of the path split on `'/'` (`p.split('/').pop()`). */
  lemma {:induction false} BasenameIsLastPiece(p: string)
    ensures Basename(p) == LastPiece(p, '/')
  {
    if |p| > 0 {
      var init := p[..|p| - 1];
      BasenameIsLastPiece(init);
      LastPieceSnoc(init, p[|p| - 1], '/');
      assert init + [p[|p| - 1]] == p;
    }
  }

  /**
   * Pattern `pattern` excludes the file: it matches the normalised path or the
   * text after the path's last `'/'`.
   */
  predicate PatternExcludes(filePath: string, pattern: string, matches: Matcher)
    ensures PatternExcludes(filePath, pattern, matches) <==>
      matches(NormalizePath(filePath), pattern) || matches(LastPiece(NormalizePath(filePath), '/'), pattern)
  {
    var normalizedPath := NormalizePath(filePath);
    BasenameIsLastPiece(normalizedPath);
    MatchesEither(normalizedPath, Basename(normalizedPath), pattern, matches)
  }

  /** The loop of `isExcludedFile`, stopping at the first pattern that matches. */
  method IsExcludedFile(filePath: string, excludePatterns: seq<string>, matches: Matcher)
    returns (excluded: bool)
    ensures excluded <==> exists k :: 0 <= k < |excludePatterns| && PatternExcludes(filePath, excludePatterns[k], matches)
    ensures |excludePatterns| == 0 ==> !excluded
  {
    var normalizedPath := NormalizePath(filePath);
    var fileName := Basename(normalizedPath);
    ghost var excludes := (pattern: string) => PatternExcludes(filePath, pattern, matches);
    assert forall pattern :: excludes(pattern) == MatchesEither(normalizedPath, fileName, pattern, matches);
    var i := 0;
    while i < |excludePatterns|
      invariant 0 <= i <= |excludePatterns|
      invariant forall k :: 0 <= k < i ==> !excludes(excludePatterns[k])
    {
      if matches(normalizedPath, excludePatterns[i]) || matches(fileName, excludePatterns[i]) {
        assert excludes(excludePatterns[i]);
        return true;
      }
      i := i + 1;
    }
    return false;
  }

  /** The filter treats `\` and `/` alike: a path and its normalised form are excluded alike. */
  lemma SeparatorInsensitive(filePath: string, pattern: string, matches: Matcher)
    ensures PatternExcludes(NormalizePath(filePath), pattern, matches) == PatternExcludes(filePath, pattern, matches)
  {
    NormalizePathIdempotent(filePath);
  }
}

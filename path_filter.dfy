/**
 * The per-path tests of the traversal: the exclusion-prefix test, the
 * extension allow-list and the file-name allow-list, all ignoring case, and
 * the parts of a full path those tests read (`FileInfo.Name` and
 * `FileInfo.Extension` on Windows).
 */
module PathFilter {

  import opened Text

  /** `\` and `/`, the Windows directory separators. */
  predicate IsDirectorySeparator(c: char)
  {
    c == '\\' || c == '/'
  }

  /** `FileInfo.Name` of a full path: what follows its last directory separator. */
  function FileName(path: string): (name: string)
    ensures |name| <= |path| && name == path[|path| - |name|..]
    ensures forall i :: 0 <= i < |name| ==> !IsDirectorySeparator(name[i])
    ensures |name| < |path| ==> IsDirectorySeparator(path[|path| - |name| - 1])
  {
    if path == [] || IsDirectorySeparator(path[|path| - 1]) then []
    else
      var init := path[..|path| - 1];
      var name := FileName(init);
      assert init[|init| - |name|..] + [path[|path| - 1]] == path[|path| - |name| - 1..];
      name + [path[|path| - 1]]
  }

  /** `FileInfo.Extension` of a full path: from its last '.' to the end, unless
      a directory separator or the volume separator ':' comes after that dot,
      in which case (and when there is no dot) it is empty. A trailing dot
      gives ".". */
  function Extension(path: string): (ext: string)
    ensures |ext| <= |path| && ext == path[|path| - |ext|..]
    ensures ext != [] ==> ext[0] == '.'
    ensures forall i :: 0 < i < |ext| ==> ext[i] != '.' && !IsDirectorySeparator(ext[i]) && ext[i] != ':'
    ensures ext == [] ==> forall i :: 0 <= i < |path| && path[i] == '.' ==> StopAfter(path, i)
  {
    if path == [] then []
    else
      var c := path[|path| - 1];
      if c == '.' then "."
      else if IsDirectorySeparator(c) || c == ':' then
        StopAtEnd(path);
        []
      else
        var init := path[..|path| - 1];
        var e := Extension(init);
        if e == [] then
          StopAfterExtends(init, c);
          assert init + [c] == path;
          []
        else
          assert init[|init| - |e|..] + [c] == path[|path| - |e| - 1..];
          e + [c]
  }

  /** A directory or volume separator follows position `i`. */
  predicate StopAfter(path: string, i: nat)
  {
    exists j :: i < j < |path| && (IsDirectorySeparator(path[j]) || path[j] == ':')
  }

  lemma StopAtEnd(path: string)
    requires path != [] && (IsDirectorySeparator(path[|path| - 1]) || path[|path| - 1] == ':')
    ensures forall i :: 0 <= i < |path| && path[i] == '.' ==> StopAfter(path, i)
  {
    forall i | 0 <= i < |path| && path[i] == '.'
      ensures StopAfter(path, i)
    {
      assert i < |path| - 1;
    }
  }

  lemma StopAfterExtends(init: string, c: char)
    requires forall i :: 0 <= i < |init| && init[i] == '.' ==> StopAfter(init, i)
    ensures forall i :: 0 <= i < |init| && init[i] == '.' ==> StopAfter(init + [c], i)
  {
    forall i | 0 <= i < |init| && init[i] == '.'
      ensures StopAfter(init + [c], i)
    {
      var j :| i < j < |init| && (IsDirectorySeparator(init[j]) || init[j] == ':');
      assert (init + [c])[j] == init[j];
    }
  }

  /** The extension lies within the file name. */
  lemma {:induction false} ExtensionWithinName(path: string)
    ensures |Extension(path)| <= |FileName(path)|
  {
    if path != [] {
      var c := path[|path| - 1];
      if !(c == '.' || IsDirectorySeparator(c) || c == ':') {
        ExtensionWithinName(path[..|path| - 1]);
      }
    }
  }

  /** `TraverseDirectory`'s exclusion test: some normalized exclusion path is a case-insensitive prefix. */
  predicate Excluded(fullPath: string, exclusions: seq<string>)
  {
    exists i :: 0 <= i < |exclusions| && StartsWithIgnoreCase(fullPath, exclusions[i])
  }

  /** `TraverseDirectory`'s pattern test: the extension equals "." followed by some pattern, ignoring case. */
  predicate ExtensionMatches(fullPath: string, patterns: seq<string>)
  {
    exists i :: 0 <= i < |patterns| && MatchesPattern(fullPath, patterns[i])
  }

  predicate MatchesPattern(fullPath: string, pattern: string)
  {
    EqualsIgnoreCase(Extension(fullPath), "." + pattern)
  }

  /** `TraverseDirectory`'s name test: the file name contains some filter, ignoring case. */
  predicate NameMatches(fullPath: string, names: seq<string>)
  {
    exists i :: 0 <= i < |names| && ContainsIgnoreCase(FileName(fullPath), names[i])
  }

  /** The three tests of `TraverseDirectory` together; an empty allow-list allows all. */
  predicate PassesFilters(fullPath: string, exclusions: seq<string>, patterns: seq<string>, names: seq<string>)
  {
    && !Excluded(fullPath, exclusions)
    && (|patterns| == 0 || ExtensionMatches(fullPath, patterns))
    && (|names| == 0 || NameMatches(fullPath, names))
  }

  /** An empty exclusion entry excludes every path, as "".StartsWith does;
      with no entries nothing is excluded. */
  lemma EmptyExclusionExcludesAll(fullPath: string, exclusions: seq<string>, k: nat)
    requires k < |exclusions| && exclusions[k] == []
    ensures Excluded(fullPath, exclusions)
    ensures !Excluded(fullPath, [])
  {
    assert StartsWithIgnoreCase(fullPath, exclusions[k]);
  }

  /** A pattern only matches a path with a non-empty extension. */
  lemma ExtensionMatchNeedsExtension(fullPath: string, patterns: seq<string>)
    requires ExtensionMatches(fullPath, patterns)
    ensures Extension(fullPath) != [] && Extension(fullPath)[0] == '.'
  {
    var i :| 0 <= i < |patterns| && MatchesPattern(fullPath, patterns[i]);
    assert |ToLower(Extension(fullPath))| == |ToLower("." + patterns[i])|;
  }

  /** An empty name filter matches every file, as IndexOf("") is 0; with no
      filters nothing matches. */
  lemma EmptyNameMatchesAll(fullPath: string, names: seq<string>, k: nat)
    requires k < |names| && names[k] == []
    ensures NameMatches(fullPath, names)
    ensures !NameMatches(fullPath, [])
  {
    assert ContainsIgnoreCase(FileName(fullPath), names[k]);
  }

  /** A matching pattern makes the path end, ignoring case, in "." + pattern. */
  lemma MatchedPatternIsSuffix(fullPath: string, pattern: string)
    requires MatchesPattern(fullPath, pattern)
    ensures |pattern| + 1 <= |fullPath|
    ensures ToLower(fullPath)[|fullPath| - |pattern| - 1..] == ToLower("." + pattern)
  {
    var ext := Extension(fullPath);
    assert |ext| == |pattern| + 1 by {
      assert |ToLower(ext)| == |ToLower("." + pattern)|;
    }
    ToLowerSlice(fullPath, |fullPath| - |ext|, |fullPath|);
  }

  /** A pattern holding a '.', '\', '/' or ':' never matches: the extension
      has none of those after its leading dot, and case folding keeps them. */
  lemma PatternWithSeparatorNeverMatches(fullPath: string, pattern: string, k: nat)
    requires k < |pattern| && pattern[k] in {'.', '\\', '/', ':'}
    ensures !MatchesPattern(fullPath, pattern)
  {
    var ext := Extension(fullPath);
    var dotted := "." + pattern;
    if |ext| == |dotted| {
      assert ToLower(dotted)[k + 1] == pattern[k];
      assert ToLower(ext)[k + 1] != pattern[k];
    }
  }

  /** The exclusion test depends only on the case-folded path. */
  lemma ExclusionIgnoresCase(p: string, q: string, exclusions: seq<string>)
    requires ToLower(p) == ToLower(q)
    ensures Excluded(p, exclusions) == Excluded(q, exclusions)
  {
    forall i | 0 <= i < |exclusions|
      ensures StartsWithIgnoreCase(p, exclusions[i]) == StartsWithIgnoreCase(q, exclusions[i])
    {
      StartsWithIgnoreCaseFolded(p, exclusions[i]);
      StartsWithIgnoreCaseFolded(q, exclusions[i]);
    }
  }

}

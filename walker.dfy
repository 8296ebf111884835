/**
 * `TraverseDirectory`: one pass over the files enumerated under a root,
 * keeping, in enumeration order, the normalized paths that pass the
 * exclusion, extension and name tests and, in opsec mode, the strict
 * access gate. A rejected path only skips to the next one.
 */
module Walker {

  import opened Acl
  import opened Platform
  import opened PathFilter

  /** What the loop body tests each path against. */
  datatype Criteria = Criteria(
    exclusions: seq<string>,      // normalized exclusion paths
    searchPatterns: seq<string>,  // extensions without their dot
    fileNames: seq<string>,       // file-name substrings
    opsec: bool)

  /** `excludePaths.Select(Path.GetFullPath)`. */
  function NormalizeAll(paths: seq<string>, fullPath: string -> string): (r: seq<string>)
    ensures |r| == |paths|
    ensures forall i :: 0 <= i < |paths| ==> r[i] == fullPath(paths[i])
  {
    seq(|paths|, i requires 0 <= i < |paths| => fullPath(paths[i]))
  }

  function CriteriaFor(excludePaths: seq<string>, searchPatterns: seq<string>, fileNames: seq<string>,
                       opsec: bool, host: Host): Criteria
  {
    Criteria(NormalizeAll(excludePaths, host.fullPath), searchPatterns, fileNames, opsec)
  }

  /** Whether a normalized path reaches `filesFound.Add`. */
  predicate Kept(fullPath: string, c: Criteria, host: Host)
  {
    && PassesFilters(fullPath, c.exclusions, c.searchPatterns, c.fileNames)
    && (c.opsec ==> StrictAccess(host.accessRules(fullPath), host.isInRole))
  }

  /** The list the loop builds from an enumeration. */
  function Found(files: seq<string>, c: Criteria, host: Host): seq<string>
  {
    if files == [] then []
    else
      var full := host.fullPath(files[|files| - 1]);
      Found(files[..|files| - 1], c, host) + (if Kept(full, c, host) then [full] else [])
  }

  /** The positions in the enumeration whose paths are kept, in order. */
  function KeptIndices(files: seq<string>, c: Criteria, host: Host): seq<nat>
  {
    if files == [] then []
    else
      var last := |files| - 1;
      KeptIndices(files[..last], c, host)
        + (if Kept(host.fullPath(files[last]), c, host) then [last] else [])
  }

  method TraverseDirectory(rootDirectory: string, searchPatterns: seq<string>, fileNames: seq<string>,
                           excludePaths: seq<string>, opsecMode: bool, host: Host)
    returns (filesFound: seq<string>)
    ensures filesFound ==
              Found(host.enumerateFiles(rootDirectory),
                    CriteriaFor(excludePaths, searchPatterns, fileNames, opsecMode, host), host)
  {
    ghost var c := CriteriaFor(excludePaths, searchPatterns, fileNames, opsecMode, host);
    filesFound := [];
    var directoriesToExclude := NormalizeAll(excludePaths, host.fullPath);
    var files := host.enumerateFiles(rootDirectory);
    for i := 0 to |files|
      invariant filesFound == Found(files[..i], c, host)
    {
      var fullFilePath := host.fullPath(files[i]);
      FoundStep(files, i, c, host);
      if Excluded(fullFilePath, directoriesToExclude) {
        continue;
      }
      if |searchPatterns| > 0 && !ExtensionMatches(fullFilePath, searchPatterns) {
        continue;
      }
      if |fileNames| > 0 && !NameMatches(fullFilePath, fileNames) {
        continue;
      }
      if opsecMode {
        var accessible := CanAccessFile(host.accessRules(fullFilePath), host.isInRole);
        if !accessible {
          continue;
        }
      }
      filesFound := filesFound + [fullFilePath];
    }
    assert files[..|files|] == files;
  }

  /** One more enumerated path adds its normalized form exactly when it is kept. */
  lemma FoundStep(files: seq<string>, i: nat, c: Criteria, host: Host)
    requires i < |files|
    ensures var full := host.fullPath(files[i]);
            Found(files[..i + 1], c, host) == Found(files[..i], c, host) + if Kept(full, c, host) then [full] else []
  {
    assert files[..i + 1][..i] == files[..i];
  }

  /** The result is an order-preserving selection from the normalized
      enumeration: index `idx[j]` of the enumeration produced element `j`,
      the indices increase, and every kept position is among them. */
  lemma {:induction false} FoundIsOrderedSelection(files: seq<string>, c: Criteria, host: Host)
    ensures var idx, found := KeptIndices(files, c, host), Found(files, c, host);
            && |idx| == |found|
            && (forall j :: 0 <= j < |idx| ==> idx[j] < |files| && found[j] == host.fullPath(files[idx[j]]))
            && (forall j, k :: 0 <= j < k < |idx| ==> idx[j] < idx[k])
            && (forall i :: 0 <= i < |files| && Kept(host.fullPath(files[i]), c, host) ==> i in idx)
  {
    if files != [] {
      var last := |files| - 1;
      var init := files[..last];
      FoundIsOrderedSelection(init, c, host);
      var idx0, found0 := KeptIndices(init, c, host), Found(init, c, host);
      var full := host.fullPath(files[last]);
      var keep := Kept(full, c, host);
      var idx, found := KeptIndices(files, c, host), Found(files, c, host);
      assert idx == idx0 + (if keep then [last] else []);
      assert found == found0 + (if keep then [full] else []);
      forall j | 0 <= j < |idx|
        ensures idx[j] < |files| && found[j] == host.fullPath(files[idx[j]])
      {
        if j < |idx0| {
          assert files[idx0[j]] == init[idx0[j]];
        }
      }
      forall i | 0 <= i < |files| && Kept(host.fullPath(files[i]), c, host)
        ensures i in idx
      {
        if i < last {
          assert files[i] == init[i];
        }
      }
    }
  }

  /** Every path in the result passed the filters and, in opsec mode, the
      strict gate; it is the normalized form of an enumerated path. */
  lemma FoundOnlyKept(files: seq<string>, c: Criteria, host: Host, j: nat)
    requires j < |Found(files, c, host)|
    ensures Kept(Found(files, c, host)[j], c, host)
    ensures c.opsec ==> StrictAccess(host.accessRules(Found(files, c, host)[j]), host.isInRole)
    ensures !Excluded(Found(files, c, host)[j], c.exclusions)
  {
    FoundIsOrderedSelection(files, c, host);
    var idx := KeptIndices(files, c, host);
    assert idx[j] in idx;
    KeptIndexIsKept(files, c, host, idx[j]);
  }

  lemma {:induction false} KeptIndexIsKept(files: seq<string>, c: Criteria, host: Host, i: nat)
    requires i in KeptIndices(files, c, host)
    ensures i < |files| && Kept(host.fullPath(files[i]), c, host)
  {
    var last := |files| - 1;
    var init := files[..last];
    if i in KeptIndices(init, c, host) {
      KeptIndexIsKept(init, c, host, i);
    }
  }

  /** A file under an excluded directory is never in the result, whatever
      the other filters say. */
  lemma ExcludedNeverFound(files: seq<string>, c: Criteria, host: Host, path: string)
    requires Excluded(path, c.exclusions)
    ensures path !in Found(files, c, host)
  {
    var found := Found(files, c, host);
    if path in found {
      var j :| 0 <= j < |found| && found[j] == path;
      FoundOnlyKept(files, c, host, j);
    }
  }

  /** Rejections never stop the walk: the result over two consecutive parts
      of an enumeration is the two results one after the other. */
  lemma {:induction false} FoundAppend(a: seq<string>, b: seq<string>, c: Criteria, host: Host)
    ensures Found(a + b, c, host) == Found(a, c, host) + Found(b, c, host)
  {
    if b != [] {
      var last := |b| - 1;
      FoundAppend(a, b[..last], c, host);
      assert (a + b)[..|a + b| - 1] == a + b[..last];
      assert (a + b)[|a + b| - 1] == b[last];
    } else {
      assert a + b == a;
    }
  }

}

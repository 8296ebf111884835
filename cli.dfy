/**
 * `Main` and `ParseInputToList`: the `key=value` split of each argument, the
 * comma-list reading of a value, the option switch, and the loop over the
 * root directories that traverses each existing one and reports on it.
 */
module Cli {

  import opened Text
  import opened Platform
  import opened Walker
  import opened Report

  // ---------------------------------------------------------------------
  // Arguments
  // ---------------------------------------------------------------------

  /** `Main`'s argument split: the key is what precedes the first '=', the value what
      follows it with double quotes trimmed from both ends; an argument with
      no '=' is all key and has the empty value. */
  function SplitArgument(arg: string): (kv: (string, string))
    ensures '=' !in kv.0 && |kv.0| <= |arg| && arg[..|kv.0|] == kv.0
    ensures '=' in arg ==> |kv.0| < |arg| && arg[|kv.0|] == '=' && kv.1 == TrimBoth(arg[|kv.0| + 1..], IsQuote)
    ensures '=' !in arg ==> kv == (arg, "")
  {
    if '=' in arg then
      var i := IndexOf(arg, '=');
      (arg[..i], TrimBoth(arg[i + 1..], IsQuote))
    else
      (arg, "")
  }

  /** The split of `key=value` when the key has no '='. */
  lemma SplitOfKeyValue(key: string, value: string)
    requires '=' !in key
    ensures SplitArgument(key + "=" + value) == (key, TrimBoth(value, IsQuote))
  {
    var arg := key + "=" + value;
    assert arg[|key|] == '=';
    var i := IndexOf(arg, '=');
    assert arg[..|key|] == key;
    assert i == |key|;
    assert arg[i + 1..] == value;
  }

  /** The value of a non-file option: a list split on ',' with empty pieces
      dropped before the rest are trimmed, or else the single trimmed value.
      The branch of `ParseInputToList` that reads an existing file line by line is not
      part of this model. */
  function ParseInputToList(input: string): (r: seq<string>)
    ensures ',' !in input ==> |r| == 1
    ensures forall j :: 0 <= j < |r| ==> exists piece :: piece in Split(input, ',') && r[j] == Trim(piece)
  {
    if ',' in input then
      var kept := NonEmpty(Split(input, ','));
      assert forall j :: 0 <= j < |kept| ==> kept[j] in Split(input, ',') && TrimAll(kept)[j] == Trim(kept[j]);
      TrimAll(kept)
    else
      SplitNoSeparator(input, ',');
      assert input in Split(input, ',');
      [Trim(input)]
  }

  /** `StringSplitOptions.RemoveEmptyEntries`. */
  function NonEmpty(parts: seq<string>): (r: seq<string>)
    ensures |r| <= |parts|
    ensures forall i :: 0 <= i < |r| ==> r[i] != [] && r[i] in parts
    ensures forall p :: p in parts && p != [] ==> p in r
  {
    if parts == [] then []
    else (if parts[0] == [] then [] else [parts[0]]) + NonEmpty(parts[1..])
  }

  /** `.Select(path => path.Trim())`. */
  function TrimAll(parts: seq<string>): (r: seq<string>)
    ensures |r| == |parts|
    ensures forall i :: 0 <= i < |r| ==> r[i] == Trim(parts[i])
  {
    seq(|parts|, i requires 0 <= i < |parts| => Trim(parts[i]))
  }

  /** Every element of the list is comma-free and neither starts nor ends
      with white space. */
  lemma ParsedElementsTrimmed(input: string, j: nat)
    requires j < |ParseInputToList(input)|
    ensures var e := ParseInputToList(input)[j];
            && ',' !in e
            && (e != [] ==> !IsWhiteSpace(e[0]) && !IsWhiteSpace(e[|e| - 1]))
  {
    var piece: string;
    if ',' in input {
      var parts := NonEmpty(Split(input, ','));
      piece := parts[j];
      assert piece in Split(input, ',');
    } else {
      piece := input;
    }
    assert ParseInputToList(input)[j] == Trim(piece);
    TrimBothKeepsOut(piece, IsWhiteSpace, ',');
  }

  /** Empty pieces are dropped before the others are trimmed: two commas
      in a row add no element. */
  lemma {:induction false} EmptyPieceDropped(a: string, b: string)
    requires a != [] && b != [] && ',' !in a && ',' !in b
    ensures ParseInputToList(a + ",," + b) == [Trim(a), Trim(b)]
  {
    var input := a + ",," + b;
    assert input[|a|] == ',';
    SplitDoubleComma(a, b);
    NonEmptyDropsMiddle(a, b);
    var kept := NonEmpty(Split(input, ','));
    assert kept == [a, b];
    assert ParseInputToList(input) == TrimAll(kept);
  }

  lemma NonEmptyDropsMiddle(a: string, b: string)
    requires a != [] && b != []
    ensures NonEmpty([a, "", b]) == [a, b]
  {
    var parts := [a, "", b];
    assert NonEmpty(parts[2..]) == [b] by {
      assert parts[2..][1..] == [];
    }
    assert NonEmpty(parts[1..]) == NonEmpty(parts[2..]);
  }

  lemma SplitDoubleComma(a: string, b: string)
    requires ',' !in a && ',' !in b
    ensures Split(a + ",," + b, ',') == [a, "", b]
  {
    assert a + ",," + b == a + [','] + ([] + [','] + b);
    SplitAfterPiece(a, ',', [] + [','] + b);
    SplitAfterPiece([], ',', b);
    SplitNoSeparator(b, ',');
  }

  /** Dropping empty pieces keeps a list with none. */
  lemma {:induction false} NonEmptyKeeps(parts: seq<string>)
    requires forall i :: 0 <= i < |parts| ==> parts[i] != []
    ensures NonEmpty(parts) == parts
  {
    if parts != [] {
      NonEmptyKeeps(parts[1..]);
      assert [parts[0]] + parts[1..] == parts;
    }
  }

  /** A comma-separated list of non-empty, comma-free pieces reads back as
      those pieces trimmed, whether it holds one piece or several; a piece of
      white space alone becomes "". */
  lemma ParseJoinedList(parts: seq<string>)
    requires |parts| >= 1
    requires forall i :: 0 <= i < |parts| ==> parts[i] != [] && ',' !in parts[i]
    ensures ParseInputToList(Join(parts, ',')) == TrimAll(parts)
  {
    var input := Join(parts, ',');
    if |parts| == 1 {
      assert input == parts[0];
    } else {
      assert ',' in input by {
        assert input == parts[0] + [','] + Join(parts[1..], ',');
        assert input[|parts[0]|] == ',';
      }
      SplitJoin(parts, ',');
      NonEmptyKeeps(parts);
    }
  }

  /** Dropping empty pieces keeps the order of the others: it distributes
      over concatenation. */
  lemma {:induction false} NonEmptyAppend(a: seq<string>, b: seq<string>)
    ensures NonEmpty(a + b) == NonEmpty(a) + NonEmpty(b)
  {
    if a == [] {
      assert a + b == b;
    } else {
      assert (a + b)[0] == a[0];
      assert (a + b)[1..] == a[1..] + b;
      NonEmptyAppend(a[1..], b);
    }
  }

  /** Any comma-separated list of comma-free pieces, empty ones included,
      reads back as its non-empty pieces, in order, each trimmed. */
  lemma ParseCommaList(parts: seq<string>)
    requires |parts| >= 2
    requires forall i :: 0 <= i < |parts| ==> ',' !in parts[i]
    ensures ParseInputToList(Join(parts, ',')) == TrimAll(NonEmpty(parts))
  {
    var input := Join(parts, ',');
    assert ',' in input by {
      assert input == parts[0] + [','] + Join(parts[1..], ',');
      assert input[|parts[0]|] == ',';
    }
    SplitJoin(parts, ',');
  }

  /** Trimming a string with no white space at either end changes nothing. */
  lemma TrimOfTrimmed(s: string)
    requires s != [] ==> !IsWhiteSpace(s[0]) && !IsWhiteSpace(s[|s| - 1])
    ensures Trim(s) == s
  {
  }

  /** The options `Main` gathers from its arguments. */
  datatype Options = Options(
    directories: seq<string>,
    excludePaths: seq<string>,
    searchPatterns: seq<string>,
    fileNames: seq<string>,
    verbose: bool,
    suppress: bool,
    opsec: bool,
    help: bool)

  const Defaults := Options([], [], [], [], false, false, false, false)

  /** One case of `Main`'s switch on the lower-cased key; an unknown key changes nothing. */
  function ApplyArgument(o: Options, arg: string): Options
  {
    var (key, value) := SplitArgument(arg);
    ApplyOption(o, ToLower(key), value)
  }

  function ApplyOption(o: Options, k: string, value: string): Options
  {
    if k == "--directory" then o.(directories := o.directories + ParseInputToList(value))
    else if k == "--exclude" then o.(excludePaths := o.excludePaths + ParseInputToList(value))
    else if k == "--type" then o.(searchPatterns := o.searchPatterns + ParseInputToList(value))
    else if k == "--name" then o.(fileNames := o.fileNames + ParseInputToList(value))
    else if k == "--help" then o.(help := true)
    else if k == "--verbose" then o.(verbose := true)
    else if k == "--suppress" then o.(suppress := true)
    else if k == "--opsec" then o.(opsec := true)
    else o
  }

  /** The options after the argument loop; "--help" ends the loop. */
  function Parsed(args: seq<string>): Options
  {
    if args == [] then Defaults
    else
      var o := Parsed(args[..|args| - 1]);
      if o.help then o else ApplyArgument(o, args[|args| - 1])
  }

  /** The argument loop of `Main`. */
  method ParseArguments(args: seq<string>) returns (opts: Options)
    ensures opts == Parsed(args)
  {
    opts := Defaults;
    for i := 0 to |args|
      invariant opts == Parsed(args[..i])
      invariant !opts.help
    {
      assert args[..i + 1][..i] == args[..i];
      var (key, value) := SplitArgument(args[i]);
      var k := ToLower(key);
      if k == "--directory" {
        opts := opts.(directories := opts.directories + ParseInputToList(value));
      } else if k == "--exclude" {
        opts := opts.(excludePaths := opts.excludePaths + ParseInputToList(value));
      } else if k == "--type" {
        opts := opts.(searchPatterns := opts.searchPatterns + ParseInputToList(value));
      } else if k == "--name" {
        opts := opts.(fileNames := opts.fileNames + ParseInputToList(value));
      } else if k == "--help" {
        opts := opts.(help := true);
        HelpStopsParsing(args, i + 1);
        return;
      } else if k == "--verbose" {
        opts := opts.(verbose := true);
      } else if k == "--suppress" {
        opts := opts.(suppress := true);
      } else if k == "--opsec" {
        opts := opts.(opsec := true);
      }
    }
    assert args[..|args|] == args;
  }

  /** Once "--help" is seen, later arguments are ignored. */
  lemma {:induction false} HelpStopsParsing(args: seq<string>, i: nat)
    requires i <= |args| && Parsed(args[..i]).help
    ensures Parsed(args) == Parsed(args[..i])
    decreases |args| - i
  {
    if i < |args| {
      assert args[..i + 1][..i] == args[..i];
      HelpStopsParsing(args, i + 1);
    } else {
      assert args[..i] == args;
    }
  }

  /** Option keys are matched ignoring case. */
  lemma KeyCaseIgnored(o: Options, key1: string, key2: string, value: string)
    requires '=' !in key1 && '=' !in key2 && ToLower(key1) == ToLower(key2)
    ensures ApplyArgument(o, key1 + "=" + value) == ApplyArgument(o, key2 + "=" + value)
  {
    SplitOfKeyValue(key1, value);
    SplitOfKeyValue(key2, value);
  }

  // ---------------------------------------------------------------------
  // The loop over root directories
  // ---------------------------------------------------------------------

  /** What one root directory contributes: nothing if it does not exist or
      output is suppressed, else the workbook of its traversal. */
  function WorkbooksFor(directories: seq<string>, o: Options, host: Host): seq<Workbook>
  {
    if directories == [] then []
    else
      var d := directories[|directories| - 1];
      WorkbooksFor(directories[..|directories| - 1], o, host) + WorkbookOf(d, o, host)
  }

  function WorkbookOf(d: string, o: Options, host: Host): seq<Workbook>
  {
    if !host.directoryExists(d) || o.suppress then []
    else
      var c := CriteriaFor(o.excludePaths, o.searchPatterns, o.fileNames, o.opsec, host);
      [Workbook(ValidFileName(d, host.isPathRooted, host.invalidFileNameChars), "Permissions", Header,
                Rows(Found(host.enumerateFiles(d), c, host), o.opsec, host))]
  }

  /** The workbooks a whole run saves. */
  function RunResult(args: seq<string>, host: Host): seq<Workbook>
  {
    var o := Parsed(args);
    if o.help || o.directories == [] then [] else WorkbooksFor(o.directories, o, host)
  }

  /** `Main`, with the console output left out. */
  method Run(args: seq<string>, host: Host) returns (saved: seq<Workbook>)
    ensures saved == RunResult(args, host)
  {
    var opts := ParseArguments(args);
    saved := [];
    if opts.help || |opts.directories| == 0 {
      return;
    }
    var directoriesToProcess := opts.directories;
    for i := 0 to |directoriesToProcess|
      invariant saved == WorkbooksFor(directoriesToProcess[..i], opts, host)
    {
      var directory := directoriesToProcess[i];
      WorkbooksStep(directoriesToProcess, i, opts, host);
      if !host.directoryExists(directory) {
        continue;
      }
      var matchedFiles := TraverseDirectory(directory, opts.searchPatterns, opts.fileNames,
                                            opts.excludePaths, opts.opsec, host);
      var book := OutputToConsoleAndExcel(matchedFiles, directory, opts.suppress, opts.opsec, host);
      assert (if book.Some? then [book.value] else []) == WorkbookOf(directory, opts, host);
      if book.Some? {
        saved := saved + [book.value];
      }
    }
    assert directoriesToProcess[..|directoriesToProcess|] == directoriesToProcess;
  }

  /** One more root adds its own workbooks after the others'. */
  lemma WorkbooksStep(directories: seq<string>, i: nat, o: Options, host: Host)
    requires i < |directories|
    ensures WorkbooksFor(directories[..i + 1], o, host)
            == WorkbooksFor(directories[..i], o, host) + WorkbookOf(directories[i], o, host)
  {
    assert directories[..i + 1][..i] == directories[..i];
  }

  /** Roots are processed independently: a missing root is skipped and the
      others are reported as if it were not there. */
  lemma {:induction false} WorkbooksAppend(a: seq<string>, b: seq<string>, o: Options, host: Host)
    ensures WorkbooksFor(a + b, o, host) == WorkbooksFor(a, o, host) + WorkbooksFor(b, o, host)
  {
    if b != [] {
      var last := |b| - 1;
      WorkbooksAppend(a, b[..last], o, host);
      assert (a + b)[..|a + b| - 1] == a + b[..last];
      assert (a + b)[|a + b| - 1] == b[last];
    } else {
      assert a + b == a;
    }
  }

  lemma MissingRootSkipped(a: seq<string>, d: string, b: seq<string>, o: Options, host: Host)
    requires !host.directoryExists(d)
    ensures WorkbooksFor(a + [d] + b, o, host) == WorkbooksFor(a + b, o, host)
  {
    assert WorkbooksFor([d], o, host) == WorkbooksFor([], o, host) + WorkbookOf(d, o, host) by {
      assert [d][..0] == [];
    }
    WorkbooksAppend(a, [d], o, host);
    WorkbooksAppend(a + [d], b, o, host);
    WorkbooksAppend(a, b, o, host);
  }

  /** With "--suppress" nothing is saved. */
  lemma {:induction false} SuppressSavesNothing(directories: seq<string>, o: Options, host: Host)
    requires o.suppress
    ensures WorkbooksFor(directories, o, host) == []
  {
    if directories != [] {
      SuppressSavesNothing(directories[..|directories| - 1], o, host);
    }
  }

  /** End to end: a reported row names a file that passed the exclusion and
      allow-list tests (and in opsec mode the strict gate) and to which some
      Allow rule grants ReadData or WriteData. */
  lemma ReportedRowWasKept(files: seq<string>, c: Criteria, host: Host, j: nat)
    requires j < |Rows(Found(files, c, host), c.opsec, host)|
    ensures var path := Rows(Found(files, c, host), c.opsec, host)[j].path;
            && Kept(path, c, host)
            && Reportable(path, c.opsec, host)
  {
    var found := Found(files, c, host);
    RowsAreReportable(found, c.opsec, host, j);
    var path := Rows(found, c.opsec, host)[j].path;
    var k :| 0 <= k < |found| && found[k] == path;
    FoundOnlyKept(files, c, host, k);
  }

}

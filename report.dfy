/**
 * The reporting pass of `OutputToConsoleAndExcel`: for each file found, the
 * aggregate read/write flags, one worksheet row per file with at least one
 * of them, and the workbook file name `MakeValidFileName` derives from the
 * root directory. The workbook itself is represented by the rows it would
 * hold; rendering and saving it belong to the spreadsheet library.
 */
module Report {

  import opened Wrappers
  import opened Text
  import opened Acl
  import opened Platform

  /** One data row of the "Permissions" worksheet: the path and the
      "Y"/"N" cells Read, Write and Read & Write. */
  datatype Row = Row(path: string, read: string, write: string, readWrite: string)

  /** The header row (row 1). */
  const Header: seq<string> := ["File Path", "Read", "Write", "Read & Write"]

  /** What `SaveAs` would write: the file name, the sheet and its data rows
      (sheet row `r` holds `rows[r - 2]`). */
  datatype Workbook = Workbook(fileName: string, sheetName: string, header: seq<string>, rows: seq<Row>)

  function YesNo(b: bool): string
  {
    if b then "Y" else "N"
  }

  /** The row the `finally` block writes for a file with rights `r`, if any. */
  function RowFor(path: string, r: Rights): seq<Row>
  {
    if r.canRead || r.canWrite then
      [Row(path, YesNo(r.canRead), YesNo(r.canWrite), YesNo(r.canRead && r.canWrite))]
    else []
  }

  /** Whether a file gets a row: it passes the opsec re-check and some Allow
      rule grants ReadData or WriteData. */
  predicate Reportable(path: string, opsec: bool, host: Host)
  {
    && (opsec ==> StrictAccess(host.accessRules(path), host.isInRole))
    && var r := AggregateRights(host.accessRules(path)); r.canRead || r.canWrite
  }

  /** The data rows written for `files`, in order. */
  function Rows(files: seq<string>, opsec: bool, host: Host): seq<Row>
  {
    if files == [] then []
    else
      var path := files[|files| - 1];
      Rows(files[..|files| - 1], opsec, host)
        + (if opsec && !StrictAccess(host.accessRules(path), host.isInRole) then []
           else RowFor(path, AggregateRights(host.accessRules(path))))
  }

  /** The loop over the files: the opsec re-check, the rights loop, and the
      row written in the `finally` block; `row` is the next free sheet row. */
  method WriteRows(files: seq<string>, opsec: bool, host: Host) returns (rows: seq<Row>, row: int)
    ensures rows == Rows(files, opsec, host)
    ensures row == 2 + |rows|
  {
    rows, row := [], 2;
    for i := 0 to |files|
      invariant rows == Rows(files[..i], opsec, host)
      invariant row == 2 + |rows|
    {
      assert files[..i + 1][..i] == files[..i];
      var filePath := files[i];
      if opsec {
        var accessible := CanAccessFile(host.accessRules(filePath), host.isInRole);
        if !accessible {
          continue;
        }
      }
      var canRead, canWrite := EffectiveRights(host.accessRules(filePath));
      if canRead || canWrite {
        rows := rows + [Row(filePath, YesNo(canRead), YesNo(canWrite), YesNo(canRead && canWrite))];
        row := row + 1;
      }
    }
    assert files[..|files|] == files;
  }

  /** `OutputToConsoleAndExcel`: nothing is built or saved under `--suppress`. */
  method OutputToConsoleAndExcel(files: seq<string>, directory: string, suppress: bool, opsec: bool, host: Host)
    returns (saved: Option<Workbook>)
    ensures suppress <==> saved.None?
    ensures saved.Some? ==> saved.value.rows == Rows(files, opsec, host)
    ensures saved.Some? ==> saved.value.fileName == ValidFileName(directory, host.isPathRooted, host.invalidFileNameChars)
    ensures saved.Some? ==> saved.value.sheetName == "Permissions" && saved.value.header == Header
  {
    if suppress {
      return None;
    }
    var rows, row := WriteRows(files, opsec, host);
    var excelFileName := MakeValidFileName(directory, host.isPathRooted, host.invalidFileNameChars);
    saved := Some(Workbook(excelFileName, "Permissions", Header, rows));
  }

  /** Each file's row depends on that file alone: the rows of two lists of
      files are the rows of each list in turn. */
  lemma {:induction false} RowsAppend(a: seq<string>, b: seq<string>, opsec: bool, host: Host)
    ensures Rows(a + b, opsec, host) == Rows(a, opsec, host) + Rows(b, opsec, host)
  {
    if b != [] {
      var last := |b| - 1;
      RowsAppend(a, b[..last], opsec, host);
      assert (a + b)[..|a + b| - 1] == a + b[..last];
      assert (a + b)[|a + b| - 1] == b[last];
    } else {
      assert a + b == a;
    }
  }

  /** Every row belongs to a reportable file of the input, shows that file's
      aggregate flags, and its fourth cell is the conjunction of the two. */
  lemma {:induction false} RowsAreReportable(files: seq<string>, opsec: bool, host: Host, j: nat)
    requires j < |Rows(files, opsec, host)|
    ensures var row := Rows(files, opsec, host)[j];
            var r := AggregateRights(host.accessRules(row.path));
            && row.path in files
            && Reportable(row.path, opsec, host)
            && row.read == YesNo(r.canRead) && row.write == YesNo(r.canWrite)
            && (row.read == "Y" || row.write == "Y")
            && (row.readWrite == "Y" <==> row.read == "Y" && row.write == "Y")
  {
    var init := files[..|files| - 1];
    if j < |Rows(init, opsec, host)| {
      RowsAreReportable(init, opsec, host, j);
    }
  }

  /** Conversely, every reportable file of the input has a row. */
  lemma {:induction false} ReportableFileHasRow(files: seq<string>, opsec: bool, host: Host, i: nat)
    requires i < |files| && Reportable(files[i], opsec, host)
    ensures exists j :: 0 <= j < |Rows(files, opsec, host)| && Rows(files, opsec, host)[j].path == files[i]
  {
    var last := |files| - 1;
    var init := files[..last];
    var rows := Rows(files, opsec, host);
    if i < last {
      ReportableFileHasRow(init, opsec, host, i);
      var j :| 0 <= j < |Rows(init, opsec, host)| && Rows(init, opsec, host)[j].path == init[i];
      assert rows[j] == Rows(init, opsec, host)[j];
    } else {
      assert rows[|rows| - 1].path == files[i];
    }
  }

  /** A file whose access rules could not be fetched gets no row. */
  lemma FailedFetchHasNoRow(files: seq<string>, opsec: bool, host: Host, path: string)
    requires host.accessRules(path).None?
    ensures forall j :: 0 <= j < |Rows(files, opsec, host)| ==> Rows(files, opsec, host)[j].path != path
  {
    forall j | 0 <= j < |Rows(files, opsec, host)|
      ensures Rows(files, opsec, host)[j].path != path
    {
      RowsAreReportable(files, opsec, host, j);
    }
  }

  /** In opsec mode a file refused by the strict gate gets no row, even if
      some Allow rule would make it readable. */
  lemma OpsecRefusedHasNoRow(files: seq<string>, host: Host, path: string)
    requires !StrictAccess(host.accessRules(path), host.isInRole)
    ensures forall j :: 0 <= j < |Rows(files, true, host)| ==> Rows(files, true, host)[j].path != path
  {
    forall j | 0 <= j < |Rows(files, true, host)|
      ensures Rows(files, true, host)[j].path != path
    {
      RowsAreReportable(files, true, host, j);
    }
  }

  // ---------------------------------------------------------------------
  // MakeValidFileName
  // ---------------------------------------------------------------------

  /** `name.StartsWith("\\\\")`: a UNC path. */
  predicate IsUnc(name: string)
  {
    |name| >= 2 && name[..2] == "\\\\"
  }

  /** `Path.IsPathRooted(name) && name.EndsWith(":\\")`: a drive root. */
  predicate IsDriveRoot(name: string, isPathRooted: string -> bool)
  {
    isPathRooted(name) && |name| >= 2 && name[|name| - 2..] == ":\\"
  }

  /** `p` is what is left of `name` once its trailing '\\' and then the ':'
      before them are cut: a prefix of `name` followed only by ':' and then
      '\\', ending in neither ':' nor a '\\' that is followed by '\\'. */
  predicate DriveStem(name: string, p: string)
  {
    && |p| <= |name| && p == name[..|p|]
    && (forall i :: |p| <= i < |name| ==> name[i] == '\\' || name[i] == ':')
    && (forall i, j :: |p| <= i < j < |name| && name[i] == '\\' ==> name[j] == '\\')
    && (p != [] ==> p[|p| - 1] != ':')
    && (p != [] && p[|p| - 1] == '\\' ==> |p| < |name| && name[|p|] == ':')
  }

  /** The root rewrite of `MakeValidFileName`: a UNC path such as
      `\\server\share$` loses its leading backslashes, has the others turned
      into '_' and its '$' removed; a drive root such as `C:\` becomes its
      stem and "_Drive_permissions"; any other name is kept. */
  function RootRewrite(name: string, isPathRooted: string -> bool): (r: string)
    ensures IsUnc(name) ==> '\\' !in r && '$' !in r
    ensures IsUnc(name) && '$' !in name ==>
              var k := LeadingRun(name, IsBackslash);
              && |r| == |name| - k
              && forall i :: 0 <= i < |r| ==> r[i] == if name[k + i] == '\\' then '_' else name[k + i]
    ensures !IsUnc(name) && IsDriveRoot(name, isPathRooted) ==>
              |r| >= 18 && r[|r| - 18..] == "_Drive_permissions" && DriveStem(name, r[..|r| - 18])
    ensures !IsUnc(name) && !IsDriveRoot(name, isPathRooted) ==> r == name
  {
    if IsUnc(name) then
      var replaced := UncUnderscored(name);
      assert '\\' !in replaced;
      assert '$' !in name ==> '$' !in replaced;
      RemoveChar(replaced, '$')
    else if IsDriveRoot(name, isPathRooted) then
      var stem := TrimEnd(TrimEnd(name, IsBackslash), IsColon);
      DriveStemOfTrims(name);
      var r := stem + "_Drive_permissions";
      assert r[..|r| - 18] == stem;
      r
    else
      name
  }

  lemma DriveStemOfTrims(name: string)
    ensures DriveStem(name, TrimEnd(TrimEnd(name, IsBackslash), IsColon))
  {
    var t := TrimEnd(name, IsBackslash);
    var p := TrimEnd(t, IsColon);
    assert forall i :: |p| <= i < |t| ==> name[i] == t[i] && t[i] == ':';
    assert forall i :: |t| <= i < |name| ==> name[i] == '\\';
    assert |p| == |t| ==> p == t;
    assert p == name[..|p|];
  }

  /** `t` is the UNC path `name` after its leading backslashes, with each
      remaining '\\' turned into '_'. */
  predicate UncReplacement(name: string, t: string)
  {
    var k := LeadingRun(name, IsBackslash);
    && |t| == |name| - k
    && forall i :: 0 <= i < |t| ==> t[i] == if name[k + i] == '\\' then '_' else name[k + i]
  }

  /** Any UNC path, '$' or not: the path after its leading backslashes with
      each remaining '\\' turned into '_', and then every '$' removed. */
  lemma UncRewrite(name: string, isPathRooted: string -> bool)
    requires IsUnc(name)
    ensures exists t :: UncReplacement(name, t) && RootRewrite(name, isPathRooted) == RemoveChar(t, '$')
  {
    var t := UncUnderscored(name);
    assert RootRewrite(name, isPathRooted) == RemoveChar(t, '$');
  }

  /** The replacement step of the UNC rewrite. */
  function UncUnderscored(name: string): (t: string)
    ensures UncReplacement(name, t)
  {
    var k := LeadingRun(name, IsBackslash);
    assert TrimStart(name, IsBackslash) == name[k..];
    ReplaceChar(TrimStart(name, IsBackslash), '\\', '_')
  }

  /** `\\server\share` becomes `server_share`. */
  lemma UncServerShare(server: string, share: string, isPathRooted: string -> bool)
    requires server != [] && server[0] != '\\'
    requires '\\' !in server && '$' !in server && '\\' !in share && '$' !in share
    ensures RootRewrite("\\\\" + server + "\\" + share, isPathRooted) == server + "_" + share
  {
    var name := "\\\\" + server + "\\" + share;
    assert name[..2] == "\\\\";
    UncUnderscoredOf(server, share);
    assert '$' !in server + "_" + share;
  }

  /** An administrative share `\\server\share$` becomes `server_share`. */
  lemma UncAdminShare(server: string, share: string, isPathRooted: string -> bool)
    requires server != [] && server[0] != '\\'
    requires '\\' !in server && '$' !in server && '\\' !in share && '$' !in share
    ensures RootRewrite("\\\\" + server + "\\" + share + "$", isPathRooted) == server + "_" + share
  {
    var name := "\\\\" + server + "\\" + share + "$";
    assert name[..2] == "\\\\";
    var expected := server + "_" + share;
    assert name == "\\\\" + server + "\\" + (share + "$");
    UncUnderscoredOf(server, share + "$");
    assert RootRewrite(name, isPathRooted) == RemoveChar(UncUnderscored(name), '$');
    assert server + "_" + (share + "$") == expected + "$";
    assert '$' !in expected;
    RemoveCharAppend(expected, "$", '$');
    assert "$"[1..] == [];
  }

  /** The UNC rewrite before '$' is removed: `\\server\rest` with no
      further '\\' becomes `server_rest`. */
  lemma UncUnderscoredOf(server: string, rest: string)
    requires server != [] && server[0] != '\\'
    requires '\\' !in server && '\\' !in rest
    ensures var name := "\\\\" + server + "\\" + rest;
            UncUnderscored(name) == server + "_" + rest
  {
    var name := "\\\\" + server + "\\" + rest;
    assert name[2] == server[0];
    assert LeadingRun(name, IsBackslash) == 2 by {
      assert name[0] == '\\' && name[1] == '\\';
      assert LeadingRun(name[1..], IsBackslash) == 1 by {
        assert name[1..][1..] == name[2..];
      }
    }
    assert TrimStart(name, IsBackslash) == server + "\\" + rest;
  }

  /** Every character in `invalid` replaced by '_'. */
  function Sanitized(s: string, invalid: seq<char>): (r: string)
    ensures |r| == |s|
    ensures forall i :: 0 <= i < |s| ==> r[i] == if s[i] in invalid then '_' else s[i]
  {
    seq(|s|, i requires 0 <= i < |s| => if s[i] in invalid then '_' else s[i])
  }

  /** The file name the workbook of a root directory is saved under. */
  function ValidFileName(name: string, isPathRooted: string -> bool, invalid: seq<char>): string
  {
    Sanitized(RootRewrite(name, isPathRooted), invalid) + ".xlsx"
  }

  method MakeValidFileName(directory: string, isPathRooted: string -> bool, invalidChars: seq<char>)
    returns (fileName: string)
    ensures fileName == ValidFileName(directory, isPathRooted, invalidChars)
    ensures |fileName| == |RootRewrite(directory, isPathRooted)| + 5
    ensures fileName[|fileName| - 5..] == ".xlsx"
    ensures '_' !in invalidChars ==> forall i :: 0 <= i < |fileName| - 5 ==> fileName[i] !in invalidChars
  {
    var name := directory;
    if |name| >= 2 && name[..2] == "\\\\" {
      name := RemoveChar(ReplaceChar(TrimStart(name, IsBackslash), '\\', '_'), '$');
      assert name == RootRewrite(directory, isPathRooted);
    } else if isPathRooted(name) && |name| >= 2 && name[|name| - 2..] == ":\\" {
      name := TrimEnd(TrimEnd(name, IsBackslash), IsColon) + "_Drive_permissions";
    }
    assert name == RootRewrite(directory, isPathRooted);
    ghost var rewritten := name;
    for k := 0 to |invalidChars|
      invariant name == Sanitized(rewritten, invalidChars[..k])
    {
      SanitizedStep(rewritten, invalidChars, k);
      name := ReplaceChar(name, invalidChars[k], '_');
    }
    assert invalidChars[..|invalidChars|] == invalidChars;
    fileName := name + ".xlsx";
  }

  /** Replacing one more invalid character extends the sanitization by it. */
  lemma SanitizedStep(s: string, invalid: seq<char>, k: nat)
    requires k < |invalid|
    ensures ReplaceChar(Sanitized(s, invalid[..k]), invalid[k], '_') == Sanitized(s, invalid[..k + 1])
  {
    var r := ReplaceChar(Sanitized(s, invalid[..k]), invalid[k], '_');
    assert forall i :: 0 <= i < |r| ==> r[i] == Sanitized(s, invalid[..k + 1])[i];
  }

  /** A drive root such as `X:\` gives `X_Drive_permissions.xlsx` when none of
      those characters is invalid. */
  lemma DriveRootFileName(drive: char, isPathRooted: string -> bool, invalid: seq<char>)
    requires drive != ':' && isPathRooted([drive, ':', '\\'])
    requires forall c :: c in [drive] + "_Drive_permissions" ==> c !in invalid
    ensures ValidFileName([drive, ':', '\\'], isPathRooted, invalid) == [drive] + "_Drive_permissions.xlsx"
  {
    var name := [drive, ':', '\\'];
    assert name[1] != '\\';
    assert name[|name| - 2..] == ":\\";
    assert name[..2] == [drive, ':'] && [drive, ':'][..1] == [drive];
    assert TrailingRun([drive, ':'], IsBackslash) == 0;
    assert TrailingRun(name, IsBackslash) == 1;
    assert TrimEnd(name, IsBackslash) == [drive, ':'];
    assert TrailingRun([drive], IsColon) == 0;
    assert TrailingRun([drive, ':'], IsColon) == 1;
    assert TrimEnd([drive, ':'], IsColon) == [drive];
    var rewritten := [drive] + "_Drive_permissions";
    assert RootRewrite(name, isPathRooted) == rewritten;
    assert Sanitized(rewritten, invalid) == rewritten;
  }

  /** A UNC path gives a name with no backslash and no '$' before ".xlsx". */
  lemma UncFileName(name: string, isPathRooted: string -> bool, invalid: seq<char>)
    requires |name| >= 2 && name[..2] == "\\\\"
    ensures var f := ValidFileName(name, isPathRooted, invalid);
            forall i :: 0 <= i < |f| - 5 ==> f[i] != '\\' && f[i] != '$'
  {
    var replaced := ReplaceChar(TrimStart(name, IsBackslash), '\\', '_');
    var rewritten := RemoveChar(replaced, '$');
    assert '\\' !in replaced;
    assert '\\' !in rewritten;
  }

  /** A name that is neither a UNC path nor a drive root and holds no invalid
      character is kept as it is, with ".xlsx" added. */
  lemma PlainNameKept(name: string, isPathRooted: string -> bool, invalid: seq<char>)
    requires !(|name| >= 2 && name[..2] == "\\\\")
    requires !(isPathRooted(name) && |name| >= 2 && name[|name| - 2..] == ":\\")
    requires forall i :: 0 <= i < |name| ==> name[i] !in invalid
    ensures ValidFileName(name, isPathRooted, invalid) == name + ".xlsx"
  {
    assert Sanitized(name, invalid) == name;
  }

}

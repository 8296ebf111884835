# SharpMole in Dafny

SharpMole is a Windows command-line tool that walks one or more directory
trees. It keeps the files that pass an exclusion list, an extension
allow-list, a file-name allow-list and, in "opsec" mode, a strict access
check against the current user's groups. For every existing root, unless
`--suppress` is given, it writes an Excel workbook listing each kept file that some Allow rule makes readable or
writable.

This project models the decision logic of `Program.cs` and proves what it
promises:

- `Cli` (cli.dfy): the `key=value` split of each argument, the reading of
  an option value as a comma list (`ParseInputToList`), the option switch
  with "--help" ending the loop, and the loop of `Main` over the root
  directories.
- `PathFilter` (path_filter.dfy): `FileInfo.Name` and `FileInfo.Extension`
  of a full path, and the three case-insensitive per-file tests.
- `Walker` (walker.dfy): `TraverseDirectory`, a loop with `continue` over
  the enumerated files. It is proved equal to `Found`, a selection of the
  enumeration that keeps its order.
- `Acl` (acl.dfy): the two access policies. `CanAccessFile` is the strict
  one: the first rule that names a role of the user and covers ReadData
  decides, no such rule means allow, and a failed fetch means deny.
  `EffectiveRights` is the aggregate one: any Allow rule carrying
  ReadData or WriteData sets the flag, whoever it names.
- `Report` (report.dfy): the rows of the "Permissions" sheet and
  `MakeValidFileName`.
- `Text` (text.dfy): the string library calls these rely on (`Trim`,
  `Split`, `IndexOf`, `Replace`, ordinal case-insensitive comparison).
- `Platform` (platform.dfy): the operating system as a value of type
  `Host`. Its fields are `Directory.Exists`, the recursive
  `Directory.EnumerateFiles`, `Path.GetFullPath`, the fetch of a file's
  access rules (`None` when it throws), `WindowsPrincipal.IsInRole`,
  `Path.IsPathRooted` and `Path.GetInvalidFileNameChars`.
- `Wrappers` (wrappers.dfy): `Option`.

The static fields `excludePaths`, `suppress` and `opsecMode` of the
program become parameters of the operations that read them.

## Model

| member | source | states |
|---|---|---|
| Cli.SplitOfKeyValue | Program.cs:30-31 | for a key with no '=', `key=value` splits into that key and the value with its quotes trimmed |
| Cli.SplitArgument | Program.cs:30-31 | the key is a prefix of the argument with no '='; when the argument has an '=' it stands right after the key, and the value is what follows it with quotes trimmed at both ends; without '=' the pair is the argument and "" |
| Cli.ParseInputToList | Program.cs:125-131 | every element is the trim of a piece of the value split at ','; a value with no comma gives exactly one element |
| Cli.ParsedElementsTrimmed | Program.cs:125-131 | no element of the parsed list holds a comma, starts with white space or ends with white space |
| Cli.ParseJoinedList | Program.cs:125-131 | a comma-joined list of one or more non-empty comma-free pieces reads back as those pieces, each trimmed, whether it takes the comma branch or the single-value branch; a piece of white space alone becomes "" |
| Cli.EmptyPieceDropped | Program.cs:125-129 | two commas in a row add no element: `a,,b` with non-empty comma-free `a` and `b` gives exactly the two trimmed pieces, since empty pieces are dropped before trimming |
| Cli.NonEmptyKeeps | Program.cs:128 | removing empty entries leaves a list with none unchanged |
| Cli.NonEmpty | Program.cs:128 | `RemoveEmptyEntries`: the result holds only non-empty pieces of the input and every non-empty piece of the input |
| Cli.NonEmptyAppend | Program.cs:128 | removing empty entries works piece by piece: the result for `a + b` is the result for `a` followed by that for `b`, so the kept pieces stay in order |
| Cli.ParseCommaList | Program.cs:125-129 | any comma-joined list of two or more comma-free pieces, empty ones included, reads back as exactly its non-empty pieces, in order, each trimmed |
| Cli.TrimAll | Program.cs:129 | `Select(path => path.Trim())`: one element per piece, each the trim of the piece in the same position |
| Cli.TrimOfTrimmed | Program.cs:129 | trimming a string with no white space at either end returns it unchanged |
| Cli.ParseArguments | Program.cs:28-60 | the argument loop yields `Parsed(args)`: each recognised lower-cased key adds its list or sets its flag, an unknown key changes nothing, and "--help" ends the loop |
| Cli.HelpStopsParsing | Program.cs:47-49 | once "--help" is seen, the arguments after it change nothing |
| Cli.KeyCaseIgnored | Program.cs:33 | two keys equal after lower-casing have the same effect |
| Cli.Run | Program.cs:28-94 | the saved workbooks are `RunResult(args)`: none after "--help" or with no directory; otherwise, in order, one per existing root unless output is suppressed, holding the rows of that root's traversal |
| Cli.WorkbooksAppend | Program.cs:82-94 | roots are processed independently: the workbooks of two lists of roots are those of each list in turn |
| Cli.WorkbooksStep | Program.cs:82-94 | one more root adds its own workbook, if any, after those of the roots before it |
| Cli.MissingRootSkipped | Program.cs:84-90 | a root that does not exist adds nothing and leaves the others' workbooks as they are |
| Cli.SuppressSavesNothing | Program.cs:176-259 | with "--suppress" no workbook is saved for any root |
| Cli.ReportedRowWasKept | Program.cs:140-239 | a reported row names a file that passed the exclusion and allow-list tests (and in opsec mode the strict gate) and to which some Allow rule grants ReadData or WriteData |
| PathFilter.FileName | Program.cs:157 | `FileInfo.Name`: a suffix of the path with no directory separator, preceded by a separator unless it is the whole path |
| PathFilter.Extension | Program.cs:156 | `FileInfo.Extension`: a suffix of the path that is empty or starts with '.', with no '.', separator or ':' after that dot, so a non-empty result is the suffix from the last dot; it is empty only when every '.' of the path is followed by a separator or ':' |
| PathFilter.ExtensionWithinName | Program.cs:156-157 | the extension is no longer than the file name |
| PathFilter.MatchedPatternIsSuffix | Program.cs:156 | a pattern that matches makes the path end, ignoring case, in "." followed by the pattern |
| PathFilter.PatternWithSeparatorNeverMatches | Program.cs:156 | a pattern holding '.', '\\', '/' or ':' matches no file |
| PathFilter.ExclusionIgnoresCase | Program.cs:144 | two paths equal after case folding are both excluded or both kept |
| PathFilter.EmptyExclusionExcludesAll | Program.cs:144 | with no exclusions nothing is excluded; an exclusion entry that is empty excludes every path |
| PathFilter.ExtensionMatchNeedsExtension | Program.cs:156 | `ExtensionMatches` holds only for a path whose extension is non-empty and starts with '.' |
| PathFilter.EmptyNameMatchesAll | Program.cs:157 | an empty name list matches nothing (the caller skips the test then); an empty name matches every file |
| Walker.NormalizeAll | Program.cs:138 | one normalized path per exclusion entry, each the full path of the entry in the same position |
| Walker.TraverseDirectory | Program.cs:134-172 | the loop returns `Found`: the enumerated paths, normalized, that pass the exclusion, extension and name tests and, in opsec mode, the strict gate |
| Walker.FoundStep | Program.cs:140-168 | one more enumerated path adds its normalized form at the end exactly when it is kept |
| Walker.FoundIsOrderedSelection | Program.cs:140-171 | the result is an order-preserving selection of the normalized enumeration: each element comes from an increasing index, and every kept position is among those indices |
| Walker.FoundOnlyKept | Program.cs:144-168 | every path in the result passed all the filters, is not excluded, and in opsec mode passes the strict gate |
| Walker.KeptIndexIsKept | Program.cs:144-168 | every selected index is in range and its path is kept |
| Walker.ExcludedNeverFound | Program.cs:144-153 | a path under an excluded prefix is never in the result, whatever the other filters say |
| Walker.FoundAppend | Program.cs:140-169 | a rejection only skips to the next file: the result over two consecutive parts of an enumeration is the two results in turn |
| Acl.CanAccessFile | Program.cs:263-301 | the early-return loop computes `StrictAccess`; a fetch that throws gives false |
| Acl.FirstDecisiveRuleDecides | Program.cs:275-286 | the first rule that names a role of the user and covers ReadData alone decides: access exactly when it is an Allow |
| Acl.DenyBeforeLaterAllow | Program.cs:283-284 | a decisive Deny with no decisive rule before it refuses access even when a matching Allow follows |
| Acl.NoDecisiveRuleAllows | Program.cs:288-289 | with no decisive rule, access is granted |
| Acl.RefusalHasFirstDeny | Program.cs:275-289 | a refusal of fetched rules always comes from a decisive Deny with no decisive rule before it |
| Acl.IrrelevantRule | Program.cs:277-279 | a rule for another identity or without ReadData never changes the strict outcome, wherever it stands |
| Acl.EffectiveRights | Program.cs:203-229 | the loop over all rules computes `AggregateRights`: canRead (canWrite) exactly when some Allow rule carries ReadData (WriteData); a fetch that throws gives neither |
| Acl.AggregateIgnoresDeny | Program.cs:210-213 | removing every Deny rule leaves both flags as they were |
| Acl.AllowsRightAppend | Program.cs:208-214 | the flags of a concatenation of rule lists are the OR of the parts' flags |
| Acl.InsertedDenyChangesNothing | Program.cs:210-213 | inserting a Deny rule anywhere changes neither flag |
| Acl.AggregateIgnoresIdentity | Program.cs:208-214 | the flags do not depend on the identities the rules name: lists with the same rights and effects give the same flags |
| Acl.SameShapeAllows | Program.cs:210-213 | one flag, for lists with the same rights and effects rule by rule, is the same |
| Acl.StrictAllowImpliesAggregateRead | Program.cs:208-214 | a file the strict gate admits through a decisive Allow is reported readable |
| Acl.PoliciesDiverge | Program.cs:198-214 | the policies disagree both ways: a leading Deny for the user refuses the strict gate while a later Allow makes the file readable; an empty list passes the strict gate but gives no rights |
| Report.WriteRows | Program.cs:192-241 | the row loop writes `Rows(files)`: in opsec mode a file refused by the strict gate is skipped; a file gets a row with its path, "Y"/"N" for read and write, and their conjunction, exactly when it can be read or written; the next free row is 2 plus the number of rows |
| Report.OutputToConsoleAndExcel | Program.cs:176-260 | nothing is saved exactly when output is suppressed; otherwise the workbook holds sheet "Permissions", the header, `Rows(files)` and the name `MakeValidFileName` gives |
| Report.RowsAreReportable | Program.cs:198-239 | every row names an input file that passes the opsec re-check, shows that file's aggregate flags, has a "Y" in column 2 or 3, and has "Y" in column 4 exactly when columns 2 and 3 both do |
| Report.ReportableFileHasRow | Program.cs:193-239 | every reportable input file has a row |
| Report.RowsAppend | Program.cs:193-241 | each file's row depends on that file alone: the rows for two lists of files are the rows of each list in turn |
| Report.FailedFetchHasNoRow | Program.cs:216-232 | a file whose access rules cannot be fetched gets no row |
| Report.OpsecRefusedHasNoRow | Program.cs:198-201 | in opsec mode a file refused by the strict gate gets no row, even if an Allow rule would make it readable |
| Report.MakeValidFileName | Program.cs:303-326 | the result is `ValidFileName`; it is the rewritten name plus ".xlsx", the same length as the rewritten name plus 5; when '_' is itself valid, no invalid character remains before ".xlsx" |
| Report.DriveRootFileName | Program.cs:310-314 | a drive root `X:\` gives `X_Drive_permissions.xlsx` when none of those characters is invalid |
| Report.UncFileName | Program.cs:306-308 | a UNC path gives a name with no '\\' and no '$' before ".xlsx" |
| Report.PlainNameKept | Program.cs:317-324 | a name that is neither a UNC path nor a drive root and has no invalid character is kept, with ".xlsx" added |
| Report.RootRewrite | Program.cs:306-315 | a UNC path loses every '\\' and '$', and when it holds no '$' the result is the path after its leading backslashes, character for character, with each remaining '\\' turned into '_'; a rooted path ending in `:\` becomes a prefix of itself followed by "_Drive_permissions", where only ':' and then '\\' follow that prefix in the path and the prefix ends in neither ':' nor a '\\' that had more '\\' after it; any other name is unchanged |
| Report.DriveStemOfTrims | Program.cs:314 | `TrimEnd('\\').TrimEnd(':')` leaves a prefix of the name followed only by ':' and then '\\', and that prefix ends in neither ':' nor a '\\' that had more '\\' after it |
| Report.UncServerShare | Program.cs:306-308 | `\\server\share` becomes `server_share` when neither part holds '\\' or '$' and the server is not empty |
| Report.UncRewrite | Program.cs:306-308 | every UNC path, including an administrative share ending in '$', becomes the path after its leading backslashes with each remaining '\\' turned into '_', followed by the removal of every '$' |
| Report.UncUnderscored | Program.cs:308 | `TrimStart('\\').Replace('\\', '_')`: the path after its leading backslashes, character for character, with each remaining '\\' turned into '_' |
| Report.UncUnderscoredOf | Program.cs:308 | `\\server\rest` with no further '\\' becomes `server_rest` before '$' is removed |
| Report.UncAdminShare | Program.cs:306-308 | an administrative share `\\server\share$` becomes `server_share` when neither part holds '\\' or '$' and the server is not empty |
| Report.Sanitized | Program.cs:317-322 | same length as the input, each invalid character replaced by '_' and every other character kept in place |
| Report.SanitizedStep | Program.cs:319-322 | one more pass of the replacement loop extends the sanitization by one more invalid character |
| Text.IndexOf | Program.cs:30 | the index of the first occurrence of a character, or -1 exactly when it is absent |
| Text.Split | Program.cs:128 | `Split` gives at least one piece and no piece holds the separator |
| Text.JoinSplit | Program.cs:128 | joining the pieces of a split with the separator gives back the string |
| Text.SplitJoin | Program.cs:128 | splitting a join of separator-free pieces gives back the pieces |
| Text.TrimBoth | Program.cs:129-131 | `Trim`: the result is a slice `s[a..b]` where everything before `a` and from `b` on is a trimmed character, and the slice is empty or starts and ends with a kept character |
| Text.TrimBothInTwoSteps | Program.cs:129-131 | trimming both ends is trimming the start, then the end |
| Text.TrimBothKeepsOut | Program.cs:129-131 | trimming adds no character |
| Text.RemoveChar | Program.cs:308 | the result holds no copy of the removed character and only characters of the input; a string without that character is returned unchanged |
| Text.RemoveCharAppend | Program.cs:308 | removal works piece by piece (the result for `a + b` is the result for `a` followed by that for `b`), so every other character stays, in order |
| Text.ReplaceChar | Program.cs:308-321 | `Replace` of one character: same length, each occurrence of `from` becomes `to` and every other character is kept in place |
| Text.StartsWithIgnoreCaseFolded | Program.cs:144 | the case-insensitive prefix test depends only on the case-folded strings |
| Text.TrimStart | Program.cs:308 | `TrimStart`: a suffix of the input; every character cut is a trimmed one and a non-empty result starts with a kept character |
| Text.TrimEnd | Program.cs:314 | `TrimEnd`: a prefix of the input; every character cut is a trimmed one and a non-empty result ends with a kept character |
| Text.ToLower | Program.cs:33 | `key.ToLower()`: same length, each character lower-cased in place |
| Text.EqualsIgnoreCasePointwise | Program.cs:156 | `Equals(…, OrdinalIgnoreCase)` holds exactly when both strings have the same length and agree, position by position, after case folding |
| Text.StartsWithIgnoreCasePointwise | Program.cs:144 | `StartsWith(…, OrdinalIgnoreCase)` holds exactly when the prefix is no longer than the string and agrees with its first characters, position by position, after case folding |
| Text.ContainsIgnoreCase | Program.cs:157 | the empty string occurs in every string (IndexOf returns 0), and a string found in another is no longer than it |

## Left out

- The file branch of `ParseInputToList` (Program.cs:111-124) is not modelled. There, a value naming an existing file is read line by line, and a read error ends the process. The model always takes the comma or single-value branch.
- All console output is left out: the banner, the option echo, the help text, the verbose messages and the error messages. `--verbose` is parsed, but it changes no result.
- Building and saving the Excel package is left out. The workbook is represented by its file name, sheet name, header and data rows.
- Each operating-system call is a field of `Host`, so its answer is a parameter. The model assumes that calling it twice on the same input gives the same answer. The opsec check in `OutputToConsoleAndExcel` repeats the fetch made during the traversal; real file systems can change between the two.
- The model assumes `FileInfo.FullName` returns the string `Path.GetFullPath` gave it.
- `Text.ToLower`: case-insensitive comparison and `key.ToLower()` fold only ASCII letters. Ordinal ignore-case and culture lower-casing of other characters are not modelled. The model assumes a current culture that lowers 'I' to 'i' (under a Turkish or Azeri culture `--DIRECTORY` would not be recognised) and that compares '\\' and ':' ordinally in the culture-sensitive `StartsWith("\\\\")` and `EndsWith(":\\")` of `MakeValidFileName`.
- Walker.NormalizeAll: `Path.GetFullPath` (Program.cs:138) throws for an empty or all-white-space exclusion entry, which `--exclude=` or `--exclude=a, ,b` produce (Program.cs:31, 125-131). Nothing catches it, so the source ends the run at the first existing root and saves no workbook. The model treats `fullPath` as total and carries on; `Cli.Run` therefore does not promise that ending, and an entry that normalizes to "" excludes every file (`PathFilter.EmptyExclusionExcludesAll`).
- An exception while enumerating a directory, or from `IsInRole` on one rule, is not modelled separately. A failed fetch of a file's rules is modelled as `None`.
- `Report.RootRewrite`: the UNC branch writes `.Replace('$', '')`, which is not valid C# (an empty character literal). The model follows the comment on that line and removes every '$'.
- `Report.MakeValidFileName`: the variable `cleanDirectory` (Program.cs:245) holds a second call with the same result and is never used, so it is not modelled.
- `Report.MakeValidFileName`: "no invalid character remains" is stated only when '_' is not itself invalid, because the replacement character would otherwise reintroduce one.

# Protego security-policy engine, modelled in Dafny

Protego checks a Windows machine against a hardening level and brings it into
line. This project models the core of that engine:

- **The catalog and the levels.** The policy catalog (`WIN_FLAGS`) and the
  strict, medium and easy levels are Dafny constants (`WinFlags`,
  `WinConfigs`).
- **The check pass.** `WinEngine.check_compliance` runs one bulk `secedit`
  export. It then visits the catalog-known policies of the level in order and
  reads each current value by the policy's strategy: an INF line scan, an
  `sc qc` start-type match, or a `netsh` substring test (`Extract`). It
  judges each value against the target, ignoring case, removes the export and
  writes a "CHECK" report.
- **Hardening.** `WinEngine.harden_system` takes a backup first and stops if
  the backup fails. Otherwise it configures services, applies the
  account-policy template through `secedit /configure`, configures the
  firewall, renames the administrator, re-checks and writes a "HARDEN"
  report.
- **Rollback.** `WinEngine.rollback` restores the remembered backup, or else
  the greatest `.inf` name in `backups`.
- **Backup and restore.** `rollback.py` provides these (`Snapshot`). The
  backup files carry a fixed-width time stamp, so sorting their names sorts
  them by time.
- **The text report.** `create_compliance_report` builds the report with its
  success and failure counts (`Reporting`).
- **The Linux flag table.** `protego_utils.py` provides a first-match lookup
  and an in-place update of a flag's value (`LinuxFlags`).

The machine is a `Host` object:

- It holds the files, the directories, the log of commands run so far and the
  number of clock readings so far.
- What a command does is given by an oracle, `Env.respond`. For the machine as
  it stands, the oracle gives the command's exit code, its output and the
  files it writes.
- The clock (`Env.clock`) and the set of paths that cannot be opened for
  writing (`Env.unwritable`) are parameters too.

The model is written in two layers:

- Every method that drives the machine is proved equal to a function in
  `EngineSpec`, `Snapshot` or `Reporting`. That function maps the machine
  before the call, and the engine's own fields, to their state afterwards.
- Those functions take the catalog as a parameter. The engine object holds
  `WinFlags` as its catalog, so its methods follow them for the shipped
  catalog. Lemmas that depend on the catalog's contents either require the
  few entries they use or are stated for `WinFlags` itself.
- Lemmas about those functions state what the program promises.

Behaviour of the code worth noting:

- A missing export file gives the value `"INF File Missing"`, not "N/A".
- The INF scan stops at the first matching line.
- Level entries that are not in the catalog are skipped silently. They are not
  a fatal error.
- A rollback that finds no backup prints a message and does nothing.
- A hardening run that stops because its backup failed writes no report.

## Model

| member | source | states |
|---|---|---|
| WinFlags.Lookup | PROTEGO/engines/win_engine.py:51 | `WIN_FLAGS.get(category, {}).get(name)`: a definition exactly when the category and the name are in the catalog, and then the catalog's own entry |
| WinFlags.AccountPoliciesParseInf | PROTEGO/win_flags.py:8-27 | every account policy is read by INF parsing and has no apply command of its own |
| WinFlags.ServicesQueryStartType | PROTEGO/win_flags.py:30-52 | every service is read by `sc qc`, has target "4" and has an apply command |
| WinFlags.FirewallQueriesNetsh | PROTEGO/win_flags.py:55-70 | every firewall setting is read by `netsh` and has an apply command |
| WinFlags.AdminRenameIsNetUser | PROTEGO/win_flags.py:73-80 | the administrator rename uses the `NET_USER` strategy, which no check branch handles, and has an apply command |
| WinFlags.PolicyNamesUnique | PROTEGO/win_flags.py:6-82 | no policy name occurs in two categories, so a lookup by name is unambiguous |
| WinConfigs.Names | PROTEGO/engines/win_engine.py:146 | `config.get(category, [])`: empty when no entry names the category |
| WinConfigs.NamesFirstEntry | PROTEGO/engines/win_engine.py:146 | `config.get(category, [])`: the list of the first entry that names the category |
| WinConfigs.SelectedInExactly | PROTEGO/engines/win_engine.py:50-52 | the policies visited in a category are exactly its catalog-known names, each with its catalog definition |
| WinConfigs.SelectedSound | PROTEGO/engines/win_engine.py:49-52 | every policy a check visits is listed under its category by the level and carries the catalog's own definition |
| WinConfigs.SelectedComplete | PROTEGO/engines/win_engine.py:49-52 | every catalog-known name the level lists under a category is visited |
| WinConfigs.SelectedExactly | PROTEGO/engines/win_engine.py:49-52 | the policies a check visits are exactly the catalog-known (category, name) pairs of the level |
| WinConfigs.StrongCount | PROTEGO/win_configs.py:3-28 | with any catalog that knows the strict names the shipped one knows, the strict level yields 9 results |
| WinConfigs.MediumCount | PROTEGO/win_configs.py:30-41 | with such a catalog, the medium level yields 4 results |
| WinConfigs.EasyCount | PROTEGO/win_configs.py:43-47 | with such a catalog, the easy level yields 1 result |
| WinConfigs.LevelResultCounts | PROTEGO/win_configs.py:3-47 | with the shipped catalog, a check yields 9 results at strict, 4 at medium and 1 at easy |
| WinConfigs.StrictNamesUnknownPolicies | PROTEGO/win_configs.py:7-21 | the strict level lists `MaximumPasswordAge`, `Browser` and `public_state`, and the catalog has none of them |
| WinConfigs.LevelsNested | PROTEGO/win_configs.py:3-47 | in every category, easy ⊆ medium ⊆ strict |
| WinConfigs.EasyIsAccountPolicyOnly | PROTEGO/win_configs.py:43-47 | the easy level lists no category other than account policies |
| WinConfigs.LevelsHaveNoDuplicates | PROTEGO/win_configs.py:3-47 | no level repeats a category, and no category list repeats a name |
| Text.Upper | PROTEGO/engines/win_engine.py:79 | `str.upper()`: the same length, with every character upper-cased |
| Text.StripLeftRemovesSpaces | PROTEGO/engines/win_engine.py:64 | `lstrip` removes exactly the longest run of leading whitespace |
| Text.StripRightRemovesSpaces | PROTEGO/engines/win_engine.py:64 | `rstrip` removes exactly the longest run of trailing whitespace |
| Text.StripTrims | PROTEGO/engines/win_engine.py:30 | what `strip` leaves neither starts nor ends with whitespace |
| Text.AfterLast | PROTEGO/engines/win_engine.py:65 | `split('=')[-1]`: the suffix after the last separator; it holds no separator, and it is the whole text when the separator does not occur |
| Text.Lines | PROTEGO/engines/win_engine.py:63 | iterating a text file: the lines joined back together are the file's text |
| Text.LinesShape | PROTEGO/engines/win_engine.py:63 | no line is empty; every line but the last ends in its only newline |
| Text.Decimal | windows_cli/utils/reporting.py:36-38 | `str(n)`: non-empty, all digits, and a leading zero only for 0 |
| Text.DecimalRoundTrip | windows_cli/utils/reporting.py:36-38 | reading back the digits of `str(n)` gives `n` |
| Text.DecimalInjective | windows_cli/utils/reporting.py:36-38 | different counts are printed differently |
| Text.Pad | PROTEGO_WINDOWS/utils/rollback.py:13 | a `strftime` numeric field has exactly `w` characters |
| Text.PadDigits | PROTEGO_WINDOWS/utils/rollback.py:13 | every character of a `strftime` numeric field is a digit |
| Text.PadOrder | PROTEGO_WINDOWS/utils/rollback.py:13 | zero-padded fields of equal width compare as strings exactly as the numbers do |
| Text.PadInjective | PROTEGO_WINDOWS/utils/rollback.py:13 | different numbers below 10^w have different padded forms |
| Text.LexLessTotal | PROTEGO/engines/win_engine.py:122 | Python's string order relates any two different strings |
| Text.LexLessTransitive | PROTEGO/engines/win_engine.py:122 | Python's string order is transitive |
| Text.LexLessConcat | PROTEGO/engines/win_engine.py:122 | comparing two strings whose prefixes have equal length compares the prefixes first |
| Text.GreatestUnique | PROTEGO/engines/win_engine.py:122 | a set of names has at most one greatest element |
| Text.Greatest | PROTEGO/engines/win_engine.py:122 | `sorted(names, reverse=True)[0]`: an element of the set that is greater than every other one |
| Clock.BackupStampOrder | PROTEGO_WINDOWS/utils/rollback.py:13 | comparing two `%Y%m%d_%H%M%S` stamps as strings is the same as comparing the moments |
| Host.Reply | PROTEGO/engines/win_engine.py:30-35 | the text `__run_cli` returns is never longer than the stream it is stripped from: standard output on success, standard error on failure |
| Host.ReplyTrims | PROTEGO/engines/win_engine.py:30-35 | the text `__run_cli` returns is the chosen stream (standard output on success, standard error on failure) with exactly its leading and trailing whitespace removed: a slice of it outside which every character is a space |
| Host.ExecChangesLogAndFiles | PROTEGO/engines/win_engine.py:24-37 | running a command logs it and adds the files the command writes; nothing else about the machine changes |
| Host.Host.Run | PROTEGO/engines/win_engine.py:24-37 | `__run_cli`: the machine moves as `Exec` says; the flag is exit code 0, and the text is `Reply` |
| Host.Host.Write | PROTEGO/engines/win_engine.py:143 | `open(path, 'w')`: stores the content, or raises `IOError` and leaves the machine unchanged |
| Host.Host.Remove | PROTEGO/engines/win_engine.py:94 | `os.remove` of an existing file drops exactly that file |
| Host.Host.MakeDirs | PROTEGO_WINDOWS/utils/rollback.py:18 | `os.makedirs(..., exist_ok=True)` adds the directory and changes nothing else |
| Extract.FirstLineFor | PROTEGO/engines/win_engine.py:63-66 | the loop that stops at the first line whose stripped text starts with the policy name; none only when no line does |
| Extract.InfValue | PROTEGO/engines/win_engine.py:59-68 | a missing export file gives "INF File Missing" |
| Extract.InfValueFirstLine | PROTEGO/engines/win_engine.py:59-68 | with the export present: "N/A" when no line is for the policy, otherwise the stripped text after the last `=` of the first line that is |
| Extract.SpacesEnd | PROTEGO/engines/win_engine.py:73 | `\s+` taken greedily: the end of the run of whitespace at `i` |
| Extract.DigitsEnd | PROTEGO/engines/win_engine.py:73 | `\d+` taken greedily: the end of the run of digits at `i` |
| Extract.StartTypeAt | PROTEGO/engines/win_engine.py:73 | a match of `START_TYPE\s+:\s+(\d+)` at position `p` means the label, one or more whitespace characters, a colon, one or more whitespace characters and a maximal run of digits stand at `p`, and the match captures exactly that run (`StartTypeAtRuns` is the converse) |
| Extract.FirstStartType | PROTEGO/engines/win_engine.py:73 | `re.search`: the leftmost position where the pattern matches; none only when it matches nowhere |
| Extract.ScValue | PROTEGO/engines/win_engine.py:70-74 | "N/A" for a failed query or no match, otherwise the digits captured at the leftmost match |
| Extract.StartTypeCaptures | PROTEGO/engines/win_engine.py:70-74 | when the label, whitespace, colon, whitespace and digits stand at position `p` and the pattern matches nowhere before `p`, whatever text precedes it, `re.search` finds `p` and the value read is exactly those digits |
| Extract.SpelledStartType | PROTEGO/engines/win_engine.py:70-74 | output of the form `START_TYPE<spaces>:<spaces><digits><rest>`, with `rest` not starting with a digit, matches at its head and yields exactly those digits |
| Extract.FirstStartTypeAt | PROTEGO/engines/win_engine.py:73 | `re.search` returns a matching position when the pattern matches at none before it |
| Extract.StartTypeAtRuns | PROTEGO/engines/win_engine.py:73 | at any position, the label, whitespace, colon, whitespace and a maximal run of digits make the pattern match there and capture that run |
| Extract.NetshValue | PROTEGO/engines/win_engine.py:76-82 | "N/A" for a failed query; for a successful one, the target when the output contains it (ignoring case), else "INCORRECT SETTING" |
| Extract.NetshCompliantIff | PROTEGO/engines/win_engine.py:76-85 | a successful firewall query is compliant exactly when the output shows the target, or the target is itself the marker; a failed one only when the target is "N/A" |
| Extract.StatusOf | PROTEGO/engines/win_engine.py:84-85 | the status is always "COMPLIANT" or "NON-COMPLIANT" |
| Extract.StatusIgnoresCase | PROTEGO/engines/win_engine.py:84-85 | "COMPLIANT" exactly when current and target are equal character by character up to case |
| Reporting.Field | windows_cli/utils/reporting.py:19 | `result.get(key, 'N/A')` |
| Reporting.CountsPartition | windows_cli/utils/reporting.py:15-26 | the compliant and non-compliant counts add up to the number of results |
| Reporting.SuccessIndicesStep | windows_cli/utils/reporting.py:19-23 | one more result adds one to the number of successful positions exactly when its status is a success |
| Reporting.CountSuccessCounts | windows_cli/utils/reporting.py:19-23 | the success count is the number of results whose status is exactly "COMPLIANT" or "SUCCESS" |
| Reporting.ReportStep | windows_cli/utils/reporting.py:18-26 | one more loop iteration appends that result's block to the text and adds it to exactly one of the two counters |
| Reporting.ReportShape | windows_cli/utils/reporting.py:10-38 | a report exists exactly when every result has a policy; it opens with the command line and ends with a summary whose counts add up to the total |
| Reporting.BuildReport | windows_cli/utils/reporting.py:10-38 | the loop that builds the text and the two counters gives the report text, or none at the first result without a policy |
| Reporting.ReportWritesOnlyItsFile | windows_cli/utils/reporting.py:6-44 | a report reads the clock once and touches only its own file; it succeeds exactly when every result has a policy and the file can be opened, and the file then holds the report dated at that moment |
| Reporting.CreateComplianceReport | windows_cli/utils/reporting.py:6-44 | the method follows `ReportSpec` |
| Snapshot.BackupNamesSortByTime | PROTEGO_WINDOWS/utils/rollback.py:11-14 | two backup names of the same file compare as strings exactly as their moments do |
| Snapshot.BackupSuffixes | PROTEGO_WINDOWS/utils/rollback.py:9-28 | the policy backup ends in `.inf`; the registry backup does not |
| Snapshot.BackupSucceedsIffExport | PROTEGO_WINDOWS/utils/rollback.py:16-37 | a backup creates `backups`, and returns a path exactly when the policy export succeeds; that path is named after the first clock reading |
| Snapshot.BackupCommandLog | PROTEGO_WINDOWS/utils/rollback.py:16-37 | a failed export stops the backup after one command and one clock reading; otherwise the registry export follows, whatever its result |
| Snapshot.RestoreMissingIsNoOp | PROTEGO_WINDOWS/utils/rollback.py:41-43 | restoring from a missing file changes nothing and runs nothing |
| Snapshot.RestoreRunsOneImport | PROTEGO_WINDOWS/utils/rollback.py:45-60 | restoring from an existing file runs one import and leaves no scratch database; it succeeds exactly when the import does |
| Snapshot.BackupWindowsState | PROTEGO_WINDOWS/utils/rollback.py:16-37 | the method follows `BackupSpec` |
| Snapshot.RollbackWindowsState | PROTEGO_WINDOWS/utils/rollback.py:39-60 | the method follows `RestoreSpec` |
| EngineSpec.AsRecord | PROTEGO/engines/win_engine.py:87-92 | the appended dictionary carries the result's policy, status, current value and target, and no "previous" field |
| EngineSpec.Records | PROTEGO/engines/win_engine.py:96 | the results handed to the report, one record each, in order, each with a policy |
| EngineSpec.CheckAllResults | PROTEGO/engines/win_engine.py:49-92 | one result per visited policy, in order, naming the policy and its target; "COMPLIANT" exactly when current equals target up to case, otherwise "NON-COMPLIANT"; a `NET_USER` policy always reads "N/A" |
| EngineSpec.CheckAllStep | PROTEGO/engines/win_engine.py:49-92 | one more visited policy reads its value on the machine the previous ones left and appends one judged result |
| EngineSpec.CheckAllLog | PROTEGO/engines/win_engine.py:49-82 | the check loop runs exactly the queries of its `SC_QUERY` and `NETSH_FW` policies, in order |
| EngineSpec.CheckPassLog | PROTEGO/engines/win_engine.py:43-94 | a check pass runs the bulk export once, then the queries, and leaves no export file |
| EngineSpec.AdminRenameNeverCompliant | PROTEGO/engines/win_engine.py:59-85 | no check pass reports the administrator rename compliant; its current value is always "N/A" |
| EngineSpec.CheckReportCountsCompliant | PROTEGO/engines/win_engine.py:96 | the success count of a check report is the number of "COMPLIANT" results |
| EngineSpec.RunAllLog | PROTEGO/engines/win_engine.py:180-197 | an apply loop runs exactly its commands, in order, whatever each returns |
| EngineSpec.ApplySeceditEffect | PROTEGO/engines/win_engine.py:133-177 | the secedit step returns without running anything when the template cannot be opened; otherwise it runs one command and leaves neither the template nor the database |
| EngineSpec.RemediateLog | PROTEGO/engines/win_engine.py:109-112 | remediation runs the service commands, secedit, the firewall commands and the rename, in that order |
| EngineSpec.HardenStopsWithoutBackup | PROTEGO/engines/win_engine.py:102-105 | a failed backup ends the run after the one failed export: the machine is left exactly as the failed backup left it, so no report is written; the backup path is cleared and the results are kept |
| EngineSpec.RemediateThenCheckLog | PROTEGO/engines/win_engine.py:109-115 | remediation followed by a check pass runs the remediation commands, then the bulk export, then the queries |
| EngineSpec.CheckSpecResults | PROTEGO/engines/win_engine.py:41-97 | writing the "CHECK" report changes neither the results of the pass nor the commands it ran |
| EngineSpec.HardenReportKeeps | PROTEGO/engines/win_engine.py:115-117 | after the re-check, the engine keeps the backup path and the re-check's results, whether or not a report was written, and the report runs no command |
| EngineSpec.HardenCommandOrder | PROTEGO/engines/win_engine.py:99-117 | after a backup, the final command log is the backup's, then the remediation commands, then a full check pass, and nothing after it; the run keeps the backup path and the results of that check |
| EngineSpec.HardenWritesBothReports | PROTEGO/engines/win_engine.py:114-116 | a hardening run that finishes holds the "CHECK" report named after the clock reading right after its re-check and the "HARDEN" report named after the reading two later |
| EngineSpec.RecheckWritesBothReports | PROTEGO/engines/win_engine.py:114-116 | from any state after remediation, a finished run holds both reports, "CHECK" stamped before "HARDEN" |
| EngineSpec.CheckReportWritten | PROTEGO/engines/win_engine.py:95 | `check_compliance` reads the clock twice after its pass; a written report is named after the first reading |
| EngineSpec.HardenReportWritten | PROTEGO/engines/win_engine.py:116 | a finished run keeps every earlier file and adds the "HARDEN" report of the re-check's results, named after the next reading and dated with the one after |
| EngineSpec.RenameAtEveryLevel | PROTEGO/engines/win_engine.py:199-205 | the administrator rename runs whatever the level |
| EngineSpec.StrictTemplateFor | PROTEGO/engines/win_engine.py:143-154 | for any catalog that gives the strict account policies the shipped targets, the strict template is the header and those lines in order |
| EngineSpec.StrictTemplate | PROTEGO/engines/win_engine.py:143-154 | the strict template is the section header and the three catalog-known account policies, in order, unquoted |
| EngineSpec.EmptyTemplateWithoutAccountPolicies | PROTEGO/engines/win_engine.py:146-147 | a level without account policies writes an empty template |
| EngineSpec.RollbackUsesRememberedPath | PROTEGO/engines/win_engine.py:121-127 | a remembered backup path is restored as it is, without a listing |
| EngineSpec.RollbackWithoutBackupDir | PROTEGO/engines/win_engine.py:122 | with no remembered path and no `backups` directory, the listing raises before anything happens |
| EngineSpec.RollbackChoosesLatest | PROTEGO/engines/win_engine.py:122-124 | among policy backups next to registry backups, the chosen name is that of the latest policy backup |
| Engine.ParseInf | PROTEGO/engines/win_engine.py:62-66 | the line loop with early exit gives `InfValue` of the file |
| Engine.TemplateText | PROTEGO/engines/win_engine.py:143-154 | the text written line by line is the template `InfContent` |
| Engine.LatestName | PROTEGO/engines/win_engine.py:122 | the name it picks is greater than every other name in the set |
| Engine.WinEngine.constructor | PROTEGO/engines/win_engine.py:17-22 | a new engine has no results and no backup path |
| Engine.WinEngine.ObserveCurrent | PROTEGO/engines/win_engine.py:58-82 | reading one policy's value follows `Observe` |
| Engine.WinEngine.VisitCategory | PROTEGO/engines/win_engine.py:50-92 | the inner loop appends the results of exactly the category's catalog-known names, in order, as `CheckAll` says |
| Engine.WinEngine.VisitLevel | PROTEGO/engines/win_engine.py:49-92 | the outer loop gives `CheckAll` of the level's selected policies |
| Engine.WinEngine.CheckCompliance | PROTEGO/engines/win_engine.py:41-97 | the nested loops, the cleanup and the report follow `CheckSpec`; the returned list is the new `results`; the backup path is unchanged |
| Engine.WinEngine.ConfigureServices | PROTEGO/engines/win_engine.py:180-187 | runs the apply command of every listed service that has one, in order |
| Engine.WinEngine.ConfigureFirewall | PROTEGO/engines/win_engine.py:189-197 | runs the apply command of every listed firewall setting that has one, in order |
| Engine.WinEngine.PerformOtherActions | PROTEGO/engines/win_engine.py:199-205 | runs the administrator rename |
| Engine.WinEngine.ApplySeceditPolicies | PROTEGO/engines/win_engine.py:133-177 | follows `ApplySecedit` |
| Engine.WinEngine.HardenSystem | PROTEGO/engines/win_engine.py:99-117 | follows `HardenSpec` for the machine and for the engine's fields |
| Engine.WinEngine.Rollback | PROTEGO/engines/win_engine.py:119-129 | follows `RollbackSpec` for the machine and for the engine's fields |
| LinuxFlags.FindIn | linux_cli/protego_utils.py:25-27 | the inner loop: the first index from `f` on whose key is the name; none only when no key from `f` on is |
| LinuxFlags.FindFrom | linux_cli/protego_utils.py:24-27 | the outer loop: a position holding the name, before which (from category `c` on) no flag has the name; none only when no flag does |
| LinuxFlags.Find | linux_cli/protego_utils.py:23-28 | the first flag with the name in category-then-flag order; none only when no category holds it |
| LinuxFlags.LookupFindsFirst | linux_cli/protego_utils.py:23-28 | `get_flag` returns the first flag with the name and that flag's own category, or `None` exactly when no category holds it |
| LinuxFlags.Replace | linux_cli/protego_utils.py:40 | updating one flag in place changes that flag and no other; the categories and keys stay |
| LinuxFlags.FirstMatchUnique | linux_cli/protego_utils.py:23-28 | there is only one first match |
| LinuxFlags.FindSameShape | linux_cli/protego_utils.py:23-28 | the lookup depends only on the keys, so updating flag values does not move it |
| LinuxFlags.SetFlagEffect | linux_cli/protego_utils.py:30-44 | an unknown flag raises; an equal value, or a value without a set command, changes nothing and runs nothing; otherwise exactly the first flag of that name takes the value, its command runs once and no other flag changes |
| LinuxFlags.SetFlagIdempotent | linux_cli/protego_utils.py:35-40 | setting the same value twice equals setting it once; the second call finds the value already there |
| LinuxFlags.PrintFlag | linux_cli/protego_utils.py:12-20 | `print_flag` shows the first flag with the name and its category exactly when one exists; otherwise it raises; it never reaches "No flag named" |
| LinuxFlags.GetAfterSet | linux_cli/protego_utils.py:23-40 | after a successful update, the lookup returns the flag with the new value, in the same category |
| LinuxFlags.UnknownFlagCrashes | linux_cli/protego_utils.py:12-33 | as written, an unknown flag raises in both `print_flag` and `set_flag`; the not-found branches are never reached |
| LinuxFlags.IntendedReportsUnknown | linux_cli/protego_utils.py:12-34 | the intended versions never raise: they report an unknown flag and change nothing, and they agree with the code on known flags |
| LinuxFlags.FlagTable.constructor | linux_cli/protego_utils.py:1 | the table starts as given, with no commands run |
| LinuxFlags.FlagTable.GetFlag | linux_cli/protego_utils.py:23-28 | the nested loops with early return give `Lookup` of the table |
| LinuxFlags.FlagTable.SetFlag | linux_cli/protego_utils.py:30-44 | the table, the command log and the outcome follow `SetSpec` |

## Left out

- **Paths.** Paths are relative to the working directory: `os.path.join(os.getcwd(), x)` is modelled as `x`. The absolute prefix is also dropped from the template, database and restore paths inside the `secedit` command lines.
- **Commands and files.** Command execution is an oracle; `shell=True`, the hidden console window and the text encodings are not modelled. So are the UTF-16 encoding of the template and universal-newline translation when reading files.
- **`__run_cli` when the shell itself is missing.** The `FileNotFoundError` branch is not modelled; every command gets an `Outcome` from the oracle.
- **Failures of file operations.** Only a write that cannot open its file fails. Reads fail only on a missing file. Other `open` errors and a failing `os.remove` are left out.
- **Directories.** `os.path.exists` is modelled on files only. `os.listdir` returns the files directly inside the directory, not its subdirectories.
- **Console output.** Printing, the `verbose` flag, and the output text of failed commands are not modelled.
- **Other entry points.** The GUI, the command-line front ends, PDF export and logging are other components, not part of this model.
- **Text semantics.** Upper-casing and `\d` cover ASCII only; Python's Unicode case mapping and Unicode digits are not modelled. Moments carry four-digit years, so years below 1000, which `strftime` would print with fewer digits, are not modelled.
- Engine.TemplateText: the template is built as one string and written in one step. A failure part-way through the line writes is not modelled; the model writes all of the template or nothing.
- Extract.InfValue: its contract states only the missing-file case. The value read from a present file is stated by the lemma `Extract.InfValueFirstLine`.
- Reporting.Blocks: that appending one result appends one block is used by `BuildReport` through its loop invariant, but it is not stated as a separate lemma.
- **Exit statuses.** `subprocess.run` in `rollback.py` is modelled as a command whose exit code decides `CalledProcessError`. `set_flag` ignores the exit status, so its model takes no command result at all.
- **Linux flag data.** The contents of the Linux flag file (`all_flags.py`) are not modelled: the table is a parameter. As shipped, that file nests one flag's `recommended_value` inside its `set_commands`. The unused `default_configs.py` is not part of this model.
- **Printing-only Linux operations.** `print_all_flags` and `lsconfig` only print the table. They are left out.
- LinuxFlags.PrintFlag: states which flag and category `print_flag` shows. The text it prints is not modelled.
- **Commands only write files.** The command oracle (`Exec`) can add or overwrite files but never deletes a file and never creates or removes a directory. `Snapshot.BackupSucceedsIffExport` relies on this: a command cannot remove the export file it has just written.
- **Exceptions from `sub.run` in `set_flag`.** An exception raised by starting the shell is caught by the same `except`. Only the `KeyError` of a missing command is modelled.

## Findings

| source | as written | input that shows it | evidently intended | confidence | as-written member | corrected member |
|---|---|---|---|---|---|---|
| linux_cli/protego_utils.py:13,28,31 | `get_flag` falls off the end and returns `None` for an unknown flag. `print_flag` and `set_flag` unpack that result, which raises `TypeError`. Their not-found branches (`flag != 0` at line 14, `flag == 0` at line 33) are never reached. | any flag name that no category holds, e.g. any name with an empty table | an unknown flag is reported ("No flag named …") and nothing changes; in `set_flag` this also needs the read of `flag["value"]` at line 32 moved after the `flag == 0` test at line 33, since as written that read would raise first | high; not executed | LinuxFlags.UnknownFlagCrashes | LinuxFlags.IntendedReportsUnknown |

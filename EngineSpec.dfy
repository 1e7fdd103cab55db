/**
  What the Windows engine (`WinEngine`) does to the machine and to its own
  state, as functions from the machine before to the machine after: the
  check pass, the hardening run, the rollback, and their remediation steps.
  The class in module `Engine` is proved to follow these functions.
 */
module EngineSpec {
  import opened Wrappers
  import opened Text
  import opened Clock
  import opened Host
  import opened WinFlags
  import opened WinConfigs
  import opened Extract
  import opened Reporting
  import opened Snapshot

  /** The export file the check pass reads INF-parsed policies from. */
  const TempExportInf := "temp_export.inf"
  /** The policy template a hardening run writes and hands to secedit. */
  const HardenInf := "protego_harden.inf"
  const HardenSdb := "temp.sdb"
  const HardenConfigureCommand :=
    "secedit /configure /cfg \"" + HardenInf + "\" /db \"" + HardenSdb + "\" /overwrite /quiet"

  /** One row of `self.results`. */
  datatype CheckResult = CheckResult(policy: string, status: string, current: string, target: string)

  /** The dictionary the engine appends for a result. */
  function AsRecord(r: CheckResult): (d: Record)
    ensures "policy" in d && d["policy"] == r.policy && Field(d, "status") == r.status
    ensures Field(d, "current") == r.current && Field(d, "target") == r.target
    ensures Field(d, "previous") == NotAvailable
  {
    map["policy" := r.policy, "status" := r.status, "current" := r.current, "target" := r.target]
  }

  function Records(rs: seq<CheckResult>): (ds: seq<Record>)
    ensures |ds| == |rs| && AllHavePolicy(ds)
    ensures forall i :: 0 <= i < |rs| ==> ds[i] == AsRecord(rs[i])
  {
    seq(|rs|, i requires 0 <= i < |rs| => AsRecord(rs[i]))
  }

  /** The engine's own state: `self.results` and `self.backup_path`. */
  datatype EngineState = EngineState(results: seq<CheckResult>, backupPath: Option<string>)

  /** How a run ended: normally, by its own early return, or by an exception
      that escaped it. */
  datatype RunEnd = Finished | Aborted | Raised

  datatype RollbackEnd = RolledBack(outcome: RestoreOutcome) | NoBackupFound | ListingRaised

  // ---------------------------------------------------------------- check

  /** The current value of one policy, and the machine after reading it. An
      INF-parsed policy opens the export file anew; the query strategies run
      their command; a strategy with no branch keeps "N/A". */
  function Observe(env: Env, w: World, e: Entry): (World, string) {
    match e.flag.check
    case InfParse => (w, InfValue(ReadFile(w, TempExportInf), e.name))
    case ScQuery(cmd) =>
      var (w', o) := Exec(env, w, cmd);
      (w', ScValue(Succeeded(o), Reply(o)))
    case NetshFw(cmd) =>
      var (w', o) := Exec(env, w, cmd);
      (w', NetshValue(Succeeded(o), Reply(o), e.flag.target))
    case NetUser(_) => (w, NotAvailable)
  }

  function Judge(e: Entry, current: string): CheckResult {
    CheckResult(e.name, StatusOf(current, e.flag.target), current, e.flag.target)
  }

  /** The loop over the selected policies, in order. */
  function CheckAll(env: Env, w: World, es: seq<Entry>): (World, seq<CheckResult>) {
    if es == [] then (w, [])
    else
      var (w1, rs) := CheckAll(env, w, es[..|es| - 1]);
      var (w2, current) := Observe(env, w1, es[|es| - 1]);
      (w2, rs + [Judge(es[|es| - 1], current)])
  }

  /** The commands the loop runs: the query of every `SC_QUERY` and
      `NETSH_FW` policy, in order. */
  function QueryCommands(es: seq<Entry>): seq<string> {
    if es == [] then []
    else
      var e := es[|es| - 1];
      QueryCommands(es[..|es| - 1])
      + match e.flag.check
        case ScQuery(cmd) => [cmd]
        case NetshFw(cmd) => [cmd]
        case _ => []
  }

  /** The check pass without its report: export, loop, remove the export. */
  function CheckPass(env: Env, w: World, flags: Catalog, config: Config): (World, seq<CheckResult>) {
    var (w1, _) := Exec(env, w, SeceditExportCommand);
    var (w2, rs) := CheckAll(env, w1, Selected(flags, config));
    (Discard(w2, TempExportInf), rs)
  }

  function ComplianceFile(level: string, t: Moment): string {
    "Protego_Compliance_" + level + "_" + CompactStamp(t) + ".txt"
  }

  function RemediationFile(level: string, t: Moment): string {
    "Protego_Remediation_" + level + "_" + CompactStamp(t) + ".txt"
  }

  /** `check_compliance`: the check pass, then the "CHECK" report. The flag
      is false when writing the report raised. */
  function CheckSpec(env: Env, w: World, flags: Catalog, config: Config, level: string): (World, seq<CheckResult>, bool) {
    var (w1, rs) := CheckPass(env, w, flags, config);
    var (w2, t) := Tick(env, w1);
    var (w3, ok) := ReportSpec(env, w2, Records(rs), "CHECK", ComplianceFile(level, t), level);
    (w3, rs, ok)
  }

  // ------------------------------------------------------------ remediation

  /** The apply command of a catalog policy, when it has a non-empty one
      (`if flag_data and flag_data.get('set_command')`). */
  function ApplyCommand(flags: Catalog, category: string, name: string): Option<string> {
    match Lookup(flags, category, name)
    case None => None
    case Some(flag) =>
      match flag.setCommand
      case Some(cmd) => if cmd != "" then Some(cmd) else None
      case None => None
  }

  /** The apply commands of a list of policies, in order; names without one
      are skipped. */
  function ApplyCommands(flags: Catalog, category: string, names: seq<string>): seq<string> {
    if names == [] then []
    else
      ApplyCommands(flags, category, names[..|names| - 1])
      + match ApplyCommand(flags, category, names[|names| - 1])
        case Some(cmd) => [cmd]
        case None => []
  }

  function RunAll(env: Env, w: World, cmds: seq<string>): World {
    if cmds == [] then w else Exec(env, RunAll(env, w, cmds[..|cmds| - 1]), cmds[|cmds| - 1]).0
  }

  /** `_configure_services`, `_configure_firewall`. */
  function ConfigureCategory(env: Env, w: World, flags: Catalog, config: Config, category: string): World {
    RunAll(env, w, ApplyCommands(flags, category, Names(config, category)))
  }

  /** `_perform_other_actions`: the administrator rename, whatever the level. */
  function OtherActionCommands(flags: Catalog): seq<string> {
    match ApplyCommand(flags, "account_name", "Administrator_Rename")
    case Some(cmd) => [cmd]
    case None => []
  }

  /** The `PolicyName = value` lines of the template, for the catalog-known
      account policies of the level, in order. */
  function PolicyLines(flags: Catalog, names: seq<string>): string {
    if names == [] then [] else PolicyLines(flags, names[..|names| - 1]) + PolicyLine(flags, names[|names| - 1])
  }

  /** The template line of one account policy; none for a name the catalog
      does not know. */
  function PolicyLine(flags: Catalog, name: string): string {
    match Lookup(flags, "account_policy", name)
    case Some(flag) => name + " = " + flag.target + "\n"
    case None => []
  }

  /** The template `_apply_secedit_policies` writes: the section header only
      when the level lists account policies at all. */
  function InfContent(flags: Catalog, config: Config): string {
    var names := Names(config, "account_policy");
    if names == [] then [] else "[System Access]\n" + PolicyLines(flags, names)
  }

  /** `_apply_secedit_policies`: write the template, run secedit on it, remove
      the template and the database. When the template cannot be opened the
      step returns before anything else. */
  function ApplySecedit(env: Env, w: World, flags: Catalog, config: Config): World {
    var (w1, written) := WriteFile(env, w, HardenInf, InfContent(flags, config));
    if !written then w
    else
      var (w2, _) := Exec(env, w1, HardenConfigureCommand);
      Discard(Discard(w2, HardenInf), HardenSdb)
  }

  /** The remediation steps, in the order `harden_system` calls them. */
  function Remediate(env: Env, w: World, flags: Catalog, config: Config): World {
    var w1 := ConfigureCategory(env, w, flags, config, "service_control");
    var w2 := ApplySecedit(env, w1, flags, config);
    var w3 := ConfigureCategory(env, w2, flags, config, "firewall");
    RunAll(env, w3, OtherActionCommands(flags))
  }

  /** `harden_system`. */
  function HardenSpec(env: Env, w: World, s: EngineState, flags: Catalog, config: Config, level: string)
    : (World, EngineState, RunEnd)
  {
    var (w1, backup) := BackupSpec(env, w);
    if backup.None? then (w1, s.(backupPath := None), Aborted)
    else RecheckAndReport(env, Remediate(env, w1, flags, config), backup.value, flags, config, level)
  }

  /** `harden_system` once the remediation steps have run: the re-check and
      the "HARDEN" report. */
  function RecheckAndReport(env: Env, w: World, backup: string, flags: Catalog, config: Config, level: string)
    : (World, EngineState, RunEnd)
  {
    var (w3, rs, checked) := CheckSpec(env, w, flags, config, level);
    HardenReport(env, w3, rs, checked, backup, level)
  }

  /** The end of `harden_system`, after its check pass: the "HARDEN" report,
      unless writing the check report raised. */
  function HardenReport(env: Env, w: World, rs: seq<CheckResult>, checked: bool, backup: string, level: string)
    : (World, EngineState, RunEnd)
  {
    if !checked then (w, EngineState(rs, Some(backup)), Raised)
    else
      var (w1, t) := Tick(env, w);
      var (w2, reported) := ReportSpec(env, w1, Records(rs), "HARDEN", RemediationFile(level, t), level);
      (w2, EngineState(rs, Some(backup)), if reported then Finished else Raised)
  }

  // --------------------------------------------------------------- rollback

  /** The names in `backups` that end in `.inf`. */
  function InfNames(names: set<string>): set<string> {
    set n | n in names && EndsWith(n, ".inf")
  }

  /** `rollback`: without a remembered backup, the greatest `.inf` name in
      `backups` is chosen (listing a missing directory raises); then the
      chosen backup is restored. */
  ghost function RollbackSpec(env: Env, w: World, s: EngineState): (World, EngineState, RollbackEnd) {
    if s.backupPath.Some? then
      var (w1, o) := RestoreSpec(env, w, s.backupPath.value);
      (w1, s, RolledBack(o))
    else
      match ListDir(w, BackupDir)
      case None => (w, s, ListingRaised)
      case Some(names) =>
        if InfNames(names) == {} then (w, s, NoBackupFound)
        else
          var path := Join(BackupDir, Greatest(InfNames(names)));
          var (w1, o) := RestoreSpec(env, w, path);
          (w1, s.(backupPath := Some(path)), RolledBack(o))
  }

  // ------------------------------------------------------------ properties

  /** The check loop gives one result per selected policy, in order, naming
      the policy and its target; a result is "COMPLIANT" exactly when its
      current value equals the target up to case, and otherwise
      "NON-COMPLIANT". A policy whose strategy has no branch always reads
      "N/A". */
  lemma {:induction false} CheckAllResults(env: Env, w: World, es: seq<Entry>)
    ensures var rs := CheckAll(env, w, es).1;
      && |rs| == |es|
      && forall i :: 0 <= i < |es| ==>
        && rs[i].policy == es[i].name && rs[i].target == es[i].flag.target
        && (rs[i].status == Compliant <==> Upper(rs[i].current) == Upper(rs[i].target))
        && (rs[i].status == Compliant || rs[i].status == NonCompliant)
        && (es[i].flag.check.NetUser? ==> rs[i].current == NotAvailable)
  {
    if es != [] {
      var n := |es| - 1;
      CheckAllResults(env, w, es[..n]);
      var (w1, rs) := CheckAll(env, w, es[..n]);
      var (w2, current) := Observe(env, w1, es[n]);
      var all := rs + [Judge(es[n], current)];
      assert CheckAll(env, w, es).1 == all;
      forall i | 0 <= i < |es|
        ensures all[i].policy == es[i].name && all[i].target == es[i].flag.target
        ensures all[i].status == Compliant <==> Upper(all[i].current) == Upper(all[i].target)
        ensures all[i].status == Compliant || all[i].status == NonCompliant
        ensures es[i].flag.check.NetUser? ==> all[i].current == NotAvailable
      {
        if i < n {
          assert all[i] == rs[i] && es[i] == es[..n][i];
        }
      }
    }
  }

  /** One more policy in the check loop. */
  lemma CheckAllStep(env: Env, w: World, es: seq<Entry>, e: Entry)
    ensures var (w1, rs) := CheckAll(env, w, es);
      var (w2, current) := Observe(env, w1, e);
      CheckAll(env, w, es + [e]) == (w2, rs + [Judge(e, current)])
  {
    assert (es + [e])[..|es|] == es;
  }

  /** The check loop runs exactly the queries of its policies, in order, and
      neither reads the clock nor creates directories. */
  lemma {:induction false} CheckAllLog(env: Env, w: World, es: seq<Entry>)
    ensures var w' := CheckAll(env, w, es).0;
      w'.issued == w.issued + QueryCommands(es) && w'.dirs == w.dirs && w'.ticks == w.ticks
  {
    if es != [] {
      var n := |es| - 1;
      CheckAllLog(env, w, es[..n]);
    }
  }

  /** The check pass runs the bulk export and then the queries of the
      selected policies, and leaves no export file behind. */
  lemma CheckPassLog(env: Env, w: World, flags: Catalog, config: Config)
    ensures var w' := CheckPass(env, w, flags, config).0;
      && w'.issued == w.issued + [SeceditExportCommand] + QueryCommands(Selected(flags, config))
      && TempExportInf !in w'.files
      && w'.ticks == w.ticks
  {
    var (w1, _) := Exec(env, w, SeceditExportCommand);
    CheckAllLog(env, w1, Selected(flags, config));
  }

  /** The administrator rename has no check branch, so no check pass ever
      reports it compliant. */
  lemma AdminRenameNeverCompliant(env: Env, w: World, config: Config)
    ensures var rs := CheckPass(env, w, WinFlags.WinFlags, config).1;
      forall i :: 0 <= i < |rs| && rs[i].policy == "Administrator_Rename" ==>
        rs[i].status == NonCompliant && rs[i].current == NotAvailable
  {
    var (w1, _) := Exec(env, w, SeceditExportCommand);
    var es := Selected(WinFlags.WinFlags, config);
    CheckAllResults(env, w1, es);
    SelectedExactly(WinFlags.WinFlags, config);
    var rs := CheckAll(env, w1, es).1;
    forall i | 0 <= i < |rs| && rs[i].policy == "Administrator_Rename"
      ensures rs[i].status == NonCompliant && rs[i].current == NotAvailable
    {
      assert es[i] in es;
      AdminRenameEntry(es[i]);
    }
  }

  lemma AdminRenameEntry(e: Entry)
    requires Lookup(WinFlags.WinFlags, e.category, e.name) == Some(e.flag) && e.name == "Administrator_Rename"
    ensures e.flag.check.NetUser? && Upper(NotAvailable) != Upper(e.flag.target)
  {
    PolicyNamesUnique();
    assert e.category == "account_name";
    assert Upper(NotAvailable) == NotAvailable;
    assert Upper("ProtegoAdmin") == "PROTEGOADMIN";
  }

  /** The "Compliant/Success" count of a check report is the number of
      "COMPLIANT" results. */
  lemma CheckReportCountsCompliant(env: Env, w: World, es: seq<Entry>)
    ensures var rs := CheckAll(env, w, es).1;
      CountSuccess(Records(rs)) == |set i | 0 <= i < |rs| && rs[i].status == Compliant|
  {
    CheckAllResults(env, w, es);
    var rs := CheckAll(env, w, es).1;
    var ds := Records(rs);
    CountSuccessCounts(ds);
    assert (set i | 0 <= i < |ds| && IsSuccess(ds[i])) == (set i | 0 <= i < |rs| && rs[i].status == Compliant);
  }

  /** Running a list of commands logs exactly that list. */
  lemma {:induction false} RunAllLog(env: Env, w: World, cmds: seq<string>)
    ensures var w' := RunAll(env, w, cmds);
      w'.issued == w.issued + cmds && w'.dirs == w.dirs && w'.ticks == w.ticks
  {
    if cmds != [] {
      var n := |cmds| - 1;
      RunAllLog(env, w, cmds[..n]);
      assert cmds[..n] + [cmds[n]] == cmds;
    }
  }

  /** The secedit step leaves neither its template nor its database behind
      and runs one command; when the template cannot be written it changes
      nothing at all. */
  lemma ApplySeceditEffect(env: Env, w: World, flags: Catalog, config: Config)
    ensures var w' := ApplySecedit(env, w, flags, config);
      && (HardenInf in env.unwritable ==> w' == w)
      && (HardenInf !in env.unwritable ==>
        HardenInf !in w'.files && HardenSdb !in w'.files
        && w'.issued == w.issued + [HardenConfigureCommand]
        && w'.dirs == w.dirs && w'.ticks == w.ticks)
  {
  }

  /** The commands of the remediation steps, in the order they run. */
  function RemediationCommands(env: Env, w: World, flags: Catalog, config: Config): seq<string> {
    ApplyCommands(flags, "service_control", Names(config, "service_control"))
    + (if HardenInf in env.unwritable then [] else [HardenConfigureCommand])
    + ApplyCommands(flags, "firewall", Names(config, "firewall"))
    + OtherActionCommands(flags)
  }

  lemma RemediateLog(env: Env, w: World, flags: Catalog, config: Config)
    ensures var w' := Remediate(env, w, flags, config);
      w'.issued == w.issued + RemediationCommands(env, w, flags, config) && w'.ticks == w.ticks
  {
    var services := ApplyCommands(flags, "service_control", Names(config, "service_control"));
    var secedit := if HardenInf in env.unwritable then [] else [HardenConfigureCommand];
    var firewall := ApplyCommands(flags, "firewall", Names(config, "firewall"));
    var other := OtherActionCommands(flags);
    var w1 := ConfigureCategory(env, w, flags, config, "service_control");
    RunAllLog(env, w, services);
    var w2 := ApplySecedit(env, w1, flags, config);
    ApplySeceditEffect(env, w1, flags, config);
    assert w2.issued == w1.issued + secedit && w2.ticks == w.ticks;
    var w3 := ConfigureCategory(env, w2, flags, config, "firewall");
    RunAllLog(env, w2, firewall);
    RunAllLog(env, w3, other);
    assert Remediate(env, w, flags, config) == RunAll(env, w3, other);
    assert RemediationCommands(env, w, flags, config) == services + secedit + firewall + other;
    AppendFour(w.issued, services, secedit, firewall, other);
  }

  lemma AppendFour(x: seq<string>, a: seq<string>, b: seq<string>, c: seq<string>, d: seq<string>)
    ensures x + a + b + c + d == x + (a + b + c + d)
  {
  }

  /** A hardening run whose backup fails stops there: it runs only the
      failed export, forgets any earlier backup path and keeps its results. */
  lemma HardenStopsWithoutBackup(env: Env, w: World, s: EngineState, flags: Catalog, config: Config, level: string)
    requires BackupSpec(env, w).1.None?
    ensures var (w', s', end) := HardenSpec(env, w, s, flags, config, level);
      && end == Aborted && s'.results == s.results && s'.backupPath == None
      && w'.issued == w.issued + [ExportCommand(TimestampedPath(env.clock(w.ticks), BackupInfName))]
      && w' == BackupSpec(env, w).0
  {
    BackupCommandLog(env, w);
  }

  /** After a successful backup a hardening run applies the services, the
      account-policy template, the firewall and the administrator rename, in
      that order, then runs a full check pass, and runs nothing after it; it
      keeps the backup path and the results of that check. */
  lemma HardenCommandOrder(env: Env, w: World, s: EngineState, flags: Catalog, config: Config, level: string)
    requires BackupSpec(env, w).1.Some?
    ensures var (w', s', end) := HardenSpec(env, w, s, flags, config, level);
      var w1 := BackupSpec(env, w).0;
      && s'.backupPath == BackupSpec(env, w).1
      && s'.results == CheckPass(env, Remediate(env, w1, flags, config), flags, config).1
      && end != Aborted
      && w'.issued == w1.issued + RemediationCommands(env, w1, flags, config)
        + [SeceditExportCommand] + QueryCommands(Selected(flags, config))
  {
    var w1 := BackupSpec(env, w).0;
    var (w3, rs, checked) := CheckSpec(env, Remediate(env, w1, flags, config), flags, config, level);
    CheckSpecResults(env, Remediate(env, w1, flags, config), flags, config, level);
    HardenReportKeeps(env, w3, rs, checked, BackupSpec(env, w).1.value, level);
    RemediateThenCheckLog(env, w1, flags, config);
  }

  /** A hardening run that finishes has written the "CHECK" report of its
      re-check and then the "HARDEN" report: the first file is named after
      the clock reading taken right after the check pass, the second after
      the reading two later (`HardenReportWritten` gives its content). */
  lemma HardenWritesBothReports(env: Env, w: World, s: EngineState, flags: Catalog, config: Config, level: string)
    requires BackupSpec(env, w).1.Some?
    ensures WroteBothReports(env, HardenSpec(env, w, s, flags, config, level),
      CheckPass(env, Remediate(env, BackupSpec(env, w).0, flags, config), flags, config).0.ticks, level)
  {
    var w2 := Remediate(env, BackupSpec(env, w).0, flags, config);
    assert HardenSpec(env, w, s, flags, config, level) == RecheckAndReport(env, w2, BackupSpec(env, w).1.value, flags, config, level);
    RecheckWritesBothReports(env, w2, BackupSpec(env, w).1.value, flags, config, level);
  }

  /** A run that finished and holds the "CHECK" report named after clock
      reading `n` and the "HARDEN" report named after reading `n + 2`. */
  predicate WroteBothReports(env: Env, run: (World, EngineState, RunEnd), n: nat, level: string) {
    run.2 == Finished ==>
      && ComplianceFile(level, env.clock(n)) in run.0.files
      && RemediationFile(level, env.clock(n + 2)) in run.0.files
  }

  /** The end of `harden_system` from the re-check on: when it finishes, the
      "CHECK" file named after the reading right after the pass and the
      "HARDEN" file named after the reading two later are both there. */
  lemma RecheckWritesBothReports(env: Env, w: World, backup: string, flags: Catalog, config: Config, level: string)
    ensures WroteBothReports(env, RecheckAndReport(env, w, backup, flags, config, level), CheckPass(env, w, flags, config).0.ticks, level)
  {
    var (w3, rs, checked) := CheckSpec(env, w, flags, config, level);
    CheckReportWritten(env, w, flags, config, level);
    HardenReportWritten(env, w3, rs, checked, backup, level);
  }

  /** `check_compliance` reads the clock twice after its pass: once for the
      report's file name, once for its date. When the report is written, its
      file is named after the first reading. */
  lemma CheckReportWritten(env: Env, w: World, flags: Catalog, config: Config, level: string)
    ensures var (w', _, ok) := CheckSpec(env, w, flags, config, level);
      var n := CheckPass(env, w, flags, config).0.ticks;
      w'.ticks == n + 2 && (ok ==> ComplianceFile(level, env.clock(n)) in w'.files)
  {
    var (w1, rs) := CheckPass(env, w, flags, config);
    var (w2, t) := Tick(env, w1);
    ReportWritesOnlyItsFile(env, w2, Records(rs), "CHECK", ComplianceFile(level, t), level);
  }

  /** A hardening run that finishes keeps every file it had after its
      re-check and adds the "HARDEN" report, named after the next clock
      reading and dated with the one after. */
  lemma HardenReportWritten(env: Env, w: World, rs: seq<CheckResult>, checked: bool, backup: string, level: string)
    ensures var (w', _, end) := HardenReport(env, w, rs, checked, backup, level);
      end == Finished ==>
        && checked
        && (forall p :: p in w.files ==> p in w'.files)
        && RemediationFile(level, env.clock(w.ticks)) in w'.files
        && Some(w'.files[RemediationFile(level, env.clock(w.ticks))])
          == ReportText(Records(rs), "HARDEN", DisplayStamp(env.clock(w.ticks + 1)), level)
  {
    if checked {
      var (w1, t) := Tick(env, w);
      ReportWritesOnlyItsFile(env, w1, Records(rs), "HARDEN", RemediationFile(level, t), level);
    }
  }

  /** The check pass's results are the ones `check_compliance` returns,
      whatever becomes of its report. */
  lemma CheckSpecResults(env: Env, w: World, flags: Catalog, config: Config, level: string)
    ensures CheckSpec(env, w, flags, config, level).1 == CheckPass(env, w, flags, config).1
    ensures CheckSpec(env, w, flags, config, level).0.issued == CheckPass(env, w, flags, config).0.issued
  {
    var (w1, rs) := CheckPass(env, w, flags, config);
    var (w2, t) := Tick(env, w1);
    ReportWritesOnlyItsFile(env, w2, Records(rs), "CHECK", ComplianceFile(level, t), level);
  }

  /** The report at the end of a hardening run keeps the backup path and the
      check's results, and never reads as an abort. */
  lemma HardenReportKeeps(env: Env, w: World, rs: seq<CheckResult>, checked: bool, backup: string, level: string)
    ensures var (w', s', end) := HardenReport(env, w, rs, checked, backup, level);
      s' == EngineState(rs, Some(backup)) && end != Aborted && w'.issued == w.issued
  {
    if checked {
      var (w1, t) := Tick(env, w);
      ReportWritesOnlyItsFile(env, w1, Records(rs), "HARDEN", RemediationFile(level, t), level);
    }
  }

  /** Remediation followed by a check pass runs the remediation commands,
      the bulk export and the queries, in that order. */
  lemma RemediateThenCheckLog(env: Env, w: World, flags: Catalog, config: Config)
    ensures CheckPass(env, Remediate(env, w, flags, config), flags, config).0.issued
      == w.issued + RemediationCommands(env, w, flags, config) + [SeceditExportCommand] + QueryCommands(Selected(flags, config))
  {
    RemediateLog(env, w, flags, config);
    CheckPassLog(env, Remediate(env, w, flags, config), flags, config);
  }

  /** Whatever the level, hardening renames the administrator account. */
  lemma RenameAtEveryLevel()
    ensures OtherActionCommands(WinFlags.WinFlags) == ["net user Administrator ProtegoAdmin"]
  {
  }

  /** The template of the strict level: the three catalog-known account
      policies, in the level's order, with the unknown one left out. */
  lemma StrictTemplate()
    ensures InfContent(WinFlags.WinFlags, StrongConfigs) ==
      "[System Access]\n" + "PasswordHistorySize = 24\n" + "MinimumPasswordLength = 12\n" + "LockoutBadCount = 5\n"
  {
    ShippedPolicyLines();
    StrictTemplateFor(WinFlags.WinFlags);
  }

  /** The template lines of the account policies the strict level lists. */
  predicate StrictPolicyLines(flags: Catalog) {
    && PolicyLine(flags, "PasswordHistorySize") == "PasswordHistorySize = 24\n"
    && PolicyLine(flags, "MaximumPasswordAge") == []
    && PolicyLine(flags, "MinimumPasswordLength") == "MinimumPasswordLength = 12\n"
    && PolicyLine(flags, "LockoutBadCount") == "LockoutBadCount = 5\n"
  }

  lemma ShippedPolicyLines()
    ensures StrictPolicyLines(WinFlags.WinFlags)
  {
  }

  lemma StrictTemplateFor(flags: Catalog)
    requires StrictPolicyLines(flags)
    ensures InfContent(flags, StrongConfigs) ==
      "[System Access]\n" + "PasswordHistorySize = 24\n" + "MinimumPasswordLength = 12\n" + "LockoutBadCount = 5\n"
  {
    var n := Names(StrongConfigs, "account_policy");
    assert n == ["PasswordHistorySize", "MaximumPasswordAge", "MinimumPasswordLength", "LockoutBadCount"];
    assert n[..3][..2] == n[..2] && n[..2][..1] == n[..1] && n[..1][..0] == [] && n[..4] == n;
    assert PolicyLines(flags, n[..1]) == "PasswordHistorySize = 24\n";
    assert PolicyLines(flags, n[..2]) == "PasswordHistorySize = 24\n";
    assert PolicyLines(flags, n[..3]) == "PasswordHistorySize = 24\n" + "MinimumPasswordLength = 12\n";
  }

  /** A level without account policies writes an empty template. */
  lemma EmptyTemplateWithoutAccountPolicies(flags: Catalog, config: Config)
    requires Names(config, "account_policy") == []
    ensures InfContent(flags, config) == []
  {
  }

  /** With a backup path remembered, rollback restores it without listing
      `backups`. */
  lemma RollbackUsesRememberedPath(env: Env, w: World, s: EngineState)
    requires s.backupPath.Some?
    ensures RollbackSpec(env, w, s) ==
      (RestoreSpec(env, w, s.backupPath.value).0, s, RolledBack(RestoreSpec(env, w, s.backupPath.value).1))
  {
  }

  /** Without a remembered path and without a `backups` directory, rollback
      raises before touching anything. */
  lemma RollbackWithoutBackupDir(env: Env, w: World, s: EngineState)
    requires s.backupPath.None? && BackupDir !in w.dirs
    ensures RollbackSpec(env, w, s) == (w, s, ListingRaised)
  {
  }

  /** Among policy backups taken at different moments, next to any registry
      backups, rollback chooses the one taken last. */
  lemma RollbackChoosesLatest(infMoments: set<Moment>, regMoments: set<Moment>, latest: Moment)
    requires latest in infMoments
    requires forall m :: m in infMoments && m != latest ==> Before(m, latest)
    ensures var names := (set m | m in infMoments :: BackupFileName(m, BackupInfName))
      + (set m | m in regMoments :: BackupFileName(m, RegBackupName));
      InfNames(names) != {} && Greatest(InfNames(names)) == BackupFileName(latest, BackupInfName)
  {
    var infs := set m | m in infMoments :: BackupFileName(m, BackupInfName);
    var regs := set m | m in regMoments :: BackupFileName(m, RegBackupName);
    var names := infs + regs;
    forall n | n in regs
      ensures !EndsWith(n, ".inf")
    {
      var m :| m in regMoments && n == BackupFileName(m, RegBackupName);
      BackupSuffixes(m);
    }
    forall n | n in infs
      ensures EndsWith(n, ".inf")
    {
      var m :| m in infMoments && n == BackupFileName(m, BackupInfName);
      BackupSuffixes(m);
    }
    assert InfNames(names) == infs;
    var top := BackupFileName(latest, BackupInfName);
    forall n | n in infs && n != top
      ensures LexLess(n, top)
    {
      var m :| m in infMoments && n == BackupFileName(m, BackupInfName);
      BackupNamesSortByTime(m, latest, BackupInfName);
    }
    assert IsGreatest(top, infs);
    GreatestUnique(top, Greatest(infs), infs);
  }
}

/**
  `WinEngine`: the Windows engine object. It holds the hardening level it
  was built for, the results of its last check and the path of its last
  backup, and it drives the machine through `Host`. Every method is proved
  to do what the matching function of `EngineSpec` says.
 */
module Engine {
  import opened Wrappers
  import opened Text
  import opened Host
  import opened WinFlags
  import opened WinConfigs
  import opened Extract
  import opened Reporting
  import opened Snapshot
  import opened EngineSpec

  /** The INF branch of the check: scans the lines of the export file and
      stops at the first line for the policy. */
  method ParseInf(content: string, name: string) returns (value: string)
    ensures value == InfValue(Some(content), name)
  {
    var lines := Lines(content);
    value := NotAvailable;
    var k := 0;
    while k < |lines|
      invariant 0 <= k <= |lines|
      invariant forall j :: 0 <= j < k ==> !LineFor(lines[j], name)
    {
      if LineFor(lines[k], name) {
        value := Strip(AfterLast(lines[k], '='));
        InfValueFirstLine(content, name);
        assert IsFirstLineFor(lines, name, k);
        return;
      }
      k := k + 1;
    }
    InfValueFirstLine(content, name);
  }

  /** The text `_apply_secedit_policies` writes into its template: the
      section header, then one line per catalog-known account policy. */
  method TemplateText(flags: Catalog, config: Config) returns (content: string)
    ensures content == InfContent(flags, config)
  {
    var names := Names(config, "account_policy");
    if names == [] {
      return "";
    }
    var body := "";
    var i := 0;
    while i < |names|
      invariant 0 <= i <= |names|
      invariant body == PolicyLines(flags, names[..i])
    {
      assert names[..i + 1][..i] == names[..i];
      var flag := Lookup(flags, "account_policy", names[i]);
      if flag.Some? {
        body := body + (names[i] + " = " + flag.value.target + "\n");
      }
      i := i + 1;
    }
    assert names[..i] == names;
    content := "[System Access]\n" + body;
  }

  /** The greatest name of a non-empty set, as the first element of the
      names sorted in reverse. */
  method LatestName(names: set<string>) returns (latest: string)
    requires names != {}
    ensures IsGreatest(latest, names)
  {
    latest :| latest in names;
    var rest := names - {latest};
    while rest != {}
      invariant rest <= names && latest in names && latest !in rest
      invariant forall x :: x in names && x !in rest && x != latest ==> LexLess(x, latest)
      decreases |rest|
    {
      var n :| n in rest;
      LexLessTotal(n, latest);
      if LexLess(latest, n) {
        forall x | x in names && x !in rest && x != n
          ensures LexLess(x, n)
        {
          if x != latest {
            LexLessTransitive(x, latest, n);
          }
        }
        latest := n;
      }
      rest := rest - {n};
    }
  }

  /** One more command of a remediation loop. */
  lemma RunAllStep(env: Env, w: World, cmds: seq<string>, cmd: string)
    ensures RunAll(env, w, cmds + [cmd]) == Exec(env, RunAll(env, w, cmds), cmd).0
  {
    assert (cmds + [cmd])[..|cmds|] == cmds;
  }

  class WinEngine {
    /** The catalog the engine consults (`WIN_FLAGS`). */
    const flags: Catalog
    const targetConfig: Config
    const level: string
    /** The machine the engine runs on. */
    const host: Host
    var results: seq<CheckResult>
    var backupPath: Option<string>

    function Fields(): EngineState
      reads this
    {
      EngineState(results, backupPath)
    }

    constructor (host: Host, targetConfig: Config, level: string)
      ensures this.host == host && this.targetConfig == targetConfig && this.level == level
      ensures flags == WinFlags.WinFlags && Fields() == EngineState([], None)
    {
      this.host := host;
      flags := WinFlags.WinFlags;
      this.targetConfig := targetConfig;
      this.level := level;
      results := [];
      backupPath := None;
    }

    /** Reads the current value of one policy. */
    method ObserveCurrent(e: Entry) returns (current: string)
      modifies host
      ensures (host.State(), current) == Observe(host.env, old(host.State()), e)
    {
      match e.flag.check
      case InfParse =>
        var content := host.Read(TempExportInf);
        if content.None? {
          current := InfMissing;
        } else {
          current := ParseInf(content.value, e.name);
        }
      case ScQuery(cmd) =>
        var ok, output := host.Run(cmd);
        current := ScValue(ok, output);
      case NetshFw(cmd) =>
        var ok, output := host.Run(cmd);
        current := NetshValue(ok, output, e.flag.target);
      case NetUser(_) =>
        current := NotAvailable;
    }

    /** The inner loop of `check_compliance`: the policies of one category,
        in order, skipping the names the catalog does not know. `done` are
        the policies checked before, from machine state `w0` on. */
    method VisitCategory(category: string, names: seq<string>, ghost w0: World, ghost done: seq<Entry>)
      requires (host.State(), results) == CheckAll(host.env, w0, done)
      modifies this, host
      ensures (host.State(), results) == CheckAll(host.env, w0, done + SelectedIn(flags, category, names))
      ensures backupPath == old(backupPath)
    {
      assert done + SelectedIn(flags, category, names[..0]) == done;
      var j := 0;
      while j < |names|
        invariant 0 <= j <= |names|
        invariant (host.State(), results) == CheckAll(host.env, w0, done + SelectedIn(flags, category, names[..j]))
        invariant backupPath == old(backupPath)
      {
        assert names[..j + 1][..j] == names[..j];
        ghost var prefix := done + SelectedIn(flags, category, names[..j]);
        var flag := Lookup(flags, category, names[j]);
        if flag.Some? {
          var e := Entry(category, names[j], flag.value);
          CheckAllStep(host.env, w0, prefix, e);
          assert done + SelectedIn(flags, category, names[..j + 1]) == prefix + [e];
          var current := ObserveCurrent(e);
          results := results + [Judge(e, current)];
        } else {
          assert done + SelectedIn(flags, category, names[..j + 1]) == prefix;
        }
        j := j + 1;
      }
      assert names[..j] == names;
    }

    /** The outer loop of `check_compliance`: every category of the level, in
        order, starting from no results. */
    method VisitLevel()
      requires results == []
      modifies this, host
      ensures (host.State(), results) == CheckAll(host.env, old(host.State()), Selected(flags, targetConfig))
      ensures backupPath == old(backupPath)
    {
      ghost var w0 := host.State();
      var i := 0;
      while i < |targetConfig|
        invariant 0 <= i <= |targetConfig|
        invariant (host.State(), results) == CheckAll(host.env, w0, Selected(flags, targetConfig[..i]))
        invariant backupPath == old(backupPath)
      {
        var (category, names) := targetConfig[i];
        assert targetConfig[..i + 1][..i] == targetConfig[..i];
        VisitCategory(category, names, w0, Selected(flags, targetConfig[..i]));
        i := i + 1;
      }
      assert targetConfig[..i] == targetConfig;
    }

    /** `check_compliance`: `ok` is false when writing the report raised. */
    method CheckCompliance() returns (rs: seq<CheckResult>, ok: bool)
      modifies this, host
      ensures (host.State(), results, ok) == CheckSpec(host.env, old(host.State()), flags, targetConfig, level)
      ensures rs == results && backupPath == old(backupPath)
    {
      results := [];
      ghost var w := host.State();
      var _, _ := host.Run(SeceditExportCommand);
      VisitLevel();
      var present := host.Exists(TempExportInf);
      if present {
        host.Remove(TempExportInf);
      } else {
        assert host.files - {TempExportInf} == host.files;
      }
      assert (host.State(), results) == CheckPass(host.env, w, flags, targetConfig);
      var t := host.Now();
      ok := CreateComplianceReport(host, Records(results), "CHECK", ComplianceFile(level, t), level);
      rs := results;
    }

    /** Runs the apply command of every listed policy of `category` that has
        one, in order. */
    method ConfigureCategoryOnHost(category: string)
      modifies host
      ensures host.State() == ConfigureCategory(host.env, old(host.State()), flags, targetConfig, category)
    {
      var names := Names(targetConfig, category);
      ghost var w0 := host.State();
      var i := 0;
      while i < |names|
        invariant 0 <= i <= |names|
        invariant host.State() == RunAll(host.env, w0, ApplyCommands(flags, category, names[..i]))
      {
        assert names[..i + 1][..i] == names[..i];
        var cmd := ApplyCommand(flags, category, names[i]);
        if cmd.Some? {
          assert ApplyCommands(flags, category, names[..i + 1]) == ApplyCommands(flags, category, names[..i]) + [cmd.value];
          RunAllStep(host.env, w0, ApplyCommands(flags, category, names[..i]), cmd.value);
          var _, _ := host.Run(cmd.value);
        } else {
          assert ApplyCommands(flags, category, names[..i + 1]) == ApplyCommands(flags, category, names[..i]) + [];
          assert ApplyCommands(flags, category, names[..i + 1]) == ApplyCommands(flags, category, names[..i]);
        }
        i := i + 1;
      }
      assert names[..i] == names;
    }

    /** `_configure_services` */
    method ConfigureServices()
      modifies host
      ensures host.State() == ConfigureCategory(host.env, old(host.State()), flags, targetConfig, "service_control")
    {
      ConfigureCategoryOnHost("service_control");
    }

    /** `_configure_firewall` */
    method ConfigureFirewall()
      modifies host
      ensures host.State() == ConfigureCategory(host.env, old(host.State()), flags, targetConfig, "firewall")
    {
      ConfigureCategoryOnHost("firewall");
    }

    /** `_perform_other_actions` */
    method PerformOtherActions()
      modifies host
      ensures host.State() == RunAll(host.env, old(host.State()), OtherActionCommands(flags))
    {
      var cmd := ApplyCommand(flags, "account_name", "Administrator_Rename");
      if cmd.Some? {
        RunAllStep(host.env, host.State(), [], cmd.value);
        var _, _ := host.Run(cmd.value);
      }
    }

    /** `_apply_secedit_policies`: the template is written line by line. */
    method ApplySeceditPolicies()
      modifies host
      ensures host.State() == ApplySecedit(host.env, old(host.State()), flags, targetConfig)
    {
      var content := TemplateText(flags, targetConfig);
      var written := host.Write(HardenInf, content);
      if !written {
        return;
      }
      var _, _ := host.Run(HardenConfigureCommand);
      var infLeft := host.Exists(HardenInf);
      if infLeft {
        host.Remove(HardenInf);
      }
      var sdbLeft := host.Exists(HardenSdb);
      if sdbLeft {
        host.Remove(HardenSdb);
      } else {
        assert host.files - {HardenSdb} == host.files;
      }
    }

    /** `harden_system` */
    method HardenSystem() returns (end: RunEnd)
      modifies this, host
      ensures (host.State(), Fields(), end)
        == HardenSpec(host.env, old(host.State()), old(Fields()), flags, targetConfig, level)
    {
      backupPath := BackupWindowsState(host);
      if backupPath.None? {
        return Aborted;
      }
      results := [];
      ConfigureServices();
      ApplySeceditPolicies();
      ConfigureFirewall();
      PerformOtherActions();
      var _, checked := CheckCompliance();
      if !checked {
        return Raised;
      }
      var t := host.Now();
      var reported := CreateComplianceReport(host, Records(results), "HARDEN", RemediationFile(level, t), level);
      end := if reported then Finished else Raised;
    }

    /** `rollback` */
    method Rollback() returns (end: RollbackEnd)
      modifies this, host
      ensures (host.State(), Fields(), end) == RollbackSpec(host.env, old(host.State()), old(Fields()))
    {
      if backupPath.None? {
        var listing := host.List(BackupDir);
        if listing.None? {
          return ListingRaised;
        }
        var infs := InfNames(listing.value);
        if infs != {} {
          var latest := LatestName(infs);
          GreatestUnique(latest, Greatest(infs), infs);
          backupPath := Some(Join(BackupDir, latest));
        }
      }
      if backupPath.Some? {
        var outcome := RollbackWindowsState(host, backupPath.value);
        end := RolledBack(outcome);
      } else {
        end := NoBackupFound;
      }
    }
  }
}

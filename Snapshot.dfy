/**
  Backup and restore of the local security policy (`rollback.py`): a backup
  exports the policy, and then the policy registry key, to time-stamped files
  under `backups`; a restore re-imports an exported policy file with
  `secedit /configure`.
 */
module Snapshot {
  import opened Wrappers
  import opened Text
  import opened Clock
  import opened Host

  /** `os.path.join(os.getcwd(), "backups")`, relative to the working
      directory. */
  const BackupDir := "backups"
  const BackupInfName := "security_backup.inf"
  const RegBackupName := "system_registry_backup.reg"
  /** The scratch database of a restore, in the working directory. */
  const RollbackSdb := "rollback_temp.sdb"

  /** The name `get_timestamped_path` gives a backup file within `backups`. */
  function BackupFileName(t: Moment, filename: string): string {
    BackupStamp(t) + ("_" + filename)
  }

  /** `get_timestamped_path(filename)` at moment `t`. */
  function TimestampedPath(t: Moment, filename: string): string {
    Join(BackupDir, BackupFileName(t, filename))
  }

  function ExportCommand(infPath: string): string {
    "secedit /export /cfg \"" + infPath + "\" /areas securitypolicy /quiet"
  }

  function RegExportCommand(regPath: string): string {
    "reg export HKLM\\Software\\Microsoft\\Windows\\CurrentVersion\\Policies\\System \"" + regPath + "\" /y"
  }

  function ConfigureCommand(infPath: string): string {
    "secedit /configure /cfg \"" + infPath + "\" /db \"" + RollbackSdb + "\" /overwrite /quiet"
  }

  /** `backup_windows_state`: the path of the exported policy, or `None` when
      the export failed. A failed registry export is only a warning. */
  function BackupSpec(env: Env, w: World): (World, Option<string>) {
    var w1 := w.(dirs := w.dirs + {BackupDir});
    var (w2, t1) := Tick(env, w1);
    var infPath := TimestampedPath(t1, BackupInfName);
    var (w3, o) := Exec(env, w2, ExportCommand(infPath));
    if !Succeeded(o) then (w3, None)
    else
      var (w4, t2) := Tick(env, w3);
      var regPath := TimestampedPath(t2, RegBackupName);
      var (w5, _) := Exec(env, w4, RegExportCommand(regPath));
      (w5, Some(infPath))
  }

  datatype RestoreOutcome = Restored | RestoreFailed | BackupMissing

  /** `rollback_windows_state`: nothing happens when the backup file does not
      exist; otherwise the policy is re-imported and the scratch database is
      removed whether or not that worked. */
  function RestoreSpec(env: Env, w: World, infPath: string): (World, RestoreOutcome) {
    if infPath !in w.files then (w, BackupMissing)
    else
      var (w1, o) := Exec(env, w, ConfigureCommand(infPath));
      (Discard(w1, RollbackSdb), if Succeeded(o) then Restored else RestoreFailed)
  }

  /** Names of backups taken at different moments sort in the order the
      moments were taken, so the greatest name is the latest backup. */
  lemma BackupNamesSortByTime(a: Moment, b: Moment, filename: string)
    ensures LexLess(BackupFileName(a, filename), BackupFileName(b, filename)) <==> Before(a, b)
  {
    LexLessConcat(BackupStamp(a), "_" + filename, BackupStamp(b), "_" + filename);
    LexLessIrreflexive("_" + filename);
    BackupStampOrder(a, b);
  }

  /** The exported policy file is the only backup file that ends in `.inf`. */
  lemma BackupSuffixes(t: Moment)
    ensures EndsWith(TimestampedPath(t, BackupInfName), ".inf")
    ensures EndsWith(BackupFileName(t, BackupInfName), ".inf")
    ensures !EndsWith(BackupFileName(t, RegBackupName), ".inf")
  {
    var n := BackupFileName(t, BackupInfName);
    assert n[|n| - 4..] == BackupInfName[|BackupInfName| - 4..];
    var p := TimestampedPath(t, BackupInfName);
    assert p[|p| - 4..] == n[|n| - 4..];
    var r := BackupFileName(t, RegBackupName);
    assert r[|r| - 4..] == RegBackupName[|RegBackupName| - 4..];
  }

  /** A backup creates `backups` and succeeds exactly when the policy export
      does; it then returns the file named after its first clock reading. */
  lemma BackupSucceedsIffExport(env: Env, w: World)
    ensures var (w', r) := BackupSpec(env, w);
      var w2 := w.(dirs := w.dirs + {BackupDir}, ticks := w.ticks + 1);
      var infPath := TimestampedPath(env.clock(w.ticks), BackupInfName);
      && BackupDir in w'.dirs
      && (r.Some? <==> Succeeded(env.respond(w2, ExportCommand(infPath))))
      && (r.Some? ==> r.value == infPath)
  {
    var w1 := w.(dirs := w.dirs + {BackupDir});
    var (w2, t1) := Tick(env, w1);
    assert w2 == w.(dirs := w.dirs + {BackupDir}, ticks := w.ticks + 1);
    var infPath := TimestampedPath(t1, BackupInfName);
    var (w3, o) := Exec(env, w2, ExportCommand(infPath));
    assert BackupDir in w3.dirs;
    if Succeeded(o) {
      var (w4, t2) := Tick(env, w3);
      var (w5, _) := Exec(env, w4, RegExportCommand(TimestampedPath(t2, RegBackupName)));
      assert BackupDir in w5.dirs;
    }
  }

  /** After a successful export the registry export always runs and the clock
      is read a second time; a failed export stops the backup before the
      registry is touched. */
  lemma BackupCommandLog(env: Env, w: World)
    ensures var (w', r) := BackupSpec(env, w);
      var infPath := TimestampedPath(env.clock(w.ticks), BackupInfName);
      var regPath := TimestampedPath(env.clock(w.ticks + 1), RegBackupName);
      && (r.Some? ==>
        w'.ticks == w.ticks + 2 && w'.issued == w.issued + [ExportCommand(infPath)] + [RegExportCommand(regPath)])
      && (r.None? ==>
        w'.ticks == w.ticks + 1 && w'.issued == w.issued + [ExportCommand(infPath)])
  {
    var w1 := w.(dirs := w.dirs + {BackupDir});
    var (w2, t1) := Tick(env, w1);
    var infPath := TimestampedPath(t1, BackupInfName);
    var (w3, o) := Exec(env, w2, ExportCommand(infPath));
    assert w3.issued == w.issued + [ExportCommand(infPath)] && w3.ticks == w.ticks + 1;
    if Succeeded(o) {
      var (w4, t2) := Tick(env, w3);
      var (w5, _) := Exec(env, w4, RegExportCommand(TimestampedPath(t2, RegBackupName)));
      assert w5.issued == w3.issued + [RegExportCommand(TimestampedPath(t2, RegBackupName))];
      assert w5.ticks == w.ticks + 2;
      assert BackupSpec(env, w).0.issued == w5.issued && BackupSpec(env, w).0.ticks == w5.ticks;
    }
  }

  /** A restore from a missing file changes nothing and runs nothing. */
  lemma RestoreMissingIsNoOp(env: Env, w: World, infPath: string)
    requires infPath !in w.files
    ensures RestoreSpec(env, w, infPath) == (w, BackupMissing)
  {
  }

  /** A restore from an existing file runs exactly one import, leaves no
      scratch database behind, and succeeds exactly when the import does. */
  lemma RestoreRunsOneImport(env: Env, w: World, infPath: string)
    requires infPath in w.files
    ensures var (w', r) := RestoreSpec(env, w, infPath);
      && w'.issued == w.issued + [ConfigureCommand(infPath)]
      && RollbackSdb !in w'.files
      && (r == Restored <==> env.respond(w, ConfigureCommand(infPath)).exitCode == 0)
      && r != BackupMissing
  {
  }

  /** Runs `backup_windows_state` on the machine. */
  method BackupWindowsState(host: Host) returns (infPath: Option<string>)
    modifies host
    ensures (host.State(), infPath) == BackupSpec(host.env, old(host.State()))
  {
    host.MakeDirs(BackupDir);
    var t1 := host.Now();
    var path := TimestampedPath(t1, BackupInfName);
    var exported, _ := host.Run(ExportCommand(path));
    if !exported {
      return None;
    }
    var t2 := host.Now();
    var regPath := TimestampedPath(t2, RegBackupName);
    var _, _ := host.Run(RegExportCommand(regPath));
    infPath := Some(path);
  }

  /** Runs `rollback_windows_state` on the machine. */
  method RollbackWindowsState(host: Host, infPath: string) returns (outcome: RestoreOutcome)
    modifies host
    ensures (host.State(), outcome) == RestoreSpec(host.env, old(host.State()), infPath)
  {
    var present := host.Exists(infPath);
    if !present {
      return BackupMissing;
    }
    var ok, _ := host.Run(ConfigureCommand(infPath));
    var leftover := host.Exists(RollbackSdb);
    if leftover {
      host.Remove(RollbackSdb);
    } else {
      assert host.files - {RollbackSdb} == host.files;
    }
    outcome := if ok then Restored else RestoreFailed;
  }
}

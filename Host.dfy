/**
  The machine the engine runs on, as far as the engine can see it: files,
  directories, the commands run so far, and the clock. Command execution is
  an oracle: what a command does (its exit code, what it prints, the files it
  writes) is whatever `Env.respond` says for the machine as it stands.

  Paths are relative to the process working directory, so
  `os.path.join(os.getcwd(), x)` and `x` name the same file.
 */
module Host {
  import opened Wrappers
  import opened Text
  import opened Clock

  /** The separator `os.path.join` puts between parts on Windows. */
  const Sep := "\\"

  function Join(dir: string, name: string): string {
    dir + Sep + name
  }

  /** What running one command through the shell did. */
  datatype Outcome = Outcome(exitCode: int, stdout: string, stderr: string, writes: map<string, string>)

  /** The observable state of the machine. `issued` lists every command run,
      in order; `ticks` counts the calls to the clock. */
  datatype World = World(files: map<string, string>, dirs: set<string>, issued: seq<string>, ticks: nat)

  /** What the engine cannot see into: command results, the clock, and the
      paths that cannot be opened for writing. */
  datatype Env = Env(respond: (World, string) -> Outcome, clock: nat -> Moment, unwritable: set<string>)

  /** Runs `cmd` through the shell: the command is logged and the files it
      writes appear. */
  function Exec(env: Env, w: World, cmd: string): (World, Outcome) {
    var o := env.respond(w, cmd);
    (w.(files := w.files + o.writes, issued := w.issued + [cmd]), o)
  }

  /** Whether `subprocess.run(..., check=True)` returns instead of raising
      `CalledProcessError`. */
  predicate Succeeded(o: Outcome) {
    o.exitCode == 0
  }

  /** The text `WinEngine.__run_cli` hands back with its success flag: the
      stripped standard output of a success, the stripped standard error of
      a failure. */
  function Reply(o: Outcome): (r: string)
    ensures |r| <= (if Succeeded(o) then |o.stdout| else |o.stderr|)
  {
    Strip(if Succeeded(o) then o.stdout else o.stderr)
  }

  /** The reply is the chosen stream with its leading and trailing
      whitespace cut off: a slice `[i, j)` of it, outside which every
      character is a space. */
  lemma ReplyTrims(o: Outcome)
    ensures var s := if Succeeded(o) then o.stdout else o.stderr;
      exists i: nat, j: nat :: i <= j <= |s| && Reply(o) == s[i..j]
        && forall k :: 0 <= k < |s| && !(i <= k < j) ==> IsSpace(s[k])
  {
    var s := if Succeeded(o) then o.stdout else o.stderr;
    var l := StripLeft(s);
    StripLeftRemovesSpaces(s);
    StripRightRemovesSpaces(l);
    var i := |s| - |l|;
    var j := i + |StripRight(l)|;
    assert Reply(o) == s[i..j];
    forall k | i <= k < |s| && !(i <= k < j)
      ensures IsSpace(s[k])
    {
      assert s[k] == l[k - i];
    }
  }

  /** Running a command logs it and adds the files it writes, and nothing
      else about the machine changes. */
  lemma ExecChangesLogAndFiles(env: Env, w: World, cmd: string)
    ensures var (w', o) := Exec(env, w, cmd);
      && o == env.respond(w, cmd)
      && w'.issued == w.issued + [cmd] && w'.dirs == w.dirs && w'.ticks == w.ticks
      && (forall p :: p in w'.files <==> p in w.files || p in o.writes)
      && (forall p :: p in o.writes ==> w'.files[p] == o.writes[p])
      && (forall p :: p in w.files && p !in o.writes ==> w'.files[p] == w.files[p])
  {
  }

  /** `datetime.datetime.now()` */
  function Tick(env: Env, w: World): (World, Moment) {
    (w.(ticks := w.ticks + 1), env.clock(w.ticks))
  }

  /** `open(path, 'r').read()`, or `None` for `FileNotFoundError`. */
  function ReadFile(w: World, path: string): Option<string> {
    if path in w.files then Some(w.files[path]) else None
  }

  /** `open(path, 'w').write(content)`; false when the open raises `IOError`. */
  function WriteFile(env: Env, w: World, path: string, content: string): (World, bool) {
    if path in env.unwritable then (w, false) else (w.(files := w.files[path := content]), true)
  }

  /** `if os.path.exists(path): os.remove(path)` */
  function Discard(w: World, path: string): World {
    w.(files := w.files - {path})
  }

  /** `os.listdir(dir)` restricted to files, or `None` when the directory does
      not exist (`FileNotFoundError`). */
  function ListDir(w: World, dir: string): Option<set<string>> {
    if dir !in w.dirs then None
    else Some(set p | p in w.files && StartsWith(p, dir + Sep) && Sep[0] !in p[|dir| + 1..] :: p[|dir| + 1..])
  }

  class Host {
    var files: map<string, string>
    var dirs: set<string>
    var issued: seq<string>
    var ticks: nat
    const env: Env

    function State(): World
      reads this
    {
      World(files, dirs, issued, ticks)
    }

    constructor (env: Env, files: map<string, string>, dirs: set<string>)
      ensures this.env == env
      ensures State() == World(files, dirs, [], 0)
    {
      this.env := env;
      this.files := files;
      this.dirs := dirs;
      this.issued := [];
      this.ticks := 0;
    }

    /** `WinEngine.__run_cli(cmd)`; also the bare `subprocess.run(cmd,
        check=True)` of the backup code, whose caller keeps only `ok`. */
    method Run(cmd: string) returns (ok: bool, out: string)
      modifies this
      ensures State() == Exec(env, old(State()), cmd).0
      ensures ok == Succeeded(env.respond(old(State()), cmd))
      ensures out == Reply(env.respond(old(State()), cmd))
    {
      var o := env.respond(State(), cmd);
      files := files + o.writes;
      issued := issued + [cmd];
      ok := o.exitCode == 0;
      out := Reply(o);
    }

    method Now() returns (t: Moment)
      modifies this
      ensures (State(), t) == Tick(env, old(State()))
    {
      t := env.clock(ticks);
      ticks := ticks + 1;
    }

    method Read(path: string) returns (content: Option<string>)
      ensures content == ReadFile(State(), path)
    {
      content := if path in files then Some(files[path]) else None;
    }

    method Write(path: string, content: string) returns (ok: bool)
      modifies this
      ensures (State(), ok) == WriteFile(env, old(State()), path, content)
    {
      ok := path !in env.unwritable;
      if ok {
        files := files[path := content];
      }
    }

    method Exists(path: string) returns (b: bool)
      ensures b <==> path in files
    {
      b := path in files;
    }

    method Remove(path: string)
      requires path in files
      modifies this
      ensures State() == Discard(old(State()), path)
    {
      files := files - {path};
    }

    /** `os.makedirs(dir, exist_ok=True)` */
    method MakeDirs(dir: string)
      modifies this
      ensures State() == old(State()).(dirs := old(dirs) + {dir})
    {
      dirs := dirs + {dir};
    }

    method List(dir: string) returns (names: Option<set<string>>)
      ensures names == ListDir(State(), dir)
    {
      names := ListDir(State(), dir);
    }
  }
}

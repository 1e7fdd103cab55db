/**
  The Linux flag table of the command-line tool (`protego_utils.py`): a
  table of categories, each an ordered table of named flags, with a
  first-match lookup (`get_flag`), a display of one flag (`print_flag`) and
  an in-place update of a flag's recorded value that runs the flag's shell
  command for the new value (`set_flag`).
 */
module LinuxFlags {
  import opened Wrappers

  /** One flag: its recorded value, the values it may take, the command that
      reads it and one shell command per value it can be set to. */
  datatype Flag = Flag(value: string, values: seq<string>, getCommand: string, setCommands: map<string, string>)

  /** A key of a category's table with its flag. */
  datatype Entry = Entry(name: string, flag: Flag)

  /** A category with its flags, in the table's iteration order. */
  datatype Category = Category(name: string, entries: seq<Entry>)

  /** The global `flags` dictionary, in iteration order. */
  type Table = seq<Category>

  /** Where a flag sits in the table: its category, then its place within the
      category. It stands for the identity of the flag object that
      `get_flag` hands out and `set_flag` changes in place. */
  datatype Pos = Pos(c: nat, f: nat)

  predicate ValidPos(t: Table, q: Pos) {
    q.c < |t| && q.f < |t[q.c].entries|
  }

  function EntryAt(t: Table, q: Pos): Entry
    requires ValidPos(t, q)
  {
    t[q.c].entries[q.f]
  }

  predicate Named(t: Table, q: Pos, name: string) {
    ValidPos(t, q) && EntryAt(t, q).name == name
  }

  /** `p` is visited before `q` when iterating categories, then flags. */
  predicate Earlier(p: Pos, q: Pos) {
    p.c < q.c || (p.c == q.c && p.f < q.f)
  }

  /** `p` holds the first flag called `name` in iteration order. */
  ghost predicate IsFirstMatch(t: Table, name: string, p: Pos) {
    Named(t, p, name) && forall q :: Named(t, q, name) ==> !Earlier(q, p)
  }

  /** The first flag called `name` among the entries from `f` on. */
  function FindIn(es: seq<Entry>, name: string, f: nat): (k: Option<nat>)
    decreases |es| - f
    ensures k.Some? ==>
      f <= k.value < |es| && es[k.value].name == name
      && forall j :: f <= j < k.value ==> es[j].name != name
    ensures k.None? ==> forall j :: f <= j < |es| ==> es[j].name != name
  {
    if f >= |es| then None
    else if es[f].name == name then Some(f)
    else FindIn(es, name, f + 1)
  }

  /** The first flag called `name` in the categories from `c` on. */
  function FindFrom(t: Table, name: string, c: nat): (p: Option<Pos>)
    decreases |t| - c
    ensures p.Some? ==>
      c <= p.value.c && Named(t, p.value, name)
      && forall q :: Named(t, q, name) && c <= q.c ==> !Earlier(q, p.value)
    ensures p.None? ==> forall q: Pos :: c <= q.c ==> !Named(t, q, name)
  {
    if c >= |t| then None
    else match FindIn(t[c].entries, name, 0)
      case Some(f) => Some(Pos(c, f))
      case None => FindFrom(t, name, c + 1)
  }

  /** The flag `get_flag` finds: the first one called `name`. */
  function Find(t: Table, name: string): (p: Option<Pos>)
    ensures p.Some? ==> IsFirstMatch(t, name, p.value)
    ensures p.None? ==> forall q :: !Named(t, q, name)
  {
    FindFrom(t, name, 0)
  }

  /** `[flags[category][flag], category]`, with the place of the flag object. */
  datatype Found = Found(flag: Flag, category: string, at: Pos)

  /** What `get_flag` returns; `None` when no flag has the name. */
  function Lookup(t: Table, name: string): Option<Found> {
    match Find(t, name)
    case None => None
    case Some(p) => Some(Found(EntryAt(t, p).flag, t[p.c].name, p))
  }

  /** The lookup returns the first flag of that name with its own category,
      and nothing only when no category holds a flag of that name. */
  lemma LookupFindsFirst(t: Table, name: string)
    ensures Lookup(t, name).None? <==> forall q :: !Named(t, q, name)
    ensures Lookup(t, name).Some? ==>
      var r := Lookup(t, name).value;
      && IsFirstMatch(t, name, r.at)
      && r.flag == EntryAt(t, r.at).flag
      && r.category == t[r.at.c].name
  {
    if Find(t, name).None? {
      assert forall q :: !Named(t, q, name);
    } else {
      assert Named(t, Find(t, name).value, name);
    }
  }

  /** Two tables with the same categories and the same flag names in the same
      places; only the flags themselves may differ. */
  ghost predicate SameShape(t: Table, u: Table) {
    && |t| == |u|
    && (forall c :: 0 <= c < |t| ==> t[c].name == u[c].name && |t[c].entries| == |u[c].entries|)
    && (forall q :: ValidPos(t, q) ==> ValidPos(u, q) && EntryAt(u, q).name == EntryAt(t, q).name)
  }

  /** The table with the flag object at `p` replaced by `flag`. */
  function Replace(t: Table, p: Pos, flag: Flag): (u: Table)
    requires ValidPos(t, p)
    ensures SameShape(t, u)
    ensures EntryAt(u, p).flag == flag
    ensures forall q :: ValidPos(t, q) && q != p ==> EntryAt(u, q) == EntryAt(t, q)
  {
    var es := t[p.c].entries;
    t[p.c := t[p.c].(entries := es[p.f := es[p.f].(flag := flag)])]
  }

  /** There is only one first match. */
  lemma FirstMatchUnique(t: Table, name: string, p: Pos, q: Pos)
    requires IsFirstMatch(t, name, p) && IsFirstMatch(t, name, q)
    ensures p == q
  {
    assert !Earlier(p, q) && !Earlier(q, p);
  }

  /** The lookup only looks at names, so changing flags does not move it. */
  lemma FindSameShape(t: Table, u: Table, name: string)
    requires SameShape(t, u)
    ensures Find(u, name) == Find(t, name)
  {
    assert forall q :: Named(t, q, name) <==> Named(u, q, name);
    if Find(t, name).Some? {
      var p := Find(t, name).value;
      assert IsFirstMatch(u, name, p);
      assert Find(u, name).Some?;
      FirstMatchUnique(u, name, p, Find(u, name).value);
    } else {
      assert Find(u, name).None?;
    }
  }

  /** How `set_flag` ends.
      `Crashed`: the flag is unknown, so unpacking `get_flag`'s `None` raises.
      `NotFound`: the flag is unknown and the caller is told so (only in
      `SetIntended`).
      `AlreadySet`: the flag already has the value.
      `NoCommand`: the flag has no command for the value; the `KeyError` is
      caught.
      `Changed`: the command ran and the value was recorded. */
  datatype SetOutcome = Crashed | NotFound | AlreadySet | NoCommand | Changed

  /** `set_flag` on table `t` with shell command log `ran`. The command's exit
      status is never looked at. */
  function SetSpec(t: Table, ran: seq<string>, name: string, value: string): (Table, seq<string>, SetOutcome) {
    match Find(t, name)
    case None => (t, ran, Crashed)
    case Some(p) =>
      var flag := EntryAt(t, p).flag;
      if flag.value == value then (t, ran, AlreadySet)
      else if value !in flag.setCommands then (t, ran, NoCommand)
      else (Replace(t, p, flag.(value := value)), ran + [flag.setCommands[value]], Changed)
  }

  /** `set_flag` as its `flag == 0` test shows it was meant to behave: an
      unknown flag returns without changing anything. */
  function SetIntended(t: Table, ran: seq<string>, name: string, value: string): (Table, seq<string>, SetOutcome) {
    if Find(t, name).None? then (t, ran, NotFound) else SetSpec(t, ran, name, value)
  }

  /** When `set_flag` changes nothing: the flag already had the value, or it
      has no command for it, or it is unknown. Otherwise exactly the first
      flag of that name gets the value, its command for the value is run
      once, and every other flag stays as it was. */
  lemma SetFlagEffect(t: Table, ran: seq<string>, name: string, value: string)
    ensures var (t', ran', outcome) := SetSpec(t, ran, name, value);
      && SameShape(t, t')
      && (outcome == Crashed <==> forall q :: !Named(t, q, name))
      && (outcome != Changed ==> t' == t && ran' == ran)
      && (outcome == Changed ==>
        var p := Find(t, name).value;
        var flag := EntryAt(t, p).flag;
        && IsFirstMatch(t, name, p)
        && flag.value != value && value in flag.setCommands
        && EntryAt(t', p).flag == flag.(value := value)
        && (forall q :: ValidPos(t, q) && q != p ==> EntryAt(t', q) == EntryAt(t, q))
        && ran' == ran + [flag.setCommands[value]])
      && (outcome == AlreadySet <==> Lookup(t, name).Some? && Lookup(t, name).value.flag.value == value)
      && (outcome == NoCommand <==>
        Lookup(t, name).Some? && Lookup(t, name).value.flag.value != value
        && value !in Lookup(t, name).value.flag.setCommands)
  {
    LookupFindsFirst(t, name);
    if Find(t, name).None? {
      assert SetSpec(t, ran, name, value).2 == Crashed;
    } else {
      var p := Find(t, name).value;
      assert Named(t, p, name);
    }
  }

  /** Setting a flag twice to the same value is the same as setting it once:
      the second call finds the value already there. */
  lemma SetFlagIdempotent(t: Table, ran: seq<string>, name: string, value: string)
    ensures var (t1, ran1, o1) := SetSpec(t, ran, name, value);
      var (t2, ran2, o2) := SetSpec(t1, ran1, name, value);
      && t2 == t1 && ran2 == ran1
      && (o1 == Changed || o1 == AlreadySet ==> o2 == AlreadySet)
  {
    var (t1, ran1, o1) := SetSpec(t, ran, name, value);
    FindSameShape(t, t1, name);
    if o1 == Changed {
      var p := Find(t, name).value;
      assert EntryAt(t1, p).flag.value == value;
    }
  }

  /** After a successful update the lookup returns the flag with the new
      value, in the same category. */
  lemma GetAfterSet(t: Table, ran: seq<string>, name: string, value: string)
    requires SetSpec(t, ran, name, value).2 == Changed
    ensures var t' := SetSpec(t, ran, name, value).0;
      && Lookup(t', name).Some?
      && Lookup(t', name).value.flag.value == value
      && Lookup(t', name).value.category == Lookup(t, name).value.category
  {
    var t' := SetSpec(t, ran, name, value).0;
    FindSameShape(t, t', name);
  }

  /** How `print_flag` ends: it shows the flag and its category, reports that
      there is no such flag (only in `PrintIntended`), or raises. */
  datatype PrintOutcome = Shown(category: string, flag: Flag) | NoSuchFlag | PrintCrashed

  /** `print_flag`: a found flag is never `0`, so the "No flag named" branch
      is never taken; an unknown flag raises when `None` is unpacked. */
  function PrintFlag(t: Table, name: string): (r: PrintOutcome)
    ensures r != NoSuchFlag
    ensures r.Shown? <==> exists q :: Named(t, q, name)
    ensures r.Shown? ==> exists q :: IsFirstMatch(t, name, q) && r == Shown(t[q.c].name, EntryAt(t, q).flag)
  {
    LookupFindsFirst(t, name);
    match Lookup(t, name)
    case None => PrintCrashed
    case Some(found) =>
      assert Named(t, found.at, name);
      Shown(found.category, found.flag)
  }

  /** `print_flag` as its "No flag named" branch shows it was meant to
      behave. */
  function PrintIntended(t: Table, name: string): PrintOutcome {
    match Lookup(t, name)
    case None => NoSuchFlag
    case Some(r) => Shown(r.category, r.flag)
  }

  /** As written, asking for a flag the table does not have raises in both
      `print_flag` and `set_flag`; the not-found branches they contain are
      never reached. The empty table and any name show it. */
  lemma UnknownFlagCrashes(t: Table, ran: seq<string>, name: string, value: string)
    requires forall q :: !Named(t, q, name)
    ensures PrintFlag(t, name) == PrintCrashed
    ensures SetSpec(t, ran, name, value) == (t, ran, Crashed)
    ensures PrintFlag([], name) == PrintCrashed
  {
    LookupFindsFirst(t, name);
    LookupFindsFirst([], name);
  }

  /** The intended versions never raise: an unknown flag is reported as such
      and changes nothing, and a known flag behaves as written. */
  lemma IntendedReportsUnknown(t: Table, ran: seq<string>, name: string, value: string)
    ensures PrintIntended(t, name) != PrintCrashed
    ensures PrintIntended(t, name) == NoSuchFlag <==> forall q :: !Named(t, q, name)
    ensures SetIntended(t, ran, name, value).2 != Crashed
    ensures SetIntended(t, ran, name, value).2 == NotFound <==> forall q :: !Named(t, q, name)
    ensures SetIntended(t, ran, name, value).2 == NotFound ==> SetIntended(t, ran, name, value) == (t, ran, NotFound)
    ensures (exists q :: Named(t, q, name)) ==>
      SetIntended(t, ran, name, value) == SetSpec(t, ran, name, value)
      && PrintIntended(t, name) == PrintFlag(t, name)
  {
    LookupFindsFirst(t, name);
  }

  /** The flag table of the running tool. `ran` records the shell commands
      `set_flag` has started, in order. */
  class FlagTable {
    var flags: Table
    var ran: seq<string>

    constructor (flags: Table)
      ensures this.flags == flags && ran == []
    {
      this.flags := flags;
      ran := [];
    }

    /** `get_flag`: visits categories, then flags, and returns at the first
        flag with the name. */
    method GetFlag(name: string) returns (r: Option<Found>)
      ensures r == Lookup(flags, name)
    {
      var c := 0;
      while c < |flags|
        invariant 0 <= c <= |flags|
        invariant FindFrom(flags, name, c) == Find(flags, name)
      {
        var es := flags[c].entries;
        var f := 0;
        while f < |es|
          invariant 0 <= f <= |es|
          invariant FindIn(es, name, f) == FindIn(es, name, 0)
        {
          if es[f].name == name {
            return Some(Found(es[f].flag, flags[c].name, Pos(c, f)));
          }
          f := f + 1;
        }
        c := c + 1;
      }
      return None;
    }

    /** `set_flag` */
    method SetFlag(name: string, value: string) returns (outcome: SetOutcome)
      modifies this
      ensures (flags, ran, outcome) == SetSpec(old(flags), old(ran), name, value)
    {
      var found := GetFlag(name);
      if found.None? {
        return Crashed;
      }
      var flag := found.value.flag;
      if flag.value == value {
        return AlreadySet;
      }
      if value !in flag.setCommands {
        return NoCommand;
      }
      ran := ran + [flag.setCommands[value]];
      flags := Replace(flags, found.value.at, flag.(value := value));
      outcome := Changed;
    }
  }
}

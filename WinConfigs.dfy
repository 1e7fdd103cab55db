/**
  The hardening levels (`strong_configs`, `medium_configs`, `easy_configs`)
  and how a level and the catalog together give the policies one engine run
  works on.
 */
module WinConfigs {
  import opened Wrappers
  import opened WinFlags

  /** A level: categories in order, each with the policy names it selects, in
      order (a Python dict of lists, iterated in insertion order). */
  type Config = seq<(string, seq<string>)>

  const StrongConfigs: Config := [
    ("account_policy", ["PasswordHistorySize", "MaximumPasswordAge", "MinimumPasswordLength", "LockoutBadCount"]),
    ("service_control", ["RemoteRegistry", "bthserv", "Browser", "SharedAccess"]),
    ("firewall", ["private_state", "public_state", "inbound_default"]),
    ("account_name", ["Administrator_Rename"])
  ]

  const MediumConfigs: Config := [
    ("account_policy", ["MinimumPasswordLength", "LockoutBadCount"]),
    ("service_control", ["RemoteRegistry"]),
    ("firewall", ["private_state"])
  ]

  const EasyConfigs: Config := [
    ("account_policy", ["MinimumPasswordLength"])
  ]

  /** `config.get(category, [])` */
  function Names(config: Config, category: string): (r: seq<string>)
    ensures (forall i :: 0 <= i < |config| ==> config[i].0 != category) ==> r == []
  {
    if config == [] then []
    else if config[0].0 == category then config[0].1
    else Names(config[1..], category)
  }

  /** The list of a category is the one of its first entry. */
  lemma {:induction false} NamesFirstEntry(config: Config, category: string, i: nat)
    requires i < |config| && config[i].0 == category
    requires forall k :: 0 <= k < i ==> config[k].0 != category
    ensures Names(config, category) == config[i].1
  {
    if i > 0 {
      assert config[0].0 != category;
      NamesFirstEntry(config[1..], category, i - 1);
    }
  }

  /** One policy of a run: where it was selected and its catalog definition. */
  datatype Entry = Entry(category: string, name: string, flag: FlagData)

  /** The names of one category that the catalog knows, in order; the others
      are skipped (`if not flag_data: continue`). */
  function SelectedIn(flags: Catalog, category: string, names: seq<string>): seq<Entry>
  {
    if names == [] then []
    else
      var prev := SelectedIn(flags, category, names[..|names| - 1]);
      var name := names[|names| - 1];
      match Lookup(flags, category, name)
      case Some(flag) => prev + [Entry(category, name, flag)]
      case None => prev
  }

  /** The policies a check pass visits, in the order it visits them. */
  function Selected(flags: Catalog, config: Config): seq<Entry>
  {
    if config == [] then []
    else
      var last := config[|config| - 1];
      Selected(flags, config[..|config| - 1]) + SelectedIn(flags, last.0, last.1)
  }

  /** Every entry of `SelectedIn` is a catalog-known name of the list with its
      catalog definition, and every catalog-known name of the list has an
      entry. */
  lemma {:induction false} SelectedInExactly(flags: Catalog, category: string, names: seq<string>)
    ensures forall e :: e in SelectedIn(flags, category, names) ==>
      e.category == category && e.name in names && Lookup(flags, category, e.name) == Some(e.flag)
    ensures forall n :: n in names && Lookup(flags, category, n).Some? ==>
      Entry(category, n, Lookup(flags, category, n).value) in SelectedIn(flags, category, names)
  {
    if names != [] {
      var init := names[..|names| - 1];
      SelectedInExactly(flags, category, init);
      assert names == init + [names[|names| - 1]];
      assert forall n :: n in init ==> n in names;
    }
  }

  /** The policies of a run are exactly the catalog-known `(category, name)`
      pairs of the level. */
  lemma SelectedExactly(flags: Catalog, config: Config)
    ensures forall e :: e in Selected(flags, config) ==>
      Lookup(flags, e.category, e.name) == Some(e.flag)
      && exists i :: 0 <= i < |config| && config[i].0 == e.category && e.name in config[i].1
    ensures forall i, n :: 0 <= i < |config| && n in config[i].1 && Lookup(flags, config[i].0, n).Some? ==>
      Entry(config[i].0, n, Lookup(flags, config[i].0, n).value) in Selected(flags, config)
  {
    SelectedSound(flags, config);
    SelectedComplete(flags, config);
  }

  lemma {:induction false} SelectedSound(flags: Catalog, config: Config)
    ensures forall e :: e in Selected(flags, config) ==>
      Lookup(flags, e.category, e.name) == Some(e.flag)
      && exists i :: 0 <= i < |config| && config[i].0 == e.category && e.name in config[i].1
  {
    if config != [] {
      var init, last := config[..|config| - 1], config[|config| - 1];
      SelectedSound(flags, init);
      SelectedInExactly(flags, last.0, last.1);
      assert Selected(flags, config) == Selected(flags, init) + SelectedIn(flags, last.0, last.1);
      forall e | e in Selected(flags, config)
        ensures Lookup(flags, e.category, e.name) == Some(e.flag)
        ensures exists i :: 0 <= i < |config| && config[i].0 == e.category && e.name in config[i].1
      {
        if e in Selected(flags, init) {
          var i :| 0 <= i < |init| && init[i].0 == e.category && e.name in init[i].1;
          assert config[i] == init[i];
        } else {
          assert config[|config| - 1] == last;
        }
      }
    }
  }

  lemma {:induction false} SelectedComplete(flags: Catalog, config: Config)
    ensures forall i, n :: 0 <= i < |config| && n in config[i].1 && Lookup(flags, config[i].0, n).Some? ==>
      Entry(config[i].0, n, Lookup(flags, config[i].0, n).value) in Selected(flags, config)
  {
    if config != [] {
      var init, last := config[..|config| - 1], config[|config| - 1];
      SelectedComplete(flags, init);
      SelectedInExactly(flags, last.0, last.1);
      assert Selected(flags, config) == Selected(flags, init) + SelectedIn(flags, last.0, last.1);
      forall i, n | 0 <= i < |config| && n in config[i].1 && Lookup(flags, config[i].0, n).Some?
        ensures Entry(config[i].0, n, Lookup(flags, config[i].0, n).value) in Selected(flags, config)
      {
        if i < |init| {
          assert init[i] == config[i];
        }
      }
    }
  }

  /** With the shipped catalog a check yields 9 results at the strict level,
      4 at medium and 1 at easy. */
  lemma LevelResultCounts()
    ensures |Selected(WinFlags.WinFlags, StrongConfigs)| == 9
    ensures |Selected(WinFlags.WinFlags, MediumConfigs)| == 4
    ensures |Selected(WinFlags.WinFlags, EasyConfigs)| == 1
  {
    ShippedKnowsLevelNames();
    StrongCount(WinFlags.WinFlags);
    MediumCount(WinFlags.WinFlags);
    EasyCount(WinFlags.WinFlags);
  }

  /** 1 when the catalog defines the policy, 0 when the engine skips it. */
  function Known(flags: Catalog, category: string, name: string): (k: nat)
    ensures k == 1 <==> Lookup(flags, category, name).Some?
    ensures k <= 1
  {
    if Lookup(flags, category, name).Some? then 1 else 0
  }

  /** Which of the names the levels list a catalog defines: all but
      `MaximumPasswordAge`, `Browser` and `public_state`. */
  predicate KnowsLevelNames(flags: Catalog) {
    && Known(flags, "account_policy", "PasswordHistorySize") == 1
    && Known(flags, "account_policy", "MaximumPasswordAge") == 0
    && Known(flags, "account_policy", "MinimumPasswordLength") == 1
    && Known(flags, "account_policy", "LockoutBadCount") == 1
    && Known(flags, "service_control", "RemoteRegistry") == 1
    && Known(flags, "service_control", "bthserv") == 1
    && Known(flags, "service_control", "Browser") == 0
    && Known(flags, "service_control", "SharedAccess") == 1
    && Known(flags, "firewall", "private_state") == 1
    && Known(flags, "firewall", "public_state") == 0
    && Known(flags, "firewall", "inbound_default") == 1
    && Known(flags, "account_name", "Administrator_Rename") == 1
  }

  lemma ShippedKnowsLevelNames()
    ensures KnowsLevelNames(WinFlags.WinFlags)
  {
    ShippedAccountPolicies();
    ShippedServices();
    ShippedFirewall();
    ShippedAccountName();
  }

  lemma ShippedAccountPolicies()
    ensures Known(WinFlags.WinFlags, "account_policy", "PasswordHistorySize") == 1
    ensures Known(WinFlags.WinFlags, "account_policy", "MaximumPasswordAge") == 0
    ensures Known(WinFlags.WinFlags, "account_policy", "MinimumPasswordLength") == 1
    ensures Known(WinFlags.WinFlags, "account_policy", "LockoutBadCount") == 1
  {
  }

  lemma ShippedServices()
    ensures Known(WinFlags.WinFlags, "service_control", "RemoteRegistry") == 1
    ensures Known(WinFlags.WinFlags, "service_control", "bthserv") == 1
    ensures Known(WinFlags.WinFlags, "service_control", "Browser") == 0
    ensures Known(WinFlags.WinFlags, "service_control", "SharedAccess") == 1
  {
  }

  lemma ShippedFirewall()
    ensures Known(WinFlags.WinFlags, "firewall", "private_state") == 1
    ensures Known(WinFlags.WinFlags, "firewall", "public_state") == 0
    ensures Known(WinFlags.WinFlags, "firewall", "inbound_default") == 1
  {
  }

  lemma ShippedAccountName()
    ensures Known(WinFlags.WinFlags, "account_name", "Administrator_Rename") == 1
  {
  }

  lemma StrongCount(flags: Catalog)
    requires KnowsLevelNames(flags)
    ensures |Selected(flags, StrongConfigs)| == 9
  {
    var s := StrongConfigs;
    Count4(flags, s[0].0, s[0].1, 0, 1, 1);
    Count4(flags, s[1].0, s[1].1, 1, 0, 1);
    Count3(flags, s[2].0, s[2].1, 0, 1);
    assert |SelectedIn(flags, s[3].0, s[3].1)| == 1;
    assert s[..4][..3] == s[..3] && s[..3][..2] == s[..2] && s[..2][..1] == s[..1] && s[..1][..0] == [];
    assert |Selected(flags, s[..1])| == 3;
    assert |Selected(flags, s[..2])| == 6;
    assert |Selected(flags, s[..3])| == 8;
    assert s[..4] == s;
  }

  lemma MediumCount(flags: Catalog)
    requires KnowsLevelNames(flags)
    ensures |Selected(flags, MediumConfigs)| == 4
  {
    var m := MediumConfigs;
    assert m[0].1[..2][..1] == m[0].1[..1] && m[0].1[..1][..0] == [] && m[0].1[..2] == m[0].1;
    assert |SelectedIn(flags, m[0].0, m[0].1[..1])| == 1;
    assert |SelectedIn(flags, m[0].0, m[0].1)| == 2;
    assert |SelectedIn(flags, m[1].0, m[1].1)| == 1;
    assert |SelectedIn(flags, m[2].0, m[2].1)| == 1;
    assert m[..3][..2] == m[..2] && m[..2][..1] == m[..1] && m[..1][..0] == [];
    assert |Selected(flags, m[..1])| == 2;
    assert |Selected(flags, m[..2])| == 3;
    assert m[..3] == m;
  }

  lemma EasyCount(flags: Catalog)
    requires KnowsLevelNames(flags)
    ensures |Selected(flags, EasyConfigs)| == 1
  {
    var e := EasyConfigs;
    assert |SelectedIn(flags, e[0].0, e[0].1)| == 1;
    assert e[..1][..0] == [] && e[..1] == e;
  }

  lemma Count3(flags: Catalog, category: string, n: seq<string>, k1: nat, k2: nat)
    requires |n| == 3 && Known(flags, category, n[0]) == 1
    requires Known(flags, category, n[1]) == k1 && Known(flags, category, n[2]) == k2
    ensures |SelectedIn(flags, category, n)| == 1 + k1 + k2
  {
    assert n[..3][..2] == n[..2] && n[..2][..1] == n[..1] && n[..1][..0] == [];
    assert |SelectedIn(flags, category, n[..1])| == 1;
    assert |SelectedIn(flags, category, n[..2])| == 1 + k1;
    assert n[..3] == n;
  }

  lemma Count4(flags: Catalog, category: string, n: seq<string>, k1: nat, k2: nat, k3: nat)
    requires |n| == 4 && Known(flags, category, n[0]) == 1 && Known(flags, category, n[1]) == k1
    requires Known(flags, category, n[2]) == k2 && Known(flags, category, n[3]) == k3
    ensures |SelectedIn(flags, category, n)| == 1 + k1 + k2 + k3
  {
    Count3(flags, category, n[..3], k1, k2);
    assert n[..4][..3] == n[..3] && n[..4] == n;
  }

  /** The strict level names three policies the catalog does not have; the
      engine skips them. */
  lemma StrictNamesUnknownPolicies()
    ensures "MaximumPasswordAge" in Names(StrongConfigs, "account_policy")
      && Lookup(WinFlags.WinFlags, "account_policy", "MaximumPasswordAge") == None
    ensures "Browser" in Names(StrongConfigs, "service_control")
      && Lookup(WinFlags.WinFlags, "service_control", "Browser") == None
    ensures "public_state" in Names(StrongConfigs, "firewall")
      && Lookup(WinFlags.WinFlags, "firewall", "public_state") == None
  {
    ShippedKnowsLevelNames();
  }

  /** Each level selects a subset of the next stricter one, category by
      category. */
  lemma LevelsNested()
    ensures forall c, n :: n in Names(EasyConfigs, c) ==> n in Names(MediumConfigs, c)
    ensures forall c, n :: n in Names(MediumConfigs, c) ==> n in Names(StrongConfigs, c)
  {
  }

  /** The easy level lists account policies only. */
  lemma EasyIsAccountPolicyOnly()
    ensures forall c :: c != "account_policy" ==> Names(EasyConfigs, c) == []
  {
  }

  predicate NoDuplicates(names: seq<string>) {
    forall i, j :: 0 <= i < j < |names| ==> names[i] != names[j]
  }

  /** No category twice, and no policy twice within a category. */
  predicate DuplicateFree(config: Config) {
    (forall i, j :: 0 <= i < j < |config| ==> config[i].0 != config[j].0)
    && forall i :: 0 <= i < |config| ==> NoDuplicates(config[i].1)
  }

  lemma LevelsHaveNoDuplicates()
    ensures DuplicateFree(StrongConfigs) && DuplicateFree(MediumConfigs) && DuplicateFree(EasyConfigs)
  {
    StrongDuplicateFree();
  }

  lemma StrongDuplicateFree()
    ensures DuplicateFree(StrongConfigs)
  {
    var c := StrongConfigs;
    assert NoDuplicates(c[0].1);
    assert NoDuplicates(c[1].1);
    assert NoDuplicates(c[2].1);
  }
}

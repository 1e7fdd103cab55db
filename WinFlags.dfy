/**
  The catalog of Windows policies the engine knows (`WIN_FLAGS`) and the bulk
  export command of the check pass.
 */
module WinFlags {
  import opened Wrappers
  import opened Text

  /** Exports the local security policy to `temp_export.inf` in the working
      directory; the check pass runs it once before reading any policy. */
  const SeceditExportCommand := "secedit /export /cfg temp_export.inf /areas securitypolicy /quiet"

  /** How the current value of a policy is read (`check_type`), together with
      the query command (`get_command`) of the strategies that run one. */
  datatype Check =
    | InfParse
    | ScQuery(getCommand: string)
    | NetshFw(getCommand: string)
    | NetUser(getCommand: string)

  /** One catalog entry. `value` and `section` are carried as data; the engine
      never reads them. */
  datatype FlagData = FlagData(
    value: string,
    target: string,
    check: Check,
    setCommand: Option<string>,
    section: Option<string>)

  /** category -> policy name -> definition */
  type Catalog = map<string, map<string, FlagData>>

  const WinFlags: Catalog := map[
    "account_policy" := map[
      "MinimumPasswordLength" := FlagData("unknown", "12", InfParse, None, Some("System Access")),
      "LockoutBadCount" := FlagData("unknown", "5", InfParse, None, Some("System Access")),
      "PasswordHistorySize" := FlagData("unknown", "24", InfParse, None, Some("System Access"))
    ],
    "service_control" := map[
      "RemoteRegistry" := FlagData("unknown", "4", ScQuery("sc qc \"RemoteRegistry\""),
        Some("sc config \"RemoteRegistry\" start= disabled"), None),
      "bthserv" := FlagData("unknown", "4", ScQuery("sc qc \"bthserv\""),
        Some("sc config \"bthserv\" start= disabled"), None),
      "SharedAccess" := FlagData("unknown", "4", ScQuery("sc qc \"SharedAccess\""),
        Some("sc config \"SharedAccess\" start= disabled"), None)
    ],
    "firewall" := map[
      "private_state" := FlagData("unknown", "ON",
        NetshFw("netsh advfirewall show privateprofile state | findstr /I \"State\""),
        Some("netsh advfirewall set privateprofile state on"), None),
      "inbound_default" := FlagData("unknown", "BlockInboundDefault",
        NetshFw("netsh advfirewall show allprofiles firewallpolicy | findstr /I \"Inbound Default\""),
        Some("netsh advfirewall set allprofiles firewallpolicy blockinbound,allowoutbound"), None)
    ],
    "account_name" := map[
      "Administrator_Rename" := FlagData("Administrator", "ProtegoAdmin",
        NetUser("net user Administrator"),
        Some("net user Administrator ProtegoAdmin"), None)
    ]
  ]

  /** `WIN_FLAGS.get(category, {}).get(name)`, for a catalog `flags` (the
      engine's is `WinFlags`). */
  function Lookup(flags: Catalog, category: string, name: string): (r: Option<FlagData>)
    ensures r.Some? <==> category in flags && name in flags[category]
    ensures r.Some? ==> r.value == flags[category][name]
  {
    if category in flags && name in flags[category] then Some(flags[category][name]) else None
  }

  /** Account policies are read from the exported INF file and have neither a
      query nor an apply command of their own (secedit applies them in bulk). */
  lemma AccountPoliciesParseInf()
    ensures forall n :: n in WinFlags["account_policy"] ==>
      WinFlags["account_policy"][n].check == InfParse && WinFlags["account_policy"][n].setCommand == None
  {
  }

  /** Every service is read with `sc qc`, must end up disabled (start type 4),
      and has an apply command. */
  lemma ServicesQueryStartType()
    ensures forall n :: n in WinFlags["service_control"] ==>
      WinFlags["service_control"][n].check.ScQuery? && WinFlags["service_control"][n].target == "4"
      && WinFlags["service_control"][n].setCommand.Some?
  {
  }

  /** Every firewall setting is read with `netsh` and has an apply command. */
  lemma FirewallQueriesNetsh()
    ensures forall n :: n in WinFlags["firewall"] ==>
      WinFlags["firewall"][n].check.NetshFw? && WinFlags["firewall"][n].setCommand.Some?
  {
  }

  /** The administrator rename uses a strategy no branch of the check pass
      reads. */
  lemma AdminRenameIsNetUser()
    ensures "Administrator_Rename" in WinFlags["account_name"]
    ensures WinFlags["account_name"]["Administrator_Rename"].check.NetUser?
    ensures WinFlags["account_name"]["Administrator_Rename"].setCommand.Some?
  {
  }

  /** No policy name is used in two categories. */
  lemma PolicyNamesUnique()
    ensures forall c1, c2, n :: c1 in WinFlags && c2 in WinFlags && n in WinFlags[c1] && n in WinFlags[c2] ==> c1 == c2
  {
  }
}

/**
  The plain-text compliance report (`create_compliance_report`): a header, one
  block per result, and a summary that counts successes and failures.
 */
module Reporting {
  import opened Wrappers
  import opened Text
  import opened Clock
  import opened Host

  /** A result as the report reads it: a dictionary from field names to
      values. */
  type Record = map<string, string>

  /** `result.get(key, 'N/A')` */
  function Field(r: Record, key: string): (v: string)
    ensures key !in r ==> v == "N/A"
    ensures key in r ==> v == r[key]
  {
    if key in r then r[key] else "N/A"
  }

  /** A status counts as a success only when it is exactly "COMPLIANT" or
      "SUCCESS"; anything else, a missing status included, is a failure. */
  predicate IsSuccess(r: Record) {
    Field(r, "status") == "COMPLIANT" || Field(r, "status") == "SUCCESS"
  }

  const Rule := Repeat('=', 50)
  const Divider := Repeat('-', 50)

  function Header(command: string, date: string, level: string): string {
    Concat([
      "--- Protego Compliance Report: " + command + " ---\n",
      "Date: " + date + "\n",
      "Hardening Level: " + level + "\n",
      Rule + "\n"])
  }

  /** The lines written for one result; `result['policy']` must exist. */
  function Block(r: Record): string
    requires "policy" in r
  {
    Concat([
      "POLICY: " + r["policy"] + "\n",
      "  Status: " + (if IsSuccess(r) then "SUCCESS" else "FAILURE") + "\n",
      "  Previous/State: " + Field(r, "previous") + "\n",
      "  Current/Final: " + Field(r, "current") + "\n",
      "  Target Value: " + Field(r, "target") + "\n",
      Divider + "\n"])
  }

  predicate AllHavePolicy(rs: seq<Record>) {
    forall i :: 0 <= i < |rs| ==> "policy" in rs[i]
  }

  function Blocks(rs: seq<Record>): string
    requires AllHavePolicy(rs)
  {
    if rs == [] then [] else Blocks(rs[..|rs| - 1]) + Block(rs[|rs| - 1])
  }

  function CountSuccess(rs: seq<Record>): nat {
    if rs == [] then 0 else CountSuccess(rs[..|rs| - 1]) + (if IsSuccess(rs[|rs| - 1]) then 1 else 0)
  }

  function CountFailure(rs: seq<Record>): nat {
    if rs == [] then 0 else CountFailure(rs[..|rs| - 1]) + (if IsSuccess(rs[|rs| - 1]) then 0 else 1)
  }

  function Summary(total: nat, compliant: nat, noncompliant: nat): string {
    Concat([
      "\n--- Summary ---\n",
      "Total Checks: " + Decimal(total) + "\n",
      "Compliant/Success: " + Decimal(compliant) + "\n",
      "Non-Compliant/Failure: " + Decimal(noncompliant) + "\n"])
  }

  /** The text of the report, or `None` when a result has no `policy` (the
      `KeyError` that aborts the report before anything is written). */
  function ReportText(rs: seq<Record>, command: string, date: string, level: string): Option<string> {
    if AllHavePolicy(rs) then
      Some(Header(command, date, level) + Blocks(rs) + Summary(|rs|, CountSuccess(rs), CountFailure(rs)))
    else None
  }

  /** Every result is counted exactly once, so the two counts add up to the
      total the summary prints. */
  lemma {:induction false} CountsPartition(rs: seq<Record>)
    ensures CountSuccess(rs) + CountFailure(rs) == |rs|
  {
    if rs != [] {
      CountsPartition(rs[..|rs| - 1]);
    }
  }

  /** The success count is the number of results whose status is a success. */
  lemma {:induction false} CountSuccessCounts(rs: seq<Record>)
    ensures CountSuccess(rs) == |set i | 0 <= i < |rs| && IsSuccess(rs[i])|
  {
    if rs != [] {
      CountSuccessCounts(rs[..|rs| - 1]);
      SuccessIndicesStep(rs);
    }
  }

  /** The successes among `rs` are those among all but its last result, and
      the last one when it is a success. */
  lemma SuccessIndicesStep(rs: seq<Record>)
    requires rs != []
    ensures var n := |rs| - 1;
      |set i | 0 <= i < |rs| && IsSuccess(rs[i])|
      == |set i | 0 <= i < n && IsSuccess(rs[..n][i])| + (if IsSuccess(rs[n]) then 1 else 0)
  {
    var n := |rs| - 1;
    var prev := set i | 0 <= i < n && IsSuccess(rs[..n][i]);
    var all := set i | 0 <= i < |rs| && IsSuccess(rs[i]);
    assert n !in prev;
    if IsSuccess(rs[n]) {
      assert all == prev + {n};
    } else {
      assert all == prev;
    }
  }

  /** The report exists exactly when every result names its policy; it
      opens with the command it reports on and closes with a summary whose
      two counts add up to its total. */
  lemma ReportShape(rs: seq<Record>, command: string, date: string, level: string)
    ensures ReportText(rs, command, date, level).Some? <==> AllHavePolicy(rs)
    ensures ReportText(rs, command, date, level).Some? ==>
      StartsWith(ReportText(rs, command, date, level).value, "--- Protego Compliance Report: " + command + " ---\n")
      && EndsWith(ReportText(rs, command, date, level).value,
        Summary(CountSuccess(rs) + CountFailure(rs), CountSuccess(rs), CountFailure(rs)))
  {
    CountsPartition(rs);
    if AllHavePolicy(rs) {
      var head := "--- Protego Compliance Report: " + command + " ---\n";
      var h := Header(command, date, level);
      var body := Blocks(rs);
      var tail := Summary(|rs|, CountSuccess(rs), CountFailure(rs));
      assert h == head + Concat([
        "Date: " + date + "\n",
        "Hardening Level: " + level + "\n",
        Rule + "\n"]);
      var text := h + body + tail;
      assert text[..|head|] == head;
      assert text[|text| - |tail|..] == tail;
    }
  }

  /** Builds the report text the way the source does, one result at a time,
      counting as it goes. */
  method BuildReport(rs: seq<Record>, command: string, date: string, level: string)
    returns (report: Option<string>)
    ensures report == ReportText(rs, command, date, level)
  {
    var text := Header(command, date, level);
    var compliant, noncompliant := 0, 0;
    var i := 0;
    while i < |rs|
      invariant 0 <= i <= |rs|
      invariant AllHavePolicy(rs[..i])
      invariant text == Header(command, date, level) + Blocks(rs[..i])
      invariant compliant == CountSuccess(rs[..i]) && noncompliant == CountFailure(rs[..i])
    {
      var r := rs[i];
      if "policy" !in r {
        return None;
      }
      ReportStep(Header(command, date, level), rs, i);
      if IsSuccess(r) {
        compliant := compliant + 1;
      } else {
        noncompliant := noncompliant + 1;
      }
      text := text + Block(r);
      i := i + 1;
    }
    assert rs[..i] == rs;
    report := Some(text + Summary(|rs|, compliant, noncompliant));
  }

  /** One more result in the report: its block follows the others, and it
      adds to one of the two counts. */
  lemma ReportStep(head: string, rs: seq<Record>, i: nat)
    requires i < |rs| && AllHavePolicy(rs[..i]) && "policy" in rs[i]
    ensures AllHavePolicy(rs[..i + 1])
    ensures head + Blocks(rs[..i]) + Block(rs[i]) == head + Blocks(rs[..i + 1])
    ensures CountSuccess(rs[..i + 1]) == CountSuccess(rs[..i]) + (if IsSuccess(rs[i]) then 1 else 0)
    ensures CountFailure(rs[..i + 1]) == CountFailure(rs[..i]) + (if IsSuccess(rs[i]) then 0 else 1)
  {
    assert rs[..i + 1][..i] == rs[..i];
    assert Blocks(rs[..i + 1]) == Blocks(rs[..i]) + Block(rs[i]);
  }

  /** `create_compliance_report`: reads the clock for the date line, builds the
      text and writes it to `filename` in the working directory. `false` when
      it raises instead: a result without a policy, or a file that cannot be
      opened. */
  function ReportSpec(env: Env, w: World, rs: seq<Record>, command: string, filename: string, level: string)
    : (World, bool)
  {
    var (w1, t) := Tick(env, w);
    match ReportText(rs, command, DisplayStamp(t), level)
    case None => (w1, false)
    case Some(text) => WriteFile(env, w1, filename, text)
  }

  /** A report touches nothing but its own file and the clock, and when it
      succeeds the file holds the report dated with the moment it read. */
  lemma ReportWritesOnlyItsFile(env: Env, w: World, rs: seq<Record>, command: string, filename: string, level: string)
    ensures var (w', ok) := ReportSpec(env, w, rs, command, filename, level);
      && w'.issued == w.issued && w'.dirs == w.dirs && w'.ticks == w.ticks + 1
      && (forall p :: p != filename ==> (p in w'.files <==> p in w.files))
      && (forall p :: p != filename && p in w.files ==> w'.files[p] == w.files[p])
      && (ok <==> AllHavePolicy(rs) && filename !in env.unwritable)
      && (ok ==>
        filename in w'.files
        && Some(w'.files[filename]) == ReportText(rs, command, DisplayStamp(env.clock(w.ticks)), level))
  {
  }

  /** Runs `create_compliance_report` on the machine. */
  method CreateComplianceReport(host: Host, rs: seq<Record>, command: string, filename: string, level: string)
    returns (ok: bool)
    modifies host
    ensures (host.State(), ok) == ReportSpec(host.env, old(host.State()), rs, command, filename, level)
  {
    var t := host.Now();
    var report := BuildReport(rs, command, DisplayStamp(t), level);
    match report
    case None =>
      ok := false;
    case Some(text) =>
      ok := host.Write(filename, text);
  }
}

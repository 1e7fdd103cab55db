/**
  The three ways the check pass reads the current value of a policy, and the
  comparison that decides compliance.
 */
module Extract {
  import opened Wrappers
  import opened Text

  /** The value a policy keeps when nothing could be read. */
  const NotAvailable := "N/A"
  /** The value of an INF-parsed policy when the export file is missing. */
  const InfMissing := "INF File Missing"
  /** The value of a firewall policy whose query ran but did not show the target. */
  const IncorrectSetting := "INCORRECT SETTING"

  const Compliant := "COMPLIANT"
  const NonCompliant := "NON-COMPLIANT"

  /** `line.strip().startswith(name)` */
  predicate LineFor(line: string, name: string) {
    StartsWith(Strip(line), name)
  }

  /** Line `k` is the first line for `name`. */
  predicate IsFirstLineFor(lines: seq<string>, name: string, k: int) {
    0 <= k < |lines| && LineFor(lines[k], name) && forall j :: 0 <= j < k ==> !LineFor(lines[j], name)
  }

  /** The scan of the export file, from line `i` on, that stops at the first
      line for `name`. */
  function FirstLineFor(lines: seq<string>, name: string, i: nat): (r: Option<nat>)
    requires i <= |lines|
    ensures r.Some? ==>
      i <= r.value < |lines| && LineFor(lines[r.value], name)
      && forall j :: i <= j < r.value ==> !LineFor(lines[j], name)
    ensures r.None? ==> forall j :: i <= j < |lines| ==> !LineFor(lines[j], name)
    decreases |lines| - i
  {
    if i == |lines| then None
    else if LineFor(lines[i], name) then Some(i)
    else FirstLineFor(lines, name, i + 1)
  }

  /** `INF_PARSE`: the trimmed text after the last `=` of the first line whose
      trimmed text starts with the policy name. */
  function InfValue(exported: Option<string>, name: string): (r: string)
    ensures exported == None ==> r == InfMissing
  {
    match exported
    case None => InfMissing
    case Some(text) =>
      var lines := Lines(text);
      match FirstLineFor(lines, name, 0)
      case None => NotAvailable
      case Some(k) => Strip(AfterLast(lines[k], '='))
  }

  /** With the export present, the value is "N/A" when no line is for the
      policy, and otherwise the trimmed text after the last `=` of the first
      line that is. */
  lemma InfValueFirstLine(text: string, name: string)
    ensures (forall k :: 0 <= k < |Lines(text)| ==> !LineFor(Lines(text)[k], name)) ==>
      InfValue(Some(text), name) == NotAvailable
    ensures forall k :: IsFirstLineFor(Lines(text), name, k) ==>
      InfValue(Some(text), name) == Strip(AfterLast(Lines(text)[k], '='))
  {
    var lines := Lines(text);
    match FirstLineFor(lines, name, 0)
    case None =>
    case Some(k) =>
      forall j | IsFirstLineFor(lines, name, j)
        ensures j == k
      {
        if j < k {
        } else if k < j {
        }
      }
  }

  /** The end of the run of spaces that starts at `i`. */
  function SpacesEnd(s: string, i: nat): (j: nat)
    requires i <= |s|
    ensures i <= j <= |s| && (j == |s| || !IsSpace(s[j]))
    ensures forall k :: i <= k < j ==> IsSpace(s[k])
    decreases |s| - i
  {
    if i == |s| || !IsSpace(s[i]) then i else SpacesEnd(s, i + 1)
  }

  /** The end of the run of digits that starts at `i`. */
  function DigitsEnd(s: string, i: nat): (j: nat)
    requires i <= |s|
    ensures i <= j <= |s| && (j == |s| || !IsDigit(s[j]))
    ensures forall k :: i <= k < j ==> IsDigit(s[k])
    decreases |s| - i
  {
    if i == |s| || !IsDigit(s[i]) then i else DigitsEnd(s, i + 1)
  }

  const StartTypeLabel := "START_TYPE"

  /** `START_TYPE\s+:\s+(\d+)` spelled out at `p`: the label, spaces up to
      the colon at `b`, spaces up to `d`, and the digits `d..e`, which the
      greedy `\d+` takes up to the first non-digit. */
  predicate StartTypeMatch(s: string, p: nat, b: nat, d: nat, e: nat) {
    p + |StartTypeLabel| < b && b + 1 < d < e <= |s|
    && s[p..p + |StartTypeLabel|] == StartTypeLabel
    && (forall k :: p + |StartTypeLabel| <= k < b ==> IsSpace(s[k]))
    && s[b] == ':'
    && (forall k :: b < k < d ==> IsSpace(s[k]))
    && (forall k :: d <= k < e ==> IsDigit(s[k]))
    && (e == |s| || !IsDigit(s[e]))
  }

  /** The group `START_TYPE\s+:\s+(\d+)` captures when the pattern matches
      at `p`: exactly a spelled-out occurrence there (`StartTypeAtRuns` gives
      the other direction). Spaces cannot be a colon or a digit, so the
      greedy repetitions never give anything back. */
  function StartTypeAt(s: string, p: nat): (r: Option<string>)
    requires p <= |s|
    ensures r.Some? ==>
      r.value != [] && exists b: nat, d: nat, e: nat :: StartTypeMatch(s, p, b, d, e) && r.value == s[d..e]
  {
    if !StartsWith(s[p..], StartTypeLabel) then None
    else
      var a := p + |StartTypeLabel|;
      var b := SpacesEnd(s, a);
      if b == a || b == |s| || s[b] != ':' then None
      else
        var d := SpacesEnd(s, b + 1);
        if d == b + 1 then None
        else
          var e := DigitsEnd(s, d);
          if e == d then None
          else
            assert s[p..p + |StartTypeLabel|] == s[p..][..|StartTypeLabel|];
            assert StartTypeMatch(s, p, b, d, e);
            Some(s[d..e])
  }

  /** `re.search`: the leftmost position at or after `p` where the pattern
      matches. */
  function FirstStartType(s: string, p: nat): (r: Option<nat>)
    requires p <= |s|
    ensures r.Some? ==>
      p <= r.value <= |s| && StartTypeAt(s, r.value).Some?
      && forall q :: p <= q < r.value ==> StartTypeAt(s, q).None?
    ensures r.None? ==> forall q :: p <= q <= |s| ==> StartTypeAt(s, q).None?
    decreases |s| - p
  {
    if StartTypeAt(s, p).Some? then Some(p)
    else if p == |s| then None
    else FirstStartType(s, p + 1)
  }

  /** `SC_QUERY`: the start-type code of a successful `sc qc`, else "N/A". */
  function ScValue(ok: bool, output: string): (r: string)
    ensures !ok ==> r == NotAvailable
    ensures ok && FirstStartType(output, 0).None? ==> r == NotAvailable
    ensures ok && FirstStartType(output, 0).Some? ==>
      r != [] && Some(r) == StartTypeAt(output, FirstStartType(output, 0).value)
  {
    if !ok then NotAvailable
    else match FirstStartType(output, 0)
      case None => NotAvailable
      case Some(p) => StartTypeAt(output, p).value
  }

  /** `NETSH_FW`: the target itself when the successful query's output shows
      it (ignoring case), a fixed marker when it does not, "N/A" when the
      query failed. */
  function NetshValue(ok: bool, output: string, target: string): (r: string)
    ensures !ok ==> r == NotAvailable
    ensures ok && Contains(Upper(output), Upper(target)) ==> r == target
    ensures ok && !Contains(Upper(output), Upper(target)) ==> r == IncorrectSetting
  {
    if !ok then NotAvailable
    else if Contains(Upper(output), Upper(target)) then target
    else IncorrectSetting
  }

  /** `'COMPLIANT'` when the upper-cased current and target values are equal,
      otherwise `'NON-COMPLIANT'`. */
  function StatusOf(current: string, target: string): (r: string)
    ensures r == Compliant || r == NonCompliant
  {
    if Upper(current) == Upper(target) then Compliant else NonCompliant
  }

  /** Compliance is equality up to case, character by character. */
  lemma {:induction false} StatusIgnoresCase(current: string, target: string)
    ensures StatusOf(current, target) == Compliant <==>
      |current| == |target| && forall i :: 0 <= i < |current| ==> UpperChar(current[i]) == UpperChar(target[i])
  {
    if |current| == |target| && forall i :: 0 <= i < |current| ==> UpperChar(current[i]) == UpperChar(target[i]) {
      assert Upper(current) == Upper(target);
    }
  }

  lemma UpperIdempotent(s: string)
    ensures Upper(Upper(s)) == Upper(s)
  {
  }

  /** A successful firewall query is compliant exactly when the output shows
      the target, ignoring case, unless the target is itself the
      "incorrect setting" marker. A failed query is compliant only for a
      target of "N/A". */
  lemma NetshCompliantIff(ok: bool, output: string, target: string)
    ensures ok ==> (StatusOf(NetshValue(ok, output, target), target) == Compliant <==>
      Contains(Upper(output), Upper(target)) || Upper(target) == IncorrectSetting)
    ensures !ok ==> (StatusOf(NetshValue(ok, output, target), target) == Compliant <==>
      Upper(target) == NotAvailable)
  {
    assert Upper(IncorrectSetting) == IncorrectSetting;
    assert Upper(NotAvailable) == NotAvailable;
  }

  /** `sc qc` output (the service name and type lines come first): when the
      first spelled-out occurrence of the pattern is at `p`, with no match
      anywhere before it, the query's value is the digits of that
      occurrence. */
  lemma StartTypeCaptures(s: string, p: nat, b: nat, d: nat, e: nat)
    requires StartTypeMatch(s, p, b, d, e)
    requires forall q :: 0 <= q < p ==> StartTypeAt(s, q).None?
    ensures FirstStartType(s, 0) == Some(p)
    ensures ScValue(true, s) == s[d..e]
  {
    StartTypeAtRuns(s, p, b, d, e);
    FirstStartTypeAt(s, 0, p);
  }

  /** The pattern spelled out at the head of the output: the label, spaces,
      the colon, spaces, the digits, then anything but a digit. The query's
      value is the digits. */
  lemma SpelledStartType(sp1: string, sp2: string, digits: string, rest: string)
    requires sp1 != [] && forall k :: 0 <= k < |sp1| ==> IsSpace(sp1[k])
    requires sp2 != [] && forall k :: 0 <= k < |sp2| ==> IsSpace(sp2[k])
    requires digits != [] && forall k :: 0 <= k < |digits| ==> IsDigit(digits[k])
    requires rest == [] || !IsDigit(rest[0])
    ensures StartTypeAt(StartTypeLabel + sp1 + ":" + sp2 + digits + rest, 0) == Some(digits)
    ensures ScValue(true, StartTypeLabel + sp1 + ":" + sp2 + digits + rest) == digits
  {
    var s := StartTypeLabel + sp1 + ":" + sp2 + digits + rest;
    var a := |StartTypeLabel|;
    var b := a + |sp1|;
    var d := b + 1 + |sp2|;
    var e := d + |digits|;
    assert s[0..a] == StartTypeLabel;
    assert s[a..b] == sp1 && s[b] == ':' && s[b + 1..d] == sp2 && s[d..e] == digits && s[e..] == rest;
    StartTypeAtRuns(s, 0, b, d, e);
  }

  /** The pattern matches at `p` as spelled out there, and captures the
      digits; with the `ensures` of `StartTypeAt`, a match at `p` is exactly
      a spelled-out occurrence. */
  lemma StartTypeAtRuns(s: string, p: nat, b: nat, d: nat, e: nat)
    requires StartTypeMatch(s, p, b, d, e)
    ensures StartTypeAt(s, p) == Some(s[d..e])
  {
    assert s[p..][..|StartTypeLabel|] == s[p..p + |StartTypeLabel|];
    assert !IsSpace(s[b]) && IsDigit(s[d]) && !IsSpace(s[d]);
    SpacesRun(s, p + |StartTypeLabel|, b);
    SpacesRun(s, b + 1, d);
    DigitsRun(s, d, e);
    StartTypeAtEnds(s, p, b, d, e);
  }

  /** The pattern read through the ends of its runs. */
  lemma StartTypeAtEnds(s: string, p: nat, b: nat, d: nat, e: nat)
    requires p + |StartTypeLabel| <= |s| && StartsWith(s[p..], StartTypeLabel)
    requires p + |StartTypeLabel| < b < |s| && s[b] == ':' && SpacesEnd(s, p + |StartTypeLabel|) == b
    requires b + 1 < d <= |s| && SpacesEnd(s, b + 1) == d
    requires d < e <= |s| && DigitsEnd(s, d) == e
    ensures StartTypeAt(s, p) == Some(s[d..e])
  {
  }

  /** `re.search` from `p` finds `m` when the pattern matches at `m` and
      nowhere between. */
  lemma {:induction false} FirstStartTypeAt(s: string, p: nat, m: nat)
    requires p <= m <= |s| && StartTypeAt(s, m).Some?
    requires forall q :: p <= q < m ==> StartTypeAt(s, q).None?
    ensures FirstStartType(s, p) == Some(m)
    decreases m - p
  {
    if p < m {
      FirstStartTypeAt(s, p + 1, m);
    }
  }

  lemma {:induction false} SpacesRun(s: string, i: nat, j: nat)
    requires i <= j <= |s| && (j == |s| || !IsSpace(s[j]))
    requires forall k :: i <= k < j ==> IsSpace(s[k])
    ensures SpacesEnd(s, i) == j
    decreases j - i
  {
    if i < j {
      SpacesRun(s, i + 1, j);
    }
  }

  lemma {:induction false} DigitsRun(s: string, i: nat, j: nat)
    requires i <= j <= |s| && (j == |s| || !IsDigit(s[j]))
    requires forall k :: i <= k < j ==> IsDigit(s[k])
    ensures DigitsEnd(s, i) == j
    decreases j - i
  {
    if i < j {
      DigitsRun(s, i + 1, j);
    }
  }
}

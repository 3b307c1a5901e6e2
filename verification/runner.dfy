/** The step runner of `src/executor/runner.ts`: running one step (with its
    dependency check), the batch loop over a plan, the uninstall short-circuit and
    its command parsers, and the pieces of the report.

    The shell is not modelled. Every command the runner starts is recorded, in
    order, in a trace of events, and a `Host` answers each command as a function
    of the trace so far, so a later check may see what an earlier install did. */
module Runner {
  import opened Wrappers
  import opened Strings
  import opened Registry
  import opened RegistryDeps
  import opened TopologicalSorter
  import opened Providers
  import opened ExecutionPlanner

  // ---------------------------------------------------------------------------
  // Results and the outside world

  /** `ExecuteResult.action`: the action, or `"skip"`. */
  datatype Outcome = Act(action: Action) | Skip

  /** `ExecuteResult` (the duration is not modelled). */
  datatype ExecuteResult = ExecuteResult(step: Step, action: Outcome, success: bool, message: Option<string>)

  /** A shell command the runner started: a step's check, a step's own command, or
      a query of what is installed. */
  datatype Event = Checked(command: string) | Ran(command: string) | Probed(command: string)

  /** `JSON.parse` of `pipx list --json`: `venvs` and `packages` when present as
      objects (each entry's truthiness), `None` otherwise. */
  datatype PipxJson = PipxJson(venvs: Option<map<string, bool>>, packages: Option<map<string, bool>>)

  /** The answers of the outside world, each given the trace of commands so far. */
  datatype Host = Host(
    checks: (seq<Event>, string) -> bool,            // the check command exits with 0
    runs: (seq<Event>, string) -> Option<string>,    // `None`: exit 0; otherwise the error message
    output: (seq<Event>, string) -> Option<string>,  // a query's stdout; `None` when it fails
    parseJson: string -> Option<PipxJson>,           // `None` when `JSON.parse` throws
    planOutput: string -> Option<string>,            // `brew uses` output while planning
    npmListing: Option<NpmTree>)                     // `npm ls -g --all --json` while planning

  /** The message keys of `t(...)`, as opaque constants. */
  const DepsNotSatisfied: string := "depsNotSatisfied"

  function ActionName(action: Action): string {
    match action
    case Install => "install"
    case Upgrade => "upgrade"
    case Uninstall => "uninstall"
  }

  /** The step's command for the action. */
  function Command(step: Step, action: Action): Option<string> {
    match action
    case Install => step.install
    case Upgrade => step.upgrade
    case Uninstall => step.uninstall
  }

  function NoCommand(step: Step, action: Action): ExecuteResult {
    ExecuteResult(step, Act(action), false, Some("No " + ActionName(action) + " command"))
  }

  function DepsNotMet(step: Step, action: Action): ExecuteResult {
    ExecuteResult(step, Act(action), false, Some(DepsNotSatisfied))
  }

  function Skipped(step: Step): ExecuteResult {
    ExecuteResult(step, Skip, true, None)
  }

  /** A step whose own command ran: it succeeded exactly when the command exited with 0. */
  function Finished(step: Step, action: Action, error: Option<string>): ExecuteResult {
    ExecuteResult(step, Act(action), error.None?, error)
  }

  // ---------------------------------------------------------------------------
  // `isBrewDependencyError`

  /** Brew refused an uninstall because other formulae need the package (both
      phrases matched ignoring case). */
  predicate IsBrewDependencyError(message: string) {
    Contains(ToLower(message), "refusing to uninstall") && Contains(ToLower(message), "required by")
  }

  lemma ToLowerAppend(a: string, b: string)
    ensures ToLower(a + b) == ToLower(a) + ToLower(b)
  {
    var ab := a + b;
    var l, la, lb := ToLower(ab), ToLower(a), ToLower(b);
    forall i | 0 <= i < |l| ensures l[i] == (la + lb)[i] {
      if i < |a| {
        assert ab[i] == a[i] && (la + lb)[i] == la[i];
      } else {
        assert ab[i] == b[i - |a|] && (la + lb)[i] == lb[i - |a|];
      }
    }
    assert l == la + lb;
  }

  /** The test ignores case. */
  lemma BrewDependencyErrorIgnoresCase(message: string)
    ensures IsBrewDependencyError(ToLower(message)) == IsBrewDependencyError(message)
  {
    ToLowerIdempotent(message);
  }

  lemma OccursAtEnd(x: string, p: string)
    ensures OccursAt(x + p, p, |x|)
  {
    assert (x + p)[|x|..|x| + |p|] == p;
  }

  lemma OccursExtended(x: string, p: string, i: int, y: string)
    requires OccursAt(x, p, i)
    ensures OccursAt(x + y, p, i)
  {
    assert (x + y)[i..i + |p|] == x[i..i + |p|];
  }

  /** Brew's refusal message is recognised whatever the case of its two phrases and
      whatever surrounds them. */
  lemma BrewDependencyErrorPhrases(a: string, p: string, b: string, q: string, c: string)
    requires ToLower(p) == "refusing to uninstall" && ToLower(q) == "required by"
    ensures IsBrewDependencyError(a + p + b + q + c)
  {
    ToLowerAppend(a, p);
    ToLowerAppend(a + p, b);
    ToLowerAppend(a + p + b, q);
    ToLowerAppend(a + p + b + q, c);
    var la, lp, lb, lq, lc := ToLower(a), ToLower(p), ToLower(b), ToLower(q), ToLower(c);
    OccursAtEnd(la, lp);
    OccursExtended(la + lp, lp, |la|, lb);
    OccursExtended(la + lp + lb, lp, |la|, lq);
    OccursExtended(la + lp + lb + lq, lp, |la|, lc);
    OccursAtEnd(la + lp + lb, lq);
    OccursExtended(la + lp + lb + lq, lq, |la + lp + lb|, lc);
  }

  // ---------------------------------------------------------------------------
  // The uninstall targets (`parseBrewUninstallTarget` and the two others)

  /** The loop of `parseBrewUninstallTarget` from token `i` on, with the `--cask`
      flag seen so far. */
  function BrewTargetScan(ts: seq<string>, i: nat, cask: bool): Option<(string, bool)>
    decreases |ts| - i
  {
    if i >= |ts| then None
    else if ts[i] == "--cask" then BrewTargetScan(ts, i + 1, true)
    else if IsFlag(ts[i]) then BrewTargetScan(ts, i + 1, cask)
    else Some((ts[i], cask))
  }

  /** `parseBrewUninstallTarget`: the name and the cask flag. */
  function ParseBrewTarget(command: string): Option<(string, bool)> {
    BrewTargetTokens(SegmentTokens(command))
  }

  /** The same on the command's tokens: the first `brew`, the first `uninstall` after
      it, then the scan. */
  function BrewTargetTokens(ts: seq<string>): Option<(string, bool)> {
    var b := FindToken(ts, {"brew"}, 0);
    if b < 0 then None
    else
      var u := FindToken(ts, {"uninstall"}, b + 1);
      if u < 0 then None else BrewTargetScan(ts, u + 1, false)
  }

  /** `parsePipxUninstallTarget`. */
  function ParsePipxTarget(command: string): Option<string> {
    Operand(command, PipxChain)
  }

  /** `parseUvToolUninstallTarget`. */
  function ParseUvTarget(command: string): Option<string> {
    Operand(command, UvChain)
  }

  /** The scan reads the first non-flag token, a cask when `--cask` (or the flag
      already seen) comes before it: brew's provider reading. */
  lemma {:induction false} BrewTargetScanOperand(ts: seq<string>, k: nat, i: nat, cask: bool)
    requires k <= i
    requires cask == CaskBetween(ts, k, i)
    requires forall j :: k <= j < i && j < |ts| ==> IsFlag(ts[j])
    ensures BrewTargetScan(ts, i, cask) ==
      match BrewOperand(ts, k)
      case None => None
      case Some(info) => Some((info.name, info.cask == Some(true)))
    decreases |ts| - i
  {
    var j := FirstOperand(ts, k);
    if i >= |ts| {
      assert j == -1;
    } else if ts[i] == "--cask" {
      assert CaskBetween(ts, k, i + 1);
      BrewTargetScanOperand(ts, k, i + 1, true);
    } else if IsFlag(ts[i]) {
      assert CaskBetween(ts, k, i + 1) == cask by {
        if CaskBetween(ts, k, i + 1) {
          var m :| k <= m < i + 1 && m < |ts| && ts[m] == "--cask";
          assert m < i;
        }
      }
      BrewTargetScanOperand(ts, k, i + 1, cask);
    } else {
      assert j == i;
    }
  }

  /** On tokens, the runner's brew parser reads what brew's provider reads. */
  lemma BrewTargetTokensAgree(ts: seq<string>)
    ensures BrewTargetTokens(ts) ==
      match BrewTokens(ts)
      case None => None
      case Some(info) => Some((info.name, info.cask == Some(true)))
  {
    ChainStep(ts, BrewChain, 0);
    var b := FindToken(ts, {"brew"}, 0);
    if b >= 0 {
      ChainStep(ts, BrewChain[1..], b + 1);
      assert BrewChain[1..][1..] == [];
      var u := FindToken(ts, {"uninstall"}, b + 1);
      if u >= 0 {
        assert AfterKeywords(ts, BrewChain, 0) == u + 1;
        assert !CaskBetween(ts, u + 1, u + 1);
        BrewTargetScanOperand(ts, u + 1, u + 1, false);
      }
    }
  }

  /** The runner's brew parser reads the same package as brew's provider on the same
      (non-empty) uninstall command. */
  lemma BrewParserAgrees(step: Step, command: string)
    requires step.uninstall == Some(command) && command != ""
    ensures ParseBrewTarget(command) ==
      match BrewPackage(step)
      case None => None
      case Some(info) => Some((info.name, info.cask == Some(true)))
  {
    BrewTargetTokensAgree(SegmentTokens(command));
  }

  /** The runner's pipx parser reads the same name as pipx's provider. */
  lemma PipxParserAgrees(step: Step, command: string)
    requires step.uninstall == Some(command) && command != ""
    ensures ParsePipxTarget(command) == match PipxPackage(step) case None => None case Some(info) => Some(info.name)
  {
    assert Present(step.uninstall);
    match Operand(command, PipxChain)
    case None => assert PipxPackage(step) == None;
    case Some(name) => assert PipxPackage(step) == Some(PackageInfo(name, None));
  }

  /** The runner's uv parser reads the same name as uv's provider. */
  lemma UvParserAgrees(step: Step, command: string)
    requires step.uninstall == Some(command) && command != ""
    ensures ParseUvTarget(command) == match UvToolPackage(step) case None => None case Some(info) => Some(info.name)
  {
    assert Present(step.uninstall);
    match Operand(command, UvChain)
    case None => assert UvToolPackage(step) == None;
    case Some(name) => assert UvToolPackage(step) == Some(PackageInfo(name, None));
  }

  /** What `getUninstallSkipReason` looks for: the first parser that recognises the
      command decides. */
  datatype Target = BrewTarget(name: string, cask: bool) | PipxTarget(name: string) | UvTarget(name: string) | NoTarget

  function UninstallTarget(command: string): Target {
    match ParseBrewTarget(command)
    case Some((name, cask)) => BrewTarget(name, cask)
    case None =>
      match ParsePipxTarget(command)
      case Some(name) => PipxTarget(name)
      case None =>
        match ParseUvTarget(command)
        case Some(name) => UvTarget(name)
        case None => NoTarget
  }

  /** The three parsers in turn decide the target. */
  lemma UninstallTargetCases(command: string)
    ensures var brew, pipx, uv := ParseBrewTarget(command), ParsePipxTarget(command), ParseUvTarget(command);
      UninstallTarget(command) ==
        if brew.Some? then BrewTarget(brew.value.0, brew.value.1)
        else if pipx.Some? then PipxTarget(pipx.value)
        else if uv.Some? then UvTarget(uv.value)
        else NoTarget
  {
  }

  /** The query that tells whether a target is installed. */
  function ProbeCommand(target: Target): string
    requires target != NoTarget
  {
    match target
    case BrewTarget(name, cask) => (if cask then "brew list --cask " else "brew list --versions ") + name
    case PipxTarget(_) => "pipx list --json"
    case UvTarget(_) => "uv tool list"
  }

  /** `isBrewPackageInstalled` from the query's output: something besides whitespace. */
  predicate BrewListed(out: Option<string>) {
    out.Some? && Trim(out.value) != ""
  }

  /** `isPipxPackageInstalled`: `venvs[name]`, else `packages[name]`, else the quoted
      name anywhere in the output; a failing query or unparsable output gives false. */
  predicate PipxListed(out: Option<string>, parseJson: string -> Option<PipxJson>, name: string) {
    match out
    case None => false
    case Some(stdout) =>
      match parseJson(stdout)
      case None => false
      case Some(data) =>
        if data.venvs.Some? then name in data.venvs.value && data.venvs.value[name]
        else if data.packages.Some? then name in data.packages.value && data.packages.value[name]
        else Contains(stdout, "\"" + name + "\"")
  }

  /** `isUvToolInstalled`: some trimmed line is the name, or starts with the name and
      a space. Splitting on `\n` alone gives the same trimmed lines as `/\r?\n/`. */
  predicate UvListed(out: Option<string>, name: string) {
    out.Some? && exists line :: line in SplitOn(out.value, '\n') && (name + " " <= Trim(line) || Trim(line) == name)
  }

  predicate TargetInstalled(host: Host, target: Target, out: Option<string>)
    requires target != NoTarget
  {
    match target
    case BrewTarget(_, _) => BrewListed(out)
    case PipxTarget(name) => PipxListed(out, host.parseJson, name)
    case UvTarget(name) => UvListed(out, name)
  }

  /** `getUninstallSkipReason`: skip exactly when a target is recognised and its query
      says it is not installed; the query is the only command started. */
  function SkipOutcome(host: Host, trace: seq<Event>, command: string): (seq<Event>, bool) {
    var target := UninstallTarget(command);
    if target == NoTarget then (trace, false)
    else
      var probe := ProbeCommand(target);
      (trace + [Probed(probe)], !TargetInstalled(host, target, host.output(trace, probe)))
  }

  /** With a target recognised, its query is started and decides. */
  lemma SkipOutcomeOf(host: Host, trace: seq<Event>, command: string, target: Target)
    requires target == UninstallTarget(command) && target != NoTarget
    ensures var probe := ProbeCommand(target);
      SkipOutcome(host, trace, command) == (trace + [Probed(probe)], !TargetInstalled(host, target, host.output(trace, probe)))
  {
  }

  /** `checkStep`: no check command means not installed, and nothing is started. */
  function CheckOutcome(host: Host, trace: seq<Event>, step: Step): (seq<Event>, bool) {
    if !Present(step.check) then (trace, false)
    else (trace + [Checked(step.check.value)], host.checks(trace, step.check.value))
  }

  /** The `try` block of `executeStep`: the uninstall short-circuit, the
      already-installed short-circuit, and otherwise the step's own command. */
  function Performed(host: Host, trace: seq<Event>, step: Step, action: Action, command: string): (seq<Event>, ExecuteResult) {
    var (t1, notInstalled) := if action == Uninstall then SkipOutcome(host, trace, command) else (trace, false);
    if notInstalled then (t1, Skipped(step))
    else
      var (t2, found) := if action == Install && Present(step.check) then CheckOutcome(host, t1, step) else (t1, false);
      if found then (t2, Skipped(step))
      else (t2 + [Ran(command)], Finished(step, action, host.runs(t2, command)))
  }

  /** The uninstall short-circuit: the target is known and its query says it is not
      installed. */
  predicate NotInstalled(host: Host, trace: seq<Event>, command: string) {
    var target := UninstallTarget(command);
    target != NoTarget && !TargetInstalled(host, target, host.output(trace, ProbeCommand(target)))
  }

  /** The uninstall short-circuit decides exactly `NotInstalled`. */
  lemma SkipOutcomeDecides(host: Host, trace: seq<Event>, command: string)
    ensures SkipOutcome(host, trace, command).1 == NotInstalled(host, trace, command)
  {
  }

  /** The uninstall short-circuit starts at most its query. */
  lemma SkipOutcomeTrace(host: Host, trace: seq<Event>, command: string)
    ensures var t := SkipOutcome(host, trace, command).0;
      trace <= t && |t| <= |trace| + 1 && forall e :: e in t[|trace|..] ==> !e.Ran?
  {
    var target := UninstallTarget(command);
    if target != NoTarget {
      var t := trace + [Probed(ProbeCommand(target))];
      assert SkipOutcome(host, trace, command).0 == t;
      assert t[|trace|..] == [Probed(ProbeCommand(target))];
    }
  }

  /** The uninstall short-circuit starts at most its query, and decides exactly
      `NotInstalled`. */
  lemma SkipOutcomeFacts(host: Host, trace: seq<Event>, command: string)
    ensures var (t, notInstalled) := SkipOutcome(host, trace, command);
      && notInstalled == NotInstalled(host, trace, command)
      && trace <= t && |t| <= |trace| + 1
      && forall e :: e in t[|trace|..] ==> !e.Ran?
  {
    SkipOutcomeDecides(host, trace, command);
    SkipOutcomeTrace(host, trace, command);
  }

  /** The check starts at most the check command. */
  lemma CheckOutcomeFacts(host: Host, trace: seq<Event>, step: Step)
    ensures var (t, found) := CheckOutcome(host, trace, step);
      && (found <==> Present(step.check) && host.checks(trace, step.check.value))
      && trace <= t && forall e :: e in t[|trace|..] ==> !e.Ran?
  {
    if Present(step.check) {
      var t := trace + [Checked(step.check.value)];
      assert t[|trace|..] == [Checked(step.check.value)];
    }
  }

  /** The trace the short-circuits leave, and whether they skip. */
  function ShortCircuit(host: Host, trace: seq<Event>, step: Step, action: Action, command: string): (seq<Event>, bool) {
    match action
    case Uninstall => SkipOutcome(host, trace, command)
    case Install => if Present(step.check) then CheckOutcome(host, trace, step) else (trace, false)
    case Upgrade => (trace, false)
  }

  /** `Performed` after the short-circuits, from the trace they leave. */
  lemma PerformedAfter(host: Host, trace: seq<Event>, step: Step, action: Action, command: string)
    ensures var (t2, skip) := ShortCircuit(host, trace, step, action, command);
      Performed(host, trace, step, action, command) ==
        if skip then (t2, Skipped(step)) else (t2 + [Ran(command)], Finished(step, action, host.runs(t2, command)))
  {
    match action
    case Uninstall =>
      var (t1, notInstalled) := SkipOutcome(host, trace, command);
      assert Performed(host, trace, step, action, command) ==
        if notInstalled then (t1, Skipped(step)) else (t1 + [Ran(command)], Finished(step, action, host.runs(t1, command)));
    case Install =>
    case Upgrade =>
  }

  lemma ShortCircuitFacts(host: Host, trace: seq<Event>, step: Step, action: Action, command: string)
    ensures var (t2, skip) := ShortCircuit(host, trace, step, action, command);
      && (skip <==>
            (action == Uninstall && NotInstalled(host, trace, command))
            || (action == Install && Present(step.check) && host.checks(trace, step.check.value)))
      && trace <= t2 && (forall e :: e in t2[|trace|..] ==> !e.Ran?)
      && Performed(host, trace, step, action, command) ==
           if skip then (t2, Skipped(step)) else (t2 + [Ran(command)], Finished(step, action, host.runs(t2, command)))
  {
    var (t2, skip) := ShortCircuit(host, trace, step, action, command);
    match action
    case Uninstall => SkipOutcomeFacts(host, trace, command);
    case Install => CheckOutcomeFacts(host, trace, step);
    case Upgrade => assert t2[|trace|..] == [];
    PerformedAfter(host, trace, step, action, command);
  }

  /** A skip happens exactly for an uninstall whose target is known and not
      installed, or an install whose check passes; it succeeds, and only queries or
      checks were started. */
  lemma PerformedSkips(host: Host, trace: seq<Event>, step: Step, action: Action, command: string)
    ensures var (t, r) := Performed(host, trace, step, action, command);
      && (r.action == Skip <==>
            (action == Uninstall && NotInstalled(host, trace, command))
            || (action == Install && Present(step.check) && host.checks(trace, step.check.value)))
      && (r.action == Skip ==> r.success && trace <= t && forall e :: e in t[|trace|..] ==> !e.Ran?)
  {
    ShortCircuitFacts(host, trace, step, action, command);
  }

  /** Whatever happens, the trace only grows and the result is the step's, either a
      successful skip or the requested action. */
  lemma PerformedShape(host: Host, trace: seq<Event>, step: Step, action: Action, command: string)
    ensures var (t, r) := Performed(host, trace, step, action, command);
      trace <= t && r.step == step && (r.action == Act(action) || r.action == Skip) && (r.action == Skip ==> r.success)
  {
    PerformedSkips(host, trace, step, action, command);
    PerformedRuns(host, trace, step, action, command);
  }

  /** Otherwise the step's own command is started last, after only queries or checks,
      and its exit decides the result. */
  lemma PerformedRuns(host: Host, trace: seq<Event>, step: Step, action: Action, command: string)
    ensures var (t, r) := Performed(host, trace, step, action, command);
      r.step == step &&
      (r.action != Skip ==>
         && r.action == Act(action)
         && trace <= t && |t| > |trace| && t[|t| - 1] == Ran(command)
         && (forall e :: e in t[|trace|..|t| - 1] ==> !e.Ran?)
         && r.message == host.runs(t[..|t| - 1], command)
         && (r.success <==> r.message.None?))
  {
    ShortCircuitFacts(host, trace, step, action, command);
    var (t2, skip) := ShortCircuit(host, trace, step, action, command);
    if !skip {
      var t := t2 + [Ran(command)];
      assert t[..|t| - 1] == t2;
      assert t[|trace|..|t| - 1] == t2[|trace|..];
    }
  }

  // ---------------------------------------------------------------------------
  // The dependency scan of `checkAndInstallDependencies`

  /** The first loop of `checkAndInstallDependencies`: dependencies already installed
      are passed over, the others are checked; those whose check passes are added to
      the installed set, the others are the missing ones, in order. */
  function Scan(host: Host, trace: seq<Event>, deps: seq<Step>, installed: set<string>): (seq<Event>, set<string>, seq<Step>)
    decreases |deps|
  {
    if deps == [] then (trace, installed, [])
    else
      var d := deps[0];
      if d.name in installed then Scan(host, trace, deps[1..], installed)
      else
        var (t1, found) := CheckOutcome(host, trace, d);
        if found then Scan(host, t1, deps[1..], installed + {d.name})
        else
          var (t, inst, missing) := Scan(host, t1, deps[1..], installed);
          (t, inst, [d] + missing)
  }

  /** What the scan promises: the missing dependencies were not installed before;
      every dependency ends up installed or missing; only dependency names are added;
      and only dependencies not installed before have their check started. */
  lemma {:induction false} ScanSpec(host: Host, trace: seq<Event>, deps: seq<Step>, installed: set<string>)
    ensures var (t, inst, missing) := Scan(host, trace, deps, installed);
      && (forall m :: m in missing ==> m in deps && m.name !in installed)
      && (forall d :: d in deps ==> d.name in inst || d in missing)
      && installed <= inst
      && (forall n :: n in inst ==> n in installed || exists d :: d in deps && d.name == n)
      && trace <= t
      && (forall e :: e in t[|trace|..] ==>
            exists d :: d in deps && d.name !in installed && d.check.Some? && e == Checked(d.check.value))
    decreases |deps|
  {
    if deps != [] {
      var d, rest := deps[0], deps[1..];
      assert forall x :: x in deps <==> x == d || x in rest;
      if d.name in installed {
        ScanSpec(host, trace, rest, installed);
      } else {
        var (t1, found) := CheckOutcome(host, trace, d);
        if found {
          ScanSpec(host, t1, rest, installed + {d.name});
          var (t, inst, missing) := Scan(host, t1, rest, installed + {d.name});
          assert t[|trace|..] == t1[|trace|..] + t[|t1|..];
        } else {
          ScanSpec(host, t1, rest, installed);
          var (t, inst, missing) := Scan(host, t1, rest, installed);
          assert t[|trace|..] == t1[|trace|..] + t[|t1|..];
        }
      }
    }
  }

  /** Every name the scan records was found present by a check it started: the check
      of a dependency named so, which passed. */
  lemma {:induction false} ScanFound(host: Host, trace: seq<Event>, deps: seq<Step>, installed: set<string>,
                                     steps: seq<Step>, results: seq<ExecuteResult>)
    requires forall m :: m in deps ==> m in steps
    ensures var (t, inst, _) := Scan(host, trace, deps, installed);
      trace <= t && AddedJustly(host, steps, installed, inst, t, |trace|, results, |results|)
    decreases |deps|
  {
    if deps != [] {
      var d, rest := deps[0], deps[1..];
      assert d in deps;
      assert forall m :: m in rest ==> m in deps;
      if d.name in installed {
        ScanFound(host, trace, rest, installed, steps, results);
      } else {
        var (t1, found) := CheckOutcome(host, trace, d);
        if found {
          ScanFound(host, t1, rest, installed + {d.name}, steps, results);
          var (t, inst, _) := Scan(host, t1, rest, installed + {d.name});
          assert t1[..|trace|] == trace && t1[|trace|] == Checked(d.check.value);
          assert FoundPresent(host, steps, t1, |trace|, d.name);
          JustlyThen(host, steps, installed, installed + {d.name}, inst, t1, t, |trace|, |t1|,
                     results, results, |results|, |results|);
        } else {
          ScanFound(host, t1, rest, installed, steps, results);
          var (t, inst, _) := Scan(host, t1, rest, installed);
          JustlyThen(host, steps, installed, installed, inst, trace, t, |trace|, |t1|,
                     results, results, |results|, |results|);
        }
      }
    }
  }

  /** What `checkAndInstallDependencies` needs of the scan over registry steps: the
      missing ones are among the dependencies, every dependency is installed or
      missing, only registry names are added and only commands are appended. */
  lemma ScanWithin(host: Host, trace: seq<Event>, deps: seq<Step>, installed: set<string>, registry: Registry)
    requires forall m :: m in deps ==> m in registry.steps
    ensures var (t, inst, missing) := Scan(host, trace, deps, installed);
      && (forall m :: m in missing ==> m in deps)
      && (forall d :: d in deps ==> d.name in inst || d in missing)
      && installed <= inst && inst <= installed + Names(registry.steps)
      && inst <= installed + Names(deps)
      && trace <= t
  {
    ScanSpec(host, trace, deps, installed);
    var (t, inst, missing) := Scan(host, trace, deps, installed);
    forall n | n in inst ensures n in installed + Names(registry.steps) && n in installed + Names(deps) {
      if n !in installed {
        var d :| d in deps && d.name == n;
        var i :| 0 <= i < |registry.steps| && registry.steps[i] == d;
        var k :| 0 <= k < |deps| && deps[k] == d;
      }
    }
  }

  // ---------------------------------------------------------------------------
  // Running steps

  /** Install and upgrade check dependencies first. */
  predicate ChecksDependencies(action: Action) {
    action == Install || action == Upgrade
  }

  /** Results appended on behalf of dependencies: installs (or skips) of registry steps. */
  ghost predicate DependencyResults(registry: Registry, results: seq<ExecuteResult>) {
    forall i :: 0 <= i < |results| ==>
      results[i].step in registry.steps && (results[i].action == Act(Install) || results[i].action == Skip)
  }

  /** `n` was found present by a check started at or after index `from` of the
      trace: the check command of a step of `steps` named `n`, which passed. */
  ghost predicate FoundPresent(host: Host, steps: seq<Step>, trace: seq<Event>, from: nat, n: string) {
    exists j, d :: from <= j < |trace| && d in steps && d.name == n && Present(d.check)
      && trace[j] == Checked(d.check.value) && host.checks(trace[..j], d.check.value)
  }

  /** A result pushed at or after index `from` is a success for a step named `n`. */
  ghost predicate SucceededAfter(results: seq<ExecuteResult>, from: nat, n: string) {
    exists i :: from <= i < |results| && results[i].step.name == n && results[i].success
  }

  /** `n` was found present by a check, or has a successful result, within the
      windows of the trace and the results starting at `tfrom` and `rfrom`. */
  ghost predicate Justified(host: Host, steps: seq<Step>, trace: seq<Event>, tfrom: nat,
                            results: seq<ExecuteResult>, rfrom: nat, n: string) {
    FoundPresent(host, steps, trace, tfrom, n) || SucceededAfter(results, rfrom, n)
  }

  /** Every name recorded between `inst0` and `inst1` is justified within the windows
      starting at `tfrom` and `rfrom`. */
  ghost predicate AddedJustly(host: Host, steps: seq<Step>, inst0: set<string>, inst1: set<string>,
                              trace: seq<Event>, tfrom: nat, results: seq<ExecuteResult>, rfrom: nat) {
    forall n :: n in inst1 - inst0 ==> Justified(host, steps, trace, tfrom, results, rfrom, n)
  }

  /** Names recorded in two stretches, one after the other, are accounted for in the
      window covering both. */
  lemma JustlyThen(host: Host, steps: seq<Step>, inst0: set<string>, inst1: set<string>, inst2: set<string>,
                   t1: seq<Event>, t2: seq<Event>, tf: nat, tf2: nat,
                   r1: seq<ExecuteResult>, r2: seq<ExecuteResult>, rf: nat, rf2: nat)
    requires AddedJustly(host, steps, inst0, inst1, t1, tf, r1, rf)
    requires AddedJustly(host, steps, inst1, inst2, t2, tf2, r2, rf2)
    requires t1 <= t2 && r1 <= r2 && tf <= tf2 && rf <= rf2
    ensures AddedJustly(host, steps, inst0, inst2, t2, tf, r2, rf)
  {
    forall n | n in inst2 - inst0 ensures Justified(host, steps, t2, tf, r2, rf, n) {
      if n in inst1 {
        assert n in inst1 - inst0;
        if FoundPresent(host, steps, t1, tf, n) {
          var j, d :| tf <= j < |t1| && d in steps && d.name == n && Present(d.check)
            && t1[j] == Checked(d.check.value) && host.checks(t1[..j], d.check.value);
          assert t2[..j] == t1[..j] && t2[j] == t1[j];
        } else {
          var i :| rf <= i < |r1| && r1[i].step.name == n && r1[i].success;
          assert r2[i] == r1[i];
        }
      } else if FoundPresent(host, steps, t2, tf2, n) {
        assert n in inst2 - inst1;
        var j, d :| tf2 <= j < |t2| && d in steps && d.name == n && Present(d.check)
          && t2[j] == Checked(d.check.value) && host.checks(t2[..j], d.check.value);
      } else {
        assert n in inst2 - inst1;
        var i :| rf2 <= i < |r2| && r2[i].step.name == n && r2[i].success;
      }
    }
  }

  /** A result pushed after a stretch, and its step's name recorded only if it
      succeeded, keeps every recorded name accounted for. */
  lemma PushedJustly(host: Host, steps: seq<Step>, inst0: set<string>, executed: set<string>, inst1: set<string>,
                     t: seq<Event>, tf: nat, mid: seq<ExecuteResult>, results: seq<ExecuteResult>, rf: nat,
                     result: ExecuteResult)
    requires AddedJustly(host, steps, inst0, executed, t, tf, mid, rf)
    requires results == mid + [result] && rf <= |mid|
    requires inst1 == executed + (if result.success then {result.step.name} else {})
    ensures AddedJustly(host, steps, inst0, inst1, t, tf, results, rf)
  {
    forall n | n in inst1 - inst0 ensures Justified(host, steps, t, tf, results, rf, n) {
      if n in executed {
        assert n in executed - inst0;
        if !FoundPresent(host, steps, t, tf, n) {
          var i :| rf <= i < |mid| && mid[i].step.name == n && mid[i].success;
          assert results[i] == mid[i];
        }
      } else {
        assert results[|mid|] == result;
      }
    }
  }

  /** The result last pushed after `before` is a failed install of one of `missing`. */
  ghost predicate FailedInstallPushed(before: seq<ExecuteResult>, after: seq<ExecuteResult>, missing: seq<Step>) {
    |after| > |before| && !after[|after| - 1].success
    && after[|after| - 1].step in missing && after[|after| - 1].action == Act(Install)
  }

  /** The install loop so far: `positions` picks out, in order, the own results of
      the first missing dependencies among the results `pushed` since the loop
      began; the last of them is the last result, and all before it succeeded. */
  ghost predicate InstallsSoFar(pushed: seq<ExecuteResult>, positions: seq<nat>, missing: seq<Step>) {
    && Placed(pushed, positions, missing, |positions|, Install)
    && (positions == [] ==> pushed == [])
    && (positions != [] ==> positions[|positions| - 1] == |pushed| - 1)
    && (forall k :: 0 <= k < |positions| - 1 ==> pushed[positions[k]].success)
  }

  /** The install loop between turns: every install so far succeeded and its
      dependency's name is recorded in `inst`. */
  ghost predicate InstallingSoFar(pushed: seq<ExecuteResult>, positions: seq<nat>, missing: seq<Step>, inst: set<string>) {
    && InstallsSoFar(pushed, positions, missing)
    && (positions != [] ==> pushed[positions[|positions| - 1]].success)
    && (forall k :: 0 <= k < |positions| ==> missing[k].name in inst)
  }

  /** The install loop once over: on success every missing dependency has its own
      successful result; otherwise the loop stopped at the first failed install. */
  ghost predicate InstalledInOrder(pushed: seq<ExecuteResult>, positions: seq<nat>, missing: seq<Step>, ok: bool) {
    && InstallsSoFar(pushed, positions, missing)
    && (ok ==> |positions| == |missing| && (positions != [] ==> pushed[positions[|positions| - 1]].success))
    && (!ok ==> positions != [] && !pushed[positions[|positions| - 1]].success)
  }

  /** One more own result, pushed after the dependency results it triggered, extends
      the loop so far. */
  lemma InstallsExtend(o: nat, r0: seq<ExecuteResult>, r1: seq<ExecuteResult>, positions: seq<nat>, missing: seq<Step>)
    requires o <= |r0| && r0 <= r1 && |r1| > |r0|
    requires InstallsSoFar(r0[o..], positions, missing) && |positions| < |missing|
    requires positions != [] ==> r0[o..][positions[|positions| - 1]].success
    requires r1[|r1| - 1].step == missing[|positions|]
    requires r1[|r1| - 1].action == Act(Install) || r1[|r1| - 1].action == Skip
    ensures InstallsSoFar(r1[o..], positions + [|r1| - 1 - o], missing)
  {
    var p0, p1 := r0[o..], r1[o..];
    assert p0 <= p1;
    var ps := positions + [|r1| - 1 - o];
    assert p1[|p1| - 1] == r1[|r1| - 1];
    forall k | 0 <= k < |positions| ensures p1[ps[k]] == p0[positions[k]] {
    }
    PlacedExtend(p0, p1, positions, missing, |positions|, Install);
  }

  /** One turn of the install loop, on the values it changes: the own result of the
      next missing dependency, its name recorded on success. */
  lemma InstallTurn(base: seq<ExecuteResult>, r0: seq<ExecuteResult>, r1: seq<ExecuteResult>, positions: seq<nat>,
                    missing: seq<Step>, inst0: set<string>, inst1: set<string>,
                    pushed: seq<ExecuteResult>, p: nat, ps: seq<nat>)
    requires base <= r0 <= r1 && |r1| > |r0|
    requires pushed == r1[|base|..] && p == |r1| - 1 - |base| && ps == positions + [p]
    requires InstallingSoFar(r0[|base|..], positions, missing, inst0) && |positions| < |missing|
    requires r1[|r1| - 1].step == missing[|positions|]
    requires r1[|r1| - 1].action == Act(Install) || r1[|r1| - 1].action == Skip
    requires !r1[|r1| - 1].success ==> r1[|r1| - 1].action == Act(Install)
    requires inst0 <= inst1 && (r1[|r1| - 1].success ==> missing[|positions|].name in inst1)
    ensures |ps| == |positions| + 1
    ensures r1[|r1| - 1].success ==> InstallingSoFar(pushed, ps, missing, inst1)
    ensures !r1[|r1| - 1].success ==>
      InstalledInOrder(pushed, ps, missing, false) && FailedInstallPushed(base, r1, missing)
  {
    InstallsExtend(|base|, r0, r1, positions, missing);
    assert pushed[p] == r1[|r1| - 1];
  }

  /** The install loop run to the end: every missing dependency installed. */
  lemma InstallsDone(pushed: seq<ExecuteResult>, positions: seq<nat>, missing: seq<Step>, inst: set<string>)
    requires InstallingSoFar(pushed, positions, missing, inst) && |positions| == |missing|
    ensures InstalledInOrder(pushed, positions, missing, true)
    ensures forall m :: m in missing ==> m.name in inst
  {
  }

  /** What the install loop has done since it started from `inst0`, `t0` and `r0`:
      everything only grew, the pushed results are dependency results, and each name
      recorded is a dependency of `step` that a check found present or whose install
      succeeded. */
  ghost predicate InstallsWithin(host: Host, reg: Registry, step: Step,
                                 inst0: set<string>, t0: seq<Event>, r0: seq<ExecuteResult>,
                                 inst: set<string>, t: seq<Event>, r: seq<ExecuteResult>) {
    && r0 <= r && inst0 <= inst && t0 <= t
    && DependencyResults(reg, r[|r0|..])
    && inst <= inst0 + Names(AllDependencies(reg, step))
    && AddedJustly(host, reg.steps, inst0, inst, t, |t0|, r, |r0|)
  }

  /** One `executeStep(dep, 'install', …)` and the push of its result, taking the set
      of installed names from `inst0` to `inst1`, the trace from `t0` to `t1` and the
      results from `r0` to `r1`: `executed` is the set as `executeStep` left it, grown
      only by names of `dep`'s own dependencies, each justified; the pushed result is
      `dep`'s own, an install or a skip, and the name is recorded exactly when it
      succeeded. */
  ghost predicate DependencyTurn(host: Host, reg: Registry, dep: Step,
                                 inst0: set<string>, t0: seq<Event>, r0: seq<ExecuteResult>,
                                 executed: set<string>, inst1: set<string>, t1: seq<Event>, r1: seq<ExecuteResult>) {
    && r0 <= r1 && |r1| > |r0| && t0 <= t1
    && DependencyResults(reg, r1[|r0|..])
    && inst0 <= executed && executed <= inst0 + Names(AllDependencies(reg, dep))
    && inst1 == executed + (if r1[|r1| - 1].success then {dep.name} else {})
    && AddedJustly(host, reg.steps, inst0, inst1, t1, |t0|, r1, |r0|)
    && r1[|r1| - 1].step == dep
    && (r1[|r1| - 1].action == Act(Install) || r1[|r1| - 1].action == Skip)
    && (!r1[|r1| - 1].success ==> r1[|r1| - 1].action == Act(Install))
  }

  /** One turn of the install loop on the whole of what it changes: the next missing
      dependency `dep` went from `instB`, `tB`, `rB` to `inst1`, `t1`, `r1`, with the
      set `executeStep` left being `executed`. */
  lemma InstallLoopTurn(host: Host, reg: Registry, step: Step, dep: Step,
                        inst0: set<string>, t0: seq<Event>, r0: seq<ExecuteResult>,
                        instB: set<string>, tB: seq<Event>, rB: seq<ExecuteResult>,
                        executed: set<string>, inst1: set<string>, t1: seq<Event>, r1: seq<ExecuteResult>,
                        positions: seq<nat>, missing: seq<Step>, ps: seq<nat>)
    requires InstallsWithin(host, reg, step, inst0, t0, r0, instB, tB, rB)
    requires |positions| < |missing| && dep == missing[|positions|] && dep in AllDependencies(reg, step)
    requires InstallingSoFar(rB[|r0|..], positions, missing, instB)
    requires DependencyTurn(host, reg, dep, instB, tB, rB, executed, inst1, t1, r1)
    requires ps == positions + [|r1| - 1 - |r0|]
    ensures InstallsWithin(host, reg, step, inst0, t0, r0, inst1, t1, r1)
    ensures r1[|r1| - 1].success ==> InstallingSoFar(r1[|r0|..], ps, missing, inst1)
    ensures !r1[|r1| - 1].success ==>
      InstalledInOrder(r1[|r0|..], ps, missing, false) && FailedInstallPushed(r0, r1, missing)
  {
    DependencyClosed(reg, step, dep);
    JustlyThen(host, reg.steps, inst0, instB, inst1, tB, t1, |t0|, |tB|, rB, r1, |r0|, |rB|);
    ResultsExtend(reg, r0, rB, r1);
    InstallTurn(r0, rB, r1, positions, missing, instB, inst1, r1[|r0|..], |r1| - 1 - |r0|, ps);
  }

  /** The shared state of one `executeSteps` call: the `installedSteps` set, the
      `results` array and the commands started so far. */
  class StepRunner {
    const host: Host
    const registry: Option<Registry>
    /** The rank that shows the registry acyclic; dependencies rank lower. */
    ghost const rank: map<string, nat>
    var installedSteps: set<string>
    var results: seq<ExecuteResult>
    var trace: seq<Event>

    ghost predicate Valid()
      reads this`results
    {
      && (registry.Some? ==> Ranked(registry.value.steps, rank))
      && SkipsSucceed(results)
    }

    /** Every declared dependency of `step` with a registry entry ranks below `bound`. */
    ghost predicate DepsBelow(step: Step, bound: nat)
      requires registry.Some?
    {
      forall d | d in DepNames(step) && d in Names(registry.value.steps) :: d in rank && rank[d] < bound
    }

    constructor(host: Host, registry: Option<Registry>, ghost rank: map<string, nat>)
      requires registry.Some? ==> Ranked(registry.value.steps, rank)
      ensures Valid()
      ensures this.host == host && this.registry == registry && this.rank == rank
      ensures installedSteps == {} && results == [] && trace == []
    {
      this.host := host;
      this.registry := registry;
      this.rank := rank;
      installedSteps := {};
      results := [];
      trace := [];
    }

    /** `execa.command(command)` for a query: its output. */
    method Probe(command: string) returns (out: Option<string>)
      modifies this`trace
      ensures out == host.output(old(trace), command)
      ensures trace == old(trace) + [Probed(command)]
    {
      out := host.output(trace, command);
      trace := trace + [Probed(command)];
    }

    /** `execa.command(command)` for a step's own command: the error, if any. */
    method RunCommand(command: string) returns (error: Option<string>)
      modifies this`trace
      ensures error == host.runs(old(trace), command)
      ensures trace == old(trace) + [Ran(command)]
    {
      error := host.runs(trace, command);
      trace := trace + [Ran(command)];
    }

    /** `checkStep`. */
    method CheckStep(step: Step) returns (ok: bool)
      modifies this`trace
      ensures (trace, ok) == CheckOutcome(host, old(trace), step)
    {
      if !Present(step.check) {
        return false;
      }
      ok := host.checks(trace, step.check.value);
      trace := trace + [Checked(step.check.value)];
    }

    /** `isBrewPackageInstalled`. */
    method IsBrewPackageInstalled(name: string, cask: bool) returns (installed: bool)
      modifies this`trace
      ensures var probe := ProbeCommand(BrewTarget(name, cask));
        installed == BrewListed(host.output(old(trace), probe)) && trace == old(trace) + [Probed(probe)]
    {
      var out := Probe(ProbeCommand(BrewTarget(name, cask)));
      installed := BrewListed(out);
    }

    /** `isPipxPackageInstalled`. */
    method IsPipxPackageInstalled(name: string) returns (installed: bool)
      modifies this`trace
      ensures installed == PipxListed(host.output(old(trace), "pipx list --json"), host.parseJson, name)
      ensures trace == old(trace) + [Probed("pipx list --json")]
    {
      var out := Probe("pipx list --json");
      installed := PipxListed(out, host.parseJson, name);
    }

    /** `isUvToolInstalled`. */
    method IsUvToolInstalled(name: string) returns (installed: bool)
      modifies this`trace
      ensures installed == UvListed(host.output(old(trace), "uv tool list"), name)
      ensures trace == old(trace) + [Probed("uv tool list")]
    {
      var out := Probe("uv tool list");
      installed := UvListed(out, name);
    }

    /** `getUninstallSkipReason`: true for a reason to skip. */
    method UninstallSkipReason(command: string) returns (skip: bool)
      modifies this`trace
      ensures trace == SkipOutcome(host, old(trace), command).0
      ensures skip == SkipOutcome(host, old(trace), command).1
    {
      UninstallTargetCases(command);
      ghost var t0 := trace;
      var brew := ParseBrewTarget(command);
      if brew.Some? {
        SkipOutcomeOf(host, t0, command, BrewTarget(brew.value.0, brew.value.1));
        var installed := IsBrewPackageInstalled(brew.value.0, brew.value.1);
        return !installed;
      }
      var pipx := ParsePipxTarget(command);
      if pipx.Some? {
        SkipOutcomeOf(host, t0, command, PipxTarget(pipx.value));
        var installed := IsPipxPackageInstalled(pipx.value);
        return !installed;
      }
      var uv := ParseUvTarget(command);
      if uv.Some? {
        SkipOutcomeOf(host, t0, command, UvTarget(uv.value));
        var installed := IsUvToolInstalled(uv.value);
        return !installed;
      }
      return false;
    }

    /** The `try` block of `executeStep`. */
    method Perform(step: Step, action: Action, command: string) returns (r: ExecuteResult)
      modifies this`trace
      ensures (trace, r) == Performed(host, old(trace), step, action, command)
    {
      if action == Uninstall {
        var skip := UninstallSkipReason(command);
        if skip {
          return Skipped(step);
        }
      }
      if action == Install && Present(step.check) {
        var found := CheckStep(step);
        if found {
          return Skipped(step);
        }
      }
      var error := RunCommand(command);
      r := Finished(step, action, error);
    }

    /** The first loop of `checkAndInstallDependencies`. */
    method ScanDependencies(deps: seq<Step>) returns (missing: seq<Step>)
      modifies this`installedSteps, this`trace
      ensures (trace, installedSteps, missing) == Scan(host, old(trace), deps, old(installedSteps))
    {
      missing := [];
      assert deps[0..] == deps;
      assert [] + Scan(host, trace, deps, installedSteps).2 == Scan(host, trace, deps, installedSteps).2;
      for i := 0 to |deps|
        invariant var (t, inst, m) := Scan(host, trace, deps[i..], installedSteps);
          (t, inst, missing + m) == Scan(host, old(trace), deps, old(installedSteps))
      {
        assert deps[i..][1..] == deps[i + 1..];
        var dep := deps[i];
        if dep.name in installedSteps {
          continue;
        }
        ghost var t0 := trace;
        var found := CheckStep(dep);
        if !found {
          ghost var rest := Scan(host, trace, deps[i + 1..], installedSteps);
          assert Scan(host, t0, deps[i..], installedSteps).2 == [dep] + rest.2;
          assert (missing + [dep]) + rest.2 == missing + ([dep] + rest.2);
          missing := missing + [dep];
        } else {
          installedSteps := installedSteps + {dep.name};
        }
      }
      assert missing + [] == missing;
    }

    /** `executeStep`, with the registry and the shared state of the batch: no command
        gives a failed result and starts nothing; for an install or upgrade with a
        registry, unmet dependencies give a failed result before the step's own
        command; otherwise the step is performed after its dependencies. */
    method ExecuteStep(step: Step, action: Action, ghost bound: nat)
      returns (r: ExecuteResult, ghost mid: seq<Event>, ghost depsOk: bool,
               ghost missing: seq<Step>, ghost positions: seq<nat>)
      requires Valid()
      requires registry.Some? ==> DepsBelow(step, bound)
      modifies this
      decreases bound, 4
      ensures Valid()
      ensures old(results) <= results && old(installedSteps) <= installedSteps && old(trace) <= trace
      ensures registry.Some? ==>
        && DependencyResults(registry.value, results[|old(results)|..])
        && installedSteps <= old(installedSteps) + Names(AllDependencies(registry.value, step))
        && AddedJustly(host, registry.value.steps, old(installedSteps), installedSteps,
                       trace, |old(trace)|, results, |old(results)|)
      ensures r.step == step && (r.action == Act(action) || r.action == Skip) && (r.action == Skip ==> r.success)
      ensures !Present(Command(step, action)) ==>
        r == NoCommand(step, action) && results == old(results) && installedSteps == old(installedSteps) && trace == old(trace)
      ensures Present(Command(step, action)) ==> old(trace) <= mid
      ensures Present(Command(step, action)) && !depsOk ==>
        ChecksDependencies(action) && r == DepsNotMet(step, action) && trace == mid
      ensures Present(Command(step, action)) && depsOk ==>
        (trace, r) == Performed(host, mid, step, action, Command(step, action).value)
      ensures !(ChecksDependencies(action) && registry.Some?) ==>
        results == old(results) && installedSteps == old(installedSteps) && mid == old(trace) && depsOk
      ensures Present(Command(step, action)) && ChecksDependencies(action) && registry.Some? ==>
        && ScannedThenInstalled(step, old(trace), old(installedSteps), mid, installedSteps, depsOk, missing)
        && InstalledInOrder(results[|old(results)|..], positions, missing, depsOk)
        && (!depsOk ==> FailedInstallPushed(old(results), results, missing))
        && (DepNames(step) == [] ==> depsOk)
    {
      var command := Command(step, action);
      mid, depsOk, missing, positions := trace, true, [], [];
      if !Present(command) {
        return NoCommand(step, action), mid, depsOk, missing, positions;
      }
      if ChecksDependencies(action) && registry.Some? {
        var ok, m, ps := CheckAndInstallDependencies(step, bound);
        mid, depsOk, missing, positions := trace, ok, m, ps;
        if !ok {
          return DepsNotMet(step, action), mid, depsOk, missing, positions;
        }
      }
      ghost var inst := installedSteps;
      r := Perform(step, action, command.value);
      PerformedShape(host, mid, step, action, command.value);
      if registry.Some? {
        JustlyThen(host, registry.value.steps, old(installedSteps), inst, inst, mid, trace, |old(trace)|, |mid|,
                   results, results, |old(results)|, |old(results)|);
      }
    }

    /** A dependency the install loop may run: a registry step ranked below `bound`
        whose own dependencies rank below it. */
    ghost predicate Installable(dep: Step, bound: nat)
      requires registry.Some?
    {
      dep in registry.value.steps && dep.name in rank && rank[dep.name] < bound && DepsBelow(dep, rank[dep.name])
    }

    /** What `checkAndInstallDependencies` leaves behind: the dependencies found
        missing are those the check scan reports, the scan's checks are the first
        commands started, and on success every dependency is installed; no declared
        dependency means nothing missing. */
    ghost predicate ScannedThenInstalled(step: Step, trace0: seq<Event>, installed0: set<string>,
                                         trace1: seq<Event>, installed1: set<string>, ok: bool, missing: seq<Step>)
      requires registry.Some?
    {
      && (DepNames(step) != [] ==>
            var (t, inst, m) := Scan(host, trace0, AllDependencies(registry.value, step), installed0);
            missing == m && t <= trace1 && inst <= installed1)
      && (DepNames(step) == [] ==> missing == [])
      && (ok ==> forall d :: d in AllDependencies(registry.value, step) ==> d.name in installed1)
    }

    /** `checkAndInstallDependencies`: the dependencies not yet installed are checked,
        the missing ones installed in order until one fails. */
    method CheckAndInstallDependencies(step: Step, ghost bound: nat)
      returns (ok: bool, missing: seq<Step>, ghost positions: seq<nat>)
      requires Valid() && registry.Some? && DepsBelow(step, bound)
      modifies this
      decreases bound, 3
      ensures Valid()
      ensures old(results) <= results && old(installedSteps) <= installedSteps && old(trace) <= trace
      ensures DependencyResults(registry.value, results[|old(results)|..])
      ensures installedSteps <= old(installedSteps) + Names(AllDependencies(registry.value, step))
      ensures AddedJustly(host, registry.value.steps, old(installedSteps), installedSteps,
                          trace, |old(trace)|, results, |old(results)|)
      ensures DepNames(step) == [] ==>
        ok && results == old(results) && installedSteps == old(installedSteps) && trace == old(trace)
      ensures ScannedThenInstalled(step, old(trace), old(installedSteps), trace, installedSteps, ok, missing)
      ensures InstalledInOrder(results[|old(results)|..], positions, missing, ok)
      ensures !ok ==> FailedInstallPushed(old(results), results, missing)
    {
      missing, positions := [], [];
      if DepNames(step) == [] {
        assert results[|old(results)|..] == [];
        return true, missing, positions;
      }
      var reg := registry.value;
      var deps, _ := GetAllDependencies(step, reg, {});
      assert deps == AllDependencies(reg, step);
      DependenciesInstallable(step, bound);
      ScanWithin(host, trace, deps, installedSteps, reg);
      ScanFound(host, trace, deps, installedSteps, reg.steps, results);
      missing := ScanDependencies(deps);
      ghost var scanned, installed := trace, installedSteps;
      ghost var r0 := results;
      assert r0 == old(results);
      ok, positions := InstallMissing(missing, bound, step);
      assert scanned <= trace && installed <= installedSteps;
      JustlyThen(host, reg.steps, old(installedSteps), installed, installedSteps, scanned, trace,
                 |old(trace)|, |scanned|, r0, results, |r0|, |r0|);
      assert ScannedThenInstalled(step, old(trace), old(installedSteps), trace, installedSteps, ok, missing);
    }

    /** Every dependency of a step whose dependencies rank below `bound` may be
        installed by the loop. */
    lemma DependenciesInstallable(step: Step, bound: nat)
      requires Valid() && registry.Some? && DepsBelow(step, bound)
      ensures forall m :: m in AllDependencies(registry.value, step) ==> Installable(m, bound)
    {
      var reg := registry.value;
      var deps := AllDependencies(reg, step);
      DependenciesRanked(reg, step, rank, bound);
      forall k | 0 <= k < |deps| ensures Installable(deps[k], bound) {
        CollectedRanksBelow(reg, step, rank, k);
      }
    }

    /** The second loop of `checkAndInstallDependencies`: each missing dependency is
        installed in turn, its result appended, until one fails. */
    method InstallMissing(missing: seq<Step>, ghost bound: nat, ghost step: Step) returns (ok: bool, ghost positions: seq<nat>)
      requires Valid() && registry.Some?
      requires forall m :: m in missing ==> Installable(m, bound)
      requires forall m :: m in missing ==> m in AllDependencies(registry.value, step)
      modifies this
      decreases bound, 2
      ensures Valid()
      ensures old(results) <= results && old(installedSteps) <= installedSteps && old(trace) <= trace
      ensures DependencyResults(registry.value, results[|old(results)|..])
      ensures installedSteps <= old(installedSteps) + Names(AllDependencies(registry.value, step))
      ensures AddedJustly(host, registry.value.steps, old(installedSteps), installedSteps,
                          trace, |old(trace)|, results, |old(results)|)
      ensures ok ==> forall m :: m in missing ==> m.name in installedSteps
      ensures InstalledInOrder(results[|old(results)|..], positions, missing, ok)
      ensures !ok ==> FailedInstallPushed(old(results), results, missing)
    {
      positions, ok := [], true;
      assert results[|old(results)|..] == [];
      var j := 0;
      while ok && j < |missing|
        invariant j <= |missing| && Valid()
        invariant InstallsWithin(host, registry.value, step, old(installedSteps), old(trace), old(results),
                                 installedSteps, trace, results)
        invariant ok ==> |positions| == j && InstallingSoFar(results[|old(results)|..], positions, missing, installedSteps)
        invariant !ok ==> InstalledInOrder(results[|old(results)|..], positions, missing, false)
                          && FailedInstallPushed(old(results), results, missing)
        decreases |missing| - j
      {
        ok, positions := InstallNext(missing, j, bound, step, positions, old(installedSteps), old(trace), old(results));
        j := j + 1;
      }
      if ok {
        InstallsDone(results[|old(results)|..], positions, missing, installedSteps);
      }
    }

    /** The body of the loop above: the next missing dependency is installed, and
        what the loop has done so far is carried over to it. */
    method InstallNext(missing: seq<Step>, j: nat, ghost bound: nat, ghost step: Step, ghost positions: seq<nat>,
                       ghost inst0: set<string>, ghost t0: seq<Event>, ghost r0: seq<ExecuteResult>)
      returns (ok: bool, ghost ps: seq<nat>)
      requires Valid() && registry.Some? && j == |positions| < |missing|
      requires forall m :: m in missing ==> Installable(m, bound)
      requires forall m :: m in missing ==> m in AllDependencies(registry.value, step)
      requires InstallsWithin(host, registry.value, step, inst0, t0, r0, installedSteps, trace, results)
      requires InstallingSoFar(results[|r0|..], positions, missing, installedSteps)
      modifies this
      decreases bound, 1
      ensures Valid()
      ensures InstallsWithin(host, registry.value, step, inst0, t0, r0, installedSteps, trace, results)
      ensures |ps| == |positions| + 1
      ensures ok ==> InstallingSoFar(results[|r0|..], ps, missing, installedSteps)
      ensures !ok ==> InstalledInOrder(results[|r0|..], ps, missing, false) && FailedInstallPushed(r0, results, missing)
    {
      var dep := missing[j];
      assert dep in missing;
      ghost var before, instB, tB := results, installedSteps, trace;
      ghost var executed;
      ok, executed := InstallDependency(dep, bound);
      ps := positions + [|results| - 1 - |r0|];
      InstallLoopTurn(host, registry.value, step, dep, inst0, t0, r0,
                      instB, tB, before, executed, installedSteps, trace, results, positions, missing, ps);
    }

    /** One turn of the loop above: `executeStep(dep, 'install', …)`, its result
        appended, and the name recorded on success. */
    method InstallDependency(dep: Step, ghost bound: nat) returns (ok: bool, ghost executed: set<string>)
      requires Valid() && registry.Some? && Installable(dep, bound)
      modifies this
      decreases bound, 0
      ensures Valid()
      ensures DependencyTurn(host, registry.value, dep, old(installedSteps), old(trace), old(results),
                             executed, installedSteps, trace, results)
      ensures ok == results[|results| - 1].success
      ensures installedSteps == executed + (if ok then {dep.name} else {})
    {
      ghost var before := results;
      var result, _, _, _, _ := ExecuteStep(dep, Install, rank[dep.name]);
      executed := installedSteps;
      ghost var mid := results;
      results := results + [result];
      ResultsExtend(registry.value, before, mid, results);
      ok := result.success;
      if ok {
        installedSteps := installedSteps + {dep.name};
      }
      PushedJustly(host, registry.value.steps, old(installedSteps), executed, installedSteps,
                   trace, |old(trace)|, mid, results, |old(results)|, result);
    }

    /** The loop of `executeSteps` on a fresh batch: the steps of `order` run in turn,
        each result pushed after those of the dependency installs it triggered; the
        names recorded are those of the steps whose own install succeeded, and, with
        a registry, registry steps the dependency checks recorded. */
    method RunOrdered(order: seq<Step>, action: Action) returns (ghost positions: seq<nat>)
      requires Valid() && results == [] && installedSteps == {}
      modifies this
      ensures Valid()
      ensures Placed(results, positions, order, |order|, action)
      ensures registry.Some? ==> OthersAreDependencies(registry.value, results, positions)
      ensures !(ChecksDependencies(action) && registry.Some?) ==> |results| == |order|
      ensures InstallsRecorded(installedSteps, results, positions, action, registry)
    {
      positions := [];
      for i := 0 to |order|
        invariant Valid() && RanSoFar(registry, results, installedSteps, order, i, positions, action)
      {
        ghost var before, inst0 := results, installedSteps;
        var r, executed := RunPlanned(order[i], action);
        ghost var placed := positions + [|results| - 1];
        RunTurn(registry, order, i, action, before, results, positions, placed, inst0, executed, installedSteps);
        positions := placed;
      }
    }

    /** One turn of the loop of `executeSteps`: the step is executed, its result pushed
        after whatever its dependencies added, and then, on a successful install and
        only then, its name recorded; `executed` is the set as `executeStep` left it. */
    method RunPlanned(step: Step, action: Action) returns (r: ExecuteResult, ghost executed: set<string>)
      requires Valid()
      modifies this
      ensures Valid()
      ensures old(results) <= results && |results| > |old(results)| && results[|results| - 1] == r
      ensures r.step == step && (r.action == Act(action) || r.action == Skip)
      ensures registry.Some? ==> DependencyResults(registry.value, results[|old(results)|..|results| - 1])
      ensures !(ChecksDependencies(action) && registry.Some?) ==> |results| == |old(results)| + 1
      ensures old(installedSteps) <= executed
      ensures !(ChecksDependencies(action) && registry.Some?) ==> executed == old(installedSteps)
      ensures registry.Some? ==> executed <= old(installedSteps) + Names(AllDependencies(registry.value, step))
      ensures registry.Some? ==> AddedJustly(host, registry.value.steps, old(installedSteps), executed,
                                             trace, |old(trace)|, results, |old(results)|)
      ensures installedSteps == executed + (if r.success && action == Install then {step.name} else {})
    {
      ghost var bound := if registry.Some? then RankBound(registry.value.steps, rank, DepNames(step)) else 0;
      var result, _, _, _, _ := ExecuteStep(step, action, bound);
      r := result;
      executed := installedSteps;
      ghost var mid := results;
      results := results + [r];
      PushedResult(old(results), mid, r);
      if registry.Some? {
        JustlyThen(host, registry.value.steps, old(installedSteps), executed, executed, trace, trace,
                   |old(trace)|, |old(trace)|, mid, results, |old(results)|, |old(results)|);
      }
      if r.success && action == Install {
        installedSteps := installedSteps + {step.name};
      }
    }
  }

  /** The names of the placed steps whose own install succeeded: what the loop of
      `executeSteps` records itself. */
  ghost function OwnInstalled(results: seq<ExecuteResult>, positions: seq<nat>, action: Action): set<string>
    decreases |positions|
  {
    if positions == [] then {}
    else
      var p := positions[|positions| - 1];
      OwnInstalled(results, positions[..|positions| - 1], action)
        + (if p < |results| && action == Install && results[p].success then {results[p].step.name} else {})
  }

  /** The set `installedSteps` after the placed steps ran: it holds the names of the
      placed steps whose own install succeeded; when no dependency check ran it holds
      exactly those, and otherwise anything more is a registry step's name. */
  ghost predicate InstallsRecorded(installed: set<string>, results: seq<ExecuteResult>, positions: seq<nat>,
                           action: Action, registry: Option<Registry>) {
    && OwnInstalled(results, positions, action) <= installed
    && (!(ChecksDependencies(action) && registry.Some?) ==> installed == OwnInstalled(results, positions, action))
    && (registry.Some? ==> installed <= OwnInstalled(results, positions, action) + Names(registry.value.steps))
  }

  /** One turn of the loop keeps `InstallsRecorded`: whatever the dependency check added is
      a registry name, and the step's own name is added after a successful install. */
  lemma RecordedPush(registry: Option<Registry>, action: Action, inst0: set<string>, executed: set<string>,
                     inst1: set<string>, before: seq<ExecuteResult>, after: seq<ExecuteResult>, positions: seq<nat>)
    requires InstallsRecorded(inst0, before, positions, action, registry)
    requires forall k :: 0 <= k < |positions| ==> positions[k] < |before|
    requires before <= after && |after| > |before|
    requires inst0 <= executed
    requires !(ChecksDependencies(action) && registry.Some?) ==> executed == inst0
    requires registry.Some? ==> executed <= inst0 + Names(registry.value.steps)
    requires var r := after[|after| - 1];
      inst1 == executed + (if r.success && action == Install then {r.step.name} else {})
    ensures InstallsRecorded(inst1, after, positions + [|after| - 1], action, registry)
  {
    OwnInstalledPush(before, after, positions, action);
  }

  /** Results pushed after the placed ones leave the recorded names as they were. */
  lemma {:induction false} OwnInstalledKept(before: seq<ExecuteResult>, after: seq<ExecuteResult>,
                                            positions: seq<nat>, action: Action)
    requires before <= after
    requires forall k :: 0 <= k < |positions| ==> positions[k] < |before|
    ensures OwnInstalled(after, positions, action) == OwnInstalled(before, positions, action)
    decreases |positions|
  {
    if positions != [] {
      OwnInstalledKept(before, after, positions[..|positions| - 1], action);
    }
  }

  /** Placing the last pushed result adds its name exactly when it is a successful
      install. */
  lemma OwnInstalledPush(before: seq<ExecuteResult>, after: seq<ExecuteResult>,
                         positions: seq<nat>, action: Action)
    requires before <= after && |after| > |before|
    requires forall k :: 0 <= k < |positions| ==> positions[k] < |before|
    ensures var r := after[|after| - 1];
      OwnInstalled(after, positions + [|after| - 1], action)
        == OwnInstalled(before, positions, action) + (if r.success && action == Install then {r.step.name} else {})
  {
    OwnInstalledKept(before, after, positions, action);
    assert (positions + [|after| - 1])[..|positions|] == positions;
  }

  /** The results not at one of `positions` come from dependency installs: registry
      steps installed or skipped. */
  ghost predicate OthersAreDependencies(registry: Registry, results: seq<ExecuteResult>, positions: seq<nat>) {
    forall i :: 0 <= i < |results| && i !in positions ==>
      results[i].step in registry.steps && (results[i].action == Act(Install) || results[i].action == Skip)
  }

  /** `positions` picks out the results of the first `n` steps of `ordered`, in order. */
  ghost predicate Placed(results: seq<ExecuteResult>, positions: seq<nat>, ordered: seq<Step>, n: nat, action: Action) {
    && |positions| == n <= |ordered|
    && (forall k :: 0 <= k < n ==>
          positions[k] < |results| && results[positions[k]].step == ordered[k] &&
          (results[positions[k]].action == Act(action) || results[positions[k]].action == Skip))
    && (forall k, l :: 0 <= k < l < n ==> positions[k] < positions[l])
  }

  /** `executeSteps`: with a registry the steps are planned first (dependencies
      added for an install, ordered by the plan's edges), then executed one by one;
      every planned step has its own result, in plan order, among the results of the
      dependency installs it triggered. Without a registry the steps run as given,
      one result each. */
  method ExecuteSteps(host: Host, registry: Option<Registry>, ghost rank: map<string, nat>,
                      steps: seq<Step>, action: Action)
    returns (results: seq<ExecuteResult>, ghost ordered: seq<Step>, ghost positions: seq<nat>)
    requires registry.Some? ==> Ranked(registry.value.steps, rank)
    ensures registry.None? ==> ordered == steps
    ensures registry.Some? ==>
      var planSteps := PlanSteps(steps, action, registry.value);
      var edges := PlanEdges(planSteps, action, DefaultProviders(host.planOutput, host.npmListing));
      && (UniqueNames(planSteps) ==>
            IsTopoOrder(ordered, planSteps, edges)
            || (ordered == planSteps && forall o :: !IsTopoOrder(o, planSteps, edges)))
      && (NoInternalEdges(planSteps, edges) ==> ordered == planSteps)
    ensures Placed(results, positions, ordered, |ordered|, action)
    ensures registry.Some? ==> OthersAreDependencies(registry.value, results, positions)
    ensures !(ChecksDependencies(action) && registry.Some?) ==> |results| == |ordered|
    ensures SkipsSucceed(results)
  {
    var runner := new StepRunner(host, registry, rank);
    var order := steps;
    if registry.Some? {
      var plan := Build(steps, action, registry.value, host.planOutput, host.npmListing);
      order := plan.ordered;
    }
    ordered := order;
    positions := runner.RunOrdered(order, action);
    results := runner.results;
  }

  /** What the loop of `executeSteps` keeps after running the first `i` steps of
      `order`: their results placed, the other results dependency installs, one
      result per step when no dependency check runs, and the names recorded. */
  ghost predicate RanSoFar(registry: Option<Registry>, results: seq<ExecuteResult>, installed: set<string>,
                           order: seq<Step>, i: nat, positions: seq<nat>, action: Action) {
    && Placed(results, positions, order, i, action)
    && (registry.Some? ==> OthersAreDependencies(registry.value, results, positions))
    && (!(ChecksDependencies(action) && registry.Some?) ==> |results| == i)
    && InstallsRecorded(installed, results, positions, action, registry)
  }

  /** One turn of the loop of `executeSteps` keeps what the loop promises: the new
      result places the next step, the results pushed before it are dependency
      installs, and the recorded names follow. */
  lemma RunTurn(registry: Option<Registry>, order: seq<Step>, i: nat, action: Action,
                before: seq<ExecuteResult>, after: seq<ExecuteResult>, positions: seq<nat>, placed: seq<nat>,
                inst0: set<string>, executed: set<string>, inst1: set<string>)
    requires RanSoFar(registry, before, inst0, order, i, positions, action) && i < |order|
    requires before <= after && |after| > |before|
    requires after[|after| - 1].step == order[i]
    requires after[|after| - 1].action == Act(action) || after[|after| - 1].action == Skip
    requires registry.Some? ==> DependencyResults(registry.value, after[|before|..|after| - 1])
    requires !(ChecksDependencies(action) && registry.Some?) ==> |after| == |before| + 1
    requires inst0 <= executed
    requires !(ChecksDependencies(action) && registry.Some?) ==> executed == inst0
    requires registry.Some? ==> executed <= inst0 + Names(AllDependencies(registry.value, order[i]))
    requires var r := after[|after| - 1];
      inst1 == executed + (if r.success && action == Install then {r.step.name} else {})
    requires placed == positions + [|after| - 1]
    ensures RanSoFar(registry, after, inst1, order, i + 1, placed, action)
  {
    assert forall k :: 0 <= k < |positions| ==> positions[k] < |before|;
    if registry.Some? {
      DependenciesUnique(registry.value, order[i]);
    }
    PlacedExtend(before, after, positions, order, i, action);
    if registry.Some? {
      OthersExtend(registry.value, before, after, positions);
    }
    RecordedPush(registry, action, inst0, executed, inst1, before, after, positions);
  }

  /** A result pushed after the placed ones places one more step. */
  lemma PlacedExtend(before: seq<ExecuteResult>, after: seq<ExecuteResult>, positions: seq<nat>,
                     ordered: seq<Step>, n: nat, action: Action)
    requires Placed(before, positions, ordered, n, action) && n < |ordered|
    requires before <= after && |after| > |before|
    requires after[|after| - 1].step == ordered[n]
    requires after[|after| - 1].action == Act(action) || after[|after| - 1].action == Skip
    ensures Placed(after, positions + [|after| - 1], ordered, n + 1, action)
  {
    var ps := positions + [|after| - 1];
    forall k | 0 <= k < n ensures after[ps[k]] == before[positions[k]] {
    }
  }

  /** Dependency results pushed before a placed step keep the other results
      dependency installs. */
  lemma OthersExtend(registry: Registry, before: seq<ExecuteResult>, after: seq<ExecuteResult>, positions: seq<nat>)
    requires OthersAreDependencies(registry, before, positions)
    requires before <= after && |after| > |before|
    requires forall k :: 0 <= k < |positions| ==> positions[k] < |before|
    requires DependencyResults(registry, after[|before|..|after| - 1])
    ensures OthersAreDependencies(registry, after, positions + [|after| - 1])
  {
    var ps := positions + [|after| - 1];
    forall i | 0 <= i < |after| && i !in ps
      ensures after[i].step in registry.steps && (after[i].action == Act(Install) || after[i].action == Skip)
    {
      if i < |before| {
        assert after[i] == before[i];
        assert i !in positions;
      } else {
        assert after[i] == after[|before|..|after| - 1][i - |before|];
      }
    }
  }

  /** Pushing a step's own result keeps skips successful when its skip succeeded,
      and leaves the results before it as they were. */
  lemma PushedResult(r0: seq<ExecuteResult>, mid: seq<ExecuteResult>, r: ExecuteResult)
    requires r0 <= mid && SkipsSucceed(mid) && (r.action == Skip ==> r.success)
    ensures SkipsSucceed(mid + [r])
    ensures (mid + [r])[|r0|..|mid|] == mid[|r0|..]
  {
  }

  /** Appending result runs that each satisfy `DependencyResults` keeps it. */
  lemma ResultsExtend(registry: Registry, r0: seq<ExecuteResult>, r1: seq<ExecuteResult>, r2: seq<ExecuteResult>)
    requires r0 <= r1 <= r2
    requires DependencyResults(registry, r1[|r0|..]) && DependencyResults(registry, r2[|r1|..])
    ensures DependencyResults(registry, r2[|r0|..])
  {
    assert r2[|r0|..] == r1[|r0|..] + r2[|r1|..];
  }

  // ---------------------------------------------------------------------------
  // The report (`formatDuration`, the counts of `printResults`)

  /** `formatDuration` on a whole number of milliseconds. */
  function FormatDuration(ms: nat): (s: string)
    ensures ms < 1000 ==> s == NatToString(ms) + "ms"
    ensures 1000 <= ms < 60000 ==>
      exists secs: nat :: 1 <= secs < 60 && secs * 1000 <= ms < (secs + 1) * 1000 && s == NatToString(secs) + "s"
    ensures 60000 <= ms ==>
      exists mins: nat, secs: nat :: 1 <= mins && secs < 60 &&
        (mins * 60 + secs) * 1000 <= ms < (mins * 60 + secs + 1) * 1000 &&
        s == NatToString(mins) + "m " + NatToString(secs) + "s"
  {
    if ms < 1000 then NatToString(ms) + "ms"
    else
      var seconds := ms / 1000;
      var minutes := seconds / 60;
      if minutes > 0 then NatToString(minutes) + "m " + NatToString(seconds % 60) + "s"
      else NatToString(seconds) + "s"
  }

  /** Every skip is a success. */
  predicate SkipsSucceed(results: seq<ExecuteResult>) {
    forall i :: 0 <= i < |results| && results[i].action == Skip ==> results[i].success
  }

  function CountSucceeded(results: seq<ExecuteResult>): nat {
    if results == [] then 0
    else CountSucceeded(results[1..]) + (if results[0].success && results[0].action != Skip then 1 else 0)
  }

  function CountFailed(results: seq<ExecuteResult>): nat {
    if results == [] then 0
    else CountFailed(results[1..]) + (if !results[0].success then 1 else 0)
  }

  function CountSkipped(results: seq<ExecuteResult>): nat {
    if results == [] then 0
    else CountSkipped(results[1..]) + (if results[0].action == Skip then 1 else 0)
  }

  /** The summary of `printResults`: succeeded, failed and skipped add up to the total. */
  lemma {:induction false} CountsAddUp(results: seq<ExecuteResult>)
    requires SkipsSucceed(results)
    ensures CountSucceeded(results) + CountFailed(results) + CountSkipped(results) == |results|
  {
    if results != [] {
      assert results[0].action == Skip ==> results[0].success;
      CountsAddUp(results[1..]);
    }
  }
}

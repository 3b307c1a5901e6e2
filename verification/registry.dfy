/** The step/registry data model of `src/config/registry.ts` and the merge of a user
    override file over the built-in catalogue. */
module Registry {
  import opened Wrappers

  /** A tool definition. Every field of the JSON object may be absent in an override
      file, so each is optional; a missing or empty `name` (both falsy in JavaScript)
      is the empty string. */
  datatype Step = Step(
    name: string,
    install: Option<string>,
    upgrade: Option<string>,
    uninstall: Option<string>,
    check: Option<string>,
    dependencies: Option<seq<string>>)

  /** `{ steps: Step[] }`; a file without a `steps` array reads as no steps. */
  datatype Registry = Registry(steps: seq<Step>)

  const MermaidName := "Mermaid CLI"
  const LegacyMermaidInstall := "npm install -g @mermaid-js/mermaid-cli"

  /** A command string that JavaScript treats as truthy: present and non-empty. */
  predicate Present(command: Option<string>) {
    command.Some? && command.value != ""
  }

  /** `step.dependencies || []`. */
  function DepNames(step: Step): seq<string> {
    step.dependencies.GetOr([])
  }

  function Names(steps: seq<Step>): set<string> {
    set i | 0 <= i < |steps| :: steps[i].name
  }

  predicate UniqueNames(steps: seq<Step>) {
    forall i, j :: 0 <= i < j < |steps| ==> steps[i].name != steps[j].name
  }

  /** `steps.find((s) => s.name === name)`: the first entry with that name. */
  function FindStep(steps: seq<Step>, name: string): (r: Option<Step>)
    ensures r.None? <==> name !in Names(steps)
    ensures r.Some? ==> r.value.name == name
    ensures r.Some? ==> exists i :: 0 <= i < |steps| && steps[i] == r.value && forall j :: 0 <= j < i ==> steps[j].name != name
  {
    if steps == [] then None
    else if steps[0].name == name then
      assert steps[0] == steps[0];
      Some(steps[0])
    else
      var r := FindStep(steps[1..], name);
      assert Names(steps) == {steps[0].name} + Names(steps[1..]) by {
        forall n | n in Names(steps) ensures n in {steps[0].name} + Names(steps[1..]) {
          var i :| 0 <= i < |steps| && steps[i].name == n;
          if i > 0 { assert steps[1..][i - 1].name == n; }
        }
      }
      if r.Some? then
        var i :| 0 <= i < |steps[1..]| && steps[1..][i] == r.value && forall j :: 0 <= j < i ==> steps[1..][j].name != name;
        assert steps[i + 1] == r.value;
        r
      else r
  }

  /** `{ ...base, ...over }` for two step objects: every key present in `over` wins. */
  function Spread(base: Step, over: Step): Step {
    Step(over.name,
         if over.install.Some? then over.install else base.install,
         if over.upgrade.Some? then over.upgrade else base.upgrade,
         if over.uninstall.Some? then over.uninstall else base.uninstall,
         if over.check.Some? then over.check else base.check,
         if over.dependencies.Some? then over.dependencies else base.dependencies)
  }

  /** Every key present in `b` is present in `s` (so spreading `s` over `b` gives `s`). */
  predicate Covers(s: Step, b: Step) {
    && (b.install.Some? ==> s.install.Some?)
    && (b.upgrade.Some? ==> s.upgrade.Some?)
    && (b.uninstall.Some? ==> s.uninstall.Some?)
    && (b.check.Some? ==> s.check.Some?)
    && (b.dependencies.Some? ==> s.dependencies.Some?)
  }

  /** The elements of `xs` in order of first appearance, each once. */
  function Dedup(xs: seq<string>): seq<string> {
    if xs == [] then []
    else
      var d := Dedup(xs[..|xs| - 1]);
      var x := xs[|xs| - 1];
      assert xs == xs[..|xs| - 1] + [x];
      if x in d then d else d + [x]
  }

  predicate Distinct(xs: seq<string>) {
    forall i, j :: 0 <= i < j < |xs| ==> xs[i] != xs[j]
  }

  /** The names of the entries that have one, in order. */
  function NamedNames(steps: seq<Step>): seq<string> {
    if steps == [] then []
    else
      var ns := NamedNames(steps[..|steps| - 1]);
      var s := steps[|steps| - 1];
      if s.name == "" then ns else ns + [s.name]
  }

  lemma {:induction false} DedupElements(xs: seq<string>)
    ensures forall x :: x in Dedup(xs) <==> x in xs
    ensures Distinct(Dedup(xs))
  {
    if xs != [] {
      var x := xs[|xs| - 1];
      assert xs == xs[..|xs| - 1] + [x];
      DedupElements(xs[..|xs| - 1]);
    }
  }

  lemma {:induction false} NamedNamesElements(steps: seq<Step>)
    ensures forall n :: n in NamedNames(steps) <==> n != "" && n in Names(steps)
  {
    if steps != [] {
      var s := steps[|steps| - 1];
      assert Names(steps) == Names(steps[..|steps| - 1]) + {s.name} by {
        assert forall i :: 0 <= i < |steps| - 1 ==> steps[..|steps| - 1][i] == steps[i];
      }
      NamedNamesElements(steps[..|steps| - 1]);
    }
  }

  /** The last entry of `steps` named `n`: the base loop re-sets `byName` for every entry. */
  function LastEntry(steps: seq<Step>, n: string): (r: Option<Step>)
    ensures r.Some? ==> r.value.name == n
  {
    if steps == [] then None
    else if steps[|steps| - 1].name == n then Some(steps[|steps| - 1])
    else LastEntry(steps[..|steps| - 1], n)
  }

  lemma {:induction false} LastEntryDefined(steps: seq<Step>, n: string)
    ensures LastEntry(steps, n).Some? <==> n in Names(steps)
  {
    if steps != [] {
      var prev := steps[..|steps| - 1];
      assert Names(steps) == Names(prev) + {steps[|steps| - 1].name} by {
        assert forall i :: 0 <= i < |prev| ==> prev[i] == steps[i];
      }
      LastEntryDefined(prev, n);
    }
  }

  /** The override loop: each override entry named `n` is spread over what is there,
      or stored as is when nothing is. */
  function ApplyOverrides(acc: Option<Step>, overrides: seq<Step>, n: string): (r: Option<Step>)
    requires acc.Some? ==> acc.value.name == n
    ensures r.Some? ==> r.value.name == n
    ensures acc.Some? ==> r.Some? && Covers(r.value, acc.value)
  {
    if overrides == [] then acc
    else
      var o := overrides[|overrides| - 1];
      var a := ApplyOverrides(acc, overrides[..|overrides| - 1], n);
      if o.name == n then Some(if a.Some? then Spread(a.value, o) else o) else a
  }

  lemma {:induction false} ApplyOverridesDefined(acc: Option<Step>, overrides: seq<Step>, n: string)
    requires acc.Some? ==> acc.value.name == n
    ensures ApplyOverrides(acc, overrides, n).Some? <==> acc.Some? || n in Names(overrides)
  {
    if overrides != [] {
      var prev := overrides[..|overrides| - 1];
      assert Names(overrides) == Names(prev) + {overrides[|overrides| - 1].name} by {
        assert forall i :: 0 <= i < |prev| ==> prev[i] == overrides[i];
      }
      ApplyOverridesDefined(acc, prev, n);
    }
  }

  /** The merged entry for a name that occurs in base or override. */
  function MergedEntry(base: seq<Step>, overrides: seq<Step>, n: string): (s: Step)
    requires n in Names(base) || n in Names(overrides)
    ensures s.name == n
  {
    LastEntryDefined(base, n);
    ApplyOverridesDefined(LastEntry(base, n), overrides, n);
    ApplyOverrides(LastEntry(base, n), overrides, n).value
  }

  /** The merged names, in the order the `byName` map first received them. */
  function MergedNames(base: seq<Step>, overrides: seq<Step>): seq<string> {
    Dedup(NamedNames(base) + NamedNames(overrides))
  }

  function Unpinned(base: seq<Step>, overrides: seq<Step>): (steps: seq<Step>)
    ensures |steps| == |MergedNames(base, overrides)|
    ensures forall k :: 0 <= k < |steps| ==> steps[k].name == MergedNames(base, overrides)[k]
  {
    var names := MergedNames(base, overrides);
    DedupElements(NamedNames(base) + NamedNames(overrides));
    NamedNamesElements(base);
    NamedNamesElements(overrides);
    seq(|names|, k requires 0 <= k < |names| =>
      assert names[k] in NamedNames(base) + NamedNames(overrides);
      MergedEntry(base, overrides, names[k]))
  }

  /** Index of the first entry with the given name, or -1. */
  function IndexOfName(steps: seq<Step>, n: string): (k: int)
    ensures -1 <= k < |steps|
    ensures k >= 0 ==> steps[k].name == n && forall j :: 0 <= j < k ==> steps[j].name != n
    ensures k == -1 ==> forall j :: 0 <= j < |steps| ==> steps[j].name != n
  {
    if steps == [] then -1
    else if steps[0].name == n then 0
    else
      var k := IndexOfName(steps[1..], n);
      if k == -1 then -1 else k + 1
  }

  /** The backward-compatibility patch: a merged "Mermaid CLI" whose install is the
      legacy command gets the base install and upgrade back, when the base has them. */
  function PinMermaid(steps: seq<Step>, base: seq<Step>): seq<Step> {
    var k := IndexOfName(steps, MermaidName);
    if k < 0 || steps[k].install != Some(LegacyMermaidInstall) then steps
    else
      var baseMermaid := FindStep(base, MermaidName);
      var m := steps[k];
      var m1 := if baseMermaid.Some? && Present(baseMermaid.value.install) then m.(install := baseMermaid.value.install) else m;
      var m2 := if baseMermaid.Some? && Present(baseMermaid.value.upgrade) then m1.(upgrade := baseMermaid.value.upgrade) else m1;
      steps[k := m2]
  }

  /** What `mergeRegistries(base, override)` returns. */
  function Merge(base: Registry, override: Registry): Registry {
    Registry(PinMermaid(Unpinned(base.steps, override.steps), base.steps))
  }

  /** `mergeRegistries`: fills `byName` (and its key order) from the base entries, then
      from the override entries, lists the values and patches "Mermaid CLI" in place. */
  method MergeRegistries(base: Registry, override: Registry) returns (merged: Registry)
    ensures merged == Merge(base, override)
  {
    var order, byName := IndexBase(base.steps);
    order, byName := IndexOverrides(base.steps, override.steps, order, byName);
    var steps := seq(|order|, k requires 0 <= k < |order| => byName[order[k]]);
    assert steps == Unpinned(base.steps, override.steps) by {
      forall k | 0 <= k < |order| ensures steps[k] == Unpinned(base.steps, override.steps)[k] {
        assert order[k] in byName && order[k] != "";
        assert Lookup(byName, order[k]) == ApplyOverrides(LastEntry(base.steps, order[k]), override.steps, order[k]);
      }
    }
    var k := IndexOfName(steps, MermaidName);
    if k >= 0 && steps[k].install == Some(LegacyMermaidInstall) {
      var baseMermaid := FindStep(base.steps, MermaidName);
      if baseMermaid.Some? && Present(baseMermaid.value.install) {
        steps := steps[k := steps[k].(install := baseMermaid.value.install)];
      }
      if baseMermaid.Some? && Present(baseMermaid.value.upgrade) {
        steps := steps[k := steps[k].(upgrade := baseMermaid.value.upgrade)];
      }
    }
    merged := Registry(steps);
  }

  /** The first loop of `mergeRegistries`: every named base entry is stored under its
      name, a later entry replacing an earlier one. */
  method IndexBase(base: seq<Step>) returns (order: seq<string>, byName: map<string, Step>)
    ensures order == Dedup(NamedNames(base))
    ensures forall n :: n in byName <==> n in order
    ensures "" !in byName
    ensures forall n | n != "" :: Lookup(byName, n) == LastEntry(base, n)
  {
    order := [];
    byName := map[];
    for i := 0 to |base|
      invariant order == Dedup(NamedNames(base[..i]))
      invariant forall n :: n in byName <==> n in order
      invariant "" !in byName
      invariant forall n | n != "" :: Lookup(byName, n) == LastEntry(base[..i], n)
    {
      var step := base[i];
      assert base[..i + 1] == base[..i] + [step];
      BaseEntryAdded(base[..i], step);
      if step.name != "" {
        if step.name !in byName {
          order := order + [step.name];
        }
        byName := byName[step.name := step];
      }
    }
    assert base[..|base|] == base;
  }

  /** The second loop of `mergeRegistries`: a named override entry is spread over the
      stored entry of that name, or stored as a new entry. */
  method IndexOverrides(base: seq<Step>, overrides: seq<Step>, order0: seq<string>, byName0: map<string, Step>)
    returns (order: seq<string>, byName: map<string, Step>)
    requires order0 == Dedup(NamedNames(base))
    requires forall n :: n in byName0 <==> n in order0
    requires "" !in byName0
    requires forall n | n != "" :: Lookup(byName0, n) == LastEntry(base, n)
    ensures order == MergedNames(base, overrides)
    ensures forall n :: n in byName <==> n in order
    ensures "" !in byName
    ensures forall n | n != "" :: Lookup(byName, n) == ApplyOverrides(LastEntry(base, n), overrides, n)
  {
    order, byName := order0, byName0;
    assert overrides[..0] == [];
    assert NamedNames(base) + NamedNames(overrides[..0]) == NamedNames(base);
    for i := 0 to |overrides|
      invariant order == Dedup(NamedNames(base) + NamedNames(overrides[..i]))
      invariant forall n :: n in byName <==> n in order
      invariant "" !in byName
      invariant forall n | n != "" :: Lookup(byName, n) == ApplyOverrides(LastEntry(base, n), overrides[..i], n)
    {
      var step := overrides[i];
      ghost var order1, byName1 := order, byName;
      if step.name != "" {
        if step.name in byName {
          byName := byName[step.name := Spread(byName[step.name], step)];
        } else {
          order := order + [step.name];
          byName := byName[step.name := step];
        }
      }
      assert overrides[..i + 1] == overrides[..i] + [step];
      OverrideEntryKept(base, overrides[..i], step, order1, byName1, order, byName);
    }
    assert overrides[..|overrides|] == overrides;
  }

  /** One pass of the override loop keeps its invariant. */
  lemma OverrideEntryKept(base: seq<Step>, prev: seq<Step>, step: Step,
                          order: seq<string>, byName: map<string, Step>,
                          order': seq<string>, byName': map<string, Step>)
    requires order == Dedup(NamedNames(base) + NamedNames(prev))
    requires forall n :: n in byName <==> n in order
    requires "" !in byName
    requires forall n | n != "" :: Lookup(byName, n) == ApplyOverrides(LastEntry(base, n), prev, n)
    requires step.name == "" ==> order' == order && byName' == byName
    requires step.name != "" && step.name in byName ==>
      order' == order && byName' == byName[step.name := Spread(byName[step.name], step)]
    requires step.name != "" && step.name !in byName ==>
      order' == order + [step.name] && byName' == byName[step.name := step]
    ensures order' == Dedup(NamedNames(base) + NamedNames(prev + [step]))
    ensures forall n :: n in byName' <==> n in order'
    ensures "" !in byName'
    ensures forall n | n != "" :: Lookup(byName', n) == ApplyOverrides(LastEntry(base, n), prev + [step], n)
  {
    OverrideEntryAdded(base, prev, step);
    OverrideLookupKept(base, prev, step, byName, byName');
  }

  lemma OverrideLookupKept(base: seq<Step>, prev: seq<Step>, step: Step, byName: map<string, Step>, byName': map<string, Step>)
    requires forall n | n != "" :: Lookup(byName, n) == ApplyOverrides(LastEntry(base, n), prev, n)
    requires step.name == "" ==> byName' == byName
    requires step.name != "" && step.name in byName ==> byName' == byName[step.name := Spread(byName[step.name], step)]
    requires step.name != "" && step.name !in byName ==> byName' == byName[step.name := step]
    ensures forall n | n != "" :: Lookup(byName', n) == ApplyOverrides(LastEntry(base, n), prev + [step], n)
  {
    forall n | n != "" ensures Lookup(byName', n) == ApplyOverrides(LastEntry(base, n), prev + [step], n) {
      ApplyOverridesSnoc(LastEntry(base, n), prev, step, n);
    }
  }

  /** `byName.get(n)`. */
  function Lookup(byName: map<string, Step>, n: string): Option<Step> {
    if n in byName then Some(byName[n]) else None
  }

  /** One override entry applied to what `byName` holds for `n`. */
  function ApplyOverridesStep(a: Option<Step>, o: Step, n: string): Option<Step> {
    if o.name == n then Some(if a.Some? then Spread(a.value, o) else o) else a
  }

  /** What one more base entry does to the merged names and the last entry per name. */
  lemma BaseEntryAdded(steps: seq<Step>, s: Step)
    ensures Dedup(NamedNames(steps + [s])) ==
      if s.name == "" || s.name in Dedup(NamedNames(steps)) then Dedup(NamedNames(steps))
      else Dedup(NamedNames(steps)) + [s.name]
    ensures forall n :: LastEntry(steps + [s], n) == if s.name == n then Some(s) else LastEntry(steps, n)
  {
    NamedNamesSnoc(steps, s);
    if s.name != "" {
      DedupSnoc(NamedNames(steps), s.name);
    }
    forall n ensures LastEntry(steps + [s], n) == if s.name == n then Some(s) else LastEntry(steps, n) {
      LastEntrySnoc(steps, s, n);
    }
  }

  /** What one more override entry does to the merged names. */
  lemma OverrideEntryAdded(base: seq<Step>, overrides: seq<Step>, o: Step)
    ensures Dedup(NamedNames(base) + NamedNames(overrides + [o])) ==
      if o.name == "" || o.name in Dedup(NamedNames(base) + NamedNames(overrides)) then Dedup(NamedNames(base) + NamedNames(overrides))
      else Dedup(NamedNames(base) + NamedNames(overrides)) + [o.name]
  {
    NamedNamesSnoc(overrides, o);
    if o.name != "" {
      assert NamedNames(base) + NamedNames(overrides + [o]) == (NamedNames(base) + NamedNames(overrides)) + [o.name];
      DedupSnoc(NamedNames(base) + NamedNames(overrides), o.name);
    } else {
      assert NamedNames(base) + NamedNames(overrides + [o]) == NamedNames(base) + NamedNames(overrides);
    }
  }

  lemma DedupSnoc(xs: seq<string>, x: string)
    ensures Dedup(xs + [x]) == if x in Dedup(xs) then Dedup(xs) else Dedup(xs) + [x]
  {
    assert (xs + [x])[..|xs|] == xs;
  }

  lemma NamedNamesSnoc(steps: seq<Step>, s: Step)
    ensures NamedNames(steps + [s]) == NamedNames(steps) + (if s.name == "" then [] else [s.name])
  {
    assert (steps + [s])[..|steps|] == steps;
  }

  lemma LastEntrySnoc(steps: seq<Step>, s: Step, n: string)
    ensures LastEntry(steps + [s], n) == if s.name == n then Some(s) else LastEntry(steps, n)
  {
    assert (steps + [s])[..|steps|] == steps;
  }

  lemma ApplyOverridesSnoc(acc: Option<Step>, overrides: seq<Step>, o: Step, n: string)
    requires acc.Some? ==> acc.value.name == n
    ensures ApplyOverrides(acc, overrides + [o], n) == ApplyOverridesStep(ApplyOverrides(acc, overrides, n), o, n)
  {
    assert (overrides + [o])[..|overrides|] == overrides;
  }


  // ---------------------------------------------------------------------------
  // Properties of the merge

  /** The names of `steps`, in order. */
  function NameList(steps: seq<Step>): (ns: seq<string>)
    ensures |ns| == |steps| && forall k :: 0 <= k < |steps| ==> ns[k] == steps[k].name
  {
    seq(|steps|, k requires 0 <= k < |steps| => steps[k].name)
  }

  /** `xs` without the elements of `excluded`. */
  function Without(xs: seq<string>, excluded: seq<string>): (r: seq<string>)
    ensures forall x :: x in r <==> x in xs && x !in excluded
  {
    if xs == [] then []
    else if xs[0] in excluded then Without(xs[1..], excluded)
    else [xs[0]] + Without(xs[1..], excluded)
  }

  lemma {:induction false} WithoutAppend(a: seq<string>, b: seq<string>, excluded: seq<string>)
    ensures Without(a + b, excluded) == Without(a, excluded) + Without(b, excluded)
  {
    if a == [] {
      assert a + b == b;
    } else {
      assert (a + b)[1..] == a[1..] + b;
      WithoutAppend(a[1..], b, excluded);
    }
  }

  lemma {:induction false} DedupDistinct(xs: seq<string>)
    requires Distinct(xs)
    ensures Dedup(xs) == xs
  {
    if xs != [] {
      var prev := xs[..|xs| - 1];
      assert xs == prev + [xs[|xs| - 1]];
      DedupDistinct(prev);
    }
  }

  /** Names first seen in `ys` come after all of `xs`'s, in their own first-seen order. */
  lemma {:induction false} DedupAppend(xs: seq<string>, ys: seq<string>)
    ensures Dedup(xs + ys) == Dedup(xs) + Without(Dedup(ys), xs)
  {
    if ys == [] {
      assert xs + ys == xs;
    } else {
      var prev := ys[..|ys| - 1];
      var y := ys[|ys| - 1];
      assert ys == prev + [y];
      assert xs + ys == (xs + prev) + [y];
      DedupAppend(xs, prev);
      DedupAppendSnoc(xs, prev, y);
    }
  }

  lemma DedupAppendSnoc(xs: seq<string>, prev: seq<string>, y: string)
    requires Dedup(xs + prev) == Dedup(xs) + Without(Dedup(prev), xs)
    ensures Dedup((xs + prev) + [y]) == Dedup(xs) + Without(Dedup(prev + [y]), xs)
  {
    var dx, dp := Dedup(xs), Dedup(prev);
    var rest := Without(dp, xs);
    DedupSnoc(xs + prev, y);
    DedupSnoc(prev, y);
    DedupHas(xs + prev, y);
    DedupHas(prev, y);
    if y !in prev {
      WithoutAppend(dp, [y], xs);
      WithoutSingle(y, xs);
      SnocAssoc(dx, rest, y, y in xs);
    }
  }

  /** The two ways of adding `y`, or nothing, after `a + b`. */
  lemma SnocAssoc(a: seq<string>, b: seq<string>, y: string, drop: bool)
    ensures var tail := if drop then [] else [y];
      (if drop then a + b else (a + b) + [y]) == a + (b + tail)
  {
    if drop {
      assert b + [] == b;
    }
  }

  lemma DedupHas(xs: seq<string>, y: string)
    ensures y in Dedup(xs) <==> y in xs
  {
    DedupElements(xs);
  }

  lemma WithoutSingle(y: string, excluded: seq<string>)
    ensures Without([y], excluded) == if y in excluded then [] else [y]
  {
    assert [y][1..] == [];
  }

  lemma {:induction false} NamedNamesOfNamed(steps: seq<Step>)
    requires forall k :: 0 <= k < |steps| ==> steps[k].name != ""
    ensures NamedNames(steps) == NameList(steps)
  {
    if steps != [] {
      var prev := steps[..|steps| - 1];
      NamedNamesOfNamed(prev);
    }
  }

  /** The Mermaid patch changes at most the install and upgrade of one entry. */
  lemma PinMermaidShape(steps: seq<Step>, base: seq<Step>)
    ensures |PinMermaid(steps, base)| == |steps|
    ensures forall k :: 0 <= k < |steps| ==>
      PinMermaid(steps, base)[k] == steps[k].(install := PinMermaid(steps, base)[k].install, upgrade := PinMermaid(steps, base)[k].upgrade)
    ensures forall k :: 0 <= k < |steps| && steps[k].name != MermaidName ==> PinMermaid(steps, base)[k] == steps[k]
    ensures forall k :: 0 <= k < |steps| ==> Covers(PinMermaid(steps, base)[k], steps[k])
  {
  }

  /** The merged registry holds one entry per name that occurs in the base or the
      override, and no nameless entry. */
  lemma MergeNames(base: Registry, override: Registry)
    ensures NameList(Merge(base, override).steps) == MergedNames(base.steps, override.steps)
    ensures UniqueNames(Merge(base, override).steps)
    ensures forall k :: 0 <= k < |Merge(base, override).steps| ==> Merge(base, override).steps[k].name != ""
    ensures Names(Merge(base, override).steps) == (Names(base.steps) + Names(override.steps)) - {""}
  {
    var u := Unpinned(base.steps, override.steps);
    var m := Merge(base, override).steps;
    var d := MergedNames(base.steps, override.steps);
    PinMermaidShape(u, base.steps);
    DedupElements(NamedNames(base.steps) + NamedNames(override.steps));
    NamedNamesElements(base.steps);
    NamedNamesElements(override.steps);
    assert NameList(m) == d;
    forall i, j | 0 <= i < j < |m| ensures m[i].name != m[j].name {
      assert m[i].name == d[i] && m[j].name == d[j];
    }
    forall n | n in Names(m) ensures n in (Names(base.steps) + Names(override.steps)) - {""} {
      var k :| 0 <= k < |m| && m[k].name == n;
      assert d[k] == n && d[k] in d;
      assert n in NamedNames(base.steps) + NamedNames(override.steps);
      assert n in NamedNames(base.steps) || n in NamedNames(override.steps);
    }
    forall n | n in (Names(base.steps) + Names(override.steps)) - {""} ensures n in Names(m) {
      assert n in d;
      var k :| 0 <= k < |d| && d[k] == n;
      assert m[k].name == n;
    }
    assert Names(m) == (Names(base.steps) + Names(override.steps)) - {""};
  }

  /** Order: the base's names keep their order, and names only the override has
      follow, in the order the override first lists them. */
  lemma MergeOrder(base: Registry, override: Registry)
    ensures NameList(Merge(base, override).steps)
      == Dedup(NamedNames(base.steps)) + Without(Dedup(NamedNames(override.steps)), NamedNames(base.steps))
  {
    MergeNames(base, override);
    DedupAppend(NamedNames(base.steps), NamedNames(override.steps));
  }

  /** Spreading a step over one it covers changes nothing. */
  lemma SpreadCovered(b: Step, s: Step)
    requires Covers(s, b)
    ensures Spread(b, s) == s
  {
  }

  /** With exactly one override entry `o` of that name, the override loop spreads it once. */
  lemma {:induction false} ApplyOverridesSingle(acc: Option<Step>, overrides: seq<Step>, n: string, o: Step)
    requires acc.Some? ==> acc.value.name == n
    requires o.name == n && o in overrides
    requires forall j :: 0 <= j < |overrides| && overrides[j].name == n ==> overrides[j] == o
    ensures ApplyOverrides(acc, overrides, n) == ApplyOverridesStep(acc, o, n)
  {
    var prev := overrides[..|overrides| - 1];
    var last := overrides[|overrides| - 1];
    assert overrides == prev + [last];
    if o in prev {
      ApplyOverridesSingle(acc, prev, n, o);
      if last.name == n {
        var a := ApplyOverrides(acc, prev, n).value;
        assert Spread(Spread(a, o), o) == Spread(a, o);
      }
    } else {
      assert last == o;
      ApplyOverridesNone(acc, prev, n);
    }
  }

  lemma {:induction false} ApplyOverridesNone(acc: Option<Step>, overrides: seq<Step>, n: string)
    requires acc.Some? ==> acc.value.name == n
    requires forall j :: 0 <= j < |overrides| ==> overrides[j].name != n
    ensures ApplyOverrides(acc, overrides, n) == acc
  {
    if overrides != [] {
      ApplyOverridesNone(acc, overrides[..|overrides| - 1], n);
    }
  }

  lemma LastEntryUnique(steps: seq<Step>, k: int)
    requires UniqueNames(steps) && 0 <= k < |steps|
    ensures LastEntry(steps, steps[k].name) == Some(steps[k])
  {
    var n := steps[k].name;
    var prev := steps[..|steps| - 1];
    if k < |steps| - 1 {
      LastEntryUnique(prev, k);
    }
  }

  /** Outside the Mermaid patch, the merged registry's entry for a name is the merged
      entry for it. */
  lemma MergedAt(base: Registry, override: Registry, n: string)
    requires n != "" && n != MermaidName
    requires n in Names(base.steps) || n in Names(override.steps)
    ensures FindStep(Merge(base, override).steps, n) == Some(MergedEntry(base.steps, override.steps, n))
  {
    MergeNames(base, override);
    var m := Merge(base, override).steps;
    var u := Unpinned(base.steps, override.steps);
    assert n in Names(m);
    var j :| 0 <= j < |m| && m[j].name == n;
    var i := IndexOfName(m, n);
    PinMermaidShape(u, base.steps);
    assert m[i] == u[i];
    FindStepIsFirst(m, n, i);
  }

  /** Override wins key by key: a base entry `steps[k]` and the single override entry
      `o` of the same name merge into `{ ...base, ...o }`. */
  lemma MergeOverrideWins(base: Registry, override: Registry, k: int, o: Step)
    requires UniqueNames(base.steps) && 0 <= k < |base.steps|
    requires base.steps[k].name != "" && base.steps[k].name != MermaidName
    requires o.name == base.steps[k].name && o in override.steps
    requires forall j :: 0 <= j < |override.steps| && override.steps[j].name == o.name ==> override.steps[j] == o
    ensures FindStep(Merge(base, override).steps, o.name) == Some(Spread(base.steps[k], o))
  {
    assert o.name in Names(base.steps);
    MergedAt(base, override, o.name);
    LastEntryUnique(base.steps, k);
    ApplyOverridesSingle(Some(base.steps[k]), override.steps, o.name, o);
  }

  /** A base entry that the override does not mention is kept as it is. */
  lemma MergeKeepsBase(base: Registry, override: Registry, k: int)
    requires UniqueNames(base.steps) && 0 <= k < |base.steps|
    requires base.steps[k].name != "" && base.steps[k].name != MermaidName
    requires base.steps[k].name !in Names(override.steps)
    ensures FindStep(Merge(base, override).steps, base.steps[k].name) == Some(base.steps[k])
  {
    var n := base.steps[k].name;
    assert n in Names(base.steps);
    MergedAt(base, override, n);
    LastEntryUnique(base.steps, k);
    ApplyOverridesNone(Some(base.steps[k]), override.steps, n);
  }

  /** An entry only the override has is added as written. */
  lemma MergeAddsOverride(base: Registry, override: Registry, o: Step)
    requires o.name != "" && o.name != MermaidName && o.name !in Names(base.steps)
    requires o in override.steps
    requires forall j :: 0 <= j < |override.steps| && override.steps[j].name == o.name ==> override.steps[j] == o
    ensures FindStep(Merge(base, override).steps, o.name) == Some(o)
  {
    assert o.name in Names(override.steps);
    MergedAt(base, override, o.name);
    LastEntryDefined(base.steps, o.name);
    ApplyOverridesSingle(None, override.steps, o.name, o);
  }

  lemma FindStepIsFirst(steps: seq<Step>, n: string, i: int)
    requires 0 <= i < |steps| && steps[i].name == n
    requires forall j :: 0 <= j < i ==> steps[j].name != n
    ensures FindStep(steps, n) == Some(steps[i])
  {
    if i > 0 {
      FindStepIsFirst(steps[1..], n, i - 1);
    }
  }

  lemma {:induction false} IndexOfNameByNames(a: seq<Step>, b: seq<Step>, n: string)
    requires NameList(a) == NameList(b)
    ensures IndexOfName(a, n) == IndexOfName(b, n)
  {
    if a != [] {
      assert NameList(a[1..]) == NameList(b[1..]);
      IndexOfNameByNames(a[1..], b[1..], n);
    }
  }

  /** Patching twice is patching once. */
  lemma PinMermaidIdempotent(steps: seq<Step>, base: seq<Step>)
    ensures PinMermaid(PinMermaid(steps, base), base) == PinMermaid(steps, base)
  {
    var p := PinMermaid(steps, base);
    PinMermaidShape(steps, base);
    assert NameList(p) == NameList(steps);
    IndexOfNameByNames(p, steps, MermaidName);
  }

  /** If the merged "Mermaid CLI" still carries the legacy install command, its
      install and its upgrade command each come from the built-in entry when that
      entry has one; every other key is the merged one. */
  lemma MermaidLegacyRestored(base: Registry, override: Registry)
    requires MermaidName in Names(base.steps) || MermaidName in Names(override.steps)
    requires MergedEntry(base.steps, override.steps, MermaidName).install == Some(LegacyMermaidInstall)
    ensures var e, b := MergedEntry(base.steps, override.steps, MermaidName), FindStep(base.steps, MermaidName);
      FindStep(Merge(base, override).steps, MermaidName) == Some(e.(
        install := if b.Some? && Present(b.value.install) then b.value.install else e.install,
        upgrade := if b.Some? && Present(b.value.upgrade) then b.value.upgrade else e.upgrade))
  {
    MergeNames(base, override);
    var m := Merge(base, override).steps;
    var u := Unpinned(base.steps, override.steps);
    assert MermaidName in Names(m);
    var j :| 0 <= j < |m| && m[j].name == MermaidName;
    var i := IndexOfName(m, MermaidName);
    PinMermaidShape(u, base.steps);
    assert NameList(m) == NameList(u);
    IndexOfNameByNames(m, u, MermaidName);
    FindStepIsFirst(m, MermaidName, i);
  }

  /** Any other install command for "Mermaid CLI" is kept as merged. */
  lemma MermaidChoiceKept(base: Registry, override: Registry)
    requires MermaidName in Names(base.steps) || MermaidName in Names(override.steps)
    requires MergedEntry(base.steps, override.steps, MermaidName).install != Some(LegacyMermaidInstall)
    ensures FindStep(Merge(base, override).steps, MermaidName) == Some(MergedEntry(base.steps, override.steps, MermaidName))
  {
    MergeNames(base, override);
    var m := Merge(base, override).steps;
    var u := Unpinned(base.steps, override.steps);
    assert MermaidName in Names(m);
    var j :| 0 <= j < |m| && m[j].name == MermaidName;
    var i := IndexOfName(m, MermaidName);
    PinMermaidShape(u, base.steps);
    assert NameList(m) == NameList(u);
    IndexOfNameByNames(m, u, MermaidName);
    FindStepIsFirst(m, MermaidName, i);
  }

  lemma {:induction false} WithoutTwice(xs: seq<string>, excluded: seq<string>)
    ensures Without(Without(xs, excluded), excluded) == Without(xs, excluded)
  {
    if xs != [] {
      WithoutTwice(xs[1..], excluded);
    }
  }

  lemma WithoutAllExcluded(xs: seq<string>, excluded: seq<string>)
    requires forall x :: x in xs ==> x in excluded
    ensures Without(xs, excluded) == []
  {
  }

  /** Deduplicating after prefixing `xs` again adds nothing. */
  lemma DedupAbsorbs(xs: seq<string>, ys: seq<string>)
    ensures Dedup(xs + Dedup(xs + ys)) == Dedup(xs + ys)
  {
    var d := Dedup(xs + ys);
    var tail := Without(Dedup(ys), xs);
    DedupAppend(xs, ys);
    assert d == Dedup(xs) + tail;
    DedupElements(xs + ys);
    DedupDistinct(d);
    DedupAppend(xs, d);
    WithoutAppend(Dedup(xs), tail, xs);
    DedupElements(xs);
    WithoutAllExcluded(Dedup(xs), xs);
    WithoutTwice(Dedup(ys), xs);
    assert Without(d, xs) == tail;
  }

  /** The names of a merged registry merged over the base again are the same names. */
  lemma MergedNamesOfMerged(base: Registry, override: Registry)
    ensures MergedNames(base.steps, Merge(base, override).steps) == MergedNames(base.steps, override.steps)
  {
    MergeNames(base, override);
    NamedNamesOfNamed(Merge(base, override).steps);
    DedupAbsorbs(NamedNames(base.steps), NamedNames(override.steps));
  }

  /** Every merged entry already covers its base entry, so spreading it again is a no-op. */
  lemma UnpinnedOfMerged(base: Registry, override: Registry)
    ensures Unpinned(base.steps, Merge(base, override).steps) == Merge(base, override).steps
  {
    var b := base.steps;
    var m := Merge(base, override).steps;
    var u := Unpinned(b, override.steps);
    var d := MergedNames(b, override.steps);
    MergeNames(base, override);
    MergedNamesOfMerged(base, override);
    PinMermaidShape(u, b);
    forall k | 0 <= k < |m| ensures Unpinned(b, m)[k] == m[k] {
      var n := d[k];
      assert m[k].name == n;
      forall j | 0 <= j < |m| && m[j].name == n ensures m[j] == m[k] {
        assert j == k;
      }
      ApplyOverridesSingle(LastEntry(b, n), m, n, m[k]);
      if LastEntry(b, n).Some? {
        SpreadCovered(LastEntry(b, n).value, m[k]);
      }
    }
  }

  /** Merging the merged registry over the base again gives the same registry. */
  lemma MergeIdempotent(base: Registry, override: Registry)
    ensures Merge(base, Merge(base, override)) == Merge(base, override)
  {
    UnpinnedOfMerged(base, override);
    PinMermaidIdempotent(Unpinned(base.steps, override.steps), base.steps);
  }

  lemma UnpinnedNoOverrides(b: seq<Step>)
    requires UniqueNames(b)
    requires NameList(b) == MergedNames(b, [])
    ensures Unpinned(b, []) == b
  {
    forall k | 0 <= k < |b| ensures Unpinned(b, [])[k] == b[k] {
      LastEntryUnique(b, k);
    }
  }

  /** A registry file without steps leaves a well-formed base unchanged. */
  lemma MergeEmptyOverride(base: Registry)
    requires UniqueNames(base.steps)
    requires forall k :: 0 <= k < |base.steps| ==> base.steps[k].name != ""
    ensures Merge(base, Registry([])) == base
  {
    var b := base.steps;
    NamedNamesOfNamed(b);
    assert NamedNames([]) == [];
    assert NamedNames(b) + NamedNames([]) == NameList(b);
    assert NameList(b) == MergedNames(b, []) by {
      DedupDistinct(NameList(b));
    }
    UnpinnedNoOverrides(b);
    PinMermaidOwnBase(b);
  }

  /** Patching entries with the base's own "Mermaid CLI" commands changes nothing. */
  lemma PinMermaidOwnBase(b: seq<Step>)
    ensures PinMermaid(b, b) == b
  {
    var i := IndexOfName(b, MermaidName);
    if i >= 0 {
      FindStepIsFirst(b, MermaidName, i);
      assert b[i := b[i]] == b;
    }
  }

  // ---------------------------------------------------------------------------
  // Helpers about step lists

  lemma {:induction false} NamesAppend(a: seq<Step>, b: seq<Step>)
    ensures Names(a + b) == Names(a) + Names(b)
  {
    forall n | n in Names(a + b) ensures n in Names(a) + Names(b) {
      var k :| 0 <= k < |a + b| && (a + b)[k].name == n;
      if k < |a| { assert a[k].name == n; } else { assert b[k - |a|].name == n; }
    }
    forall n | n in Names(a) + Names(b) ensures n in Names(a + b) {
      if n in Names(a) {
        var k :| 0 <= k < |a| && a[k].name == n;
        assert (a + b)[k].name == n;
      } else {
        var k :| 0 <= k < |b| && b[k].name == n;
        assert (a + b)[|a| + k].name == n;
      }
    }
  }

  lemma NamesSingleton(s: Step)
    ensures Names([s]) == {s.name}
  {
    assert [s][0] == s;
  }

  lemma UniqueAppend(a: seq<Step>, b: seq<Step>)
    requires UniqueNames(a) && UniqueNames(b)
    requires Names(a) !! Names(b)
    ensures UniqueNames(a + b)
  {
    forall i, j | 0 <= i < j < |a + b| ensures (a + b)[i].name != (a + b)[j].name {
      if i < |a| && j >= |a| {
        assert (a + b)[i].name in Names(a);
        assert (a + b)[j].name == b[j - |a|].name;
        assert (a + b)[j].name in Names(b);
      }
    }
  }

  lemma SubsetCard<T>(x: set<T>, y: set<T>)
    requires x <= y
    ensures |x| <= |y|
  {
    assert y == x + (y - x);
  }
}

/** The execution planner of `src/executor/plan/ExecutionPlanner.ts`: which steps
    a run covers, the ordering edges between them, the dependencies that cannot be
    satisfied inside the plan and, for uninstalls, the dependents the package
    managers report. */
module ExecutionPlanner {
  import opened Wrappers
  import opened Registry
  import opened RegistryDeps
  import opened TopologicalSorter
  import opened Providers

  datatype Action = Install | Upgrade | Uninstall

  /** `ExecutionPlan`. `addedDeps` is a JavaScript `Set` and keeps its insertion
      order; the two maps are keyed by step name. */
  datatype ExecutionPlan = ExecutionPlan(
    ordered: seq<Step>,
    addedDeps: seq<string>,
    externalDependents: map<string, seq<string>>,
    missingDeps: map<string, seq<string>>)

  // ---------------------------------------------------------------------------
  // Install expansion (`expandStepsForInstall`)

  /** The dependency names the expansion meets, in order: the names of each
      selected step's transitive dependencies, one selected step after another. */
  function DepStream(registry: Registry, steps: seq<Step>): seq<string> {
    if steps == [] then []
    else DepStream(registry, steps[..|steps| - 1]) + NameList(AllDependencies(registry, steps[|steps| - 1]))
  }

  /** `addedDeps`: the names met that were not selected, each once, in the order
      they were first met. */
  function AddedDeps(registry: Registry, steps: seq<Step>): seq<string> {
    Dedup(Without(DepStream(registry, steps), NameList(steps)))
  }

  /** `reg.filter((s) => names.has(s.name))`. */
  function KeepNamed(reg: seq<Step>, names: set<string>): (r: seq<Step>)
    ensures forall s :: s in r <==> s in reg && s.name in names
  {
    if reg == [] then []
    else if reg[0].name in names then [reg[0]] + KeepNamed(reg[1..], names)
    else KeepNamed(reg[1..], names)
  }

  function Elements(xs: seq<string>): set<string> {
    set x | x in xs
  }

  /** `expandStepsForInstall`: the registry steps named by the selection or met
      among the transitive dependencies of a selected step, in registry order. */
  method ExpandStepsForInstall(steps: seq<Step>, registry: Registry) returns (expanded: seq<Step>, addedDeps: seq<string>)
    ensures addedDeps == AddedDeps(registry, steps)
    ensures expanded == KeepNamed(registry.steps, Names(steps) + Elements(addedDeps))
  {
    var selectedNames := Names(steps);
    addedDeps := [];
    var allNames := selectedNames;
    for i := 0 to |steps|
      invariant Meeting(DepStream(registry, steps[..i]), steps, addedDeps, allNames)
    {
      var deps, _ := GetAllDependencies(steps[i], registry, {});
      assert steps[..i + 1][..i] == steps[..i];
      addedDeps, allNames := MeetDependencies(DepStream(registry, steps[..i]), deps, steps, addedDeps, allNames);
    }
    assert steps[..|steps|] == steps;
    expanded := KeepNamed(registry.steps, allNames);
  }

  /** The inner loop of the expansion, over the dependencies of one selected step. */
  method MeetDependencies(ghost stream: seq<string>, deps: seq<Step>, ghost steps: seq<Step>,
                          added0: seq<string>, allNames0: set<string>)
    returns (addedDeps: seq<string>, allNames: set<string>)
    requires Meeting(stream, steps, added0, allNames0)
    ensures Meeting(stream + NameList(deps), steps, addedDeps, allNames)
  {
    addedDeps, allNames := added0, allNames0;
    assert stream + NameList(deps[..0]) == stream;
    for j := 0 to |deps|
      invariant Meeting(stream + NameList(deps[..j]), steps, addedDeps, allNames)
    {
      var name := deps[j].name;
      MeetNext(stream, deps, j, steps, addedDeps, allNames);
      if name !in allNames {
        addedDeps := addedDeps + [name];
        allNames := allNames + {name};
      }
    }
    assert deps[..|deps|] == deps;
  }

  /** The state of the expansion after meeting the names `stream`: `addedDeps` and
      the set of all names seen. */
  ghost predicate Meeting(stream: seq<string>, steps: seq<Step>, added: seq<string>, allNames: set<string>) {
    && added == Dedup(Without(stream, NameList(steps)))
    && allNames == Names(steps) + Elements(added)
  }

  lemma MeetNext(stream: seq<string>, deps: seq<Step>, j: nat, steps: seq<Step>, added: seq<string>, allNames: set<string>)
    requires j < |deps|
    requires Meeting(stream + NameList(deps[..j]), steps, added, allNames)
    ensures var x := deps[j].name;
      if x in allNames then Meeting(stream + NameList(deps[..j + 1]), steps, added, allNames)
      else Meeting(stream + NameList(deps[..j + 1]), steps, added + [x], allNames + {x})
  {
    var x := deps[j].name;
    var met := stream + NameList(deps[..j]);
    StreamSnoc(stream, deps, j);
    MeetName(met, x, steps, added);
    ElementsSnoc(added, x);
  }

  lemma StreamSnoc(stream: seq<string>, deps: seq<Step>, j: nat)
    requires j < |deps|
    ensures stream + NameList(deps[..j + 1]) == (stream + NameList(deps[..j])) + [deps[j].name]
  {
    assert NameList(deps[..j + 1]) == NameList(deps[..j]) + [deps[j].name];
  }

  lemma ElementsSnoc(xs: seq<string>, x: string)
    ensures Elements(xs + [x]) == Elements(xs) + {x}
  {
  }

  /** Meeting one more name adds it exactly when it is neither selected nor added
      already. */
  lemma MeetName(stream: seq<string>, x: string, steps: seq<Step>, added: seq<string>)
    requires added == Dedup(Without(stream, NameList(steps)))
    ensures Dedup(Without(stream + [x], NameList(steps))) ==
      if x in Names(steps) + Elements(added) then added else added + [x]
  {
    var ex := NameList(steps);
    WithoutAppend(stream, [x], ex);
    WithoutSingle(x, ex);
    DedupSnoc(Without(stream, ex), x);
    DedupElements(Without(stream, ex));
    NameListNames(steps);
    if x in ex {
      assert Without(stream, ex) + [] == Without(stream, ex);
    }
  }

  lemma NameListNames(steps: seq<Step>)
    ensures forall n :: n in NameList(steps) <==> n in Names(steps)
  {
    forall n | n in Names(steps) ensures n in NameList(steps) {
      var i :| 0 <= i < |steps| && steps[i].name == n;
      assert NameList(steps)[i] == n;
    }
  }

  lemma {:induction false} DepStreamMembers(registry: Registry, steps: seq<Step>)
    ensures forall x :: x in DepStream(registry, steps) <==>
      exists k :: 0 <= k < |steps| && x in Names(AllDependencies(registry, steps[k]))
  {
    if steps != [] {
      var prev := steps[..|steps| - 1];
      DepStreamMembers(registry, prev);
      NameListNames(AllDependencies(registry, steps[|steps| - 1]));
      forall x | x in DepStream(registry, steps)
        ensures exists k :: 0 <= k < |steps| && x in Names(AllDependencies(registry, steps[k]))
      {
        if x in DepStream(registry, prev) {
          var k :| 0 <= k < |prev| && x in Names(AllDependencies(registry, prev[k]));
          assert prev[k] == steps[k];
        }
      }
      forall x | exists k :: 0 <= k < |steps| && x in Names(AllDependencies(registry, steps[k]))
        ensures x in DepStream(registry, steps)
      {
        var k :| 0 <= k < |steps| && x in Names(AllDependencies(registry, steps[k]));
        if k < |prev| {
          assert prev[k] == steps[k];
        }
      }
    }
  }

  /** `addedDeps` holds each transitive-dependency name of a selected step that was
      not itself selected, and nothing else, once. */
  lemma AddedDepsSpec(registry: Registry, steps: seq<Step>)
    ensures Distinct(AddedDeps(registry, steps))
    ensures forall x :: x in AddedDeps(registry, steps) <==>
      x !in Names(steps) && exists k :: 0 <= k < |steps| && x in Names(AllDependencies(registry, steps[k]))
  {
    DedupElements(Without(DepStream(registry, steps), NameList(steps)));
    NameListNames(steps);
    DepStreamMembers(registry, steps);
  }

  /** Filtering keeps the registry's order: what is kept from an earlier part of
      the registry comes before what is kept from a later part. */
  lemma {:induction false} KeepNamedOrder(a: seq<Step>, b: seq<Step>, names: set<string>)
    ensures KeepNamed(a + b, names) == KeepNamed(a, names) + KeepNamed(b, names)
  {
    if a == [] {
      assert a + b == b;
    } else {
      assert (a + b)[0] == a[0] && (a + b)[1..] == a[1..] + b;
      KeepNamedOrder(a[1..], b, names);
    }
  }

  /** The install plan: registry steps that are selected or added, in registry
      order; a selected name with no registry entry contributes nothing. */
  lemma InstallPlanSpec(registry: Registry, steps: seq<Step>)
    ensures var plan := KeepNamed(registry.steps, Names(steps) + Elements(AddedDeps(registry, steps)));
      && (forall s :: s in plan <==> s in registry.steps && (s.name in Names(steps) || s.name in AddedDeps(registry, steps)))
      && Names(plan) <= Names(registry.steps)
  {
    var plan := KeepNamed(registry.steps, Names(steps) + Elements(AddedDeps(registry, steps)));
    forall n | n in Names(plan) ensures n in Names(registry.steps) {
      var i :| 0 <= i < |plan| && plan[i].name == n;
      assert plan[i] in registry.steps;
      var j :| 0 <= j < |registry.steps| && registry.steps[j] == plan[i];
    }
  }

  // ---------------------------------------------------------------------------
  // Dependency edges and missing dependencies (`build`, the loop over the plan)

  /** The edge one in-plan dependency `d` of `step` contributes: from the step to
      its dependency for an uninstall, from the dependency to the step otherwise. */
  function DepEdge(step: Step, d: string, action: Action): (string, string) {
    if action == Uninstall then (step.name, d) else (d, step.name)
  }

  /** The edges the dependency names `deps` of `step` contribute, in order; a name
      with no step in the plan contributes none. */
  function StepEdges(step: Step, deps: seq<string>, planNames: seq<string>, action: Action): seq<(string, string)> {
    if deps == [] then []
    else
      var d := deps[|deps| - 1];
      StepEdges(step, deps[..|deps| - 1], planNames, action)
        + (if d in planNames then [DepEdge(step, d, action)] else [])
  }

  /** The edges the dependency loop adds, step after step. */
  function DependencyEdges(steps: seq<Step>, planNames: seq<string>, action: Action): seq<(string, string)> {
    if steps == [] then []
    else
      var s := steps[|steps| - 1];
      DependencyEdges(steps[..|steps| - 1], planNames, action) + StepEdges(s, DepNames(s), planNames, action)
  }

  /** `m.set(k, (m.get(k) || []).concat(xs))`, skipped when `xs` is empty. */
  function Appended(m: map<string, seq<string>>, k: string, xs: seq<string>): map<string, seq<string>> {
    if xs == [] then m else m[k := (if k in m then m[k] else []) + xs]
  }

  /** `missingDeps`: for each plan step, its dependency names with no step of that
      name in the plan, appended under the step's name. */
  function MissingDeps(steps: seq<Step>, planNames: seq<string>): map<string, seq<string>> {
    if steps == [] then map[]
    else
      var s := steps[|steps| - 1];
      Appended(MissingDeps(steps[..|steps| - 1], planNames), s.name, Without(DepNames(s), planNames))
  }

  /** The loop over the plan in `build`: edges between plan steps and the missing
      dependencies. */
  method DependencyEdgesAndMissing(planSteps: seq<Step>, action: Action)
    returns (edges: Edges, missingDeps: map<string, seq<string>>)
    ensures edges == InsertAll(map[], DependencyEdges(planSteps, NameList(planSteps), action))
    ensures missingDeps == MissingDeps(planSteps, NameList(planSteps))
  {
    var stepsByName := Names(planSteps);
    ghost var planNames := NameList(planSteps);
    NameListNames(planSteps);
    edges, missingDeps := map[], map[];
    for i := 0 to |planSteps|
      invariant edges == InsertAll(map[], DependencyEdges(planSteps[..i], planNames, action))
      invariant missingDeps == MissingDeps(planSteps[..i], planNames)
    {
      var step := planSteps[i];
      var deps := DepNames(step);
      ghost var done := DependencyEdges(planSteps[..i], planNames, action);
      ghost var missing0 := MissingDeps(planSteps[..i], planNames);
      assert done + StepEdges(step, deps[..0], planNames, action) == done;
      for j := 0 to |deps|
        invariant edges == InsertAll(map[], done + StepEdges(step, deps[..j], planNames, action))
        invariant missingDeps == Appended(missing0, step.name, Without(deps[..j], planNames))
      {
        var depName := deps[j];
        ScanMissing(step, deps, j, planNames, missing0);
        ScanEdge(step, deps, j, planNames, action, done);
        if depName !in stepsByName {
          var existing := if step.name in missingDeps then missingDeps[step.name] else [];
          missingDeps := missingDeps[step.name := existing + [depName]];
          continue;
        }
        if action == Uninstall {
          edges := AddEntry(edges, step.name, depName);
        } else {
          edges := AddEntry(edges, depName, step.name);
        }
      }
      assert deps[..|deps|] == deps;
      assert planSteps[..i + 1][..i] == planSteps[..i];
    }
    assert planSteps[..|planSteps|] == planSteps;
  }

  /** One dependency name with no step in the plan extends the step's missing list;
      one with a step leaves it as it is. */
  lemma ScanMissing(step: Step, deps: seq<string>, j: nat, planNames: seq<string>, missing0: map<string, seq<string>>)
    requires j < |deps|
    ensures var d := deps[j];
      Appended(missing0, step.name, Without(deps[..j + 1], planNames)) ==
        (var m := Appended(missing0, step.name, Without(deps[..j], planNames));
         if d in planNames then m
         else m[step.name := (if step.name in m then m[step.name] else []) + [d]])
  {
    var d := deps[j];
    assert deps[..j + 1] == deps[..j] + [d];
    WithoutAppend(deps[..j], [d], planNames);
    WithoutSingle(d, planNames);
    if d in planNames {
      assert Without(deps[..j], planNames) + [] == Without(deps[..j], planNames);
    } else {
      AppendedSnoc(missing0, step.name, Without(deps[..j], planNames), d);
    }
  }

  /** One dependency name with a step in the plan adds its edge; one without adds
      nothing. */
  lemma ScanEdge(step: Step, deps: seq<string>, j: nat, planNames: seq<string>, action: Action,
                 done: seq<(string, string)>)
    requires j < |deps|
    ensures var d := deps[j];
      InsertAll(map[], done + StepEdges(step, deps[..j + 1], planNames, action)) ==
        (var e := InsertAll(map[], done + StepEdges(step, deps[..j], planNames, action));
         if d in planNames then Insert(e, DepEdge(step, d, action)) else e)
  {
    var d := deps[j];
    assert deps[..j + 1][..j] == deps[..j];
    var before := StepEdges(step, deps[..j], planNames, action);
    if d in planNames {
      assert done + StepEdges(step, deps[..j + 1], planNames, action) == (done + before) + [DepEdge(step, d, action)];
      InsertAllSnoc(map[], done + before, DepEdge(step, d, action));
    } else {
      assert done + StepEdges(step, deps[..j + 1], planNames, action) == done + before;
    }
  }

  lemma AppendedSnoc(m0: map<string, seq<string>>, k: string, xs: seq<string>, x: string)
    ensures Appended(m0, k, xs + [x]) ==
      (var m := Appended(m0, k, xs); m[k := (if k in m then m[k] else []) + [x]])
  {
    if xs != [] {
      var g := if k in m0 then m0[k] else [];
      assert g + (xs + [x]) == (g + xs) + [x];
    } else {
      assert xs + [x] == [x];
    }
  }

  /** `step` declares the dependency that yields edge `a -> b`: `b` for an uninstall
      (the step comes first), `a` otherwise (the dependency comes first); the
      dependency must name a plan step. */
  predicate Declares(step: Step, deps: seq<string>, planNames: seq<string>, action: Action, a: string, b: string) {
    if action == Uninstall then step.name == a && b in deps && b in planNames
    else step.name == b && a in deps && a in planNames
  }

  lemma {:induction false} StepEdgesMembers(step: Step, deps: seq<string>, planNames: seq<string>, action: Action, a: string, b: string)
    ensures (a, b) in StepEdges(step, deps, planNames, action) <==> Declares(step, deps, planNames, action, a, b)
  {
    if deps != [] {
      var prev := deps[..|deps| - 1];
      StepEdgesMembers(step, prev, planNames, action, a, b);
      assert deps == prev + [deps[|deps| - 1]];
    }
  }

  /** The dependency loop adds edge `a -> b` exactly when some plan step declares
      the matching dependency and that dependency is in the plan. */
  lemma {:induction false} DependencyEdgesMembers(steps: seq<Step>, planNames: seq<string>, action: Action, a: string, b: string)
    ensures (a, b) in DependencyEdges(steps, planNames, action) <==>
      exists k :: 0 <= k < |steps| && Declares(steps[k], DepNames(steps[k]), planNames, action, a, b)
  {
    if steps != [] {
      var prev := steps[..|steps| - 1];
      var s := steps[|steps| - 1];
      DependencyEdgesMembers(prev, planNames, action, a, b);
      StepEdgesMembers(s, DepNames(s), planNames, action, a, b);
      if exists k :: 0 <= k < |steps| && Declares(steps[k], DepNames(steps[k]), planNames, action, a, b) {
        var k :| 0 <= k < |steps| && Declares(steps[k], DepNames(steps[k]), planNames, action, a, b);
        if k < |prev| {
          assert prev[k] == steps[k];
        }
      }
      if (a, b) in DependencyEdges(prev, planNames, action) {
        var k :| 0 <= k < |prev| && Declares(prev[k], DepNames(prev[k]), planNames, action, a, b);
        assert prev[k] == steps[k];
      }
    }
  }

  /** `missingDeps` is keyed by plan step names only. */
  lemma {:induction false} MissingDepsKeys(steps: seq<Step>, planNames: seq<string>)
    ensures forall n :: n in MissingDeps(steps, planNames) ==> n in Names(steps)
  {
    if steps != [] {
      var prev := steps[..|steps| - 1];
      MissingDepsKeys(prev, planNames);
      forall n | n in MissingDeps(steps, planNames) ensures n in Names(steps) {
        if n != steps[|steps| - 1].name {
          assert n in MissingDeps(prev, planNames);
          var i :| 0 <= i < |prev| && prev[i].name == n;
          assert steps[i].name == n;
        }
      }
    }
  }

  /** With one step per name, `missingDeps` has an entry for exactly the plan steps
      with a dependency missing from the plan, listing those dependencies in
      declaration order. */
  lemma {:induction false} MissingDepsSpec(steps: seq<Step>, planNames: seq<string>)
    requires UniqueNames(steps)
    ensures forall k :: 0 <= k < |steps| ==>
      var ms := Without(DepNames(steps[k]), planNames);
      (steps[k].name in MissingDeps(steps, planNames) <==> ms != [])
      && (ms != [] ==> MissingDeps(steps, planNames)[steps[k].name] == ms)
  {
    if steps != [] {
      var prev := steps[..|steps| - 1];
      var s := steps[|steps| - 1];
      assert UniqueNames(prev);
      MissingDepsSpec(prev, planNames);
      MissingDepsKeys(prev, planNames);
      assert s.name !in Names(prev);
      forall k | 0 <= k < |steps| - 1 ensures steps[k].name != s.name && prev[k] == steps[k] {
      }
    }
  }

  // ---------------------------------------------------------------------------
  // Provider edges (`applyProviderEdges`)

  /** A dependency provider as the planner uses it: its id, `getPackageInfo`, and
      `getDependents`, whose answers come from the package manager. */
  datatype Provider = Provider(id: string, identify: Step -> Option<PackageInfo>, dependents: PackageInfo -> seq<string>)

  /** The providers `build` creates, in its order: brew, npm and pipx (uv is not
      consulted). `brewOutput` is the output of a `brew uses` query (`None` when it
      fails); `npmListing` the parsed global npm listing, read once per run. */
  function DefaultProviders(brewOutput: string -> Option<string>, npmListing: Option<NpmTree>): seq<Provider> {
    [ Provider("brew", BrewPackage, (info: PackageInfo) => BrewDependents(brewOutput(BrewUsesCommand(info)))),
      Provider("npm", NpmPackage, (info: PackageInfo) => DependentsOf(NpmDependencyProvider.CacheFor(npmListing), info.name)),
      Provider("pipx", PipxPackage, NoDependents) ]
  }

  /** `map.set(k, v)` on an insertion-ordered map given as its entries: an existing
      key keeps its place. */
  function SetEntry(es: seq<(string, PackageInfo)>, k: string, v: PackageInfo): seq<(string, PackageInfo)> {
    if es == [] then [(k, v)]
    else if es[0].0 == k then [(k, v)] + es[1..]
    else [es[0]] + SetEntry(es[1..], k, v)
  }

  /** `infoByStep`: step name to the package the provider recognises in it. */
  function InfoEntries(p: Provider, steps: seq<Step>): seq<(string, PackageInfo)> {
    if steps == [] then []
    else
      var s := steps[|steps| - 1];
      var es := InfoEntries(p, steps[..|steps| - 1]);
      match p.identify(s)
      case None => es
      case Some(info) => SetEntry(es, s.name, info)
  }

  /** `nameToStep`: package name to the (last) step it was recognised in. */
  function Owners(p: Provider, steps: seq<Step>): map<string, Step> {
    if steps == [] then map[]
    else
      var s := steps[|steps| - 1];
      var m := Owners(p, steps[..|steps| - 1]);
      match p.identify(s)
      case None => m
      case Some(info) => m[info.name := s]
  }

  /** The dependents that are packages of plan steps, in order. */
  function Internal(ds: seq<string>, owners: map<string, Step>): seq<string> {
    if ds == [] then []
    else Internal(ds[..|ds| - 1], owners) + (if ds[|ds| - 1] in owners then [ds[|ds| - 1]] else [])
  }

  /** The other dependents, in order. */
  function External(ds: seq<string>, owners: map<string, Step>): seq<string> {
    if ds == [] then []
    else External(ds[..|ds| - 1], owners) + (if ds[|ds| - 1] in owners then [] else [ds[|ds| - 1]])
  }

  /** The edges from the steps owning `internal` to the step named `stepName`. */
  function InternalEdges(internal: seq<string>, owners: map<string, Step>, stepName: string): seq<(string, string)> {
    if internal == [] then []
    else
      var d := internal[|internal| - 1];
      InternalEdges(internal[..|internal| - 1], owners, stepName) + (if d in owners then [(owners[d].name, stepName)] else [])
  }

  /** The edges one provider adds, entry after entry of `infoByStep`. */
  function EntryEdges(p: Provider, es: seq<(string, PackageInfo)>, owners: map<string, Step>): seq<(string, string)> {
    if es == [] then []
    else
      var (stepName, info) := es[|es| - 1];
      EntryEdges(p, es[..|es| - 1], owners) + InternalEdges(Internal(p.dependents(info), owners), owners, stepName)
  }

  /** `externalDependents` after one provider: only brew appends, for each step its
      dependents that no plan step owns. */
  function EntryExternal(p: Provider, es: seq<(string, PackageInfo)>, owners: map<string, Step>,
                         ext0: map<string, seq<string>>): map<string, seq<string>> {
    if es == [] then ext0
    else
      var (stepName, info) := es[|es| - 1];
      var ext := EntryExternal(p, es[..|es| - 1], owners, ext0);
      if p.id == "brew" then Appended(ext, stepName, External(p.dependents(info), owners)) else ext
  }

  /** The edges all providers add, provider after provider. */
  function ProviderEdges(providers: seq<Provider>, steps: seq<Step>): seq<(string, string)> {
    if providers == [] then []
    else
      var p := providers[|providers| - 1];
      ProviderEdges(providers[..|providers| - 1], steps) + EntryEdges(p, InfoEntries(p, steps), Owners(p, steps))
  }

  function ExternalAfter(providers: seq<Provider>, steps: seq<Step>, ext0: map<string, seq<string>>): map<string, seq<string>> {
    if providers == [] then ext0
    else
      var p := providers[|providers| - 1];
      EntryExternal(p, InfoEntries(p, steps), Owners(p, steps), ExternalAfter(providers[..|providers| - 1], steps, ext0))
  }

  /** `applyProviderEdges`. */
  method ApplyProviderEdges(steps: seq<Step>, providers: seq<Provider>, edges0: Edges, ext0: map<string, seq<string>>)
    returns (edges: Edges, ext: map<string, seq<string>>)
    ensures edges == InsertAll(edges0, ProviderEdges(providers, steps))
    ensures ext == ExternalAfter(providers, steps, ext0)
  {
    edges, ext := edges0, ext0;
    for i := 0 to |providers|
      invariant edges == InsertAll(edges0, ProviderEdges(providers[..i], steps))
      invariant ext == ExternalAfter(providers[..i], steps, ext0)
    {
      var provider := providers[i];
      var infoByStep, nameToStep := IndexPackages(provider, steps);
      ghost var before := ProviderEdges(providers[..i], steps);
      edges, ext := ApplyDependents(provider, infoByStep, nameToStep, edges, ext);
      InsertAllAppend(edges0, before, EntryEdges(provider, infoByStep, nameToStep));
      assert providers[..i + 1][..i] == providers[..i];
    }
    assert providers[..|providers|] == providers;
  }

  /** The first loop of `applyProviderEdges`: the packages the provider recognises. */
  method IndexPackages(provider: Provider, steps: seq<Step>)
    returns (infoByStep: seq<(string, PackageInfo)>, nameToStep: map<string, Step>)
    ensures infoByStep == InfoEntries(provider, steps)
    ensures nameToStep == Owners(provider, steps)
  {
    infoByStep, nameToStep := [], map[];
    for i := 0 to |steps|
      invariant infoByStep == InfoEntries(provider, steps[..i])
      invariant nameToStep == Owners(provider, steps[..i])
    {
      assert steps[..i + 1][..i] == steps[..i];
      var step := steps[i];
      var info := provider.identify(step);
      if info.None? {
        continue;
      }
      infoByStep := SetEntry(infoByStep, step.name, info.value);
      nameToStep := nameToStep[info.value.name := step];
    }
    assert steps[..|steps|] == steps;
  }

  /** The second loop of `applyProviderEdges`, over `infoByStep`. */
  method ApplyDependents(provider: Provider, infoByStep: seq<(string, PackageInfo)>, nameToStep: map<string, Step>,
                         edges0: Edges, ext0: map<string, seq<string>>)
    returns (edges: Edges, ext: map<string, seq<string>>)
    ensures edges == InsertAll(edges0, EntryEdges(provider, infoByStep, nameToStep))
    ensures ext == EntryExternal(provider, infoByStep, nameToStep, ext0)
  {
    edges, ext := edges0, ext0;
    for i := 0 to |infoByStep|
      invariant edges == InsertAll(edges0, EntryEdges(provider, infoByStep[..i], nameToStep))
      invariant ext == EntryExternal(provider, infoByStep[..i], nameToStep, ext0)
    {
      ghost var edges1, ext1 := edges, ext;
      edges, ext := ApplyEntry(provider, infoByStep[i].0, infoByStep[i].1, nameToStep, edges, ext);
      EntryStep(provider, infoByStep, i, nameToStep, edges0, ext0, edges1, ext1, edges, ext);
    }
    assert infoByStep[..|infoByStep|] == infoByStep;
  }

  lemma EntryStep(provider: Provider, es: seq<(string, PackageInfo)>, i: nat, owners: map<string, Step>,
                  edges0: Edges, ext0: map<string, seq<string>>,
                  edges1: Edges, ext1: map<string, seq<string>>, edges2: Edges, ext2: map<string, seq<string>>)
    requires i < |es|
    requires edges1 == InsertAll(edges0, EntryEdges(provider, es[..i], owners))
    requires ext1 == EntryExternal(provider, es[..i], owners, ext0)
    requires edges2 == InsertAll(edges1, InternalEdges(Internal(provider.dependents(es[i].1), owners), owners, es[i].0))
    requires ext2 == if provider.id == "brew" then Appended(ext1, es[i].0, External(provider.dependents(es[i].1), owners)) else ext1
    ensures edges2 == InsertAll(edges0, EntryEdges(provider, es[..i + 1], owners))
    ensures ext2 == EntryExternal(provider, es[..i + 1], owners, ext0)
  {
    assert es[..i + 1][..i] == es[..i];
    InsertAllAppend(edges0, EntryEdges(provider, es[..i], owners),
                    InternalEdges(Internal(provider.dependents(es[i].1), owners), owners, es[i].0));
  }

  /** The body of the second loop for one entry of `infoByStep`. */
  method ApplyEntry(provider: Provider, stepName: string, info: PackageInfo, nameToStep: map<string, Step>,
                    edges0: Edges, ext0: map<string, seq<string>>)
    returns (edges: Edges, ext: map<string, seq<string>>)
    ensures edges == InsertAll(edges0, InternalEdges(Internal(provider.dependents(info), nameToStep), nameToStep, stepName))
    ensures ext == if provider.id == "brew" then Appended(ext0, stepName, External(provider.dependents(info), nameToStep)) else ext0
  {
    var dependents := provider.dependents(info);
    var internal, external := Partition(dependents, nameToStep);
    ext := ext0;
    if |external| > 0 && provider.id == "brew" {
      var existing := if stepName in ext then ext[stepName] else [];
      ext := ext[stepName := existing + external];
    }
    edges := AddInternalEdges(internal, nameToStep, stepName, edges0);
  }

  /** The split of the reported dependents into those owned by a plan step and the
      rest. */
  method Partition(dependents: seq<string>, nameToStep: map<string, Step>) returns (internal: seq<string>, external: seq<string>)
    ensures internal == Internal(dependents, nameToStep)
    ensures external == External(dependents, nameToStep)
  {
    internal, external := [], [];
    for j := 0 to |dependents|
      invariant internal == Internal(dependents[..j], nameToStep)
      invariant external == External(dependents[..j], nameToStep)
    {
      assert dependents[..j + 1][..j] == dependents[..j];
      var depName := dependents[j];
      if depName in nameToStep {
        internal := internal + [depName];
      } else {
        external := external + [depName];
      }
    }
    assert dependents[..|dependents|] == dependents;
  }

  /** The last loop: an edge from the owning step to the step named `stepName`. */
  method AddInternalEdges(internal: seq<string>, nameToStep: map<string, Step>, stepName: string, edges0: Edges)
    returns (edges: Edges)
    ensures edges == InsertAll(edges0, InternalEdges(internal, nameToStep, stepName))
  {
    edges := edges0;
    for j := 0 to |internal|
      invariant edges == InsertAll(edges0, InternalEdges(internal[..j], nameToStep, stepName))
    {
      assert internal[..j + 1][..j] == internal[..j];
      var internalName := internal[j];
      if internalName !in nameToStep {
        assert InternalEdges(internal[..j + 1], nameToStep, stepName) == InternalEdges(internal[..j], nameToStep, stepName);
        continue;
      }
      var internalStep := nameToStep[internalName];
      assert InternalEdges(internal[..j + 1], nameToStep, stepName) ==
        InternalEdges(internal[..j], nameToStep, stepName) + [(internalStep.name, stepName)];
      InsertAllSnoc(edges0, InternalEdges(internal[..j], nameToStep, stepName), (internalStep.name, stepName));
      edges := AddEntry(edges, internalStep.name, stepName);
    }
    assert internal[..|internal|] == internal;
  }

  // ---------------------------------------------------------------------------
  // `build`

  /** The steps a run covers: the expansion for an install, the selection as given
      for an upgrade or an uninstall. */
  function PlanSteps(steps: seq<Step>, action: Action, registry: Registry): seq<Step> {
    if action == Install then KeepNamed(registry.steps, Names(steps) + Elements(AddedDeps(registry, steps)))
    else steps
  }

  /** All edges in the order `build` adds them: the dependency edges, then (for an
      uninstall only) the provider edges. */
  function PlanEdgeList(planSteps: seq<Step>, action: Action, providers: seq<Provider>): seq<(string, string)> {
    DependencyEdges(planSteps, NameList(planSteps), action)
      + (if action == Uninstall then ProviderEdges(providers, planSteps) else [])
  }

  function PlanEdges(planSteps: seq<Step>, action: Action, providers: seq<Provider>): Edges {
    InsertAll(map[], PlanEdgeList(planSteps, action, providers))
  }

  /** `ExecutionPlanner.build`. The package managers' answers come in as `brewOutput`
      and `npmListing`. The order is a topological order of the plan under the edges
      when the plan has one step per name and such an order exists; otherwise the
      sort fails and the plan list is kept as it is. */
  method Build(steps: seq<Step>, action: Action, registry: Registry,
               brewOutput: string -> Option<string>, npmListing: Option<NpmTree>)
    returns (plan: ExecutionPlan)
    ensures var planSteps := PlanSteps(steps, action, registry);
      var providers := DefaultProviders(brewOutput, npmListing);
      var edges := PlanEdges(planSteps, action, providers);
      && plan.addedDeps == (if action == Install then AddedDeps(registry, steps) else [])
      && plan.missingDeps == MissingDeps(planSteps, NameList(planSteps))
      && plan.externalDependents == (if action == Uninstall then ExternalAfter(providers, planSteps, map[]) else map[])
      && (UniqueNames(planSteps) ==>
            IsTopoOrder(plan.ordered, planSteps, edges)
            || (plan.ordered == planSteps && forall o :: !IsTopoOrder(o, planSteps, edges)))
      && (NoInternalEdges(planSteps, edges) ==> plan.ordered == planSteps)
  {
    var providers := DefaultProviders(brewOutput, npmListing);
    var planSteps := steps;
    var addedDeps: seq<string> := [];
    if action == Install {
      planSteps, addedDeps := ExpandStepsForInstall(steps, registry);
    }
    var edges, missingDeps := DependencyEdgesAndMissing(planSteps, action);
    var externalDependents: map<string, seq<string>> := map[];
    ghost var depEdges := DependencyEdges(planSteps, NameList(planSteps), action);
    if action == Uninstall {
      edges, externalDependents := ApplyProviderEdges(planSteps, providers, edges, externalDependents);
      InsertAllAppend(map[], depEdges, ProviderEdges(providers, planSteps));
    } else {
      assert depEdges + [] == depEdges;
    }
    EdgesWellFormed(PlanEdgeList(planSteps, action, providers));
    var sorted := TopologicalSort(planSteps, edges);
    var ordered := if sorted.Some? then sorted.value else planSteps;
    plan := ExecutionPlan(ordered, addedDeps, externalDependents, missingDeps);
  }

  /** Edge lists never repeat a target (they are sets in the source). */
  lemma EdgesWellFormed(pairs: seq<(string, string)>)
    ensures WellFormedEdges(InsertAll(map[], pairs))
  {
    InsertAllDuplicateFree(map[], pairs);
  }

  // ---------------------------------------------------------------------------
  // What the provider edges mean

  /** Each step name appears at most once among the entries. */
  predicate KeysUnique(es: seq<(string, PackageInfo)>) {
    forall i, j :: 0 <= i < j < |es| ==> es[i].0 != es[j].0
  }

  /** `map.set`: the key now maps to the new value, every other entry stays. */
  lemma {:induction false} SetEntryMembers(es: seq<(string, PackageInfo)>, k: string, v: PackageInfo)
    requires KeysUnique(es)
    ensures KeysUnique(SetEntry(es, k, v))
    ensures forall x, y :: (x, y) in SetEntry(es, k, v) <==> (x == k && y == v) || (x != k && (x, y) in es)
  {
    if es == [] {
    } else if es[0].0 == k {
      assert forall x, y :: (x, y) in es[1..] ==> x != k by {
        forall x, y | (x, y) in es[1..] ensures x != k {
          var i :| 0 <= i < |es[1..]| && es[1..][i] == (x, y);
          assert es[i + 1] == (x, y);
        }
      }
      assert es == [es[0]] + es[1..];
    } else {
      SetEntryMembers(es[1..], k, v);
      assert es == [es[0]] + es[1..];
      var r := SetEntry(es, k, v);
      assert r == [es[0]] + SetEntry(es[1..], k, v);
      forall i, j | 0 <= i < j < |r| ensures r[i].0 != r[j].0 {
        if i == 0 {
          assert r[j] in SetEntry(es[1..], k, v);
          assert r[j] in es[1..] || r[j].0 == k;
          if r[j] in es[1..] {
            var l :| 0 <= l < |es[1..]| && es[1..][l] == r[j];
            assert es[l + 1] == r[j];
          }
        }
      }
    }
  }

  /** Some step named `n` is recognised by the provider as the package `info`. */
  ghost predicate Recognised(p: Provider, steps: seq<Step>, n: string, info: PackageInfo) {
    exists k :: 0 <= k < |steps| && steps[k].name == n && p.identify(steps[k]) == Some(info)
  }

  /** With unique step names, `infoByStep` holds exactly the recognised steps, once each. */
  lemma {:induction false} InfoEntriesMembers(p: Provider, steps: seq<Step>)
    requires UniqueNames(steps)
    ensures KeysUnique(InfoEntries(p, steps))
    ensures forall n, info :: (n, info) in InfoEntries(p, steps) <==> Recognised(p, steps, n, info)
  {
    if steps != [] {
      var prev, s := steps[..|steps| - 1], steps[|steps| - 1];
      InfoEntriesMembers(p, prev);
      var es := InfoEntries(p, prev);
      forall n, info ensures Recognised(p, steps, n, info) <==> Recognised(p, prev, n, info) || (n == s.name && p.identify(s) == Some(info)) {
        if Recognised(p, steps, n, info) {
          var k :| 0 <= k < |steps| && steps[k].name == n && p.identify(steps[k]) == Some(info);
          if k < |prev| {
            assert prev[k] == steps[k];
          }
        }
        if Recognised(p, prev, n, info) {
          var k :| 0 <= k < |prev| && prev[k].name == n && p.identify(prev[k]) == Some(info);
          assert steps[k] == prev[k];
        }
      }
      forall k | 0 <= k < |prev| ensures prev[k].name != s.name {
        assert prev[k] == steps[k];
      }
      if p.identify(s).Some? {
        SetEntryMembers(es, s.name, p.identify(s).value);
      }
    }
  }

  /** The provider recognises step `s` as the package named `d`. */
  predicate Identifies(p: Provider, s: Step, d: string) {
    p.identify(s).Some? && p.identify(s).value.name == d
  }

  /** `nameToStep` maps exactly the recognised package names, each to the last step
      recognised as that package. */
  lemma {:induction false} OwnersMembers(p: Provider, steps: seq<Step>)
    ensures forall d :: d in Owners(p, steps) ==> Identifies(p, Owners(p, steps)[d], d) && Owners(p, steps)[d] in steps
    ensures forall k :: 0 <= k < |steps| && p.identify(steps[k]).Some? ==> p.identify(steps[k]).value.name in Owners(p, steps)
  {
    if steps != [] {
      var prev := steps[..|steps| - 1];
      OwnersMembers(p, prev);
      assert forall k :: 0 <= k < |prev| ==> steps[k] == prev[k];
      assert forall t :: t in prev ==> t in steps;
    }
  }

  /** The partition of the reported dependents: owned ones go to `internal`, the
      rest to `external`, each keeping every occurrence. */
  lemma {:induction false} PartitionMembers(ds: seq<string>, owners: map<string, Step>)
    ensures forall d :: d in Internal(ds, owners) <==> d in ds && d in owners
    ensures forall d :: d in External(ds, owners) <==> d in ds && d !in owners
    ensures |Internal(ds, owners)| + |External(ds, owners)| == |ds|
  {
    if ds != [] {
      PartitionMembers(ds[..|ds| - 1], owners);
      assert ds == ds[..|ds| - 1] + [ds[|ds| - 1]];
    }
  }

  /** The edges for one entry run from the owner of each internal dependent to the entry's step. */
  lemma {:induction false} InternalEdgesMembers(internal: seq<string>, owners: map<string, Step>, n: string)
    ensures forall a, b :: (a, b) in InternalEdges(internal, owners, n) ==>
      b == n && exists d :: d in internal && d in owners && owners[d].name == a
    ensures forall d :: d in internal && d in owners ==> (owners[d].name, n) in InternalEdges(internal, owners, n)
  {
    if internal != [] {
      var prev := internal[..|internal| - 1];
      InternalEdgesMembers(prev, owners, n);
      assert internal == prev + [internal[|internal| - 1]];
    }
  }

  /** Owner of a dependent of the entry `es[i]`, pointing at that entry's step. */
  ghost predicate EntryReports(p: Provider, es: seq<(string, PackageInfo)>, owners: map<string, Step>, a: string, b: string) {
    exists i, d :: 0 <= i < |es| && es[i].0 == b && d in p.dependents(es[i].1) && d in owners && owners[d].name == a
  }

  /** Every edge a provider adds comes from a dependent it reported for an entry. */
  lemma {:induction false} EntryEdgesSound(p: Provider, es: seq<(string, PackageInfo)>, owners: map<string, Step>)
    ensures forall a, b :: (a, b) in EntryEdges(p, es, owners) ==> EntryReports(p, es, owners, a, b)
  {
    if es != [] {
      var prev, e := es[..|es| - 1], es[|es| - 1];
      EntryEdgesSound(p, prev, owners);
      var ds := p.dependents(e.1);
      PartitionMembers(ds, owners);
      InternalEdgesMembers(Internal(ds, owners), owners, e.0);
      forall a, b | (a, b) in EntryEdges(p, es, owners) ensures EntryReports(p, es, owners, a, b) {
        if (a, b) in EntryEdges(p, prev, owners) {
          var i, d :| 0 <= i < |prev| && prev[i].0 == b && d in p.dependents(prev[i].1) && d in owners && owners[d].name == a;
          assert es[i] == prev[i];
        } else {
          assert (a, b) in InternalEdges(Internal(ds, owners), owners, e.0);
          var d :| d in Internal(ds, owners) && d in owners && owners[d].name == a;
          assert es[|es| - 1] == e;
        }
      }
    }
  }

  /** Every owned dependent reported for an entry gives the edge owner → entry step. */
  lemma {:induction false} EntryEdgesComplete(p: Provider, es: seq<(string, PackageInfo)>, owners: map<string, Step>)
    ensures forall i, d :: 0 <= i < |es| && d in p.dependents(es[i].1) && d in owners ==>
      (owners[d].name, es[i].0) in EntryEdges(p, es, owners)
  {
    if es != [] {
      var prev, e := es[..|es| - 1], es[|es| - 1];
      EntryEdgesComplete(p, prev, owners);
      var ds := p.dependents(e.1);
      PartitionMembers(ds, owners);
      InternalEdgesMembers(Internal(ds, owners), owners, e.0);
      assert EntryEdges(p, es, owners) == EntryEdges(p, prev, owners) + InternalEdges(Internal(ds, owners), owners, e.0);
      forall i, d | 0 <= i < |es| && d in p.dependents(es[i].1) && d in owners
        ensures (owners[d].name, es[i].0) in EntryEdges(p, es, owners)
      {
        if i < |prev| {
          assert prev[i] == es[i];
        }
      }
    }
  }

  /** The provider edges are the union of what each provider reports. */
  lemma {:induction false} ProviderEdgesMembers(providers: seq<Provider>, steps: seq<Step>)
    ensures forall a, b :: (a, b) in ProviderEdges(providers, steps) ==>
      exists j :: 0 <= j < |providers| && (a, b) in EntryEdges(providers[j], InfoEntries(providers[j], steps), Owners(providers[j], steps))
    ensures forall j, a, b :: 0 <= j < |providers| && (a, b) in EntryEdges(providers[j], InfoEntries(providers[j], steps), Owners(providers[j], steps)) ==>
      (a, b) in ProviderEdges(providers, steps)
  {
    if providers != [] {
      var prev := providers[..|providers| - 1];
      ProviderEdgesMembers(prev, steps);
      assert forall j :: 0 <= j < |prev| ==> prev[j] == providers[j];
    }
  }

  /** The provider recognises step `b` and, among that package's dependents, the
      package of step `a`. */
  ghost predicate StepReports(p: Provider, steps: seq<Step>, a: string, b: string) {
    exists k, l :: 0 <= k < |steps| && 0 <= l < |steps| && steps[k].name == b && steps[l].name == a &&
      p.identify(steps[k]).Some? && p.identify(steps[l]).Some? &&
      p.identify(steps[l]).value.name in p.dependents(p.identify(steps[k]).value)
  }

  /** One provider adds an edge a → b only when it reported step a's package as a
      dependent of step b's package. */
  lemma OneProviderSound(p: Provider, steps: seq<Step>, a: string, b: string)
    requires UniqueNames(steps)
    requires (a, b) in EntryEdges(p, InfoEntries(p, steps), Owners(p, steps))
    ensures StepReports(p, steps, a, b)
  {
    var es, owners := InfoEntries(p, steps), Owners(p, steps);
    EntryEdgesSound(p, es, owners);
    InfoEntriesMembers(p, steps);
    OwnersMembers(p, steps);
    var i, d :| 0 <= i < |es| && es[i].0 == b && d in p.dependents(es[i].1) && d in owners && owners[d].name == a;
    assert es[i] in es;
    var k :| 0 <= k < |steps| && steps[k].name == b && p.identify(steps[k]) == Some(es[i].1);
    var l :| 0 <= l < |steps| && steps[l] == owners[d];
  }

  /** Provider edges, soundness: each comes from some provider's report. */
  lemma ProviderEdgesSound(providers: seq<Provider>, steps: seq<Step>)
    requires UniqueNames(steps)
    ensures forall a, b :: (a, b) in ProviderEdges(providers, steps) ==>
      exists j :: 0 <= j < |providers| && StepReports(providers[j], steps, a, b)
  {
    ProviderEdgesMembers(providers, steps);
    forall a, b | (a, b) in ProviderEdges(providers, steps)
      ensures exists j :: 0 <= j < |providers| && StepReports(providers[j], steps, a, b)
    {
      var j :| 0 <= j < |providers| && (a, b) in EntryEdges(providers[j], InfoEntries(providers[j], steps), Owners(providers[j], steps));
      OneProviderSound(providers[j], steps, a, b);
    }
  }

  /** Provider edges, completeness: when a provider recognises step k and reports the
      package `d` of some plan step as its dependent, the step owning `d` (the last
      one recognised as `d`) gets an edge to step k. */
  lemma ProviderEdgesComplete(providers: seq<Provider>, steps: seq<Step>, j: nat, k: nat, d: string)
    requires UniqueNames(steps)
    requires j < |providers| && k < |steps|
    requires providers[j].identify(steps[k]).Some?
    requires d in providers[j].dependents(providers[j].identify(steps[k]).value)
    requires exists l :: 0 <= l < |steps| && Identifies(providers[j], steps[l], d)
    ensures d in Owners(providers[j], steps)
    ensures Identifies(providers[j], Owners(providers[j], steps)[d], d)
    ensures (Owners(providers[j], steps)[d].name, steps[k].name) in ProviderEdges(providers, steps)
  {
    var p := providers[j];
    var es, owners := InfoEntries(p, steps), Owners(p, steps);
    InfoEntriesMembers(p, steps);
    OwnersMembers(p, steps);
    var info := p.identify(steps[k]).value;
    assert (steps[k].name, info) in es;
    var i :| 0 <= i < |es| && es[i] == (steps[k].name, info);
    EntryEdgesComplete(p, es, owners);
    ProviderEdgesMembers(providers, steps);
  }

  // ---------------------------------------------------------------------------
  // What `externalDependents` means

  /** Every list of `m` survives in `m2`, possibly with more names appended. */
  ghost predicate Grows(m: map<string, seq<string>>, m2: map<string, seq<string>>) {
    forall n :: n in m ==> n in m2 && m[n] <= m2[n]
  }

  lemma {:induction false} EntryExternalGrows(p: Provider, es: seq<(string, PackageInfo)>, owners: map<string, Step>,
                                              ext0: map<string, seq<string>>)
    ensures Grows(ext0, EntryExternal(p, es, owners, ext0))
  {
    if es != [] {
      EntryExternalGrows(p, es[..|es| - 1], owners, ext0);
    }
  }

  /** A provider other than brew leaves `externalDependents` alone. */
  lemma {:induction false} EntryExternalOnlyBrew(p: Provider, es: seq<(string, PackageInfo)>, owners: map<string, Step>,
                                                 ext0: map<string, seq<string>>)
    requires p.id != "brew"
    ensures EntryExternal(p, es, owners, ext0) == ext0
  {
    if es != [] {
      EntryExternalOnlyBrew(p, es[..|es| - 1], owners, ext0);
    }
  }

  /** Brew reported `x` as a dependent of the entry for step `n`, and no plan step owns it. */
  ghost predicate ReportsExternal(p: Provider, es: seq<(string, PackageInfo)>, owners: map<string, Step>, n: string, x: string) {
    p.id == "brew" && x !in owners && exists i :: 0 <= i < |es| && es[i].0 == n && x in p.dependents(es[i].1)
  }

  /** A name is appended under an entry's step only if the provider is brew, it
      reported the name as a dependent of that entry and no plan step owns it. */
  lemma {:induction false} EntryExternalSound(p: Provider, es: seq<(string, PackageInfo)>, owners: map<string, Step>,
                                              ext0: map<string, seq<string>>)
    ensures forall n, x :: n in EntryExternal(p, es, owners, ext0) && x in EntryExternal(p, es, owners, ext0)[n] ==>
      (n in ext0 && x in ext0[n]) || ReportsExternal(p, es, owners, n, x)
  {
    if es != [] {
      var prev, e := es[..|es| - 1], es[|es| - 1];
      EntryExternalSound(p, prev, owners, ext0);
      var ext := EntryExternal(p, prev, owners, ext0);
      var ds := p.dependents(e.1);
      PartitionMembers(ds, owners);
      assert EntryExternal(p, es, owners, ext0) == if p.id == "brew" then Appended(ext, e.0, External(ds, owners)) else ext;
      forall n, x | n in EntryExternal(p, es, owners, ext0) && x in EntryExternal(p, es, owners, ext0)[n]
        ensures (n in ext0 && x in ext0[n]) || ReportsExternal(p, es, owners, n, x)
      {
        if n in ext && x in ext[n] {
          if !(n in ext0 && x in ext0[n]) {
            assert ReportsExternal(p, prev, owners, n, x);
            var i :| 0 <= i < |prev| && prev[i].0 == n && x in p.dependents(prev[i].1);
            assert es[i] == prev[i];
          }
        } else {
          assert p.id == "brew" && n == e.0 && x in External(ds, owners);
          assert es[|es| - 1] == e;
        }
      }
    }
  }

  /** Every unowned dependent brew reports for an entry is appended under its step. */
  lemma {:induction false} EntryExternalComplete(p: Provider, es: seq<(string, PackageInfo)>, owners: map<string, Step>,
                                                 ext0: map<string, seq<string>>)
    requires p.id == "brew"
    ensures forall i, x :: 0 <= i < |es| && x in p.dependents(es[i].1) && x !in owners ==>
      es[i].0 in EntryExternal(p, es, owners, ext0) && x in EntryExternal(p, es, owners, ext0)[es[i].0]
  {
    if es != [] {
      var prev, e := es[..|es| - 1], es[|es| - 1];
      EntryExternalComplete(p, prev, owners, ext0);
      var ext := EntryExternal(p, prev, owners, ext0);
      var ds := p.dependents(e.1);
      PartitionMembers(ds, owners);
      forall i, x | 0 <= i < |es| && x in p.dependents(es[i].1) && x !in owners
        ensures es[i].0 in EntryExternal(p, es, owners, ext0) && x in EntryExternal(p, es, owners, ext0)[es[i].0]
      {
        if i < |prev| {
          assert prev[i] == es[i];
          var n := es[i].0;
          assert n in ext && x in ext[n];
          if External(ds, owners) != [] && n == e.0 {
            assert ext[n] <= EntryExternal(p, es, owners, ext0)[n];
          }
        } else {
          assert x in External(ds, owners);
        }
      }
    }
  }

  /** With no brew provider, `externalDependents` stays as it was. */
  lemma {:induction false} ExternalOnlyBrew(providers: seq<Provider>, steps: seq<Step>, ext0: map<string, seq<string>>)
    requires forall j :: 0 <= j < |providers| ==> providers[j].id != "brew"
    ensures ExternalAfter(providers, steps, ext0) == ext0
  {
    if providers != [] {
      var p := providers[|providers| - 1];
      ExternalOnlyBrew(providers[..|providers| - 1], steps, ext0);
      EntryExternalOnlyBrew(p, InfoEntries(p, steps), Owners(p, steps), ExternalAfter(providers[..|providers| - 1], steps, ext0));
    }
  }

  /** A brew provider recognises step `n` and reports `x`, a package no plan step is
      recognised as by that provider, as one of its dependents. */
  ghost predicate BrewExternal(providers: seq<Provider>, steps: seq<Step>, n: string, x: string) {
    exists j, k :: 0 <= j < |providers| && 0 <= k < |steps| && providers[j].id == "brew" && steps[k].name == n &&
      providers[j].identify(steps[k]).Some? && x in providers[j].dependents(providers[j].identify(steps[k]).value) &&
      x !in Owners(providers[j], steps)
  }

  /** `externalDependents`, soundness: each name in it was there before or is an
      unowned dependent brew reported for that step. */
  lemma {:induction false} ExternalSound(providers: seq<Provider>, steps: seq<Step>, ext0: map<string, seq<string>>)
    requires UniqueNames(steps)
    ensures forall n, x :: n in ExternalAfter(providers, steps, ext0) && x in ExternalAfter(providers, steps, ext0)[n] ==>
      (n in ext0 && x in ext0[n]) || BrewExternal(providers, steps, n, x)
  {
    if providers != [] {
      var prev, p := providers[..|providers| - 1], providers[|providers| - 1];
      var es, owners := InfoEntries(p, steps), Owners(p, steps);
      var before := ExternalAfter(prev, steps, ext0);
      ExternalSound(prev, steps, ext0);
      EntryExternalSound(p, es, owners, before);
      InfoEntriesMembers(p, steps);
      forall n, x | n in ExternalAfter(providers, steps, ext0) && x in ExternalAfter(providers, steps, ext0)[n]
        ensures (n in ext0 && x in ext0[n]) || BrewExternal(providers, steps, n, x)
      {
        if n in before && x in before[n] {
          if !(n in ext0 && x in ext0[n]) {
            assert BrewExternal(prev, steps, n, x);
            var j, k :| 0 <= j < |prev| && 0 <= k < |steps| && prev[j].id == "brew" && steps[k].name == n &&
              prev[j].identify(steps[k]).Some? && x in prev[j].dependents(prev[j].identify(steps[k]).value) &&
              x !in Owners(prev[j], steps);
            assert providers[j] == prev[j];
          }
        } else {
          assert ReportsExternal(p, es, owners, n, x);
          var i :| 0 <= i < |es| && es[i].0 == n && x in p.dependents(es[i].1);
          assert es[i] in es;
          var k :| 0 <= k < |steps| && steps[k].name == n && p.identify(steps[k]) == Some(es[i].1);
          assert providers[|providers| - 1] == p;
        }
      }
    }
  }

  /** `externalDependents`, completeness: every unowned dependent a brew provider
      reports for a plan step ends up under that step's name. */
  lemma {:induction false} ExternalComplete(providers: seq<Provider>, steps: seq<Step>, ext0: map<string, seq<string>>,
                                            j: nat, k: nat, x: string)
    requires UniqueNames(steps)
    requires j < |providers| && k < |steps| && providers[j].id == "brew"
    requires providers[j].identify(steps[k]).Some?
    requires x in providers[j].dependents(providers[j].identify(steps[k]).value)
    requires x !in Owners(providers[j], steps)
    ensures steps[k].name in ExternalAfter(providers, steps, ext0)
    ensures x in ExternalAfter(providers, steps, ext0)[steps[k].name]
  {
    var prev, p := providers[..|providers| - 1], providers[|providers| - 1];
    var es, owners := InfoEntries(p, steps), Owners(p, steps);
    var before := ExternalAfter(prev, steps, ext0);
    var n := steps[k].name;
    if j == |providers| - 1 {
      InfoEntriesMembers(p, steps);
      var info := p.identify(steps[k]).value;
      assert Recognised(p, steps, n, info);
      assert (n, info) in es;
      var i :| 0 <= i < |es| && es[i] == (n, info);
      EntryExternalComplete(p, es, owners, before);
    } else {
      assert prev[j] == providers[j];
      ExternalComplete(prev, steps, ext0, j, k, x);
      EntryExternalGrows(p, es, owners, before);
      var after := ExternalAfter(providers, steps, ext0);
      assert before[n] <= after[n];
      assert after[n][..|before[n]|] == before[n];
      var l :| 0 <= l < |before[n]| && before[n][l] == x;
      assert after[n][l] == x;
    }
  }
}

/** The transitive dependencies of a step, as collected by
    `src/executor/plan/registryDeps.ts`: a depth-first walk over the declared
    dependency names that lists each dependency after its own dependencies, with one
    `visited` set shared by the whole walk. */
module RegistryDeps {
  import opened Wrappers
  import opened Registry

  /** What a walk returns, together with the `visited` set it leaves behind. */
  datatype Walk = Walk(deps: seq<Step>, visited: set<string>)

  /** The registry names not visited yet: the walk's termination measure. */
  function Unvisited(reg: seq<Step>, visited: set<string>): set<string> {
    Names(reg) - visited
  }

  /** `getAllDependencies(step, registry, visited)`. */
  function Collect(reg: seq<Step>, step: Step, visited: set<string>): (w: Walk)
    decreases |Unvisited(reg, visited)|, |DepNames(step)| + 1
    ensures visited <= w.visited
  {
    if step.dependencies.None? || step.dependencies.value == [] then Walk([], visited)
    else CollectAll(reg, step.dependencies.value, visited)
  }

  /** The loop over `step.dependencies`, from a given dependency name on. */
  function CollectAll(reg: seq<Step>, names: seq<string>, visited: set<string>): (w: Walk)
    decreases |Unvisited(reg, visited)|, |names|
    ensures visited <= w.visited
  {
    if names == [] then Walk([], visited)
    else
      var n := names[0];
      if n in visited then CollectAll(reg, names[1..], visited)
      else
        var visited' := visited + {n};
        match FindStep(reg, n)
        case None =>
          assert Unvisited(reg, visited') == Unvisited(reg, visited);
          CollectAll(reg, names[1..], visited')
        case Some(dep) =>
          VisitShrinks(reg, visited, n);
          var nested := Collect(reg, dep, visited');
          UnvisitedShrinksWith(reg, visited', nested.visited);
          var rest := CollectAll(reg, names[1..], nested.visited);
          Walk(nested.deps + [dep] + rest.deps, rest.visited)
  }

  /** `getAllDependencies(step, registry)`: a fresh `visited` set. */
  function AllDependencies(registry: Registry, step: Step): seq<Step> {
    Collect(registry.steps, step, {}).deps
  }

  /** A step with no dependencies, or an empty list of them, yields nothing and
      leaves `visited` as it was. */
  lemma NoDependenciesNothing(reg: seq<Step>, step: Step, visited: set<string>)
    requires DepNames(step) == []
    ensures Collect(reg, step, visited) == Walk([], visited)
  {
  }

  lemma VisitShrinks(reg: seq<Step>, visited: set<string>, n: string)
    requires n in Names(reg) && n !in visited
    ensures |Unvisited(reg, visited + {n})| < |Unvisited(reg, visited)|
  {
    assert Unvisited(reg, visited) == Unvisited(reg, visited + {n}) + {n};
  }

  lemma UnvisitedShrinksWith(reg: seq<Step>, visited: set<string>, visited': set<string>)
    requires visited <= visited'
    ensures |Unvisited(reg, visited')| <= |Unvisited(reg, visited)|
  {
    SubsetCard(Unvisited(reg, visited'), Unvisited(reg, visited));
  }

  // ---------------------------------------------------------------------------
  // The walk as the source writes it

  /** The recursive walk: the caller's `visited` set goes in, and the set the walk
      leaves behind comes out. */
  method GetAllDependencies(step: Step, registry: Registry, visited0: set<string>)
    returns (deps: seq<Step>, visited: set<string>)
    ensures Walk(deps, visited) == Collect(registry.steps, step, visited0)
    decreases |Unvisited(registry.steps, visited0)|
  {
    if step.dependencies.None? || |step.dependencies.value| == 0 {
      return [], visited0;
    }
    var names := step.dependencies.value;
    deps, visited := [], visited0;
    for i := 0 to |names|
      invariant visited0 <= visited
      invariant Collect(registry.steps, step, visited0) == Then(deps, CollectAll(registry.steps, names[i..], visited))
    {
      var depName := names[i];
      ghost var total := Collect(registry.steps, step, visited0);
      if depName in visited {
        WalkPassed(registry.steps, names, i, visited, visited, deps, total);
        continue;
      }
      ghost var before := visited;
      visited := visited + {depName};
      var depStep := FindStep(registry.steps, depName);
      if depStep.Some? {
        VisitShrinks(registry.steps, before, depName);
        UnvisitedShrinksWith(registry.steps, visited0, before);
        var nested, visited' := GetAllDependencies(depStep.value, registry, visited);
        WalkFound(registry.steps, names, i, before, deps, depStep.value, Walk(nested, visited'), total);
        deps := deps + nested + [depStep.value];
        visited := visited';
      } else {
        WalkPassed(registry.steps, names, i, before, visited, deps, total);
      }
    }
    assert names[|names|..] == [];
  }

  /** The result so far followed by what the rest of the walk returns. */
  function Then(prefix: seq<Step>, w: Walk): Walk {
    Walk(prefix + w.deps, w.visited)
  }

  /** A name already visited, or without a registry entry, is passed over: it is
      only marked visited. */
  lemma WalkPassed(reg: seq<Step>, names: seq<string>, i: nat, visited: set<string>, visited': set<string>,
                   deps: seq<Step>, total: Walk)
    requires i < |names|
    requires names[i] in visited ==> visited' == visited
    requires names[i] !in visited ==> FindStep(reg, names[i]).None? && visited' == visited + {names[i]}
    requires total == Then(deps, CollectAll(reg, names[i..], visited))
    ensures total == Then(deps, CollectAll(reg, names[i + 1..], visited'))
  {
    assert names[i..][0] == names[i] && names[i..][1..] == names[i + 1..];
  }

  /** A name not yet visited, with a registry entry: its dependencies, then the
      entry, then the rest of the names. */
  lemma WalkFound(reg: seq<Step>, names: seq<string>, i: nat, visited: set<string>, deps: seq<Step>,
                  dep: Step, nested: Walk, total: Walk)
    requires i < |names| && names[i] !in visited && FindStep(reg, names[i]) == Some(dep)
    requires nested == Collect(reg, dep, visited + {names[i]})
    requires total == Then(deps, CollectAll(reg, names[i..], visited))
    ensures total == Then(deps + nested.deps + [dep], CollectAll(reg, names[i + 1..], nested.visited))
  {
    assert names[i..][0] == names[i] && names[i..][1..] == names[i + 1..];
    var rest := CollectAll(reg, names[i + 1..], nested.visited);
    assert CollectAll(reg, names[i..], visited) == Walk(nested.deps + [dep] + rest.deps, rest.visited);
    assert deps + (nested.deps + [dep] + rest.deps) == (deps + nested.deps + [dep]) + rest.deps;
  }

  // ---------------------------------------------------------------------------
  // Properties of the walk

  /** Each name it newly visits and finds in the registry is listed once, as the
      first registry entry of that name; names already visited are not listed. */
  ghost predicate ListsNewlyVisited(reg: seq<Step>, visited: set<string>, w: Walk) {
    && UniqueNames(w.deps)
    && Names(w.deps) == (w.visited - visited) * Names(reg)
    && forall k | 0 <= k < |w.deps| :: FindStep(reg, w.deps[k].name) == Some(w.deps[k])
  }

  lemma {:induction false} CollectLists(reg: seq<Step>, step: Step, visited: set<string>)
    ensures ListsNewlyVisited(reg, visited, Collect(reg, step, visited))
    decreases |Unvisited(reg, visited)|, |DepNames(step)| + 1
  {
    if step.dependencies.None? || step.dependencies.value == [] {
      assert Names([]) == {};
    } else {
      CollectAllLists(reg, step.dependencies.value, visited);
    }
  }

  lemma {:induction false} CollectAllLists(reg: seq<Step>, names: seq<string>, visited: set<string>)
    ensures ListsNewlyVisited(reg, visited, CollectAll(reg, names, visited))
    decreases |Unvisited(reg, visited)|, |names|
  {
    if names == [] {
      assert Names([]) == {};
    } else {
      var n := names[0];
      if n in visited {
        CollectAllLists(reg, names[1..], visited);
      } else {
        var visited' := visited + {n};
        match FindStep(reg, n)
        case None =>
          assert Unvisited(reg, visited') == Unvisited(reg, visited);
          CollectAllLists(reg, names[1..], visited');
        case Some(dep) =>
          VisitShrinks(reg, visited, n);
          var nested := Collect(reg, dep, visited');
          UnvisitedShrinksWith(reg, visited', nested.visited);
          var rest := CollectAll(reg, names[1..], nested.visited);
          CollectLists(reg, dep, visited');
          CollectAllLists(reg, names[1..], nested.visited);
          ListsJoin(reg, visited, n, dep, nested, rest);
      }
    }
  }

  /** The list of one newly visited registry name, put together from the walk below
      it and the walk over the remaining names. */
  lemma ListsJoin(reg: seq<Step>, visited: set<string>, n: string, dep: Step, nested: Walk, rest: Walk)
    requires n !in visited && FindStep(reg, n) == Some(dep)
    requires visited + {n} <= nested.visited <= rest.visited
    requires ListsNewlyVisited(reg, visited + {n}, nested)
    requires ListsNewlyVisited(reg, nested.visited, rest)
    ensures ListsNewlyVisited(reg, visited, Walk(nested.deps + [dep] + rest.deps, rest.visited))
  {
    var all := nested.deps + [dep] + rest.deps;
    NamesAppend(nested.deps, [dep]);
    NamesAppend(nested.deps + [dep], rest.deps);
    NamesSingleton(dep);
    UniqueAppend(nested.deps, [dep]);
    UniqueAppend(nested.deps + [dep], rest.deps);
    forall k | 0 <= k < |all| ensures FindStep(reg, all[k].name) == Some(all[k]) {
      if k < |nested.deps| {
        assert all[k] == nested.deps[k];
      } else if k > |nested.deps| {
        assert all[k] == rest.deps[k - |nested.deps| - 1];
      }
    }
  }

  /** A visited registry name whose own dependency names are all visited. */
  ghost predicate Explored(reg: seq<Step>, n: string, visited: set<string>) {
    n in Names(reg) ==> forall d | d in DepNames(FindStep(reg, n).value) :: d in visited
  }

  /** The walk visits every name it is given, and explores every name it visits. */
  ghost predicate VisitsAll(reg: seq<Step>, names: seq<string>, visited: set<string>, w: Walk) {
    && (forall d | d in names :: d in w.visited)
    && forall v | v in w.visited - visited :: Explored(reg, v, w.visited)
  }

  lemma {:induction false} CollectVisits(reg: seq<Step>, step: Step, visited: set<string>)
    ensures VisitsAll(reg, DepNames(step), visited, Collect(reg, step, visited))
    decreases |Unvisited(reg, visited)|, |DepNames(step)| + 1
  {
    if step.dependencies.Some? && step.dependencies.value != [] {
      CollectAllVisits(reg, step.dependencies.value, visited);
    }
  }

  lemma {:induction false} CollectAllVisits(reg: seq<Step>, names: seq<string>, visited: set<string>)
    ensures VisitsAll(reg, names, visited, CollectAll(reg, names, visited))
    decreases |Unvisited(reg, visited)|, |names|
  {
    if names != [] {
      var n := names[0];
      assert names == [n] + names[1..];
      if n in visited {
        CollectAllVisits(reg, names[1..], visited);
      } else {
        var visited' := visited + {n};
        match FindStep(reg, n)
        case None =>
          assert Unvisited(reg, visited') == Unvisited(reg, visited);
          CollectAllVisits(reg, names[1..], visited');
        case Some(dep) =>
          VisitShrinks(reg, visited, n);
          var nested := Collect(reg, dep, visited');
          UnvisitedShrinksWith(reg, visited', nested.visited);
          CollectVisits(reg, dep, visited');
          CollectAllVisits(reg, names[1..], nested.visited);
          VisitsJoin(reg, names, visited, dep, nested, CollectAll(reg, names[1..], nested.visited));
      }
    }
  }

  lemma VisitsJoin(reg: seq<Step>, names: seq<string>, visited: set<string>, dep: Step, nested: Walk, rest: Walk)
    requires names != [] && names[0] !in visited && FindStep(reg, names[0]) == Some(dep)
    requires visited + {names[0]} <= nested.visited <= rest.visited
    requires VisitsAll(reg, DepNames(dep), visited + {names[0]}, nested)
    requires VisitsAll(reg, names[1..], nested.visited, rest)
    ensures VisitsAll(reg, names, visited, Walk(nested.deps + [dep] + rest.deps, rest.visited))
  {
    forall d | d in names ensures d in rest.visited {
      if d != names[0] {
        assert d in names[1..];
      }
    }
    forall v | v in rest.visited - visited ensures Explored(reg, v, rest.visited) {
      if v !in rest.visited - nested.visited && v != names[0] {
        assert Explored(reg, v, nested.visited);
      }
    }
  }

  // ---------------------------------------------------------------------------
  // Reachability

  /** A chain of dependency names starting at a dependency of `step`, each later name
      a declared dependency of the registry entry of the one before. */
  ghost predicate DependencyPath(reg: seq<Step>, step: Step, path: seq<string>) {
    ChainFrom(reg, DepNames(step), path)
  }

  /** Every registry step reachable through declared dependency names is collected. */
  lemma ReachableCollected(registry: Registry, step: Step, path: seq<string>)
    requires DependencyPath(registry.steps, step, path)
    requires path[|path| - 1] in Names(registry.steps)
    ensures path[|path| - 1] in Names(AllDependencies(registry, step))
  {
    var reg := registry.steps;
    var w := Collect(reg, step, {});
    CollectVisits(reg, step, {});
    CollectLists(reg, step, {});
    PathVisited(reg, step, path, w, |path| - 1);
  }

  lemma {:induction false} PathVisited(reg: seq<Step>, step: Step, path: seq<string>, w: Walk, i: nat)
    requires DependencyPath(reg, step, path) && i < |path|
    requires VisitsAll(reg, DepNames(step), {}, w)
    ensures path[i] in w.visited
  {
    if i > 0 {
      PathVisited(reg, step, path, w, i - 1);
      assert Explored(reg, path[i - 1], w.visited);
    }
  }

  /** The chains through which each newly visited name was reached: every name the
      walk visits is one of `names` or is reached from one of them. */
  ghost predicate ReachedFrom(reg: seq<Step>, names: seq<string>, visited: set<string>, w: Walk) {
    forall v | v in w.visited - visited :: exists path :: ChainFrom(reg, names, path) && path[|path| - 1] == v
  }

  /** A chain of dependency names starting at one of `names`, each later name a
      declared dependency of the registry entry of the one before. */
  ghost predicate ChainFrom(reg: seq<Step>, names: seq<string>, path: seq<string>) {
    && |path| > 0
    && path[0] in names
    && forall i | 0 <= i < |path| - 1 ::
         path[i] in Names(reg) && path[i + 1] in DepNames(FindStep(reg, path[i]).value)
  }

  lemma {:induction false} CollectReached(reg: seq<Step>, step: Step, visited: set<string>)
    ensures ReachedFrom(reg, DepNames(step), visited, Collect(reg, step, visited))
    decreases |Unvisited(reg, visited)|, |DepNames(step)| + 1
  {
    if step.dependencies.Some? && step.dependencies.value != [] {
      CollectAllReached(reg, step.dependencies.value, visited);
    }
  }

  lemma {:induction false} CollectAllReached(reg: seq<Step>, names: seq<string>, visited: set<string>)
    ensures ReachedFrom(reg, names, visited, CollectAll(reg, names, visited))
    decreases |Unvisited(reg, visited)|, |names|
  {
    if names != [] {
      var n := names[0];
      if n in visited {
        CollectAllReached(reg, names[1..], visited);
        ChainsWiden(reg, names[1..], names, visited, CollectAll(reg, names[1..], visited));
      } else {
        var visited' := visited + {n};
        match FindStep(reg, n)
        case None =>
          assert Unvisited(reg, visited') == Unvisited(reg, visited);
          CollectAllReached(reg, names[1..], visited');
          ChainsWiden(reg, names[1..], names, visited', CollectAll(reg, names[1..], visited'));
          ReachedHead(reg, names, visited, CollectAll(reg, names[1..], visited'));
        case Some(dep) =>
          VisitShrinks(reg, visited, n);
          var nested := Collect(reg, dep, visited');
          UnvisitedShrinksWith(reg, visited', nested.visited);
          var rest := CollectAll(reg, names[1..], nested.visited);
          CollectReached(reg, dep, visited');
          CollectAllReached(reg, names[1..], nested.visited);
          ChainsWiden(reg, names[1..], names, nested.visited, rest);
          ChainsExtend(reg, names, dep, visited', nested);
          ReachedJoin(reg, names, visited, dep, nested, rest);
      }
    }
  }

  /** Chains from a part of `names` are chains from `names`. */
  lemma ChainsWiden(reg: seq<Step>, some: seq<string>, names: seq<string>, visited: set<string>, w: Walk)
    requires forall d | d in some :: d in names
    requires ReachedFrom(reg, some, visited, w)
    ensures ReachedFrom(reg, names, visited, w)
  {
    forall v | v in w.visited - visited ensures exists path :: ChainFrom(reg, names, path) && path[|path| - 1] == v {
      var path :| ChainFrom(reg, some, path) && path[|path| - 1] == v;
      assert ChainFrom(reg, names, path);
    }
  }

  /** A chain from the dependencies of the registry entry of `names[0]`, with
      `names[0]` put in front, is a chain from `names`. */
  lemma ChainsExtend(reg: seq<Step>, names: seq<string>, dep: Step, visited: set<string>, w: Walk)
    requires names != [] && FindStep(reg, names[0]) == Some(dep)
    requires ReachedFrom(reg, DepNames(dep), visited, w)
    ensures ReachedFrom(reg, names, visited, w)
  {
    forall v | v in w.visited - visited ensures exists path :: ChainFrom(reg, names, path) && path[|path| - 1] == v {
      var path :| ChainFrom(reg, DepNames(dep), path) && path[|path| - 1] == v;
      ChainCons(reg, names, dep, path);
    }
  }

  /** One chain from the dependencies of `names[0]`, with `names[0]` put in front. */
  lemma ChainCons(reg: seq<Step>, names: seq<string>, dep: Step, path: seq<string>)
    requires names != [] && FindStep(reg, names[0]) == Some(dep)
    requires ChainFrom(reg, DepNames(dep), path)
    ensures var longer := [names[0]] + path;
      ChainFrom(reg, names, longer) && longer[|longer| - 1] == path[|path| - 1]
  {
    var longer := [names[0]] + path;
    assert forall i | 1 <= i < |longer| :: longer[i] == path[i - 1];
  }

  lemma ReachedHead(reg: seq<Step>, names: seq<string>, visited: set<string>, w: Walk)
    requires names != [] && visited + {names[0]} <= w.visited
    requires ReachedFrom(reg, names, visited + {names[0]}, w)
    ensures ReachedFrom(reg, names, visited, w)
  {
    forall v | v in w.visited - visited ensures exists path :: ChainFrom(reg, names, path) && path[|path| - 1] == v {
      if v == names[0] {
        assert ChainFrom(reg, names, [v]) && [v][|[v]| - 1] == v;
      } else {
        assert v in w.visited - (visited + {names[0]});
      }
    }
  }

  lemma ReachedJoin(reg: seq<Step>, names: seq<string>, visited: set<string>, dep: Step, nested: Walk, rest: Walk)
    requires names != [] && visited + {names[0]} <= nested.visited <= rest.visited
    requires ReachedFrom(reg, names, visited + {names[0]}, nested)
    requires ReachedFrom(reg, names, nested.visited, rest)
    ensures ReachedFrom(reg, names, visited, Walk(nested.deps + [dep] + rest.deps, rest.visited))
  {
    assert ChainFrom(reg, names, [names[0]]);
    forall v | v in rest.visited - visited ensures exists path :: ChainFrom(reg, names, path) && path[|path| - 1] == v {
      if v == names[0] {
        assert ChainFrom(reg, names, [v]) && [v][|[v]| - 1] == v;
      } else if v in nested.visited {
        assert v in nested.visited - (visited + {names[0]});
      } else {
        assert v in rest.visited - nested.visited;
      }
    }
  }

  /** No step is collected twice, each is the first registry entry of its name, and
      only registry names are collected. */
  lemma DependenciesUnique(registry: Registry, step: Step)
    ensures var deps := AllDependencies(registry, step);
      && UniqueNames(deps)
      && Names(deps) <= Names(registry.steps)
      && forall k | 0 <= k < |deps| :: FindStep(registry.steps, deps[k].name) == Some(deps[k])
  {
    CollectLists(registry.steps, step, {});
  }

  /** Every collected step is reachable through declared dependency names. */
  lemma CollectedReachable(registry: Registry, step: Step, k: int)
    requires 0 <= k < |AllDependencies(registry, step)|
    ensures exists path ::
      (DependencyPath(registry.steps, step, path) && path[|path| - 1] == AllDependencies(registry, step)[k].name)
  {
    var reg := registry.steps;
    var w := Collect(reg, step, {});
    CollectLists(reg, step, {});
    CollectReached(reg, step, {});
    assert w.deps[k].name in Names(w.deps);
  }

  /** The dependencies of a collected dependency are collected too: a dependency's
      own dependencies, and the dependency itself, are among the step's. */
  lemma DependencyClosed(registry: Registry, step: Step, dep: Step)
    requires dep in AllDependencies(registry, step)
    ensures dep.name in Names(AllDependencies(registry, step))
    ensures Names(AllDependencies(registry, dep)) <= Names(AllDependencies(registry, step))
  {
    var reg := registry.steps;
    var deps := AllDependencies(registry, step);
    var k :| 0 <= k < |deps| && deps[k] == dep;
    DependenciesUnique(registry, step);
    assert FindStep(reg, dep.name) == Some(dep);
    CollectedReachable(registry, step, k);
    var p1 :| DependencyPath(reg, step, p1) && p1[|p1| - 1] == dep.name;
    forall n | n in Names(AllDependencies(registry, dep)) ensures n in Names(deps) {
      ReachedThrough(registry, step, dep, p1, n);
    }
  }

  /** A name collected for a step reached by a chain is collected for the chain's
      start. */
  lemma ReachedThrough(registry: Registry, step: Step, dep: Step, p1: seq<string>, n: string)
    requires DependencyPath(registry.steps, step, p1) && p1[|p1| - 1] == dep.name
    requires FindStep(registry.steps, dep.name) == Some(dep)
    requires n in Names(AllDependencies(registry, dep))
    ensures n in Names(AllDependencies(registry, step))
  {
    var reg := registry.steps;
    var inner := AllDependencies(registry, dep);
    DependenciesUnique(registry, dep);
    var k2 :| 0 <= k2 < |inner| && inner[k2].name == n;
    CollectedReachable(registry, dep, k2);
    var p2 :| DependencyPath(reg, dep, p2) && p2[|p2| - 1] == n;
    PathsJoin(reg, DepNames(step), p1, p2);
    ReachableCollected(registry, step, p1 + p2);
  }

  /** A chain that ends at a registry name, followed by a chain from that entry's
      dependencies, is one chain. */
  lemma PathsJoin(reg: seq<Step>, names: seq<string>, p1: seq<string>, p2: seq<string>)
    requires ChainFrom(reg, names, p1) && p1[|p1| - 1] in Names(reg)
    requires ChainFrom(reg, DepNames(FindStep(reg, p1[|p1| - 1]).value), p2)
    ensures ChainFrom(reg, names, p1 + p2) && (p1 + p2)[|p1 + p2| - 1] == p2[|p2| - 1]
  {
    var p := p1 + p2;
    forall i | 0 <= i < |p| - 1 ensures p[i] in Names(reg) && p[i + 1] in DepNames(FindStep(reg, p[i]).value) {
      if i < |p1| - 1 {
        assert p[i] == p1[i] && p[i + 1] == p1[i + 1];
      } else if i == |p1| - 1 {
        assert p[i] == p1[i] && p[i + 1] == p2[0];
      } else {
        assert p[i] == p2[i - |p1|] && p[i + 1] == p2[i - |p1| + 1];
      }
    }
  }

  // ---------------------------------------------------------------------------
  // Post-order in an acyclic registry

  /** An acyclic registry: a rank on the registry names that every declared
      dependency with a registry entry lowers. */
  ghost predicate Ranked(reg: seq<Step>, rank: map<string, nat>) {
    && (forall n | n in Names(reg) :: n in rank)
    && forall n, d | n in Names(reg) && d in Names(reg) && d in DepNames(FindStep(reg, n).value) :: rank[d] < rank[n]
  }

  /** Every dependency of a listed step that has a registry entry is already visited
      or listed before it. */
  ghost predicate PostOrder(reg: seq<Step>, visited: set<string>, w: Walk) {
    forall k, d | 0 <= k < |w.deps| && d in Names(reg) && d in DepNames(w.deps[k]) ::
      d in visited || d in Names(w.deps[..k])
  }

  /** Every listed step ranks below `bound`. */
  ghost predicate RankedBelow(reg: seq<Step>, rank: map<string, nat>, w: Walk, bound: nat)
    requires Ranked(reg, rank)
  {
    forall k | 0 <= k < |w.deps| :: w.deps[k].name in Names(reg) && rank[w.deps[k].name] < bound
  }

  lemma {:induction false} CollectPostOrder(reg: seq<Step>, rank: map<string, nat>, step: Step, visited: set<string>, bound: nat)
    requires Ranked(reg, rank)
    requires forall d | d in DepNames(step) && d in Names(reg) :: rank[d] < bound
    ensures PostOrder(reg, visited, Collect(reg, step, visited))
    ensures RankedBelow(reg, rank, Collect(reg, step, visited), bound)
    decreases |Unvisited(reg, visited)|, |DepNames(step)| + 1
  {
    if step.dependencies.Some? && step.dependencies.value != [] {
      CollectAllPostOrder(reg, rank, step.dependencies.value, visited, bound);
    }
  }

  lemma {:induction false} CollectAllPostOrder(reg: seq<Step>, rank: map<string, nat>, names: seq<string>, visited: set<string>, bound: nat)
    requires Ranked(reg, rank)
    requires forall d | d in names && d in Names(reg) :: rank[d] < bound
    ensures PostOrder(reg, visited, CollectAll(reg, names, visited))
    ensures RankedBelow(reg, rank, CollectAll(reg, names, visited), bound)
    decreases |Unvisited(reg, visited)|, |names|, 1
  {
    if names != [] {
      var n := names[0];
      assert forall d | d in names[1..] :: d in names;
      if n in visited {
        CollectAllPostOrder(reg, rank, names[1..], visited, bound);
      } else {
        var visited' := visited + {n};
        match FindStep(reg, n)
        case None =>
          assert Unvisited(reg, visited') == Unvisited(reg, visited);
          CollectAllPostOrder(reg, rank, names[1..], visited', bound);
          PostOrderUnlisted(reg, visited, n, CollectAll(reg, names[1..], visited'));
        case Some(dep) =>
          FoundPostOrder(reg, rank, names, visited, bound, dep);
      }
    }
  }

  /** A visited name without a registry entry is never a dependency that counts. */
  lemma PostOrderUnlisted(reg: seq<Step>, visited: set<string>, n: string, w: Walk)
    requires n !in Names(reg) && PostOrder(reg, visited + {n}, w)
    ensures PostOrder(reg, visited, w)
  {
  }

  lemma {:induction false} FoundPostOrder(reg: seq<Step>, rank: map<string, nat>, names: seq<string>, visited: set<string>,
                                          bound: nat, dep: Step)
    requires Ranked(reg, rank)
    requires forall d | d in names && d in Names(reg) :: rank[d] < bound
    requires names != [] && names[0] !in visited && FindStep(reg, names[0]) == Some(dep)
    ensures PostOrder(reg, visited, CollectAll(reg, names, visited))
    ensures RankedBelow(reg, rank, CollectAll(reg, names, visited), bound)
    decreases |Unvisited(reg, visited)|, |names|, 0
  {
    var n := names[0];
    var visited' := visited + {n};
    VisitShrinks(reg, visited, n);
    var nested := Collect(reg, dep, visited');
    UnvisitedShrinksWith(reg, visited', nested.visited);
    var rest := CollectAll(reg, names[1..], nested.visited);
    assert CollectAll(reg, names, visited) == Walk(nested.deps + [dep] + rest.deps, rest.visited);
    assert forall d | d in names[1..] :: d in names;
    CollectPostOrder(reg, rank, dep, visited', rank[n]);
    CollectAllPostOrder(reg, rank, names[1..], nested.visited, bound);
    CollectLists(reg, dep, visited');
    CollectVisits(reg, dep, visited');
    PostOrderJoin(reg, rank, visited, n, dep, nested, rest, bound);
  }

  lemma PostOrderJoin(reg: seq<Step>, rank: map<string, nat>, visited: set<string>, n: string, dep: Step,
                      nested: Walk, rest: Walk, bound: nat)
    requires Ranked(reg, rank)
    requires n !in visited && FindStep(reg, n) == Some(dep) && rank[n] < bound
    requires visited + {n} <= nested.visited <= rest.visited
    requires ListsNewlyVisited(reg, visited + {n}, nested)
    requires VisitsAll(reg, DepNames(dep), visited + {n}, nested)
    requires PostOrder(reg, visited + {n}, nested) && RankedBelow(reg, rank, nested, rank[n])
    requires PostOrder(reg, nested.visited, rest) && RankedBelow(reg, rank, rest, bound)
    ensures PostOrder(reg, visited, Walk(nested.deps + [dep] + rest.deps, rest.visited))
    ensures RankedBelow(reg, rank, Walk(nested.deps + [dep] + rest.deps, rest.visited), bound)
  {
    var all := nested.deps + [dep] + rest.deps;
    forall k, d | 0 <= k < |all| && d in Names(reg) && d in DepNames(all[k])
      ensures d in visited || d in Names(all[..k])
    {
      JoinedDependency(reg, rank, visited, n, dep, nested, rest, k, d);
    }
    RanksJoin(reg, rank, n, dep, nested, rest, bound);
  }

  lemma JoinedDependency(reg: seq<Step>, rank: map<string, nat>, visited: set<string>, n: string, dep: Step,
                         nested: Walk, rest: Walk, k: int, d: string)
    requires Ranked(reg, rank)
    requires n !in visited && FindStep(reg, n) == Some(dep)
    requires ListsNewlyVisited(reg, visited + {n}, nested)
    requires VisitsAll(reg, DepNames(dep), visited + {n}, nested)
    requires PostOrder(reg, visited + {n}, nested) && RankedBelow(reg, rank, nested, rank[n])
    requires PostOrder(reg, nested.visited, rest)
    requires 0 <= k < |nested.deps + [dep] + rest.deps| && d in Names(reg) && d in DepNames((nested.deps + [dep] + rest.deps)[k])
    ensures d in visited || d in Names((nested.deps + [dep] + rest.deps)[..k])
  {
    var all := nested.deps + [dep] + rest.deps;
    var m := |nested.deps|;
    if k < m {
      assert all[k] == nested.deps[k] && all[..k] == nested.deps[..k];
      NestedDependency(reg, rank, n, nested, k, d);
    } else if k == m {
      assert all[k] == dep && all[..k] == nested.deps;
      DepDependency(reg, rank, visited, n, dep, nested, d);
    } else {
      var j := k - m - 1;
      assert all[k] == rest.deps[j];
      assert all[..k] == (nested.deps + [dep]) + rest.deps[..j];
      RestDependency(reg, visited, n, dep, nested, rest, j, d);
    }
  }

  lemma RanksJoin(reg: seq<Step>, rank: map<string, nat>, n: string, dep: Step, nested: Walk, rest: Walk, bound: nat)
    requires Ranked(reg, rank)
    requires FindStep(reg, n) == Some(dep) && rank[n] < bound
    requires RankedBelow(reg, rank, nested, rank[n]) && RankedBelow(reg, rank, rest, bound)
    ensures RankedBelow(reg, rank, Walk(nested.deps + [dep] + rest.deps, rest.visited), bound)
  {
    var all := nested.deps + [dep] + rest.deps;
    var m := |nested.deps|;
    forall k | 0 <= k < |all| ensures all[k].name in Names(reg) && rank[all[k].name] < bound {
      if k < m {
        assert all[k] == nested.deps[k];
      } else if k > m {
        assert all[k] == rest.deps[k - m - 1];
      }
    }
  }

  /** A dependency of the entry of `n` was visited before or below `n`, and is not
      `n` itself. */
  lemma DepDependency(reg: seq<Step>, rank: map<string, nat>, visited: set<string>, n: string, dep: Step,
                      nested: Walk, d: string)
    requires Ranked(reg, rank)
    requires FindStep(reg, n) == Some(dep)
    requires ListsNewlyVisited(reg, visited + {n}, nested)
    requires VisitsAll(reg, DepNames(dep), visited + {n}, nested)
    requires d in Names(reg) && d in DepNames(dep)
    ensures d in visited || d in Names(nested.deps)
  {
    assert d in nested.visited;
    assert rank[d] < rank[n];
  }

  /** A dependency of a step listed after the entry of `n` was visited before `n`,
      is `n`, or is listed before. */
  lemma RestDependency(reg: seq<Step>, visited: set<string>, n: string, dep: Step, nested: Walk, rest: Walk,
                       j: int, d: string)
    requires dep.name == n
    requires ListsNewlyVisited(reg, visited + {n}, nested)
    requires PostOrder(reg, nested.visited, rest)
    requires 0 <= j < |rest.deps| && d in Names(reg) && d in DepNames(rest.deps[j])
    ensures d in visited || d in Names((nested.deps + [dep]) + rest.deps[..j])
  {
    NamesAppend(nested.deps, [dep]);
    NamesSingleton(dep);
    NamesAppend(nested.deps + [dep], rest.deps[..j]);
    assert d in nested.visited || d in Names(rest.deps[..j]);
  }

  /** A dependency of a step listed below `n` is not `n` itself: it ranks lower. */
  lemma NestedDependency(reg: seq<Step>, rank: map<string, nat>, n: string, nested: Walk, k: int, d: string)
    requires Ranked(reg, rank) && n in Names(reg)
    requires 0 <= k < |nested.deps| && d in Names(reg) && d in DepNames(nested.deps[k])
    requires forall j | 0 <= j < |nested.deps| :: FindStep(reg, nested.deps[j].name) == Some(nested.deps[j])
    requires RankedBelow(reg, rank, nested, rank[n])
    ensures d != n
  {
    var s := nested.deps[k];
    assert FindStep(reg, s.name) == Some(s);
    assert rank[d] < rank[s.name];
  }

  /** An upper bound on the ranks of the registry names among `names`. */
  function RankBound(reg: seq<Step>, rank: map<string, nat>, names: seq<string>): (b: nat)
    requires Ranked(reg, rank)
    ensures forall d | d in names && d in Names(reg) :: rank[d] < b
  {
    if names == [] then 0
    else
      var b := RankBound(reg, rank, names[1..]);
      var own := if names[0] in Names(reg) then rank[names[0]] + 1 else 0;
      assert forall d | d in names :: d == names[0] || d in names[1..];
      if own > b then own else b
  }

  /** In an acyclic registry every collected step comes after those of its own
      dependencies that have a registry entry. */
  lemma DependenciesPostOrder(registry: Registry, step: Step, rank: map<string, nat>)
    requires Ranked(registry.steps, rank)
    ensures var deps := AllDependencies(registry, step);
      forall k, d | 0 <= k < |deps| && d in Names(registry.steps) && d in DepNames(deps[k]) :: d in Names(deps[..k])
  {
    CollectPostOrder(registry.steps, rank, step, {}, RankBound(registry.steps, rank, DepNames(step)));
  }

  /** In an acyclic registry every collected step is a registry entry ranked below
      any bound on the ranks of the step's own declared dependencies. */
  lemma DependenciesRanked(registry: Registry, step: Step, rank: map<string, nat>, bound: nat)
    requires Ranked(registry.steps, rank)
    requires forall d | d in DepNames(step) && d in Names(registry.steps) :: rank[d] < bound
    ensures var deps := AllDependencies(registry, step);
      forall k | 0 <= k < |deps| :: deps[k] in registry.steps && rank[deps[k].name] < bound
  {
    var deps := AllDependencies(registry, step);
    CollectPostOrder(registry.steps, rank, step, {}, bound);
    DependenciesUnique(registry, step);
    forall k | 0 <= k < |deps| ensures deps[k] in registry.steps {
      var i :| 0 <= i < |registry.steps| && registry.steps[i] == FindStep(registry.steps, deps[k].name).value;
    }
  }

  /** A collected step's own declared dependencies rank below it. */
  lemma CollectedRanksBelow(registry: Registry, step: Step, rank: map<string, nat>, k: nat)
    requires Ranked(registry.steps, rank)
    requires k < |AllDependencies(registry, step)|
    ensures var dep := AllDependencies(registry, step)[k];
      dep.name in rank && forall d | d in DepNames(dep) && d in Names(registry.steps) :: rank[d] < rank[dep.name]
  {
    DependenciesUnique(registry, step);
  }
}

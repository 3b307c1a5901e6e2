# okit: the tool-execution planner and its helpers, in Dafny

okit is a command-line tool that installs, upgrades and uninstalls developer tools
through a catalogue of *steps*. A step has a name, shell commands for each action, a
check command, and the names of the steps it depends on. The catalogue is built in
and can be overridden by a user file. This project models the core of okit:

- **Registry** (`registry.dfy`): the `Step`/`Registry` data and `mergeRegistries`.
  The merge spreads the user's entries over the built-in ones, key by key, and
  pins one legacy "Mermaid CLI" command back to the built-in one.
- **TopologicalSorter** (`topological_sorter.dfy`): Kahn's algorithm with a FIFO
  queue seeded in input order. It returns `null` when the edges among the steps
  form a cycle. The edge sets are insertion-ordered lists.
- **RegistryDeps** (`registry_deps.dfy`): the post-order depth-first walk that
  collects a step's transitive dependencies. One `visited` set is shared by the
  whole walk.
- **Providers** (`providers.dfy`): the brew, npm, pipx and uv parsers that read the
  package name out of the first `&&` segment of an uninstall command. Also the
  brew dependents listing, and the npm provider as a class with its reverse
  dependency index, built once and cached.
- **ExecutionPlanner** (`execution_planner.dfy`): `ExecutionPlanner.build`:
  - install expansion in registry order;
  - dependency edges and `missingDeps`;
  - provider edges and brew's `externalDependents` for uninstall;
  - the sort, falling back to the unsorted plan.

  Providers are values: an `identify` function from a step to a package and a
  `dependents` oracle.
- **Runner** (`runner.dfy`): `executeStep`, `checkAndInstallDependencies`, the
  uninstall short-circuit and its three command parsers, the batch loop of
  `executeSteps`, `formatDuration` and the counts of `printResults`. The runner is
  a class whose fields are the batch's shared state (`installedSteps`,
  `results`). The shell is a `Host` value that answers each command as a function
  of the trace of commands started so far.
- **Claude** (`claude.dfy`): the managed block in the shell start-up file
  (`replaceOrAppendBlock`, `applyProfile`), `shorten`, `modelPreview`,
  `isValidProfile` and profile loading, the model-list parsing of the add prompt,
  the preset and custom profile answers, and the add/replace of a saved profile
  (a class holding the profile list).
- **Repo** (`repo.dfy`): `parseCurlResponse`, `isRepoExistsMessage`, the
  classification of a create-repository reply, and the remote URL.
- **UserConfig** (`user_config.dfy`): the patch merge of `updateUserConfig` and the
  decision logic of `migrateLegacyConfig`.
- Support modules: `wrappers.dfy` (Option), `strings.dfy` (the JavaScript string
  operations used: `trim`, `indexOf`, `split`, `toLowerCase`, decimal
  spelling), `json.dfy` (parsed JSON values).

Shell commands, file reads and writes, prompts and network calls enter as
parameters. Examples are the runner's `Host`, the planner's `brewOutput` and
`npmListing`, the npm provider's `listing`, and the parsed files given to the
loaders.

## Model

| member | source | states |
|---|---|---|
| Registry.FindStep | src/executor/plan/registryDeps.ts:17 | `steps.find` by name: `None` exactly when no step has the name, otherwise the first step with it |
| Registry.MergeRegistries | src/config/registry.ts:337-370 | The method (two indexing loops, listing, Mermaid patch) computes exactly the merge function `Merge` that the lemmas below describe |
| Registry.IndexBase | src/config/registry.ts:342-345 | After the base loop, the key order is the distinct non-empty base names in first-appearance order, and each name maps to the LAST base entry of that name |
| Registry.IndexOverrides | src/config/registry.ts:347-355 | After the override loop, every named override entry has been spread, in order, over the stored entry of its name; override-only names are appended to the key order |
| Registry.MergeNames | src/config/registry.ts:340-357 | The merged names are unique and non-empty, and they are exactly the base names together with the override names, without the empty name |
| Registry.MergeOrder | src/config/registry.ts:342-357 | Base names keep base order; names only the override has follow, in the override's first-appearance order |
| Registry.MergeOverrideWins | src/config/registry.ts:349-351 | For a name in both inputs, the merged entry is `{ ...base, ...override }`: the override's present fields win and the base's other fields are kept |
| Registry.MergeKeepsBase | src/config/registry.ts:342-345 | A base entry the override does not mention is kept unchanged |
| Registry.MergeAddsOverride | src/config/registry.ts:352-354 | An entry only the override has is added as written |
| Registry.MermaidLegacyRestored | src/config/registry.ts:358-367 | If the merged "Mermaid CLI" install is the legacy npm command, its install and upgrade each become the built-in entry's value when that value is present; all other fields are the merged ones |
| Registry.MermaidChoiceKept | src/config/registry.ts:358-359 | Any other Mermaid install command is left as merged |
| Registry.PinMermaidIdempotent | src/config/registry.ts:358-367 | Applying the Mermaid pin twice is applying it once |
| Registry.MergeIdempotent | src/config/registry.ts:337-370 | Merging the merged registry over the same base again gives the same registry, for any inputs |
| Registry.MergeEmptyOverride | src/config/registry.ts:338-339 | An override without steps leaves a base with unique, non-empty names unchanged |
| TopologicalSorter.TopologicalSort | src/executor/plan/TopologicalSorter.ts:3-49 | With unique step names: a returned list is a permutation of the steps in which every edge between two steps points forward, and `null` is returned only when no such order exists (a cycle). With no edge between two steps, the result is the input order. Neither input is changed (they are values) |
| TopologicalSorter.ComputeInDegrees | src/executor/plan/TopologicalSorter.ts:8-19 | Every step starts at 0, and each step's in-degree is the number of step names with an edge into it. Edges with an endpoint outside the steps add nothing |
| TopologicalSorter.SeedQueue | src/executor/plan/TopologicalSorter.ts:21-26 | The queue starts as the steps of in-degree 0, in input order |
| TopologicalSorter.RelaxNeighbors | src/executor/plan/TopologicalSorter.ts:33-42 | Each neighbour's in-degree drops by one; steps reaching 0 join the queue's end in neighbour order; queue length plus the number of positive-degree steps never grows |
| TopologicalSorter.SortedWhenComplete | src/executor/plan/TopologicalSorter.ts:45-48 | When every step was emitted, the emitted list is a topological order |
| TopologicalSorter.NoOrderLeft | src/executor/plan/TopologicalSorter.ts:45-47 | When the queue ran dry with steps left over, no topological order of the steps exists |
| TopologicalSorter.NoOrderWithPending | src/executor/plan/TopologicalSorter.ts:29-47 | A non-empty set of left-over steps, each with a left-over predecessor, rules out every order |
| RegistryDeps.GetAllDependencies | src/executor/plan/registryDeps.ts:3-25 | The recursive walk returns the list and the final `visited` set that the function `Collect` specifies, given the caller's `visited` set |
| RegistryDeps.NoDependenciesNothing | src/executor/plan/registryDeps.ts:8-10 | A step with no or empty `dependencies` yields nothing and leaves `visited` as it was |
| RegistryDeps.DependenciesUnique | src/executor/plan/registryDeps.ts:13-22 | No name is collected twice; only registry names are collected; each collected step is the first registry entry of its name |
| RegistryDeps.ReachableCollected | src/executor/plan/registryDeps.ts:13-22 | Every registry step reachable through declared dependency names is collected |
| RegistryDeps.CollectedReachable | src/executor/plan/registryDeps.ts:13-22 | Every collected step is reachable through declared dependency names; names without an entry yield nothing |
| RegistryDeps.DependenciesPostOrder | src/executor/plan/registryDeps.ts:19-21 | In an acyclic (ranked) registry, every collected step comes after those of its own dependencies that have a registry entry |
| RegistryDeps.DependenciesRanked | src/executor/plan/registryDeps.ts:14-21 | In an acyclic registry, every collected step ranks below any bound on the ranks of the step's declared dependencies: the recursion measure of the walk |
| Providers.SegmentTokens | src/executor/deps/BrewDependencyProvider.ts:10-11 | The tokens of the first `&&` segment are non-empty and free of whitespace |
| Providers.OnlyFirstSegment | src/executor/deps/BrewDependencyProvider.ts:10 | Text after the first `&&` changes neither the tokens nor the package read |
| Providers.FindToken | src/executor/deps/NpmDependencyProvider.ts:19-24 | `indexOf`/`findIndex` after a position: the first index from there holding a keyword, or -1 when none does |
| Providers.FirstOperand | src/executor/deps/PipxDependencyProvider.ts:18-23 | The first index from a position whose token does not start with `-`, or -1 when only flags follow |
| Providers.KeywordsFoundIff | src/executor/deps/UvToolDependencyProvider.ts:11-25 | The successive first-match lookups succeed exactly when the keywords occur in order, each after the previous one, followed by a non-flag token |
| Providers.OperandFound | src/executor/deps/PipxDependencyProvider.ts:9-24 | A package is read exactly when the first segment holds the keyword chain followed by a non-flag token |
| Providers.BrewGetPackageInfo | src/executor/deps/BrewDependencyProvider.ts:8-28 | The method (index lookups and flag loop) returns what `BrewPackage` specifies |
| Providers.BrewParseTokens | src/executor/deps/BrewDependencyProvider.ts:12-27 | The same, on the token list |
| Providers.ScanBrewOperand | src/executor/deps/BrewDependencyProvider.ts:17-27 | The loop after `uninstall` raises the cask flag on `--cask`, skips other flags and stops at the first other token |
| Providers.BrewPackageFound | src/executor/deps/BrewDependencyProvider.ts:9-27 | `null` exactly unless the step has an uninstall command with `brew`, a later `uninstall`, and a non-flag token after it |
| Providers.BrewTokensName | src/executor/deps/BrewDependencyProvider.ts:17-25 | The name is the first non-flag token after that `uninstall`, and `isCask` holds exactly when `--cask` is among the flags in between |
| Providers.BrewPackageName | src/executor/deps/BrewDependencyProvider.ts:18-25 | Brew's name agrees with the generic first-non-flag reading |
| Providers.BrewExample | src/executor/deps/BrewDependencyProvider.ts:18-25 | `brew uninstall --force git` gives `git`, not a cask |
| Providers.BrewCaskExample | src/executor/deps/BrewDependencyProvider.ts:20-23 | `brew uninstall --cask --force iterm2` gives `iterm2` as a cask |
| Providers.BrewFlagsOnlyExample | src/executor/deps/BrewDependencyProvider.ts:27 | `brew uninstall --force` gives `null` |
| Providers.BrewDependents | src/executor/deps/BrewDependencyProvider.ts:30-45 | Every dependent is a non-empty, trimmed, single line of the query output; a failed query gives none |
| Providers.BrewDependentsOfListing | src/executor/deps/BrewDependencyProvider.ts:38-41 | An output listing trimmed names one per line is read back as exactly those names |
| Providers.NpmGetPackageInfo | src/executor/deps/NpmDependencyProvider.ts:15-33 | The method returns what `NpmPackage` specifies |
| Providers.NpmPackageFound | src/executor/deps/NpmDependencyProvider.ts:16-32 | A package is read exactly when the command has `npm`, then `uninstall` or `remove`, then a non-flag token |
| Providers.NpmTokensExample | src/executor/deps/NpmDependencyProvider.ts:27-31 | `sudo npm uninstall -g @openai/codex` gives `@openai/codex` |
| Providers.AddEntry | src/executor/deps/NpmDependencyProvider.ts:64-65 | Adds a dependent to a key's list, creating the list when missing, and never duplicates it |
| Providers.InsertAllDuplicateFree | src/executor/deps/NpmDependencyProvider.ts:58-65 | Repeated insertion keeps every dependents list duplicate-free |
| Providers.ReverseIndexSpec | src/executor/deps/NpmDependencyProvider.ts:56-78 | `q` is listed as a dependent of `c` exactly when some tree node named `q` has `c` among its dependencies, and `q` is non-empty and not the root's name; no list repeats a name |
| Providers.NpmDependencyProvider.GetDependents | src/executor/deps/NpmDependencyProvider.ts:35-41 | After a load error it answers nothing; otherwise it builds the index on the first call only and answers from the cache. A package absent from the index has no dependents |
| Providers.NpmDependencyProvider.BuildDependentsCache | src/executor/deps/NpmDependencyProvider.ts:43-54 | A failed listing raises the error flag and gives an empty index; a listing gives its reverse index |
| Providers.NpmQueriesShareIndex | src/executor/deps/NpmDependencyProvider.ts:36-40 | Two queries on a fresh provider both answer from the first listing: the listing is read at most once |
| Providers.PipxPackage | src/executor/deps/PipxDependencyProvider.ts:7-24 | A package is read exactly when the first segment has `pipx`, a later `uninstall` and a non-flag token after it; the name is not a flag |
| Providers.PipxTokensExample | src/executor/deps/PipxDependencyProvider.ts:18-22 | `pipx uninstall openai-whisper` gives `openai-whisper` |
| Providers.UvToolPackage | src/executor/deps/UvToolDependencyProvider.ts:7-26 | A package is read exactly when the first segment has `uv`, then `tool`, then `uninstall`, then a non-flag token |
| Providers.UvTokensExample | src/executor/deps/UvToolDependencyProvider.ts:20-24 | `uv tool uninstall ruff` gives `ruff` |
| Providers.UvWithoutToolExample | src/executor/deps/UvToolDependencyProvider.ts:13-14 | `uv uninstall ruff` (no `tool`) gives `null` |
| Providers.NoDependents | src/executor/deps/PipxDependencyProvider.ts:26-28 | Pipx and uv report no dependents |
| ExecutionPlanner.Build | src/executor/plan/ExecutionPlanner.ts:17-68 | `addedDeps` is set for install only. `missingDeps` is set for every action. `externalDependents` is set for uninstall only. `ordered` is a topological order of the plan under the edges when one exists (and the plan's names are unique); otherwise it is the plan unchanged. With no edge inside the plan, it is the plan order |
| ExecutionPlanner.ExpandStepsForInstall | src/executor/plan/ExecutionPlanner.ts:70-90 | The expansion returns the added names of `AddedDeps` and the registry steps whose names are selected or added, in registry order |
| ExecutionPlanner.MeetDependencies | src/executor/plan/ExecutionPlanner.ts:80-85 | The inner loop keeps the expansion invariant: added names are the met names not seen before, each once |
| ExecutionPlanner.AddedDepsSpec | src/executor/plan/ExecutionPlanner.ts:74-86 | `addedDeps` holds, once each, exactly the transitive-dependency names of selected steps that were not selected |
| ExecutionPlanner.KeepNamed | src/executor/plan/ExecutionPlanner.ts:88 | The filter keeps exactly the registry steps whose names are in the set |
| ExecutionPlanner.KeepNamedOrder | src/executor/plan/ExecutionPlanner.ts:88 | The filter keeps registry order |
| ExecutionPlanner.InstallPlanSpec | src/executor/plan/ExecutionPlanner.ts:88 | The install plan is the registry steps that are selected or added, in registry order; a selected name with no registry entry contributes nothing |
| ExecutionPlanner.DependencyEdgesAndMissing | src/executor/plan/ExecutionPlanner.ts:44-59 | The loop over the plan builds the dependency edges and `missingDeps` that the specification functions describe |
| ExecutionPlanner.DependencyEdgesMembers | src/executor/plan/ExecutionPlanner.ts:53-57 | An edge `a -> b` exists exactly when a plan step declares a dependency that is in the plan: `S -> D` for uninstall, `D -> S` otherwise |
| ExecutionPlanner.MissingDepsSpec | src/executor/plan/ExecutionPlanner.ts:44-52 | With one step per name, `missingDeps` has an entry exactly for the plan steps with a dependency outside the plan; the entry lists those names in declaration order |
| ExecutionPlanner.EdgesWellFormed | src/executor/plan/ExecutionPlanner.ts:38-42 | Edge lists never repeat a target, like the `Set`s they model |
| ExecutionPlanner.ApplyProviderEdges | src/executor/plan/ExecutionPlanner.ts:92-131 | The provider loop adds the provider edges and extends `externalDependents` as the specification functions describe |
| ExecutionPlanner.IndexPackages | src/executor/plan/ExecutionPlanner.ts:102-107 | The first loop records each recognised step's package, and the last step recognised as a package owns that package name |
| ExecutionPlanner.ApplyDependents | src/executor/plan/ExecutionPlanner.ts:109-129 | The second loop adds the edges and external dependents of every recognised step |
| ExecutionPlanner.ApplyEntry | src/executor/plan/ExecutionPlanner.ts:110-128 | One step: owned dependents become edges to the step; unowned ones are appended to its external list, for brew only |
| ExecutionPlanner.Partition | src/executor/plan/ExecutionPlanner.ts:114-117 | The reported dependents are split into those owned by a plan step and the rest, keeping their order |
| ExecutionPlanner.AddInternalEdges | src/executor/plan/ExecutionPlanner.ts:124-128 | Each owned dependent adds an edge from its owning step to the step |
| ExecutionPlanner.ProviderEdgesSound | src/executor/plan/ExecutionPlanner.ts:124-128 | Every provider edge comes from some provider reporting the edge's source package as a dependent of the target step |
| ExecutionPlanner.ProviderEdgesComplete | src/executor/plan/ExecutionPlanner.ts:124-128 | A reported dependent that is the package of a plan step adds an edge from its owning step to the reporting step |
| ExecutionPlanner.ExternalOnlyBrew | src/executor/plan/ExecutionPlanner.ts:119 | Without a provider whose id is `"brew"`, `externalDependents` is unchanged |
| ExecutionPlanner.ExternalSound | src/executor/plan/ExecutionPlanner.ts:114-122 | Every external dependent was there before, or is a dependent that brew reported and no plan step owns |
| ExecutionPlanner.ExternalComplete | src/executor/plan/ExecutionPlanner.ts:114-122 | Every unowned dependent that brew reports for a plan step ends up under that step's name |
| Runner.StepRunner.ExecuteStep | src/executor/runner.ts:89-207 | No command for the action gives `No <action> command` and starts nothing. For install or upgrade with a registry, the dependency check scans the step's dependencies and installs the missing ones in order (each install's own result at a later position, every one before the last successful); a step without dependencies always passes it; a failed check leaves a failed install of a missing dependency as the last result and gives the deps-not-satisfied failure before the step's own command. Otherwise the step is performed. Results only grow, every added result is a dependency install, and a skip always succeeds. With a registry, every name recorded during the call is one of the step's transitive dependencies, and was either found present by a passing check started during the call or has a successful result pushed during it |
| Runner.StepRunner.CheckAndInstallDependencies | src/executor/runner.ts:37-87 | No dependencies: true, nothing done, no missing dependency. Otherwise dependencies not yet installed are checked in order, present ones recorded, and the missing ones installed in order: their own results sit at increasing positions, every install before the last succeeded, `true` means all of them were installed and the last succeeded, `false` that the last result is a failed install of a missing dependency. Every name recorded is one of the step's transitive dependencies, and was either found present by a passing check or has a successful result pushed during the call: a dependency whose check fails is never recorded by the scan |
| Runner.StepRunner.ScanDependencies | src/executor/runner.ts:51-60 | The check loop computes the scan that `ScanSpec` describes |
| Runner.ScanSpec | src/executor/runner.ts:51-60 | Missing dependencies were not installed before; every dependency ends up installed or missing; only dependency names are added; only dependencies not installed before have their check started |
| Runner.StepRunner.InstallMissing | src/executor/runner.ts:74-84 | Missing dependencies are installed in order until one fails: the install result of the k-th one follows those of the earlier ones, every install before the last succeeded, the last result is the last install's own. On success all of them were installed and recorded; on failure the last result is that dependency's failed install. Every name recorded is a transitive dependency of the step being checked, and was either found present by a passing check or has a successful result pushed during the loop |
| Runner.StepRunner.InstallNext | src/executor/runner.ts:74-84 | One turn of the install loop keeps everything `InstallMissing` promises for the turns so far: after a success the loop may go on, after a failure it stops with that failed install last |
| Runner.InstallLoopTurn | src/executor/runner.ts:74-84 | The same turn on the values it changes: the names recorded stay within the step's transitive dependencies and stay justified, and the installs keep their order |
| Runner.StepRunner.InstallDependency | src/executor/runner.ts:76-83 | `executeStep` on the dependency may record only that dependency's own transitive dependencies, each found present by a passing check or with a successful result. The dependency's own result (an install, or a skip, which succeeds) is then appended, and its name is recorded exactly when that result succeeded: a failed install records nothing of its own |
| Runner.ScanFound | src/executor/runner.ts:51-59 | Every name the check loop records was found present by a passing check it started |
| RegistryDeps.DependencyClosed | src/executor/plan/registryDeps.ts:13-22 | A collected dependency's own collected dependencies are among the step's, so an install started for a dependency records nothing outside the step's dependencies |
| Runner.StepRunner.Perform | src/executor/runner.ts:141-206 | The `try` block runs as `Performed` specifies |
| Runner.PerformedSkips | src/executor/runner.ts:142-166 | A skip happens exactly for an uninstall whose parsed target is not installed, or an install whose check passes. It succeeds, and only queries or checks were started |
| Runner.PerformedRuns | src/executor/runner.ts:169-206 | Otherwise the step's own command is started last, and the result succeeds exactly when that command exits without error; its error message is kept |
| Runner.StepRunner.CheckStep | src/executor/runner.ts:21-30 | `false` without a check command (nothing started); otherwise the check's exit status |
| Runner.StepRunner.UninstallSkipReason | src/executor/runner.ts:209-232 | Starts the query for the parsed target and reports a skip when that target is not installed |
| Runner.UninstallTargetCases | src/executor/runner.ts:209-232 | The brew parser is tried first, then pipx, then uv; with no target there is no skip |
| Runner.StepRunner.IsBrewPackageInstalled | src/executor/runner.ts:291-306 | Installed exactly when the `brew list` query succeeds with non-blank output |
| Runner.StepRunner.IsPipxPackageInstalled | src/executor/runner.ts:308-322 | `venvs[name]`, else `packages[name]`, else the quoted name in the output; false on any failure |
| Runner.StepRunner.IsUvToolInstalled | src/executor/runner.ts:324-334 | Some trimmed line is the name or starts with the name and a space; false on failure |
| Runner.BrewParserAgrees | src/executor/runner.ts:234-253 | The runner's brew parser reads the same name and cask flag as brew's `getPackageInfo` on the same uninstall command |
| Runner.PipxParserAgrees | src/executor/runner.ts:255-289 | The runner's pipx parser reads the same name as the pipx provider's `getPackageInfo` |
| Runner.UvParserAgrees | src/executor/runner.ts:255-289 | The runner's uv parser reads the same name as the uv provider's `getPackageInfo` |
| Runner.BrewDependencyErrorIgnoresCase | src/executor/runner.ts:32-34 | The brew dependency-error test ignores case |
| Runner.BrewDependencyErrorPhrases | src/executor/runner.ts:32-34 | Any text holding both phrases, in any case and with anything around them, is a brew dependency error |
| Runner.StepRunner.RunPlanned | src/executor/runner.ts:386-392 | One turn of the batch loop pushes the step's result after the dependency results it triggered. After `executeStep` returns, the recorded names grow by the step's own name exactly when its install succeeded, and by nothing else. Any names added before that come from the dependency check: transitive dependencies of the step, each found present by a passing check or with a successful result, and none at all when no check runs |
| Runner.OwnInstalledPush | src/executor/runner.ts:388-391 | Placing the last pushed result adds its step's name to the loop's own records exactly when it is a successful install |
| Runner.RunTurn | src/executor/runner.ts:386-392 | One turn keeps the loop's promises: the next step is placed, the results pushed before it are dependency installs, and the recorded names follow the turn |
| Runner.StepRunner.RunOrdered | src/executor/runner.ts:386-392 | Each planned step has exactly one result of its own, in plan order, with only dependency-install results between them; without dependency checking there is one result per step. At the end, `installedSteps` holds the name of every placed step whose own install succeeded. Without a dependency check it holds exactly those; with one, every other name in it is a registry step's |
| Runner.ExecuteSteps | src/executor/runner.ts:336-396 | With a registry, the steps are ordered by the plan (a topological order, or the plan itself when none exists); without one they run as given. Every planned step gets its own result in that order, and every skip succeeds |
| Runner.FormatDuration | src/executor/runner.ts:398-406 | Below 1000 ms: `<ms>ms`. Below a minute: `<s>s` with `s` the whole seconds. Otherwise `<m>m <s>s` with `s < 60` and `m*60+s` the whole seconds |
| Runner.CountsAddUp | src/executor/runner.ts:413-415 | Succeeded (success and not skip), failed and skipped add up to the total, because every skip succeeds |
| Claude.ProfileBlockManaged | src/commands/claude.ts:295-302 | The block `applyProfile` writes is a well-formed managed block (markers at both ends, no marker inside) when the profile's fields contain no `#` |
| Claude.ReplaceOrAppendBlock | src/commands/claude.ts:321-332 | The result always contains the block |
| Claude.ReplaceIdempotent | src/commands/claude.ts:321-329 | In its replace case, applying the same block again changes nothing |
| Claude.StrayEndKeepsAppending | src/commands/claude.ts:321-332 | With an end marker before any start marker, the result has one again, and every further application makes the text longer (see Findings) |
| Claude.ReplaceOrAppendBlockAnchored | src/commands/claude.ts:321-332 | The corrected replacement (end marker searched after the start marker) always contains the block |
| Claude.AnchoredReplaceIdempotent | src/commands/claude.ts:321-329 | In the corrected version's replace case, applying the block again changes nothing, with no condition on stray end markers |
| Claude.AnchoredSettles | src/commands/claude.ts:321-332 | For a text without a start marker, the first application appends after a blank line, the second closes the blank line, and after that nothing changes |
| Claude.ApplyProfileText | src/commands/claude.ts:290-310 | The new start-up file, built with `replaceOrAppendBlock` as written, contains the profile's block |
| Claude.ApplyProfileSettles | src/commands/claude.ts:290-332 | Unless the file has an end marker before its first start marker, or an end marker and no start marker, applying the same profile and model again settles: after two applications the file no longer changes. Claude.StrayEndKeepsAppending covers exactly the excluded files |
| Claude.AppendThenReplaces | src/commands/claude.ts:321-332 | Appending a block to a text without an end marker, with or without a start marker, gives a text that the next application replaces in place |
| Claude.OrphanStartDropsRest | src/commands/claude.ts:321-332 | A file with a start marker but no end marker gets the block appended first. The second application replaces everything from that start marker on with the block, so the text after the orphan start marker is lost |
| Claude.AppendedStartKept | src/commands/claude.ts:321-332 | On a text without an end marker, the append keeps the first start marker where it was, still first, and keeps the text before it |
| Claude.Shorten | src/commands/claude.ts:334-337 | Values up to 36 characters are kept; longer ones become their first 16 characters, `...`, and their last 12 (31 in all); the result is at most 36 long |
| Claude.ShortenIdempotent | src/commands/claude.ts:334-337 | Shortening twice is shortening once |
| Claude.PreviewedModel | src/commands/claude.ts:353-356 | The model a preview names is one of the models |
| Claude.ModelPreviewReadsBack | src/commands/claude.ts:350-357 | No models: `-`. One model: the model. Several: the text opens with a listed model, the current one when it is non-empty and listed, and the number after the last `+` is the count of the other models |
| Claude.ProfileOf | src/commands/claude.ts:339-348 | A JSON value stands for a profile exactly when `isValidProfile` accepts it; the profile keeps the value's other members apart from the four it checks |
| Claude.ProfileJsonRoundTrip | src/commands/claude.ts:339-348 | Every profile written to the file is accepted and read back unchanged, other members included |
| Claude.LoadedProfileWrittenBack | src/commands/claude.ts:142-154 | A valid entry of the file is written back exactly as it was read |
| Claude.LoadedListWrittenBack | src/commands/claude.ts:142-154 | Loading the file and writing the list back gives exactly its valid entries, in order |
| Claude.ValidProfilesMembers | src/commands/claude.ts:153-154 | The loaded list holds exactly the profiles of the valid entries |
| Claude.LoadProfiles | src/commands/claude.ts:151-154 | A file that is not an array loads as `null` |
| Claude.LoadProfilesRoundTrip | src/commands/claude.ts:142-154 | A saved profile list loads back as the same list |
| Claude.ParseModelsNames | src/commands/claude.ts:276-279 | Every parsed model is non-empty, trimmed and comma-free |
| Claude.ParseModelsJoin | src/commands/claude.ts:276-279 | Model names typed with commas between them parse back to the same list |
| Claude.CustomProfile | src/commands/claude.ts:272-287 | The custom answers give a profile exactly when all four answers are non-empty and at least one model survives parsing; the models are the parsed ones |
| Claude.CustomProfileRoundTrip | src/commands/claude.ts:272-287 | A profile whose answers are typed as stored comes back unchanged |
| Claude.PresetProfile | src/commands/claude.ts:232-246 | A preset answer gives a profile exactly when the preset exists and the token is non-empty: the preset with the trimmed token |
| Claude.FindProfile | src/commands/claude.ts:124 | `findIndex` by name: the first index with that name, or -1 when there is none |
| Claude.AddedFindsProfile | src/commands/claude.ts:124-140 | After saving, looking up the profile's name finds the profile, and the list grows only for a new name |
| Claude.AddedKeepsOthers | src/commands/claude.ts:137-140 | Saving leaves every profile of another name in its place, with all its members |
| Claude.AddedUnique | src/commands/claude.ts:124-140 | Saving keeps profile names unique |
| Claude.ProfileStore.Add | src/commands/claude.ts:123-140 | A new name is appended. An existing name is replaced in place when overwriting is confirmed; otherwise nothing changes. Every other profile is kept exactly, other members included. The result reports whether the list was saved |
| Repo.StatusNumber | src/commands/repo.ts:264-265 | The decimal spelling of `n` reads as `n`; text with a non-digit reads as 0 |
| Repo.ParseCurlResponse | src/commands/repo.ts:257-266 | Output without a line break after trimming is all body with status 0; the body is always trimmed |
| Repo.ParseCurlSplit | src/commands/repo.ts:259-265 | Split at its last line break, the trimmed output gives the trimmed head as body and the trimmed tail's number as status |
| Repo.ParseCurlRoundTrip | src/commands/repo.ts:257-266 | curl's output for a non-blank body followed by a status code reads back as the trimmed body and that code |
| Repo.ParseCurlBlankBody | src/commands/repo.ts:258-261 | With a blank body the line break is trimmed away: the status code is read as the body and the status is 0 |
| Repo.RepoExistsCore | src/commands/repo.ts:268-277 | The five-phrase test holds exactly when the lower-cased body contains "already exists", "已存在" or "已被占用" |
| Repo.RepoExistsIgnoresCase | src/commands/repo.ts:269 | The test ignores letter case |
| Repo.DigitsNotExistsMessage | src/commands/repo.ts:268-277 | A bare status code is never an already-exists message |
| Repo.ClassifyCreate | src/commands/repo.ts:184-189 | Created exactly on 201. Exists exactly on the provider's "taken" status (GitHub 422; Gitee 400 or 409, repo.ts:203) with an already-exists body. Otherwise an error carrying the body, or a fixed text when the body is empty |
| Repo.CreatedReply | src/commands/repo.ts:183-184 | A non-blank reply with status 201 is a created repository |
| Repo.BlankReplyFails | src/commands/repo.ts:183-189 | A reply with a blank body is never a success, whatever its status: the error carries the status text |
| Repo.RemoteUrl | src/commands/repo.ts:211-218 | A missing or empty user name gives no remote (`Missing username`); otherwise the remote is the service's host, the user name, `/`, the repository name and `.git` |
| Repo.RemoteUrlInjective | src/commands/repo.ts:211-218 | When user names have no slash, a remote URL determines the service, the user and the repository |
| UserConfig.Override | src/config/user.ts:43-44 | A key the patch leaves out keeps its value; a key the patch has takes the patch's value |
| UserConfig.Update | src/config/user.ts:40-50 | Top-level keys missing from the patch are kept and present ones replaced. `claude` and `hints` are kept without a patch object, and merged key by key with one. A patch object for a section the current config lacks gives only the patch's keys: an absent `model` stays absent, and `hints` without `mainHelpShown` is an empty hints object. Other keys are the union, with the patch's values winning |
| UserConfig.UpdateIdempotent | src/config/user.ts:42-47 | Applying the same patch twice gives what applying it once gives |
| UserConfig.SavedChoiceReadsBack | src/commands/claude.ts:168-170 | Saving the current profile choice replaces the remembered choice whole and changes nothing else |
| UserConfig.LegacyLanguage | src/config/user.ts:56-60 | A legacy language is read exactly when the file's `lang` is `"zh"` or `"en"` |
| UserConfig.LegacyClaude | src/config/user.ts:62-69 | A legacy choice is read exactly when the file's `name` is a string; the model is kept when it is a string |
| UserConfig.MigrateLegacyConfig | src/config/user.ts:52-72 | `null` exactly when neither legacy file contributed; otherwise the config holds just the legacy language and choice |
| Strings.SplitOnJoin | src/commands/claude.ts:276-277 | Joining separator-free parts with a separator and splitting on it gives the parts back |
| Strings.TokensOfJoined | src/executor/deps/BrewDependencyProvider.ts:11 | Tokens joined by single spaces split back into the same tokens |
| Strings.ParseNatToString | src/commands/repo.ts:264 | Decimal spelling and parsing are inverse |

## Left out

- Shell commands, file reads and writes, the network, prompts, the console, the spinner, sounds, the log file and the web dashboard are not modelled. Their results are parameters: the runner's `Host`, the planner's `brewOutput` and `npmListing`, the npm provider's `listing`, the parsed files, and the prompt answers.
- Asynchrony is not modelled. Every `await` is a sequential call.
- Durations (`Date.now()`) are not modelled. `ExecuteResult` has no duration, and `FormatDuration` takes a whole number of milliseconds.
- Runner.FormatDuration: fractional milliseconds are not modelled.
- i18n: messages from `t(...)` are opaque keys, not translated texts.
- The mayNeedSudo warnings and console output of `executeStep` are left out.
- `printResults` is modelled only for its counts. Its table and log are output.
- Runner.ExecuteSteps: the model requires an acyclic registry, given as a rank. On a dependency cycle with a missing step, the source re-enters that step's own dependency check without end.
- Runner.StepRunner.ExecuteStep: the same acyclic-registry requirement applies.
- Runner.StepRunner.CheckAndInstallDependencies: the same acyclic-registry requirement applies.
- TopologicalSorter.TopologicalSort: with duplicate step names, only the no-internal-edges case is stated. The source's name-keyed maps mix up such steps, and the planner's inputs come from a name-keyed registry.
- The worked example of installing only "Claude Code" from the built-in catalogue is not stated. The built-in `DEFAULT_REGISTRY` catalogue is not part of this model.
- `ExecutionPlanner.build`'s providers are values, with `identify` and `dependents` functions. The brew and npm queries are the `brewOutput` and `npmListing` parameters.
- `UvToolDependencyProvider` is modelled only for its parser and its empty dependents. The planner does not consult it.
- Repo.StatusNumber: only decimal digit strings are read. JavaScript's `Number` also accepts signs, exponents, fractions and hexadecimal, all mapped to 0 here. Status lines come from curl's `%{http_code}`, which is three digits.
- `toLowerCase` is modelled for ASCII letters only.
- Claude.Shorten: lengths count UTF-16 code units in the source and characters here.
- JSON numbers are integers, and floating point is not modelled.
- Registry steps: a `Step` holds exactly the six fields of the `Step` interface. A user registry entry with other keys, or with `null` field values, is outside that type; `{ ...existing, ...step }` (src/config/registry.ts:351) would copy such keys and values as they are, and the model does not represent them.
- UserConfig.Update: a patch key set explicitly to `undefined` among the other top-level keys is not modelled.
- UserConfig.LegacyClaude: a non-string `model` in the legacy file is dropped. The source would copy it as is.
- `loadUserConfig`, `saveUserConfig` and `loadCurrent` are file I/O and not modelled. `RepoProvider` is typed as `"github"` only (src/commands/repo.ts:9), but the Gitee branches are modelled as written.
- Claude.ApplyProfileSettles: only for profiles whose base URL, token and model contain no `#`, so that the block is a well-formed managed block. It also excludes files whose first end marker comes before any start marker; there the source does not settle (Claude.StrayEndKeepsAppending; see Findings). The environment variables that `applyProfile` sets are not modelled.
- `runClaudeCommand`, `promptSelectProfile`, `promptSelectModel`, `launchClaude` and the rest of `src/commands/repo.ts` (credential storage, push, handling an existing repo) are prompts and shell calls, and are not modelled.

## Findings

| source | as written | input that shows it | evidently intended | confidence | as-written member | corrected member |
|---|---|---|---|---|---|---|
| src/commands/claude.ts:321-324 | `replaceOrAppendBlock` searches the end marker from the start of the text, so an end marker before the first start marker sends it to the append case | a start-up file containing the line `# <<< OKIT_CLAUDE` before any `# >>> OKIT_CLAUDE` (e.g. a hand-edited file): each `applyProfile` appends one more block | search the end marker after the start marker (`indexOf(BLOCK_END, start)`), so the existing block is replaced and repeated application settles | medium, not executed | Claude.StrayEndKeepsAppending | Claude.AnchoredSettles |

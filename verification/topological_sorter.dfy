/** Kahn's algorithm over registry steps, as in
    `src/executor/plan/TopologicalSorter.ts`. */
module TopologicalSorter {
  import opened Wrappers
  import opened Registry

  /** `Map<string, Set<string>>`: from a step name to the names that must come after
      it. A JavaScript `Set` holds each name once. */
  type Edges = map<string, seq<string>>

  predicate WellFormedEdges(edges: Edges) {
    forall p | p in edges :: Distinct(edges[p])
  }

  /** An edge that the sort takes into account: both ends name a step. */
  predicate Edge(steps: seq<Step>, edges: Edges, p: string, n: string) {
    p in Names(steps) && n in Names(steps) && p in edges && n in edges[p]
  }

  /** The step names with an edge into `n`. */
  function Preds(steps: seq<Step>, edges: Edges, n: string): set<string> {
    set p | p in Names(steps) && p in edges && n in edges[p]
  }

  ghost predicate NoInternalEdges(steps: seq<Step>, edges: Edges) {
    forall p, n :: !Edge(steps, edges, p, n)
  }

  /** `o` lists the steps once each, and every edge points forward in it. */
  predicate IsTopoOrder(o: seq<Step>, steps: seq<Step>, edges: Edges) {
    && multiset(o) == multiset(steps)
    && forall i, j :: 0 <= i < |o| && 0 <= j < |o| && Edge(steps, edges, o[i].name, o[j].name) ==> i < j
  }

  /** `inDegree.get(n) || 0`. */
  function Get(inDegree: map<string, int>, n: string): int {
    if n in inDegree then inDegree[n] else 0
  }

  /** The step names whose in-degree is still positive (the termination measure). */
  function Positive(steps: seq<Step>, inDegree: map<string, int>): set<string> {
    set n | n in Names(steps) && n in inDegree && inDegree[n] > 0
  }

  /** The steps the seeding loop enqueues: those whose in-degree is zero, in order. */
  function Ready(steps: seq<Step>, inDegree: map<string, int>): seq<Step> {
    if steps == [] then []
    else
      var s := steps[|steps| - 1];
      Ready(steps[..|steps| - 1], inDegree) + (if Get(inDegree, s.name) == 0 then [s] else [])
  }

  /** The steps one pass over `neighbors` enqueues: those whose in-degree drops to zero. */
  function Released(steps: seq<Step>, neighbors: seq<string>, inDegree: map<string, int>): seq<Step> {
    if neighbors == [] then []
    else
      var n := neighbors[|neighbors| - 1];
      var step := LastEntry(steps, n);
      Released(steps, neighbors[..|neighbors| - 1], inDegree)
        + (if Get(inDegree, n) - 1 == 0 && step.Some? then [step.value] else [])
  }

  // ---------------------------------------------------------------------------
  // The algorithm

  /** `topologicalSortSteps`: `Some` order when one exists, `None` when the edges
      among the steps form a cycle. */
  method TopologicalSort(steps: seq<Step>, edges: Edges) returns (r: Option<seq<Step>>)
    requires WellFormedEdges(edges)
    ensures UniqueNames(steps) && r.Some? ==> IsTopoOrder(r.value, steps, edges)
    ensures UniqueNames(steps) && r.None? ==> forall o :: !IsTopoOrder(o, steps, edges)
    ensures NoInternalEdges(steps, edges) ==> r == Some(steps)
  {
    var inDegree := ComputeInDegrees(steps, edges);
    var queue := SeedQueue(steps, inDegree);
    var ordered: seq<Step> := [];
    SeedEstablishes(steps, edges, inDegree);
    assert [] + queue == queue;
    while |queue| > 0
      invariant MainInvariant(steps, edges, inDegree, ordered, queue)
      decreases |queue| + |Positive(steps, inDegree)|
    {
      var current := queue[0];
      ghost var ordered0, queue0, inDegree0 := ordered, queue, inDegree;
      queue := queue[1..];
      ordered := ordered + [current];
      if current.name !in edges {
        NothingToRelax(steps, inDegree, queue);
        MainStep(steps, edges, inDegree0, ordered0, queue0, [], inDegree, queue);
        continue;
      }
      var neighbors := edges[current.name];
      inDegree, queue := RelaxNeighbors(steps, neighbors, inDegree, queue);
      MainStep(steps, edges, inDegree0, ordered0, queue0, neighbors, inDegree, queue);
    }
    assert queue == [];
    if |ordered| != |steps| {
      Incomplete(steps, edges, inDegree, ordered);
      return None;
    }
    Complete(steps, edges, inDegree, ordered);
    return Some(ordered);
  }

  /** The main loop's invariant: everything queued or output is a step; with unique
      names, `Invariant` below; without edges between steps, the output followed by
      the queue is the input. */
  ghost predicate MainInvariant(steps: seq<Step>, edges: Edges, inDegree: map<string, int>, ordered: seq<Step>, queue: seq<Step>) {
    && (forall s | s in ordered + queue :: s in steps)
    && (UniqueNames(steps) ==> Invariant(steps, edges, inDegree, ordered, queue))
    && (NoInternalEdges(steps, edges) ==> ordered + queue == steps)
  }

  lemma MainStep(steps: seq<Step>, edges: Edges, inDegree0: map<string, int>, ordered0: seq<Step>, queue0: seq<Step>,
                 neighbors: seq<string>, inDegree: map<string, int>, queue: seq<Step>)
    requires WellFormedEdges(edges)
    requires queue0 != [] && MainInvariant(steps, edges, inDegree0, ordered0, queue0)
    requires neighbors == if queue0[0].name in edges then edges[queue0[0].name] else []
    requires Decremented(inDegree0, neighbors, inDegree)
    requires queue == queue0[1..] + Released(steps, neighbors, inDegree0)
    ensures MainInvariant(steps, edges, inDegree, ordered0 + [queue0[0]], queue)
  {
    var released := Released(steps, neighbors, inDegree0);
    PopShift(ordered0, queue0, released);
    ReleasedFromSteps(steps, neighbors, inDegree0);
    AllSteps(ordered0 + queue0, released, steps);
    if NoInternalEdges(steps, edges) {
      KeptInOrder(steps, edges, inDegree0, ordered0, queue0, neighbors);
    }
    if UniqueNames(steps) {
      PopStep(steps, edges, inDegree0, ordered0, queue0, neighbors, inDegree, queue);
    }
  }

  lemma PopShift(ordered0: seq<Step>, queue0: seq<Step>, released: seq<Step>)
    requires queue0 != []
    ensures (ordered0 + [queue0[0]]) + (queue0[1..] + released) == (ordered0 + queue0) + released
  {
    assert queue0 == [queue0[0]] + queue0[1..];
  }

  lemma AllSteps(a: seq<Step>, b: seq<Step>, steps: seq<Step>)
    requires forall s | s in a :: s in steps
    requires forall s | s in b :: s in steps
    ensures forall s | s in a + b :: s in steps
  {
  }

  /** Without edges between steps, the queue is the rest of the input in order. */
  lemma KeptInOrder(steps: seq<Step>, edges: Edges, inDegree0: map<string, int>, ordered0: seq<Step>, queue0: seq<Step>,
                    neighbors: seq<string>)
    requires NoInternalEdges(steps, edges) && queue0 != []
    requires forall s | s in ordered0 + queue0 :: s in steps
    requires neighbors == if queue0[0].name in edges then edges[queue0[0].name] else []
    ensures Released(steps, neighbors, inDegree0) == []
  {
    var current := queue0[0];
    assert current in ordered0 + queue0;
    if current.name in edges {
      NoEdgeReleasesNothing(steps, edges, current.name, inDegree0);
    }
  }

  /** A step without outgoing edges changes neither the in-degrees nor the queue. */
  lemma NothingToRelax(steps: seq<Step>, inDegree: map<string, int>, queue: seq<Step>)
    ensures Decremented(inDegree, [], inDegree)
    ensures queue == queue + Released(steps, [], inDegree)
  {
  }

  lemma Incomplete(steps: seq<Step>, edges: Edges, inDegree: map<string, int>, ordered: seq<Step>)
    requires MainInvariant(steps, edges, inDegree, ordered, [])
    requires |ordered| != |steps|
    ensures UniqueNames(steps) ==> forall o :: !IsTopoOrder(o, steps, edges)
    ensures !NoInternalEdges(steps, edges)
  {
    assert ordered + [] == ordered;
    if UniqueNames(steps) {
      NoOrderLeft(steps, edges, inDegree, ordered);
    }
  }

  lemma Complete(steps: seq<Step>, edges: Edges, inDegree: map<string, int>, ordered: seq<Step>)
    requires MainInvariant(steps, edges, inDegree, ordered, [])
    requires |ordered| == |steps|
    ensures UniqueNames(steps) ==> IsTopoOrder(ordered, steps, edges)
    ensures NoInternalEdges(steps, edges) ==> ordered == steps
  {
    assert ordered + [] == ordered;
    if UniqueNames(steps) {
      SortedWhenComplete(steps, edges, inDegree, ordered);
    }
  }

  /** The in-degree loops: every step starts at zero, and every edge between two
      steps adds one to its target. */
  method ComputeInDegrees(steps: seq<Step>, edges: Edges) returns (inDegree: map<string, int>)
    requires WellFormedEdges(edges)
    ensures forall n :: n in inDegree <==> n in Names(steps)
    ensures forall n | n in Names(steps) :: inDegree[n] == |Preds(steps, edges, n)|
  {
    inDegree := ZeroDegrees(steps);
    CountedNone(steps, edges, inDegree);
    inDegree := CountEdges(steps, edges, inDegree);
    forall n | n in Names(steps) ensures PredsAmong(steps, edges, edges.Keys, n) == Preds(steps, edges, n) {
    }
  }

  /** The first in-degree loop: every step name maps to zero. */
  method ZeroDegrees(steps: seq<Step>) returns (inDegree: map<string, int>)
    ensures forall n :: n in inDegree <==> n in Names(steps)
    ensures forall n | n in inDegree :: inDegree[n] == 0
  {
    inDegree := map[];
    for i := 0 to |steps|
      invariant forall n :: n in inDegree <==> n in Names(steps[..i])
      invariant forall n | n in inDegree :: inDegree[n] == 0
    {
      NamesSnoc(steps, i);
      inDegree := inDegree[steps[i].name := 0];
    }
    assert steps[..|steps|] == steps;
  }

  /** The second in-degree loop: every edge between two steps adds one to its target. */
  method CountEdges(steps: seq<Step>, edges: Edges, inDegree0: map<string, int>) returns (inDegree: map<string, int>)
    requires WellFormedEdges(edges)
    requires CountedAmong(steps, edges, {}, inDegree0, [])
    ensures CountedAmong(steps, edges, edges.Keys, inDegree, [])
  {
    inDegree := inDegree0;
    var names := Names(steps);
    var remaining := edges.Keys;
    ghost var processed: set<string> := {};
    while remaining != {}
      invariant processed + remaining == edges.Keys && processed !! remaining
      invariant CountedAmong(steps, edges, processed, inDegree, [])
      decreases remaining
    {
      var from :| from in remaining;
      if from in names {
        inDegree := CountTargets(steps, edges, processed, names, edges[from], inDegree);
      }
      CountedFrom(steps, edges, processed, from, inDegree);
      processed := processed + {from};
      remaining := remaining - {from};
    }
  }

  /** The inner in-degree loop: one more for each target of one step. */
  method CountTargets(steps: seq<Step>, edges: Edges, ghost processed: set<string>, names: set<string>,
                      tos: seq<string>, inDegree0: map<string, int>) returns (inDegree: map<string, int>)
    requires names == Names(steps) && Distinct(tos)
    requires CountedAmong(steps, edges, processed, inDegree0, [])
    ensures CountedAmong(steps, edges, processed, inDegree, tos)
  {
    inDegree := inDegree0;
    for j := 0 to |tos|
      invariant CountedAmong(steps, edges, processed, inDegree, tos[..j])
    {
      ghost var before := inDegree;
      if tos[j] in names {
        inDegree := inDegree[tos[j] := Get(inDegree, tos[j]) + 1];
      }
      CountOne(steps, edges, processed, tos, j, before, inDegree);
    }
    assert tos[..|tos|] == tos;
  }

  /** The step names among `keys` with an edge into `n`. */
  ghost function PredsAmong(steps: seq<Step>, edges: Edges, keys: set<string>, n: string): set<string> {
    set p | p in keys && p in Names(steps) && p in edges && n in edges[p]
  }

  /** The in-degree map after the edges out of `processed`, and out of one more step
      name to the targets in `extra`. */
  ghost predicate CountedAmong(steps: seq<Step>, edges: Edges, processed: set<string>, inDegree: map<string, int>, extra: seq<string>) {
    && (forall n :: n in inDegree <==> n in Names(steps))
    && forall n | n in Names(steps) ::
         inDegree[n] == |PredsAmong(steps, edges, processed, n)| + (if n in extra then 1 else 0)
  }

  lemma NamesSnoc(steps: seq<Step>, i: int)
    requires 0 <= i < |steps|
    ensures Names(steps[..i + 1]) == Names(steps[..i]) + {steps[i].name}
  {
    assert forall k | 0 <= k < i :: steps[..i + 1][k] == steps[..i][k];
  }

  lemma CountedNone(steps: seq<Step>, edges: Edges, inDegree: map<string, int>)
    requires forall n :: n in inDegree <==> n in Names(steps)
    requires forall n | n in inDegree :: inDegree[n] == 0
    ensures CountedAmong(steps, edges, {}, inDegree, [])
  {
    forall n | n in Names(steps) ensures PredsAmong(steps, edges, {}, n) == {} {
    }
  }

  lemma CountOne(steps: seq<Step>, edges: Edges, processed: set<string>, tos: seq<string>, j: int,
                 before: map<string, int>, inDegree: map<string, int>)
    requires Distinct(tos) && 0 <= j < |tos|
    requires CountedAmong(steps, edges, processed, before, tos[..j])
    requires inDegree == if tos[j] in Names(steps) then before[tos[j] := Get(before, tos[j]) + 1] else before
    ensures CountedAmong(steps, edges, processed, inDegree, tos[..j + 1])
  {
    assert tos[..j + 1] == tos[..j] + [tos[j]];
    assert tos[j] !in tos[..j];
  }

  lemma CountedFrom(steps: seq<Step>, edges: Edges, processed: set<string>, from: string, inDegree: map<string, int>)
    requires from in edges && from !in processed
    requires from in Names(steps) ==> CountedAmong(steps, edges, processed, inDegree, edges[from])
    requires from !in Names(steps) ==> CountedAmong(steps, edges, processed, inDegree, [])
    ensures CountedAmong(steps, edges, processed + {from}, inDegree, [])
  {
    forall n | n in Names(steps)
      ensures PredsAmong(steps, edges, processed + {from}, n)
        == PredsAmong(steps, edges, processed, n) + (if from in Names(steps) && n in edges[from] then {from} else {})
    {
    }
  }

  /** The seeding loop. */
  method SeedQueue(steps: seq<Step>, inDegree: map<string, int>) returns (queue: seq<Step>)
    ensures queue == Ready(steps, inDegree)
  {
    queue := [];
    for i := 0 to |steps|
      invariant queue == Ready(steps[..i], inDegree)
    {
      assert steps[..i + 1][..i] == steps[..i];
      if Get(inDegree, steps[i].name) == 0 {
        queue := queue + [steps[i]];
      }
    }
    assert steps[..|steps|] == steps;
  }

  /** Each key of `inDegree` is a key of `inDegree0` or a neighbour, and each
      neighbour's count is one lower (`(inDegree.get(next) || 0) - 1`). */
  ghost predicate Decremented(inDegree0: map<string, int>, neighbors: seq<string>, inDegree: map<string, int>) {
    && (forall n :: n in inDegree <==> n in inDegree0 || n in neighbors)
    && (forall n | n in inDegree :: inDegree[n] == Get(inDegree0, n) - (if n in neighbors then 1 else 0))
  }

  /** The inner loop: each neighbour's in-degree drops by one, and a step whose
      in-degree reaches zero joins the queue. */
  method RelaxNeighbors(steps: seq<Step>, neighbors: seq<string>, inDegree0: map<string, int>, queue0: seq<Step>)
    returns (inDegree: map<string, int>, queue: seq<Step>)
    requires Distinct(neighbors)
    ensures Decremented(inDegree0, neighbors, inDegree)
    ensures queue == queue0 + Released(steps, neighbors, inDegree0)
    ensures |queue| + |Positive(steps, inDegree)| <= |queue0| + |Positive(steps, inDegree0)|
  {
    inDegree, queue := inDegree0, queue0;
    assert neighbors[..0] == [];
    for j := 0 to |neighbors|
      invariant RelaxedUpTo(steps, neighbors[..j], inDegree0, queue0, inDegree, queue)
    {
      var next := neighbors[j];
      ghost var inDegree1, queue1 := inDegree, queue;
      var degree := Get(inDegree, next) - 1;
      inDegree := inDegree[next := degree];
      var step := LastEntry(steps, next);
      if degree == 0 && step.Some? {
        queue := queue + [step.value];
      }
      RelaxOne(steps, neighbors, j, inDegree0, queue0, inDegree1, queue1, inDegree, queue);
    }
    assert neighbors[..|neighbors|] == neighbors;
  }

  ghost predicate RelaxedUpTo(steps: seq<Step>, done: seq<string>, inDegree0: map<string, int>, queue0: seq<Step>,
                              inDegree: map<string, int>, queue: seq<Step>) {
    && Decremented(inDegree0, done, inDegree)
    && queue == queue0 + Released(steps, done, inDegree0)
    && |queue| + |Positive(steps, inDegree)| <= |queue0| + |Positive(steps, inDegree0)|
  }

  lemma RelaxOne(steps: seq<Step>, neighbors: seq<string>, j: int, inDegree0: map<string, int>, queue0: seq<Step>,
                 inDegree1: map<string, int>, queue1: seq<Step>, inDegree: map<string, int>, queue: seq<Step>)
    requires Distinct(neighbors) && 0 <= j < |neighbors|
    requires RelaxedUpTo(steps, neighbors[..j], inDegree0, queue0, inDegree1, queue1)
    requires inDegree == inDegree1[neighbors[j] := Get(inDegree1, neighbors[j]) - 1]
    requires queue == if Get(inDegree1, neighbors[j]) - 1 == 0 && LastEntry(steps, neighbors[j]).Some?
      then queue1 + [LastEntry(steps, neighbors[j]).value] else queue1
    ensures RelaxedUpTo(steps, neighbors[..j + 1], inDegree0, queue0, inDegree, queue)
  {
    var next := neighbors[j];
    var done := neighbors[..j];
    assert neighbors[..j + 1] == done + [next];
    assert next !in done;
    DecrementedSnoc(inDegree0, done, next, inDegree1, inDegree);
    ReleasedSnoc(steps, done, next, inDegree0);
    RelaxMeasure(steps, next, inDegree1, queue1, inDegree, queue);
  }

  lemma ReleasedSnoc(steps: seq<Step>, done: seq<string>, next: string, inDegree: map<string, int>)
    ensures Released(steps, done + [next], inDegree) == Released(steps, done, inDegree)
      + (if Get(inDegree, next) - 1 == 0 && LastEntry(steps, next).Some? then [LastEntry(steps, next).value] else [])
  {
    assert (done + [next])[..|done|] == done;
  }

  lemma DecrementedSnoc(inDegree0: map<string, int>, done: seq<string>, next: string,
                        inDegree1: map<string, int>, inDegree: map<string, int>)
    requires next !in done && Decremented(inDegree0, done, inDegree1)
    requires inDegree == inDegree1[next := Get(inDegree1, next) - 1]
    ensures Decremented(inDegree0, done + [next], inDegree)
    ensures Get(inDegree1, next) == Get(inDegree0, next)
  {
  }

  /** Relaxing one neighbour adds at most one step to the queue, and only when that
      neighbour's count leaves the positive ones. */
  lemma RelaxMeasure(steps: seq<Step>, next: string, inDegree1: map<string, int>, queue1: seq<Step>,
                     inDegree: map<string, int>, queue: seq<Step>)
    requires inDegree == inDegree1[next := Get(inDegree1, next) - 1]
    requires queue == if Get(inDegree1, next) - 1 == 0 && LastEntry(steps, next).Some?
      then queue1 + [LastEntry(steps, next).value] else queue1
    ensures |queue| + |Positive(steps, inDegree)| <= |queue1| + |Positive(steps, inDegree1)|
  {
    if Get(inDegree1, next) - 1 == 0 && LastEntry(steps, next).Some? {
      LastEntryDefined(steps, next);
      assert next in Positive(steps, inDegree1);
      assert Positive(steps, inDegree) == Positive(steps, inDegree1) - {next};
    } else {
      assert Positive(steps, inDegree) <= Positive(steps, inDegree1);
      SubsetCard(Positive(steps, inDegree), Positive(steps, inDegree1));
    }
  }

  // ---------------------------------------------------------------------------
  // The loop invariant and the lemmas about it

  /** What holds between two iterations of the main loop when step names are unique:
      no name is queued or output twice, the in-degree of a step counts its
      predecessors not yet output, a step is queued or output exactly when that count
      is zero, and an edge into an output step comes from an earlier position. */
  ghost predicate Invariant(steps: seq<Step>, edges: Edges, inDegree: map<string, int>, ordered: seq<Step>, queue: seq<Step>) {
    && UniqueNames(ordered + queue)
    && Counted(steps, edges, inDegree, ordered)
    && ZeroExactlyWhenSeen(steps, inDegree, ordered + queue)
    && Forward(steps, edges, ordered, ordered + queue)
  }

  ghost predicate Counted(steps: seq<Step>, edges: Edges, inDegree: map<string, int>, ordered: seq<Step>) {
    forall n | n in Names(steps) :: n in inDegree && inDegree[n] == |Preds(steps, edges, n) - Names(ordered)|
  }

  ghost predicate ZeroExactlyWhenSeen(steps: seq<Step>, inDegree: map<string, int>, seen: seq<Step>) {
    forall n | n in Names(steps) :: n in Names(seen) <==> n in inDegree && inDegree[n] == 0
  }

  /** `ordered` is a prefix of `seen`, and every edge into an element of `ordered`
      comes from an earlier position of `seen`. */
  ghost predicate Forward(steps: seq<Step>, edges: Edges, ordered: seq<Step>, seen: seq<Step>) {
    forall i, j {:trigger Edge(steps, edges, seen[i].name, ordered[j].name)}
      | 0 <= i < |seen| && 0 <= j < |ordered| && Edge(steps, edges, seen[i].name, ordered[j].name) :: i < j
  }

  /** The queue seeded from freshly computed in-degrees. */
  lemma SeedEstablishes(steps: seq<Step>, edges: Edges, inDegree: map<string, int>)
    requires forall n :: n in inDegree <==> n in Names(steps)
    requires forall n | n in Names(steps) :: inDegree[n] == |Preds(steps, edges, n)|
    ensures MainInvariant(steps, edges, inDegree, [], Ready(steps, inDegree))
  {
    ReadyFacts(steps, inDegree);
    assert [] + Ready(steps, inDegree) == Ready(steps, inDegree);
    assert Names([]) == {};
    if NoInternalEdges(steps, edges) {
      forall n | n in Names(steps) ensures Preds(steps, edges, n) == {} {
        forall p | p in Preds(steps, edges, n) ensures false {
          assert Edge(steps, edges, p, n);
        }
      }
      ReadyAll(steps, inDegree);
    }
  }

  lemma {:induction false} ReadyFacts(steps: seq<Step>, inDegree: map<string, int>)
    ensures forall s | s in Ready(steps, inDegree) :: s in steps
    ensures forall n :: n in Names(Ready(steps, inDegree)) <==> n in Names(steps) && Get(inDegree, n) == 0
    ensures UniqueNames(steps) ==> UniqueNames(Ready(steps, inDegree))
  {
    if steps != [] {
      var prev := steps[..|steps| - 1];
      var s := steps[|steps| - 1];
      ReadyFacts(prev, inDegree);
      var r := Ready(steps, inDegree);
      var rp := Ready(prev, inDegree);
      assert steps == prev + [s];
      NamesAppend(prev, [s]);
      NamesAppend(rp, if Get(inDegree, s.name) == 0 then [s] else []);
      if UniqueNames(steps) {
        assert UniqueNames(prev);
        assert s.name !in Names(prev);
        UniqueAppend(rp, if Get(inDegree, s.name) == 0 then [s] else []);
      }
    }
  }

  lemma {:induction false} ReadyAll(steps: seq<Step>, inDegree: map<string, int>)
    requires forall k | 0 <= k < |steps| :: Get(inDegree, steps[k].name) == 0
    ensures Ready(steps, inDegree) == steps
  {
    if steps != [] {
      ReadyAll(steps[..|steps| - 1], inDegree);
    }
  }

  lemma {:induction false} ReleasedFromSteps(steps: seq<Step>, neighbors: seq<string>, inDegree: map<string, int>)
    ensures forall s | s in Released(steps, neighbors, inDegree) :: s in steps
    ensures forall k | 0 <= k < |Released(steps, neighbors, inDegree)| ::
      Released(steps, neighbors, inDegree)[k].name in neighbors
  {
    if neighbors != [] {
      var prev := neighbors[..|neighbors| - 1];
      var n := neighbors[|neighbors| - 1];
      ReleasedFromSteps(steps, prev, inDegree);
      if LastEntry(steps, n).Some? {
        LastEntryMember(steps, n);
      }
      assert neighbors == prev + [n];
    }
  }

  lemma {:induction false} LastEntryMember(steps: seq<Step>, n: string)
    requires LastEntry(steps, n).Some?
    ensures LastEntry(steps, n).value in steps
  {
    if steps[|steps| - 1].name != n {
      LastEntryMember(steps[..|steps| - 1], n);
    }
  }

  /** Without edges between steps, relaxing the neighbours of a step releases nothing. */
  lemma NoEdgeReleasesNothing(steps: seq<Step>, edges: Edges, p: string, inDegree: map<string, int>)
    requires NoInternalEdges(steps, edges)
    requires p in Names(steps) && p in edges
    ensures Released(steps, edges[p], inDegree) == []
  {
    forall n | n in edges[p] ensures LastEntry(steps, n).None? {
      LastEntryDefined(steps, n);
      assert !Edge(steps, edges, p, n);
    }
    ReleasedNone(steps, edges[p], inDegree);
  }

  lemma {:induction false} ReleasedNone(steps: seq<Step>, neighbors: seq<string>, inDegree: map<string, int>)
    requires forall n | n in neighbors :: LastEntry(steps, n).None?
    ensures Released(steps, neighbors, inDegree) == []
  {
    if neighbors != [] {
      var prev := neighbors[..|neighbors| - 1];
      assert forall n | n in prev :: n in neighbors;
      ReleasedNone(steps, prev, inDegree);
    }
  }

  lemma {:induction false} ReleasedNames(steps: seq<Step>, neighbors: seq<string>, inDegree: map<string, int>)
    requires Distinct(neighbors)
    ensures forall n :: n in Names(Released(steps, neighbors, inDegree)) <==>
      n in neighbors && n in Names(steps) && Get(inDegree, n) == 1
    ensures UniqueNames(Released(steps, neighbors, inDegree))
  {
    if neighbors != [] {
      var prev := neighbors[..|neighbors| - 1];
      var n := neighbors[|neighbors| - 1];
      assert neighbors == prev + [n];
      assert n !in prev;
      ReleasedNames(steps, prev, inDegree);
      LastEntryDefined(steps, n);
      var tail := if Get(inDegree, n) - 1 == 0 && LastEntry(steps, n).Some? then [LastEntry(steps, n).value] else [];
      NamesAppend(Released(steps, prev, inDegree), tail);
      if tail != [] {
        NamesSingleton(tail[0]);
        assert tail == [tail[0]];
      } else {
        assert Names(tail) == {};
      }
      UniqueAppend(Released(steps, prev, inDegree), tail);
    }
  }

  /** One iteration of the main loop keeps the invariant: the popped step has no
      predecessor left, and exactly the neighbours whose count drops to zero join
      the queue. */
  lemma PopStep(steps: seq<Step>, edges: Edges, inDegree0: map<string, int>, ordered0: seq<Step>, queue0: seq<Step>,
                neighbors: seq<string>, inDegree: map<string, int>, queue: seq<Step>)
    requires UniqueNames(steps) && WellFormedEdges(edges)
    requires queue0 != [] && forall s | s in ordered0 + queue0 :: s in steps
    requires Invariant(steps, edges, inDegree0, ordered0, queue0)
    requires neighbors == if queue0[0].name in edges then edges[queue0[0].name] else []
    requires Decremented(inDegree0, neighbors, inDegree)
    requires queue == queue0[1..] + Released(steps, neighbors, inDegree0)
    ensures Invariant(steps, edges, inDegree, ordered0 + [queue0[0]], queue)
  {
    var p := queue0[0];
    var released := Released(steps, neighbors, inDegree0);
    var seen0 := ordered0 + queue0;
    assert (ordered0 + [p]) + queue == seen0 + released;
    PoppedFresh(steps, ordered0, queue0);
    ReleasedNames(steps, neighbors, inDegree0);
    PopCounts(steps, edges, inDegree0, inDegree, ordered0, p, neighbors);
    PopZero(steps, edges, inDegree0, inDegree, ordered0, seen0, p, neighbors, released);
    ReleasedUnseen(steps, neighbors, inDegree0, seen0);
    UniqueAppend(seen0, released);
    SeenHaveNoPending(steps, edges, inDegree0, ordered0, seen0);
    PopForward(steps, edges, ordered0, queue0, released);
  }

  /** Steps released by a pop had a count of one, so they were not yet seen. */
  lemma ReleasedUnseen(steps: seq<Step>, neighbors: seq<string>, inDegree: map<string, int>, seen: seq<Step>)
    requires Distinct(neighbors)
    requires ZeroExactlyWhenSeen(steps, inDegree, seen)
    ensures forall n | n in Names(Released(steps, neighbors, inDegree)) :: n !in Names(seen)
  {
    ReleasedNames(steps, neighbors, inDegree);
    forall n | n in Names(Released(steps, neighbors, inDegree)) ensures n !in Names(seen) {
      assert n in Names(steps) && Get(inDegree, n) == 1;
    }
  }

  /** The head of the queue is a step, and not yet output. */
  lemma PoppedFresh(steps: seq<Step>, ordered0: seq<Step>, queue0: seq<Step>)
    requires queue0 != [] && forall s | s in ordered0 + queue0 :: s in steps
    requires UniqueNames(ordered0 + queue0)
    ensures queue0[0] in steps && queue0[0].name in Names(steps)
    ensures queue0[0].name !in Names(ordered0) && queue0[0].name in Names(ordered0 + queue0)
  {
    var seen0 := ordered0 + queue0;
    var p := queue0[0];
    assert seen0[|ordered0|] == p;
    assert p in steps;
    forall k | 0 <= k < |ordered0| ensures ordered0[k].name != p.name {
      assert seen0[k] == ordered0[k];
    }
  }

  lemma PopCounts(steps: seq<Step>, edges: Edges, inDegree0: map<string, int>, inDegree: map<string, int>,
                  ordered0: seq<Step>, p: Step, neighbors: seq<string>)
    requires p.name in Names(steps) && p.name !in Names(ordered0)
    requires neighbors == if p.name in edges then edges[p.name] else []
    requires Counted(steps, edges, inDegree0, ordered0)
    requires Decremented(inDegree0, neighbors, inDegree)
    ensures Counted(steps, edges, inDegree, ordered0 + [p])
  {
    var done0 := Names(ordered0);
    assert Names(ordered0 + [p]) == done0 + {p.name} by {
      NamesAppend(ordered0, [p]);
      NamesSingleton(p);
    }
    forall n | n in Names(steps)
      ensures n in inDegree && inDegree[n] == |Preds(steps, edges, n) - Names(ordered0 + [p])|
    {
      PendingDrops(steps, edges, n, done0, p.name, neighbors);
    }
  }

  /** Outputting `p` removes it from the waiting predecessors of exactly its neighbours. */
  lemma PendingDrops(steps: seq<Step>, edges: Edges, n: string, done: set<string>, p: string, neighbors: seq<string>)
    requires p in Names(steps) && p !in done && n in Names(steps)
    requires neighbors == if p in edges then edges[p] else []
    ensures |Preds(steps, edges, n) - (done + {p})| == |Preds(steps, edges, n) - done| - (if n in neighbors then 1 else 0)
  {
    var pending := Preds(steps, edges, n) - done;
    if n in neighbors {
      assert p in pending;
      assert Preds(steps, edges, n) - (done + {p}) == pending - {p};
    } else {
      assert p !in Preds(steps, edges, n);
      assert Preds(steps, edges, n) - (done + {p}) == pending;
    }
  }

  lemma PopZero(steps: seq<Step>, edges: Edges, inDegree0: map<string, int>, inDegree: map<string, int>,
                ordered0: seq<Step>, seen0: seq<Step>, p: Step, neighbors: seq<string>, released: seq<Step>)
    requires p.name in Names(steps) && p.name !in Names(ordered0)
    requires neighbors == if p.name in edges then edges[p.name] else []
    requires Counted(steps, edges, inDegree0, ordered0)
    requires ZeroExactlyWhenSeen(steps, inDegree0, seen0)
    requires Decremented(inDegree0, neighbors, inDegree)
    requires forall n :: n in Names(released) <==> n in neighbors && n in Names(steps) && Get(inDegree0, n) == 1
    ensures ZeroExactlyWhenSeen(steps, inDegree, seen0 + released)
  {
    NamesAppend(seen0, released);
    forall n | n in Names(steps) && n in neighbors ensures inDegree0[n] >= 1 {
      assert p.name in Preds(steps, edges, n) - Names(ordered0);
    }
  }

  /** A queued or output step has all of its predecessors output. */
  lemma SeenHaveNoPending(steps: seq<Step>, edges: Edges, inDegree0: map<string, int>,
                          ordered0: seq<Step>, seen0: seq<Step>)
    requires forall s | s in seen0 :: s in steps
    requires Counted(steps, edges, inDegree0, ordered0)
    requires ZeroExactlyWhenSeen(steps, inDegree0, seen0)
    ensures forall j | 0 <= j < |seen0| :: Preds(steps, edges, seen0[j].name) <= Names(ordered0)
  {
    forall j | 0 <= j < |seen0| ensures Preds(steps, edges, seen0[j].name) <= Names(ordered0) {
      var x := seen0[j];
      assert x in steps;
      assert x.name in Names(seen0);
      var waiting := Preds(steps, edges, x.name) - Names(ordered0);
      assert |waiting| == 0;
      assert waiting == {};
      forall q | q in Preds(steps, edges, x.name) ensures q in Names(ordered0) {
        assert q !in waiting;
      }
    }
  }

  lemma PopForward(steps: seq<Step>, edges: Edges, ordered0: seq<Step>, queue0: seq<Step>, released: seq<Step>)
    requires queue0 != []
    requires UniqueNames((ordered0 + queue0) + released)
    requires forall j | 0 <= j < |ordered0 + queue0| :: Preds(steps, edges, (ordered0 + queue0)[j].name) <= Names(ordered0)
    requires Forward(steps, edges, ordered0, ordered0 + queue0)
    ensures Forward(steps, edges, ordered0 + [queue0[0]], (ordered0 + queue0) + released)
  {
    var seen0 := ordered0 + queue0;
    var seen := seen0 + released;
    var ordered := ordered0 + [queue0[0]];
    forall i, j | 0 <= i < |seen| && 0 <= j < |ordered| && Edge(steps, edges, seen[i].name, ordered[j].name)
      ensures i < j
    {
      assert ordered[j] == seen0[j];
      assert seen[i].name in Preds(steps, edges, seen0[j].name);
      var k :| 0 <= k < |ordered0| && ordered0[k].name == seen[i].name;
      assert seen[k] == ordered0[k];
      assert k == i;
      if j < |ordered0| {
        assert seen0[i] == seen[i];
        assert Edge(steps, edges, seen0[i].name, ordered0[j].name);
      }
    }
  }

  lemma {:induction false} NamesCount(s: seq<Step>)
    requires UniqueNames(s)
    ensures |Names(s)| == |s|
  {
    if s != [] {
      var prev := s[..|s| - 1];
      var l := s[|s| - 1];
      assert s == prev + [l];
      NamesAppend(prev, [l]);
      assert Names([l]) == {l.name};
      assert l.name !in Names(prev);
      NamesCount(prev);
    }
  }

  lemma {:induction false} MultisetOfUnique(s: seq<Step>)
    requires UniqueNames(s)
    ensures forall x :: multiset(s)[x] == if x in s then 1 else 0
  {
    if s != [] {
      var prev := s[..|s| - 1];
      var l := s[|s| - 1];
      assert s == prev + [l];
      MultisetOfUnique(prev);
      assert l !in prev;
    }
  }

  /** Two duplicate-free lists of the same length, one inside the other, are
      permutations of each other. */
  lemma PermutationByNames(a: seq<Step>, b: seq<Step>)
    requires UniqueNames(a) && UniqueNames(b) && |a| == |b|
    requires forall x | x in a :: x in b
    ensures multiset(a) == multiset(b)
  {
    NamesCount(a);
    NamesCount(b);
    assert Names(a) <= Names(b) by {
      forall n | n in Names(a) ensures n in Names(b) {
        var k :| 0 <= k < |a| && a[k].name == n;
        assert a[k] in b;
        var j :| 0 <= j < |b| && b[j] == a[k];
      }
    }
    SubsetSameSize(Names(a), Names(b));
    forall y | y in b ensures y in a {
      var j :| 0 <= j < |b| && b[j] == y;
      assert y.name in Names(a);
      var k :| 0 <= k < |a| && a[k].name == y.name;
      assert a[k] in b;
      var j' :| 0 <= j' < |b| && b[j'] == a[k];
    }
    MultisetOfUnique(a);
    MultisetOfUnique(b);
  }

  lemma SubsetSameSize<T>(x: set<T>, y: set<T>)
    requires x <= y && |x| == |y|
    ensures x == y
  {
    if x != y {
      assert !(y <= x);
      var e :| e in y && e !in x;
      assert x <= y - {e};
      SubsetCard(x, y - {e});
    }
  }

  /** All steps were output: the output is a topological order. */
  lemma SortedWhenComplete(steps: seq<Step>, edges: Edges, inDegree: map<string, int>, ordered: seq<Step>)
    requires UniqueNames(steps)
    requires Invariant(steps, edges, inDegree, ordered, [])
    requires forall s | s in ordered :: s in steps
    requires |ordered| == |steps|
    ensures IsTopoOrder(ordered, steps, edges)
  {
    assert ordered + [] == ordered;
    PermutationByNames(ordered, steps);
  }

  /** The queue ran dry before every step was output: some steps wait on each other,
      and no topological order exists. */
  lemma NoOrderLeft(steps: seq<Step>, edges: Edges, inDegree: map<string, int>, ordered: seq<Step>)
    requires UniqueNames(steps)
    requires Invariant(steps, edges, inDegree, ordered, [])
    requires forall s | s in ordered :: s in steps
    requires |ordered| != |steps|
    ensures forall o :: !IsTopoOrder(o, steps, edges)
  {
    assert ordered + [] == ordered;
    var done := Names(ordered);
    NamesCount(ordered);
    NamesCount(steps);
    assert done <= Names(steps) by {
      forall n | n in done ensures n in Names(steps) {
        var k :| 0 <= k < |ordered| && ordered[k].name == n;
        assert ordered[k] in steps;
        var j :| 0 <= j < |steps| && steps[j] == ordered[k];
      }
    }
    assert |done| <= |Names(steps)| by {
      SubsetCard(done, Names(steps));
    }
    assert done != Names(steps);
    assert Names(steps) - done != {};
    forall n | n in Names(steps) - done ensures Preds(steps, edges, n) - done != {} {
      assert inDegree[n] != 0;
    }
    NoOrderWithPending(steps, edges, done);
  }

  /** When every step not in `done` has a predecessor not in `done`, and there is
      such a step, no order puts every edge forward: the first of them in the order
      would have to come after its predecessor. */
  lemma NoOrderWithPending(steps: seq<Step>, edges: Edges, done: set<string>)
    requires Names(steps) - done != {}
    requires forall n | n in Names(steps) - done :: Preds(steps, edges, n) - done != {}
    ensures forall o :: !IsTopoOrder(o, steps, edges)
  {
    forall o: seq<Step> | IsTopoOrder(o, steps, edges) ensures false {
      var n :| n in Names(steps) - done;
      NamesOfPermutation(o, steps);
      var i :| 0 <= i < |o| && o[i].name == n;
      Descend(o, steps, edges, done, i);
    }
  }

  lemma {:induction false} Descend(o: seq<Step>, steps: seq<Step>, edges: Edges, done: set<string>, i: int)
    requires IsTopoOrder(o, steps, edges) && Names(o) == Names(steps)
    requires forall n | n in Names(steps) - done :: Preds(steps, edges, n) - done != {}
    requires 0 <= i < |o| && o[i].name in Names(steps) - done
    ensures false
    decreases i
  {
    var p :| p in Preds(steps, edges, o[i].name) - done;
    assert p in Names(o);
    var j :| 0 <= j < |o| && o[j].name == p;
    assert Edge(steps, edges, o[j].name, o[i].name);
    Descend(o, steps, edges, done, j);
  }

  lemma NamesOfPermutation(o: seq<Step>, steps: seq<Step>)
    requires multiset(o) == multiset(steps)
    ensures Names(o) == Names(steps)
  {
    forall n | n in Names(steps) ensures n in Names(o) {
      var k :| 0 <= k < |steps| && steps[k].name == n;
      assert steps[k] in multiset(steps);
      assert steps[k] in o;
      var j :| 0 <= j < |o| && o[j] == steps[k];
    }
    forall n | n in Names(o) ensures n in Names(steps) {
      var k :| 0 <= k < |o| && o[k].name == n;
      assert o[k] in multiset(o);
      assert o[k] in steps;
      var j :| 0 <= j < |steps| && steps[j] == o[k];
    }
  }
}

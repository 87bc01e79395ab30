/** The typed plan: its steps, the validator run on construction and the dependency layering. */
module PlanSchema {
  import opened Graphs

  datatype QuerySource = Canvas | DegreeDb | CatalogDb | SyllabusRag

  datatype SolverType = ScheduleCsp | PrereqCheck

  /** A parameter of a step: a constant, a well-formed `<from_step_N>` placeholder, or text that
      has the placeholder's brackets but no integer between them. */
  datatype Arg = Plain(text: string) | Ref(step: int) | Garbled(text: string)

  type Args = seq<(string, Arg)>

  /** What a step does, with the fields its agent type requires. */
  datatype Work =
    | Query(source: QuerySource, params: Args)
    | Reasoning(inputs: seq<int>, template: string)
    | Action(tool: string, arguments: Args)
    | Solver(solver: SolverType, solverInputs: Args)

  datatype Step = Step(id: nat, dependsOn: seq<int>, work: Work)

  type Plan = seq<Step>

  ghost predicate DistinctIds(plan: Plan) {
    forall i, j :: 0 <= i < j < |plan| ==> plan[i].id != plan[j].id
  }

  /** The dependency graph of a plan. */
  ghost function GraphOf(plan: Plan): Graph {
    if plan == [] then map[] else
      var s := plan[|plan| - 1];
      GraphOf(plan[..|plan| - 1])[s.id := s.dependsOn]
  }

  /** A plan that passed validation. */
  ghost predicate ValidPlan(plan: Plan) {
    DistinctIds(plan) && Closed(GraphOf(plan)) && Acyclic(GraphOf(plan))
  }

  ghost function IdSet(plan: Plan): set<int> {
    set s | s in plan :: s.id as int
  }

  lemma {:induction false} IdSetLast(plan: Plan)
    requires plan != []
    ensures IdSet(plan) == IdSet(plan[..|plan| - 1]) + {plan[|plan| - 1].id}
  {
    assert plan == plan[..|plan| - 1] + [plan[|plan| - 1]];
  }

  /** Every step is found in the graph under its own id. */
  ghost predicate Recorded(plan: Plan, g: Graph) {
    forall i :: 0 <= i < |plan| ==> plan[i].id in g && g[plan[i].id] == plan[i].dependsOn
  }

  lemma {:induction false} GraphOfKeys(plan: Plan)
    ensures GraphOf(plan).Keys == IdSet(plan)
  {
    if plan != [] {
      GraphOfKeys(plan[..|plan| - 1]);
      IdSetLast(plan);
    }
  }

  lemma {:induction false} GraphOfRecords(plan: Plan)
    requires DistinctIds(plan)
    ensures Recorded(plan, GraphOf(plan))
  {
    if plan != [] {
      var n := |plan| - 1;
      var rest := plan[..n];
      GraphOfRecords(rest);
      forall i | 0 <= i < |plan|
        ensures plan[i].id in GraphOf(plan) && GraphOf(plan)[plan[i].id] == plan[i].dependsOn
      {
        if i < n { assert rest[i] == plan[i] && plan[i].id != plan[n].id; }
      }
    }
  }

  lemma {:induction false} GraphOfEntries(plan: Plan)
    requires DistinctIds(plan)
    ensures Recorded(plan, GraphOf(plan))
    ensures |GraphOf(plan)| == |plan|
  {
    GraphOfKeys(plan);
    GraphOfRecords(plan);
    DistinctByCount(plan);
    assert |GraphOf(plan).Keys| == |GraphOf(plan)|;
  }

  /** The step carrying an id of the plan. */
  ghost function StepOf(plan: Plan, x: int): (s: Step)
    requires DistinctIds(plan) && x in GraphOf(plan)
    ensures s in plan && s.id == x && GraphOf(plan)[x] == s.dependsOn
  {
    GraphOfKeys(plan);
    GraphOfRecords(plan);
    var i :| 0 <= i < |plan| && plan[i].id == x;
    plan[i]
  }

  lemma {:induction false} DistinctByCount(plan: Plan)
    ensures |IdSet(plan)| <= |plan|
    ensures |IdSet(plan)| == |plan| <==> DistinctIds(plan)
  {
    if plan != [] {
      var n := |plan| - 1;
      var rest := plan[..n];
      DistinctByCount(rest);
      IdSetLast(plan);
      if plan[n].id in IdSet(rest) {
        assert IdSet(plan) == IdSet(rest);
        var i :| 0 <= i < n && rest[i].id == plan[n].id;
        assert plan[i].id == plan[n].id;
      } else {
        assert |IdSet(plan)| == |IdSet(rest)| + 1;
        DistinctLast(plan);
      }
    }
  }

  lemma {:induction false} DistinctLast(plan: Plan)
    requires plan != [] && plan[|plan| - 1].id !in IdSet(plan[..|plan| - 1])
    ensures DistinctIds(plan) <==> DistinctIds(plan[..|plan| - 1])
  {
    var n := |plan| - 1;
    var rest := plan[..n];
    if DistinctIds(rest) {
      forall i, j | 0 <= i < j < |plan| ensures plan[i].id != plan[j].id {
        assert rest[i] == plan[i];
        if j < n { assert rest[j] == plan[j]; }
      }
    }
  }

  // ---------------------------------------------------------------------
  // Validation
  // ---------------------------------------------------------------------

  datatype Verdict = Valid | DuplicateStepId | MissingDependency(step: int, dep: int) | CycleFound

  /** How many entries of a dependency list are still outstanding. */
  ghost function Open(deps: seq<int>, done: set<int>): nat {
    if deps == [] then 0
    else (if deps[0] in done then 0 else 1) + Open(deps[1..], done)
  }

  lemma {:induction false} OpenZero(deps: seq<int>, done: set<int>)
    ensures Open(deps, done) == 0 <==> forall d :: d in deps ==> d in done
    ensures done == {} ==> Open(deps, done) == |deps|
  {
    if deps != [] {
      OpenZero(deps[1..], done);
      assert deps == [deps[0]] + deps[1..];
      assert forall d :: d in deps <==> d == deps[0] || d in deps[1..];
    }
  }

  lemma {:induction false} OpenAfter(deps: seq<int>, done: set<int>, d: int)
    requires d !in done
    ensures Open(deps, done) == Open(deps, done + {d}) + multiset(deps)[d]
  {
    if deps != [] {
      OpenAfter(deps[1..], done, d);
      assert deps == [deps[0]] + deps[1..];
      assert multiset(deps) == multiset{deps[0]} + multiset(deps[1..]);
    }
  }

  /** Steps of which each depends on the next, and the last on the first. */
  ghost predicate Ring(plan: Plan, q: seq<Step>) {
    && |q| > 0
    && (forall i :: 0 <= i < |q| ==> q[i] in plan)
    && (forall i :: 0 <= i < |q| - 1 ==> q[i + 1].id in q[i].dependsOn)
    && q[0].id in q[|q| - 1].dependsOn
  }

  /** Validity on the steps: no two share an id, every dependency is the id of a step, and no steps form a ring. */
  lemma {:induction false} ValidSpelled(plan: Plan)
    ensures ValidPlan(plan) <==>
            && (forall i, j :: 0 <= i < j < |plan| ==> plan[i].id != plan[j].id)
            && (forall s, d :: s in plan && d in s.dependsOn ==> exists t :: t in plan && t.id == d)
            && forall q :: !Ring(plan, q)
  {
    hide GraphOf, Acyclic, Closed, Ring;
    if DistinctIds(plan) {
      ClosedSpelled(plan);
      if Closed(GraphOf(plan)) {
        AcyclicSpelled(plan);
      }
    }
  }

  lemma {:induction false} IdKnown(plan: Plan, d: int)
    ensures d in IdSet(plan) <==> exists t :: t in plan && t.id == d
  {
    if d in IdSet(plan) {
      var t :| t in plan && t.id as int == d;
    }
  }

  lemma {:induction false} ClosedSpelled(plan: Plan)
    requires DistinctIds(plan)
    ensures Closed(GraphOf(plan)) <==> forall s, d :: s in plan && d in s.dependsOn ==> exists t :: t in plan && t.id == d
  {
    hide GraphOf;
    var g := GraphOf(plan);
    GraphOfKeys(plan);
    GraphOfRecords(plan);
    if Closed(g) {
      forall s, d | s in plan && d in s.dependsOn ensures exists t :: t in plan && t.id == d {
        var i :| 0 <= i < |plan| && plan[i] == s;
        assert d in g[plan[i].id];
        IdKnown(plan, d);
      }
    } else {
      var x, d :| x in g && d in g[x] && d !in g;
      var s := StepOf(plan, x);
      assert s in plan && d in s.dependsOn;
      assert forall t :: t in plan ==> t.id != d;
    }
  }

  lemma {:induction false} AcyclicSpelled(plan: Plan)
    requires DistinctIds(plan) && Closed(GraphOf(plan))
    ensures Acyclic(GraphOf(plan)) <==> forall q :: !Ring(plan, q)
  {
    hide GraphOf, Ring, Closed, DependsOn;
    var g := GraphOf(plan);
    if !Acyclic(g) {
      var x :| x in g && DependsOn(g, x, x);
      var q := RingOfCycle(plan, x);
    } else if q :| Ring(plan, q) {
      CycleOfRing(plan, q);
    }
  }

  lemma {:induction false} RingOfCycle(plan: Plan, x: int) returns (q: seq<Step>)
    requires DistinctIds(plan) && DependsOn(GraphOf(plan), x, x)
    ensures Ring(plan, q)
  {
    hide GraphOf;
    var g := GraphOf(plan);
    var p :| ChainBetween(g, x, x, p);
    var n := |p| - 1;
    q := seq(n, i requires 0 <= i < n => StepOf(plan, p[i]));
    forall i | 0 <= i < n ensures q[i] in plan && q[i].id == p[i] && q[i].dependsOn == g[p[i]] {
      assert q[i] == StepOf(plan, p[i]);
    }
    assert p[n] in g[p[n - 1]];
  }

  lemma {:induction false} CycleOfRing(plan: Plan, q: seq<Step>)
    requires DistinctIds(plan) && Ring(plan, q)
    ensures !Acyclic(GraphOf(plan))
  {
    hide GraphOf;
    var g, n := GraphOf(plan), |q|;
    GraphOfRecords(plan);
    var p := seq(n + 1, i requires 0 <= i <= n => if i < n then q[i].id as int else q[0].id as int);
    forall i | 0 <= i < n ensures q[i].id in g && g[q[i].id] == q[i].dependsOn {
      var j :| 0 <= j < |plan| && plan[j] == q[i];
    }
    assert ChainBetween(g, q[0].id, q[0].id, p);
  }

  /** Position (i, k) of the first dependency, in listing order, that names no step. */
  ghost predicate FirstMissing(plan: Plan, ids: set<int>, i: int, k: int) {
    && 0 <= i < |plan| && 0 <= k < |plan[i].dependsOn|
    && plan[i].dependsOn[k] !in ids
    && (forall l :: 0 <= l < k ==> plan[i].dependsOn[l] in ids)
    && (forall j, d :: 0 <= j < i && d in plan[j].dependsOn ==> d in ids)
  }

  /** The dangling dependency that is named, on the steps: no step has its id, but some step has the id of every
      dependency listed before it. */
  lemma {:induction false} FirstMissingSpelled(plan: Plan, i: nat, k: nat)
    requires i < |plan| && k < |plan[i].dependsOn|
    ensures FirstMissing(plan, GraphOf(plan).Keys, i, k) <==>
            && (forall t :: t in plan ==> t.id != plan[i].dependsOn[k])
            && (forall l :: 0 <= l < k ==> exists t :: t in plan && t.id == plan[i].dependsOn[l])
            && forall j, d :: 0 <= j < i && d in plan[j].dependsOn ==> exists t :: t in plan && t.id == d
  {
    hide GraphOf;
    GraphOfKeys(plan);
    var ids, dep := GraphOf(plan).Keys, plan[i].dependsOn[k];
    IdKnown(plan, dep);
    if FirstMissing(plan, ids, i, k) {
      forall l | 0 <= l < k ensures exists t :: t in plan && t.id == plan[i].dependsOn[l] {
        IdKnown(plan, plan[i].dependsOn[l]);
      }
      forall j, d | 0 <= j < i && d in plan[j].dependsOn ensures exists t :: t in plan && t.id == d {
        IdKnown(plan, d);
      }
    }
    if && (forall t :: t in plan ==> t.id != dep)
       && (forall l :: 0 <= l < k ==> exists t :: t in plan && t.id == plan[i].dependsOn[l])
       && (forall j, d :: 0 <= j < i && d in plan[j].dependsOn ==> exists t :: t in plan && t.id == d) {
      forall l | 0 <= l < k ensures plan[i].dependsOn[l] in ids {
        IdKnown(plan, plan[i].dependsOn[l]);
      }
      forall j, d | 0 <= j < i && d in plan[j].dependsOn ensures d in ids {
        IdKnown(plan, d);
      }
      assert FirstMissing(plan, ids, i, k);
    }
  }

  /** Validation accepts exactly the plans with distinct ids, no dangling dependency and no
      cycle, and names the right fault otherwise. */
  method ValidateDag(plan: Plan) returns (v: Verdict)
    ensures v.Valid? <==> ValidPlan(plan)
    ensures v.DuplicateStepId? <==> !DistinctIds(plan)
    ensures v.MissingDependency? <==> DistinctIds(plan) && !Closed(GraphOf(plan))
    ensures v.MissingDependency? ==>
              exists i, k :: FirstMissing(plan, GraphOf(plan).Keys, i, k)
                             && v.step == plan[i].id && v.dep == plan[i].dependsOn[k]
    ensures v.CycleFound? <==> DistinctIds(plan) && Closed(GraphOf(plan)) && !Acyclic(GraphOf(plan))
  {
    var ids := set s | s in plan :: s.id as int;
    assert ids == IdSet(plan);
    DistinctByCount(plan);
    if |ids| != |plan| {
      return DuplicateStepId;
    }
    ghost var g := GraphOf(plan);
    assert ids == g.Keys by { GraphOfKeys(plan); }
    GraphOfEntries(plan);
    for i := 0 to |plan|
      invariant forall j, d :: 0 <= j < i && d in plan[j].dependsOn ==> d in ids
    {
      for k := 0 to |plan[i].dependsOn|
        invariant forall l :: 0 <= l < k ==> plan[i].dependsOn[l] in ids
      {
        if plan[i].dependsOn[k] !in ids {
          assert FirstMissing(plan, g.Keys, i, k);
          assert plan[i].id in g && plan[i].dependsOn[k] in g[plan[i].id];
          return MissingDependency(plan[i].id, plan[i].dependsOn[k]);
        }
      }
    }
    assert Closed(g) by {
      forall x, d | x in g && d in g[x] ensures d in g {
        var s := StepOf(plan, x);
        var j :| 0 <= j < |plan| && plan[j] == s;
      }
    }
    var indeg, adj := BuildTables(plan, ids);
    var visited, _ := VisitAll(g, ids, indeg, adj);
    v := if visited != |ids| then CycleFound else Valid;
  }

  /** The in-degree counters and the adjacency lists, repeated dependencies counted each time. */
  method BuildTables(plan: Plan, ids: set<int>) returns (indeg: map<int, int>, adj: map<int, seq<int>>)
    requires DistinctIds(plan) && Closed(GraphOf(plan)) && ids == GraphOf(plan).Keys
    ensures Tables(ids, GraphOf(plan), indeg, adj)
  {
    hide Tables, GraphOf;
    indeg := map sid | sid in ids :: 0;
    adj := map sid | sid in ids :: [];
    ghost var read: map<int, seq<int>> := map sid | sid in ids :: [];
    TablesStart(ids);
    GraphOfEntries(plan);
    for i := 0 to |plan|
      invariant Tables(ids, read, indeg, adj) && read.Keys == ids
      invariant forall j :: 0 <= j < i ==> read[plan[j].id] == plan[j].dependsOn
      invariant forall j :: i <= j < |plan| ==> read[plan[j].id] == []
    {
      DepsKnown(plan, i);
      indeg, adj := ReadStep(ids, read, plan[i], indeg, adj);
      read := read[plan[i].id := plan[i].dependsOn];
    }
    AllRead(plan, read);
  }

  lemma {:induction false} TablesStart(ids: set<int>)
    ensures Tables(ids, map sid | sid in ids :: [], map sid | sid in ids :: 0, map sid | sid in ids :: [])
  {
  }

  lemma {:induction false} DepsKnown(plan: Plan, i: nat)
    requires DistinctIds(plan) && Closed(GraphOf(plan)) && i < |plan|
    ensures plan[i].id in GraphOf(plan).Keys
    ensures forall k :: 0 <= k < |plan[i].dependsOn| ==> plan[i].dependsOn[k] in GraphOf(plan).Keys
  {
    GraphOfEntries(plan);
    var g, x := GraphOf(plan), plan[i].id;
    assert x in g && g[x] == plan[i].dependsOn;
    forall k | 0 <= k < |plan[i].dependsOn| ensures plan[i].dependsOn[k] in g.Keys {
      var d := plan[i].dependsOn[k];
      assert d in g[x];
      assert d in g.Keys;
    }
  }

  lemma {:induction false} AllRead(plan: Plan, read: map<int, seq<int>>)
    requires DistinctIds(plan) && read.Keys == GraphOf(plan).Keys
    requires forall j :: 0 <= j < |plan| ==> plan[j].id in read && read[plan[j].id] == plan[j].dependsOn
    ensures read == GraphOf(plan)
  {
    hide GraphOf;
    forall x | x in read.Keys ensures read[x] == GraphOf(plan)[x] {
      var s := StepOf(plan, x);
      var j :| 0 <= j < |plan| && plan[j] == s;
    }
  }

  /** Enter the dependencies of one step. */
  method ReadStep(ids: set<int>, ghost read: map<int, seq<int>>, s: Step,
                  indeg0: map<int, int>, adj0: map<int, seq<int>>)
    returns (indeg: map<int, int>, adj: map<int, seq<int>>)
    requires Tables(ids, read, indeg0, adj0) && s.id in ids && read[s.id] == []
    requires forall k :: 0 <= k < |s.dependsOn| ==> s.dependsOn[k] in ids
    ensures Tables(ids, read[s.id := s.dependsOn], indeg, adj)
  {
    indeg, adj := indeg0, adj0;
    assert read == read[s.id := s.dependsOn[..0]];
    for k := 0 to |s.dependsOn|
      invariant Tables(ids, read[s.id := s.dependsOn[..k]], indeg, adj)
    {
      var dep := s.dependsOn[k];
      ghost var now := read[s.id := s.dependsOn[..k]];
      TablesStep(ids, now, indeg, adj, s.id, dep);
      assert s.dependsOn[..k + 1] == s.dependsOn[..k] + [dep];
      assert now[s.id := now[s.id] + [dep]] == read[s.id := s.dependsOn[..k + 1]];
      adj := adj[dep := adj[dep] + [s.id]];
      indeg := indeg[s.id := indeg[s.id] + 1];
    }
    assert s.dependsOn[..|s.dependsOn|] == s.dependsOn;
  }

  /** The counters and adjacency lists reflect the dependency entries read so far. */
  ghost predicate Tables(ids: set<int>, read: map<int, seq<int>>, indeg: map<int, int>, adj: map<int, seq<int>>) {
    && read.Keys == indeg.Keys == adj.Keys == ids
    && (forall x :: x in ids ==> indeg[x] == |read[x]|)
    && (forall d, x {:trigger Mirrored(read, adj, d, x)} :: d in ids && x in ids ==> Mirrored(read, adj, d, x))
    && (forall d :: d in ids ==> Elems(adj[d]) <= ids)
  }

  /** x waits for d as many times as it lists d. */
  ghost predicate Mirrored(read: map<int, seq<int>>, adj: map<int, seq<int>>, d: int, x: int)
    requires d in adj && x in read
  {
    multiset(adj[d])[x] == multiset(read[x])[d]
  }

  lemma {:induction false} TablesStep(ids: set<int>, read: map<int, seq<int>>, indeg: map<int, int>, adj: map<int, seq<int>>,
                   s: int, dep: int)
    requires Tables(ids, read, indeg, adj) && s in ids && dep in ids
    ensures Tables(ids, read[s := read[s] + [dep]], indeg[s := indeg[s] + 1], adj[dep := adj[dep] + [s]])
  {
    var read', adj' := read[s := read[s] + [dep]], adj[dep := adj[dep] + [s]];
    forall d, x | d in ids && x in ids ensures Mirrored(read', adj', d, x) {
      assert Mirrored(read, adj, d, x);
      assert multiset(adj[dep] + [s]) == multiset(adj[dep]) + multiset{s};
      assert multiset(read[s] + [dep]) == multiset(read[s]) + multiset{dep};
    }
    assert Elems(adj[dep] + [s]) == Elems(adj[dep]) + {s};
  }

  /** Kahn's worklist: every id is popped at most once, and all are popped iff there is no cycle. */
  method VisitAll(ghost g: Graph, ids: set<int>, indeg0: map<int, int>, adj: map<int, seq<int>>)
    returns (visited: nat, ghost popped: seq<int>)
    requires Closed(g) && ids == g.Keys && Tables(ids, g, indeg0, adj)
    ensures visited == |popped| && Distinct(popped) && Topological(g, popped) && Elems(popped) <= ids
    ensures visited <= |ids|
    ensures visited == |ids| <==> Acyclic(g)
  {
    assert indeg0.Keys == ids;
    var indeg := indeg0;
    var ready := CollectReady(ids, indeg);
    visited := 0;
    popped := [];
    WorklistStarts(g, indeg, ready);
    hide Worklist, Popped, Tables;
    while ready != []
      invariant Worklist(g, popped, indeg, ready) && visited == |popped|
      decreases |g| - |popped|
    {
      var sid := ready[|ready| - 1];
      PopLast(g, ids, indeg0, adj, popped, indeg, ready, sid);
      ready := ready[..|ready| - 1];
      visited := visited + 1;
      popped := popped + [sid];
      indeg, ready := Release(g, popped, adj[sid], indeg, ready);
    }
    WorklistEnds(g, popped, indeg);
  }

  /** The state of the worklist: the popped order is topological, each counter is the number of
      dependency entries still outstanding, and the ready list holds the zero counters, once each. */
  ghost predicate Worklist(g: Graph, order: seq<int>, indeg: map<int, int>, ready: seq<int>) {
    && Topological(g, order)
    && Counts(g, order, indeg)
    && Distinct(ready)
    && forall x :: x in ready <==> x in g && x !in order && indeg[x] == 0
  }

  ghost predicate Counts(g: Graph, order: seq<int>, indeg: map<int, int>) {
    && indeg.Keys == g.Keys
    && forall x :: x in g ==> indeg[x] == Open(g[x], Elems(order))
  }

  lemma {:induction false} WorklistStarts(g: Graph, indeg: map<int, int>, ready: seq<int>)
    requires indeg.Keys == g.Keys && forall x :: x in g ==> indeg[x] == |g[x]|
    requires Distinct(ready) && forall x :: x in ready <==> x in g && indeg[x] == 0
    ensures Worklist(g, [], indeg, ready)
  {
    assert Elems([]) == {};
    forall x | x in g ensures indeg[x] == Open(g[x], Elems([])) {
      OpenZero(g[x], {});
    }
  }

  /** With nothing ready, all ids were popped exactly when there is no cycle. */
  lemma {:induction false} WorklistEnds(g: Graph, order: seq<int>, indeg: map<int, int>)
    requires Closed(g) && Worklist(g, order, indeg, [])
    ensures |order| <= |g.Keys|
    ensures |order| == |g.Keys| <==> Acyclic(g)
  {
    OrderCounts(g, order);
    if Elems(order) == g.Keys {
      TopologicalAcyclic(g, order);
    } else {
      var u := g.Keys - Elems(order);
      forall x | x in u ensures WaitsInside(g, u, x) {
        OpenZero(g[x], Elems(order));
        var d :| d in g[x] && d !in Elems(order);
        assert d in u;
      }
      SubsetMissing(g.Keys, Elems(order));
      var x :| x in u;
      StuckSetHasCycle(g, u, x);
    }
  }

  /** The ids whose counter starts at zero, in no particular order. */
  method CollectReady(ids: set<int>, indeg: map<int, int>) returns (ready: seq<int>)
    requires indeg.Keys == ids
    ensures forall x :: x in ready <==> x in ids && indeg[x] == 0
    ensures Distinct(ready)
  {
    ready := [];
    var rest := ids;
    while rest != {}
      invariant rest <= ids
      invariant forall x :: x in ready <==> x in ids && x !in rest && indeg[x] == 0
      invariant Distinct(ready)
      decreases rest
    {
      Inhabited(rest);
      var sid :| sid in rest;
      rest := rest - {sid};
      if indeg[sid] == 0 {
        ready := ready + [sid];
      }
    }
  }

  /** The worklist between popping the last step of the order and discounting it from those that wait for it. */
  ghost predicate Popped(g: Graph, order: seq<int>, next: seq<int>, indeg: map<int, int>, ready: seq<int>) {
    && indeg.Keys == g.Keys && Elems(next) <= g.Keys
    && (forall x :: x in g ==> indeg[x] == Open(g[x], Elems(order)) + multiset(next)[x])
    && (forall x :: x in order ==> x in g && indeg[x] == 0)
    && (forall x :: x in ready <==> x in g && x !in order && indeg[x] == 0)
    && Distinct(ready) && Topological(g, order)
  }

  lemma {:induction false} PopLast(g: Graph, ids: set<int>, indeg0: map<int, int>, adj: map<int, seq<int>>,
                                   order: seq<int>, indeg: map<int, int>, ready: seq<int>, sid: int)
    requires Tables(ids, g, indeg0, adj) && Worklist(g, order, indeg, ready)
    requires ready != [] && sid == ready[|ready| - 1]
    ensures sid in adj && |order| < |g|
    ensures Popped(g, order + [sid], adj[sid], indeg, ready[..|ready| - 1])
  {
    hide Open, Topological;
    OrderGrows(g, order, sid, indeg, ready);
    assert Elems(adj[sid]) <= ids && forall x :: x in g ==> Mirrored(g, adj, sid, x);
    CountersAfterPop(g, order, sid, indeg, adj[sid]);
  }

  /** Discount one popped step from the counters of the steps that wait for it. */
  method Release(ghost g: Graph, ghost order: seq<int>, next: seq<int>, indeg0: map<int, int>, ready0: seq<int>)
    returns (indeg: map<int, int>, ready: seq<int>)
    requires Popped(g, order, next, indeg0, ready0)
    ensures Worklist(g, order, indeg, ready)
  {
    hide Open, Popped, Worklist;
    indeg, ready := indeg0, ready0;
    assert next[0..] == next;
    for k := 0 to |next|
      invariant Popped(g, order, next[k..], indeg, ready)
    {
      var nxt := next[k];
      assert next[k..] == [nxt] + next[k + 1..];
      OneReleased(g, order, nxt, next[k + 1..], indeg, ready);
      indeg := indeg[nxt := indeg[nxt] - 1];
      if indeg[nxt] == 0 {
        ready := ready + [nxt];
      }
    }
    assert next[|next|..] == [];
    AllReleased(g, order, indeg, ready);
  }

  lemma {:induction false} OneReleased(g: Graph, order: seq<int>, nxt: int, rest: seq<int>, indeg: map<int, int>, ready: seq<int>)
    requires Popped(g, order, [nxt] + rest, indeg, ready)
    ensures nxt in indeg
    ensures var indeg' := indeg[nxt := indeg[nxt] - 1];
            Popped(g, order, rest, indeg', if indeg'[nxt] == 0 then ready + [nxt] else ready)
  {
    hide Open, Topological;
    assert nxt in Elems([nxt] + rest);
    assert multiset([nxt] + rest) == multiset{nxt} + multiset(rest);
    assert Elems([nxt] + rest) == {nxt} + Elems(rest);
  }

  lemma {:induction false} AllReleased(g: Graph, order: seq<int>, indeg: map<int, int>, ready: seq<int>)
    requires Popped(g, order, [], indeg, ready)
    ensures Worklist(g, order, indeg, ready)
  {
    hide Open, Topological;
  }

  /** Popping a step turns its waiting list into the amount still to be discounted. */
  lemma {:induction false} CountersAfterPop(g: Graph, order: seq<int>, sid: int, indeg: map<int, int>, next: seq<int>)
    requires Topological(g, order) && Counts(g, order, indeg) && sid in g && sid !in order && indeg[sid] == 0
    requires forall x :: x in g ==> multiset(next)[x] == multiset(g[x])[sid]
    ensures forall x :: x in g ==> indeg[x] == Open(g[x], Elems(order + [sid])) + multiset(next)[x]
    ensures forall x :: x in order + [sid] ==> x in g && indeg[x] == 0
  {
    assert Elems(order + [sid]) == Elems(order) + {sid};
    forall x | x in g ensures indeg[x] == Open(g[x], Elems(order + [sid])) + multiset(next)[x] {
      OpenAfter(g[x], Elems(order), sid);
    }
    forall x | x in order ensures x in g && indeg[x] == 0 {
      var i :| 0 <= i < |order| && order[i] == x;
      assert DepsBefore(g, order, i);
      OpenZero(g[x], Elems(order));
    }
  }

  lemma {:induction false} OrderGrows(g: Graph, order: seq<int>, sid: int, indeg: map<int, int>, ready: seq<int>)
    requires Worklist(g, order, indeg, ready) && sid in ready
    ensures Topological(g, order + [sid])
    ensures |order| < |g|
  {
    OpenZero(g[sid], Elems(order));
    var longer := order + [sid];
    forall i | 0 <= i < |longer| ensures DepsBefore(g, longer, i) {
      if i < |order| {
        assert longer[..i] == order[..i];
        assert DepsBefore(g, order, i);
      } else {
        assert longer[..i] == order;
      }
    }
    OrderCounts(g, longer);
  }

  lemma {:induction false} OrderCounts(g: Graph, order: seq<int>)
    requires Topological(g, order)
    ensures |order| <= |g| && Elems(order) <= g.Keys
    ensures |order| == |g| <==> Elems(order) == g.Keys
  {
    DistinctElems(order);
    assert Elems(order) <= g.Keys;
    assert |g| == |g.Keys|;
    SubsetCount(Elems(order), g.Keys);
  }

  lemma {:induction false} SubsetMissing(a: set<int>, b: set<int>)
    ensures a <= b || exists x :: x in a - b
  {
    if forall x :: x !in a - b {
      forall x | x in a ensures x in b {
        assert x !in a - b;
      }
    }
  }

  lemma {:induction false} DistinctElems(s: seq<int>)
    requires Distinct(s)
    ensures |Elems(s)| == |s|
  {
    if s != [] {
      var n := |s| - 1;
      DistinctElems(s[..n]);
      assert Elems(s) == Elems(s[..n]) + {s[n]};
    }
  }

  lemma {:induction false} SubsetCount(a: set<int>, b: set<int>)
    requires a <= b
    ensures |a| <= |b|
    ensures |a| == |b| <==> a == b
  {
    assert b == a + (b - a);
    assert |b| == |a| + |b - a|;
    if |a| == |b| { assert b - a == {}; }
  }

  // ---------------------------------------------------------------------
  // Layering
  // ---------------------------------------------------------------------

  datatype Layering = Layers(layers: seq<seq<Step>>) | Unreachable

  ghost function Ids(layer: seq<Step>): set<int> {
    set s | s in layer :: s.id as int
  }

  ghost predicate SortedById(layer: seq<Step>) {
    forall i, j :: 0 <= i < j < |layer| ==> layer[i].id < layer[j].id
  }

  /** The k-th group: steps of the plan, by id, whose longest dependency chain has k + 1 entries. */
  ghost predicate IsLayer(plan: Plan, g: Graph, layer: seq<Step>, k: nat) {
    && SortedById(layer)
    && Ids(layer) == Layer(g, k)
    && layer != []
    && forall i :: 0 <= i < |layer| ==> layer[i] in plan
  }

  ghost predicate LayeredUpTo(plan: Plan, g: Graph, layers: seq<seq<Step>>) {
    forall k {:trigger layers[k]} :: 0 <= k < |layers| ==> IsLayer(plan, g, layers[k], k)
  }

  /** What is left to place once n layers are out. */
  ghost predicate Remaining(g: Graph, remaining: map<int, set<int>>, n: nat) {
    && remaining.Keys == g.Keys - Within(g, n)
    && forall x :: x in remaining ==> StillWaits(g, n, x, remaining[x])
  }

  /** The dependencies of x not placed in the first n layers. */
  ghost predicate StillWaits(g: Graph, n: nat, x: int, waits: set<int>)
    requires x in g
  {
    forall d :: d in waits <==> d in g[x] && d !in Within(g, n)
  }

  /** `TopologicalLayers` succeeds exactly when no step waits for ever, and then its k-th entry
      lists, by id, the steps whose longest dependency chain has k + 1 entries. */
  method TopologicalLayers(plan: Plan) returns (r: Layering)
    requires DistinctIds(plan)
    ensures r.Layers? <==> Within(GraphOf(plan), |plan|) == GraphOf(plan).Keys
    ensures r.Layers? ==> LayeredFully(plan, r.layers)
  {
    var remaining, byId := IndexSteps(plan);
    GraphOfEntries(plan);
    r := PeelLayers(plan, GraphOf(plan), remaining, byId);
  }

  method PeelLayers(ghost plan: Plan, ghost g: Graph, remaining0: map<int, set<int>>, byId: map<int, Step>)
    returns (r: Layering)
    requires Remaining(g, remaining0, 0)
    requires byId.Keys == g.Keys && forall x :: x in byId ==> byId[x] in plan && byId[x].id == x
    ensures r.Layers? <==> Within(g, |g|) == g.Keys
    ensures r.Layers? ==> Within(g, |r.layers|) == g.Keys && LayeredUpTo(plan, g, r.layers)
  {
    hide Within;
    var remaining := remaining0;
    var layers: seq<seq<Step>> := [];
    while |remaining| > 0
      invariant Remaining(g, remaining, |layers|)
      invariant LayeredUpTo(plan, g, layers)
      decreases |remaining|
    {
      var readyIds := CollectUnblocked(g, remaining, |layers|);
      if readyIds == {} {
        NeverSettles(g, remaining, |layers|);
        return Unreachable;
      }
      var layer;
      layer, remaining := PlaceReady(plan, g, remaining, readyIds, byId, |layers|);
      layers := layers + [layer];
    }
    AllPlaced(g, remaining, |layers|);
    return Layers(layers);
  }

  /** The steps that wait for nothing any more. */
  method CollectUnblocked(ghost g: Graph, remaining: map<int, set<int>>, ghost n: nat) returns (ready: set<int>)
    requires Remaining(g, remaining, n)
    ensures ready == Layer(g, n) && ready <= remaining.Keys
  {
    ready := set x | x in remaining && remaining[x] == {};
    ReadyIsLayer(g, remaining, ready, n);
  }

  /** Take one layer out and strike it from what the others wait for. */
  method PlaceReady(ghost plan: Plan, ghost g: Graph, remaining: map<int, set<int>>, readyIds: set<int>, byId: map<int, Step>,
                    ghost n: nat)
    returns (layer: seq<Step>, rest: map<int, set<int>>)
    requires Remaining(g, remaining, n)
    requires readyIds == Layer(g, n) && readyIds <= remaining.Keys && readyIds != {}
    requires byId.Keys == g.Keys && forall x :: x in byId ==> byId[x] in plan && byId[x].id == x
    ensures IsLayer(plan, g, layer, n)
    ensures Remaining(g, rest, n + 1) && |rest| < |remaining|
  {
    layer := InIdOrder(plan, readyIds, byId);
    AfterLayer(g, remaining, readyIds, n);
    rest := map x | x in remaining && x !in readyIds :: remaining[x] - readyIds;
  }

  method IndexSteps(plan: Plan) returns (remaining: map<int, set<int>>, byId: map<int, Step>)
    requires DistinctIds(plan)
    ensures Remaining(GraphOf(plan), remaining, 0)
    ensures byId.Keys == GraphOf(plan).Keys
    ensures forall x :: x in byId ==> byId[x] in plan && byId[x].id == x
  {
    hide DistinctIds;
    GraphOfEntries(plan);
    ghost var g := GraphOf(plan);
    remaining, byId := map[], map[];
    for i := 0 to |plan|
      invariant remaining.Keys == byId.Keys == GraphOf(plan[..i]).Keys
      invariant forall x :: x in byId ==> byId[x] in plan && byId[x].id == x
      invariant forall x :: x in remaining ==> x in g && StillWaits(g, 0, x, remaining[x])
    {
      assert plan[..i + 1][..i] == plan[..i];
      assert plan[i].id in g && g[plan[i].id] == plan[i].dependsOn;
      remaining := remaining[plan[i].id := set d | d in plan[i].dependsOn];
      byId := byId[plan[i].id := plan[i]];
    }
    assert plan[..|plan|] == plan;
  }

  lemma {:induction false} AfterLayer(g: Graph, remaining: map<int, set<int>>, ready: set<int>, n: nat)
    requires Remaining(g, remaining, n) && ready == Layer(g, n) && ready <= remaining.Keys && ready != {}
    ensures Remaining(g, map x | x in remaining && x !in ready :: remaining[x] - ready, n + 1)
    ensures |map x | x in remaining && x !in ready :: remaining[x] - ready| < |remaining|
  {
    hide Within;
    WithinMonotone(g, n, n + 1);
    assert Within(g, n + 1) == Within(g, n) + ready;
    var rest := map x | x in remaining && x !in ready :: remaining[x] - ready;
    forall x | x in rest ensures StillWaits(g, n + 1, x, rest[x]) {
      assert StillWaits(g, n, x, remaining[x]);
    }
    CountDrops(remaining, ready);
  }

  lemma {:induction false} AllPlaced(g: Graph, remaining: map<int, set<int>>, n: nat)
    requires Remaining(g, remaining, n) && |remaining| == 0
    ensures Within(g, n) == g.Keys
    ensures Within(g, |g|) == g.Keys
  {
    WithinMonotone(g, n, n);
    assert |remaining.Keys| == 0;
    SubsetMissing(g.Keys, Within(g, n));
    assert forall x :: x in g.Keys - Within(g, n) ==> x in remaining.Keys;
    HeightAtMostSize(g, n);
  }

  lemma {:induction false} CountDrops(m: map<int, set<int>>, gone: set<int>)
    requires gone <= m.Keys && gone != {}
    ensures |map x | x in m && x !in gone :: m[x] - gone| < |m|
  {
    var less := map x | x in m && x !in gone :: m[x] - gone;
    assert less.Keys == m.Keys - gone;
    assert |less.Keys| == |less| && |m.Keys| == |m|;
    SubsetCount(less.Keys, m.Keys);
    Inhabited(gone);
    var x :| x in gone;
    assert x in m.Keys && x !in less.Keys;
  }

  lemma {:induction false} ReadyIsLayer(g: Graph, remaining: map<int, set<int>>, ready: set<int>, n: nat)
    requires Remaining(g, remaining, n)
    requires ready == set x | x in remaining && remaining[x] == {}
    ensures ready == Layer(g, n)
  {
    WithinMonotone(g, n, n + 1);
    forall x | x in g.Keys - Within(g, n) ensures x in ready <==> x in Within(g, n + 1) {
      assert StillWaits(g, n, x, remaining[x]);
      if x !in ready {
        Inhabited(remaining[x]);
      }
    }
  }

  lemma {:induction false} NeverSettles(g: Graph, remaining: map<int, set<int>>, n: nat)
    requires Remaining(g, remaining, n) && |remaining| > 0
    requires Layer(g, n) == {}
    ensures Within(g, |g|) != g.Keys
  {
    assert Within(g, n) != g.Keys by { assert |remaining.Keys| > 0; }
    if n <= |g| {
      EmptyLayerIsTop(g, n, |g|);
    } else {
      WithinMonotone(g, n, n);
      WithinMonotone(g, |g|, n);
    }
  }

  /** The layers below a full height are never more than the nodes. */
  lemma {:induction false} HeightAtMostSize(g: Graph, n: nat)
    requires Within(g, n) == g.Keys
    ensures Within(g, |g|) == g.Keys
  {
    if n <= |g| {
      WithinMonotone(g, n, |g|);
    } else {
      WithinMonotone(g, |g|, n);
      if Within(g, |g|) != g.Keys {
        if k: nat :| k < |g| && Layer(g, k) == {} {
          EmptyLayerIsTop(g, k, n);
          EmptyLayerIsTop(g, k, |g|);
        } else {
          GrowsEachLevel(g, |g|);
          SubsetCount(Within(g, |g|), g.Keys);
        }
      }
    }
  }

  lemma {:induction false} GrowsEachLevel(g: Graph, n: nat)
    requires forall k: nat :: k < n ==> Layer(g, k) != {}
    ensures |Within(g, n)| >= n
  {
    if n > 0 {
      GrowsEachLevel(g, n - 1);
      WithinMonotone(g, n - 1, n);
      assert Layer(g, n - 1) != {};
      SubsetCount(Within(g, n - 1), Within(g, n));
      assert Within(g, n - 1) != Within(g, n);
    }
  }

  /** The steps with the given ids, smallest id first. */
  method InIdOrder(ghost plan: Plan, ids: set<int>, byId: map<int, Step>) returns (layer: seq<Step>)
    requires ids <= byId.Keys && forall x :: x in byId ==> byId[x] in plan && byId[x].id == x
    ensures SortedById(layer) && Ids(layer) == ids
    ensures forall i :: 0 <= i < |layer| ==> layer[i] in plan
    ensures ids != {} ==> layer != []
  {
    layer := [];
    var rest := ids;
    while rest != {}
      invariant rest <= ids && Ids(layer) == ids - rest
      invariant SortedById(layer)
      invariant forall i :: 0 <= i < |layer| ==> layer[i] in plan
      invariant forall i, x :: 0 <= i < |layer| && x in rest ==> layer[i].id < x
      decreases rest
    {
      var m := LeastOf(rest);
      assert Ids(layer + [byId[m]]) == Ids(layer) + {m};
      layer := layer + [byId[m]];
      rest := rest - {m};
    }
  }

  method LeastOf(s: set<int>) returns (m: int)
    requires s != {}
    ensures m in s && forall x :: x in s ==> m <= x
  {
    Inhabited(s);
    m :| m in s;
    var seen := {m};
    while seen != s
      invariant m in seen && seen <= s
      invariant forall x :: x in seen ==> m <= x
      decreases s - seen
    {
      SubsetMissing(s, seen);
      var x :| x in s - seen;
      seen := seen + {x};
      if x < m { m := x; }
    }
  }

  /** All steps are out: what a successful layering returns. */
  ghost predicate LayeredFully(plan: Plan, layers: seq<seq<Step>>) {
    LayeredUpTo(plan, GraphOf(plan), layers) && Within(GraphOf(plan), |layers|) == GraphOf(plan).Keys
  }

  ghost predicate Placed(layers: seq<seq<Step>>, k: nat, i: nat, s: Step) {
    k < |layers| && i < |layers[k]| && layers[k][i] == s
  }

  /** What the layers look like on the steps: ids ascend; every dependency of a step stands in an earlier layer, and
      except in the first layer one stands in the layer just before. */
  lemma {:induction false} LayersSpelled(plan: Plan, layers: seq<seq<Step>>, k: nat, i: nat)
    requires DistinctIds(plan) && LayeredFully(plan, layers) && k < |layers| && i < |layers[k]|
    ensures layers[k][i] in plan && forall j :: 0 <= j < i ==> layers[k][j].id < layers[k][i].id
    ensures forall d :: d in layers[k][i].dependsOn ==>
              exists l, j :: 0 <= l < k && 0 <= j < |layers[l]| && layers[l][j].id == d
    ensures k > 0 ==> exists t :: t in layers[k - 1] && t.id in layers[k][i].dependsOn
  {
    hide GraphOf, Within, DistinctIds;
    var g, s := GraphOf(plan), layers[k][i];
    GraphOfEntries(plan);
    assert IsLayer(plan, g, layers[k], k);
    assert s.id as int in Ids(layers[k]);
    var n :| 0 <= n < |plan| && plan[n] == s;
    DepsBelow(g, s.id, k);
    forall d | d in s.dependsOn ensures exists l, j :: 0 <= l < k && 0 <= j < |layers[l]| && layers[l][j].id == d {
      var l := LayerHolding(g, d, k);
      var j := HeldAt(plan, layers, l, d);
    }
    if k > 0 {
      var d :| d in s.dependsOn && d in Layer(g, k - 1);
      var j := HeldAt(plan, layers, k - 1, d);
    }
  }

  lemma {:induction false} DepsBelow(g: Graph, x: int, k: nat)
    requires x in Layer(g, k)
    ensures x in g && forall d :: d in g[x] ==> d in Within(g, k)
    ensures k > 0 ==> exists d :: d in g[x] && d in Layer(g, k - 1)
  {
  }

  lemma {:induction false} HeldAt(plan: Plan, layers: seq<seq<Step>>, k: nat, x: int) returns (j: nat)
    requires LayeredFully(plan, layers) && k < |layers| && x in Layer(GraphOf(plan), k)
    ensures j < |layers[k]| && layers[k][j].id == x
  {
    hide GraphOf, Layer;
    assert IsLayer(plan, GraphOf(plan), layers[k], k);
    assert x in Ids(layers[k]);
    var s :| s in layers[k] && s.id as int == x;
    j :| 0 <= j < |layers[k]| && layers[k][j] == s;
  }

  /** The layers partition the steps: each step of the plan has a place, and no other place holds its id. */
  lemma {:induction false} LayersPartition(plan: Plan, layers: seq<seq<Step>>, s: Step) returns (k: nat, i: nat)
    requires DistinctIds(plan) && LayeredFully(plan, layers) && s in plan
    ensures Placed(layers, k, i, s)
    ensures forall l: nat, j: nat | l < |layers| && j < |layers[l]| && layers[l][j].id == s.id :: l == k && j == i
  {
    hide GraphOf, Within, DistinctIds;
    var g := GraphOf(plan);
    GraphOfEntries(plan);
    var n :| 0 <= n < |plan| && plan[n] == s;
    k := LayerHolding(g, s.id, |layers|);
    assert IsLayer(plan, g, layers[k], k);
    assert s.id as int in Ids(layers[k]);
    var t :| t in layers[k] && t.id == s.id;
    i :| 0 <= i < |layers[k]| && layers[k][i] == t;
    SameIdSameStep(plan, s, t);
    forall l: nat, j: nat | l < |layers| && j < |layers[l]| && layers[l][j].id == s.id ensures l == k && j == i {
      assert IsLayer(plan, g, layers[l], l);
      assert layers[l][j].id as int in Ids(layers[l]);
      if l < k { LayersDisjoint(g, l, k); }
      if k < l { LayersDisjoint(g, k, l); }
    }
  }

  lemma {:induction false} SameIdSameStep(plan: Plan, s: Step, t: Step)
    requires DistinctIds(plan) && s in plan && t in plan && s.id == t.id
    ensures s == t
  {
  }

  lemma {:induction false} LayerHolding(g: Graph, x: int, n: nat) returns (k: nat)
    requires x in Within(g, n)
    ensures k < n && x in Layer(g, k)
  {
    if x in Within(g, n - 1) { k := LayerHolding(g, x, n - 1); } else { k := n - 1; }
  }

  lemma {:induction false} GroupsRespect(plan: Plan, groups: seq<set<int>>)
    requires DistinctIds(plan)
    requires forall m, s, d :: 0 <= m < |groups| && s in plan && s.id in groups[m] && d in s.dependsOn ==>
               exists j :: 0 <= j < m && d in groups[j]
    ensures RespectsDependencies(GraphOf(plan), groups)
  {
    hide GraphOf;
    var g := GraphOf(plan);
    forall m: nat, x, d | m < |groups| && x in groups[m] && x in g && d in g[x] ensures Earlier(groups, m, d) {
      var s := StepOf(plan, x);
    }
  }

  /** There are as few layers as possible: any groups that hold every step, each after all it depends on, are at
      least as many. */
  lemma {:induction false} FewestLayers(plan: Plan, layers: seq<seq<Step>>, groups: seq<set<int>>)
    requires DistinctIds(plan) && LayeredFully(plan, layers)
    requires forall s :: s in plan ==> exists j :: 0 <= j < |groups| && s.id in groups[j]
    requires forall m, s, d :: 0 <= m < |groups| && s in plan && s.id in groups[m] && d in s.dependsOn ==>
               exists j :: 0 <= j < m && d in groups[j]
    ensures |layers| <= |groups|
  {
    hide GraphOf, Within;
    GroupsRespect(plan, groups);
    if layers != [] {
      var g, top := GraphOf(plan), |layers| - 1;
      assert IsLayer(plan, g, layers[top], top);
      var x := layers[top][0].id as int;
      assert x in Ids(layers[top]);
      var m :| 0 <= m < |groups| && x in groups[m];
      HeightAtMostSize(g, |layers|);
      GraphOfEntries(plan);
      LayeringFailsIff(plan);
      GroupsAreLater(g, groups, x, top, m);
    }
  }

  /** On a validated plan the layering never takes its error branch. */
  lemma {:induction false} ValidatedPlansLayer(plan: Plan)
    requires ValidPlan(plan)
    ensures Within(GraphOf(plan), |plan|) == GraphOf(plan).Keys
  {
    GraphOfEntries(plan);
    AcyclicIffBounded(GraphOf(plan));
  }

  /** Without the validator, the error branch is taken exactly on a dangling dependency or a cycle. */
  lemma {:induction false} LayeringFailsIff(plan: Plan)
    requires DistinctIds(plan)
    ensures Within(GraphOf(plan), |plan|) == GraphOf(plan).Keys <==> ValidPlan(plan)
  {
    GraphOfEntries(plan);
    var g := GraphOf(plan);
    if Within(g, |g|) == g.Keys {
      forall x, d | x in g && d in g[x] ensures d in g {
        assert x in Within(g, |g|) && |g| > 0;
        assert d in Within(g, |g| - 1);
        WithinMonotone(g, |g| - 1, |g|);
      }
      AcyclicIffBounded(g);
    } else if Closed(g) {
      AcyclicIffBounded(g);
    }
  }
}

/** From a plan to its superstep graph: node names, edges, and the order in which the bulk-synchronous
    runtime fires the nodes. */
module PlanCompiler {
  import opened Graphs
  import opened PlanSchema
  import opened Decimals

  // ---------------------------------------------------------------------
  // Node names
  // ---------------------------------------------------------------------

  function SourceName(s: QuerySource): string {
    match s
    case Canvas => "canvas"
    case DegreeDb => "degree_db"
    case CatalogDb => "catalog_db"
    case SyllabusRag => "syllabus_rag"
  }

  function Suffix(w: Work): string {
    match w
    case Query(source, _) => "query_" + SourceName(source)
    case Solver(ScheduleCsp, _) => "solver_schedule_csp"
    case Solver(PrereqCheck, _) => "solver_prereq_check"
    case Reasoning(_, template) => if template == "" then "reasoning" else "reasoning_" + template
    case Action(tool, _) => if tool == "" then "action" else "action_" + tool
  }

  function NodeName(s: Step): string {
    "step_" + Decimal(s.id) + "_" + Suffix(s.work)
  }

  /** The names as they appear in traces. */
  lemma {:induction false} NameSpelled(s: Step)
    ensures NodeName(s) == "step_" + Decimal(s.id) + "_" +
                           match s.work
                           case Query(Canvas, _) => "query_canvas"
                           case Query(DegreeDb, _) => "query_degree_db"
                           case Query(CatalogDb, _) => "query_catalog_db"
                           case Query(SyllabusRag, _) => "query_syllabus_rag"
                           case Solver(ScheduleCsp, _) => "solver_schedule_csp"
                           case Solver(PrereqCheck, _) => "solver_prereq_check"
                           case Reasoning(_, template) => if template != "" then "reasoning_" + template else "reasoning"
                           case Action(tool, _) => if tool != "" then "action_" + tool else "action"
  {
    if s.work.Query? {
      QuerySuffix(s.work);
    }
  }

  lemma {:induction false} QuerySuffix(w: Work)
    requires w.Query?
    ensures Suffix(w) == match w.source
                         case Canvas => "query_canvas"
                         case DegreeDb => "query_degree_db"
                         case CatalogDb => "query_catalog_db"
                         case SyllabusRag => "query_syllabus_rag"
  {
  }

  /** Position of the first underscore. */
  ghost function FirstMark(s: string): nat {
    if s == [] || s[0] == '_' then 0 else 1 + FirstMark(s[1..])
  }

  lemma {:induction false} MarkAfter(a: string, rest: string)
    requires '_' !in a && rest != [] && rest[0] == '_'
    ensures FirstMark(a + rest) == |a|
  {
    if a == [] {
      assert a + rest == rest;
    } else {
      MarkAfter(a[1..], rest);
      assert (a + rest)[0] == a[0] && (a + rest)[1..] == a[1..] + rest;
    }
  }

  lemma {:induction false} SplitUnique(a: string, x: string, b: string, y: string)
    requires '_' !in a && '_' !in b && a + ("_" + x) == b + ("_" + y)
    ensures a == b
  {
    MarkAfter(a, "_" + x);
    MarkAfter(b, "_" + y);
    assert a == (a + ("_" + x))[..|a|] && b == (b + ("_" + y))[..|b|];
  }

  lemma {:induction false} NameSplit(s: Step)
    ensures NodeName(s)[5..] == Decimal(s.id) + ("_" + Suffix(s.work))
  {
    assert NodeName(s) == "step_" + (Decimal(s.id) + ("_" + Suffix(s.work)));
  }

  /** Steps with different ids never share a node name, whatever their suffixes contain. */
  lemma {:induction false} NodeNamesDiffer(s: Step, t: Step)
    requires NodeName(s) == NodeName(t)
    ensures s.id == t.id
  {
    hide Suffix, NodeName;
    NameSplit(s);
    NameSplit(t);
    DecimalReads(s.id);
    DecimalReads(t.id);
    SplitUnique(Decimal(s.id), Suffix(s.work), Decimal(t.id), Suffix(t.work));
  }

  // ---------------------------------------------------------------------
  // Compilation
  // ---------------------------------------------------------------------

  datatype Edge =
    | Entry(target: string)
    | Single(source: string, target: string)
    | Join(sources: seq<string>, target: string)
    | Exit(source: string)

  datatype Compiled = Compiled(nodes: map<string, Step>, edges: seq<Edge>)

  ghost function NameOf(plan: Plan, x: int): string
    requires DistinctIds(plan) && x in GraphOf(plan)
  {
    NodeName(StepOf(plan, x))
  }

  ghost function Names(plan: Plan, xs: set<int>): set<string>
    requires DistinctIds(plan) && xs <= GraphOf(plan).Keys
  {
    set x | x in xs :: NameOf(plan, x)
  }

  lemma {:induction false} NameOfStep(plan: Plan, s: Step)
    requires DistinctIds(plan) && s in plan
    ensures s.id in GraphOf(plan) && GraphOf(plan)[s.id] == s.dependsOn
    ensures StepOf(plan, s.id) == s
  {
    GraphOfRecords(plan);
    var i :| 0 <= i < |plan| && plan[i] == s;
    var t := StepOf(plan, s.id);
    var j :| 0 <= j < |plan| && plan[j] == t;
  }

  /** Node names stand for ids one to one. */
  lemma {:induction false} NamesMember(plan: Plan, x: int, xs: set<int>)
    requires DistinctIds(plan) && x in GraphOf(plan) && xs <= GraphOf(plan).Keys
    ensures NameOf(plan, x) in Names(plan, xs) <==> x in xs
  {
    if NameOf(plan, x) in Names(plan, xs) {
      var y :| y in xs && NameOf(plan, y) == NameOf(plan, x);
      NodeNamesDiffer(StepOf(plan, x), StepOf(plan, y));
    }
  }

  ghost function NamesInOrder(plan: Plan, deps: seq<int>): (names: seq<string>)
    requires DistinctIds(plan) && forall d :: d in deps ==> d in GraphOf(plan)
    ensures |names| == |deps| && forall k :: 0 <= k < |deps| ==> names[k] == NameOf(plan, deps[k])
  {
    if deps == [] then [] else [NameOf(plan, deps[0])] + NamesInOrder(plan, deps[1..])
  }

  /** The edge into a step: from the start, from its one dependency, or an AND-join. */
  ghost function Incoming(plan: Plan, s: Step): Edge
    requires DistinctIds(plan) && Closed(GraphOf(plan)) && s in plan
  {
    NameOfStep(plan, s);
    if s.dependsOn == [] then Entry(NodeName(s))
    else if |s.dependsOn| == 1 then Single(NameOf(plan, s.dependsOn[0]), NodeName(s))
    else Join(NamesInOrder(plan, s.dependsOn), NodeName(s))
  }

  ghost predicate HasDependant(plan: Plan, x: int) {
    exists i :: 0 <= i < |plan| && x in plan[i].dependsOn
  }

  /** An edge some step of the plan asks for. */
  ghost predicate OwnEdge(plan: Plan, e: Edge)
    requires DistinctIds(plan) && Closed(GraphOf(plan))
  {
    exists i :: 0 <= i < |plan| && EdgeOf(plan, plan[i], e)
  }

  ghost predicate EdgeOf(plan: Plan, s: Step, e: Edge)
    requires DistinctIds(plan) && Closed(GraphOf(plan)) && s in plan
  {
    e == Incoming(plan, s) || (e == Exit(NodeName(s)) && !HasDependant(plan, s.id))
  }

  ghost predicate NodesFrom(plan: Plan, nodes: map<string, Step>, n: nat)
    requires n <= |plan|
  {
    && (forall i :: 0 <= i < n ==> NodeName(plan[i]) in nodes && nodes[NodeName(plan[i])] == plan[i])
    && (forall name :: name in nodes ==> nodes[name] in plan[..n] && name == NodeName(nodes[name]))
  }

  ghost predicate EdgesFrom(plan: Plan, edges: seq<Edge>, n: nat)
    requires DistinctIds(plan) && Closed(GraphOf(plan)) && n <= |plan|
  {
    && (forall i {:trigger Incoming(plan, plan[i])} :: 0 <= i < n ==> Incoming(plan, plan[i]) in edges)
    && (forall i :: 0 <= i < n && !HasDependant(plan, plan[i].id) ==> Exit(NodeName(plan[i])) in edges)
    && (forall e {:trigger OwnEdge(plan, e)} :: e in edges ==> OwnEdge(plan, e))
  }

  /** One node per step, one incoming edge per step, an exit edge per leaf, and nothing else. */
  ghost predicate CompiledFrom(plan: Plan, c: Compiled)
    requires DistinctIds(plan) && Closed(GraphOf(plan))
  {
    NodesFrom(plan, c.nodes, |plan|) && EdgesFrom(plan, c.edges, |plan|)
  }

  /** The edge e is one that step s of the plan asks for, on the fields of the steps. */
  ghost predicate AskedFor(plan: Plan, s: Step, e: Edge) {
    match e
    case Entry(target) => target == NodeName(s) && s.dependsOn == []
    case Single(source, target) =>
      target == NodeName(s) && exists d :: d in plan && s.dependsOn == [d.id] && source == NodeName(d)
    case Join(sources, target) =>
      && target == NodeName(s) && |s.dependsOn| >= 2 && |sources| == |s.dependsOn|
      && forall k :: 0 <= k < |sources| ==> exists d :: d in plan && d.id == s.dependsOn[k] && sources[k] == NodeName(d)
    case Exit(source) => source == NodeName(s) && forall t :: t in plan ==> s.id !in t.dependsOn
  }

  /** The compiled graph on the fields of the steps: a node per step, and exactly the edges the steps ask for. */
  lemma {:induction false} CompiledSpelled(plan: Plan, c: Compiled)
    requires DistinctIds(plan) && Closed(GraphOf(plan)) && CompiledFrom(plan, c)
    ensures forall s :: s in plan ==> NodeName(s) in c.nodes && c.nodes[NodeName(s)] == s
    ensures forall name :: name in c.nodes ==> exists s :: s in plan && name == NodeName(s)
    ensures forall e :: e in c.edges <==> exists s :: s in plan && AskedFor(plan, s, e)
  {
    hide NodeName, AskedFor, EdgeOf, Incoming, HasDependant, OwnEdge, GraphOf;
    forall s | s in plan ensures NodeName(s) in c.nodes && c.nodes[NodeName(s)] == s {
      var i :| 0 <= i < |plan| && plan[i] == s;
    }
    forall name | name in c.nodes ensures exists s :: s in plan && name == NodeName(s) {
      assert c.nodes[name] in plan;
    }
    forall e ensures e in c.edges <==> exists s :: s in plan && AskedFor(plan, s, e) {
      EdgeSpelled(plan, c, e);
    }
  }

  lemma {:induction false} EdgeSpelled(plan: Plan, c: Compiled, e: Edge)
    requires DistinctIds(plan) && Closed(GraphOf(plan)) && CompiledFrom(plan, c)
    ensures e in c.edges <==> exists s :: s in plan && AskedFor(plan, s, e)
  {
    hide NodeName, AskedFor, Incoming, GraphOf;
    if e in c.edges {
      assert OwnEdge(plan, e);
      var i :| 0 <= i < |plan| && EdgeOf(plan, plan[i], e);
      AskedForIff(plan, plan[i], e);
    }
    if s :| s in plan && AskedFor(plan, s, e) {
      AskedForIff(plan, s, e);
      var i :| 0 <= i < |plan| && plan[i] == s;
      assert Incoming(plan, plan[i]) in c.edges;
    }
  }

  lemma {:induction false} AskedForIff(plan: Plan, s: Step, e: Edge)
    requires DistinctIds(plan) && Closed(GraphOf(plan)) && s in plan
    ensures AskedFor(plan, s, e) <==> EdgeOf(plan, s, e)
  {
    hide NodeName, GraphOf;
    NameOfStep(plan, s);
    forall d | d in s.dependsOn ensures d in GraphOf(plan) && StepOf(plan, d) in plan && StepOf(plan, d).id == d {
    }
    forall d | d in plan ensures d.id in GraphOf(plan) && StepOf(plan, d.id) == d {
      NameOfStep(plan, d);
    }
    if e.Exit? {
      assert HasDependant(plan, s.id) <==> exists t :: t in plan && s.id in t.dependsOn;
    } else if e.Join? && AskedFor(plan, s, e) {
      assert e.sources == NamesInOrder(plan, s.dependsOn);
    }
  }

  /** Compilation of a validated plan: adding a node never collides with an earlier one. */
  method CompilePlanGraph(plan: Plan) returns (c: Compiled, collided: bool)
    requires DistinctIds(plan) && Closed(GraphOf(plan))
    ensures !collided && CompiledFrom(plan, c)
  {
    var nodes, names;
    nodes, names, collided := AddNodes(plan);
    var waited := DependedUpon(plan);
    var edges: seq<Edge> := [];
    for i := 0 to |plan|
      invariant EdgesFrom(plan, edges, i)
    {
      var s := plan[i];
      var e := IncomingEdge(plan, s, names);
      var own := [e];
      if s.id !in waited {
        own := own + [Exit(NodeName(s))];
      }
      AddEdges(plan, edges, own, i);
      edges := edges + own;
    }
    c := Compiled(nodes, edges);
  }

  lemma {:induction false} AddEdges(plan: Plan, edges: seq<Edge>, own: seq<Edge>, i: nat)
    requires DistinctIds(plan) && Closed(GraphOf(plan)) && i < |plan| && EdgesFrom(plan, edges, i)
    requires own == [Incoming(plan, plan[i])]
                    + if HasDependant(plan, plan[i].id) then [] else [Exit(NodeName(plan[i]))]
    ensures EdgesFrom(plan, edges + own, i + 1)
  {
    hide Incoming, HasDependant, NodeName, GraphOf;
    assert own[0] == Incoming(plan, plan[i]);
    forall e | e in own ensures OwnEdge(plan, e) {
      assert EdgeOf(plan, plan[i], e);
    }
  }

  method AddNodes(plan: Plan) returns (nodes: map<string, Step>, names: map<int, string>, collided: bool)
    requires DistinctIds(plan)
    ensures !collided && NodesFrom(plan, nodes, |plan|)
    ensures forall j :: 0 <= j < |plan| ==> plan[j].id in names && names[plan[j].id] == NodeName(plan[j])
  {
    hide NodeName;
    nodes, names, collided := map[], map[], false;
    for i := 0 to |plan|
      invariant !collided && NodesFrom(plan, nodes, i)
      invariant forall j :: 0 <= j < i ==> plan[j].id in names && names[plan[j].id] == NodeName(plan[j])
    {
      FreshName(plan, nodes, i);
      collided := collided || NodeName(plan[i]) in nodes;
      names := names[plan[i].id := NodeName(plan[i])];
      nodes := nodes[NodeName(plan[i]) := plan[i]];
      assert plan[..i + 1] == plan[..i] + [plan[i]];
    }
  }

  lemma {:induction false} FreshName(plan: Plan, nodes: map<string, Step>, i: nat)
    requires DistinctIds(plan) && i < |plan| && NodesFrom(plan, nodes, i)
    ensures NodeName(plan[i]) !in nodes
    ensures forall j :: 0 <= j < i ==> NodeName(plan[j]) != NodeName(plan[i])
  {
    forall j | 0 <= j < i ensures NodeName(plan[j]) != NodeName(plan[i]) {
      if NodeName(plan[j]) == NodeName(plan[i]) { NodeNamesDiffer(plan[j], plan[i]); }
    }
  }

  method DependedUpon(plan: Plan) returns (waited: set<int>)
    ensures forall x :: x in waited <==> HasDependant(plan, x)
  {
    waited := {};
    for i := 0 to |plan|
      invariant forall x :: x in waited <==> exists j :: 0 <= j < i && x in plan[j].dependsOn
    {
      waited := waited + set d | d in plan[i].dependsOn;
    }
  }

  method IncomingEdge(ghost plan: Plan, s: Step, names: map<int, string>) returns (e: Edge)
    requires DistinctIds(plan) && Closed(GraphOf(plan)) && s in plan
    requires forall j :: 0 <= j < |plan| ==> plan[j].id in names && names[plan[j].id] == NodeName(plan[j])
    ensures e == Incoming(plan, s)
  {
    hide NodeName, GraphOf, NamesInOrder;
    NameOfStep(plan, s);
    forall k | 0 <= k < |s.dependsOn|
      ensures s.dependsOn[k] in GraphOf(plan) && s.dependsOn[k] in names
              && names[s.dependsOn[k]] == NameOf(plan, s.dependsOn[k])
    {
      assert s.dependsOn[k] in GraphOf(plan)[s.id];
      var t := StepOf(plan, s.dependsOn[k]);
      var j :| 0 <= j < |plan| && plan[j] == t;
    }
    if s.dependsOn == [] {
      return Entry(NodeName(s));
    } else if |s.dependsOn| == 1 {
      return Single(names[s.dependsOn[0]], NodeName(s));
    }
    var sources: seq<string> := [];
    for k := 0 to |s.dependsOn|
      invariant |sources| == k
      invariant forall l :: 0 <= l < k ==> sources[l] == NameOf(plan, s.dependsOn[l])
    {
      sources := sources + [names[s.dependsOn[k]]];
    }
    assert sources == NamesInOrder(plan, s.dependsOn);
    return Join(sources, NodeName(s));
  }

  // ---------------------------------------------------------------------
  // Superstep semantics
  // ---------------------------------------------------------------------

  /** What the runtime carries between supersteps: the nodes to fire, and what each join has seen. */
  datatype Frontier = Frontier(triggered: set<string>, seen: map<Edge, set<string>>)

  ghost function Sources(e: Edge): set<string>
    requires e.Join?
  {
    set n | n in e.sources
  }

  ghost function Arrived(f: Frontier, e: Edge): set<string>
    requires e.Join?
  {
    (if e in f.seen then f.seen[e] else {}) + f.triggered * Sources(e)
  }

  /** Does firing the triggered nodes make the edge trigger its target? */
  ghost predicate Delivers(f: Frontier, e: Edge) {
    match e
    case Single(source, _) => source in f.triggered
    case Join(_, _) => Arrived(f, e) == Sources(e)
    case _ => false
  }

  ghost function StartFrontier(c: Compiled): Frontier {
    Frontier(set e | e in c.edges && e.Entry? :: e.target, map[])
  }

  ghost function Advance(c: Compiled, f: Frontier): Frontier {
    Frontier(
      set e | e in c.edges && (e.Single? || e.Join?) && Delivers(f, e) :: e.target,
      map e | e in c.edges && e.Join? :: if Delivers(f, e) then {} else Arrived(f, e))
  }

  ghost function FrontierAt(c: Compiled, k: nat): Frontier {
    if k == 0 then StartFrontier(c) else Advance(c, FrontierAt(c, k - 1))
  }

  /** The frontier before superstep k: layer k is triggered and a join that still waits has seen
      exactly its dependencies from lower layers. */
  ghost predicate FrontierOk(plan: Plan, g: Graph, f: Frontier, k: nat)
    requires DistinctIds(plan) && g == GraphOf(plan) && Closed(g)
  {
    && Layer(g, k) <= g.Keys
    && f.triggered == Names(plan, Layer(g, k))
    && (forall s {:trigger JoinOk(plan, g, f, k, s)} :: s in plan && Incoming(plan, s).Join? ==> JoinOk(plan, g, f, k, s))
  }

  ghost predicate JoinOk(plan: Plan, g: Graph, f: Frontier, k: nat, s: Step)
    requires DistinctIds(plan) && g == GraphOf(plan) && Closed(g) && s in plan && Incoming(plan, s).Join?
  {
    var e := Incoming(plan, s);
    (if e in f.seen then f.seen[e] else {})
    == if s.id in Within(g, k + 1) then {} else Names(plan, Elems(s.dependsOn) * Within(g, k) * g.Keys)
  }

  lemma {:induction false} WithinStep(g: Graph, x: int, n: nat)
    requires x in g
    ensures x in Within(g, n + 1) <==> forall d :: d in g[x] ==> d in Within(g, n)
  {
  }

  lemma {:induction false} SourcesAreDeps(plan: Plan, s: Step)
    requires DistinctIds(plan) && Closed(GraphOf(plan)) && s in plan && Incoming(plan, s).Join?
    ensures Elems(s.dependsOn) <= GraphOf(plan).Keys
    ensures Sources(Incoming(plan, s)) == Names(plan, Elems(s.dependsOn))
  {
    NameOfStep(plan, s);
    var e := Incoming(plan, s);
    forall k | 0 <= k < |s.dependsOn| ensures s.dependsOn[k] in GraphOf(plan) && e.sources[k] == NameOf(plan, s.dependsOn[k]) {
      assert s.dependsOn[k] in GraphOf(plan)[s.id];
    }
  }

  lemma {:induction false} NamesMeet(plan: Plan, a: set<int>, b: set<int>)
    requires DistinctIds(plan) && a <= GraphOf(plan).Keys && b <= GraphOf(plan).Keys
    ensures Names(plan, a) * Names(plan, b) == Names(plan, a * b)
    ensures Names(plan, a) + Names(plan, b) == Names(plan, a + b)
    ensures Names(plan, a) == Names(plan, b) <==> a == b
  {
    forall n | n in Names(plan, a) * Names(plan, b) ensures n in Names(plan, a * b) {
      var x :| x in a && NameOf(plan, x) == n;
      NamesMember(plan, x, b);
    }
    if Names(plan, a) == Names(plan, b) {
      forall x | x in a + b ensures x in a && x in b {
        NamesMember(plan, x, a);
        NamesMember(plan, x, b);
      }
    }
  }

  lemma {:induction false} AllInside(s: seq<int>, a: set<int>, b: set<int>)
    requires Elems(s) <= b
    ensures Elems(s) * a * b == Elems(s) <==> forall d :: d in s ==> d in a
  {
    if Elems(s) * a * b == Elems(s) {
      forall d | d in s ensures d in a {
        assert d in Elems(s);
      }
    }
    if forall d :: d in s ==> d in a {
      assert Elems(s) * a * b == Elems(s);
    }
  }

  /** A join whose step sits at or below layer k is spent: it delivers nothing more. */
  lemma {:induction false} JoinSpent(plan: Plan, g: Graph, f: Frontier, k: nat, s: Step)
    requires DistinctIds(plan) && g == GraphOf(plan) && Closed(g) && s in plan && Incoming(plan, s).Join?
    requires FrontierOk(plan, g, f, k) && s.id in Within(g, k + 1)
    ensures !Delivers(f, Incoming(plan, s)) && Arrived(f, Incoming(plan, s)) == {}
    ensures s.id in Within(g, k + 2) && s.id !in Layer(g, k + 1)
  {
    hide Within, NodeName, GraphOf, NamesInOrder;
    var e, deps := Incoming(plan, s), Elems(s.dependsOn);
    NameOfStep(plan, s);
    SourcesAreDeps(plan, s);
    assert JoinOk(plan, g, f, k, s);
    WithinMonotone(g, k + 1, k + 2);
    WithinStep(g, s.id, k);
    NamesMeet(plan, Layer(g, k), deps);
    assert Layer(g, k) * deps == {};
    assert Arrived(f, e) == {};
    assert s.dependsOn[0] in deps;
    assert NameOf(plan, s.dependsOn[0]) in Sources(e);
  }

  /** A join whose step sits above layer k has seen exactly its dependencies up to layer k. */
  lemma {:induction false} JoinWaits(plan: Plan, g: Graph, f: Frontier, k: nat, s: Step)
    requires DistinctIds(plan) && g == GraphOf(plan) && Closed(g) && s in plan && Incoming(plan, s).Join?
    requires FrontierOk(plan, g, f, k) && s.id !in Within(g, k + 1)
    ensures Arrived(f, Incoming(plan, s)) == Names(plan, Elems(s.dependsOn) * Within(g, k + 1) * g.Keys)
    ensures Delivers(f, Incoming(plan, s)) <==> s.id in Within(g, k + 2)
  {
    hide Within, NodeName, GraphOf, NamesInOrder;
    var e, deps := Incoming(plan, s), Elems(s.dependsOn);
    NameOfStep(plan, s);
    SourcesAreDeps(plan, s);
    assert JoinOk(plan, g, f, k, s);
    WithinMonotone(g, k, k + 1);
    WithinStep(g, s.id, k + 1);
    NamesMeet(plan, Layer(g, k), deps);
    NamesMeet(plan, deps * Within(g, k) * g.Keys, Layer(g, k) * deps);
    assert deps * Within(g, k) * g.Keys + Layer(g, k) * deps == deps * Within(g, k + 1) * g.Keys;
    assert Arrived(f, e) == Names(plan, deps * Within(g, k + 1) * g.Keys);
    NamesMeet(plan, deps * Within(g, k + 1) * g.Keys, deps);
    assert Delivers(f, e) <==> deps * Within(g, k + 1) * g.Keys == deps;
    AllInside(s.dependsOn, Within(g, k + 1), g.Keys);
  }

  /** A join delivers exactly when its step is in the next layer. */
  lemma {:induction false} JoinStep(plan: Plan, g: Graph, f: Frontier, k: nat, s: Step)
    requires DistinctIds(plan) && g == GraphOf(plan) && Closed(g) && s in plan && Incoming(plan, s).Join?
    requires FrontierOk(plan, g, f, k)
    ensures Delivers(f, Incoming(plan, s)) <==> s.id in Layer(g, k + 1)
    ensures (if Delivers(f, Incoming(plan, s)) then {} else Arrived(f, Incoming(plan, s)))
            == if s.id in Within(g, k + 2) then {} else Names(plan, Elems(s.dependsOn) * Within(g, k + 1) * g.Keys)
  {
    hide Within, GraphOf, Incoming, FrontierOk, Delivers, Arrived, Names;
    if s.id in Within(g, k + 1) {
      JoinSpent(plan, g, f, k, s);
    } else {
      JoinWaits(plan, g, f, k, s);
    }
  }

  /** A single edge passes the trigger on from layer k to layer k + 1. */
  lemma {:induction false} SingleStep(plan: Plan, g: Graph, f: Frontier, k: nat, s: Step)
    requires DistinctIds(plan) && g == GraphOf(plan) && Closed(g) && s in plan && Incoming(plan, s).Single?
    requires FrontierOk(plan, g, f, k)
    ensures Delivers(f, Incoming(plan, s)) <==> s.id in Layer(g, k + 1)
  {
    hide Within, NodeName, GraphOf;
    NameOfStep(plan, s);
    var d := s.dependsOn[0];
    assert d in g[s.id];
    NamesMember(plan, d, Layer(g, k));
    WithinStep(g, s.id, k);
    WithinStep(g, s.id, k + 1);
    assert forall y :: y in s.dependsOn <==> y == d;
  }

  lemma {:induction false} IncomingTarget(plan: Plan, s: Step)
    requires DistinctIds(plan) && Closed(GraphOf(plan)) && s in plan
    ensures s.id in GraphOf(plan) && GraphOf(plan)[s.id] == s.dependsOn
    ensures !Incoming(plan, s).Exit? && Incoming(plan, s).target == NodeName(s) == NameOf(plan, s.id)
    ensures Incoming(plan, s).Entry? <==> s.dependsOn == []
  {
    NameOfStep(plan, s);
  }

  lemma {:induction false} RootsAreLayerZero(g: Graph, x: int)
    requires x in g
    ensures x in Layer(g, 0) <==> g[x] == []
    ensures g[x] == [] ==> forall k: nat :: k > 0 ==> x !in Layer(g, k)
  {
    WithinStep(g, x, 0);
    WithinZero(g);
    if g[x] == [] {
      forall k: nat | k > 0 ensures x !in Layer(g, k) {
        WithinMonotone(g, 1, k);
      }
    } else {
      var d := g[x][0];
      assert d in g[x] && d !in Within(g, 0);
      assert x !in Within(g, 0 + 1);
    }
  }

  lemma {:induction false} FrontierStarts(plan: Plan, c: Compiled)
    requires DistinctIds(plan) && Closed(GraphOf(plan)) && CompiledFrom(plan, c)
    ensures FrontierOk(plan, GraphOf(plan), StartFrontier(c), 0)
  {
    hide Within, NodeName, GraphOf, NamesInOrder, Incoming, CompiledFrom;
    var g, f := GraphOf(plan), StartFrontier(c);
    WithinMonotone(g, 0, 1);
    forall n | n in f.triggered ensures n in Names(plan, Layer(g, 0)) {
      StartSound(plan, c, n);
    }
    forall n | n in Names(plan, Layer(g, 0)) ensures n in f.triggered {
      var x :| x in Layer(g, 0) && n == NameOf(plan, x);
      StartComplete(plan, c, x);
    }
    forall s | s in plan && Incoming(plan, s).Join? ensures JoinOk(plan, g, f, 0, s) {
      WithinZero(g);
      assert Elems(s.dependsOn) * Within(g, 0) * g.Keys == {};
      assert Names(plan, {}) == {};
    }
  }

  lemma {:induction false} StartSound(plan: Plan, c: Compiled, n: string)
    requires DistinctIds(plan) && Closed(GraphOf(plan)) && CompiledFrom(plan, c)
    requires n in StartFrontier(c).triggered
    ensures Layer(GraphOf(plan), 0) <= GraphOf(plan).Keys
    ensures n in Names(plan, Layer(GraphOf(plan), 0))
  {
    hide Within, NodeName, GraphOf, NamesInOrder, Incoming, Layer, NameOf, NodesFrom, HasDependant, Names;
    assert Layer(GraphOf(plan), 0) <= GraphOf(plan).Keys by { LayerInGraph(GraphOf(plan), 0); }
    var e :| e in c.edges && e.Entry? && e.target == n;
    assert OwnEdge(plan, e);
    var i :| 0 <= i < |plan| && EdgeOf(plan, plan[i], e);
    IncomingTarget(plan, plan[i]);
    RootsAreLayerZero(GraphOf(plan), plan[i].id);
    NamesMember(plan, plan[i].id, Layer(GraphOf(plan), 0));
  }

  lemma {:induction false} StartComplete(plan: Plan, c: Compiled, x: int)
    requires DistinctIds(plan) && Closed(GraphOf(plan)) && CompiledFrom(plan, c)
    requires x in GraphOf(plan) && x in Layer(GraphOf(plan), 0)
    ensures NameOf(plan, x) in StartFrontier(c).triggered
  {
    hide Within, NodeName, GraphOf, NamesInOrder, Incoming, Layer, NameOf;
    var i := IndexOf(plan, x);
    IncomingTarget(plan, plan[i]);
    RootsAreLayerZero(GraphOf(plan), x);
    assert Incoming(plan, plan[i]) in c.edges;
  }

  lemma {:induction false} IndexOf(plan: Plan, x: int) returns (i: nat)
    requires DistinctIds(plan) && x in GraphOf(plan)
    ensures i < |plan| && plan[i] == StepOf(plan, x) && plan[i].id == x
  {
    var s := StepOf(plan, x);
    i :| 0 <= i < |plan| && plan[i] == s;
  }

  lemma {:induction false} LayerInGraph(g: Graph, k: nat)
    ensures Layer(g, k) <= g.Keys
  {
    WithinMonotone(g, k, k + 1);
  }

  lemma {:induction false} WithinZero(g: Graph)
    ensures Within(g, 0) == {}
  {
  }

  lemma {:induction false} EdgeStep(plan: Plan, g: Graph, f: Frontier, k: nat, s: Step)
    requires DistinctIds(plan) && g == GraphOf(plan) && Closed(g) && s in plan
    requires FrontierOk(plan, g, f, k)
    ensures s.id in g
    ensures Delivers(f, Incoming(plan, s)) <==> s.id in Layer(g, k + 1)
  {
    hide Within, NodeName, GraphOf, NamesInOrder, Incoming;
    NameOfStep(plan, s);
    IncomingTarget(plan, s);
    RootsAreLayerZero(g, s.id);
    if Incoming(plan, s).Join? {
      JoinStep(plan, g, f, k, s);
    } else if Incoming(plan, s).Single? {
      SingleStep(plan, g, f, k, s);
    }
  }

  lemma {:induction false} FrontierAdvances(plan: Plan, c: Compiled, f: Frontier, k: nat)
    requires DistinctIds(plan) && Closed(GraphOf(plan)) && CompiledFrom(plan, c)
    requires FrontierOk(plan, GraphOf(plan), f, k)
    ensures FrontierOk(plan, GraphOf(plan), Advance(c, f), k + 1)
  {
    hide Within, NodeName, GraphOf, NamesInOrder, Incoming, Delivers, FrontierOk, CompiledFrom, JoinOk, Advance;
    var g, f' := GraphOf(plan), Advance(c, f);
    LayerInGraph(g, k + 1);
    forall n | n in f'.triggered ensures n in Names(plan, Layer(g, k + 1)) {
      AdvanceSound(plan, c, f, k, n);
    }
    forall n | n in Names(plan, Layer(g, k + 1)) ensures n in f'.triggered {
      var x :| x in Layer(g, k + 1) && n == NameOf(plan, x);
      AdvanceComplete(plan, c, f, k, x);
    }
    assert f'.triggered == Names(plan, Layer(g, k + 1));
    forall s | s in plan && Incoming(plan, s).Join? ensures JoinOk(plan, g, f', k + 1, s) {
      JoinAdvances(plan, c, f, k, s);
    }
    FrontierOkIntro(plan, g, f', k + 1);
  }

  lemma {:induction false} EdgeOwner(plan: Plan, c: Compiled, e: Edge) returns (i: nat)
    requires DistinctIds(plan) && Closed(GraphOf(plan)) && CompiledFrom(plan, c)
    requires e in c.edges && !e.Exit?
    ensures i < |plan| && e == Incoming(plan, plan[i])
  {
    hide GraphOf, NodeName, Incoming, NodesFrom, HasDependant;
    assert OwnEdge(plan, e);
    i :| 0 <= i < |plan| && EdgeOf(plan, plan[i], e);
  }

  lemma {:induction false} AdvanceSound(plan: Plan, c: Compiled, f: Frontier, k: nat, n: string)
    requires DistinctIds(plan) && Closed(GraphOf(plan)) && CompiledFrom(plan, c)
    requires FrontierOk(plan, GraphOf(plan), f, k) && n in Advance(c, f).triggered
    ensures Layer(GraphOf(plan), k + 1) <= GraphOf(plan).Keys
    ensures n in Names(plan, Layer(GraphOf(plan), k + 1))
  {
    hide *;
    LayerInGraph(GraphOf(plan), k + 1);
    var e := DeliveredBy(c, f, n);
    var i := EdgeOwner(plan, c, e);
    IncomingTarget(plan, plan[i]);
    EdgeStep(plan, GraphOf(plan), f, k, plan[i]);
    NamesMember(plan, plan[i].id, Layer(GraphOf(plan), k + 1));
  }

  lemma {:induction false} DeliveredBy(c: Compiled, f: Frontier, n: string) returns (e: Edge)
    requires n in Advance(c, f).triggered
    ensures e in c.edges && (e.Single? || e.Join?) && Delivers(f, e) && e.target == n
  {
    hide Delivers;
    e :| e in c.edges && (e.Single? || e.Join?) && Delivers(f, e) && e.target == n;
  }

  lemma {:induction false} AdvanceComplete(plan: Plan, c: Compiled, f: Frontier, k: nat, x: int)
    requires DistinctIds(plan) && Closed(GraphOf(plan)) && CompiledFrom(plan, c)
    requires FrontierOk(plan, GraphOf(plan), f, k)
    requires x in GraphOf(plan) && x in Layer(GraphOf(plan), k + 1)
    ensures NameOf(plan, x) in Advance(c, f).triggered
  {
    hide Within, NodeName, GraphOf, NamesInOrder, Incoming, Layer, NameOf, Delivers, FrontierOk;
    var i := IndexOf(plan, x);
    IncomingTarget(plan, plan[i]);
    RootsAreLayerZero(GraphOf(plan), x);
    EdgeStep(plan, GraphOf(plan), f, k, plan[i]);
    assert Incoming(plan, plan[i]) in c.edges;
  }

  lemma {:induction false} JoinAdvances(plan: Plan, c: Compiled, f: Frontier, k: nat, s: Step)
    requires DistinctIds(plan) && Closed(GraphOf(plan)) && CompiledFrom(plan, c)
    requires FrontierOk(plan, GraphOf(plan), f, k) && s in plan && Incoming(plan, s).Join?
    ensures JoinOk(plan, GraphOf(plan), Advance(c, f), k + 1, s)
  {
    hide Within, NodeName, GraphOf, NamesInOrder, Incoming, FrontierOk, Delivers, Arrived;
    var i :| 0 <= i < |plan| && plan[i] == s;
    assert Incoming(plan, plan[i]) in c.edges;
    JoinStep(plan, GraphOf(plan), f, k, s);
  }

  lemma {:induction false} FrontierOkIntro(plan: Plan, g: Graph, f: Frontier, k: nat)
    requires DistinctIds(plan) && g == GraphOf(plan) && Closed(g) && Layer(g, k) <= g.Keys
    requires f.triggered == Names(plan, Layer(g, k))
    requires forall s {:trigger JoinOk(plan, g, f, k, s)} :: s in plan && Incoming(plan, s).Join? ==> JoinOk(plan, g, f, k, s)
    ensures FrontierOk(plan, g, f, k)
  {
  }

  /** Superstep k fires exactly layer k, for every validated plan and every k. */
  lemma {:induction false} SuperstepIsLayer(plan: Plan, c: Compiled, k: nat)
    requires DistinctIds(plan) && Closed(GraphOf(plan)) && CompiledFrom(plan, c)
    ensures Layer(GraphOf(plan), k) <= GraphOf(plan).Keys
    ensures FrontierOk(plan, GraphOf(plan), FrontierAt(c, k), k)
    ensures FrontierAt(c, k).triggered == Names(plan, Layer(GraphOf(plan), k))
    decreases k
  {
    hide Within, NodeName, GraphOf, NamesInOrder, Incoming, StartFrontier, Advance;
    if k == 0 {
      FrontierStarts(plan, c);
    } else {
      SuperstepIsLayer(plan, c, k - 1);
      FrontierAdvances(plan, c, FrontierAt(c, k - 1), k - 1);
    }
  }
}

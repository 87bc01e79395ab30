/** When the parallel run of a plan is the same as any sequential one, and how far a failing step reaches. */
module PlanConfluence {
  import opened Graphs
  import opened PlanSchema
  import opened PlanCompiler
  import opened PlanExecution

  /** An order in which the steps could be run one after the other. */
  ghost predicate SequentialOrder(plan: Plan, order: seq<int>) {
    Topological(GraphOf(plan), order) && Elems(order) == GraphOf(plan).Keys
  }

  ghost function SeqOutputs(plan: Plan, handlers: Handlers, order: seq<int>): map<int, Value>
    requires DistinctIds(plan) && forall i :: 0 <= i < |order| ==> order[i] in GraphOf(plan)
  {
    if order == [] then map[] else
      var n := |order| - 1;
      var before := SeqOutputs(plan, handlers, order[..n]);
      before[order[n] := Dispatch(handlers, StepOf(plan, order[n]), before)]
  }

  // ---------------------------------------------------------------------
  // Both runs start a step from a fair view
  // ---------------------------------------------------------------------

  lemma {:induction false} SeqKeys(plan: Plan, handlers: Handlers, order: seq<int>)
    requires DistinctIds(plan) && forall i :: 0 <= i < |order| ==> order[i] in GraphOf(plan)
    ensures SeqOutputs(plan, handlers, order).Keys == Elems(order)
  {
    hide GraphOf, Dispatch;
    if order != [] {
      var n := |order| - 1;
      SeqKeys(plan, handlers, order[..n]);
      assert order == order[..n] + [order[n]];
    }
  }

  lemma {:induction false} SeqStable(plan: Plan, handlers: Handlers, order: seq<int>, i: nat, x: int)
    requires DistinctIds(plan) && forall j :: 0 <= j < |order| ==> order[j] in GraphOf(plan)
    requires Distinct(order) && i <= |order| && x in order[..i]
    ensures x in SeqOutputs(plan, handlers, order[..i]) && x in SeqOutputs(plan, handlers, order)
    ensures SeqOutputs(plan, handlers, order)[x] == SeqOutputs(plan, handlers, order[..i])[x]
    decreases |order| - i
  {
    hide GraphOf, Dispatch;
    SeqKeys(plan, handlers, order[..i]);
    assert x in Elems(order[..i]);
    if i == |order| {
      assert order[..i] == order;
    } else {
      assert order[..i + 1][..i] == order[..i];
      SeqStable(plan, handlers, order, i + 1, x);
      var j :| 0 <= j < i && order[j] == x;
      assert order[i] != x;
    }
  }

  lemma {:induction false} SeqView(plan: Plan, handlers: Handlers, order: seq<int>, i: nat)
    requires DistinctIds(plan) && Topological(GraphOf(plan), order) && i < |order|
    ensures ViewFor(GraphOf(plan), order[i], SeqOutputs(plan, handlers, order[..i]))
    ensures order[i] in SeqOutputs(plan, handlers, order)
    ensures SeqOutputs(plan, handlers, order)[order[i]]
            == Dispatch(handlers, StepOf(plan, order[i]), SeqOutputs(plan, handlers, order[..i]))
  {
    hide GraphOf, Dispatch;
    var g, x, view := GraphOf(plan), order[i], SeqOutputs(plan, handlers, order[..i]);
    SeqKeys(plan, handlers, order[..i]);
    assert order[..i + 1][..i] == order[..i];
    SeqStable(plan, handlers, order, i + 1, x);
    forall y | DependsOn(g, x, y) ensures y in view {
      TopologicalDepends(g, order, i, y);
      assert y in Elems(order[..i]);
    }
    forall y | y in view ensures !NeverBefore(g, x, y) {
      assert y in Elems(order[..i]);
      var j :| 0 <= j < i && order[j] == y;
      if DependsOn(g, y, x) { TopologicalDepends(g, order, j, x); }
    }
  }

  lemma {:induction false} LayerOutputsKeep(plan: Plan, handlers: Handlers, x: int, k: nat)
    requires DistinctIds(plan) && x in Within(GraphOf(plan), k)
    ensures x in LayerOutputs(plan, handlers, k) && x in LayerOutputs(plan, handlers, k + 1)
    ensures LayerOutputs(plan, handlers, k + 1)[x] == LayerOutputs(plan, handlers, k)[x]
  {
    hide Within, GraphOf, Dispatch;
    LayerOutputsKeys(plan, handlers, k);
  }

  lemma {:induction false} LayerOutputsStable(plan: Plan, handlers: Handlers, x: int, j: nat, k: nat)
    requires DistinctIds(plan) && j <= k && x in Within(GraphOf(plan), j)
    ensures x in LayerOutputs(plan, handlers, j) && x in LayerOutputs(plan, handlers, k)
    ensures LayerOutputs(plan, handlers, k)[x] == LayerOutputs(plan, handlers, j)[x]
    decreases k
  {
    hide Within, GraphOf, LayerOutputs;
    if j < k {
      LayerOutputsStable(plan, handlers, x, j, k - 1);
      WithinMonotone(GraphOf(plan), j, k - 1);
      LayerOutputsKeep(plan, handlers, x, k - 1);
    } else {
      LayerOutputsKeys(plan, handlers, j);
    }
  }

  lemma {:induction false} LayerOutputsNext(plan: Plan, handlers: Handlers, x: int, k: nat)
    requires DistinctIds(plan) && x in Layer(GraphOf(plan), k)
    ensures x in GraphOf(plan) && x in LayerOutputs(plan, handlers, k + 1)
    ensures LayerOutputs(plan, handlers, k + 1)[x]
            == Dispatch(handlers, StepOf(plan, x), LayerOutputs(plan, handlers, k))
  {
    hide Within, GraphOf, Dispatch;
    WithinMonotone(GraphOf(plan), k, k + 1);
  }

  lemma {:induction false} LayerView(plan: Plan, handlers: Handlers, x: int, k: nat)
    requires DistinctIds(plan) && x in Layer(GraphOf(plan), k)
    ensures x in GraphOf(plan) && ViewFor(GraphOf(plan), x, LayerOutputs(plan, handlers, k))
    ensures x in LayerOutputs(plan, handlers, k + 1)
    ensures LayerOutputs(plan, handlers, k + 1)[x]
            == Dispatch(handlers, StepOf(plan, x), LayerOutputs(plan, handlers, k))
  {
    hide Within, GraphOf, Dispatch, LayerOutputs;
    var g, view := GraphOf(plan), LayerOutputs(plan, handlers, k);
    LayerOutputsNext(plan, handlers, x, k);
    LayerOutputsKeys(plan, handlers, k);
    WithinMonotone(g, k, k + 1);
    forall y | DependsOn(g, x, y) ensures y in view {
      WithinDepends(g, x, y, k + 1);
    }
    forall y | y in view ensures !NeverBefore(g, x, y) {
      if DependsOn(g, y, x) {
        WithinDepends(g, y, x, k);
        WithinMonotone(g, k - 1, k);
      }
    }
  }

  // ---------------------------------------------------------------------
  // Confluence
  // ---------------------------------------------------------------------

  /** With settled references, the parallel run and any sequential run write the same outputs. */
  lemma {:induction false} SequentialAgrees(plan: Plan, handlers: Handlers, order: seq<int>, x: int, k: nat)
    requires ValidPlan(plan) && RefsSettled(plan) && SequentialOrder(plan, order)
    requires x in Within(GraphOf(plan), k)
    ensures x in SeqOutputs(plan, handlers, order) && x in LayerOutputs(plan, handlers, k)
    ensures SeqOutputs(plan, handlers, order)[x] == LayerOutputs(plan, handlers, k)[x]
    decreases k
  {
    hide Within, GraphOf, Dispatch, RefsSettled, SeqOutputs, LayerOutputs, ViewFor, Acyclic, Closed;
    var g := GraphOf(plan);
    WithinMonotone(g, 0, k);
    assert x in Elems(order);
    var i :| 0 <= i < |order| && order[i] == x;
    SeqView(plan, handlers, order, i);
    WithinZero(g);
    if x in Within(g, k - 1) {
      SequentialAgrees(plan, handlers, order, x, k - 1);
      LayerOutputsStable(plan, handlers, x, k - 1, k);
    } else {
      LayerView(plan, handlers, x, k - 1);
      var a, b := SeqOutputs(plan, handlers, order[..i]), LayerOutputs(plan, handlers, k - 1);
      LayerOutputsKeys(plan, handlers, k - 1);
      forall y | DependsOn(g, x, y) ensures y in a && y in b && a[y] == b[y] {
        WithinDepends(g, x, y, k);
        TopologicalDepends(g, order, i, y);
        SequentialAgrees(plan, handlers, order, y, k - 1);
        SeqKeys(plan, handlers, order[..i]);
        SeqStable(plan, handlers, order, i, y);
      }
      DispatchAgrees(plan, handlers, x, a, b);
    }
  }

  /** The parallel outputs do not depend on running in parallel. */
  ghost predicate OrderIndependent(plan: Plan)
    requires ValidPlan(plan)
  {
    forall handlers: Handlers, order: seq<int> | SequentialOrder(plan, order) ::
      SeqOutputs(plan, handlers, order) == LayerOutputs(plan, handlers, |plan|)
  }

  /** The first reference, left to right, whose availability the dependencies leave open. */
  ghost function FirstLoose(g: Graph, x: int, args: Args, strict: bool): int
    requires !Settled(g, x, args, strict)
  {
    match args[0].1
    case Ref(n) => if DependsOn(g, x, n) then FirstLoose(g, x, args[1..], strict) else n
    case _ => FirstLoose(g, x, args[1..], strict)
  }

  /** That reference belongs to an unrelated step, and its presence decides whether resolution fails on it. */
  lemma {:induction false} LooseDecides(g: Graph, x: int, args: Args, strict: bool, view: map<int, Value>)
    requires !Settled(g, x, args, strict) && ViewFor(g, x, view)
    ensures var n := FirstLoose(g, x, args, strict);
            && !NeverBefore(g, x, n) && !DependsOn(g, x, n)
            && (Resolve(args, view, strict) == Unresolved(MissingStep(n)) <==> n !in view)
  {
    match args[0].1
    case Ref(n) =>
      if DependsOn(g, x, n) { LooseDecides(g, x, args[1..], strict, view); }
      else if n in view { MissingIsAbsent(args, view, strict, n); }
    case _ => LooseDecides(g, x, args[1..], strict, view);
  }

  lemma {:induction false} MissingIsAbsent(args: Args, view: map<int, Value>, strict: bool, n: int)
    requires n in view
    ensures Resolve(args, view, strict) != Unresolved(MissingStep(n))
  {
    if args != [] { MissingIsAbsent(args[1..], view, strict, n); }
  }

  lemma {:induction false} SomeUnblocked(g: Graph, u: set<int>)
    requires Closed(g) && Acyclic(g) && u != {} && u <= g.Keys
    ensures exists x :: x in u && !WaitsInside(g, u, x)
  {
    Inhabited(u);
    var y :| y in u;
    if forall x :: x in u ==> WaitsInside(g, u, x) { StuckSetHasCycle(g, u, y); }
  }

  lemma {:induction false} AppendUnblocked(g: Graph, start: seq<int>, x: int)
    requires Topological(g, start) && x in g && x !in start
    requires forall d :: d in g[x] ==> d in start
    ensures Topological(g, start + [x]) && Elems(start + [x]) == Elems(start) + {x}
  {
    var longer := start + [x];
    forall i | 0 <= i < |longer| ensures DepsBefore(g, longer, i) {
      if i < |start| {
        assert longer[..i] == start[..i] && DepsBefore(g, start, i);
      } else {
        assert longer[..i] == start;
      }
    }
  }

  ghost predicate DownClosed(g: Graph, s: set<int>) {
    s <= g.Keys && forall x, d :: x in s && d in g[x] ==> d in s
  }

  lemma {:induction false} ExtendOrder(g: Graph, start: seq<int>, within: set<int>) returns (order: seq<int>)
    requires Closed(g) && Acyclic(g) && Topological(g, start)
    requires DownClosed(g, within) && Elems(start) <= within
    ensures Topological(g, order) && Elems(order) == within && start <= order
    decreases within - Elems(start)
  {
    hide Acyclic, Closed, Topological;
    var u := within - Elems(start);
    if u == {} {
      SubsetMissing(within, Elems(start));
      order := start;
    } else {
      SomeUnblocked(g, u);
      var x :| x in u && !WaitsInside(g, u, x);
      AppendUnblocked(g, start, x);
      order := ExtendOrder(g, start + [x], within);
    }
  }

  /** A sequential order that runs x, and before it only what x depends on, ahead of everything else. */
  lemma {:induction false} EagerOrder(plan: Plan, x: int) returns (order: seq<int>, i: nat)
    requires ValidPlan(plan) && x in GraphOf(plan)
    ensures SequentialOrder(plan, order) && i < |order| && order[i] == x
    ensures forall j :: 0 <= j < i ==> DependsOn(GraphOf(plan), x, order[j])
  {
    hide GraphOf;
    var g := GraphOf(plan);
    var below := set y | y in g && (y == x || DependsOn(g, x, y));
    assert DownClosed(g, below) by {
      forall y, d | y in below && d in g[y] ensures d in below {
        DependsDirect(g, y, d);
        if y != x { DependsTransitive(g, x, y, d); }
      }
    }
    assert Elems([]) <= below;
    var first := ExtendOrder(g, [], below);
    order := ExtendOrder(g, first, g.Keys);
    assert x in Elems(first);
    var k :| 0 <= k < |first| && first[k] == x;
    i := k;
    forall j | 0 <= j < i ensures DependsOn(g, x, order[j]) {
      assert order[j] == first[j] && first[j] in Elems(first);
    }
  }

  const Succeed: Handlers := (step: Step, inputs: Inputs) => Done(0)

  /** With handlers that always succeed, a loose reference decides the step's result. */
  lemma {:induction false} LooseDispatch(plan: Plan, x: int, view: map<int, Value>) returns (n: int)
    requires DistinctIds(plan) && x in GraphOf(plan) && ViewFor(GraphOf(plan), x, view)
    requires !Settled(GraphOf(plan), x, Reads(StepOf(plan, x).work), Strict(StepOf(plan, x).work))
    ensures n == FirstLoose(GraphOf(plan), x, Reads(StepOf(plan, x).work), Strict(StepOf(plan, x).work))
    ensures !NeverBefore(GraphOf(plan), x, n) && !DependsOn(GraphOf(plan), x, n)
    ensures Dispatch(Succeed, StepOf(plan, x), view) == Raised(MissingStep(n)) <==> n !in view
  {
    hide GraphOf, Resolve;
    var s := StepOf(plan, x);
    n := FirstLoose(GraphOf(plan), x, Reads(s.work), Strict(s.work));
    LooseDecides(GraphOf(plan), x, Reads(s.work), Strict(s.work), view);
  }

  /** With one loose reference some sequential run differs from the parallel one. */
  lemma {:induction false} LooseRefDisagrees(plan: Plan, x: int) returns (order: seq<int>)
    requires ValidPlan(plan) && x in GraphOf(plan)
    requires !Settled(GraphOf(plan), x, Reads(StepOf(plan, x).work), Strict(StepOf(plan, x).work))
    ensures SequentialOrder(plan, order)
    ensures SeqOutputs(plan, Succeed, order) != LayerOutputs(plan, Succeed, |plan|)
  {
    hide GraphOf, Within, Resolve, Dispatch, LayerOutputs, SeqOutputs, Settled, ViewFor, Acyclic, Closed;
    var k := LayerOf(plan, x);
    LayerView(plan, Succeed, x, k);
    LayerOutputsStable(plan, Succeed, x, k + 1, |plan|);
    var view := LayerOutputs(plan, Succeed, k);
    var n := LooseDispatch(plan, x, view);
    var i: nat;
    if n in view {
      order, i := EagerOrder(plan, x);
      assert n !in order[..i];
    } else {
      order, i := LateOrder(plan, n, x);
    }
    SeqView(plan, Succeed, order, i);
    SeqKeys(plan, Succeed, order[..i]);
    var n' := LooseDispatch(plan, x, SeqOutputs(plan, Succeed, order[..i]));
    assert n in SeqOutputs(plan, Succeed, order[..i]) <==> n in Elems(order[..i]);
  }

  /** A sequential order that runs n before the unrelated x. */
  lemma {:induction false} LateOrder(plan: Plan, n: int, x: int) returns (order: seq<int>, i: nat)
    requires ValidPlan(plan) && x in GraphOf(plan) && n in GraphOf(plan) && n != x && !DependsOn(GraphOf(plan), n, x)
    ensures SequentialOrder(plan, order) && i < |order| && order[i] == x && n in order[..i]
  {
    hide GraphOf;
    var m;
    order, m := EagerOrder(plan, n);
    assert x in Elems(order);
    i :| 0 <= i < |order| && order[i] == x;
    assert i > m;
    assert order[..i][m] == n;
  }

  lemma {:induction false} LayerOf(plan: Plan, x: int) returns (k: nat)
    requires ValidPlan(plan) && x in GraphOf(plan)
    ensures x in Layer(GraphOf(plan), k) && k < |plan|
    ensures x in Within(GraphOf(plan), k + 1)
  {
    hide GraphOf, Within;
    ValidatedPlansLayer(plan);
    k := |plan|;
    WithinZero(GraphOf(plan));
    while x in Within(GraphOf(plan), k)
      invariant k <= |plan| && (k == |plan| || x in Within(GraphOf(plan), k + 1))
      invariant k == |plan| ==> x in Within(GraphOf(plan), k)
      decreases k
    {
      k := k - 1;
    }
  }

  /** The parallel run equals every sequential run, for all handlers, exactly when each reference a
      step reads is to one of its transitive dependencies or comes after one that can never be there. */
  lemma {:induction false} OrderIndependentIff(plan: Plan)
    requires ValidPlan(plan)
    ensures OrderIndependent(plan) <==> RefsSettled(plan)
  {
    hide GraphOf, Within, Settled, SeqOutputs, LayerOutputs;
    if RefsSettled(plan) {
      forall handlers: Handlers, order: seq<int> | SequentialOrder(plan, order)
        ensures SeqOutputs(plan, handlers, order) == LayerOutputs(plan, handlers, |plan|)
      {
        var a, b := SeqOutputs(plan, handlers, order), LayerOutputs(plan, handlers, |plan|);
        ValidatedPlansLayer(plan);
        LayerOutputsKeys(plan, handlers, |plan|);
        SeqKeys(plan, handlers, order);
        forall x | x in b ensures x in a && a[x] == b[x] {
          SequentialAgrees(plan, handlers, order, x, |plan|);
        }
        assert a.Keys == b.Keys;
      }
    } else {
      var s :| s in plan && !Settled(GraphOf(plan), s.id, Reads(s.work), Strict(s.work));
      NameOfStep(plan, s);
      var order := LooseRefDisagrees(plan, s.id);
    }
  }

  /** The validator does not look at references: this two-step plan is valid, yet its second step reads the
      first without depending on it, so running the first step earlier changes the second one's output. */
  lemma {:induction false} ValidatorAllowsLooseRefs(zero: Step, one: Step)
    requires zero == Step(0, [], Query(Canvas, []))
    requires one == Step(1, [], Query(CatalogDb, [("term", Ref(0))]))
    ensures ValidPlan([zero, one]) && !RefsSettled([zero, one]) && !OrderIndependent([zero, one])
  {
    var plan := [zero, one];
    assert plan[..1] == [zero] && [zero][..0] == [];
    var g := GraphOf(plan);
    assert GraphOf([]) == map[];
    assert GraphOf([zero]) == GraphOf([zero][..0])[0 := []];
    assert g == GraphOf(plan[..1])[1 := []];
    assert g == map[0 := [], 1 := []];
    forall x, y | DependsOn(g, x, y) ensures false {
      var d := DependsFirstHop(g, x, y);
    }
    assert one in plan && !Settled(g, 1, Reads(one.work), Strict(one.work));
    OrderIndependentIff(plan);
  }

  /** Once everything has fired, further levels add nothing. */
  lemma {:induction false} LayerOutputsSettle(plan: Plan, handlers: Handlers, m: nat, n: nat)
    requires DistinctIds(plan)
    requires Within(GraphOf(plan), m) == Within(GraphOf(plan), n) == GraphOf(plan).Keys
    ensures LayerOutputs(plan, handlers, m) == LayerOutputs(plan, handlers, n)
  {
    hide Within, GraphOf, Dispatch, LayerOutputs;
    LayerOutputsKeys(plan, handlers, m);
    LayerOutputsKeys(plan, handlers, n);
    forall x | x in LayerOutputs(plan, handlers, m)
      ensures x in LayerOutputs(plan, handlers, n)
              && LayerOutputs(plan, handlers, m)[x] == LayerOutputs(plan, handlers, n)[x]
    {
      if m <= n { LayerOutputsStable(plan, handlers, x, m, n); } else { LayerOutputsStable(plan, handlers, x, n, m); }
    }
  }

  /** Any two complete runs of a compiled plan end with the same outputs, whatever their merge
      orders; and with settled references these are the outputs of any sequential run. */
  lemma {:induction false} ParallelRunConfluent(plan: Plan, c: Compiled, handlers: Handlers, orders: seq<seq<string>>,
                                                others: seq<seq<string>>, order: seq<int>)
    requires ValidPlan(plan) && CompiledFrom(plan, c)
    requires IsCompleteRun(c, orders) && IsCompleteRun(c, others) && SequentialOrder(plan, order)
    ensures RunAfter(c, handlers, orders).outputs == RunAfter(c, handlers, others).outputs
    ensures RefsSettled(plan) ==> RunAfter(c, handlers, orders).outputs == SeqOutputs(plan, handlers, order)
  {
    hide Within, GraphOf, Dispatch, LayerOutputs, SeqOutputs, RunAfter, RefsSettled, FrontierAt, CompiledFrom;
    ValidatedPlansLayer(plan);
    RunOutputs(plan, c, handlers, orders);
    RunOutputs(plan, c, handlers, others);
    CompleteRun(plan, c, handlers, orders);
    CompleteRun(plan, c, handlers, others);
    LayerOutputsSettle(plan, handlers, |orders|, |plan|);
    LayerOutputsSettle(plan, handlers, |others|, |plan|);
    OrderIndependentIff(plan);
  }

  // ---------------------------------------------------------------------
  // Failure containment
  // ---------------------------------------------------------------------

  /** Handlers that differ, if at all, on one step only: one of them may fail there. */
  ghost predicate DifferOnlyAt(a: Handlers, b: Handlers, f: int) {
    forall s: Step, inputs: Inputs :: s.id != f ==> a(s, inputs) == b(s, inputs)
  }

  /** A step's failure changes nothing outside the step and the steps that depend on it. */
  lemma {:induction false} FailureContained(plan: Plan, a: Handlers, b: Handlers, f: int, x: int, k: nat)
    requires ValidPlan(plan) && RefsSettled(plan) && DifferOnlyAt(a, b, f)
    requires x in Within(GraphOf(plan), k) && x != f && !DependsOn(GraphOf(plan), x, f)
    ensures x in LayerOutputs(plan, a, k) && x in LayerOutputs(plan, b, k)
    ensures LayerOutputs(plan, a, k)[x] == LayerOutputs(plan, b, k)[x]
    decreases k
  {
    hide Within, GraphOf, RefsSettled, Resolve, LayerOutputs, DependsOn;
    var g := GraphOf(plan);
    WithinZero(g);
    if x in Within(g, k - 1) {
      FailureContained(plan, a, b, f, x, k - 1);
      LayerOutputsStable(plan, a, x, k - 1, k);
      LayerOutputsStable(plan, b, x, k - 1, k);
    } else {
      LayerView(plan, a, x, k - 1);
      LayerView(plan, b, x, k - 1);
      var va, vb := LayerOutputs(plan, a, k - 1), LayerOutputs(plan, b, k - 1);
      forall y | DependsOn(g, x, y) ensures y in va && y in vb && va[y] == vb[y] {
        WithinDepends(g, x, y, k);
        if DependsOn(g, y, f) { DependsTransitive(g, x, y, f); }
        FailureContained(plan, a, b, f, y, k - 1);
      }
      DispatchAgrees(plan, a, x, va, vb);
    }
  }

  /** So of two complete runs, whatever their merge orders, one with a failing step: all outputs agree but those of
      the step and of the steps that depend on it. */
  lemma {:induction false} FailureContainedInRuns(plan: Plan, c: Compiled, a: Handlers, b: Handlers, f: int,
                                                  orders: seq<seq<string>>, others: seq<seq<string>>, x: int)
    requires ValidPlan(plan) && RefsSettled(plan) && DifferOnlyAt(a, b, f) && CompiledFrom(plan, c)
    requires IsCompleteRun(c, orders) && IsCompleteRun(c, others)
    requires x in IdSet(plan) && x != f && !DependsOn(GraphOf(plan), x, f)
    ensures x in RunAfter(c, a, orders).outputs && x in RunAfter(c, b, others).outputs
    ensures RunAfter(c, a, orders).outputs[x] == RunAfter(c, b, others).outputs[x]
  {
    hide Within, GraphOf, Dispatch, LayerOutputs, RunAfter, RefsSettled, FrontierAt, CompiledFrom, DependsOn, IdSet;
    ValidatedPlansLayer(plan);
    GraphOfKeys(plan);
    RunOutputs(plan, c, a, orders);
    RunOutputs(plan, c, b, others);
    CompleteRun(plan, c, a, orders);
    CompleteRun(plan, c, b, others);
    LayerOutputsSettle(plan, a, |orders|, |plan|);
    LayerOutputsSettle(plan, b, |others|, |plan|);
    FailureContained(plan, a, b, f, x, |plan|);
  }
}

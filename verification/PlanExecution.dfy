/** What a compiled plan computes: dispatch of one step, the bulk-synchronous run under any merge
    order, a sequential run, and when the two agree. */
module PlanExecution {
  import opened Graphs
  import opened PlanSchema
  import opened PlanCompiler

  // ---------------------------------------------------------------------
  // Dispatch
  // ---------------------------------------------------------------------

  datatype Failure = MissingStep(step: int) | BadPlaceholder | NotImplemented | HandlerError(code: int)

  /** A step's entry in `step_outputs`: its typed result, or the exception it raised. */
  datatype Value = Done(data: int) | Raised(failure: Failure)

  datatype Input = Const(text: string) | Output(value: Value)

  type Inputs = seq<(string, Input)>

  /** The handlers behind the steps, as a function of the step and its resolved inputs. */
  type Handlers = (Step, Inputs) -> Value

  datatype Resolution = Resolved(inputs: Inputs) | Unresolved(failure: Failure)

  /** The upstream references a step resolves before its handler runs, in order. */
  function Reads(w: Work): Args {
    match w
    case Query(_, params) => params
    case Solver(ScheduleCsp, inputs) => inputs
    case Solver(PrereqCheck, _) => []
    case Reasoning(inputs, _) => RefArgs(inputs)
    case Action(_, _) => []
  }

  function RefArgs(inputs: seq<int>): Args {
    if inputs == [] then [] else [("", Ref(inputs[0]))] + RefArgs(inputs[1..])
  }

  /** Solver inputs reject a malformed placeholder; query parameters keep it as text. */
  predicate Strict(w: Work) {
    w.Solver?
  }

  function Resolve(args: Args, outputs: map<int, Value>, strict: bool): Resolution {
    if args == [] then Resolved([]) else
      var (key, arg) := args[0];
      match arg
      case Plain(text) => Prepend((key, Const(text)), Resolve(args[1..], outputs, strict))
      case Garbled(text) =>
        if strict then Unresolved(BadPlaceholder)
        else Prepend((key, Const(text)), Resolve(args[1..], outputs, strict))
      case Ref(n) =>
        if n in outputs then Prepend((key, Output(outputs[n])), Resolve(args[1..], outputs, strict))
        else Unresolved(MissingStep(n))
  }

  function Prepend(entry: (string, Input), rest: Resolution): Resolution {
    match rest
    case Resolved(inputs) => Resolved([entry] + inputs)
    case Unresolved(_) => rest
  }

  /** The value a step node writes, given what is in `step_outputs` when it starts. */
  function Dispatch(handlers: Handlers, s: Step, outputs: map<int, Value>): Value {
    if s.work.Solver? && s.work.solver.PrereqCheck? then Raised(NotImplemented) else
      match Resolve(Reads(s.work), outputs, Strict(s.work))
      case Resolved(inputs) => handlers(s, inputs)
      case Unresolved(failure) => Raised(failure)
  }

  function Combine(done: Inputs, rest: Resolution): Resolution {
    match rest
    case Resolved(inputs) => Resolved(done + inputs)
    case Unresolved(_) => rest
  }

  lemma {:induction false} CombineNext(done: Inputs, entry: (string, Input), rest: Resolution)
    ensures Combine(done, Prepend(entry, rest)) == Combine(done + [entry], rest)
  {
    if rest.Resolved? {
      assert done + ([entry] + rest.inputs) == done + [entry] + rest.inputs;
    }
  }

  /** `_resolve_step_refs` (lenient) and `_resolve_solver_inputs` (strict): a loop over the entries. */
  method ResolveRefs(args: Args, outputs: map<int, Value>, strict: bool) returns (r: Resolution)
    ensures r == Resolve(args, outputs, strict)
  {
    var resolved: Inputs := [];
    assert args[0..] == args;
    assert Resolve(args, outputs, strict).Resolved? ==>
        [] + Resolve(args, outputs, strict).inputs == Resolve(args, outputs, strict).inputs;
    for i := 0 to |args|
      invariant Resolve(args, outputs, strict) == Combine(resolved, Resolve(args[i..], outputs, strict))
    {
      var (key, arg) := args[i];
      assert args[i..][1..] == args[i + 1..];
      var input: Input;
      match arg {
        case Plain(text) =>
          input := Const(text);
        case Garbled(text) =>
          if strict { return Unresolved(BadPlaceholder); }
          input := Const(text);
        case Ref(n) =>
          if n !in outputs { return Unresolved(MissingStep(n)); }
          input := Output(outputs[n]);
      }
      CombineNext(resolved, (key, input), Resolve(args[i + 1..], outputs, strict));
      resolved := resolved + [(key, input)];
    }
    assert resolved + [] == resolved;
    r := Resolved(resolved);
  }

  // ---------------------------------------------------------------------
  // Which references are settled by the dependency order
  // ---------------------------------------------------------------------

  /** No run can have written n by the time x starts. */
  ghost predicate NeverBefore(g: Graph, x: int, n: int) {
    n !in g || n == x || DependsOn(g, n, x)
  }

  /** Reading left to right, each reference is to something x depends on, until one that is never there. */
  ghost predicate Settled(g: Graph, x: int, args: Args, strict: bool) {
    args == [] ||
    match args[0].1
    case Plain(_) => Settled(g, x, args[1..], strict)
    case Garbled(_) => strict || Settled(g, x, args[1..], strict)
    case Ref(n) => NeverBefore(g, x, n) || (DependsOn(g, x, n) && Settled(g, x, args[1..], strict))
  }

  ghost predicate RefsSettled(plan: Plan) {
    forall s :: s in plan ==> Settled(GraphOf(plan), s.id, Reads(s.work), Strict(s.work))
  }

  /** A view x may start from: everything x depends on, nothing at or above x. */
  ghost predicate ViewFor(g: Graph, x: int, view: map<int, Value>) {
    && (forall y :: DependsOn(g, x, y) ==> y in view)
    && (forall y :: y in view ==> !NeverBefore(g, x, y))
  }

  ghost predicate AgreeBelow(g: Graph, x: int, a: map<int, Value>, b: map<int, Value>) {
    forall y :: DependsOn(g, x, y) ==> y in a && y in b && a[y] == b[y]
  }

  lemma {:induction false} ResolveAgrees(g: Graph, x: int, args: Args, strict: bool,
                                         a: map<int, Value>, b: map<int, Value>)
    requires Settled(g, x, args, strict)
    requires ViewFor(g, x, a) && ViewFor(g, x, b) && AgreeBelow(g, x, a, b)
    ensures Resolve(args, a, strict) == Resolve(args, b, strict)
  {
    if args != [] {
      match args[0].1
      case Plain(_) => ResolveAgrees(g, x, args[1..], strict, a, b);
      case Garbled(_) => if !strict { ResolveAgrees(g, x, args[1..], strict, a, b); }
      case Ref(n) => if !NeverBefore(g, x, n) { ResolveAgrees(g, x, args[1..], strict, a, b); }
    }
  }

  /** With settled references a step's result depends on the outputs below it only. */
  lemma {:induction false} DispatchAgrees(plan: Plan, handlers: Handlers, x: int,
                                          a: map<int, Value>, b: map<int, Value>)
    requires DistinctIds(plan) && x in GraphOf(plan) && RefsSettled(plan)
    requires ViewFor(GraphOf(plan), x, a) && ViewFor(GraphOf(plan), x, b) && AgreeBelow(GraphOf(plan), x, a, b)
    ensures Dispatch(handlers, StepOf(plan, x), a) == Dispatch(handlers, StepOf(plan, x), b)
  {
    var s := StepOf(plan, x);
    ResolveAgrees(GraphOf(plan), x, Reads(s.work), Strict(s.work), a, b);
  }

  // ---------------------------------------------------------------------
  // The bulk-synchronous run
  // ---------------------------------------------------------------------

  /** The reducer of `step_outputs`: the right operand wins. */
  function MergeStepOutputs(left: map<int, Value>, right: map<int, Value>): map<int, Value> {
    left + right
  }

  datatype RunState = RunState(outputs: map<int, Value>, toolCalls: seq<int>)

  /** The updates of one superstep merged in the given order. Every node reads the state the
      superstep started from. */
  ghost function MergeUpdates(c: Compiled, handlers: Handlers, view: map<int, Value>,
                              order: seq<string>, acc: RunState): RunState
    requires forall i :: 0 <= i < |order| ==> order[i] in c.nodes
  {
    if order == [] then acc else
      var s := c.nodes[order[0]];
      MergeUpdates(c, handlers, view, order[1..],
                   RunState(MergeStepOutputs(acc.outputs, map[s.id as int := Dispatch(handlers, s, view)]),
                            acc.toolCalls + [s.id]))
  }

  /** An enumeration of a set of nodes: the order in which their updates happen to be merged. */
  ghost predicate Enumerates(order: seq<string>, nodes: set<string>) {
    && (forall i, j :: 0 <= i < j < |order| ==> order[i] != order[j])
    && (forall n :: n in order <==> n in nodes)
  }

  /** The state after the supersteps whose merge orders are given. */
  ghost function RunAfter(c: Compiled, handlers: Handlers, orders: seq<seq<string>>): RunState
    requires forall k, i :: 0 <= k < |orders| && 0 <= i < |orders[k]| ==> orders[k][i] in c.nodes
  {
    if orders == [] then RunState(map[], []) else
      var before := RunAfter(c, handlers, orders[..|orders| - 1]);
      MergeUpdates(c, handlers, before.outputs, orders[|orders| - 1], before)
  }

  /** A run of the compiled graph: each superstep fires just the triggered nodes, in some merge
      order, as long as there are any. */
  ghost predicate IsRun(c: Compiled, orders: seq<seq<string>>) {
    && (forall k, i :: 0 <= k < |orders| && 0 <= i < |orders[k]| ==> orders[k][i] in c.nodes)
    && (forall k :: 0 <= k < |orders| ==> orders[k] != [] && Enumerates(orders[k], FrontierAt(c, k).triggered))
  }

  ghost predicate IsCompleteRun(c: Compiled, orders: seq<seq<string>>) {
    IsRun(c, orders) && FrontierAt(c, |orders|).triggered == {}
  }

  /** The outputs after k supersteps, said without any order: layer by layer. */
  ghost function LayerOutputs(plan: Plan, handlers: Handlers, k: nat): map<int, Value>
    requires DistinctIds(plan)
  {
    if k == 0 then map[] else
      var before := LayerOutputs(plan, handlers, k - 1);
      before + map x | x in Layer(GraphOf(plan), k - 1) && x in GraphOf(plan) :: Dispatch(handlers, StepOf(plan, x), before)
  }

  lemma {:induction false} LayerOutputsKeys(plan: Plan, handlers: Handlers, k: nat)
    requires DistinctIds(plan)
    ensures LayerOutputs(plan, handlers, k).Keys == Within(GraphOf(plan), k)
  {
    hide Within;
    var g := GraphOf(plan);
    if k == 0 {
      WithinZero(g);
    } else {
      LayerOutputsKeys(plan, handlers, k - 1);
      WithinMonotone(g, k - 1, k);
    }
  }

  /** Ids of the nodes in a merge order. */
  ghost function OrderIds(c: Compiled, order: seq<string>): seq<int>
    requires forall i :: 0 <= i < |order| ==> order[i] in c.nodes
  {
    if order == [] then [] else [c.nodes[order[0]].id as int] + OrderIds(c, order[1..])
  }

  /** Merging touches the entries of the order only, and logs one call per node. */
  lemma {:induction false} MergeFrame(c: Compiled, handlers: Handlers, view: map<int, Value>,
                                      order: seq<string>, acc: RunState)
    requires forall i :: 0 <= i < |order| ==> order[i] in c.nodes
    ensures MergeUpdates(c, handlers, view, order, acc).toolCalls == acc.toolCalls + OrderIds(c, order)
    ensures MergeUpdates(c, handlers, view, order, acc).outputs.Keys
            == acc.outputs.Keys + Elems(OrderIds(c, order))
    ensures forall x :: x in acc.outputs && x !in OrderIds(c, order) ==>
              MergeUpdates(c, handlers, view, order, acc).outputs[x] == acc.outputs[x]
  {
    hide Dispatch;
    if order != [] {
      var s, ids := c.nodes[order[0]], OrderIds(c, order);
      var acc' := RunState(MergeStepOutputs(acc.outputs, map[s.id as int := Dispatch(handlers, s, view)]),
                           acc.toolCalls + [s.id]);
      MergeFrame(c, handlers, view, order[1..], acc');
      assert ids == [s.id as int] + OrderIds(c, order[1..]);
      assert Elems(ids) == {s.id as int} + Elems(OrderIds(c, order[1..]));
    }
  }

  /** Each node of the order writes its own result, wherever it stands in the order. */
  lemma {:induction false} MergeWrites(c: Compiled, handlers: Handlers, view: map<int, Value>,
                                       order: seq<string>, acc: RunState, i: nat)
    requires forall j :: 0 <= j < |order| ==> order[j] in c.nodes
    requires Distinct(OrderIds(c, order)) && i < |order|
    ensures c.nodes[order[i]].id in MergeUpdates(c, handlers, view, order, acc).outputs
    ensures MergeUpdates(c, handlers, view, order, acc).outputs[c.nodes[order[i]].id]
            == Dispatch(handlers, c.nodes[order[i]], view)
  {
    var s, ids, rest := c.nodes[order[0]], OrderIds(c, order), order[1..];
    var acc' := RunState(MergeStepOutputs(acc.outputs, map[s.id as int := Dispatch(handlers, s, view)]),
                         acc.toolCalls + [s.id]);
    assert ids == [s.id as int] + OrderIds(c, rest);
    assert Distinct(OrderIds(c, rest)) by {
      assert forall j :: 0 <= j < |OrderIds(c, rest)| ==> OrderIds(c, rest)[j] == ids[j + 1];
    }
    MergeFrame(c, handlers, view, rest, acc');
    if i == 0 {
      forall j | 0 <= j < |OrderIds(c, rest)| ensures OrderIds(c, rest)[j] != s.id {
        assert OrderIds(c, rest)[j] == ids[j + 1] && ids[0] != ids[j + 1];
      }
    } else {
      MergeWrites(c, handlers, view, rest, acc', i - 1);
    }
  }

  lemma {:induction false} OrderIdsAt(c: Compiled, order: seq<string>)
    requires forall i :: 0 <= i < |order| ==> order[i] in c.nodes
    ensures |OrderIds(c, order)| == |order|
    ensures forall i :: 0 <= i < |order| ==> OrderIds(c, order)[i] == c.nodes[order[i]].id
  {
    if order != [] { OrderIdsAt(c, order[1..]); }
  }

  /** The ids behind an enumeration of layer k are layer k, once each. */
  lemma {:induction false} OrderIdsAreLayer(plan: Plan, c: Compiled, order: seq<string>, xs: set<int>)
    requires DistinctIds(plan) && Closed(GraphOf(plan)) && CompiledFrom(plan, c) && xs <= GraphOf(plan).Keys
    requires forall i :: 0 <= i < |order| ==> order[i] in c.nodes
    requires Enumerates(order, Names(plan, xs))
    ensures Distinct(OrderIds(c, order)) && Elems(OrderIds(c, order)) == xs
    ensures forall x :: x in xs ==> NameOf(plan, x) in order && c.nodes[NameOf(plan, x)] == StepOf(plan, x)
  {
    hide Within, NodeName, GraphOf, EdgesFrom;
    OrderIdsAt(c, order);
    var ids := OrderIds(c, order);
    forall i | 0 <= i < |order|
      ensures ids[i] in xs && NameOf(plan, ids[i]) == order[i]
    {
      NodeFacts(plan, c, order[i]);
      assert order[i] in Names(plan, xs);
      var x :| x in xs && NameOf(plan, x) == order[i];
      NodeNamesDiffer(StepOf(plan, x), c.nodes[order[i]]);
    }
    forall x | x in xs ensures NameOf(plan, x) in order && c.nodes[NameOf(plan, x)] == StepOf(plan, x) {
      assert NameOf(plan, x) in Names(plan, xs);
      var i :| 0 <= i < |order| && order[i] == NameOf(plan, x);
      NodeFacts(plan, c, order[i]);
      NodeNamesDiffer(StepOf(plan, x), c.nodes[order[i]]);
    }
    forall x | x in xs ensures x in Elems(ids) {
      var i :| 0 <= i < |order| && order[i] == NameOf(plan, x);
      assert ids[i] == x;
    }
    forall y | y in Elems(ids) ensures y in xs {
      var i :| 0 <= i < |ids| && ids[i] == y;
    }
  }

  lemma {:induction false} NodeFacts(plan: Plan, c: Compiled, n: string)
    requires DistinctIds(plan) && Closed(GraphOf(plan)) && CompiledFrom(plan, c) && n in c.nodes
    ensures c.nodes[n].id in GraphOf(plan) && StepOf(plan, c.nodes[n].id) == c.nodes[n]
    ensures NameOf(plan, c.nodes[n].id) == n
  {
    hide Within, NodeName, GraphOf, EdgesFrom;
    assert plan[..|plan|] == plan;
    NameOfStep(plan, c.nodes[n]);
  }

  /** One superstep adds exactly the results of its layer. */
  lemma {:induction false} SuperstepWrites(plan: Plan, c: Compiled, handlers: Handlers, k: nat,
                                           order: seq<string>, before: RunState)
    requires DistinctIds(plan) && Closed(GraphOf(plan)) && CompiledFrom(plan, c)
    requires forall i :: 0 <= i < |order| ==> order[i] in c.nodes
    requires Enumerates(order, FrontierAt(c, k).triggered)
    requires before.outputs == LayerOutputs(plan, handlers, k)
    ensures MergeUpdates(c, handlers, before.outputs, order, before).outputs == LayerOutputs(plan, handlers, k + 1)
    ensures Distinct(OrderIds(c, order)) && Elems(OrderIds(c, order)) == Layer(GraphOf(plan), k)
  {
    hide Within, NodeName, GraphOf, EdgesFrom, NodesFrom, FrontierAt, MergeUpdates, Dispatch, OrderIds;
    var g, xs := GraphOf(plan), Layer(GraphOf(plan), k);
    SuperstepIsLayer(plan, c, k);
    OrderIdsAreLayer(plan, c, order, xs);
    MergeFrame(c, handlers, before.outputs, order, before);
    LayerOutputsKeys(plan, handlers, k);
    LayerOutputsKeys(plan, handlers, k + 1);
    WithinMonotone(g, k, k + 1);
    var r, want := MergeUpdates(c, handlers, before.outputs, order, before).outputs, LayerOutputs(plan, handlers, k + 1);
    forall x | x in r ensures x in want && r[x] == want[x] {
      if x in xs {
        var i :| 0 <= i < |order| && order[i] == NameOf(plan, x);
        MergeWrites(c, handlers, before.outputs, order, before, i);
      } else {
        assert x !in Elems(OrderIds(c, order));
      }
    }
    assert r.Keys == want.Keys;
  }

  /** Merge order is invisible: after k supersteps every run has the same outputs. */
  lemma {:induction false} RunOutputs(plan: Plan, c: Compiled, handlers: Handlers, orders: seq<seq<string>>)
    requires DistinctIds(plan) && Closed(GraphOf(plan)) && CompiledFrom(plan, c) && IsRun(c, orders)
    ensures RunAfter(c, handlers, orders).outputs == LayerOutputs(plan, handlers, |orders|)
    ensures Distinct(RunAfter(c, handlers, orders).toolCalls)
    ensures Elems(RunAfter(c, handlers, orders).toolCalls) == Within(GraphOf(plan), |orders|)
    decreases |orders|
  {
    hide Within, NodeName, GraphOf, EdgesFrom, NodesFrom, FrontierAt, MergeUpdates, Dispatch, OrderIds;
    if orders == [] {
      WithinZero(GraphOf(plan));
    } else {
      var k := |orders| - 1;
      RunOutputs(plan, c, handlers, orders[..k]);
      var before := RunAfter(c, handlers, orders[..k]);
      SuperstepWrites(plan, c, handlers, k, orders[k], before);
      MergeFrame(c, handlers, before.outputs, orders[k], before);
      WithinMonotone(GraphOf(plan), k, k + 1);
      DistinctJoin(before.toolCalls, OrderIds(c, orders[k]));
    }
  }

  lemma {:induction false} DistinctJoin(a: seq<int>, b: seq<int>)
    requires Distinct(a) && Distinct(b) && Elems(a) !! Elems(b)
    ensures Distinct(a + b) && Elems(a + b) == Elems(a) + Elems(b)
  {
    forall i, j | 0 <= i < j < |a + b| ensures (a + b)[i] != (a + b)[j] {
      if i < |a| <= j {
        assert a[i] in Elems(a) && b[j - |a|] in Elems(b);
      }
    }
  }

  /** The run cannot get stuck: as long as a step has not fired some node is triggered. */
  lemma {:induction false} RunsProgress(plan: Plan, c: Compiled, k: nat)
    requires ValidPlan(plan) && CompiledFrom(plan, c)
    ensures FrontierAt(c, k).triggered == {} <==> Within(GraphOf(plan), k) == GraphOf(plan).Keys
  {
    hide Within, NodeName, EdgesFrom, NodesFrom, FrontierAt;
    var g := GraphOf(plan);
    SuperstepIsLayer(plan, c, k);
    WithinMonotone(g, k, k + 1);
    if FrontierAt(c, k).triggered == {} {
      assert Names(plan, {}) == {};
      NamesMeet(plan, Layer(g, k), {});
      AcyclicIffBounded(g);
      if k <= |g| {
        EmptyLayerIsTop(g, k, |g|);
      } else {
        WithinMonotone(g, |g|, k);
      }
    }
  }

  lemma {:induction false} RunFires(c: Compiled, orders: seq<seq<string>>, k: nat)
    requires IsRun(c, orders) && k < |orders|
    ensures FrontierAt(c, k).triggered != {}
  {
    hide FrontierAt;
    assert orders[k][0] in FrontierAt(c, k).triggered;
  }

  /** A run of a validated plan ends: it has at most as many supersteps as the plan has steps. */
  lemma {:induction false} RunsStop(plan: Plan, c: Compiled, orders: seq<seq<string>>)
    requires ValidPlan(plan) && CompiledFrom(plan, c) && IsRun(c, orders)
    ensures FrontierAt(c, |plan|).triggered == {}
    ensures |orders| <= |plan|
  {
    hide Within, NodeName, EdgesFrom, NodesFrom, FrontierAt, GraphOf, CompiledFrom;
    ValidatedPlansLayer(plan);
    RunsProgress(plan, c, |plan|);
    if |orders| > |plan| {
      RunFires(c, orders, |plan|);
    }
  }

  /** Every run can be carried on to a complete one. */
  lemma {:induction false} RunsComplete(plan: Plan, c: Compiled, orders: seq<seq<string>>)
    returns (whole: seq<seq<string>>)
    requires ValidPlan(plan) && CompiledFrom(plan, c) && IsRun(c, orders)
    ensures IsCompleteRun(c, whole) && orders <= whole
    decreases |plan| - |orders|
  {
    hide Within, NodeName, EdgesFrom, NodesFrom, FrontierAt, GraphOf, CompiledFrom;
    RunsStop(plan, c, orders);
    var k := |orders|;
    if FrontierAt(c, k).triggered == {} {
      whole := orders;
    } else {
      var order := InSomeOrder(FrontierAt(c, k).triggered);
      forall i | 0 <= i < |order| ensures order[i] in c.nodes {
        TriggeredIsNode(plan, c, k, order[i]);
      }
      var more := orders + [order];
      assert IsRun(c, more);
      RunsStop(plan, c, more);
      whole := RunsComplete(plan, c, more);
    }
  }

  lemma {:induction false} InSomeOrder(xs: set<string>) returns (order: seq<string>)
    ensures Enumerates(order, xs)
    ensures xs != {} ==> order != []
    decreases xs
  {
    if xs == {} {
      order := [];
    } else {
      var x :| x in xs;
      order := InSomeOrder(xs - {x});
      order := order + [x];
    }
  }

  lemma {:induction false} TriggeredIsNode(plan: Plan, c: Compiled, k: nat, n: string)
    requires ValidPlan(plan) && CompiledFrom(plan, c) && n in FrontierAt(c, k).triggered
    ensures n in c.nodes
  {
    hide Within, NodeName, EdgesFrom, FrontierAt, GraphOf;
    SuperstepIsLayer(plan, c, k);
    var x :| x in Layer(GraphOf(plan), k) && NameOf(plan, x) == n;
    var i := IndexOf(plan, x);
    assert plan[..|plan|] == plan;
  }

  /** Every run of a validated plan that has fired all it can has fired each step once, in the
      superstep of its layer, and holds an output for exactly the plan's ids. */
  lemma {:induction false} CompleteRun(plan: Plan, c: Compiled, handlers: Handlers, orders: seq<seq<string>>)
    requires ValidPlan(plan) && CompiledFrom(plan, c) && IsCompleteRun(c, orders)
    ensures RunAfter(c, handlers, orders).outputs.Keys == IdSet(plan)
    ensures Distinct(RunAfter(c, handlers, orders).toolCalls)
    ensures Elems(RunAfter(c, handlers, orders).toolCalls) == IdSet(plan)
    ensures Within(GraphOf(plan), |orders|) == GraphOf(plan).Keys
  {
    hide Within, NodeName, EdgesFrom, NodesFrom, FrontierAt, MergeUpdates, Dispatch, OrderIds;
    RunOutputs(plan, c, handlers, orders);
    LayerOutputsKeys(plan, handlers, |orders|);
    RunsProgress(plan, c, |orders|);
    GraphOfKeys(plan);
  }
}

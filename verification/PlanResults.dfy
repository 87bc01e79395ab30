/** What a run hands to each step and what the step leaves behind, in terms of the step's own fields. */
module PlanResults {
  import opened Graphs
  import opened PlanSchema
  import opened PlanCompiler
  import opened PlanExecution
  import opened PlanConfluence

  /** The inputs of a query or solver step: every argument under its key and in its place, text as it stands, an
      upstream reference replaced by what that step left. */
  ghost predicate Filled(args: Args, outputs: map<int, Value>, inputs: Inputs) {
    && |inputs| == |args|
    && forall k :: 0 <= k < |args| ==>
         && inputs[k].0 == args[k].0
         && match args[k].1
            case Plain(text) => inputs[k].1 == Const(text)
            case Garbled(text) => inputs[k].1 == Const(text)
            case Ref(n) => n in outputs && inputs[k].1 == Output(outputs[n])
  }

  /** The k-th argument is the first reference to a step that has left nothing. */
  ghost predicate FirstMissingRef(args: Args, outputs: map<int, Value>, k: nat) {
    && k < |args| && args[k].1.Ref? && args[k].1.step !in outputs
    && forall j :: 0 <= j < k ==> args[j].1.Ref? ==> args[j].1.step in outputs
  }

  ghost predicate NoGarbled(args: Args, upto: nat)
    requires upto <= |args|
  {
    forall j :: 0 <= j < upto ==> !args[j].1.Garbled?
  }

  /** A query step: its handler's answer to the filled-in parameters, or the first missing step. */
  ghost predicate QueryResult(handlers: Handlers, s: Step, params: Args, outputs: map<int, Value>, r: Value) {
    && ((forall k :: 0 <= k < |params| && params[k].1.Ref? ==> params[k].1.step in outputs) ==>
          exists inputs :: Filled(params, outputs, inputs) && r == handlers(s, inputs))
    && (forall k: nat :: FirstMissingRef(params, outputs, k) ==> r == Raised(MissingStep(params[k].1.step)))
  }

  /** A solver step: likewise, but a malformed placeholder fails as soon as it is read. */
  ghost predicate SolverResult(handlers: Handlers, s: Step, args: Args, outputs: map<int, Value>, r: Value) {
    && (NoGarbled(args, |args|) && (forall k :: 0 <= k < |args| && args[k].1.Ref? ==> args[k].1.step in outputs) ==>
          exists inputs :: Filled(args, outputs, inputs) && r == handlers(s, inputs))
    && (forall k: nat :: FirstMissingRef(args, outputs, k) && NoGarbled(args, k) ==> r == Raised(MissingStep(args[k].1.step)))
    && (forall k | 0 <= k < |args| && args[k].1.Garbled? && NoGarbled(args, k)
                   && (forall j :: 0 <= j < k && args[j].1.Ref? ==> args[j].1.step in outputs) ::
          r == Raised(BadPlaceholder))
  }

  /** A reasoning step: its template applied to the outputs of the steps it lists, in that order. */
  ghost predicate ReasoningResult(handlers: Handlers, s: Step, steps: seq<int>, outputs: map<int, Value>, r: Value) {
    && ((forall k :: 0 <= k < |steps| ==> steps[k] in outputs) ==>
          exists inputs: Inputs ::
            && |inputs| == |steps|
            && (forall k :: 0 <= k < |steps| ==> inputs[k].1 == Output(outputs[steps[k]]))
            && r == handlers(s, inputs))
    && (forall k :: 0 <= k < |steps| && steps[k] !in outputs && (forall j :: 0 <= j < k ==> steps[j] in outputs) ==>
          r == Raised(MissingStep(steps[k])))
  }

  /** The result of a step started from these outputs. */
  ghost predicate StepResult(handlers: Handlers, s: Step, outputs: map<int, Value>, r: Value) {
    match s.work
    case Query(_, params) => QueryResult(handlers, s, params, outputs, r)
    case Solver(ScheduleCsp, args) => SolverResult(handlers, s, args, outputs, r)
    case Solver(PrereqCheck, _) => r == Raised(NotImplemented)
    case Reasoning(steps, _) => ReasoningResult(handlers, s, steps, outputs, r)
    case Action(_, _) => r == handlers(s, [])
  }

  // ---------------------------------------------------------------------
  // One step
  // ---------------------------------------------------------------------

  /** Does resolution stop at this argument? */
  ghost predicate Stops(arg: Arg, outputs: map<int, Value>, strict: bool) {
    match arg
    case Plain(_) => false
    case Garbled(_) => strict
    case Ref(n) => n !in outputs
  }

  lemma {:induction false} ResolveAll(args: Args, outputs: map<int, Value>, strict: bool)
    requires forall k :: 0 <= k < |args| ==> !Stops(args[k].1, outputs, strict)
    ensures Resolve(args, outputs, strict).Resolved?
    ensures Filled(args, outputs, Resolve(args, outputs, strict).inputs)
  {
    if args != [] {
      var rest := args[1..];
      assert forall k :: 0 <= k < |rest| ==> rest[k] == args[k + 1];
      ResolveAll(rest, outputs, strict);
      var inputs := Resolve(args, outputs, strict).inputs;
      assert inputs[1..] == Resolve(rest, outputs, strict).inputs;
      forall k | 0 < k < |args| ensures inputs[k] == inputs[1..][k - 1] && args[k] == rest[k - 1] {
      }
    }
  }

  lemma {:induction false} ResolveStops(args: Args, outputs: map<int, Value>, strict: bool, k: nat)
    requires k < |args| && Stops(args[k].1, outputs, strict)
    requires forall j :: 0 <= j < k ==> !Stops(args[j].1, outputs, strict)
    ensures Resolve(args, outputs, strict)
            == Unresolved(match args[k].1 case Ref(n) => MissingStep(n) case _ => BadPlaceholder)
  {
    if k > 0 {
      assert !Stops(args[0].1, outputs, strict);
      ResolveStops(args[1..], outputs, strict, k - 1);
    }
  }

  lemma {:induction false} RefArgsAre(steps: seq<int>)
    ensures |RefArgs(steps)| == |steps| && forall k :: 0 <= k < |steps| ==> RefArgs(steps)[k].1 == Ref(steps[k])
  {
    if steps != [] { RefArgsAre(steps[1..]); }
  }

  /** What a step node writes, from whatever outputs it starts. */
  lemma {:induction false} DispatchExact(handlers: Handlers, s: Step, outputs: map<int, Value>)
    ensures StepResult(handlers, s, outputs, Dispatch(handlers, s, outputs))
  {
    hide Resolve, RefArgs;
    match s.work
    case Query(_, params) => LenientExact(handlers, s, params, outputs);
    case Solver(ScheduleCsp, args) => StrictExact(handlers, s, args, outputs);
    case Solver(PrereqCheck, _) =>
    case Reasoning(steps, _) => ReasoningExact(handlers, s, steps, outputs);
    case Action(_, _) => ResolveAll([], outputs, false);
  }

  lemma {:induction false} LenientExact(handlers: Handlers, s: Step, params: Args, outputs: map<int, Value>)
    requires s.work.Query? && s.work.params == params
    ensures QueryResult(handlers, s, params, outputs, Dispatch(handlers, s, outputs))
  {
    hide Resolve;
    if forall k :: 0 <= k < |params| && params[k].1.Ref? ==> params[k].1.step in outputs {
      ResolveAll(params, outputs, false);
    }
    forall k: nat | FirstMissingRef(params, outputs, k)
      ensures Dispatch(handlers, s, outputs) == Raised(MissingStep(params[k].1.step))
    {
      ResolveStops(params, outputs, false, k);
    }
  }

  lemma {:induction false} StrictExact(handlers: Handlers, s: Step, args: Args, outputs: map<int, Value>)
    requires s.work.Solver? && s.work.solver.ScheduleCsp? && s.work.solverInputs == args
    ensures SolverResult(handlers, s, args, outputs, Dispatch(handlers, s, outputs))
  {
    hide Resolve;
    if NoGarbled(args, |args|) && forall k :: 0 <= k < |args| && args[k].1.Ref? ==> args[k].1.step in outputs {
      ResolveAll(args, outputs, true);
    }
    forall k: nat | FirstMissingRef(args, outputs, k) && NoGarbled(args, k)
      ensures Dispatch(handlers, s, outputs) == Raised(MissingStep(args[k].1.step))
    {
      ResolveStops(args, outputs, true, k);
    }
    forall k: nat | k < |args| && args[k].1.Garbled? && NoGarbled(args, k)
                    && (forall j :: 0 <= j < k && args[j].1.Ref? ==> args[j].1.step in outputs)
      ensures Dispatch(handlers, s, outputs) == Raised(BadPlaceholder)
    {
      ResolveStops(args, outputs, true, k);
    }
  }

  lemma {:induction false} ReasoningExact(handlers: Handlers, s: Step, steps: seq<int>, outputs: map<int, Value>)
    requires s.work.Reasoning? && s.work.inputs == steps
    ensures ReasoningResult(handlers, s, steps, outputs, Dispatch(handlers, s, outputs))
  {
    hide Resolve, RefArgs;
    var args := RefArgs(steps);
    RefArgsAre(steps);
    if forall k :: 0 <= k < |steps| ==> steps[k] in outputs {
      ResolveAll(args, outputs, false);
    }
    forall k: nat | k < |steps| && steps[k] !in outputs && (forall j :: 0 <= j < k ==> steps[j] in outputs)
      ensures Dispatch(handlers, s, outputs) == Raised(MissingStep(steps[k]))
    {
      ResolveStops(args, outputs, false, k);
    }
  }

  // ---------------------------------------------------------------------
  // Every step of a run
  // ---------------------------------------------------------------------

  /** What the steps of the lower layers leave behind by the end of a run. */
  ghost function LeftBelow(g: Graph, outputs: map<int, Value>, k: nat): map<int, Value> {
    map y | y in outputs && y in Within(g, k) :: outputs[y]
  }

  /** The equation of a run: at its end each step holds its result on the final outputs of the layers below it.
      Everything it depends on is among these. */
  lemma {:induction false} RunEquation(plan: Plan, c: Compiled, handlers: Handlers, orders: seq<seq<string>>, s: Step)
    returns (k: nat)
    requires ValidPlan(plan) && CompiledFrom(plan, c) && IsCompleteRun(c, orders) && s in plan
    ensures var g, outputs := GraphOf(plan), RunAfter(c, handlers, orders).outputs;
            && s.id in outputs && s.id in Layer(g, k)
            && StepResult(handlers, s, LeftBelow(g, outputs, k), outputs[s.id])
            && forall n :: DependsOn(g, s.id, n) ==> n in LeftBelow(g, outputs, k)
  {
    hide Within, GraphOf, LayerOutputs, RunAfter, FrontierAt, CompiledFrom, StepResult, Dispatch, DependsOn;
    var g, x := GraphOf(plan), s.id;
    NameOfStep(plan, s);
    k := LayerOf(plan, x);
    var n := |orders|;
    RunOutputs(plan, c, handlers, orders);
    CompleteRun(plan, c, handlers, orders);
    var outputs := RunAfter(c, handlers, orders).outputs;
    LayerOutputsKeys(plan, handlers, n);
    TopLayerReached(g, x, k, n);
    LayerView(plan, handlers, x, k);
    LayerOutputsStable(plan, handlers, x, k + 1, n);
    LayerOutputsKeys(plan, handlers, k);
    var view := LayerOutputs(plan, handlers, k);
    forall y | y in view ensures y in outputs && view[y] == outputs[y] {
      LayerOutputsStable(plan, handlers, y, k, n);
    }
    assert LeftBelow(g, outputs, k) == view;
    DispatchExact(handlers, s, view);
  }

  lemma {:induction false} TopLayerReached(g: Graph, x: int, k: nat, n: nat)
    requires x in Layer(g, k) && Within(g, n) == g.Keys
    ensures k < n && x in Within(g, k + 1)
  {
    WithinMonotone(g, k + 1, k + 1);
    if n <= k { WithinMonotone(g, n, k); }
  }

  /** So with references to transitive dependencies only, the handler of a query sees their final outputs. */
  lemma {:induction false} QueryEquation(plan: Plan, c: Compiled, handlers: Handlers, orders: seq<seq<string>>, s: Step)
    returns (inputs: Inputs)
    requires ValidPlan(plan) && CompiledFrom(plan, c) && IsCompleteRun(c, orders) && s in plan && s.work.Query?
    requires forall k :: 0 <= k < |s.work.params| && s.work.params[k].1.Ref? ==>
               DependsOn(GraphOf(plan), s.id, s.work.params[k].1.step)
    ensures var outputs := RunAfter(c, handlers, orders).outputs;
            && s.id in outputs && outputs[s.id] == handlers(s, inputs)
            && Filled(s.work.params, outputs, inputs)
  {
    hide Within, GraphOf, RunAfter, FrontierAt, CompiledFrom, DependsOn;
    var k := RunEquation(plan, c, handlers, orders, s);
    var outputs := RunAfter(c, handlers, orders).outputs;
    var below := LeftBelow(GraphOf(plan), outputs, k);
    inputs :| Filled(s.work.params, below, inputs) && outputs[s.id] == handlers(s, inputs);
  }
}

/** The inner safety gate: four layers with short-circuit, the audit record built beside them, and the
    sink that keeps one record per audit id. */
module InnerSafety {
  import opened Wrappers

  datatype Decision = Allow | Deny

  datatype LayerName = ToolAuthorization | ParameterPresence | ParameterFormat | LiveState

  datatype LayerResult = LayerResult(layer: LayerName, decision: Decision, reasonCode: string, reasonHuman: string)

  datatype Session = Session(userId: string, sessionId: string, userRole: string)

  datatype SafetyInput = SafetyInput(session: Session, toolName: string, toolArgs: map<string, string>)

  datatype AuditRecord = AuditRecord(auditId: string, toolName: string, argsKeys: set<string>, session: Session,
                                     decision: Decision, shortCircuitedAt: Option<LayerName>, finalReasonCode: string,
                                     executionAttempted: bool, executionSucceeded: Option<bool>,
                                     executionError: Option<string>)

  datatype SafetyResult = SafetyResult(finalDecision: Decision, shortCircuitedAt: Option<LayerName>,
                                       layerResults: seq<LayerResult>, finalReasonCode: string,
                                       finalReasonHuman: string, audit: AuditRecord)

  /** What the checks say: decision, code and explanation of each layer. */
  type Checks = (LayerName, SafetyInput) -> (Decision, string, string)

  const LAYERS := [ToolAuthorization, ParameterPresence, ParameterFormat, LiveState]

  function RunLayer(checks: Checks, layer: LayerName, input: SafetyInput): LayerResult {
    var (decision, code, human) := checks(layer, input);
    LayerResult(layer, decision, code, human)
  }

  function BuildAuditRecord(input: SafetyInput, id: string, decision: Decision, at: Option<LayerName>,
                            code: string): AuditRecord {
    AuditRecord(id, input.toolName, input.toolArgs.Keys, input.session, decision, at, code, false, None, None)
  }

  /** A new record with the execution outcome attached. */
  function UpdateAuditForExecution(record: AuditRecord, succeeded: bool, error: Option<string>): AuditRecord {
    record.(executionAttempted := true, executionSucceeded := Some(succeeded), executionError := error)
  }

  // ---------------------------------------------------------------------
  // The sink
  // ---------------------------------------------------------------------

  datatype SinkState = SinkState(persisted: set<string>, log: seq<AuditRecord>)

  function Persisted(s: SinkState, record: AuditRecord): SinkState {
    if record.auditId in s.persisted then s
    else SinkState(s.persisted + {record.auditId}, s.log + [record])
  }

  class AuditSink {
    var persistedIds: set<string>
    var log: seq<AuditRecord>

    constructor ()
      ensures Value() == SinkState({}, [])
    {
      persistedIds := {};
      log := [];
    }

    ghost function Value(): SinkState
      reads this
    {
      SinkState(persistedIds, log)
    }

    /** Write a record unless its id was written before. */
    method PersistAuditRecord(record: AuditRecord)
      modifies this
      ensures Value() == Persisted(old(Value()), record)
    {
      if record.auditId in persistedIds {
        return;
      }
      persistedIds := persistedIds + {record.auditId};
      log := log + [record];
    }
  }

  // ---------------------------------------------------------------------
  // The composer
  // ---------------------------------------------------------------------

  /** What the composer returns: all layers up to the first that does not allow. */
  function GateResult(checks: Checks, input: SafetyInput, id: string): (r: SafetyResult)
    ensures r.audit.auditId == id
  {
    var ran := LayersRun(checks, input, LAYERS);
    var last := ran[|ran| - 1];
    if last.decision == Allow then
      SafetyResult(Allow, None, ran, "all_layers_passed", "",
                   BuildAuditRecord(input, id, Allow, None, "all_layers_passed"))
    else
      SafetyResult(last.decision, Some(last.layer), ran, last.reasonCode, last.reasonHuman,
                   BuildAuditRecord(input, id, last.decision, Some(last.layer), last.reasonCode))
  }

  function LayersRun(checks: Checks, input: SafetyInput, layers: seq<LayerName>): (ran: seq<LayerResult>)
    ensures |ran| <= |layers| && (layers != [] ==> ran != [])
  {
    if layers == [] then [] else
      var r := RunLayer(checks, layers[0], input);
      if r.decision == Deny then [r] else [r] + LayersRun(checks, input, layers[1..])
  }

  /** Run the layers in order; the first that does not allow ends the run and its record is persisted
      here. When all allow, the record is built but left to the caller. */
  method InnerSafetyCheck(sink: AuditSink, checks: Checks, input: SafetyInput, id: string) returns (r: SafetyResult)
    modifies sink
    ensures r == GateResult(checks, input, id)
    ensures sink.Value() == if r.finalDecision == Deny then Persisted(old(sink.Value()), r.audit) else old(sink.Value())
  {
    var layerResults: seq<LayerResult> := [];
    for i := 0 to |LAYERS|
      invariant sink.Value() == old(sink.Value())
      invariant |layerResults| == i && layerResults + LayersRun(checks, input, LAYERS[i..]) == LayersRun(checks, input, LAYERS)
      invariant forall j :: 0 <= j < i ==> layerResults[j].decision == Allow
    {
      var result := RunLayer(checks, LAYERS[i], input);
      assert LAYERS[i..][1..] == LAYERS[i + 1..];
      ghost var before := layerResults;
      layerResults := layerResults + [result];
      if result.decision != Allow {
        assert LayersRun(checks, input, LAYERS[i..]) == [result];
        var audit := BuildAuditRecord(input, id, result.decision, Some(result.layer), result.reasonCode);
        sink.PersistAuditRecord(audit);
        return SafetyResult(result.decision, Some(result.layer), layerResults, result.reasonCode, result.reasonHuman, audit);
      }
      assert before + ([result] + LayersRun(checks, input, LAYERS[i + 1..]))
          == layerResults + LayersRun(checks, input, LAYERS[i + 1..]);
    }
    assert LAYERS[|LAYERS|..] == [] && layerResults + [] == layerResults;
    r := SafetyResult(Allow, None, layerResults, "all_layers_passed", "",
                      BuildAuditRecord(input, id, Allow, None, "all_layers_passed"));
  }

  /** Layers ran in evaluation order without a gap, all but possibly the last allowing; the verdict is the
      last layer's, with its code and text on a denial; the chain is complete iff it allowed; and the record says the
      same. */
  ghost predicate WellShaped(r: SafetyResult, input: SafetyInput) {
    && 1 <= |r.layerResults| <= 4
    && (forall i :: 0 <= i < |r.layerResults| ==>
          r.layerResults[i].layer == [ToolAuthorization, ParameterPresence, ParameterFormat, LiveState][i])
    && (forall i :: 0 <= i < |r.layerResults| - 1 ==> r.layerResults[i].decision == Allow)
    && var last := r.layerResults[|r.layerResults| - 1];
    && r.finalDecision == last.decision
    && (r.finalDecision == Allow ==>
          && |r.layerResults| == 4 && r.shortCircuitedAt == None
          && r.finalReasonCode == "all_layers_passed" && r.finalReasonHuman == "")
    && (r.finalDecision == Deny ==>
          && r.shortCircuitedAt == Some(last.layer)
          && r.finalReasonCode == last.reasonCode && r.finalReasonHuman == last.reasonHuman)
    && r.audit == AuditRecord(r.audit.auditId, input.toolName, input.toolArgs.Keys, input.session, r.finalDecision,
                              r.shortCircuitedAt, r.finalReasonCode, false, None, None)
  }

  lemma {:induction false} LayersRunShape(checks: Checks, input: SafetyInput, layers: seq<LayerName>)
    ensures var ran := LayersRun(checks, input, layers);
            && (forall i :: 0 <= i < |ran| ==> ran[i] == RunLayer(checks, layers[i], input))
            && (forall i :: 0 <= i < |ran| - 1 ==> ran[i].decision == Allow)
            && (|ran| < |layers| ==> ran != [] && ran[|ran| - 1].decision == Deny)
  {
    if layers != [] { LayersRunShape(checks, input, layers[1..]); }
  }

  lemma {:induction false} GateResultShape(checks: Checks, input: SafetyInput, id: string)
    ensures WellShaped(GateResult(checks, input, id), input)
    ensures var r := GateResult(checks, input, id);
            var layers, n := [ToolAuthorization, ParameterPresence, ParameterFormat, LiveState], |r.layerResults| - 1;
            && 0 <= n < 4
            && (forall i | 0 <= i <= n ::
                  var (decision, code, human) := checks(layers[i], input);
                  r.layerResults[i] == LayerResult(layers[i], decision, code, human))
            && (forall i :: 0 <= i < n ==> checks(layers[i], input).0 == Allow)
            && r.audit == AuditRecord(id, input.toolName, input.toolArgs.Keys, input.session, r.finalDecision,
                                      r.shortCircuitedAt, r.finalReasonCode, false, None, None)
            && var (decision, code, human) := checks(layers[n], input);
               if decision == Deny then
                 && r.finalDecision == Deny && r.shortCircuitedAt == Some(layers[n])
                 && r.finalReasonCode == code && r.finalReasonHuman == human
               else
                 && n == 3 && r.finalDecision == Allow && r.shortCircuitedAt == None
                 && r.finalReasonCode == "all_layers_passed" && r.finalReasonHuman == ""
  {
    LayersRunShape(checks, input, LAYERS);
  }

  /** The gate allows iff every one of the four layers does. */
  lemma {:induction false} AllowsIffAllLayersAllow(checks: Checks, input: SafetyInput, id: string)
    ensures GateResult(checks, input, id).finalDecision == Allow
            <==> && checks(ToolAuthorization, input).0 == Allow && checks(ParameterPresence, input).0 == Allow
                 && checks(ParameterFormat, input).0 == Allow && checks(LiveState, input).0 == Allow
  {
    LayersRunShape(checks, input, LAYERS);
    var ran := LayersRun(checks, input, LAYERS);
    if GateResult(checks, input, id).finalDecision == Allow {
      assert ran[0].decision == Allow && ran[1].decision == Allow && ran[2].decision == Allow && ran[3].decision == Allow;
    }
  }

  // ---------------------------------------------------------------------
  // The two callers
  // ---------------------------------------------------------------------

  /** How a tool call ends: a result dict with optional `success` and `message`, or an exception. */
  datatype ToolOutcome = Returned(success: Option<bool>, message: Option<string>) | ToolRaised(text: string)

  function Succeeded(o: ToolOutcome): bool {
    o.Returned? && (o.success == None || o.success.value)
  }

  function ErrorOf(o: ToolOutcome): Option<string> {
    match o
    case ToolRaised(text) => Some(text)
    case Returned(_, message) => if Succeeded(o) then None else message
  }

  /** The record a call with this outcome must leave. */
  function FinalAudit(r: SafetyResult, o: ToolOutcome): AuditRecord {
    UpdateAuditForExecution(r.audit, Succeeded(o), ErrorOf(o))
  }

  /** What the record says of an outcome: success unless the result says otherwise or the tool raised; and the text of
      the exception, or the message of a failed result. */
  lemma {:induction false} FinalAuditSpelled(r: SafetyResult, success: Option<bool>, message: Option<string>, text: string)
    ensures FinalAudit(r, ToolRaised(text))
            == r.audit.(executionAttempted := true, executionSucceeded := Some(false), executionError := Some(text))
    ensures FinalAudit(r, Returned(success, message))
            == r.audit.(executionAttempted := true, executionSucceeded := Some(success != Some(false)),
                        executionError := if success == Some(false) then message else None)
  {
  }

  type Tools = SafetyInput -> ToolOutcome

  datatype StepReturn =
    | UnknownTool
    | DeniedBySafety(auditId: string, reasonCode: string, message: string)
    | Executed(outcome: ToolOutcome, auditId: string)

  /** The plan-driven path. */
  method RunActionStep(sink: AuditSink, registry: set<string>, checks: Checks, tools: Tools, input: SafetyInput, id: string)
    returns (ret: StepReturn, invoked: bool)
    modifies sink
    ensures var r := GateResult(checks, input, id);
            if input.toolName !in registry then
              ret == UnknownTool && !invoked && sink.Value() == old(sink.Value())
            else if r.finalDecision == Deny then
              ret == DeniedBySafety(id, r.finalReasonCode, r.finalReasonHuman) && !invoked
              && sink.Value() == Persisted(old(sink.Value()), r.audit)
            else
              ret == Executed(tools(input), id) && invoked
              && sink.Value() == Persisted(old(sink.Value()), FinalAudit(r, tools(input)))
  {
    if input.toolName !in registry {
      return UnknownTool, false;
    }
    var result := InnerSafetyCheck(sink, checks, input, id);
    if result.finalDecision == Deny {
      return DeniedBySafety(result.audit.auditId, result.finalReasonCode, result.finalReasonHuman), false;
    }
    var raw := tools(input);
    var succeeded: bool, error: Option<string>;
    match raw {
      case Returned(success, message) =>
        succeeded := success == None || success.value;
        error := if succeeded then None else message;
      case ToolRaised(text) =>
        succeeded := false;
        error := Some(text);
    }
    var finalAudit := UpdateAuditForExecution(result.audit, succeeded, error);
    sink.PersistAuditRecord(finalAudit);
    return Executed(raw, finalAudit.auditId), true;
  }

  /** What the LLM routing node leaves in the subgraph's state. */
  datatype Route = Reply(text: string) | Selected(tool: string, arguments: map<string, string>)

  datatype ActionState = ActionState(responseText: Option<string>, selectedTool: string, toolArguments: map<string, string>,
                                     success: Option<bool>, inner: Option<SafetyResult>,
                                     rawToolResult: Option<ToolOutcome>, executionError: Option<string>)

  /** Python truth of an optional string. */
  predicate Truthy(s: Option<string>) {
    s.Some? && s.value != ""
  }

  function Routed(route: Route): ActionState {
    match route
    case Reply(text) => ActionState(Some(text), "", map[], Some(true), None, None, None)
    case Selected(tool, arguments) => ActionState(None, tool, arguments, None, None, None, None)
  }

  /** The gate is skipped only for a non-empty reply without a tool. */
  predicate SkipsGate(st: ActionState) {
    Truthy(st.responseText) && st.selectedTool == ""
  }

  method InnerSafetyNode(sink: AuditSink, checks: Checks, session: Session, st: ActionState, id: string)
    returns (st': ActionState)
    modifies sink
    ensures st.responseText.Some? && st.responseText.value != "" && st.selectedTool == "" ==>
              st' == st && sink.Value() == old(sink.Value())
    ensures st.responseText == None || st.responseText == Some("") || st.selectedTool != "" ==>
              var r := GateResult(checks, SafetyInput(session, st.selectedTool, st.toolArguments), id);
              && st'.inner == Some(r) && st'.selectedTool == st.selectedTool && st'.toolArguments == st.toolArguments
              && st'.rawToolResult == st.rawToolResult && st'.executionError == st.executionError
              && (r.finalDecision == Allow ==> st'.success == st.success && st'.responseText == st.responseText)
              && (r.finalDecision == Deny ==>
                    && st'.success == Some(false)
                    && st'.responseText == Some(if r.finalReasonHuman != "" then r.finalReasonHuman else r.finalReasonCode))
              && sink.Value() == if r.finalDecision == Deny then Persisted(old(sink.Value()), r.audit) else old(sink.Value())
  {
    if SkipsGate(st) {
      return st;
    }
    var result := InnerSafetyCheck(sink, checks, SafetyInput(session, st.selectedTool, st.toolArguments), id);
    st' := st.(inner := Some(result));
    if result.finalDecision == Deny {
      st' := st'.(responseText := Some(if result.finalReasonHuman != "" then result.finalReasonHuman
                                       else result.finalReasonCode),
                  success := Some(false));
    }
  }

  datatype NodeResult = Continue(state: ActionState, invoked: bool) | KeyError

  /** The tool lookup is outside the exception handler: an unregistered tool ends the subgraph. */
  function ExecuteActionTool(registry: set<string>, tools: Tools, session: Session, st: ActionState): NodeResult {
    if st.inner == None || st.inner.value.finalDecision == Deny then Continue(st, false)
    else if st.selectedTool !in registry then KeyError
    else
      var raw := tools(SafetyInput(session, st.selectedTool, st.toolArguments));
      match raw
      case Returned(_, _) => Continue(st.(rawToolResult := Some(raw), success := Some(true)), true)
      case ToolRaised(text) =>
        Continue(st.(rawToolResult := Some(Returned(Some(false), Some(text))), executionError := Some(text),
                     success := Some(false), responseText := Some("Tool execution failed: " + text)), true)
  }

  method FinalizeAudit(sink: AuditSink, st: ActionState) returns (audit: Option<AuditRecord>)
    modifies sink
    ensures st.inner == None || st.inner.value.finalDecision == Deny ==> audit == None && sink.Value() == old(sink.Value())
    ensures st.inner != None && st.inner.value.finalDecision == Allow ==>
              && audit == Some(SubgraphAudit(st, st.inner.value))
              && sink.Value() == Persisted(old(sink.Value()), audit.value)
  {
    audit := None;
    if st.inner != None && st.inner.value.finalDecision == Allow {
      var finalAudit := SubgraphAudit(st, st.inner.value);
      sink.PersistAuditRecord(finalAudit);
      audit := Some(finalAudit);
    }
  }

  /** The record the finalising node computes from the state. */
  function SubgraphAudit(st: ActionState, r: SafetyResult): AuditRecord {
    var raw := if st.rawToolResult.Some? then st.rawToolResult.value else Returned(None, None);
    var succeeded := st.success == Some(true) && Succeeded(raw);
    var error := if Truthy(st.executionError) then st.executionError
                 else if succeeded then None
                 else if raw.Returned? then raw.message else None;
    UpdateAuditForExecution(r.audit, succeeded, error)
  }

  /** Both callers record the same outcome the same way. */
  lemma {:induction false} CallersAgree(registry: set<string>, tools: Tools, session: Session, st: ActionState)
    requires st.inner != None && st.inner.value.finalDecision == Allow && st.executionError == None
    requires st.selectedTool in registry
    ensures var input := SafetyInput(session, st.selectedTool, st.toolArguments);
            var n := ExecuteActionTool(registry, tools, session, st);
            n.Continue? && n.invoked && n.state.inner == st.inner
            && SubgraphAudit(n.state, st.inner.value) == FinalAudit(st.inner.value, tools(input))
  {
  }

  /** The standalone subgraph: route, gate, execute, finalise. */
  method RunSubgraph(sink: AuditSink, registry: set<string>, checks: Checks, tools: Tools, session: Session,
                     route: Route, id: string)
    returns (ended: NodeResult, audit: Option<AuditRecord>)
    modifies sink
    ensures route.Reply? && route.text != "" ==>
              && ended == Continue(ActionState(Some(route.text), "", map[], Some(true), None, None, None), false)
              && audit == None && sink.Value() == old(sink.Value())
    ensures route.Selected? || route.text == "" ==>
              var (tool, arguments) := if route.Selected? then (route.tool, route.arguments) else ("", map[]);
              var input := SafetyInput(session, tool, arguments);
              var r := GateResult(checks, input, id);
              var before := if route.Selected? then ActionState(None, tool, arguments, None, Some(r), None, None)
                            else ActionState(Some(""), "", map[], Some(true), Some(r), None, None);
              if r.finalDecision == Deny then
                var text := if r.finalReasonHuman != "" then r.finalReasonHuman else r.finalReasonCode;
                && ended == Continue(before.(responseText := Some(text), success := Some(false)), false)
                && audit == None && sink.Value() == Persisted(old(sink.Value()), r.audit)
              else if tool !in registry then
                ended == KeyError && audit == None && sink.Value() == old(sink.Value())
              else
                && audit == Some(FinalAudit(r, tools(input)))
                && sink.Value() == Persisted(old(sink.Value()), FinalAudit(r, tools(input)))
                && match tools(input)
                   case Returned(success, message) =>
                     ended == Continue(before.(rawToolResult := Some(Returned(success, message)), success := Some(true)), true)
                   case ToolRaised(text) =>
                     ended == Continue(before.(rawToolResult := Some(Returned(Some(false), Some(text))),
                                               executionError := Some(text), success := Some(false),
                                               responseText := Some("Tool execution failed: " + text)), true)
  {
    var st := InnerSafetyNode(sink, checks, session, Routed(route), id);
    ended := ExecuteActionTool(registry, tools, session, st);
    audit := None;
    if ended.Continue? {
      if st.inner != None && st.inner.value.finalDecision == Allow {
        CallersAgree(registry, tools, session, st);
      }
      audit := FinalizeAudit(sink, ended.state);
    }
  }
}

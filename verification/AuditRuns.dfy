/** Any number of gated calls from both callers, interleaved: what the audit log holds in every
    reachable state. */
module AuditRuns {
  import opened InnerSafety
  import opened Wrappers

  datatype Path = PlanStep | Subgraph

  datatype Request = Request(path: Path, input: SafetyInput)

  datatype Phase =
    | Waiting
    | Refused                                        // plan path: unknown tool, never gated
    | Allowed(result: SafetyResult)                  // gated, tool not yet run
    | Ran(result: SafetyResult, outcome: ToolOutcome)
    | Aborted(result: SafetyResult)                  // subgraph: allowed but not registered
    | Done(result: SafetyResult, ended: Option<ToolOutcome>, audit: AuditRecord)   // how the tool ended, if it ran

  datatype System = System(phases: map<nat, Phase>, sink: SinkState, issued: set<string>, invoked: multiset<nat>)

  /** One atomic step of call c. The checks and the tool may answer differently each time. */
  datatype Action =
    | Gate(c: nat, checks: Checks, id: string)
    | RunTool(c: nat, outcome: ToolOutcome)
    | Finish(c: nat)

  ghost function Start(requests: map<nat, Request>): System {
    System(map c | c in requests :: Waiting, SinkState({}, []), {}, multiset{})
  }

  /** Ids are fresh: a gate step draws one that no call has drawn before. */
  ghost predicate Enabled(s: System, a: Action) {
    && a.c in s.phases
    && match a
       case Gate(c, _, id) => s.phases[c].Waiting? && id !in s.issued
       case RunTool(c, _) => s.phases[c].Allowed?
       case Finish(c) => s.phases[c].Ran?
  }

  ghost function Step(requests: map<nat, Request>, registry: set<string>, s: System, a: Action): System
    requires s.phases.Keys == requests.Keys
  {
    if !Enabled(s, a) then s else
      var request := requests[a.c];
      match a
      case Gate(c, checks, id) =>
        if request.path.PlanStep? && request.input.toolName !in registry then s.(phases := s.phases[c := Refused])
        else
          var r := GateResult(checks, request.input, id);
          if r.finalDecision == Deny then
            System(s.phases[c := Done(r, None, r.audit)], Persisted(s.sink, r.audit), s.issued + {id}, s.invoked)
          else s.(phases := s.phases[c := Allowed(r)], issued := s.issued + {id})
      case RunTool(c, outcome) =>
        var r := s.phases[c].result;
        if request.input.toolName !in registry then s.(phases := s.phases[c := Aborted(r)])
        else s.(phases := s.phases[c := Ran(r, outcome)], invoked := s.invoked + multiset{c})
      case Finish(c) =>
        var audit := FinalAudit(s.phases[c].result, s.phases[c].outcome);
        s.(phases := s.phases[c := Done(s.phases[c].result, Some(s.phases[c].outcome), audit)], sink := Persisted(s.sink, audit))
  }

  ghost function After(requests: map<nat, Request>, registry: set<string>, actions: seq<Action>): (s: System)
    ensures s.phases.Keys == requests.Keys
  {
    if actions == [] then Start(requests) else
      Step(requests, registry, After(requests, registry, actions[..|actions| - 1]), actions[|actions| - 1])
  }

  // ---------------------------------------------------------------------
  // Invariant
  // ---------------------------------------------------------------------

  ghost predicate HasResult(p: Phase) {
    !p.Waiting? && !p.Refused?
  }

  /** The audit id of a call that went through the gate. */
  ghost function IdOf(p: Phase): string
    requires HasResult(p)
  {
    p.result.audit.auditId
  }

  ghost predicate CallOk(requests: map<nat, Request>, registry: set<string>, s: System, c: nat)
    requires c in s.phases && s.phases.Keys == requests.Keys
  {
    var p := s.phases[c];
    && (HasResult(p) ==> WellShaped(p.result, requests[c].input) && IdOf(p) in s.issued)
    && match p
       case Waiting => s.invoked[c] == 0
       case Refused => s.invoked[c] == 0 && requests[c].path.PlanStep? && requests[c].input.toolName !in registry
       case Allowed(r) => s.invoked[c] == 0 && r.finalDecision == Allow && IdOf(p) !in s.sink.persisted
                          && (requests[c].path.PlanStep? ==> requests[c].input.toolName in registry)
       case Ran(r, _) => s.invoked[c] == 1 && r.finalDecision == Allow && IdOf(p) !in s.sink.persisted
                         && requests[c].input.toolName in registry
       case Aborted(r) => s.invoked[c] == 0 && r.finalDecision == Allow && IdOf(p) !in s.sink.persisted
                          && requests[c].path.Subgraph? && requests[c].input.toolName !in registry
       case Done(r, ended, audit) =>
                              && IdOf(p) in s.sink.persisted && audit in s.sink.log
                              && audit.auditId == IdOf(p) && audit.decision == r.finalDecision
                              && (audit.executionAttempted <==> r.finalDecision == Allow)
                              && s.invoked[c] == (if r.finalDecision == Allow then 1 else 0)
                              && (r.finalDecision == Deny ==> ended == None && audit == r.audit)
                              && (r.finalDecision == Allow ==> ended.Some? && audit == FinalAudit(r, ended.value))
  }

  ghost predicate LogOk(sink: SinkState) {
    && (forall i, j :: 0 <= i < j < |sink.log| ==> sink.log[i].auditId != sink.log[j].auditId)
    && (forall i :: 0 <= i < |sink.log| ==> sink.log[i].auditId in sink.persisted)
  }

  ghost predicate Inv(requests: map<nat, Request>, registry: set<string>, s: System)
    requires s.phases.Keys == requests.Keys
  {
    && (forall c :: c in s.phases ==> CallOk(requests, registry, s, c))
    && (forall c, d | c in s.phases && d in s.phases && c != d && HasResult(s.phases[c]) && HasResult(s.phases[d]) ::
          IdOf(s.phases[c]) != IdOf(s.phases[d]))
    && s.sink.persisted <= s.issued
    && LogOk(s.sink)
    && (forall r :: r in s.sink.log ==> exists c :: OwnsRecord(s, c, r))
  }

  ghost predicate OwnsRecord(s: System, c: nat, r: AuditRecord) {
    c in s.phases && s.phases[c].Done? && s.phases[c].audit == r
  }

  lemma {:induction false} PersistKeepsLog(sink: SinkState, record: AuditRecord)
    requires LogOk(sink) && record.auditId !in sink.persisted
    ensures LogOk(Persisted(sink, record)) && record in Persisted(sink, record).log
    ensures forall r :: r in Persisted(sink, record).log <==> r in sink.log || r == record
  {
    var log := sink.log + [record];
    assert log[|sink.log|] == record;
  }

  /** A call other than the one that steps keeps its facts. */
  lemma {:induction false} OthersKept(requests: map<nat, Request>, registry: set<string>, s: System, a: Action, d: nat)
    requires s.phases.Keys == requests.Keys && Inv(requests, registry, s) && Enabled(s, a)
    requires d in s.phases && d != a.c
    ensures d in Step(requests, registry, s, a).phases && Step(requests, registry, s, a).phases[d] == s.phases[d]
    ensures CallOk(requests, registry, Step(requests, registry, s, a), d)
  {
    hide WellShaped, GateResult, FinalAudit, LogOk;
    assert CallOk(requests, registry, s, d);
    var s' := Step(requests, registry, s, a);
    assert s'.invoked[d] == s.invoked[d];
    if HasResult(s.phases[d]) {
      assert a.Finish? ==> IdOf(s.phases[a.c]) != IdOf(s.phases[d]);
      assert a.Finish? ==> FinalAudit(s.phases[a.c].result, s.phases[a.c].outcome).auditId == IdOf(s.phases[a.c]) by {
        FinalAuditKeeps(s, a);
      }
    }
  }

  lemma {:induction false} FinalAuditKeeps(s: System, a: Action)
    ensures a.Finish? && a.c in s.phases && s.phases[a.c].Ran? ==>
              var r, o := s.phases[a.c].result, s.phases[a.c].outcome;
              && FinalAudit(r, o).auditId == r.audit.auditId && FinalAudit(r, o).decision == r.audit.decision
              && FinalAudit(r, o).executionAttempted
  {
  }

  /** The stepping call itself. */
  lemma {:induction false} OwnKept(requests: map<nat, Request>, registry: set<string>, s: System, a: Action)
    requires s.phases.Keys == requests.Keys && Inv(requests, registry, s) && Enabled(s, a)
    ensures var s' := Step(requests, registry, s, a);
            && CallOk(requests, registry, s', a.c) && LogOk(s'.sink)
            && s.sink.persisted <= s'.sink.persisted <= s'.issued && s.issued <= s'.issued
            && (forall r :: r in s'.sink.log ==> r in s.sink.log || OwnsRecord(s', a.c, r))
            && (a.Gate? && HasResult(s'.phases[a.c]) ==> IdOf(s'.phases[a.c]) !in s.issued)
            && (!a.Gate? ==> HasResult(s'.phases[a.c]) && IdOf(s'.phases[a.c]) == IdOf(s.phases[a.c]))
  {
    hide GateResult, FinalAudit, WellShaped;
    var c, s' := a.c, Step(requests, registry, s, a);
    assert CallOk(requests, registry, s, c);
    match a {
      case Gate(_, checks, id) =>
        var r := GateResult(checks, requests[c].input, id);
        GateResultShape(checks, requests[c].input, id);
        ShapeFacts(r, requests[c].input);
        if r.finalDecision == Deny { PersistKeepsLog(s.sink, r.audit); }
      case RunTool(_, _) =>
      case Finish(_) =>
        FinalAuditKeeps(s, a);
        ShapeFacts(s.phases[c].result, requests[c].input);
        PersistKeepsLog(s.sink, FinalAudit(s.phases[c].result, s.phases[c].outcome));
    }
  }

  lemma {:induction false} ShapeFacts(r: SafetyResult, input: SafetyInput)
    requires WellShaped(r, input)
    ensures r.audit.decision == r.finalDecision && !r.audit.executionAttempted
  {
  }

  lemma {:induction false} StepKeeps(requests: map<nat, Request>, registry: set<string>, s: System, a: Action)
    requires s.phases.Keys == requests.Keys && Inv(requests, registry, s)
    ensures Step(requests, registry, s, a).phases.Keys == requests.Keys
    ensures Inv(requests, registry, Step(requests, registry, s, a))
  {
    if Enabled(s, a) {
      hide Step, Enabled, CallOk, LogOk;
      var s' := Step(requests, registry, s, a);
      StepKeys(requests, registry, s, a);
      OwnKept(requests, registry, s, a);
      forall d | d in s'.phases && d != a.c ensures s'.phases[d] == s.phases[d] && CallOk(requests, registry, s', d) {
        OthersKept(requests, registry, s, a, d);
      }
      forall c, d | c in s'.phases && d in s'.phases && c != d && HasResult(s'.phases[c]) && HasResult(s'.phases[d])
        ensures IdOf(s'.phases[c]) != IdOf(s'.phases[d])
      {
        IdsApart(requests, registry, s, a, c, d);
      }
      forall r | r in s'.sink.log ensures exists c :: OwnsRecord(s', c, r) {
        if !OwnsRecord(s', a.c, r) {
          var c :| OwnsRecord(s, c, r);
          assert OwnsRecord(s', c, r);
        }
      }
    }
  }

  lemma {:induction false} StepKeys(requests: map<nat, Request>, registry: set<string>, s: System, a: Action)
    requires s.phases.Keys == requests.Keys && Enabled(s, a)
    ensures Step(requests, registry, s, a).phases.Keys == requests.Keys && a.c in s.phases
  {
  }

  lemma {:induction false} IdsApart(requests: map<nat, Request>, registry: set<string>, s: System, a: Action, c: nat, d: nat)
    requires s.phases.Keys == requests.Keys && Inv(requests, registry, s) && Enabled(s, a)
    requires var s' := Step(requests, registry, s, a);
             c in s'.phases && d in s'.phases && c != d && HasResult(s'.phases[c]) && HasResult(s'.phases[d])
    ensures IdOf(Step(requests, registry, s, a).phases[c]) != IdOf(Step(requests, registry, s, a).phases[d])
  {
    hide Step, LogOk;
    StepKeys(requests, registry, s, a);
    OwnKept(requests, registry, s, a);
    if c != a.c { OthersKept(requests, registry, s, a, c); }
    if d != a.c { OthersKept(requests, registry, s, a, d); }
  }

  /** The invariant holds in every reachable state. */
  lemma {:induction false} Reachable(requests: map<nat, Request>, registry: set<string>, actions: seq<Action>)
    ensures Inv(requests, registry, After(requests, registry, actions))
  {
    if actions != [] {
      var n := |actions| - 1;
      Reachable(requests, registry, actions[..n]);
      StepKeeps(requests, registry, After(requests, registry, actions[..n]), actions[n]);
    }
  }

  // ---------------------------------------------------------------------
  // What it gives
  // ---------------------------------------------------------------------

  /** Exactly-once audit, for all interleavings: a finished call has one record in the log, with the gate's verdict,
      code and input; the tool ran once if all four layers allowed and never otherwise; the record says so, and says
      how the tool ended: it succeeded if it returned without `success` or with a true one, and the error is the text
      of the exception or the message of a failed result. */
  lemma {:induction false} ExactlyOnceAudit(requests: map<nat, Request>, registry: set<string>, actions: seq<Action>, c: nat)
    requires c in requests && After(requests, registry, actions).phases[c].Done?
    ensures var s, input := After(requests, registry, actions), requests[c].input;
            var r, ended, audit := s.phases[c].result, s.phases[c].ended, s.phases[c].audit;
            && audit.auditId == r.audit.auditId
            && (exists i :: 0 <= i < |s.sink.log| && s.sink.log[i] == audit
                            && forall j :: 0 <= j < |s.sink.log| && j != i ==> s.sink.log[j].auditId != audit.auditId)
            && WellShaped(r, input)
            && audit.decision == r.finalDecision && audit.shortCircuitedAt == r.shortCircuitedAt
            && audit.finalReasonCode == r.finalReasonCode
            && audit.toolName == input.toolName && audit.argsKeys == input.toolArgs.Keys && audit.session == input.session
            && s.invoked[c] == (if |r.layerResults| == 4 && r.layerResults[3].decision == Allow then 1 else 0)
            && (audit.executionAttempted <==> c in s.invoked)
            && match ended
               case None => r.finalDecision == Deny && audit.executionSucceeded == None && audit.executionError == None
               case Some(ToolRaised(text)) =>
                 r.finalDecision == Allow && audit.executionSucceeded == Some(false) && audit.executionError == Some(text)
               case Some(Returned(success, message)) =>
                 && r.finalDecision == Allow && audit.executionSucceeded == Some(success != Some(false))
                 && audit.executionError == if success == Some(false) then message else None
  {
    hide WellShaped;
    Reachable(requests, registry, actions);
    var s := After(requests, registry, actions);
    assert CallOk(requests, registry, s, c);
    var audit := s.phases[c].audit;
    var i :| 0 <= i < |s.sink.log| && s.sink.log[i] == audit;
    OnlyOne(s.sink.log, i);
    ShapeFields(s.phases[c].result, requests[c].input);
    AllowAtFour(s.phases[c].result, requests[c].input);
  }

  lemma {:induction false} OnlyOne(log: seq<AuditRecord>, i: nat)
    requires i < |log| && forall i, j :: 0 <= i < j < |log| ==> log[i].auditId != log[j].auditId
    ensures forall j :: 0 <= j < |log| && j != i ==> log[j].auditId != log[i].auditId
  {
  }

  lemma {:induction false} ShapeFields(r: SafetyResult, input: SafetyInput)
    requires WellShaped(r, input)
    ensures r.audit == AuditRecord(r.audit.auditId, input.toolName, input.toolArgs.Keys, input.session, r.finalDecision,
                                   r.shortCircuitedAt, r.finalReasonCode, false, None, None)
  {
  }

  /** The result of a call is the gate's answer to its input, and the outcome it records is the one its tool gave. */
  lemma {:induction false} Provenance(requests: map<nat, Request>, registry: set<string>, actions: seq<Action>, c: nat)
    requires c in requests
    ensures var p := After(requests, registry, actions).phases[c];
            && (!p.Waiting? && !p.Refused? ==>
                  exists k :: 0 <= k < |actions| && actions[k].Gate? && actions[k].c == c
                              && p.result == GateResult(actions[k].checks, requests[c].input, actions[k].id))
            && (p.Done? && p.ended.Some? ==> RunTool(c, p.ended.value) in actions)
            && (p.Ran? ==> RunTool(c, p.outcome) in actions)
  {
    hide GateResult, After, Step;
    if actions == [] {
      NoneBegun(requests, registry);
    } else {
      var n := |actions| - 1;
      Provenance(requests, registry, actions[..n], c);
      AfterLast(requests, registry, actions);
      var p, q := After(requests, registry, actions[..n]).phases[c], After(requests, registry, actions).phases[c];
      OwnStep(requests, registry, After(requests, registry, actions[..n]), actions[n], c);
      assert actions == actions[..n] + [actions[n]];
      if k :| 0 <= k < n && actions[..n][k].Gate? && actions[..n][k].c == c && !p.Waiting? && !p.Refused?
              && p.result == GateResult(actions[..n][k].checks, requests[c].input, actions[..n][k].id) {
        assert actions[k] == actions[..n][k];
      }
    }
  }

  lemma {:induction false} NoneBegun(requests: map<nat, Request>, registry: set<string>)
    ensures forall c :: c in requests ==> After(requests, registry, []).phases[c] == Waiting
  {
  }

  lemma {:induction false} AfterLast(requests: map<nat, Request>, registry: set<string>, actions: seq<Action>)
    requires actions != []
    ensures var n := |actions| - 1;
            After(requests, registry, actions) == Step(requests, registry, After(requests, registry, actions[..n]), actions[n])
  {
  }

  /** How one step can change a call. */
  lemma {:induction false} OwnStep(requests: map<nat, Request>, registry: set<string>, s: System, a: Action, c: nat)
    requires s.phases.Keys == requests.Keys && c in requests
    ensures Step(requests, registry, s, a).phases.Keys == requests.Keys
    ensures var p, q := s.phases[c], Step(requests, registry, s, a).phases[c];
            || q == p
            || q.Refused?
            || (a.Gate? && a.c == c && HasResult(q) && q.result == GateResult(a.checks, requests[c].input, a.id)
                && (q.Allowed? || (q.Done? && q.ended == None)))
            || (p.Allowed? && HasResult(q) && q.result == p.result
                && (q.Aborted? || (q.Ran? && a == RunTool(c, q.outcome))))
            || (p.Ran? && q.Done? && q.result == p.result && q.ended == Some(p.outcome))
  {
    hide GateResult, FinalAudit, Persisted;
  }

  lemma {:induction false} AllowAtFour(r: SafetyResult, input: SafetyInput)
    requires WellShaped(r, input)
    ensures r.finalDecision == Allow <==> |r.layerResults| == 4 && r.layerResults[3].decision == Allow
  {
  }

  /** The steps of one call, taken in turn, do what the caller's method does. */
  lemma {:induction false} StepsAreMethods(requests: map<nat, Request>, registry: set<string>, s: System, c: nat,
                                           checks: Checks, id: string, outcome: ToolOutcome)
    requires s.phases.Keys == requests.Keys && c in requests && s.phases[c].Waiting? && id !in s.issued
    ensures var gated := Step(requests, registry, s, Gate(c, checks, id));
            gated.phases.Keys == requests.Keys &&
            var ran := Step(requests, registry, gated, RunTool(c, outcome));
            ran.phases.Keys == requests.Keys &&
            var s' := Step(requests, registry, ran, Finish(c));
            var input, r := requests[c].input, GateResult(checks, requests[c].input, id);
            c in s'.phases &&
            if requests[c].path == PlanStep && input.toolName !in registry then
              s'.phases[c] == Refused && s'.sink == s.sink && s'.invoked == s.invoked
            else if r.finalDecision == Deny then
              s'.phases[c] == Done(r, None, r.audit) && s'.sink == Persisted(s.sink, r.audit) && s'.invoked == s.invoked
            else if input.toolName !in registry then
              s'.phases[c] == Aborted(r) && s'.sink == s.sink && s'.invoked == s.invoked
            else
              && s'.phases[c] == Done(r, Some(outcome), FinalAudit(r, outcome))
              && s'.sink == Persisted(s.sink, FinalAudit(r, outcome)) && s'.invoked == s.invoked + multiset{c}
  {
    hide GateResult, FinalAudit, Persisted;
  }

  /** A call that is past the gate and has not finished has no record yet, and none is in the log twice. */
  lemma {:induction false} NoEarlyRecord(requests: map<nat, Request>, registry: set<string>, actions: seq<Action>, c: nat)
    requires c in requests
    requires var p := After(requests, registry, actions).phases[c]; HasResult(p) && !p.Done?
    ensures var s := After(requests, registry, actions);
            forall i :: 0 <= i < |s.sink.log| ==> s.sink.log[i].auditId != s.phases[c].result.audit.auditId
  {
    hide WellShaped;
    Reachable(requests, registry, actions);
    var s := After(requests, registry, actions);
    assert CallOk(requests, registry, s, c);
  }

  /** A call that can take no further step, and that was gated, left its record unless it came through the
      subgraph with a tool the gate allowed but the registry does not hold. */
  lemma {:induction false} AuditLostIff(requests: map<nat, Request>, registry: set<string>, actions: seq<Action>, c: nat)
    requires c in requests
    requires var p := After(requests, registry, actions).phases[c]; p.Done? || p.Aborted?
    ensures var s := After(requests, registry, actions);
            (forall i :: 0 <= i < |s.sink.log| ==> s.sink.log[i].auditId != s.phases[c].result.audit.auditId) <==>
            requests[c].path.Subgraph? && s.phases[c].result.finalDecision == Allow && requests[c].input.toolName !in registry
  {
    hide WellShaped, FinalAudit;
    Reachable(requests, registry, actions);
    var s := After(requests, registry, actions);
    assert CallOk(requests, registry, s, c);
    if s.phases[c].Done? {
      ExactlyOnceAudit(requests, registry, actions, c);
      ExecutedToolsAreRegistered(requests, registry, actions, c);
    } else {
      NoEarlyRecord(requests, registry, actions, c);
    }
  }

  /** A run that loses its record: the gate allows a tool, every layer agreeing, but the registry lacks it. It takes
      an authorization matrix that grants a tool the registry does not hold; the shipped matrix grants only
      tools of the shipped registry. */
  lemma {:induction false} UnregisteredToolLosesAudit(input: SafetyInput, id: string, outcome: ToolOutcome)
    ensures var requests := map[0 := Request(Subgraph, input)];
            var checks: Checks := (layer, input) => (Decision.Allow, "", "");
            var s := After(requests, {}, [Gate(0, checks, id), RunTool(0, outcome)]);
            && s.phases[0].Aborted? && s.phases[0].result.finalDecision == Allow && s.sink.log == []
  {
    hide GateResult;
    var requests := map[0 := Request(Subgraph, input)];
    var checks: Checks := (layer, input) => (Decision.Allow, "", "");
    var gate, run := Gate(0, checks, id), RunTool(0, outcome);
    assert [gate, run][..1] == [gate] && [gate][..0] == [];
    AllowsIffAllLayersAllow(checks, input, id);
    assert After(requests, {}, []) == Start(requests);
    assert After(requests, {}, [gate]) == Step(requests, {}, Start(requests), gate);
    assert After(requests, {}, [gate, run]) == Step(requests, {}, After(requests, {}, [gate]), run);
  }

  /** Only registered tools are ever invoked. */
  lemma {:induction false} ExecutedToolsAreRegistered(requests: map<nat, Request>, registry: set<string>,
                                                      actions: seq<Action>, c: nat)
    requires c in requests
    ensures c in After(requests, registry, actions).invoked ==> requests[c].input.toolName in registry
  {
    hide GateResult, FinalAudit;
    if actions != [] {
      ExecutedToolsAreRegistered(requests, registry, actions[..|actions| - 1], c);
    }
  }

  /** Why ids must be fresh: a second record with a used id is dropped, whatever it says. */
  lemma {:induction false} ReusedIdDropsRecord(sink: SinkState, first: AuditRecord, second: AuditRecord)
    requires first.auditId == second.auditId && first.auditId !in sink.persisted
    ensures Persisted(Persisted(sink, first), second).log == sink.log + [first]
  {
  }
}

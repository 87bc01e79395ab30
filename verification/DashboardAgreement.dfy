/** What holds over every interleaving of the approval protocol: each request is decided at most once, and cards
    agree with the gateway. */
module DashboardAgreement {
  import opened Approvals
  import opened ApprovalRuns

  /** No dashboard holds two cards for one request, and a card that is not pending shows the gateway's status. */
  lemma {:induction false} CardsAgree(steps: seq<Step>, t: nat, i: nat)
    requires FreshRun(steps) && t < |Run(steps).tabs| && i < |Run(steps).tabs[t].cards|
    ensures UniqueIds(Run(steps).tabs[t].cards)
    ensures var s, card := Run(steps), Run(steps).tabs[t].cards[i];
            && card.id in s.requests
            && card.userId == s.requests[card.id].userId && card.context == s.requests[card.id].context
            && (card.status != Pending ==> card.status == s.requests[card.id].status)
  {
    hide Run, FreshRun;
    RunSound(steps);
    var s := Run(steps);
    assert TrueCards(s.requests, s.tabs[t].cards);
    assert TrueCard(s.requests, s.tabs[t].cards[i]);
  }

  lemma {:induction false} RunExtends(steps: seq<Step>, more: seq<Step>)
    requires FreshRun(steps + more)
    ensures Extends(Run(steps).requests, Run(steps + more).requests)
  {
    hide Next, Fresh;
    if more == [] {
      assert steps + more == steps;
    } else {
      var n := |more| - 1;
      assert (steps + more)[..|steps + more| - 1] == steps + more[..n];
      RunExtends(steps, more[..n]);
      StepExtends(Run(steps + more[..n]), more[n]);
    }
  }

  /** A status that is no longer pending never changes again. */
  lemma {:induction false} StatusSettles(steps: seq<Step>, more: seq<Step>, id: string)
    requires FreshRun(steps + more) && id in Run(steps).requests && Run(steps).requests[id].status != Pending
    ensures id in Run(steps + more).requests
    ensures Run(steps + more).requests[id] == Run(steps).requests[id]
  {
    RunExtends(steps, more);
  }

  /** The step is a POST of a decision on a request that is pending then. */
  predicate Accepts(s: System, step: Step, id: string) {
    && step.Submit? && step.id == id && step.tab < |s.tabs|
    && (step.action == "approve" || step.action == "reject")
    && id in s.requests && s.requests[id].status == Pending
  }

  function Acceptances(steps: seq<Step>, id: string): nat {
    if steps == [] then 0 else
      Acceptances(steps[..|steps| - 1], id) +
      if Accepts(Run(steps[..|steps| - 1]), steps[|steps| - 1], id) then 1 else 0
  }

  predicate IsDecided(requests: Requests, id: string) {
    id in requests && requests[id].status != Pending
  }

  lemma {:induction false} StepDecides(s: System, step: Step, id: string)
    requires Fresh(s, step)
    ensures IsDecided(Next(s, step).requests, id) <==> IsDecided(s.requests, id) || Accepts(s, step, id)
    ensures Accepts(s, step, id) ==> !IsDecided(s.requests, id)
  {
    hide Next;
    StepStores(s, step);
  }

  /** However many people decide at once, a request leaves pending at most once: exactly one decision is accepted
      if it is decided, none if it is not. */
  lemma {:induction false} DecidedOnce(steps: seq<Step>, id: string)
    requires FreshRun(steps)
    ensures Acceptances(steps, id) == if IsDecided(Run(steps).requests, id) then 1 else 0
  {
    if steps != [] {
      hide Next, Fresh, Accepts, IsDecided;
      var n := |steps| - 1;
      DecidedOnce(steps[..n], id);
      StepDecides(Run(steps[..n]), steps[n], id);
    }
  }

  /** The steps of a run that decide a request with a given text. */
  predicate PostedWhilePending(steps: seq<Step>, k: nat, id: string, action: string) {
    k < |steps| &&
    var s := Run(steps[..k]);
    && steps[k].Submit? && steps[k].tab < |s.tabs| && steps[k].id == id && steps[k].action == action
    && id in s.requests && s.requests[id].status == Pending
  }

  lemma {:induction false} PostedMore(steps: seq<Step>, step: Step, id: string, action: string)
    requires action == "approve" || action == "reject"
    ensures (exists k: nat :: PostedWhilePending(steps + [step], k, id, action))
            <==> (exists k: nat :: PostedWhilePending(steps, k, id, action))
                 || (Accepts(Run(steps), step, id) && step.action == action)
  {
    hide Run;
    var more := steps + [step];
    assert more[..|steps|] == steps && more[|steps|] == step;
    forall k: nat | k < |steps| ensures PostedWhilePending(more, k, id, action) <==> PostedWhilePending(steps, k, id, action) {
      assert more[..k] == steps[..k];
    }
    if k: nat :| PostedWhilePending(steps, k, id, action) {
      assert PostedWhilePending(more, k, id, action);
    }
    assert Accepts(Run(steps), step, id) && step.action == action ==> PostedWhilePending(more, |steps|, id, action);
  }

  /** A POST writes the status that its text stands for. */
  lemma {:induction false} StepStatus(s: System, step: Step, id: string)
    requires Fresh(s, step)
    ensures Accepts(s, step, id) ==>
              && id in Next(s, step).requests
              && Next(s, step).requests[id].status == if step.action == "approve" then Approve else Reject
    ensures !Accepts(s, step, id) && id in s.requests ==>
              id in Next(s, step).requests && Next(s, step).requests[id].status == s.requests[id].status
    ensures id !in s.requests && id in Next(s, step).requests ==> Next(s, step).requests[id].status == Pending
  {
    hide Next;
    StepStores(s, step);
  }

  /** A request stands approved exactly when "approve" was posted on it while it was pending, and rejected exactly
      when "reject" was. */
  lemma {:induction false} StatusIsPosted(steps: seq<Step>, id: string)
    requires FreshRun(steps)
    ensures id in Run(steps).requests && Run(steps).requests[id].status == Approve
            <==> exists k: nat :: PostedWhilePending(steps, k, id, "approve")
    ensures id in Run(steps).requests && Run(steps).requests[id].status == Reject
            <==> exists k: nat :: PostedWhilePending(steps, k, id, "reject")
  {
    if steps != [] {
      hide Next, Fresh, PostedWhilePending;
      var n := |steps| - 1;
      StatusIsPosted(steps[..n], id);
      StepStatus(Run(steps[..n]), steps[n], id);
      assert steps == steps[..n] + [steps[n]];
      PostedMore(steps[..n], steps[n], id, "approve");
      PostedMore(steps[..n], steps[n], id, "reject");
    }
  }
}

/** Every interleaving of callers, instructors, deliveries and dashboards: a request is decided at most
    once, and no dashboard ever shows a decision the gateway did not make. */
module ApprovalRuns {
  import opened Approvals
  import opened Wrappers

  /** A browser tab: who is signed in, the queue its event stream reads, and its cards. */
  datatype Tab = Tab(user: string, stream: Option<nat>, cards: seq<Card>)

  /** The reply to a POST on its way back to the tab that sent it. */
  datatype Answer = Answer(tab: nat, id: string, action: string, reply: Reply)

  /** Queues are numbered as they are created. One that is no longer registered may still be read. */
  datatype System = System(requests: Requests, connections: map<string, nat>, queues: seq<seq<Event>>,
                           tabs: seq<Tab>, answers: seq<Answer>)

  datatype Step =
    | Create(id: string, userId: string, instructorId: string, context: string)
    | Open(user: string)
    | Subscribe(tab: nat)
    | Drop(tab: nat)                                   // the stream is cancelled
    | Deliver(tab: nat, now: int)
    | Lose(tab: nat)                                   // read from the queue, never received
    | Submit(tab: nat, id: string, action: string, reason: string)
    | Receive(answer: nat)

  function Init(): System {
    System(map[], map[], [], [], [])
  }

  function Push(s: System, user: string, event: Event): System {
    if user in s.connections && s.connections[user] < |s.queues| then
      var q := s.connections[user];
      s.(queues := s.queues[q := s.queues[q] + [event]])
    else s
  }

  /** The queue a tab can read an event from now. */
  predicate CanRead(s: System, tab: nat) {
    && tab < |s.tabs| && s.tabs[tab].stream.Some?
    && s.tabs[tab].stream.value < |s.queues| && s.queues[s.tabs[tab].stream.value] != []
  }

  function Popped(s: System, tab: nat): System
    requires CanRead(s, tab)
  {
    var q := s.tabs[tab].stream.value;
    s.(queues := s.queues[q := s.queues[q][1..]])
  }

  function WithCards(s: System, tab: nat, cards: seq<Card>): System
    requires tab < |s.tabs|
  {
    s.(tabs := s.tabs[tab := s.tabs[tab].(cards := cards)])
  }

  /** The gateway's part of a POST: judge, store, tell both parties, answer. */
  function Post(s: System, step: Step): System
    requires step.Submit? && step.tab < |s.tabs|
  {
    var resolvedBy := s.tabs[step.tab].user;
    var reply := Judge(s.requests, step.id, step.action, resolvedBy);
    var stored := s.(requests := Settled(s.requests, step.id, reply),
                     answers := s.answers + [Answer(step.tab, step.id, step.action, reply)]);
    if !reply.Decided? then stored else
      var event := Resolved(step.id, reply.action, step.reason, resolvedBy);
      Push(Push(stored, s.requests[step.id].userId, event), s.requests[step.id].instructorId, event)
  }

  /** One step; a step that is not possible changes nothing. */
  function Next(s: System, step: Step): System {
    match step
    case Create(id, userId, instructorId, context) =>
      Push(s.(requests := s.requests[id := Request(userId, instructorId, context, Pending)]),
           instructorId, Asked(id, userId, context))
    case Open(user) => s.(tabs := s.tabs + [Tab(user, None, [])])
    case Subscribe(tab) =>
      if tab >= |s.tabs| then s else
        var user := s.tabs[tab].user;
        var stream := if user in s.connections then s.connections[user] else |s.queues|;
        s.(connections := s.connections[user := stream],
           queues := if user in s.connections then s.queues else s.queues + [[]],
           tabs := s.tabs[tab := s.tabs[tab].(stream := Some(stream))])
    case Drop(tab) =>
      if tab >= |s.tabs| || s.tabs[tab].stream == None then s else
        s.(connections := s.connections - {s.tabs[tab].user}, tabs := s.tabs[tab := s.tabs[tab].(stream := None)])
    case Deliver(tab, now) =>
      if !CanRead(s, tab) then s else
        WithCards(Popped(s, tab), tab, OnEvent(s.tabs[tab].cards, s.queues[s.tabs[tab].stream.value][0], now))
    case Lose(tab) => if !CanRead(s, tab) then s else Popped(s, tab)
    case Submit(tab, _, _, _) => if tab >= |s.tabs| then s else Post(s, step)
    case Receive(k) =>
      if k >= |s.answers| then s else
        var a := s.answers[k];
        var rest := s.(answers := s.answers[..k] + s.answers[k + 1..]);
        // The tab marks the card with the action it sent, not with anything in the reply.
        if a.reply.Decided? && a.tab < |s.tabs| && ActionOf(a.action).Some?
        then WithCards(rest, a.tab, ResolveRequest(s.tabs[a.tab].cards, a.id, ActionOf(a.action).value))
        else rest
  }

  function Run(steps: seq<Step>): System {
    if steps == [] then Init() else Next(Run(steps[..|steps| - 1]), steps[|steps| - 1])
  }

  predicate Fresh(s: System, step: Step) {
    step.Create? ==> step.id !in s.requests
  }

  /** New requests get new ids. */
  predicate FreshRun(steps: seq<Step>) {
    steps == [] || (FreshRun(steps[..|steps| - 1]) && Fresh(Run(steps[..|steps| - 1]), steps[|steps| - 1]))
  }

  // ---------------------------------------------------------------------
  // What is true of messages and cards
  // ---------------------------------------------------------------------

  /** Requests stay, keep their parties and context, and keep their status once it is not pending. */
  predicate Extends(old': Requests, new': Requests) {
    forall id :: id in old' ==>
      && id in new' && new'[id].(status := old'[id].status) == old'[id]
      && (old'[id].status != Pending ==> new'[id].status == old'[id].status)
  }

  predicate TrueEvent(requests: Requests, e: Event) {
    && e.id in requests
    && match e
       case Asked(id, userId, context) => requests[id].userId == userId && requests[id].context == context
       case Resolved(id, action, _, _) => action != Pending && requests[id].status == action
  }

  predicate TrueCard(requests: Requests, c: Card) {
    && c.id in requests && requests[c.id].userId == c.userId && requests[c.id].context == c.context
    && (c.status != Pending ==> requests[c.id].status == c.status)
  }

  predicate TrueAnswer(requests: Requests, a: Answer) {
    a.reply.Decided? ==>
      && ActionOf(a.action) == Some(a.reply.action)
      && a.id in requests && requests[a.id].status == a.reply.action
  }

  predicate TrueCards(requests: Requests, cards: seq<Card>) {
    UniqueIds(cards) && forall c :: c in cards ==> TrueCard(requests, c)
  }

  predicate QueuesTrue(requests: Requests, queues: seq<seq<Event>>) {
    forall q, e :: 0 <= q < |queues| && e in queues[q] ==> TrueEvent(requests, e)
  }

  predicate TabsTrue(requests: Requests, tabs: seq<Tab>) {
    forall t :: 0 <= t < |tabs| ==> TrueCards(requests, tabs[t].cards)
  }

  predicate AnswersTrue(requests: Requests, answers: seq<Answer>) {
    forall k :: 0 <= k < |answers| ==> TrueAnswer(requests, answers[k])
  }

  predicate Sound(s: System) {
    QueuesTrue(s.requests, s.queues) && TabsTrue(s.requests, s.tabs) && AnswersTrue(s.requests, s.answers)
  }

  lemma {:induction false} StillTrue(s: System, requests: Requests)
    requires Sound(s) && Extends(s.requests, requests)
    ensures Sound(s.(requests := requests))
  {
    forall t | 0 <= t < |s.tabs| ensures TrueCards(requests, s.tabs[t].cards) {
      assert TrueCards(s.requests, s.tabs[t].cards);
    }
    forall q, e | 0 <= q < |s.queues| && e in s.queues[q] ensures TrueEvent(requests, e) {
      assert TrueEvent(s.requests, e);
    }
    forall k | 0 <= k < |s.answers| ensures TrueAnswer(requests, s.answers[k]) {
      assert TrueAnswer(s.requests, s.answers[k]);
    }
  }

  lemma {:induction false} PushTrue(s: System, user: string, event: Event)
    requires Sound(s) && TrueEvent(s.requests, event)
    ensures Sound(Push(s, user, event)) && Push(s, user, event).requests == s.requests
  {
  }

  lemma {:induction false} CardsTrue(s: System, tab: nat, cards: seq<Card>)
    requires Sound(s) && tab < |s.tabs| && TrueCards(s.requests, cards)
    ensures Sound(WithCards(s, tab, cards))
  {
    hide TrueCards, TrueEvent, TrueAnswer;
  }

  lemma {:induction false} EventTrue(requests: Requests, cards: seq<Card>, event: Event, now: int)
    requires TrueCards(requests, cards) && TrueEvent(requests, event)
    ensures TrueCards(requests, OnEvent(cards, event, now))
  {
    EventKeepsIds(cards, event, now);
    if event.Resolved? {
      ResolvedTrue(requests, cards, event.id, event.action);
    }
  }

  lemma {:induction false} ResolvedTrue(requests: Requests, cards: seq<Card>, id: string, action: Status)
    requires TrueCards(requests, cards) && id in requests && requests[id].status == action
    ensures TrueCards(requests, ResolveRequest(cards, id, action))
  {
    var more := ResolveRequest(cards, id, action);
    forall c | c in more ensures TrueCard(requests, c) {
      var i :| 0 <= i < |more| && more[i] == c;
      assert TrueCard(requests, cards[i]);
    }
  }

  lemma {:induction false} PoppedTrue(s: System, tab: nat)
    requires Sound(s) && CanRead(s, tab)
    ensures Sound(Popped(s, tab))
  {
    var q := s.tabs[tab].stream.value;
    assert forall e :: e in s.queues[q][1..] ==> e in s.queues[q];
  }

  /** The only two steps that write the store. */
  function Stored(s: System, step: Step): Requests {
    match step
    case Create(id, userId, instructorId, context) => s.requests[id := Request(userId, instructorId, context, Pending)]
    case Submit(tab, id, action, _) =>
      if tab < |s.tabs| then Settled(s.requests, id, Judge(s.requests, id, action, s.tabs[tab].user)) else s.requests
    case _ => s.requests
  }

  lemma {:induction false} StepStores(s: System, step: Step)
    ensures Next(s, step).requests == Stored(s, step)
  {
    hide OnEvent, ResolveRequest, Settled, Judge;
  }

  /** The store only ever moves forward. */
  lemma {:induction false} StepExtends(s: System, step: Step)
    requires Fresh(s, step)
    ensures Extends(s.requests, Next(s, step).requests)
  {
    hide Next;
    StepStores(s, step);
  }

  lemma {:induction false} PostSound(s: System, step: Step)
    requires Sound(s) && step.Submit? && step.tab < |s.tabs|
    ensures Sound(Post(s, step))
  {
    var resolvedBy := s.tabs[step.tab].user;
    var reply := Judge(s.requests, step.id, step.action, resolvedBy);
    var requests := Settled(s.requests, step.id, reply);
    StillTrue(s, requests);
    var stored := s.(requests := requests, answers := s.answers + [Answer(step.tab, step.id, step.action, reply)]);
    assert Sound(stored);
    if reply.Decided? {
      var event := Resolved(step.id, reply.action, step.reason, resolvedBy);
      PushTrue(stored, s.requests[step.id].userId, event);
      PushTrue(Push(stored, s.requests[step.id].userId, event), s.requests[step.id].instructorId, event);
    }
  }

  lemma {:induction false} StepSound(s: System, step: Step)
    requires Sound(s) && Fresh(s, step)
    ensures Sound(Next(s, step))
  {
    hide QueuesTrue, TabsTrue, AnswersTrue, TrueEvent, TrueCards, TrueAnswer, OnEvent, ResolveRequest;
    match step
    case Create(id, userId, instructorId, context) =>
      CreateSound(s, id, userId, instructorId, context);
    case Open(user) => OpenSound(s, user);
    case Subscribe(tab) => if tab < |s.tabs| { StreamSound(s, step); }
    case Drop(tab) => if tab < |s.tabs| { StreamSound(s, step); }
    case Deliver(tab, now) =>
      if CanRead(s, tab) {
        var event := s.queues[s.tabs[tab].stream.value][0];
        PoppedTrue(s, tab);
        HeadTrue(s, tab);
        EventTrue(s.requests, s.tabs[tab].cards, event, now);
        CardsTrue(Popped(s, tab), tab, OnEvent(s.tabs[tab].cards, event, now));
      }
    case Lose(tab) => if CanRead(s, tab) { PoppedTrue(s, tab); }
    case Submit(tab, _, _, _) => if tab < |s.tabs| { PostSound(s, step); }
    case Receive(k) => if k < |s.answers| { ReceiveSound(s, k); }
  }

  lemma {:induction false} HeadTrue(s: System, tab: nat)
    requires Sound(s) && CanRead(s, tab)
    ensures TrueEvent(s.requests, s.queues[s.tabs[tab].stream.value][0])
    ensures TrueCards(s.requests, s.tabs[tab].cards)
  {
  }

  lemma {:induction false} CreateSound(s: System, id: string, userId: string, instructorId: string, context: string)
    requires Sound(s) && id !in s.requests
    ensures Sound(Next(s, Create(id, userId, instructorId, context)))
  {
    var requests := s.requests[id := Request(userId, instructorId, context, Pending)];
    StillTrue(s, requests);
    PushTrue(s.(requests := requests), instructorId, Asked(id, userId, context));
  }

  lemma {:induction false} OpenSound(s: System, user: string)
    requires Sound(s)
    ensures Sound(Next(s, Open(user)))
  {
  }

  lemma {:induction false} StreamSound(s: System, step: Step)
    requires Sound(s) && (step.Subscribe? || step.Drop?) && step.tab < |s.tabs|
    ensures Sound(Next(s, step))
  {
    hide TrueCards, TrueEvent, TrueAnswer;
  }

  lemma {:induction false} ReceiveSound(s: System, k: nat)
    requires Sound(s) && k < |s.answers|
    ensures Sound(Next(s, Receive(k)))
  {
    hide TrueCards, TrueEvent;
    var a := s.answers[k];
    var rest := s.(answers := s.answers[..k] + s.answers[k + 1..]);
    assert TrueAnswer(s.requests, a) && Sound(rest);
    if a.reply.Decided? && a.tab < |s.tabs| {
      ResolvedTrue(s.requests, s.tabs[a.tab].cards, a.id, a.reply.action);
      CardsTrue(rest, a.tab, ResolveRequest(s.tabs[a.tab].cards, a.id, a.reply.action));
    }
  }

  lemma {:induction false} RunSound(steps: seq<Step>)
    requires FreshRun(steps)
    ensures Sound(Run(steps))
  {
    if steps != [] {
      var n := |steps| - 1;
      RunSound(steps[..n]);
      StepSound(Run(steps[..n]), steps[n]);
    }
  }

  // ---------------------------------------------------------------------
  // The steps are the gateway's methods
  // ---------------------------------------------------------------------

  /** Registered queues exist and are not shared between users. */
  predicate Wired(s: System) {
    && (forall u :: u in s.connections ==> s.connections[u] < |s.queues|)
    && (forall u, v :: u in s.connections && v in s.connections && u != v ==> s.connections[u] != s.connections[v])
  }

  lemma {:induction false} StepWired(s: System, step: Step)
    requires Wired(s)
    ensures Wired(Next(s, step))
  {
    if !step.Subscribe? && !step.Drop? {
      hide Next;
    }
  }

  lemma {:induction false} RunMore(steps: seq<Step>, step: Step)
    ensures Run(steps + [step]) == Next(Run(steps), step)
    ensures FreshRun(steps + [step]) <==> FreshRun(steps) && Fresh(Run(steps), step)
  {
    assert (steps + [step])[..|steps|] == steps;
  }

  lemma {:induction false} RunWired(steps: seq<Step>)
    ensures Wired(Run(steps))
  {
    hide Next;
    if steps != [] {
      RunWired(steps[..|steps| - 1]);
      StepWired(Run(steps[..|steps| - 1]), steps[|steps| - 1]);
    }
  }

  /** The waiting events of every registered user. */
  function Waiting(s: System): Inboxes
    requires Wired(s)
  {
    map u | u in s.connections :: s.queues[s.connections[u]]
  }

  lemma {:induction false} PushIsPushed(s: System, user: string, event: Event)
    requires Wired(s)
    ensures Wired(Push(s, user, event)) && Waiting(Push(s, user, event)) == Pushed(Waiting(s), user, event)
  {
    if user in s.connections {
      var q, s' := s.connections[user], Push(s, user, event);
      assert s'.queues == s.queues[q := s.queues[q] + [event]];
      forall u | u in s.connections ensures Waiting(s')[u] == Pushed(Waiting(s), user, event)[u] {
        if u != user { assert s.connections[u] != q; }
      }
      assert Waiting(s').Keys == Pushed(Waiting(s), user, event).Keys;
    }
  }

  /** Each step changes store and queues exactly as the method it stands for promises:
      CreateApprovalRequest... */
  lemma {:induction false} CreateIsMethod(s: System, id: string, userId: string, instructorId: string, context: string)
    requires Wired(s)
    ensures var s' := Next(s, Create(id, userId, instructorId, context));
            && Wired(s') && s'.requests == s.requests[id := Request(userId, instructorId, context, Pending)]
            && Waiting(s') == Pushed(Waiting(s), instructorId, Asked(id, userId, context))
  {
    hide Wired, Waiting, Pushed;
    var stored := s.(requests := s.requests[id := Request(userId, instructorId, context, Pending)]);
    assert Wired(stored) && Waiting(stored) == Waiting(s) by { SameWiring(s, stored); }
    PushIsPushed(stored, instructorId, Asked(id, userId, context));
  }

  lemma {:induction false} SameWiring(s: System, s': System)
    requires Wired(s) && s'.connections == s.connections && s'.queues == s.queues
    ensures Wired(s') && Waiting(s') == Waiting(s)
  {
  }

  /** ...HandleApproval... */
  lemma {:induction false} PostIsMethod(s: System, step: Step)
    requires Wired(s) && step.Submit? && step.tab < |s.tabs|
    ensures var s', resolvedBy := Next(s, step), s.tabs[step.tab].user;
            var reply := Judge(s.requests, step.id, step.action, resolvedBy);
            && Wired(s') && s'.requests == Settled(s.requests, step.id, reply)
            && Waiting(s') ==
                 if !reply.Decided? then Waiting(s) else
                   var event := Resolved(step.id, reply.action, step.reason, resolvedBy);
                   Pushed(Pushed(Waiting(s), s.requests[step.id].userId, event), s.requests[step.id].instructorId, event)
  {
    hide Wired, Waiting, Pushed;
    var resolvedBy := s.tabs[step.tab].user;
    var reply := Judge(s.requests, step.id, step.action, resolvedBy);
    var stored := s.(requests := Settled(s.requests, step.id, reply),
                     answers := s.answers + [Answer(step.tab, step.id, step.action, reply)]);
    SameWiring(s, stored);
    if reply.Decided? {
      var event := Resolved(step.id, reply.action, step.reason, resolvedBy);
      PushIsPushed(stored, s.requests[step.id].userId, event);
      PushIsPushed(Push(stored, s.requests[step.id].userId, event), s.requests[step.id].instructorId, event);
    }
  }

  /** ...GetConnection... */
  lemma {:induction false} SubscribeIsMethod(s: System, tab: nat)
    requires Wired(s) && tab < |s.tabs|
    ensures var s', user := Next(s, Subscribe(tab)), s.tabs[tab].user;
            && Wired(s') && s'.requests == s.requests
            && Waiting(s') == (if user in s.connections then Waiting(s) else Waiting(s)[user := []])
            && user in s'.connections && s'.tabs[tab].stream == Some(s'.connections[user])
  {
    hide Wired;
    StepWired(s, Subscribe(tab));
    var s', user := Next(s, Subscribe(tab)), s.tabs[tab].user;
    if user in s.connections {
      assert s'.connections == s.connections;
      SameWiring(s, s');
    } else {
      NewQueue(s, s', user);
    }
  }

  /** The dashboard's side: a delivered event leaves the front of the queue that the tab streams and updates the tab's
      cards... */
  lemma {:induction false} DeliverSpelled(s: System, tab: nat, now: int)
    requires tab < |s.tabs| && s.tabs[tab].stream.Some? && s.tabs[tab].stream.value < |s.queues|
    requires s.queues[s.tabs[tab].stream.value] != []
    ensures var s', q := Next(s, Deliver(tab, now)), s.tabs[tab].stream.value;
            && s'.requests == s.requests && s'.connections == s.connections && s'.answers == s.answers
            && |s'.queues| == |s.queues| && s.queues[q] == [s.queues[q][0]] + s'.queues[q]
            && (forall p :: 0 <= p < |s.queues| && p != q ==> s'.queues[p] == s.queues[p])
            && |s'.tabs| == |s.tabs|
            && s'.tabs[tab] == Tab(s.tabs[tab].user, Some(q), OnEvent(s.tabs[tab].cards, s.queues[q][0], now))
            && forall t :: 0 <= t < |s.tabs| && t != tab ==> s'.tabs[t] == s.tabs[t]
  {
    hide OnEvent;
  }

  /** ...and an answer is received once; an accepted one marks the sender's cards with the decision posted. */
  lemma {:induction false} ReceiveSpelled(s: System, k: nat)
    requires k < |s.answers|
    ensures var s', a := Next(s, Receive(k)), s.answers[k];
            && s'.requests == s.requests && s'.connections == s.connections && s'.queues == s.queues
            && |s'.answers| == |s.answers| - 1
            && (forall i :: 0 <= i < |s'.answers| ==> s'.answers[i] == s.answers[if i < k then i else i + 1])
            && |s'.tabs| == |s.tabs|
            && (forall t :: 0 <= t < |s.tabs| && (t != a.tab || !a.reply.Decided?) ==> s'.tabs[t] == s.tabs[t])
            && (a.tab < |s.tabs| && a.reply.Decided? && (a.action == "approve" || a.action == "reject") ==>
                  var old', new' := s.tabs[a.tab], s'.tabs[a.tab];
                  && new'.user == old'.user && new'.stream == old'.stream && |new'.cards| == |old'.cards|
                  && forall i :: 0 <= i < |old'.cards| ==>
                       new'.cards[i] == if old'.cards[i].id != a.id then old'.cards[i]
                                        else old'.cards[i].(status := if a.action == "approve" then Approve else Reject))
  {
  }

  lemma {:induction false} NewQueue(s: System, s': System, user: string)
    requires Wired(s) && Wired(s') && user !in s.connections
    requires s'.connections == s.connections[user := |s.queues|] && s'.queues == s.queues + [[]]
    ensures Waiting(s') == Waiting(s)[user := []]
  {
  }

  /** ...and RemoveConnection. */
  lemma {:induction false} DropIsMethod(s: System, tab: nat)
    requires Wired(s) && tab < |s.tabs| && s.tabs[tab].stream.Some?
    ensures var s' := Next(s, Drop(tab));
            && Wired(s') && s'.requests == s.requests && Waiting(s') == Waiting(s) - {s.tabs[tab].user}
            && s'.tabs[tab].stream == None
  {
    StepWired(s, Drop(tab));
  }
}

/** A dashboard tab that alone reads its user's event queue: what it will show for every request put to that user,
    and what goes wrong with a second tab. */
module SoleReader {
  import opened Approvals
  import opened ApprovalRuns
  import opened DashboardAgreement
  import opened Wrappers

  /** The tab streams its user's registered queue, and no other tab streams it. */
  predicate Alone(s: System, t: nat) {
    && t < |s.tabs| && s.tabs[t].user in s.connections
    && s.tabs[t].stream == Some(s.connections[s.tabs[t].user])
    && forall o :: 0 <= o < |s.tabs| && o != t ==> s.tabs[o].stream != s.tabs[t].stream
  }

  /** Opening or closing a stream of the same user, or losing one of the tab's events. */
  predicate Disturbs(s: System, t: nat, step: Step) {
    t < |s.tabs| &&
    match step
    case Subscribe(o) => o < |s.tabs| && s.tabs[o].user == s.tabs[t].user
    case Drop(o) => o < |s.tabs| && s.tabs[o].user == s.tabs[t].user
    case Lose(o) => o == t
    case _ => false
  }

  predicate Quiet(steps: seq<Step>, more: seq<Step>, t: nat) {
    more == [] ||
    (Quiet(steps, more[..|more| - 1], t) && !Disturbs(Run(steps + more[..|more| - 1]), t, more[|more| - 1]))
  }

  /** What the tab shows for the request once it has read its queue. */
  function Outlook(s: System, t: nat, id: string): Option<Status>
    requires Wired(s) && Alone(s, t)
  {
    After(Shown(s.tabs[t].cards, id), s.queues[s.connections[s.tabs[t].user]], id)
  }

  lemma {:induction false} StepAlone(s: System, step: Step, t: nat)
    requires Wired(s) && Alone(s, t) && !Disturbs(s, t, step)
    ensures Alone(Next(s, step), t) && Next(s, step).tabs[t].user == s.tabs[t].user
    ensures Next(s, step).connections[s.tabs[t].user] == s.connections[s.tabs[t].user]
  {
    if !step.Subscribe? && !step.Drop? {
      hide Next;
    }
  }

  lemma {:induction false} PushOutlook(s: System, t: nat, user: string, event: Event, id: string)
    requires Wired(s) && Alone(s, t)
    ensures Wired(Push(s, user, event)) && Alone(Push(s, user, event), t)
    ensures Outlook(Push(s, user, event), t, id)
            == if user == s.tabs[t].user then Seen(Outlook(s, t, id), event, id) else Outlook(s, t, id)
  {
    hide Shown, After, Seen;
    var q := s.connections[s.tabs[t].user];
    AfterMore(Shown(s.tabs[t].cards, id), s.queues[q], event, id);
  }

  /** The tab will show the gateway's status of the request. */
  predicate Follows(s: System, t: nat, id: string) {
    && Wired(s) && Alone(s, t) && id in s.requests && s.requests[id].instructorId == s.tabs[t].user
    && Outlook(s, t, id) == Some(s.requests[id].status)
  }

  lemma {:induction false} UnknownUnseen(requests: Requests, cards: seq<Card>, events: seq<Event>, id: string)
    requires TrueCards(requests, cards) && (forall e :: e in events ==> TrueEvent(requests, e)) && id !in requests
    ensures After(Shown(cards, id), events, id) == None
  {
    if events == [] {
      ShownListed(cards, id);
      assert forall i :: 0 <= i < |cards| ==> TrueCard(requests, cards[i]);
    } else {
      var n := |events| - 1;
      UnknownUnseen(requests, cards, events[..n], id);
      assert TrueEvent(requests, events[n]);
    }
  }

  /** Once decided and shown so, true events change nothing. */
  lemma {:induction false} AfterDecided(requests: Requests, events: seq<Event>, id: string)
    requires (forall e :: e in events ==> TrueEvent(requests, e)) && IsDecided(requests, id)
    ensures After(Some(requests[id].status), events, id) == Some(requests[id].status)
  {
    if events != [] {
      var n := |events| - 1;
      AfterDecided(requests, events[..n], id);
      assert TrueEvent(requests, events[n]);
    }
  }

  lemma {:induction false} CreateFollows(s: System, t: nat, step: Step)
    requires Sound(s) && Wired(s) && Alone(s, t) && step.Create? && Fresh(s, step)
    requires step.instructorId == s.tabs[t].user
    ensures Follows(Next(s, step), t, step.id)
  {
    var stored := s.(requests := s.requests[step.id := Request(step.userId, step.instructorId, step.context, Pending)]);
    var event := Asked(step.id, step.userId, step.context);
    assert Seen(None, event, event.id) == Some(Pending);
    hide Shown, After, Seen;
    PushOutlook(stored, t, step.instructorId, event, step.id);
    assert TrueCards(s.requests, s.tabs[t].cards);
    UnknownUnseen(s.requests, s.tabs[t].cards, s.queues[s.connections[s.tabs[t].user]], step.id);
  }

  lemma {:induction false} OtherCreateFollows(s: System, t: nat, step: Step, id: string)
    requires Follows(s, t, id) && step.Create? && step.id != id
    ensures Follows(Next(s, step), t, id)
  {
    hide Shown, After;
    var stored := s.(requests := s.requests[step.id := Request(step.userId, step.instructorId, step.context, Pending)]);
    PushOutlook(stored, t, step.instructorId, Asked(step.id, step.userId, step.context), id);
  }

  lemma {:induction false} SameOutlook(s: System, s': System, t: nat, id: string)
    requires Wired(s) && Alone(s, t)
    requires s'.connections == s.connections && s'.queues == s.queues && s'.tabs == s.tabs
    ensures Wired(s') && Alone(s', t) && Outlook(s', t, id) == Outlook(s, t, id)
  {
  }

  lemma {:induction false} PostFollows(s: System, t: nat, step: Step, id: string)
    requires Follows(s, t, id) && step.Submit? && step.tab < |s.tabs|
    ensures Follows(Post(s, step), t, id)
  {
    hide Wired, Alone, Outlook;
    var resolvedBy := s.tabs[step.tab].user;
    var reply := Judge(s.requests, step.id, step.action, resolvedBy);
    var stored := s.(requests := Settled(s.requests, step.id, reply),
                     answers := s.answers + [Answer(step.tab, step.id, step.action, reply)]);
    SameOutlook(s, stored, t, id);
    if reply.Decided? {
      var event := Resolved(step.id, reply.action, step.reason, resolvedBy);
      PushOutlook(stored, t, s.requests[step.id].userId, event, id);
      PushOutlook(Push(stored, s.requests[step.id].userId, event), t, s.requests[step.id].instructorId, event, id);
    }
  }

  lemma {:induction false} DeliverFollows(s: System, t: nat, step: Step, id: string)
    requires Follows(s, t, id) && step.Deliver? && CanRead(s, step.tab)
    ensures Follows(Next(s, step), t, id)
  {
    hide Shown, After, Seen, OnEvent;
    if step.tab == t {
      var q := s.connections[s.tabs[t].user];
      AfterFirst(Shown(s.tabs[t].cards, id), s.queues[q], id);
      ShownOnEvent(s.tabs[t].cards, s.queues[q][0], step.now, id);
    }
  }

  lemma {:induction false} ReceiveFollows(s: System, t: nat, k: nat, id: string)
    requires Sound(s) && Follows(s, t, id) && k < |s.answers|
    ensures Follows(Next(s, Receive(k)), t, id)
  {
    hide Shown, After, Seen, ResolveRequest;
    var a := s.answers[k];
    var q := s.connections[s.tabs[t].user];
    assert TrueAnswer(s.requests, a);
    if a.reply.Decided? && a.tab == t && ActionOf(a.action).Some? {
      ShownResolved(s.tabs[t].cards, a.id, a.reply.action, id);
      if a.id == id {
        AfterDecided(s.requests, s.queues[q], id);
      }
    }
  }

  lemma {:induction false} StepFollows(s: System, t: nat, step: Step, id: string)
    requires Sound(s) && Follows(s, t, id) && Fresh(s, step) && !Disturbs(s, t, step)
    ensures Follows(Next(s, step), t, id)
  {
    match step
    case Create(_, _, _, _) => OtherCreateFollows(s, t, step, id);
    case Deliver(tab, _) => if CanRead(s, tab) { DeliverFollows(s, t, step, id); }
    case Submit(tab, _, _, _) => if tab < |s.tabs| { PostFollows(s, t, step, id); }
    case Receive(k) => if k < |s.answers| { ReceiveFollows(s, t, k, id); }
    case _ =>
      hide Shown, After;
      StepWired(s, step);
      StepAlone(s, step, t);
  }

  lemma {:induction false} StepTracks(s: System, t: nat, step: Step, id: string)
    requires Sound(s) && Wired(s) && Alone(s, t) && Fresh(s, step) && !Disturbs(s, t, step)
    requires id in s.requests && s.requests[id].instructorId == s.tabs[t].user ==> Follows(s, t, id)
    ensures var s' := Next(s, step);
            && Wired(s') && Alone(s', t) && s'.tabs[t].user == s.tabs[t].user
            && (id in s'.requests && s'.requests[id].instructorId == s'.tabs[t].user ==> Follows(s', t, id))
  {
    hide Follows, Wired, Disturbs, Sound;
    StepWired(s, step);
    StepAlone(s, step, t);
    StepExtends(s, step);
    var s' := Next(s, step);
    if id in s'.requests && s'.requests[id].instructorId == s.tabs[t].user {
      if id in s.requests {
        StepFollows(s, t, step, id);
      } else {
        StepStores(s, step);
        CreateFollows(s, t, step);
      }
    }
  }

  lemma {:induction false} RunTracks(steps: seq<Step>, more: seq<Step>, t: nat, id: string)
    requires FreshRun(steps + more) && Alone(Run(steps), t) && Quiet(steps, more, t)
    requires id !in Run(steps).requests
    ensures var s' := Run(steps + more);
            && Wired(s') && Alone(s', t) && s'.tabs[t].user == Run(steps).tabs[t].user
            && (id in s'.requests && s'.requests[id].instructorId == s'.tabs[t].user ==> Follows(s', t, id))
  {
    hide Next, Fresh, Follows, Wired, Disturbs;
    if more == [] {
      assert steps + more == steps;
      RunWired(steps);
    } else {
      var n := |more| - 1;
      assert (steps + more)[..|steps + more| - 1] == steps + more[..n];
      RunTracks(steps, more[..n], t, id);
      RunSound(steps + more[..n]);
      StepTracks(Run(steps + more[..n]), t, more[n], id);
    }
  }

  lemma {:induction false} StepKeepsUsers(s: System, step: Step)
    ensures |s.tabs| <= |Next(s, step).tabs|
    ensures forall t :: 0 <= t < |s.tabs| ==> Next(s, step).tabs[t].user == s.tabs[t].user
  {
    hide OnEvent, ResolveRequest, Judge, Settled;
  }

  lemma {:induction false} RunKeepsUsers(steps: seq<Step>, more: seq<Step>)
    ensures |Run(steps).tabs| <= |Run(steps + more).tabs|
    ensures forall t :: 0 <= t < |Run(steps).tabs| ==> Run(steps + more).tabs[t].user == Run(steps).tabs[t].user
  {
    hide Next;
    if more == [] {
      assert steps + more == steps;
    } else {
      var n := |more| - 1;
      assert (steps + more)[..|steps + more| - 1] == steps + more[..n];
      RunKeepsUsers(steps, more[..n]);
      StepKeepsUsers(Run(steps + more[..n]), more[n]);
    }
  }

  lemma {:induction false} QuietIs(steps: seq<Step>, more: seq<Step>, t: nat)
    requires t < |Run(steps).tabs|
    requires forall k | 0 <= k < |more| ::
               match more[k]
               case Subscribe(o) =>
                 var tabs := Run(steps + more[..k]).tabs; o < |tabs| ==> tabs[o].user != Run(steps).tabs[t].user
               case Drop(o) =>
                 var tabs := Run(steps + more[..k]).tabs; o < |tabs| ==> tabs[o].user != Run(steps).tabs[t].user
               case Lose(o) => o != t
               case _ => true
    ensures Quiet(steps, more, t)
  {
    hide Run;
    if more != [] {
      var n := |more| - 1;
      forall k | 0 <= k < n ensures more[..n][..k] == more[..k] && more[..n][k] == more[k] {
      }
      QuietIs(steps, more[..n], t);
      RunKeepsUsers(steps, more[..n]);
    }
  }

  /** While a tab is the only reader of its user's queue, every request put to that user since is on its
      way to the right card, and once the queue is read the card shows exactly the gateway's status. The tab streams
      the registered queue and no other tab does; later no stream of that user is opened or cancelled and none of the
      tab's events is lost. */
  lemma {:induction false} OnlyReaderIsExact(steps: seq<Step>, more: seq<Step>, t: nat, id: string)
    requires FreshRun(steps + more)
    requires var s := Run(steps);
             && t < |s.tabs| && s.tabs[t].user in s.connections
             && s.tabs[t].stream == Some(s.connections[s.tabs[t].user])
             && forall o :: 0 <= o < |s.tabs| && o != t ==> s.tabs[o].stream != s.tabs[t].stream
    requires forall k | 0 <= k < |more| ::
               match more[k]
               case Subscribe(o) =>
                 var tabs := Run(steps + more[..k]).tabs; o < |tabs| ==> tabs[o].user != Run(steps).tabs[t].user
               case Drop(o) =>
                 var tabs := Run(steps + more[..k]).tabs; o < |tabs| ==> tabs[o].user != Run(steps).tabs[t].user
               case Lose(o) => o != t
               case _ => true
    requires id !in Run(steps).requests && id in Run(steps + more).requests
    requires Run(steps + more).requests[id].instructorId == Run(steps).tabs[t].user
    ensures var s' := Run(steps + more);
            && Wired(s') && Alone(s', t)
            && Outlook(s', t, id) == Some(s'.requests[id].status)
            && (s'.queues[s'.connections[s'.tabs[t].user]] == [] ==>
                  && Shown(s'.tabs[t].cards, id) == Some(s'.requests[id].status)
                  && exists i :: 0 <= i < |s'.tabs[t].cards| && s'.tabs[t].cards[i].id == id
                                 && s'.tabs[t].cards[i].status == s'.requests[id].status)
  {
    hide Run, FreshRun, Quiet, Shown;
    QuietIs(steps, more, t);
    RunTracks(steps, more, t, id);
    var s' := Run(steps + more);
    if Shown(s'.tabs[t].cards, id).Some? {
      var i := ShownIsCard(s'.tabs[t].cards, id);
    }
  }

  lemma {:induction false} RunFour(a: Step, b: Step, c: Step, d: Step)
    ensures Run([a, b, c, d]) == Next(Next(Next(Next(Init(), a), b), c), d)
    ensures !a.Create? && !b.Create? && !c.Create? && !d.Create? ==> FreshRun([a, b, c, d])
  {
    hide Next;
    RunMore([], a);
    RunMore([a], b);
    RunMore([a, b], c);
    RunMore([a, b, c], d);
    assert [] + [a] == [a];
    assert [a] + [b] == [a, b];
    assert [a, b] + [c] == [a, b, c];
    assert [a, b, c] + [d] == [a, b, c, d];
  }

  /** Two tabs open for one user: they share a queue. */
  function TwoTabs(user: string): seq<Step> {
    [Open(user), Open(user), Subscribe(0), Subscribe(1)]
  }

  lemma {:induction false} TwoTabsShare(user: string)
    ensures FreshRun(TwoTabs(user))
    ensures Run(TwoTabs(user)) == System(map[], map[user := 0], [[]], [Tab(user, Some(0), []), Tab(user, Some(0), [])], [])
  {
    RunFour(Open(user), Open(user), Subscribe(0), Subscribe(1));
    var one := System(map[], map[], [], [Tab(user, None, [])], []);
    var two := System(map[], map[], [], [Tab(user, None, []), Tab(user, None, [])], []);
    var three := System(map[], map[user := 0], [[]], [Tab(user, Some(0), []), Tab(user, None, [])], []);
    assert Next(Init(), Open(user)) == one;
    assert Next(one, Open(user)) == two;
    assert Next(two, Subscribe(0)) == three;
  }

  /** So one tab can take an event that the other, its queue read empty, then never shows. */
  lemma {:induction false} SecondTabTakesEvents(id: string, student: string, user: string)
    ensures var steps := TwoTabs(user) + [Create(id, student, user, "")] + [Deliver(1, 0)];
            var s := Run(steps);
            && FreshRun(steps) && id in s.requests && s.requests[id].instructorId == user
            && |s.tabs| == 2 && s.tabs[0].user == user && s.tabs[0].stream == Some(0)
            && s.queues == [[]] && Shown(s.tabs[0].cards, id) == None && Shown(s.tabs[1].cards, id) == Some(Pending)
  {
    TwoTabsShare(user);
    var event := Asked(id, student, "");
    var created := Run(TwoTabs(user)).(requests := map[id := Request(student, user, "", Pending)], queues := [[event]]);
    RunMore(TwoTabs(user), Create(id, student, user, ""));
    RunMore(TwoTabs(user) + [Create(id, student, user, "")], Deliver(1, 0));
    assert Next(Run(TwoTabs(user)), Create(id, student, user, "")) == created by {
      assert [] + [event] == [event];
    }
    assert [event][1..] == [];
    assert Next(created, Deliver(1, 0)).queues == [[]];
  }
}

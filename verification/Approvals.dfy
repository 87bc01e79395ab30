/** Human approval of flagged operations: the gateway's request store and its per-user event queues,
    the dashboard's cards, and every interleaving of the two. */
module Approvals {
  import opened Wrappers

  datatype Status = Pending | Approve | Reject

  datatype Request = Request(userId: string, instructorId: string, context: string, status: Status)

  datatype Event =
    | Asked(id: string, userId: string, context: string)
    | Resolved(id: string, action: Status, reason: string, resolvedBy: string)

  /** What a POST is answered with: 400, 404, 409 or 200. */
  datatype Reply = BadAction | NotFound | AlreadyDecided(status: Status) | Decided(action: Status, resolvedBy: string)

  type Requests = map<string, Request>
  type Inboxes = map<string, seq<Event>>

  function ActionOf(action: string): Option<Status> {
    if action == "approve" then Some(Approve) else if action == "reject" then Some(Reject) else None
  }

  /** The checks in order, all before the first suspension point. */
  function Judge(requests: Requests, id: string, action: string, resolvedBy: string): Reply {
    if ActionOf(action) == None then BadAction
    else if id !in requests then NotFound
    else if requests[id].status != Pending then AlreadyDecided(requests[id].status)
    else Decided(ActionOf(action).value, resolvedBy)
  }

  /** The store after the checks: only an accepted decision writes, and only a status. */
  function Settled(requests: Requests, id: string, reply: Reply): Requests {
    if id in requests && reply.Decided? then requests[id := requests[id].(status := reply.action)] else requests
  }

  /** An event reaches a user only while a queue is registered for them. */
  function Pushed(inboxes: Inboxes, user: string, event: Event): Inboxes {
    if user in inboxes then inboxes[user := inboxes[user] + [event]] else inboxes
  }

  // ---------------------------------------------------------------------
  // The gateway
  // ---------------------------------------------------------------------

  class Queue {
    var events: seq<Event>

    constructor ()
      ensures events == []
    {
      events := [];
    }
  }

  class ApprovalServer {
    var connections: map<string, Queue>
    var requests: Requests

    ghost predicate Valid()
      reads this`connections
    {
      forall u, v :: u in connections && v in connections && u != v ==> connections[u] != connections[v]
    }

    ghost function Waiting(): Inboxes
      reads this`connections, connections.Values
    {
      map u | u in connections :: connections[u].events
    }

    constructor ()
      ensures Valid() && requests == map[] && connections == map[]
    {
      connections, requests := map[], map[];
    }

    /** The user's queue, created on first use. */
    method GetConnection(user: string) returns (queue: Queue)
      requires Valid()
      modifies this`connections
      ensures Valid() && user in connections && connections[user] == queue
      ensures user in old(connections) ==> connections == old(connections)
      ensures user !in old(connections) ==> fresh(queue) && connections == old(connections)[user := queue]
      ensures Waiting() == if user in old(connections) then old(Waiting()) else old(Waiting())[user := []]
    {
      if user !in connections {
        queue := new Queue();
        connections := connections[user := queue];
      } else {
        queue := connections[user];
      }
    }

    method RemoveConnection(user: string)
      requires Valid()
      modifies this`connections
      ensures Valid() && connections == old(connections) - {user}
      ensures Waiting() == old(Waiting()) - {user}
    {
      connections := connections - {user};
    }

    method PushEvent(user: string, event: Event)
      requires Valid()
      modifies connections.Values
      ensures Valid() && Waiting() == Pushed(old(Waiting()), user, event)
      ensures user in connections ==> Waiting() == old(Waiting())[user := old(Waiting())[user] + [event]]
      ensures user !in connections ==> Waiting() == old(Waiting())
    {
      if user in connections {
        var queue := connections[user];
        queue.events := queue.events + [event];
      }
    }

    /** Store a pending request under a fresh id and tell the instructor. */
    method CreateApprovalRequest(id: string, userId: string, instructorId: string, context: string)
      requires Valid() && id !in requests
      modifies this`requests, connections.Values
      ensures Valid() && requests == old(requests)[id := Request(userId, instructorId, context, Pending)]
      ensures Waiting() == Pushed(old(Waiting()), instructorId, Asked(id, userId, context))
    {
      requests := requests[id := Request(userId, instructorId, context, Pending)];
      PushEvent(instructorId, Asked(id, userId, context));
    }

    method ResolveApprovalRequest(id: string, action: Status) returns (resolved: Option<Request>)
      modifies this`requests
      ensures id !in old(requests) ==> resolved == None && requests == old(requests)
      ensures id in old(requests) ==>
                && resolved == Some(old(requests)[id].(status := action))
                && requests == old(requests)[id := resolved.value]
    {
      if id !in requests {
        return None;
      }
      requests := requests[id := requests[id].(status := action)];
      resolved := Some(requests[id]);
    }

    /** Answer a POST. "approve" and "reject" decide a pending request, and nothing else does; exactly the accepted
        decision changes the store and tells both parties. */
    method HandleApproval(id: string, action: string, reason: string, resolvedBy: string) returns (reply: Reply)
      requires Valid()
      modifies this`requests, connections.Values
      ensures Valid() && reply == Judge(old(requests), id, action, resolvedBy)
      ensures requests == Settled(old(requests), id, reply)
      ensures action != "approve" && action != "reject" ==> reply == BadAction
      ensures (action == "approve" || action == "reject") && id !in old(requests) ==> reply == NotFound
      ensures (action == "approve" || action == "reject") && id in old(requests) && old(requests)[id].status != Pending ==>
                reply == AlreadyDecided(old(requests)[id].status)
      ensures action == "approve" && id in old(requests) && old(requests)[id].status == Pending ==>
                reply == Decided(Approve, resolvedBy)
                && requests == old(requests)[id := old(requests)[id].(status := Approve)]
      ensures action == "reject" && id in old(requests) && old(requests)[id].status == Pending ==>
                reply == Decided(Reject, resolvedBy)
                && requests == old(requests)[id := old(requests)[id].(status := Reject)]
      ensures !reply.Decided? ==> requests == old(requests) && Waiting() == old(Waiting())
      ensures reply.Decided? ==>
                var event := Resolved(id, reply.action, reason, resolvedBy);
                Waiting() == Pushed(Pushed(old(Waiting()), requests[id].userId, event), requests[id].instructorId, event)
      ensures reply.Decided? ==>
                && Waiting().Keys == old(Waiting()).Keys
                && forall u | u in Waiting() ::
                     var event := Resolved(id, reply.action, reason, resolvedBy);
                     Waiting()[u] == old(Waiting())[u] + (if u == requests[id].userId then [event] else [])
                                     + (if u == requests[id].instructorId then [event] else [])
    {
      hide Waiting, Pushed, Valid;
      if action != "approve" && action != "reject" {
        return BadAction;
      }
      if id !in requests {
        return NotFound;
      }
      if requests[id].status != Pending {
        return AlreadyDecided(requests[id].status);
      }
      var decision := if action == "approve" then Approve else Reject;
      var resolved := ResolveApprovalRequest(id, decision);
      var event := Resolved(id, decision, reason, resolvedBy);
      PushedTwice(Waiting(), resolved.value.userId, resolved.value.instructorId, event);
      PushEvent(resolved.value.userId, event);
      PushEvent(resolved.value.instructorId, event);
      reply := Decided(decision, resolvedBy);
    }
  }

  lemma {:induction false} PushedTwice(inboxes: Inboxes, a: string, b: string, event: Event)
    ensures var r := Pushed(Pushed(inboxes, a, event), b, event);
            && r.Keys == inboxes.Keys
            && forall u | u in r ::
                 r[u] == inboxes[u] + (if u == a then [event] else []) + (if u == b then [event] else [])
  {
    forall u | u in inboxes ensures Pushed(Pushed(inboxes, a, event), b, event)[u]
                                    == inboxes[u] + (if u == a then [event] else []) + (if u == b then [event] else [])
    {
      assert inboxes[u] + [] == inboxes[u] && inboxes[u] + [event] + [] == inboxes[u] + [event];
    }
  }

  // ---------------------------------------------------------------------
  // The dashboard's cards
  // ---------------------------------------------------------------------

  datatype Card = Card(id: string, userId: string, context: string, status: Status, receivedAt: int)

  predicate Listed(cards: seq<Card>, id: string) {
    exists i :: 0 <= i < |cards| && cards[i].id == id
  }

  function AddRequest(cards: seq<Card>, id: string, userId: string, context: string, now: int): seq<Card> {
    if Listed(cards, id) then cards else [Card(id, userId, context, Pending, now)] + cards
  }

  function ResolveRequest(cards: seq<Card>, id: string, action: Status): (r: seq<Card>)
    ensures |r| == |cards|
  {
    seq(|cards|, i requires 0 <= i < |cards| => if cards[i].id == id then cards[i].(status := action) else cards[i])
  }

  function OnEvent(cards: seq<Card>, event: Event, now: int): seq<Card> {
    match event
    case Asked(id, userId, context) => AddRequest(cards, id, userId, context, now)
    case Resolved(id, action, _, _) => ResolveRequest(cards, id, action)
  }

  predicate UniqueIds(cards: seq<Card>) {
    forall i, j :: 0 <= i < j < |cards| ==> cards[i].id != cards[j].id
  }

  /** The status the dashboard shows for an id. */
  function Shown(cards: seq<Card>, id: string): Option<Status> {
    if cards == [] then None
    else if cards[0].id == id then Some(cards[0].status)
    else Shown(cards[1..], id)
  }

  /** What one event does to the shown status. */
  function Seen(status: Option<Status>, event: Event, id: string): Option<Status> {
    if event.id != id then status
    else if event.Asked? then (if status == None then Some(Pending) else status)
    else if status == None then None
    else Some(event.action)
  }

  /** What a queue of events will do to it. */
  function After(status: Option<Status>, events: seq<Event>, id: string): Option<Status> {
    if events == [] then status else Seen(After(status, events[..|events| - 1], id), events[|events| - 1], id)
  }

  /** A request event puts a pending card in front unless its id has one; a result event sets the status of the cards
      with its id and leaves everything else of them, and all other cards, as they are. */
  lemma {:induction false} CardsOnEvent(cards: seq<Card>, event: Event, now: int)
    ensures event.Asked? && (exists i :: 0 <= i < |cards| && cards[i].id == event.id) ==> OnEvent(cards, event, now) == cards
    ensures event.Asked? && (forall i :: 0 <= i < |cards| ==> cards[i].id != event.id) ==>
              OnEvent(cards, event, now) == [Card(event.id, event.userId, event.context, Pending, now)] + cards
    ensures event.Resolved? ==>
              && |OnEvent(cards, event, now)| == |cards|
              && forall i | 0 <= i < |cards| ::
                   OnEvent(cards, event, now)[i]
                   == if cards[i].id == event.id
                      then Card(cards[i].id, cards[i].userId, cards[i].context, event.action, cards[i].receivedAt)
                      else cards[i]
  {
  }

  /** The shown status of an id that has a card is the status of one. */
  lemma {:induction false} ShownIsCard(cards: seq<Card>, id: string) returns (i: nat)
    requires Shown(cards, id).Some?
    ensures i < |cards| && cards[i].id == id && cards[i].status == Shown(cards, id).value
  {
    if cards[0].id == id {
      i := 0;
    } else {
      i := ShownIsCard(cards[1..], id);
      i := i + 1;
    }
  }

  lemma {:induction false} ShownListed(cards: seq<Card>, id: string)
    ensures Shown(cards, id).Some? <==> Listed(cards, id)
  {
    if cards != [] {
      ShownListed(cards[1..], id);
      if i: nat :| i < |cards| && cards[i].id == id {
        if i > 0 { assert cards[1..][i - 1].id == id; }
      }
      if Listed(cards[1..], id) {
        var i :| 0 <= i < |cards| - 1 && cards[1..][i].id == id;
        assert cards[i + 1].id == id;
      }
    }
  }

  lemma {:induction false} ShownResolved(cards: seq<Card>, id: string, action: Status, x: string)
    ensures Shown(ResolveRequest(cards, id, action), x)
            == if x == id && Shown(cards, x).Some? then Some(action) else Shown(cards, x)
  {
    if cards != [] {
      ShownResolved(cards[1..], id, action, x);
      assert ResolveRequest(cards, id, action)[1..] == ResolveRequest(cards[1..], id, action);
    }
  }

  lemma {:induction false} ShownOnEvent(cards: seq<Card>, event: Event, now: int, x: string)
    ensures Shown(OnEvent(cards, event, now), x) == Seen(Shown(cards, x), event, x)
  {
    match event
    case Asked(id, userId, context) =>
      ShownListed(cards, id);
      assert ([Card(id, userId, context, Pending, now)] + cards)[1..] == cards;
    case Resolved(id, action, _, _) => ShownResolved(cards, id, action, x);
  }

  /** Both list updates keep ids unique and never drop a card. */
  lemma {:induction false} EventKeepsIds(cards: seq<Card>, event: Event, now: int)
    requires UniqueIds(cards)
    ensures UniqueIds(OnEvent(cards, event, now))
    ensures forall id :: Listed(cards, id) ==> Listed(OnEvent(cards, event, now), id)
  {
    var more := OnEvent(cards, event, now);
    forall id | Listed(cards, id) ensures Listed(more, id) {
      var i :| 0 <= i < |cards| && cards[i].id == id;
      assert more[i + |more| - |cards|].id == id;
    }
  }

  lemma {:induction false} AfterFirst(status: Option<Status>, events: seq<Event>, id: string)
    requires events != []
    ensures After(status, events, id) == After(Seen(status, events[0], id), events[1..], id)
  {
    var n := |events| - 1;
    if n == 0 {
      assert events[..0] == [] && events[1..] == [];
    } else {
      AfterFirst(status, events[..n], id);
      assert events[..n][1..] == events[1..][..n - 1];
    }
  }

  lemma {:induction false} AfterMore(status: Option<Status>, events: seq<Event>, event: Event, id: string)
    ensures After(status, events + [event], id) == Seen(After(status, events, id), event, id)
  {
    assert (events + [event])[..|events|] == events;
  }
}

/**
 One dashboard client of the event stream across any number of disconnects and reconnects, within one
 server process: the catch-up batch built from `Last-Event-ID`, then live events from a bounded queue.
 */
module SseStream {
  import opened Common
  import opened EventBus

  datatype User = User(isAdmin: bool, groups: set<string>)

  /** Admins see everything; others only events tagged with one of their groups. */
  predicate Visible(user: User, item: Item) {
    user.isAdmin || (item.group.Some? && item.group.value in user.groups)
  }

  function VisibleOf(items: seq<Item>, user: User): seq<Item> {
    if items == [] then []
    else
      var rest := VisibleOf(items[..|items| - 1], user);
      if Visible(user, items[|items| - 1]) then rest + [items[|items| - 1]] else rest
  }

  datatype Connection =
    | Offline
    | CaughtUp(user: User)                    // gap sent, not yet subscribed
    | Live(user: User, queue: seq<Item>)

  datatype Sighting = Sighting(item: Item, user: User)

  /** `lastId` is what the browser sends back; `seen` is everything it received, gap batches included. */
  datatype State = State(log: seq<Item>, connection: Connection, lastId: int, seen: seq<Sighting>)

  datatype Event =
    | Publish(kind: string, group: Option<string>, data: string)
    | Connect(user: User, received: bool)      // `received` is false when the connection breaks first
    | Subscribe
    | Deliver(received: bool)
    | Disconnect

  function Tagged(items: seq<Item>, user: User): (r: seq<Sighting>)
    ensures |r| == |items| && forall i :: 0 <= i < |items| ==> r[i] == Sighting(items[i], user)
  {
    seq(|items|, i requires 0 <= i < |items| => Sighting(items[i], user))
  }

  /** The catch-up batch; a `Last-Event-ID` of zero or less asks for none. */
  function Gap(log: seq<Item>, replaySize: nat, lastId: int, user: User): seq<Item> {
    if lastId > 0 then VisibleOf(ReplayOf(log, replaySize, lastId), user) else []
  }

  /** Receiving a non-empty batch moves the browser's id to its last event; an empty one carries no id. */
  function Receive(s: State, items: seq<Item>, user: User): State {
    s.(seen := s.seen + Tagged(items, user),
       lastId := if items == [] then s.lastId else items[|items| - 1].id)
  }

  function Step(s: State, e: Event, maxQueue: int, replaySize: nat): State {
    match e
    case Publish(kind, group, data) =>
      var item := Item(|s.log| + 1, kind, group, data);
      var full := s.connection.Live? && maxQueue > 0 && |s.connection.queue| >= maxQueue;
      s.(log := s.log + [item],
         connection := if s.connection.Live? && !full then s.connection.(queue := s.connection.queue + [item])
                       else s.connection)
    case Connect(user, received) =>
      if !s.connection.Offline? then s
      else if !received then s
      else Receive(s, Gap(s.log, replaySize, s.lastId, user), user).(connection := CaughtUp(user))
    case Subscribe =>
      if s.connection.CaughtUp? then s.(connection := Live(s.connection.user, [])) else s
    case Deliver(received) =>
      if !s.connection.Live? || s.connection.queue == [] then s
      else
        var item, user := s.connection.queue[0], s.connection.user;
        var popped := s.(connection := Live(user, s.connection.queue[1..]));
        if !Visible(user, item) then popped
        else if !received then s.(connection := Offline)
        else Receive(popped, [item], user)
    case Disconnect => s.(connection := Offline)
  }

  function Run(s: State, events: seq<Event>, maxQueue: int, replaySize: nat): State {
    if events == [] then s
    else Step(Run(s, events[..|events| - 1], maxQueue, replaySize), events[|events| - 1], maxQueue, replaySize)
  }

  predicate Start(s: State) { s.log == [] && s.connection.Offline? && s.lastId == 0 && s.seen == [] }

  /** What the client can rely on. */
  ghost predicate Good(s: State) {
    && (forall i, j :: 0 <= i < j < |s.seen| ==> s.seen[i].item.id < s.seen[j].item.id)
    && (forall i :: 0 <= i < |s.seen| ==> Visible(s.seen[i].user, s.seen[i].item) && s.seen[i].item in s.log)
    && s.lastId == (if s.seen == [] then 0 else s.seen[|s.seen| - 1].item.id)
  }

  ghost predicate Inv(s: State) {
    && Numbered(s.log)
    && Good(s)
    && s.lastId <= |s.log|
    && (s.connection.Live? ==>
          && IncreasingIds(s.connection.queue)
          && (forall i :: 0 <= i < |s.connection.queue| ==>
                s.connection.queue[i] in s.log && s.lastId < s.connection.queue[i].id <= |s.log|))
  }

  lemma {:induction false} VisibleMembers(items: seq<Item>, user: User)
    requires IncreasingIds(items)
    ensures IncreasingIds(VisibleOf(items, user))
    ensures forall i :: 0 <= i < |VisibleOf(items, user)| ==>
              Visible(user, VisibleOf(items, user)[i]) && VisibleOf(items, user)[i] in items
  {
    if items != [] {
      var init := items[..|items| - 1];
      VisibleMembers(init, user);
      var rest := VisibleOf(init, user);
      forall i | 0 <= i < |rest| ensures rest[i] in items && rest[i].id < items[|items| - 1].id {
        assert rest[i] in init;
        var j :| 0 <= j < |init| && init[j] == rest[i];
        assert items[j] == rest[i];
      }
    }
  }

  lemma GapIsAhead(log: seq<Item>, replaySize: nat, lastId: int, user: User)
    requires Numbered(log)
    ensures
      var gap := Gap(log, replaySize, lastId, user);
      && IncreasingIds(gap)
      && forall i :: 0 <= i < |gap| ==> gap[i] in log && lastId < gap[i].id <= |log| && Visible(user, gap[i])
  {
    var replay := ReplayOf(log, replaySize, lastId);
    VisibleMembers(replay, user);
    var gap := Gap(log, replaySize, lastId, user);
    forall i | 0 <= i < |gap| ensures gap[i] in log && lastId < gap[i].id <= |log| {
      var j :| 0 <= j < |replay| && replay[j] == gap[i];
    }
  }

  lemma ReceiveKeepsGood(s: State, items: seq<Item>, user: User)
    requires Good(s) && IncreasingIds(items)
    requires forall i :: 0 <= i < |items| ==> items[i] in s.log && s.lastId < items[i].id && Visible(user, items[i])
    ensures Good(Receive(s, items, user))
  {
    var next := Receive(s, items, user);
    forall i, j | 0 <= i < j < |next.seen| ensures next.seen[i].item.id < next.seen[j].item.id {
      if i < |s.seen| <= j {
        assert s.seen[i].item.id <= s.seen[|s.seen| - 1].item.id;
      }
    }
  }

  lemma PublishKeepsInv(s: State, e: Event, maxQueue: int, replaySize: nat)
    requires Inv(s) && e.Publish?
    ensures Inv(Step(s, e, maxQueue, replaySize))
  {
    var next := Step(s, e, maxQueue, replaySize);
    assert forall x :: x in s.log ==> x in next.log;
    assert next.log[|s.log|] in next.log;
  }

  lemma ConnectKeepsInv(s: State, user: User, replaySize: nat)
    requires Inv(s)
    ensures Inv(Receive(s, Gap(s.log, replaySize, s.lastId, user), user).(connection := CaughtUp(user)))
  {
    GapIsAhead(s.log, replaySize, s.lastId, user);
    ReceiveKeepsGood(s, Gap(s.log, replaySize, s.lastId, user), user);
  }

  lemma DeliverKeepsInv(s: State, e: Event, maxQueue: int, replaySize: nat)
    requires Inv(s) && e.Deliver? && s.connection.Live? && s.connection.queue != []
    ensures Inv(Step(s, e, maxQueue, replaySize))
  {
    var item, user := s.connection.queue[0], s.connection.user;
    if Visible(user, item) && e.received {
      ReceiveKeepsGood(s.(connection := Live(user, s.connection.queue[1..])), [item], user);
    }
  }

  lemma StepKeepsInv(s: State, e: Event, maxQueue: int, replaySize: nat)
    requires Inv(s)
    ensures Inv(Step(s, e, maxQueue, replaySize))
  {
    match e
    case Publish(_, _, _) => PublishKeepsInv(s, e, maxQueue, replaySize);
    case Connect(user, _) => ConnectKeepsInv(s, user, replaySize);
    case Deliver(_) =>
      if s.connection.Live? && s.connection.queue != [] {
        DeliverKeepsInv(s, e, maxQueue, replaySize);
      }
    case _ =>
  }

  lemma {:induction false} RunKeepsInv(s: State, events: seq<Event>, maxQueue: int, replaySize: nat)
    requires Start(s)
    ensures Inv(Run(s, events, maxQueue, replaySize))
  {
    if events != [] {
      RunKeepsInv(s, events[..|events| - 1], maxQueue, replaySize);
      StepKeepsInv(Run(s, events[..|events| - 1], maxQueue, replaySize), events[|events| - 1], maxQueue, replaySize);
    }
  }

  /**
   Across any chain of disconnects and reconnects the ids a client receives, in catch-up batches and
   live, are strictly increasing, so no event is received twice; and each is a published event whose group
   the user of the connection that delivered it belongs to, unless that user is an administrator.
   */
  lemma NeverTwiceNeverForeign(s: State, events: seq<Event>, maxQueue: int, replaySize: nat)
    requires Start(s)
    ensures
      var t := Run(s, events, maxQueue, replaySize);
      && (forall i, j :: 0 <= i < j < |t.seen| ==> t.seen[i].item.id < t.seen[j].item.id)
      && (forall i :: 0 <= i < |t.seen| ==> t.seen[i].item in t.log)
      && (forall i :: 0 <= i < |t.seen| ==>
            var item, user := t.seen[i].item, t.seen[i].user;
            user.isAdmin || (item.group.Some? && item.group.value in user.groups))
  {
    RunKeepsInv(s, events, maxQueue, replaySize);
  }

  predicate ConnectedAs(events: seq<Event>, user: User) {
    exists i :: 0 <= i < |events| && events[i].Connect? && events[i].user == user
  }

  ghost predicate UsersConnected(s: State, events: seq<Event>) {
    && (!s.connection.Offline? ==> ConnectedAs(events, s.connection.user))
    && forall i :: 0 <= i < |s.seen| ==> ConnectedAs(events, s.seen[i].user)
  }

  lemma ConnectedBefore(events: seq<Event>, user: User)
    requires events != [] && ConnectedAs(events[..|events| - 1], user)
    ensures ConnectedAs(events, user)
  {
    var i :| 0 <= i < |events| - 1 && events[..|events| - 1][i].Connect? && events[..|events| - 1][i].user == user;
    assert events[i].Connect? && events[i].user == user;
  }

  lemma UsersConnectedStep(s: State, events: seq<Event>, maxQueue: int, replaySize: nat)
    requires events != [] && UsersConnected(s, events[..|events| - 1])
    ensures UsersConnected(Step(s, events[|events| - 1], maxQueue, replaySize), events)
  {
    if !s.connection.Offline? { ConnectedBefore(events, s.connection.user); }
    forall i | 0 <= i < |s.seen| ensures ConnectedAs(events, s.seen[i].user) { ConnectedBefore(events, s.seen[i].user); }
  }

  /** Events are received as a user who connected, never as somebody else. */
  lemma {:induction false} ReceivedAsConnected(s: State, events: seq<Event>, maxQueue: int, replaySize: nat)
    requires Start(s)
    ensures UsersConnected(Run(s, events, maxQueue, replaySize), events)
  {
    if events != [] {
      ReceivedAsConnected(s, events[..|events| - 1], maxQueue, replaySize);
      UsersConnectedStep(Run(s, events[..|events| - 1], maxQueue, replaySize), events, maxQueue, replaySize);
    }
  }

  lemma {:induction false} VisibleWithin(items: seq<Item>, user: User, item: Item)
    ensures item in VisibleOf(items, user) <==> item in items && Visible(user, item)
  {
    if items != [] {
      VisibleWithin(items[..|items| - 1], user, item);
      assert item in items <==> item in items[..|items| - 1] || item == items[|items| - 1];
    }
  }

  /** The catch-up batch holds exactly the events after the browser's id that are in the ring and that it may see. */
  lemma GapExactly(log: seq<Item>, replaySize: nat, lastId: int, user: User, item: Item)
    requires Numbered(log)
    ensures item in Gap(log, replaySize, lastId, user) <==>
              && lastId > 0 && item in log && item.id > lastId && item.id > |log| - replaySize
              && (user.isAdmin || (item.group.Some? && item.group.value in user.groups))
  {
    VisibleWithin(ReplayOf(log, replaySize, lastId), user, item);
    ReplayMembers(log, replaySize, lastId);
  }

  /** In particular nothing it may see is missing if at most `replaySize` events were published since. */
  lemma GapIsComplete(log: seq<Item>, replaySize: nat, lastId: nat, user: User, item: Item)
    requires Numbered(log) && 0 < lastId && |log| - lastId <= replaySize
    requires item in log && item.id > lastId
    requires user.isAdmin || (item.group.Some? && item.group.value in user.groups)
    ensures item in Gap(log, replaySize, lastId, user)
  {
    GapExactly(log, replaySize, lastId, user, item);
  }

  // ---- What is received ----------------------------------------------------------------------

  lemma SightingAfterReceive(s: State, items: seq<Item>, user: User, item: Item)
    ensures Sighting(item, user) in Receive(s, items, user).seen <==> Sighting(item, user) in s.seen || item in items
  {
    var next := Receive(s, items, user);
    if i :| 0 <= i < |items| && items[i] == item { assert next.seen[|s.seen| + i] == Sighting(item, user); }
    if i :| 0 <= i < |next.seen| && next.seen[i] == Sighting(item, user) && i >= |s.seen| {
      assert items[i - |s.seen|] == item;
    }
  }

  /** A connection that is not broken off at once receives the catch-up, and is that user's. */
  lemma ReceivedAtConnect(s: State, user: User, item: Item, maxQueue: int, replaySize: nat)
    requires Inv(s) && s.connection.Offline?
    ensures
      var t := Step(s, Connect(user, true), maxQueue, replaySize);
      && t.log == s.log && t.connection == CaughtUp(user)
      && (Sighting(item, user) in t.seen <==>
            || Sighting(item, user) in s.seen
            || (&& s.lastId > 0 && item in s.log && item.id > s.lastId && item.id > |s.log| - replaySize
                && (user.isAdmin || (item.group.Some? && item.group.value in user.groups))))
  {
    GapExactly(s.log, replaySize, s.lastId, user, item);
    SightingAfterReceive(s, Gap(s.log, replaySize, s.lastId, user), user, item);
  }

  function Deliveries(n: nat): seq<Event> { if n == 0 then [] else [Deliver(true)] + Deliveries(n - 1) }

  lemma DeliveryShows(s: State, item: Item, maxQueue: int, replaySize: nat)
    requires s.connection.Live? && s.connection.queue != []
    ensures
      var t, user, head := Step(s, Deliver(true), maxQueue, replaySize), s.connection.user, s.connection.queue[0];
      && t.log == s.log && t.connection == Live(user, s.connection.queue[1..])
      && (Sighting(item, user) in t.seen <==>
            || Sighting(item, user) in s.seen
            || (item == head && (user.isAdmin || (item.group.Some? && item.group.value in user.groups))))
  {
    var user := s.connection.user;
    SightingAfterReceive(s.(connection := Live(user, s.connection.queue[1..])), [s.connection.queue[0]], user, item);
  }

  /** Delivering the whole queue shows the user exactly its events that are theirs to see, and empties it. */
  lemma {:induction false} QueueIsReceived(s: State, item: Item, maxQueue: int, replaySize: nat)
    requires s.connection.Live?
    ensures
      var t := Run(s, Deliveries(|s.connection.queue|), maxQueue, replaySize);
      var user := s.connection.user;
      && t.log == s.log && t.connection == Live(user, [])
      && (Sighting(item, user) in t.seen <==>
            || Sighting(item, user) in s.seen
            || (item in s.connection.queue && (user.isAdmin || (item.group.Some? && item.group.value in user.groups))))
    decreases |s.connection.queue|
  {
    var queue := s.connection.queue;
    if queue != [] {
      DeliveryShows(s, item, maxQueue, replaySize);
      QueueIsReceived(Step(s, Deliver(true), maxQueue, replaySize), item, maxQueue, replaySize);
      RunAfter(s, Deliver(true), Deliveries(|queue| - 1), maxQueue, replaySize);
      assert queue == [queue[0]] + queue[1..];
    }
  }

  /**
   An event published while a client is live and has room in its queue is received, after what was queued
   before it, exactly by an administrator or a member of its group.
   */
  lemma PublishedIsReceived(s: State, kind: string, group: Option<string>, data: string, maxQueue: int, replaySize: nat)
    requires Inv(s) && s.connection.Live? && (maxQueue <= 0 || |s.connection.queue| < maxQueue)
    ensures
      var item, user := Item(|s.log| + 1, kind, group, data), s.connection.user;
      var t := Run(Step(s, Publish(kind, group, data), maxQueue, replaySize), Deliveries(|s.connection.queue| + 1),
                   maxQueue, replaySize);
      Sighting(item, user) in t.seen <==> user.isAdmin || (group.Some? && group.value in user.groups)
  {
    var item := Item(|s.log| + 1, kind, group, data);
    var next := Step(s, Publish(kind, group, data), maxQueue, replaySize);
    assert next.connection == Live(s.connection.user, s.connection.queue + [item]);
    assert next.connection.queue[|s.connection.queue|] == item;
    QueueIsReceived(next, item, maxQueue, replaySize);
    forall i | 0 <= i < |s.seen| ensures s.seen[i].item != item { assert s.seen[i].item in s.log; }
  }

  /** With a full queue it is dropped, and nothing else changes. */
  lemma PublishedToFullQueue(s: State, kind: string, group: Option<string>, data: string, maxQueue: int, replaySize: nat)
    requires s.connection.Live? && 0 < maxQueue <= |s.connection.queue|
    ensures Step(s, Publish(kind, group, data), maxQueue, replaySize)
         == s.(log := s.log + [Item(|s.log| + 1, kind, group, data)])
  {
  }

  // ---- Which events are lost -----------------------------------------------------------------

  predicate Seen(s: State, item: Item) { exists i :: 0 <= i < |s.seen| && s.seen[i].item == item }

  /** The item waits in the live queue, and the connection's user may see it. */
  predicate Queued(s: State, item: Item) {
    s.connection.Live? && item in s.connection.queue && Visible(s.connection.user, item)
  }

  /** A visible event older than the item waits in the live queue, so the browser can still get an id before it. */
  predicate OlderQueued(s: State, item: Item) {
    s.connection.Live? &&
    exists i :: 0 <= i < |s.connection.queue| && s.connection.queue[i].id < item.id
                && Visible(s.connection.user, s.connection.queue[i])
  }

  /**
   The item can still arrive: from the live queue, or from the ring at a reconnect. The ring serves only a
   browser that has an id to send, which the item must not have reached.
   */
  predicate CanArrive(s: State, item: Item, user: User, replaySize: nat) {
    || Queued(s, item)
    || (Visible(user, item) && item.id > |s.log| - replaySize && s.lastId < item.id
        && (s.lastId > 0 || OlderQueued(s, item)))
  }

  /** Later connections are `user`'s. */
  predicate ReconnectsAs(events: seq<Event>, user: User) {
    forall i :: 0 <= i < |events| && events[i].Connect? ==> events[i].user == user
  }

  /** Whatever happens next, the browser never receives the item. */
  ghost predicate Lost(s: State, item: Item, user: User, maxQueue: int, replaySize: nat) {
    forall events: seq<Event> :: ReconnectsAs(events, user) ==> !Seen(Run(s, events, maxQueue, replaySize), item)
  }

  lemma SeenAfterReceive(s: State, items: seq<Item>, user: User, item: Item)
    ensures Seen(Receive(s, items, user), item) <==> Seen(s, item) || item in items
  {
    var next := Receive(s, items, user);
    if Seen(s, item) {
      var i :| 0 <= i < |s.seen| && s.seen[i].item == item;
      assert next.seen[i].item == item;
    }
    if item in items {
      var i :| 0 <= i < |items| && items[i] == item;
      assert next.seen[|s.seen| + i].item == item;
    }
  }

  lemma UnreachableConnect(s: State, user: User, item: Item, replaySize: nat)
    requires Inv(s) && s.connection.Offline? && item in s.log
    requires !Seen(s, item) && !CanArrive(s, item, user, replaySize)
    ensures
      var next := Receive(s, Gap(s.log, replaySize, s.lastId, user), user).(connection := CaughtUp(user));
      !Seen(next, item) && !CanArrive(next, item, user, replaySize)
  {
    var gap := Gap(s.log, replaySize, s.lastId, user);
    GapExactly(s.log, replaySize, s.lastId, user, item);
    GapIsAhead(s.log, replaySize, s.lastId, user);
    SeenAfterReceive(s, gap, user, item);
  }

  lemma UnreachableDeliver(s: State, e: Event, user: User, item: Item, maxQueue: int, replaySize: nat)
    requires Inv(s) && e.Deliver? && s.connection.Live? && s.connection.queue != [] && item in s.log
    requires !Seen(s, item) && !CanArrive(s, item, user, replaySize)
    ensures
      var next := Step(s, e, maxQueue, replaySize);
      !Seen(next, item) && !CanArrive(next, item, user, replaySize)
  {
    var next, head := Step(s, e, maxQueue, replaySize), s.connection.queue[0];
    var popped := s.(connection := Live(s.connection.user, s.connection.queue[1..]));
    assert forall x :: x in s.connection.queue[1..] ==> x in s.connection.queue;
    if OlderQueued(popped, item) {
      var i :| 0 <= i < |popped.connection.queue| && popped.connection.queue[i].id < item.id
                && Visible(s.connection.user, popped.connection.queue[i]);
      assert s.connection.queue[i + 1] == popped.connection.queue[i];
    }
    if Visible(s.connection.user, head) && e.received {
      SeenAfterReceive(popped, [head], s.connection.user, item);
    }
  }

  lemma UnreachablePublish(s: State, e: Event, user: User, item: Item, maxQueue: int, replaySize: nat)
    requires Inv(s) && e.Publish? && item in s.log
    requires !Seen(s, item) && !CanArrive(s, item, user, replaySize)
    ensures
      var next := Step(s, e, maxQueue, replaySize);
      !Seen(next, item) && !CanArrive(next, item, user, replaySize)
  {
    var next := Step(s, e, maxQueue, replaySize);
    if OlderQueued(next, item) {
      var i :| 0 <= i < |next.connection.queue| && next.connection.queue[i].id < item.id
                && Visible(next.connection.user, next.connection.queue[i]);
      assert i < |s.connection.queue| && s.connection.queue[i] == next.connection.queue[i];
    }
  }

  lemma UnreachableStep(s: State, e: Event, user: User, item: Item, maxQueue: int, replaySize: nat)
    requires Inv(s) && item in s.log && (e.Connect? ==> e.user == user)
    requires !Seen(s, item) && !CanArrive(s, item, user, replaySize)
    ensures
      var next := Step(s, e, maxQueue, replaySize);
      item in next.log && !Seen(next, item) && !CanArrive(next, item, user, replaySize)
  {
    match e
    case Publish(_, _, _) => UnreachablePublish(s, e, user, item, maxQueue, replaySize);
    case Connect(_, received) =>
      if s.connection.Offline? && received { UnreachableConnect(s, user, item, replaySize); }
    case Deliver(_) =>
      if s.connection.Live? && s.connection.queue != [] {
        UnreachableDeliver(s, e, user, item, maxQueue, replaySize);
      }
    case _ =>
  }

  lemma {:induction false} UnreachableForever(s: State, events: seq<Event>, user: User, item: Item, maxQueue: int,
                                              replaySize: nat)
    requires Inv(s) && item in s.log && ReconnectsAs(events, user)
    requires !Seen(s, item) && !CanArrive(s, item, user, replaySize)
    ensures
      var t := Run(s, events, maxQueue, replaySize);
      Inv(t) && item in t.log && !Seen(t, item) && !CanArrive(t, item, user, replaySize)
  {
    if events != [] {
      var init, e := events[..|events| - 1], events[|events| - 1];
      UnreachableForever(s, init, user, item, maxQueue, replaySize);
      StepKeepsInv(Run(s, init, maxQueue, replaySize), e, maxQueue, replaySize);
      UnreachableStep(Run(s, init, maxQueue, replaySize), e, user, item, maxQueue, replaySize);
    }
  }

  lemma RunAfter(s: State, first: Event, events: seq<Event>, maxQueue: int, replaySize: nat)
    ensures Run(s, [first] + events, maxQueue, replaySize)
         == Run(Step(s, first, maxQueue, replaySize), events, maxQueue, replaySize)
    decreases |events|
  {
    var all := [first] + events;
    if events == [] {
      assert all == [first] && [first][..0] == [];
    } else {
      RunAfter(s, first, events[..|events| - 1], maxQueue, replaySize);
      assert all[..|all| - 1] == [first] + events[..|events| - 1];
    }
  }

  /** From the ring: disconnect and reconnect at once. */
  lemma ArrivesAtReconnect(s: State, user: User, item: Item, maxQueue: int, replaySize: nat) returns (events: seq<Event>)
    requires Inv(s) && item in s.log
    requires Visible(user, item) && item.id > |s.log| - replaySize && 0 < s.lastId < item.id
    ensures ReconnectsAs(events, user) && Seen(Run(s, events, maxQueue, replaySize), item)
  {
    events := [Disconnect, Connect(user, true)];
    assert events[..1] == [Disconnect] && [Disconnect][..0] == [];
    var off, gap := s.(connection := Offline), Gap(s.log, replaySize, s.lastId, user);
    GapExactly(s.log, replaySize, s.lastId, user, item);
    SeenAfterReceive(off, gap, user, item);
    var received := Receive(off, gap, user);
    assert Run(s, [Disconnect], maxQueue, replaySize) == off;
    assert Run(s, events, maxQueue, replaySize) == received.(connection := CaughtUp(user));
    var i :| 0 <= i < |received.seen| && received.seen[i].item == item;
    assert received.(connection := CaughtUp(user)).seen[i].item == item;
  }

  /** From the live queue: deliver what is ahead of it, then it. */
  lemma {:induction false} ArrivesFromQueue(s: State, user: User, item: Item, maxQueue: int, replaySize: nat)
    returns (events: seq<Event>)
    requires Inv(s) && Queued(s, item)
    ensures ReconnectsAs(events, user) && Seen(Run(s, events, maxQueue, replaySize), item)
    decreases if s.connection.Live? then |s.connection.queue| else 0
  {
    var next := Step(s, Deliver(true), maxQueue, replaySize);
    if s.connection.queue[0] == item {
      events := [];
      SeenAfterReceive(s.(connection := Live(s.connection.user, s.connection.queue[1..])), [item], s.connection.user, item);
    } else {
      StepKeepsInv(s, Deliver(true), maxQueue, replaySize);
      events := ArrivesFromQueue(next, user, item, maxQueue, replaySize);
    }
    RunAfter(s, Deliver(true), events, maxQueue, replaySize);
    events := [Deliver(true)] + events;
  }

  lemma HeadDelivered(s: State, maxQueue: int, replaySize: nat)
    requires s.connection.Live? && s.connection.queue != []
    ensures
      var next, head := Step(s, Deliver(true), maxQueue, replaySize), s.connection.queue[0];
      && next.connection == Live(s.connection.user, s.connection.queue[1..]) && next.log == s.log
      && (Visible(s.connection.user, head) ==> next.lastId == head.id)
  {
  }

  lemma StillOlder(s: State, next: State, item: Item)
    requires OlderQueued(s, item) && !Visible(s.connection.user, s.connection.queue[0])
    requires next.connection == Live(s.connection.user, s.connection.queue[1..])
    ensures OlderQueued(next, item)
  {
    var i :| 0 <= i < |s.connection.queue| && s.connection.queue[i].id < item.id
              && Visible(s.connection.user, s.connection.queue[i]);
    assert next.connection.queue[i - 1] == s.connection.queue[i];
  }

  lemma HeadIsOldest(s: State, item: Item)
    requires Inv(s) && OlderQueued(s, item)
    ensures 0 < s.connection.queue[0].id < item.id
  {
    var i :| 0 <= i < |s.connection.queue| && s.connection.queue[i].id < item.id;
    assert s.connection.queue[0].id <= s.connection.queue[i].id;
  }

  /** A browser without an id first gets one from an older queued event. */
  lemma {:induction false} ArrivesAfterOlder(s: State, user: User, item: Item, maxQueue: int, replaySize: nat)
    returns (events: seq<Event>)
    requires Inv(s) && item in s.log && OlderQueued(s, item)
    requires Visible(user, item) && item.id > |s.log| - replaySize
    ensures ReconnectsAs(events, user) && Seen(Run(s, events, maxQueue, replaySize), item)
    decreases if s.connection.Live? then |s.connection.queue| else 0
  {
    var next := Step(s, Deliver(true), maxQueue, replaySize);
    StepKeepsInv(s, Deliver(true), maxQueue, replaySize);
    HeadDelivered(s, maxQueue, replaySize);
    HeadIsOldest(s, item);
    if Visible(s.connection.user, s.connection.queue[0]) {
      events := ArrivesAtReconnect(next, user, item, maxQueue, replaySize);
    } else {
      StillOlder(s, next, item);
      events := ArrivesAfterOlder(next, user, item, maxQueue, replaySize);
    }
    RunAfter(s, Deliver(true), events, maxQueue, replaySize);
    events := [Deliver(true)] + events;
  }

  /**
   Exactly which published events never arrive: one that was not received is lost for good if and only if it
   is not waiting in the live queue and the ring cannot serve it, because it left the ring, is not visible,
   the browser's id has reached it, or the browser has no id to send.
   */
  lemma LostExactly(s: State, user: User, item: Item, maxQueue: int, replaySize: nat)
    requires Inv(s) && item in s.log && !Seen(s, item)
    ensures Lost(s, item, user, maxQueue, replaySize) <==> !CanArrive(s, item, user, replaySize)
  {
    if !CanArrive(s, item, user, replaySize) {
      forall events: seq<Event> | ReconnectsAs(events, user)
        ensures !Seen(Run(s, events, maxQueue, replaySize), item)
      {
        UnreachableForever(s, events, user, item, maxQueue, replaySize);
      }
    } else {
      var events;
      if Queued(s, item) {
        events := ArrivesFromQueue(s, user, item, maxQueue, replaySize);
      } else if s.lastId > 0 {
        events := ArrivesAtReconnect(s, user, item, maxQueue, replaySize);
      } else {
        events := ArrivesAfterOlder(s, user, item, maxQueue, replaySize);
      }
      assert Seen(Run(s, events, maxQueue, replaySize), item);
    }
  }

  /**
   Catch-up comes before subscribing, and an event published in between is in neither: it is lost for good
   exactly when the browser had no id yet, may not see it, or there is no ring.
   */
  lemma PublishedBeforeSubscribing(s: State, user: User, kind: string, group: Option<string>, data: string,
                                   maxQueue: int, replaySize: nat)
    requires Inv(s) && s.connection == CaughtUp(user)
    ensures
      var item := Item(|s.log| + 1, kind, group, data);
      var t := Step(Step(s, Publish(kind, group, data), maxQueue, replaySize), Subscribe, maxQueue, replaySize);
      Lost(t, item, user, maxQueue, replaySize) <==>
        || s.lastId <= 0 || replaySize == 0
        || !(user.isAdmin || (group.Some? && group.value in user.groups))
  {
    var item := Item(|s.log| + 1, kind, group, data);
    var published := Step(s, Publish(kind, group, data), maxQueue, replaySize);
    StepKeepsInv(s, Publish(kind, group, data), maxQueue, replaySize);
    StepKeepsInv(published, Subscribe, maxQueue, replaySize);
    assert published.log[|s.log|] == item;
    LostExactly(Step(published, Subscribe, maxQueue, replaySize), user, item, maxQueue, replaySize);
  }
}

/**
 The in-process event bus: a replay ring and one bounded queue per subscriber, both checked against the
 unbounded log of everything published.
 */
module EventBus {
  import opened Common

  /** A published event; of its payload only the group tag matters here. */
  datatype Item = Item(id: nat, kind: string, group: Option<string>, data: string)

  predicate Numbered(log: seq<Item>) { forall i :: 0 <= i < |log| ==> log[i].id == i + 1 }

  /** The list comprehension of `replay_since`. */
  function After(items: seq<Item>, lastId: int): seq<Item> {
    if items == [] then []
    else
      var rest := After(items[..|items| - 1], lastId);
      if items[|items| - 1].id > lastId then rest + [items[|items| - 1]] else rest
  }

  /** What a replay returns in terms of the log: the events after `lastId` that are among the last `size`. */
  function ReplayOf(log: seq<Item>, size: nat, lastId: int): seq<Item> {
    log[Min(Max(Max(lastId, 0), |log| - size), |log|)..]
  }

  lemma {:induction false} AfterIsSuffix(items: seq<Item>, offset: nat, lastId: int)
    requires forall i :: 0 <= i < |items| ==> items[i].id == offset + i + 1
    ensures After(items, lastId) == items[Min(Max(lastId - offset, 0), |items|)..]
  {
    if items != [] {
      var init := items[..|items| - 1];
      AfterIsSuffix(init, offset, lastId);
      var from := Max(lastId - offset, 0);
      if from < |items| {
        assert items[from..] == init[Min(from, |init|)..] + [items[|items| - 1]];
      }
    }
  }

  lemma SliceOfSlice<T>(s: seq<T>, i: nat, j: nat)
    requires i <= |s| && j <= |s| - i
    ensures s[i..][j..] == s[i + j..]
  {
  }

  lemma RingReplay(log: seq<Item>, size: nat, lastId: int)
    requires Numbered(log)
    ensures After(LastN(log, size), lastId) == ReplayOf(log, size, lastId)
  {
    var offset := Max(|log| - size, 0);
    var ring := LastN(log, size);
    assert ring == log[offset..];
    AfterIsSuffix(ring, offset, lastId);
    SliceOfSlice(log, offset, Min(Max(lastId - offset, 0), |ring|));
  }

  /** A replay holds the logged events with an id above `lastId` that are among the last `size`. */
  lemma ReplayMembers(log: seq<Item>, size: nat, lastId: int)
    requires Numbered(log)
    ensures forall item :: item in ReplayOf(log, size, lastId) <==>
                             item in log && item.id > lastId && item.id > |log| - size
  {
    var replay := ReplayOf(log, size, lastId);
    var from := |log| - |replay|;
    assert replay == log[from..];
    forall item ensures item in replay <==> item in log && item.id > lastId && item.id > |log| - size {
      if i :| 0 <= i < |log| && log[i] == item && i >= from { assert replay[i - from] == item; }
      if j :| 0 <= j < |replay| && replay[j] == item { assert log[from + j].id == from + j + 1; }
    }
  }

  lemma ReplayIsSuffix(log: seq<Item>, size: nat, lastId: int)
    ensures var replay := ReplayOf(log, size, lastId); |replay| <= |log| && replay == log[|log| - |replay|..]
  {
  }

  lemma RingReplayMembers(log: seq<Item>, size: nat, lastId: int, items: seq<Item>)
    requires Numbered(log) && items == After(LastN(log, size), lastId)
    ensures |items| <= |log| && items == log[|log| - |items|..]
    ensures forall item :: item in items <==> item in log && item.id > lastId && item.id > |log| - size
  {
    RingReplay(log, size, lastId);
    ReplayIsSuffix(log, size, lastId);
    ReplayMembers(log, size, lastId);
  }

  /**
   A replay is complete exactly when at most `size` events follow `lastId`; otherwise it is the whole
   ring, not the empty list its documentation promises.
   */
  lemma ReplayCompleteness(log: seq<Item>, size: nat, lastId: nat)
    requires Numbered(log) && lastId <= |log|
    ensures ReplayOf(log, size, lastId) == After(log, lastId) <==> |log| - lastId <= size
    ensures |log| - lastId > size ==> ReplayOf(log, size, lastId) == LastN(log, size)
  {
    AfterIsSuffix(log, 0, lastId);
    assert |After(log, lastId)| == |log| - lastId;
  }

  lemma SelectAppend<T>(s: seq<T>, keep: seq<bool>, x: T, b: bool, which: bool)
    requires |s| == |keep|
    ensures Select(s + [x], keep + [b], which) == Select(s, keep, which) + (if b == which then [x] else [])
  {
    assert (s + [x])[..|s|] == s && (keep + [b])[..|keep|] == keep;
  }

  class Subscriber {
    const maxSize: int
    var queue: seq<Item>
    ghost const since: nat // length of the log when attached
    ghost var consumed: seq<Item>
    ghost var kept: seq<bool> // for each event since then, whether it was queued or dropped

    constructor (maxSize: int, ghost since: nat)
      ensures this.maxSize == maxSize && this.since == since
      ensures queue == [] && consumed == [] && kept == []
    {
      this.maxSize := maxSize;
      this.since := since;
      queue, consumed, kept := [], [], [];
    }

    /** A size of zero or less means no bound. */
    predicate Full()
      reads this
    {
      maxSize > 0 && |queue| >= maxSize
    }

    /** Consumed and queued together are the kept events since attaching, in order; the rest were dropped. */
    ghost predicate Accounts(log: seq<Item>)
      reads this
    {
      && since <= |log| && |kept| == |log| - since
      && consumed + queue == Select(log[since..], kept, true)
      && (maxSize > 0 ==> |queue| <= maxSize)
    }

    ghost function Dropped(log: seq<Item>): seq<Item>
      requires Accounts(log)
      reads this
    {
      Select(log[since..], kept, false)
    }

    /** `put_nowait`, dropping the event when the queue is full. */
    method Offer(item: Item, ghost log: seq<Item>)
      requires Accounts(log)
      modifies this
      ensures Accounts(log + [item])
      ensures consumed == old(consumed)
      ensures queue == if maxSize <= 0 || |old(queue)| < maxSize then old(queue) + [item] else old(queue)
      ensures Dropped(log + [item])
           == old(Dropped(log)) + (if maxSize <= 0 || |old(queue)| < maxSize then [] else [item])
    {
      ghost var queued := !Full();
      SelectAppend(log[since..], kept, item, queued, true);
      SelectAppend(log[since..], kept, item, queued, false);
      assert (log + [item])[since..] == log[since..] + [item];
      if !Full() {
        queue := queue + [item];
      }
      kept := kept + [queued];
    }

    method Get(ghost log: seq<Item>) returns (item: Item)
      requires queue != [] && Accounts(log)
      modifies this
      ensures Accounts(log) && Dropped(log) == old(Dropped(log))
      ensures item == old(queue)[0] && queue == old(queue)[1..] && consumed == old(consumed) + [item]
    {
      item := queue[0];
      consumed := consumed + [item];
      queue := queue[1..];
    }
  }

  class Bus {
    const maxQueueSize: int
    const replaySize: nat
    var subscribers: set<Subscriber>
    var nextId: nat
    var replay: seq<Item>
    ghost var log: seq<Item>

    constructor (maxQueueSize: int, replaySize: nat)
      ensures Valid() && log == [] && subscribers == {}
      ensures this.maxQueueSize == maxQueueSize && this.replaySize == replaySize
    {
      this.maxQueueSize, this.replaySize := maxQueueSize, replaySize;
      subscribers, nextId, replay, log := {}, 1, [], [];
    }

    ghost predicate Valid()
      reads this, subscribers
    {
      && Numbered(log) && nextId == |log| + 1
      && replay == LastN(log, replaySize)
      && forall s :: s in subscribers ==> s.maxSize == maxQueueSize && s.Accounts(log)
    }

    /** Numbers the event, records it in the ring, then offers it to every subscriber. */
    method Publish(kind: string, group: Option<string>, data: string)
      requires Valid()
      modifies this, subscribers
      ensures Valid() && subscribers == old(subscribers)
      ensures log == old(log) + [Item(|old(log)| + 1, kind, group, data)]
      ensures forall s :: s in subscribers ==> s.consumed == old(s.consumed)
      ensures forall s :: s in subscribers ==>
                s.queue == if maxQueueSize <= 0 || |old(s.queue)| < maxQueueSize
                           then old(s.queue) + [Item(|old(log)| + 1, kind, group, data)] else old(s.queue)
    {
      var item := Item(nextId, kind, group, data);
      nextId := nextId + 1;
      LastNOfWindow(log, item, replaySize);
      replay := LastN(replay + [item], replaySize);
      FanOut(subscribers, item, log);
      log := log + [item];
    }

    static method FanOut(subscribers: set<Subscriber>, item: Item, ghost log: seq<Item>)
      requires forall s :: s in subscribers ==> s.Accounts(log)
      modifies subscribers
      ensures forall s :: s in subscribers ==> s.Accounts(log + [item]) && s.consumed == old(s.consumed)
      ensures forall s :: s in subscribers ==>
                s.queue == if s.maxSize <= 0 || |old(s.queue)| < s.maxSize then old(s.queue) + [item] else old(s.queue)
    {
      var todo := subscribers;
      while todo != {}
        invariant todo <= subscribers
        invariant forall s :: s in todo ==> unchanged(s) && s.Accounts(log)
        invariant forall s :: s in subscribers && s !in todo ==> s.Accounts(log + [item]) && s.consumed == old(s.consumed)
        invariant forall s :: s in subscribers && s !in todo ==>
                    s.queue == if s.maxSize <= 0 || |old(s.queue)| < s.maxSize then old(s.queue) + [item] else old(s.queue)
      {
        var s :| s in todo;
        s.Offer(item, log);
        todo := todo - {s};
      }
    }

    /** A new subscriber starts with an empty queue and sees only what is published from now on. */
    method Attach() returns (s: Subscriber)
      requires Valid()
      modifies this
      ensures Valid() && fresh(s) && subscribers == old(subscribers) + {s} && log == old(log)
      ensures s.since == |log| && s.queue == [] && s.consumed == []
    {
      s := new Subscriber(maxQueueSize, |log|);
      subscribers := subscribers + {s};
    }

    method Consume(s: Subscriber) returns (item: Item)
      requires Valid() && s in subscribers && s.queue != []
      modifies s
      ensures Valid()
      ensures item == old(s.queue)[0] && s.queue == old(s.queue)[1..] && s.consumed == old(s.consumed) + [item]
      ensures item.id > s.since && item in log
    {
      ghost var k := |s.consumed|;
      assert (s.consumed + s.queue)[k] == s.queue[0];
      assert log[s.since..s.since + |s.kept|] == log[s.since..];
      KeptAreLater(log, s.since, s.kept, k);
      item := s.Get(log);
    }

    method Detach(s: Subscriber)
      requires Valid()
      modifies this
      ensures Valid() && subscribers == old(subscribers) - {s} && log == old(log)
    {
      subscribers := subscribers - {s};
    }

    method ReplaySince(lastId: int) returns (items: seq<Item>)
      requires Valid()
      ensures |items| <= |log| && items == log[|log| - |items|..]
      ensures forall item :: item in items <==> item in log && item.id > lastId && item.id > |log| - replaySize
    {
      items := After(replay, lastId);
      RingReplayMembers(log, replaySize, lastId, items);
    }
  }

  /** Kept events carry ids after the attach point, in increasing order. */
  lemma {:induction false} KeptAreLater(log: seq<Item>, since: nat, kept: seq<bool>, k: nat)
    requires Numbered(log) && since + |kept| <= |log|
    requires k < |Select(log[since..since + |kept|], kept, true)|
    ensures
      var s := Select(log[since..since + |kept|], kept, true);
      s[k] in log && since < s[k].id <= since + |kept|
  {
    var n := |kept| - 1;
    var init := kept[..n];
    assert log[since..since + |kept|][..n] == log[since..since + n];
    if k < |Select(log[since..since + n], init, true)| {
      KeptAreLater(log, since, init, k);
    }
  }

  predicate IncreasingIds(items: seq<Item>) { forall i, j :: 0 <= i < j < |items| ==> items[i].id < items[j].id }

  lemma {:induction false} SelectWithin(items: seq<Item>, kept: seq<bool>, which: bool, k: nat) returns (i: nat)
    requires |kept| == |items| && k < |Select(items, kept, which)|
    ensures i < |items| && items[i] == Select(items, kept, which)[k]
  {
    var n := |items| - 1;
    if k < |Select(items[..n], kept[..n], which)| {
      i := SelectWithin(items[..n], kept[..n], which, k);
    } else {
      i := n;
    }
  }

  lemma {:induction false} SelectIncreasing(items: seq<Item>, kept: seq<bool>, which: bool)
    requires |kept| == |items| && IncreasingIds(items)
    ensures IncreasingIds(Select(items, kept, which))
  {
    if items != [] {
      var n := |items| - 1;
      SelectIncreasing(items[..n], kept[..n], which);
      var rest := Select(items[..n], kept[..n], which);
      forall k | 0 <= k < |rest| ensures rest[k].id < items[n].id {
        var i := SelectWithin(items[..n], kept[..n], which, k);
      }
    }
  }

  lemma {:induction false} SelectPartitions(items: seq<Item>, kept: seq<bool>)
    requires |kept| == |items|
    ensures multiset(Select(items, kept, true)) + multiset(Select(items, kept, false)) == multiset(items)
  {
    if items != [] {
      SelectPartitions(items[..|items| - 1], kept[..|kept| - 1]);
      assert items == items[..|items| - 1] + [items[|items| - 1]];
    }
  }

  /**
   A subscriber's account: what it consumed, what is queued and what was dropped is exactly what was
   published since it attached, and what it consumed and still has queued is in increasing id order.
   */
  lemma SubscriberAccount(s: Subscriber, log: seq<Item>)
    requires s.Accounts(log) && Numbered(log)
    ensures multiset(s.consumed) + multiset(s.queue) + multiset(s.Dropped(log)) == multiset(log[s.since..])
    ensures IncreasingIds(s.consumed + s.queue) && IncreasingIds(s.Dropped(log))
  {
    SelectPartitions(log[s.since..], s.kept);
    SelectIncreasing(log[s.since..], s.kept, true);
    SelectIncreasing(log[s.since..], s.kept, false);
  }
}

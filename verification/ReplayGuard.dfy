/**
 The agent's replay guard: executed commands are kept with their times in a pruned map, checked against the full
 log of marks.
 */
module ReplayGuard {
  import opened Common

  type Id = nat

  type Entries = map<Id, int>

  /** A mark prunes at one clock reading and stamps with the next; an event that is not saved leaves the file alone. */
  datatype Event =
    | Mark(id: Id, prunedAt: int, at: int, saved: bool)
    | Purge(ids: Option<set<Id>>, saved: bool)

  function Prune(entries: Entries, cutoff: int): Entries {
    map id | id in entries && entries[id] >= cutoff :: entries[id]
  }

  function Apply(ttl: nat, entries: Entries, e: Event): Entries {
    if !e.saved then entries
    else
      match e
      case Mark(id, prunedAt, at, _) => Prune(entries, prunedAt - ttl)[id := at]
      case Purge(ids, _) => if ids.None? then map[] else entries - ids.value
  }

  function Run(ttl: nat, events: seq<Event>): Entries {
    if events == [] then map[] else Apply(ttl, Run(ttl, events[..|events| - 1]), events[|events| - 1])
  }

  predicate HasSeen(ttl: nat, entries: Entries, id: Id, now: int) { id in Prune(entries, now - ttl) }

  // ---- The log -------------------------------------------------------------------------------

  predicate Purges(e: Event, id: Id) { e.Purge? && e.saved && (e.ids.None? || id in e.ids.value) }

  /** A saved mark of the command, not before the cutoff and not purged later. */
  predicate MarkedAt(events: seq<Event>, i: nat, id: Id, cutoff: int) {
    && i < |events| && events[i].Mark? && events[i].saved && events[i].id == id && events[i].at >= cutoff
    && forall k :: i < k < |events| ==> !Purges(events[k], id)
  }

  predicate Executed(events: seq<Event>, id: Id, cutoff: int) {
    exists i :: 0 <= i < |events| && MarkedAt(events, i, id, cutoff)
  }

  /** The clock never goes back, through the last reading. */
  predicate ClockForward(events: seq<Event>, now: int) {
    && (forall i :: 0 <= i < |events| && events[i].Mark? ==> events[i].prunedAt <= events[i].at <= now)
    && (forall i, j :: 0 <= i < j < |events| && events[i].Mark? && events[j].Mark? ==> events[i].at <= events[j].prunedAt)
  }

  /** Removes what is stored at time `at` for `id`: a purge, a newer mark of it, or a prune reading a later clock. */
  predicate Displaces(ttl: nat, e: Event, id: Id, at: int) {
    e.saved && (Purges(e, id) || (e.Mark? && (e.id == id || e.prunedAt - ttl > at)))
  }

  /** The saved mark of the command that nothing after it displaced. */
  predicate Retained(ttl: nat, events: seq<Event>, i: nat, id: Id) {
    && i < |events| && events[i].Mark? && events[i].saved && events[i].id == id
    && forall k :: i < k < |events| ==> !Displaces(ttl, events[k], id, events[i].at)
  }

  lemma {:induction false} StoredIsRetained(ttl: nat, events: seq<Event>, id: Id) returns (i: nat)
    requires id in Run(ttl, events)
    ensures Retained(ttl, events, i, id) && events[i].at == Run(ttl, events)[id]
  {
    var n := |events| - 1;
    var e := events[n];
    if e.Mark? && e.saved && e.id == id {
      i := n;
    } else {
      i := StoredIsRetained(ttl, events[..n], id);
      forall k | i < k < |events| ensures !Displaces(ttl, events[k], id, events[i].at) {
        if k < n { assert events[k] == events[..n][k]; }
      }
    }
  }

  lemma {:induction false} RetainedIsStored(ttl: nat, events: seq<Event>, i: nat, id: Id)
    requires Retained(ttl, events, i, id)
    ensures id in Run(ttl, events) && Run(ttl, events)[id] == events[i].at
  {
    var n := |events| - 1;
    if i < n {
      assert forall k :: i < k < n ==> events[..n][k] == events[k];
      RetainedIsStored(ttl, events[..n], i, id);
      assert !Displaces(ttl, events[n], id, events[i].at);
    }
  }

  predicate RetainedWithin(ttl: nat, events: seq<Event>, id: Id, cutoff: int) {
    exists i :: 0 <= i < |events| && Retained(ttl, events, i, id) && events[i].at >= cutoff
  }

  /**
   What the guard answers, whatever the clock does: the command was seen exactly when its last saved mark is
   inside the window, was not purged, and no later saved mark pruned past it.
   */
  lemma HasSeenExactly(ttl: nat, events: seq<Event>, id: Id, now: int)
    ensures HasSeen(ttl, Run(ttl, events), id, now) <==> RetainedWithin(ttl, events, id, now - ttl)
  {
    if HasSeen(ttl, Run(ttl, events), id, now) {
      var i := StoredIsRetained(ttl, events, id);
    }
    if RetainedWithin(ttl, events, id, now - ttl) {
      var i :| 0 <= i < |events| && Retained(ttl, events, i, id) && events[i].at >= now - ttl;
      RetainedIsStored(ttl, events, i, id);
    }
  }

  /** The last mark of those that qualify is the one retained, when the clock only goes forward. */
  lemma {:induction false} LastMark(events: seq<Event>, id: Id, cutoff: int, i: nat) returns (last: nat)
    requires MarkedAt(events, i, id, cutoff)
    ensures last >= i && MarkedAt(events, last, id, cutoff)
    ensures forall k :: last < k < |events| ==> !MarkedAt(events, k, id, cutoff)
    decreases |events| - i
  {
    if k :| i < k < |events| && MarkedAt(events, k, id, cutoff) {
      last := LastMark(events, id, cutoff, k);
    } else {
      last := i;
    }
  }

  lemma LastMarkRetained(ttl: nat, events: seq<Event>, id: Id, now: int, cutoff: int, last: nat)
    requires cutoff == now - ttl && ClockForward(events, now) && MarkedAt(events, last, id, cutoff)
    requires forall k :: last < k < |events| ==> !MarkedAt(events, k, id, cutoff)
    ensures Retained(ttl, events, last, id)
  {
    forall k | last < k < |events| ensures !Displaces(ttl, events[k], id, events[last].at) {
      if events[k].Mark? && events[k].saved {
        assert events[last].at <= events[k].prunedAt <= events[k].at;
        assert !MarkedAt(events, k, id, cutoff);
      }
    }
  }

  lemma ForwardClockRetains(ttl: nat, events: seq<Event>, id: Id, now: int, cutoff: int)
    requires cutoff == now - ttl && ClockForward(events, now)
    ensures RetainedWithin(ttl, events, id, cutoff) <==> Executed(events, id, cutoff)
  {
    if Executed(events, id, cutoff) {
      var i :| 0 <= i < |events| && MarkedAt(events, i, id, cutoff);
      var last := LastMark(events, id, cutoff, i);
      LastMarkRetained(ttl, events, id, now, cutoff, last);
    }
    if RetainedWithin(ttl, events, id, cutoff) {
      var i :| 0 <= i < |events| && Retained(ttl, events, i, id) && events[i].at >= cutoff;
      forall k | i < k < |events| ensures !Purges(events[k], id) {
        assert !Displaces(ttl, events[k], id, events[i].at);
      }
      assert MarkedAt(events, i, id, cutoff);
    }
  }

  lemma ForwardClock(ttl: nat, events: seq<Event>, id: Id, now: int, cutoff: int)
    requires cutoff == now - ttl
    ensures ClockForward(events, now) ==> (HasSeen(ttl, Run(ttl, events), id, now) <==> Executed(events, id, cutoff))
  {
    HasSeenExactly(ttl, events, id, now);
    if ClockForward(events, now) { ForwardClockRetains(ttl, events, id, now, cutoff); }
  }

  /** The pruned file answers as the full log of marks would, as long as the clock never goes back. */
  lemma HasSeenAgreesWithLog(ttl: nat, events: seq<Event>, id: Id, now: int)
    requires ClockForward(events, now)
    ensures HasSeen(ttl, Run(ttl, events), id, now) <==> Executed(events, id, now - ttl)
  {
    ForwardClock(ttl, events, id, now, now - ttl);
  }

  /** The smallest disagreement: the clock is set back after another mark pruned the command inside its window. */
  lemma ForgetsAfterClockStepsBack(ttl: nat, a: Id, b: Id, t: int)
    requires a != b
    ensures
      var events := [Mark(a, t, t, true), Mark(b, t + ttl + 1, t + ttl + 1, true)];
      Executed(events, a, t - ttl) && !HasSeen(ttl, Run(ttl, events), a, t)
  {
    var events := [Mark(a, t, t, true), Mark(b, t + ttl + 1, t + ttl + 1, true)];
    assert MarkedAt(events, 0, a, t - ttl);
    assert Displaces(ttl, events[1], a, t);
    HasSeenExactly(ttl, events, a, t);
  }

  class Guard {
    var stored: Entries
    const ttl: nat
    ghost var events: seq<Event>

    ghost predicate Valid()
      reads this
    {
      stored == Run(ttl, events)
    }

    constructor (ttl: nat)
      ensures Valid() && events == [] && this.ttl == ttl
    {
      stored, events := map[], [];
      this.ttl := ttl;
    }

    method Seen(id: Id, now: int) returns (seen: bool)
      requires Valid()
      ensures seen <==> RetainedWithin(ttl, events, id, now - ttl)
      ensures ClockForward(events, now) ==> (seen <==> Executed(events, id, now - ttl))
    {
      HasSeenExactly(ttl, events, id, now);
      if ClockForward(events, now) {
        HasSeenAgreesWithLog(ttl, events, id, now);
      }
      seen := HasSeen(ttl, stored, id, now);
    }

    method MarkExecuted(id: Id, prunedAt: int, at: int, saved: bool)
      requires Valid()
      modifies this
      ensures Valid() && events == old(events) + [Mark(id, prunedAt, at, saved)]
    {
      var entries := Prune(stored, prunedAt - ttl);
      entries := entries[id := at];
      if saved {
        stored := entries;
      }
      events := events + [Mark(id, prunedAt, at, saved)];
      assert events[..|events| - 1] == old(events);
    }

    method Forget(ids: Option<set<Id>>, saved: bool)
      requires Valid()
      modifies this
      ensures Valid() && events == old(events) + [Purge(ids, saved)]
    {
      if saved {
        stored := if ids.None? then map[] else stored - ids.value;
      }
      events := events + [Purge(ids, saved)];
      assert events[..|events| - 1] == old(events);
    }
  }
}

/**
 Webhook accounting: delivery outcomes, admin updates and resets all write one row. `events` is the log of
 what happened to the row; the fields are compared with it.
 */
module Webhooks {
  import opened Common
  import Text

  const RETRY_WAITS: seq<nat> := [0, 1, 5, 30]
  const MAX_ATTEMPTS := 4
  const AUTO_DISABLE_AFTER := 10
  const MAX_DELIVERY_HISTORY := 20

  datatype Entry =
    Entry(deliveryId: nat, event: string, at: int, statusCode: Option<int>, error: Option<string>, attempt: nat,
          success: bool, retryOf: Option<nat>)

  /** What a row went through: a recorded delivery, an admin patch of `enabled`, an admin reset. */
  datatype Event = Recorded(entry: Entry) | Patched(enabled: Option<bool>) | Reset

  datatype Account =
    Account(enabled: bool, failureCount: nat, lastStatus: Option<int>, lastError: Option<string>, history: seq<Entry>)

  const NEW := Account(true, 0, None, None, [])

  function Step(a: Account, e: Event): Account {
    match e
    case Recorded(entry) =>
      var failures := if entry.success then 0 else a.failureCount + 1;
      Account(a.enabled && !(!entry.success && failures >= AUTO_DISABLE_AFTER), failures, entry.statusCode,
              if entry.success then None else entry.error, LastN(a.history + [entry], MAX_DELIVERY_HISTORY))
    case Patched(Some(on)) =>
      if on == a.enabled then a else a.(enabled := on, failureCount := if on then 0 else a.failureCount)
    case Patched(None) => a
    case Reset => a.(enabled := true, failureCount := 0, lastError := None)
  }

  function Run(events: seq<Event>): Account {
    if events == [] then NEW else Step(Run(events[..|events| - 1]), events[|events| - 1])
  }

  // ---- What the fields mean ------------------------------------------------------------------

  /** Every outcome ever recorded, oldest first. */
  function Outcomes(events: seq<Event>): seq<Entry> {
    if events == [] then []
    else
      var earlier, last := Outcomes(events[..|events| - 1]), events[|events| - 1];
      if last.Recorded? then earlier + [last.entry] else earlier
  }

  function Failures(events: seq<Event>): nat {
    if events == [] then 0
    else
      var last := events[|events| - 1];
      Failures(events[..|events| - 1]) + (if last.Recorded? && !last.entry.success then 1 else 0)
  }

  /** A success, a reset, or a patch that turns a disabled hook on. */
  predicate Clears(events: seq<Event>, i: nat)
    requires i < |events|
  {
    match events[i]
    case Recorded(entry) => entry.success
    case Patched(on) => on == Some(true) && !Run(events[..i]).enabled
    case Reset => true
  }

  lemma {:induction false} HistoryIsLastOutcomes(events: seq<Event>)
    ensures Run(events).history == LastN(Outcomes(events), 20)
  {
    if events != [] {
      var earlier, last := events[..|events| - 1], events[|events| - 1];
      HistoryIsLastOutcomes(earlier);
      if last.Recorded? { LastNOfWindow(Outcomes(earlier), last.entry, MAX_DELIVERY_HISTORY); }
    }
  }

  /** `failure_count` counts the failures recorded since the count was last cleared. */
  lemma {:induction false} CountsSinceCleared(events: seq<Event>) returns (since: nat)
    ensures since <= |events| && (since == 0 || Clears(events, since - 1))
    ensures forall i :: since <= i < |events| ==> !Clears(events, i)
    ensures Run(events).failureCount == Failures(events[since..])
  {
    if events == [] {
      since := 0;
    } else {
      var n := |events| - 1;
      if Clears(events, n) {
        since := n + 1;
      } else {
        since := CountsSinceCleared(events[..n]);
        forall i | 0 <= i < n ensures Clears(events, i) == Clears(events[..n], i) {
          assert events[..n][..i] == events[..i];
        }
        assert events[since..][..n - since] == events[..n][since..];
      }
    }
  }

  /** An enabled hook is always short of the threshold. */
  lemma {:induction false} EnabledBelowThreshold(events: seq<Event>)
    ensures Run(events).enabled ==> Run(events).failureCount < 10
  {
    if events != [] { EnabledBelowThreshold(events[..|events| - 1]); }
  }

  /** Ten failures in a row disable a hook whatever came before, and then only an admin enables it again. */
  lemma TenFailuresDisable(events: seq<Event>, k: nat)
    requires 10 <= k <= |events|
    requires forall i :: |events| - k <= i < |events| ==> events[i].Recorded? && !events[i].entry.success
    ensures !Run(events).enabled
  {
    RowOfFailures(events, k);
    EnabledBelowThreshold(events);
  }

  lemma {:induction false} RowOfFailures(events: seq<Event>, k: nat)
    requires k <= |events|
    requires forall i :: |events| - k <= i < |events| ==> events[i].Recorded? && !events[i].entry.success
    ensures Run(events).failureCount >= k
  {
    if k > 0 { RowOfFailures(events[..|events| - 1], k - 1); }
  }

  /** A hook is disabled only by an admin or by exactly the tenth failure. */
  lemma DisabledByAdminOrTenth(events: seq<Event>, e: Event)
    requires Run(events).enabled && !Run(events + [e]).enabled
    ensures e == Patched(Some(false)) || Run(events + [e]).failureCount == 10
  {
    EnabledBelowThreshold(events);
    assert (events + [e])[..|events|] == events;
  }

  /** The last status shown is the last outcome's, and so is the last error, unless a reset cleared it since. */
  lemma {:induction false} ShowsLastOutcome(events: seq<Event>) returns (last: nat)
    requires exists i :: 0 <= i < |events| && events[i].Recorded?
    ensures last < |events| && events[last].Recorded? && forall k :: last < k < |events| ==> !events[k].Recorded?
    ensures Run(events).lastStatus == events[last].entry.statusCode
    ensures Run(events).lastError == if events[last].entry.success || exists k :: last < k < |events| && events[k].Reset?
                                     then None else events[last].entry.error
  {
    var n := |events| - 1;
    if events[n].Recorded? {
      last := n;
    } else {
      var i :| 0 <= i < |events| && events[i].Recorded?;
      assert events[..n][i].Recorded?;
      last := ShowsLastOutcome(events[..n]);
      assert forall k :: last < k < n ==> events[..n][k] == events[k];
    }
  }

  predicate AdminEnables(e: Event) { e.Reset? || e == Patched(Some(true)) }

  lemma {:induction false} StaysDisabled(events: seq<Event>, more: seq<Event>)
    requires !Run(events).enabled && forall i :: 0 <= i < |more| ==> !AdminEnables(more[i])
    ensures !Run(events + more).enabled
  {
    if more == [] {
      assert events + more == events;
    } else {
      var n := |more| - 1;
      assert (events + more)[..|events| + n] == events + more[..n];
      StaysDisabled(events, more[..n]);
    }
  }

  /** A patch that turns the hook off, or a failure that is at least the tenth since the count was last cleared. */
  predicate Disables(events: seq<Event>, i: nat)
    requires i < |events|
  {
    || events[i] == Patched(Some(false))
    || (events[i].Recorded? && !events[i].entry.success && Run(events[..i + 1]).failureCount >= 10)
  }

  predicate NotEnabledAfter(events: seq<Event>, i: nat) {
    forall k :: i < k < |events| ==> !events[k].Reset? && events[k] != Patched(Some(true))
  }

  /** A hook is disabled exactly when something disabled it and no reset or enabling patch has come since. */
  lemma {:induction false} DisabledExactly(events: seq<Event>)
    ensures !Run(events).enabled <==> exists i :: 0 <= i < |events| && Disables(events, i) && NotEnabledAfter(events, i)
  {
    if events != [] {
      var n := |events| - 1;
      DisabledExactly(events[..n]);
      assert events[..n + 1] == events;
      forall i | 0 <= i < n ensures Disables(events, i) <==> Disables(events[..n], i) {
        assert events[..n][..i + 1] == events[..i + 1];
      }
      forall i | 0 <= i < n
        ensures NotEnabledAfter(events, i) <==>
                  NotEnabledAfter(events[..n], i) && !events[n].Reset? && events[n] != Patched(Some(true)) {
        assert forall k :: i < k < n ==> events[..n][k] == events[k];
      }
      if Disables(events, n) { assert NotEnabledAfter(events, n); }
    }
  }

  // ---- The row and its writers ---------------------------------------------------------------

  datatype Response = Status(code: nat) | TransportError(text: string)

  predicate Success(r: Response) { r.Status? && 200 <= r.code < 300 }

  function ErrorText(r: Response): string {
    match r
    case Status(code) => "HTTP " + Text.Digits(code)
    case TransportError(text) => text
  }

  function StatusOf(r: Response): Option<int> { if r.Status? then Some(r.code) else None }

  class Webhook {
    var enabled: bool
    var failureCount: nat
    var lastStatus: Option<int>
    var lastError: Option<string>
    var history: seq<Entry>
    ghost var events: seq<Event>

    ghost function Fields(): Account
      reads this
    {
      Account(enabled, failureCount, lastStatus, lastError, history)
    }

    ghost predicate Valid()
      reads this
    {
      Fields() == Run(events)
    }

    constructor ()
      ensures Valid() && events == []
    {
      enabled, failureCount, lastStatus, lastError, history, events := true, 0, None, None, [], [];
    }

    /** Nothing is written when the row is gone or the transaction fails. */
    method RecordResult(entry: Entry, committed: bool)
      requires Valid()
      modifies this
      ensures Valid() && events == if committed then old(events) + [Recorded(entry)] else old(events)
      ensures !committed ==> Fields() == old(Fields())
      ensures committed ==>
                && lastStatus == entry.statusCode && lastError == (if entry.success then None else entry.error)
                && failureCount == (if entry.success then 0 else old(failureCount) + 1)
                && enabled == (old(enabled) && (entry.success || old(failureCount) + 1 < 10))
    {
      if !committed {
        return;
      }
      lastStatus := entry.statusCode;
      lastError := if entry.success then None else entry.error;
      if entry.success {
        failureCount := 0;
      } else {
        failureCount := failureCount + 1;
        if failureCount >= AUTO_DISABLE_AFTER {
          enabled := false;
        }
      }
      history := history + [entry];
      if |history| > MAX_DELIVERY_HISTORY {
        history := history[|history| - MAX_DELIVERY_HISTORY..];
      }
      events := events + [Recorded(entry)];
      assert events[..|events| - 1] == old(events);
    }

    method Update(newEnabled: Option<bool>) returns (changed: bool)
      requires Valid()
      modifies this
      ensures Valid() && events == old(events) + [Patched(newEnabled)]
      ensures changed <==> enabled != old(enabled)
      ensures enabled == if newEnabled.Some? then newEnabled.value else old(enabled)
      ensures failureCount == if enabled && !old(enabled) then 0 else old(failureCount)
      ensures lastStatus == old(lastStatus) && lastError == old(lastError) && history == old(history)
    {
      changed := newEnabled.Some? && newEnabled.value != enabled;
      if changed {
        enabled := newEnabled.value;
        if newEnabled.value {
          failureCount := 0;
        }
      }
      events := events + [Patched(newEnabled)];
      assert events[..|events| - 1] == old(events);
    }

    method ResetFailures()
      requires Valid()
      modifies this
      ensures Valid() && events == old(events) + [Reset]
      ensures enabled && failureCount == 0 && lastError == None
      ensures lastStatus == old(lastStatus) && history == old(history)
    {
      failureCount := 0;
      enabled := true;
      lastError := None;
      events := events + [Reset];
      assert events[..|events| - 1] == old(events);
    }

    /**
     Delivers one event: the receiver's answer to attempt `i` is `answer(i)`. `waits` lists the pauses, one before
     each POST. The module text speaks of three attempts; there are four.
     */
    method Dispatch(deliveryId: nat, event: string, at: int, answer: nat -> Response, retryOf: Option<nat>, committed: bool)
      returns (posts: nat, waits: seq<nat>, entry: Entry)
      requires Valid()
      modifies this
      ensures Valid()
      ensures 1 <= posts <= 4 && waits == [0, 1, 5, 30][..posts]
      ensures forall i :: 1 <= i < posts ==> !(answer(i).Status? && 200 <= answer(i).code < 300)
      ensures posts < 4 ==> answer(posts).Status? && 200 <= answer(posts).code < 300
      ensures events == if committed then old(events) + [Recorded(entry)] else old(events)
      ensures entry == match answer(posts)
                       case Status(code) =>
                         if 200 <= code < 300 then Entry(deliveryId, event, at, Some(code), None, posts, true, retryOf)
                         else Entry(deliveryId, event, at, Some(code), Some("HTTP " + Text.Digits(code)), posts, false, retryOf)
                       case TransportError(text) => Entry(deliveryId, event, at, None, Some(text), posts, false, retryOf)
    {
      var status: Option<int>, error: Option<string>, success := None, None, false;
      var attempt := 0;
      waits := [];
      while attempt < MAX_ATTEMPTS && !success
        invariant attempt <= MAX_ATTEMPTS && waits == RETRY_WAITS[..attempt]
        invariant forall i :: 1 <= i < attempt ==> !Success(answer(i))
        invariant attempt > 0 ==> success == Success(answer(attempt)) && status == StatusOf(answer(attempt))
        invariant attempt > 0 ==> error == if success then None else Some(ErrorText(answer(attempt)))
        invariant attempt == 0 ==> !success
      {
        waits := waits + [RETRY_WAITS[attempt]];
        attempt := attempt + 1;
        var response := answer(attempt);
        status := StatusOf(response);
        error := None;
        if Success(response) {
          success := true;
        } else {
          error := Some(ErrorText(response));
        }
      }
      posts := attempt;
      entry := Entry(deliveryId, event, at, status, error, if success then attempt else MAX_ATTEMPTS, success, retryOf);
      RecordResult(entry, committed);
    }
  }
}

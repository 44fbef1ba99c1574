/** The agent's command loop: poll, run each command, post each result, back off when an iteration fails. */
module Daemon {
  import opened Common
  import opened Runner

  type CommandId = nat

  /** One polled entry, with what running it and posting its result turn out to do. */
  datatype Item =
    | Malformed
    | Command(id: CommandId, commandType: string, payload: Payload, outcome: Outcome, delivered: bool)

  datatype Post = Post(id: CommandId, report: Report, delivered: bool)

  /** `polled` is `None` when the poll fails; `closed` is false when closing the client fails afterwards. */
  datatype Iteration = Iteration(polled: Option<seq<Item>>, closed: bool, signalled: bool)

  predicate Failed(i: Iteration) { i.polled.None? || !i.closed }

  function PostOf(c: Item): Post
    requires c.Command?
  {
    Post(c.id, ReportOf(Execute(c.commandType, c.payload, c.outcome)), c.delivered)
  }

  // ---- Batches -------------------------------------------------------------------------------

  function Attempts(batch: seq<Item>): seq<Post> {
    if batch == [] then []
    else
      var earlier, last := Attempts(batch[..|batch| - 1]), batch[|batch| - 1];
      if last.Command? then earlier + [PostOf(last)] else earlier
  }

  /** The positions of the well-formed commands. */
  function Positions(batch: seq<Item>): (at: seq<nat>)
    ensures forall k :: 0 <= k < |at| ==> at[k] < |batch| && batch[at[k]].Command?
  {
    if batch == [] then []
    else
      var earlier, n := Positions(batch[..|batch| - 1]), |batch| - 1;
      if batch[n].Command? then earlier + [n] else earlier
  }

  lemma {:induction false} PositionsAscend(batch: seq<Item>)
    ensures forall j, k :: 0 <= j < k < |Positions(batch)| ==> Positions(batch)[j] < Positions(batch)[k]
  {
    if batch != [] { PositionsAscend(batch[..|batch| - 1]); }
  }

  lemma {:induction false} PositionsComplete(batch: seq<Item>, i: nat)
    requires i < |batch| && batch[i].Command?
    ensures i in Positions(batch)
  {
    var n := |batch| - 1;
    if i < n {
      PositionsComplete(batch[..n], i);
    } else {
      assert Positions(batch)[|Positions(batch)| - 1] == n;
    }
  }

  lemma {:induction false} AttemptAt(batch: seq<Item>, k: nat)
    requires k < |Positions(batch)|
    ensures |Attempts(batch)| == |Positions(batch)| && Attempts(batch)[k] == PostOf(batch[Positions(batch)[k]])
  {
    var n := |batch| - 1;
    AttemptsCount(batch[..n]);
    if k < |Positions(batch[..n])| { AttemptAt(batch[..n], k); }
  }

  lemma {:induction false} AttemptsCount(batch: seq<Item>)
    ensures |Attempts(batch)| == |Positions(batch)|
  {
    if batch != [] { AttemptsCount(batch[..|batch| - 1]); }
  }

  /**
   One attempt for each well-formed command and no others, in batch order, whether or not runs crash or posts
   are delivered: `at` lists the positions of the attempts.
   */
  lemma OneAttemptPerCommand(batch: seq<Item>) returns (at: seq<nat>)
    ensures |at| == |Attempts(batch)|
    ensures forall k :: 0 <= k < |at| ==>
              && at[k] < |batch| && batch[at[k]].Command?
              && var Command(id, commandType, payload, outcome, delivered) := batch[at[k]];
                 Attempts(batch)[k] == Post(id, ReportOf(Execute(commandType, payload, outcome)), delivered)
    ensures forall j, k :: 0 <= j < k < |at| ==> at[j] < at[k]
    ensures forall i :: 0 <= i < |batch| && batch[i].Command? ==> i in at
  {
    at := Positions(batch);
    AttemptsCount(batch);
    PositionsAscend(batch);
    forall k | 0 <= k < |at| ensures Attempts(batch)[k] == PostOf(batch[at[k]]) {
      AttemptAt(batch, k);
    }
    forall i | 0 <= i < |batch| && batch[i].Command? ensures i in at {
      PositionsComplete(batch, i);
    }
  }

  function AttemptsOf(i: Iteration): seq<Post> { if i.polled.Some? then Attempts(i.polled.value) else [] }

  function AllAttempts(run: seq<Iteration>): seq<Post> {
    if run == [] then [] else AllAttempts(run[..|run| - 1]) + AttemptsOf(run[|run| - 1])
  }

  // ---- Backing off ---------------------------------------------------------------------------

  const MAX_BACKOFF: nat := 60

  function Pow2(n: nat): (r: nat)
    ensures r > 0
  {
    if n == 0 then 1 else 2 * Pow2(n - 1)
  }

  function Backoff(failures: nat): nat { Min(Pow2(failures), MAX_BACKOFF) }

  /** Failed iterations at the end of a run. */
  function Trailing(run: seq<Iteration>): nat {
    if run == [] || !Failed(run[|run| - 1]) then 0 else 1 + Trailing(run[..|run| - 1])
  }

  function PollInterval(configured: nat): nat { if configured == 0 then 5 else configured }

  function SleepAfter(run: seq<Iteration>, configured: nat): nat {
    if Trailing(run) == 0 then PollInterval(configured) else Backoff(Trailing(run))
  }

  function Sleeps(run: seq<Iteration>, configured: nat): seq<nat> {
    if run == [] then [] else Sleeps(run[..|run| - 1], configured) + [SleepAfter(run, configured)]
  }

  lemma OneMore(script: seq<Iteration>, n: nat, configured: nat)
    requires n < |script|
    ensures script[..n + 1] != [] && script[..n + 1][..n] == script[..n]
    ensures AllAttempts(script[..n + 1]) == AllAttempts(script[..n]) + AttemptsOf(script[n])
    ensures Trailing(script[..n + 1]) == if Failed(script[n]) then 1 + Trailing(script[..n]) else 0
    ensures Sleeps(script[..n + 1], configured)
         == Sleeps(script[..n], configured) + [SleepAfter(script[..n + 1], configured)]
  {
    assert script[..n + 1][..n] == script[..n];
  }

  lemma {:induction false} Pow2Grows(m: nat, n: nat)
    requires m <= n
    ensures Pow2(m) <= Pow2(n)
  {
    if m < n { Pow2Grows(m, n - 1); }
  }

  /**
   Over any run, a failing iteration waits 2 seconds after a good one and twice as long as before after a
   failing one, up to 60; a good one waits the poll interval. A comment in the loop has it start at 1 second.
   */
  lemma WaitsDouble(run: seq<Iteration>, next: Iteration, configured: nat)
    ensures
      SleepAfter(run + [next], configured)
      == if next.polled.Some? && next.closed then (if configured == 0 then 5 else configured)
         else if run == [] || (run[|run| - 1].polled.Some? && run[|run| - 1].closed) then 2
         else Min(2 * SleepAfter(run, configured), 60)
  {
    assert (run + [next])[..|run|] == run;
    assert Pow2(1) == 2;
    if Trailing(run) >= 6 {
      assert Pow2(6) == 64;
      Pow2Grows(6, Trailing(run));
    }
  }

  // ---- The loop ------------------------------------------------------------------------------

  class HeartbeatDaemon {
    var running: bool
    var posts: seq<Post>
    var sleeps: seq<nat>
    const pollInterval: nat

    constructor (configured: nat)
      ensures !running && posts == [] && sleeps == [] && pollInterval == configured
    {
      running, posts, sleeps, pollInterval := false, [], [], configured;
    }

    /** Transport errors are logged and swallowed. */
    method ReportResult(id: CommandId, report: Report, delivered: bool)
      modifies this`posts
      ensures posts == old(posts) + [Post(id, report, delivered)]
    {
      posts := posts + [Post(id, report, delivered)];
    }

    method RunBatch(pending: seq<Item>)
      modifies this`posts
      ensures posts == old(posts) + Attempts(pending)
    {
      var k := 0;
      while k < |pending|
        invariant 0 <= k <= |pending|
        invariant posts == old(posts) + Attempts(pending[..k])
      {
        var raw := pending[k];
        assert pending[..k + 1][..k] == pending[..k];
        k := k + 1;
        if raw.Malformed? {
          continue;
        }
        var ran := Execute(raw.commandType, raw.payload, raw.outcome);
        if ran.Crashed? {
          ReportResult(raw.id, Report(None, [], Points(CRASH_NOTE) + ran.error, Some("runner_exception")), raw.delivered);
          continue;
        }
        var r := ran.result;
        ReportResult(raw.id, Report(r.exitCode, Or(r.stdout, []), Or(r.stderr, []), r.rejectedReason), raw.delivered);
      }
      assert pending[..|pending|] == pending;
    }

    /** One turn of the loop; a signal lets it finish. */
    method RunIteration(now: Iteration, failures: nat) returns (consecutive: nat)
      modifies this
      ensures posts == old(posts) + AttemptsOf(now)
      ensures consecutive == if Failed(now) then failures + 1 else 0
      ensures sleeps == old(sleeps) + [if Failed(now) then Backoff(failures + 1) else PollInterval(pollInterval)]
      ensures running == (old(running) && !now.signalled)
    {
      consecutive := failures;
      if now.polled.Some? {
        RunBatch(now.polled.value);
      }
      if Failed(now) {
        consecutive := consecutive + 1;
        sleeps := sleeps + [Backoff(consecutive)];
      } else {
        consecutive := 0;
        sleeps := sleeps + [PollInterval(pollInterval)];
      }
      if now.signalled {
        running := false;
      }
    }

    /**
     Runs until a signal clears `running` or the script of what the outside world does ends; `done` iterations
     are performed.
     */
    method CommandLoop(script: seq<Iteration>) returns (done: nat)
      modifies this
      ensures done <= |script|
      ensures posts == old(posts) + AllAttempts(script[..done])
      ensures sleeps == old(sleeps) + Sleeps(script[..done], pollInterval)
      ensures forall k :: 0 <= k < done - 1 ==> !script[k].signalled
      ensures done < |script| ==> if done == 0 then !old(running) else script[done - 1].signalled
    {
      var consecutiveFailures := 0;
      done := 0;
      while running && done < |script|
        invariant done <= |script|
        invariant consecutiveFailures == Trailing(script[..done])
        invariant posts == old(posts) + AllAttempts(script[..done])
        invariant sleeps == old(sleeps) + Sleeps(script[..done], pollInterval)
        invariant running ==> forall k :: 0 <= k < done ==> !script[k].signalled
        invariant forall k :: 0 <= k < done - 1 ==> !script[k].signalled
        invariant !running ==> if done == 0 then !old(running) else script[done - 1].signalled
      {
        OneMore(script, done, pollInterval);
        consecutiveFailures := RunIteration(script[done], consecutiveFailures);
        Regroup(old(posts), AllAttempts(script[..done]), AttemptsOf(script[done]));
        Regroup(old(sleeps), Sleeps(script[..done], pollInterval), [SleepAfter(script[..done + 1], pollInterval)]);
        done := done + 1;
      }
    }
  }
}

/**
 Server, agents and network together. Agents remember the commands they have polled, lose that memory
 in a crash, and put results on a network that may lose, repeat and reorder them. Everything else that
 writes the table runs in between.
 */
module EndToEnd {
  import opened Common
  import T = CommandTable
  import opened CommandLifecycle

  datatype Post = Post(host: T.HostId, id: T.CommandId, report: T.Report)

  datatype World = World(db: T.Db, memory: set<(T.HostId, T.CommandId)>, network: set<Post>)

  datatype Event =
    | Server(op: T.Op)                                       // any other writer of the table
    | AgentPoll(host: T.HostId, at: T.Time)                  // poll whose response reached the agent
    | AgentCrash(host: T.HostId)
    | AgentReport(post: Post)                                // ran a remembered command, sent the outcome
    | Deliver(post: Post, at: T.Time)                        // a sent result arrives, perhaps again

  function Polled(db: T.Db, host: T.HostId, at: T.Time): set<(T.HostId, T.CommandId)> {
    set id | id in db.rows && T.Eligible(db.rows[id], host, at) :: (host, id)
  }

  function Step(w: World, e: Event): World {
    match e
    case Server(op) => if op.SubmitResult? then w else w.(db := T.Step(w.db, op))
    case AgentPoll(host, at) =>
      w.(db := T.Step(w.db, T.Poll(host, at)), memory := w.memory + Polled(w.db, host, at))
    case AgentCrash(host) => w.(memory := set m | m in w.memory && m.0 != host)
    case AgentReport(post) =>
      if (post.host, post.id) in w.memory then w.(network := w.network + {post}) else w
    case Deliver(post, at) =>
      if post in w.network then w.(db := T.Step(w.db, SubmitOf(post, at))) else w
  }

  function SubmitOf(post: Post, at: T.Time): T.Op { T.SubmitResult(post.id, post.host, post.report, at) }

  /** The table operation an event performs, if any. */
  function OpOf(w: World, e: Event): Option<T.Op> {
    match e
    case Server(op) => if op.SubmitResult? then None else Some(op)
    case AgentPoll(host, at) => Some(T.Poll(host, at))
    case Deliver(post, at) => if post in w.network then Some(SubmitOf(post, at)) else None
    case _ => None
  }

  function At(w: World, events: seq<Event>, k: nat): World
    requires k <= |events|
  {
    if k == 0 then w else Step(At(w, events, k - 1), events[k - 1])
  }

  predicate Start(w: World) { T.Start(w.db) && w.memory == {} && w.network == {} }

  /** The table operations performed by the first `k` events. */
  function OpsUpTo(w: World, events: seq<Event>, k: nat): seq<T.Op>
    requires k <= |events|
  {
    if k == 0 then []
    else
      var op := OpOf(At(w, events, k - 1), events[k - 1]);
      OpsUpTo(w, events, k - 1) + (if op.Some? then [op.value] else [])
  }

  lemma {:induction false} AppendKeepsAt(db: T.Db, ops: seq<T.Op>, more: seq<T.Op>, k: nat)
    requires k <= |ops|
    ensures T.At(db, ops + more, k) == T.At(db, ops, k)
  {
    if k > 0 { AppendKeepsAt(db, ops, more, k - 1); }
  }

  lemma StepIsOp(w: World, e: Event)
    ensures Step(w, e).db == if OpOf(w, e).Some? then T.Step(w.db, OpOf(w, e).value) else w.db
  {
  }

  /** One more event is one more operation of the table, or none. */
  lemma OpsNext(w: World, events: seq<Event>, k: nat)
    requires 0 < k <= |events|
    ensures
      var ops, op := OpsUpTo(w, events, k - 1), OpOf(At(w, events, k - 1), events[k - 1]);
      OpsUpTo(w, events, k) == if op.Some? then ops + [op.value] else ops
  {
  }

  lemma AppendStep(db: T.Db, ops: seq<T.Op>, op: T.Op)
    ensures T.At(db, ops + [op], |ops + [op]|) == T.Step(T.At(db, ops, |ops|), op)
  {
    AppendKeepsAt(db, ops, [op], |ops|);
    assert (ops + [op])[|ops|] == op;
  }

  /** The table inside the world is a run of the table on its own. */
  lemma {:induction false} TableOfWorld(w: World, events: seq<Event>, k: nat)
    requires k <= |events|
    ensures
      var ops := OpsUpTo(w, events, k);
      At(w, events, k).db == T.At(w.db, ops, |ops|)
  {
    if k > 0 {
      var before, e := At(w, events, k - 1), events[k - 1];
      TableOfWorld(w, events, k - 1);
      StepIsOp(before, e);
      OpsNext(w, events, k);
      if OpOf(before, e).Some? { AppendStep(w.db, OpsUpTo(w, events, k - 1), OpOf(before, e).value); }
    }
  }

  lemma {:induction false} OpsExtend(w: World, events: seq<Event>, j: nat, k: nat)
    requires j <= k <= |events|
    ensures
      var earlier := OpsUpTo(w, events, j);
      var later := OpsUpTo(w, events, k);
      |earlier| <= |later| && later[..|earlier|] == earlier
      && T.At(w.db, later, |earlier|) == T.At(w.db, earlier, |earlier|)
    decreases k
  {
    var earlier := OpsUpTo(w, events, j);
    if j < k {
      OpsExtend(w, events, j, k - 1);
    }
    var later := OpsUpTo(w, events, k);
    assert later == earlier + later[|earlier|..];
    AppendKeepsAt(w.db, earlier, later[|earlier|..], |earlier|);
  }

  /** A row seen at two moments of a run of the world has only moved forward in between. */
  lemma WorldForward(w: World, events: seq<Event>, j: nat, k: nat, id: T.CommandId)
    requires Start(w) && j <= k <= |events|
    requires id in At(w, events, j).db.rows
    ensures id in At(w, events, k).db.rows ==> Later(At(w, events, j).db.rows[id], At(w, events, k).db.rows[id])
  {
    TableOfWorld(w, events, j);
    TableOfWorld(w, events, k);
    OpsExtend(w, events, j, k);
    var earlier := OpsUpTo(w, events, j);
    var later := OpsUpTo(w, events, k);
    RunKeepsInv(w.db, later, |earlier|);
    OnlyForward(w.db, later, |earlier|, |later|, id);
  }

  // ---- Where results come from ---------------------------------------------------------------

  /** The event at `i` was a poll that returned command `id` to `host` while it was eligible. */
  predicate HandedOut(w: World, events: seq<Event>, i: nat, host: T.HostId, id: T.CommandId)
    requires i < |events|
  {
    && events[i].AgentPoll? && events[i].host == host
    && var db := At(w, events, i).db;
       id in db.rows && T.Eligible(db.rows[id], host, events[i].at)
  }

  ghost predicate HandedOutBefore(w: World, events: seq<Event>, k: nat, host: T.HostId, id: T.CommandId)
    requires k <= |events|
  {
    exists i | 0 <= i < k :: HandedOut(w, events, i, host, id)
  }

  lemma HandedOutLonger(w: World, events: seq<Event>, j: nat, k: nat, host: T.HostId, id: T.CommandId)
    requires j <= k <= |events| && HandedOutBefore(w, events, j, host, id)
    ensures HandedOutBefore(w, events, k, host, id)
  {
    var i :| 0 <= i < j && HandedOut(w, events, i, host, id);
    assert 0 <= i < k;
  }

  /** Whatever an agent remembers, or has sent, it once polled. */
  lemma {:induction false} OnlyPolledIsReported(w: World, events: seq<Event>, k: nat)
    requires Start(w) && k <= |events|
    ensures forall m :: m in At(w, events, k).memory ==> HandedOutBefore(w, events, k, m.0, m.1)
    ensures forall p :: p in At(w, events, k).network ==> HandedOutBefore(w, events, k, p.host, p.id)
  {
    if k > 0 {
      var before := At(w, events, k - 1);
      var e := events[k - 1];
      OnlyPolledIsReported(w, events, k - 1);
      forall m | m in At(w, events, k).memory ensures HandedOutBefore(w, events, k, m.0, m.1) {
        if m in before.memory {
          HandedOutLonger(w, events, k - 1, k, m.0, m.1);
        } else {
          assert HandedOut(w, events, k - 1, m.0, m.1);
        }
      }
      forall p | p in At(w, events, k).network ensures HandedOutBefore(w, events, k, p.host, p.id) {
        HandedOutLonger(w, events, k - 1, k, p.host, p.id);
      }
    }
  }

  /** The event at `j` delivered the result that was recorded on row `id`. */
  predicate Records(w: World, events: seq<Event>, j: nat, id: T.CommandId)
    requires j < |events|
  {
    && events[j].Deliver? && events[j].post.id == id
    && var before := At(w, events, j);
       && events[j].post in before.network
       && id in before.db.rows
       && before.db.rows[id].host == events[j].post.host
       && before.db.rows[id].completedAt.None?
  }

  predicate CarriesReport(row: T.Row, report: T.Report, at: T.Time) {
    && row.completedAt == Some(at)
    && row.exitCode == report.exitCode
    && row.stdout == Some(report.stdout)
    && row.stderr == Some(report.stderr)
    && row.durationMs == Some(report.durationMs)
  }

  lemma RecordedIsCarried(w: World, events: seq<Event>, j: nat, id: T.CommandId)
    requires j < |events| && Records(w, events, j, id)
    ensures id in At(w, events, j + 1).db.rows
    ensures CarriesReport(At(w, events, j + 1).db.rows[id], events[j].post.report, events[j].at)
  {
    assert T.Enabled(At(w, events, j).db, SubmitOf(events[j].post, events[j].at));
  }

  lemma OnlySubmitCompletes(db: T.Db, op: T.Op, id: T.CommandId)
    requires id in T.Step(db, op).rows && T.Step(db, op).rows[id].completedAt.Some?
    requires id in db.rows ==> db.rows[id].completedAt.None?
    ensures op.SubmitResult? && op.id == id && id in db.rows && db.rows[id].host == op.host
  {
    if id in db.rows && id !in T.Inserted(op) {
      assert T.RowStep(id, db.rows[id], op).completedAt.Some?;
    }
  }

  /** A row that has a result received it from exactly the delivery that finds it open. */
  lemma {:induction false} ResultHasDelivery(w: World, events: seq<Event>, k: nat, id: T.CommandId) returns (j: nat)
    requires Start(w) && k <= |events|
    requires id in At(w, events, k).db.rows && At(w, events, k).db.rows[id].completedAt.Some?
    ensures j < k && Records(w, events, j, id)
  {
    var before := At(w, events, k - 1);
    if id in before.db.rows && before.db.rows[id].completedAt.Some? {
      j := ResultHasDelivery(w, events, k - 1, id);
    } else {
      var op := OpOf(before, events[k - 1]);
      assert op.Some?;
      OnlySubmitCompletes(before.db, op.value, id);
      j := k - 1;
    }
  }

  lemma RecordedStays(w: World, events: seq<Event>, j: nat, k: nat, id: T.CommandId)
    requires Start(w) && j < k <= |events| && Records(w, events, j, id) && id in At(w, events, k).db.rows
    ensures CarriesReport(At(w, events, k).db.rows[id], events[j].post.report, events[j].at)
    ensures At(w, events, k).db.rows[id].host == events[j].post.host
  {
    RecordedIsCarried(w, events, j, id);
    WorldForward(w, events, j, k, id);
    WorldForward(w, events, j + 1, k, id);
  }

  lemma RecordedWasHandedOut(w: World, events: seq<Event>, j: nat, id: T.CommandId) returns (i: nat)
    requires Start(w) && j < |events| && Records(w, events, j, id)
    ensures i < j && HandedOut(w, events, i, events[j].post.host, id)
  {
    OnlyPolledIsReported(w, events, j);
    i :| 0 <= i < j && HandedOut(w, events, i, events[j].post.host, id);
  }

  /**
   Provenance and permanence. Every recorded result was delivered once, comes from a report of the
   row's own host, and that host polled the command while it was eligible; exit code, streams, duration
   and completion time still are that report's at any later time. The reason is the next section's.
   */
  lemma EveryResultTracesToAPoll(w: World, events: seq<Event>, k: nat, id: T.CommandId) returns (i: nat, j: nat)
    requires Start(w) && k <= |events|
    requires id in At(w, events, k).db.rows && At(w, events, k).db.rows[id].completedAt.Some?
    ensures i < j < k && Records(w, events, j, id)
    ensures HandedOut(w, events, i, At(w, events, k).db.rows[id].host, id)
    ensures CarriesReport(At(w, events, k).db.rows[id], events[j].post.report, events[j].at)
  {
    j := ResultHasDelivery(w, events, k, id);
    RecordedStays(w, events, j, k, id);
    i := RecordedWasHandedOut(w, events, j, id);
  }

  // ---- The reported rejection reason ---------------------------------------------------------

  /** Everything else that writes the table runs as whole handlers. */
  predicate AtomicEvents(events: seq<Event>) {
    forall i :: 0 <= i < |events| && events[i].Server? ==> T.Atomic(events[i].op)
  }

  /** No continuation of the world changes the row's rejection reason. */
  ghost predicate ReasonFinalInWorld(w: World, id: T.CommandId)
    requires id in w.db.rows
  {
    forall more: seq<Event> :: AtomicEvents(more) && id in At(w, more, |more|).db.rows ==>
      At(w, more, |more|).db.rows[id].rejectedReason == w.db.rows[id].rejectedReason
  }

  lemma {:induction false} OpsAreAtomic(w: World, events: seq<Event>, k: nat)
    requires AtomicEvents(events) && k <= |events|
    ensures AtomicRun(OpsUpTo(w, events, k))
  {
    if k > 0 {
      OpsAreAtomic(w, events, k - 1);
      OpsNext(w, events, k);
      AtomicOp(w, events, k - 1);
    }
  }

  lemma AtomicOp(w: World, events: seq<Event>, k: nat)
    requires AtomicEvents(events) && k < |events|
    ensures OpOf(At(w, events, k), events[k]).Some? ==> T.Atomic(OpOf(At(w, events, k), events[k]).value)
  {
  }

  function ServerEvents(ops: seq<T.Op>): (events: seq<Event>)
    ensures |events| == |ops| && forall i :: 0 <= i < |ops| ==> events[i] == Server(ops[i])
  {
    seq(|ops|, i requires 0 <= i < |ops| => Server(ops[i]))
  }

  lemma {:induction false} ServerRun(w: World, ops: seq<T.Op>, k: nat)
    requires k <= |ops| && forall i :: 0 <= i < |ops| ==> !ops[i].SubmitResult?
    ensures At(w, ServerEvents(ops), k).db == T.At(w.db, ops, k)
  {
    if k > 0 { ServerRun(w, ops, k - 1); }
  }

  lemma ReasonFinalInWorldExactly(w: World, id: T.CommandId)
    requires DbInv(w.db) && id in w.db.rows && w.db.rows[id].completedAt.Some?
    ensures ReasonFinalInWorld(w, id) <==> !T.Undecided(w.db.rows[id])
  {
    if T.Undecided(w.db.rows[id]) {
      var ops := ReasonIsOverwritten(w.db, id);
      ServerRun(w, ops, |ops|);
      assert AtomicEvents(ServerEvents(ops));
    } else {
      forall more: seq<Event> | AtomicEvents(more) && id in At(w, more, |more|).db.rows
        ensures At(w, more, |more|).db.rows[id].rejectedReason == w.db.rows[id].rejectedReason
      {
        TableOfWorld(w, more, |more|);
        OpsAreAtomic(w, more, |more|);
        var ops := OpsUpTo(w, more, |more|);
        DecidedReasonStays(w.db, ops, |ops|, id);
      }
    }
  }

  lemma WorldInv(w: World, events: seq<Event>, k: nat)
    requires Start(w) && k <= |events|
    ensures DbInv(At(w, events, k).db)
  {
    TableOfWorld(w, events, k);
    var ops := OpsUpTo(w, events, k);
    RunKeepsInv(w.db, ops, |ops|);
  }

  /**
   The reason an agent reports stays on the row, whatever agents, the network and atomic handlers do next,
   exactly when the row was approved or the report carried a reason.
   */
  lemma ReportedReasonFinalExactly(w: World, events: seq<Event>, j: nat, id: T.CommandId)
    requires Start(w) && j < |events| && Records(w, events, j, id)
    ensures id in At(w, events, j + 1).db.rows
    ensures At(w, events, j + 1).db.rows[id].rejectedReason == events[j].post.report.rejectedReason
    ensures ReasonFinalInWorld(At(w, events, j + 1), id) <==>
              At(w, events, j).db.rows[id].humanApproved || events[j].post.report.rejectedReason.Some?
  {
    var before := At(w, events, j);
    RecordedRow(before.db, SubmitOf(events[j].post, events[j].at), id);
    assert At(w, events, j + 1) == Step(before, events[j]);
    WorldInv(w, events, j + 1);
    ReasonFinalInWorldExactly(At(w, events, j + 1), id);
  }

  /** First result wins: no two deliveries of a run are both recorded on the same command. */
  lemma AtMostOneResult(w: World, events: seq<Event>, i: nat, j: nat, id: T.CommandId)
    requires Start(w) && i < j < |events|
    requires Records(w, events, i, id)
    ensures !Records(w, events, j, id)
  {
    RecordedIsCarried(w, events, i, id);
    WorldForward(w, events, i + 1, j, id);
  }
}

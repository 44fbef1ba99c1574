/**
 The `commands` table and everything that writes it.

 One step of the model (`Op`) is either a whole handler, taken as one atomic step, or a single
 SQL statement whose own WHERE clause is all the protection it has (the `...Write` operations).
 A run may mix both, so a theorem about every run also covers handlers that interleave between
 their read and their write. `Atomic` picks out the operations that are whole handlers.
 */
module CommandTable {
  import opened Common

  type CommandId = nat
  type HostId = nat
  type Token = nat
  type Time = int // microseconds

  const SECOND: int := 1_000_000
  const PENDING_WINDOW: int := 3600 * SECOND
  const APPROVAL_TTL: int := 300 * SECOND

  /** What an agent posts after a run. */
  datatype Report = Report(
    exitCode: Option<int>,
    stdout: string,
    stderr: string,
    durationMs: nat,
    rejectedReason: Option<string>)

  datatype Row = Row(
    host: HostId,
    issuedAt: Time,
    humanApproved: bool,
    approvedBy: Option<string>,
    token: Option<Token>,
    requestedAt: Option<Time>,
    respondedAt: Option<Time>,
    rejectedReason: Option<string>,
    agentNode: Option<HostId>,
    completedAt: Option<Time>,
    exitCode: Option<int>,
    stdout: Option<string>,
    stderr: Option<string>,
    durationMs: Option<nat>)

  /** The rows, the hosts they refer to, and the identifiers the UUID generator has handed out. */
  datatype Db = Db(
    hosts: set<HostId>,
    rows: map<CommandId, Row>,
    usedIds: set<CommandId>,
    usedTokens: set<Token>)

  datatype Op =
    // Whole handlers
    | EnrollHost(host: HostId)
    | DeleteHost(host: HostId)
    | CreateCommand(id: CommandId, host: HostId, approved: bool, approvedBy: Option<string>, at: Time)
    | IssueDash(id: CommandId, host: HostId, newToken: Option<Token>, email: string, at: Time)
    | RequestApproval(id: CommandId, token: Token, at: Time)
    | Approve(token: Token, approver: string, at: Time)
    | Reject(token: Token, approver: string, reason: string, at: Time)
    | DashApprove(id: CommandId, email: string, at: Time)
    | DashReject(id: CommandId, email: string, reason: string, at: Time)
    | Sweep(at: Time)
    | Poll(host: HostId, at: Time)
    | SubmitResult(id: CommandId, host: HostId, report: Report, at: Time)
    // Single statements of handlers that read first and write later
    | RejectWrite(id: CommandId, approver: string, reason: string, at: Time)
    | ExpireWrite(id: CommandId)
    | DashApproveWrite(id: CommandId, email: string, at: Time)
    | DashRejectWrite(id: CommandId, email: string, reason: string, at: Time)
    | StampWrite(ids: set<CommandId>, host: HostId)

  predicate Atomic(op: Op) {
    !op.RejectWrite? && !op.ExpireWrite? && !op.DashApproveWrite? && !op.DashRejectWrite? && !op.StampWrite?
  }

  // ---- WHERE clauses -------------------------------------------------------------------------

  /** The poll's WHERE clause. */
  predicate Eligible(row: Row, host: HostId, now: Time) {
    && row.host == host
    && row.completedAt.None?
    && row.rejectedReason.None?
    && (row.humanApproved || (row.token.None? && row.requestedAt.None?))
    && row.issuedAt >= now - PENDING_WINDOW
  }

  /** The commands a poll returns. */
  function Batch(db: Db, host: HostId, now: Time): set<CommandId> {
    set id | id in db.rows && Eligible(db.rows[id], host, now)
  }

  predicate Undecided(row: Row) { !row.humanApproved && row.rejectedReason.None? }

  /** The guarded UPDATE of the Telegram approval; a NULL request time compares as false. */
  predicate ApproveOpen(row: Row, token: Token, now: Time) {
    && row.token == Some(token)
    && Undecided(row)
    && row.requestedAt.Some? && row.requestedAt.value >= now - APPROVAL_TTL
  }

  /** The Telegram rejection: its SELECT, then the age check, skipped when there is no request time. */
  predicate RejectOpen(row: Row, token: Token, now: Time) {
    && row.token == Some(token)
    && Undecided(row)
    && !(row.requestedAt.Some? && now - row.requestedAt.value > APPROVAL_TTL)
  }

  /** The sweep's SELECT. */
  predicate SweepHits(row: Row, now: Time) {
    && row.token.Some?
    && Undecided(row)
    && row.requestedAt.Some? && row.requestedAt.value < now - APPROVAL_TTL
  }

  /** The dashboard's decision: checks on the row it read, then the same guard again in SQL. */
  predicate DashOpen(row: Row) { row.completedAt.None? && Undecided(row) }

  // ---- Row updates ---------------------------------------------------------------------------

  function Approved(row: Row, approver: string, at: Time): Row {
    row.(humanApproved := true, approvedBy := Some(approver), respondedAt := Some(at), token := None)
  }

  function Rejected(row: Row, reason: string, at: Time): Row {
    row.(rejectedReason := Some(reason), respondedAt := Some(at), token := None)
  }

  function Expired(row: Row): Row {
    row.(rejectedReason := Some("approval_timeout"), token := None)
  }

  function TelegramReason(approver: string, reason: string): string {
    "telegram_reject:" + approver + ":" + reason
  }

  function DashReason(email: string, reason: string): string {
    "dash:" + email + ":" + reason
  }

  function Completed(row: Row, host: HostId, report: Report, at: Time): Row {
    row.(exitCode := report.exitCode, stdout := Some(report.stdout), stderr := Some(report.stderr),
         durationMs := Some(report.durationMs), completedAt := Some(at),
         rejectedReason := report.rejectedReason, agentNode := Some(host))
  }

  function NewRow(host: HostId, at: Time, approved: bool, approvedBy: Option<string>,
                  token: Option<Token>, requestedAt: Option<Time>): Row
  {
    Row(host, at, approved, approvedBy, token, requestedAt, None, None, None, None, None, None, None, None)
  }

  // ---- One step ------------------------------------------------------------------------------

  /** What one operation does to one row that survives it. */
  function RowStep(id: CommandId, row: Row, op: Op): Row {
    match op
    case RequestApproval(target, token, at) =>
      if id == target && row.token.None? then row.(token := Some(token), requestedAt := Some(at)) else row
    case Approve(token, approver, at) =>
      if ApproveOpen(row, token, at) then Approved(row, "telegram:" + approver, at) else row
    case Reject(token, approver, reason, at) =>
      if RejectOpen(row, token, at) then Rejected(row, TelegramReason(approver, reason), at) else row
    case DashApprove(target, email, at) =>
      if id == target && DashOpen(row) then Approved(row, "dash:" + email, at) else row
    case DashReject(target, email, reason, at) =>
      if id == target && DashOpen(row) then Rejected(row, DashReason(email, reason), at) else row
    case Sweep(at) =>
      if SweepHits(row, at) then Expired(row) else row
    case Poll(host, at) =>
      if Eligible(row, host, at) && row.agentNode.None? then row.(agentNode := Some(host)) else row
    case SubmitResult(target, host, report, at) =>
      if id == target && row.host == host && row.completedAt.None? then Completed(row, host, report, at) else row
    case RejectWrite(target, approver, reason, at) =>
      if id == target then Rejected(row, TelegramReason(approver, reason), at) else row
    case ExpireWrite(target) =>
      if id == target then Expired(row) else row
    case DashApproveWrite(target, email, at) =>
      if id == target && Undecided(row) then Approved(row, "dash:" + email, at) else row
    case DashRejectWrite(target, email, reason, at) =>
      if id == target && Undecided(row) then Rejected(row, DashReason(email, reason), at) else row
    case StampWrite(ids, host) =>
      if id in ids then row.(agentNode := Some(host)) else row
    case _ => row
  }

  function Inserted(op: Op): map<CommandId, Row> {
    match op
    case CreateCommand(id, host, approved, approvedBy, at) =>
      map[id := NewRow(host, at, approved, approvedBy, None, None)]
    case IssueDash(id, host, newToken, email, at) =>
      map[id := if newToken.Some? then NewRow(host, at, false, None, newToken, Some(at))
                else NewRow(host, at, true, Some("dash:" + email), None, None)]
    case _ => map[]
  }

  function TokensOf(op: Op): set<Token> {
    match op
    case IssueDash(_, _, newToken, _, _) => if newToken.Some? then {newToken.value} else {}
    case RequestApproval(_, token, _) => {token}
    case _ => {}
  }

  /** Generated identifiers are new, and a new row's host exists (foreign key). */
  predicate Enabled(db: Db, op: Op) {
    && Inserted(op).Keys !! db.usedIds
    && TokensOf(op) !! db.usedTokens
    && forall id :: id in Inserted(op) ==> Inserted(op)[id].host in db.hosts
  }

  function HostsAfter(hosts: set<HostId>, op: Op): set<HostId> {
    match op
    case EnrollHost(host) => hosts + {host}
    case DeleteHost(host) => hosts - {host}
    case _ => hosts
  }

  /** Deleting a host cascades to its commands. */
  predicate Survives(row: Row, op: Op) { op.DeleteHost? ==> row.host != op.host }

  function Step(db: Db, op: Op): Db {
    if !Enabled(db, op) then db
    else
      Db(HostsAfter(db.hosts, op),
         (map id | id in db.rows && Survives(db.rows[id], op) :: RowStep(id, db.rows[id], op)) + Inserted(op),
         db.usedIds + Inserted(op).Keys,
         db.usedTokens + TokensOf(op))
  }

  /** The database after the first `k` operations of a run. */
  function At(db: Db, ops: seq<Op>, k: nat): Db
    requires k <= |ops|
  {
    if k == 0 then db else Step(At(db, ops, k - 1), ops[k - 1])
  }

  predicate Start(db: Db) { db.rows == map[] }
}

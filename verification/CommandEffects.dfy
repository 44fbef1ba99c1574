/** What each handler's step amounts to on the table: the rows it touches and the rows it leaves. */
module CommandEffects {
  import opened Common
  import opened CommandTable
  import opened CommandLifecycle

  /** Operations that neither insert, delete nor generate. */
  predicate Updates(op: Op) {
    !op.EnrollHost? && !op.DeleteHost? && !op.CreateCommand? && !op.IssueDash? && !op.RequestApproval?
  }

  lemma UpdatesOnly(db: Db, op: Op)
    requires Updates(op)
    ensures Enabled(db, op) && Inserted(op) == map[] && TokensOf(op) == {} && HostsAfter(db.hosts, op) == db.hosts
    ensures Step(db, op).hosts == db.hosts && Step(db, op).usedIds == db.usedIds && Step(db, op).usedTokens == db.usedTokens
    ensures Step(db, op).rows.Keys == db.rows.Keys
  {
  }

  lemma UpdatesRows(db: Db, op: Op, rows: map<CommandId, Row>)
    requires Updates(op)
    requires rows.Keys == db.rows.Keys
    requires forall id :: id in db.rows ==> rows[id] == RowStep(id, db.rows[id], op)
    ensures Step(db, op) == db.(rows := rows)
  {
    UpdatesOnly(db, op);
    assert Step(db, op).rows == rows;
  }

  lemma UpdatesOne(db: Db, op: Op, id: CommandId, row: Row)
    requires Updates(op)
    requires id in db.rows && row == RowStep(id, db.rows[id], op)
    requires forall other :: other in db.rows && other != id ==> RowStep(other, db.rows[other], op) == db.rows[other]
    ensures Step(db, op) == db.(rows := db.rows[id := row])
  {
    UpdatesRows(db, op, db.rows[id := row]);
  }

  lemma UpdatesNone(db: Db, op: Op)
    requires Updates(op)
    requires forall id :: id in db.rows ==> RowStep(id, db.rows[id], op) == db.rows[id]
    ensures Step(db, op) == db
  {
    UpdatesRows(db, op, db.rows);
  }

  lemma InsertsOne(db: Db, op: Op, id: CommandId, row: Row)
    requires op.CreateCommand? || op.IssueDash?
    requires Enabled(db, op) && Inserted(op) == map[id := row]
    ensures Step(db, op) == db.(rows := db.rows[id := row], usedIds := db.usedIds + {id},
                                usedTokens := db.usedTokens + TokensOf(op))
  {
    assert Step(db, op).rows == db.rows[id := row];
  }

  /** The row a dashboard command starts as: pending with a token, or approved by its issuer. */
  function IssuedRow(host: HostId, newToken: Option<Token>, email: string, now: Time): Row {
    if newToken.Some? then NewRow(host, now, false, None, newToken, Some(now))
    else NewRow(host, now, true, Some("dash:" + email), None, None)
  }

  function Issue(db: Db, id: CommandId, row: Row): Db {
    db.(rows := db.rows[id := row], usedIds := db.usedIds + {id},
        usedTokens := db.usedTokens + (if row.token.Some? then {row.token.value} else {}))
  }

  predicate CanIssue(db: Db, id: CommandId, row: Row) {
    row.host in db.hosts && id !in db.usedIds && (row.token.Some? ==> row.token.value !in db.usedTokens)
  }

  lemma IssueIsStep(db: Db, id: CommandId, host: HostId, newToken: Option<Token>, email: string, now: Time)
    requires CanIssue(db, id, IssuedRow(host, newToken, email, now))
    ensures Step(db, IssueDash(id, host, newToken, email, now)) == Issue(db, id, IssuedRow(host, newToken, email, now))
  {
    InsertsOne(db, IssueDash(id, host, newToken, email, now), id, IssuedRow(host, newToken, email, now));
  }

  /** The database after issuing the first `k` rows. */
  function IssueAll(db: Db, ids: seq<CommandId>, rows: seq<Row>, k: nat): Db
    requires k <= |ids| == |rows|
  {
    if k == 0 then db else Issue(IssueAll(db, ids, rows, k - 1), ids[k - 1], rows[k - 1])
  }

  predicate AllFresh(db: Db, ids: seq<CommandId>, rows: seq<Row>)
    requires |ids| == |rows|
  {
    && Distinct(ids)
    && (forall i :: 0 <= i < |ids| ==> CanIssue(db, ids[i], rows[i]))
    && (forall i, j :: 0 <= i < j < |ids| && rows[i].token.Some? ==> rows[i].token != rows[j].token)
  }

  /** Issuing some of the rows leaves the others issuable. */
  lemma {:induction false} StillFresh(db: Db, ids: seq<CommandId>, rows: seq<Row>, k: nat, i: nat)
    requires k <= i < |ids| == |rows| && AllFresh(db, ids, rows)
    ensures CanIssue(IssueAll(db, ids, rows, k), ids[i], rows[i])
  {
    if k > 0 { StillFresh(db, ids, rows, k - 1, i); }
  }

  lemma {:induction false} IssueAllKeys(db: Db, ids: seq<CommandId>, rows: seq<Row>, k: nat)
    requires k <= |ids| == |rows|
    ensures forall id :: id in IssueAll(db, ids, rows, k).rows <==> id in db.rows || id in ids[..k]
  {
    if k > 0 {
      IssueAllKeys(db, ids, rows, k - 1);
      assert ids[..k] == ids[..k - 1] + [ids[k - 1]];
    }
  }

  lemma {:induction false} IssueAllKeeps(db: Db, ids: seq<CommandId>, rows: seq<Row>, k: nat, id: CommandId)
    requires k <= |ids| == |rows| && id in db.rows && id !in ids
    ensures id in IssueAll(db, ids, rows, k).rows && IssueAll(db, ids, rows, k).rows[id] == db.rows[id]
  {
    if k > 0 { IssueAllKeeps(db, ids, rows, k - 1, id); }
  }

  lemma {:induction false} IssueAllAdds(db: Db, ids: seq<CommandId>, rows: seq<Row>, k: nat, i: nat)
    requires i < k <= |ids| == |rows| && Distinct(ids)
    ensures ids[i] in IssueAll(db, ids, rows, k).rows && IssueAll(db, ids, rows, k).rows[ids[i]] == rows[i]
  {
    if i < k - 1 { IssueAllAdds(db, ids, rows, k - 1, i); }
  }

  /** Each issued row is in the table, and what was there before stands. */
  lemma IssueAllRows(db: Db, ids: seq<CommandId>, rows: seq<Row>)
    requires |ids| == |rows| && Distinct(ids) && db.rows.Keys <= db.usedIds
    requires forall i :: 0 <= i < |ids| ==> ids[i] !in db.usedIds
    ensures
      var after := IssueAll(db, ids, rows, |ids|).rows;
      && (forall id :: id in after <==> id in db.rows || id in ids)
      && (forall id :: id in db.rows ==> after[id] == db.rows[id])
      && (forall i :: 0 <= i < |ids| ==> ids[i] in after && after[ids[i]] == rows[i])
  {
    IssueAllKeys(db, ids, rows, |ids|);
    assert ids[..|ids|] == ids;
    forall id | id in db.rows ensures IssueAll(db, ids, rows, |ids|).rows[id] == db.rows[id] {
      IssueAllKeeps(db, ids, rows, |ids|, id);
    }
    forall i | 0 <= i < |ids| ensures IssueAll(db, ids, rows, |ids|).rows[ids[i]] == rows[i] {
      IssueAllAdds(db, ids, rows, |ids|, i);
    }
  }

  lemma {:induction false} IssueAllIsRun(db: Db, ids: seq<CommandId>, hosts: seq<HostId>, tokens: seq<Option<Token>>,
                                         rows: seq<Row>, email: string, now: Time, ops: seq<Op>, k: nat)
    requires k <= |ids| == |hosts| == |tokens| == |rows| == |ops| && AllFresh(db, ids, rows)
    requires forall i :: 0 <= i < |ids| ==>
               && rows[i] == IssuedRow(hosts[i], tokens[i], email, now)
               && ops[i] == IssueDash(ids[i], hosts[i], tokens[i], email, now)
    ensures At(db, ops, k) == IssueAll(db, ids, rows, k)
  {
    if k > 0 {
      IssueAllIsRun(db, ids, hosts, tokens, rows, email, now, ops, k - 1);
      StillFresh(db, ids, rows, k - 1, k - 1);
      IssueIsStep(IssueAll(db, ids, rows, k - 1), ids[k - 1], hosts[k - 1], tokens[k - 1], email, now);
    }
  }

  /** The rows a dashboard issue inserts, one per host in request order. */
  function IssueOps(hosts: seq<HostId>, ids: seq<CommandId>, tokens: seq<Token>, approval: bool,
                    email: string, at: Time): (ops: seq<Op>)
    requires |ids| == |tokens| == |hosts|
    ensures |ops| == |hosts|
  {
    seq(|hosts|, i requires 0 <= i < |hosts| =>
      IssueDash(ids[i], hosts[i], if approval then Some(tokens[i]) else None, email, at))
  }

  /** Exactly these rows are added, each with these columns, and every other row stands. */
  ghost predicate IssuedAll(before: map<CommandId, Row>, after: map<CommandId, Row>, targets: seq<HostId>,
                            ids: seq<CommandId>, tokens: seq<Token>, pending: bool, email: string, now: Time)
    requires |ids| == |tokens| == |targets|
  {
    && (forall id :: id in after <==> id in before || id in ids)
    && (forall id :: id in before ==> id in after && after[id] == before[id])
    && (forall i :: 0 <= i < |ids| ==> ids[i] in after && after[ids[i]] == Row(
          host := targets[i], issuedAt := now, humanApproved := !pending,
          approvedBy := if pending then None else Some("dash:" + email),
          token := if pending then Some(tokens[i]) else None, requestedAt := if pending then Some(now) else None,
          respondedAt := None, rejectedReason := None, agentNode := None,
          completedAt := None, exitCode := None, stdout := None, stderr := None, durationMs := None))
  }

  predicate IssueFresh(db: Db, targets: seq<HostId>, ids: seq<CommandId>, tokens: seq<Token>)
    requires |ids| == |tokens| == |targets|
  {
    && Distinct(ids) && Distinct(tokens)
    && forall i :: 0 <= i < |ids| ==> ids[i] !in db.usedIds && tokens[i] !in db.usedTokens && targets[i] in db.hosts
  }

  function Given(tokens: seq<Token>, pending: bool): (r: seq<Option<Token>>)
    ensures |r| == |tokens| && forall i :: 0 <= i < |r| ==> r[i] == if pending then Some(tokens[i]) else None
  {
    seq(|tokens|, i requires 0 <= i < |tokens| => if pending then Some(tokens[i]) else None)
  }

  function IssuedRows(targets: seq<HostId>, tokens: seq<Option<Token>>, email: string, now: Time): (r: seq<Row>)
    requires |tokens| == |targets|
    ensures |r| == |targets| && forall i :: 0 <= i < |r| ==> r[i] == IssuedRow(targets[i], tokens[i], email, now)
  {
    seq(|targets|, i requires 0 <= i < |targets| => IssuedRow(targets[i], tokens[i], email, now))
  }

  lemma IssueResult(db: Db, targets: seq<HostId>, ids: seq<CommandId>, tokens: seq<Token>, pending: bool, email: string,
                    now: Time)
    requires |ids| == |tokens| == |targets| && IssueFresh(db, targets, ids, tokens) && db.rows.Keys <= db.usedIds
    ensures
      var rows := IssuedRows(targets, Given(tokens, pending), email, now);
      && AllFresh(db, ids, rows)
      && IssueAll(db, ids, rows, |ids|) == At(db, IssueOps(targets, ids, tokens, pending, email, now), |ids|)
      && IssuedAll(db.rows, IssueAll(db, ids, rows, |ids|).rows, targets, ids, tokens, pending, email, now)
  {
    var given := Given(tokens, pending);
    var rows := IssuedRows(targets, given, email, now);
    IssueAllIsRun(db, ids, targets, given, rows, email, now, IssueOps(targets, ids, tokens, pending, email, now), |ids|);
    IssueAllRows(db, ids, rows);
  }

  lemma RequestEffect(db: Db, id: CommandId, token: Token, now: Time)
    requires token !in db.usedTokens
    ensures
      var rows := if id in db.rows && db.rows[id].token.None?
                  then db.rows[id := db.rows[id].(token := Some(token), requestedAt := Some(now))]
                  else db.rows;
      Step(db, RequestApproval(id, token, now)) == db.(rows := rows, usedTokens := db.usedTokens + {token})
  {
    var rows := if id in db.rows && db.rows[id].token.None?
                then db.rows[id := db.rows[id].(token := Some(token), requestedAt := Some(now))]
                else db.rows;
    assert Step(db, RequestApproval(id, token, now)).rows == rows;
  }

  lemma OtherRowsLackToken(db: Db, id: CommandId, token: Token)
    requires DbInv(db) && id in db.rows && db.rows[id].token == Some(token)
    ensures forall other :: other in db.rows && other != id ==> db.rows[other].token != Some(token)
  {
    forall other | other in db.rows && other != id ensures db.rows[other].token != Some(token) {
      assert !SameToken(db.rows[other], db.rows[id]);
    }
  }

  /** An UPDATE by token touches at most the one row that carries it. */
  lemma ApproveEffect(db: Db, id: CommandId, token: Token, approver: string, now: Time)
    requires DbInv(db) && id in db.rows && ApproveOpen(db.rows[id], token, now)
    ensures Step(db, Approve(token, approver, now))
         == db.(rows := db.rows[id := Approved(db.rows[id], "telegram:" + approver, now)])
  {
    OtherRowsLackToken(db, id, token);
    UpdatesOne(db, Approve(token, approver, now), id, Approved(db.rows[id], "telegram:" + approver, now));
  }

  lemma RejectEffect(db: Db, id: CommandId, token: Token, approver: string, reason: string, now: Time)
    requires DbInv(db) && id in db.rows && RejectOpen(db.rows[id], token, now)
    ensures Step(db, Reject(token, approver, reason, now))
         == db.(rows := db.rows[id := Rejected(db.rows[id], TelegramReason(approver, reason), now)])
  {
    OtherRowsLackToken(db, id, token);
    UpdatesOne(db, Reject(token, approver, reason, now), id,
               Rejected(db.rows[id], TelegramReason(approver, reason), now));
  }

  lemma DashEffect(db: Db, id: CommandId, email: string, reason: string, now: Time)
    requires id in db.rows && DashOpen(db.rows[id])
    ensures Step(db, DashApprove(id, email, now))
         == db.(rows := db.rows[id := Approved(db.rows[id], "dash:" + email, now)])
    ensures Step(db, DashReject(id, email, reason, now))
         == db.(rows := db.rows[id := Rejected(db.rows[id], DashReason(email, reason), now)])
  {
    UpdatesOne(db, DashApprove(id, email, now), id, Approved(db.rows[id], "dash:" + email, now));
    UpdatesOne(db, DashReject(id, email, reason, now), id, Rejected(db.rows[id], DashReason(email, reason), now));
  }

  lemma SubmitEffect(db: Db, id: CommandId, host: HostId, report: Report, now: Time)
    requires id in db.rows && db.rows[id].host == host && db.rows[id].completedAt.None?
    ensures Step(db, SubmitResult(id, host, report, now))
         == db.(rows := db.rows[id := Completed(db.rows[id], host, report, now)])
  {
    UpdatesOne(db, SubmitResult(id, host, report, now), id, Completed(db.rows[id], host, report, now));
  }

  /** The rows the sweep's SELECT finds. */
  function Expiring(rows: map<CommandId, Row>, now: Time): set<CommandId> {
    set id | id in rows && SweepHits(rows[id], now)
  }

  lemma ExpiringExactly(rows: map<CommandId, Row>, now: Time)
    ensures Expiring(rows, now)
         == set id | id in rows && rows[id].token.Some? && !rows[id].humanApproved && rows[id].rejectedReason.None?
                     && rows[id].requestedAt.Some? && now - rows[id].requestedAt.value > 300_000_000
  {
  }

  function ExpiredRows(rows: map<CommandId, Row>, ids: set<CommandId>): map<CommandId, Row> {
    map id | id in rows :: if id in ids then Expired(rows[id]) else rows[id]
  }

  lemma SweepEffect(db: Db, now: Time)
    ensures Step(db, Sweep(now)) == db.(rows := ExpiredRows(db.rows, Expiring(db.rows, now)))
  {
    UpdatesRows(db, Sweep(now), ExpiredRows(db.rows, Expiring(db.rows, now)));
  }

  function StampedRows(rows: map<CommandId, Row>, ids: set<CommandId>, host: HostId): map<CommandId, Row> {
    map id | id in rows :: if id in ids then rows[id].(agentNode := Some(host)) else rows[id]
  }

  lemma PollEffect(db: Db, host: HostId, now: Time, claimable: set<CommandId>)
    requires forall id :: id in claimable <==>
               id in db.rows && Eligible(db.rows[id], host, now) && db.rows[id].agentNode.None?
    ensures Step(db, Poll(host, now)) == db.(rows := StampedRows(db.rows, claimable, host))
  {
    UpdatesRows(db, Poll(host, now), StampedRows(db.rows, claimable, host));
  }

  lemma StampNone(rows: map<CommandId, Row>, host: HostId)
    ensures StampedRows(rows, {}, host) == rows
  {
  }

  /**
   A poll's answer: the host's open rows of the last hour that are approved or were never asked about, once each,
   oldest first. Those no host has yet get this one's stamp, and nothing else changes.
   */
  ghost predicate HandedOut(
    before: map<CommandId, Row>, after: map<CommandId, Row>, batch: seq<CommandId>, host: HostId, now: Time)
  {
    && Distinct(batch)
    && (forall id :: id in batch <==>
          && id in before && before[id].host == host
          && before[id].completedAt.None? && before[id].rejectedReason.None?
          && (before[id].humanApproved || (before[id].token.None? && before[id].requestedAt.None?))
          && before[id].issuedAt >= now - 3_600_000_000)
    && (forall i, j | 0 <= i < j < |batch| :: before[batch[i]].issuedAt <= before[batch[j]].issuedAt)
    && after.Keys == before.Keys
    && (forall id :: id in before ==>
          after[id] == if id in batch && before[id].agentNode.None? then before[id].(agentNode := Some(host)) else before[id])
  }

  lemma HandsOut(rows: map<CommandId, Row>, order: seq<CommandId>, claimable: set<CommandId>, host: HostId, now: Time)
    requires Distinct(order) && forall id :: id in order <==> id in rows && Eligible(rows[id], host, now)
    requires forall i, j | 0 <= i < j < |order| :: rows[order[i]].issuedAt <= rows[order[j]].issuedAt
    requires forall id :: id in claimable <==> id in order && rows[id].agentNode.None?
    ensures HandedOut(rows, StampedRows(rows, claimable, host), order, host, now)
  {
  }

  /** Some row's UPDATE by this token would match, or would find its request too old. */
  ghost predicate SomeOpen(rows: map<CommandId, Row>, token: Token, now: Time) {
    exists id :: id in rows && RejectOpen(rows[id], token, now)
  }

  ghost predicate SomeTooOld(rows: map<CommandId, Row>, token: Token, now: Time) {
    exists id :: id in rows && rows[id].token == Some(token) && SweepHits(rows[id], now)
  }

  predicate TooOld(row: Row, now: Time) { row.requestedAt.Some? && now - row.requestedAt.value > APPROVAL_TTL }

  /** The Telegram reject once its SELECT has found a row. */
  lemma RejectFound(db: Db, id: CommandId, token: Token, approver: string, reason: string, now: Time)
    requires DbInv(db) && id in db.rows && db.rows[id].token == Some(token) && Undecided(db.rows[id])
    ensures Step(db, Reject(token, approver, reason, now))
         == if TooOld(db.rows[id], now) then db
            else db.(rows := db.rows[id := Rejected(db.rows[id], TelegramReason(approver, reason), now)])
    ensures SomeOpen(db.rows, token, now) <==> !TooOld(db.rows[id], now)
    ensures SomeTooOld(db.rows, token, now) <==> TooOld(db.rows[id], now)
  {
    OtherRowsLackToken(db, id, token);
    if TooOld(db.rows[id], now) {
      UpdatesNone(db, Reject(token, approver, reason, now));
      assert SweepHits(db.rows[id], now);
    } else {
      RejectEffect(db, id, token, approver, reason, now);
      assert RejectOpen(db.rows[id], token, now);
    }
  }

  lemma RejectMissing(db: Db, token: Token, approver: string, reason: string, now: Time)
    requires forall id :: id in db.rows ==> !(db.rows[id].token == Some(token) && Undecided(db.rows[id]))
    ensures Step(db, Reject(token, approver, reason, now)) == db
    ensures !SomeOpen(db.rows, token, now) && !SomeTooOld(db.rows, token, now)
  {
    UpdatesNone(db, Reject(token, approver, reason, now));
  }

  lemma DeleteHostEffect(db: Db, host: HostId)
    ensures Step(db, DeleteHost(host))
         == db.(hosts := db.hosts - {host}, rows := map id | id in db.rows && db.rows[id].host != host :: db.rows[id])
  {
    assert Step(db, DeleteHost(host)).rows == map id | id in db.rows && db.rows[id].host != host :: db.rows[id];
  }
}

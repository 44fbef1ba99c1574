/**
 The request handlers that write the `commands` table, as methods over a mutable table. Each is proved
 against the step of `CommandTable` that carries its name, and states the HTTP outcome it returns.
 Authentication and the role checks happen before a handler runs; a row-level permission is an input.
 */
module CommandServer {
  import opened Common
  import T = CommandTable
  import opened CommandLifecycle
  import opened CommandEffects

  datatype Status = Ok | Created | BadRequest | Forbidden | NotFound | Conflict

  const REQUIRES_APPROVAL_BY_DEFAULT: set<string> := {"reboot", "ssh_rotate", "exec_script", "shell"}

  function RequiresApproval(asked: Option<bool>, commandType: string): bool {
    if asked.Some? then asked.value else commandType in REQUIRES_APPROVAL_BY_DEFAULT
  }

  class Server {
    var hosts: set<T.HostId>
    var rows: map<T.CommandId, T.Row>
    ghost var usedIds: set<T.CommandId>
    ghost var usedTokens: set<T.Token>

    ghost function State(): T.Db
      reads this
    {
      T.Db(hosts, rows, usedIds, usedTokens)
    }

    ghost predicate Valid()
      reads this
    {
      DbInv(State())
    }

    constructor ()
      ensures Valid() && T.Start(State()) && State() == T.Db({}, map[], {}, {})
    {
      hosts, rows, usedIds, usedTokens := {}, map[], {}, {};
    }

    /** `POST /v1/admin/commands`, also the row a canary upgrade inserts. */
    method CreateCommand(id: T.CommandId, host: T.HostId, approved: bool, approvedBy: Option<string>,
                         permitted: bool, now: T.Time) returns (r: Status)
      requires Valid() && id !in usedIds
      modifies this
      ensures Valid()
      ensures r == if host !in old(hosts) then NotFound else if !permitted then Forbidden else Created
      ensures State() == if r.Created? then T.Step(old(State()), T.CreateCommand(id, host, approved, approvedBy, now))
                         else old(State())
      ensures r.Created? ==>
                rows == old(rows)[id := T.Row(
                  host := host, issuedAt := now, humanApproved := approved, approvedBy := approvedBy,
                  token := None, requestedAt := None, respondedAt := None, rejectedReason := None, agentNode := None,
                  completedAt := None, exitCode := None, stdout := None, stderr := None, durationMs := None)]
    {
      if host !in hosts {
        return NotFound;
      }
      if !permitted {
        return Forbidden;
      }
      ghost var op := T.CreateCommand(id, host, approved, approvedBy, now);
      StepKeepsInv(State(), op);
      InsertsOne(State(), op, id, T.NewRow(host, now, approved, approvedBy, None, None));
      rows := rows[id := T.NewRow(host, now, approved, approvedBy, None, None)];
      usedIds := usedIds + {id};
      r := Created;
    }

    /** Inserts one dashboard command. */
    method CreateOneCommand(id: T.CommandId, host: T.HostId, newToken: Option<T.Token>, email: string, now: T.Time)
      requires Valid() && CanIssue(State(), id, IssuedRow(host, newToken, email, now))
      modifies this
      ensures Valid() && State() == Issue(old(State()), id, IssuedRow(host, newToken, email, now))
    {
      StepKeepsInv(State(), T.IssueDash(id, host, newToken, email, now));
      IssueIsStep(State(), id, host, newToken, email, now);
      rows := rows[id := IssuedRow(host, newToken, email, now)];
      usedIds := usedIds + {id};
      usedTokens := usedTokens + (if newToken.Some? then {newToken.value} else {});
    }

    method CreateEach(hostIds: seq<T.HostId>, ids: seq<T.CommandId>, tokens: seq<Option<T.Token>>, email: string,
                      now: T.Time, ghost issued: seq<T.Row>)
      requires Valid() && |ids| == |tokens| == |hostIds| == |issued| && AllFresh(State(), ids, issued)
      requires forall i :: 0 <= i < |ids| ==> issued[i] == IssuedRow(hostIds[i], tokens[i], email, now)
      modifies this
      ensures Valid() && State() == IssueAll(old(State()), ids, issued, |ids|)
    {
      ghost var start := State();
      var i := 0;
      while i < |hostIds|
        invariant 0 <= i <= |hostIds|
        invariant Valid() && State() == IssueAll(start, ids, issued, i)
      {
        StillFresh(start, ids, issued, i, i);
        CreateOneCommand(ids[i], hostIds[i], tokens[i], email, now);
        i := i + 1;
      }
    }

    method InsertAll(targets: seq<T.HostId>, ids: seq<T.CommandId>, tokens: seq<T.Token>, approval: bool, email: string,
                     now: T.Time)
      requires Valid() && |ids| == |tokens| == |targets| && IssueFresh(State(), targets, ids, tokens)
      modifies this
      ensures Valid()
      ensures var ops := IssueOps(targets, ids, tokens, approval, email, now); State() == T.At(old(State()), ops, |ops|)
      ensures IssuedAll(old(rows), rows, targets, ids, tokens, approval, email, now)
    {
      var given := Given(tokens, approval);
      ghost var issued := IssuedRows(targets, given, email, now);
      IssueResult(State(), targets, ids, tokens, approval, email, now);
      CreateEach(targets, ids, given, email, now, issued);
    }

    /** `POST /v1/dash/commands`: all hosts must be known and permitted before anything is inserted. */
    method IssueCommand(hostIds: seq<T.HostId>, ids: seq<T.CommandId>, tokens: seq<T.Token>,
                        asked: Option<bool>, commandType: string, email: string,
                        visible: set<T.HostId>, permitted: set<T.HostId>, now: T.Time)
      returns (r: Status)
      requires Valid()
      requires |ids| == |tokens| == |Dedup(hostIds)|
      requires Distinct(ids) && Distinct(tokens)
      requires forall i :: 0 <= i < |ids| ==> ids[i] !in usedIds && tokens[i] !in usedTokens
      modifies this
      ensures Valid()
      ensures r == if exists h :: h in hostIds && (h !in old(hosts) || h !in visible) then NotFound
                   else if exists h :: h in hostIds && h !in permitted then Forbidden
                   else Created
      ensures
        var approval := RequiresApproval(asked, commandType);
        var ops := IssueOps(Dedup(hostIds), ids, tokens, approval, email, now);
        State() == if r.Created? then T.At(old(State()), ops, |ops|) else old(State())
      ensures
        var pending := if asked.Some? then asked.value else commandType in {"reboot", "ssh_rotate", "exec_script", "shell"};
        r.Created? ==> IssuedAll(old(rows), rows, Dedup(hostIds), ids, tokens, pending, email, now)
    {
      r := IssueTo(Dedup(hostIds), ids, tokens, RequiresApproval(asked, commandType), email, visible, permitted, now);
    }

    method IssueTo(targets: seq<T.HostId>, ids: seq<T.CommandId>, tokens: seq<T.Token>, approval: bool, email: string,
                   visible: set<T.HostId>, permitted: set<T.HostId>, now: T.Time)
      returns (r: Status)
      requires Valid() && |ids| == |tokens| == |targets| && Distinct(ids) && Distinct(tokens)
      requires forall i :: 0 <= i < |ids| ==> ids[i] !in usedIds && tokens[i] !in usedTokens
      modifies this
      ensures Valid()
      ensures r == if exists h :: h in targets && (h !in old(hosts) || h !in visible) then NotFound
                   else if exists h :: h in targets && h !in permitted then Forbidden
                   else Created
      ensures
        var ops := IssueOps(targets, ids, tokens, approval, email, now);
        State() == if r.Created? then T.At(old(State()), ops, |ops|) else old(State())
      ensures r.Created? ==> IssuedAll(old(rows), rows, targets, ids, tokens, approval, email, now)
    {
      if exists h :: h in targets && (h !in hosts || h !in visible) {
        return NotFound;
      }
      if exists h :: h in targets && h !in permitted {
        return Forbidden;
      }
      InsertAll(targets, ids, tokens, approval, email, now);
      r := Created;
    }

    /** `POST /v1/admin/commands/{id}/request-approval`. */
    method RequestApproval(id: T.CommandId, token: T.Token, now: T.Time) returns (r: Status)
      requires Valid() && token !in usedTokens
      modifies this
      ensures Valid()
      ensures State() == T.Step(old(State()), T.RequestApproval(id, token, now))
      ensures r == if id !in old(rows) then NotFound
                   else if old(rows)[id].token.Some? then Conflict
                   else Created
      ensures rows == if r.Created? then old(rows)[id := old(rows)[id].(token := Some(token), requestedAt := Some(now))]
                      else old(rows)
    {
      StepKeepsInv(State(), T.RequestApproval(id, token, now));
      RequestEffect(State(), id, token, now);
      usedTokens := usedTokens + {token};
      if id !in rows {
        r := NotFound;
      } else if rows[id].token.Some? {
        r := Conflict;
      } else {
        rows := rows[id := rows[id].(token := Some(token), requestedAt := Some(now))];
        r := Created;
      }
    }

    /** `POST /v1/admin/commands/approve/{token}`: one guarded UPDATE ... RETURNING. */
    method ApproveCommand(token: T.Token, approver: string, now: T.Time)
      returns (r: Status, claimed: Option<T.CommandId>)
      requires Valid()
      modifies this
      ensures Valid()
      ensures State() == T.Step(old(State()), T.Approve(token, approver, now))
      ensures r == (if claimed.Some? then Ok else NotFound)
      ensures claimed.Some? <==>
                exists id :: id in old(rows) && old(rows)[id].token == Some(token)
                             && !old(rows)[id].humanApproved && old(rows)[id].rejectedReason.None?
                             && old(rows)[id].requestedAt.Some? && now - old(rows)[id].requestedAt.value <= 300_000_000
      ensures claimed.Some? ==> claimed.value in old(rows) && T.ApproveOpen(old(rows)[claimed.value], token, now)
      ensures claimed.Some? ==>
                rows == old(rows)[claimed.value := old(rows)[claimed.value].(
                  humanApproved := true, approvedBy := Some("telegram:" + approver), respondedAt := Some(now), token := None)]
      ensures claimed.None? ==> rows == old(rows)
    {
      ghost var op := T.Approve(token, approver, now);
      StepKeepsInv(State(), op);
      claimed := None;
      if exists id :: id in rows && T.ApproveOpen(rows[id], token, now) {
        var id :| id in rows && T.ApproveOpen(rows[id], token, now);
        ApproveEffect(State(), id, token, approver, now);
        rows := rows[id := T.Approved(rows[id], "telegram:" + approver, now)];
        claimed := Some(id);
      } else {
        UpdatesNone(State(), op);
      }
      r := if claimed.Some? then Ok else NotFound;
    }

    /** `POST /v1/admin/commands/reject/{token}`: SELECT, age check, then the write. */
    method RejectCommand(token: T.Token, approver: string, given: Option<string>, now: T.Time)
      returns (r: Status, ghost found: Option<T.CommandId>)
      requires Valid()
      modifies this
      ensures Valid()
      ensures
        var reason := if given.Some? && given.value != "" then given.value else "rejected by admin via Telegram";
        State() == T.Step(old(State()), T.Reject(token, approver, reason, now))
      ensures found.Some? <==> exists id :: id in old(rows) && old(rows)[id].token == Some(token)
                                            && !old(rows)[id].humanApproved && old(rows)[id].rejectedReason.None?
      ensures found.Some? ==> found.value in old(rows) && old(rows)[found.value].token == Some(token)
                              && !old(rows)[found.value].humanApproved && old(rows)[found.value].rejectedReason.None?
      ensures r == if found.None? then NotFound
                   else if old(rows)[found.value].requestedAt.Some?
                           && now - old(rows)[found.value].requestedAt.value > 300_000_000 then Forbidden
                   else Ok
      ensures
        var reason := if given.Some? && given.value != "" then given.value else "rejected by admin via Telegram";
        rows == if r.Ok? then old(rows)[found.value := old(rows)[found.value].(
                  rejectedReason := Some("telegram_reject:" + approver + ":" + reason), respondedAt := Some(now), token := None)]
                else old(rows)
    {
      var reason := if given.Some? && given.value != "" then given.value else "rejected by admin via Telegram";
      StepKeepsInv(State(), T.Reject(token, approver, reason, now));
      if exists id :: id in rows && rows[id].token == Some(token) && T.Undecided(rows[id]) {
        var id :| id in rows && rows[id].token == Some(token) && T.Undecided(rows[id]);
        found := Some(id);
        RejectFound(State(), id, token, approver, reason, now);
        if TooOld(rows[id], now) {
          r := Forbidden;
        } else {
          rows := rows[id := T.Rejected(rows[id], T.TelegramReason(approver, reason), now)];
          r := Ok;
        }
      } else {
        RejectMissing(State(), token, approver, reason, now);
        r, found := NotFound, None;
      }
    }

    /** The expiry sweep: select the expired rows, then one UPDATE per row. */
    method CleanupExpiredApprovals(now: T.Time) returns (count: nat)
      requires Valid()
      modifies this
      ensures Valid()
      ensures State() == T.Step(old(State()), T.Sweep(now))
      ensures count == |set id | id in old(rows) && old(rows)[id].token.Some? && !old(rows)[id].humanApproved
                                 && old(rows)[id].rejectedReason.None? && old(rows)[id].requestedAt.Some?
                                 && now - old(rows)[id].requestedAt.value > 300_000_000|
      ensures rows.Keys == old(rows).Keys
      ensures forall id :: id in old(rows) ==>
                rows[id] == if old(rows)[id].token.Some? && !old(rows)[id].humanApproved
                               && old(rows)[id].rejectedReason.None? && old(rows)[id].requestedAt.Some?
                               && now - old(rows)[id].requestedAt.value > 300_000_000
                            then old(rows)[id].(rejectedReason := Some("approval_timeout"), token := None)
                            else old(rows)[id]
    {
      StepKeepsInv(State(), T.Sweep(now));
      SweepEffect(State(), now);
      ExpiringExactly(rows, now);
      count := ExpireAll(Expiring(rows, now));
    }

    method ExpireAll(expired: set<T.CommandId>) returns (count: nat)
      requires forall id :: id in expired ==> id in rows
      modifies this`rows
      ensures rows == ExpiredRows(old(rows), expired)
      ensures count == |expired|
    {
      var todo := expired;
      count := 0;
      while todo != {}
        invariant todo <= expired && count == |expired| - |todo|
        invariant rows.Keys == old(rows).Keys
        invariant forall id :: id in rows ==>
                    rows[id] == if id in expired && id !in todo then T.Expired(old(rows)[id]) else old(rows)[id]
      {
        var id :| id in todo;
        rows := rows[id := T.Expired(rows[id])];
        todo := todo - {id};
        count := count + 1;
      }
    }

    /** The dashboard's approve and reject endpoints; `visible` is the group ACL on the loaded row. */
    method ResolveApproval(id: T.CommandId, email: string, approve: bool, given: Option<string>,
                           visible: bool, permitted: bool, now: T.Time) returns (r: Status)
      requires Valid()
      modifies this
      ensures Valid()
      ensures r == if id !in old(rows) || !visible then NotFound
                   else if !permitted then Forbidden
                   else if old(rows)[id].completedAt.None? && old(rows)[id].rejectedReason.None?
                           && !old(rows)[id].humanApproved then Ok
                   else Conflict
      ensures
        var reason := if given.Some? && given.value != "" then given.value else "rejected via dashboard";
        State() == if !r.Ok? then old(State())
                   else if approve then T.Step(old(State()), T.DashApprove(id, email, now))
                   else T.Step(old(State()), T.DashReject(id, email, reason, now))
      ensures
        var reason := if given.Some? && given.value != "" then given.value else "rejected via dashboard";
        rows == if !r.Ok? then old(rows)
                else if approve then old(rows)[id := old(rows)[id].(
                  humanApproved := true, approvedBy := Some("dash:" + email), respondedAt := Some(now), token := None)]
                else old(rows)[id := old(rows)[id].(
                  rejectedReason := Some("dash:" + email + ":" + reason), respondedAt := Some(now), token := None)]
    {
      if id !in rows || !visible {
        return NotFound;
      }
      if !permitted {
        return Forbidden;
      }
      if rows[id].completedAt.Some? || rows[id].rejectedReason.Some? {
        return Conflict;
      }
      if rows[id].humanApproved {
        return Conflict;
      }
      var reason := if given.Some? && given.value != "" then given.value else "rejected via dashboard";
      ghost var op := if approve then T.DashApprove(id, email, now) else T.DashReject(id, email, reason, now);
      StepKeepsInv(State(), op);
      DashEffect(State(), id, email, reason, now);
      if approve {
        rows := rows[id := T.Approved(rows[id], "dash:" + email, now)];
      } else {
        rows := rows[id := T.Rejected(rows[id], T.DashReason(email, reason), now)];
      }
      r := Ok;
    }

    /** `GET /v1/agent/commands/pending`: the eligible rows oldest first; unclaimed ones get the host's stamp. */
    method ListPending(host: T.HostId, now: T.Time) returns (r: Status, batch: seq<T.CommandId>)
      requires Valid()
      modifies this
      ensures Valid()
      ensures r == if host in old(hosts) then Ok else NotFound
      ensures State() == if r.Ok? then T.Step(old(State()), T.Poll(host, now)) else old(State())
      ensures forall id :: id in batch <==> r.Ok? && id in T.Batch(old(State()), host, now)
      ensures if r.Ok? then HandedOut(old(rows), rows, batch, host, now) else batch == [] && rows == old(rows)
    {
      batch := [];
      if host !in hosts {
        return NotFound, batch;
      }
      StepKeepsInv(State(), T.Poll(host, now));
      var eligible := set id | id in rows && T.Eligible(rows[id], host, now);
      batch := OldestFirst(eligible);
      var claimable := set id | id in eligible && rows[id].agentNode.None?;
      PollEffect(State(), host, now, claimable);
      HandsOut(rows, batch, claimable, host, now);
      Stamp(claimable, host);
      r := Ok;
    }

    /** One UPDATE for all unclaimed rows, if there are any. */
    method Stamp(claimable: set<T.CommandId>, host: T.HostId)
      modifies this`rows
      ensures rows == StampedRows(old(rows), claimable, host)
    {
      StampNone(rows, host);
      if claimable != {} {
        rows := StampedRows(rows, claimable, host);
      }
    }

    /** `ORDER BY issued_at ASC`, ties in any order. */
    method OldestFirst(ids: set<T.CommandId>) returns (order: seq<T.CommandId>)
      requires forall id :: id in ids ==> id in rows
      ensures forall i | 0 <= i < |order| :: order[i] in ids
      ensures Distinct(order) && forall id :: id in order <==> id in ids
      ensures forall i, j | 0 <= i < j < |order| :: rows[order[i]].issuedAt <= rows[order[j]].issuedAt
    {
      order := [];
      var todo := ids;
      while todo != {}
        invariant todo <= ids
        invariant Distinct(order)
        invariant forall id :: id in order ==> id in ids && id !in todo
        invariant forall id :: id in ids && id !in todo ==> id in order
        invariant forall i | 0 <= i < |order| :: order[i] in ids
        invariant forall i, j | 0 <= i < j < |order| :: rows[order[i]].issuedAt <= rows[order[j]].issuedAt
        invariant forall i, id | 0 <= i < |order| && id in todo :: rows[order[i]].issuedAt <= rows[id].issuedAt
      {
        OldestExists(todo, rows);
        var next :| next in todo && forall id | id in todo :: rows[next].issuedAt <= rows[id].issuedAt;
        assert next !in order;
        order := order + [next];
        todo := todo - {next};
      }
    }

    /** `POST /v1/agent/commands/{id}/result`. */
    method SubmitResult(id: T.CommandId, host: T.HostId, report: T.Report, now: T.Time) returns (r: Status)
      requires Valid()
      modifies this
      ensures Valid()
      ensures r == if host !in old(hosts) || id !in old(rows) then NotFound
                   else if old(rows)[id].host != host then BadRequest
                   else if old(rows)[id].completedAt.Some? then Conflict
                   else Ok
      ensures State() == if r.Ok? then T.Step(old(State()), T.SubmitResult(id, host, report, now)) else old(State())
      ensures rows == if !r.Ok? then old(rows) else old(rows)[id := old(rows)[id].(
                exitCode := report.exitCode, stdout := Some(report.stdout), stderr := Some(report.stderr),
                durationMs := Some(report.durationMs), completedAt := Some(now),
                rejectedReason := report.rejectedReason, agentNode := Some(host))]
    {
      if host !in hosts || id !in rows {
        return NotFound;
      }
      if rows[id].host != host {
        return BadRequest;
      }
      if rows[id].completedAt.Some? {
        return Conflict;
      }
      StepKeepsInv(State(), T.SubmitResult(id, host, report, now));
      SubmitEffect(State(), id, host, report, now);
      rows := rows[id := T.Completed(rows[id], host, report, now)];
      r := Ok;
    }

    /** Host deletion, with its cascade; `inCanary` when an active canary deploy observes the host. */
    method DeleteHost(host: T.HostId, visible: bool, permitted: bool, inCanary: bool) returns (r: Status)
      requires Valid()
      modifies this
      ensures Valid()
      ensures r == if host !in old(hosts) || !visible then NotFound
                   else if !permitted then Forbidden
                   else if inCanary then Conflict
                   else Ok
      ensures State() == if r.Ok? then T.Step(old(State()), T.DeleteHost(host)) else old(State())
      ensures r.Ok? ==> hosts == old(hosts) - {host}
      ensures r.Ok? ==> forall id :: id in rows <==> id in old(rows) && old(rows)[id].host != host
      ensures r.Ok? ==> forall id :: id in rows ==> rows[id] == old(rows)[id]
    {
      if host !in hosts || !visible {
        return NotFound;
      }
      if !permitted {
        return Forbidden;
      }
      if inCanary {
        return Conflict;
      }
      StepKeepsInv(State(), T.DeleteHost(host));
      DeleteHostEffect(State(), host);
      hosts := hosts - {host};
      rows := map id | id in rows && rows[id].host != host :: rows[id];
      r := Ok;
    }
  }

  lemma OldestExists(ids: set<T.CommandId>, rows: map<T.CommandId, T.Row>)
    requires ids != {} && forall id :: id in ids ==> id in rows
    ensures exists m :: m in ids && forall id | id in ids :: rows[m].issuedAt <= rows[id].issuedAt
  {
    var x :| x in ids;
    if ids != {x} {
      OldestExists(ids - {x}, rows);
      var m :| m in ids - {x} && forall id | id in ids - {x} :: rows[m].issuedAt <= rows[id].issuedAt;
      if rows[x].issuedAt <= rows[m].issuedAt {
        assert forall id | id in ids :: rows[x].issuedAt <= rows[id].issuedAt;
      } else {
        assert forall id | id in ids :: rows[m].issuedAt <= rows[id].issuedAt;
      }
    }
  }
}

/**
 What every run of the commands table keeps. The first half holds for every run, also when handlers
 interleave between their statements; the second half holds when handlers are atomic.
 */
module CommandLifecycle {
  import opened Common
  import opened CommandTable

  // ---- Every run -----------------------------------------------------------------------------

  predicate Closed(row: Row) { row.rejectedReason.Some? || row.completedAt.Some? }

  /** `b` is a later state of the same row: what is decided stays decided. */
  predicate Later(a: Row, b: Row) {
    && a.host == b.host
    && a.issuedAt == b.issuedAt
    && (a.requestedAt.Some? ==> b.requestedAt.Some?)
    && (a.humanApproved ==> b.humanApproved && b.approvedBy == a.approvedBy)
    && (Closed(a) ==> Closed(b))
    && (a.completedAt.Some? ==>
          && b.completedAt == a.completedAt && b.exitCode == a.exitCode
          && b.stdout == a.stdout && b.stderr == a.stderr && b.durationMs == a.durationMs)
  }

  /** Columns that belong together, whatever the interleaving. */
  predicate RowInv(row: Row) {
    && (row.token.Some? ==> row.requestedAt.Some?)
    && (row.completedAt.None? ==>
          && row.exitCode.None?
          && row.rejectedReason != Some(""))
  }

  /** Approved and rejected at once, before there is a result, is what atomic handlers rule out. */
  predicate NeverBoth(row: Row) {
    row.completedAt.None? ==> !(row.humanApproved && row.rejectedReason.Some?)
  }

  lemma RowStepForward(id: CommandId, row: Row, op: Op)
    requires RowInv(row)
    ensures RowInv(RowStep(id, row, op))
    ensures Later(row, RowStep(id, row, op))
  {
  }

  predicate SameToken(a: Row, b: Row) { a.token.Some? && a.token == b.token }

  /** Identifiers and tokens in the table were generated, and no two rows share a token. */
  ghost predicate DbInv(db: Db) {
    && db.rows.Keys <= db.usedIds
    && (forall id :: id in db.rows ==> RowInv(db.rows[id]))
    && (forall id :: id in db.rows && db.rows[id].token.Some? ==> db.rows[id].token.value in db.usedTokens)
    && (forall i, j | i in db.rows && j in db.rows :: SameToken(db.rows[i], db.rows[j]) ==> i == j)
  }

  lemma TokenStep(id: CommandId, row: Row, op: Op)
    ensures RowStep(id, row, op).token.Some? ==>
              || RowStep(id, row, op).token == row.token
              || (op.RequestApproval? && id == op.id && RowStep(id, row, op).token == Some(op.token))
  {
  }

  lemma InsertedRows(op: Op, id: CommandId)
    requires id in Inserted(op)
    ensures RowInv(Inserted(op)[id]) && NeverBoth(Inserted(op)[id])
    ensures Inserted(op)[id].token.Some? ==> Inserted(op)[id].token.value in TokensOf(op)
    ensures forall other :: other in Inserted(op) ==> other == id
  {
  }

  /** Where a row of the next table comes from. */
  lemma RowOfStep(db: Db, op: Op, id: CommandId)
    requires Enabled(db, op) && db.rows.Keys <= db.usedIds && id in Step(db, op).rows
    ensures id in Inserted(op) ==> id !in db.rows && Step(db, op).rows[id] == Inserted(op)[id]
    ensures id !in Inserted(op) ==> id in db.rows && Step(db, op).rows[id] == RowStep(id, db.rows[id], op)
  {
  }

  lemma StepKeepsRow(db: Db, op: Op, id: CommandId)
    requires DbInv(db) && Enabled(db, op) && id in Step(db, op).rows
    ensures RowInv(Step(db, op).rows[id])
    ensures Step(db, op).rows[id].token.Some? ==> Step(db, op).rows[id].token.value in db.usedTokens + TokensOf(op)
  {
    RowOfStep(db, op, id);
    if id in Inserted(op) {
      InsertedRows(op, id);
    } else {
      RowStepForward(id, db.rows[id], op);
      TokenStep(id, db.rows[id], op);
    }
  }

  /** A token of the next table is the row's old one, or new and this row's alone. */
  lemma TokenOfStep(db: Db, op: Op, id: CommandId)
    requires DbInv(db) && Enabled(db, op) && id in Step(db, op).rows && Step(db, op).rows[id].token.Some?
    ensures
      var token := Step(db, op).rows[id].token;
      || (id in db.rows && db.rows[id].token == token)
      || (token.value !in db.usedTokens && (id in Inserted(op) || (op.RequestApproval? && op.id == id)))
  {
    RowOfStep(db, op, id);
    if id in Inserted(op) {
      InsertedRows(op, id);
    } else {
      TokenStep(id, db.rows[id], op);
    }
  }

  lemma StepKeepsTokens(db: Db, op: Op, i: CommandId, j: CommandId)
    requires DbInv(db) && Enabled(db, op) && i in Step(db, op).rows && j in Step(db, op).rows
    requires SameToken(Step(db, op).rows[i], Step(db, op).rows[j])
    ensures i == j
  {
    TokenOfStep(db, op, i);
    TokenOfStep(db, op, j);
    if i in Inserted(op) { InsertedRows(op, i); }
    if i in db.rows && j in db.rows { assert SameToken(db.rows[i], db.rows[j]) ==> i == j; }
  }

  lemma StepKeepsInv(db: Db, op: Op)
    requires DbInv(db)
    ensures DbInv(Step(db, op))
  {
    if Enabled(db, op) {
      var next := Step(db, op);
      forall id | id in next.rows
        ensures RowInv(next.rows[id])
        ensures next.rows[id].token.Some? ==> next.rows[id].token.value in next.usedTokens
      {
        StepKeepsRow(db, op, id);
      }
      forall i, j | i in next.rows && j in next.rows && SameToken(next.rows[i], next.rows[j])
        ensures i == j
      {
        StepKeepsTokens(db, op, i, j);
      }
    }
  }

  lemma {:induction false} RunKeepsInv(db: Db, ops: seq<Op>, k: nat)
    requires Start(db) && k <= |ops|
    ensures DbInv(At(db, ops, k))
  {
    if k > 0 {
      RunKeepsInv(db, ops, k - 1);
      StepKeepsInv(At(db, ops, k - 1), ops[k - 1]);
    }
  }

  /** Identifiers are never reused, and a row that is still there has only moved forward. */
  lemma {:induction false} OnlyForward(db: Db, ops: seq<Op>, j: nat, k: nat, id: CommandId)
    requires Start(db) && j <= k <= |ops|
    requires id in At(db, ops, j).usedIds
    ensures id in At(db, ops, k).usedIds
    ensures id in At(db, ops, k).rows ==>
              id in At(db, ops, j).rows && Later(At(db, ops, j).rows[id], At(db, ops, k).rows[id])
    decreases k
  {
    if j < k {
      OnlyForward(db, ops, j, k - 1, id);
      RunKeepsInv(db, ops, k - 1);
      var before := At(db, ops, k - 1);
      if id in before.rows {
        RowStepForward(id, before.rows[id], ops[k - 1]);
      }
    }
  }

  /** Rejected or completed is final, even though a result may overwrite the reason: no poll returns the row again. */
  lemma ClosedStaysClosed(db: Db, ops: seq<Op>, j: nat, k: nat, id: CommandId, host: HostId, now: Time)
    requires Start(db) && j <= k <= |ops|
    requires id in At(db, ops, j).rows && Closed(At(db, ops, j).rows[id])
    ensures id in At(db, ops, k).rows ==>
              Closed(At(db, ops, k).rows[id]) && !Eligible(At(db, ops, k).rows[id], host, now)
  {
    RunKeepsInv(db, ops, j);
    OnlyForward(db, ops, j, k, id);
  }

  /** An approval decision on this row whose UPDATE matched. */
  predicate ApprovalSucceeds(db: Db, op: Op, id: CommandId) {
    && Enabled(db, op)
    && id in db.rows
    && match op
       case Approve(token, _, at) => ApproveOpen(db.rows[id], token, at)
       case DashApprove(target, _, _) => id == target && DashOpen(db.rows[id])
       case DashApproveWrite(target, _, _) => id == target && Undecided(db.rows[id])
       case _ => false
  }

  predicate CreatedApproved(db: Db, op: Op, id: CommandId) {
    && Enabled(db, op)
    && match op
       case CreateCommand(target, _, approved, _, _) => id == target && approved
       case IssueDash(target, _, newToken, _, _) => id == target && newToken.None?
       case _ => false
  }

  ghost predicate ApprovedBefore(db: Db, ops: seq<Op>, k: nat, id: CommandId)
    requires k <= |ops|
  {
    exists i | 0 <= i < k :: ApprovesAt(At(db, ops, i), ops[i], id)
  }

  /** This step creates the row approved or approves it. */
  predicate ApprovesAt(db: Db, op: Op, id: CommandId) { CreatedApproved(db, op, id) || ApprovalSucceeds(db, op, id) }

  /** `human_approved` is only ever set by a creation that asks for it or by an approval that matched. */
  lemma {:induction false} ApprovalHasOrigin(db: Db, ops: seq<Op>, k: nat, id: CommandId)
    requires Start(db) && k <= |ops|
    requires id in At(db, ops, k).rows && At(db, ops, k).rows[id].humanApproved
    ensures ApprovedBefore(db, ops, k, id)
  {
    if k > 0 {
      var before := At(db, ops, k - 1);
      if id in before.rows && before.rows[id].humanApproved {
        ApprovalHasOrigin(db, ops, k - 1, id);
        var i :| 0 <= i < k - 1 && ApprovesAt(At(db, ops, i), ops[i], id);
        assert 0 <= i < k;
      } else {
        BecomesApproved(before, ops[k - 1], id);
      }
    }
  }

  lemma InsertedApproved(db: Db, op: Op, id: CommandId)
    requires Enabled(db, op) && id in Inserted(op) && Inserted(op)[id].humanApproved
    ensures CreatedApproved(db, op, id)
  {
  }

  lemma UpdatedApproved(db: Db, op: Op, id: CommandId)
    requires id in db.rows && !db.rows[id].humanApproved && RowStep(id, db.rows[id], op).humanApproved
    ensures ApprovalSucceeds(db, op, id)
  {
  }

  lemma BecomesApproved(db: Db, op: Op, id: CommandId)
    requires id in Step(db, op).rows && Step(db, op).rows[id].humanApproved
    requires !(id in db.rows && db.rows[id].humanApproved)
    ensures ApprovesAt(db, op, id)
  {
    if id in Inserted(op) {
      InsertedApproved(db, op, id);
    } else {
      UpdatedApproved(db, op, id);
    }
  }

  lemma CreationApproves(db: Db, op: Op, id: CommandId)
    requires CreatedApproved(db, op, id)
    ensures id in Step(db, op).rows && Step(db, op).rows[id].humanApproved && id in Step(db, op).usedIds
  {
    assert id in Inserted(op);
  }

  /** A row is approved exactly when it was created so or an approval matched it before. */
  lemma ApprovedExactly(db: Db, ops: seq<Op>, k: nat, id: CommandId)
    requires Start(db) && k <= |ops| && id in At(db, ops, k).rows
    ensures At(db, ops, k).rows[id].humanApproved <==> ApprovedBefore(db, ops, k, id)
  {
    if At(db, ops, k).rows[id].humanApproved {
      ApprovalHasOrigin(db, ops, k, id);
    }
    if ApprovedBefore(db, ops, k, id) {
      var i :| 0 <= i < k && ApprovesAt(At(db, ops, i), ops[i], id);
      ApprovedSince(db, ops, i, k, id);
    }
  }

  lemma ApprovedSince(db: Db, ops: seq<Op>, i: nat, k: nat, id: CommandId)
    requires Start(db) && i < k <= |ops| && id in At(db, ops, k).rows
    requires ApprovesAt(At(db, ops, i), ops[i], id)
    ensures At(db, ops, k).rows[id].humanApproved
  {
    RunKeepsInv(db, ops, i);
    if CreatedApproved(At(db, ops, i), ops[i], id) {
      CreationApproves(At(db, ops, i), ops[i], id);
    } else {
      ApprovalApproves(At(db, ops, i), ops[i], id);
    }
    OnlyForward(db, ops, i + 1, k, id);
  }

  /**
   The approval gate. Once an approval has been asked for on a row, any later poll that returns it was
   preceded by a creation as approved or by an approval that succeeded on it.
   */
  lemma ApprovalGate(db: Db, ops: seq<Op>, j: nat, k: nat, id: CommandId, host: HostId, now: Time)
    requires Start(db) && j <= k <= |ops|
    requires id in At(db, ops, j).rows && At(db, ops, j).rows[id].requestedAt.Some?
    requires id in At(db, ops, k).rows && Eligible(At(db, ops, k).rows[id], host, now)
    ensures ApprovedBefore(db, ops, k, id)
  {
    RunKeepsInv(db, ops, j);
    OnlyForward(db, ops, j, k, id);
    ApprovalHasOrigin(db, ops, k, id);
  }

  /** An approval that matches leaves the row approved. */
  lemma ApprovalApproves(db: Db, op: Op, id: CommandId)
    requires DbInv(db) && ApprovalSucceeds(db, op, id)
    ensures id in Step(db, op).rows && Step(db, op).rows[id].humanApproved && id in Step(db, op).usedIds
  {
    assert Inserted(op) == map[];
  }

  /** At most one approval ever succeeds on a row, and the recorded approver is never replaced. */
  lemma ApprovedOnce(db: Db, ops: seq<Op>, i: nat, j: nat, id: CommandId)
    requires Start(db) && i < j < |ops|
    requires ApprovalSucceeds(At(db, ops, i), ops[i], id)
    ensures !ApprovalSucceeds(At(db, ops, j), ops[j], id)
    ensures id in At(db, ops, j).rows ==>
              && At(db, ops, j).rows[id].humanApproved
              && At(db, ops, j).rows[id].approvedBy == At(db, ops, i + 1).rows[id].approvedBy
  {
    RunKeepsInv(db, ops, i);
    ApprovalApproves(At(db, ops, i), ops[i], id);
    OnlyForward(db, ops, i + 1, j, id);
  }

  // ---- Handlers taken as atomic --------------------------------------------------------------

  predicate AtomicRun(ops: seq<Op>) { forall i :: 0 <= i < |ops| ==> Atomic(ops[i]) }

  /** One of the two writes whose SQL has no guard, on a row that is approved and has no result. */
  predicate Overrides(db: Db, op: Op, id: CommandId) {
    && ((op.RejectWrite? && op.id == id) || (op.ExpireWrite? && op.id == id))
    && id in db.rows && db.rows[id].humanApproved && db.rows[id].completedAt.None?
  }

  /** No other statement, guarded write or whole handler, can make a row approved and rejected. */
  lemma RowStepNeverBoth(db: Db, op: Op, id: CommandId)
    requires id in db.rows && RowInv(db.rows[id]) && NeverBoth(db.rows[id])
    ensures NeverBoth(RowStep(id, db.rows[id], op)) <==> !Overrides(db, op, id)
  {
  }

  lemma StepNeverBoth(db: Db, op: Op, id: CommandId)
    requires DbInv(db) && (id in db.rows ==> NeverBoth(db.rows[id]))
    ensures id in Step(db, op).rows ==> (NeverBoth(Step(db, op).rows[id]) <==> !Overrides(db, op, id))
    ensures Overrides(db, op, id) ==> id in Step(db, op).rows
  {
    if Enabled(db, op) && id in Step(db, op).rows {
      RowOfStep(db, op, id);
      if id in Inserted(op) {
        InsertedRows(op, id);
      } else {
        RowStepNeverBoth(db, op, id);
      }
    }
  }

  predicate FineAt(db: Db, ops: seq<Op>, i: nat, id: CommandId)
    requires i <= |ops|
  {
    id in At(db, ops, i).rows ==> NeverBoth(At(db, ops, i).rows[id])
  }

  predicate OverridesAt(db: Db, ops: seq<Op>, i: nat, id: CommandId)
    requires i < |ops|
  {
    Overrides(At(db, ops, i), ops[i], id)
  }

  lemma FineNext(db: Db, ops: seq<Op>, i: nat, id: CommandId)
    requires Start(db) && i < |ops| && FineAt(db, ops, i, id)
    ensures FineAt(db, ops, i + 1, id) <==> !OverridesAt(db, ops, i, id)
  {
    RunKeepsInv(db, ops, i);
    StepNeverBoth(At(db, ops, i), ops[i], id);
  }

  lemma {:induction false} FineUntilOverridden(db: Db, ops: seq<Op>, k: nat, id: CommandId)
    requires Start(db) && k <= |ops| && forall i :: 0 <= i < k ==> !OverridesAt(db, ops, i, id)
    ensures FineAt(db, ops, k, id)
  {
    if k > 0 {
      FineUntilOverridden(db, ops, k - 1, id);
      FineNext(db, ops, k - 1, id);
    }
  }

  /**
   Exactly when a row without a result is never both approved and rejected, for every run: no Telegram
   rejection and no expiry writes to it, without a guard, while it is approved and has no result.
   */
  lemma NeverBothExactly(db: Db, ops: seq<Op>, id: CommandId)
    requires Start(db)
    ensures (forall i :: 0 <= i <= |ops| ==> FineAt(db, ops, i, id))
            <==> (forall i :: 0 <= i < |ops| ==> !OverridesAt(db, ops, i, id))
  {
    if forall i :: 0 <= i < |ops| ==> !OverridesAt(db, ops, i, id) {
      forall i | 0 <= i <= |ops| ensures FineAt(db, ops, i, id) {
        FineUntilOverridden(db, ops, i, id);
      }
    }
    if forall i :: 0 <= i <= |ops| ==> FineAt(db, ops, i, id) {
      forall i | 0 <= i < |ops| ensures !OverridesAt(db, ops, i, id) {
        assert FineAt(db, ops, i, id) && FineAt(db, ops, i + 1, id);
        FineNext(db, ops, i, id);
      }
    }
  }

  /** With atomic handlers a row without a result is never both approved and rejected. */
  lemma {:induction false} NeverApprovedAndRejected(db: Db, ops: seq<Op>, k: nat, id: CommandId)
    requires Start(db) && AtomicRun(ops) && k <= |ops|
    requires id in At(db, ops, k).rows
    ensures NeverBoth(At(db, ops, k).rows[id])
  {
    forall i | 0 <= i < k ensures !OverridesAt(db, ops, i, id) {
      assert Atomic(ops[i]);
    }
    FineUntilOverridden(db, ops, k, id);
  }

  lemma RowAfter(db: Db, ops: seq<Op>, k: nat, id: CommandId)
    requires k < |ops| && Enabled(At(db, ops, k), ops[k])
    requires id in At(db, ops, k).rows && id !in Inserted(ops[k]) && !ops[k].DeleteHost?
    ensures id in At(db, ops, k + 1).rows
    ensures At(db, ops, k + 1).rows[id] == RowStep(id, At(db, ops, k).rows[id], ops[k])
  {
  }

  lemma RowCreated(db: Db, ops: seq<Op>, k: nat, id: CommandId, row: Row)
    requires k < |ops| && Enabled(At(db, ops, k), ops[k])
    requires Inserted(ops[k]) == map[id := row]
    ensures id in At(db, ops, k + 1).rows && At(db, ops, k + 1).rows[id] == row
  {
  }

  lemma IssuedThenApproved(ops: seq<Op>, alice: string, at: Time)
    requires |ops| > 2 && ops[0] == IssueDash(1, 7, Some(5), alice, 0) && ops[1] == DashApprove(1, alice, at)
    ensures
      var db, row := Db({7}, map[], {}, {}), NewRow(7, 0, false, None, Some(5), Some(0));
      && 1 in At(db, ops, 1).rows && At(db, ops, 1).rows[1] == row
      && 1 in At(db, ops, 2).rows && At(db, ops, 2).rows[1] == Approved(row, "dash:" + alice, at)
  {
    var db := Db({7}, map[], {}, {});
    RowCreated(db, ops, 0, 1, NewRow(7, 0, false, None, Some(5), Some(0)));
    RowAfter(db, ops, 1, 1);
  }

  /**
   Both overriding writes occur: the handler's SELECT finds the row open (a rejection at time 9) or expired
   (the sweep, just past the window), an approval lands, and the unguarded write follows.
   */
  lemma InterleavedHandlersOverrideApproval(ops: seq<Op>, alice: string, bob: string, reason: string, at: Time)
    requires |ops| == 3 && ops[0] == IssueDash(1, 7, Some(5), alice, 0) && ops[1] == DashApprove(1, alice, at)
    requires ops[2] == RejectWrite(1, bob, reason, at + 1) || ops[2] == ExpireWrite(1)
    ensures
      var db := Db({7}, map[], {}, {});
      && 1 in At(db, ops, 1).rows && RejectOpen(At(db, ops, 1).rows[1], 5, 9)
      && SweepHits(At(db, ops, 1).rows[1], APPROVAL_TTL + 1)
      && Overrides(At(db, ops, 2), ops[2], 1)
  {
    IssuedThenApproved(ops, alice, at);
  }

  /**
   On every reachable row whose token is still open the approve and the reject window coincide, and
   together they are the exact complement of the sweep.
   */
  lemma WindowsComplementSweep(db: Db, ops: seq<Op>, k: nat, id: CommandId, now: Time)
    requires Start(db) && k <= |ops| && id in At(db, ops, k).rows
    ensures
      var row := At(db, ops, k).rows[id];
      row.token.Some? && Undecided(row) ==>
        && (ApproveOpen(row, row.token.value, now) <==> RejectOpen(row, row.token.value, now))
        && (ApproveOpen(row, row.token.value, now) <==> !SweepHits(row, now))
  {
    RunKeepsInv(db, ops, k);
    assert RowInv(At(db, ops, k).rows[id]);
  }

  // ---- One token, one decision ---------------------------------------------------------------

  /** A Telegram decision with this token that took effect on this row. */
  predicate Decides(db: Db, op: Op, token: Token, id: CommandId) {
    && id in db.rows
    && match op
       case Approve(t, _, at) => t == token && ApproveOpen(db.rows[id], t, at)
       case Reject(t, _, _, at) => t == token && RejectOpen(db.rows[id], t, at)
       case _ => false
  }

  /** The operation that attaches `token` to row `id` at time `at`. */
  predicate Attaches(db: Db, op: Op, token: Token, id: CommandId, at: Time) {
    && Enabled(db, op)
    && match op
       case RequestApproval(target, t, when) => target == id && t == token && when == at
       case IssueDash(target, _, newToken, _, when) => target == id && newToken == Some(token) && when == at
       case _ => false
  }

  ghost predicate AttachedBefore(db: Db, ops: seq<Op>, k: nat, token: Token, id: CommandId, at: Time)
    requires k <= |ops|
  {
    exists r | 0 <= r < k :: Attaches(At(db, ops, r), ops[r], token, id, at)
  }

  lemma TokenOfRow(db: Db, op: Op, id: CommandId, row: Row)
    requires RowInv(row) && Enabled(db, op) && RowStep(id, row, op).token.Some?
    ensures
      var after := RowStep(id, row, op);
      || (row.token == after.token && row.requestedAt == after.requestedAt)
      || (after.requestedAt.Some? && Attaches(db, op, after.token.value, id, after.requestedAt.value))
  {
  }

  lemma TokenOfInserted(db: Db, op: Op, id: CommandId)
    requires Enabled(db, op) && id in Inserted(op) && Inserted(op)[id].token.Some?
    ensures
      var row := Inserted(op)[id];
      row.requestedAt.Some? && Attaches(db, op, row.token.value, id, row.requestedAt.value)
  {
  }

  lemma TokenIsAttached(db: Db, op: Op, id: CommandId)
    requires DbInv(db) && id in Step(db, op).rows && Step(db, op).rows[id].token.Some?
    ensures
      var row := Step(db, op).rows[id];
      || (id in db.rows && db.rows[id].token == row.token && db.rows[id].requestedAt == row.requestedAt)
      || (row.requestedAt.Some? && Attaches(db, op, row.token.value, id, row.requestedAt.value))
  {
    if Enabled(db, op) {
      RowOfStep(db, op, id);
      if id in Inserted(op) {
        TokenOfInserted(db, op, id);
      } else {
        TokenOfRow(db, op, id, db.rows[id]);
      }
    }
  }

  lemma {:induction false} TokenHasRequest(db: Db, ops: seq<Op>, k: nat, id: CommandId)
    requires Start(db) && k <= |ops|
    requires id in At(db, ops, k).rows && At(db, ops, k).rows[id].token.Some?
    ensures
      var row := At(db, ops, k).rows[id];
      row.requestedAt.Some? && AttachedBefore(db, ops, k, row.token.value, id, row.requestedAt.value)
  {
    if k > 0 {
      var before := At(db, ops, k - 1);
      var row := At(db, ops, k).rows[id];
      RunKeepsInv(db, ops, k - 1);
      TokenIsAttached(before, ops[k - 1], id);
      if id in before.rows && before.rows[id].token == row.token && before.rows[id].requestedAt == row.requestedAt {
        TokenHasRequest(db, ops, k - 1, id);
        var r :| 0 <= r < k - 1 && Attaches(At(db, ops, r), ops[r], row.token.value, id, row.requestedAt.value);
        assert 0 <= r < k;
      }
    }
  }

  /** A Telegram decision happens within 300 seconds of the request that attached its token to the row. */
  lemma DecisionWithinWindow(db: Db, ops: seq<Op>, k: nat, token: Token, id: CommandId)
    requires Start(db) && k < |ops|
    requires Decides(At(db, ops, k), ops[k], token, id)
    ensures exists at :: AttachedBefore(db, ops, k, token, id, at) && ops[k].at - at <= 300_000_000
  {
    TokenHasRequest(db, ops, k, id);
    var at := At(db, ops, k).rows[id].requestedAt.value;
    assert AttachedBefore(db, ops, k, token, id, at);
  }

  ghost predicate Spent(db: Db, token: Token) {
    token in db.usedTokens && forall id :: id in db.rows ==> db.rows[id].token != Some(token)
  }

  lemma SpentStep(db: Db, op: Op, token: Token)
    requires db.rows.Keys <= db.usedIds && Spent(db, token)
    ensures Spent(Step(db, op), token)
  {
    if Enabled(db, op) {
      forall id | id in Step(db, op).rows ensures Step(db, op).rows[id].token != Some(token) {
        RowOfStep(db, op, id);
        if id in Inserted(op) {
          InsertedRows(op, id);
        } else {
          TokenStep(id, db.rows[id], op);
        }
      }
    }
  }

  lemma DecisionSpends(db: Db, op: Op, token: Token, id: CommandId)
    requires DbInv(db) && Decides(db, op, token, id)
    ensures Spent(Step(db, op), token)
  {
    assert RowStep(id, db.rows[id], op).token.None?;
    forall x | x in db.rows && x != id ensures RowStep(x, db.rows[x], op).token != Some(token) {
      assert !SameToken(db.rows[x], db.rows[id]);
    }
  }

  lemma DecisionSpendsAt(db: Db, ops: seq<Op>, i: nat, token: Token, id: CommandId)
    requires Start(db) && i < |ops| && Decides(At(db, ops, i), ops[i], token, id)
    ensures Spent(At(db, ops, i + 1), token)
  {
    RunKeepsInv(db, ops, i);
    DecisionSpends(At(db, ops, i), ops[i], token, id);
  }

  lemma {:induction false} SpentAfterDecision(db: Db, ops: seq<Op>, i: nat, j: nat, token: Token, id: CommandId)
    requires Start(db) && i < j <= |ops| && Decides(At(db, ops, i), ops[i], token, id)
    ensures Spent(At(db, ops, j), token)
  {
    if j == i + 1 {
      DecisionSpendsAt(db, ops, i, token, id);
    } else {
      SpentAfterDecision(db, ops, i, j - 1, token, id);
      RunKeepsInv(db, ops, j - 1);
      SpentStep(At(db, ops, j - 1), ops[j - 1], token);
    }
  }

  /** A token value authorises at most one Telegram decision, on any row. */
  lemma TokenDecidesOnce(db: Db, ops: seq<Op>, i: nat, j: nat, token: Token, id: CommandId, other: CommandId)
    requires Start(db) && i < j < |ops|
    requires Decides(At(db, ops, i), ops[i], token, id)
    ensures !Decides(At(db, ops, j), ops[j], token, other)
  {
    SpentAfterDecision(db, ops, i, j, token, id);
  }

  // ---- The recorded rejection reason ---------------------------------------------------------

  /** The statements and handlers that assign the rejection reason of a completed row; none looks at `completed_at`. */
  predicate OverwritesReason(id: CommandId, row: Row, op: Op) {
    match op
    case Reject(token, _, _, at) => RejectOpen(row, token, at)
    case Sweep(at) => SweepHits(row, at)
    case RejectWrite(target, _, _, _) => id == target
    case ExpireWrite(target) => id == target
    case DashRejectWrite(target, _, _, _) => id == target && Undecided(row)
    case _ => false
  }

  lemma ReasonWriters(id: CommandId, row: Row, op: Op)
    requires row.completedAt.Some?
    ensures RowStep(id, row, op).rejectedReason == row.rejectedReason || OverwritesReason(id, row, op)
    ensures OverwritesReason(id, row, op) ==> RowStep(id, row, op).rejectedReason.Some?
  {
  }

  /** In any run, between two moments that show different reasons on a completed row, one of those hit it. */
  lemma {:induction false} ReasonChangeHasWriter(db: Db, ops: seq<Op>, j: nat, k: nat, id: CommandId) returns (i: nat)
    requires Start(db) && j <= k <= |ops|
    requires id in At(db, ops, j).rows && At(db, ops, j).rows[id].completedAt.Some?
    requires id in At(db, ops, k).rows && At(db, ops, k).rows[id].rejectedReason != At(db, ops, j).rows[id].rejectedReason
    ensures j <= i < k && id in At(db, ops, i).rows && OverwritesReason(id, At(db, ops, i).rows[id], ops[i])
    decreases k
  {
    var before, op := At(db, ops, k - 1), ops[k - 1];
    RunKeepsInv(db, ops, j);
    RunKeepsInv(db, ops, k - 1);
    OnlyForward(db, ops, j, k - 1, id);
    RowSurvived(before, op, id);
    if before.rows[id].rejectedReason == At(db, ops, j).rows[id].rejectedReason {
      ReasonWriters(id, before.rows[id], op);
      i := k - 1;
    } else {
      i := ReasonChangeHasWriter(db, ops, j, k - 1, id);
    }
  }

  lemma RowSurvived(db: Db, op: Op, id: CommandId)
    requires DbInv(db) && id in db.usedIds && id in Step(db, op).rows
    ensures id in db.rows && (Step(db, op).rows[id] == RowStep(id, db.rows[id], op) || Step(db, op) == db)
  {
    if Enabled(db, op) { RowOfStep(db, op, id); }
  }

  /** No continuation of atomic handlers changes the row's rejection reason. */
  ghost predicate ReasonFinal(db: Db, id: CommandId)
    requires id in db.rows
  {
    forall more: seq<Op> :: AtomicRun(more) && id in At(db, more, |more|).rows ==>
      At(db, more, |more|).rows[id].rejectedReason == db.rows[id].rejectedReason
  }

  lemma DecidedRowStep(id: CommandId, row: Row, op: Op)
    requires row.completedAt.Some? && !Undecided(row) && Atomic(op)
    ensures
      var next := RowStep(id, row, op);
      next.completedAt.Some? && !Undecided(next) && next.rejectedReason == row.rejectedReason
  {
  }

  lemma {:induction false} DecidedReasonStays(db: Db, more: seq<Op>, k: nat, id: CommandId)
    requires DbInv(db) && AtomicRun(more) && k <= |more|
    requires id in db.rows && db.rows[id].completedAt.Some? && !Undecided(db.rows[id])
    ensures id in At(db, more, k).usedIds && DbInv(At(db, more, k))
    ensures id in At(db, more, k).rows ==>
              var row := At(db, more, k).rows[id];
              row.completedAt.Some? && !Undecided(row) && row.rejectedReason == db.rows[id].rejectedReason
  {
    if k > 0 {
      var before, op := At(db, more, k - 1), more[k - 1];
      DecidedReasonStays(db, more, k - 1, id);
      StepKeepsInv(before, op);
      if Enabled(before, op) && id in Step(before, op).rows {
        RowOfStep(before, op, id);
        DecidedRowStep(id, before.rows[id], op);
      }
    }
  }

  lemma StepOfRow(db: Db, op: Op, id: CommandId)
    requires id in db.rows && Enabled(db, op) && Inserted(op) == map[] && !op.DeleteHost?
    ensures id in Step(db, op).rows && Step(db, op).rows[id] == RowStep(id, db.rows[id], op)
  {
  }

  lemma FreshToken(used: set<Token>) returns (token: Token)
    ensures token !in used
  {
    token := Above(used);
  }

  lemma Above(used: set<Token>) returns (bound: Token)
    ensures forall t :: t in used ==> t < bound
  {
    if used == {} {
      bound := 0;
    } else {
      var t :| t in used;
      var rest := Above(used - {t});
      bound := Max(rest, t + 1);
      forall u | u in used ensures u < bound {
        assert u == t || u in used - {t};
      }
    }
  }

  lemma AtOne(db: Db, op: Op)
    ensures At(db, [op], 1) == Step(db, op)
  {
    assert At(db, [op], 0) == db;
  }

  lemma AtTwo(db: Db, first: Op, second: Op)
    ensures At(db, [first, second], 2) == Step(Step(db, first), second)
  {
    assert At(db, [first, second], 0) == db;
    assert At(db, [first, second], 1) == Step(db, first);
  }

  lemma SweptRow(db: Db, id: CommandId, now: Time)
    requires id in db.rows && SweepHits(db.rows[id], now)
    ensures id in Step(db, Sweep(now)).rows && Step(db, Sweep(now)).rows[id] == Expired(db.rows[id])
  {
    StepOfRow(db, Sweep(now), id);
  }

  /** Approval requests and sweeps that leave the row as `row`. */
  ghost predicate Overwritten(db: Db, more: seq<Op>, id: CommandId, row: Row) {
    && (forall i :: 0 <= i < |more| ==> more[i].RequestApproval? || more[i].Sweep?)
    && id in At(db, more, |more|).rows && At(db, more, |more|).rows[id] == row
  }

  lemma SweepOverwrites(db: Db, id: CommandId) returns (more: seq<Op>)
    requires DbInv(db) && id in db.rows && Undecided(db.rows[id]) && db.rows[id].token.Some?
    ensures Overwritten(db, more, id, Expired(db.rows[id]))
  {
    assert RowInv(db.rows[id]);
    var late := db.rows[id].requestedAt.value + APPROVAL_TTL + 1;
    more := [Sweep(late)];
    AtOne(db, Sweep(late));
    SweptRow(db, id, late);
  }

  lemma RequestedRow(db: Db, id: CommandId, token: Token)
    requires id in db.rows && db.rows[id].token.None? && token !in db.usedTokens
    ensures
      var next := Step(db, RequestApproval(id, token, 0));
      id in next.rows && next.rows[id] == db.rows[id].(token := Some(token), requestedAt := Some(0))
  {
    StepOfRow(db, RequestApproval(id, token, 0), id);
  }

  lemma RequestAndSweepOverwrite(db: Db, id: CommandId) returns (more: seq<Op>)
    requires id in db.rows && Undecided(db.rows[id]) && db.rows[id].token.None?
    ensures Overwritten(db, more, id, Expired(db.rows[id]).(requestedAt := Some(0)))
  {
    var token := FreshToken(db.usedTokens);
    var first, second := RequestApproval(id, token, 0), Sweep(APPROVAL_TTL + 1);
    more := [first, second];
    RequestedRow(db, id, token);
    SweptRow(Step(db, first), id, APPROVAL_TTL + 1);
    AtTwo(db, first, second);
  }

  /** On an undecided completed row: ask for approval if there is no open token, and let the sweep pass. */
  lemma ReasonIsOverwritten(db: Db, id: CommandId) returns (more: seq<Op>)
    requires DbInv(db) && id in db.rows && Undecided(db.rows[id])
    ensures forall i :: 0 <= i < |more| ==> more[i].RequestApproval? || more[i].Sweep?
    ensures id in At(db, more, |more|).rows
    ensures At(db, more, |more|).rows[id].rejectedReason == Some("approval_timeout")
    ensures At(db, more, |more|).rows[id].completedAt == db.rows[id].completedAt
    ensures At(db, more, |more|).rows[id].exitCode == db.rows[id].exitCode
  {
    if db.rows[id].token.Some? {
      more := SweepOverwrites(db, id);
    } else {
      more := RequestAndSweepOverwrite(db, id);
    }
  }

  /** The reason of a completed row is final exactly when the row is decided: approved, or given a reason. */
  lemma ReasonFinalExactly(db: Db, id: CommandId)
    requires DbInv(db) && id in db.rows && db.rows[id].completedAt.Some?
    ensures ReasonFinal(db, id) <==> !Undecided(db.rows[id])
  {
    if Undecided(db.rows[id]) {
      var more := ReasonIsOverwritten(db, id);
      assert AtomicRun(more);
    } else {
      forall more: seq<Op> | AtomicRun(more) && id in At(db, more, |more|).rows
        ensures At(db, more, |more|).rows[id].rejectedReason == db.rows[id].rejectedReason
      {
        DecidedReasonStays(db, more, |more|, id);
      }
    }
  }

  /** This step records the report on the row. */
  predicate RecordsResult(db: Db, op: Op, id: CommandId) {
    && op.SubmitResult? && op.id == id
    && id in db.rows && db.rows[id].host == op.host && db.rows[id].completedAt.None?
  }

  lemma RecordedRow(db: Db, op: Op, id: CommandId)
    requires RecordsResult(db, op, id)
    ensures id in Step(db, op).rows && Step(db, op).rows[id] == Completed(db.rows[id], op.host, op.report, op.at)
  {
    StepOfRow(db, op, id);
  }

  /**
   A recorded rejection reason stays, whatever atomic handlers follow, exactly when the row was approved or
   the report carried a reason. The other result columns never change (`OnlyForward`).
   */
  lemma RecordedReasonFinalExactly(db: Db, ops: seq<Op>, k: nat, id: CommandId)
    requires Start(db) && k < |ops| && RecordsResult(At(db, ops, k), ops[k], id)
    ensures id in At(db, ops, k + 1).rows
    ensures ReasonFinal(At(db, ops, k + 1), id) <==>
              At(db, ops, k).rows[id].humanApproved || ops[k].report.rejectedReason.Some?
  {
    RecordedRow(At(db, ops, k), ops[k], id);
    RunKeepsInv(db, ops, k + 1);
    ReasonFinalExactly(At(db, ops, k + 1), id);
  }

  // ---- Redelivery ----------------------------------------------------------------------------

  /**
   With atomic handlers an approved command without a result is in every poll of its host until one
   hour after it was issued, however often it has been handed out before.
   */
  lemma RedeliveredUntilResult(db: Db, ops: seq<Op>, j: nat, k: nat, id: CommandId, now: Time)
    requires Start(db) && AtomicRun(ops) && j <= k <= |ops|
    requires id in At(db, ops, j).rows && At(db, ops, j).rows[id].humanApproved
    requires id in At(db, ops, k).rows && At(db, ops, k).rows[id].completedAt.None?
    requires now <= At(db, ops, j).rows[id].issuedAt + 3_600_000_000
    ensures id in Batch(At(db, ops, k), At(db, ops, j).rows[id].host, now)
  {
    RunKeepsInv(db, ops, j);
    OnlyForward(db, ops, j, k, id);
    NeverApprovedAndRejected(db, ops, k, id);
  }

  lemma CreatedRow(db: Db, op: Op, id: CommandId, host: HostId, at: Time)
    requires op.CreateCommand? && op.id == id && op.host == host && op.at == at && id !in db.usedIds && host in db.hosts
    ensures id in Step(db, op).rows && id in Step(db, op).usedIds
    ensures Step(db, op).rows[id].host == host && Step(db, op).rows[id].issuedAt == at
  {
    assert id in Inserted(op);
  }

  lemma UnaskedIsEligible(row: Row, poller: HostId, now: Time)
    requires RowInv(row) && row.requestedAt.None? && row.rejectedReason.None? && row.completedAt.None?
    ensures Eligible(row, poller, now) <==> poller == row.host && now <= row.issuedAt + 3_600_000_000
  {
  }

  /** `ops[j]` creates the command for an existing host, without approval. */
  predicate Unapproved(db: Db, ops: seq<Op>, j: nat, id: CommandId, host: HostId, at: Time) {
    && j < |ops| && ops[j].CreateCommand? && !ops[j].approved
    && ops[j].id == id && ops[j].host == host && ops[j].at == at
    && id !in At(db, ops, j).usedIds && host in At(db, ops, j).hosts
  }

  lemma CreatedAt(db: Db, ops: seq<Op>, j: nat, id: CommandId, host: HostId, at: Time)
    requires Unapproved(db, ops, j, id, host, at)
    ensures id in At(db, ops, j + 1).rows && id in At(db, ops, j + 1).usedIds
    ensures At(db, ops, j + 1).rows[id].host == host && At(db, ops, j + 1).rows[id].issuedAt == at
  {
    CreatedRow(At(db, ops, j), ops[j], id, host, at);
  }

  lemma SameOrigin(db: Db, ops: seq<Op>, j: nat, k: nat, id: CommandId)
    requires Start(db) && j <= k <= |ops| && id in At(db, ops, j).usedIds && id in At(db, ops, k).rows
    ensures id in At(db, ops, j).rows
    ensures At(db, ops, k).rows[id].host == At(db, ops, j).rows[id].host
    ensures At(db, ops, k).rows[id].issuedAt == At(db, ops, j).rows[id].issuedAt
  {
    OnlyForward(db, ops, j, k, id);
  }

  lemma CreatedStays(db: Db, ops: seq<Op>, j: nat, k: nat, id: CommandId, host: HostId, at: Time)
    requires Start(db) && j < k <= |ops| && Unapproved(db, ops, j, id, host, at) && id in At(db, ops, k).rows
    ensures At(db, ops, k).rows[id].host == host && At(db, ops, k).rows[id].issuedAt == at
  {
    CreatedAt(db, ops, j, id, host, at);
    SameOrigin(db, ops, j + 1, k, id);
  }

  /**
   A command created without approval, for which nobody asked for one, and which has neither a rejection nor a
   result, is in the poll of its own host for exactly one hour, and in no other host's.
   */
  lemma UnaskedIsPolledExactly(db: Db, ops: seq<Op>, j: nat, k: nat, id: CommandId, host: HostId, at: Time,
                               poller: HostId, now: Time)
    requires Start(db) && j < k <= |ops| && Unapproved(db, ops, j, id, host, at)
    requires id in At(db, ops, k).rows && At(db, ops, k).rows[id].requestedAt.None?
    requires At(db, ops, k).rows[id].rejectedReason.None? && At(db, ops, k).rows[id].completedAt.None?
    ensures id in Batch(At(db, ops, k), poller, now) <==> poller == host && now <= at + 3_600_000_000
  {
    CreatedStays(db, ops, j, k, id, host, at);
    RunKeepsInv(db, ops, k);
    UnaskedIsEligible(At(db, ops, k).rows[id], poller, now);
  }

  /** No poll returns a command that is older than an hour, decided against, completed or another host's. */
  lemma PolledIsOpen(db: Db, host: HostId, now: Time, id: CommandId)
    requires id in Batch(db, host, now)
    ensures id in db.rows && db.rows[id].issuedAt >= now - 3_600_000_000 && db.rows[id].host == host
    ensures db.rows[id].completedAt.None? && db.rows[id].rejectedReason.None?
  {
  }
}

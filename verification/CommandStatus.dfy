/** The status a row is shown with, the SQL filter behind each status, and the totals on the stats page. */
module CommandStatus {
  import opened Common
  import T = CommandTable
  import opened CommandLifecycle
  import opened Text

  datatype Status =
    PendingApproval | Approved | Queued | Running | Succeeded | Failed | Timeout | Rejected | Canceled

  /** A Python string column used as a condition. */
  predicate Truthy(s: Option<string>) { s.Some? && s.value != "" }

  function Classify(row: T.Row): Status {
    if Truthy(row.rejectedReason) then Rejected
    else if row.completedAt.Some? then
      if row.exitCode.None? then Timeout else if row.exitCode.value == 0 then Succeeded else Failed
    else if !row.humanApproved then PendingApproval
    else Queued
  }

  /** The WHERE clause of the list filter. */
  predicate Selects(filter: Status, row: T.Row) {
    match filter
    case Succeeded => row.completedAt.Some? && row.exitCode == Some(0)
    case Failed => row.completedAt.Some? && row.exitCode.Some? && row.exitCode != Some(0)
    case Timeout => row.completedAt.Some? && row.exitCode.None?
    case Rejected => row.rejectedReason.Some?
    case PendingApproval => row.completedAt.None? && row.rejectedReason.None? && !row.humanApproved
    case Approved | Queued | Running => row.completedAt.None? && row.rejectedReason.None? && row.humanApproved
    case Canceled => false
  }

  /** Approved, queued and running cannot be told apart from the columns. */
  predicate SameClass(a: Status, b: Status) {
    a == b || (a in {Approved, Queued, Running} && b in {Approved, Queued, Running})
  }

  /** On every reachable row the status it is shown with is a filter that finds it. */
  lemma {:induction false} ShownStatusFindsRow(db: T.Db, ops: seq<T.Op>, k: nat, id: T.CommandId)
    requires T.Start(db) && k <= |ops| && id in T.At(db, ops, k).rows
    ensures var row := T.At(db, ops, k).rows[id]; Selects(Classify(row), row)
  {
    RunKeepsInv(db, ops, k);
    assert RowInv(T.At(db, ops, k).rows[id]);
  }

  /** Exactly the filters of one class find the row. */
  ghost predicate FiltersAgree(row: T.Row) {
    forall f: Status :: Selects(f, row) <==> SameClass(f, Classify(row))
  }

  lemma RowFiltersAgree(row: T.Row)
    requires RowInv(row)
    ensures FiltersAgree(row) <==> row.rejectedReason.None? || row.completedAt.None?
  {
    if row.rejectedReason.Some? && row.completedAt.Some? {
      var shown := if row.exitCode.None? then Timeout else if row.exitCode.value == 0 then Succeeded else Failed;
      assert Selects(Rejected, row) && Selects(shown, row) && !SameClass(Rejected, shown);
    }
  }

  /**
   The filters partition the reachable rows and agree with the shown status on a row if and only if the
   row is not at the same time completed and given a rejection reason.
   */
  lemma FiltersAgreeExactly(db: T.Db, ops: seq<T.Op>, k: nat, id: T.CommandId)
    requires T.Start(db) && k <= |ops| && id in T.At(db, ops, k).rows
    ensures
      var row := T.At(db, ops, k).rows[id];
      FiltersAgree(row) <==> row.rejectedReason.None? || row.completedAt.None?
  {
    RunKeepsInv(db, ops, k);
    RowFiltersAgree(T.At(db, ops, k).rows[id]);
  }

  /**
   A command the poll hands out is shown as queued exactly when it was created approved or approved since, and as
   pending approval exactly when neither happened; in the second case nobody ever asked for its approval.
   */
  lemma HandedOutIsShownByOrigin(db: T.Db, ops: seq<T.Op>, k: nat, id: T.CommandId, host: T.HostId, now: T.Time)
    requires T.Start(db) && k <= |ops| && id in T.At(db, ops, k).rows && T.Eligible(T.At(db, ops, k).rows[id], host, now)
    ensures Classify(T.At(db, ops, k).rows[id]) == (if ApprovedBefore(db, ops, k, id) then Queued else PendingApproval)
    ensures !ApprovedBefore(db, ops, k, id) ==> NeverAsked(db, ops, k, id)
  {
    ApprovedExactly(db, ops, k, id);
    if !ApprovedBefore(db, ops, k, id) {
      forall j | 0 <= j <= k && id in T.At(db, ops, j).rows ensures T.At(db, ops, j).rows[id].requestedAt.None? {
        if T.At(db, ops, j).rows[id].requestedAt.Some? { ApprovalGate(db, ops, j, k, id, host, now); }
      }
    }
  }

  ghost predicate NeverAsked(db: T.Db, ops: seq<T.Op>, k: nat, id: T.CommandId)
    requires k <= |ops|
  {
    forall j :: 0 <= j <= k && id in T.At(db, ops, j).rows ==> T.At(db, ops, j).rows[id].requestedAt.None?
  }

  /** A succeeded command that nobody decided on can become one listed as rejected: asked for late, it expires. */
  lemma SucceededBecomesRejected(db: T.Db, id: T.CommandId) returns (more: seq<T.Op>)
    requires DbInv(db) && id in db.rows && Classify(db.rows[id]) == Succeeded && T.Undecided(db.rows[id])
    ensures AtomicRun(more) && id in T.At(db, more, |more|).rows
    ensures Classify(T.At(db, more, |more|).rows[id]) == Rejected
  {
    more := ReasonIsOverwritten(db, id);
  }

  const ONE_HOST: T.Db := T.Db({7}, map[], {}, {})

  lemma UnapprovedRunRecorded(created: T.Op, submitted: T.Op, report: T.Report)
    requires created == T.CreateCommand(1, 7, false, None, 0) && submitted == T.SubmitResult(1, 7, report, 1)
    ensures
      var done := T.At(ONE_HOST, [created, submitted], 2);
      && DbInv(done) && 1 in done.rows
      && done.rows[1] == T.Completed(T.NewRow(7, 0, false, None, None, None), 7, report, 1)
  {
    var row := T.NewRow(7, 0, false, None, None, None);
    RowCreated(ONE_HOST, [created, submitted], 0, 1, row);
    AtTwo(ONE_HOST, created, submitted);
    RunKeepsInv(ONE_HOST, [created, submitted], 2);
    RecordedRow(T.At(ONE_HOST, [created, submitted], 1), submitted, 1);
  }

  /** The smallest such run: an admin's command, never approved, is run with exit code 0. */
  lemma SucceededThenListedAsRejected(report: T.Report) returns (more: seq<T.Op>)
    requires report.exitCode == Some(0) && report.rejectedReason.None?
    ensures
      var done := T.At(ONE_HOST, [T.CreateCommand(1, 7, false, None, 0), T.SubmitResult(1, 7, report, 1)], 2);
      && 1 in done.rows && Classify(done.rows[1]) == Succeeded
      && AtomicRun(more) && 1 in T.At(done, more, |more|).rows && Classify(T.At(done, more, |more|).rows[1]) == Rejected
  {
    var created, submitted := T.CreateCommand(1, 7, false, None, 0), T.SubmitResult(1, 7, report, 1);
    UnapprovedRunRecorded(created, submitted, report);
    more := SucceededBecomesRejected(T.At(ONE_HOST, [created, submitted], 2), 1);
  }

  // ---- The label sent to live dashboards -----------------------------------------------------

  predicate MentionsTimeout(reason: string) { Contains(Lower(reason), "timeout") }

  function StatusLabel(exitCode: Option<int>, reason: Option<string>): Status {
    if exitCode == Some(0) then Succeeded
    else if exitCode.Some? then Failed
    else if Truthy(reason) && MentionsTimeout(reason.value) then Timeout
    else if Truthy(reason) then Rejected
    else Timeout
  }

  /**
   The label broadcast when a result is recorded is the status the row is then listed with, if and only
   if there is no rejection reason, or there is no exit code and the reason does not mention a timeout.
   In particular they differ for every timeout the agent reports.
   */
  lemma {:induction false} LabelsAgreeExactly(row: T.Row, host: T.HostId, report: T.Report, now: T.Time)
    ensures
      StatusLabel(report.exitCode, report.rejectedReason) == Classify(T.Completed(row, host, report, now))
      <==>
      || !Truthy(report.rejectedReason)
      || (report.exitCode.None? && !MentionsTimeout(report.rejectedReason.value))
  {
  }

  /**
   From the report to what is shown: a recorded result is listed, found by the filters and announced by exit code
   and reason as follows.
   */
  lemma RecordedShows(db: T.Db, ops: seq<T.Op>, k: nat, id: T.CommandId)
    requires T.Start(db) && k < |ops| && RecordsResult(T.At(db, ops, k), ops[k], id)
    ensures id in T.At(db, ops, k + 1).rows
    ensures
      var report, row := ops[k].report, T.At(db, ops, k + 1).rows[id];
      var shown, sent := Classify(row), StatusLabel(report.exitCode, report.rejectedReason);
      var reasoned := report.rejectedReason.Some? && report.rejectedReason.value != "";
      && (report.exitCode == Some(0) ==> sent == Succeeded && shown == if reasoned then Rejected else Succeeded)
      && (report.exitCode.Some? && report.exitCode != Some(0) ==> sent == Failed && shown == if reasoned then Rejected else Failed)
      && (report.exitCode.None? && !reasoned ==> sent == Timeout && shown == Timeout)
      && (report.exitCode.None? && reasoned ==>
            && shown == Rejected
            && sent == if Contains(Lower(report.rejectedReason.value), "timeout") then Timeout else Rejected)
      && (Selects(Succeeded, row) <==> report.exitCode == Some(0))
      && (Selects(Failed, row) <==> report.exitCode.Some? && report.exitCode != Some(0))
      && (Selects(Timeout, row) <==> report.exitCode.None?)
      && (Selects(Rejected, row) <==> report.rejectedReason.Some?)
      && !Selects(PendingApproval, row) && !Selects(Approved, row) && !Selects(Queued, row) && !Selects(Running, row)
      && !Selects(Canceled, row)
  {
    RecordedRow(T.At(db, ops, k), ops[k], id);
  }

  /** A row without a result: what it is shown as, and which filters find it. */
  lemma {:induction false} UnfinishedShows(row: T.Row)
    requires row.completedAt.None?
    ensures
      var reasoned := row.rejectedReason.Some? && row.rejectedReason.value != "";
      Classify(row) == if reasoned then Rejected else if row.humanApproved then Queued else PendingApproval
    ensures Selects(Rejected, row) <==> row.rejectedReason.Some?
    ensures Selects(PendingApproval, row) <==> row.rejectedReason.None? && !row.humanApproved
    ensures forall f | f in {Approved, Queued, Running} :: Selects(f, row) <==> row.rejectedReason.None? && row.humanApproved
    ensures forall f | f in {Succeeded, Failed, Timeout, Canceled} :: !Selects(f, row)
  {
  }

  // ---- Totals --------------------------------------------------------------------------------

  const DAY: int := 86_400 * T.SECOND

  datatype Outcome = Issue | Success | Failure | Pending | NoExitCode

  predicate Counts(o: Outcome, row: T.Row) {
    match o
    case Issue => true
    case Success => row.exitCode == Some(0)
    case Failure => row.exitCode.Some? && row.exitCode != Some(0)
    case Pending => row.completedAt.None?
    case NoExitCode => row.completedAt.Some? && row.exitCode.None?
  }

  function Tally(rows: seq<T.Row>, o: Outcome): nat {
    if rows == [] then 0
    else Tally(rows[..|rows| - 1], o) + (if Counts(o, rows[|rows| - 1]) then 1 else 0)
  }

  /** The rows a tally stands for. */
  predicate Tallied(o: Outcome, row: T.Row) {
    (o == Success ==> row.exitCode == Some(0)) && (o == Failure ==> row.exitCode.Some? && row.exitCode != Some(0))
    && (o == Pending ==> row.completedAt.None?) && (o == NoExitCode ==> row.completedAt.Some? && row.exitCode.None?)
  }

  function Positions(rows: seq<T.Row>, o: Outcome): set<int> { set i | 0 <= i < |rows| && Tallied(o, rows[i]) }

  lemma OneMorePosition(rows: seq<T.Row>, row: T.Row, o: Outcome)
    ensures |Positions(rows + [row], o)| == |Positions(rows, o)| + (if Tallied(o, row) then 1 else 0)
  {
    var all := rows + [row];
    assert Positions(all, o) == Positions(rows, o) + (if Tallied(o, row) then {|rows|} else {});
  }

  /** Each tally is the number of rows with the exit code or the completion it names. */
  lemma {:induction false} TallyCounts(rows: seq<T.Row>, o: Outcome)
    ensures Tally(rows, o) == |Positions(rows, o)|
  {
    if rows == [] {
      assert Positions(rows, o) == {};
    } else {
      var init, last := rows[..|rows| - 1], rows[|rows| - 1];
      TallyCounts(init, o);
      OneMorePosition(init, last, o);
      assert init + [last] == rows;
      assert Counts(o, last) <==> Tallied(o, last);
    }
  }

  /** A bucket's rows are those issued on its day. */
  lemma {:induction false} OnDayExactly(rows: seq<T.Row>, day: int)
    ensures forall row :: row in OnDay(rows, day) <==>
              row in rows && day * 86_400_000_000 <= row.issuedAt < (day + 1) * 86_400_000_000
  {
    if rows != [] {
      var n := |rows| - 1;
      OnDayExactly(rows[..n], day);
      assert forall row :: row in rows <==> row in rows[..n] || row == rows[n];
      DayBounds(rows[n], day);
    }
  }

  lemma DayBounds(row: T.Row, day: int)
    ensures DayOf(row) == day <==> day * 86_400_000_000 <= row.issuedAt < (day + 1) * 86_400_000_000
  {
  }

  /** Succeeded, failed and pending make up the total except for completed rows without an exit code. */
  lemma {:induction false} TotalsAddUp(rows: seq<T.Row>)
    requires forall i :: 0 <= i < |rows| ==> RowInv(rows[i])
    ensures Tally(rows, Success) + Tally(rows, Failure) + Tally(rows, Pending) == |rows| - Tally(rows, NoExitCode)
  {
    if rows != [] {
      TotalsAddUp(rows[..|rows| - 1]);
      assert RowInv(rows[|rows| - 1]);
    }
  }

  datatype Bucket = Bucket(day: int, issued: nat, succeeded: nat, failed: nat)

  function DayOf(row: T.Row): int { row.issuedAt / DAY }

  function OnDay(rows: seq<T.Row>, day: int): seq<T.Row> {
    if rows == [] then []
    else
      var rest := OnDay(rows[..|rows| - 1], day);
      if DayOf(rows[|rows| - 1]) == day then rest + [rows[|rows| - 1]] else rest
  }

  /** `GROUP BY day ORDER BY day`: one bucket for each day that has rows, in ascending order. */
  ghost predicate IsDaily(rows: seq<T.Row>, buckets: seq<Bucket>) {
    && (forall i, j :: 0 <= i < j < |buckets| ==> buckets[i].day < buckets[j].day)
    && (forall r :: r in rows ==> exists i :: 0 <= i < |buckets| && buckets[i].day == DayOf(r))
    && (forall i :: 0 <= i < |buckets| ==>
          && buckets[i].issued == |OnDay(rows, buckets[i].day)|
          && buckets[i].succeeded == Tally(OnDay(rows, buckets[i].day), Success)
          && buckets[i].failed == Tally(OnDay(rows, buckets[i].day), Failure))
  }

  /** The tallies of the rows of each listed day, added up. */
  function SumOverDays(rows: seq<T.Row>, days: seq<int>, o: Outcome): nat {
    if days == [] then 0
    else SumOverDays(rows, days[..|days| - 1], o) + Tally(OnDay(rows, days[|days| - 1]), o)
  }

  predicate Ascending(days: seq<int>) { forall i, j :: 0 <= i < j < |days| ==> days[i] < days[j] }

  lemma {:induction false} OneMoreRow(rows: seq<T.Row>, row: T.Row, days: seq<int>, o: Outcome)
    requires Ascending(days)
    ensures SumOverDays(rows + [row], days, o)
         == SumOverDays(rows, days, o) + (if DayOf(row) in days && Counts(o, row) then 1 else 0)
  {
    if days != [] {
      var d := days[|days| - 1];
      var init := days[..|days| - 1];
      OneMoreRow(rows, row, init, o);
      assert (rows + [row])[..|rows|] == rows;
      if DayOf(row) == d {
        assert (OnDay(rows, d) + [row])[..|OnDay(rows, d)|] == OnDay(rows, d);
        assert DayOf(row) !in init;
      } else {
        assert DayOf(row) in days <==> DayOf(row) in init;
      }
    }
  }

  lemma {:induction false} NoRowsNoSum(days: seq<int>, o: Outcome)
    ensures SumOverDays([], days, o) == 0
  {
    if days != [] { NoRowsNoSum(days[..|days| - 1], o); }
  }

  lemma {:induction false} DaysCoverTally(rows: seq<T.Row>, days: seq<int>, o: Outcome)
    requires Ascending(days) && forall r :: r in rows ==> DayOf(r) in days
    ensures SumOverDays(rows, days, o) == Tally(rows, o)
  {
    if rows == [] {
      NoRowsNoSum(days, o);
    } else {
      var init := rows[..|rows| - 1];
      DaysCoverTally(init, days, o);
      assert rows == init + [rows[|rows| - 1]];
      assert rows[|rows| - 1] in rows;
      OneMoreRow(init, rows[|rows| - 1], days, o);
    }
  }

  function Field(b: Bucket, o: Outcome): nat
    requires o in {Issue, Success, Failure}
  {
    if o == Issue then b.issued else if o == Success then b.succeeded else b.failed
  }

  function BucketSum(buckets: seq<Bucket>, o: Outcome): nat
    requires o in {Issue, Success, Failure}
  {
    if buckets == [] then 0 else BucketSum(buckets[..|buckets| - 1], o) + Field(buckets[|buckets| - 1], o)
  }

  lemma {:induction false} TallyIssueIsLength(rows: seq<T.Row>)
    ensures Tally(rows, Issue) == |rows|
  {
    if rows != [] { TallyIssueIsLength(rows[..|rows| - 1]); }
  }

  lemma {:induction false} BucketsSumDays(rows: seq<T.Row>, buckets: seq<Bucket>, days: seq<int>, o: Outcome)
    requires o in {Issue, Success, Failure} && |days| == |buckets|
    requires forall i :: 0 <= i < |buckets| ==>
               days[i] == buckets[i].day && Field(buckets[i], o) == Tally(OnDay(rows, buckets[i].day), o)
    ensures BucketSum(buckets, o) == SumOverDays(rows, days, o)
  {
    if buckets != [] {
      BucketsSumDays(rows, buckets[..|buckets| - 1], days[..|days| - 1], o);
    }
  }

  /** The per-day numbers sum to the totals of the rows they were grouped from. */
  lemma DailySumsToTotals(rows: seq<T.Row>, buckets: seq<Bucket>, o: Outcome)
    requires IsDaily(rows, buckets) && o in {Issue, Success, Failure}
    ensures BucketSum(buckets, o) == Tally(rows, o)
  {
    var days := seq(|buckets|, i requires 0 <= i < |buckets| => buckets[i].day);
    forall r | r in rows ensures DayOf(r) in days {
      var i :| 0 <= i < |buckets| && buckets[i].day == DayOf(r);
      assert days[i] == DayOf(r);
    }
    forall i | 0 <= i < |buckets| ensures Field(buckets[i], o) == Tally(OnDay(rows, buckets[i].day), o) {
      TallyIssueIsLength(OnDay(rows, buckets[i].day));
    }
    BucketsSumDays(rows, buckets, days, o);
    DaysCoverTally(rows, days, o);
  }

  function OnHosts(rows: seq<T.Row>, hosts: set<T.HostId>): seq<T.Row> {
    if rows == [] then []
    else
      var rest := OnHosts(rows[..|rows| - 1], hosts);
      if rows[|rows| - 1].host in hosts then rest + [rows[|rows| - 1]] else rest
  }

  predicate AllOnHosts(rows: seq<T.Row>, hosts: set<T.HostId>, o: Outcome) {
    forall i :: 0 <= i < |rows| && Counts(o, rows[i]) ==> rows[i].host in hosts
  }

  lemma AllOnHostsStep(rows: seq<T.Row>, hosts: set<T.HostId>, o: Outcome)
    requires rows != []
    ensures AllOnHosts(rows, hosts, o) <==>
              AllOnHosts(rows[..|rows| - 1], hosts, o) && (Counts(o, rows[|rows| - 1]) ==> rows[|rows| - 1].host in hosts)
  {
    var n := |rows| - 1;
    assert forall i :: 0 <= i < n ==> rows[..n][i] == rows[i];
  }

  /** Dropping rows of other hosts loses exactly those of them that count. */
  lemma {:induction false} TallyOnHosts(rows: seq<T.Row>, hosts: set<T.HostId>, o: Outcome)
    ensures Tally(OnHosts(rows, hosts), o) <= Tally(rows, o)
    ensures Tally(OnHosts(rows, hosts), o) == Tally(rows, o) <==> AllOnHosts(rows, hosts, o)
  {
    if rows != [] {
      var n := |rows| - 1;
      TallyOnHosts(rows[..n], hosts, o);
      AllOnHostsStep(rows, hosts, o);
      var rest := OnHosts(rows[..n], hosts);
      assert (rest + [rows[n]])[..|rest|] == rest;
    }
  }

  lemma {:induction false} NoHostsNoRows(rows: seq<T.Row>)
    ensures OnHosts(rows, {}) == []
  {
    if rows != [] { NoHostsNoRows(rows[..|rows| - 1]); }
  }

  /** The page's total for an outcome; without visible hosts no query runs. */
  function ShownTotal(since: seq<T.Row>, hosts: set<T.HostId>, o: Outcome): nat {
    if hosts == {} then 0 else Tally(OnHosts(since, hosts), o)
  }

  /** The page's daily numbers on SQLite, whose query has no host condition. */
  function SqliteDaily(buckets: seq<Bucket>, hosts: set<T.HostId>): seq<Bucket> {
    if hosts == {} then [] else buckets
  }

  /**
   The SQLite variant of the daily query drops the host condition of the totals. Its issued, succeeded and
   failed counts each sum to the shown total if and only if the caller sees no host at all, or every command
   in the range that counts is on a host the caller sees.
   */
  lemma SqliteDailyExactly(since: seq<T.Row>, hosts: set<T.HostId>, buckets: seq<Bucket>, o: Outcome)
    requires IsDaily(since, buckets) && o in {Issue, Success, Failure}
    ensures BucketSum(SqliteDaily(buckets, hosts), o) == ShownTotal(since, hosts, o)
            <==> hosts == {} || forall i :: 0 <= i < |since| && Counts(o, since[i]) ==> since[i].host in hosts
  {
    DailySumsToTotals(since, buckets, o);
    TallyOnHosts(since, hosts, o);
  }

  /** The PostgreSQL variant has the condition, and always agrees. */
  lemma PostgresDailyAgrees(since: seq<T.Row>, hosts: set<T.HostId>, buckets: seq<Bucket>, o: Outcome)
    requires IsDaily(OnHosts(since, hosts), buckets) && o in {Issue, Success, Failure}
    ensures BucketSum(buckets, o) == ShownTotal(since, hosts, o)
  {
    DailySumsToTotals(OnHosts(since, hosts), buckets, o);
    if hosts == {} { NoHostsNoRows(since); }
  }
}

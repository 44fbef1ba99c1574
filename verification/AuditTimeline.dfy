/** The audit timeline: twelve sources united, filtered, ordered and paged. */
module AuditTimeline {
  import opened Common
  import opened Text
  import K = Keyset

  // ---- Tables --------------------------------------------------------------------------------

  type Time = int

  datatype CommandRow = CommandRow(
    pk: string, host: string, issuedBy: string, commandType: string, issuedAt: Time,
    humanApproved: bool, approvedBy: Option<string>, respondedAt: Option<Time>,
    rejectedReason: Option<string>, completedAt: Option<Time>, exitCode: Option<int>)

  datatype Host = Host(pk: string, hostname: string, group: Option<string>, enrolledAt: Time)

  datatype Enrollment = Enrollment(pk: string, group: string, issuedBy: string, createdAt: Time)

  datatype AuditRow = AuditRow(pk: string, ts: Time, actor: string, action: string, resourceId: string)

  datatype Db = Db(commands: seq<CommandRow>, hosts: seq<Host>, enrollments: seq<Enrollment>, audits: seq<AuditRow>)

  /** Primary keys are unique in each table. */
  ghost predicate Valid(db: Db) {
    && (forall i, j :: 0 <= i < j < |db.commands| ==> db.commands[i].pk != db.commands[j].pk)
    && (forall i, j :: 0 <= i < j < |db.hosts| ==> db.hosts[i].pk != db.hosts[j].pk)
    && (forall i, j :: 0 <= i < j < |db.enrollments| ==> db.enrollments[i].pk != db.enrollments[j].pk)
    && (forall i, j :: 0 <= i < j < |db.audits| ==> db.audits[i].pk != db.audits[j].pk)
  }

  // ---- Sources -------------------------------------------------------------------------------

  datatype Action =
    | CommandIssued | CommandApproved | CommandRejected | CommandCompleted | CommandFailed
    | HostEnrolled | TokenIssued
    | GroupCreate | GroupDelete | UserCreate | UserUpdate | UserDelete

  const ALL_SOURCES: seq<Action> := [
    CommandIssued, CommandApproved, CommandRejected, CommandCompleted, CommandFailed, HostEnrolled,
    TokenIssued, GroupCreate, GroupDelete, UserCreate, UserUpdate, UserDelete]

  function Name(a: Action): string {
    match a
    case CommandIssued => "command.issued"
    case CommandApproved => "command.approved"
    case CommandRejected => "command.rejected"
    case CommandCompleted => "command.completed"
    case CommandFailed => "command.failed"
    case HostEnrolled => "host.enrolled"
    case TokenIssued => "enrollment.token_issued"
    case GroupCreate => "settings.group.create"
    case GroupDelete => "settings.group.delete"
    case UserCreate => "settings.user.create"
    case UserUpdate => "settings.user.update"
    case UserDelete => "settings.user.delete"
  }

  /** The short tag used in cursors and event ids. */
  function Src(a: Action): string {
    match a
    case CommandIssued => "cmd_issued"
    case CommandApproved => "cmd_approved"
    case CommandRejected => "cmd_rejected"
    case CommandCompleted => "cmd_done"
    case CommandFailed => "cmd_fail"
    case HostEnrolled => "host_enroll"
    case TokenIssued => "enroll_tok"
    case GroupCreate => "set_g_new"
    case GroupDelete => "set_g_del"
    case UserCreate => "set_u_new"
    case UserUpdate => "set_u_upd"
    case UserDelete => "set_u_del"
  }

  function TargetType(a: Action): string {
    match a
    case CommandIssued | CommandApproved | CommandRejected | CommandCompleted | CommandFailed => "command"
    case HostEnrolled => "host"
    case TokenIssued => "enrollment"
    case GroupCreate | GroupDelete => "group"
    case UserCreate | UserUpdate | UserDelete => "user"
  }

  datatype Key = Key(ts: Time, src: string, pk: string)

  datatype Event = Event(
    key: Key, action: Action, targetId: string, actor: string, group: Option<string>, summary: string)

  /** The inner join with hosts. */
  function HostOf(hosts: seq<Host>, pk: string): Option<Host> {
    if hosts == [] then None
    else if hosts[|hosts| - 1].pk == pk then Some(hosts[|hosts| - 1])
    else HostOf(hosts[..|hosts| - 1], pk)
  }

  /** The actor column of a decision: the recorded approver, else the issuer. */
  function DecisionActor(c: CommandRow): string {
    if c.approvedBy.Some? then c.approvedBy.value else c.issuedBy
  }

  function CommandEvent(a: Action, c: CommandRow, h: Host, ts: Time, actor: string, verb: string): Event {
    Event(Key(ts, Src(a), c.pk), a, c.pk, actor, h.group, verb + c.commandType + " on " + h.hostname)
  }

  /** The event a command row contributes to one of the five command sources. */
  function FromCommand(db: Db, a: Action, c: CommandRow): Option<Event> {
    var joined := HostOf(db.hosts, c.host);
    if joined.None? then None
    else
      var h := joined.value;
      match a
      case CommandIssued => Some(CommandEvent(a, c, h, c.issuedAt, c.issuedBy, ""))
      case CommandApproved =>
        if c.respondedAt.Some? && c.humanApproved
        then Some(CommandEvent(a, c, h, c.respondedAt.value, DecisionActor(c), "approved ")) else None
      case CommandRejected =>
        if c.respondedAt.Some? && c.rejectedReason.Some?
        then Some(CommandEvent(a, c, h, c.respondedAt.value, DecisionActor(c), "rejected ")) else None
      case CommandCompleted =>
        if c.completedAt.Some? && c.exitCode == Some(0)
        then Some(CommandEvent(a, c, h, c.completedAt.value, "system", "succeeded ")) else None
      case CommandFailed =>
        if c.completedAt.Some? && c.exitCode.Some? && c.exitCode != Some(0)
        then Some(CommandEvent(a, c, h, c.completedAt.value, "system", "failed ")) else None
      case _ => None
  }

  function FromHost(a: Action, h: Host): Option<Event> {
    Some(Event(Key(h.enrolledAt, Src(a), h.pk), a, h.pk, "system", h.group, "enrolled " + h.hostname))
  }

  function FromEnrollment(a: Action, e: Enrollment): Option<Event> {
    Some(Event(Key(e.createdAt, Src(a), e.pk), a, e.pk, e.issuedBy, Some(e.group), "token for group " + e.group))
  }

  function FromAudit(a: Action, r: AuditRow): Option<Event> {
    if r.action != Name(a) then None
    else Some(Event(Key(r.ts, Src(a), r.pk), a, r.resourceId, r.actor, None, Name(a) + " " + r.resourceId))
  }

  function Collect<T>(rows: seq<T>, f: T -> Option<Event>): seq<Event> {
    if rows == [] then []
    else
      var e := f(rows[|rows| - 1]);
      Collect(rows[..|rows| - 1], f) + (if e.Some? then [e.value] else [])
  }

  predicate ReadsCommands(a: Action) {
    a.CommandIssued? || a.CommandApproved? || a.CommandRejected? || a.CommandCompleted? || a.CommandFailed?
  }

  function CommandReader(db: Db, a: Action): CommandRow -> Option<Event> { c => FromCommand(db, a, c) }

  function HostReader(a: Action): Host -> Option<Event> { h => FromHost(a, h) }

  function EnrollmentReader(a: Action): Enrollment -> Option<Event> { e => FromEnrollment(a, e) }

  function AuditReader(a: Action): AuditRow -> Option<Event> { r => FromAudit(a, r) }

  function Source(db: Db, a: Action): seq<Event> {
    if ReadsCommands(a) then Collect(db.commands, CommandReader(db, a))
    else if a.HostEnrolled? then Collect(db.hosts, HostReader(a))
    else if a.TokenIssued? then Collect(db.enrollments, EnrollmentReader(a))
    else Collect(db.audits, AuditReader(a))
  }

  /** `UNION ALL` of the selected sources; a repeated action repeats its source. */
  function Union(db: Db, actions: seq<Action>): seq<Event> {
    if actions == [] then [] else Union(db, actions[..|actions| - 1]) + Source(db, actions[|actions| - 1])
  }

  // ---- Filters -------------------------------------------------------------------------------

  datatype User = User(isAdmin: bool, groups: seq<string>)

  datatype Filter = Filter(user: User, actor: Option<string>, since: Option<Time>, until: Option<Time>)

  /** The outer WHERE clause: actor, time window, and the group ACL, where a NULL group matches nobody. */
  predicate Admits(f: Filter, e: Event) {
    && (f.actor.Some? && f.actor.value != "" ==> Lower(e.actor) == Lower(f.actor.value))
    && (f.since.Some? ==> e.key.ts >= f.since.value)
    && (f.until.Some? ==> e.key.ts < f.until.value)
    && (!f.user.isAdmin ==> e.group.Some? && e.group.value in f.user.groups)
  }

  function Filtered(events: seq<Event>, f: Filter): seq<Event> {
    if events == [] then []
    else
      var rest := Filtered(events[..|events| - 1], f);
      if Admits(f, events[|events| - 1]) then rest + [events[|events| - 1]] else rest
  }

  function Query(db: Db, actions: seq<Action>, f: Filter): seq<Event> { Filtered(Union(db, actions), f) }

  // ---- Which sources a request selects -------------------------------------------------------

  datatype Selection = Selected(actions: seq<Action>) | BadRequest | Unprocessable

  /** The action a name stands for under a naming. */
  function ActionNamed(name: string, among: seq<Action>, naming: Action -> string): Option<Action> {
    if among == [] then None
    else if naming(among[0]) == name then Some(among[0])
    else ActionNamed(name, among[1..], naming)
  }

  function Parse(names: seq<string>, among: seq<Action>, naming: Action -> string): Option<seq<Action>> {
    if names == [] then Some([])
    else
      var init := Parse(names[..|names| - 1], among, naming);
      var last := ActionNamed(names[|names| - 1], among, naming);
      if init.Some? && last.Some? then Some(init.value + [last.value]) else None
  }

  function Keep(actions: seq<Action>, p: Action -> bool): (r: seq<Action>)
    ensures Distinct(actions) ==> Distinct(r)
    ensures forall a :: a in r <==> a in actions && p(a)
  {
    if actions == [] then []
    else
      var rest := Keep(actions[..|actions| - 1], p);
      var last := actions[|actions| - 1];
      assert forall a :: a in actions <==> a in actions[..|actions| - 1] || a == last;
      if p(last) then rest + [last] else rest
  }

  /** The sources of the asked prefix and target type, under a naming of the sources and of their targets. */
  function Narrow(
    actions: seq<Action>, prefix: string, targetType: string, naming: Action -> string, target: Action -> string)
    : (r: seq<Action>)
    ensures Distinct(actions) ==> Distinct(r)
    ensures forall a :: a in r <==>
                      && a in actions
                      && (prefix == "" || StartsWith(naming(a), prefix))
                      && (targetType == "" || target(a) == targetType)
  {
    var prefixed := if prefix != "" then Keep(actions, a => StartsWith(naming(a), prefix)) else actions;
    if targetType != "" then Keep(prefixed, a => target(a) == targetType) else prefixed
  }

  /** Empty parameters count as absent. */
  function Resolve(names: seq<string>, prefix: string, targetType: string): Selection {
    if names != [] && prefix != "" then Unprocessable
    else
      var chosen := if names != [] then Parse(names, ALL_SOURCES, Name) else Some(ALL_SOURCES);
      if chosen.None? then BadRequest
      else
        if targetType !in {"", "command", "host", "enrollment", "user", "group"} then BadRequest
        else Selected(Narrow(chosen.value, prefix, targetType, Name, TargetType))
  }

  lemma {:induction false} ParsedName(names: seq<string>, among: seq<Action>, naming: Action -> string, i: nat)
    requires Parse(names, among, naming).Some? && i < |names|
    ensures |Parse(names, among, naming).value| == |names|
    ensures ActionNamed(names[i], among, naming) == Some(Parse(names, among, naming).value[i])
  {
    var n := |names| - 1;
    if n > 0 { ParsedName(names[..n], among, naming, if i < n then i else 0); }
  }

  lemma {:induction false} ParsedLength(names: seq<string>, among: seq<Action>, naming: Action -> string)
    requires Parse(names, among, naming).Some?
    ensures |Parse(names, among, naming).value| == |names|
  {
    if names != [] { ParsedLength(names[..|names| - 1], among, naming); }
  }

  lemma {:induction false} NamedHasName(name: string, among: seq<Action>, naming: Action -> string)
    ensures ActionNamed(name, among, naming).Some? ==> naming(ActionNamed(name, among, naming).value) == name
  {
    if among != [] { NamedHasName(name, among[1..], naming); }
  }

  lemma AllSourcesDistinct()
    ensures Distinct(ALL_SOURCES)
  {
  }

  /** A request without repeated action names selects each source at most once. */
  lemma ResolveDistinct(names: seq<string>, prefix: string, targetType: string)
    requires Distinct(names) && Resolve(names, prefix, targetType).Selected?
    ensures Distinct(Resolve(names, prefix, targetType).actions)
  {
    AllSourcesDistinct();
    if names != [] {
      var parsed := Parse(names, ALL_SOURCES, Name).value;
      forall i, j | 0 <= i < j < |parsed| ensures parsed[i] != parsed[j] {
        ParsedLength(names, ALL_SOURCES, Name);
        ParsedName(names, ALL_SOURCES, Name, i);
        ParsedName(names, ALL_SOURCES, Name, j);
        NamedHasName(names[i], ALL_SOURCES, Name);
        NamedHasName(names[j], ALL_SOURCES, Name);
      }
    }
  }

  // ---- Order ---------------------------------------------------------------------------------

  /** Newest first, then source tag, then primary key. */
  predicate Before(a: Key, b: Key) {
    || a.ts > b.ts
    || (a.ts == b.ts && Less(a.src, b.src))
    || (a.ts == b.ts && a.src == b.src && Less(a.pk, b.pk))
  }

  lemma BeforeIsStrictTotal()
    ensures K.StrictTotalOrder(Before)
  {
    forall a: Key ensures !Before(a, a) {
      LessIrreflexive(a.src);
      LessIrreflexive(a.pk);
    }
    forall a: Key, b: Key, c: Key | Before(a, b) && Before(b, c) ensures Before(a, c) {
      BeforeTransitive(a, b, c);
    }
    forall a: Key, b: Key | a != b ensures Before(a, b) || Before(b, a) {
      if a.src != b.src { LessTotal(a.src, b.src); }
      if a.pk != b.pk { LessTotal(a.pk, b.pk); }
    }
  }

  lemma BeforeTransitive(a: Key, b: Key, c: Key)
    requires Before(a, b) && Before(b, c)
    ensures Before(a, c)
  {
    if Less(a.src, b.src) && Less(b.src, c.src) { LessTransitive(a.src, b.src, c.src); }
    if Less(a.pk, b.pk) && Less(b.pk, c.pk) { LessTransitive(a.pk, b.pk, c.pk); }
  }

  function KeyOf(e: Event): Key { e.key }

  // ---- Keys are unique -----------------------------------------------------------------------

  lemma SrcInjective(a: Action, b: Action)
    requires Src(a) == Src(b)
    ensures a == b
  {
    assert |Src(a)| == |Src(b)| && Src(a)[4] == Src(b)[4] && Src(a)[6] == Src(b)[6];
    assert Src(a)[|Src(a)| - 1] == Src(b)[|Src(b)| - 1];
  }

  ghost predicate HasPk<T>(rows: seq<T>, pk: T -> string, k: string) {
    exists j :: 0 <= j < |rows| && pk(rows[j]) == k
  }

  ghost predicate FromOneSource(events: seq<Event>, src: string) {
    && (forall i :: 0 <= i < |events| ==> events[i].key.src == src)
    && (forall i, j :: 0 <= i < j < |events| ==> events[i].key.pk != events[j].key.pk)
  }

  /** Each collected event comes from one row and carries that row's key. */
  lemma {:induction false} CollectDistinct<T>(rows: seq<T>, f: T -> Option<Event>, pk: T -> string, src: string)
    requires forall i, j :: 0 <= i < j < |rows| ==> pk(rows[i]) != pk(rows[j])
    requires forall i :: 0 <= i < |rows| && f(rows[i]).Some? ==>
               f(rows[i]).value.key.pk == pk(rows[i]) && f(rows[i]).value.key.src == src
    ensures FromOneSource(Collect(rows, f), src)
    ensures forall i :: 0 <= i < |Collect(rows, f)| ==> HasPk(rows, pk, Collect(rows, f)[i].key.pk)
  {
    if rows != [] {
      var init := rows[..|rows| - 1];
      var last := rows[|rows| - 1];
      CollectDistinct(init, f, pk, src);
      var out := Collect(init, f);
      forall i | 0 <= i < |out| ensures HasPk(rows, pk, out[i].key.pk) && out[i].key.pk != pk(last) {
        assert HasPk(init, pk, out[i].key.pk);
        var j :| 0 <= j < |init| && pk(init[j]) == out[i].key.pk;
        assert pk(rows[j]) == out[i].key.pk;
      }
      assert HasPk(rows, pk, pk(last)) by { assert pk(rows[|rows| - 1]) == pk(last); }
    }
  }

  lemma SourceDistinct(db: Db, a: Action)
    requires Valid(db)
    ensures FromOneSource(Source(db, a), Src(a))
  {
    if ReadsCommands(a) {
      CollectDistinct(db.commands, CommandReader(db, a), (c: CommandRow) => c.pk, Src(a));
    } else if a.HostEnrolled? {
      CollectDistinct(db.hosts, HostReader(a), (h: Host) => h.pk, Src(a));
    } else if a.TokenIssued? {
      CollectDistinct(db.enrollments, EnrollmentReader(a), (e: Enrollment) => e.pk, Src(a));
    } else {
      CollectDistinct(db.audits, AuditReader(a), (r: AuditRow) => r.pk, Src(a));
    }
  }

  lemma {:induction false} UnionSources(db: Db, actions: seq<Action>, i: nat) returns (a: Action)
    requires Valid(db) && i < |Union(db, actions)|
    ensures a in actions && Union(db, actions)[i].key.src == Src(a)
  {
    var init, last := actions[..|actions| - 1], actions[|actions| - 1];
    SourceDistinct(db, last);
    if i < |Union(db, init)| {
      a := UnionSources(db, init, i);
    } else {
      a := last;
    }
  }

  lemma JoinSource(u: seq<Event>, s: seq<Event>, src: string)
    requires K.DistinctKeys(u, KeyOf) && FromOneSource(s, src)
    requires forall i :: 0 <= i < |u| ==> u[i].key.src != src
    ensures K.DistinctKeys(u + s, KeyOf)
  {
  }

  lemma {:induction false} UnionDistinct(db: Db, actions: seq<Action>)
    requires Valid(db) && Distinct(actions)
    ensures K.DistinctKeys(Union(db, actions), KeyOf)
  {
    if actions != [] {
      var init, last := actions[..|actions| - 1], actions[|actions| - 1];
      UnionDistinct(db, init);
      SourceDistinct(db, last);
      var u := Union(db, init);
      forall i | 0 <= i < |u| ensures u[i].key.src != Src(last) {
        var a := UnionSources(db, init, i);
        if Src(a) == Src(last) { SrcInjective(a, last); }
      }
      JoinSource(u, Source(db, last), Src(last));
    }
  }

  lemma {:induction false} FilteredMembers(events: seq<Event>, f: Filter)
    ensures forall e :: e in Filtered(events, f) <==> e in events && Admits(f, e)
    ensures K.DistinctKeys(events, KeyOf) ==> K.DistinctKeys(Filtered(events, f), KeyOf)
  {
    if events != [] {
      var init, last := events[..|events| - 1], events[|events| - 1];
      FilteredMembers(init, f);
      assert forall e :: e in events <==> e in init || e == last;
      if K.DistinctKeys(events, KeyOf) {
        var rest := Filtered(init, f);
        forall i | 0 <= i < |rest| ensures rest[i].key != last.key {
          assert rest[i] in init;
          var j :| 0 <= j < |init| && init[j] == rest[i];
          assert KeyOf(events[j]) != KeyOf(events[|events| - 1]);
        }
      }
    }
  }

  lemma QueryDistinct(db: Db, actions: seq<Action>, f: Filter)
    requires Valid(db) && Distinct(actions)
    ensures K.DistinctKeys(Query(db, actions, f), KeyOf)
  {
    UnionDistinct(db, actions);
    FilteredMembers(Union(db, actions), f);
  }

  // ---- The endpoint --------------------------------------------------------------------------

  datatype Request = Request(
    names: seq<string>, prefix: string, targetType: string, filter: Filter,
    limit: nat, cursor: Option<Key>, offset: Option<nat>)

  datatype Response =
    | Events(events: seq<Event>, next: Option<Key>, total: nat, hasMore: bool)
    | Failed400
    | Failed422

  function ListAudit(db: Db, r: Request): Response
    requires r.limit >= 1
  {
    if r.cursor.Some? && r.offset.Some? then Failed422
    else if r.filter.since.Some? && r.filter.until.Some? && r.filter.since.value >= r.filter.until.value then Failed422
    else
      match Resolve(r.names, r.prefix, r.targetType)
      case Unprocessable => Failed422
      case BadRequest => Failed400
      case Selected(actions) =>
        var rows := Query(db, actions, r.filter);
        if actions == [] then Events([], None, 0, false)
        else if r.offset.Some? then
          var page := K.OffsetPage(rows, r.offset.value, r.limit, KeyOf, Before);
          Events(page.rows, None, |rows|, page.hasMore)
        else
          var page := K.Page(rows, r.cursor, r.limit, KeyOf, Before);
          Events(page.rows, page.next, |rows|, page.next.Some?)
  }

  /** A request in cursor mode that names at least one source and has a sound time window. */
  predicate Pages(r: Request, actions: seq<Action>) {
    && r.limit >= 1 && r.offset.None?
    && Resolve(r.names, r.prefix, r.targetType) == Selected(actions) && actions != []
    && !(r.filter.since.Some? && r.filter.until.Some? && r.filter.since.value >= r.filter.until.value)
  }

  /** The events a client collects by sending each `next_cursor` back, with `dbs[i]` at the i-th request. */
  function Timeline(dbs: seq<Db>, r: Request): K.Walk<Event>
    requires r.limit >= 1
  {
    if dbs == [] then K.Walk([], false)
    else
      match ListAudit(dbs[0], r)
      case Events(events, next, _, _) =>
        if next.None? then K.Walk(events, true)
        else
          var rest := Timeline(dbs[1..], r.(cursor := next));
          K.Walk(events + rest.rows, rest.finished)
      case _ => K.Walk([], false)
  }

  function Queries(dbs: seq<Db>, actions: seq<Action>, f: Filter): (tables: seq<seq<Event>>)
    ensures |tables| == |dbs|
    ensures forall i :: 0 <= i < |dbs| ==> tables[i] == Query(dbs[i], actions, f)
  {
    if dbs == [] then [] else [Query(dbs[0], actions, f)] + Queries(dbs[1..], actions, f)
  }

  lemma CursorAnswer(db: Db, r: Request, actions: seq<Action>)
    requires Pages(r, actions)
    ensures
      var rows := Query(db, actions, r.filter);
      var page := K.Page(rows, r.cursor, r.limit, KeyOf, Before);
      ListAudit(db, r) == Events(page.rows, page.next, |rows|, page.next.Some?)
  {
  }

  lemma TimelineStep(dbs: seq<Db>, r: Request, page: Response)
    requires r.limit >= 1 && dbs != [] && page.Events? && ListAudit(dbs[0], r) == page
    ensures
      Timeline(dbs, r) ==
      if page.next.None? then K.Walk(page.events, true)
      else
        var rest := Timeline(dbs[1..], r.(cursor := page.next));
        K.Walk(page.events + rest.rows, rest.finished)
  {
  }

  lemma {:induction false} TimelineFollows(dbs: seq<Db>, r: Request, actions: seq<Action>)
    requires Pages(r, actions)
    ensures Timeline(dbs, r) == K.Follow(Queries(dbs, actions, r.filter), r.cursor, r.limit, KeyOf, Before)
  {
    if dbs != [] {
      var page := K.Page(Query(dbs[0], actions, r.filter), r.cursor, r.limit, KeyOf, Before);
      CursorAnswer(dbs[0], r, actions);
      TimelineStep(dbs, r, ListAudit(dbs[0], r));
      assert Queries(dbs, actions, r.filter)[1..] == Queries(dbs[1..], actions, r.filter);
      if page.next.Some? {
        TimelineFollows(dbs[1..], r.(cursor := page.next), actions);
      }
    }
  }

  lemma {:induction false} QueriesOfRepeat(db: Db, n: nat, actions: seq<Action>, f: Filter)
    ensures Queries(K.Repeat(db, n), actions, f) == K.Repeat(Query(db, actions, f), n)
  {
    if n > 0 {
      assert K.Repeat(db, n)[1..] == K.Repeat(db, n - 1);
      QueriesOfRepeat(db, n - 1, actions, f);
    }
  }

  /**
   Following `next_cursor` from the first page until it is null ends, for every limit, and returns
   exactly the filtered union, newest first, each row once.
   */
  lemma FollowingCursorsReturnsTimeline(db: Db, r: Request, actions: seq<Action>, n: nat)
    requires Valid(db) && Pages(r, actions) && Distinct(actions) && r.cursor.None?
    requires n > |Query(db, actions, r.filter)|
    ensures
      var walk := Timeline(K.Repeat(db, n), r);
      && walk.finished
      && walk.rows == K.OrderBy(Query(db, actions, r.filter), KeyOf, Before)
      && K.Ascending(walk.rows, KeyOf, Before)
      && multiset(walk.rows) == multiset(Query(db, actions, r.filter))
    ensures
      var walk := Timeline(K.Repeat(db, n), r);
      forall i, j :: 0 <= i < j < |walk.rows| ==>
        var a, b := walk.rows[i].key, walk.rows[j].key;
        a.ts > b.ts || (a.ts == b.ts && (Less(a.src, b.src) || (a.src == b.src && Less(a.pk, b.pk))))
  {
    BeforeIsStrictTotal();
    QueryDistinct(db, actions, r.filter);
    TimelineFollows(K.Repeat(db, n), r, actions);
    QueriesOfRepeat(db, n, actions, r.filter);
    var rows := Query(db, actions, r.filter);
    K.FollowEnds(rows, n, None, r.limit, KeyOf, Before);
    K.FollowIsOrderBy(rows, n, r.limit, KeyOf, Before);
    K.OrderByAscending(rows, KeyOf, Before);
    K.OrderByKeepsRows(rows, KeyOf, Before);
  }

  lemma QueriesDistinct(dbs: seq<Db>, actions: seq<Action>, f: Filter)
    requires Distinct(actions) && forall i :: 0 <= i < |dbs| ==> Valid(dbs[i])
    ensures forall i :: 0 <= i < |dbs| ==> K.DistinctKeys(Queries(dbs, actions, f)[i], KeyOf)
  {
    forall i | 0 <= i < |dbs| ensures K.DistinctKeys(Queries(dbs, actions, f)[i], KeyOf) {
      QueryDistinct(dbs[i], actions, f);
    }
  }

  lemma AscendingDistinct(rows: seq<Event>)
    requires K.Ascending(rows, KeyOf, Before)
    ensures K.DistinctKeys(rows, KeyOf)
  {
    BeforeIsStrictTotal();
    forall i, j | 0 <= i < j < |rows| ensures KeyOf(rows[i]) != KeyOf(rows[j]) {
      assert Before(KeyOf(rows[i]), KeyOf(rows[j]));
    }
  }

  lemma FollowUnderChange(tables: seq<seq<Event>>, limit: nat, e: Event)
    requires limit >= 1 && forall i :: 0 <= i < |tables| ==> K.DistinctKeys(tables[i], KeyOf)
    ensures
      var walk := K.Follow(tables, None, limit, KeyOf, Before);
      && K.DistinctKeys(walk.rows, KeyOf)
      && (walk.finished && (forall i :: 0 <= i < |tables| ==> e in tables[i]) ==> e in walk.rows)
  {
    BeforeIsStrictTotal();
    K.FollowAscends(tables, None, limit, KeyOf, Before);
    AscendingDistinct(K.Follow(tables, None, limit, KeyOf, Before).rows);
    if K.Follow(tables, None, limit, KeyOf, Before).finished && forall i :: 0 <= i < |tables| ==> e in tables[i] {
      assert K.AlwaysThere(tables, e);
      K.FollowMissesNothing(tables, None, limit, KeyOf, Before, e);
    }
  }

  /**
   When rows come and go between requests, nothing is returned twice, and every event that matched at
   each request is returned.
   */
  lemma FollowingCursorsUnderChange(dbs: seq<Db>, r: Request, actions: seq<Action>, e: Event)
    requires Pages(r, actions) && Distinct(actions) && r.cursor.None?
    requires forall i :: 0 <= i < |dbs| ==> Valid(dbs[i])
    ensures K.DistinctKeys(Timeline(dbs, r).rows, KeyOf)
    ensures Timeline(dbs, r).finished && (forall i :: 0 <= i < |dbs| ==> e in Query(dbs[i], actions, r.filter)) ==>
              e in Timeline(dbs, r).rows
  {
    TimelineFollows(dbs, r, actions);
    QueriesDistinct(dbs, actions, r.filter);
    FollowUnderChange(Queries(dbs, actions, r.filter), r.limit, e);
  }

  // ---- Repeated actions ----------------------------------------------------------------------

  /** If this walk over an unchanging database ends, it returned each matching row of the named sources once. */
  ghost predicate ReturnsOnce(actions: seq<Action>, db: Db, r: Request, n: nat) {
    Valid(db) && Pages(r, actions) && r.cursor.None? && Timeline(K.Repeat(db, n), r).finished ==>
      multiset(Timeline(K.Repeat(db, n), r).rows) == multiset(Query(db, Dedup(actions), r.filter))
  }

  ghost predicate EachRowOnce(actions: seq<Action>) {
    forall db: Db, r: Request, n: nat :: ReturnsOnce(actions, db, r, n)
  }

  function NamesOf(actions: seq<Action>, naming: Action -> string): (names: seq<string>)
    ensures |names| == |actions|
  {
    if actions == [] then [] else NamesOf(actions[..|actions| - 1], naming) + [naming(actions[|actions| - 1])]
  }

  /** A database in which every source, in particular `a`, has exactly the rows needed to show it. */
  function Witness(a: Action): Db {
    Db([CommandRow("c", "h", "u", "t", 0, true, None, Some(1), Some("r"), Some(2), Some(if a.CommandFailed? then 1 else 0))],
       [Host("h", "n", None, 0)],
       [Enrollment("e", "g", "u", 0)],
       [AuditRow("a", 0, "u", Name(a), "x")])
  }

  lemma WitnessHasEvent(a: Action) returns (e: Event)
    ensures Valid(Witness(a)) && e in Source(Witness(a), a)
  {
    var db := Witness(a);
    if ReadsCommands(a) {
      assert db.hosts[..0] == [] && db.commands[..0] == [];
      assert HostOf(db.hosts, "h") == Some(db.hosts[0]);
      e := FromCommand(db, a, db.commands[0]).value;
      assert Collect(db.commands, CommandReader(db, a)) == [e];
    } else if a.HostEnrolled? {
      e := FromHost(a, db.hosts[0]).value;
      assert Collect(db.hosts, HostReader(a)) == [e];
    } else if a.TokenIssued? {
      e := FromEnrollment(a, db.enrollments[0]).value;
      assert Collect(db.enrollments, EnrollmentReader(a)) == [e];
    } else {
      e := FromAudit(a, db.audits[0]).value;
      assert Collect(db.audits, AuditReader(a)) == [e];
    }
  }

  lemma CountAppended<T>(u: seq<T>, s: seq<T>, e: T)
    ensures multiset(u + s)[e] >= multiset(u)[e] + (if e in s then 1 else 0)
  {
    assert multiset(u + s) == multiset(u) + multiset(s);
    assert e in s ==> e in multiset(s);
  }

  lemma UnionKeeps(db: Db, actions: seq<Action>, e: Event)
    requires actions != []
    ensures multiset(Union(db, actions))[e] >= multiset(Union(db, actions[..|actions| - 1]))[e]
  {
    CountAppended(Union(db, actions[..|actions| - 1]), Source(db, actions[|actions| - 1]), e);
  }

  lemma UnionGains(db: Db, actions: seq<Action>, a: Action, e: Event)
    requires actions != [] && actions[|actions| - 1] == a && e in Source(db, a)
    ensures multiset(Union(db, actions))[e] >= multiset(Union(db, actions[..|actions| - 1]))[e] + 1
  {
    CountAppended(Union(db, actions[..|actions| - 1]), Source(db, a), e);
  }

  /** Each further action adds to the count, or keeps it; `a` adds to it. */
  ghost predicate Counting(count: seq<Action> -> nat, a: Action) {
    forall s: seq<Action> | s != [] ::
      count(s) >= count(s[..|s| - 1]) + (if s[|s| - 1] == a then 1 else 0)
  }

  lemma {:induction false} CountsOnce(count: seq<Action> -> nat, a: Action, s: seq<Action>, i: nat)
    requires Counting(count, a) && i < |s| && s[i] == a
    ensures count(s) >= 1
  {
    if i < |s| - 1 { CountsOnce(count, a, s[..|s| - 1], i); }
  }

  lemma {:induction false} CountsTwice(count: seq<Action> -> nat, a: Action, s: seq<Action>, i: nat, j: nat)
    requires Counting(count, a) && i < j < |s| && s[i] == a && s[j] == a
    ensures count(s) >= 2
  {
    if j < |s| - 1 {
      CountsTwice(count, a, s[..|s| - 1], i, j);
    } else {
      CountsOnce(count, a, s[..|s| - 1], i);
    }
  }

  function CopiesIn(db: Db, e: Event): seq<Action> -> nat { s => multiset(Union(db, s))[e] }

  lemma UnionCounts(db: Db, a: Action, e: Event)
    requires e in Source(db, a)
    ensures Counting(CopiesIn(db, e), a)
  {
    forall s: seq<Action> | s != []
      ensures CopiesIn(db, e)(s) >= CopiesIn(db, e)(s[..|s| - 1]) + (if s[|s| - 1] == a then 1 else 0) {
      if s[|s| - 1] == a { UnionGains(db, s, a, e); } else { UnionKeeps(db, s, e); }
    }
  }

  lemma UnionHas(db: Db, actions: seq<Action>, i: nat, a: Action, e: Event)
    requires i < |actions| && actions[i] == a && e in Source(db, a)
    ensures multiset(Union(db, actions))[e] >= 1
  {
    UnionCounts(db, a, e);
    CountsOnce(CopiesIn(db, e), a, actions, i);
  }

  /** A source that is selected twice has its rows in the union twice. */
  lemma UnionRepeats(db: Db, actions: seq<Action>, i: nat, j: nat, a: Action, e: Event)
    requires i < j < |actions| && actions[i] == a && actions[j] == a && e in Source(db, a)
    ensures multiset(Union(db, actions))[e] >= 2
  {
    UnionCounts(db, a, e);
    CountsTwice(CopiesIn(db, e), a, actions, i, j);
  }

  lemma {:induction false} NoFilter(events: seq<Event>)
    ensures Filtered(events, ADMIN_ALL) == events
  {
    if events != [] {
      NoFilter(events[..|events| - 1]);
      assert events == events[..|events| - 1] + [events[|events| - 1]];
    }
  }

  lemma {:induction false} DedupOfDistinct(actions: seq<Action>)
    requires Distinct(actions)
    ensures Dedup(actions) == actions
  {
    if actions != [] {
      DedupOfDistinct(actions[..|actions| - 1]);
      assert actions == actions[..|actions| - 1] + [actions[|actions| - 1]];
    }
  }

  lemma {:induction false} NamesParse(actions: seq<Action>, among: seq<Action>, naming: Action -> string)
    requires forall a :: a in actions ==> ActionNamed(naming(a), among, naming) == Some(a)
    ensures Parse(NamesOf(actions, naming), among, naming) == Some(actions)
  {
    if actions != [] {
      var init, last := actions[..|actions| - 1], actions[|actions| - 1];
      NamesParse(init, among, naming);
      assert NamesOf(actions, naming)[..|actions| - 1] == NamesOf(init, naming);
      assert actions == init + [last];
    }
  }

  lemma NameInjective(a: Action, b: Action)
    requires Name(a) == Name(b)
    ensures a == b
  {
    assert |Name(a)| == |Name(b)| && Name(a)[9] == Name(b)[9] && Name(a)[|Name(a)| - 3] == Name(b)[|Name(b)| - 3];
  }

  lemma NameFound(a: Action, from: nat)
    requires from <= |ALL_SOURCES| && a in ALL_SOURCES[from..]
    ensures ActionNamed(Name(a), ALL_SOURCES[from..], Name) == Some(a)
    decreases |ALL_SOURCES| - from
  {
    if ALL_SOURCES[from] == a {
    } else {
      if Name(ALL_SOURCES[from]) == Name(a) { NameInjective(ALL_SOURCES[from], a); }
      assert ALL_SOURCES[from..][1..] == ALL_SOURCES[from + 1..];
      NameFound(a, from + 1);
    }
  }

  lemma ListedSource(a: Action)
    ensures a in ALL_SOURCES
  {
    var all := ALL_SOURCES;
    assert all[0].CommandIssued? && all[1].CommandApproved? && all[2].CommandRejected? && all[3].CommandCompleted?;
    assert all[4].CommandFailed? && all[5].HostEnrolled? && all[6].TokenIssued? && all[7].GroupCreate?;
    assert all[8].GroupDelete? && all[9].UserCreate? && all[10].UserUpdate? && all[11].UserDelete?;
  }

  lemma AllNamesParse(actions: seq<Action>)
    ensures Parse(NamesOf(actions, Name), ALL_SOURCES, Name) == Some(actions)
  {
    forall a | a in actions ensures ActionNamed(Name(a), ALL_SOURCES, Name) == Some(a) {
      assert ALL_SOURCES[0..] == ALL_SOURCES;
      ListedSource(a);
      NameFound(a, 0);
    }
    NamesParse(actions, ALL_SOURCES, Name);
  }

  const ADMIN_ALL: Filter := Filter(User(true, []), None, None, None)

  /** One page that holds everything, with the rows of the repeated source in it twice. */
  lemma RepeatIsReturnedTwice(actions: seq<Action>, i: nat, j: nat)
    requires i < j < |actions| && actions[i] == actions[j]
    ensures !EachRowOnce(actions)
  {
    var e := WitnessHasEvent(actions[i]);
    RepeatShows(actions, i, j, Witness(actions[i]), e);
  }

  lemma AdminPages(actions: seq<Action>, limit: nat)
    requires actions != [] && limit >= 1
    ensures Pages(Request(NamesOf(actions, Name), "", "", ADMIN_ALL, limit, None, None), actions)
  {
    AllNamesParse(actions);
  }

  lemma RepeatShows(actions: seq<Action>, i: nat, j: nat, db: Db, e: Event)
    requires Valid(db) && i < j < |actions| && actions[i] == actions[j] && e in Source(db, actions[i])
    ensures !EachRowOnce(actions)
  {
    var rows := Query(db, actions, ADMIN_ALL);
    var r := Request(NamesOf(actions, Name), "", "", ADMIN_ALL, |rows| + 1, None, None);
    AdminPages(actions, |rows| + 1);
    WalkOfOnePage(db, r, actions);
    RepeatedRowCounts(db, actions, i, j, e);
    assert !ReturnsOnce(actions, db, r, 1);
  }

  lemma WalkOfOnePage(db: Db, r: Request, actions: seq<Action>)
    requires Pages(r, actions) && r.cursor.None? && r.limit > |Query(db, actions, r.filter)|
    ensures Timeline(K.Repeat(db, 1), r).finished
    ensures multiset(Timeline(K.Repeat(db, 1), r).rows) == multiset(Query(db, actions, r.filter))
  {
    TimelineFollows(K.Repeat(db, 1), r, actions);
    QueriesOfRepeat(db, 1, actions, r.filter);
    OnePageHoldsAll(Query(db, actions, r.filter), r.limit);
  }

  lemma RepeatedRowCounts(db: Db, actions: seq<Action>, i: nat, j: nat, e: Event)
    requires Valid(db) && i < j < |actions| && actions[i] == actions[j] && e in Source(db, actions[i])
    ensures multiset(Query(db, actions, ADMIN_ALL))[e] >= 2
    ensures multiset(Query(db, Dedup(actions), ADMIN_ALL))[e] <= 1
  {
    NoFilter(Union(db, actions));
    NoFilter(Union(db, Dedup(actions)));
    UnionRepeats(db, actions, i, j, actions[i], e);
    UnionDistinct(db, Dedup(actions));
    CountDistinct(Union(db, Dedup(actions)), e);
  }

  lemma OnePageHoldsAll(rows: seq<Event>, limit: nat)
    requires limit > |rows|
    ensures K.Follow(K.Repeat(rows, 1), None, limit, KeyOf, Before).finished
    ensures multiset(K.Follow(K.Repeat(rows, 1), None, limit, KeyOf, Before).rows) == multiset(rows)
  {
    NoCursor(rows);
    K.OrderByKeepsRows(rows, KeyOf, Before);
    K.PageCuts(rows, None, limit, KeyOf, Before);
  }

  lemma {:induction false} NoCursor(rows: seq<Event>)
    ensures K.Past(rows, None, KeyOf, Before) == rows
  {
    if rows != [] {
      NoCursor(rows[..|rows| - 1]);
      assert rows == rows[..|rows| - 1] + [rows[|rows| - 1]];
    }
  }

  lemma {:induction false} CountDistinct(rows: seq<Event>, e: Event)
    requires K.DistinctKeys(rows, KeyOf)
    ensures multiset(rows)[e] <= 1
  {
    if rows != [] {
      var init, last := rows[..|rows| - 1], rows[|rows| - 1];
      CountDistinct(init, e);
      assert rows == init + [last];
      forall i | 0 <= i < |init| ensures init[i] != last {
        assert KeyOf(rows[i]) != KeyOf(rows[|rows| - 1]);
      }
      assert multiset(init)[last] == 0;
    }
  }

  /** The traversal returns each row once, on every database and for every limit, exactly when no action is repeated. */
  lemma EachRowOnceExactly(actions: seq<Action>)
    ensures EachRowOnce(actions) <==> Distinct(actions)
  {
    if Distinct(actions) {
      DedupOfDistinct(actions);
      forall db: Db, r: Request, n: nat ensures ReturnsOnce(actions, db, r, n) {
        if Valid(db) && Pages(r, actions) && r.cursor.None? && Timeline(K.Repeat(db, n), r).finished {
          FinishedWalkIsTimeline(db, r, actions, n);
        }
      }
    } else {
      var i, j :| 0 <= i < j < |actions| && actions[i] == actions[j];
      RepeatIsReturnedTwice(actions, i, j);
    }
  }

  lemma FinishedWalkIsTimeline(db: Db, r: Request, actions: seq<Action>, n: nat)
    requires Valid(db) && Pages(r, actions) && Distinct(actions) && r.cursor.None?
    requires Timeline(K.Repeat(db, n), r).finished
    ensures multiset(Timeline(K.Repeat(db, n), r).rows) == multiset(Query(db, actions, r.filter))
  {
    BeforeIsStrictTotal();
    QueryDistinct(db, actions, r.filter);
    TimelineFollows(K.Repeat(db, n), r, actions);
    QueriesOfRepeat(db, n, actions, r.filter);
    K.FollowIsOrderBy(Query(db, actions, r.filter), n, r.limit, KeyOf, Before);
    K.OrderByKeepsRows(Query(db, actions, r.filter), KeyOf, Before);
  }

  // ---- Access --------------------------------------------------------------------------------

  /** A page holds rows of its query. */
  lemma PageWithin(rows: seq<Event>, cursor: Option<Key>, limit: nat, i: nat)
    requires limit >= 1 && i < |K.Page(rows, cursor, limit, KeyOf, Before).rows|
    ensures K.Page(rows, cursor, limit, KeyOf, Before).rows[i] in rows
  {
    K.PageCuts(rows, cursor, limit, KeyOf, Before);
    K.OrderByKeepsRows(K.Past(rows, cursor, KeyOf, Before), KeyOf, Before);
    K.PastMembers(rows, cursor, KeyOf, Before);
  }

  lemma OffsetPageWithin(rows: seq<Event>, offset: nat, limit: nat, i: nat)
    requires i < |K.OffsetPage(rows, offset, limit, KeyOf, Before).rows|
    ensures K.OffsetPage(rows, offset, limit, KeyOf, Before).rows[i] in rows
  {
    K.OffsetPageCuts(rows, offset, limit, KeyOf, Before);
    K.OrderByKeepsRows(rows, KeyOf, Before);
  }

  /** Nothing outside a member's groups is ever listed to them, on any page and in either paging mode. */
  lemma OnlyOwnGroups(db: Db, r: Request, i: nat)
    requires r.limit >= 1 && ListAudit(db, r).Events? && i < |ListAudit(db, r).events| && !r.filter.user.isAdmin
    ensures ListAudit(db, r).events[i].group.Some? && ListAudit(db, r).events[i].group.value in r.filter.user.groups
  {
    var actions := Resolve(r.names, r.prefix, r.targetType).actions;
    var rows := Query(db, actions, r.filter);
    if r.offset.Some? {
      OffsetPageWithin(rows, r.offset.value, r.limit, i);
    } else {
      PageWithin(rows, r.cursor, r.limit, i);
    }
    FilteredMembers(Union(db, actions), r.filter);
    assert Admits(r.filter, ListAudit(db, r).events[i]);
  }

  lemma {:induction false} CollectHas<T>(rows: seq<T>, f: T -> Option<Event>, i: nat)
    requires i < |rows| && f(rows[i]).Some?
    ensures f(rows[i]).value in Collect(rows, f)
  {
    if i < |rows| - 1 {
      CollectHas(rows[..|rows| - 1], f, i);
    }
  }

  lemma {:induction false} CollectFrom<T>(rows: seq<T>, f: T -> Option<Event>, k: nat) returns (j: nat)
    requires k < |Collect(rows, f)|
    ensures j < |rows| && f(rows[j]) == Some(Collect(rows, f)[k])
  {
    var n := |rows| - 1;
    if k < |Collect(rows[..n], f)| {
      j := CollectFrom(rows[..n], f, k);
    } else {
      j := n;
    }
  }

  lemma CommandReaderAction(db: Db, a: Action, c: CommandRow)
    ensures CommandReader(db, a)(c).Some? ==> CommandReader(db, a)(c).value.action == a
  {
  }

  lemma SourceAction(db: Db, a: Action, k: nat)
    requires k < |Source(db, a)|
    ensures Source(db, a)[k].action == a
  {
    if ReadsCommands(a) {
      var j := CollectFrom(db.commands, CommandReader(db, a), k);
      CommandReaderAction(db, a, db.commands[j]);
    } else if a.HostEnrolled? {
      var j := CollectFrom(db.hosts, HostReader(a), k);
    } else if a.TokenIssued? {
      var j := CollectFrom(db.enrollments, EnrollmentReader(a), k);
    } else {
      var j := CollectFrom(db.audits, AuditReader(a), k);
    }
  }

  lemma {:induction false} UnionFrom(db: Db, actions: seq<Action>, k: nat) returns (a: Action, m: nat)
    requires k < |Union(db, actions)|
    ensures a in actions && m < |Source(db, a)| && Source(db, a)[m] == Union(db, actions)[k]
  {
    var init, last := actions[..|actions| - 1], actions[|actions| - 1];
    if k < |Union(db, init)| {
      a, m := UnionFrom(db, init, k);
    } else {
      a, m := last, k - |Union(db, init)|;
    }
  }

  function TokenEvent(e: Enrollment): Event { FromEnrollment(TokenIssued, e).value }

  /** The enrollment is of one of the member's groups, and the other filters admit its event. */
  predicate TokenListed(e: Enrollment, f: Filter) {
    e.group in f.user.groups && Admits(f.(user := User(true, [])), TokenEvent(e))
  }

  lemma TokenAdmitted(e: Enrollment, f: Filter)
    requires !f.user.isAdmin
    ensures Admits(f, TokenEvent(e)) <==> TokenListed(e, f)
  {
  }

  lemma TokenInUnion(db: Db, actions: seq<Action>, i: nat)
    requires i < |db.enrollments| && TokenIssued in actions
    ensures TokenEvent(db.enrollments[i]) in Union(db, actions)
  {
    CollectHas(db.enrollments, EnrollmentReader(TokenIssued), i);
    var k :| 0 <= k < |actions| && actions[k] == TokenIssued;
    UnionHas(db, actions, k, TokenIssued, TokenEvent(db.enrollments[i]));
    assert TokenEvent(db.enrollments[i]) in multiset(Union(db, actions));
  }

  lemma TokenFromUnion(db: Db, actions: seq<Action>, k: nat) returns (i: nat)
    requires k < |Union(db, actions)| && Union(db, actions)[k].action == TokenIssued
    ensures TokenIssued in actions && i < |db.enrollments| && TokenEvent(db.enrollments[i]) == Union(db, actions)[k]
  {
    var a, m := UnionFrom(db, actions, k);
    SourceAction(db, a, m);
    i := CollectFrom(db.enrollments, EnrollmentReader(a), m);
  }

  lemma TokenInQuery(db: Db, actions: seq<Action>, f: Filter)
    requires !f.user.isAdmin
    ensures (exists e :: e in Query(db, actions, f) && e.action == TokenIssued) <==>
              TokenIssued in actions && exists i :: 0 <= i < |db.enrollments| && TokenListed(db.enrollments[i], f)
  {
    FilteredMembers(Union(db, actions), f);
    if e :| e in Query(db, actions, f) && e.action == TokenIssued {
      var k :| 0 <= k < |Union(db, actions)| && Union(db, actions)[k] == e;
      var i := TokenFromUnion(db, actions, k);
      TokenAdmitted(db.enrollments[i], f);
    }
    if TokenIssued in actions {
      if i :| 0 <= i < |db.enrollments| && TokenListed(db.enrollments[i], f) {
        TokenInUnion(db, actions, i);
        TokenAdmitted(db.enrollments[i], f);
        assert TokenEvent(db.enrollments[i]) in Query(db, actions, f);
      }
    }
  }

  /**
   The module's text says token events are listed to admins only. Exactly when a member is listed one on a
   traversal to the end: the request selects that source, and some token of one of the member's groups passes
   the actor and time filters.
   */
  lemma MembersSeeTokenEventsExactly(db: Db, r: Request, actions: seq<Action>, n: nat)
    requires Valid(db) && Pages(r, actions) && Distinct(actions) && r.cursor.None? && !r.filter.user.isAdmin
    requires n > |Query(db, actions, r.filter)|
    ensures Timeline(K.Repeat(db, n), r).finished
    ensures (exists e :: e in Timeline(K.Repeat(db, n), r).rows && e.action == TokenIssued) <==>
              TokenIssued in actions && exists i :: 0 <= i < |db.enrollments| && TokenListed(db.enrollments[i], r.filter)
  {
    FollowingCursorsReturnsTimeline(db, r, actions, n);
    K.SameRows(Timeline(K.Repeat(db, n), r).rows, Query(db, actions, r.filter));
    TokenInQuery(db, actions, r.filter);
  }

  // ---- What is listed ------------------------------------------------------------------------

  /** The command `c` on the host `h` has the columns that put `e` in the timeline. */
  ghost predicate CommandBehind(e: Event, c: CommandRow, h: Host) {
    c.host == h.pk &&
    match e.action
    case CommandIssued =>
      e == Event(Key(c.issuedAt, "cmd_issued", c.pk), CommandIssued, c.pk, c.issuedBy, h.group,
                 c.commandType + " on " + h.hostname)
    case CommandApproved =>
      && c.humanApproved && c.respondedAt.Some?
      && e == Event(Key(c.respondedAt.value, "cmd_approved", c.pk), CommandApproved, c.pk,
                    if c.approvedBy.Some? then c.approvedBy.value else c.issuedBy, h.group,
                    "approved " + c.commandType + " on " + h.hostname)
    case CommandRejected =>
      && c.rejectedReason.Some? && c.respondedAt.Some?
      && e == Event(Key(c.respondedAt.value, "cmd_rejected", c.pk), CommandRejected, c.pk,
                    if c.approvedBy.Some? then c.approvedBy.value else c.issuedBy, h.group,
                    "rejected " + c.commandType + " on " + h.hostname)
    case CommandCompleted =>
      && c.completedAt.Some? && c.exitCode.Some? && c.exitCode.value == 0
      && e == Event(Key(c.completedAt.value, "cmd_done", c.pk), CommandCompleted, c.pk, "system", h.group,
                    "succeeded " + c.commandType + " on " + h.hostname)
    case CommandFailed =>
      && c.completedAt.Some? && c.exitCode.Some? && c.exitCode.value != 0
      && e == Event(Key(c.completedAt.value, "cmd_fail", c.pk), CommandFailed, c.pk, "system", h.group,
                    "failed " + c.commandType + " on " + h.hostname)
    case _ => false
  }

  ghost predicate HostBehind(e: Event, h: Host) {
    e == Event(Key(h.enrolledAt, "host_enroll", h.pk), HostEnrolled, h.pk, "system", h.group, "enrolled " + h.hostname)
  }

  ghost predicate EnrollmentBehind(e: Event, t: Enrollment) {
    e == Event(Key(t.createdAt, "enroll_tok", t.pk), TokenIssued, t.pk, t.issuedBy, Some(t.group),
               "token for group " + t.group)
  }

  ghost predicate AuditBehind(e: Event, r: AuditRow) {
    || (r.action == "settings.group.create" &&
        e == Event(Key(r.ts, "set_g_new", r.pk), GroupCreate, r.resourceId, r.actor, None,
                   "settings.group.create " + r.resourceId))
    || (r.action == "settings.group.delete" &&
        e == Event(Key(r.ts, "set_g_del", r.pk), GroupDelete, r.resourceId, r.actor, None,
                   "settings.group.delete " + r.resourceId))
    || (r.action == "settings.user.create" &&
        e == Event(Key(r.ts, "set_u_new", r.pk), UserCreate, r.resourceId, r.actor, None,
                   "settings.user.create " + r.resourceId))
    || (r.action == "settings.user.update" &&
        e == Event(Key(r.ts, "set_u_upd", r.pk), UserUpdate, r.resourceId, r.actor, None,
                   "settings.user.update " + r.resourceId))
    || (r.action == "settings.user.delete" &&
        e == Event(Key(r.ts, "set_u_del", r.pk), UserDelete, r.resourceId, r.actor, None,
                   "settings.user.delete " + r.resourceId))
  }

  /** Some row of the table `e` is drawn from, joined to an existing host for a command, has its columns. */
  ghost predicate RowBehind(db: Db, e: Event) {
    || (exists i, j :: 0 <= i < |db.commands| && 0 <= j < |db.hosts| && CommandBehind(e, db.commands[i], db.hosts[j]))
    || (exists i :: 0 <= i < |db.hosts| && HostBehind(e, db.hosts[i]))
    || (exists i :: 0 <= i < |db.enrollments| && EnrollmentBehind(e, db.enrollments[i]))
    || (exists i :: 0 <= i < |db.audits| && AuditBehind(e, db.audits[i]))
  }

  /** The join finds the one host with that key. */
  lemma {:induction false} HostOfExactly(hosts: seq<Host>, pk: string)
    ensures HostOf(hosts, pk).Some? ==> HostOf(hosts, pk).value in hosts && HostOf(hosts, pk).value.pk == pk
    ensures HostOf(hosts, pk).None? ==> forall j :: 0 <= j < |hosts| ==> hosts[j].pk != pk
  {
    if hosts != [] && hosts[|hosts| - 1].pk != pk { HostOfExactly(hosts[..|hosts| - 1], pk); }
  }

  lemma JoinIs(db: Db, pk: string, j: nat)
    requires Valid(db) && j < |db.hosts| && db.hosts[j].pk == pk
    ensures HostOf(db.hosts, pk) == Some(db.hosts[j])
  {
    HostOfExactly(db.hosts, pk);
    var k :| 0 <= k < |db.hosts| && db.hosts[k] == HostOf(db.hosts, pk).value;
  }

  lemma NoVerb(s: string)
    ensures "" + s == s
  {
  }

  lemma CommandReads(db: Db, a: Action, c: CommandRow, e: Event, j: nat)
    requires Valid(db) && j < |db.hosts| && db.hosts[j].pk == c.host
    ensures CommandReader(db, a)(c) == Some(e) <==> e.action == a && CommandBehind(e, c, db.hosts[j])
  {
    JoinIs(db, c.host, j);
    NoVerb(c.commandType);
  }

  lemma CommandUnjoined(db: Db, a: Action, c: CommandRow)
    requires forall j :: 0 <= j < |db.hosts| ==> db.hosts[j].pk != c.host
    ensures CommandReader(db, a)(c).None?
  {
    HostOfExactly(db.hosts, c.host);
  }

  lemma HostReads(h: Host, e: Event)
    ensures HostReader(HostEnrolled)(h) == Some(e) <==> HostBehind(e, h)
  {
  }

  lemma EnrollmentReads(t: Enrollment, e: Event)
    ensures EnrollmentReader(TokenIssued)(t) == Some(e) <==> EnrollmentBehind(e, t)
  {
  }

  lemma AuditSummary(a: Action, id: string)
    ensures a.GroupCreate? ==> Name(a) + " " + id == "settings.group.create " + id
    ensures a.GroupDelete? ==> Name(a) + " " + id == "settings.group.delete " + id
    ensures a.UserCreate? ==> Name(a) + " " + id == "settings.user.create " + id
    ensures a.UserUpdate? ==> Name(a) + " " + id == "settings.user.update " + id
    ensures a.UserDelete? ==> Name(a) + " " + id == "settings.user.delete " + id
  {
    assert a.GroupCreate? ==> Name(a) + " " == "settings.group.create ";
    assert a.GroupDelete? ==> Name(a) + " " == "settings.group.delete ";
    assert a.UserCreate? ==> Name(a) + " " == "settings.user.create ";
    assert a.UserUpdate? ==> Name(a) + " " == "settings.user.update ";
    assert a.UserDelete? ==> Name(a) + " " == "settings.user.delete ";
  }

  lemma AuditReads(a: Action, r: AuditRow, e: Event)
    requires !ReadsCommands(a) && !a.HostEnrolled? && !a.TokenIssued?
    ensures AuditReader(a)(r) == Some(e) <==> e.action == a && AuditBehind(e, r)
  {
    AuditSummary(a, r.resourceId);
  }

  lemma CollectExactly<T>(rows: seq<T>, f: T -> Option<Event>, e: Event)
    ensures e in Collect(rows, f) <==> exists i :: 0 <= i < |rows| && f(rows[i]) == Some(e)
  {
    if k :| 0 <= k < |Collect(rows, f)| && Collect(rows, f)[k] == e {
      var i := CollectFrom(rows, f, k);
    }
    if i :| 0 <= i < |rows| && f(rows[i]) == Some(e) { CollectHas(rows, f, i); }
  }

  lemma CommandsExactly(db: Db, a: Action, e: Event)
    requires Valid(db) && ReadsCommands(a)
    ensures e in Source(db, a) <==>
              e.action == a &&
              exists i, j :: 0 <= i < |db.commands| && 0 <= j < |db.hosts| && CommandBehind(e, db.commands[i], db.hosts[j])
  {
    CollectExactly(db.commands, CommandReader(db, a), e);
    if i :| 0 <= i < |db.commands| && CommandReader(db, a)(db.commands[i]) == Some(e) {
      if j :| 0 <= j < |db.hosts| && db.hosts[j].pk == db.commands[i].host {
        CommandReads(db, a, db.commands[i], e, j);
      } else {
        CommandUnjoined(db, a, db.commands[i]);
      }
    }
    if i, j :| 0 <= i < |db.commands| && 0 <= j < |db.hosts| && e.action == a && CommandBehind(e, db.commands[i], db.hosts[j]) {
      CommandReads(db, a, db.commands[i], e, j);
    }
  }

  lemma AuditsExactly(db: Db, a: Action, e: Event)
    requires !ReadsCommands(a) && !a.HostEnrolled? && !a.TokenIssued?
    ensures e in Source(db, a) <==>
              e.action == a && exists i :: 0 <= i < |db.audits| && AuditBehind(e, db.audits[i])
  {
    CollectExactly(db.audits, AuditReader(a), e);
    forall i | 0 <= i < |db.audits|
      ensures AuditReader(a)(db.audits[i]) == Some(e) <==> e.action == a && AuditBehind(e, db.audits[i]) {
      AuditReads(a, db.audits[i], e);
    }
  }

  lemma HostsExactly(db: Db, e: Event)
    ensures e in Source(db, HostEnrolled) <==> exists i :: 0 <= i < |db.hosts| && HostBehind(e, db.hosts[i])
  {
    CollectExactly(db.hosts, HostReader(HostEnrolled), e);
    forall i | 0 <= i < |db.hosts| ensures HostReader(HostEnrolled)(db.hosts[i]) == Some(e) <==> HostBehind(e, db.hosts[i]) {
      HostReads(db.hosts[i], e);
    }
  }

  lemma EnrollmentsExactly(db: Db, e: Event)
    ensures e in Source(db, TokenIssued) <==>
              exists i :: 0 <= i < |db.enrollments| && EnrollmentBehind(e, db.enrollments[i])
  {
    CollectExactly(db.enrollments, EnrollmentReader(TokenIssued), e);
    forall i | 0 <= i < |db.enrollments|
      ensures EnrollmentReader(TokenIssued)(db.enrollments[i]) == Some(e) <==> EnrollmentBehind(e, db.enrollments[i]) {
      EnrollmentReads(db.enrollments[i], e);
    }
  }

  lemma SourceExactly(db: Db, a: Action, e: Event)
    requires Valid(db)
    ensures e in Source(db, a) <==> e.action == a && RowBehind(db, e)
  {
    if ReadsCommands(a) {
      CommandsExactly(db, a, e);
    } else if a.HostEnrolled? {
      HostsExactly(db, e);
    } else if a.TokenIssued? {
      EnrollmentsExactly(db, e);
    } else {
      AuditsExactly(db, a, e);
    }
  }

  lemma UnionExactly(db: Db, actions: seq<Action>, e: Event)
    requires Valid(db)
    ensures e in Union(db, actions) <==> e.action in actions && RowBehind(db, e)
  {
    if k :| 0 <= k < |Union(db, actions)| && Union(db, actions)[k] == e {
      var a, m := UnionFrom(db, actions, k);
      SourceExactly(db, a, e);
    }
    if e.action in actions && RowBehind(db, e) {
      var k :| 0 <= k < |actions| && actions[k] == e.action;
      SourceExactly(db, e.action, e);
      UnionHas(db, actions, k, e.action, e);
      assert e in multiset(Union(db, actions));
    }
  }

  /**
   What matches a request: an event is among its rows exactly when its action is selected, a row of its table
   has the columns that action stands for, and the actor, the time window and the caller's groups admit it.
   */
  lemma {:induction false} MatchesExactly(db: Db, actions: seq<Action>, f: Filter, e: Event)
    requires Valid(db)
    ensures e in Query(db, actions, f) <==>
              && e.action in actions
              && RowBehind(db, e)
              && (f.actor.None? || f.actor.value == "" || Lower(f.actor.value) == Lower(e.actor))
              && (f.since.None? || f.since.value <= e.key.ts)
              && (f.until.None? || e.key.ts < f.until.value)
              && (f.user.isAdmin || (e.group.Some? && e.group.value in f.user.groups))
  {
    FilteredMembers(Union(db, actions), f);
    UnionExactly(db, actions, e);
  }

  /** A traversal to the end lists exactly those events. */
  lemma {:induction false} ListedExactly(db: Db, r: Request, actions: seq<Action>, n: nat, e: Event)
    requires Valid(db) && Pages(r, actions) && Distinct(actions) && r.cursor.None?
    requires n > |Query(db, actions, r.filter)|
    ensures Timeline(K.Repeat(db, n), r).finished
    ensures e in Timeline(K.Repeat(db, n), r).rows <==>
              && e.action in actions
              && RowBehind(db, e)
              && (r.filter.actor.None? || r.filter.actor.value == "" || Lower(r.filter.actor.value) == Lower(e.actor))
              && (r.filter.since.None? || r.filter.since.value <= e.key.ts)
              && (r.filter.until.None? || e.key.ts < r.filter.until.value)
              && (r.filter.user.isAdmin || (e.group.Some? && e.group.value in r.filter.user.groups))
  {
    FollowingCursorsReturnsTimeline(db, r, actions, n);
    K.SameRows(Timeline(K.Repeat(db, n), r).rows, Query(db, actions, r.filter));
    MatchesExactly(db, actions, r.filter, e);
  }

  // ---- What a request selects ----------------------------------------------------------------

  predicate Asked(names: seq<string>, prefix: string, targetType: string, name: string, target: string) {
    && (names == [] || name in names)
    && (prefix == "" || StartsWith(name, prefix))
    && (targetType == "" || targetType == target)
  }

  const ACTION_NAMES: set<string> := {
    "command.issued", "command.approved", "command.rejected", "command.completed", "command.failed", "host.enrolled",
    "enrollment.token_issued", "settings.group.create", "settings.group.delete", "settings.user.create",
    "settings.user.update", "settings.user.delete"}

  lemma {:induction false} NotNamed(name: string, from: nat)
    requires from <= |ALL_SOURCES| && forall a :: Name(a) != name
    ensures ActionNamed(name, ALL_SOURCES[from..], Name) == None
    decreases |ALL_SOURCES| - from
  {
    if from < |ALL_SOURCES| {
      assert ALL_SOURCES[from..][1..] == ALL_SOURCES[from + 1..];
      NotNamed(name, from + 1);
    }
  }

  lemma NamedExactly(name: string, a: Action)
    ensures ActionNamed(name, ALL_SOURCES, Name) == Some(a) <==> Name(a) == name
  {
    assert ALL_SOURCES[0..] == ALL_SOURCES;
    NamedHasName(name, ALL_SOURCES, Name);
    ListedSource(a);
    NameFound(a, 0);
  }

  lemma NamesAre(name: string)
    ensures name in ACTION_NAMES <==> exists a :: Name(a) == name
  {
    assert Name(CommandIssued) == "command.issued" && Name(CommandApproved) == "command.approved";
    assert Name(CommandRejected) == "command.rejected" && Name(CommandCompleted) == "command.completed";
    assert Name(CommandFailed) == "command.failed" && Name(HostEnrolled) == "host.enrolled";
    assert Name(TokenIssued) == "enrollment.token_issued" && Name(GroupCreate) == "settings.group.create";
    assert Name(GroupDelete) == "settings.group.delete" && Name(UserCreate) == "settings.user.create";
    assert Name(UserUpdate) == "settings.user.update" && Name(UserDelete) == "settings.user.delete";
  }

  lemma KnownExactly(name: string)
    ensures ActionNamed(name, ALL_SOURCES, Name).Some? <==> name in ACTION_NAMES
  {
    NamesAre(name);
    NamedHasName(name, ALL_SOURCES, Name);
    if a :| Name(a) == name { NamedExactly(name, a); }
  }

  lemma {:induction false} ParseFails(names: seq<string>, among: seq<Action>, naming: Action -> string)
    ensures Parse(names, among, naming).None? <==>
              exists i :: 0 <= i < |names| && ActionNamed(names[i], among, naming).None?
  {
    if names != [] {
      var init := names[..|names| - 1];
      ParseFails(init, among, naming);
      if i :| 0 <= i < |names| && ActionNamed(names[i], among, naming).None? {
        if i < |init| { assert init[i] == names[i]; }
      }
      if i :| 0 <= i < |init| && ActionNamed(init[i], among, naming).None? {
        assert names[i] == init[i];
      }
    }
  }

  lemma ParsedExactly(names: seq<string>, a: Action)
    requires Parse(names, ALL_SOURCES, Name).Some?
    ensures a in Parse(names, ALL_SOURCES, Name).value <==> Name(a) in names
  {
    var parsed := Parse(names, ALL_SOURCES, Name).value;
    ParsedLength(names, ALL_SOURCES, Name);
    if i :| 0 <= i < |parsed| && parsed[i] == a {
      ParsedName(names, ALL_SOURCES, Name, i);
      NamedExactly(names[i], a);
    }
    if i :| 0 <= i < |names| && names[i] == Name(a) {
      ParsedName(names, ALL_SOURCES, Name, i);
      NamedExactly(names[i], a);
    }
  }

  lemma ParsesExactly(names: seq<string>)
    ensures Parse(names, ALL_SOURCES, Name).Some? <==> forall i :: 0 <= i < |names| ==> names[i] in ACTION_NAMES
  {
    ParseFails(names, ALL_SOURCES, Name);
    forall i | 0 <= i < |names| ensures ActionNamed(names[i], ALL_SOURCES, Name).Some? <==> names[i] in ACTION_NAMES {
      KnownExactly(names[i]);
    }
  }

  lemma SelectedIn(
    names: seq<string>, prefix: string, targetType: string, a: Action, naming: Action -> string, target: Action -> string)
    requires naming == Name && target == TargetType && Resolve(names, prefix, targetType).Selected?
    ensures a in Resolve(names, prefix, targetType).actions <==>
              Asked(names, prefix, targetType, naming(a), target(a))
  {
    ListedSource(a);
    if names != [] { ParsedExactly(names, a); }
  }

  /** The sources a request selects, by the public names of the actions and of the target types. */
  lemma {:induction false} SelectsExactly(
    names: seq<string>, prefix: string, targetType: string, actions: seq<Action>, a: Action)
    requires Resolve(names, prefix, targetType) == Selected(actions)
    ensures a in actions <==>
              match a
              case CommandIssued => Asked(names, prefix, targetType, "command.issued", "command")
              case CommandApproved => Asked(names, prefix, targetType, "command.approved", "command")
              case CommandRejected => Asked(names, prefix, targetType, "command.rejected", "command")
              case CommandCompleted => Asked(names, prefix, targetType, "command.completed", "command")
              case CommandFailed => Asked(names, prefix, targetType, "command.failed", "command")
              case HostEnrolled => Asked(names, prefix, targetType, "host.enrolled", "host")
              case TokenIssued => Asked(names, prefix, targetType, "enrollment.token_issued", "enrollment")
              case GroupCreate => Asked(names, prefix, targetType, "settings.group.create", "group")
              case GroupDelete => Asked(names, prefix, targetType, "settings.group.delete", "group")
              case UserCreate => Asked(names, prefix, targetType, "settings.user.create", "user")
              case UserUpdate => Asked(names, prefix, targetType, "settings.user.update", "user")
              case UserDelete => Asked(names, prefix, targetType, "settings.user.delete", "user")
  {
    SelectedIn(names, prefix, targetType, a, Name, TargetType);
  }

  /** When the endpoint refuses, and with which status. */
  lemma {:induction false} RefusedExactly(db: Db, r: Request)
    requires r.limit >= 1
    ensures ListAudit(db, r).Failed422? <==>
              || (r.cursor.Some? && r.offset.Some?)
              || (r.filter.since.Some? && r.filter.until.Some? && r.filter.since.value >= r.filter.until.value)
              || (r.names != [] && r.prefix != "")
    ensures ListAudit(db, r).Failed400? <==>
              && !ListAudit(db, r).Failed422?
              && (|| (exists i :: 0 <= i < |r.names| && r.names[i] !in ACTION_NAMES)
                  || r.targetType !in {"", "command", "host", "enrollment", "user", "group"})
  {
    ParsesExactly(r.names);
  }

  // ---- Offset mode ---------------------------------------------------------------------------

  /** In offset mode `has_more` means exactly that rows follow the returned window. */
  lemma {:induction false} OffsetHasMore(db: Db, r: Request)
    requires r.limit >= 1 && r.offset.Some? && ListAudit(db, r).Events?
    ensures var page := ListAudit(db, r); page.hasMore <==> r.offset.value + |page.events| < page.total
  {
  }

  /** What an offset request returns: that window of the matching events, newest first, and how many match. */
  lemma OffsetWindow(db: Db, r: Request, actions: seq<Action>)
    requires r.limit >= 1 && r.offset.Some? && ListAudit(db, r).Events?
    requires Resolve(r.names, r.prefix, r.targetType) == Selected(actions)
    ensures
      var page := ListAudit(db, r);
      var ordered := K.OrderBy(Query(db, actions, r.filter), KeyOf, Before);
      && page.events == K.Window(ordered, r.offset.value, r.limit)
      && page.total == |ordered| == |Query(db, actions, r.filter)|
      && page.next.None?
  {
    NothingToUnite(db, actions, r.filter);
    K.OffsetPageCuts(Query(db, actions, r.filter), r.offset.value, r.limit, KeyOf, Before);
    K.OrderByKeepsRows(Query(db, actions, r.filter), KeyOf, Before);
    SameLength(Query(db, actions, r.filter), K.OrderBy(Query(db, actions, r.filter), KeyOf, Before));
  }

  lemma SameLength(a: seq<Event>, b: seq<Event>)
    requires multiset(a) == multiset(b)
    ensures |a| == |b|
  {
    assert |multiset(a)| == |a| && |multiset(b)| == |b|;
  }

  // ---- Cursor mode ---------------------------------------------------------------------------

  predicate NoneExcluded(rows: seq<Event>, cursor: Option<Key>) {
    forall i :: 0 <= i < |rows| ==> K.IsPast(cursor, KeyOf(rows[i]), Before)
  }

  /**
   The documented `has_more`, that rows remain beyond offset and length, read with the offset 0 that cursor
   mode reports. It is what the endpoint answers exactly when there is a next page, or the cursor excludes no
   row; so it is wrong on the last page of every listing that has a second page.
   */
  lemma CursorHasMoreExactly(db: Db, r: Request, actions: seq<Action>)
    requires r.limit >= 1 && r.offset.None? && ListAudit(db, r).Events?
    requires Resolve(r.names, r.prefix, r.targetType) == Selected(actions)
    ensures
      var page := ListAudit(db, r);
      (page.hasMore <==> |page.events| < page.total)
      <==> page.hasMore || NoneExcluded(Query(db, actions, r.filter), r.cursor)
  {
    var rows := Query(db, actions, r.filter);
    NothingToUnite(db, actions, r.filter);
    K.PageCuts(rows, r.cursor, r.limit, KeyOf, Before);
    K.PastAll(rows, r.cursor, KeyOf, Before);
  }

  lemma NothingToUnite(db: Db, actions: seq<Action>, f: Filter)
    ensures actions == [] ==> Query(db, actions, f) == []
  {
  }
}

/**
 The settings endpoints: groups, users and permission grants, each mutation written together with its
 audit row. The journal is checked by replaying it.
 */
module Settings {
  import opened Common

  type UserId = nat
  type GrantId = nat

  datatype Role = Admin | Operator | Viewer

  datatype User = User(email: string, role: Role, groups: seq<string>, active: bool)

  datatype Grant = Grant(user: UserId, action: string, scope: string)

  datatype Change<T> = Change(before: T, after: T)

  /** The audit rows, with the payload each endpoint writes. */
  datatype Audit =
    | GroupCreated(name: string, description: Option<string>)
    | GroupDeleted(name: string)
    | UserCreated(id: UserId, email: string, role: Role, groups: seq<string>)
    | UserUpdated(id: UserId, email: string, roleChange: Option<Change<Role>>,
                  groupsChange: Option<Change<seq<string>>>, activeChange: Option<Change<bool>>)
    | UserDeleted(id: UserId, email: string)
    | Granted(user: UserId, email: string, action: string, scope: string, grantId: GrantId)
    | Revoked(user: UserId, email: string, action: string, scope: string, grantId: GrantId)

  /** The live settings. */
  datatype View = View(groups: map<string, Option<string>>, users: map<UserId, User>, grants: map<GrantId, Grant>)

  datatype State = State(view: View, occupied: set<string>, journal: seq<Audit>) // groups that have hosts

  const ALLOWED_ACTIONS: set<string> :=
    {"command.issue", "command.approve", "host.delete", "enroll.create", "enroll.revoke"}

  datatype Response = Ok | Created | NoContent | BadRequest | NotFound | Conflict | Unprocessable

  datatype Op =
    | CreateGroup(name: string, description: Option<string>)
    | DeleteGroup(name: string)
    | CreateUser(id: UserId, email: string, role: Role, groups: seq<string>)
    | UpdateUser(id: UserId, newRole: Option<Role>, newGroups: Option<seq<string>>, newActive: Option<bool>)
    | DeleteUser(id: UserId)
    | GrantPermission(grantId: GrantId, user: UserId, action: string, scope: string)
    | RevokePermission(user: UserId, grantId: GrantId)
    | MoveHosts(occupied: set<string>)                       // hosts enrolled, regrouped or deleted elsewhere

  // ---- Validation ----------------------------------------------------------------------------

  predicate Alphanumeric(c: char) { 'a' <= c <= 'z' || 'A' <= c <= 'Z' || '0' <= c <= '9' }

  predicate GroupName(s: string) {
    && 1 <= |s| <= 63 && Alphanumeric(s[0])
    && forall i :: 0 <= i < |s| ==> Alphanumeric(s[i]) || s[i] in {'_', '-', '.'}
  }

  /** In ASCII codes: digits, letters, and after the first place also the hyphen, the full stop and the underscore. */
  lemma {:induction false} GroupNameExactly(s: string)
    ensures GroupName(s) <==>
              && 0 < |s| < 64
              && s[0] as int !in {45, 46, 95}
              && forall i :: 0 <= i < |s| ==>
                   var c := s[i] as int; c in {45, 46, 95} || 48 <= c <= 57 || 65 <= c <= 90 || 97 <= c <= 122
  {
  }

  predicate GroupNames(names: seq<string>) { forall n :: n in names ==> GroupName(n) }

  predicate Known(view: View, names: seq<string>) { forall n :: n in names ==> n in view.groups }

  predicate HasGrant(view: View, user: UserId, action: string, scope: string) {
    exists g :: g in view.grants && view.grants[g] == Grant(user, action, scope)
  }

  // ---- Handlers ------------------------------------------------------------------------------

  function Fail(s: State, r: Response): (State, Response) { (s, r) }

  function Commit(s: State, view: View, audit: Audit, r: Response): (State, Response) {
    (s.(view := view, journal := s.journal + [audit]), r)
  }

  function Changed<T(==)>(before: T, after: Option<T>): Option<Change<T>> {
    if after.Some? && after.value != before then Some(Change(before, after.value)) else None
  }

  function ApplyUpdate(s: State, caller: UserId, id: UserId, newRole: Option<Role>,
                       newGroups: Option<seq<string>>, newActive: Option<bool>): (State, Response)
  {
    if newGroups.Some? && !GroupNames(newGroups.value) then Fail(s, Unprocessable)
    else if id !in s.view.users then Fail(s, NotFound)
    else
      var user := s.view.users[id];
      var groups := if newGroups.Some? then Some(Dedup(newGroups.value)) else None;
      if newRole.Some? && id == caller && newRole.value != Admin then Fail(s, BadRequest)
      else if groups.Some? && !Known(s.view, groups.value) then Fail(s, BadRequest)
      else if newActive == Some(false) && id == caller then Fail(s, BadRequest)
      else
        var role, grps, active := Changed(user.role, newRole), Changed(user.groups, groups), Changed(user.active, newActive);
        if role.None? && grps.None? && active.None? then Fail(s, Ok)
        else
          var updated := user.(role := Or(newRole, user.role), groups := Or(groups, user.groups),
                               active := Or(newActive, user.active));
          Commit(s, s.view.(users := s.view.users[id := updated]), UserUpdated(id, user.email, role, grps, active), Ok)
  }

  function Apply(s: State, caller: UserId, op: Op): (State, Response) {
    match op
    case CreateGroup(name, description) =>
      if !GroupName(name) then Fail(s, Unprocessable)
      else if name in s.view.groups then Fail(s, Conflict)
      else Commit(s, s.view.(groups := s.view.groups[name := description]), GroupCreated(name, description), Created)
    case DeleteGroup(name) =>
      if !GroupName(name) then Fail(s, BadRequest)
      else if name !in s.view.groups then Fail(s, NotFound)
      else if name in s.occupied then Fail(s, Conflict)
      else Commit(s, s.view.(groups := s.view.groups - {name}), GroupDeleted(name), NoContent)
    case CreateUser(id, email, role, groups) =>
      if !GroupNames(groups) then Fail(s, Unprocessable)
      else if exists u :: u in s.view.users && s.view.users[u].email == email then Fail(s, Conflict)
      else if !Known(s.view, groups) then Fail(s, BadRequest)
      else
        var user := User(email, role, Dedup(groups), true);
        Commit(s, s.view.(users := s.view.users[id := user]), UserCreated(id, email, role, user.groups), Created)
    case UpdateUser(id, newRole, newGroups, newActive) => ApplyUpdate(s, caller, id, newRole, newGroups, newActive)
    case DeleteUser(id) =>
      if id == caller then Fail(s, BadRequest)
      else if id !in s.view.users then Fail(s, NotFound)
      else Commit(s, WithoutUser(s.view, id), UserDeleted(id, s.view.users[id].email), NoContent)
    case GrantPermission(grantId, user, action, scope) =>
      if action !in ALLOWED_ACTIONS || !(scope == "*" || GroupName(scope)) then Fail(s, Unprocessable)
      else if user !in s.view.users then Fail(s, NotFound)
      else if HasGrant(s.view, user, action, scope) then Fail(s, Conflict)
      else Commit(s, s.view.(grants := s.view.grants[grantId := Grant(user, action, scope)]),
                  Granted(user, s.view.users[user].email, action, scope, grantId), Created)
    case RevokePermission(user, grantId) =>
      if user !in s.view.users then Fail(s, NotFound)
      else if grantId !in s.view.grants || s.view.grants[grantId].user != user then Fail(s, NotFound)
      else Commit(s, s.view.(grants := s.view.grants - {grantId}),
                  Revoked(user, s.view.users[user].email, s.view.grants[grantId].action,
                          s.view.grants[grantId].scope, grantId),
                  NoContent)
    case MoveHosts(occupied) => // the foreign key on a host's group
      if occupied <= s.view.groups.Keys then (s.(occupied := occupied), Ok) else Fail(s, Conflict)
  }

  /** Deleting a user cascades to the user's grants. */
  function WithoutUser(view: View, id: UserId): View {
    view.(users := view.users - {id}, grants := map g | g in view.grants && view.grants[g].user != id :: view.grants[g])
  }

  // ---- Replaying the journal -----------------------------------------------------------------

  function After<T>(change: Option<Change<T>>, live: T): T { if change.Some? then change.value.after else live }

  function Replay(view: View, a: Audit): View {
    match a
    case GroupCreated(name, description) => view.(groups := view.groups[name := description])
    case GroupDeleted(name) => view.(groups := view.groups - {name})
    case UserCreated(id, email, role, groups) => view.(users := view.users[id := User(email, role, groups, true)])
    case UserUpdated(id, _, role, groups, active) =>
      if id !in view.users then view
      else
        var u := view.users[id];
        view.(users := view.users[id := User(u.email, After(role, u.role), After(groups, u.groups),
                                             After(active, u.active))])
    case UserDeleted(id, _) => WithoutUser(view, id)
    case Granted(user, _, action, scope, grantId) =>
      view.(grants := view.grants[grantId := Grant(user, action, scope)])
    case Revoked(_, _, _, _, grantId) => view.(grants := view.grants - {grantId})
  }

  function ReplayAll(view: View, journal: seq<Audit>): View {
    if journal == [] then view else Replay(ReplayAll(view, journal[..|journal| - 1]), journal[|journal| - 1])
  }

  /** What an audit row says about the past is what the replayed settings hold at that point. */
  predicate BeforeMatches(view: View, a: Audit) {
    match a
    case GroupCreated(name, _) => name !in view.groups
    case GroupDeleted(name) => name in view.groups
    case UserCreated(_, email, _, _) => forall u :: u in view.users ==> view.users[u].email != email
    case UserUpdated(id, email, role, groups, active) =>
      && id in view.users && view.users[id].email == email
      && (role.Some? ==> role.value.before == view.users[id].role)
      && (groups.Some? ==> groups.value.before == view.users[id].groups)
      && (active.Some? ==> active.value.before == view.users[id].active)
    case UserDeleted(id, email) => id in view.users && view.users[id].email == email
    case Granted(user, email, action, scope, _) =>
      user in view.users && view.users[user].email == email && !HasGrant(view, user, action, scope)
    case Revoked(user, email, action, scope, grantId) =>
      && user in view.users && view.users[user].email == email
      && grantId in view.grants && view.grants[grantId] == Grant(user, action, scope)
  }

  // ---- Runs ----------------------------------------------------------------------------------

  datatype Call = Call(caller: UserId, op: Op)

  function Run(s: State, calls: seq<Call>): State {
    if calls == [] then s
    else
      var before, c := Run(s, calls[..|calls| - 1]), calls[|calls| - 1];
      Apply(before, c.caller, c.op).0
  }

  /** Exactly one audit row per change of the settings, and replaying that row gives the new settings. */
  lemma ApplyJournals(s: State, caller: UserId, op: Op)
    ensures
      var (next, r) := Apply(s, caller, op);
      && (r in {BadRequest, NotFound, Conflict, Unprocessable} ==> next == s)
      && (r in {Created, NoContent} ==> next != s)
      && ((next.view == s.view && next.journal == s.journal)
          || (|next.journal| == |s.journal| + 1 && next.journal[..|s.journal|] == s.journal
          && Replay(s.view, next.journal[|s.journal|]) == next.view
          && BeforeMatches(s.view, next.journal[|s.journal|])))
  {
  }

  lemma {:induction false} ReplayAppended(view: View, journal: seq<Audit>, a: Audit)
    ensures ReplayAll(view, journal + [a]) == Replay(ReplayAll(view, journal), a)
  {
    assert (journal + [a])[..|journal|] == journal;
  }

  /** Replaying what was written so far gives the live settings, and each row told the truth about its past. */
  ghost predicate Faithful(base: View, s: State) {
    && ReplayAll(base, s.journal) == s.view
    && forall k :: 0 <= k < |s.journal| ==> BeforeMatches(ReplayAll(base, s.journal[..k]), s.journal[k])
  }

  lemma FaithfulAppend(base: View, s: State, next: State, a: Audit)
    requires Faithful(base, s) && next.journal == s.journal + [a]
    requires Replay(s.view, a) == next.view && BeforeMatches(s.view, a)
    ensures Faithful(base, next)
  {
    ReplayAppended(base, s.journal, a);
    forall k | 0 <= k < |next.journal|
      ensures BeforeMatches(ReplayAll(base, next.journal[..k]), next.journal[k])
    {
      if k < |s.journal| {
        assert next.journal[..k] == s.journal[..k];
      } else {
        assert next.journal[..k] == s.journal;
      }
    }
  }

  lemma FaithfulStep(base: View, s: State, caller: UserId, op: Op)
    requires Faithful(base, s)
    ensures Faithful(base, Apply(s, caller, op).0)
  {
    ApplyJournals(s, caller, op);
    var next := Apply(s, caller, op).0;
    if next.journal != s.journal {
      assert next.journal == s.journal + [next.journal[|s.journal|]];
      FaithfulAppend(base, s, next, next.journal[|s.journal|]);
    }
  }

  /**
   The journal replays to the live settings: from any baseline with an empty journal, replaying what the
   endpoints wrote rebuilds exactly the groups, users, roles, flags and grants, and what every row says
   about the past is what the replay holds at that point.
   */
  lemma {:induction false} JournalReplaysToLive(s: State, calls: seq<Call>)
    requires s.journal == []
    ensures Faithful(s.view, Run(s, calls))
  {
    if calls != [] {
      var before, c := Run(s, calls[..|calls| - 1]), calls[|calls| - 1];
      JournalReplaysToLive(s, calls[..|calls| - 1]);
      FaithfulStep(s.view, before, c.caller, c.op);
    }
  }

  // ---- An administrator always remains -------------------------------------------------------

  predicate ActiveAdmin(view: View, id: UserId) {
    id in view.users && view.users[id].active && view.users[id].role == Admin
  }

  /** `require_admin`: the caller is an active stored administrator when the handler runs. */
  predicate Authorised(s: State, calls: seq<Call>) {
    forall k :: 0 <= k < |calls| ==> calls[k].op.MoveHosts? || ActiveAdmin(Run(s, calls[..k]).view, calls[k].caller)
  }

  /** New identifiers are not in use. */
  predicate Fresh(s: State, op: Op) {
    && (op.CreateUser? ==> op.id !in s.view.users)
    && (op.GrantPermission? ==> op.grantId !in s.view.grants)
  }

  predicate FreshIds(s: State, calls: seq<Call>) {
    forall k :: 0 <= k < |calls| ==> Fresh(Run(s, calls[..k]), calls[k].op)
  }

  /** No call takes the caller's own administrator access away. */
  lemma CallerKeepsAdmin(s: State, caller: UserId, op: Op)
    requires ActiveAdmin(s.view, caller) && Fresh(s, op)
    ensures ActiveAdmin(Apply(s, caller, op).0.view, caller)
  {
  }

  lemma AllButLast(s: State, calls: seq<Call>)
    requires calls != []
    ensures var init := calls[..|calls| - 1];
            && (Authorised(s, calls) ==> Authorised(s, init))
            && (FreshIds(s, calls) ==> FreshIds(s, init) && Fresh(Run(s, init), calls[|calls| - 1].op))
  {
    var init := calls[..|calls| - 1];
    forall k | 0 <= k < |init|
      ensures Authorised(s, calls) ==> init[k].op.MoveHosts? || ActiveAdmin(Run(s, init[..k]).view, init[k].caller)
      ensures FreshIds(s, calls) ==> Fresh(Run(s, init[..k]), init[k].op)
    {
      assert init[..k] == calls[..k];
    }
  }

  lemma {:induction false} AdminRemains(s: State, calls: seq<Call>)
    requires Authorised(s, calls) && FreshIds(s, calls) && exists id :: ActiveAdmin(s.view, id)
    ensures exists id :: ActiveAdmin(Run(s, calls).view, id)
  {
    if calls == [] {
      var id :| ActiveAdmin(s.view, id);
      assert ActiveAdmin(Run(s, calls).view, id);
    } else {
      var last := |calls| - 1;
      var before := Run(s, calls[..last]);
      AllButLast(s, calls);
      if calls[last].op.MoveHosts? {
        AdminRemains(s, calls[..last]);
        var id :| ActiveAdmin(before.view, id);
        assert ActiveAdmin(Run(s, calls).view, id);
      } else {
        assert ActiveAdmin(before.view, calls[last].caller);
        CallerKeepsAdmin(before, calls[last].caller, calls[last].op);
        assert ActiveAdmin(Run(s, calls).view, calls[last].caller);
      }
    }
  }

  predicate OnlyAdmin(view: View, id: UserId) {
    ActiveAdmin(view, id) && forall other :: other in view.users && ActiveAdmin(view, other) ==> other == id
  }

  /** Someone else's request takes the only administrator away. */
  predicate StripsLastAdmin(s: State, caller: UserId, op: Op) {
    match op
    case DeleteUser(id) => id != caller && OnlyAdmin(s.view, id)
    case UpdateUser(id, newRole, newGroups, newActive) =>
      && id != caller && OnlyAdmin(s.view, id)
      && (newGroups.Some? ==> GroupNames(newGroups.value) && Known(s.view, newGroups.value))
      && ((newRole.Some? && newRole.value != Admin) || newActive == Some(false))
    case _ => false
  }

  /**
   The exact case in which the last administrator is lost. The caller's own checks do not cover it, so it
   needs a caller that is not stored as an active administrator, such as the CI bypass user.
   */
  lemma LastAdminLostExactly(s: State, caller: UserId, op: Op, admin: UserId)
    requires ActiveAdmin(s.view, admin) && Fresh(s, op)
    ensures (forall id :: !ActiveAdmin(Apply(s, caller, op).0.view, id)) <==> StripsLastAdmin(s, caller, op)
    ensures StripsLastAdmin(s, caller, op) ==> !ActiveAdmin(s.view, caller)
  {
    var next := Apply(s, caller, op).0.view;
    if !StripsLastAdmin(s, caller, op) {
      var target := if op.DeleteUser? || op.UpdateUser? then op.id else admin;
      if other :| other in s.view.users && ActiveAdmin(s.view, other) && other != target {
        assert ActiveAdmin(next, other);
      } else {
        assert admin == target && OnlyAdmin(s.view, admin);
        assert ActiveAdmin(next, admin);
      }
    } else {
      forall id ensures !ActiveAdmin(next, id) {
        assert ActiveAdmin(s.view, id) ==> id == op.id;
      }
    }
  }

  // ---- What every endpoint keeps -------------------------------------------------------------

  /** Addresses are unique, and no group is listed twice. */
  ghost predicate UsersOk(view: View) {
    && (forall u, v | u in view.users && v in view.users :: view.users[u].email == view.users[v].email ==> u == v)
    && (forall u :: u in view.users ==> Distinct(view.users[u].groups))
  }

  /** Grants belong to stored users and are not duplicated. */
  ghost predicate GrantsOk(view: View) {
    && (forall g :: g in view.grants ==> view.grants[g].user in view.users)
    && (forall g, h | g in view.grants && h in view.grants :: view.grants[g] == view.grants[h] ==> g == h)
  }

  /** Groups with hosts exist. */
  ghost predicate Consistent(s: State) { UsersOk(s.view) && GrantsOk(s.view) && s.occupied <= s.view.groups.Keys }

  lemma ApplyKeepsUsers(s: State, caller: UserId, op: Op)
    requires UsersOk(s.view) && Fresh(s, op)
    ensures UsersOk(Apply(s, caller, op).0.view)
  {
  }

  lemma ApplyKeepsGrants(s: State, caller: UserId, op: Op)
    requires GrantsOk(s.view) && Fresh(s, op)
    ensures GrantsOk(Apply(s, caller, op).0.view)
  {
  }

  lemma ApplyKeepsConsistent(s: State, caller: UserId, op: Op)
    requires Consistent(s) && Fresh(s, op)
    ensures Consistent(Apply(s, caller, op).0)
  {
    ApplyKeepsUsers(s, caller, op);
    ApplyKeepsGrants(s, caller, op);
  }

  lemma {:induction false} StaysConsistent(s: State, calls: seq<Call>)
    requires Consistent(s) && FreshIds(s, calls)
    ensures Consistent(Run(s, calls))
  {
    if calls != [] {
      var init, c := calls[..|calls| - 1], calls[|calls| - 1];
      AllButLast(s, calls);
      StaysConsistent(s, init);
      ApplyKeepsConsistent(Run(s, init), c.caller, c.op);
    }
  }

  // ---- What a request for a user asks for ----------------------------------------------------

  /** The answer to a request to create a user, and the user and the audit row it leaves. */
  ghost predicate CreateAsked(was: State, now: State, r: Response, id: UserId, email: string, role: Role, names: seq<string>) {
    && now.occupied == was.occupied && now.view.groups == was.view.groups && now.view.grants == was.view.grants
    && r == (if exists i :: 0 <= i < |names| && !GroupName(names[i]) then Unprocessable
             else if exists u :: u in was.view.users && was.view.users[u].email == email then Conflict
             else if exists i :: 0 <= i < |names| && names[i] !in was.view.groups then BadRequest else Created)
    && if r.Created?
       then && id in now.view.users
            && now.view.users == was.view.users[id := User(email, role, now.view.users[id].groups, true)]
            && FirstOccurrences(names, now.view.users[id].groups)
            && now.journal == was.journal + [UserCreated(id, email, role, now.view.users[id].groups)]
       else now == was
  }

  lemma CreateExactly(s: State, caller: UserId, id: UserId, email: string, role: Role, names: seq<string>)
    ensures
      var (next, r) := Apply(s, caller, Op.CreateUser(id, email, role, names));
      CreateAsked(s, next, r, id, email, role, names)
  {
    DedupKeepsFirst(names);
  }

  /** The fields a patched user has: what was asked for where something was, and what it had elsewhere. */
  ghost predicate Patched(was: User, now: User, newRole: Option<Role>, newGroups: Option<seq<string>>, newActive: Option<bool>) {
    && now.email == was.email
    && now.role == (if newRole.Some? then newRole.value else was.role)
    && now.active == (if newActive.Some? then newActive.value else was.active)
    && (if newGroups.Some? then FirstOccurrences(newGroups.value, now.groups) else now.groups == was.groups)
  }

  /** The audit row of a patch, if it changes anything: each changed field with its value before and after. */
  function PatchRow(id: UserId, was: User, now: User): seq<Audit> {
    if was == now then []
    else [UserUpdated(id, was.email,
                      if now.role == was.role then None else Some(Change(was.role, now.role)),
                      if now.groups == was.groups then None else Some(Change(was.groups, now.groups)),
                      if now.active == was.active then None else Some(Change(was.active, now.active)))]
  }

  /** The answer to a request to update a user. */
  ghost predicate UpdateAnswered(was: State, r: Response, caller: UserId, id: UserId, newRole: Option<Role>,
                                 newGroups: Option<seq<string>>, newActive: Option<bool>) {
    r == if newGroups.Some? && exists i :: 0 <= i < |newGroups.value| && !GroupName(newGroups.value[i]) then Unprocessable
         else if id !in was.view.users then NotFound
         else if || (id == caller && ((newRole.Some? && newRole.value != Admin) || newActive == Some(false)))
                 || (newGroups.Some? && exists i :: 0 <= i < |newGroups.value| && newGroups.value[i] !in was.view.groups)
         then BadRequest else Ok
  }

  /** The user and the audit row that a request to update a user leaves. */
  ghost predicate UpdateLeft(was: State, now: State, r: Response, id: UserId, newRole: Option<Role>,
                             newGroups: Option<seq<string>>, newActive: Option<bool>) {
    if r.Ok? && id in was.view.users
    then && id in now.view.users
         && Patched(was.view.users[id], now.view.users[id], newRole, newGroups, newActive)
         && now.view == was.view.(users := was.view.users[id := now.view.users[id]])
         && now.journal == was.journal + PatchRow(id, was.view.users[id], now.view.users[id])
         && now.occupied == was.occupied
    else now == was
  }

  lemma UpdateAnswers(s: State, caller: UserId, id: UserId, newRole: Option<Role>, newGroups: Option<seq<string>>,
                      newActive: Option<bool>)
    ensures
      var r := ApplyUpdate(s, caller, id, newRole, newGroups, newActive).1;
      UpdateAnswered(s, r, caller, id, newRole, newGroups, newActive)
  {
  }

  lemma UpdateLeaves(s: State, caller: UserId, id: UserId, newRole: Option<Role>, newGroups: Option<seq<string>>,
                     newActive: Option<bool>)
    ensures
      var (next, r) := ApplyUpdate(s, caller, id, newRole, newGroups, newActive);
      UpdateLeft(s, next, r, id, newRole, newGroups, newActive)
  {
    if newGroups.Some? { DedupKeepsFirst(newGroups.value); }
    var (next, r) := ApplyUpdate(s, caller, id, newRole, newGroups, newActive);
    if r.Ok? { assert next.view.users == s.view.users[id := next.view.users[id]]; }
  }

  /** Past the checks, an update commits the patched user, if any field changed. */
  lemma UpdateCommits(s: State, caller: UserId, id: UserId, newRole: Option<Role>, newGroups: Option<seq<string>>,
                      newActive: Option<bool>, names: seq<string>, user: User, role: Option<Change<Role>>,
                      grps: Option<Change<seq<string>>>, active: Option<Change<bool>>)
    requires id in s.view.users
    requires newGroups.Some? ==> GroupNames(newGroups.value) && names == Dedup(newGroups.value) && Known(s.view, names)
    requires id == caller ==> (newRole.Some? ==> newRole.value == Admin) && newActive != Some(false)
    requires user == s.view.users[id].(
                       role := Or(newRole, s.view.users[id].role), active := Or(newActive, s.view.users[id].active),
                       groups := if newGroups.Some? then names else s.view.users[id].groups)
    requires role == Changed(s.view.users[id].role, newRole) && active == Changed(s.view.users[id].active, newActive)
    requires grps == Changed(s.view.users[id].groups, if newGroups.Some? then Some(names) else None)
    ensures ApplyUpdate(s, caller, id, newRole, newGroups, newActive) ==
            if role.None? && grps.None? && active.None? then (s, Ok)
            else (State(View(s.view.groups, s.view.users[id := user], s.view.grants), s.occupied,
                        s.journal + [UserUpdated(id, user.email, role, grps, active)]), Ok)
  {
  }

  // ---- The store -----------------------------------------------------------------------------

  class Store {
    var groups: map<string, Option<string>>
    var users: map<UserId, User>
    var grants: map<GrantId, Grant>
    var occupied: set<string>
    var journal: seq<Audit>

    function Live(): View
      reads this
    {
      View(groups, users, grants)
    }

    function Now(): State
      reads this
    {
      State(Live(), occupied, journal)
    }

    constructor (s: State)
      ensures Now() == s
    {
      groups, users, grants := s.view.groups, s.view.users, s.view.grants;
      occupied, journal := s.occupied, s.journal;
    }

    method EmitAudit(a: Audit)
      modifies this`journal
      ensures journal == old(journal) + [a]
    {
      journal := journal + [a];
    }

    method CreateGroup(caller: UserId, name: string, description: Option<string>) returns (r: Response)
      modifies this
      ensures (Now(), r) == Apply(old(Now()), caller, Op.CreateGroup(name, description))
      ensures r == if !GroupName(name) then Unprocessable else if name in old(groups) then Conflict else Created
      ensures users == old(users) && grants == old(grants) && occupied == old(occupied)
      ensures if r.Created? then groups == old(groups)[name := description] else groups == old(groups)
      ensures journal == if r.Created? then old(journal) + [GroupCreated(name, description)] else old(journal)
    {
      if !GroupName(name) {
        return Unprocessable;
      }
      if name in groups {
        return Conflict;
      }
      groups := groups[name := description];
      EmitAudit(GroupCreated(name, description));
      r := Created;
    }

    method DeleteGroup(caller: UserId, name: string) returns (r: Response)
      modifies this
      ensures (Now(), r) == Apply(old(Now()), caller, Op.DeleteGroup(name))
      ensures r == if !GroupName(name) then BadRequest
                   else if name !in old(groups) then NotFound
                   else if name in occupied then Conflict else NoContent
      ensures users == old(users) && grants == old(grants) && occupied == old(occupied)
      ensures if r.NoContent? then groups == old(groups) - {name} else groups == old(groups)
      ensures journal == if r.NoContent? then old(journal) + [GroupDeleted(name)] else old(journal)
    {
      if !GroupName(name) {
        return BadRequest;
      }
      if name !in groups {
        return NotFound;
      }
      if name in occupied {
        return Conflict;
      }
      groups := groups - {name};
      EmitAudit(GroupDeleted(name));
      r := NoContent;
    }

    /** The validators' loop: keep the first occurrence of each name. */
    static method CheckGroups(names: seq<string>) returns (out: seq<string>)
      ensures out == Dedup(names) && FirstOccurrences(names, out)
    {
      DedupKeepsFirst(names);
      var seen: set<string> := {};
      out := [];
      var i := 0;
      while i < |names|
        invariant 0 <= i <= |names|
        invariant out == Dedup(names[..i])
        invariant forall n :: n in seen <==> n in out
      {
        assert names[..i + 1][..i] == names[..i];
        if names[i] !in seen {
          seen := seen + {names[i]};
          out := out + [names[i]];
        }
        i := i + 1;
      }
      assert names[..|names|] == names;
    }

    method CreateUser(caller: UserId, id: UserId, email: string, role: Role, names: seq<string>) returns (r: Response)
      modifies this
      ensures (Now(), r) == Apply(old(Now()), caller, Op.CreateUser(id, email, role, names))
      ensures CreateAsked(old(Now()), Now(), r, id, email, role, names)
    {
      CreateExactly(Now(), caller, id, email, role, names);
      if !GroupNames(names) {
        return Unprocessable;
      }
      if exists u :: u in users && users[u].email == email {
        return Conflict;
      }
      if !Known(Live(), names) {
        return BadRequest;
      }
      var checked := CheckGroups(names);
      users := users[id := User(email, role, checked, true)];
      EmitAudit(UserCreated(id, email, role, checked));
      r := Created;
    }

    method UpdateUser(caller: UserId, id: UserId, newRole: Option<Role>, newGroups: Option<seq<string>>,
                      newActive: Option<bool>) returns (r: Response)
      modifies this
      ensures (Now(), r) == ApplyUpdate(old(Now()), caller, id, newRole, newGroups, newActive)
      ensures UpdateAnswered(old(Now()), r, caller, id, newRole, newGroups, newActive)
      ensures UpdateLeft(old(Now()), Now(), r, id, newRole, newGroups, newActive)
    {
      UpdateAnswers(Now(), caller, id, newRole, newGroups, newActive);
      UpdateLeaves(Now(), caller, id, newRole, newGroups, newActive);
      var names: seq<string> := [];
      if newGroups.Some? {
        if !GroupNames(newGroups.value) {
          return Unprocessable;
        }
        names := CheckGroups(newGroups.value);
      }
      if id !in users {
        return NotFound;
      }
      var user := users[id];
      var role: Option<Change<Role>>, grps: Option<Change<seq<string>>>, active: Option<Change<bool>> := None, None, None;
      if newRole.Some? {
        if id == caller && newRole.value != Admin {
          return BadRequest;
        }
        if user.role != newRole.value {
          role := Some(Change(user.role, newRole.value));
          user := user.(role := newRole.value);
        }
      }
      if newGroups.Some? {
        if !Known(Live(), names) {
          return BadRequest;
        }
        if user.groups != names {
          grps := Some(Change(user.groups, names));
          user := user.(groups := names);
        }
      }
      if newActive.Some? {
        if id == caller && !newActive.value {
          return BadRequest;
        }
        if user.active != newActive.value {
          active := Some(Change(user.active, newActive.value));
          user := user.(active := newActive.value);
        }
      }
      UpdateCommits(Now(), caller, id, newRole, newGroups, newActive, names, user, role, grps, active);
      if role.Some? || grps.Some? || active.Some? {
        users := users[id := user];
        EmitAudit(UserUpdated(id, user.email, role, grps, active));
      }
      r := Ok;
    }

    method DeleteUser(caller: UserId, id: UserId) returns (r: Response)
      modifies this
      ensures (Now(), r) == Apply(old(Now()), caller, Op.DeleteUser(id))
      ensures r == if id == caller then BadRequest else if id !in old(users) then NotFound else NoContent
      ensures groups == old(groups) && occupied == old(occupied)
      ensures if r.NoContent? && id in old(users)
              then && users == old(users) - {id} && journal == old(journal) + [UserDeleted(id, old(users)[id].email)]
                   && (forall g :: g in grants <==> g in old(grants) && old(grants)[g].user != id)
                   && (forall g :: g in grants ==> grants[g] == old(grants)[g])
              else users == old(users) && grants == old(grants) && journal == old(journal)
    {
      if id == caller {
        return BadRequest;
      }
      if id !in users {
        return NotFound;
      }
      var email := users[id].email;
      users := users - {id};
      grants := map g | g in grants && grants[g].user != id :: grants[g];
      EmitAudit(UserDeleted(id, email));
      r := NoContent;
    }

    method GrantPermission(caller: UserId, grantId: GrantId, user: UserId, action: string, scope: string)
      returns (r: Response)
      modifies this
      ensures (Now(), r) == Apply(old(Now()), caller, Op.GrantPermission(grantId, user, action, scope))
      ensures r == if || action !in {"command.issue", "command.approve", "host.delete", "enroll.create", "enroll.revoke"}
                      || !(scope == "*" || GroupName(scope))
                   then Unprocessable
                   else if user !in users then NotFound
                   else if exists g :: g in old(grants) && old(grants)[g] == Grant(user, action, scope) then Conflict
                   else Created
      ensures groups == old(groups) && users == old(users) && occupied == old(occupied)
      ensures if r.Created? && user in users
              then && grants == old(grants)[grantId := Grant(user, action, scope)]
                   && journal == old(journal) + [Granted(user, users[user].email, action, scope, grantId)]
              else grants == old(grants) && journal == old(journal)
    {
      if action !in ALLOWED_ACTIONS || !(scope == "*" || GroupName(scope)) {
        return Unprocessable;
      }
      if user !in users {
        return NotFound;
      }
      if HasGrant(Live(), user, action, scope) {
        return Conflict;
      }
      grants := grants[grantId := Grant(user, action, scope)];
      EmitAudit(Granted(user, users[user].email, action, scope, grantId));
      r := Created;
    }

    method RevokePermission(caller: UserId, user: UserId, grantId: GrantId) returns (r: Response)
      modifies this
      ensures (Now(), r) == Apply(old(Now()), caller, Op.RevokePermission(user, grantId))
      ensures r == if user in users && grantId in old(grants) && old(grants)[grantId].user == user then NoContent
                   else NotFound
      ensures groups == old(groups) && users == old(users) && occupied == old(occupied)
      ensures if r.NoContent? && user in users && grantId in old(grants)
              then && grants == old(grants) - {grantId}
                   && journal == old(journal) + [Revoked(user, users[user].email, old(grants)[grantId].action,
                                                         old(grants)[grantId].scope, grantId)]
              else grants == old(grants) && journal == old(journal)
    {
      if user !in users {
        return NotFound;
      }
      if grantId !in grants || grants[grantId].user != user {
        return NotFound;
      }
      var revoked := grants[grantId];
      grants := grants - {grantId};
      EmitAudit(Revoked(user, users[user].email, revoked.action, revoked.scope, grantId));
      r := NoContent;
    }
  }
}

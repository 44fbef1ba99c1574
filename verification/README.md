# Remote-Pulse verification

A Dafny model of Remote-Pulse, a fleet server with an agent on every host, and proofs about it. Check it with
`dafny verify dfyconfig.toml`.

- `CommandTable`, `CommandLifecycle`, `CommandEffects`, `CommandServer`: the `commands` table, everything that
  writes it, and what holds over every run. A handler is one atomic step; handlers that read first and write an
  unguarded UPDATE later also appear as separate statements, so a theorem that does not ask for atomic handlers
  covers their interleavings. `CommandServer` has the handlers as methods, each proved against its step.
- `EndToEnd`: agents that poll, crash and forget, and a network that loses and repeats their reports.
- `CommandStatus`, `CommandList`, `Keyset`, `AuditTimeline`: shown status, filters and totals; keyset pagination,
  used by the command list and by the audit timeline's union of twelve sources.
- `EventBus`, `SseStream`: the replay ring and bounded queues against the unbounded log; a browser reconnecting.
- `Upgrade`: the agent's upgrade and rollback over a file system with symbolic links, crash by crash.
- `Settings`: groups, users and grants with their audit journal, which is replayed.
- `Webhooks`: failure accounting against the log of what happened to a hook.
- `Utf8`, `Runner`, `Daemon`: stream truncation, result shaping, the command loop.
- `LocalPolicy`, `RustdeskToml`, `ReplayGuard`: whitelist files as sets and decisions over them, the configuration
  patcher, the replay guard. `Text` and `Common` hold Python string operations and sequence facts.

## What the model assumes

- One statement, and each handler taken as atomic, runs without interruption; `publish` is never interrupted.
- Authentication and role checks come before a handler; a row-level permission is an input of it.
- The handler's clock reading is an input; runs of the command table take times in any order except where a theorem
  says otherwise. Identifiers and tokens from the generator are fresh.
- The expiry sweep is modelled as the step it is meant to be; nothing in `server/src/rp_server/main.py` starts it.
- What the outside world does (agents' commands, receivers' answers, lost messages, crashes) is an arbitrary input.

## Where the code differs from its own text

Each of these follows the code, and the named member states the difference.

- `replay_since` documents an empty list when the ring is too short; it returns the ring (`EventBus.ReplayCompleteness`).
- The audit module says token events are for admins; members of the token's group get them
  (`AuditTimeline.MembersSeeTokenEventsExactly`). It defines `has_more` by offset and total, which cursor mode does not follow
  (`AuditTimeline.CursorHasMoreExactly`).
- The stream's group filter documents an event without a group as visible to all; the code drops it for everyone but
  admins (`SseStream.NeverTwiceNeverForeign`, `SseStream.PublishedIsReceived`).
- The broadcast label and the listed status disagree on timeouts the agent reports (`CommandStatus.LabelsAgreeExactly`).
- The SQLite daily counts ignore the caller's hosts (`CommandStatus.SqliteDailyExactly`).
- A Telegram reject or a sweep that reads before an approval lands overrides it (`CommandLifecycle.NeverBothExactly`).
- A recorded result's rejection reason is not final: a late approval request and the sweep, or a Telegram reject, turn
  a succeeded command into one listed as rejected (`CommandLifecycle.RecordedReasonFinalExactly`,
  `CommandStatus.SucceededThenListedAsRejected`).
- A repeated `action` parameter repeats rows (`AuditTimeline.EachRowOnceExactly`).
- Reinstalling the installed version is not crash safe: the file is not executable until `chmod` has run
  (`Upgrade.CrashSafeExactly`).
- A caller that is not stored, such as the CI bypass user, can remove the last admin (`Settings.LastAdminLostExactly`).
- The webhook module speaks of 3 attempts and makes 4 (`Webhooks.Webhook.Dispatch`); the command loop's comment starts
  the back-off at 1 second and the code at 2 (`Daemon.WaitsDouble`).

## Model

| member | source | states |
|---|---|---|
| CommandLifecycle.RunKeepsInv | server/src/rp_server/routers/approvals.py:148-173 | On every run, handlers atomic or not: a token implies a request time, an uncompleted row has no result columns and a NULL or non-empty rejection reason, tokens are unique |
| CommandLifecycle.OnlyForward | server/src/rp_server/routers/agent_commands.py:288-305 | Between any two moments of any run a surviving row has only moved forward: host and issue time, an approval with its approver, and a result with its exit code, streams, duration and completion time never change, and a request time never disappears; the rejection reason is not among these (RecordedReasonFinalExactly) |
| CommandLifecycle.ReasonChangeHasWriter | server/src/rp_server/routers/approvals.py:363-372 | In any run, statement by statement, the reason of a completed row changes only through a Telegram reject or sweep that matches, their unguarded writes, or the dashboard reject's UPDATE on an undecided row; none of these looks at completed_at |
| CommandLifecycle.ReasonFinalExactly | server/src/rp_server/tasks/approval_cleanup.py:34-60 | No continuation of atomic handlers changes a completed row's reason if and only if the row is approved or has a reason |
| CommandLifecycle.RecordedReasonFinalExactly | server/src/rp_server/routers/agent_commands.py:288-305 | A recorded reason is final under atomic handlers if and only if, when the result is recorded, the row is approved or the report carries a reason |
| CommandLifecycle.ClosedStaysClosed | server/src/rp_server/routers/agent_commands.py:181-199 | Rejected or completed is stable under every statement, although a result may overwrite the reason, so no later poll returns the row |
| CommandLifecycle.ApprovedExactly | server/src/rp_server/routers/approvals.py:233-256 | A row is approved if and only if it was created approved or an approve decision matched it earlier |
| CommandLifecycle.ApprovalGate | server/src/rp_server/routers/agent_commands.py:181-199 | Whenever a poll returns a row for which approval was ever requested, that row was created approved or an earlier approve step succeeded on it, under statement-level interleaving |
| CommandLifecycle.ApprovedOnce | server/src/rp_server/routers/dash_commands.py:766-819 | At most one approval, Telegram or dashboard, ever succeeds on a row, and the approver is frozen after it |
| CommandLifecycle.NeverApprovedAndRejected | server/src/rp_server/routers/approvals.py:333-379 | With handlers atomic, a row without a result is never both approved and rejected |
| CommandLifecycle.NeverBothExactly | server/src/rp_server/routers/approvals.py:333-379 | For every run, statement by statement: a row is never both approved and rejected without a result if and only if neither the reject's nor the sweep's unguarded UPDATE hits it while it is approved and has no result |
| CommandLifecycle.InterleavedHandlersOverrideApproval | server/src/rp_server/tasks/approval_cleanup.py:34-60 | Both happen: the handler's SELECT finds the row, a dashboard approval lands, the unguarded UPDATE follows |
| CommandLifecycle.WindowsComplementSweep | server/src/rp_server/tasks/approval_cleanup.py:30-41 | At any instant the approve and reject windows coincide and are the exact complement of the sweep condition |
| CommandLifecycle.TokenHasRequest | server/src/rp_server/routers/approvals.py:148-173 | A token on a row was attached by a request or an issue, to that row and at the stored request time |
| CommandLifecycle.DecisionWithinWindow | server/src/rp_server/routers/approvals.py:233-256 | A Telegram decision happens only within 300 seconds of the request that attached its token |
| CommandLifecycle.TokenDecidesOnce | server/src/rp_server/routers/approvals.py:233-256 | Each approval token authorises at most one Telegram decision, each decision being one atomic handler |
| CommandLifecycle.RedeliveredUntilResult | server/src/rp_server/routers/agent_commands.py:179-199 | Handlers atomic: an approved command without a result is in every poll of its host until one hour after issue |
| CommandLifecycle.UnaskedIsPolledExactly | server/src/rp_server/routers/agent_commands.py:179-199 | A command created without approval, for which nobody asked for one, and without rejection or result, is in the poll of its own host until exactly one hour after its creation, and in no other host's |
| CommandLifecycle.PolledIsOpen | server/src/rp_server/routers/agent_commands.py:179-199 | No poll returns a row older than an hour, of another host, rejected or completed |
| CommandServer.Server.CreateCommand | server/src/rp_server/routers/commands.py:73-181 | The admin endpoint inserts exactly the row asked for, or answers 404 or 403 and changes nothing |
| CommandServer.Server.IssueCommand | server/src/rp_server/routers/dash_commands.py:456-589 | A fan-out issue inserts one row per distinct requested host, pending with a token exactly if approval was asked for or, by default, for a reboot, ssh_rotate, exec_script or shell; or, if any host is unknown, not visible or forbidden, none |
| CommandServer.Server.CreateOneCommand | server/src/rp_server/routers/dash_commands.py:407-453 | Inserts one row: pending with a fresh token and the request time, or approved by its issuer |
| CommandEffects.IssueIsStep | server/src/rp_server/routers/dash_commands.py:407-453 | That insertion is the issue step of the run theorems |
| CommandServer.Server.RequestApproval | server/src/rp_server/routers/approvals.py:118-200 | Attaches a fresh token and the request time unless a token is present; it works on resolved rows too |
| CommandServer.Server.ApproveCommand | server/src/rp_server/routers/approvals.py:210-306 | Approves the row whose token matches if it is undecided and was requested at most 300 seconds ago, recording approver and time and clearing the token; otherwise nothing changes |
| CommandServer.Server.RejectCommand | server/src/rp_server/routers/approvals.py:316-414 | Rejects the undecided row of the token with approver and reason in its columns, answers 403 when the request is over 300 seconds old and 404 without such a row; then nothing changes |
| CommandServer.Server.CleanupExpiredApprovals | server/src/rp_server/tasks/approval_cleanup.py:18-77 | The sweep loop expires exactly the undecided rows with a token requested more than 300 seconds ago, and counts them |
| CommandServer.Server.ResolveApproval | server/src/rp_server/routers/dash_commands.py:726-825 | The dashboard decision, with its 404, 403 and 409 answers |
| CommandServer.Server.ListPending | server/src/rp_server/routers/agent_commands.py:154-241 | The poll returns exactly the host's rows of the last hour that are neither completed nor rejected and either approved or never asked about, oldest first, each once, and stamps them |
| CommandServer.Server.SubmitResult | server/src/rp_server/routers/agent_commands.py:244-338 | First result wins: records the report on an open row of the host, answers 409 on a completed one |
| CommandServer.Server.DeleteHost | server/src/rp_server/routers/dash_api.py:647-776 | 404, 403 and 409 in the source's order, else removes the host with all its commands and no others |
| EndToEnd.TableOfWorld | agent/src/rp/daemon.py:114-169 | The table inside the agent-and-network world is a run of the table on its own, so every lifecycle theorem applies |
| EndToEnd.OnlyPolledIsReported | agent/src/rp/daemon.py:119-169 | Whatever an agent remembers or has sent, across crashes, lost and repeated POSTs, it once polled while the row was eligible |
| EndToEnd.EveryResultTracesToAPoll | server/src/rp_server/routers/agent_commands.py:262-314 | Every recorded result came from a report of the row's own host after a poll that returned the row while eligible, and exit code, streams, duration and completion time are that report's at any later time |
| EndToEnd.ReportedReasonFinalExactly | server/src/rp_server/routers/agent_commands.py:288-314 | The reported reason stays, whatever agents, network and atomic handlers do next, if and only if the row was approved or the report carried a reason |
| EndToEnd.AtMostOneResult | server/src/rp_server/routers/agent_commands.py:288-314 | No two deliveries of a run are both recorded on the same command |
| CommandStatus.ShownStatusFindsRow | server/src/rp_server/routers/dash_commands.py:175-196 | On every reachable row the shown status is one whose list filter selects the row |
| CommandStatus.FiltersAgreeExactly | server/src/rp_server/routers/dash_commands.py:247-287 | The filters partition a reachable row and agree with its shown status if and only if it is not both completed and given a rejection reason |
| CommandStatus.HandedOutIsShownByOrigin | server/src/rp_server/routers/dash_commands.py:175-196 | On every run a polled row is shown as queued if and only if it was created approved or approved since, otherwise as pending approval, and then nobody ever asked for its approval |
| CommandStatus.SucceededBecomesRejected | server/src/rp_server/tasks/approval_cleanup.py:34-60 | Any reachable succeeded row that nobody decided on has a continuation of atomic handlers after which it is listed as rejected |
| CommandStatus.SucceededThenListedAsRejected | server/src/rp_server/tasks/approval_cleanup.py:34-60 | The smallest such run from an empty table: an admin's unapproved command exits 0, approval is asked for, the sweep passes |
| CommandStatus.LabelsAgreeExactly | server/src/rp_server/routers/agent_commands.py:131-146 | The label broadcast with a result equals the status the row is then listed with if and only if there is no reason, or no exit code and a reason that does not mention a timeout |
| CommandStatus.RecordedShows | server/src/rp_server/routers/agent_commands.py:131-146 | From the report to what is shown: which status a recorded result is listed with, which filters find it and which label is broadcast, by exit code and reason |
| CommandStatus.UnfinishedShows | server/src/rp_server/routers/dash_commands.py:247-287 | The same for a row without a result, by reason and approval |
| CommandStatus.TallyCounts | server/src/rp_server/routers/dash_stats.py:343-369 | Each total is the number of rows with the exit code or the completion it names |
| CommandStatus.OnDayExactly | server/src/rp_server/routers/dash_stats.py:378-405 | A daily bucket holds the rows issued on that day |
| CommandStatus.TotalsAddUp | server/src/rp_server/routers/dash_stats.py:343-369 | Succeeded + failed + pending equals the total minus the completed rows without an exit code |
| CommandStatus.DailySumsToTotals | server/src/rp_server/routers/dash_stats.py:378-434 | Per-day counts sum to the totals of the rows they were grouped from |
| CommandStatus.SqliteDailyExactly | server/src/rp_server/routers/dash_stats.py:342-434 | The SQLite daily query omits the host condition: its issued, succeeded and failed counts each sum to the shown total if and only if no host is visible or every counting command in the range is on a visible host |
| CommandStatus.PostgresDailyAgrees | server/src/rp_server/routers/dash_stats.py:342-405 | The PostgreSQL query always agrees with the totals |
| CommandList.ListingUnderChange | server/src/rp_server/routers/dash_commands.py:311-367 | While commands are issued, decided, completed and deleted between requests, no command is listed twice and one that matched at each request is listed once the walk ends |
| CommandList.ListingIsOrdered | server/src/rp_server/routers/dash_commands.py:311-367 | Over an unchanging table the walk ends and lists exactly the commands of visible hosts that the filters select, by (issued desc, id desc) |
| Keyset.PageIsPrefix | server/src/rp_server/routers/dash_audit.py:616-662 | One page of the limit + 1 query is a prefix of the ordered rows past the cursor, and null next cursor means nothing is left |
| Keyset.FollowAscends | server/src/rp_server/routers/dash_audit.py:616-662 | Whatever is inserted or removed between requests the collected rows are strictly ascending, and each was in its page's table |
| Keyset.FollowMissesNothing | server/src/rp_server/routers/dash_audit.py:616-662 | When the walk ends, every row present throughout has been returned |
| Keyset.FollowEnds | server/src/rp_server/routers/dash_audit.py:640-662 | Over an unchanging table the walk ends after at most one request more than there are rows |
| Keyset.FollowIsOrderBy | server/src/rp_server/routers/dash_audit.py:616-662 | For every limit of at least 1 the walk returns exactly the sorted table |
| Keyset.OffsetWalkIsOrderBy | server/src/rp_server/routers/dash_audit.py:643-671 | Adding the limit to the offset while has_more is set ends, and returns the sorted table from the first offset on |
| AuditTimeline.FollowingCursorsReturnsTimeline | server/src/rp_server/routers/dash_audit.py:544-662 | Following next_cursor until null ends, and returns exactly the filtered union of the named sources by (ts desc, src asc, pk asc), each row once |
| AuditTimeline.ListedExactly | server/src/rp_server/routers/dash_audit.py:166-375 | On a traversal to the end an event of each of the twelve actions is listed if and only if its action is selected, a row of its table has the columns that action stands for (joined to its host for a command) and gives its time, actor, group and summary, and the actor, since, until and group conditions admit it |
| AuditTimeline.MatchesExactly | server/src/rp_server/routers/dash_audit.py:451-499 | The same for the rows a request matches, whatever the paging mode |
| AuditTimeline.SelectsExactly | server/src/rp_server/routers/dash_audit.py:402-448 | Which of the twelve sources a request selects, by the public action names, the prefix and the target types |
| AuditTimeline.RefusedExactly | server/src/rp_server/routers/dash_audit.py:584-596 | 422 if and only if cursor meets offset, the time window is empty or action meets prefix; 400 if and only if otherwise a name or target type is unknown |
| AuditTimeline.FollowingCursorsUnderChange | server/src/rp_server/routers/dash_audit.py:616-662 | Rows may come and go between requests: nothing is returned twice, and an event that matched at each request is returned |
| AuditTimeline.EachRowOnceExactly | server/src/rp_server/routers/dash_audit.py:425-432 | The traversal returns each row once on every database and for every limit if and only if the action list has no repeats |
| AuditTimeline.ResolveDistinct | server/src/rp_server/routers/dash_audit.py:402-448 | A request that names no action twice selects each source at most once, whatever its prefix and target-type filters |
| AuditTimeline.OnlyOwnGroups | server/src/rp_server/routers/dash_audit.py:476-499 | Nothing outside a member's groups is listed to them on any page in either paging mode |
| AuditTimeline.MembersSeeTokenEventsExactly | server/src/rp_server/routers/dash_audit.py:300-318 | A non-admin's finished traversal lists a token event if and only if the request selects that source and some token of one of the member's groups passes the other filters; the module text says admins only |
| AuditTimeline.OffsetHasMore | server/src/rp_server/routers/dash_audit.py:643-671 | In offset mode has_more means exactly that rows follow the window |
| AuditTimeline.OffsetWindow | server/src/rp_server/routers/dash_audit.py:643-671 | An offset request returns that window of the matching events in order, and how many match |
| AuditTimeline.CursorHasMoreExactly | server/src/rp_server/routers/dash_audit.py:640-671 | In cursor mode the documented meaning of has_more, fewer events than the total, holds if and only if there is a next page or the cursor excludes no row |
| EventBus.Bus.Publish | server/src/rp_server/events.py:64-91 | Numbers the event, extends the log and the ring, offers it to every subscriber, dropping where a queue is full |
| EventBus.Subscriber.Offer | server/src/rp_server/events.py:76-91 | Queues the event if the queue has room or no bound, else drops exactly it, keeping the account of what was published |
| EventBus.Bus.Attach | server/src/rp_server/events.py:104-128 | A new subscriber has an empty queue and sees only later events |
| EventBus.Bus.Consume | server/src/rp_server/events.py:128-137 | Yields the oldest queued event, published after the subscriber attached |
| EventBus.Bus.Detach | server/src/rp_server/events.py:128-137 | Removes the subscriber and leaves the log and the others alone |
| EventBus.Bus.ReplaySince | server/src/rp_server/events.py:139-147 | Returns the logged events after the id that are among the last replay_size |
| EventBus.RingReplay | server/src/rp_server/events.py:139-147 | Filtering the ring is the same as slicing the unbounded log |
| EventBus.ReplayCompleteness | server/src/rp_server/events.py:139-147 | A replay is complete if and only if at most replay_size events follow; otherwise it is the whole ring, not the documented empty list |
| EventBus.SubscriberAccount | server/src/rp_server/events.py:64-137 | Consumed, queued and dropped events together are exactly those published since attaching, the first two in increasing id order |
| EventBus.SelectPartitions | server/src/rp_server/events.py:76-91 | Kept and dropped events partition what was offered |
| SseStream.RunKeepsInv | server/src/rp_server/routers/dash_api.py:838-880 | The stream invariant over every chain of connects, deliveries, drops and disconnects: ids behind the browser's last id are never queued |
| SseStream.NeverTwiceNeverForeign | server/src/rp_server/routers/dash_api.py:779-880 | Across any reconnects received ids strictly increase, and every event received was published and belongs to a group of the connection's user, unless that user is an admin |
| SseStream.ReceivedAsConnected | server/src/rp_server/routers/dash_api.py:838-880 | Events are received only as a user who connected |
| SseStream.QueueIsReceived | server/src/rp_server/routers/dash_api.py:870-880 | Delivering the queue shows exactly the queued events of the user's groups, or all of them to an admin, and empties it |
| SseStream.PublishedIsReceived | server/src/rp_server/events.py:64-91 | An event published to a live client whose queue has room is received once the queue is delivered, if and only if the user is an admin or in its group |
| SseStream.PublishedToFullQueue | server/src/rp_server/events.py:84-91 | With a full queue it is dropped and nothing else changes |
| SseStream.ReceivedAtConnect | server/src/rp_server/routers/dash_api.py:843-870 | A connection receives exactly that batch before anything else, as its own user |
| SseStream.GapExactly | server/src/rp_server/routers/dash_api.py:843-870 | The catch-up batch holds an event if and only if the browser sent an id, the event is after it, still in the ring, and of a group of the user, or the user is an admin |
| SseStream.GapIsComplete | server/src/rp_server/routers/dash_api.py:843-870 | The catch-up batch holds every visible event after the last one if at most replay_size were published since |
| SseStream.LostExactly | server/src/rp_server/routers/dash_api.py:838-880 | At any point of any run an event not received is lost in every continuation if and only if it is not queued for this connection and the ring cannot serve it: it left the ring, is not visible, the browser's id reached it, or the browser has and will get no id before it |
| SseStream.PublishedBeforeSubscribing | server/src/rp_server/routers/dash_api.py:843-870 | An event published between catch-up and subscription is lost for good if and only if the browser had no id yet, may not see it, or there is no ring; otherwise a reconnect delivers it |
| Upgrade.AgentUpgrader.UpgradeTo | agent/src/rp/upgrade.py:75-250 | Performs exactly the file operations of the upgrade trace, chmod included, in order, and returns its outcome |
| Upgrade.AgentUpgrader.Install | agent/src/rp/upgrade.py:159-182 | Move, make executable, preserve and swap, stopping at the first operation that fails |
| Upgrade.AgentUpgrader.Rollback | agent/src/rp/upgrade.py:258-302 | Performs exactly the operations of the rollback trace |
| Upgrade.CrashSafeExactly | agent/src/rp/upgrade.py:159-204 | After every file operation of an upgrade, automatic rollback included, rp runs the complete, executable old or new binary, if and only if the target is not the installed version |
| Upgrade.UpgradeEnds | agent/src/rp/upgrade.py:159-204 | How an upgrade ends, by the job: dry run and bad checksum touch nothing; it fails with rp as it was if and only if rp-prev dangles or the temporary name is taken; else a passed self-check leaves rp on the new build with rp-prev on the version before, and a failed one puts rp back on that version |
| Upgrade.RollbackRuns | agent/src/rp/upgrade.py:258-302 | A rollback on any file system is refused, changing nothing, if and only if rp-prev leads nowhere or the temporary name is taken; else rp links to and runs what rp-prev resolves to |
| Upgrade.SecondRollbackChangesNothing | agent/src/rp/upgrade.py:275-302 | A second rollback changes nothing |
| Upgrade.AttemptBootableExactly | agent/src/rp/upgrade.py:75-302 | On a bootable system every point of one attempt is bootable if and only if it does not write to the path rp or rp-prev links to |
| Upgrade.AlwaysBootableExactly | agent/src/rp/upgrade.py:75-302 | The same for any number of upgrades and rollbacks, each cut short anywhere |
| Upgrade.CutDowngradeThenRollback | agent/src/rp/upgrade.py:159-175 | What the condition on rp-prev protects: from any bootable system, a downgrade to the previous version cut at its first write leaves rp alone, and a rollback then puts rp on a file that cannot be run whole |
| Settings.ApplyJournals | server/src/rp_server/routers/dash_settings.py:235-262 | Each change writes exactly one audit row that replays to it and whose statements about the past hold; refusals change nothing |
| Settings.JournalReplaysToLive | server/src/rp_server/routers/dash_settings.py:308-846 | Replaying everything the endpoints wrote, grants dropped on user delete, rebuilds exactly the live groups, users, flags and grants, and what each row says about the past, every before value included, is what the replay holds there |
| Settings.AdminRemains | server/src/rp_server/routers/dash_settings.py:512-620 | If every caller is an active stored admin, every reachable state has one |
| Settings.LastAdminLostExactly | server/src/rp_server/routers/dash_settings.py:593-620 | The exact request that removes the last admin; it needs a caller that is not stored as an active admin |
| Settings.StaysConsistent | server/src/rp_server/routers/dash_settings.py:295-784 | Addresses stay unique, grants stay unduplicated and on stored users, and groups with hosts stay, while hosts are enrolled, regrouped and deleted under their foreign key |
| Settings.GroupNameExactly | server/src/rp_server/routers/dash_settings.py:50-66 | A group name is 1 to 63 ASCII letters, digits, hyphens, full stops and underscores, the first a letter or digit |
| Settings.Store.CreateGroup | server/src/rp_server/routers/dash_settings.py:295-338 | The whole new state and journal, and the step of the theorems: creates the group with its description or answers 422 or 409 |
| Settings.Store.DeleteGroup | server/src/rp_server/routers/dash_settings.py:346-398 | The whole new state and journal, and the step of the theorems: deletes an empty group or answers 400, 404 or 409 |
| Settings.Store.CreateUser | server/src/rp_server/routers/dash_settings.py:439-488 | The whole new state and journal, and the step of the theorems: creates an active user with the requested address, role and groups and journals those, or answers 422, 409 or 400 |
| Settings.Store.UpdateUser | server/src/rp_server/routers/dash_settings.py:496-574 | The whole new state and journal, and the step of the theorems: each requested field has the requested value, every other is kept, and the audit row holds each changed one before and after; the caller cannot demote or deactivate itself |
| Settings.Store.DeleteUser | server/src/rp_server/routers/dash_settings.py:582-631 | The whole new state and journal, and the step of the theorems: deletes the user and by cascade its grants; not the caller itself |
| Settings.Store.GrantPermission | server/src/rp_server/routers/dash_settings.py:734-797 | The whole new state and journal, and the step of the theorems: grants the requested action and scope once, 409 on a duplicate |
| Settings.Store.RevokePermission | server/src/rp_server/routers/dash_settings.py:805-857 | The whole new state and journal, and the step of the theorems: revokes a grant of that user only |
| Settings.CreateExactly | server/src/rp_server/routers/dash_settings.py:439-488 | Answer, user and audit row of a request to create a user, in the terms of the request |
| Settings.UpdateAnswers | server/src/rp_server/routers/dash_settings.py:496-574 | Exactly when an update answers 422, 404, 400 or 200 |
| Settings.UpdateLeaves | server/src/rp_server/routers/dash_settings.py:496-574 | The user and the audit row an update leaves, in the terms of the request; a refusal changes nothing |
| Settings.Store.CheckGroups | server/src/rp_server/routers/dash_settings.py:148-160 | The validator loop keeps each name once, in the order of first occurrence |
| Common.DedupKeepsFirst | server/src/rp_server/routers/dash_settings.py:148-160 | Keeping first occurrences lists the same elements, once each, in the order in which they first occur |
| Utf8.DecodeOfEncode | agent/src/rp/commands/runner.py:91-102 | Encoding then decoding gives the string back with each surrogate replaced by a question mark (section 3 of RFC 3629) |
| Utf8.EncodedForm | agent/src/rp/commands/runner.py:99 | The byte form of each code point is the one of the table in section 3 of RFC 3629; a surrogate becomes a question mark |
| Utf8.EncodeOfDecode | agent/src/rp/commands/runner.py:99-102 | Decoding then encoding gives the bytes back if and only if they are well-formed |
| Utf8.DecodeOfCut | agent/src/rp/commands/runner.py:102 | Cutting an encoding at any byte and decoding gives at most three replacement characters and a suffix |
| Runner.TruncateShape | agent/src/rp/commands/runner.py:91-102 | Truncation keeps the stream, or at most three replacement characters followed by a suffix of it that fills the limit exactly |
| Runner.TruncateFits | agent/src/rp/commands/runner.py:91-102 | The result has at most limit characters and re-encodes to at most limit + 6 bytes |
| Runner.TruncateFitsExactly | agent/src/rp/commands/runner.py:91-102 | The character bound holds for exactly the positive limits, and for 0 only on the empty stream: a limit of 0 keeps everything |
| Runner.TruncateKeepsEnd | agent/src/rp/commands/runner.py:91-102 | What was appended last survives truncation in full |
| Runner.TimeoutNoteSurvives | agent/src/rp/commands/runner.py:141-157 | The report of every started command that times out, given or default timeout, ends with the timeout note, however much the child wrote |
| Runner.StartedReport | agent/src/rp/commands/runner.py:133-170 | The posted report of a command that was started: exit code and both streams of a finished child, "timeout" and the note, the text of an OS error, or the crash note; each stream whole or cut to its end at 64 KiB |
| Runner.ReportExactly | agent/src/rp/commands/runner.py:105-198 | Which commands are refused before anything runs, with which reason, and with which timeout the others start |
| Runner.ReportAcceptedExactly | agent/src/rp/daemon.py:140-169 | A report passes the server's length checks if and only if no exception escaped the runner with a text too long for them |
| Daemon.OneAttemptPerCommand | agent/src/rp/daemon.py:119-169 | A batch yields one report attempt per well-formed command, with that command's id and report, and no others, in batch order, whatever crashes or fails |
| Daemon.HeartbeatDaemon.RunBatch | agent/src/rp/daemon.py:119-169 | The batch loop makes exactly those attempts |
| Daemon.HeartbeatDaemon.RunIteration | agent/src/rp/daemon.py:114-185 | One turn: the attempts of the polled batch, then one wait, resetting or raising the failure count; a signal lets it finish |
| Daemon.HeartbeatDaemon.CommandLoop | agent/src/rp/daemon.py:114-185 | Every iteration until a signal makes its attempts and then waits the poll interval or the back-off for the failures in a row |
| Daemon.WaitsDouble | agent/src/rp/daemon.py:171-185 | Over any run a failing iteration waits 2 seconds after a good one and twice the previous wait, up to 60, after a failing one; a good one waits the poll interval |
| Webhooks.HistoryIsLastOutcomes | server/src/rp_server/webhooks.py:171-180 | The stored history is the last 20 recorded outcomes |
| Webhooks.CountsSinceCleared | server/src/rp_server/webhooks.py:217-220 | failure_count is the number of failures recorded since the last success, reset or re-enable |
| Webhooks.EnabledBelowThreshold | server/src/rp_server/webhooks.py:217-222 | An enabled hook has fewer than 10 failures |
| Webhooks.DisabledByAdminOrTenth | server/src/rp_server/webhooks.py:217-222 | A hook is disabled only by an admin or by exactly the tenth failure |
| Webhooks.TenFailuresDisable | server/src/rp_server/webhooks.py:217-222 | Ten failures in a row disable a hook whatever came before |
| Webhooks.StaysDisabled | server/src/rp_server/routers/dash_webhooks.py:362-369 | A disabled hook stays disabled until an admin patches it on or resets it |
| Webhooks.DisabledExactly | server/src/rp_server/webhooks.py:217-222 | A hook is disabled if and only if an admin patch or a failure at a count of ten or more disabled it and no reset or enabling patch has come since |
| Webhooks.ShowsLastOutcome | server/src/rp_server/webhooks.py:213-215 | The last status shown is the last outcome's; the last error is that of the last outcome, and none after a success or a later reset |
| Webhooks.Webhook.RecordResult | server/src/rp_server/webhooks.py:183-253 | Writes the counters, the window and the flag of one outcome, or nothing if the row is gone |
| Webhooks.Webhook.Update | server/src/rp_server/routers/dash_webhooks.py:333-386 | The flag has the patched value; re-enabling clears the count, any other patch leaves it |
| Webhooks.Webhook.ResetFailures | server/src/rp_server/routers/dash_webhooks.py:571-612 | Clears the count and enables the hook |
| Webhooks.Webhook.Dispatch | server/src/rp_server/webhooks.py:384-459 | 1 to 4 POSTs with the listed waits, stopping at the first 2xx, and exactly one record of the outcome |
| LocalPolicy.FileRefinesSet | agent/src/rp/local_policy.py:450-497 | After any adds and removes of non-blank single-line items the non-blank lines of any file are the plain set after the same edits |
| LocalPolicy.AddRefinesExactly | agent/src/rp/local_policy.py:450-470 | Adding an item adds exactly that item to the set if and only if it is on one line or blank |
| LocalPolicy.RemovedItems | agent/src/rp/local_policy.py:473-497 | Removing takes exactly that item out, blank lines aside |
| LocalPolicy.AddedKeepsLines | agent/src/rp/local_policy.py:450-470 | Adding any text at all loses no line, and every new line is one of the item's |
| LocalPolicy.SensitiveNeverMorePermissive | agent/src/rp/local_policy.py:52-97 | For every command the sensitive tier is never more permissive |
| LocalPolicy.AllowedExactly | agent/src/rp/local_policy.py:99-309 | Exactly which commands are allowed: by group, live flag, matching whitelist line, resolved path under a safe prefix, stored checksum or same major version |
| LocalPolicy.ApprovalNeededExactly | agent/src/rp/local_policy.py:99-309 | Exactly which wait for an approval; all others are denied |
| LocalPolicy.AddingNeverTightens | agent/src/rp/local_policy.py:131-191 | Adding a whitelist entry, whatever its text, never makes any decision stricter, for any pattern matcher |
| LocalPolicy.RemovingNeverLoosens | agent/src/rp/local_policy.py:131-191 | Removing one never makes any decision more permissive |
| LocalPolicy.EmptyPolicyFailsClosed | agent/src/rp/local_policy.py:99-309 | With an empty policy directory a sensitive host allows exactly the display and same-major upgrades |
| LocalPolicy.SensitiveFollowsFlags | agent/src/rp/local_policy.py:99-119 | After any run of touches and removals of any flags a sensitive host runs a shell command if and only if the last edit of its flag was a touch at most 24 hours ago (or none, and it was live), and the write flag decides writes alike |
| LocalPolicy.PolicyDir.AddToWhitelist | agent/src/rp/local_policy.py:450-470 | Rewrites the named file to the sorted distinct lines with the item, and no other file |
| LocalPolicy.PolicyDir.RemoveFromWhitelist | agent/src/rp/local_policy.py:473-497 | Rewrites it without the item, if it was there |
| RustdeskToml.PatchedFile | agent/src/rp/installers/rustdesk.py:336-365 | For single-line values: lines assigning no wanted key stay in place, all others are assignments with the wanted value, and each of the eight keys is assigned |
| RustdeskToml.PatchedText | agent/src/rp/installers/rustdesk.py:340-365 | The same in literal lines: every line that assigns one of the eight keys becomes the line written for that key, every other stays, and all eight lines are there |
| RustdeskToml.KeyOfExactly | agent/src/rp/installers/rustdesk.py:355-357 | A line assigns the stripped text before its first equals sign, unless it is a comment |
| RustdeskToml.IdempotentExactly | agent/src/rp/installers/rustdesk.py:336-365 | Merging twice is merging once if and only if neither the password nor the bind address has a line break |
| RustdeskToml.KeyOfAssignment | agent/src/rp/installers/rustdesk.py:351-357 | The assignment the patcher writes is read back as an assignment of its key |
| RustdeskToml.MergeRustdeskToml | agent/src/rp/installers/rustdesk.py:336-365 | The two loops compute the merged text |
| ReplayGuard.HasSeenExactly | agent/src/rp/replay_guard.py:84-108 | Whatever the clock does: has_seen holds if and only if the last saved mark is inside the window, was not purged, and no later saved mark pruned past it |
| ReplayGuard.HasSeenAgreesWithLog | agent/src/rp/replay_guard.py:84-108 | While the clock never goes back, has_seen on the pruned file agrees with the full log of saved marks within the last ttl seconds |
| ReplayGuard.ForgetsAfterClockStepsBack | agent/src/rp/replay_guard.py:106-108 | The smallest disagreement with the full log once the clock is set back |
| ReplayGuard.Guard.Seen | agent/src/rp/replay_guard.py:84-87 | Answers from the log by that exact rule, with no condition on the clock |
| ReplayGuard.Guard.MarkExecuted | agent/src/rp/replay_guard.py:89-93 | Prunes and stamps, or leaves the file alone when saving fails |
| Text.SplitOfJoin | agent/src/rp/local_policy.py:461-467 | Splitting a joined file gives the lines of each piece, in order |
| Text.SplitAcrossNewline | agent/src/rp/local_policy.py:461-467 | No line merges across a written newline, even after a carriage return |
| Text.LessExactly | server/src/rp_server/routers/dash_audit.py:643-645 | The code point order behind the sorted columns: a proper prefix first, else the first difference |
| Text.LowerExactly | server/src/rp_server/routers/dash_audit.py:482-484 | Lower-case forms are equal if and only if the texts differ at most in the case of ASCII letters |

## Left out

- HTTP, FastAPI and Pydantic plumbing, OIDC, Tailscale, Telegram and PocketID clients: I/O and library wrappers.
- Command payloads, types and signatures inside the table: no guard of a modelled statement reads them.
- Retry of a command (`retry_command`) and canary rows: each is another insertion of the kinds modelled.
- Enrollment tokens' consumption, canary progress, metrics, sparklines and the fleet uptime percentage: easy members.
- Groups added by other admin tools and users created at first login: not journaled, so the replay starts after them.
- Audit retention, which deletes rows of the journal, and the audit export, which runs the same query without paging.
- The issuer filter of the command list: it narrows the rows by a column that never changes.
- Reasons returned with local policy decisions, and what `fnmatch`, `Path.resolve` and version parsing compute: any function.
- Universal newline translation on reading a whitelist: it does not change the split lines.
- Download, checksum computation and the self-check of an upgrade: their outcomes are inputs; a version named `prev` or
  like a temporary link is not modelled.
- An unreadable replay-guard file, which resets the guard.
- Last-Event-ID across server processes: event numbers restart with the process.
- CommandStatus.LabelsAgreeExactly: `str.lower` is modelled on ASCII letters.
- CommandServer.Server.ListPending: the order of rows issued at the same instant is left to the database.
- Webhook event and group filters, URL checks, name and filter patches: they do not touch the accounting.
- TOML quoting: a password with a quote character yields a line RustDesk may read differently; only lines are modelled.

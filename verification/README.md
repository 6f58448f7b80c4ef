# Verified model of the monitoring server's core mechanisms

A Dafny model of the parts of the monitoring server, and of its load-test harness, that
promise something over runs, interleavings or unbounded text. Run
`dafny verify dfyconfig.toml` in this directory to check it.

| file | what it models |
|---|---|
| `ArtifactStore.dfy`, `ArtifactSafety.dfy`, `ArtifactHistory.dfy`, `ArtifactPaths.dfy` | the report-artifact store as a protocol over a filesystem that can lose power: writers, sweeper, crashes at every point |
| `WorkerPool.dfy` | the harness's monitor-creating worker pool as interleaved steps |
| `Keyset.dfy`, `Membership.dfy` | cursor walks over a changing table, and the change signal of a filtered view |
| `Dependencies.dfy` | the validation of a monitor's parent, and the graph that accepted writes build |
| `Limiters.dfy` | the login, share and manual-check limiters |
| `DomainCache.dfy` | the custom-domain cache and its interleavings |
| `Scopes.dfy` | scopes and the delegation of API keys |
| `Password.dfy`, `Base64.dfy`, `Texts.dfy` | the encoded argon2id hash: printer and parser |
| `Sse.dfy` | the live stream: writer, harness reader, and the standard's parser |
| `Uuid.dfy` | version 7 identifiers and their dashed form |
| `Wrap.dfy` | greedy wrapping of text |
| `HistoryTiers.dfy` | the choice of a chart's resolution |
| `DeliveryFold.dfy` | the folding of delivery attempts into one record per target |
| `Proxy.dfy` | the forwarded-header scan |

## What is assumed

* Artifact store. A file is an inode; every name has a set of values it may turn out to
  have after power is lost, which an fsync of its directory (and nothing else) narrows; an
  unsynced inode may come back with any content. The entries of directories that
  `MkdirAll` creates are taken to be durable, because `syncDir` syncs the leaf directory
  alone. A rename takes effect or reports an error, not both. Each artifact id is written
  once, and no id is reused. The row is committed strictly less than `window` after the
  file's modification time, or not at all. The sweeper's snapshot of the live rows and
  its cut-off are inputs tied by `before + grace <= now`, which is how
  `internal/report/runner/sweeper.go:187-199` computes them.
* The SQL queries have a set meaning, and one page is one atomic read. Ids are never
  reused. An update may carry any time; theorems that need it to be no earlier than the
  row's say so of the writes (`Timely`, `NeverLowered`).
* Validating a parent and writing it is one atomic step.
* Limiter calls come in order of time.
* argon2, JSON decoding, Go's `net` parsers and the identifier parser of the API are
  parameters: the theorems hold for all of them. Only `Password.HashThenVerify` asks
  something of argon2, a key of the length it was asked for.
* A `char` of the live stream stands for one byte.

## What the code does that its documentation does not say

* `updated_at` is taken when a request begins, for a batch before its first monitor
  (`internal/api/monitor_writes.go:65`, `:583`), and written whatever the row then holds
  (`internal/store/sqlite/monitors.go:602`, `:653`). So an edit can commit late, with a time
  before the row's, and both promises below depend on that.
* `internal/store/sqlite/monitors.go:546-550` says the membership signal moves whenever
  any member's state is written or membership changes. One stamped write to one row moves
  it exactly when it changes the view and is not a late edit of a monitor that stays in the
  view and whose latest time falls by exactly one (`Membership.OneChangeIsSeen`); for every
  filter there is such an edit (`Membership.LateEditGoesUnseen`). Without late edits, a
  client that compares after n stamped writes misses nothing if and only if n is at most one
  (`Membership.SeenExactlyOneByOne`); two can cancel out, as when one monitor goes down at
  the version at which another recovers (`Membership.SumSignalMissesASwap`). With them, only
  n = 0 is safe (`Membership.NeverAlwaysSeen`). Over the unfiltered view and any number of
  writes that create and delete nothing, the signal stands still exactly when the latest
  time fell by the number of stamps (`Membership.UnfilteredSignalExactly`), hence without
  late edits exactly when there was none.
* Writes of tags, of channel assignments and of a deleted tag, channel or group, and a
  group's move into another group (`internal/store/sqlite/taxonomy.go:41`, `:186`, `:324`,
  `:337`, `notifications.go:163`, `:287`) stamp nothing although every listing shows what
  they change or filters by it. Such a write is seen exactly when it lets a monitor into the
  view or out of it (`Membership.UnstampedIsSeen`): a deleted tag by the view of that tag, a
  deleted group by the views of it and of the group it is in, a moved group by the views
  of the group it leaves and of the one it comes into, and channels never
  (`Membership.DropTagIsSeen`, `Membership.RetagIsSeen`, `Membership.DropGroupIsSeen`,
  `Membership.MoveGroupIsSeen`, `Membership.ReassignGoesUnseen`).
* `docs/development/running.md:817` limits chains to ten levels. The walk looks up from the
  new parent only, so moving a monitor that others depend on can make their chains longer:
  accepted writes build chains of any length (`Dependencies.DepthIsUnbounded`). Ten levels
  are kept exactly by the writes that leave room for what lies below
  (`Dependencies.DepthKeptExactly`), such as all but moves, and moves of a monitor on which
  none depends (`Dependencies.TenLevelsHold`).
* A walk can return a row twice: an edit that commits late takes the row's time back below
  the cursor (`Keyset.LateEditReturnsTwice`). A row comes back exactly then
  (`Keyset.ReturnedFromHere`), and never if its time is not taken back (`Keyset.RowOnce`).
* The schema target's maximum and count are sound if every write takes a version above all
  earlier ones, tag writes included (`Membership.MaxSignalIsSound`). Neither program joins
  that query to the product's per-row versions; there it would miss every write to a member
  below the maximum (`Membership.MaxSignalUnderProductWrites`).
* `internal/api/handlers_keys.go:116-118` promises that no key grants more than its creator
  holds, and over all keys, usable or not, the union of grants indeed never grows by what
  keys do. Over the keys that can be used at some instant, now or later, it does in exactly
  one way beyond what such keys grant already: `updateAPIKey` moves a key's expiry past that
  instant without comparing that key's scopes to the caller's
  (`Scopes.OnlyProlongingEscalates`), be the key expired or not (`Scopes.RevivalEscalates`,
  `Scopes.ProlongingEscalates`).
* `internal/api/domains.go:94` says an invalidation takes effect immediately. It does
  unless a load was under way that had already read the table: that load puts the older
  map back, trusted for a whole TTL (`DomainCache.InvalidationTakesEffect`,
  `DomainCache.OvertakingLoadIsTrusted`; `DomainCache.StaleLoadHappens` is such a run). And
  a lookup whose own load fails answers from the map it held, dropped or not: with failed
  loads, every later answer reflects the write exactly when no older map is left to fall
  back on either (`DomainCache.InvalidationTakesEffectFully`).
* The harness's reader stops at a line of a mebibyte, so its byte count is the stream's
  length only below that (`Sse.ReaderRecoversTheMonitorFrames`).
* `clientIP` answers with the address exactly when the address has no colon, so an IPv6
  peer is cut at its first group and can never be a declared proxy
  (`Proxy.PeerIsTheHostExactly`, `Proxy.BracketedPeerIsNeverDeclared`).
* `resolveClient` reads the first line of the forwarded field only. That answers as all its
  lines would unless, behind a declared proxy, an entry of a later line settles the question
  otherwise, or, for an undeclared peer, the first of several lines is empty
  (`Proxy.FirstLineIsEnoughExactly`).
* The key of the delivery fold joins type and target with `|`. Two types can fall together
  exactly when one of them, followed by the separator, begins the other followed by it; none
  of the product's types contains it (`DeliveryFold.CollideExactly`,
  `DeliveryFold.KindsHaveNoBar`).
* `parseUUID` accepts exactly 32 hexadecimal digits of either case among any dashes
  (`Uuid.ParsesExactly`); what it reads is written back unchanged exactly for the lower-case
  form with the four dashes in their places (`Uuid.OwnFormExactly`).
* `findDeepCursor` keeps no cursor at all when everything fits one page
  (`Keyset.DeepCursorIsMidway`).
* A path `Orphans` returns may have been named before, by a row that expired while its file
  was kept by a crash or a failed removal (`ArtifactHistory.FoundAfterExpiry`). It was named
  before exactly when that row is there as a tombstone, and no row names it again
  (`ArtifactHistory.FoundPathsPastAndFuture`).
* When a call fails, `createMonitors` returns and nobody receives any more. The goroutines
  left behind end if at most as many results are outstanding as the channel holds, and
  otherwise a worker stays blocked for ever (`WorkerPool.LeftBehindFinish`,
  `WorkerPool.FailureLeaks`).
* `shareLimiter` is described as a fixed window; it slides, as the login limiter does.

## Model

| member | source | states |
|---|---|---|
| ArtifactSafety.StepInv | internal/artifact/store.go:108-174 | every step of writer, sweeper, clock or crash keeps the protocol's invariant: synced files at final names, committed rows held durably, nothing the sweeper has found still wanted |
| ArtifactSafety.ReachableInv | internal/artifact/store.go:98-174 | the invariant holds in every reachable state when the grace is at least the commit window |
| ArtifactSafety.LiveRowsHaveTheirBytes | internal/artifact/store.go:98-143 | over every interleaving and any number of crashes, a live row names its final path and the file there has exactly the artifact's bytes, with the size and digest recorded |
| ArtifactSafety.NoHalfWrittenFinal | internal/artifact/store.go:117-135 | whatever crashed, a name that exists is a temporary one or a final one with the complete bytes of its own artifact |
| ArtifactSafety.FoundPathsAreNeverNamed | internal/artifact/store.go:271-323 | a path found by a pass, or about to be removed, is named by no live row in that state or any later one |
| ArtifactHistory.FoundPathsPastAndFuture | internal/artifact/store.go:271-323 | a path found on any run was named by a row before if and only if its row is there as a tombstone, and no continuation ever names it again |
| ArtifactHistory.FoundAfterExpiry | internal/report/runner/sweeper.go:130-184 | for every artifact that fits there is a run in which its row commits and expires, power is lost before the removal, and a later pass finds its path |
| ArtifactHistory.NamedMeansRow | internal/report/runner/runner.go:490-530 | a final path was named during a run if and only if its row exists at the end |
| ArtifactSafety.ResidueIsFound | internal/artifact/store.go:281-319 | a pass beside live writers hands over every file of its listing that is still there, unreferenced and not newer than the cut-off |
| ArtifactSafety.PassFindsEveryOrphan | internal/artifact/store.go:281-319 | from its beginning to its end, whatever writers do meanwhile, a pass hands over every file that is there at both, is of no row of the beginning and is not newer than the cut-off |
| ArtifactSafety.ResidueIsReclaimed | internal/report/runner/sweeper.go:187-220 | residue cannot leak for ever: from every reachable state a file no row names, as old as the grace, can be found and removed with nothing else on disk changed |
| ArtifactSafety.ExpiredFileGoes | internal/report/runner/sweeper.go:146-184 | an expired row becomes a tombstone, and its file and no other is then removed |
| ArtifactSafety.FailedWriteCleansUp | internal/artifact/store.go:122-130 | a write that fails before its file is in place takes away its temporary name and nothing else |
| ArtifactSafety.SizeLimitExactly | internal/artifact/store.go:108-112 | some run gives an artifact a file if and only if it is within the size limit, and some run refuses it if and only if it is not |
| ArtifactSafety.FsyncIsNeeded | internal/artifact/store.go:145-163 | before the file is synced a power loss may leave any bytes at all in place of those written |
| ArtifactSafety.DirSyncIsNeeded | internal/artifact/store.go:131-135 | before the directory is synced a power loss may leave no file, synced and renamed though it was |
| ArtifactSafety.ShortGraceDangles | internal/artifact/store.go:48-56 | with a grace shorter than the commit window there is a run that leaves a live row without its file |
| ArtifactSafety.GraceIsACorrectnessRequirement | internal/artifact/store.go:48-56 | for every grace, none included: no run leaves a row without its file if and only if the grace is at least the commit window |
| ArtifactSafety.RemoveInv | internal/artifact/store.go:252-261 | removing a path the sweeper decided on costs no live row and no writer its file, now or after a crash |
| ArtifactSafety.CrashInv | internal/artifact/store.go:145-174 | a crash that leaves each name any value it may have, and unsynced files any content, keeps the invariant; the sweeper then has nothing to remove, and a write not begun can still be made |
| ArtifactSafety.ExpireInv | internal/report/runner/sweeper.go:146-184 | tombstoning a row before its file is removed keeps the invariant |
| ArtifactPaths.RelParts | internal/artifact/store.go:186-188 | final and temporary path are year, month and base name, in one and the same directory, which is the one synced |
| ArtifactPaths.PathsNameTheId | internal/artifact/store.go:186-203 | equal paths, final or temporary, have equal ids, whatever the dates and formats; equal final ones also equal years, months and formats |
| ArtifactPaths.FinalIsNotTmp | internal/artifact/store.go:117-126 | no final path is ever another write's temporary path |
| ArtifactPaths.StoreConf | internal/artifact/store.go:186-203 | the store's own paths meet what the protocol needs of names |
| ArtifactPaths.CommittedArtifactsSurvive | internal/artifact/store.go:98-143 | with the real paths: in every reachable state a live row's relative path leads to exactly the bytes written |
| ArtifactPaths.Orphans | internal/artifact/store.go:281-323 | the walk returns the collected entries, in order |
| ArtifactPaths.CollectedExactly | internal/artifact/store.go:271-319 | a path is returned if and only if an entry for it is a file still present, unreferenced and not newer than the cut-off |
| ArtifactPaths.PassIsTheWalk | internal/artifact/store.go:281-319 | a pass of the protocol, whatever writers do meanwhile, finds exactly what the walk returns on the entries as they were when visited |
| WorkerPool.StepInv | harness/http.go:354-442 | every step of producer, workers, server and collector keeps each element in exactly one place with the reply the server gave for it |
| WorkerPool.StepsAreSafe | harness/http.go:362-442 | nothing is sent on a closed channel, and a worker never reads an element the collector has written |
| WorkerPool.StepsDecrease | harness/http.go:366-442 | every step of every scheduling decreases one measure |
| WorkerPool.NeverStuck | harness/http.go:366-442 | until the collector has returned some step is enabled, or the collector returned early for a failed call |
| WorkerPool.RunsAreBounded | harness/http.go:414-442 | a run of n elements and w workers has at most 6n + w + 3 steps |
| WorkerPool.FinishedMeansAllAdopted | harness/http.go:430-442 | an error-free finished run has adopted for each element the id and time of update the server answered that element with, in exactly one call, changed nothing else, and counted n |
| WorkerPool.LeftBehindFinish | harness/http.go:362-442 | after the collector gave up, under every scheduling, the other goroutines end if and only if at most as many results are outstanding as the channel holds |
| WorkerPool.FailureLeaks | harness/http.go:432-435 | if the first call fails, every way to go on ends with all of them finished if and only if there are at most w + 1 elements |
| WorkerPool.SomeEnd | harness/http.go:366-442 | from every state of the pool some run leads to an end |
| Keyset.DescMembers | harness/sqlite.go:382-383 | the ordering lists exactly the selected rows |
| Keyset.DescDescends | harness/sqlite.go:382-383 | strictly descending in (updated_at, id) |
| Keyset.SchemaSelects | harness/sqlite.go:356-381 | whom the schema target selects, on the fields of a row: the organisation, the first filter that is set, and past the cursor in time or, at one time, in id |
| Keyset.ProductSelects | internal/store/sqlite/monitors.go:101-140 | whom the product selects: all filters, a group with the groups in it, and past the same cursor |
| Keyset.PageIsTheTop | internal/store/sqlite/monitors.go:141-142 | a page has as many of the selected rows as fit, later first and at one time the greater id first, and every other selected row is below all of them |
| Keyset.ListPage | internal/store/sqlite/monitors.go:141-166 | asking for one row more than the page tells whether there is a next cursor, and which |
| Keyset.ReadRows | harness/sqlite.go:391-401 | the row loop counts the rows and keeps the last as the next cursor |
| Keyset.StepInv | harness/sqlite.go:376-401 | reading a page, or any insert, update or delete by others, keeps returned keys above the cursor |
| Keyset.RowOnce | harness/sqlite.go:376-401 | however others change the table, a walk returns no row twice whose time is never taken back |
| Keyset.NoRowTwice | harness/sqlite.go:376-401 | while no update takes a time back, a walk returns no id twice, whatever else changes |
| Keyset.ReturnedFromHere | harness/sqlite.go:376-401 | at any point of a walk that ends, a row nobody touches any more is returned from there on if and only if it matches and lies below the cursor: one returned before comes back exactly when its time was taken back below it |
| Keyset.LateEditReturnsTwice | internal/api/monitor_writes.go:583-587 | a walk, on either target, that returns a row twice because an edit commits late |
| Keyset.UntouchedRowsExactlyOnce | harness/sqlite.go:350-402 | a walk that ended returned every matching row nobody touched, exactly once |
| Keyset.StaticWalkIsTheOrdering | harness/sqlite.go:376-401 | on a table that stands still the pages together are exactly the selected rows, later before earlier and at one time the greater id first |
| Keyset.StaticWalkEnds | harness/sqlite.go:376-401 | on a table that stands still every walk ends, after exactly the least number of pages that holds the rows, and one empty page more for the schema target; what it returned is then the whole ordering |
| Keyset.PagesAhead | internal/store/sqlite/monitors.go:98-101 | that number of pages, bounded from both sides by multiples of the page size |
| Keyset.FindDeepCursor | harness/http.go:476-494 | the loop ends at the last row of the page that reaches the target, or of the last page that carried a cursor |
| Keyset.DeepCursorIsMidway | harness/http.go:471-494 | there is no cursor if and only if the rows fit one page; otherwise from n/2 to n/2 + 99 rows lie at or above it |
| Keyset.MidpointCursor | harness/sqlite.go:69-73 | below the workload's middle monitor lie exactly n/2 rows |
| Membership.MaxSignalIsSound | harness/sqlite.go:404-430 | if every write takes a version above all earlier ones, equal maximum and count mean the identical view |
| Membership.SchemaSignal | harness/sqlite.go:404-430 | what the schema target counts and takes the greatest version of, on the fields of a row: by the tag if it is set, else by the status, else the whole organisation |
| Membership.ProductSignal | internal/store/sqlite/monitors.go:556-590 | what the store counts and sums: all filters, a group with the groups in it, the versions of all it counts, and the latest edit among them |
| Membership.MaxSignalUnderProductWrites | internal/store/sqlite/monitors.go:363-370 | read off the product's per-row versions, maximum and count would move for one write exactly when it changes the members, or stamps the member with the greatest version |
| Membership.OneChangeIsSeen | internal/store/sqlite/monitors.go:546-588 | a creation, result, edit or deletion moves the signal if and only if it changes the view and is not an edit in it that lowers its latest time by exactly one, for every filter |
| Membership.TimelyIsSeen | internal/store/sqlite/monitors.go:546-588 | a stamped change that carries no time before the row's moves the signal if and only if it changes the view |
| Membership.LateEditGoesUnseen | internal/api/monitor_writes.go:583-587 | for every filter, a store reached from nothing and an edit with an earlier time that changes the view and not the signal |
| Membership.UnstampedIsSeen | internal/store/sqlite/taxonomy.go:322-358 | a write of tags, channels or groups moves the signal if and only if it lets some monitor into the view or out of it |
| Membership.DropTagIsSeen | internal/store/sqlite/taxonomy.go:322-334 | a tag's deletion is seen by the view of that tag alone, if it holds a monitor |
| Membership.DropGroupIsSeen | internal/store/sqlite/taxonomy.go:183-195 | a group's deletion is seen exactly by the view of that group, and of the group it is in, that holds a monitor of it |
| Membership.ReassignGoesUnseen | internal/store/sqlite/notifications.go:280-298 | what else a listing shows, such as channels, is never seen to change, though it is what was written |
| Membership.RetagIsSeen | internal/store/sqlite/taxonomy.go:337-355 | a monitor's new tags are seen exactly by the views of a tag it gains or loses that hold it but for that tag |
| Membership.MoveGroupIsSeen | internal/store/sqlite/taxonomy.go:41-54 | a group's move is seen exactly by the views of the group it leaves and of the one it comes into, if some monitor of it matches otherwise |
| Membership.RetagGoesUnseen | internal/api/monitor_writes.go:655-668 | for every filter, a store reached from nothing and a tag write that changes the view and not the signal |
| Membership.SumSignalMissesASwap | internal/store/sqlite/monitors.go:546-550 | a store reached from nothing and two state saves that change the members and leave the signal standing |
| Membership.SeenExactlyOneByOne | internal/store/sqlite/monitors.go:546-550 | for every filter, equal signals before and after n stamped writes, none of them a late edit, always mean equal views if and only if n is at most one |
| Membership.NeverAlwaysSeen | internal/store/sqlite/monitors.go:546-550 | for every filter, with late edits, equal signals before and after n stamped writes always mean equal views only for n = 0 |
| Membership.SumSignalOnFixedMembers | internal/store/sqlite/monitors.go:546-588 | with the same members and no late edit, over any run, the sum signal stands still if and only if no member was stamped |
| Membership.UnfilteredSignalExactly | internal/store/sqlite/monitors.go:543-588 | over any run without creations and deletions, the unfiltered signal stands still if and only if its latest time fell by the number of stamps on its monitors |
| Membership.UnfilteredSignalSeesEveryStamp | internal/store/sqlite/monitors.go:543-588 | and, while no edit comes late, if and only if none was stamped |
| Dependencies.ResolveParent | internal/api/monitors.go:500-542 | a parent is adopted if and only if its chain exists, avoids the monitor and has at most ten members; a refusal names what the walk met; at most ten reads |
| Dependencies.AcceptsExactly | internal/api/monitors.go:516-539 | being accepted, said member by member: there, readable, not the monitor itself, and a root within ten levels |
| Dependencies.MonitorStore.CreateMonitor | internal/api/monitors.go:78-100 | a monitor joins the graph with the validated parent or not at all |
| Dependencies.MonitorStore.PatchParent | internal/api/monitor_writes.go:46-100 | what a PATCH makes of the whole graph: this monitor's parent is the one asked for, none, or what it was |
| Dependencies.MonitorStore.DeleteMonitor | migrations/sqlite/0001_initial.sql:98 | a monitor goes exactly when no other names it as its parent |
| Dependencies.ApplyParentChange | internal/api/monitor_writes.go:348-359 | a body that is neither text nor null is invalid, null or empty clears, anything else is adopted exactly when accepted, a refusal says why and leaves the monitor alone |
| Dependencies.ExplainedIsRefused | internal/api/monitors.go:515-538 | each reason the walk can give rules acceptance out |
| Dependencies.StepKeepsAcyclic | internal/api/monitor_writes.go:342-359 | each accepted create, reparent, clear or delete keeps the graph acyclic |
| Dependencies.EveryGraphIsAForest | internal/api/monitors.go:493-542 | every graph built from nothing by accepted writes is acyclic, and every parent in it exists |
| Dependencies.DepthIsUnbounded | docs/development/running.md:817-819 | "limited to ten levels" does not hold of the graph: for every n, accepted writes build a monitor with n ancestors |
| Dependencies.DepthKeptExactly | internal/api/monitors.go:486-542 | while no monitor has more than ten ancestors, an accepted write keeps it so if and only if it is no move of a monitor with others too far below it for the new parent's depth |
| Dependencies.TenLevelsHold | internal/api/monitors.go:486-542 | runs that move only monitors on which none depends keep every chain within ten levels |
| Dependencies.CycleMeansDescendant | internal/api/monitors.go:522-525 | on a forest a cycle is reported only when the monitor is among the parent's first ten ancestors |
| Limiters.Compact | internal/api/auth.go:276-281 | the in-place filter over the front of its own array leaves exactly the times after the cut-off, in order |
| Limiters.LoginLimiter.Allow | internal/api/auth.go:271-289 | the whole new map and the answer, as the window step |
| Limiters.LoginLimiter.Succeed | internal/api/auth.go:293-297 | the key is forgotten and no other is touched |
| Limiters.ShareLimiter.Allow | internal/api/report_shares.go:99-128 | the whole new map and the answer, as the window step, whichever branch is taken |
| Limiters.LimitersRefineTheWindow | internal/api/auth.go:256-297 | over every run in order of time both limiters answer as one that keeps the full history, and no window holds more admitted calls of a key than the maximum |
| Limiters.WindowBound | internal/api/report_shares.go:82-88 | admission by the window ending now bounds every window, wherever it lies |
| Limiters.CheckLimiter.Allow | internal/api/monitor_writes.go:517-528 | the whole new map, the wait quoted and the answer |
| Limiters.CheckRefinesTheWindow | internal/api/monitor_writes.go:502-528 | remembering the last time is a window of one call, and the wait quoted is exact |
| Limiters.CheckLimiterIsAWindow | internal/api/monitor_writes.go:502-528 | over every run its answers are those of the full history, one check per interval and monitor |
| Limiters.LoginsExactly | internal/api/auth.go:256-297 | over every run an attempt is let through if and only if fewer than five admitted ones of its key, since the last success, are later than fifteen minutes before it |
| Limiters.ReadsExactly | internal/api/report_shares.go:82-128 | over every run a read is let through if and only if fewer than 120 admitted ones of its token are later than a minute before it |
| Limiters.ChecksExactly | internal/api/monitor_writes.go:502-528 | over every run a check is let through if and only if none of its monitor was within ten seconds before it |
| DomainCache.Cache.SlugFor | internal/api/domains.go:65-92 | what a lookup answers from and what the cache then holds, for a fresh, a reloaded and a failed cache |
| DomainCache.Cache.Invalidate | internal/api/domains.go:98-102 | the time of the last load is forgotten, the map kept |
| DomainCache.AnswersAreRecent | internal/api/domains.go:58-92 | in every interleaving an answer not given after a failed load is the table of an instant later than now less the TTL less that load's duration |
| DomainCache.AnswersAreCounted | internal/api/domains.go:65-92 | every hit and every load that ends gives one answer, and only failed loads give one that is set aside |
| DomainCache.NoLoadWhileTrusted | internal/api/domains.go:65-72 | for thirty seconds after a load, without an invalidation, the table is not read again |
| DomainCache.InvalidationTakesEffect | internal/api/domains.go:94-102 | after an invalidation every later answer of a lookup whose load does not fail reflects the write if and only if no load in flight had already read an older table |
| DomainCache.InvalidationTakesEffectFully | internal/api/domains.go:75-102 | counting lookups whose load fails, after an invalidation every later answer reflects the write if and only if besides no older map is held to fall back on |
| DomainCache.OvertakingLoadIsTrusted | internal/api/domains.go:75-81 | a load that overtakes the invalidation is answered from until the TTL is over |
| DomainCache.LookupIsARun | internal/api/domains.go:65-92 | a lookup with nobody else running is a run of the interleaved steps, with the same answer and the same cache after it |
| DomainCache.StaleLoadHappens | internal/api/domains.go:65-102 | the run from a new cache in which a write and its invalidation overtake a load, and for a whole TTL the older table is answered from |
| Scopes.ImpliesExactly | internal/auth/scope.go:84-98 | write implies read of the same resource, and nothing else implies anything else |
| Scopes.ImpliesTransitive | internal/auth/scope.go:89-98 | implication is transitive |
| Scopes.CoversIsInclusion | internal/auth/scope.go:104-122 | covering is exactly inclusion of what is granted, hence a preorder |
| Scopes.KeyStore.CreateAPIKey | internal/api/handlers_keys.go:85-160 | the status, in the order of the checks, and the whole new store |
| Scopes.KeyStore.UpdateAPIKey | internal/api/handlers_keys.go:190-247 | the status, in the order of the checks, and the whole new store |
| Scopes.KeyStore.RevokeAPIKey | internal/api/handlers_keys.go:252-269 | a key not yet revoked is marked and nothing else changes; any other is not found |
| Scopes.CreateExactly | internal/api/handlers_keys.go:85-160 | when a key is created, forbidden or invalid, by what was asked for, what the caller holds and expiry against now; and what the store then is |
| Scopes.UpdateAllowedExactly | internal/api/handlers_keys.go:214-232 | an update goes through if and only if the scopes sent are all defined and held by the caller |
| Scopes.UpdateExactly | internal/api/handlers_keys.go:210-247 | an update changes its key alone, and of it only what was sent |
| Scopes.NewKeysAreUsable | internal/api/handlers_keys.go:125-132 | a key that is new after a step can be used at once |
| Scopes.KeyLives | internal/model/user.go:83-89 | while nobody updates or revokes it a key can be used exactly until it expires, whatever else happens |
| Scopes.RolesNest | internal/auth/scope.go:137-164 | owners and administrators may grant everything, editors all that responders and viewers may, other roles nothing |
| Scopes.RoleGrants | internal/auth/scope.go:137-164 | which resources a viewer, a responder and an editor may read and which they may write |
| Scopes.EditorsHaveNoKeys | internal/auth/scope.go:137-164 | nobody below an administrator may manage keys |
| Scopes.StepDelegates | internal/api/handlers_keys.go:116-124 | whatever a key grants after a step, some key granted before or the step's caller held |
| Scopes.KeysNeverEscalate | internal/api/handlers_keys.go:116-124 | over any chain of steps by keys the union of all grants, of keys usable or not, never grows |
| Scopes.GrantsComeFromUsers | internal/api/handlers_keys.go:214-232 | with users acting, every grant goes back to an earlier key or to the role of a user who acted |
| Scopes.OnlyRevivalEscalates | internal/api/handlers_keys.go:210-235 | at its own instant a step by a usable key enlarges what usable keys grant if and only if it moves an expired, unrevoked key's expiry past now without sending scopes, and that key grants more |
| Scopes.GrantsLater | internal/api/handlers_keys.go:210-235 | a step adds to what keys usable at some instant grant if and only if it prolongs beyond it a key that grants more, or hands on beyond it scopes its caller covers |
| Scopes.OnlyProlongingEscalates | internal/api/handlers_keys.go:210-235 | at any instant from its own on, a step by a usable key enlarges what usable keys grant, beyond what they grant now, if and only if it moves an unrevoked key's expiry past that instant without sending scopes |
| Scopes.ProlongingEscalates | internal/api/handlers_keys.go:210-235 | a store reached from nothing and an update by a weak key that prolongs a stronger one not yet expired |
| Scopes.UsableGrantsComeFrom | internal/model/user.go:83-89 | over any run of authenticated requests, what usable keys grant was granted by usable keys at the start, or by a key revived on the way, or by the role of a user who acted |
| Scopes.UsableKeysNeverEscalate | internal/api/auth.go:114-145 | over any run of requests by usable keys in which none is revived, the union of what usable keys grant never grows |
| Scopes.RevivalEscalates | internal/api/handlers_keys.go:210-235 | a store reached from nothing and the update by a weak key after which usable keys grant what none did |
| Scopes.KeysStayValid | internal/api/handlers_keys.go:104-114 | over every run keys hold only scopes of the specification |
| Scopes.RevokedForever | internal/api/handlers_keys.go:249-269 | no later step brings a revoked key back |
| Password.ParseRoundTrip | internal/auth/password.go:46-90 | parsing an encoded hash recovers exactly version, parameters, salt and digest, for all in range |
| Password.VerifiesUnderItsOwnParameters | internal/auth/password.go:60-97 | a stored hash is checked under the parameters recorded in it |
| Password.HashThenVerify | internal/auth/password.go:46-98 | what was hashed verifies, and another password does exactly when argon2 gives it the same key |
| Password.OtherVersionsAreNamed | internal/auth/password.go:69-75 | a hash of another version is refused by naming it |
| Password.VerifiesExactly | internal/auth/password.go:60-98 | whoever wrote it, a text lets a password in if and only if it is six parts naming the algorithm and this version, with readable parameters, salt and digest, and argon2 under those gives that digest |
| Password.VersionExactly | internal/auth/password.go:69-75 | the version part is accepted exactly when it is the number 19 |
| Password.ParamsExactly | internal/auth/password.go:77-81 | the parameters are read exactly when each follows its own name and is below the width of its variable |
| Password.ScanUintExactly | internal/auth/password.go:77-81 | what is read as a number: white space, digits, and no digit after them |
| Password.NumberOfPrint | internal/auth/password.go:54-57 | decimal printing is undone by reading digits |
| Password.PrintExactly | internal/auth/password.go:54-57 | a number is printed in decimal digits without leading zeros |
| Password.NumberConcat | internal/auth/password.go:69-81 | digits count by their place, the greatest first |
| Base64.RoundTrip | internal/auth/password.go:56-90 | unpadded base64 decodes to every byte string it encoded, in ceil(8n/6) characters without the separator |
| Base64.SextetsReadBack | internal/auth/password.go:83-90 | six-bit groups give the bytes back, whatever the length |
| Base64.SextetsAreTheBits | internal/auth/password.go:56-57 | four characters are the 24 bits of three bytes, most significant first, with zeros where bytes are missing |
| Base64.DigitExactly | internal/auth/password.go:56-57 | the standard alphabet, written and read |
| Base64.DecodesExactly | internal/auth/password.go:83-90 | what is accepted: letters of the alphabet, line breaks aside, and not one more than a multiple of four |
| Base64.DropBreaksExactly | internal/auth/password.go:83-90 | line breaks are skipped, and nothing else is |
| Texts.Split | internal/auth/password.go:64 | the parts are free of the separator and join to the text |
| Texts.SplitJoin | internal/auth/password.go:64 | splitting undoes joining |
| Sse.ReadStream | harness/http.go:753-773 | the loop's three counts are those of the payloads it recognised and of the bytes of its lines |
| Sse.UpdatesExactly | harness/http.go:763-768 | the first count is the number of payloads that parse |
| Sse.ForeignExactly | harness/http.go:769-771 | the second is the number of those for a monitor nobody asked for |
| Sse.LinesExactly | harness/http.go:750-755 | any stream is its lines with their newlines, but for a last one without |
| Sse.ReaderRecoversTheMonitorFrames | harness/http.go:750-773 | from the server's frames the reader recovers exactly the monitor payloads in order, and its byte count is the stream's length if and only if every line fits its buffer |
| Sse.BrowserGetsTheFrames | internal/api/live.go:314-327 | the parser of the WHATWG HTML Standard, section 9.2.6, dispatches exactly the frames, in order, and no keepalive |
| Sse.ReaderAgreesWithTheStandard | internal/api/live.go:176-180 | on these streams the harness's reader and the standard's parser see the same monitor payloads |
| Sse.InterpretExactly | internal/api/live.go:176-180 | how the WHATWG HTML Standard, section 9.2.6, reads a comment, a field and a field it does not know |
| Sse.StreamIsItsLines | internal/api/live.go:321-327 | the frames break into exactly their own lines |
| Uuid.UuidRoundTrip | harness/http.go:1068-1091 | the dashed form reads back to the sixteen bytes |
| Uuid.ParsesExactly | harness/http.go:1084-1091 | the parser accepts a text if and only if, dashes dropped, it is 32 hexadecimal digits |
| Uuid.OwnFormExactly | harness/http.go:1068-1091 | a text is the dashed form of what it reads as if and only if it is lower case with dashes at 8, 13, 18 and 23 |
| Uuid.HexEncodeExactly | harness/http.go:1068-1079 | each byte is two digits, its high half first |
| Uuid.NibbleExactly | harness/http.go:1084-1091 | a digit of either case is read as its value |
| Uuid.UuidV7 | harness/workload.go:179-192 | the array filled and masked in place is the version 7 identifier |
| Uuid.V7Fields | harness/workload.go:179-192 | version 7, RFC variant, the timestamp modulo 2^48 back, and every other bit random (RFC 9562, section 5.7) |
| Uuid.V7Order | harness/workload.go:176-192 | an earlier millisecond sorts first bytewise, whatever the random bits |
| Uuid.MasksAreArithmetic | harness/workload.go:189-190 | the bit masks are the arithmetic the model uses, for every byte |
| Uuid.BytesLessIsNumericLess | harness/workload.go:176-178 | bytewise order is the order of the big-endian numbers |
| Wrap.Wrap | internal/app/importcmd.go:224-244 | the loop produces the lines of the greedy division |
| Wrap.WrapKeepsWordsAndWidth | internal/app/importcmd.go:222-244 | no word is lost, added or moved, and every line fits or is one word |
| Wrap.GreedyIsShortest | internal/app/importcmd.go:230-239 | no other division into runs that fit or are one word has fewer runs |
| Wrap.WrapIsOptimal | internal/app/importcmd.go:222-244 | no layout of the same words in the same order has fewer lines |
| Wrap.RuneLenIsUtf8 | internal/app/importcmd.go:231 | the length counted is that of the bytes of UTF-8, section 3 of RFC 3629, which no shorter form could replace |
| Wrap.IsSpaceExactly | internal/app/importcmd.go:230 | words are separated by exactly the white space of Unicode |
| HistoryTiers.AutoHistoryTier | internal/api/history.go:254-269 | the coarsest tier with 120 to 2000 buckets; failing that the finest with at most 2000; failing that the coarsest |
| HistoryTiers.AutoChoiceUnique | internal/api/history.go:251-269 | that description picks one tier |
| HistoryTiers.AutoChoiceMeans | internal/api/history.go:251-269 | it is the last tier with 120 to 2000 buckets, else the first with at most 2000, else the last |
| HistoryTiers.AutoTable | internal/api/history.go:28-50 | with the product's tiers: minutes below ten hours, five minutes below five days, hours below 2001 hours, then days |
| HistoryTiers.AutoIsMonotone | internal/api/history.go:251-269 | a longer span never gets a finer tier |
| HistoryTiers.ResolveHistoryTier | internal/api/history.go:214-249 | auto, raw, a named tier or an unknown name: which tier is answered |
| HistoryTiers.FirstFitMeans | internal/api/history.go:243-248 | of the tiers no finer than the one asked for, the first with at most 2000 buckets, else the last |
| HistoryTiers.ChartTier | internal/api/history.go:214-303 | whatever is asked for over a range that is let through, raw included, is answered with at most 3650 buckets, and with more than 2000 only in days |
| HistoryTiers.NeverFiner | internal/api/history.go:243-248 | the tier answered is never finer than the tier asked for |
| HistoryTiers.RawNeverFiner | internal/api/history.go:222-229 | raw falls back to nothing finer than the monitor's interval, if that is at most the coarsest tier's |
| HistoryTiers.AnswersAreBounded | internal/api/history.go:295-303 | within ten years no tier answers with more than 3650 buckets, and with more than 2000 only days do |
| DeliveryFold.FoldDeliveries | internal/api/dto.go:1713-1737 | one record per key in order of first appearance, each the summary of that key's rows |
| DeliveryFold.RecordOfRows | internal/api/dto.go:1718-1735 | a record on the fields of its rows: type of the first, outcome, error and time of the last, an empty error none, and the greatest number of attempts |
| DeliveryFold.RowInGroup | internal/api/dto.go:1718-1726 | a row lies in the group of its own key |
| DeliveryFold.KeysDistinct | internal/api/dto.go:1716-1728 | no two records have one key |
| DeliveryFold.FirstRow | internal/api/dto.go:1728-1735 | records come in the order of their first rows |
| DeliveryFold.EveryRowOnce | internal/api/dto.go:1717-1736 | the records' groups together hold as many rows as the store: with distinct keys and each row in the group of its own key, every row is in exactly one record |
| DeliveryFold.MaxNumberIsMax | internal/api/dto.go:1721 | the attempts are the greatest of the group, and one of them |
| DeliveryFold.KeyIsThePair | internal/api/dto.go:1718 | equal keys are equal type and target, for types without the separator |
| DeliveryFold.CollideExactly | internal/api/dto.go:1718 | different targets of two types can share a key if and only if the types differ and one, followed by the separator, begins the other followed by it |
| Proxy.IsDeclared | internal/api/proxy.go:66-80 | whether some declared block contains the parsed address |
| Proxy.ResolveClient | internal/api/proxy.go:106-144 | on the first of the field's lines: an undeclared peer answers for itself, known if nothing was forwarded; behind a declared one the last entry that is not a declared proxy answers, the peer if there is none |
| Proxy.KnownExactly | internal/api/proxy.go:110-138 | when a client is known, and that it is then an address which is no declared proxy, or the peer; an unknown one is given as the peer |
| Proxy.DecisiveExactly | internal/api/proxy.go:119-133 | an entry is passed over if and only if it is all white space or names an address in a declared block |
| Proxy.AddressForms | internal/api/proxy.go:125-128 | the forms an entry may have: with port or without, in brackets or not |
| Proxy.TrimSpaceExactly | internal/api/proxy.go:119 | trimming takes off all white space at both ends and nothing else |
| Proxy.TrimBracketsExactly | internal/api/proxy.go:128 | and so for brackets |
| Proxy.SpaceIsIgnored | internal/api/proxy.go:117-128 | behind a declared proxy white space round the entries does not change the answer |
| Proxy.LastDecisiveUnique | internal/api/proxy.go:117-138 | there is one such entry at most |
| Proxy.LeftOfTheChainIsIgnored | internal/api/proxy.go:90-94 | nothing prepended to the left of the deciding entry changes the answer |
| Proxy.FirstLineIsEnoughExactly | internal/api/proxy.go:106-138 | the first line answers as all lines joined would if and only if no later line settles the question otherwise behind a declared proxy, and the first is not empty for an undeclared peer |
| Proxy.OneAnswer | internal/api/proxy.go:106-144 | a text of the field has exactly one answer |
| Proxy.PeerIsTheHostExactly | internal/api/auth.go:303-309 | the peer of an address and port is the address if and only if the address has no colon |
| Proxy.BracketedPeerIsNeverDeclared | internal/api/auth.go:303-309 | a bracketed peer is cut at its first group, and so is never a declared proxy |

## Left out

- Keyset.UntouchedRowsExactlyOnce: claims nothing for a row somebody touched during the walk; such a row can be missed, returned with an older time, or, after a late edit, returned twice; `Keyset.ReturnedFromHere` says what happens from the last touch on.
- Membership.MaxSignalIsSound: needs versions that grow over the whole table; the product's writes give each row its own count, for which the other lemmas say what is left.
- Membership.OneChangeIsSeen: one write stamps one row; a maintenance sweep stamps many at once and counts as so many writes. What a listing shows of uptime and of recent heartbeats is not part of a row.
- Dependencies.EveryGraphIsAForest: no races between two reparenting requests.
- DomainCache.AnswersAreRecent: an answer given after a failed load is from whatever map the lookup held, of any age.
- Password.HashThenVerify: argon2 is any function; its panics for zero time or threads, and the constant time of the comparison, are not modelled.
- Sse.ReaderRecoversTheMonitorFrames: frames hold no line breaks, which the writer owes to JSON encoding; the window's end cutting a stream short is not modelled.
- Limiters.LimitersRefineTheWindow: calls in order of time; the size of the share limiter's map is not bounded, whatever its comment suggests, because only the current key is ever dropped.
- ArtifactPaths.StoreConf: dates are texts without slashes; `path.Clean`, the path resolution behind `Open` and `Exists`, and humanised sizes are not modelled.
- Wrap.Wrap: widths are in bytes, as in the code; text that is not valid UTF-8 is not modelled.
- Scopes.KeyStore.CreateAPIKey: key names, the minting of the secret, a request without a principal and failures of the store are not modelled; authentication and the write are one step.
- Retention dates and the batching of expirable rows: an expiry may happen at any time.
- The type, enabled and search filters of the product's listing, several values for one filter, and the encoding of cursors: each adds a conjunct or a printer and nothing new.
- Writing a monitor's other fields, validation of lengths, colours and the nesting of groups, settings, and all conversions to JSON: settled by reading one branch each.
- `normaliseHost`, parsing of proxy declarations and every HTTP concern (routing, cookies, CSRF, TLS detection, logging).
- The harness's timings, thresholds and reports, and the web frontend.

# NexusBox in Dafny

A model of the state machines and algorithms inside NexusBox whose correctness is not plain from
reading one function, with proofs about all inputs, all runs and all interleavings. One module per
component:

- **Snapshot** — the filesystem backend over names, inodes and bytes: `Create` copies, `Restore`
  hard-links or truncates and overwrites.
- **Paths**, **Resolvers** — Unix `Clean`, `Join` and `Rel` as a stack reduction over components, and
  the three functions that confine a caller's path to a workspace.
- **ImagePull** — deduplicated pulls as a protocol of critical sections of pullers, waiters and removers.
- **RateLimiter** — per-tenant token buckets, with time as an argument.
- **Isolation** — network grants and dedicated nodes of tenants.
- **SandboxCache**, **Scheduler** — the scheduler's cache with assumed bindings, and the scheduling cycle.
- **Buffers** — the ring that keeps the last bytes and the writer that keeps the first.
- **DevPorts** — ports and indexes of the dev-tool manager, with starts, stops and process exits interleaved.
- **TenantUsage**, **Gpu**, **EventLog** — usage counters with clamps, GPU devices, and the bounded event list.

Most modules have two layers. Pure functions say what one operation does to the state (`Step`, `Next`,
`Restored`, …), and lemmas prove what every run of them keeps. Classes with mutable fields carry out the
operations the way the Go code does, with the same branches and loops, and each method is proved to do
exactly what its function says. Clocks, I/O results, plugin answers, quantity parsing, the port probe and
other managers' verdicts are parameters that may take any value.

## What the code does not do

Where a property one would expect fails, the code is modelled as it is, the failing case is shown, and
the exact condition is proved.

- The comment above the filesystem backend says that hard links into the target are safe. A write through
  a linked file changes the snapshot (`Snapshot.WriteAfterRestore` says exactly when), and restoring twice
  onto linked files empties every one of them (`Snapshot.RestoreTwice`), because the copy truncates the inode it is about to
  read. `Snapshot.RestoreExact` gives the condition under which a restore is an overlay.
- The gateway's guard refuses names inside the workspace that start with two dots; the MCP server accepts
  those, and also siblings whose name extends the workspace's name (`Resolvers.McpDiffersExactly`,
  `Resolvers.DottedNameExample`, `Resolvers.SiblingExample`).
- Workspace identifiers are not checked. One with a separator in it can lie inside another workspace
  (`Resolvers.NestedIdsMeet`); `Resolvers.WorkspacesMeetExactly` says which two can meet.
- Registering a tenant again does not take back what an earlier registration granted
  (`Isolation.RulesAreGrants`), and empties the dedicated list of a Maximum-isolation tenant, whose nodes
  then stay unusable until released (`Isolation.ReregisteringStrandsNodes`).
- An update that leaves a sandbox on its node raises the node's count (`SandboxCache.CacheAgreement`).
- The scheduler lists the nodes twice. If the second list is empty the reservation is never taken back
  (`Scheduler.CycleBalance`, `Scheduler.LostListKeepsReservation`). Every binding is counted as two successes (`Scheduler.RunMetrics`).
- With a burst below one or a limit that is not positive, waiting after a refusal never helps: every later
  poll is refused, so `Wait` does not return (`RateLimiter.WaitingHelps`, `RateLimiter.WaitNeverReturns`).
- The exit watcher and a later `Stop` release the same port twice, after which two holders can share it
  (`DevPorts.SharedPort`).
- The concurrency limit of a tenant can be exceeded in two ways, and only in these
  (`TenantUsage.LimitAlongRun`): a sandbox is checked when it is created and counted when it is scheduled, so
  two checks can pass before either counts (`TenantUsage.CheckedTwice`), and an update of the tenant can lower
  the limit below what is active (`TenantUsage.LoweredLimit`).
- A quantity that parses to a negative amount is accepted and makes usage negative
  (`TenantUsage.NegativeAmount`, `TenantUsage.ResourcesAlongRun`).
- Event handlers are given the last event of the list, which is not the one just recorded when an older
  event recurs (`EventLog.HandlersSeeRecorded`).
- A negative GPU count passes the length test and fails as a slice bound (`Gpu.RequestExact`).

## Model

| member | source | states |
|---|---|---|
| Paths.Confluence | pkg/workspace/manager.go:233-252 | reducing a relative component list first and its result afterwards does to any directory what reducing the list directly does; this is why cleaning before joining is harmless |
| Paths.CleanFaithful | pkg/gateway/security.go:71-106 | cleaning is idempotent and changes neither rootedness nor the place a path denotes |
| Paths.JoinClean | pkg/workspace/manager.go:237-245 | joining a cleaned relative path below an absolute root gives the same path as joining the raw one |
| Paths.RelStartsDotDot | pkg/gateway/security.go:95-104 | the prefix test on the relative path is true exactly when the target is not below the base by components, or the first name below it starts with two dots |
| Paths.RenderComps | pkg/gateway/security.go:71-77 | a path written from normal components denotes exactly those components: writing and parsing are inverse |
| Paths.SplitGlue | pkg/gateway/security.go:82-106 | gluing separator-free components and splitting again gives them back |
| Paths.ClimbCancels | pkg/gateway/security.go:82-106 | as strings: two dots take back the name before them, wherever in a path |
| Paths.RootAbsorbs | pkg/gateway/security.go:82-106 | as strings: two dots at the root stay at the root |
| Paths.DotsAndSeparatorsDropped | pkg/gateway/security.go:82-106 | as strings: a single dot and doubled or trailing separators mean nothing |
| Paths.LeadingDropped | pkg/gateway/security.go:82-106 | the same at the start of a relative path |
| Paths.JoinEmptyNeutral | pkg/gateway/security.go:82-106 | joining an empty string on either side adds nothing |
| Paths.JoinUndoesRel | pkg/gateway/security.go:95-104 | joining the relative path to its base gives the cleaned target: Rel and Join are inverse |
| Resolvers.NewPathGuard | pkg/gateway/security.go:71-77 | a guard's workspace is absolute and clean whatever string it was made from |
| Resolvers.GuardedPlace | pkg/gateway/security.go:71-77 | the guard's workspace is the place the string names, from the working directory if it is relative |
| Resolvers.ResolveAccepts | pkg/gateway/security.go:82-106 | acceptance, both ways: the workspace is a component-wise prefix of the cleaned candidate and the first remaining name does not start with two dots |
| Resolvers.ParentRefused | pkg/gateway/security.go:82-106 | going up once and down into a name is refused by the guard and the workspace, unless the name leads back to the root itself |
| Resolvers.ResolveStable | pkg/gateway/security.go:82-106 | an accepted path is clean, inside the workspace, and resolves to itself |
| Resolvers.GuardAgreesWithWorkspace | pkg/workspace/manager.go:233-252 | on every relative input the gateway's guard and the workspace accept the same inputs with the same result |
| Resolvers.BelowComps | pkg/workspace/manager.go:233-281 | the exact acceptance of the workspace's resolvers and the components they answer |
| Resolvers.AbsoluteIsRerooted | pkg/workspace/manager.go:239-243 | an absolute input lands at its own components below the base, and is refused exactly when its first name starts with two dots |
| Resolvers.McpAccepts | pkg/mcp/file_server.go:143-170 | the exact acceptance of the string-prefix test in components: the last workspace name only has to begin the target's name |
| Resolvers.GuardImpliesMcp | pkg/mcp/file_server.go:143-170 | whatever the gateway's guard accepts the MCP server accepts with the same result |
| Resolvers.McpDiffersExactly | pkg/mcp/file_server.go:143-170 | the two differ exactly on first names starting with two dots and on siblings whose name extends the workspace's |
| Resolvers.SiblingExample | pkg/mcp/file_server.go:143-170 | for workspace /ws the MCP server answers for /ws2, the gateway does not |
| Resolvers.DottedNameExample | pkg/gateway/security.go:95-104 | for workspace /ws the gateway refuses the file ..a inside it, the MCP server does not |
| Resolvers.WorkspacesMeetExactly | pkg/workspace/manager.go:134-252 | for any identifiers: two workspaces under one base resolve some inputs to a common path exactly when one root is the other or visibly below it |
| Resolvers.NestedIdsMeet | pkg/workspace/manager.go:134-146 | a workspace whose identifier is another's followed by a further name does meet it |
| Resolvers.WorkspacesDisjoint | pkg/workspace/manager.go:134-252 | two workspaces with different one-component identifiers under one base never resolve to a common path, whatever the inputs |
| Snapshot.RestoreExact | pkg/snapshot/manager.go:395-442 | a completed restore is an exact overlay (snapshot paths hold the snapshot's bytes, all other names and the snapshot keep theirs) if and only if the overwritten inodes are compatible, whichever files were linked or copied |
| Snapshot.RestoreOverUnshared | pkg/snapshot/manager.go:395-442 | in particular over target files that share no inode with any other name |
| Snapshot.RestoreCompletes | pkg/snapshot/manager.go:405-425 | a restore completes exactly when every file can be opened, or is linkable and absent from the target |
| Snapshot.RestoreStopsAt | pkg/snapshot/manager.go:405-425 | otherwise exactly the files before the first one that cannot be put in place have been restored |
| Snapshot.RestoreTwice | pkg/snapshot/manager.go:395-442 | a second restore onto linked files succeeds and is an overlay if and only if every snapshot file is empty |
| Snapshot.RestoreAfterCreate | pkg/snapshot/manager.go:350-426 | restoring a fresh snapshot into an empty target reproduces exactly the source's paths and bytes |
| Snapshot.CreateCopies | pkg/snapshot/manager.go:350-393 | a completed create has the source's relative paths and bytes on new inodes that nothing else names, and changes no other name |
| Snapshot.CreateCompletes | pkg/snapshot/manager.go:357-382 | a create completes exactly when every file of the source can be opened |
| Snapshot.CreateStopsAt | pkg/snapshot/manager.go:357-382 | otherwise exactly the files before the first one that cannot be opened have been copied |
| Snapshot.SizeIsSnapshotBytes | pkg/snapshot/manager.go:356-378 | the size reported is the number of bytes of the snapshot's files put together |
| Snapshot.EditsOutside | pkg/snapshot/manager.go:339-345 | no sequence of writes, removals, renames and links outside an isolated root changes a file, inode or byte of it |
| Snapshot.SnapshotIndependent | pkg/snapshot/manager.go:339-345 | nothing done outside a snapshot after its creation changes a byte of it |
| Snapshot.WriteAfterRestore | pkg/snapshot/manager.go:343-345 | after a restore into any target, a write through a restored file changes a snapshot file exactly when the two were one inode before or the restore linked them, and the bytes differ |
| Snapshot.WriteThroughLink | pkg/snapshot/manager.go:343-345 | into an empty target, the snapshot keeps the bytes it was made with exactly when the file was not linked or the same bytes are written |
| Snapshot.FileSystem.Create | pkg/snapshot/manager.go:350-393 | the walk stops at the first failing copy; a completed one leaves the specified disk and reports the sum of the source's file sizes |
| Snapshot.FileSystem.Restore | pkg/snapshot/manager.go:395-426 | the walk, link or else truncate-and-copy, stopping at the first failure, leaves exactly the specified disk |
| Snapshot.FileSystem.CopyFile | pkg/snapshot/manager.go:429-442 | opening truncates before anything is read, so copying an inode onto itself empties it |
| ImagePull.SingleFlight | pkg/image/manager.go:48-96 | over every interleaving nothing is both cached and in progress, and a reference is in progress exactly when one call, and only one, is pulling it |
| ImagePull.WaitersFollowTheirPuller | pkg/image/manager.go:56-66 | every waiter returns the error its puller returned, and a waiter still blocked has its puller still pulling |
| ImagePull.NilMeansCached | pkg/image/manager.go:48-96 | a nil return means the reference was cached at some point of the call |
| ImagePull.PullBalance | pkg/image/manager.go:48-152 | successful pulls minus removals and prunings that hit is one for a cached reference and zero otherwise |
| ImagePull.CacheIsLastUse | pkg/image/manager.go:48-152 | in every reachable state the cache holds exactly the references pulled and not removed since, with the times of the latest pull and use; a pruning removes one exactly when its latest use is older than the age and the runtime can delete it |
| ImagePull.Reachable | pkg/image/manager.go:48-152 | every reachable state keeps the protocol's invariant: one puller per task, finished tasks exactly those not in progress, results as recorded |
| ImagePull.ImageManager.BeginPull | pkg/image/manager.go:48-72 | the first critical section: a cache hit, the task to wait for, or a new task, and the new tables |
| ImagePull.ImageManager.EndPull | pkg/image/manager.go:78-95 | the last critical section: caches on success only, ends the progress, publishes the error to the waiters |
| ImagePull.ImageManager.GetImage | pkg/image/manager.go:99-107 | found exactly when cached, and then the last use is now |
| ImagePull.ImageManager.RemoveImage | pkg/image/manager.go:121-131 | removes from the cache only if the runtime deleted the image |
| ImagePull.ImageManager.PruneImages | pkg/image/manager.go:134-152 | removes exactly the deletable images unused for longer than the age and counts them |
| RateLimiter.WindowBound | pkg/tenant/rate_limiter.go:67-184 | over any stretch of a run with k registrations of the same configuration at most (k+1) bursts plus limit/60 times the seconds are admitted, whatever other calls come between |
| RateLimiter.CreationWindow | pkg/tenant/rate_limiter.go:67-184 | the bound for CreateSandbox in terms of the registered creation burst and limit, from a registration on |
| RateLimiter.CreateDrawsOnCreate | pkg/tenant/rate_limiter.go:128-148 | creating sandboxes and every operation but APICall is decided by and takes from the creation bucket and leaves the other alone |
| RateLimiter.ApiDrawsOnApi | pkg/tenant/rate_limiter.go:128-148 | APICall is decided by and takes from the API bucket, is unlimited without one, and leaves the creation bucket alone |
| RateLimiter.UnknownUnlimited | pkg/tenant/rate_limiter.go:102-127 | a tenant that was unregistered or never registered is not limited |
| RateLimiter.FreshBurst | pkg/tenant/rate_limiter.go:67-184 | a registration lets through exactly a burst of creations made at once, and no more |
| RateLimiter.FreshApi | pkg/tenant/rate_limiter.go:82-95 | an API bucket exists exactly for a positive limit, is full, and its burst is the limit unless a positive one is given |
| RateLimiter.RemainingPredicts | pkg/tenant/rate_limiter.go:208-233 | a call is let through exactly when the remaining tokens read at that moment are at least one |
| RateLimiter.RegisterGivesBucket | pkg/tenant/rate_limiter.go:67-99 | a registration gives the bucket the window bound starts from |
| RateLimiter.TokensWithinBurst | pkg/tenant/rate_limiter.go:162-184 | in every reachable state every bucket holds between zero and its burst |
| RateLimiter.AlwaysInUse | pkg/tenant/rate_limiter.go:67-184 | the same for any configurations: no bucket is ever overfull, and none with a nonnegative burst and limit is in debt |
| RateLimiter.TenantsIndependent | pkg/tenant/rate_limiter.go:118-149 | no run of calls for other tenants changes a tenant's buckets |
| RateLimiter.RefillTwice | pkg/tenant/rate_limiter.go:173-184 | refilling in two steps gives the tokens one refill gives, in spite of the cap |
| RateLimiter.ObserversDoNotMatter | pkg/tenant/rate_limiter.go:118-233 | erasing any readings of the remaining tokens and any refused requests from a run changes no other answer |
| RateLimiter.ErasingObservers | pkg/tenant/rate_limiter.go:118-233 | the same for runs from the empty limiter |
| RateLimiter.AdmittedAfter | pkg/tenant/rate_limiter.go:152-184 | when exactly a sole caller refused now is admitted a given time later |
| RateLimiter.WaitingHelps | pkg/tenant/rate_limiter.go:152-184 | some wait is long enough if and only if the burst is at least one and the limit positive, and then 60/limit seconds are |
| RateLimiter.WaitNeverReturns | pkg/tenant/rate_limiter.go:152-159 | after a refusal every sequence of later polls is refused throughout if and only if the burst is below one or the limit not positive |
| RateLimiter.TokenBucket.Refill | pkg/tenant/rate_limiter.go:173-184 | the bucket object follows the specified refill, and ignores a clock that did not advance |
| RateLimiter.TokenBucket.Consume | pkg/tenant/rate_limiter.go:162-170 | takes a token exactly when a whole one is there after the refill |
| RateLimiter.RateLimiter.RegisterTenant | pkg/tenant/rate_limiter.go:67-99 | new bucket objects of its own for one tenant, all other tenants untouched |
| RateLimiter.RateLimiter.UnregisterTenant | pkg/tenant/rate_limiter.go:102-106 | the tenant's buckets go, all others stay |
| RateLimiter.RateLimiter.Allow | pkg/tenant/rate_limiter.go:118-149 | the verdict and new state of the specification, with separate bucket objects per tenant and operation |
| RateLimiter.RateLimiter.GetRemainingTokens | pkg/tenant/rate_limiter.go:208-233 | the refilled token count, or -1 where nothing limits the operation |
| RateLimiter.RateLimiter.Wait | pkg/tenant/rate_limiter.go:152-159 | polling ends for a sole caller, at once if nothing limits it, otherwise within one refill interval and one poll |
| Isolation.RulesAreGrants | pkg/tenant/isolation.go:301-349 | in every reachable state the rule f to t exists exactly when some registration granted it and neither was unregistered since |
| Isolation.TrafficIsGranted | pkg/tenant/isolation.go:173-200 | traffic is allowed exactly within a tenant, where such a grant exists, or where the sender's current policy is open |
| Isolation.PolicyIsCurrentSpec | pkg/tenant/isolation.go:93-138 | the stored policy is that of the last registration, if no unregistration followed |
| Isolation.AlwaysPlaced | pkg/tenant/isolation.go:203-266 | in every reachable state the two node indexes are mutually inverse without duplicates and each policy's list is a suffix of its tenant's nodes |
| Isolation.MaximumIsExclusive | pkg/tenant/isolation.go:371-407 | where a Maximum-isolation tenant is valid, another tenant is valid exactly when it has no registered policy |
| Isolation.DedicatedHistory | pkg/tenant/isolation.go:203-266 | a policy lists a node exactly when it was assigned since the tenant's last registration and not released |
| Isolation.MaximumValidExactly | pkg/tenant/isolation.go:371-407 | a Maximum-isolation tenant is valid on a node exactly when the node was assigned to it since its last registration and not released |
| Isolation.OwnerHistory | pkg/tenant/isolation.go:203-266 | a tenant owns a node exactly when it was given the free node and neither released it nor was unregistered since |
| Isolation.ValidExactly | pkg/tenant/isolation.go:371-407 | placement by history alone: without a policy anywhere, at Maximum only on nodes dedicated since the last registration, otherwise wherever no other tenant owns the node |
| Isolation.ReregisteringStrandsNodes | pkg/tenant/isolation.go:93-228 | after a second registration at Maximum an owned node is invalid, assigning it changes nothing, releasing and assigning repairs it |
| Isolation.NetworkIsolationManager.RegisterTenantNetwork | pkg/tenant/isolation.go:301-332 | the loop over ingress writes exactly the specified rules |
| Isolation.NetworkIsolationManager.UnregisterTenantNetwork | pkg/tenant/isolation.go:335-349 | the tenant disappears from both ends of the table and emptied entries go |
| Isolation.NodeIsolationManager.UnregisterTenantNodes | pkg/tenant/isolation.go:354-367 | exactly the nodes in the tenant's list lose their owner |
| Isolation.RemoveLoop | pkg/tenant/isolation.go:244-259 | the removal loop drops the first occurrence and keeps the order of the rest |
| Isolation.IsolationEnforcer.RegisterIsolationPolicy | pkg/tenant/isolation.go:93-128 | the whole new state: a policy with an empty dedicated list, and the rules |
| Isolation.IsolationEnforcer.UnregisterIsolationPolicy | pkg/tenant/isolation.go:131-138 | the whole new state: policy, rules of both ends and nodes are gone |
| Isolation.IsolationEnforcer.AssignDedicatedNode | pkg/tenant/isolation.go:203-228 | succeeds exactly on a free or own node, and writes all three indexes only on a free one |
| Isolation.IsolationEnforcer.ReleaseDedicatedNode | pkg/tenant/isolation.go:231-266 | succeeds exactly on an own node, and removes it from all three indexes |
| Isolation.IsolationEnforcer.IsNetworkCommunicationAllowed | pkg/tenant/isolation.go:173-200 | the verdict of the specification on the current state |
| Isolation.IsolationEnforcer.ValidateSandboxPlacement | pkg/tenant/isolation.go:371-407 | the verdict of the specification on the current state |
| SandboxCache.AgreementExact | pkg/cache/cache.go:130-387 | from an index that agrees with the sandboxes, a call keeps agreement if and only if a condition checkable before the call holds |
| SandboxCache.CacheAgreement | pkg/cache/cache.go:130-387 | along every disciplined run each node holds exactly the sandboxes whose state names it, and its count is their number plus the updates that stayed on it |
| SandboxCache.AssumeForgetRestores | pkg/cache/cache.go:252-343 | assuming and forgetting restores the cache if and only if the sandbox was unbound before |
| SandboxCache.CachedIsLatest | pkg/cache/cache.go:130-343 | in every run a key is cached exactly when it was added and not deleted since, with the sandbox of the latest addition or update |
| SandboxCache.AssumedIsHistory | pkg/cache/cache.go:252-343 | the assumptions on record are exactly those made and not confirmed, forgotten or deleted since |
| SandboxCache.BindingIsHistory | pkg/cache/cache.go:130-343 | a cached sandbox is bound, and flagged as assumed, as the latest successful call for it left it |
| SandboxCache.NodesAreHistory | pkg/cache/cache.go:346-387 | the nodes are those added and not removed since |
| SandboxCache.NodeHoldsLatest | pkg/cache/cache.go:130-343 | along every disciplined run a node holds for each sandbox on it the object last given |
| SandboxCache.KeysIdentify | pkg/cache/cache.go:528-530 | a key is the namespace, a separator and the name, and identifies both where namespaces have no separator |
| SandboxCache.AlwaysFlagged | pkg/cache/cache.go:252-343 | in every run a sandbox flagged as assumed has an assumption on record |
| SandboxCache.Cache.AddSandbox | pkg/cache/cache.go:130-169 | fails on a known key without effect, otherwise both sandbox maps hold one new object and the node, if known, takes it |
| SandboxCache.Cache.UpdateSandbox | pkg/cache/cache.go:172-209 | moves the sandbox between nodes in place; on the same node it is inserted and counted again |
| SandboxCache.Cache.DeleteSandbox | pkg/cache/cache.go:212-246 | removes state, assumption and node entry, keeping both sandbox maps equal |
| SandboxCache.Cache.AssumeSandbox | pkg/cache/cache.go:252-288 | refuses a second assumption; rebinds a cached state in place and inserts on the node |
| SandboxCache.Cache.ConfirmAssumeSandbox | pkg/cache/cache.go:291-309 | ends the assumption and keeps the binding |
| SandboxCache.Cache.ForgetSandbox | pkg/cache/cache.go:312-343 | takes the assumed node's entry and the binding back |
| SandboxCache.Cache.RegisterNode | pkg/cache/cache.go:346-363 | an empty node, replacing one of that name |
| SandboxCache.Cache.UnregisterNode | pkg/cache/cache.go:380-387 | the node goes and the sandboxes keep naming it |
| SandboxCache.Cache.Snapshot | pkg/cache/cache.go:429-466 | equal contents in new objects, which later calls on the cache cannot reach |
| Scheduler.CycleBalance | pkg/scheduler/scheduler.go:119-336 | for all plugin outcomes a cycle leaves a reservation if and only if the node list vanished between its two readings, and then one on the chosen node |
| Scheduler.LostListKeepsReservation | pkg/scheduler/scheduler.go:119-235 | if only the second reading of the list fails, the node stays reserved although nothing was bound |
| Scheduler.StableListBalances | pkg/scheduler/scheduler.go:119-336 | with a stable list the zero-nodes branch is unreachable and every reservation is bound or taken back on its node |
| Scheduler.BindAfterReserveAndPermit | pkg/scheduler/scheduler.go:119-315 | every bind was preceded by a successful reserve and then permit of the same node |
| Scheduler.ExactlyOneOutcome | pkg/scheduler/scheduler.go:119-336 | every popped sandbox is exactly one of bound, re-queued or recorded unschedulable, and which |
| Scheduler.PlacedExactly | pkg/scheduler/scheduler.go:180-235 | which answers of the plugins and listings a placement needs, both ways |
| Scheduler.BoundExactly | pkg/scheduler/scheduler.go:119-315 | which answers a binding needs, both ways, the second listing included |
| Scheduler.PhasesInOrder | pkg/scheduler/scheduler.go:119-315 | reserve, permit, pre-bind, bind and post-bind follow each other without gaps, and a failed one is directly followed by unreserving |
| Scheduler.ToInt32Wraps | pkg/scheduler/scheduler.go:318-336 | the conversion of the attempts is the congruent value of the signed 32-bit range |
| Scheduler.HostIsBestFeasible | pkg/scheduler/scheduler.go:180-288 | the host passed its filters and has the leftmost maximal score |
| Scheduler.FeasibleExact | pkg/scheduler/scheduler.go:238-255 | a node is feasible exactly when its filters pass at one of its places |
| Scheduler.FeasibleInOrder | pkg/scheduler/scheduler.go:238-255 | the feasible nodes are those at the passing places, each once and in listing order |
| Scheduler.BestIndex | pkg/scheduler/scheduler.go:274-288 | the leftmost maximum |
| Scheduler.RunBalance | pkg/scheduler/scheduler.go:119-336 | over any run the reservations left on a node are the cycles whose list vanished after choosing it |
| Scheduler.RunMetrics | pkg/scheduler/scheduler.go:119-336 | over any run successes are twice the bindings, failures the other cycles, and outcomes as many as cycles |
| Scheduler.Scheduler.FindFeasibleNodes | pkg/scheduler/scheduler.go:238-255 | the loop computes the feasible nodes in listing order |
| Scheduler.Scheduler.SelectNode | pkg/scheduler/scheduler.go:274-288 | the loop finds the leftmost maximum, and nothing only in an empty list |
| Scheduler.Scheduler.Schedule | pkg/scheduler/scheduler.go:180-235 | the phases up to permit and the calls they make, in order |
| Scheduler.Scheduler.BindTo | pkg/scheduler/scheduler.go:291-315 | binds exactly when both phases succeed, and otherwise unreserves |
| Scheduler.Scheduler.HandleSchedulingFailure | pkg/scheduler/scheduler.go:318-336 | re-queues below the attempt limit, compared in 32 bits, and records unschedulable otherwise |
| Scheduler.Scheduler.SchedulingCycle | pkg/scheduler/scheduler.go:119-167 | makes exactly the calls of the specified cycle, and none on an empty queue |
| Buffers.ChunkingDoesNotMatter | pkg/gateway/shell_service.go:104-126 | what a ring keeps are the last bytes of the whole output, however it was cut into writes |
| Buffers.RingBuffer.constructor | pkg/gateway/shell_service.go:96-101 | an empty ring |
| Buffers.RingBuffer.Write | pkg/gateway/shell_service.go:104-112 | in place, keeps exactly the last size bytes of the history |
| Buffers.RingBuffer.Read | pkg/gateway/shell_service.go:115-126 | returns exactly the last min(total, size) bytes in order |
| Buffers.WriterKeepsFirst | pkg/gateway/code_service.go:786-804 | over any writes the buffer is exactly the first max bytes, and when exactly truncated is set |
| Buffers.LossIsReported | pkg/gateway/code_service.go:786-804 | a lost byte implies truncated; a false report needs an empty write on a full buffer |
| Buffers.LimitedWriter.Write | pkg/gateway/code_service.go:786-804 | one write in place, reported as complete |
| DevPorts.AllocateExact | pkg/devtool/manager.go:297-322 | under any probe allocation fails exactly when no port of the range is usable, otherwise marks only a usable port of the range, and keeps the cursor in range |
| DevPorts.AllocatesNext | pkg/devtool/manager.go:297-322 | which port it is: the lowest usable one from the cursor on, which then moves past it, or else the lowest before, and the cursor stays |
| DevPorts.IndexIsInverse | pkg/devtool/manager.go:61-171 | over every interleaving of starts, stops and exits the sandbox index is exactly the inverse of the instance table, without empty entries |
| DevPorts.ExclusiveExact | pkg/devtool/manager.go:61-148 | from exclusive ports a step keeps them exclusive if and only if the port it releases is held by nobody but the instance it belongs to |
| DevPorts.PortsExclusive | pkg/devtool/manager.go:61-293 | if no instance's port is released twice, no two instances or starts ever hold one port |
| DevPorts.UsedPortsAreHeld | pkg/devtool/manager.go:61-332 | in every run a used port belongs to a start under way or an instance that has not released it, so failed starts give theirs back; with single releases the used ports are exactly these |
| DevPorts.TableIsHistory | pkg/devtool/manager.go:61-148 | the table holds exactly the instances published and not cleaned up by a stop |
| DevPorts.SharedPort | pkg/devtool/manager.go:282-288 | a run in which the watcher and a later stop release one port twice and an instance and a start then share it |
| DevPorts.DevToolManager.AllocatePort | pkg/devtool/manager.go:297-322 | the two scanning loops find the first usable port from the cursor, then from the bottom |
| DevPorts.DevToolManager.ReservePort | pkg/devtool/manager.go:69-85 | a configured port is taken only if unused, zero asks the allocator |
| DevPorts.DevToolManager.PublishInstance | pkg/devtool/manager.go:105-111 | table and index are extended together |
| DevPorts.DevToolManager.BeginStop | pkg/devtool/manager.go:120-128 | finds exactly the instances in the table and remembers their sandbox and port |
| DevPorts.DevToolManager.EndStop | pkg/devtool/manager.go:134-144 | whatever happened in between, the remembered port, entry and index entry are gone and nothing else |
| DevPorts.DevToolManager.Stop | pkg/devtool/manager.go:119-148 | the two sections in a row: fails exactly on an unknown instance without effect |
| DevPorts.DevToolManager.StopEach | pkg/devtool/manager.go:164-170 | for instances read earlier: those still there go with their ports, and it fails exactly when one was already gone |
| DevPorts.DevToolManager.StopAll | pkg/devtool/manager.go:151-171 | the reading and the loop in a row: exactly the sandbox's instances and their ports go |
| TenantUsage.UsageConserved | pkg/tenant/manager.go:383-474 | in every run that releases only what is live and allocates nothing negative, CPU, memory, GPU, sandbox and per-node counters are the sums over live allocations |
| TenantUsage.UsageInUnits | pkg/tenant/manager.go:392-407 | CPU is counted in thousandths, memory and GPU in whole units, and an allocation without a GPU entry has none |
| TenantUsage.ReleaseConservesExact | pkg/tenant/manager.go:424-474 | releasing a live allocation keeps the sums if and only if no clamp cuts in, that is, what stays live is negative in no counter touched |
| TenantUsage.UnregisterExact | pkg/tenant/manager.go:274-311 | in such a run unregistering succeeds exactly when nothing is live |
| TenantUsage.NodesAddUp | pkg/tenant/manager.go:409-413 | in such a run the counts per node add up to the active count, which is the number of live allocations |
| TenantUsage.CountsAlwaysSane | pkg/tenant/manager.go:383-474 | in every run, whatever is released, the counts are never negative and active and daily never exceed the total |
| TenantUsage.TotalsExact | pkg/tenant/manager.go:409-413 | in every run the total and daily counts are the placements since the tenant's record was made and since its last new day |
| TenantUsage.RecordIsHistory | pkg/tenant/manager.go:210-474 | after every run a tenant is known, with the specification of its last accepted registration and the active count its placements and releases give |
| TenantUsage.AllowedExactly | pkg/tenant/manager.go:338-380 | when a creation is allowed, by history: registered last in an available phase, rate limiter and quota manager agree, today's placements below a positive daily limit, active below the concurrency limit |
| TenantUsage.VerdictIsFirstObjection | pkg/tenant/manager.go:338-380 | of several reasons against a creation the first in the order of the checks is given |
| TenantUsage.DailyExact | pkg/tenant/manager.go:210-421 | from a state within all daily limits a step leaves them if and only if it allocates unchecked at the limit or registers a daily limit below what was placed |
| TenantUsage.DailyAlongRun | pkg/tenant/manager.go:210-474 | no tenant exceeds its daily limit throughout a run if and only if no step of it is of that kind |
| TenantUsage.ResourcesSaneExact | pkg/tenant/manager.go:383-474 | a release never makes a resource counter negative; an allocation does exactly when its amount is more negative than the counter is high |
| TenantUsage.OverdrawExact | pkg/tenant/manager.go:383-474 | for the whole manager, a step makes some CPU, memory or GPU counter negative exactly when it places an amount more negative than the counter is high |
| TenantUsage.ResourcesAlongRun | pkg/tenant/manager.go:383-474 | these counters are nonnegative throughout a run if and only if no placement in it overdraws one |
| TenantUsage.ResourcesNonnegative | pkg/tenant/manager.go:383-474 | in every run without negative amounts allocated all three are nonnegative in every reachable state, whatever is released |
| TenantUsage.NegativeAmount | pkg/tenant/manager.go:392-395 | a CPU quantity that parses negative leaves usage negative after one checked allocation |
| TenantUsage.LimitExact | pkg/tenant/manager.go:210-421 | from a state within all limits a step leaves them if and only if it allocates unchecked at the limit or registers a limit below what is active |
| TenantUsage.LimitAlongRun | pkg/tenant/manager.go:210-474 | active never exceeds the current MaxConcurrentSandboxes throughout a run if and only if no step of it is of that kind |
| TenantUsage.PeakExact | pkg/tenant/manager.go:210-421 | against the highest limit registered, the only step that goes wrong is an unchecked allocation at it |
| TenantUsage.LimitKept | pkg/tenant/manager.go:338-421 | if every allocation directly follows its check, active never exceeds the highest limit the tenant was registered with |
| TenantUsage.LoweredLimit | pkg/tenant/manager.go:623-631 | a run in which every allocation follows its check and an update of the tenant still leaves two active above a limit of one |
| TenantUsage.CheckedTwice | pkg/tenant/manager.go:338-421 | two checks may pass before either allocation, and then a limit of one is exceeded |
| TenantUsage.TenantManager.RegisterTenant | pkg/tenant/manager.go:210-249 | an invalid spec changes nothing; a known tenant keeps its counters and gets the new spec, also when the quota manager then refuses |
| TenantUsage.TenantManager.UnregisterTenant | pkg/tenant/manager.go:274-311 | fails on unknown or active tenants without effect |
| TenantUsage.TenantManager.CanCreateSandbox | pkg/tenant/manager.go:338-380 | the first check that fails, in the order of the code, and when the rate limiter was asked for a token |
| TenantUsage.TenantManager.AllocateResources | pkg/tenant/manager.go:383-421 | raises the counters whose amounts parse and all counts of that tenant only |
| TenantUsage.TenantManager.ReleaseResources | pkg/tenant/manager.go:424-474 | lowers and clamps the counters whose amounts parse and the counts of that tenant only |
| Gpu.AlwaysSound | pkg/gpu/manager.go:50-108 | in every reachable table allocations are in range, duplicate-free and pairwise disjoint, also when a sandbox asks again |
| Gpu.Conservation | pkg/gpu/manager.go:50-129 | free devices plus the sizes of all allocations are the device count |
| Gpu.RequestExact | pkg/gpu/manager.go:50-97 | a positive request succeeds exactly when at most the free count and then gets the lowest free devices in order; a negative one panics |
| Gpu.RecordsAnswer | pkg/gpu/manager.go:54-96 | nothing is answered exactly when nothing is asked for; the table changes only for an answer with devices, and then holds exactly that answer for that sandbox |
| Gpu.TableIsOutstanding | pkg/gpu/manager.go:50-108 | in every run the table holds a list for a sandbox exactly when an answer gave it that list and it was neither released nor replaced |
| Gpu.AnswersDisjoint | pkg/gpu/manager.go:50-108 | over every run the answers not yet released or replaced are lists of existing, different devices and pairwise disjoint, one for each sandbox |
| Gpu.Reallocation | pkg/gpu/manager.go:59-93 | asking again takes new devices first and frees exactly the old ones |
| Gpu.GPUManager.AllocateGPUs | pkg/gpu/manager.go:50-97 | the nested loops give the specified answer, and the sandbox's entry becomes exactly the devices answered |
| Gpu.GPUManager.IsTaken | pkg/gpu/manager.go:66-77 | the two inner loops decide whether any allocation holds the device |
| Gpu.GPUManager.ReleaseGPUs | pkg/gpu/manager.go:100-108 | exactly that sandbox's allocation goes |
| Gpu.GPUManager.GetAvailableGPUs | pkg/gpu/manager.go:111-129 | the device count less the sizes of all allocations |
| EventLog.Limit | pkg/event/recorder.go:72-75 | the limit is the requested one, or 10000 if that is not positive |
| EventLog.AlwaysSound | pkg/event/recorder.go:85-120 | in every run no two retained events share reason and object, at most max are kept, and exactly max once anything was dropped |
| EventLog.CountsConserved | pkg/event/recorder.go:85-123 | per reason, and per reason and object, the counts of retained and dropped events add up to the calls made, and the counter is their number |
| EventLog.OldestFirst | pkg/event/recorder.go:91-120 | whatever the clock says, dropped and retained events together correspond one to one and in order to the calls that found no retained event of their reason and object, so drops are oldest first |
| EventLog.FirstTimesAscend | pkg/event/recorder.go:99-120 | with a clock that does not run backwards the times of first occurrence ascend |
| EventLog.NothingDroppedExact | pkg/event/recorder.go:85-120 | nothing was dropped if and only if at most max different pairs of reason and object occurred, and then each has its exact count |
| EventLog.RetainedUpToDate | pkg/event/recorder.go:91-105 | every retained event carries the message and time of the last call for its reason and object |
| EventLog.HandlersSeeRecorded | pkg/event/recorder.go:125-128 | handlers get the event just recorded exactly when it is new or was already last |
| EventLog.EventRecorder.constructor | pkg/event/recorder.go:72-82 | an empty recorder with the effective limit |
| EventLog.EventRecorder.RecordEvent | pkg/event/recorder.go:85-137 | the search loop, update or append, trimming and counting keep the fields what all calls so far lead to |
| EventLog.EventRecorder.GetEvents | pkg/event/recorder.go:165-178 | exactly the matching events in order, all without a filter |
| EventLog.SelectsInOrder | pkg/event/recorder.go:165-178 | a selection picks each event on its own, so it keeps their order and number |
| EventLog.EventRecorder.GetEventCount | pkg/event/recorder.go:198-202 | the number of calls so far with that reason, however many of their events were dropped |

## Left out

- RateLimiter.RateLimiter.Wait: requires a burst of at least one token and a positive rate, because otherwise the source's loop need not end, as WaitNeverReturns states; it models a caller without competitors.
- DevPorts.DevToolManager.Stop: nothing happens between its two locked sections; what may happen there is covered by the contract of EndStop and by the state machine.
- DevPorts.DevToolManager.StopAll: nothing happens between its reading and its stops, so it cannot fail; StopEach covers instances that were gone before the loop.
- TenantUsage.TenantManager.CanCreateSandbox: the rate limiter's and quota manager's answers are arguments, so their own state is not part of this contract.
- SandboxCache.Cache.Snapshot: the tenants and the time of the snapshot are not modelled.
- SandboxCache.CacheAgreement: resources, labels, conditions, tenants and timestamps of cache entries are not modelled.
- Locks: every method is one atomic step, except PullImage and the dev-tool manager's Start and Stop, which are several.
- Integer widths: counters are unbounded, except where the scheduler compares attempts in 32 bits; floating-point rounding in the rate limiter is not modelled.
- Snapshot: directories, permissions, symbolic links, one root inside another, the bytes left by a copy that failed half-way, the Windows backend, checksums and the snapshot table, whose operations are map updates.
- Image manager: ListImages, and PrePullImages, which pulls one reference after the other.
- Rate limiter: the bucket map that is never filled, and the cleanup that walks it.
- Resolvers: Windows volumes and failures of filepath.Abs and filepath.Rel, which absolute Unix paths do not have; creating and releasing workspaces.
- Isolation: network identifiers, overcommit percentages, preferred and forbidden nodes, which nothing fills, the runtime argument of placement, and callers that change a returned slice.
- Scheduler: the framework, the queue and the scoring plugins are arbitrary answers; prioritizing is part of the scores given.
- Shell and code services: sessions and processes.
- Dev tools: launching, health probing and status fields; instance identifiers are taken to be fresh.
- Tenant manager: quota bookkeeping, cost tracking, status reports and the clock that triggers the daily reset, which is a step.
- GPU manager: device discovery and parsing of the count, whose result is an argument.
- Event recorder: listing by object, the fields a filter compares, which are one predicate, and callers that change a returned event.
- Members of tables that callers reach through returned pointers are values here, except cache entries, token buckets and the isolation managers, which are objects.

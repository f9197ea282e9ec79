# Verified models of the audit and relay components

This project models, in Dafny, the parts of the repository that carry real algorithms or state
machines, and proves what they guarantee for every input, every run or every interleaving:

- **Graph searches**: the lock-order cycle finder, and the RBAC audit (memoised permission
  resolution, the search for an admin ancestor, and the verdict they feed).
- **Quorum relay**: canonical JSON, the voters, the majority vote, and the replay-aware retry loop.
- **Concurrent protocols**: the nonce database under its lock directory and the shared-counter
  worker pool, both as transition systems over all interleavings.
- **Rate limiting**: the token bucket with its drop-oldest queue and two sliding-window limiters,
  each against a plain recount of the full log of calls.
- **State machines**: the treasury time lock and the scanner protocol machine with its bounded,
  hash-chained history.
- **Analyses**: the interval evaluator for expression strings, and the error-spike scan.

`dafny verify dfyconfig.toml` checks everything. There is one module per file. Where the source
updates fields, a class does so and each method is tied to a function of the old state; the
theorems over whole runs are about that function. Loops of the source are loops here.

## Choices

- Time is an argument of every call. A clock that never goes back is assumed only where a theorem
  says so (`ClockNeverGoesBack`, `NonDecreasing`); the time lock, the ban and the nonce theorems
  hold on any clock.
- A run of the nonce database is a start and a list of moves, each by any writer that can make it.
- Answers of the network are an oracle `net(n, e)`: what the n-th call brings back from endpoint
  `e`. The secondaries of one round are called concurrently in the source; here they are numbered
  in the order of the list, and as the oracle is arbitrary this loses no behaviour.
- The endpoint identity, the projection of a response, the admin-name regular expression, the gas
  profiler and the JSON text of an event are parameters. So are the finite numbers of JSON: any
  type with a printer that is injective and uses only digits, signs, a point and an exponent.
- Insertion-ordered maps are sequences of pairs. The order in which dictionaries yield their keys
  is a parameter or arbitrary. Strings that are hashed or canonicalised are UTF-16 code units.
- Token counts are real numbers. u64 arithmetic of the time lock wraps explicitly.
- A thrown error is a returned one, and a rejected call leaves the state as the code leaves it.

## Where the code differs from its comments, or a promise holds only in part

- `anomaly-detector/src/index.ts:299-324`: with two different nonces for one address in a batch a
  reuse can pass unseen; `MissesNothingIff` gives the exact condition.
- `anomaly-detector/src/index.ts:190-198`: an error of the read is swallowed and reads as an empty
  map, so a later write can lower the nonces on disk and hide a reuse (`SwallowedReadLowersNonce`,
  `LostSaveHidesReuse`). So can the fallback at `anomaly-detector/src/index.ts:247-256`, which
  deletes the file before replacing it. `NeverFallsIff` and `SaveIsSafeIff` give the exact conditions.
- `anomaly-detector/src/index.ts:231-237`: the comment says that a later writer may recover from a
  failed release after the timeout; the code throws on timeout, and no writer ever enters again
  (`FailedReleaseIsForever`).
- `atomic-rpc-relayer-bridge/src/index.ts:105`: keys are sorted by code unit, but JavaScript prints
  array-index keys first and by value, so "9" comes before "10". The text is canonical all the same;
  `PrintedAsSortedIff` says when its order is that of section 3.2.3 of RFC 8785.
- `src/audit-guard/src/rate-limit-monitor.ts:60`: the comment says that recency order makes later
  entries newer. That fails once `getRequestCount` has moved a client (`CountingCanStrandAClient`);
  `SweepIsCompleteIff` gives the exact condition on the calls, and counts stay exact all the same.
- `src/audit-guard/src/telemetry-ingestion-guard.ts:275-279`: with a depth of zero or less a drop is
  counted though nothing was dropped (`BalancesIff`).
- `src/audit-guard/src/batch-contract-call-processor.ts:310-313`: two colons inside a field can make two
  different entries duplicates of each other (`ColonsCanCollide`); `FingerprintIdentifiesIff` gives the
  exact condition.
- `src/audit-guard/src/log-analyzer.ts:78-79`: a threshold below 1 is not refused; the scan then
  throws, or does not end (`DetectSpikes`, `NeverAdvances`).
- `src/audit-guard/src/telemetry-ingestion-guard.ts:140-146`: a clock that goes back lowers the time
  of the last refill, so the same time is refilled twice (`ClockGoingBackBreaksTheRate`);
  `AnyClockBudget` is the bound that remains.
- `src/audit-guard/src/rbac-mapper.ts:459-462`: the depth test is made before a role is expanded, so
  chains of up to maxInheritanceDepth + 1 edges are resolved completely, and no longer ones
  (`ChainIsCompleteIff`); rings of three or more roles lose permissions (`RingLosesPermission`).
- `src/audit-guard/src/rbac-mapper.ts:503`: a role whose id (not name) looks like an admin's counts
  as an admin role for those who inherit it, but gives no finding to those who hold it directly;
  `Escalates` says so.
- `src/audit-guard/src/protocol-state-machine.ts:324`: the comment says that the active scan id is null in
  DONE and FAILED; the code keeps it until RESET, and `RunIsGenuine` states what the code does.
- `src/audit-guard/src/lib.rs`: `execute_after + grace` can wrap around in release builds. Safety
  holds regardless; such a request can never be executed (`ExecutableIff`), and the integrity sweep
  can miss its expiry (`SweepMeaning`, `PendingCheckIsExactIff`).
- `src/audit-guard/src/abstract-interpreter.ts:61-98`: repeated signs are split in the wrong order
  (`RepeatedMinusBindsWrongly`, `RepeatedPlusBindsWrongly`). `SoundIffSimple` and
  `ExceptionalIsSoundIff` say exactly which strings over variables are evaluated soundly in every
  state. A name such as `a-b` is looked up before any splitting (`OperatorNameIsUnsound`).

## Model

| member | source | states |
|---|---|---|
| `DeadlockDetection.DetectDeadlock` | src/audit-guard/visualizer.py:48-73 | On every finite graph and every dictionary order: every list reported is a genuine cycle that meets no other lock twice; every directed cycle of the graph has an edge that closes a reported list, so without those edges the graph is acyclic and the report is empty if and only if the graph is; and no edge closes more lists than it has entries. |
| `DeadlockDetection.CycleSearch.Dfs` | src/audit-guard/visualizer.py:56-67 | Every call, from any intermediate state, keeps the stack equal to the open path, the visited set equal to open and finished locks, all reports genuine and no more than the entries looked at, and the finishing order successors-first but for edges that close a reported list; it terminates. |
| `DeadlockDetection.CycleSearch.Report` | src/audit-guard/visualizer.py:62-65 | Appends exactly the slice of the path from the first occurrence of the neighbour, closed by it, and that is a cycle of the graph. |
| `DeadlockDetection.EveryCycleIsBroken` | src/audit-guard/visualizer.py:48-73 | A finishing order that lists every lock after all its successors, but for the edges that close a reported list, puts such an edge into every cycle of the whole graph. |
| `RbacPolicy.ValidatePolicy` | src/audit-guard/src/rbac-mapper.ts:289-366 | A policy is accepted if and only if it is valid as stated on the whole policy (well-formed, distinct ids, all references known), and each error names a defect that is really there. |
| `RbacPolicy.BuildRoleMap` | src/audit-guard/src/rbac-mapper.ts:439-445 | The loop builds the last-wins table of roles by id. |
| `RbacPolicy.RolesByIdIsExact` | src/audit-guard/src/rbac-mapper.ts:439-445 | With distinct ids the table has exactly the role ids as keys and returns each role for its own id. |
| `RbacPermissions.PermissionResolver.Resolve` | src/audit-guard/src/rbac-mapper.ts:458-478 | From any cache filled so far, the recursive method returns and caches exactly what the resolver function says, on every graph. |
| `RbacPermissions.RoleIsBounded` | src/audit-guard/src/rbac-mapper.ts:458-478 | Every call, from any bounded cache and along any chain of open calls, returns at least the own and at most the transitive permissions, and all of them if no chain has more than maxDepth + 1 edges; the cache stays so. |
| `RbacPermissions.AllHoldParents` | src/audit-guard/src/rbac-mapper.ts:453-485 | On every graph, cyclic or cut by the depth limit, each resolved set holds what the roles inherited directly own. |
| `RbacPermissions.ResolveAllPermissions` | src/audit-guard/src/rbac-mapper.ts:453-485 | The result is that of the resolver function over the roles in order. On every graph, each role gets its own permissions, the own permissions of every role it inherits directly, and nothing outside its transitive closure; if no inheritance chain has more than maxDepth + 1 edges, exactly its closure, whatever the order. |
| `RbacPermissionLoss.ChainIsCompleteIff` | src/audit-guard/src/rbac-mapper.ts:453-485 | For every depth limit and every chain resolved from its top: what only the last role owns is found at the top if and only if the chain has at most maxDepth + 1 edges, so that bound is exact. |
| `RbacPermissionLoss.RingLosesPermission` | src/audit-guard/src/rbac-mapper.ts:453-485 | For a depth limit of 2 or more: in every ring of three or more roles resolved from its first, the third lacks what only the second owns, although it inherits it. |
| `RbacPermissionLoss.ShortRingIsComplete` | src/audit-guard/src/rbac-mapper.ts:453-485 | In a ring of one or two roles nothing is lost. |
| `RbacVerdict.Configure` | src/audit-guard/src/rbac-mapper.ts:193-200 | Options are refused exactly when the depth is below 1 or a permission is blank; configured permissions are added to the built-in ones; the default depth is 10. |
| `RbacVerdict.ResolveAdminRoleIds` | src/audit-guard/src/rbac-mapper.ts:492-517 | A role is listed if and only if it is flagged, named like an admin, or resolved to a dangerous permission. |
| `RbacVerdict.FoundChainIsReal` | src/audit-guard/src/rbac-mapper.ts:693-721 | Every non-empty chain returned, from any state of the search, is a real inheritance path that extends the chain so far and ends at an admin role. |
| `RbacVerdict.SearchSucceeds` | src/audit-guard/src/rbac-mapper.ts:693-721 | A path of unvisited, distinct roles to an admin role makes the search return a chain, although it visits each role once per path only. |
| `RbacVerdict.ChainFoundIff` | src/audit-guard/src/rbac-mapper.ts:693-721 | On every graph, cyclic or not, a chain is returned if and only if one or more inheritance steps lead to an admin role. |
| `RbacVerdict.EscalatingIsAssessed` | src/audit-guard/src/rbac-mapper.ts:597-681 | Even if permission resolution was incomplete, a role that escalates by the policy alone is assessed as a finding. |
| `RbacVerdict.AssessedIsEscalating` | src/audit-guard/src/rbac-mapper.ts:597-681 | Conversely, no finding without a powerful role reached or an admin-like name. |
| `RbacVerdict.DetectPrivilegeEscalation` | src/audit-guard/src/rbac-mapper.ts:589-686 | The nested loops yield the findings of the users in order, each user's roles in order, as defined by recursion over the lists; what those findings say is stated by the next rows. |
| `RbacVerdict.UserFindingIff` | src/audit-guard/src/rbac-mapper.ts:589-686 | With distinct user ids, a finding for a user and a role exists if and only if the user holds the role and the role is assessed as escalating. |
| `RbacVerdict.FindingsAreJustified` | src/audit-guard/src/rbac-mapper.ts:599-681 | Every finding names a user and a role that the user holds, and its vector is the first that applies: admin role; then, all named, the dangerous permissions resolved for the role; then an admin-like name and then an inherited admin role, only if nothing resolved is dangerous. Severity and chain go with it. |
| `RbacVerdict.InheritedDangerIsNamed` | src/audit-guard/src/rbac-mapper.ts:597-681 | Where resolution is complete, a held role that is no admin role and whose closure has dangerous permissions gets the finding that names all of them, CRITICAL exactly if one of them is "*", "sudo", "admin:*" or "impersonate:users". |
| `RbacVerdict.DetectLeastPrivilegeViolations` | src/audit-guard/src/rbac-mapper.ts:727-764 | A permission is reported for a user if and only if it is excessive and in one of the user's resolved sets; there is at most one report per user, and its severity is critical exactly for the three widest permissions. |
| `RbacVerdict.ExcessiveIff` | src/audit-guard/src/rbac-mapper.ts:727-764 | Excessive are "*", every wildcard over a scope, and the dangerous permissions, and no others. |
| `RbacVerdict.Scan` | src/audit-guard/src/rbac-mapper.ts:210-258 | On every valid policy, cyclic or arbitrarily deep, a user's role has a finding if and only if it reaches (in zero or more steps) a powerful role or an admin-like name; every finding is justified against the resolved permissions; with short chains every inherited dangerous permission is named and graded; reported permissions lie between those held directly and those held transitively, with equality when chains are short; the status is VIOLATIONS_FOUND exactly when something is reported. |
| `RbacVerdict.VerdictIsExact` | src/audit-guard/src/rbac-mapper.ts:210-258 | The exactness of the findings, from what resolution guarantees on every graph. |
| `KeyOrder.SortSorts` | atomic-rpc-relayer-bridge/src/index.ts:100-112 | Sorting the keys keeps the set of keys and puts them in the order in which they are printed. |
| `KeyOrder.AscendingIsUnique` | atomic-rpc-relayer-bridge/src/index.ts:100-112 | Two ordered key lists with the same keys are the same list, so insertion order leaves no trace. |
| `KeyOrder.PrintedAsSortedIff` | atomic-rpc-relayer-bridge/src/index.ts:100-112 | Keys are printed in the order of section 3.2.3 of RFC 8785 if and only if no array-index key stands before a key that sorts earlier. |
| `KeyOrder.NineBeforeTen` | atomic-rpc-relayer-bridge/src/index.ts:100-112 | Keys on which the two orders differ. |
| `KeyOrder.IndexIff` | atomic-rpc-relayer-bridge/src/index.ts:100-112 | The keys that are printed first are the numbers up to 2^32 - 2 without leading zeros, and no others. |
| `KeyOrder.IndicesGoByValue` | atomic-rpc-relayer-bridge/src/index.ts:100-112 | Of two such keys the one with the smaller value is printed first. |
| `JsonText.QuotedDecodes` | atomic-rpc-relayer-bridge/src/index.ts:121-123 | Quoted strings are self-delimiting: equal texts with anything behind them come from the same string, surrogates and escapes included. |
| `CanonicalJson.SameMeaningSameText` | atomic-rpc-relayer-bridge/src/index.ts:121-123 | Values that mean the same data get the same text. |
| `CanonicalJson.ValueDecodes` | atomic-rpc-relayer-bridge/src/index.ts:121-123 | Values printed with the same text, whatever follows, mean the same data and leave the same rest. |
| `CanonicalJson.TextDeterminesMeaning` | atomic-rpc-relayer-bridge/src/index.ts:121-123 | Two normalised values have equal texts if and only if they mean equal data: objects as unordered maps, arrays as sequences, -0 as 0. |
| `JsonNormalization.CanonicalizesIff` | atomic-rpc-relayer-bridge/src/index.ts:67-123 | Canonicalisation succeeds if and only if the value stands for finite JSON data: shared parts are no cycle, and every cycle, special prototype or non-JSON leaf fails. |
| `JsonNormalization.MeaningfulIsNormalized` | atomic-rpc-relayer-bridge/src/index.ts:67-115 | The scoped set of open objects never refuses a value that has a meaning. |
| `JsonNormalization.NormalizedMeans` | atomic-rpc-relayer-bridge/src/index.ts:67-115 | What normalisation returns represents data that the value denotes. |
| `JsonNormalization.MeaningIsUnique` | atomic-rpc-relayer-bridge/src/index.ts:67-115 | A value of a heap denotes at most one piece of data. |
| `JsonNormalization.SameTextIffSameData` | atomic-rpc-relayer-bridge/src/index.ts:67-123 | Two values, even in different heaps, get the same canonical text if and only if they denote the same data. |
| `Quorum.DistinctSecondaryEndpoints` | atomic-rpc-relayer-bridge/src/index.ts:302-317 | The loop yields the first endpoint of each identity other than the primary's. |
| `Quorum.VotersAreTheIdentities` | atomic-rpc-relayer-bridge/src/index.ts:302-317 | Whichever configured endpoint is primary, it and its secondaries are all the distinct identities, once each. |
| `Quorum.SecondariesAreFirsts` | atomic-rpc-relayer-bridge/src/index.ts:302-317 | Each secondary is the first configured endpoint of its identity, and they stand in configured order. |
| `Quorum.CountVotes` | atomic-rpc-relayer-bridge/src/index.ts:349-376 | The counting loop gives the verdict on the votes, whose meaning is stated next. |
| `Quorum.VerdictMeaning` | atomic-rpc-relayer-bridge/src/index.ts:349-376 | "verified" means a strict majority; "failed" if and only if no way of filling in the rejected votes reaches one. |
| `Quorum.VerifiedHasMajority` | atomic-rpc-relayer-bridge/src/index.ts:349-376 | A verified answer is shared by a strict majority of all distinct identities. |
| `Quorum.VerifiedAnswersAgree` | atomic-rpc-relayer-bridge/src/index.ts:302-376 | With each identity's answer fixed, any two verified answers are equal, whichever endpoints were primary. |
| `Relay.Bridge.VerifyAtomicity` | atomic-rpc-relayer-bridge/src/index.ts:319-377 | With nobody else to ask or nothing to compare the verdict is "unavailable" and nobody is asked; otherwise every other voter is asked once and the verdict is that on their votes. |
| `Relay.Bridge.VerifiedRoundHasMajority` | atomic-rpc-relayer-bridge/src/index.ts:319-377 | In a verified round a strict majority of the distinct voters gave the primary's canonical text. |
| `Relay.Bridge.Attempt` | atomic-rpc-relayer-bridge/src/index.ts:169-220 | One attempt makes at most as many calls as there are voters, and exactly one for a request that may not be repeated (section 9.2.2 of RFC 9110); it settles the relay, or was fruitless because the call failed or was outvoted, and the status says which. |
| `Relay.Bridge.TryEndpoint` | atomic-rpc-relayer-bridge/src/index.ts:166-222 | The attempts at one endpoint: bounded calls, all but the last fruitless, and giving up only after all of them. |
| `Relay.Bridge.Relay` | atomic-rpc-relayer-bridge/src/index.ts:143-232 | Exactly the returned response is appended to the audit log once. A request that is not GET, not declared idempotent and without a key makes at most one call; a blank key makes none and fails; otherwise there are at most endpoints * retries * voters. The tries go through the endpoints in order and all but the last are fruitless; the last one settles the response (data passed on uncompared, verified by a majority, or refused without quorum), or every try due was made and the final status is "failed" if and only if some answer was outvoted. |
| `Relay.Bridge.RecordResponse` | atomic-rpc-relayer-bridge/src/index.ts:234-237 | The response is appended and returned unchanged. |
| `Relay.VerifiedDataAgree` | atomic-rpc-relayer-bridge/src/index.ts:67-123 | With each identity's reply fixed, all verified primaries replied with the same JSON data, not just the same text. |
| `NonceStore.MergeNonces` | anomaly-detector/src/index.ts:265-285 | The merge loop computes the pointwise maximum, whatever the order of the keys. |
| `NonceStore.MergeIsLeastUpperBound` | anomaly-detector/src/index.ts:265-285 | The merge is the least map above both. |
| `NonceStore.StepKeepsExclusion` | anomaly-detector/src/index.ts:208-237 | Every atomic step of any writer, swallowed reads, failed writes and failed releases included, keeps at most one writer inside. |
| `NonceStore.RunIsExclusive` | anomaly-detector/src/index.ts:208-285 | In every state of every interleaving of any number of writers, whatever fails, at most one writer is inside. |
| `NonceStore.FailedReleaseIsForever` | anomaly-detector/src/index.ts:231-237 | After a release that fails, no writer ever enters again and the file stays as it is. |
| `NonceStore.StepKeepsMaximum` | anomaly-detector/src/index.ts:265-285 | Every step that overlooks no stored entry keeps the file equal to the pointwise maximum of the start and of all writers that have written. |
| `NonceStore.RunIsSafe` | anomaly-detector/src/index.ts:190-285 | In every state of every interleaving in which no read is swallowed, and no file deleted before its replacement, while the file holds an entry: the file is exactly that maximum, and each writer that has read still knows it. |
| `NonceStore.RunNeverLowers` | anomaly-detector/src/index.ts:190-285 | In such runs, between any two states, no nonce on disk goes down. |
| `NonceStore.UndisturbedSave` | anomaly-detector/src/index.ts:208-285 | From any state with a free lock, a waiting writer can save: undisturbed, its four steps leave the file as the merge with its own map and the lock free. |
| `NonceRisk.NeverFallsIff` | anomaly-detector/src/index.ts:190-285 | For every start and every interleaving: whatever the writers have to save, no nonce on disk falls, if and only if, whatever they have, no read is swallowed and no file deleted while the file holds an entry. |
| `NonceRisk.SwallowedReadCanErase` | anomaly-detector/src/index.ts:190-198 | For every run with a read swallowed over stored entries there are maps with which the next write erases them. |
| `NonceRisk.SwallowedReadLowersNonce` | anomaly-detector/src/index.ts:190-198 | A run of one writer in which a stored 10 falls to 3. |
| `NonceReuse.Detector.Analyze` | anomaly-detector/src/index.ts:299-324 | An alert is in the result if and only if some metric deserves it: a reuse if its nonce is at or below the previous nonce of the address, a spike if it exceeds it by more than the threshold, critical exactly above twice the threshold, where the previous nonce is the last one before it in the batch or else the one remembered; no alert is raised twice for a metric; the last nonce of each address is remembered. |
| `NonceReuse.AlertsIff` | anomaly-detector/src/index.ts:305-324 | The same of the alerts of any batch after any memory. |
| `NonceReuse.AlertsAreCounted` | anomaly-detector/src/index.ts:299-324 | There are as many alerts as metrics that deserve a reuse alert plus metrics that deserve a spike alert. |
| `NonceReuse.Detector.Save` | anomaly-detector/src/index.ts:287-297 | After a save, memory is the merge of what the read returned and what was remembered; after a save that threw it is unchanged. |
| `NonceReuse.FlaggedRaisesAlert` | anomaly-detector/src/index.ts:305-324 | A metric at or below the remembered nonce has its reuse alert in the result, with both nonces. |
| `NonceReuse.MissesNothingIff` | anomaly-detector/src/index.ts:299-324 | A batch misses no reuse and forgets no nonce, whatever was remembered and is on disk, if and only if it reports no address with two different nonces. |
| `NonceReuse.TwoMetricsCanHideReuse` | anomaly-detector/src/index.ts:299-324 | An input outside that condition on which a reuse is not flagged. |
| `NonceReuse.MemoryRetains` | anomaly-detector/src/index.ts:287-324 | Over any number of rounds whose saves succeed and read nothing lower than the process left, no reported nonce is forgotten. |
| `NonceReuse.ReuseIsAlwaysFlagged` | anomaly-detector/src/index.ts:287-324 | After such rounds, every metric of every further batch that is not above one reported earlier for the address is flagged. |
| `NonceReuse.RepeatInBatchIsFlagged` | anomaly-detector/src/index.ts:299-324 | The same within one batch. |
| `NonceReuse.SaveIsSafeIff` | anomaly-detector/src/index.ts:190-324 | After any good history, one more save keeps every reuse visible, whatever the round reports, if and only if it succeeds with an honest read or nothing has been reported before. |
| `NonceReuse.LostSaveHidesReuse` | anomaly-detector/src/index.ts:190-324 | After any history with a report, a swallowed read or a failed save can hide a reuse. |
| `NonceReuse.InterleavingsKeepDisk` | anomaly-detector/src/index.ts:190-297 | In every careful interleaving, each save of a process finds the file no lower than the process last left it, even if its first read was swallowed. |
| `NonceReuse.ReuseIsFlaggedInEveryRun` | anomaly-detector/src/index.ts:190-324 | The two together: whatever other writers do in a careful run, reuse of a nonce saved earlier by the process is flagged. |
| `WorkerPool.StepKeepsSound` | src/audit-guard/src/batch-contract-call-processor.ts:98-103 | Whichever worker goes next: claimed indices are 0, 1, 2, ... once each, no two workers run the same task, and a result is missing exactly if unclaimed or in flight. |
| `WorkerPool.StepMakesProgress` | src/audit-guard/src/batch-contract-call-processor.ts:98-103 | Every step uses up exactly one of the steps remaining. |
| `WorkerPool.NeverStuck` | src/audit-guard/src/batch-contract-call-processor.ts:98-103 | While a result is missing, some worker can step. |
| `WorkerPool.RunIsSafe` | src/audit-guard/src/batch-contract-call-processor.ts:91-108 | In every state of every interleaving, soundness holds and at most maxConcurrency and at most n tasks are in flight. |
| `WorkerPool.MaximalRunCompletes` | src/audit-guard/src/batch-contract-call-processor.ts:91-108 | Every run that ends has claimed each index once, holds task i's outcome as result i, and took the same number of steps. |
| `WorkerPool.ProcessWithConcurrency` | src/audit-guard/src/batch-contract-call-processor.ts:91-108 | With an arbitrary scheduler the pool terminates and result i is task i's outcome. |
| `BatchProcessor.GroupByFingerprint` | src/audit-guard/src/batch-contract-call-processor.ts:162-172 | Each group lists once each exactly the object entries with its fingerprint. |
| `BatchProcessor.DuplicateIndices` | src/audit-guard/src/batch-contract-call-processor.ts:173-178 | An index is marked if and only if another object entry has the same fingerprint. |
| `BatchProcessor.Queue` | src/audit-guard/src/batch-contract-call-processor.ts:180-206 | Every entry is either pre-failed in its slot or waits as a task for its slot. |
| `BatchProcessor.FillSlots` | src/audit-guard/src/batch-contract-call-processor.ts:208-217 | After the pool, no slot is empty and slot i holds entry i's result. |
| `BatchProcessor.Process` | src/audit-guard/src/batch-contract-call-processor.ts:136-231 | Entry i has index i, is marked as a duplicate if and only if another object entry has its fingerprint, and carries its own outcome; success and failure counts add up; only a non-array is not ok. |
| `BatchProcessor.EqualFieldsAreDuplicates` | src/audit-guard/src/batch-contract-call-processor.ts:310-313 | Entries with the same address, function and payload are duplicates of each other. |
| `BatchProcessor.FingerprintIdentifiesIff` | src/audit-guard/src/batch-contract-call-processor.ts:310-313 | No entry with other field texts shares the fingerprint of an entry if and only if that fingerprint holds two colons in a row only where they separate its fields. |
| `BatchProcessor.FingerprintDecodes` | src/audit-guard/src/batch-contract-call-processor.ts:310-313 | Two entries without colons in address and function have the same fingerprint only if all three texts agree, whatever the payloads hold. |
| `BatchProcessor.ColonsCanCollide` | src/audit-guard/src/batch-contract-call-processor.ts:310-313 | Two different entries that are taken for duplicates. |
| `BatchProcessor.SuccessIff` | src/audit-guard/src/batch-contract-call-processor.ts:180-342 | An entry is ok if and only if its three fields are present, its size is within the limit, and the profiler neither throws nor fails it nor finds it critical; ok means no error. |
| `BatchProcessor.FailureMeaning` | src/audit-guard/src/batch-contract-call-processor.ts:180-342 | Which of the five errors a failed entry has, in the order of the checks. |
| `TokenBucket.NewBucket` | src/audit-guard/src/telemetry-ingestion-guard.ts:103-116 | A bucket is made if and only if both settings are positive, and starts full. |
| `TokenBucket.Bucket.TryConsume` | src/audit-guard/src/telemetry-ingestion-guard.ts:122-146 | Refill up to the capacity, fractions included, then take one token if there is one; RefusedIff says of every run what that comes to. |
| `TokenBucket.TryKeepsBudget` | src/audit-guard/src/telemetry-ingestion-guard.ts:122-146 | Every call keeps the events admitted in [s, t] plus the tokens left within the capacity and the refill since s. |
| `TokenBucket.RateIsRespected` | src/audit-guard/src/telemetry-ingestion-guard.ts:97-153 | On a clock that never goes back, the events admitted in [s, t] are at most capacity + rate * (t - s) for any s <= t, and tokens stay within [0, capacity]. |
| `TokenBucket.LevelIsAllowance` | src/audit-guard/src/telemetry-ingestion-guard.ts:97-153 | From a full bucket on a clock that never goes back, the tokens left at t are exactly capacity + rate * (t - s) less the events admitted in [s, t], for some s: the bound is attained. |
| `TokenBucket.RefusedIff` | src/audit-guard/src/telemetry-ingestion-guard.ts:122-146 | After any such run a call at t is refused if and only if for some s in [start, t] capacity + rate * (t - s) less the events admitted in [s, t] is below 1. |
| `TokenBucket.AnyClockBudget` | src/audit-guard/src/telemetry-ingestion-guard.ts:97-153 | On any clock and from any level, the events admitted are at most the tokens there were plus the rate times all forward movement of the clock. |
| `TokenBucket.ClockGoingBackBreaksTheRate` | src/audit-guard/src/telemetry-ingestion-guard.ts:140-146 | With one token a millisecond, a clock that goes back and forth admits more events in one millisecond than the bound and any extra allowance. |
| `IngestionGuard.Guard.Ingest` | src/audit-guard/src/telemetry-ingestion-guard.ts:239-297 | The new state and result of one event: malformed, limited, accepted, or accepted at the price of the oldest. |
| `IngestionGuard.Guard.IngestBatch` | src/audit-guard/src/telemetry-ingestion-guard.ts:303-312 | A batch is its events one after the other, each with the result it would get alone in that state. |
| `IngestionGuard.Guard.Drain` | src/audit-guard/src/telemetry-ingestion-guard.ts:318-321 | The drained events followed by the queue left are the old queue; the counters stay. |
| `IngestionGuard.QueueIsRecentSuffix` | src/audit-guard/src/telemetry-ingestion-guard.ts:239-321 | After any run the queue is a suffix of all admitted events in order, within the depth (or one). |
| `IngestionGuard.NothingIsLost` | src/audit-guard/src/telemetry-ingestion-guard.ts:239-321 | Every admitted event is queued, drained or counted as dropped. |
| `IngestionGuard.BalancesIff` | src/audit-guard/src/telemetry-ingestion-guard.ts:268-283 | The counters balance in every run if and only if the depth is at least 1 or the capacity is below 1. |
| `IngestionGuard.AdmissionIsBounded` | src/audit-guard/src/telemetry-ingestion-guard.ts:239-297 | The bucket's bound holds for the guard's admitted events over every run, drains and malformed events included. |
| `IngestionGuard.GuardIsBucket` | src/audit-guard/src/telemetry-ingestion-guard.ts:239-321 | The guard's bucket sees the well-formed events at their times and nothing else: drains and malformed events use no tokens and give none. |
| `IngestionGuard.RateLimitedIff` | src/audit-guard/src/telemetry-ingestion-guard.ts:239-297 | After any run of events and drains, a well-formed event is RATE_LIMITED if and only if, for some s up to now, the recount over the admitted events since s leaves less than one token. |
| `IngestionGuard.ValidIff` | src/audit-guard/src/telemetry-ingestion-guard.ts:159-179 | Exactly which events are well-formed. |
| `IngestionGuard.ResultMeaning` | src/audit-guard/src/telemetry-ingestion-guard.ts:239-297 | What each of the four outcomes says about the event, the queue and the event dropped. |
| `IngestionGuard.EveryEventIsCounted` | src/audit-guard/src/telemetry-ingestion-guard.ts:239-321 | After any run, accepted, limited and malformed events add up to the events offered. |
| `OrderedMap.Sweep` | src/audit-guard/src/rate-limit-monitor.ts:54-63 | The early-exit loop drops exactly the leading stale entries. |
| `OrderedMap.EnforceCap` | src/audit-guard/src/rate-limit-monitor.ts:65-74 | The loop drops oldest entries until the cap is met. |
| `OrderedMap.SweepStopsAtFirstFresh` | src/audit-guard/src/rate-limit-monitor.ts:54-63 | What a sweep keeps begins with the first entry that is not stale. |
| `OrderedMap.CapDropsOldest` | src/audit-guard/src/rate-limit-monitor.ts:65-74 | What a cap drops is exactly the surplus of oldest entries. |
| `SlidingWindow.SweepKeepsMeaning` | src/audit-guard/src/rate-limit-monitor.ts:54-63 | Lazy, early-exit sweeping never changes the requests that a table stands for. |
| `SlidingWindow.RecordKeepsMeaning` | src/audit-guard/src/rate-limit-monitor.ts:77-100 | Pruning, appending and moving a client to the end keeps the table standing for the log with the new request. |
| `RateLimitMonitor.Monitor.Record` | src/audit-guard/src/rate-limit-monitor.ts:77-108 | The new table and verdict of one recorded request. |
| `RateLimitMonitor.Monitor.GetRequestCount` | src/audit-guard/src/rate-limit-monitor.ts:111-126 | The new table and count of one query. |
| `RateLimitMonitor.ReportIsRecount` | src/audit-guard/src/rate-limit-monitor.ts:54-126 | In every run on a clock that never goes back and with no more clients than the cap, each reported count is the plain recount over the full log. |
| `RateLimitMonitor.AllowedIff` | src/audit-guard/src/rate-limit-monitor.ts:77-108 | In such runs a request is allowed if and only if the recount, itself included, is within the threshold. |
| `RateLimitMonitor.LimitIsRespected` | src/audit-guard/src/rate-limit-monitor.ts:77-108 | No window of any such run holds more allowed requests of one client than the threshold. |
| `RateLimitMonitor.RecordOnlySweepIsComplete` | src/audit-guard/src/rate-limit-monitor.ts:54-63 | In runs that only record, every early-exit sweep leaves no stale client. |
| `SweepCompleteness.RunIsRanked` | src/audit-guard/src/rate-limit-monitor.ts:54-126 | After every ordinary run the entries stand in the order of their clients' last calls, each with its client's last record. |
| `SweepCompleteness.SweepIsCompleteIff` | src/audit-guard/src/rate-limit-monitor.ts:54-63 | For every ordinary run: the sweep at a time leaves no stale client if and only if no client was last called, while still in its window, after the last call of a client that is in its window now. The condition is on the calls alone. |
| `SweepCompleteness.CountingCanStrandAClient` | src/audit-guard/src/rate-limit-monitor.ts:111-126 | A run of three calls after which the sweep misses a client. |
| `IpTracker.Tracker.SweepBoth` | src/audit-guard/src/ip-tracker.ts:16-34 | Both tables lose exactly their leading stale entries. |
| `IpTracker.Tracker.EnforceCaps` | src/audit-guard/src/ip-tracker.ts:36-48 | Both tables are cut to the cap, oldest first. |
| `IpTracker.Tracker.RecordRequest` | src/audit-guard/src/ip-tracker.ts:53-83 | The new state and answer of one request. |
| `IpTracker.Tracker.IsBanned` | src/audit-guard/src/ip-tracker.ts:85-96 | The new state and answer of one check. |
| `IpTracker.Tracker.GetRequestCount` | src/audit-guard/src/ip-tracker.ts:98-109 | The new state and count of one query. |
| `IpTracker.Tracker.Unban` | src/audit-guard/src/ip-tracker.ts:111-114 | The address disappears from both tables. |
| `IpTracker.TrackerTracks` | src/audit-guard/src/ip-tracker.ts:16-114 | In every run on a clock that never goes back and with no more addresses than the cap, nothing recent is lost from the tables. |
| `IpTracker.NextRequestIsJudgedByRecount` | src/audit-guard/src/ip-tracker.ts:53-109 | After any such run, the next request is allowed if and only if it is not banned and the recount over the full log, itself included, is within the limit; the reported count is the recount. |
| `IpTracker.ExcessSetsBan` | src/audit-guard/src/ip-tracker.ts:65-82 | A request over the limit at t bans its address until t + banTtl. |
| `IpTracker.BanHolds` | src/audit-guard/src/ip-tracker.ts:53-96 | Without lifting and eviction, a ban refuses every request and is confirmed by every check up to its expiry, whatever else is called and on any clock. |
| `IpTracker.ExcessIsRefusedThroughTtl` | src/audit-guard/src/ip-tracker.ts:53-96 | The two together over a whole run. |
| `IpTracker.BannedIff` | src/audit-guard/src/ip-tracker.ts:53-96 | After any run on a clock that never goes back and with no more addresses than the cap, an address is banned if and only if one of its requests exceeded the limit at most banTtl ago and the ban was not lifted since; a check answers that. |
| `IpTracker.LimitIsRespected` | src/audit-guard/src/ip-tracker.ts:53-83 | No minute of such a run holds more allowed requests of one address than the limit, unless its bans are lifted. |
| `SnapshotHash.MultiplyIsInjective` | src/audit-guard/src/protocol-state-machine.ts:268-271 | Multiplying by the FNV prime is injective modulo 2^32. |
| `SnapshotHash.AbsorbIsInjective` | src/audit-guard/src/protocol-state-machine.ts:268-271 | The xor-multiply step is injective in the state for a fixed unit and in the unit for a fixed state. |
| `SnapshotHash.WordReadsBack` | src/audit-guard/src/protocol-state-machine.ts:273-275 | Eight padded hex digits can be read back to the word. |
| `SnapshotHash.ComputeSnapshotHash` | src/audit-guard/src/protocol-state-machine.ts:264-276 | The loop computes the digest, whose injectivity is stated next. |
| `SnapshotHash.OneChangeChangesDigest` | src/audit-guard/src/protocol-state-machine.ts:264-276 | Equally long inputs that differ in exactly one UTF-16 unit never have the same digest. |
| `ProtocolMachine.ProtocolStateMachine.Apply` | src/audit-guard/src/protocol-state-machine.ts:371-423 | The new state and record, or the error and no change, in the order of the checks; AcceptedByLog says which events those are. |
| `ProtocolMachine.ProtocolStateMachine.Commit` | src/audit-guard/src/protocol-state-machine.ts:480-519 | The new state and the record of one transition. |
| `ProtocolMachine.ProtocolStateMachine.ShutDown` | src/audit-guard/src/protocol-state-machine.ts:456-459 | Only the stopped flag changes. |
| `ProtocolMachine.RunIsGenuine` | src/audit-guard/src/protocol-state-machine.ts:371-519 | After every run: IDLE if and only if no scan is active; every record ever committed is numbered consecutively, linked by state and recomputable hash and of the scan in progress; the retained history is exactly the last maxHistoryDepth records. |
| `ProtocolMachine.SituationOf` | src/audit-guard/src/protocol-state-machine.ts:160-186 | After any run, the state says exactly in which of four situations the full log is: no scan, a scan just started, its report under way, or ended. |
| `ProtocolMachine.AcceptedByLog` | src/audit-guard/src/protocol-state-machine.ts:371-423 | After any run of a machine that is not stopped, and for an event within the clock skew: RESET is always accepted; SCAN_STARTED if and only if no scan is in progress; right after the start of a scan, its SCAN_COMPLETED and SCAN_FAILED and nothing else; while its report is under way, its REPORT_STARTED, REPORT_DELIVERED and REPORT_FAILED and nothing else; after its end nothing. Each with the state it leads to, and all read off the log. |
| `ProtocolMachine.EventsBelongToTheirScan` | src/audit-guard/src/protocol-state-machine.ts:371-423 | Between a scan's start and the next, every committed event but RESET carries that scan's id. |
| `ProtocolMachine.DoneMeansDelivered` | src/audit-guard/src/protocol-state-machine.ts:160-186 | In every permitted log, DONE is reached only by delivering a report right after a scan start, its completion and report starts, all under one scan id. |
| `ProtocolMachine.FailedMeansFailure` | src/audit-guard/src/protocol-state-machine.ts:160-186 | FAILED is reached only by a failure of the scan in progress: right after its start, or while its report is under way. |
| `ProtocolMachine.FinalUntilReset` | src/audit-guard/src/protocol-state-machine.ts:160-186 | DONE and FAILED are left by RESET alone, and a scan starts only from IDLE, after a RESET or at the beginning. |
| `ProtocolMachine.RejectionChangesNothing` | src/audit-guard/src/protocol-state-machine.ts:371-450 | A rejected event changes nothing, a stopped machine rejects all, an accepted one counts once. |
| `ProtocolMachine.RefusedAnyway` | src/audit-guard/src/protocol-state-machine.ts:371-388 | A stopped machine, or an event outside the clock skew, is refused with its own error, whatever the log. |
| `ProtocolMachine.HashInputDecodes` | src/audit-guard/src/protocol-state-machine.ts:480-519 | Two transitions after hashes of one length are hashed as the same text only if previous hash, both states, kind, number and JSON text of the event all agree. |
| `ProtocolMachine.ForgedEventShows` | src/audit-guard/src/protocol-state-machine.ts:264-276 | In a genuine log, exchanging an event for one of the same kind whose JSON text differs in one unit breaks the hash of its record. |
| `ProtocolMachine.ForgedHashShows` | src/audit-guard/src/protocol-state-machine.ts:480-519 | Changing one digit of a record's hash breaks the record after it. |
| `TreasuryTimeLock.TimeLock.ApplyTimeTransition` | src/audit-guard/src/lib.rs:738-753 | A record that is not terminal gets the status of the moment; nothing else changes. |
| `TreasuryTimeLock.TimeLock.Schedule` | src/audit-guard/src/lib.rs:466-499 | The new table and result of scheduling. |
| `TreasuryTimeLock.TimeLock.Release` | src/audit-guard/src/lib.rs:512-547 | The new table and result of a release. |
| `TreasuryTimeLock.TimeLock.Cancel` | src/audit-guard/src/lib.rs:549-582 | The new table and result of a cancellation. |
| `TreasuryTimeLock.RunIsSafe` | src/audit-guard/src/lib.rs:466-582 | In every run, on any clock and with u64 wrap-around, every record is consistent and the active requests never exceed the limit. |
| `TreasuryTimeLock.ExecutionIsTimely` | src/audit-guard/src/lib.rs:281-290 | An executed request lies within its window, at least the minimum delay after its creation, within the amount limit, and is not cancelled. |
| `TreasuryTimeLock.TerminalIsForever` | src/audit-guard/src/lib.rs:512-582 | Executed and cancelled records never change again. |
| `TreasuryTimeLock.ExecutedAtMostOnce` | src/audit-guard/src/lib.rs:512-547 | The number of successful releases of an id is 1 if its record is executed and 0 otherwise. |
| `TreasuryTimeLock.OutcomeIff` | src/audit-guard/src/lib.rs:466-582 | On every reachable table each call succeeds if and only if the limits, the record and the time allow it; a status stored earlier, even Expired, does not matter. |
| `TreasuryTimeLock.SuccessIsRecorded` | src/audit-guard/src/lib.rs:512-582 | After any run, a release or cancellation that succeeded in it is still recorded: executed at the time of that call, or cancelled at that time with the trimmed reason. |
| `TreasuryTimeLock.RecordIsCaused` | src/audit-guard/src/lib.rs:512-582 | Conversely every execution time in a record is that of a successful release, and every cancellation time and reason those of a successful cancellation. |
| `TreasuryTimeLock.ScheduledIsKept` | src/audit-guard/src/lib.rs:466-499 | A request once scheduled stays in the table as given, with its expiry. |
| `TreasuryTimeLock.RefusalMeaning` | src/audit-guard/src/lib.rs:512-582 | On every reachable table, which error a refused release or cancellation has, and what it says about the record and the time. |
| `TreasuryTimeLock.ScheduleRefusalMeaning` | src/audit-guard/src/lib.rs:466-484 | Which of the four errors a refused scheduling has, in the order of the checks; the table stays as it was. |
| `TreasuryTimeLock.StepRefreshes` | src/audit-guard/src/lib.rs:512-582 | Whatever it answers, a release, or a cancellation for a proper reason, leaves its record classified as of the moment. |
| `TreasuryTimeLock.ExecutableIff` | src/audit-guard/src/lib.rs:466-547 | A scheduled request can be executed at some time if and only if its expiry does not overflow. |
| `TreasuryTimeLock.OverflowIsReached` | src/audit-guard/src/lib.rs:466-499 | A run that reaches the failing side: a request that can never be executed, and whose expiry the sweep misses. |
| `TreasuryTimeLock.VerifyStateIntegrity` | src/audit-guard/src/lib.rs:584-711 | The sweep passes if and only if every record passes its check; otherwise the error is that of the first failing record in key order; the counts are the true numbers of ready and expired records. |
| `TreasuryTimeLock.SweepMeaning` | src/audit-guard/src/lib.rs:584-711 | On every reachable table the sweep passes if and only if every record is up to date or hides an expiry behind an overflow, which needs an overflow. |
| `TreasuryTimeLock.SweepIsExact` | src/audit-guard/src/lib.rs:584-711 | Without overflow, it passes if and only if every non-terminal status equals the classification at that time. |
| `TreasuryTimeLock.PendingCheckIsExactIff` | src/audit-guard/src/lib.rs:606-622 | For a pending record the check is exact at all times if and only if its expiry does not overflow (or the grace is the largest u64). |
| `Intervals.AddIsSoundAndTight` | src/audit-guard/src/abstract-interpreter.ts:13-19 | The sum and the difference of two intervals hold exactly the sums and differences of their members. |
| `Intervals.MulByScan` | src/audit-guard/src/abstract-interpreter.ts:21-35 | The min/max loop over the four corners computes the product, whose meaning is stated next. |
| `Intervals.MulIsSound` | src/audit-guard/src/abstract-interpreter.ts:21-35 | The product of any two members lies in the product interval, whatever the signs. |
| `Intervals.MulIsTight` | src/audit-guard/src/abstract-interpreter.ts:21-35 | Both ends of the product interval are products of members. |
| `ExpressionEvaluator.EvaluateIsCore` | src/audit-guard/src/abstract-interpreter.ts:61-98 | Trimming between operators does not matter: the evaluator equals one that trims atoms only, on every string no part of which is a variable name that holds an operator. |
| `ExpressionSoundness.EvaluatedIsGood` | src/audit-guard/src/abstract-interpreter.ts:61-98 | Whatever evaluates consists of terms of at most one product over evaluable atoms. |
| `ExpressionSoundness.EvaluationIsSound` | src/audit-guard/src/abstract-interpreter.ts:61-98 | For every string with at most one plus sign and at most one minus sign on either side of it, and no part that is a variable name holding an operator, the result, if any, contains the ordinary-precedence value under every assignment drawn from the intervals. |
| `ExpressionSoundness.RepeatedMinusBindsWrongly` | src/audit-guard/src/abstract-interpreter.ts:61-98 | For any four atoms, a - b * c - d is evaluated as (a - b) * (c - d). |
| `ExpressionSoundness.RepeatedPlusBindsWrongly` | src/audit-guard/src/abstract-interpreter.ts:61-98 | For any four atoms, a + b - c + d is evaluated as (a + b) - (c + d). |
| `ExpressionSoundness.RepeatedMinusIsUnsound` | src/audit-guard/src/abstract-interpreter.ts:61-98 | An input whose result does not contain its value. |
| `ExpressionSoundness.OperatorNameIsUnsound` | src/audit-guard/src/abstract-interpreter.ts:61-98 | A string that is itself such a name is looked up as a whole, and the result does not contain its value. |
| `ExpressionExactness.SoundIffSimple` | src/audit-guard/src/abstract-interpreter.ts:61-98 | For every string over variables that evaluates at all, but for one shape: it is evaluated soundly in every state if and only if it has at most one plus sign and at most one minus sign on either side of it. |
| `ExpressionExactness.SimpleEvaluatesIff` | src/audit-guard/src/abstract-interpreter.ts:61-98 | A string with at most one plus sign and at most one minus sign on either side evaluates if and only if each of its terms is an evaluable atom or a product of two. |
| `ExpressionExactness.ExactOnPoints` | src/audit-guard/src/abstract-interpreter.ts:61-98 | Where every variable has one value only, the result of such a string is its value and no more. |
| `ExceptionalShape.ExceptionalIsSoundIff` | src/audit-guard/src/abstract-interpreter.ts:61-98 | A string of the one shape, a - b + c * d with one more sum and difference behind, is evaluated soundly in every state if and only if its value is always the product of the values of its two sides. |
| `ExceptionalShape.PairedIsSound` | src/audit-guard/src/abstract-interpreter.ts:61-98 | So a - a + c * d + e - e is sound in every state although its signs repeat. |
| `SpikeScan.CountWindow` | src/audit-guard/src/log-analyzer.ts:83-90 | The inner loop counts exactly the errors from an index on within the window that opens there. |
| `SpikeScan.DetectSpikes` | src/audit-guard/src/log-analyzer.ts:78-104 | A threshold below 1 makes the scan read past the end and throw. Otherwise, despite skipping ahead, every report counts exactly the errors in its window by a plain recount, is graded by the threshold, reports are disjoint and in order, and every index that opens a window with enough errors lies in some report. |
| `SpikeScan.NeverAdvances` | src/audit-guard/src/log-analyzer.ts:78-104 | With a threshold below 1 and a negative window the loop stays at its index for ever. |
| `SpikeScan.CountIsRecount` | src/audit-guard/src/log-analyzer.ts:83-90 | The count from a window's first error is the recount of all errors whose time lies in it. |

## Left out

- ExpressionSoundness.EvaluationIsSound: one direction, because strings with literals may be evaluated soundly by accident (0-0*0-0). For strings over variables, ExpressionExactness.SoundIffSimple has both.
- RbacPermissions.ResolveAllPermissions: beyond short chains its closure is bounded from both sides, not described in closed form; what is lost there depends on the order of resolution. The resolver function gives it exactly, RbacPermissionLoss the cases of chains and rings, and the escalation verdict is exact all the same.
- SpikeScan.DetectSpikes: starts from errors already sorted by time, as the source sorts them, and does not cover a threshold below 1 with a negative window, where the source's loop does not end (SpikeScan.NeverAdvances).
- NonceStore.RunIsSafe: needs a careful run; NonceRisk.NeverFallsIff shows that condition to be exact. The length of the acquire timeout and the spin wait are not modelled, and a file that parses to an object holds numbers.
- WorkerPool.ProcessWithConcurrency: a task that rejects is not modelled, as `processEntry` catches everything.
- Time lock: error messages are reduced to their kind.
- ProtocolMachine.ProtocolStateMachine.Apply: observers and hooks are not modelled, and so are assumed not to call back.
- JsonNormalization.CanonicalizesIff: sparse arrays, accessor properties and symbol keys are not modelled.
- Relay.Bridge.Relay: latency, timestamps and error texts of a response, the sorting of endpoints by priority in the constructor and the request headers are not modelled.
- RBAC: policies whose fields have the wrong type, `buildHierarchy`, the list of admin users and all report text.
- Batch processing: gas results, warnings other than the duplicate mark, and the SHA-256 integrity hash.
- Telemetry guard: `tokensRemaining`, snapshots, and logging.
- NonceReuse.Detector.Analyze: when the save that follows throws, the source returns none of the alerts; the model keeps the two steps apart.
- Anomaly detector: alerts other than nonce reuse and nonce spikes.
- Log analyzer: single error-pattern alerts, which are regular expressions.
- HTTP, ledger, object-store, webhook and dashboard access; pattern libraries and scanners; cryptographic primitives; command lines and user interfaces.
- Exit, failover, queue, tiering, diff, policy-bundle, gate and gas-profiling components: they would only add easy members.

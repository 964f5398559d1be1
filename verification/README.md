# Verification model of the XID identity platform

A Dafny model of the parts of the platform whose correctness rests on an argument over many steps or many inputs, with
proofs. `dafny verify dfyconfig.toml` checks the whole project.

What is modelled, by area:

- **Organisation units** (`UnitPaths`, `OrgUnits`, `OrgUnitRaces`, `OrgUnitSchedules`, `OrgUnitQueries`). A forest kept
  twice in one table: as parent pointers and as `path`/`depth` columns. Statements and batches are atomic steps on the
  table; in `OrgUnitRaces` every read is a step of its own, so that a batch may run on stale snapshots;
  `OrgUnitSchedules` has schedules that show what is lost then. `OrgUnits.OrgUnitTable` has the operations as methods on
  a mutable table.
- **Promise-chain mutex and one-shot records** (`PromiseJobs`, `PromiseMutex`, `PendingAuthorization`). Callers, tail
  promises and the job queue are explicit. `Early` is the form whose gate exists before the wait, `Late` the form whose
  `release` is bound by a callback. `PromiseMutex.MutationTails` is the shared map as an object.
- **Session storage** (`SessionStore`, `SessionManager`, `SessionMutex`). `SessionStore` is a machine with one step per store call: any
  call may be rejected, with or without having taken effect, and the process may die between any two.
  `SessionManager` has the code itself, over a cache with faults, and shows that each method follows a run of that
  machine. `SessionMutex` puts the operations inside the promise mutex.
- **Token cache** (`TokenManager`), **refresh families** (`RefreshFamily`), **JWT** (`Jwt`, `Base64Url`).
- **Signing keys** (`KeyRotation`, `KeyRollout`). `KeyRotation` goes from stored rows to a verifier and has the steps of
  `planRotation`. `KeyRollout` is the rotation as deployed: the statements of the daily job and of the activate route,
  each on its own clock, with JWKS that are rendered, cached and served at times of their own.
- **Byte and text kernels**: `EcdsaSig`, `CbcPadding`, `Calendar`, `SamlInstant`, `RedirectBinding`, `XmlEscape`,
  `RandomString`. `Text` holds splitting and joining, `Arithmetic` two facts about division.

What is abstract: SHA-256 of a refresh token stands for the token (a presented token is the row it hashes to); AES under
one key is an arbitrary permutation of 16-byte blocks (`CbcPadding.IsBlockCipher`); a signature is valid or not for a
key pair (`valid`); JSON in UTF-8 is a pair of functions of which parsing undoes writing (`Jwt.IsJson`). Clocks, random
bytes and the order of concurrent events are inputs, and every theorem holds for all of them. A loop that waits for
enough random bytes is given a number of buffers and may answer that it is still running. The KV cache answers with the
latest entry of a key or none; an older entry that another location may still serve is not part of the model. Strings
are sequences of Unicode scalar values, so a lone surrogate, on which `encodeURIComponent` throws, does not occur.

Where code and comment disagree the code is modelled:

- `packages/db/src/org-units.ts:223` says that when statement 1 of a move fails statement 2 changes no row. That holds
  from every table whose paths agree with its pointers (`OrgUnitRaces.MissedMoveChangesNothing`) but not from every
  table the code can reach: `OrgUnitSchedules.ConflictThatRewrites` gives three moves after which a batch reports a
  conflict and has still rewritten a row, and `OrgUnitRaces.MissedMoveChangesIff` says exactly when.
- `apps/server/worker/oauth/revoke.ts:130` says that the whole family is revoked. It stays revoked exactly when no
  rotation of it is between its two writes (`RefreshFamily.EndpointRevocationLastsIff`), because this statement sets no
  family fence, unlike the one at `apps/server/worker/oidc/token-grants.ts:479-490`;
  `RefreshFamily.EndpointMissesRotation` is a run after which the family works on.
- `apps/server/worker/oidc/jwks.ts:11` says that publishing a next key changes the cache key and so drops old entries.
  The cache key holds the active kid only, which publishing does not change: `KeyRollout.TwoCachesMiss` is a run in which
  a key is activated after its full waiting time and yet a verifier, within the `max-age` of what it was served, does
  not know it. A verifier knows a key exactly when its JWKS was rendered after the key was stored
  (`KeyRollout.ServedKnowsIff`, and for the active key `KeyRollout.ActiveKnownIff`). Without the second cache that is so
  from the first token on (`KeyRollout.ServedVerifies`); `KeyRollout.TokenVerifies` gives ages that suffice.

Results that turned out conditional, with the exact condition proved: a DER round trip needs two non-zero coordinates
(`EcdsaSig.RoundTripIff`); a parsed JWT needs a non-empty kid, alg and signature (`Jwt.ParseOfSign`); a printed instant
parses back in the years 1 to 9999 only (`SamlInstant.ParseOfPrint`); a late move keeps links, depth bound and activity
under the conditions of `OrgUnitRaces.MoveLinkedIff`, `OrgUnitRaces.MoveDepthIff` and `OrgUnitRaces.MoveActiveIff`, all
three together under `OrgUnitRaces.MoveForestIff`, and a late archive keeps activity under that of
`OrgUnitRaces.ArchiveActiveIff`; forests and schedules that break each of them are in `OrgUnitSchedules`; a unit path read
earlier selects its descendants or nobody (`OrgUnitQueries.StalePathSelects`).

## Model

| member | source | states |
|---|---|---|
| UnitPaths.IdsOfPath | packages/db/src/org-units.ts:97 | a path cuts back into the ids it was built from, because ids have one fixed length |
| UnitPaths.PathOfIds | packages/db/src/org-units.ts:97 | a string of whole segments is the path of the ids cut out of it |
| UnitPaths.PrefixIffIds | packages/db/src/org-units.ts:199 | a path is a string prefix of another up to a slash exactly when its ids are a prefix of the other ids |
| UnitPaths.GlobIffIds | packages/db/src/org-units.ts:202-203 | the GLOB pattern `path*` matches exactly the paths whose ids start with the ids of `path`; no id holds a wildcard |
| UnitPaths.SplitPath | packages/db/src/org-units.ts:459 | splitting a path at slashes and dropping empty parts gives its ids |
| OrgUnits.GlobIffDescendant | packages/db/src/org-units.ts:202-203 | in a linked table the GLOB match holds exactly for the unit and its descendants by parent pointers, all in the same organisation |
| OrgUnits.NoCycle | packages/db/src/org-units.ts:187-256 | parent pointers never lead back to where they started |
| OrgUnits.PathIndexNeverFires | packages/db/src/schema/org-units.ts:30 | two rows never collide in the path index, so only a slug can make a statement fail |
| OrgUnits.MoveReroots | packages/db/src/org-units.ts:211-249 | the two statements together give every row of the subtree its new path and depth exactly once, and touch no other row |
| OrgUnits.MoveRollback | packages/db/src/org-units.ts:211-249 | a move batch is rolled back exactly when a sibling with the same slug exists under the target |
| OrgUnits.MoveKeepsForest | packages/db/src/org-units.ts:188-256 | a move keeps the whole forest invariant: paths, depths up to 8, links, activity, unique indexes |
| OrgUnits.CreateKeepsForest | packages/db/src/org-units.ts:82-158 | so does a create, with or without a parent |
| OrgUnits.ArchiveKeepsForest | packages/db/src/org-units.ts:258-271 | so does an archive |
| OrgUnits.UpdateKeepsForest | packages/db/src/org-units.ts:166-185 | so does an update of slug or manager |
| OrgUnits.RunKeepsForest | packages/db/src/org-units.ts:82-271 | over every run of non-interleaved operations the table stays a forest |
| OrgUnits.MoveOutcome | packages/db/src/org-units.ts:188-256 | for every input which error a move reports and when, that every error leaves the table alone, and that success moves exactly the descendants, under the target |
| OrgUnits.CreateOutcome | packages/db/src/org-units.ts:82-158 | for every input which error a create reports and when; success adds that one row |
| OrgUnits.ArchiveOutcome | packages/db/src/org-units.ts:258-271 | for every input when an archive succeeds, on an active unit without active children, changing its status only; an active child is a conflict |
| OrgUnits.UpdateOutcome | packages/db/src/org-units.ts:166-185 | for every input an update fails exactly on a unit the organisation does not have or a slug a sibling carries, and otherwise sets exactly the fields of the patch |
| OrgUnits.OrgUnitTable.CreateUnit | packages/db/src/org-units.ts:82-158 | the method follows the specified operation and keeps the forest |
| OrgUnits.OrgUnitTable.MoveUnit | packages/db/src/org-units.ts:188-256 | likewise, with the depth check as the loop over the rows read |
| OrgUnits.OrgUnitTable.SubtreeMaxDepth | packages/db/src/org-units.ts:203-204 | the largest depth among the rows under the node, at least the node's own |
| OrgUnits.OrgUnitTable.UpdateUnit | packages/db/src/org-units.ts:166-185 | the method follows the specified operation and keeps the forest |
| OrgUnits.OrgUnitTable.ArchiveUnit | packages/db/src/org-units.ts:258-271 | the method follows the specified operation and keeps the forest |
| OrgUnitRaces.EveryInterleavingConsistent | packages/db/src/org-units.ts:193-252 | under every interleaving of reads and batches each row's depth is its number of path segments and its last segment is its id |
| OrgUnitRaces.WholeMove | packages/db/src/org-units.ts:188-256 | with nothing in between, the reads and the commit of a move come to the whole move |
| OrgUnitRaces.WholeCreate | packages/db/src/org-units.ts:82-158 | likewise for a create |
| OrgUnitRaces.WholeArchive | packages/db/src/org-units.ts:258-271 | likewise for an archive |
| OrgUnitRaces.WholeUpdate | packages/db/src/org-units.ts:166-185 | likewise for an update |
| OrgUnitRaces.LateMoveOutcome | packages/db/src/org-units.ts:199-256 | on any snapshots, however stale, what a move reports: a conflict exactly when it would enter its own subtree or the node has left the path read, and success only with the row under the target |
| OrgUnitRaces.LateCreateOutcome | packages/db/src/org-units.ts:94-133 | on any snapshot of the parent what a create reports: a conflict exactly when the parent is archived or has left the path read |
| OrgUnitRaces.MoveLinkedIff | packages/db/src/org-units.ts:188-256 | from any stale snapshot, a batch that takes effect re-roots the subtree and leaves a linked table exactly when the target is still where it was read |
| OrgUnitRaces.MissedMoveChangesIff | packages/db/src/org-units.ts:223-249 | a batch whose first statement matches nothing still changes a row exactly when the node already landed there and something lies under its old path |
| OrgUnitRaces.MissedMoveChangesNothing | packages/db/src/org-units.ts:223-249 | from a linked table such a batch changes no row |
| OrgUnitRaces.FreshInterleavingLinked | packages/db/src/org-units.ts:193-252 | over every interleaving whose effective moves find their targets in place the table stays linked |
| OrgUnitRaces.FreshInterleavingForest | packages/db/src/org-units.ts:82-271 | over every interleaving in which each effective move finds its target in place, active for an active node, and its subtree fitting, and each archive finds no active child, the whole forest invariant holds |
| OrgUnitRaces.MoveDepthIff | packages/db/src/org-units.ts:203-208 | a late move keeps depth 8 exactly when the subtree present at commit time fits |
| OrgUnitRaces.MoveActiveIff | packages/db/src/org-units.ts:191-249 | a late move keeps active units under active units exactly when the target is still active or the node is not |
| OrgUnitRaces.MoveForestIff | packages/db/src/org-units.ts:188-256 | from a forest and any stale snapshot a batch that takes effect leaves a forest exactly under the three conditions together |
| OrgUnitRaces.ArchiveActiveIff | packages/db/src/org-units.ts:263-267 | a late archive keeps active units under active units exactly when no active child appeared since the read |
| OrgUnitRaces.StepForestIff | packages/db/src/org-units.ts:82-271 | one step of any operation leaves a forest exactly when it is fresh |
| OrgUnitSchedules.ConflictThatRewrites | packages/db/src/org-units.ts:250-252 | over any three childless roots a schedule of three moves ends in a reported conflict which rewrote a row |
| OrgUnitSchedules.StaleTargetStatus | packages/db/src/org-units.ts:191-256 | over the same roots a target archived after it was read ends above an active unit |
| OrgUnitSchedules.StaleDepthCheck | packages/db/src/org-units.ts:203-252 | from every forest with a childless root and a unit at depth 7 a schedule in which a child created after the depth check ends at depth 9 |
| OrgUnitSchedules.StaleChildrenCheck | packages/db/src/org-units.ts:263-267 | from every active unit without active children a schedule in which a child created after the read ends active under an archived parent |
| OrgUnitSchedules.DepthCanBreak | packages/db/src/org-units.ts:203-252 | in every organisation there is such a forest, built by eight creates |
| OrgUnitSchedules.ArchiveCanBreak | packages/db/src/org-units.ts:263-267 | likewise for the late archive |
| OrgUnitSchedules.MoveCanBreak | packages/db/src/org-units.ts:191-256 | likewise for the late move |
| OrgUnitSchedules.LinksCanBreak | packages/db/src/org-units.ts:188-256 | in every organisation a forest and a schedule of moves after which a path does not follow the pointers |
| OrgUnitQueries.SubtreeMembersExact | packages/db/src/org-units.ts:304-337 | an inactive or foreign unit is not found; otherwise, whatever happens between the two reads, the query returns in order exactly the members, with an active membership, of units reached from the unit through active units if the unit is still where it was read, and nobody otherwise |
| OrgUnitQueries.TextLessIff | packages/db/src/org-units.ts:322 | ids compare by their first difference, a prefix first |
| OrgUnitQueries.StalePathSelects | packages/db/src/org-units.ts:304-326 | a path read earlier selects exactly the descendants of its unit, or nothing once the unit has moved |
| OrgUnitQueries.DeepestIsFirst | packages/db/src/org-units.ts:463-469 | the deepest active managed unit on the path is the first one met walking up parent pointers |
| OrgUnitQueries.NoCandidateNoManager | packages/db/src/org-units.ts:468 | without one the walk up finds none |
| OrgUnitQueries.DeepestManager | packages/db/src/org-units.ts:460-470 | the scan in any row order returns the deepest managed active row on the path read |
| OrgUnitQueries.DeepestIsNearest | packages/db/src/org-units.ts:457-469 | on the path the unit still has, that row is what the walk up from the unit finds |
| OrgUnitQueries.ResolveApproverChain | packages/db/src/org-units.ts:448-470 | over three reads of different times the approver is the deepest managed row of the path read, and what the walk up from the user's one primary unit finds if that is still where it was read |
| OrgUnitQueries.SetPrimaryExact | packages/db/src/org-units.ts:431-440 | the batch makes exactly the given unit the user's primary one and never trips an index |
| OrgUnitQueries.AddPrimaryExact | packages/db/src/org-units.ts:365-397 | adding a primary member fails exactly on a taken id or an existing membership, and otherwise stores that primary row, clears the user's other rows and changes no others |
| PromiseMutex.EntersInOrder | packages/core/src/browser-oidc.ts:1068-1090 | per key one caller is inside at a time, and callers enter in calling order, for every interleaving and for operations that throw |
| PromiseMutex.ReleaseIsOwnGate | packages/react-native/src/use-sign-in.ts:78-84 | whoever is inside holds the resolver of its own gate, also in the late-bound form |
| PromiseMutex.NobodyIsStranded | packages/react-native/src/session-manager.ts:63-85 | while anybody waits a job is queued or somebody is inside |
| PromiseMutex.EveryRunDrains | packages/react-native/src/session-manager.ts:63-85 | without new callers every run ends within the remaining work, with everybody done and the map empty |
| PromiseMutex.TailsAreLive | packages/core/src/browser-oidc.ts:1086-1089 | the map has an entry exactly for keys with a caller waiting or inside, so deleting it lets nobody overtake |
| PromiseMutex.LateFormNeedsJobOrder | packages/react-native/src/use-sign-in.ts:78-87 | without first-in-first-out jobs the late-bound form strands a waiter |
| PromiseMutex.MutationTails.Call | packages/core/src/browser-oidc.ts:1072-1083 | the synchronous part of a call does one step of the machine on the shared map |
| PromiseMutex.MutationTails.RunJob | packages/core/src/browser-oidc.ts:1074-1083 | so does each promise job |
| PromiseMutex.MutationTails.Leave | packages/core/src/browser-oidc.ts:1086-1089 | so does the finally block |
| PendingAuthorization.ConsumedAtMostOnce | packages/react-native/src/use-sign-in.ts:72-121 | over all interleavings of sign-ins and callbacks, with rejected reads and deletes, each saved record is returned by at most one consume, and is then gone |
| PendingAuthorization.NoTwoReaders | packages/core/src/browser-oidc.ts:467-485 | two callbacks are never between reading and returning at once |
| PendingAuthorization.ConsumeOutcome | packages/react-native/src/use-sign-in.ts:89-120 | a record is returned exactly if it was found, deleted and valid; whatever else happens the callback throws, and only a delete takes the record away |
| PendingAuthorization.DiscardedIsGone | packages/react-native/src/use-sign-in.ts:89-120 | a record discarded before anybody read it is never handed out |
| PendingAuthorization.MutexFollows | packages/react-native/src/use-sign-in.ts:72-121 | callbacks arrive, take turns and leave as in a run of the mutex |
| PendingAuthorization.NobodyHangs | packages/react-native/src/use-sign-in.ts:72-121 | until every callback has left, a job or a step of the callback inside is possible |
| PendingAuthorization.MutexIsNeeded | packages/react-native/src/use-sign-in.ts:72-121 | without the mutex there is a run in which two callbacks return the same record |
| SessionStore.RunInv | packages/react-native/src/token-exchange.ts:97-204 | over every run with crashes and rejected calls only finished saves not yet invalidated are returned |
| SessionStore.ReturnedOnlyFinished | packages/react-native/src/token-exchange.ts:97-112 | a read returns a session only if its save finished |
| SessionStore.NoResurrection | packages/react-native/src/token-exchange.ts:161-175 | once a clear or save has written the marker no earlier session is ever returned |
| SessionStore.ClearedMeansNull | packages/react-native/src/token-exchange.ts:165-175 | after a successful clear no cleared key is left and only sessions saved later are returned |
| SessionStore.ClearSucceeded | packages/react-native/src/token-exchange.ts:165-175 | a clear reports success only at its last step, with every key removed |
| SessionStore.CommitReturnsOwn | packages/react-native/src/session-manager.ts:33-42 | a commit returns the session it saved |
| SessionStore.NullMeansNone | packages/react-native/src/session-manager.ts:18-27 | over every run, whatever was rejected or crashed, a restore answers null only when no session and no marker is left |
| SessionStore.RejectionOutcome | packages/react-native/src/token-exchange.ts:97-209 | what a rejected call leads to at every point |
| SessionStore.BatchFailed | packages/react-native/src/token-exchange.ts:97-209 | what a batch of deletes comes to when one was rejected |
| SessionStore.BatchStep | packages/react-native/src/token-exchange.ts:206-209 | deletes settle one by one and one rejection is remembered to the end |
| SessionStore.FinishedOutcome | packages/react-native/src/token-exchange.ts:97-112 | a save is finished at its last call, with the marker gone and its own envelope in the store |
| SessionStore.UndisturbedRestore | packages/react-native/src/session-manager.ts:18-27 | whatever a crash left behind, a restore without rejected calls ends within a counted number of calls, without marker, and returns a session or leaves none |
| SessionStore.NeverStuck | packages/react-native/src/token-exchange.ts:97-204 | an operation that has not ended always has a call to make |
| SessionMutex.OneOperation | packages/react-native/src/session-manager.ts:63-85 | over every interleaving of callers, jobs, storage calls and crashes at most one operation runs, and one begins only when none does |
| SessionMutex.RunFollows | packages/react-native/src/session-manager.ts:18-85 | every such interleaving is a run of the session machine |
| SessionMutex.MutexFollows | packages/react-native/src/session-manager.ts:63-85 | between crashes callers take turns as in a run of the mutex |
| SessionMutex.GivenOnlyFinished | packages/react-native/src/session-manager.ts:18-42 | over every such interleaving a caller is given only a session whose save finished |
| SessionMutex.NothingOldIsGiven | packages/react-native/src/session-manager.ts:18-85 | once the operation of any caller has written the marker nobody is given an earlier session |
| SessionMutex.LaterCallersAfterClear | packages/react-native/src/session-manager.ts:44-61 | whoever calls after a caller whose clear succeeds is given only a session saved later |
| SessionMutex.NobodyHangs | packages/react-native/src/session-manager.ts:63-85 | until every caller has left, a job or a step of the caller inside is possible |
| SessionManager.DeleteTokenKeys | packages/react-native/src/token-exchange.ts:206-209 | the batch of deletes reports success only when every key is gone, in any order of settling |
| SessionManager.ClearTokenSet | packages/react-native/src/token-exchange.ts:165-175 | the code follows the machine, and true means every key and the marker are gone |
| SessionManager.SaveTokenSet | packages/react-native/src/token-exchange.ts:97-112 | the code follows the machine; without rejected calls it leaves its own envelope, no marker and no legacy key |
| SessionManager.DiscardLegacyTokenSet | packages/react-native/src/token-exchange.ts:197-204 | the code follows the machine |
| SessionManager.ReadTokenSet | packages/react-native/src/token-exchange.ts:114-159 | the code follows the machine through both clears of the try and catch blocks; without rejected calls what it finds, and what it leaves in the store, is given for every store |
| SessionManager.XidSessionManager.Restore | packages/react-native/src/session-manager.ts:18-27 | a restore follows a run of the machine, never returns an expired session, and returns only a finished one that is not invalidated; without rejected calls its answer and the whole store after it are given for every store: a good session is returned until it has expired and cleared then |
| SessionManager.XidSessionManager.CommitAuthorizationSession | packages/react-native/src/session-manager.ts:33-42 | likewise, and what it returns is its own save; without rejected calls it returns a good session and stores exactly that, and throws on a refused one and clears it |
| SessionManager.XidSessionManager.Clear | packages/react-native/src/session-manager.ts:44-61 | likewise, and success leaves an empty store; without rejected calls it succeeds |
| TokenManager.CacheIsCurrent | packages/core/src/token-manager.ts:66-78 | over every interleaving the cache holds exactly the last token that a fetch of the current generation returned |
| TokenManager.GetTokenOutcome | packages/core/src/token-manager.ts:28-39 | at any point of any run a call is a hit exactly if it does not skip the cache and the last token of its generation outlives the leeway; otherwise it joins the open fetch of its generation or begins one |
| TokenManager.JoinedAreGivenTheAnswer | packages/core/src/token-manager.ts:54-64 | everybody who joined a fetch is given its one answer for good, also after a clear |
| TokenManager.OneOpenFetch | packages/core/src/token-manager.ts:54-64 | over every interleaving each generation has at most one open fetch, and that of the current one is in flight |
| TokenManager.ClearSeparates | packages/core/src/token-manager.ts:42-46 | no call made after a clear is served by a fetch that began before it |
| TokenManager.HitIsFresh | packages/core/src/token-manager.ts:28-39 | a cache hit implies now + leeway < exp of a token its fetch returned |
| TokenManager.StaleFinallyKeepsInflight | packages/core/src/token-manager.ts:59-61 | a finally callback drops exactly its own entry of the current generation |
| TokenManager.Manager.GetToken | packages/core/src/token-manager.ts:28-39 | the method does one step of the machine |
| TokenManager.Manager.FetchAnswered | packages/core/src/token-manager.ts:66-78 | so does the continuation of a fetch |
| TokenManager.Manager.FetchFinally | packages/core/src/token-manager.ts:59-61 | so does the finally callback |
| TokenManager.Manager.Clear | packages/core/src/token-manager.ts:42-46 | so does clear |
| RefreshFamily.NarrowScopeExact | packages/protocol/src/refresh.ts:109-122 | a requested scope is granted exactly when each of its words was granted before, and then word for word |
| RefreshFamily.JudgeOutcome | packages/protocol/src/refresh.ts:70-91 | for every table and request what a presentation leads to: replay, expiry, refusal, or rotation exactly in time, by its owner and within its scope |
| RefreshFamily.IssueOutcome | packages/protocol/src/refresh.ts:125-173 | issuing stores one row with everything the grant says |
| RefreshFamily.IssuedAcceptedIff | packages/protocol/src/refresh.ts:125-173 | over every run the first token of a family is accepted exactly when unrevoked, within idle time and absolute lifetime of the issue, by its client and key, for a scope within it, and bound if the client is public |
| RefreshFamily.RotatedAcceptedIff | packages/protocol/src/refresh.ts:175-210 | likewise a token that a rotation stored, with the idle time and scope of the request that rotated |
| RefreshFamily.ExpiredIsRevoked | apps/server/worker/oidc/token-grants.ts:275-288 | a presentation after the idle time or the absolute lifetime ends with the token revoked for good |
| RefreshFamily.OneLiveToken | apps/server/worker/oidc/token-grants.ts:298-338 | however requests interleave a family has at most one token that works or is about to be stored |
| RefreshFamily.FamilyIsOneChain | packages/protocol/src/refresh.ts:175-210 | a family is one chain of parents without branches along which scopes only shrink and every other grant field stays |
| RefreshFamily.AcceptedWithinFirstGrant | packages/protocol/src/refresh.ts:70-91 | nothing is accepted after first issue plus absolute lifetime, for another client or key, or for more scope |
| RefreshFamily.LoneRotation | apps/server/worker/oidc/token-grants.ts:293-337 | an undisturbed rotation replaces the token by one live successor with the narrowed scope |
| RefreshFamily.SecondSpendFences | apps/server/worker/oidc/token-grants.ts:327-332 | of two requests accepted with one token the later one revokes the family |
| RefreshFamily.FencedInsertIsRefused | apps/server/worker/oidc/token-grants.ts:333-337 | a rotation that finds its family fenced stores nothing and is refused |
| RefreshFamily.RevocationOutcome | apps/server/worker/oidc/token-grants.ts:479-490 | what each revoking statement does to each row, and that no other row changes |
| RefreshFamily.ReplayKillsFamily | apps/server/worker/oidc/token-grants.ts:281 | once the statement a replay asks for has run the family never works again and never grows, whatever was in flight |
| RefreshFamily.GrantsEndForGood | apps/server/worker/lib/revoke-user-credentials.ts:40-71 | once the grants of a user, or of a user at one client, are revoked none of their families works or grows again, whatever was in flight |
| RefreshFamily.EndpointRevocationLastsIff | apps/server/worker/oauth/revoke.ts:132-155 | the revocation endpoint ends a family for good exactly when no rotation is between its two writes or it was fenced already |
| RefreshFamily.EndpointMissesRotation | apps/server/worker/oauth/revoke.ts:132-155 | for every grant a run in which a rotation outlives the revocation of its family |
| KeyRotation.ApplyFollowsPlan | packages/crypto/src/signing-key.ts:107-126 | the rows after a step have the kids and statuses of the plan, in its order |
| KeyRotation.PlanOutcome | packages/crypto/src/signing-key.ts:107-126 | what each step of the plan means: one next key at the end, statuses moved, the target removed with the rest in order |
| KeyRotation.ResolvesIff | packages/crypto/src/jwt.ts:93-100 | a kid resolves to exactly what the usable rows publish under it, and to nothing exactly when none does and no lone key has the empty kid |
| KeyRotation.SignerIsPublished | packages/db/src/tenant-context.ts:194-220 | with any key, active or not, header and signer name one published key |
| KeyRotation.NoKeysNoSigner | packages/db/src/tenant-context.ts:194-220 | without any key there is no signer and no kid resolves |
| KeyRotation.VerifiesUntilRetired | packages/crypto/src/jwt.ts:159-173 | a token signed now is judged by its own pair under every later JWKS until its kid is retired |
| KeyRotation.OlderJwksVerifies | packages/crypto/src/jwks.ts:25-32 | an older JWKS that already listed the kid judges later tokens the same way |
| KeyRotation.RetiredIsUnknown | packages/crypto/src/signing-key.ts:125 | a retired kid resolves to nothing until published again, unless the one key left has the empty kid |
| KeyRotation.KeepsOneActiveIff | packages/crypto/src/signing-key.ts:112-125 | from at most one active key no step makes a second, and exactly the safe steps leave one |
| KeyRotation.AtMostOneAlways | packages/crypto/src/signing-key.ts:107-126 | over every run, safe or not, kids stay unique and at most one key is active |
| KeyRotation.OneThroughoutIff | packages/crypto/src/signing-key.ts:107-126 | exactly one key is active after every step of a run exactly when each step is safe |
| KeyRollout.OneSignerAlways | apps/server/worker/platform/signing-keys.ts:140-156 | however the daily job, the activate route and JWKS requests interleave, kids are unique, exactly one key is active and at most one is next |
| KeyRollout.StatementOutcome | apps/server/worker/crons/daily.ts:83-163 | what each statement makes of each row, with its times |
| KeyRollout.RetiredIsGone | apps/server/worker/crons/daily.ts:83-90 | over every run a key taken down is in no JWKS rendered later |
| KeyRollout.AnswerOutcome | apps/server/worker/oidc/jwks.ts:15-24 | what a JWKS request is served and what it leaves in the cache |
| KeyRollout.TokenVerifies | apps/server/worker/platform/signing-keys.ts:28-31 | a token is judged by its own pair under every JWKS rendered less than the waiting time before its signing and up to the grace period after, each less the delay of commits |
| KeyRollout.EarlierMisses | apps/server/worker/platform/signing-keys.ts:28-31 | the first of these two ages cannot be any earlier |
| KeyRollout.LaterMisses | apps/server/worker/platform/signing-keys.ts:28-31 | nor the second any later |
| KeyRollout.VerifiesForLife | apps/server/worker/platform/signing-keys.ts:30-31 | so a token of any permitted lifetime verifies until it expires |
| KeyRollout.ServedVerifies | apps/server/worker/oidc/jwks.ts:15-24 | when nothing takes time, every JWKS served from the signing on verifies it until the grace period is over |
| KeyRollout.ServedKnowsIff | apps/server/worker/oidc/jwks.ts:10-33 | over every run a served JWKS, however old, resolves a key that is not retired exactly when the key was stored before the JWKS was rendered |
| KeyRollout.ActiveKnownIff | apps/server/worker/oidc/jwks.ts:10-33 | so it judges tokens of the active key by its own pair exactly then, and otherwise does not know the kid, unless it holds one key with the empty kid |
| KeyRollout.TwoCachesMiss | apps/server/worker/oidc/jwks.ts:10-33 | a run in which a verifier within the max-age of its JWKS does not know the active key |
| Base64Url.RoundTrip | packages/crypto/src/base64url.ts:5-27 | decoding undoes encoding on every byte string |
| Base64Url.EncodedForm | packages/crypto/src/base64url.ts:11 | the output is unpadded, of the URL alphabet, without dots, and of the length the bits need |
| Base64Url.EncodedBits | packages/crypto/src/base64url.ts:5-12 | each character is its group of six bits, by the table of RFC 4648 |
| Base64Url.OthersAreRefused | packages/crypto/src/base64url.ts:18-27 | a string with a character outside both alphabets, fill and white space is refused |
| Base64Url.DecodeUrl | packages/crypto/src/base64url.ts:18-27 | a string of the URL alphabet decodes exactly when its length is not 1 modulo 4 |
| Base64Url.EncodeOfDecodeIff | packages/crypto/src/base64url.ts:5-27 | of the strings that decode to some bytes only the one with zero left-over bits is their encoding |
| Base64Url.EncodeBytes | packages/crypto/src/base64url.ts:5-12 | the chunked loop computes the encoding, whatever the chunk size |
| Base64Url.DecodeString | packages/crypto/src/base64url.ts:18-27 | the byte loop computes the decoding |
| Jwt.ParseOfSign | packages/crypto/src/jwt.ts:138-157 | parsing a signed token gives back its parts, exactly unless kid, alg or signature is empty |
| Jwt.ParseIff | packages/crypto/src/jwt.ts:138-157 | parsing reads exactly the tokens of three non-empty decodable parts whose header names a key and an algorithm |
| Jwt.SigningInputDetermines | packages/crypto/src/jwt.ts:138-157 | the signing input determines the header and the payload that are read |
| Jwt.VerifyOutcome | packages/crypto/src/jwt.ts:93-195 | for every token, key list and options: accepted exactly if it parses, is signed by the published key of its kid, in time and as expected; and what each refusal means |
| Jwt.SignedIsAccepted | packages/crypto/src/jwt.ts:175-195 | a token signed under the active key is accepted under every later JWKS until its kid is retired exactly when it is in time and as expected |
| EcdsaSig.DerIntegerMinimal | packages/crypto/src/ecdsa-sig.ts:6-17 | the encoder writes the shortest non-negative INTEGER of the coordinate's value, at most 33 octets |
| EcdsaSig.EncodingIsShort | packages/crypto/src/ecdsa-sig.ts:25-37 | the two INTEGERs take at most 70 octets, so the short length form always fits |
| EcdsaSig.AcceptedIff | packages/crypto/src/ecdsa-sig.ts:42-75 | accepted are exactly two INTEGERs of 1 to 32 value octets in a short-form SEQUENCE that ends with them |
| EcdsaSig.ReadOutcome | packages/crypto/src/ecdsa-sig.ts:42-60 | for every input and offset what reading an INTEGER comes to |
| EcdsaSig.DecodeOutcome | packages/crypto/src/ecdsa-sig.ts:63-75 | for every input when decoding is refused and with which error |
| EcdsaSig.DecodesValues | packages/crypto/src/ecdsa-sig.ts:42-75 | any accepted encoding, minimal or not, yields the two unsigned values |
| EcdsaSig.RoundTripIff | packages/crypto/src/ecdsa-sig.ts:19-75 | decoding undoes encoding exactly when neither coordinate is zero, and otherwise fails |
| EcdsaSig.ReencodeIff | packages/crypto/src/ecdsa-sig.ts:19-75 | re-encoding gives back exactly the signatures whose INTEGERs are minimal |
| EcdsaSig.ToDerInteger | packages/crypto/src/ecdsa-sig.ts:6-17 | the loop computes the specified content octets |
| EcdsaSig.P1363ToDer | packages/crypto/src/ecdsa-sig.ts:19-39 | the buffers are filled with the specified encoding; any other input length is refused |
| EcdsaSig.ReadDerInteger | packages/crypto/src/ecdsa-sig.ts:42-60 | reads the specified element or reports the specified error |
| EcdsaSig.DerToP1363 | packages/crypto/src/ecdsa-sig.ts:63-75 | decodes as specified or reports the specified error |
| CbcPadding.SentinelReveals | packages/saml/src/decrypt.ts:81-99 | the appended block decrypts to a full PKCS#7 block, so the API returns every block before it |
| CbcPadding.StripIff | packages/saml/src/decrypt.ts:91-97 | the API takes off exactly what PKCS#7 puts on |
| CbcPadding.DecryptsAsXmlEnc | packages/saml/src/decrypt.ts:66-103 | the API call never fails; decryption fails exactly on a bad block length or a last byte outside 1..16 |
| CbcPadding.DecryptsIff | packages/saml/src/decrypt.ts:66-103 | a message is returned exactly when the ciphertext is its encryption with a permitted filler |
| CbcPadding.RoundTrip | packages/saml/src/decrypt.ts:66-103 | every message comes back under every filler |
| CbcPadding.DataRoundTrip | packages/saml/src/decrypt.ts:141-144 | also through the split of the IV |
| CbcPadding.DataOutcome | packages/saml/src/decrypt.ts:66-144 | for every input: too short, not whole blocks, a bad last byte, or the blocks less what that byte says |
| CbcPadding.DecryptBuffer | packages/saml/src/decrypt.ts:66-103 | the code with its buffers computes the specified decryption |
| Calendar.ReadBackIff | packages/saml/src/instant.ts:37-49 | the Date read-back returns the same date exactly for the days the Gregorian calendar has |
| Calendar.DateOfDay | packages/saml/src/instant.ts:37-38 | the day number counts days of the Gregorian calendar from the epoch |
| Calendar.ClockReadBack | packages/saml/src/instant.ts:39-49 | a time within the day is read back unchanged |
| SamlInstant.ExecIff | packages/saml/src/instant.ts:3-9 | the expression matches exactly the written forms, each with its own fields |
| SamlInstant.FractionTruncates | packages/saml/src/instant.ts:39 | the fraction is truncated to milliseconds |
| SamlInstant.ParseIff | packages/saml/src/instant.ts:6-55 | accepted are exactly the written forms of real instants, with exactly the instant each denotes, zone included |
| SamlInstant.InstantIs | packages/saml/src/instant.ts:37-55 | the instant is the day's and the time of day's milliseconds less what the zone is ahead of UTC |
| SamlInstant.ParseOfPrint | packages/saml/src/idp.ts:72-74 | printed instants of the years 1 to 9999 come back to the millisecond and all others are refused |
| SamlInstant.YearIsWritten | packages/saml/src/idp.ts:72-74 | a year is printed with four digits, or outside 0 to 9999 with a sign and six |
| SamlInstant.FreshnessOutcome | packages/saml/src/logout.ts:400-437 | for every pair of attributes and every clock when a request is fresh, until when, and what each refusal means |
| SamlInstant.PrintedRequestWindow | packages/saml/src/logout.ts:400-437 | a printed logout request is fresh exactly from its issue less the tolerance until the earlier of its own end and five minutes |
| RedirectBinding.EncodingInjective | packages/saml/src/logout.ts:234-236 | encodeURIComponent determines its text |
| RedirectBinding.CharIsWritten | packages/saml/src/logout.ts:234-236 | a character is written as itself or as the escapes of its UTF-8 bytes |
| RedirectBinding.StringsAre | packages/saml/src/logout.ts:229-265 | the signed strings part by part |
| RedirectBinding.WireStringIs | packages/saml/src/logout.ts:255-265 | likewise the wire string |
| RedirectBinding.SignedStringsInjective | packages/saml/src/logout.ts:229-253 | the signed strings determine message, RelayState (absent, empty or a value) and algorithm; requests and responses never coincide |
| RedirectBinding.WireInjective | packages/saml/src/logout.ts:255-265 | the wire string over query values determines message name and values |
| RedirectBinding.WireMatchesIff | packages/saml/src/logout.ts:255-265 | it equals a signed string exactly when the query holds its encodings under its message name |
| RedirectBinding.UnsplitValuesCollide | packages/saml/src/logout.ts:255-265 | for values that hold a separator it does not |
| XmlEscape.EscapeIsSimultaneous | packages/saml/src/idp.ts:56-63 | the five replaces equal one simultaneous replacement |
| XmlEscape.UnescapeOfEscape | packages/saml/src/idp.ts:56-63 | one pass of unescaping undoes them on every string |
| XmlEscape.ScanIsComplete | packages/saml/src/precheck.ts:34-43 | the scan without overlap finds exactly the references in the text |
| XmlEscape.PrecheckIff | packages/saml/src/precheck.ts:24-51 | accepted are exactly the texts in which no forbidden construct stands and every reference is a predefined entity or a number |
| XmlEscape.EscapedPassesPrecheck | packages/saml/src/precheck.ts:24-51 | escaped text always passes the precheck |
| RandomString.Generate | packages/crypto/src/random.ts:7-32 | refuses exactly bad lengths and alphabets; otherwise returns the first accepted bytes of the stream, reduced, whatever the buffers, as soon as the buffers hold enough of them |
| RandomString.NewUnitId | packages/db/src/org-units.ts:30-49 | the inlined sampler is the same function of the stream, and its result is a unit id |
| RandomString.Base62Limit | packages/db/src/org-units.ts:30-33 | the inlined limit is the general one |
| RandomString.SymbolsAreEven | packages/crypto/src/random.ts:19-27 | each symbol has the same number of accepted byte values, and more than half of all bytes are accepted |
| RandomString.CountIs | packages/crypto/src/random.ts:19-31 | counting by brute force: how many byte strings make the output start with given symbols |
| RandomString.OutputIsUniform | packages/crypto/src/random.ts:19-31 | any two outputs of one length come from equally many byte strings, rejections included |

## Left out

- Routing, Workers entry points, queues, Durable Objects, React, Angular, Vue and Astro bindings, translations and build files: I/O and presentation.
- X.509, XML-DSig, DEFLATE, RSA-OAEP, the DOM and AES-GCM decryption: foreign code, abstract or absent.
- `schema-assertion.ts`, `saml11.ts`, `compliance.ts`, `tenant-db.ts`, discovery builders, `evaluateAuthorize`, `enforcePkceBinding`: single decisions that would add only easy members.
- Rows of organisation units carry no name, no timestamps and no member removal; `listChildren` and `listTree` are plain filters.
- The promise mutex, the one-shot records and the session machine are also modelled on values, because their properties range over interleavings; `PromiseMutex.MutationTails` and `SessionManager` carry the updates in place. The `WeakMap` that names a token cache in `use-sign-in.ts:123-133` is one key per cache here.
- KeyRotation applies the steps of `planRotation`, which nothing in the repository calls, to the stored rows. KeyRollout starts from one active key: the repair of an instance without keys, retiring keys that the fallback of `backfillRetiringKeyRetireAfter` dates, audit records and forced refetches by verifiers are not part of what it proves.
- Refresh requests: client authentication, the active-user check and access-token issuance appear only as a request that may fail between two statements; a token deleted again by the CIBA grant and erasure are not modelled.
- Base64 of the plain string wrappers, the other readers of `logout.ts` and the XML builders of `idp.ts`: calls to what is modelled.
- Number formats of `Number(..)` beyond digit strings, and instants outside the range of a Date inside the parser, do not occur for four-digit years.

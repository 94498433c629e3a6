# Kotowari: verified models of the knowledge core

Kotowari keeps claims, entities and decisions in one canonical store with an append-only event log, and derives
everything else from it. These Dafny modules model the parts of it where state, time and interleaving meet, in the
form the source gives them: classes for objects whose methods change fields, loops where it loops, functions where
it computes. Every method is proved against a function or a predicate, and the promises of the system are lemmas
about those, over every input, every run and every interleaving.

| area | modules |
|---|---|
| event-sourced entity identity: redirects, canonical ids, the propose, decide, merge and revert protocol | `Redirects`, `EntityIdentity`, `EntityResolution`, `ResolutionRuns`, `ResolutionGuards`, `ResolutionErrors` |
| the retrieval projection: an incremental index that must agree with a full rebuild under concurrent writers | `RetrievalProjection`, `ProjectionRuns` |
| graph neighbourhood search, written three times with three different frontiers | `GraphDistance`, `GraphSearch` |
| cardinality conflicts: detection by a sweep over start times, resolution, suppression in retrieval | `Conflicts`, `ConflictObjects`, `ConflictDetection`, `ConflictGroups`, `ConflictLedger`, `ConflictMeaning` |
| the bitemporal claim store in two physical layouts, and the decision audits that rely on it | `ClaimHistory`, `ClaimStore`, `DecisionAudit` |
| the rollout gate: shadow, canary, fallback, circuit breaker, counters and histograms | `ServingGate`, `ServingRuns` |
| semantic contracts: inheritance cycles, term resolution, schema inheritance | `Inheritance`, `SemanticContract`, `EntityTypeClosure` |
| reciprocal rank fusion and the fixed-window rate limiter | `Fusion`, `RateLimiter` |

Main results are stated twice: against the functions and predicates that a proof needs, and in the plain fields of
claims, rows, events and rules, so that they do not rest on a definition alone.

`Kernel` holds the shared vocabulary and `Sorting` the stable sort, with the facts its callers need.

## How the model reads the source

- Identifiers and terms are natural numbers. Only equality and one total order (the source's `localeCompare`) are
  used on them. Timestamps are integers, scores and durations are reals.
- Event ids, conflict ids and record ids are fresh and unique, as primary keys are. Authorization answers, reasons,
  identity signals, durations and the clock are parameters.
- A table is a map or a sequence, a transaction is one atomic step, and the order in which a query or a `Map` lists
  its entries is left open. So a result that depends on listing order only in its order is described by its members.
- The projection is maintained by one actor whose reads and commit are separate steps between which writers may
  step. The embedder is a deterministic function of a claim's text.
- A search through the serving gate is split at each `await` into segments; any interleaving of segments of any
  number of searches, status polls and resets is a run.

## Where the code does less than its surroundings suggest

Each of these is a lemma of the model.

- A literal's conflict key joins datatype and value with a colon, so different literals can share a key and a
  broken rule can go undetected (`ConflictObjects.CollisionIsMissed`). `Conflicts.LiteralKeysInjectiveIff` gives the exact
  condition on two datatypes, `ConflictObjects.ObjectsCoveredIff` the exact condition on a group of claims.
- The in-memory store checks a claim's scope on its current version, the record stores on every version.
  `ClaimHistory.AgreeEverywhereIff` says exactly which claims they read alike at every filter; those never retracted
  are the ones that never changed scope (`ClaimHistory.UnretractedAgreeIff`). The in-memory store can return a version outside the scope asked for
  (`ClaimHistory.MemoryLeavesScopeIff`).
- An audit is pinned inclusively: `DecisionAudit.BundleChangesIff` says exactly which later write changes a bundle,
  and one recorded in the instant of the pin can (`DecisionAudit.SameInstantRetractionShows`).
- A context is captured from claims read before `capturedAt` is stamped, in the indexed path without a status or
  time filter. `DecisionAudit.AuditReproducesCaptureIff` says exactly when the audit reads the same version.
- When searches overlap, a success already under way clears the error streak of a tripped gate
  (`ServingRuns.OverlapHidesStreak`). The rollback stays; `ServingRuns.RollbackIffTripped` says exactly when it is
  active and `ServingRuns.RollbackAndStreakDifferIff` exactly when the streak hides it.
- Contract validation does not exclude an alias that shadows the id of a later type. Closures and inherited
  requirements can be relied on exactly where nothing is shadowed (`EntityTypeClosure.ClosuresExactIff`,
  `EntityTypeClosure.RequirementsInheritedIff`); a shadowed subtype loses a requirement
  (`EntityTypeClosure.ShadowLosesRequirement`).
- A repeated type id can hide a cycle: the cycle check is exact whatever `extends` says exactly when ids are unique
  (`SemanticContract.CycleCheckExactIff`).
- Fused score components record one contribution per strategy. They add up to the score exactly when no two
  occurrences of the claim come under one strategy, and to less otherwise (`Fusion.ScoreIsComponentSumIff`).

To check everything: `dafny verify dfyconfig.toml`.

## Model

| member | source | states |
|---|---|---|
| `EntityIdentity.BuildRedirects` | packages/capability-knowledge/src/entity-resolution-store.ts:60-65 | the loop over active merges builds the redirect table, later merges overwriting earlier ones |
| `EntityIdentity.CanonicalEntityIdFromEvents` | packages/capability-knowledge/src/entity-resolution-store.ts:56-77 | the chase returns the last id without a redirect, or the cycle error at the first id met twice, after exactly as many redirects as `Hops` counts |
| `EntityIdentity.BuildResolver` | packages/adapter-postgres/src/retrieval-projection.ts:173-187 | two passes over the relevant events, collecting the reverted merges and then the others, yield the redirects of the merges that are not reverted |
| `EntityIdentity.ResolveEntity` | packages/adapter-postgres/src/retrieval-projection.ts:188-200 | the non-throwing chase always ends, and where it ends is `Chase` of the table |
| `Redirects.ChaseEndsAtRoot` | packages/capability-knowledge/src/entity-resolution-store.ts:67-76 | without cycles a chase ends at an entity that has no redirect |
| `Redirects.ChaseReached` | packages/capability-knowledge/src/entity-resolution-store.ts:67-76 | where a chase ends is reached from where it starts by following redirects |
| `Redirects.ChaseStuckIffCycle` | packages/capability-knowledge/src/entity-resolution-store.ts:67-76 | a chase ends on a redirect if and only if a cycle is reachable, and then on the cycle |
| `Redirects.MergeKeepsAcyclic` | packages/capability-knowledge/src/entity-resolution.ts:466-479 | redirecting one root to another root keeps the table acyclic |
| `EntityIdentity.ReadersShareRedirects` | packages/adapter-postgres/src/retrieval-projection.ts:163-187 | on every log with distinct event ids, cyclic or not, the two readers derive one redirect table |
| `EntityIdentity.ReadersAgree` | packages/adapter-postgres/src/retrieval-projection.ts:163-201 | the non-throwing resolver returns what the throwing reader returns, and the very entity its error names where it fails |
| `EntityIdentity.FailsIffCycle` | packages/capability-knowledge/src/entity-resolution-store.ts:56-77 | the cycle error is raised if and only if the entity reaches a cycle, and it names an entity on the cycle |
| `EntityIdentity.PermutationInvariant` | packages/capability-knowledge/src/entity-resolution-store.ts:36-77 | canonical ids do not depend on the order in which the log is listed |
| `EntityIdentity.CanonicalRedirectsAt` | packages/capability-knowledge/src/entity-resolution-store.ts:42-65 | an entity is redirected if and only if some unreverted merge absorbed it, and to a survivor of such a merge |
| `EntityIdentity.LatestMergeDecides` | packages/capability-knowledge/src/entity-resolution-store.ts:42-65 | where several unreverted merges absorb an entity, the latest decides where it goes, by event id within one instant |
| `EntityIdentity.RedirectedIff` | packages/capability-knowledge/src/entity-resolution-store.ts:42-65 | when no entity has two active absorbers, the redirect table is exactly the relation of active merges |
| `EntityIdentity.IdentityEventsDecide` | packages/adapter-postgres/src/retrieval-projection.ts:20-29 | only merges and reverts influence the redirect table |
| `EntityResolution.ResolutionService.Propose` | packages/capability-knowledge/src/entity-resolution.ts:527-571 | a proposal appends its event to log and outbox when every guard holds, and otherwise changes nothing and reports the first failing guard |
| `EntityResolution.ResolutionService.Decide` | packages/capability-knowledge/src/entity-resolution.ts:573-622 | a decision likewise; a proposal decided before is refused |
| `EntityResolution.ResolutionService.Merge` | packages/capability-knowledge/src/entity-resolution.ts:624-702 | a merge likewise; it needs an approving decision, a survivor of the pair, two roots and no earlier merge |
| `EntityResolution.ResolutionService.Revert` | packages/capability-knowledge/src/entity-resolution.ts:704-770 | a revert likewise; it restores exactly what the merge event absorbed and is refused the second time |
| `EntityResolution.ResolutionService.AssertResolutionRoots` | packages/capability-knowledge/src/entity-resolution.ts:466-479 | the guard reports the first entity that is not its own canonical id |
| `EntityResolution.ResolutionService.AssertNoOpenEquivalentProposal` | packages/capability-knowledge/src/entity-resolution.ts:481-525 | the guard reports the first listed proposal of the same unordered pair that is still open |
| `ResolutionRuns.OpenErrorIffLive` | packages/capability-knowledge/src/entity-resolution.ts:500-523 | that guard blocks exactly the live proposals: undecided, approved but unmerged, or merged and unreverted |
| `ResolutionRuns.ApplyKeepsSound` | packages/capability-knowledge/src/entity-resolution.ts:527-770 | every command, accepted or refused, keeps the invariants below |
| `ResolutionRuns.EveryRunIsSound` | packages/capability-knowledge/src/entity-resolution.ts:481-770 | in every serialized run a proposal is decided at most once, merged only if approved and at most once, a merge is reverted at most once, each unordered pair has at most one live proposal, and active redirects form a forest with one absorber per entity |
| `ResolutionRuns.CanonicalIdsAlwaysResolve` | packages/capability-knowledge/src/entity-resolution-store.ts:42-77 | in every run the cycle error never occurs, a chase takes at most as many redirects as there are active merges, canonical ids are idempotent and independent of log order |
| `ResolutionRuns.ProjectionResolverAgrees` | packages/adapter-postgres/src/retrieval-projection.ts:163-201 | in every run the projection resolver equals the canonical one |
| `ResolutionGuards.ProposeAcceptedIff` | packages/capability-knowledge/src/entity-resolution.ts:533-546 | in any reachable state a proposal is accepted if and only if it joins two different registered roots of one scope, with permission, a signal and no live proposal of the pair |
| `ResolutionGuards.DecideAcceptedIff` | packages/capability-knowledge/src/entity-resolution.ts:580-598 | a decision is accepted if and only if its proposal is recorded and undecided, with permission and a reason |
| `ResolutionGuards.MergeAcceptedIff` | packages/capability-knowledge/src/entity-resolution.ts:631-668 | a merge is accepted if and only if some recorded proposal of that id is approved and unmerged, its pair are roots and the survivor is one of them, with permission |
| `ResolutionGuards.RevertAcceptedIff` | packages/capability-knowledge/src/entity-resolution.ts:710-736 | a revert is accepted if and only if its merge is recorded and unreverted, with permission and a reason |
| `ResolutionErrors.ProposeReports` | packages/capability-knowledge/src/entity-resolution.ts:533-546 | which error a refused proposal reports, in any reachable state: the first failing guard in this order, and for an open proposal of the pair its own error; and the event an accepted one records |
| `ResolutionErrors.DecideReports` | packages/capability-knowledge/src/entity-resolution.ts:580-598 | the same for a decision; entity and scope errors cannot occur |
| `ResolutionErrors.MergeReports` | packages/capability-knowledge/src/entity-resolution.ts:631-690 | the same for a merge of a recorded proposal; an earlier merge is reported only once it has been reverted |
| `ResolutionErrors.RevertReports` | packages/capability-knowledge/src/entity-resolution.ts:710-757 | the same for a revert |
| `ResolutionErrors.OpenErrorIs` | packages/capability-knowledge/src/entity-resolution.ts:500-523 | a pending, an approved unmerged and a merged unreverted proposal are reported as such, a rejected or reverted one not at all |
| `ResolutionErrors.MergeUnknown` | packages/capability-knowledge/src/entity-resolution.ts:631-640 | a merge of a proposal never recorded reports it as unknown |
| `ResolutionErrors.AcceptedIsColocated` | packages/capability-knowledge/src/entity-resolution.ts:527-770 | on any log at all, whatever a command records names registered entities of one scope |
| `ResolutionErrors.LastDecisionIsLatest` | packages/capability-knowledge/src/entity-resolution-store.ts:144-157 | on any log the deciding decision is the latest, by id within one instant |
| `ResolutionErrors.EarliestBlocks` | packages/capability-knowledge/src/entity-resolution.ts:481-525 | on any log the guard reports the earliest blocking proposal of the scope and the unordered pair |
| `ResolutionErrors.FirstIsFirst` | packages/capability-knowledge/src/entity-resolution-store.ts:107-113 | the event looked up is the first one wanted |
| `ResolutionGuards.RootsCanMerge` | packages/capability-knowledge/src/entity-resolution.ts:527-702 | any two roots of one scope without a live proposal can be proposed, approved and merged, whatever happened before, and exactly the absorbed class moves |
| `ResolutionGuards.SomeRunMerges` | packages/capability-knowledge/src/entity-resolution.ts:527-702 | in some run any two entities end up merged |
| `ResolutionGuards.RunsAreOpen` | packages/capability-knowledge/src/entity-resolution.ts:527-770 | the runs range over every registration and over any event of other capabilities |
| `ResolutionRuns.MergeSendsClass` | packages/capability-knowledge/src/entity-resolution.ts:687-690 | an accepted merge changes canonical ids exactly by sending the absorbed root's class to the survivor |
| `ResolutionRuns.RevertSplitsClass` | packages/capability-knowledge/src/entity-resolution.ts:743-757 | an accepted revert sends back exactly the entities whose redirect path passes through the absorbed entity |
| `ResolutionRuns.MergeThenRevertRestores` | packages/capability-knowledge/src/entity-resolution.ts:624-770 | a merge followed by its revert restores the whole canonical-id function |
| `ResolutionRuns.RevertsCommute` | packages/capability-knowledge/src/entity-resolution.ts:704-770 | of two reverts of different merges each is accepted or refused alike, first or second, and both orders give the same canonical ids |
| `RetrievalProjection.RetrievalProjection.UpsertClaim` | packages/adapter-postgres/src/retrieval-projection.ts:656-714 | the row written is the claim over canonical ids with its embedding |
| `RetrievalProjection.RetrievalProjection.CommitSync` | packages/adapter-postgres/src/retrieval-projection.ts:413-426 | the sync transaction deletes or upserts each claim read, marks exactly the pending events and stamps the time |
| `RetrievalProjection.RetrievalProjection.CommitRebuild` | packages/adapter-postgres/src/retrieval-projection.ts:357-367 | the rebuild transaction replaces both tables and stamps the time |
| `RetrievalProjection.RetrievalProjection.Rebuild` | packages/adapter-postgres/src/retrieval-projection.ts:333-368 | a rebuild writes one row per active claim named by a claim event |
| `RetrievalProjection.RowsStateClaims` | packages/adapter-postgres/src/retrieval-projection.ts:350-362 | a rebuilt table has a row for exactly the unretracted claims that a claim event of the log names, and each row says what its claim says: predicate and words or object entity, embedded, over canonical ids, scope and interval |
| `RetrievalProjection.RetrievalProjection.Sync` | packages/adapter-postgres/src/retrieval-projection.ts:370-427 | a sync does nothing, rebuilds when an identity event is pending, or updates the claims of the pending events; the time is stamped unless nothing was pending |
| `RetrievalProjection.RetrievalProjection.Status` | packages/adapter-postgres/src/retrieval-projection.ts:429-467 | stale if and only if some relevant event of the log is unprocessed or a configured vector index is missing; the number pending; the time of the latest relevant event; the time of the last sync |
| `ProjectionRuns.StepKeepsInv` | packages/adapter-postgres/src/retrieval-projection.ts:333-427 | every step of a writer or of the maintenance actor, at any point of the actor's progress, keeps coherence |
| `ProjectionRuns.EveryRunIsCoherent` | packages/adapter-postgres/src/retrieval-projection.ts:333-467 | in every interleaved run each claim with no unprocessed claim event has exactly the row its current version projects to through the redirects of the processed events, and no row if retracted or absent |
| `ProjectionRuns.EveryRowStatesItsClaim` | packages/adapter-postgres/src/retrieval-projection.ts:333-467 | in the claim's own fields: in every interleaved run a claim with no unprocessed claim event has a row if and only if it is unretracted, and the row says what its current version says |
| `ProjectionRuns.CaughtUpEqualsRebuild` | packages/adapter-postgres/src/retrieval-projection.ts:333-467 | zero pending events means the incremental table is exactly what a rebuild would write |
| `ProjectionRuns.SyncEqualsRebuild` | packages/adapter-postgres/src/retrieval-projection.ts:370-427 | an uninterrupted sync of coherent tables writes the table a rebuild would |
| `ProjectionRuns.OneSyncCatchesUp` | packages/adapter-postgres/src/retrieval-projection.ts:370-427 | after any run, wherever the actor was stopped, one sync without writers in between leaves nothing pending and exactly the rows of a rebuild |
| `ProjectionRuns.OneRebuildCatchesUp` | packages/adapter-postgres/src/retrieval-projection.ts:333-368 | and so does one rebuild |
| `ProjectionRuns.SyncDecides` | packages/adapter-postgres/src/retrieval-projection.ts:370-412 | after reading its marks a sync stops if and only if no relevant event is unmarked, rebuilds if and only if a merge or revert is, and otherwise reads exactly the claims the unmarked events name |
| `ProjectionRuns.OneRunAtATime` | packages/adapter-postgres/src/retrieval-projection.ts:333-427 | one maintenance run at a time |
| `ProjectionRuns.WritersMay` | packages/adapter-postgres/src/retrieval-projection.ts:333-467 | the runs range over every write of any claim version and every other event, at any point |
| `GraphDistance.WithinIffWalk` | packages/adapter-postgres/src/retrieval-projection.ts:615-641 | the distance used below: within k of the seeds if and only if some walk of at most k joins ends there |
| `GraphDistance.NearIffChain` | packages/adapter-postgres/src/retrieval-projection.ts:615-641 | a claim is within a hop if and only if that many claims at most, the first naming a seed entity and each sharing an entity with the next, lead to it |
| `GraphDistance.ExactLevel` | packages/adapter-postgres/src/retrieval-projection.ts:627-639 | exact-length frontiers, which drop the entity expanded, still meet each claim for the first time at its shortest-path hop |
| `GraphDistance.NothingFurther` | packages/adapter-postgres/src/retrieval-projection.ts:627 | stopping at an empty frontier loses nothing |
| `GraphDistance.ClosedFrontier` | apps/server/src/projection-serving.ts:106-122 | the closed frontier of the canonical search is the ball around the seeds |
| `GraphSearch.SeedGraphEntities` | packages/adapter-postgres/src/retrieval-projection.ts:223-244 | both ends of every seed the table holds |
| `GraphSearch.CollectGraphRows` | packages/adapter-postgres/src/retrieval-projection.ts:280-306 | unseen rows become candidates of this hop, each once; the far ends form the next frontier |
| `GraphSearch.SearchGraph` | packages/adapter-postgres/src/retrieval-projection.ts:615-641 | only claims in scope are returned or walked through; each candidate has its shortest-path hop, hops do not decrease, no seed is returned, and a claim within `hops` is omitted only when the limit is used up by claims at least as near |
| `GraphSearch.SearchProjection` | packages/adapter-postgres/src/retrieval-projection.ts:246-278 | over the projection's rows: every candidate is of the tenant and namespace asked for and valid at the instant asked for, and hops and omissions are measured over exactly those rows |
| `GraphSearch.CandidateEndsChain` | packages/adapter-postgres/src/retrieval-projection.ts:615-641 | a candidate's hop is the length of a chain of claims in scope, each sharing an entity with the one before, the first with a seed claim |
| `GraphSearch.SearchFollowsChains` | packages/adapter-postgres/src/retrieval-projection.ts:627-641 | no shorter chain ends in it, and the end of any chain of at most `hops` claims is a seed, a candidate, or crowded out by candidates as near |
| `GraphSearch.CanonicalGraphSearch` | apps/server/src/projection-serving.ts:89-124 | the same contract for the canonical fallback |
| `GraphSearch.ExpandGraphNeighborhood` | packages/capability-retrieval/src/retrieve.ts:173-198 | existing hits are untouched and the new hits are exactly the claims within `hops`, scored 0.3 over their shortest-path hop and routed by their subject |
| `GraphSearch.Uncut` | packages/adapter-postgres/src/retrieval-projection.ts:636-640 | a result shorter than the limit holds exactly the claims within `hops` |
| `GraphSearch.SearchesAgree` | apps/server/src/projection-serving.ts:89-124 | two searches that no limit cuts return the same claims at the same hops |
| `GraphSearch.ExpansionAgrees` | packages/capability-retrieval/src/retrieve.ts:173-198 | in-process expansion finds the claims and hops of an uncut search |
| `GraphDistance.ResolvingNeverLengthens` | packages/adapter-postgres/src/retrieval-projection.ts:656-671 | merging entities never moves a claim further from the seeds |
| `GraphSearch.ResolvedSearchFinds` | packages/adapter-postgres/src/retrieval-projection.ts:615-641 | over resolved ids and from the same seeds or more, an uncut search finds every claim found over raw ids, at the same or a smaller hop |
| `GraphSearch.RowsAreResolvedClaims` | packages/adapter-postgres/src/retrieval-projection.ts:350-362 | a caught-up projection is the graph of the active claims over canonical ids |
| `GraphSearch.CaughtUpSearchFinds` | apps/server/src/projection-serving.ts:89-124 | end to end: over a caught-up projection an uncut search finds every claim the canonical fallback finds, at the same or a smaller hop |
| `Conflicts.EqualObjectsEqualKeys` | packages/capability-knowledge/src/conflicts.ts:152-167 | equal objects always have equal object keys |
| `Conflicts.LiteralKeysInjectiveIff` | packages/capability-knowledge/src/conflicts.ts:156 | two datatypes give different keys to all different literals if and only if neither key prefix runs into the other |
| `Conflicts.PlainDatatypesSeparable` | packages/capability-knowledge/src/conflicts.ts:156 | non-empty datatypes without a colon meet that condition |
| `Conflicts.EmptyDatatypeCollides` | packages/capability-knowledge/src/conflicts.ts:156 | an empty and a missing datatype, or a colon moved between datatype and value, give different objects one key string |
| `ConflictObjects.SeparableNeverCollide` | packages/capability-knowledge/src/conflicts.ts:152-167 | when two claims' literal datatypes meet the condition, their keys coincide exactly when their objects are equal |
| `Conflicts.EveryViolationCovered` | packages/capability-knowledge/src/conflicts.ts:169-205 | at every instant at which more than `max` distinct object keys are active, some one returned set covers all of them |
| `ConflictObjects.ObjectsCoveredIff` | packages/capability-knowledge/src/conflicts.ts:169-205 | detection covers every instant at which more than `max` different objects are active, object by object, if and only if no two claims active at such an instant are different objects with one key |
| `ConflictObjects.SeparableGroupCovered` | packages/capability-knowledge/src/conflicts.ts:169-205 | so it does whenever the literal datatypes of the group are pairwise separable |
| `ConflictObjects.CollisionIsMissed` | packages/capability-knowledge/src/conflicts.ts:181-189 | two colliding claims active together break a rule of at most one value and no set is returned |
| `ConflictObjects.CollidingClaims` | packages/capability-knowledge/src/conflicts.ts:156 | such claims exist |
| `Conflicts.EverySetViolates` | packages/capability-knowledge/src/conflicts.ts:169-205 | every returned set is active at one instant and has more than `max` members, with pairwise distinct keys and objects |
| `Conflicts.ReturnedSetHoldsAt` | packages/capability-knowledge/src/conflicts.ts:64-71 | in the claims' own fields: the members of a returned set are asserted or conflicted claims that have all begun and not ended at one instant, each of least id for its key among those |
| `Conflicts.HoldingClaimsCovered` | packages/capability-knowledge/src/conflicts.ts:64-71 | conversely, such claims with more than `max` distinct keys are covered by one returned set |
| `Conflicts.SuccessorsNotTogether` | packages/capability-knowledge/src/conflicts.ts:68-71 | a value and one that begins when it ends are never in one set |
| `Conflicts.NoSetInsideAnother` | packages/capability-knowledge/src/conflicts.ts:196-204 | no returned set is a proper subset of another |
| `ConflictDetection.RepresentativesAt` | packages/capability-knowledge/src/conflicts.ts:179-192 | the least claim id of each object key active at the instant, in id order |
| `ConflictDetection.CollectCandidates` | packages/capability-knowledge/src/conflicts.ts:173-194 | one candidate list for each start time with too many representatives, none twice |
| `ConflictDetection.MaximalViolatingSets` | packages/capability-knowledge/src/conflicts.ts:169-205 | the lists returned are exactly the maximal violating sets, each once and in id order |
| `ConflictGroups.RuleTermIndex` | packages/capability-knowledge/src/conflicts.ts:84-108 | the index succeeds if and only if every max is a positive integer and no two different rules share a term |
| `ConflictGroups.GroupsForClaims` | packages/capability-knowledge/src/conflicts.ts:207-229 | one group per namespace, canonical subject and rule, holding exactly its active claims in listing order |
| `ConflictMeaning.GroupMembers` | packages/capability-knowledge/src/conflicts.ts:207-229 | the members of a group are exactly the asserted or conflicted claims of its namespace and canonical subject whose predicate leads to its rule |
| `ConflictLedger.Ledger.PersistCandidate` | packages/capability-knowledge/src/conflicts.ts:247-307 | a candidate worth storing is refused exactly when not permitted for its cause and claims, and is otherwise stored unless its identity is known; otherwise nothing changes |
| `ConflictLedger.Ledger.Detect` | packages/capability-knowledge/src/conflicts.ts:309-369 | every conflict added has a new identity that the current claims exhibit, identities are pairwise distinct, and a run that ends leaves every detectable identity recorded; it fails with a denial if and only if some maximal violating set of the visible claims may not be recorded, and what was added before stays |
| `ConflictMeaning.RecordedIsReal` | packages/capability-knowledge/src/conflicts.ts:207-369 | every conflict detection adds consists of more stored and readable claims than its rule allows, of one namespace, canonical subject and rule, holding at one instant with pairwise different objects |
| `ConflictMeaning.ViolationInLedger` | packages/capability-knowledge/src/conflicts.ts:207-369 | conversely, stored and readable claims of one namespace, canonical subject and rule that hold at one instant with more distinct keys than the rule allows are covered by a conflict of that cause that a run that ends leaves recorded |
| `ConflictMeaning.DetectedIsReal` | packages/capability-knowledge/src/conflicts.ts:207-237 | the same over any claims and any valid index |
| `ConflictMeaning.RealIsDetected` | packages/capability-knowledge/src/conflicts.ts:207-237 | and its converse |
| `ConflictLedger.Ledger.DetectTwice` | packages/capability-knowledge/src/conflicts.ts:342-369 | running detection again with claims, rules and merges unchanged creates nothing |
| `ConflictLedger.ResolutionIsFirst` | packages/capability-knowledge/src/conflicts.ts:395-502 | an accepted resolution has an unresolved id, covers exactly the claims named and prefers one of them |
| `ConflictLedger.ResolveAcceptedIff` | packages/capability-knowledge/src/conflicts.ts:403-481 | a resolution is accepted if and only if it has a reason and permission, its claims exist and are readable, the preferred one is among them, and the conflict it names or finds is unresolved (or, finding none, its claims share a scope) |
| `ConflictLedger.ResolveReports` | packages/capability-knowledge/src/conflicts.ts:403-466 | which error resolving a recorded conflict reports, guard by guard, and what it stores otherwise |
| `ConflictLedger.ResolveNewReports` | packages/capability-knowledge/src/conflicts.ts:403-502 | the same where no conflict is recorded |
| `ConflictLedger.Ledger.Resolve` | packages/capability-knowledge/src/conflicts.ts:403-502 | one resolution at most per conflict, stored with a preferred claim of its own set; an error changes nothing |
| `ConflictLedger.ListsRefuse` | packages/capability-knowledge/src/conflicts.ts:315-337 | some list of a group is refused if and only if some claim of the group has a maximal violating set that may not be recorded |
| `ConflictLedger.IndexIrrelevant` | packages/capability-knowledge/src/conflicts.ts:94-105 | which of several agreeing rules the index keeps for a term does not matter to detection |
| `ConflictLedger.SuppressedClaimIds` | packages/capability-retrieval/src/retrieve.ts:200-210 | exactly the claims that lost in some resolution |
| `ConflictLedger.AuthorizeHits` | packages/capability-retrieval/src/retrieve.ts:212-244 | the hits neither suppressed nor denied, in order, and the number denied in each classification |
| `ConflictLedger.WithheldCounts` | packages/capability-retrieval/src/retrieve.ts:212-244 | the number withheld of a class counts its hits that are denied and not suppressed |
| `ConflictLedger.RetrievableHits` | packages/capability-retrieval/src/retrieve.ts:200-244 | retrieval returns exactly the permitted hits that lost in no stored resolution |
| `ClaimHistory.LatestKnownIsLatest` | packages/plugin-sdk/src/fakes/memory-store.ts:42-53 | the version known at T was recorded by T and none recorded by T is later |
| `ClaimHistory.KnownIsLastIff` | packages/adapter-sqlite/src/sqlite-store.ts:117-128 | it is the last write recorded by T if and only if no earlier one has a later recording time |
| `ClaimHistory.KnownAtReproducesPast` | packages/plugin-sdk/src/fakes/memory-store.ts:110-127 | with recording times non-decreasing and claim scope fixed, listing what was known at T is listing what is current in the store of the writes recorded by T |
| `ClaimHistory.RecordsReproducePast` | packages/adapter-sqlite/src/sqlite-store.ts:191-213 | the same over the record layouts |
| `ClaimHistory.LaterWritesInvisible` | packages/adapter-sqlite/src/sqlite-store.ts:191-213 | writes recorded after T never change what the record layouts knew at T, whatever they write |
| `ClaimHistory.LaterWritesInvisibleInMemory` | packages/plugin-sdk/src/fakes/memory-store.ts:110-127 | nor what the in-memory layout knew, as long as claims keep their scope |
| `ClaimHistory.LayoutsAgree` | packages/adapter-postgres/src/postgres-store.ts:167-189 | the layouts read a claim alike at every filter when all its versions have one scope |
| `ClaimHistory.LayoutsAgreeIff` | packages/plugin-sdk/src/fakes/memory-store.ts:113-125 | at any one filter they agree if and only if neither reads anything or both the current and the latest known version are in scope |
| `ClaimHistory.AgreeEverywhereIff` | packages/adapter-postgres/src/postgres-store.ts:167-189 | for every claim, retracted or not: they agree at every filter if and only if each version outside the current scope is retracted where it was the latest of its own scope, and where it was the latest of all, the version of the current scope is absent or retracted |
| `ClaimHistory.UnretractedAgreeIff` | packages/adapter-postgres/src/postgres-store.ts:167-189 | for a claim that was never retracted this means that all its versions have one scope |
| `ClaimHistory.RecordsStayInScope` | packages/adapter-sqlite/src/sqlite-store.ts:456-488 | the record layouts only return versions of the scope asked for |
| `ClaimHistory.MemoryLeavesScopeIff` | packages/plugin-sdk/src/fakes/memory-store.ts:113-125 | the in-memory layout returns a version outside the scope asked for, at some filter, if and only if an unretracted version of a scope other than the current one was the latest known at its own instant |
| `ClaimHistory.OneMoreWrite` | packages/adapter-sqlite/src/sqlite-store.ts:191-213 | exactly what one more write does to a known-at read: it is read if in scope, recorded by T and no earlier than the version considered before, and changes nothing otherwise |
| `ClaimHistory.RecordReadIff` | packages/adapter-sqlite/src/sqlite-store.ts:191-213 | in the fields of the writes: the record layouts read a version at a known-at if and only if it is the last of the latest recorded by then in the tenant and namespace, not retracted, begun and not ended at the instant asked for |
| `ClaimHistory.MemoryReadIff` | packages/plugin-sdk/src/fakes/memory-store.ts:110-127 | the same for the in-memory layout, which looks at the versions of all scopes and asks the last written one to be in scope |
| `ClaimHistory.CurrentReadIff` | packages/plugin-sdk/src/fakes/memory-store.ts:110-127 | without a known-at both read the last version written, if it is in scope and visible |
| `ClaimHistory.MovedClaimSplitsLayouts` | packages/plugin-sdk/src/fakes/memory-store.ts:113-119 | any version left behind in another scope, where nothing was retracted, is still known there to the record layouts and not to the in-memory one |
| `ClaimStore.MemoryStore.RememberCurrentClaim` | packages/plugin-sdk/src/fakes/memory-store.ts:269-277 | the superseded version is appended to the claim's own history only |
| `ClaimStore.MemoryStore.AssertClaim` | packages/plugin-sdk/src/fakes/memory-store.ts:101-104 | history and current map keep refining the write log |
| `ClaimStore.MemoryStore.RetractClaim` | packages/plugin-sdk/src/fakes/memory-store.ts:129-132 | a retraction is one more version in the same log |
| `ClaimStore.MemoryStore.GetClaim` | packages/plugin-sdk/src/fakes/memory-store.ts:106-108 | the current version is the last write of the claim |
| `ClaimStore.MemoryStore.ListClaims` | packages/plugin-sdk/src/fakes/memory-store.ts:110-127 | the listing is, for each claim id once, the visible version of the log view |
| `ClaimStore.PutRefines` | packages/adapter-sqlite/src/sqlite-store.ts:430-443 | superseding a record keeps records and history in step with the write log |
| `ClaimStore.RecordStore.PutRecord` | packages/adapter-postgres/src/postgres-store.ts:394-418 | the same for the store over both tables |
| `ClaimStore.GroupVersions` | packages/adapter-sqlite/src/sqlite-store.ts:199-204 | grouping history and current rows restores each claim's versions in reading order |
| `ClaimStore.RecordStore.ListClaims` | packages/adapter-sqlite/src/sqlite-store.ts:191-213 | the listing is, for each claim id once, the visible version of the log view of the record layouts |
| `ClaimStore.RecordStore.ClaimKnownAt` | packages/adapter-sqlite/src/sqlite-store.ts:398-411 | the single-claim read of lexical search returns the latest version known at T, without regard to scope |
| `DecisionAudit.BuildFromRecords` | packages/capability-decision/src/decision.ts:437-447 | the bundle holds, once each, the version of every claim of the context known at the snapshot's `knownAt`, or at its capture time if it has none |
| `DecisionAudit.BuildFromMemory` | packages/capability-decision/src/decision.ts:437-447 | the same over the in-memory store |
| `DecisionAudit.AuditHoldsLatest` | packages/capability-decision/src/decision.ts:437-447 | in the fields of the writes: over the record layouts a bundle holds a version if and only if it is of a claim of the context, the last of the latest of the decision's scope recorded by that instant, not retracted, and valid at the snapshot's `validAt` |
| `DecisionAudit.BundleIsStable` | packages/capability-decision/src/decision.ts:437-447 | over the record layouts the bundle holds the same versions whenever it is built, for every later sequence of writes recorded after the snapshot's `knownAt`, or after its capture time if it has none |
| `DecisionAudit.BundleIsStableInMemory` | packages/capability-decision/src/decision.ts:437-447 | over the in-memory layout too, as long as claims keep their scope |
| `DecisionAudit.BundleChangesIff` | packages/capability-decision/src/decision.ts:437-447 | one later write changes the bundle if and only if it is of a claim of the context, in scope, recorded by the pin, no earlier than the version considered, and the audit did not read the same before |
| `DecisionAudit.HydrateFromMemory` | packages/capability-retrieval/src/retrieve.ts:394-404 | an indexed capture works with the current version of each candidate, whatever its status |
| `DecisionAudit.HydrateFromRecords` | packages/capability-retrieval/src/retrieve.ts:394-404 | the same over the record layouts |
| `DecisionAudit.HydratedIsCurrent` | packages/capability-retrieval/src/retrieve.ts:394-404 | exactly the last versions written of the candidates |
| `DecisionAudit.HydratedInOrder` | packages/capability-retrieval/src/retrieve.ts:394-404 | in candidate order, a candidate never written as nothing |
| `DecisionAudit.AuditReproducesCaptureIff` | packages/application/src/create-app.ts:226-247 | the audit reads the very version the capture worked with if and only if that version is visible at the pin, nothing of its scope recorded by the pin is later, and nothing written between the read and the stamping of `capturedAt` displaces it |
| `DecisionAudit.ListedCaptureIff` | packages/capability-decision/src/decision.ts:437-447 | for a capture read at an explicit known-at, only the writes in between decide |
| `DecisionAudit.PinnedReadIsCurrentListing` | packages/capability-decision/src/decision.ts:437-440 | the pinned read is what the current canonical listing gave at the capture instant, with a clock that does not run back and scopes fixed |
| `DecisionAudit.SameInstantRetractionShows` | packages/capability-decision/src/decision.ts:437-447 | whatever was written before, a retraction recorded in the instant of the pin itself drops its claim from later bundles |
| `ServingGate.LatencyHistogram.ObserveLatency` | apps/server/src/projection-serving.ts:172-180 | count, sum and every cumulative bucket describe the durations observed |
| `ServingGate.BucketsCumulative` | apps/server/src/projection-serving.ts:182-193 | a wider bucket never holds less than a narrower one, and none more than the count |
| `ServingGate.CountsPositions` | apps/server/src/projection-serving.ts:172-180 | a bucket counts the durations that do not exceed its bound |
| `ServingGate.SumAdds` | apps/server/src/projection-serving.ts:172-180 | the sum is additive |
| `ServingGate.ProjectionServingGate.BeginSearch` | apps/server/src/projection-serving.ts:339-347 | the first segment of a search fixes its mode and counts a rollback fallback |
| `ServingGate.ProjectionServingGate.ResumeSearch` | apps/server/src/projection-serving.ts:349-374 | the segment after the status check picks shadow, fallback, canary canonical or projection |
| `ServingGate.ProjectionServingGate.RecordStatusFailure` | apps/server/src/projection-serving.ts:273-274 | a failed status check only records its error |
| `ServingGate.ProjectionServingGate.FinishProjection` | apps/server/src/projection-serving.ts:315-336 | success clears the error streak, failure extends it and trips the rollback at the limit; both are timed |
| `ServingGate.ProjectionServingGate.FinishCanonical` | apps/server/src/projection-serving.ts:303-313 | a canonical search is counted and timed whether it returned or threw |
| `ServingGate.ProjectionServingGate.ContinueAfterProjection` | apps/server/src/projection-serving.ts:353-384 | a projection result is compared, served or replaced by a counted fallback |
| `ServingGate.ProjectionServingGate.ResetRollback` | apps/server/src/projection-serving.ts:390-396 | the reset clears rollback, streak, last error and last fallback reason |
| `ServingRuns.EveryRunIsCounted` | apps/server/src/projection-serving.ts:303-388 | in every interleaving, at every instant, the counters differ from the sums below by exactly the searches in flight in the matching phase |
| `ServingRuns.CountersAddUp` | apps/server/src/projection-serving.ts:227-388 | with no search in flight: projection searches are those served plus those compared, latency counts equal attempts, every search ended exactly once, at the projection or at the canonical store, and under an enabled policy searches are those served plus fallbacks |
| `ServingRuns.RollbackIffTripped` | apps/server/src/projection-serving.ts:322-333 | in every interleaving the rollback is active if and only if, since the last reset, the limit of consecutive failures was reached in settling order; the streak counter is the trailing run of failures |
| `ServingRuns.RollbackIsLatched` | apps/server/src/projection-serving.ts:339-347 | a tripped rollback stays until a reset, and a search begun under it never calls the projection |
| `ServingRuns.ResetClears` | apps/server/src/projection-serving.ts:390-396 | a reset and a status poll change what they display and the breaker, no counter, timing or search |
| `ServingRuns.CheckDecidesReadiness` | apps/server/src/projection-serving.ts:244-301 | a status check leaves a search ready only if it succeeded and found the projection ready, and a failure on display |
| `ServingRuns.ReadinessDecides` | apps/server/src/projection-serving.ts:349-374 | an unready search falls back, counted as unavailable; a ready one goes to the projection when enabled, and in a canary exactly below the canary share; in shadow mode the canonical store comes first |
| `ServingRuns.UnreadyStaysAway` | apps/server/src/projection-serving.ts:349-369 | from any state, an unready search never calls the projection, whatever else happens |
| `ServingRuns.SearchDoes` | apps/server/src/projection-serving.ts:339-385 | the effect of a whole search on every counter, timing, error, reason and the breaker, from what it awaits alone |
| `ServingRuns.ReasonsAreTruthful` | apps/server/src/projection-serving.ts:343-383 | in every interleaving the fallback reason on display is true: some search fell back, a rollback reason stands only while the rollback is active, an error reason only after a projection error |
| `ServingRuns.SerialRollback` | apps/server/src/projection-serving.ts:315-347 | when searches do not overlap, the rollback is active exactly while the error streak is at the limit |
| `ServingRuns.RollbackAndStreakDifferIff` | apps/server/src/projection-serving.ts:318-333 | in any interleaving rollback and a streak at the limit differ if and only if a search succeeded after the trip and fewer than the limit have failed since the last success |
| `ServingRuns.OverlapHidesStreak` | apps/server/src/projection-serving.ts:318-329 | for every limit there is a run in which they differ |
| `ServingRuns.Search` | apps/server/src/projection-serving.ts:339-385 | a whole search over the mutable gate is a run of the system that ends finished |
| `SemanticContract.Duplicates` | packages/capability-ontology/src/semantic-contract.ts:90-103 | exactly the values present at least twice, each once, in order |
| `SemanticContract.CycleSearch.HasEntityTypeCycle` | packages/capability-ontology/src/semantic-contract.ts:175-189 | the search over the shared visiting set computes `HasCycle` and leaves the set as it found it |
| `Inheritance.CycleFoundIffReachable` | packages/capability-ontology/src/semantic-contract.ts:175-189 | started with nothing visited it answers true if and only if a cycle is reachable from the type |
| `Inheritance.NoneFoundIffAcyclic` | packages/capability-ontology/src/semantic-contract.ts:191-202 | it answers false for every type if and only if the relation is acyclic |
| `SemanticContract.EntityTypeCycleIssues` | packages/capability-ontology/src/semantic-contract.ts:191-202 | the types reported are those from which the search finds a cycle, in contract order |
| `SemanticContract.CycleIssuesExact` | packages/capability-ontology/src/semantic-contract.ts:191-202 | a type is reported if and only if it reaches a cycle |
| `SemanticContract.NoCycleIssueIffAcyclic` | packages/capability-ontology/src/semantic-contract.ts:191-202 | with unique ids there is no cycle issue if and only if `extends` is acyclic |
| `SemanticContract.CycleCheckExactIff` | packages/capability-ontology/src/semantic-contract.ts:191-202 | the ids decide: the check is exact for every `extends` over them if and only if they are unique |
| `SemanticContract.DuplicateHidesCycle` | packages/capability-ontology/src/semantic-contract.ts:192-194 | for instance, a type that extends itself goes unreported when a later type repeats its id |
| `SemanticContract.SemanticTerms` | packages/capability-ontology/src/semantic-contract.ts:290-302 | each term maps to the first type that has it as id, IRI or alias |
| `SemanticContract.FirstWithIsFirst` | packages/capability-ontology/src/semantic-contract.ts:290-309 | the resolved type has the term, and no earlier type has it |
| `SemanticContract.ResolveEntityType` | packages/capability-ontology/src/semantic-contract.ts:304-309 | resolution is that lookup, or nothing |
| `EntityTypeClosure.Closure.Visit` | packages/capability-ontology/src/json-schema.ts:19-27 | a visit adds only ids reachable from its argument and leaves none of them unexpanded |
| `EntityTypeClosure.EntityTypeClosure` | packages/capability-ontology/src/json-schema.ts:14-30 | the closure is exactly the set of ids reachable through resolved parents |
| `EntityTypeClosure.ClosureIsExtends` | packages/capability-ontology/src/json-schema.ts:14-30 | it is the reflexive-transitive closure of `extends` when parents are known and no type's terms contain the id of a later type |
| `EntityTypeClosure.ClosuresExactIff` | packages/capability-ontology/src/json-schema.ts:14-30 | with unique ids the terms decide: closures are exact for every `extends` over known parents if and only if no type's terms contain the id of a later type |
| `EntityTypeClosure.ShadowedIdLosesParent` | packages/capability-ontology/src/json-schema.ts:20-21 | for instance, with a shadowed id a type loses its own parent although validation reports nothing about ids, parents or cycles |
| `EntityTypeClosure.JsonSchema` | packages/capability-ontology/src/json-schema.ts:124-137 | the properties and required ids of the resolved type, or the unknown-type error |
| `EntityTypeClosure.SchemaSelects` | packages/capability-ontology/src/json-schema.ts:129-137 | a property is selected if and only if its predicate has no domain or one the type reaches, and required if and only if its minimum is at least 1 |
| `EntityTypeClosure.SubtypeInherits` | packages/capability-ontology/src/json-schema.ts:128-137 | a subtype's schema has every property and every required property of each parent's, when no type listed before the subtype has the subtype's id among its terms |
| `EntityTypeClosure.RequirementsInheritedIff` | packages/capability-ontology/src/json-schema.ts:128-137 | with unique ids, every subtype inherits what its parents require in every contract over these terms and known parents, whatever its predicates, if and only if no type's terms contain the id of a later type |
| `EntityTypeClosure.ShadowLosesRequirement` | packages/capability-ontology/src/json-schema.ts:128-137 | a predicate with minimum 1 and the parent as its domain is required of the parent and not of a shadowed subtype |
| `Fusion.ReciprocalRankFuse` | packages/capability-retrieval/src/fusion.ts:22-45 | every fused claim once, ordered by descending score and then ascending id |
| `Fusion.ScoreIsSum` | packages/capability-retrieval/src/fusion.ts:25-29 | a claim is fused if and only if some list has it, and its score is the sum of the contributions of all its occurrences |
| `Fusion.OccurrenceAdds` | packages/capability-retrieval/src/fusion.ts:25-38 | one more occurrence at rank r raises the score of a claim by 1/(k + r), which becomes the component of the list's strategy, and sets its route if it carries one |
| `Fusion.ScoreIsComponentSumIff` | packages/capability-retrieval/src/fusion.ts:25-33 | for every claim and any lists: the score is the sum of the component map, each strategy once, if and only if no two occurrences of the claim come under one strategy; otherwise the components add up to less |
| `Fusion.ScoreIsComponentSum` | packages/capability-retrieval/src/fusion.ts:28-33 | one list per strategy and no repeats in a list are enough for that sum |
| `Fusion.RepeatedStrategyLosesComponent` | packages/capability-retrieval/src/fusion.ts:30-33 | two lists of one strategy that share a claim make its components add up to strictly less than its score |
| `Fusion.LaterRouteWins` | packages/capability-retrieval/src/fusion.ts:34-38 | the last list with a graph route for a claim decides its route |
| `Fusion.OrderOfListsIrrelevant` | packages/capability-retrieval/src/fusion.ts:22-45 | the claims, their scores and their order do not depend on the order of the lists |
| `Fusion.DominatingComesFirst` | packages/capability-retrieval/src/fusion.ts:25-44 | a claim ranked above another in every list that has the other comes first |
| `RateLimiter.Limiter.Consume` | apps/server/src/http-server.ts:196-217 | one request opens, fills or overflows its own bucket and leaves the others alone |
| `RateLimiter.AtMostTwicePerWindow` | apps/server/src/http-server.ts:203-216 | with a non-decreasing clock any half-open interval of `windowMs` holds at most 2 max(1, `maxRequests`) accepted requests of a key |
| `RateLimiter.BucketWindowBounded` | apps/server/src/http-server.ts:203-216 | the window of any bucket ever opened holds at most max(1, `maxRequests`), however the run goes on |
| `RateLimiter.RefusedIffFull` | apps/server/src/http-server.ts:203-216 | in every run a request is refused if and only if its key's bucket is open and its window already holds max(1, `maxRequests`) accepted requests |
| `RateLimiter.RetryAfterSuffices` | apps/server/src/http-server.ts:215 | the wait reported is the fewest whole seconds after which the bucket has expired, and asking then succeeds |
| `RateLimiter.OtherKeysIrrelevant` | apps/server/src/http-server.ts:203-216 | what a key is allowed depends on its own requests only |

## Left out

- RetrievalProjection.RetrievalProjection.Sync: does not model two concurrent maintenance actors, which the source does not guard against; vector validation errors appear only as the step `Fail`.
- RetrievalProjection.RetrievalProjection.Status: whether the vector index exists is given.
- GraphSearch.SearchGraph: candidates carry their hop, from which the source's score 1/hop follows; the order within one hop is left open. Seeds are read from the whole table, as the source reads them, and only the rows expanded are scoped.
- EntityIdentity.PermutationInvariant: assumes distinct event ids, as the event table's primary key does.
- ResolutionRuns.EveryRunIsSound: serialized commands only; the guards read outside the transaction, so concurrent commands are not covered. An entity keeps the scope it was registered with.
- EntityResolution.ResolutionService.Propose: identity signals are a count; scoring and metadata strictness are not modelled.
- ConflictLedger.Ledger.PersistCandidate: permission is a function of the cause and the claims, from which the source derives classification, visibility and tags first; that derivation is not modelled.
- ConflictLedger.Ledger.Detect: one tenant, one redirect table per run; the cycle error of canonical ids cannot occur in sound runs and is not modelled, nor are the event and outbox entries of a conflict. A conflict identity is a value, not the joined string, so collisions between joined strings are not modelled.
- ConflictLedger.Ledger.Resolve: permissions are inputs; strictest classification and visibility of the claims are not modelled.
- ConflictDetection.MaximalViolatingSets: the order in which the sets are returned is left open.
- ClaimStore.RecordStore.ListClaims: assumes the history table is read in write order, which the Postgres query does not demand; the order of the listing is left open.
- DecisionAudit.AuditReproducesCaptureIff: what candidates a capture retrieves, ranks and authorizes is not modelled, only the versions it reads; over the record layouts.
- DecisionAudit.BundleIsStable: the same claim versions, but not their order, on which the bundle's content hash depends; evidence, policies, receipts and events of a bundle are not modelled.
- ServingGate.ProjectionServingGate.BeginSearch: the status snapshot is reduced to readiness or failure; `rollbackReason` is set exactly with `rollbackActive` and is represented by it.
- SemanticContract.Duplicates: issue records carry a code, a path and a message, of which only the value is modelled; unknown references, cardinalities and rules of a contract are plain filters and are left out.
- EntityTypeClosure.JsonSchema: only the selection of properties and required predicates, not the schema documents of single predicates.
- Fusion.ReciprocalRankFuse: exact reals instead of floating point, and a non-negative k.
- RateLimiter.Limiter.Consume: the key is given; the hash of credentials or address is not modelled.
- Merge lineage listings, candidate search and name normalisation: string-library work and plain listings.
- Lexical and vector search, cosine scores, HNSW and SQL text: behaviour of the database or of floating point.
- HTTP routing, REST and MCP handlers, blobs, CLI, web, PROV-O and JSON-LD export, queues: input and output plumbing.

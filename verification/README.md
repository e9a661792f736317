# Verification of the scrapyard tooling

A Dafny model of three parts of the repository and two companions, with proofs about all of their inputs and runs.

**The workflow runtime** (`Workflow`, `SweepSteps`, `Flushing`, `Services`, `Traces`, `Walks`, `StrayWrites`,
`Termination`, `StackDepth`, `Footprint`, `NoOverlap`, `Sweeping`, `Refusals`, `PlainTerms`, `SessionRuns`, `Handlers`,
`Erasure`, `ToolLibrary`, `LibraryRules`).
`tools/gen_models.py` emits services and routes for a declared domain. The model is the meaning of that emitted code for
*any* domain: a `Schema` holds the state machines, guards, effects, time transitions, reference and overlap rules,
foreign keys and owners, and every theorem quantifies over it. `ToolLibrary` and `LibraryRules` draw the conclusions for
one of the shipped domains.

- `Workflow` says what a service call does to a store and which primitive writes it makes. `depth` is the room left on
  the Python stack, so that runaway recursion is an outcome (`TooDeep`) and not assumed away.
- `Services.Session` is the emitted code itself, method by method, on one session, proved equal to those functions.
  Queries fix which rows come back, not their order; a sweep is proved for every order. The session keeps what its
  database has seen beside what it works on, and its queries read the former unless autoflush is on; the shipped session
  has it off (scrapyard/database/db_session.py:53). `Flushing` says what has been flushed when. As long as no transition
  of a sweep is refused after it has written, no query can tell the two settings apart (`Flushing.LazySweepIsSweep`);
  effect-free sweeps are of that kind (`Sweeping.EffectFreeIsWhole`). `Traces.SweepIsRun` holds whatever queries give.
- `Traces` turns each call into a run of enabled writes. Everything about whole runs is an induction over such writes,
  so it also holds after errors: a refused transition keeps what it wrote before the refusal, and sweep goes on.
- `PlainTerms` says what a guard, a deadline, a reference rule, an overlap rule, a default and an effect value mean, by
  the columns of the rows alone. The results of the other parts have companions of that kind (`...Exactly`).
- `Walks.Exec` adds flushes, commits and dropped requests; a create is judged by what its query reads, which may be
  behind. `SessionRuns.Perform` shows that a call on a session does what `Exec` says. `Handlers.Api` is the owner-scoped
  HTTP layer, one session a request.

**The audit log** (`AuditLog`). The hash is a parameter assumed injective, and never the genesis or the empty value;
signing and verifying are an abstract pair, and which strings decode as hex is a parameter.

**The capability graph and import closure** (`Reachability`, `Capabilities`, `GraphQuery`, `Sorting`,
`DependencyClosure`). The recursive resolver, the stack search on reversed edges, the breadth-first path search, graph
validation and the import worklist are written separately in the repository; here each is proved against one definition
of reachability.

**Companions**: cosine similarity over exact reals with ranking (`Similarity`), and the encryption-coverage gate against
the columns the model generator emits (`EncryptionCoverage`).

Where a promise fails, the model keeps the code as it is, gives an input, and states the condition:

- A direct (unguarded) `set_related` on a status column can leave the table: `StrayWrites.DirectEffectLeavesTheTable`.
  With every such effect guarded no run leaves it: `Walks.EveryRunStaysOnWalks`. For domains whose states have one
  effect at most, and no guards where they have one, transitions stay on the tables exactly when the effects of each
  state that can be entered are harmless: `StrayWrites.EffectsAreTheOnlyWayOff`. A single write past the machine leaves
  its row on a walk exactly when the table leads from the old status to the new one (`StrayWrites.WrittenStatusWalks`),
  and keeps statuses reachable exactly when the table reaches the new one from the initial state
  (`StrayWrites.WrittenStatusIsReachable`, for new rows `StrayWrites.NewRowIsReachable`).
- A sweep can move a row without reporting it, because the status is written before the effects
  (`Sweeping.WritesOnceLetThrough`) and a refusal rolls nothing back: `Sweeping.SweptButNotReported`. With single
  guarded effects a pass does so exactly for the rows whose chain of references stops in their own turn and that pass
  in the chain of that turn or of another row's (`Refusals.MovedUnreported`); when effects never lead back into the
  swept entity, for those that pass in their own turn with a later link missing or blocked
  (`Refusals.MovedUnreportedAway`).
- Time transitions listed backwards need a second sweep: `Sweeping.BackwardListNeedsTwoSweeps`. A second sweep moves
  nothing exactly when every row is settled (`Sweeping.SecondSweepIsIdle`); a list that never goes back settles every
  row, and for unguarded transitions with distinct sources the second sweep of every store is idle only then
  (`Sweeping.SweepsOnceExactly`).
- A table that re-enters an active status breaks the overlap rule: `NoOverlap.ReactivatedHoldsOverlap`. The exact
  missing check is `NoOverlap.ReactivationNeedsTheCheck`.
- Guarded effects in a cycle exhaust any stack: on the same rows again and again (`Termination.CyclicEffectsNeverEnd`,
  for example `Termination.PingNeverEnds`), or on a chain of rows as long as the stack is deep. Where calls are single
  and unguarded, some stack is deep enough for all stores exactly when there is no cycle:
  `StackDepth.StackBoundExactly`.
- Package files copied on the side are not scanned, so the copied tree need not be import-complete:
  `DependencyClosure.MissedByEveryRun`, with an instance in `MissedImport`. `CompleteExactly` says when a run is
  complete. Which package files are scanned can depend on the order of a set; where imports lead to plain modules it
  does not, and `CompleteBeforehand` decides completeness from the two trees alone.
- `safe-remove` is stricter than needed for a capability that requires itself only: `GraphQuery.RemovalIsHarmless`.

Called directly with two entities of one name, the coverage gate sees the last (`EncryptionCoverage.CheckCoverage`,
`EncryptionCoverage.DuplicateNamesHideAField`); the tools cannot do so, because `load_domain` keys entities by name
(`EncryptionCoverage.LoadEntities`).

`dafny verify dfyconfig.toml` checks the project.

## Model

| member | source | states |
|---|---|---|
| Services.Session.Create | tools/gen_models.py:412-433 | Succeeds exactly when every reference rule holds and no active row of the same scope that the database has seen overlaps; then each reference given names an existing row at a listed status, and the store has one more row, with defaults, under the next id, and is flushed; otherwise nothing changes, and without an overlap rule some reference given names no row or one at no listed status |
| Services.Session.Update | tools/gen_models.py:439-443 | Sets exactly the given fields of the row, unchecked, leaves every other row and field alone, or reports that there is none |
| Services.Session.Delete | tools/gen_models.py:444-447 | Removes the row and exactly the rows with a chain of foreign keys to it, changes no other, or reports that there is none |
| Services.Session.Transition | tools/gen_models.py:452-493 | The statement-by-statement code gives, for every schema, store and stack depth, the store, outcome and flushed state of the specification functions, errors and nested calls included |
| Services.Session.CheckGuards | tools/gen_models.py:463-470 | The guard loop passes exactly when each guarded column holds its value and each guarded reference names a row of a declared entity at a listed status, in the current store |
| Services.Session.Fire | tools/gen_models.py:472-493 | The effect loop runs on the live row and stops at the first error with what was written so far |
| Services.Session.ApplyEffect | tools/gen_models.py:474-492 | One effect: a direct write, a child row, or the related entity's own transition with a missing row turned into a refusal |
| Services.Session.Sweep | tools/gen_models.py:497-514 | With autoflush on or off, for every order the queries may return in: each query gives the rows due by what has been flushed, and the store, outcome and reported ids are those of the specification function |
| Services.Session.SweepPass | tools/gen_models.py:509-513 | Only workflow errors are swallowed, without a rollback or a flush; ids whose transition did not raise are reported |
| Services.Session.DeleteUserData | tools/gen_models.py:878-885 | The per-table deletes amount to one cascade from all of the user's rows, and each count is of the user's rows still there when the table's turn comes |
| Services.Session.ExportUserData | tools/gen_models.py:856-864 | Every owned table with a row of the user, with exactly those rows |
| Workflow.Transition | tools/gen_models.py:452-493 | Whatever the outcome, no row disappears |
| PlainTerms.TransitionWritesExactly | tools/gen_models.py:458-471 | On an existing row a transition writes exactly when the table leads from its status to the target, every guard on a column finds its value there, and every guard on a related row finds that row at a listed status; the first write is then the status; otherwise it refuses and changes nothing |
| PlainTerms.TransitionSetsStatus | tools/gen_models.py:471-493 | Into a state without effects a transition that writes sets the status of its row and nothing else |
| PlainTerms.RelatedEffectExactly | tools/gen_models.py:474-486 | An effect on a related row: nothing without a reference; unguarded, one column of the row referred to, if it is there; guarded, that row's own transition, and a refusal if it is not there |
| PlainTerms.OneEffect | tools/gen_models.py:472-493 | No effects do nothing, and a list of one does what the one does |
| PlainTerms.EffectsInOrder | tools/gen_models.py:472-493 | Running two lists of effects is running the first and, only if it is done, the second on what the first left |
| PlainTerms.ChildOfRow | tools/gen_models.py:487-492 | A child gets the constants of its effect and, for copied columns, what the acting row holds |
| PlainTerms.RefRuleInPlainTerms | tools/gen_models.py:417-423 | A reference rule holds exactly when the reference is not given, or names an existing row, at a listed status if there is a list |
| PlainTerms.ConflictInPlainTerms | tools/gen_models.py:424-432 | A row conflicts with a new one exactly when it is active, has the same scope value, and the half-open intervals meet |
| PlainTerms.CreateAllowedExactly | tools/gen_models.py:412-432 | A create goes ahead exactly when every reference given passes its rule and every row its query reads is of another scope, inactive, or disjoint in time |
| PlainTerms.CreatedRow | tools/gen_models.py:433 | The new row holds what was given, the initial status or the column defaults for the rest, under the next id; no other row changes |
| LibraryRules.CheckoutExactly | domains/tool_library/domain.json:194-246 | A reservation of the library is checked out exactly when it is reserved, its tool is available or reserved, and its member active |
| LibraryRules.EveryCheckoutIsCovered | domains/tool_library/domain.json:194-246 | In every run of enabled writes from any store, each checkout of a reservation found, at that moment, its tool available or reserved and its member active |
| LibraryRules.EveryBookingIsCovered | domains/tool_library/domain.json:111-180 | A create call that makes a reservation, in any database, found the member it names active and the tool it names available |
| LibraryRules.RefusedBookingIsUncovered | domains/tool_library/domain.json:111-180 | While its query reads no reservation, a booking is refused only if the member it names is missing or not active, or the tool missing or not available |
| LibraryRules.NeverDoubleBooked | domains/tool_library/domain.json:129-180 | Whatever is called on an empty library, no two running reservations of a tool overlap in time, by the columns of the rows |
| LibraryRules.LibraryReferences | domains/tool_library/domain.json:86-300 | Which rows of the library a row keeps a cascading reference to |
| LibraryRules.SweepExpiresExactly | domains/tool_library/domain.json:248-264 | A sweep of the reservations expires exactly those requested, approved or reserved whose end is before the clock, and changes nothing else |
| LibraryRules.DamagedReturn | domains/tool_library/domain.json:194-246 | Returning a checked-out tool damaged puts the tool in maintenance, adds one incident for the reservation and one open maintenance record for the tool, and changes nothing else |
| Traces.TransitionIsRun | tools/gen_models.py:452-493 | Whatever the outcome, the writes made are a run in which every status write was in the row's own table with its guards holding at that moment, nested transitions included |
| Traces.SweepIsRun | tools/gen_models.py:497-514 | The same for a sweep, including the writes of transitions that were refused half way |
| Traces.NoCreatesInTransition | tools/gen_models.py:471-492 | A transition writes by status moves, direct effect writes and effect-created rows only |
| Walks.OneWriteWalks | tools/gen_models.py:439-492 | From any store with fresh ids an enabled write leaves every row on a walk of its table, exactly unless it is a direct effect or an update that writes a status the table does not lead to |
| Walks.EventWalks | tools/gen_models.py:461-471 | Such a write keeps every row on a walk from where it was at any earlier moment, and keeps ids fresh |
| Walks.EventKeepsReachable | tools/gen_models.py:288-294 | Each enabled write keeps every stored status reachable from its entity's initial state |
| Walks.RunWalks | tools/gen_models.py:452-514 | With guarded status effects, over every run of writes rows walk in their own tables, whatever statuses are created, asked for or stored to begin with |
| Walks.RunKeepsReachable | tools/gen_models.py:452-514 | With effects that can store no unreachable status, over every run of writes statuses stay reachable and rows walk, direct effects included |
| Walks.CallIsRun | tools/gen_models.py:412-514 | Every service call is a run of enabled writes, and only create() creates through the client's data, judged by what its query reads |
| Walks.CallFlushes | tools/gen_models.py:433-514 | What a call leaves flushed is what was flushed before, or a store the call went through |
| SessionRuns.Perform | tools/gen_models.py:412-514 | Each call on a session leaves what the run theorems say of it: the working store, and what queries then read, whatever order the queries of a sweep returned |
| Walks.EveryRunStaysOnWalks | tools/gen_models.py:439-514 | With guarded status effects: over every sequence of create, status-free update, transition, sweep, delete, erase, commit and dropped request, every surviving row of the working and the committed store has walked in its own table; nothing is asked of create effects, client-given statuses or the first store |
| Walks.EveryRunStaysReachable | tools/gen_models.py:439-514 | Over such sequences with default-status creates, and effects that can store no unreachable status, every status in both stores is reachable and every surviving row has walked |
| Walks.PendingWorkWalks | tools/gen_models.py:439-514 | At any moment of such a run the uncommitted rows have walked from the committed ones |
| StrayWrites.NewRowIsReachable | tools/gen_models.py:433 | A created row, by create() or by an effect, keeps all statuses reachable exactly when its status is left to default or one its table reaches |
| StrayWrites.WrittenStatusIsReachable | tools/gen_models.py:442-486 | A status written outside transition(), by update() or a direct effect, keeps all statuses reachable exactly when the table reaches it |
| StrayWrites.WrittenStatusWalks | tools/gen_models.py:442-486 | Such a write leaves its row on a walk exactly when the table leads from the status the row had to the one written |
| StrayWrites.DirectEffectLeaves | tools/gen_models.py:472-486 | A state some reachable status leads to, with one direct status effect and no guards, and a reachable status of the target from which its table does not lead to the one written: a store with reachable statuses in which the transition takes the target off its walk |
| StrayWrites.CreateEffectLeaves | tools/gen_models.py:487-492 | Likewise for a child created with a status its table does not reach, constant or copied |
| StrayWrites.EffectsAreTheOnlyWayOff | tools/gen_models.py:452-493 | For domains of single, unguarded-state effects: all transitions from all stores with reachable statuses, at any depth, keep statuses reachable and rows on walks exactly when the effects of every state that can be entered are harmless |
| StrayWrites.DirectEffectLeavesTheTable | tools/gen_models.py:483-486 | A concrete transition whose unguarded effect takes a row off its walk, to a status its table never reaches |
| Termination.RankedTransitionsTerminate | tools/gen_models.py:476-482 | When guarded effects are ranked on (entity, state), a stack deeper than the rank never overflows and any two such depths give the same result |
| Termination.RankExistsExactly | tools/gen_models.py:476-482 | Guarded effects can be ranked exactly when no (entity, state) calls for itself through them |
| Termination.AcyclicTransitionsTerminate | tools/gen_models.py:476-482 | Without such a cycle a stack deeper than the number of (entity, state) pairs with or under effects never overflows, whatever the store |
| Termination.CyclicEffectsNeverEnd | tools/gen_models.py:476-482 | A cycle of guarded effects that neither table nor guards stop overflows every stack, from rows that refer to each other round the cycle |
| StackDepth.CycleOverflowsAnyStack | tools/gen_models.py:476-482 | For any cycle of unguarded calls between states that can be entered, and any depth, a store with fresh ids and reachable statuses whose transition overflows it, with no row entered twice |
| StackDepth.StackBoundExactly | tools/gen_models.py:476-482 | Where calls are single and unguarded: some stack is deep enough for all transitions in all stores exactly when no state calls for itself |
| Footprint.NewRowsAreSpawned | tools/gen_models.py:487-492 | The new rows are one for each create effect that fired, under the next ids of its table |
| Footprint.TransitionFootprint | tools/gen_models.py:452-493 | For every domain: rows change at most in their status and in columns direct effects name, and only if references held at some moment of the call lead to them from the moved row; nothing is deleted; each new row is the child of the create effect that fired in its turn, with the values of a row those references lead to, up to later writes |
| Footprint.RefsOverAreLeast | tools/gen_models.py:474-486 | No more references count than those held at some moment |
| Footprint.FixedRefsFootprint | tools/gen_models.py:452-493 | Where no effect follows a column that some write sets, the same by the references of the final store |
| Footprint.GuardedWritesStatus | tools/gen_models.py:476-486 | With guarded effects only, the status is the only column written |
| NoOverlap.CreateKeepsExclusive | tools/gen_models.py:424-432 | The overlap query at creation is enough to keep one active row per scope value and instant, whatever the machine and effects, even on rows that are behind as long as they show every active one |
| NoOverlap.FlushedShowsActive | tools/gen_models.py:452-514 | Under the conditions of the next row, what has been flushed always shows every active row |
| NoOverlap.EveryRunKeepsExclusive | tools/gen_models.py:424-493 | If no move enters an active status from another and no effect creates or directly sets rows of the entity, no run of calls, updates of other columns included, ever makes two active rows of a scope value cover one instant, with autoflush on or off |
| NoOverlap.ReactivationNeedsTheCheck | tools/gen_models.py:460-471 | An active status may be written on a row exactly when no other active row of the scope meets it |
| NoOverlap.ReactivatedHoldsOverlap | tools/gen_models.py:460-471 | A concrete table with a way back to active, and the transition that makes two rows overlap |
| Sweeping.SweepReportsItsMoves | tools/gen_models.py:497-514 | When swept-to states have no effects, the result lists each id once for each legal step its row took, in order, and nothing else is written |
| Flushing.FlushedOrders | tools/gen_models.py:506-513 | With autoflush on the queries of a sweep read the working rows |
| Flushing.LazySweepIsSweep | scrapyard/database/db_session.py:53 | With nothing waiting to be flushed and no transition refused after writing, the queries of a sweep return the same rows with autoflush off |
| Sweeping.EffectFreeIsWhole | tools/gen_models.py:462-493 | No transition is refused after writing when swept-to states have no effects |
| Refusals.RefusedByChain | tools/gen_models.py:462-482 | With single guarded effects: a transition is refused exactly when the chain of rows its references lead to has a first link that is missing or blocked, and then exactly the rows before that link have moved |
| Refusals.UnreportedInTurn | tools/gen_models.py:509-513 | An id of a pass is left out of the result exactly when its chain stops in its own turn; its row has moved in that turn all the same exactly when the chain stops at a later link |
| Refusals.PassMoves | tools/gen_models.py:509-513 | With single guarded effects, a pass moves exactly the rows that pass in the chains of its turns |
| Refusals.MovedUnreported | tools/gen_models.py:509-513 | A row the pass was given has moved and is not reported exactly when its chain stops in its own turn and the chain of that turn or another's moves it |
| Refusals.MovedUnreportedAway | tools/gen_models.py:509-513 | When effects never lead back into the swept entity: exactly when, in its own turn, it passes and a later link is missing or blocked |
| Sweeping.SweptButNotReported | tools/gen_models.py:509-513 | A concrete sweep that moves a row, reports no id and raises nothing |
| Sweeping.SweepIsRowByRow | tools/gen_models.py:497-514 | When guards read no swept status, of this row or another, a sweep is one independent step function on each row, whatever the query order; guards may read other entities |
| Sweeping.BlockedRowsStay | tools/gen_models.py:506-513 | A sweep leaves a row as it was if each time transition does not start at its status, has a deadline there that is not before the clock, is not in its table, or is stopped by a guard on its own fields or on another entity, whatever the other guards read; other entities are untouched |
| PlainTerms.SweepMovesOverdue | tools/gen_models.py:506-513 | Into states without effects a sweep moves only rows that stand at the source of a time transition their table allows, past its deadline; where that has no guards, all of them; it leaves every other row as it was |
| Sweeping.IdleSweep | tools/gen_models.py:506-514 | A sweep writes and reports nothing exactly when every due row is blocked by its table or guards |
| Sweeping.FateCatchesUp | tools/gen_models.py:506-513 | For one row, stepping at n1 and then at n2 is stepping at n2 |
| Sweeping.SweepCatchesUp | tools/gen_models.py:497-514 | Sweeping at n1 and then at n2 >= n1 leaves the store of one sweep at n2; with n1 = n2, sweeping is idempotent |
| Sweeping.SecondSweepIsIdle | tools/verify_build.py:2024-2032 | A second sweep at the same clock moves and reports nothing exactly when every row is settled by its fate in the first; so it is if no time transition starts where it or a later one ends |
| Sweeping.SettlesExactly | tools/gen_models.py:506-513 | For unguarded time transitions with distinct sources every row settles exactly when the list never goes back |
| Sweeping.SweepsOnceExactly | tools/verify_build.py:2024-2032 | For such lists without effects, the second sweep of every store, at any time and in any order, moves nothing exactly when the list never goes back |
| Sweeping.BackwardListNeedsTwoSweeps | tools/gen_models.py:506-513 | A concrete machine with its time transitions in the wrong order, and two sweeps of it that each move the row |
| Handlers.Api.Serve | tools/gen_models.py:637-733 | Each owner-scoped request replies and commits as specified; a reply other than success leaves the committed store untouched, for machines with effects too |
| Handlers.PostExactly | tools/gen_models.py:652-658 | A post adds one row with the payload as given and the owner column set to the caller, or conflicts and changes nothing; without rules it succeeds |
| Handlers.OthersAreNotFound | tools/gen_models.py:659-733 | A put, delete or transition is not found exactly when the row is missing or its owner column is not the caller, after a missing or empty target is rejected; in both cases nothing changes |
| Handlers.PutExactly | tools/gen_models.py:661-668 | A put sets exactly the payload's columns other than the owner's on the caller's row |
| Handlers.TransitionReplies | tools/gen_models.py:720-733 | A transition request replies success exactly when the transition is done, conflict when it is refused, and commits only in the first case |
| Handlers.RequestTouchesOwnRows | tools/gen_models.py:652-668 | On effect-free machines a create, update or transition changes only rows of the caller, which stay the caller's |
| Handlers.OwnersAreIsolated | tools/gen_models.py:637-733 | Over any run of such requests by any users no row disappears or changes hands, and a user who made none keeps exactly the same rows |
| Handlers.DeleteTakesTheChain | tools/gen_models.py:669-677 | A delete removes exactly the row and the rows chained to it by foreign keys, whoever owns them |
| Erasure.CascadeIsTransitive | tools/gen_models.py:306-314 | A cascade removes exactly the rows with a chain of foreign keys into the deleted ones |
| Erasure.ReferencesExactly | tools/gen_models.py:306-314 | One row references another exactly when a cascading foreign key column of it holds the other's id |
| Erasure.CascadeInStages | tools/gen_models.py:881-883 | Deleting one set and then what is left of another removes what deleting both at once would |
| Erasure.ErasureIsComplete | tools/gen_models.py:878-885 | After erasure no table holds a row owned by the user and the export is empty |
| Erasure.ExportExactly | tools/gen_models.py:856-864 | Only tables with an owner are exported; the export of a table holds a row exactly when the owner column of it is the user, with that row as it is |
| Erasure.ErasureExactly | tools/gen_models.py:878-885 | After erasure a row remains exactly when no chain of foreign keys leads from it to a row whose owner column is the user |
| Erasure.OthersSurviveExactly | tools/gen_models.py:878-885 | The rows of another user all survive exactly when none has such a chain |
| Erasure.ErasureSparesOthers | tools/gen_models.py:856-885 | Another user's export is unchanged exactly when no row of theirs transitively references a row of the erased user |
| ToolLibrary.LibraryStaysOnWalks | domains/tool_library/domain.json:194-246 | From an empty tool_library database: after any calls and any further calls, every row committed at the first moment and still there has walked in its own table |
| ToolLibrary.LibraryStaysReachable | domains/tool_library/domain.json:194-246 | Every status it ever holds is reachable, for default-status creates |
| ToolLibrary.ReservationFootprint | domains/tool_library/domain.json:194-246 | Moving a reservation changes at most its status and that of the tool it names, and adds incidents and maintenance records only |
| ToolLibrary.LibraryTransitionsTerminate | domains/tool_library/domain.json:194-246 | None of its transitions nests deeper than two calls |
| ToolLibrary.LibraryStaysExclusive | domains/tool_library/domain.json:129-180 | Over any run of calls from an empty database no two active reservations of a tool cover one instant |
| ToolLibrary.LibrarySweepsCatchUp | domains/tool_library/domain.json:248-264 | For every store and query order, sweeping at n1 and then at n2 leaves the store of one sweep at n2 |
| AuditLog.Log.Record | scrapyard/admin/audit_logs.py:92-114 | Appends one entry with the given actor, action, target, detail and time, chained to the hash of the last, hashed over exactly those, signed on request, and touches nothing else |
| AuditLog.Log.VerifyChain | scrapyard/admin/audit_logs.py:117-140 | Raises exactly when signing is unavailable or a witness is not hex; otherwise accepts exactly the well-formed chains, lists exactly the findings of each row, in order, and counts the rows that carry a witness |
| AuditLog.FindingsExact | scrapyard/admin/audit_logs.py:129-139 | A row and reason are reported exactly where that row's contents, link or witness is wrong |
| AuditLog.FindingsExactly | scrapyard/admin/audit_logs.py:129-139 | The findings of a row, by its columns: a hash that is not that of its contents, a previous hash that is not the one before, a witness that does not verify |
| AuditLog.GoodExactly | scrapyard/admin/audit_logs.py:117-140 | What a well-formed row is, by its columns |
| AuditLog.WitnessedCounts | scrapyard/admin/audit_logs.py:133-138 | The count is of the rows with a non-empty witness |
| AuditLog.BuiltLogsVerify | scrapyard/admin/audit_logs.py:92-140 | Every log built by record(), signed or not, verifies, and its witnesses can be read |
| AuditLog.HashesDistinct | scrapyard/admin/audit_logs.py:84-89 | All entry hashes of a well-formed chain differ |
| AuditLog.OnlyPrefixesVerify | scrapyard/admin/audit_logs.py:117-140 | Rows of a log with any deleted, reordered or repeated verify exactly when they are a prefix of it |
| AuditLog.SameHeadSameHistory | scrapyard/admin/audit_logs.py:84-140 | Two verifying logs with the same last hash have the same length and, row by row, the same actor, action, target, detail, previous hash and instant |
| AuditLog.MutationIsFound | scrapyard/admin/audit_logs.py:130-132 | A row whose actor, action, target, detail, previous hash or instant was changed under an unchanged hash is reported |
| AuditLog.TimestampsSurvive | scrapyard/admin/audit_logs.py:75-81 | A log that verifies still does after a round trip through the database exactly when every time in it is naive or has offset zero |
| Capabilities.Resolver.Walk | tools/resolve.py:160-177 | The recursive closure updates its variables as the specified depth-first walk does |
| Capabilities.Resolver.ResolveCapabilities | tools/resolve.py:179-180 | The whole resolution is that walk over the wanted names |
| Capabilities.VisitedIsReachable | tools/resolve.py:152-180 | The names seen are exactly those reachable from the wanted ones, on cyclic graphs too |
| Capabilities.ResolutionIsReachability | tools/resolve.py:152-190 | Subsystems are the reachable meta names and unknown the reachable undefined ones, each once; the parts name all reachable concrete capabilities exactly when no two share a part |
| Capabilities.NeedsExactly | tools/resolve.py:160-177 | A name leads to its requirements as a concrete capability or else as a meta one |
| Capabilities.PartsExactly | tools/resolve.py:164-167 | A part is filed exactly if it is that of a reachable concrete capability, with the status, layer and addition of one of them |
| Capabilities.ListedAsEncountered | tools/resolve.py:160-180 | Wanting more only adds to the end of the lists of subsystems and unknown names |
| Capabilities.FirstIsListed | tools/resolve.py:170-172 | A meta name that is wanted first is listed first |
| Capabilities.ResolutionIsMonotone | tools/resolve.py:160-180 | Wanting more never resolves less |
| Capabilities.FilterByStage | tools/resolve.py:43-54 | Keeps the names selected at or below the position of the stage and defers the others; an unknown stage and the first name whose stage (mvp for lack of one) is not in the order are errors |
| Capabilities.SelectedByPosition | tools/resolve.py:43-54 | What is kept, by position: in order and with repeats, exactly the wanted names whose stage comes first in the order at or before the limit, and the rest is deferred |
| Capabilities.InStageExactly | tools/resolve.py:43-54 | A capability is kept exactly when the first position of its stage, mvp for lack of one, is at or before the limit |
| Capabilities.IndexExactly | tools/resolve.py:43-54 | A stage is ranked by the first position that has it |
| Capabilities.LaterStagesKeepMore | tools/resolve.py:43-54 | A later stage resolves every part an earlier one did |
| Capabilities.ValidateGraph | tools/build_capability_graph.py:333-349 | Attaches the authored requirements and reports exactly the names that are mentioned and not defined |
| Capabilities.ValidationMeansNoDangling | tools/build_capability_graph.py:333-355 | No reported fault means no dangling requirement, and the other way for disjoint names |
| Capabilities.ValidatedGraphsResolve | tools/build_capability_graph.py:345-355 | Every list of defined names resolves without unknowns exactly when no requirement dangles |
| GraphQuery.Edges | tools/graph_query.py:34-41 | One adjacency list per defined name, a meta declaration replacing a concrete one |
| GraphQuery.Reverse | tools/graph_query.py:44-49 | Exactly the same edges, turned round |
| GraphQuery.Closure | tools/graph_query.py:52-63 | Terminates with exactly the names reachable by at least one edge, in strictly ascending order |
| Sorting.AscendingIsUnique | tools/graph_query.py:63 | There is one such list, so the result is settled by reachability alone |
| Sorting.BeforeExactly | tools/graph_query.py:63 | One name comes before another exactly when it is a proper prefix or has the smaller character where they first differ |
| GraphQuery.FindPath | tools/graph_query.py:66-78 | A path along real edges that no other undercuts, and None exactly when there is none |
| GraphQuery.PatternsUsing | tools/graph_query.py:81-97 | Names, in order, exactly the patterns whose resolution has the capability as part or subsystem |
| GraphQuery.UseIsBackwardReach | tools/graph_query.py:81-97 | A pattern uses a capability exactly when it asks for it or for something the reversed search finds |
| GraphQuery.SafeToRemove | tools/graph_query.py:147-167 | The verdict is safe exactly when no edge leads to the capability and no pattern uses it |
| GraphQuery.RemovalIsHarmless | tools/graph_query.py:159-167 | Removal leaves the whole resolution of every list not naming it unchanged exactly when the reversed search finds nothing but the capability itself |
| DependencyClosure.OutputTree.CopyInto | tools/dependency_closure.py:53-65 | Copies the file and the missing package files on its path, and changes nothing else |
| DependencyClosure.OutputTree.Expand | tools/dependency_closure.py:68-111 | Terminates; nothing is overwritten; every import of a scanned file is present or reported, and what is reported is such an import that neither tree has; every added module is import-reachable from a seed; what was not scanned is a package file on the path of an added one |
| DependencyClosure.ImportsExactly | tools/dependency_closure.py:41-50 | An import leads to the file of its name or, only where there is none, to the `__init__` of the package of its name |
| DependencyClosure.AddedExactly | tools/dependency_closure.py:53-111 | The file of each added module is in the tree with every `__init__` the repository has on the way to it, and each of its imports is in the tree or reported |
| DependencyClosure.WhereFilesComeFrom | tools/dependency_closure.py:68-111 | Files that were there stay as they were; every other file is a copy of an added module's or of an `__init__` on the way to one |
| DependencyClosure.ReportedExactly | tools/dependency_closure.py:68-111 | A reported import is in neither tree as module or package, and a file of the result asks for it |
| DependencyClosure.CompleteExactly | tools/dependency_closure.py:11-12 | For each run: every import of every file is met exactly when each unscanned package file imports only what is in the tree or what a scanned file asks for |
| DependencyClosure.CompleteWhenPackagesImportNothing | tools/dependency_closure.py:58-65 | So it is if the package files copied on the side import nothing |
| DependencyClosure.MissedByEveryRun | tools/dependency_closure.py:58-65 | A package file on the path of a surely copied module, reached by no import, whose import nothing reached or accompanying provides and no reached file asks for, is copied and missed in every run |
| DependencyClosure.CompleteBeforehand | tools/dependency_closure.py:11-12 | Where imports lead to plain modules: every run is complete exactly when each accompanying, unreached package file imports only what is reached, comes along, or is asked for by a reached file |
| DependencyClosure.MissedImport | tools/dependency_closure.py:58-65 | A concrete repository where a package file's import is neither copied nor reported |
| Similarity.CauchySchwarz | scrapyard/agents/conversation_state.py:78-80 | The squared dot product never exceeds the product of the squared norms, for any length |
| Similarity.DotGrows | scrapyard/agents/conversation_state.py:75-83 | The dot product adds the product of the last components |
| Similarity.ScoreTimesLengths | scrapyard/agents/conversation_state.py:75-83 | The score times the two lengths is the dot product, and zero vectors score 0 |
| Similarity.CosineSymmetric | scrapyard/agents/conversation_state.py:75-83 | The score does not depend on the order of its arguments |
| Similarity.CosineInRange | scrapyard/agents/conversation_state.py:75-83 | The score is between -1 and 1 |
| Similarity.CosineOfSelf | scrapyard/agents/conversation_state.py:75-83 | A vector scores 1 with itself if it is not zero, else 0 |
| Similarity.CosineIgnoresScale | scrapyard/agents/conversation_state.py:75-83 | Positive scaling does not change the score |
| Similarity.SortIsStable | scrapyard/agents/conversation_state.py:163 | The sort is a descending permutation with ties in their original order |
| Similarity.ScoresAt | scrapyard/agents/conversation_state.py:158-164 | Each memory is scored with the query, in its own place |
| Similarity.RankMemories | scrapyard/agents/conversation_state.py:158-164 | All scores, in descending order |
| Similarity.RecallTopN | scrapyard/agents/conversation_state.py:169-171 | As many as the slice takes, with what is left out making up all the scores and scoring no higher than anything returned |
| EncryptionCoverage.EffectivePolicies | tools/gen_models.py:122-155 | One policy per entity name and no other; the policy of a name is that of the last entity with it |
| EncryptionCoverage.CoverageFails | tools/gen_models.py:158-192 | Empty outside the strict tiers; inside them an entity that is the last of its name is reported, with exactly its undecided text fields, exactly when it has one |
| EncryptionCoverage.GateExactly | tools/gen_models.py:183-192 | Silent outside the tiers high and regulated; in them an entity is reported exactly when it has a text field that is not its id, not encrypted by its policy and not exempt |
| EncryptionCoverage.PolicyExactly | tools/gen_models.py:122-155 | What each tier asks of an entity, key by key, and that declared keys win |
| EncryptionCoverage.EncryptedExactly | tools/gen_models.py:137-149 | Encrypted by default in the two tiers: the declared names whose last field is text, and the text fields with one of the seven suspicious names |
| EncryptionCoverage.EncryptedColumnExactly | tools/gen_models.py:278-319 | Which fields get an encrypted column, and that only names ending in _id become references |
| EncryptionCoverage.CheckCoverage | tools/validate_assembly.py:161-173 | For every list, the gate passes exactly when the last entity of each name has no undecided text field |
| EncryptionCoverage.DistinctAreAllCovered | tools/validate_assembly.py:161-173 | With distinct names that is every entity |
| EncryptionCoverage.NoSilentPlaintext | tools/gen_models.py:278-319 | With distinct names the gate reports nothing exactly when, under the policies handed to the generator, every text field emitted is encrypted, exempt or the key, or is a status column or timestamp on the encrypted list |
| EncryptionCoverage.SensitiveByDefault | tools/gen_models.py:139-149 | A declared or suspiciously named text field is encrypted by default in a strict domain |
| EncryptionCoverage.LoadEntities | tools/resolve.py:113-122 | What the tools pass has distinct names, in the order they first came up along the chain of extended domains, and is the last entity of each |
| EncryptionCoverage.DuplicateNamesHideAField | tools/gen_models.py:167-179 | In a direct call with two entities of one name: no failure reported, and a plaintext column |

## Left out

- Services.Session.Update: may write a status past the machine, as in the repository; the run theorems take updates that leave the status column alone, and `StrayWrites.WrittenStatusWalks` is about the others.
- Services.Session.Create: does not model ids given by the caller, unknown columns, or database constraint errors such as an orphaned foreign key.
- GraphQuery.PatternsUsing: takes each pattern's requirements as load_pattern gives them; reading and merging pattern files is not part of this model.
- DependencyClosure.OutputTree.Expand: parsing imports out of source text is an input, and the final sorts are not modelled.
- Handlers.Api.Serve: authentication, roles, audit lines, response schemas, and the list, sweep and link routes are not part of this model.
- EncryptionCoverage.EffectivePolicies: starts from normalised fields; type inference from field names is not modelled.
- EncryptionCoverage.LoadEntities: takes the chain of extended domains as read; of the rest of load_domain (terminology, lists, hints, governance keys) nothing is modelled.
- Deadlines, interval ends and other compared columns are integers (datetimes as points in time); string-valued ones, JSON and float columns are not modelled.
- Error texts are not modelled, only which error is raised.
- The ORM identity map, concurrent writers, SHA-256, signatures and field encryption are abstract or left out; with autoflush off, a row an effect creates can be found by its id only after the next flush, and in the model at once. Erasure and export are those of a session with nothing waiting to be flushed.
- Effects or foreign keys on many-to-many link tables, streaming export, and identity-side account deletion are left out.
- Floating-point rounding: similarity is over exact reals with an exact square root.
- `plan_from_args` puts a pattern, domain hints, a stage, includes and excludes together into the list of wanted capabilities, and the other rules of `validate_assembly` look up the presence of named safeguards; neither is modelled.

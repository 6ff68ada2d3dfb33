# AUDiaGentic: verified models of its durable state and its algorithms

Dafny models of the stateful cores and of the algorithms of AUDiaGentic that carry the hardest promises.
`dafny verify dfyconfig.toml` checks everything.

**Planning.** `Journal.dfy` models the roll-forward journal behind every planning mutation and its event
outbox as values plus atomic actions; a crash is stopping after any prefix of the actions, in a commit or
in a recovery. `JournalStore.dfy` is the code that runs on disk: each method changes the file tree, the
transaction directories and the outbox step by step and logs its actions in ghost state, so the theorems
about runs cover every point at which a method can be interrupted. `Planning.dfy` decides for each item and
review operation which error it raises or which mutation it hands to the journal, `PlanningRuns.dfy`
proves what every run keeps, and `PlanningEffects.dfy` states, without those decisions, when an operation is
permitted and what it does to the repository, and proves that the decisions do exactly that;
`PlanningStore.dfy` is the repository on disk. The workflow is the one in
`src/audiagentic/components/planning/workflows.yaml`. `Text.dfy`, `ReviewLinks.dfy` and `ChangeLog.dfy`
model the text edits of item bodies on the characters themselves; `ReviewIndex.dfy` models what the integrity
index reads from an edited body.

**Ledger.** `LedgerEvents.dfy`, `Ledger.dfy`, `LedgerRuns.dfy` and `LedgerStore.dfy` model event files, the
frozen baseline, the historical ledger, recording, legacy migration and release in the same style;
`Conversion.dfy` and `ConversionStore.dfy` the conversion of a branch; `GitRef.dfy` reading at a git ref.

**Algorithms.** `Clustering.dfy` (union-find against chains of shared keys), `NdjsonTail.dfy` (reverse
chunked tail), `Extraction.dfy` (import closure and descriptor fixpoint), `Framing.dfy` (Content-Length
framing, Header Part of the Base Protocol in the Language Server Protocol 3.17 specification),
`Settings.dfy` (key splitting and patch building), `EditorConfig.dfy` (section merge), `Uris.dfy` (canonical
file URIs, UTF-8 and percent-encoding, section 2.1 of RFC 3986).

`Wrappers.dfy`, `Bytes.dfy`, `Sequences.dfy` and `RecordIds.dfy` hold what several modules share. Automatic
induction is off throughout: a proof by induction makes its recursive call.

Assumptions that the contracts name: sha256 is injective (a free constructor in the journal, event ids as
keys of the events directory in the ledger); event ids that the program draws at random are new; one process
at a time runs a locked operation; single file replacements and the removal of a transaction directory are
atomic.

Where a promise turned out to hold only under a condition, the model keeps the code's behaviour and proves
the condition:

- a mutation that both writes and deletes a path goes through exactly when the path is absent or already
  holds the written content; otherwise its manifest is refused now and on every later recovery
  (`Journal.GuardsAccept`);
- the documentation of recovery speaks of committed transactions, but the code ignores the manifest's phase:
  with payloads partly removed, recovery succeeds exactly when the payloads the writes name are left
  (`Journal.PartialRemoval`);
- an automatic item id breaks the planning invariant exactly when the plan has no items and its slug starts
  with `rv` (`PlanningRuns.DecisionKeeps`, with an example in `PlanningRuns.ReviewPrefixIsGuessed`);
- deleting the review that was just created restores the repository exactly when no item linked its id before
  (`PlanningEffects.DeleteUndoesCreate`);
- recording does not look at the baseline: afterwards the ledger can be loaded exactly when the baseline
  agrees with the new event (`LedgerStore.RecordedBesideBaseline`);
- appending a change-log entry adds exactly that entry to what is read back, for every body, exactly when the
  entry is readable: a time without white space, an actor on one line without a closing parenthesis, and a
  non-empty description on one line without trailing white space (`ChangeLog.AppendReadsBack`);
- removing a review link takes out exactly that link unless it empties the Reviews section of a body with
  another such section behind it whose links then come to light (`ReviewLinks.RemoveTakesOut`, with an example
  in `ReviewLinks.SecondSectionUncovered`);
- a review that was just created has the backlink that every later operation on it demands exactly when the
  heading rule of the edit and that of the integrity index lead to the same section; a heading `##  Reviews`
  with two spaces is one input where they do not (`ReviewIndex.AppendIsIndexed`, `ReviewIndex.TwoSpacesHide`);
- converting a branch keeps what the loader reports exactly when every baseline row without an event-id keeps
  its line number, on which its synthetic id depends (`ConversionStore.RestoredMeaning`; for the converse the
  synthetic ids of the two texts must differ from each other and from the ids in rows and event files); a row
  appended in front of one without an id breaks it (`ConversionStore.RowMovesUp`);
- the reverse tail splits at line feeds only, the forward reader also at lone carriage returns: on a file that
  the forward reader accepts they agree, for every limit, exactly when no line of the tail holds several
  visible text lines with a mapping among them, given that JSON takes no line with several values
  (`NdjsonTail.TailAgreesWithForward`, with an example in `NdjsonTail.LoneCRDiffers`);
- a git ref skips a JSON entry that is no regular file where the working tree refuses it; otherwise the two
  agree (`GitRef.RefIsWorkingTree`).

## Model

| member | source | states |
|---|---|---|
| `Journal.RollForwardReaches` | src/audiagentic/components/planning/durability.py:136-150 | from every file state that an interrupted attempt can leave, applying the manifest passes all guards and reaches the one target |
| `Journal.WriteKeepsTarget` | src/audiagentic/components/planning/durability.py:88-117 | any single guarded write, in any order, leaves the manifest recoverable and its target where it was |
| `Journal.DeleteKeepsTarget` | src/audiagentic/components/planning/durability.py:119-134 | the same for any single guarded delete, even before the writes are done |
| `Journal.PreparedTarget` | src/audiagentic/components/planning/durability.py:217-249 | the manifest that a commit writes targets exactly the post-state of the mutation |
| `Journal.PreparedRecoverable` | src/audiagentic/components/planning/durability.py:217-249 | it is recoverable iff no path is both written and deleted over other content |
| `Journal.GuardsAccept` | src/audiagentic/components/planning/durability.py:88-150 | a prepared mutation is applied in full iff it is compatible with the files; otherwise it is refused on every disk |
| `Journal.Wedged` | src/audiagentic/components/planning/durability.py:105-133 | the manifest of an incompatible mutation can never be applied, whatever the files become |
| `Journal.ForeignContentSurvives` | src/audiagentic/components/planning/durability.py:105-133 | with any outside edits, a file whose content no intent recorded is kept, and recovery refuses if it would have to replace or delete it |
| `Journal.PartialRemoval` | src/audiagentic/components/planning/durability.py:88-104 | recovery with some payloads gone succeeds iff those that the writes name are left |
| `Journal.StepJournal` | src/audiagentic/components/planning/durability.py:176-258 | every atomic step keeps at most one, recoverable, transaction; only making a manifest durable moves the files that recovery will produce |
| `Journal.StepEvents` | src/audiagentic/components/planning/durability.py:153-167 | no step loses or invents an event: issued events are in the journal, in the outbox or published |
| `Journal.StepHeld` | src/audiagentic/components/planning/events.py:98-126 | an outbox entry leaves the outbox only after it was published |
| `Journal.RunIsReplay` | src/audiagentic/components/planning/durability.py:170-258 | after any run of commits, crashes and recoveries the recovered files are the initial ones with exactly the durable mutations applied in order |
| `Journal.AllOrNothing` | src/audiagentic/components/planning/durability.py:202-258 | in every state while one mutation is committed, the recovered files show all of it or nothing of it |
| `Journal.AtLeastOnce` | src/audiagentic/components/planning/durability.py:153-167 | in every reachable state the event of each durable mutation is in the manifest, or an entry with its id, type, metadata and payload, key by key, is in the outbox or published |
| `Journal.HeldTells` | src/audiagentic/components/planning/events.py:61-126 | nothing else is ever enqueued or published: every such entry tells the event of some durable mutation |
| `Journal.EnqueuedIsNeverLost` | src/audiagentic/components/planning/events.py:98-126 | once enqueued, an event is in the outbox or published at every later point of the run |
| `Journal.RepublishedIdentically` | src/audiagentic/components/planning/events.py:61-126 | all publications of one event id in a run have the same content |
| `Journal.NoConflict` | src/audiagentic/components/planning/events.py:61-95 | re-enqueueing an issued event never meets an outbox entry of other content |
| `Journal.EntryTells` | src/audiagentic/components/planning/events.py:76-83 | an outbox entry is the one with the event's fields, its payload as it is, and its id as one more key unless the caller set that key |
| `JournalStore.Store.ApplyWrite` | src/audiagentic/components/planning/durability.py:88-117 | one hash-guarded write: done, already done, or refused with nothing changed |
| `JournalStore.Store.ApplyDelete` | src/audiagentic/components/planning/durability.py:119-134 | one hash-guarded delete: done, already absent, or refused with nothing changed |
| `JournalStore.Store.ApplyManifest` | src/audiagentic/components/planning/durability.py:136-150 | all writes, then all deletes, stopping at the first refusal |
| `JournalStore.Store.EnqueueEvent` | src/audiagentic/components/planning/events.py:61-95 | enqueues under the stable id what tells the event field by field, accepts an equal entry, refuses another one; never refuses an event of a durable mutation |
| `JournalStore.Store.Reconcile` | src/audiagentic/components/planning/durability.py:170-199 | leaves exactly the recovered files, returns how many transactions it finished, does nothing and returns 0 on an empty journal, never refuses in crash-only histories, and always fails, keeping the journal, behind a transaction that can never apply |
| `JournalStore.Store.Stage` | src/audiagentic/components/planning/durability.py:217-240 | stages every payload and records for each path the hash it replaces |
| `JournalStore.Store.Commit` | src/audiagentic/components/planning/durability.py:202-258 | succeeds iff the mutation is compatible, then has applied all of it and holds an entry that tells its event, and every interruption shows all or nothing of it |
| `JournalStore.Store.Drain` | src/audiagentic/components/planning/events.py:98-126 | publishes in listing order, unlinks only what was published, stops at the first failing subscriber and keeps the rest |
| `JournalStore.CommitIsAtomic` | src/audiagentic/components/planning/durability.py:202-258 | every prefix of the actions of a commit is all-or-nothing |
| `JournalStore.PreparedOutcome` | src/audiagentic/components/planning/durability.py:202-258 | whether a prepared transaction will apply or be refused for ever is settled when it is prepared |
| `Planning.FindItem` | src/audiagentic/components/planning/item_store.py:602-645 | a found path is a valid record with that id and of the kind that the id names |
| `RecordIds.ItemIdShape` | src/audiagentic/components/planning/identity.py:8-43 | item ids are capitals and then digits, not beginning like a review id |
| `Planning.Decide` | src/audiagentic/components/planning/items.py:38-145 | every accepted operation asks for a mutation that never writes and deletes the same path |
| `PlanningRuns.AutoIdIsReviewId` | src/audiagentic/components/planning/item_store.py:517-551 | an automatic item id has the prefix of reviews iff the plan has no items and its slug starts with `rv` |
| `PlanningRuns.MissIsMiss` | src/audiagentic/components/planning/item_store.py:602-645 | in a sound repository a lookup miss means that no record in any bucket has the id |
| `PlanningRuns.CreateItemKeeps` | src/audiagentic/components/planning/items.py:38-145 | an accepted creation keeps the invariant iff it is not that automatic id |
| `PlanningRuns.SetStateKeeps` | src/audiagentic/components/planning/items.py:353-429 | an accepted transition keeps it: right bucket, evidence and no open review when completed |
| `PlanningRuns.UpdateItemKeeps` | src/audiagentic/components/planning/items.py:450-637 | an accepted update keeps it, completed items included |
| `PlanningRuns.DeleteItemKeeps` | src/audiagentic/components/planning/items.py:640-674 | an accepted deletion leaves no review without parent |
| `PlanningRuns.CreateReviewKeeps` | src/audiagentic/components/planning/reviews.py:59-182 | an accepted review has its parent, active, in the same plan |
| `PlanningRuns.SetReviewStateKeeps` | src/audiagentic/components/planning/reviews.py:351-412 | no review is reopened under a completed parent |
| `PlanningRuns.UpdateReviewKeeps` | src/audiagentic/components/planning/reviews.py:422-513 | an accepted review update keeps the invariant |
| `PlanningRuns.DeleteReviewKeeps` | src/audiagentic/components/planning/reviews.py:516-554 | an accepted review deletion keeps the invariant; its effect is stated below |
| `PlanningRuns.DecisionKeeps` | src/audiagentic/components/planning/items.py:38-145 | every accepted operation keeps unique ids, state-dictated buckets, parents and completion rules, iff it is not the automatic id above |
| `PlanningRuns.ReviewPrefixIsGuessed` | src/audiagentic/components/planning/item_store.py:536-551 | that input exists: the first item of plan `rv-x` gets the id RV01 and breaks the invariant |
| `PlanningRuns.DecisionCommits` | src/audiagentic/components/planning/items.py:38-145 | what any accepted operation asks of the journal never meets a guard |
| `PlanningRuns.LogKeeps` | src/audiagentic/components/planning/items.py:38-145 | replaying any log of decided mutations ends in a sound repository |
| `PlanningRuns.EveryStateIsSound` | src/audiagentic/components/planning/durability.py:170-258 | after any run of operations, crashes, recoveries and drains the recovered files satisfy the planning invariant |
| `PlanningEffects.ItemWorkflow` | src/audiagentic/components/planning/workflows.yaml:6-26 | names, buckets and transitions of item states are those of the workflow table, the same state always allowed |
| `PlanningEffects.ReviewWorkflow` | src/audiagentic/components/planning/workflows.yaml:27-43 | names and buckets of review states are those of the table |
| `PlanningEffects.UpdatedWrites` | src/audiagentic/components/planning/items.py:566-577 | an update leaves each section as it was, or writes the new text, or, for an appended section with text, the old text without its trailing white space, an empty line and the new text; nothing else has that property |
| `PlanningEffects.LinkedAdds` | src/audiagentic/components/planning/item_store.py:784-802 | the parent gains the id behind its old links, unless it links it already |
| `PlanningEffects.UnlinkedRemoves` | src/audiagentic/components/planning/item_store.py:805-826 | the parent keeps its other links, in order and as often as before, and none to the id |
| `PlanningEffects.AcceptsPermitted` | src/audiagentic/components/planning/items.py:353-429 | in a sound repository each of the eight operations is accepted iff it is permitted: free and well-formed ids, listed transitions, evidence and closed reviews on completion, unprotected and named sections, no reviews under a deleted item, an open parent, and the parent as the only item that links a review |
| `PlanningEffects.DecisionHasEffect` | src/audiagentic/components/planning/items.py:450-637 | each accepted operation does to the repository what is stated for it, record by record and field by field, and leaves every other record alone |
| `PlanningEffects.DeleteReviewEffect` | src/audiagentic/components/planning/reviews.py:516-554 | the review is gone, the parent's links are the old ones in order without it, and nothing else changes |
| `PlanningEffects.EffectIsUnique` | src/audiagentic/components/planning/items.py:450-637 | that statement leaves nothing open: a sound repository has only one successor with the effect of an operation |
| `PlanningEffects.DeleteUndoesCreate` | src/audiagentic/components/planning/reviews.py:516-554 | deleting the review just created is permitted and restores the repository iff no item linked the id before |
| `PlanningStore.Repository.Perform` | src/audiagentic/components/planning/items.py:353-429 | reconcile, decide, commit: succeeds iff the operation is permitted, then has exactly its effect on the files and holds an entry that tells its event; a refusal changes nothing; atomic at every interruption |
| `ReviewLinks.FindBounds` | src/audiagentic/components/planning/item_store.py:772-781 | the first Reviews heading and the next heading after it |
| `ReviewLinks.AppendReviewLink` | src/audiagentic/components/planning/item_store.py:784-802 | computes the edit that the lemmas below describe |
| `ReviewLinks.AppendAdds` | src/audiagentic/components/planning/item_store.py:784-802 | the review ids of the body after an append are the old ones and the new one |
| `ReviewLinks.AppendTwice` | src/audiagentic/components/planning/item_store.py:784-802 | appending an id again changes nothing and says so |
| `ReviewLinks.AppendKeepsTheRest` | src/audiagentic/components/planning/item_store.py:784-802 | every visible line stays, and the bullet comes after the section's last one |
| `ReviewLinks.RemoveReviewLink` | src/audiagentic/components/planning/item_store.py:805-826 | computes the edit that the lemmas below describe |
| `ReviewLinks.RemoveTakesOut` | src/audiagentic/components/planning/item_store.py:805-826 | for every body, removing an id takes out exactly that id iff it does not empty the section in front of another Reviews section with links |
| `ReviewLinks.OneHeadingUncoversNothing` | src/audiagentic/components/planning/item_store.py:805-826 | with at most one Reviews heading that never happens |
| `ReviewLinks.SecondSectionUncovered` | src/audiagentic/components/planning/item_store.py:805-826 | a body with two Reviews sections where it does happen |
| `ReviewLinks.RemoveKeepsTheRest` | src/audiagentic/components/planning/item_store.py:805-826 | every visible line outside the section stays, and inside it all but the links to the id; the heading goes only with an emptied section |
| `ReviewIndex.AppendIsIndexed` | src/audiagentic/components/planning/integrity.py:89-102 | after an append of an id that the body does not name, the index reads the id iff both heading rules lead to the same section |
| `ReviewIndex.InsertedCovered` | src/audiagentic/components/planning/integrity.py:89-95 | a line put into a body is read by the index iff the index's section reached that place before |
| `ReviewIndex.TrimmedIndexed` | src/audiagentic/components/planning/item_store.py:800-802 | trimming the rendered body does not change what the index reads |
| `ReviewIndex.LinkNames` | src/audiagentic/components/planning/integrity.py:17 | every line that links a review to the edits names it to the index |
| `ReviewIndex.TwoSpacesHide` | src/audiagentic/components/planning/integrity.py:91 | a body with the heading `##  Reviews` loses the backlink of its next review |
| `ChangeLog.ParseChangeLog` | src/audiagentic/components/planning/item_store.py:829-850 | the entries of all lines from the first heading on, in order |
| `ChangeLog.EntrySaid` | src/audiagentic/components/planning/item_store.py:756-757 | the text of an entry parses to exactly that entry iff the entry is readable |
| `ChangeLog.AppendThenParse` | src/audiagentic/components/planning/item_store.py:741-765 | for every body and entry, the log after an append is the old log and what the entry's text says |
| `ChangeLog.ParsedIsReadable` | src/audiagentic/components/planning/item_store.py:136 | whatever parses from a line is readable |
| `ChangeLog.AppendReadsBack` | src/audiagentic/components/planning/item_store.py:741-765 | for every body and entry, the log after an append is the old log and exactly the new entry iff the entry is readable |
| `ChangeLog.AppendKeepsTheRest` | src/audiagentic/components/planning/item_store.py:741-765 | for every body and entry, the body, or what is in front of its trailing white space when there is no log yet, is a beginning of the result; its visible lines stay in order, then comes the heading if there was none, then the entry's lines |
| `LedgerEvents.SortOfListings` | src/audiagentic/components/ledger/current_events.py:229-254 | any two listings of the same event files are loaded in the same order |
| `LedgerEvents.SortedListingUnique` | src/audiagentic/components/ledger/current_events.py:231 | a directory has only one listing in (timestamp, id) order |
| `LedgerEvents.SortedByTime` | src/audiagentic/components/ledger/current_events.py:231 | sorted events go by timestamp, then by id, in dictionary order |
| `LedgerEvents.SameIdentity` | src/audiagentic/components/ledger/current_events.py:46-48 | events of one identity differ at most in status, release and commits |
| `Ledger.Merge` | src/audiagentic/components/ledger/current_events.py:229-242 | the first row of each id, in the order in which the ids first occur; an error iff some id has two contents |
| `Ledger.ReleasedEvents` | src/audiagentic/components/ledger/current_events.py:257-270 | the history by id; an error iff some id has two contents or two releases |
| `Ledger.MergeHistorical` | src/audiagentic/components/ledger/archive.py:25-62 | absorbs the rows in order into one row per id |
| `Ledger.AbsorbedRows` | src/audiagentic/components/ledger/archive.py:25-62 | merging released rows fails iff two rows of one id differ in content or release, and otherwise keeps the last row of each id in the place of the first |
| `Ledger.AbsorbHistory` | src/audiagentic/components/ledger/archive.py:25-62 | deduplicating a consistent history keeps every event under its release and invents none |
| `Ledger.AbsorbFresh` | src/audiagentic/components/ledger/archive.py:25-62 | rows with new ids are appended in order |
| `LedgerRuns.RecordedIsPendingOrReleased` | src/audiagentic/components/ledger/current_events.py:273-295 | every recorded event is pending or released, never both, with its recorded content |
| `LedgerRuns.PendingIsRecorded` | src/audiagentic/components/ledger/current_events.py:273-295 | pending holds each id once, only recorded events and no released one |
| `LedgerRuns.ArchivedHistory` | src/audiagentic/components/ledger/archive.py:82-121 | the history after a release is the old one deduplicated, then the pending events in order, each id once |
| `LedgerRuns.ArchiveFiles` | src/audiagentic/components/ledger/archive.py:82-121 | behind the deduplicated history stand the pending events in order, each with its own id, time, content and commits, as released under the release id |
| `LedgerRuns.StepKeeps` | src/audiagentic/components/ledger/archive.py:82-121 | every atomic change keeps the ledger consistent and forgets nothing recorded or released |
| `LedgerRuns.RunKeeps` | src/audiagentic/components/ledger/recorder.py:54-77 | conservation over every run of recordings, migrations and releases, stopped anywhere |
| `LedgerRuns.RecordedForever` | src/audiagentic/components/ledger/recorder.py:66-77 | once recorded, an event is at every later time pending or released exactly once with unchanged content |
| `LedgerRuns.ReleasedForever` | src/audiagentic/components/ledger/archive.py:82-121 | once released, an id keeps its release for ever and is never pending again |
| `LedgerStore.Store.WriteEvent` | src/audiagentic/components/ledger/current_events.py:64-81 | write-once: a new id is stored, an equal identity accepted, another one refused |
| `LedgerStore.Store.Record` | src/audiagentic/components/ledger/recorder.py:54-77 | succeeds iff the event is valid and clashes with no release and no file; states when the ledger stays loadable |
| `LedgerStore.Store.MigrateOne` | src/audiagentic/components/ledger/legacy_runtime.py:49-73 | a retained file is removed iff it holds a valid event that clashes with nothing released or recorded, and then its event is held elsewhere |
| `LedgerStore.Store.MigrateLegacy` | src/audiagentic/components/ledger/legacy_runtime.py:39-77 | for any retained files: removes exactly those that hold a valid event clashing with nothing released or recorded, so that every file left had to be left; fails iff the history is inconsistent |
| `LedgerStore.Store.ListEvents` | src/audiagentic/components/ledger/current_events.py:208-222 | every event file once, in no promised order |
| `LedgerStore.Store.PendingEvents` | src/audiagentic/components/ledger/current_events.py:273-295 | recorded minus released in load order, for any directory order; fails iff two sources, two history rows or a source and the history contradict each other |
| `LedgerStore.InvIsLoadable` | src/audiagentic/components/ledger/current_events.py:273-295 | every ledger that a run can reach can be loaded |
| `LedgerStore.Store.ArchiveLocked` | src/audiagentic/components/ledger/archive.py:82-121 | succeeds iff the release id was used or only strict events are pending; a used id or nothing pending changes nothing; otherwise one write leaves the deduplicated history and behind it every pending event, with its own content and commits, as released under the release id, so that the same id is then a retry, and nothing pending |
| `LedgerStore.Store.Archive` | src/audiagentic/components/ledger/archive.py:65-79 | refuses bad release ids and ledgers that cannot be loaded; when the retained events agree with the baseline it succeeds iff the id is safe, nothing is left in place and, unless the release was made before, only strict events are pending, and then has filed every pending event under the release id and leaves nothing pending |
| `LedgerStore.Store.CommitArchive` | src/audiagentic/components/ledger/archive.py:110-115 | summary reset, then the history write as the one commit point |
| `LedgerStore.ArchiveEmptiesPending` | src/audiagentic/components/ledger/archive.py:82-121 | nothing is pending after a release |
| `LedgerStore.ArchiveAppends` | src/audiagentic/components/ledger/archive.py:110 | merging the released events into the history is plain appending |
| `LedgerStore.RecordedBesideBaseline` | src/audiagentic/components/ledger/recorder.py:66-77 | after recording, the sources can be merged iff the baseline agrees with the event |
| `Conversion.FindAppended` | src/audiagentic/components/ledger/conversion.py:83-97 | accepts iff the base rows are a subsequence of the branch's; appended is then the multiset difference, in order with line numbers |
| `Conversion.NonBlankKeeps` | src/audiagentic/components/ledger/conversion.py:68-69 | the rows of a text are its lines that are not blank, in order and as often as they stand there |
| `Conversion.JudgeRefuses` | src/audiagentic/components/ledger/conversion.py:106-131 | a row is rejected iff it is no JSON object with an id, no valid current event, or contradicts the last base or history row, the planned event or the event file of its id; otherwise it is a copy iff its id is in the base or planned |
| `Conversion.ProvesTrace` | src/audiagentic/components/ledger/conversion.py:99-133 | proving follows these rules row by row, each row against what was planned before it, and ends where only they lead |
| `Conversion.RejectedGrows` | src/audiagentic/components/ledger/conversion.py:99-133 | nothing is rejected iff no row is refused when its turn comes |
| `Conversion.PlanIsOk` | src/audiagentic/components/ledger/conversion.py:99-133 | planned events are valid, distinct and clash with no file and no release |
| `Conversion.AcceptedRowsKept` | src/audiagentic/components/ledger/conversion.py:99-133 | when nothing is rejected, every appended row is held by the base or the plan under its identity |
| `Conversion.WritesKeepMeaning` | src/audiagentic/components/ledger/conversion.py:135-140 | after any number of event-file writes the loaded identities are those before, rows without event-ids included |
| `Conversion.RestoreKeepsOwn` | src/audiagentic/components/ledger/conversion.py:141-146 | restoring the baseline keeps every loaded identity with an id of its own |
| `Conversion.LegacyRowsSplit` | src/audiagentic/components/ledger/current_events.py:101-126 | the baseline's events are its rows with ids, wherever they stand, and the synthetic ones of the rows without |
| `Conversion.RestoreKeepsMeaning` | src/audiagentic/components/ledger/conversion.py:141-146 | restoring the baseline changes no loaded identity iff every row without an event-id keeps its line number |
| `Conversion.AppendedInFront` | src/audiagentic/components/ledger/current_events.py:101-126 | with a row appended in front of a row without an id, the texts meet every hypothesis and load differently |
| `Conversion.RerunProves` | src/audiagentic/components/ledger/conversion.py:99-133 | proving again over files that hold part of the plan gives the same proof |
| `Conversion.RerunWrites` | src/audiagentic/components/ledger/conversion.py:135-140 | writing the plan again after a crash ends with the same files |
| `ConversionStore.Branch.ProveRows` | src/audiagentic/components/ledger/conversion.py:99-133 | judges the appended rows one after the other: exactly the refused ones are rejected, the others are copies of a known id or planned |
| `ConversionStore.Branch.WritePlan` | src/audiagentic/components/ledger/conversion.py:135-140 | writes one file per planned event and passes exactly the states of the trail |
| `ConversionStore.Branch.Apply` | src/audiagentic/components/ledger/conversion.py:135-146 | the plan on disk, the baseline restored, and exactly the states of the trail on the way |
| `ConversionStore.Branch.Convert` | src/audiagentic/components/ledger/conversion.py:81-146 | is refused iff the base is no subsequence, a base row is no object or the history is inconsistent; restores the branch iff no appended row is refused when its turn comes, and otherwise writes nothing; then plan on disk and baseline restored, meaning kept after every write, and after the restore iff rows without event-ids keep their lines; converting a restored branch changes nothing |
| `ConversionStore.StatesKeepMeaning` | src/audiagentic/components/ledger/conversion.py:135-146 | after every single event file the loader sees what the branch loaded |
| `ConversionStore.RestoredMeaning` | src/audiagentic/components/ledger/conversion.py:141-146 | after the restore it does iff every row without an event-id keeps its line number |
| `ConversionStore.RowMovesUp` | src/audiagentic/components/ledger/conversion.py:141-146 | such a branch changes what is loaded when it is converted |
| `ConversionStore.RerunConverges` | src/audiagentic/components/ledger/conversion.py:99-146 | a rerun after a crash among the writes proves the same plan and ends with the same files |
| `ConversionStore.RerunAfterRestore` | src/audiagentic/components/ledger/conversion.py:83-146 | a rerun after the restore finds nothing appended, plans nothing and changes nothing |
| `GitRef.ReadBlobs` | src/audiagentic/components/ledger/current_events.py:196-205 | the position walk equals the recursive walk over the reply |
| `GitRef.WalkRecovers` | src/audiagentic/components/ledger/current_events.py:196-205 | the walk gives back every blob exactly, whatever bytes and line feeds it holds |
| `GitRef.ReadAtRef` | src/audiagentic/components/ledger/current_events.py:182-205 | the wanted names with the contents that the walk finds in git's answer; for one record per file, exactly the regular JSON files of the ref, sorted by name |
| `GitRef.ReadWorkingTree` | src/audiagentic/components/ledger/current_events.py:208-222 | the JSON entries with their contents, sorted by name; refused iff one is no regular file |
| `GitRef.RefIsWorkingTree` | src/audiagentic/components/ledger/current_events.py:128-222 | for one directory content, in any listing orders, the working tree accepts it iff every JSON entry is a regular file, and then reads the very names, in order, that the ref gives |
| `Clustering.Find` | src/audiagentic/components/ledger/ledger_api.py:133-137 | terminates at the representative, and path compression keeps the partition |
| `Clustering.Union` | src/audiagentic/components/ledger/ledger_api.py:139-142 | merges exactly the two classes |
| `Clustering.LinkKey` | src/audiagentic/components/ledger/ledger_api.py:144-150 | one key links its event to the first owner of the key and keeps every representative sound |
| `Clustering.LinkAll` | src/audiagentic/components/ledger/ledger_api.py:144-150 | two events get the same representative iff a chain of shared keys joins them |
| `Clustering.RootsAreClusters` | src/audiagentic/components/ledger/ledger_api.py:125-155 | linking each event to the first owner of each of its keys gives exactly the connected components |
| `Clustering.Cluster` | src/audiagentic/components/ledger/ledger_api.py:125-155 | every index is in one group, and two share a group iff they are transitively joined |
| `Clustering.EmptyKeysStayAlone` | src/audiagentic/components/ledger/ledger_api.py:125-155 | an event without keys is a group of its own |
| `NdjsonTail.CarryFirstLine` | src/audiagentic/foundation/io.py:225-236 | carrying only a chunk's first line over to the next chunk loses nothing |
| `NdjsonTail.TakeRows` | src/audiagentic/foundation/io.py:236-248 | takes one chunk's rows newest first and stops at the limit |
| `NdjsonTail.Tail` | src/audiagentic/foundation/io.py:207-249 | for every content, limit and positive chunk size, exactly the last `limit` mapping rows in file order |
| `NdjsonTail.TailAgreesWithForward` | src/audiagentic/foundation/io.py:181-198 | on a file that the forward reader accepts, both readers agree for every limit iff no line of the tail is crowded |
| `NdjsonTail.LoneCRDiffers` | src/audiagentic/foundation/io.py:181-198 | a concrete file, with a lone carriage return, that is crowded and read differently |
| `NdjsonTail.ContentShown` | src/audiagentic/foundation/io.py:191-198 | the forward reader looks at exactly the text lines inside the lines of the tail |
| `NdjsonTail.LinesAgree` | src/audiagentic/foundation/io.py:218-249 | the tail sees no more rows than the forward reader, and strictly fewer iff a line is crowded |
| `Extraction.FoldIsLongest` | tools/extract_mcp.py:93-99 | folding a name finds its longest indexed prefix |
| `Extraction.ImportsAre` | tools/extract_mcp.py:93-99 | a module imports the longest module that begins each name it mentions |
| `Extraction.ComponentPrefix` | tools/extract_mcp.py:150-159 | a configured name makes a descriptor take part iff, as text, it begins with the first three parts of a selected component module and a dot |
| `Extraction.Closure` | tools/extract_mcp.py:103-119 | the worklist ends with the least set that holds the entry and is closed under imports and ancestor packages; it fails iff the entry is no module or a module in every such set has a missing internal import |
| `Extraction.ClosureUnique` | tools/extract_mcp.py:103-119 | there is only one such set |
| `Extraction.AddDescriptor` | tools/extract_mcp.py:159-168 | adds the modules of one descriptor and no others; fails iff one of them has a missing internal import |
| `Extraction.Pass` | tools/extract_mcp.py:148-168 | a pass that adds nothing has reached a descriptor-closed set; it fails only if the seeds need a module with a missing import |
| `Extraction.Saturate` | tools/extract_mcp.py:146-170 | the loop ends with the least set closed under imports, ancestors and active descriptors; it fails iff the seeds need a module with a missing import |
| `Extraction.Extract` | tools/extract_mcp.py:122-170 | the same from the entry point and all configured references; it fails iff the entry is no module, a reference is unresolvable or a needed module has a missing import |
| `Framing.DecodeEncoded` | src/audiagentic/components/coding_lsp/lsp_bridge.py:267-277 | decoding an encoded message gives its payload and leaves what follows |
| `Framing.OtherFieldSkipped` | src/audiagentic/components/coding_lsp/lsp_bridge.py:373-378 | other header fields in front, such as a content type, do not change what is read |
| `Framing.FirstFieldDecides` | src/audiagentic/components/coding_lsp/lsp_bridge.py:373-381 | the first content-length field decides, malformed or not; without one there is no length |
| `Framing.LengthFieldAnyCase` | src/audiagentic/components/coding_lsp/lsp_bridge.py:377 | the field name counts in upper and lower case alike |
| `Framing.SignedNumber` | src/audiagentic/components/coding_lsp/lsp_bridge.py:378 | a length is its digits with an optional sign |
| `Framing.ReadHeader` | src/audiagentic/components/coding_lsp/lsp_bridge.py:333-347 | reads the header block and nothing of the body |
| `Framing.ReadExact` | src/audiagentic/components/coding_lsp/lsp_bridge.py:364-371 | reads exactly the wanted bytes however the stream splits them, or reports the end |
| `Framing.ReadMessage` | src/audiagentic/components/coding_lsp/lsp_bridge.py:312-331 | for any split into reads, decodes exactly one message, malformed headers included |
| `Framing.ReadAll` | src/audiagentic/components/coding_lsp/lsp_bridge.py:281-347 | for any messages and any split into reads, receives exactly what was sent |
| `Settings.SplitKey` | src/audiagentic/commands/settings.py:176-192 | the character machine computes the parts; refuses a dangling escape or an empty part |
| `Settings.SplitEscaped` | src/audiagentic/commands/settings.py:176-192 | splitting an escaped key returns its parts, for every non-empty list of non-empty parts |
| `Settings.AcceptedKeys` | src/audiagentic/commands/settings.py:176-192 | a key splits into parts iff it writes them, with dots between them and dots and backslashes behind a backslash, and none is empty; every other key is refused |
| `Settings.InsertRefuses` | src/audiagentic/commands/settings.py:213-223 | an insertion is refused iff the path is taken or a value sits on the way |
| `Settings.InsertAt` | src/audiagentic/commands/settings.py:213-223 | after an insertion every path finds the value, an object on the way, or what was there |
| `Settings.InsertFits` | src/audiagentic/commands/settings.py:213-223 | one more change fits iff its path is apart from all earlier ones |
| `Settings.InsertHolds` | src/audiagentic/commands/settings.py:213-223 | the patch then holds exactly the changes so far and the new one |
| `Settings.BuildPatch` | src/audiagentic/commands/settings.py:209-229 | succeeds iff there is a change and no path equals or is a prefix of another, in any order; then holds exactly the values |
| `Settings.BuildFromKeys` | src/audiagentic/commands/settings.py:209-229 | the same from keys as given on the command line |
| `Text.SplitAtFeed` | src/audiagentic/components/planning/item_store.py:838-840 | text that ends a line splits into lines independently of what follows |
| `Text.SplitRendered` | src/audiagentic/components/planning/item_store.py:800-802 | what reading back joined, trimmed and terminated lines gives |
| `Text.VisibleStripped` | src/audiagentic/components/planning/item_store.py:765 | trimming the end of a text takes no visible line away |
| `EditorConfig.Locate` | src/audiagentic/components/coding_lsp/lint_projection.py:148-157 | the section's last heading before any other section, and where that section starts |
| `EditorConfig.OneSection` | src/audiagentic/components/coding_lsp/lint_projection.py:148-157 | that place is unique |
| `EditorConfig.Merge` | src/audiagentic/components/coding_lsp/lint_projection.py:138-167 | computes the text that the lemmas below describe |
| `EditorConfig.MergeTwice` | src/audiagentic/components/coding_lsp/lint_projection.py:138-167 | merging the same section again changes nothing, for every file |
| `EditorConfig.MergeKeeps` | src/audiagentic/components/coding_lsp/lint_projection.py:138-167 | every visible line before and after the section stays in order; `root = true` is added iff no line starts with `root` |
| `Uris.DecodeEncoded` | src/audiagentic/components/coding_lsp/uri_utils.py:51-55 | UTF-8 decoding with replacement undoes encoding for every text |
| `Uris.SpellingDecodes` | src/audiagentic/components/coding_lsp/uri_utils.py:51 | every way to spell a text, literally or escaped in either case, decodes to it |
| `Uris.QuoteSpells` | src/audiagentic/components/coding_lsp/uri_utils.py:55 | percent-encoding writes one of those spellings |
| `Uris.CanonicalTwice` | src/audiagentic/components/coding_lsp/uri_utils.py:38-55 | the canonical form of a canonical form is itself |
| `Uris.CanonicalDecides` | src/audiagentic/components/coding_lsp/uri_utils.py:38-55 | two file URIs have one canonical form iff they name the same file |
| `Uris.SpellingsAgree` | src/audiagentic/components/coding_lsp/uri_utils.py:38-55 | however client and server spell a path, drive letter included, the canonical form is the same |
| `Uris.CanonicalForm` | src/audiagentic/components/coding_lsp/uri_utils.py:51-55 | the canonical form quotes the decoded path with its drive letter, if it has one, in upper case |
| `Uris.DriveLettersMeet` | src/audiagentic/components/coding_lsp/uri_utils.py:52-54 | a drive letter in lower and in upper case leads to one form, the upper-case one |
| `Uris.DriveExample` | src/audiagentic/components/coding_lsp/uri_utils.py:52-54 | `file:///c:/x` and `file:///C:/x` both become `file:///C:/x` |
| `Uris.SafeQuotesItself` | src/audiagentic/components/coding_lsp/uri_utils.py:55 | letters, digits and the kept marks are quoted as themselves |
| `Uris.QuotedIsPlain` | src/audiagentic/components/coding_lsp/uri_utils.py:55 | nothing but these and escapes in upper-case digits comes out |
| `Uris.BarePercent` | src/audiagentic/components/coding_lsp/uri_utils.py:51 | a percent sign without two digits behind it stands for itself |

## Left out

- Removal of a transaction directory file by file: one atomic action here; `Journal.PartialRemoval` says what a partial removal does to recovery.
- Locks, threads and timeouts: locked operations are serial steps.
- Path containment and symlink checks, malformed manifest types, and reading errors of single files.
- Corrupt outbox entries; the order in which the outbox is listed is a parameter of `JournalStore.Store.Drain`.
- Frontmatter beyond id, plan, state and review-of, and rendering of sections: a record is its identity, its sections and its links.
- Backlinks in planning operations: an item carries a list of review ids, which `UpdateItem` may replace; only the section edits themselves are modelled on text.
- Planning.Decide: which error code a refusal carries, and in which order the checks are made, follows the source, but the laws say only when an operation is refused.
- Numbering of automatic ids (any number after the right prefix is covered), the collision refusal for a guessed prefix, placement repair in `set_state`, and the cleanup of empty plan directories.
- The repository-wide report of `integrity.py`; in `require_canonical_review_context` an item's links are the list that it carries, and `ReviewIndex.AppendIsIndexed` says when its text yields them.
- JSON, YAML and schema validation: what a line parses to, and whether the change-event schema accepts it, are parameters.
- Commit annotation of released events, audit and summary rendering.
- Conversion.Prove: a rejected row is reported by its number and line; the id and the reason beside them are not modelled.
- Errors in reading an existing event file, and the second read of the baseline that guards against outside writers during a conversion.
- Conversion.RestoreKeepsMeaning: the converse half assumes of the two texts at hand that equal synthetic ids mean the same line and number, and that no row or event file carries one of them; a digest of eight characters does not ensure it.
- Splitting the baseline into lines: texts are given as their lines.
- Segment rotation in `iter_ndjson` and `tail_ndjson`; retries of transient read errors.
- NdjsonTail.TailAgreesWithForward: that JSON takes no line with several values is a hypothesis, because parsing is a parameter; the forward reader's `str.strip` is that of bytes, without white space beyond ASCII.
- GitRef.ReadAtRef: for a name with a line feed git reads the request as two lines; what it then answers, and what is read from it, is left to the walk over an arbitrary answer.
- Parsing of `ls-tree` output and the strict UTF-8 decoding of blobs; git's replies are its documented blob records, and a negative size is an error.
- JSON bodies of LSP messages, and request correlation, retries and shutdown; `int()` accepting underscores in a length.
- Assignments in settings with object values, value parsing, and the aliasing of the moving cursor: `Settings.Insert` rebuilds the path to the changed object.
- Python's regular expression digits beyond ASCII.
- Surrogate code points in URIs, which Python text can hold and `quote` refuses.
- Command-line adapters, MCP servers, templates, list and page queries: they would only add easy members.

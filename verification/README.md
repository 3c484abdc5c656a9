# SyncopateDB, modelled and proved in Dafny

SyncopateDB is a typed in-memory entity store with secondary and unique indexes, a query layer over it, and a
write-ahead log with snapshots under it. This project models those parts and proves what they are for.

- **The engine** (`Engines.dfy`, `Persistence.dfy`, `SchemaUpdates.dfy`) is a class with the source's four maps, updated
  in place. Called one after another, every call, whether or not its log write succeeds, does exactly what a much
  simpler reference store without any index does (`Tables.dfy`), and keeps both index structures equal to a plain scan
  of the entities (`Agreement.Valid`). Only a schema update can leave an index wrong: it is stated exactly when a unique
  index is, and when, after its own log write failed, an id list is. After a failed insert, update or delete every
  lookup answers as before. A wrong unique index touches neither id lists, queries, counts nor snapshots.
- **The id lists under concurrency** (`IdLists.dfy`, `IdListExamples.dfy`): calls of every kind, schema updates that go
  by a definition seen earlier and rollbacks under a second lock included, in any interleaving. Every id list is exact
  in every state of a run if and only if no section under the lock spoils one, and it is stated section by section when
  it does. The examples are runs that spoil one.
- **Concurrency** (`Interleaving.dfy`): insert, update, delete and truncate calls of any number of clients, split where
  the engine releases its lock, are equivalent to performing the committed calls one after another. Their log entries
  are written after the lock is released, so log order and commit order can differ: `LogRaces.dfy` states exactly when a
  crash at any moment of such a run still recovers the store, and `LogRaceExample.dfy` has a run after which it does
  not.
- **The log** (`Journals.dfy`, `Recovery.dfy`, `SnapshotLoading.dfy`, `LogOrder.dfy`, `LogTails.dfy`,
  `CrashRecovery.dfy`): a crash anywhere in a run of calls, one after another, some of whose log writes fail, and
  snapshots is recovered exactly, if and only if no insert of the run reuses a live bare id and no truncate removes
  something while its log write fails; a snapshot wipes out what happened before. `ReplayIdempotence.dfy` and
  `Transactions.dfy` add replaying twice and crash atomicity of transactions, prunes included. `Restart.dfy` composes
  runs, crash and start-up into one method. `RecoveryExample.dfy` gives the inputs on which these results fail.
- **Answers, value by value** (`CallEffects.dfy`, `EqualValues.dfy`, `Operators.dfy`, `JoinResults.dfy`,
  `FuzzyMatches.dfy`): what a call answers and leaves, field by field; which values share a unique key or an id list;
  what every filter operator selects and how a result is sorted; what a join puts into which row; when texts match
  fuzzily. These say in numbers, characters and positions what the engine's own helper functions amount to.
- **Schema changes** (`Schema.dfy`, `Migrations.dfy`, `SchemaUpdates.dfy`), **ids** (`IdGenerators.dfy`, and across
  restarts `Numbering.dfy`, `NumberedCalls.dfy`, `Lifetimes.dfy` and `NumberingExample.dfy`), **queries**
  (`Queries.dfy`, `Counting.dfy`, `Paging.dfy`, `Joins.dfy`, `EditDistance.dfy`) and the **cache** (`LruCaches.dfy`).
  `Examples.dfy` builds engines on which a schema update spoils a unique index, one on which it leaves an entity that no
  longer validates, and one on which a count falls short of its query.

## How the model reads

Field values are a datatype of the Go types a value can have; floats are reals. How times, floats, arrays and objects
print and parse is a parameter (`Formats`, `Texts`) over which every theorem is quantified. The clock, the random
source, the order in which a Go map is walked, and whether a database write succeeds are parameters too. Entities hold
value maps, so nothing is shared with callers; that an insert's log entry shares its fields with the stored entity until
it is written is modelled in `LogRaces.dfy`. A Go `error` is a `Failed` outcome or a `None`.

What the code needs and does not check is stated as a condition: type names without `:`, field names distinct within a
definition, and, where the log is replayed, ids without `:`, no user field whose name starts with `_`, and a clock, in
nanoseconds, that reads more than the number of log entries written so far when a snapshot is taken. Equality of stores
after recovery leaves out `_updated_at`, which replay stamps afresh.

## Where the code differs from its comments and documentation

- `PruneWALBeforeTimestamp` compares the sequence number in a log key with a time in nanoseconds, although its comment
  says the key holds a timestamp (internal/persistence/persistence.go:740-783). A snapshot therefore empties the log,
  and recovery is exact because of that.
- The existence guards of replay look an entity up by its bare id (internal/persistence/persistence.go:828, 844, 856),
  so an insert under one type is dropped when another type has an entity with that id. A truncate whose log write fails
  reports the failure but is not taken back (internal/datastore/datastore_truncate.go:46-61, 128-142), so it comes
  undone after a crash. `CrashRecovery.RecoveryIsExact` has the exact condition, `RecoveryExample.TwoTypesOneId` and
  `RecoveryExample.TruncateComesUndone` the inputs.
- The prune after a snapshot does not look whether a transaction is being committed. One that is loses the entries
  written so far, and the rest is handed over as if it were the whole. `Transactions.AtomicIff` has the exact condition.
- A call releases the lock before it writes its log entry, and nothing keeps the entries in the order of the commits
  (internal/datastore/datastore_engine.go:342-349, 466-475, 596-604). A delete whose entry overtakes that of the insert
  comes undone after a crash. `LogRaces.CrashRecoversIff` has the exact condition, `LogRaces.TurnsRecover` what clients
  can do about it, and `LogRaceExample.DeletedComesBack` the input.
- A schema update rebuilds and drops id lists by the definition it saw before it took the lock
  (internal/datastore/datastore_schema.go:12-14, 58-70, 288-328). If another update has dropped a list since, the field
  can end up indexed without a list. `IdLists.MigratesIff` has the exact condition and `IdListExamples.TwoClients` the
  input.
- A schema update whose log write fails puts the old definition back and nothing else
  (internal/datastore/datastore_schema.go:106-114), so a field whose list it dropped is indexed again without one.
  `IdLists.MigrationUndoneAtOnceIff` and `SchemaUpdates.UpdateEntityType` have the exact condition and
  `IdListExamples.FailedUpdate` the input.
- An insert, delete or registration whose log write fails is taken back under a second lock, whatever other clients have
  stored in between (internal/datastore/datastore_engine.go:197-204, 349-361, 604-615). `IdLists.SectionKeepsListsIff`
  has the exact conditions, `IdLists.UndoneAtOnce` says that nothing is spoiled when nobody came in between, and
  `IdListExamples.FailedInsert`, `IdListExamples.FailedDelete` and `IdListExamples.FailedRegistration` are the inputs.
- A unique field is documented as automatically indexed, but the flag is set on a loop copy
  (internal/datastore/datastore_engine.go:180): its definition does not say so, and no list is kept.
- `ValidateEntityTypeFields` is only called with `skipInternal` set, and then refuses nothing.
- The retry loop of `GenerateID` is meant to keep deleted ids from coming back, but creating the counter empties the set
  of deleted ids (internal/datastore/datastore_id.go:43-46). `IdGenerators.ReusesDeletedIff` has the exact condition.
- That protection does not survive a restart: every insert and delete made while a snapshot and a log are loaded saves
  the counter, still zero, and the deleted ids, so far only those deleted again
  (internal/datastore/datastore_engine.go:363-374, 550-575). `Lifetimes.NeverAfterCrashIff` has the exact condition and
  `NumberingExample.DeletedNumberComesBack` the input.
- `createMigrationPlan` lets a required field be added although no stored entity has it; `Schema.StaysValidIff` says
  which migrated entities validate and `Examples.RequireMissingField` has the input.
- The duplicate check of a schema update runs before values are converted, and the entities then migrate one by one
  under the old unique indexes, so keys that meet, even in passing, spoil an index. `Migrations.EveryWalkOwnsIff` has
  the exact condition and `Examples.MergeUniqueKeys` the input.
- `ExecuteQueryWithJoins` runs the joins on rows they have already been run on. The second run is harmless if no row
  that stays had a compared field written, and stops the program otherwise (`Joins.JoiningTwiceIff`). A join that
  compares a field an earlier join has written into some row stops the first run already
  (`Joins.ComparingAResultStops`).
- Pages of a query whose sort keys are not all different can show a match twice and lose another
  (`Paging.PagesExactIff`), because each page sorts a fresh walk of the map.
- An equality filter on an indexed field compares printed values in a query. A count does so only when it is the only
  filter; with more it compares values. `Counting.CountIsQueryLengthIff` says when the two agree and
  `Examples.CountFallsShort` shows them disagree.

## Model

| member | source | states |
|---|---|---|
| Keys.ParseCreated | internal/datastore/datastore_engine.go:35-46 | parsing a composite key gives back the type and id it was made from, for every id, if the type has no colon |
| Keys.KeyInjective | internal/datastore/datastore_engine.go:35-37 | two entities share a composite key only if they share type and id |
| Keys.KeysMeetIff | internal/datastore/datastore_engine.go:35-37 | entities of two different types can share a composite key if and only if one type name, with the separator, begins the other |
| Agreement.AttachKeepsValid | internal/datastore/datastore_engine.go:717-752 | storing an entity under a fresh key with free unique keys keeps every id list and every owner equal to a scan |
| Agreement.DetachKeepsValid | internal/datastore/datastore_engine.go:717-752 | taking an entity out keeps both index structures equal to a scan of what is left |
| Store.IndexFieldsAt | internal/datastore/datastore_engine.go:717-752 | indexing one entity appends its id to, or cuts it from, exactly the lists of its non-null indexed values and touches no other list |
| Store.UniqueFieldsAt | internal/datastore/datastore_engine.go:1009-1045 | registering one entity changes the owner of exactly its own unique keys |
| Agreement.UniqueFreeIsScan | internal/datastore/datastore_engine.go:940-983 | the lookup in the unique index refuses exactly when a scan finds another entity with one of the keys |
| Agreement.UniqueKeysDiffer | internal/datastore/datastore_engine.go:1009-1045 | no two stored entities of a type have the same key of a unique field |
| Agreement.IndexesDetermined | internal/datastore/datastore_engine.go:717-752 | definitions and entities determine every owner and, as a multiset, every id list |
| EqualValues.UniqueKeysEqualIff | internal/datastore/datastore_engine.go:986-1006 | two non-null values have the same unique key if and only if they are equal: texts and truth values by value, whole numbers of any type and sign by number, anything else by how it is printed |
| EqualValues.EqualInField | internal/datastore/validation.go:70-150 | in a text or boolean field that means the same value, in an integer field the same number unless one is held as a float |
| EqualValues.ClashesIff | internal/datastore/datastore_engine.go:940-983 | the uniqueness check refuses data exactly when another stored entity of the type holds an equal value in a unique field |
| EqualValues.ListedTogetherIff | internal/datastore/datastore_engine.go:717-772 | two stored entities are in one id list of an indexed field if and only if both have equal values in it |
| Commits.ReplaceKeepsValid | internal/datastore/datastore_engine.go:458-468 | swapping a stored entity for a changed one keeps both index structures exact |
| Commits.ReplaceKeepsLists | internal/datastore/datastore_schema.go:255-281 | the swap keeps every id list exact even when the new entity takes a unique key of another |
| Commits.TruncateKeepsValid | internal/datastore/datastore_truncate.go:23-44 | dropping all entities of a type, in any order, keeps the indexes exact and leaves the other types as they were |
| Commits.ClearedIsValid | internal/datastore/datastore_truncate.go:87-126 | resetting every index structure when all entities go leaves them exact, whatever was in them before |
| IdLists.ListsStayExactIff | internal/datastore/datastore_engine.go:128-618 | however the locked sections of any clients interleave, the second ones of failed calls and schema updates by an outdated definition included, every id list holds exactly the ids a scan finds in every state of the run if and only if no section spoils one |
| IdLists.SectionKeepsListsIff | internal/datastore/datastore_engine.go:349-361 | from exact lists, what one section leaves is exact if and only if it does not spoil a list: an insert or delete undone over an entity stored since with an indexed value it does not know, a rollback for a type that is gone, a registration undone after entities were stored, or a schema update of a stale field; nothing else does |
| IdLists.MigratesIff | internal/datastore/datastore_schema.go:58-70 | a schema update by a definition seen earlier leaves the lists exact if and only if every field indexed in both that definition and the new one, and not in the current one, still has the lists a scan of the migrated entities finds; always if the definition seen is the current one |
| IdLists.MigrateUndoneIff | internal/datastore/datastore_schema.go:106-114 | putting a definition back leaves the lists exact if and only if the type is there and no field it has as indexed has lost the flag and its lists meanwhile |
| IdLists.DeletedListIff | internal/datastore/datastore_schema.go:319-325 | a field whose lists another update has deleted is stale exactly if some entity has a value to list |
| IdLists.MigrationUndoneAtOnceIff | internal/datastore/datastore_schema.go:106-114 | a schema update undone at once leaves the lists exact if and only if no entity has a value of a field that lost its index |
| IdLists.UndoneAtOnce | internal/datastore/datastore_engine.go:475-490 | undoing an insert, update, delete or registration spoils no list if no other client had the lock in between |
| IdListExamples.TwoClients | internal/datastore/datastore_schema.go:288-328 | a run in which two clients saw a field indexed, one commits it without and the other with an index, and a list is wrong |
| IdListExamples.FailedUpdate | internal/datastore/datastore_schema.go:106-114 | a run in which the log write of an update that takes an index away fails, and a list is wrong |
| IdListExamples.FailedDelete | internal/datastore/datastore_engine.go:604-615 | a run in which an entity is stored under the id while the log write of its delete fails, and a list is wrong |
| IdListExamples.FailedInsert | internal/datastore/datastore_engine.go:349-361 | a run in which the entity is deleted and another stored while the log write of its insert fails, and a list is wrong |
| IdListExamples.FailedRegistration | internal/datastore/datastore_engine.go:190-206 | a run in which an entity is stored while the log write of its type's registration fails, and it loses its type |
| Engines.Engine.UpdateIndices | internal/datastore/datastore_engine.go:717-752 | the loop over the fields yields the index of the specification and leaves other types alone |
| Engines.Engine.UpdateUniqueIndices | internal/datastore/datastore_engine.go:1009-1045 | the same for the unique index |
| Engines.Engine.CutId | internal/datastore/datastore_engine.go:732-739 | cuts exactly the first occurrence of an id out of a list |
| Engines.Engine.ValidateUniqueness | internal/datastore/datastore_engine.go:940-983 | accepts exactly when every non-null unique key is free or owned by the entity itself |
| Engines.Engine.CheckNames | internal/datastore/validation.go:21-36 | accepts exactly the data that uses no reserved name except those the definition marks internal |
| Engines.Engine.ValidateEntityData | internal/datastore/validation.go:15-67 | which of validation failure, uniqueness violation or success an insert's data gets, as a scan decides it |
| Engines.Engine.ValidateUpdateData | internal/datastore/validation.go:152-213 | the same for an update's changed fields |
| Engines.Engine.ValidateEntityTypeFields | internal/datastore/validation.go:216-232 | refuses a reserved field name only when asked not to skip the check |
| Engines.Engine.Complete | internal/datastore/datastore_engine.go:797-835 | adds exactly the missing internal fields, in order, and the default generator |
| Engines.Engine.RegisterEntityType | internal/datastore/datastore_engine.go:128-210 | keeps the indexes exact, and the id lists even if a unique index is wrong; store, log and outcome are those of the reference store, whether or not the log write succeeds |
| Engines.NewTypeKeepsValid | internal/datastore/datastore_engine.go:155-188 | empty index structures are exact for a type that has no entities yet |
| Engines.Engine.Insert | internal/datastore/datastore_engine.go:266-361 | keeps the indexes exact; store, log and outcome, error cases and rollback included, are those of the reference store; after any failure every lookup answers as before; a missing generated id changes nothing; the id lists stay exact even if a unique index is wrong |
| Engines.Engine.PrepareInsert | internal/datastore/datastore_engine.go:240-263 | the checks before the lock find exactly the error a scan-based insert would report, in the same order |
| Engines.Engine.CommitInsert | internal/datastore/datastore_engine.go:314-361 | looks again for the type, the id and each unique key and refuses without any change, telling a generated id that exists from a chosen one, else stores, indexes, logs once, and on a failed log write takes the entity out again |
| Engines.InsertAndUndo | internal/datastore/datastore_engine.go:349-361 | taking back an insert restores definitions and entities and leaves the indexes exact |
| Engines.Engine.Update | internal/datastore/datastore_engine.go:381-493 | keeps the indexes exact; store, log and outcome are those of the reference store, also when the log write fails; after any failure every lookup answers as before |
| Engines.Engine.PrepareUpdate | internal/datastore/datastore_engine.go:381-456 | the checks of an update, with uniqueness of the changes and of the merged fields, find exactly the error of the reference store |
| Engines.Engine.CommitUpdate | internal/datastore/datastore_engine.go:434-490 | reads the entity again and refuses without any change if it is gone or the merged fields take another's key, else swaps, logs once, and on a failed log write puts the original back |
| Engines.UpdateAndUndo | internal/datastore/datastore_engine.go:475-490 | taking back an update restores definitions and entities and leaves the indexes exact |
| Engines.Engine.Delete | internal/datastore/datastore_engine.go:496-618 | keeps the indexes exact; store, log and outcome are those of the reference store, also when the log write fails; after any failure every lookup answers as before |
| Engines.Engine.CommitDelete | internal/datastore/datastore_engine.go:577-615 | refuses without any change if the entity is no longer there, else drops it, logs once, and on a failed log write puts it back |
| Engines.DeleteAndUndo | internal/datastore/datastore_engine.go:604-615 | taking back a delete restores definitions and entities and leaves the indexes exact |
| Engines.FallbackNeverMatches | internal/datastore/datastore_engine.go:388-406 | while all keys are composite, the legacy lookup by walking the map finds nothing the direct lookup missed |
| Engines.Engine.TruncateEntityType | internal/datastore/datastore_truncate.go:6-64 | keeps the indexes exact, and the id lists even if a unique index is wrong; removes exactly the type's entities and logs once unless there were none; a failed log write is reported and not taken back |
| Engines.Engine.TruncateDatabase | internal/datastore/datastore_truncate.go:67-145 | removes every entity, keeps every definition and the indexes exact, and mends a unique index that was wrong |
| Engines.Engine.ResetIndices | internal/datastore/datastore_truncate.go:90-107 | every index becomes an empty one per indexed field of its type |
| Engines.Engine.ResetUniqueIndices | internal/datastore/datastore_truncate.go:109-126 | every unique index becomes an empty one per unique field |
| Engines.Engine.Get | internal/datastore/datastore_engine.go:621-643 | finds an entity exactly when some key is the id or ends in it, and answers one of those |
| Engines.WalFile.WriteEntry | internal/persistence/wal.go:150-187 | the next number is used up in any case; the entry is added under it exactly when the write succeeds |
| Engines.WalFile.Prune | internal/persistence/persistence.go:740-783 | removes exactly the entries whose sequence number is not above the given timestamp |
| Tables.InsertKeepsSound | internal/datastore/validation.go:15-67 | after an insert every stored entity still validates and no two share a unique key |
| Tables.UpdateKeepsSound | internal/datastore/validation.go:152-213 | so after an update: an accepted change cannot drop a required field or take another's key |
| Validation.UpdateKeepsDataOk | internal/datastore/validation.go:152-213 | overlaying accepted changes on valid data gives valid data |
| Validation.TypesOfAccept | internal/datastore/validation.go:70-150 | a field type accepts a value exactly if it is among the types listed for that kind of value |
| CallEffects.FitsIff | internal/datastore/validation.go:15-67 | data validates if and only if reserved names are only used where marked internal, every value is of its field's type or an allowed null, and no required field is missing; an update, if every name is declared |
| CallEffects.InsertOutcome | internal/datastore/datastore_engine.go:266-346 | which error an insert answers, in order: no such type, malformed id, data that does not fit, an equal value in a unique field of another entity of the type, the same type and id stored already |
| CallEffects.InsertStores | internal/datastore/datastore_engine.go:266-346 | a successful insert adds exactly one entity, with the given fields, the time of change, and the time of creation unless given; a failed one changes nothing |
| CallEffects.UpdateOutcome | internal/datastore/datastore_engine.go:381-456 | which error an update answers, unique values being checked of the entity as it would be afterwards |
| CallEffects.UpdateStores | internal/datastore/datastore_engine.go:458-468 | a successful update replaces exactly the one entity: the given fields and the time of change are new, the time of creation and all other fields are kept |
| CallEffects.DeleteEffect | internal/datastore/datastore_engine.go:496-601 | a delete takes out exactly the entity with the type and id, or answers that there is none |
| CallEffects.TruncateEffect | internal/datastore/datastore_truncate.go:6-145 | truncating takes out exactly the entities of the type, or all of them |
| CallEffects.RegisterEffect | internal/datastore/datastore_engine.go:128-188 | a registration adds exactly this definition: the given fields in order, the two times unless given, and the counting id generator unless another is given |
| CallEffects.UpdateTypeOutcome | internal/datastore/datastore_schema.go:9-56 | which error a schema update answers: no such type, equal values in a field that becomes unique, or a field kept by name that neither keeps its type nor goes from integer to float, string to text or date to datetime, or becomes required |
| CallEffects.UpdateTypeStores | internal/datastore/datastore_schema.go:238-285 | an accepted schema update keeps every entity, id, type and field name; an integer of the three widths the code names becomes the float of the same number when its field goes from integer to float, and every other value, and every entity of another type, stays as it was |
| CallEffects.UpdateTypeDefines | internal/datastore/datastore_schema.go:52-64 | of the definitions exactly the updated one changes, to the given fields and the two times, and it keeps its id generator |
| Interleaving.StepKeepsInv | internal/datastore/datastore_engine.go:266-346 | any lock-to-lock step of any client keeps the indexes exact and the history equal to a sequential one |
| Interleaving.InterleavingsAreSequential | internal/datastore/datastore_engine.go:266-601 | in every interleaving the indexes stay exact and the store is that of the committed calls performed one by one in commit order, each of which succeeds |
| Interleaving.InsertsExclude | internal/datastore/datastore_engine.go:315-331 | if two inserts of one type and id both succeed, something removed the first in between |
| LogRaces.MoveKeepsLoggedInv | internal/datastore/datastore_engine.go:342-349 | every commit and every log write of any client keeps the store that of the logged calls in commit order, every such call written once or waiting with its client, and every entry what its call had to write at some moment after its commit |
| LogRaces.CrashRecoversIff | internal/datastore/datastore_engine.go:342-349 | at every moment of every interleaved run, a crash recovers the store if and only if every bare id fares the same by the entries as and in the order they were written as by the commits in theirs |
| LogRaces.SettledIdsRecover | internal/datastore/datastore_engine.go:466-475 | if no two calls that concern one bare id overlap between commit and log write, truncates concerning all, a crash at any moment recovers every bare id that no unwritten entry concerns |
| LogRaces.TurnsRecover | internal/datastore/datastore_engine.go:466-475 | and the whole store once every entry is written |
| LogRaces.FatesInOrder | internal/persistence/persistence.go:786-912 | replaying entries in another order makes no difference to a bare id if those that concern a common id keep their order |
| LogRaceExample.DeletedComesBack | internal/datastore/datastore_engine.go:596-604 | any entity that can be stored in an empty store: a run of two clients in which every call succeeds and has written its entry, the store ends empty, and a crash brings the entity back |
| Persistence.TakeSnapshot | internal/persistence/persistence.go:220-302 | the stored stream lists each definition and entity exactly once, definitions before their entities; a failed write changes nothing, a failed prune leaves the log, and otherwise the log is pruned |
| Persistence.LoadLatestSnapshot | internal/persistence/persistence.go:305-399 | loading is the ordinary logged calls item by item up to the first that fails |
| Persistence.ApplyOperation | internal/persistence/persistence.go:786-912 | one replayed operation with its bare-id guards changes the store as the specification of replay says |
| Persistence.SortedEntries | internal/persistence/wal.go:206-245 | the entries of the log, each once, by sequence number |
| Persistence.GroupEntries | internal/persistence/wal.go:247-257 | the plain entries in order, and each transaction's entries in order under its name |
| Persistence.LoadWAL | internal/persistence/wal.go:190-331 | plain entries first, then every transaction that has its last entry, in any order; the indexes stay exact |
| Persistence.Start | internal/datastore/datastore_engine.go:49-74 | starting on what a crash left yields exact indexes and the store that the recovery theorems speak about |
| Restart.RunIsLoadable | internal/persistence/wal.go:150-187 | every legal run, wherever it stops, leaves a log and a snapshot that start-up accepts |
| Restart.StartAfterCrash | internal/datastore/datastore_engine.go:49-74 | an engine started after a crash at any point of any legal run has exact indexes, and has the lost store if a snapshot has just been taken, or if nothing was lost since the beginning or since some snapshot that found all bare ids different |
| SnapshotLoading.LoadingRebuilds | internal/persistence/persistence.go:305-399 | loading a snapshot through the ordinary calls rebuilds the store it was taken from, and re-logs exactly one entry per item |
| SnapshotLoading.WholeDump | internal/persistence/persistence.go:220-302 | a complete snapshot has as many items as there are definitions and entities |
| CrashRecovery.CallGrowsByOne | internal/persistence/wal.go:157-179 | no call raises the number of definitions and entities by more than the one sequence number it uses up |
| CrashRecovery.BalancedStep | internal/persistence/persistence.go:220-302 | every call, whether its log write succeeds or not, and every snapshot, whatever ids are used, keeps: snapshot and tail are in the journal, stored entities validate, and definitions plus entities never outnumber the sequence counter |
| CrashRecovery.RunIsBalanced | internal/persistence/wal.go:150-187 | so this holds at every point of every legal run |
| CrashRecovery.ReloggedEntriesAreHarmless | internal/persistence/wal.go:242-245 | after a crash anywhere in any legal run the entries re-logged while the snapshot loads collide with no surviving one, come first, and change nothing on replay |
| CrashRecovery.TrackedStep | internal/persistence/persistence.go:220-302 | every call that does not reuse a live bare id and is no truncate left without a log entry, and every snapshot, also keeps: replaying the tail on the snapshot's store gives the live store |
| LogTails.LoadOrderIsReadBack | internal/persistence/wal.go:242-245 | the entries re-logged while a snapshot loads collide with no surviving entry and sort before all of them |
| LogTails.SkipAll | internal/persistence/persistence.go:795-833 | the existence guards turn every re-logged entry into nothing |
| LogTails.RecoveryReplaysTail | internal/persistence/wal.go:190-331 | start-up amounts to replaying the entries logged since the snapshot on the store the snapshot describes |
| CrashRecovery.RecoveryIsExact | internal/persistence/persistence.go:786-912 | every crash point of a run is rebuilt exactly by every possible start-up if and only if no insert of the run succeeds while its bare id is live and no truncate removes something while its log write fails |
| CrashRecovery.RecoveryIsExactSince | internal/persistence/persistence.go:220-302 | the same from any snapshot on that found all bare ids different, whatever the run lost before it |
| CrashRecovery.SnapshotRecovers | internal/persistence/persistence.go:220-302 | right after any snapshot of any legal run recovery is exact, whatever came before |
| RecoveryExample.TwoTypesOneId | internal/persistence/persistence.go:821-833 | registering two types and inserting the id 1 under both is a run with a crash point that is not rebuilt |
| RecoveryExample.TruncateComesUndone | internal/datastore/datastore_truncate.go:128-142 | registering a type, inserting an entity and truncating the database while the log write fails is a run after which a crash brings the entity back |
| Recovery.ReplayRepeats | internal/persistence/persistence.go:821-912 | replaying a logged call on the store the call met does what the call did, apart from the update time |
| Recovery.ReusedIdIsDropped | internal/persistence/persistence.go:828-833 | replaying an insert whose bare id is live leaves the entity out |
| ReplayIdempotence.SecondFate | internal/persistence/persistence.go:821-863 | what a log does to one bare id, done again to its own result, changes nothing exactly if a delete or truncate in the log removes that entity, or no logged update has news for it |
| ReplayIdempotence.ReplayIsIdempotentIff | internal/persistence/persistence.go:821-912 | replaying the log of any history without reuse of live bare ids over its own result changes nothing if and only if for each stored entity the log removes it somewhere or every update logged under its bare id, for whatever type, is refused by its own type or visible in it |
| ReplayIdempotence.ReplayIsIdempotent | internal/persistence/persistence.go:821-912 | in particular if every stored entity's bare id was used under one type only |
| RecoveryExample.SecondReplayIsFelt | internal/persistence/persistence.go:844-853 | a session can log an update under one type and a later insert of the id under another, and a second replay of that log changes the store |
| Transactions.StepKeepsInv | internal/persistence/wal.go:63-147 | numbering, writing, failing to write, committing, aborting and pruning, interleaved in any way, keep what is left of each transaction's entries in order under increasing numbers |
| Transactions.TransactionsAreAtomic | internal/persistence/wal.go:76-121 | after a crash between any two steps each transaction into whose commit no prune fell is handed over whole in the order added, or not at all; an aborted or open one contributes nothing, one whose commit returned everything unless a snapshot came after it, and one whose commit failed half-way nothing |
| Transactions.AtomicIff | internal/persistence/persistence.go:740-783 | with prunes at any time, a transaction whose commit returned is handed over whole or not at all if and only if the last prune did not come between its first entry and its last |
| Transactions.GroupIs | internal/persistence/wal.go:258-331 | and exactly what is handed over: the operations the last prune left, if the last entry was written, else nothing |
| Schema.CompatibleConverts | internal/datastore/datastore_schema.go:331-373 | every accepted type change converts every value, keeps nulls, and turns a value that fits the old type into one that fits the new |
| Schema.MigrationKeepsTyping | internal/datastore/datastore_schema.go:250-280 | migration loses no field, and every well-typed retained value fits its new type |
| Schema.StaysValidIff | internal/datastore/datastore_schema.go:154-235 | a migrated entity validates under the definition the update stores, internal fields included, exactly when added fields, nulls and reserved names, which the migration does not look at, fit |
| Schema.UpdateKeepsAllValidIff | internal/datastore/datastore_schema.go:9-121 | after an accepted update of a store in which every entity validates, they all do if and only if that holds for each entity of the type |
| Examples.RequireMissingField | internal/datastore/datastore_schema.go:174-180 | an engine on which an update that adds a required field succeeds and leaves a stored entity that no longer validates |
| SchemaUpdates.VerifyUnique | internal/datastore/datastore_schema.go:377-411 | one pass with a map of seen keys refuses exactly when two entities share a key |
| SchemaUpdates.CreatePlan | internal/datastore/datastore_schema.go:154-235 | accepts exactly compatible type changes without fields becoming required, and lists exactly the added, removed and changed fields |
| SchemaUpdates.ExecutePlan | internal/datastore/datastore_schema.go:238-285 | an accepted plan runs over all entities of the type in some order without aborting and migrates exactly those; every id list stays exact, whatever keys meet and whatever the unique indexes were, and so do the owners of every other type |
| SchemaUpdates.ReindexFields | internal/datastore/datastore_schema.go:288-328 | the loop adds and drops indexes as the specification does: a field newly indexed lists exactly what a scan finds, one indexed before keeps its lists, one no longer indexed has none |
| SchemaUpdates.AllReindexedListedIff | internal/datastore/datastore_schema.go:288-328 | after adding and dropping indexes every indexed field of the new definition is listed right if and only if those kept from before are |
| SchemaUpdates.ReindexUniques | internal/datastore/datastore_schema.go:75-102 | a field that stays unique keeps its index, and one that becomes unique gets one, which is right if and only if no two entities share a key |
| SchemaUpdates.UpdateEntityType | internal/datastore/datastore_schema.go:9-121 | outcome, definitions and entities are those of the reference store, refusals change nothing, a failed write puts only the definition back, after which the id lists are exact if and only if no entity has a value of a field that lost its index, and owners are right exactly when stated field by field; after every accepted update the id lists are exact, and the indexes as a whole, if they were before, are if and only if the walk over the entities moved the keys of each unique field of the new definition apart |
| Migrations.MigrationOwnsIff | internal/datastore/datastore_schema.go:255-281 | after a walk in a given order the owners of a field that stays unique are right if and only if no entity takes a key that a later one takes or has yet to give up |
| Migrations.EveryWalkOwnsIff | internal/datastore/datastore_schema.go:238-285 | every order of the walk leaves each key of a unique field, kept or new, with the owner a scan finds if and only if no two new keys are equal and, for a field that was unique before, none is another's old key |
| Migrations.EveryWalkOwnsAllIff | internal/datastore/datastore_schema.go:238-285 | every order leaves the owners of all unique fields of the new definition right if and only if that holds for each of them |
| Examples.MergeUniqueKeys | internal/datastore/datastore_schema.go:346-359 | an engine with two unique integers that print alike as floats: the update of the field to float succeeds and leaves the unique index wrong |
| Migrations.NoUniqueFieldChanges | internal/datastore/datastore_schema.go:250-280 | the condition holds whenever no unique field of the new definition changes its type |
| Numerals.DecimalRoundTrip | internal/datastore/datastore_id.go:54-55 | printing a counter in decimal and reading it gives the counter back |
| Numerals.ParseUintIff | internal/datastore/datastore_id.go:87-90 | of the texts without idle leading zeros, exactly the printed numbers below 2^64 are read as auto-increment ids |
| Numerals.AtoiIff | internal/datastore/query_joins.go:28-45 | a text reads as a number if and only if it is an optional sign and digits that say a number of 64 bits |
| Numerals.AtoiOfSignedDecimal | internal/datastore/query_joins.go:28-45 | reading a printed number of either sign gives it back, if it fits 64 bits |
| IdGenerators.GenerateUuid | internal/datastore/datastore_id.go:106-119 | for every 16 random bytes the printed id passes the UUID pattern |
| IdGenerators.StampedUuidMatches | internal/datastore/datastore_id.go:113-127 | the version and variant bits of section 4.4 of RFC 4122, printed in hexadecimal, meet the pattern |
| IdGenerators.UuidInjective | internal/datastore/datastore_id.go:117-118 | the printed id keeps all 16 bytes |
| IdGenerators.GeneratedUuidsEqualIff | internal/datastore/datastore_id.go:106-119 | two generated UUIDs are equal if and only if the random source answered the same 122 bits |
| IdFormats.MatchesUuidIff | internal/datastore/datastore_id.go:121-127 | an id passes the UUID pattern if and only if it is made of groups of 8, 4, 3, 3 and 12 hexadecimal digits of either case around version 4 and a variant digit |
| IdFormats.MatchesCuidIff | internal/datastore/datastore_id.go:182-188 | an id passes the CUID pattern if and only if it is a c and at least 24 digits to the base 36 |
| IdGenerators.CuidsDiffer | internal/datastore/datastore_id.go:149-180 | equal CUIDs have the same random part and fingerprint, and the same millisecond exactly if the same count |
| IdGenerators.CuidMatchesIff | internal/datastore/datastore_id.go:149-188 | a generated CUID passes its pattern exactly when the clock is not before 1970 |
| IdGenerators.CuidBoundIsTight | internal/datastore/datastore_id.go:183-188 | the 24 characters the pattern demands are reached and not always exceeded |
| IdGenerators.AutoIncrementGenerator.GenerateID | internal/datastore/datastore_id.go:32-70 | the retry loop ends, at the least undeleted number above the counter, and no other type's state changes |
| IdGenerators.NextFree | internal/datastore/datastore_id.go:52-69 | the number found is above the counter, not deleted, and everything in between is deleted; the deleted ids above the counter are the measure |
| IdGenerators.AutoIncrementGenerator.SetCounter | internal/datastore/datastore_id.go:311-335 | the counter only ever rises |
| IdGenerators.AutoIncrementGenerator.MarkIDDeleted | internal/datastore/datastore_id.go:73-84 | adds exactly this id to the type's deleted ids |
| IdGenerators.EnsureAboveExisting | internal/datastore/datastore_id.go:421-459 | each counter is raised to exactly the highest stored number of its type, so that no stored numeric id lies above it |
| IdGenerators.Generate | internal/datastore/datastore_id.go:281-287 | what a generator answers passes the validator of its kind; custom and unknown kinds answer nothing |
| IdGenerators.GeneratedIdsRise | internal/datastore/datastore_id.go:32-70 | whatever clients do, generated numbers strictly increase and exceed the counter at the start |
| IdGenerators.GeneratedIdsAreNew | internal/datastore/datastore_engine.go:322-331 | without client-chosen ids and from any start, whatever was deleted before, no generated id below 2^64 is in use, so the branch for an existing generated id is never taken, and none was deleted, unless the type has no counter and the id 1 was deleted |
| IdGenerators.ReusesDeletedIff | internal/datastore/datastore_id.go:37-69 | a deleted id is given out exactly when the type has no counter yet and the id 1 was deleted |
| IdGenerators.DeletedIdReused | internal/datastore/datastore_id.go:43-46 | a client that chooses 1 on a fresh type and deletes it makes the first generated id 1 again |
| Numbering.NeverAgainIff | internal/datastore/datastore_id.go:32-70 | a number is never given out again, whatever clients do, if and only if it is at or below the counter, or marked deleted for a type that has a counter |
| Numbering.LoadingOverwrites | internal/datastore/datastore_engine.go:363-374 | loading a snapshot and a log, through the ordinary calls, overwrites the saved counter with zero and the saved deleted ids with those deleted again |
| Numbering.StartNumbers | internal/datastore/datastore_engine.go:76-94 | the saved counters and deleted ids are loaded and each counter raised above what is stored, type by type |
| Numbering.NeverAfterRestartIff | internal/datastore/datastore_engine.go:49-97 | after a restart a number is never given out again if and only if it is at or below the highest stored one or the counter that loading left, or among the deleted ids that loading left for a type with a counter |
| Numbering.GeneratedExceedStored | internal/datastore/datastore_id.go:421-459 | every number a process gives out exceeds every number stored when it started, and is no stored id |
| Numbering.StartedIsCovered | internal/datastore/datastore_id.go:421-459 | every process starts with no stored number above the counter, whatever it has loaded |
| NumberedCalls.InsertNumbered | internal/datastore/datastore_engine.go:266-376 | the insert of an auto-increment type with its generator: the id is the chosen one or the next number, store, log and outcome are those of the reference store for that id, the number is used up in any case, and the counter is saved exactly if the insert reached the log |
| NumberedCalls.DeleteNumbered | internal/datastore/datastore_engine.go:496-618 | the delete with its generator: an id that is found is marked and saved as deleted even if the log write then fails, and nothing else changes about the numbers |
| Lifetimes.StartSays | internal/persistence/persistence.go:305-399 | after a crash in any run that lost nothing, start-up saves the counter once for each entity of the snapshot and each insert logged since, and marks exactly the deletes logged since, in order |
| Lifetimes.NeverAfterCrashIff | internal/datastore/datastore_engine.go:49-97 | for every such run, crash point and start-up, the exact set of numbers never given out again, told from the stored ids, the saved numbers, the snapshot and the log |
| NumberingExample.DeletedNumberComesBack | internal/datastore/datastore_engine.go:550-575 | a legal run of seven commands, any crash and start-up after it, and a number that was generated, deleted and saved as deleted and is given out again |
| EditDistance.LevenshteinDistance | internal/datastore/query.go:154-198 | the two swapped rows compute the distance of the lower-cased strings |
| EditDistance.FillRow | internal/datastore/query.go:175-190 | one pass turns one row of the matrix into the next |
| EditDistance.DistIsFewestEdits | internal/datastore/query.go:154-198 | the distance is the least number of single-byte insertions, deletions and replacements that turn one string into the other |
| EditDistance.NoShorterScript | internal/datastore/query.go:154-198 | no edit script is shorter than the distance |
| EditDistance.DistTriangle | internal/datastore/query.go:154-198 | the distance obeys the triangle inequality |
| EditDistance.DistSymmetric | internal/datastore/query.go:154-198 | the distance is symmetric |
| EditDistance.DistZero | internal/datastore/query.go:154-198 | the distance is zero exactly for equal strings |
| EditDistance.DistBounds | internal/datastore/query.go:158-163 | the distance lies between the difference of the lengths and the longer length |
| FuzzyMatches.FuzzyMatch | internal/datastore/query.go:215-266 | the code's match: one text contains the other, or enough words of the first are similar to some word of the second, or the two single words are similar and within the maximal distance |
| FuzzyMatches.SimilarIff | internal/datastore/query.go:234-242 | words are similar if and only if they are not both empty and some edit script of at most (1 - threshold) edits per character of the longer turns one into the other |
| FuzzyMatches.SeveralWordsIff | internal/datastore/query.go:229-252 | with several words, texts match if and only if one contains the other or at least one, and half as many as the shorter text has, different words of the first are each similar to a word of the second |
| FuzzyMatches.SingleWordsSymmetric | internal/datastore/query.go:254-266 | between single words it does not matter which is searched for |
| FuzzyMatches.SeveralWordsAsymmetric | internal/datastore/query.go:229-252 | between texts of several words it does: two texts of which the first matches the second and not the other way round |
| FuzzyMatches.FuzzySelects | internal/datastore/query.go:81-110 | a fuzzy filter of a query selects exactly the entities whose text matches so |
| Paging.LessIsStrictOrder | internal/datastore/query.go:523-615 | on keys of one kind the comparator is a strict order, total up to equal keys, ascending and descending |
| Paging.NullKeyBeforeItself | internal/datastore/query.go:612-613 | outside those kinds the comparator is not irreflexive |
| Operators.InOrderIff | internal/datastore/query.go:523-615 | a list with keys of one kind is in order if and only if each key may follow every earlier one: a number or instant not smaller, a text equal or after it at the first difference, true after false; descending, the other way round |
| Paging.SortedResultIsUnique | internal/datastore/query.go:523-615 | with distinct keys of one kind there is one sorted result, whatever order the matches come in |
| Paging.PagesConcatenate | internal/datastore/query.go:626-695 | independent page calls stepping by the limit until there are no more return every match exactly once in order |
| Paging.PageIsQuerySlice | internal/datastore/query.go:140-150 | a page equals the slice a query with the same offset and limit returns |
| Paging.SortExists | internal/datastore/query.go:523-615 | a list with keys of one kind has a sorted order |
| Paging.EqualKeysRepeat | internal/datastore/query.go:523-615 | wherever two sort keys are equal, two page calls that see the two matches in different orders show one of them twice |
| Paging.PagesExactIff | internal/datastore/query.go:626-695 | page calls return every match exactly once for every choice of sorted answers and every limit if and only if no two sort keys are equal |
| Queries.ApplyFilter | internal/datastore/query.go:50-131 | one round answers, in order, the entities that pass, the index lookup meaning equal printed values, or the error of a fuzzy filter without text |
| Queries.KeptElements | internal/datastore/query.go:50-131 | these are exactly the passing entities, each once |
| Queries.Filtered | internal/datastore/query.go:41-132 | the pipeline returns, without duplicates, exactly what one conjunctive scan selects, or the error of a fuzzy filter without text |
| Queries.IndexAnswersScan | internal/datastore/query.go:61-79 | an id is in the index list exactly when the entity's non-null value prints like the filter's |
| Queries.FilterOrderIrrelevant | internal/datastore/query.go:50-132 | the order of the filters does not change what is selected |
| Operators.SelectedByEach | internal/datastore/query.go:50-132 | a query selects an entity exactly if it is stored under the type and every filter alone selects it |
| Operators.EqSelects | internal/datastore/query.go:269-275 | Eq on a field without an index selects exactly the value, and Neq exactly what has the field with another value |
| Operators.EqIndexedSelects | internal/datastore/query.go:61-79 | Eq on an indexed field selects exactly the non-null values equal to the filter's, texts, whole numbers and truth values by value, anything else by how it is printed |
| Operators.OrderSelects | internal/datastore/query.go:413-520 | Gt, Gte, Lt and Lte select exactly the entities whose number, text or instant is greater, not less, less or not greater than the filter's |
| Operators.EdgeSelects | internal/datastore/query.go:308-322 | StartsWith and EndsWith select exactly the texts that, in lower case, are the part followed, or preceded, by some text |
| Operators.ContainsSelects | internal/datastore/query.go:280-306 | Contains selects exactly the texts that, in lower case, have the part between two texts, and the arrays with an element that does or that equals the filter's value |
| Operators.ListSelects | internal/datastore/query.go:325-405 | In, ArrayContains, ArrayContainsAny and ArrayContainsAll select by the places of the two lists at which equal values stand |
| Operators.CountedByEach | internal/datastore/query.go:863-889 | the count asks of an entity what each filter alone selects, but the value itself for Eq among several filters, and nothing passes a fuzzy one |
| Queries.Query | internal/datastore/query.go:29-151 | the answer is the slice of a duplicate-free list of exactly the selected entities, sorted by the field when its keys are of one kind |
| Queries.ExecutePaginatedQuery | internal/datastore/query.go:618-696 | the page of the sorted selection, by creation time unless told otherwise, run through the joins, with the total and the has-more flag, or no answer when a join stops |
| Queries.FetchAll | internal/datastore/query.go:618-696 | a client that asks for page after page until there are no more gets every selected entity once, in order, if the sort keys differ |
| Queries.ExecuteQueryWithJoins | internal/datastore/query.go:732-781 | the answer is that of one run of the join list if no remaining row had a compared field written, and none otherwise |
| Counting.IndexCounts | internal/datastore/query.go:814-829 | the length of an id list is the number of entities a scan would count |
| Counting.ExecuteCountQuery | internal/datastore/query.go:785-898 | the count, by index or by scan, is the number of entities that satisfy the count's conditions; with joins it is the number of matches before joining |
| Counting.CountIsQueryLengthIff | internal/datastore/query.go:811-889 | the count never exceeds the length of the query's answer, and equals it if and only if there is one filter or every answered entity really has the values of the indexed equality filters |
| Counting.FuzzyCountsNothing | internal/datastore/query.go:863-889 | with a fuzzy filter the count is zero |
| Counting.NullLookupsSplit | internal/datastore/query.go:61-79 | with an indexed filter for null among several, no entity is both counted and answered |
| Counting.TextAndTruthAgree | internal/datastore/query.go:61-79 | an entity whose field prints like the filter has the filter's value, for strings against text fields and booleans against boolean fields |
| Examples.CountFallsShort | internal/datastore/query.go:811-889 | an engine and two filters for which the query answers an entity and the count is zero |
| Joins.IntegerMeetsPrintedId | internal/datastore/query_joins.go:15-94 | an integer foreign key of any Go type meets an id printed from a number exactly when it is that number, below 2^63 |
| Joins.WholeFloatMeetsPrintedId | internal/datastore/query_joins.go:82-88 | so does a float64 |
| JoinResults.SameKeyIff | internal/datastore/query_joins.go:15-94 | two keys meet if and only if they count as the same integer, as text, integer or whole float64, or neither counts as one and they are the same value or float |
| JoinResults.MeetsIff | internal/datastore/query_joins.go:146-210 | a row meets a target exactly if the row's id or local field and the target's foreign field, else its id, are such keys |
| Joins.ExecuteJoin | internal/datastore/query_joins.go:146-308 | the hash join gives what the nested loop over equal normalised keys gives, or stops on a key that cannot be hashed |
| JoinResults.JoinAnswers | internal/datastore/query_joins.go:146-308 | the answer is the rows that stay, in order: all of them, or for an inner join, which an empty join type means, those that meet a target. Each has in its result field the first target it meets as an object, or, with "all", the array of objects of exactly the targets it meets, in their order; one that meets none is unchanged, and so are all if the strategy is unknown |
| JoinResults.ShownShows | internal/datastore/query_joins.go:311-345 | the object has the id, as an integer if the type counts its ids, and exactly the target's fields that are listed, or are not internal when none is listed, and are not excluded |
| JoinResults.JoinStopsIff | internal/datastore/query_joins.go:146-210 | a join stops exactly on an array or object as a key |
| Joins.MatchesAreExact | internal/datastore/query_joins.go:146-165 | the matches of a row are exactly the targets with its key |
| Joins.LeftJoinKeepsRows | internal/datastore/query_joins.go:282-305 | a left join keeps every row in order, each with what its matches attach |
| Joins.InnerJoinKeepsMeetingRows | internal/datastore/query_joins.go:251-281 | an inner join keeps exactly the rows that meet some target, in order |
| Joins.AttachedElsewhere | internal/datastore/query_joins.go:257-299 | a join changes nothing of a row but its result field |
| Joins.RunIsRowByRow | internal/datastore/query.go:671-678 | any list of joins either stops, or acts on each row by itself |
| Joins.JoiningTwiceIff | internal/datastore/query.go:744-767 | for every join list that succeeds once, the second run over its own result changes nothing if and only if no remaining row had a compared field written, and stops the program otherwise |
| Joins.JoiningTwiceIsJoiningOnce | internal/datastore/query.go:744-767 | so it changes nothing when no join writes a field that it or an earlier join compares |
| Joins.ComparingAResultStops | internal/datastore/query.go:671-678 | a join that compares a field an earlier one has written into a row stops the first run already |
| Joins.ResultOverLocalField | internal/datastore/query.go:760-767 | a join whose result replaces the field it compares can be run again if and only if no row met a target, else it stops the program |
| LruCaches.LruCache.Get | internal/persistence/lru.go:32-47 | a hit returns the value and moves the key to the front of the recency list, a miss changes nothing; every key stays with its value |
| LruCaches.LruCache.Put | internal/persistence/lru.go:50-70 | an old key gets the new value and moves to the front, a new one pushes out the last when there is no room; with positive capacity the cache then has the key with this value, every other key it still has keeps its value, and unless a new key finds it full none goes |
| LruCaches.LruCache.Remove | internal/persistence/lru.go:73-81 | exactly this key goes, and every other keeps its value |
| LruCaches.LruCache.Evict | internal/persistence/lru.go:84-90 | exactly the last entry goes, from map and list |
| LruCaches.LruCache.Keys | internal/persistence/lru.go:109-119 | the keys, most recently used first |
| LruCaches.RunIsBounded | internal/persistence/lru.go:50-70 | after any run no key is held twice and the capacity is kept, also when it is zero or negative |
| LruCaches.ListIsByLastUse | internal/persistence/lru.go:32-90 | the list is ordered by last use, so the victim is the least recently used key |
| LruCaches.HoldsLastPut | internal/persistence/lru.go:32-107 | after any run of calls, a key the cache has holds the value of the last Put of that key, and no later call removes it or clears the cache |
| LruCaches.FullLoses | internal/persistence/lru.go:61-69 | a new key in a full cache takes the place of exactly the last entry |
| LruCaches.LargerCacheIncludes | internal/persistence/lru.go:32-90 | after any common run the smaller cache's list is a subsequence, values included, of the larger one's |

## Left out

- HTTP handlers, server, command line, dashboards, memory monitoring, diagnostics, debug logging, backup and restore,
  tickers and garbage collection: input, output and presentation.
- Badger, gob and zstd: database transactions are atomic, encoding and decoding lose nothing, keys sort by sequence
  number.
- The mode without a write-ahead log: nothing written in it is read back.
- A second crash before a new snapshot: numbering restarts at zero while old entries remain, so recovery is stated for
  one crash.
- A crash between writing a snapshot and pruning the log, and a prune that fails: covered only by idempotent replay.
- A failed save of a counter or of deleted ids: it is only printed.
- The registry of generators: the kind of a type's generator is read from its definition.
- Generated ids when a 64-bit counter runs over: `GenerateID` is stated for counters that stay below 2^64.
- Interleaved runs whose log writes fail: what their rollbacks under a second lock do to the id lists is stated, what
  they do to unique indexes, to the store and to recovery is not. `LogRaces.dfy` also leaves out snapshots within the
  run, unique fields, and the inserts that recovery drops anyway because their bare id is live.
- Schema updates in the recovery theorems, and in the concurrent model apart from the id lists
  (`IdLists.ListsStayExactIff`): their duplicate check runs before the lock is taken, and their log entry is a yes-or-no
  parameter.
- A schema update of a type whose registration is undone between the look at the definition and the lock: it would store
  index lists under a type without an index.
- The property changes listed in a migration plan: nothing reads them.
- Transaction entries against plain entries on replay: the order in which LoadWAL applies them is modelled as it is, and
  nothing is claimed about their mixture.
- ensureNoDuplicateInternalFields and cleanInternalFields beyond marking reserved fields internal: on distinct field
  names the first does nothing.
- Locking inside Get of the cache: the window between its read lock and its write lock is not modelled.
- sort.Slice: any result that contains the same entities and puts none before a smaller one; on keys without a
  consistent order nothing is said.
- strings.ToLower, strings.Fields and time.Parse: parameters of the filter.
- Comparison of two time.Time values as map keys or by DeepEqual is equality of instants; monotonic readings and
  locations are not modelled.
- Float rounding, NaN and infinities: floats are reals, integer keys above 2^53 compare exactly, and where rounding
  matters it is a condition on how two floats print (`Examples.MergeUniqueKeys`).
- Offset plus limit above 2^63, and negative offsets, which stop the program.
- Pages shortened by an inner join: total and has-more flag are modelled as they are computed, from the matches before
  joining.
- The filters of a join's target query: a join is given its list of targets, the same both times in
  `Joins.JoiningTwiceIsJoiningOnce`.
- MigrateToCompositeKeys: it only concerns stores written before composite keys.
- Engines.Engine.Insert: the generator's answer is an argument; `NumberedCalls.InsertNumbered` puts generator, insert
  and saved counter together for auto-increment types, and for the other kinds nothing is saved.
- Engines.Engine.Delete: marking the id deleted is added in `NumberedCalls.DeleteNumbered`.
- Persistence.ApplyOperation: the branch for logged schema updates is left out, as the log of the model has no such
  entries.
- ReplayIdempotence.ReplayIsIdempotentIff: definitions are fixed and no field is unique; with unique fields a repeated
  update can be refused because another entity took the key later, and whether that is felt depends on the other
  entities' whole histories.
- Counting.CountIsQueryLengthIff: with several filters it asks that no indexed equality filter is for null; there the
  two sets are disjoint (`Counting.NullLookupsSplit`) and their sizes agree only by chance.

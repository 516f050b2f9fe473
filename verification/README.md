# Kuzu core: model and proofs

Kuzu is an embedded graph database; this project models the parts of its C++ core with the most state,
branching or arithmetic and proves what they are for. Every operation the source writes as a loop or an update in
place is a method or a class here, proved against specification functions; the theorems are about those functions.
`dafny verify dfyconfig.toml` checks everything.

**Multi-version catalog** (`CatalogModel`, `CatalogInvariant`, `CatalogRuns`, `CatalogSnapshots`, `CatalogAtomic`,
`CatalogEffects`, `CatalogDamage`, `CatalogOids`, `CatalogLookup`, `CatalogSetImpl`). Each name owns a chain of
versions, newest first, stamped with a transaction ID while uncommitted and a commit timestamp afterwards. A `System`
is the catalog, the active transactions with their undo records, and the two counters of the transaction manager;
`Step` is create, drop, alter, rename, begin, commit or rollback. Commit and rollback follow the undo buffer: each
record holds the version below a pushed one, and commit stamps (rollback unlinks) whatever then stands directly above
it. Results: what each operation means to its caller, snapshot stability over whole runs, the shape of chains,
uniqueness of live OIDs, OID lookup, and the checkpoint round trip.

**Nested values as text** (`TextScan`, `TextModel`, `TextCast`, `TextNull`, `TextFree`, `TextPrint`, `TextRoundTrip`,
`TextJoin`, `TextTheorem`). The scanners move a cursor over the text and skip brackets recursively; the printers
append in loops. Results: parsing a printed tree of lists, maps and structs returns it exactly for canonical trees;
what texts written by hand, with blanks and quotes, parse to; which texts mean null; and the counting and splitting
passes agree on every text.

**Null masks** (`NullBits`, `NullMaskKernels`, `NullMasks`). Word-at-a-time copy, fill and min/max kernels refine a
per-bit meaning. Words are 64-bit vectors with their own operators; shifts by a variable amount and the bit at a
position are defined by single shifts, so every bit fact is proved here.

**Nested order, equality and hash** (`Columns`, `NestedOrder`, `NestedCompare`, `NestedHash`, `VectorHash`). A column
holds nulls, list entries into a child column, or field columns. Comparison and hashing loops over columns are tied to
relations on the value trees the rows stand for.

**MD5 and substring search** (`Md5Transform`, `Md5`, `Md5Example`, `PackedWords`, `Find`). The buffered MD5 state
machine equals RFC 1321 on the whole message however it is cut; the packed-word and rolling-sum searches equal the
first occurrence.

**Vectorised evaluation** (`ListSlice`, `Selection`, `CaseEvaluator`, `ConstantFold`). Slicing list data into full
batches, CASE with a filled mask over selection vectors that children share with it, and constant folding against an
evaluator over rows and sequence state.

**Decimals** (`Decimal`). Overflow guards in 16-, 32-, 64- and 128-bit storage, result types, floor and ceil under
truncating division.

## Where the code falls short

Each point has a lemma or method below with the exact condition, or, for the hash of null structs, one that suffices.

- Drop, alter and rename do not check for write-write conflicts. When the visible version is not the head, an alter's
  undo record names a version that is not the one below its copy: the commit hides the version above the altered one
  from whoever saw it (`AlterHides`, at one run `ConcurrentAlterLosesOwnWrite`). If that version was another writer's
  uncommitted one, new readers see it, a dirty read, and nobody sees the committed alter (`DirtyRead`). A drop over
  another writer's version is left with a dangling undo record when that writer rolls back (`DropDangles`). The invariant
  survives a step exactly when it is `Safe`, and then no record dangles (`RecordsLive`). With multi-writes off, the
  default (`Sources/cxx-kuzu/kuzu/src/main/db_config.cpp:31`), every step is safe.
- A rename whose new name cannot be created leaves its tombstone without an undo record (`LeakedTombstone`). The table
  operator looks for a live table of that name first
  (`Sources/cxx-kuzu/kuzu/src/processor/operator/ddl/alter.cpp:153`).
- `getEntryOfOID` compares the OID of the chain's head, not of the visible version (`LookupExactly`): dropping and
  re-creating a table hides the old one from OID lookup by older transactions.
- `[null]` prints as `[]`; null and repeated map keys print but do not parse (`RoundTripExactly`).
- A map text that ends in a key without a value makes the splitting pass store that key one slot past those reserved by
  the counting pass (`SplitMapParts`).
- Copies of at most three null bits truncate positions to 32 bits (`ShortCopyTruncates`). The result of
  `copyNullMask` is about bits before inversion on that path and after it on the others, so `copyFromNullBits` can lose
  the may-contain-nulls flag; `operator|=` never updates it (`OrWith`). `getMinMax` of an empty range is
  (false, false).
- Null structs that hide scalars or elements are equal but may hash differently (`NullStructsDiffer`); rows that reach no
  such struct hash by their value (`RowHash`).
- A bare boolean column under WHEN writes to the selection of its own state instead of the given one
  (`ColumnMeetsExactly`). The given one keeps its zeros, so THEN goes to row 0 and every other row falls through to ELSE
  (`EvaluateColumn`, `UnfilteredColumn`). CASE shares the state, so a filtered selection is damaged even when no row is
  true, and the first row gets no value (`FalseColumn`). A function without a select form leaves the given selection
  alone when exactly one row is selected (`SelectedPosMeetsExactly`).
- `currval` counts as constant, so it is evaluated once at bind time (`FrozenCurrVal`).
- Decimal addition gives the extra digit of its result type to the scale, not to the integer part (`SumScale`), so the
  largest values of two types do not add unless the digits of the types do not overlap (`CarryThrows`).

## Model

| member | source | states |
|---|---|---|
| `CatalogSnapshots.SnapshotStability` | Sources/cxx-kuzu/kuzu/src/catalog/catalog_set.cpp:81-208 | over every run of create, drop, alter, rename, begin, commit and rollback steps that meet `Safe`, with the undo buffer as written: the whole live view of a transaction is the same at any two points between which it takes no step itself |
| `CatalogAtomic.AtomicStability` | Sources/cxx-kuzu/kuzu/src/catalog/catalog_set.cpp:81-208 | the same stability over every run, any number of writers and no condition on steps, when a commit re-stamps and a rollback removes all versions of its transaction at once |
| `CatalogSnapshots.SafeExactly` | Sources/cxx-kuzu/kuzu/src/catalog/catalog_set.cpp:147-208 | from any state meeting the invariant, a step leads to a state meeting it again if and only if `Safe` holds: a drop or alter finds a head it may cover, a rename sees the head and its new name is free |
| `CatalogSnapshots.ConcurrentAlterLosesOwnWrite` | Sources/cxx-kuzu/kuzu/src/catalog/catalog_set.cpp:171-208 | a concrete two-writer run: after both alter one entry and the second commits, the first no longer sees its own version but the one before it |
| `CatalogSnapshots.TwoWritersReachable` | Sources/cxx-kuzu/kuzu/src/transaction/transaction_manager.cpp:18-52 | the start of that run is reached from a loaded catalog by two begin steps |
| `CatalogSnapshots.FirstAlter` | Sources/cxx-kuzu/kuzu/src/catalog/catalog_set.cpp:171-208 | the first writer's alter is safe; its new chain and undo record |
| `CatalogSnapshots.SecondAlter` | Sources/cxx-kuzu/kuzu/src/catalog/catalog_set.cpp:171-208 | the second writer's alter is not safe: it succeeds without a conflict and logs the version it saw, not the head it covers |
| `CatalogSnapshots.SecondCommit` | Sources/cxx-kuzu/kuzu/src/storage/undo_buffer.cpp:199-204 | committing the second writer stamps the first writer's version and leaves its own unstamped |
| `CatalogSnapshots.SingleWriterRunIsRun` | Sources/cxx-kuzu/kuzu/src/transaction/transaction_manager.cpp:18-52 | every run in which a second writer is refused consists of safe steps only, so the invariant holds in its last state and there is at most one writer |
| `CatalogSnapshots.SingleWriterIsSafe` | Sources/cxx-kuzu/kuzu/src/transaction/transaction_manager.cpp:151-154 | with at most one writer every enabled step is safe and there is still at most one writer afterwards |
| `CatalogSnapshots.ChainShape` | Sources/cxx-kuzu/kuzu/src/catalog/catalog_set.cpp:105-135 | a chain under the invariant is one transaction's uncommitted block on top of non-increasing commit timestamps, its last version has timestamp 0, and traversal finds a version for every transaction |
| `CatalogSnapshots.CreateCheckIsRedundant` | Sources/cxx-kuzu/kuzu/src/catalog/catalog_set.cpp:26-31 | with any number of writers, past the write-write check the head is the visible version, so creation fails exactly when the head is a live entry |
| `CatalogSnapshots.UnsafeDropBreaks` | Sources/cxx-kuzu/kuzu/src/catalog/catalog_set.cpp:159-169 | a drop over another writer's head leaves a chain and undo record that no longer match |
| `CatalogSnapshots.UnsafeAlterBreaks` | Sources/cxx-kuzu/kuzu/src/catalog/catalog_set.cpp:171-208 | an alter whose visible version is not the head leaves a chain and undo record that no longer match |
| `CatalogSnapshots.LeakedTombstone` | Sources/cxx-kuzu/kuzu/src/catalog/catalog_set.cpp:171-208 | a rename onto a name that cannot be created leaves its tombstone with no undo record |
| `CatalogSnapshots.MisplacedRename` | Sources/cxx-kuzu/kuzu/src/catalog/catalog_set.cpp:171-208 | a rename of a version below the head breaks the match between chain and undo records |
| `CatalogSnapshots.SafeKeepsInv` | Sources/cxx-kuzu/kuzu/src/catalog/catalog_set.cpp:65-208 | every safe step, including commit and rollback, keeps the invariant |
| `CatalogSnapshots.RunKeepsInv` | Sources/cxx-kuzu/kuzu/src/catalog/catalog_set.cpp:65-208 | the invariant holds in every state of every safe run |
| `CatalogSnapshots.CreateUnseen` | Sources/cxx-kuzu/kuzu/src/catalog/catalog_set.cpp:81-103 | a create by another transaction changes no name's live entry for a reader |
| `CatalogSnapshots.DropUnseen` | Sources/cxx-kuzu/kuzu/src/catalog/catalog_set.cpp:159-169 | a drop by another transaction changes no name's live entry for a reader |
| `CatalogSnapshots.AlterUnseen` | Sources/cxx-kuzu/kuzu/src/catalog/catalog_set.cpp:171-208 | an alter by another transaction changes no name's live entry for a reader |
| `CatalogSnapshots.RenameUnseen` | Sources/cxx-kuzu/kuzu/src/catalog/catalog_set.cpp:171-208 | a rename by another transaction, failing or not, changes no name's live entry for a reader |
| `CatalogSnapshots.CommitUnseen` | Sources/cxx-kuzu/kuzu/src/storage/undo_buffer.cpp:199-204 | a commit changes no name's live entry for a transaction that started before it |
| `CatalogSnapshots.RollbackUnseen` | Sources/cxx-kuzu/kuzu/src/storage/undo_buffer.cpp:251-268 | a rollback changes no name's live entry for any other transaction |
| `CatalogSnapshots.StepKeepsView` | Sources/cxx-kuzu/kuzu/src/catalog/catalog_set.cpp:210-221 | one step of another transaction keeps a transaction active, with its start timestamp and whole live view |
| `CatalogSnapshots.CommitPublishes` | Sources/cxx-kuzu/kuzu/src/storage/undo_buffer.cpp:199-204 | a transaction starting after a commit sees, name by name, the committed version where the committer wrote and the previous answer elsewhere |
| `CatalogAtomic.AtomicKeepsView` | Sources/cxx-kuzu/kuzu/src/catalog/catalog_set.cpp:121-135 | one step with atomic commit or rollback keeps every other transaction's live view, from any state with consistent clocks |
| `CatalogAtomic.WithoutUnseen` | Sources/cxx-kuzu/kuzu/src/catalog/catalog_set.cpp:121-135 | removing one transaction's versions anywhere in a chain changes no other transaction's visible version |
| `CatalogAtomic.RunKeepsClocks` | Sources/cxx-kuzu/kuzu/src/transaction/transaction_manager.cpp:18-85 | in every run transaction IDs and start timestamps stay below their counters and on their own sides of 2^63 |
| `CatalogModel.VisibleInChain` | Sources/cxx-kuzu/kuzu/src/catalog/catalog_set.cpp:121-135 | the visible version is a version of the chain that the transaction sees, and there is none exactly when it sees no version |
| `CatalogModel.VisibleSkips` | Sources/cxx-kuzu/kuzu/src/catalog/catalog_set.cpp:121-135 | versions a transaction does not see can be put on top without changing what it sees |
| `CatalogModel.ConflictMeansUnseen` | Sources/cxx-kuzu/kuzu/src/catalog/catalog_set.cpp:26-31 | the write-write check fires exactly when the transaction does not see the version |
| `CatalogInvariant.FreshIsInv` | Sources/cxx-kuzu/kuzu/src/catalog/catalog.cpp:470-478 | a loaded catalog, built-in functions over their dummies included, meets the invariant |
| `CatalogInvariant.VisibleExists` | Sources/cxx-kuzu/kuzu/src/catalog/catalog_set.cpp:121-135 | in every chain under the invariant each transaction sees some version |
| `CatalogInvariant.CreateKeepsInv` | Sources/cxx-kuzu/kuzu/src/catalog/catalog_set.cpp:65-103 | creation keeps the invariant, for any number of writers |
| `CatalogInvariant.DropKeepsInv` | Sources/cxx-kuzu/kuzu/src/catalog/catalog_set.cpp:147-169 | dropping keeps the invariant when the head is committed or the dropper's own |
| `CatalogInvariant.AlterKeepsInv` | Sources/cxx-kuzu/kuzu/src/catalog/catalog_set.cpp:171-208 | altering keeps the invariant when the visible version is the head |
| `CatalogInvariant.RenameKeepsInv` | Sources/cxx-kuzu/kuzu/src/catalog/catalog_set.cpp:171-208 | renaming keeps the invariant when the visible version is the head and the new name is free |
| `CatalogInvariant.BeginKeepsInv` | Sources/cxx-kuzu/kuzu/src/transaction/transaction_manager.cpp:18-52 | a new transaction keeps the invariant |
| `CatalogInvariant.RenameTarget` | Sources/cxx-kuzu/kuzu/src/catalog/catalog_set.cpp:171-208 | after the tombstone is pushed the new name can be created exactly when it could before, or it is the same name |
| `CatalogInvariant.RenameIsDropCreate` | Sources/cxx-kuzu/kuzu/src/catalog/catalog_set.cpp:171-208 | a safe rename is a drop followed by a create with the old OID and contents |
| `CatalogRuns.CommitStamps` | Sources/cxx-kuzu/kuzu/src/storage/undo_buffer.cpp:164-204 | replaying the undo records forwards re-stamps exactly the committer's versions in every chain and nothing else |
| `CatalogRuns.RollbackRemoves` | Sources/cxx-kuzu/kuzu/src/storage/undo_buffer.cpp:171-268 | replaying the undo records backwards unlinks exactly the transaction's versions from every chain |
| `CatalogRuns.CommitAllAt` | Sources/cxx-kuzu/kuzu/src/storage/undo_buffer.cpp:164-204 | what a commit does to one name depends only on the records of that name, in order |
| `CatalogRuns.RollbackAllAt` | Sources/cxx-kuzu/kuzu/src/storage/undo_buffer.cpp:171-268 | what a rollback does to one name depends only on the records of that name |
| `CatalogRuns.CommitKeepsInv` | Sources/cxx-kuzu/kuzu/src/transaction/transaction_manager.cpp:54-85 | commit keeps the invariant |
| `CatalogRuns.RollbackKeepsInv` | Sources/cxx-kuzu/kuzu/src/transaction/transaction_manager.cpp:87-103 | rollback keeps the invariant |
| `CatalogLookup.RunUniqueOids` | Sources/cxx-kuzu/kuzu/src/catalog/catalog_set.cpp:223-237 | in every state of every safe run from a catalog with distinct OIDs, two live names of one transaction's view with the same OID are the same name |
| `CatalogLookup.UniqueOids` | Sources/cxx-kuzu/kuzu/src/catalog/catalog_set.cpp:223-237 | under the invariants two names live for one transaction have different OIDs |
| `CatalogLookup.LookupExactly` | Sources/cxx-kuzu/kuzu/src/catalog/catalog_set.cpp:223-237 | whatever the map order, `getEntryOfOID` agrees with a scan of the visible view if and only if, wherever the transaction sees a live entry, head and visible version agree on having that OID |
| `CatalogLookup.WrongAnswer` | Sources/cxx-kuzu/kuzu/src/catalog/catalog_set.cpp:223-237 | where heads do not agree there is an answer of `getEntryOfOID` that the scan does not give |
| `CatalogLookup.SharedOidsAgree` | Sources/cxx-kuzu/kuzu/src/catalog/catalog_set.cpp:223-237 | if the versions of each chain share one OID the condition holds for every transaction and OID |
| `CatalogLookup.RecreateHidesOld` | Sources/cxx-kuzu/kuzu/src/catalog/catalog_set.cpp:147-237 | dropping and re-creating a name breaks the condition for every reader that still sees the old entry |
| `CatalogLookup.StepKeepsOids` | Sources/cxx-kuzu/kuzu/src/catalog/catalog_set.cpp:65-208 | every safe step keeps the OID invariant: no two names' chains are live with one OID at any timestamp or for any writer |
| `CatalogLookup.RunKeepsOids` | Sources/cxx-kuzu/kuzu/src/catalog/catalog_set.cpp:65-208 | the OID invariant holds in every state of every safe run |
| `CatalogLookup.CheckpointRoundTrip` | Sources/cxx-kuzu/kuzu/src/catalog/catalog_set.cpp:137-145 | for every name, every transaction on the reloaded set sees the content that a transaction starting after the last commit saw on the original; function entries are gone |
| `CatalogLookup.CommittedIsVisible` | Sources/cxx-kuzu/kuzu/src/catalog/catalog_set.cpp:137-145 | the committed version of a chain is the one visible to a transaction starting now |
| `CatalogLookup.DeserializeAt` | Sources/cxx-kuzu/kuzu/src/catalog/catalog_set.cpp:268-285 | the reloaded set has exactly the stored names, each with one live version of timestamp 0 and the stored content |
| `CatalogLookup.ReloadedIsFresh` | Sources/cxx-kuzu/kuzu/src/catalog/catalog_set.cpp:268-285 | a reloaded set is a valid start state for the runs above |
| `CatalogOids.CreateKeepsOids` | Sources/cxx-kuzu/kuzu/src/catalog/catalog_set.cpp:65-103 | creation draws an OID that no chain holds |
| `CatalogOids.DropKeepsOids` | Sources/cxx-kuzu/kuzu/src/catalog/catalog_set.cpp:147-169 | dropping keeps live OIDs apart |
| `CatalogOids.AlterKeepsOids` | Sources/cxx-kuzu/kuzu/src/catalog/catalog_set.cpp:171-208 | a safe alter keeps the OID on its name only |
| `CatalogOids.RenameKeepsOids` | Sources/cxx-kuzu/kuzu/src/catalog/catalog_set.cpp:171-208 | a safe rename moves the OID: at no timestamp are both names live with it |
| `CatalogOids.CommitKeepsOids` | Sources/cxx-kuzu/kuzu/src/storage/undo_buffer.cpp:199-204 | commit keeps live OIDs apart at the new timestamp |
| `CatalogOids.RollbackKeepsOids` | Sources/cxx-kuzu/kuzu/src/storage/undo_buffer.cpp:251-268 | rollback keeps live OIDs apart |
| `CatalogSetImpl.CatalogSet.constructor` | Sources/cxx-kuzu/kuzu/src/catalog/catalog_set.cpp:20-24 | an empty set whose OID counter starts at 0, or at the internal start for an internal set |
| `CatalogSetImpl.CatalogSet.TraverseVersionChains` | Sources/cxx-kuzu/kuzu/src/catalog/catalog_set.cpp:121-135 | the loop returns the visible version, and one exists when the chain ends at timestamp 0 |
| `CatalogSetImpl.CatalogSet.GetCommittedEntry` | Sources/cxx-kuzu/kuzu/src/catalog/catalog_set.cpp:137-145 | the loop returns the first version of the chain with a commit timestamp |
| `CatalogSetImpl.CatalogSet.ContainsEntry` | Sources/cxx-kuzu/kuzu/src/catalog/catalog_set.cpp:33-47 | true exactly when the name has a live entry for the transaction |
| `CatalogSetImpl.CatalogSet.GetEntry` | Sources/cxx-kuzu/kuzu/src/catalog/catalog_set.cpp:49-63 | the live entry, or the does-not-exist error exactly when there is none |
| `CatalogSetImpl.CatalogSet.Emplace` | Sources/cxx-kuzu/kuzu/src/catalog/catalog_set.cpp:105-111 | the version becomes the head of its name's chain and no other chain changes |
| `CatalogSetImpl.CatalogSet.EmplaceDummy` | Sources/cxx-kuzu/kuzu/src/catalog/catalog_set.cpp:117-119 | a new name gets a chain of one deleted version with timestamp 0 |
| `CatalogSetImpl.CatalogSet.CreateEntryNoLock` | Sources/cxx-kuzu/kuzu/src/catalog/catalog_set.cpp:81-103 | new state, undo records and error of the specified create, whose properties are proved above |
| `CatalogSetImpl.CatalogSet.CreateEntry` | Sources/cxx-kuzu/kuzu/src/catalog/catalog_set.cpp:65-79 | draws the next OID even when it fails; otherwise the specified create |
| `CatalogSetImpl.CatalogSet.DropEntry` | Sources/cxx-kuzu/kuzu/src/catalog/catalog_set.cpp:147-169 | new state, undo records and error of the specified drop |
| `CatalogSetImpl.CatalogSet.AlterTableEntry` | Sources/cxx-kuzu/kuzu/src/catalog/catalog_set.cpp:171-208 | new state, undo records and error of the specified alter |
| `CatalogSetImpl.CatalogSet.RenameTableEntry` | Sources/cxx-kuzu/kuzu/src/catalog/catalog_set.cpp:171-208 | new state, undo records and error of the specified rename, including the tombstone left when creation throws |
| `CatalogSetImpl.CatalogSet.GetEntries` | Sources/cxx-kuzu/kuzu/src/catalog/catalog_set.cpp:210-221 | exactly the names with a live entry, with that entry |
| `CatalogSetImpl.CatalogSet.GetEntryOfOID` | Sources/cxx-kuzu/kuzu/src/catalog/catalog_set.cpp:223-237 | some entry whose head has the OID and is live for the transaction, or none when there is no such name, in any map order |
| `CatalogSetImpl.CatalogSet.Serialize` | Sources/cxx-kuzu/kuzu/src/catalog/catalog_set.cpp:239-266 | the OID counter and, once per name, the committed live entries that are not functions |
| `CatalogSetImpl.CatalogSet.Deserialize` | Sources/cxx-kuzu/kuzu/src/catalog/catalog_set.cpp:268-285 | the set rebuilt from stored entries, with the OID counter kept |
| `CatalogSetImpl.CatalogSet.CommitUndo` | Sources/cxx-kuzu/kuzu/src/storage/undo_buffer.cpp:164-204 | the loop applies the records forwards, stamping the version above each recorded one |
| `CatalogSetImpl.CatalogSet.RollbackUndo` | Sources/cxx-kuzu/kuzu/src/storage/undo_buffer.cpp:171-268 | the loop applies the records backwards, unlinking the version above each recorded one |
| `CatalogSetImpl.TransactionManager.constructor` | Sources/cxx-kuzu/kuzu/src/transaction/transaction_manager.cpp:18-52 | no transaction is active and the counters are at their initial values |
| `CatalogSetImpl.TransactionManager.HasActiveWriter` | Sources/cxx-kuzu/kuzu/src/transaction/transaction_manager.cpp:151-154 | true exactly when some active transaction writes |
| `CatalogSetImpl.TransactionManager.BeginTransaction` | Sources/cxx-kuzu/kuzu/src/transaction/transaction_manager.cpp:18-52 | a writer is refused exactly when multi-writes are off and another writer is active; otherwise the begin step of the state machine |
| `CatalogSetImpl.TransactionManager.Log` | Sources/cxx-kuzu/kuzu/src/storage/undo_buffer.cpp:94-101 | the records of a catalog operation that succeeded join the transaction's undo buffer, so that operation and log together are one step of the state machine; a failed one logs nothing |
| `CatalogSetImpl.TransactionManager.CommitTransaction` | Sources/cxx-kuzu/kuzu/src/transaction/transaction_manager.cpp:54-85 | the catalog and manager together take the commit step of the state machine |
| `CatalogSetImpl.TransactionManager.RollbackTransaction` | Sources/cxx-kuzu/kuzu/src/transaction/transaction_manager.cpp:87-103 | the catalog and manager together take the rollback step of the state machine |
| `CatalogEffects.CreateThrows` | Sources/cxx-kuzu/kuzu/src/catalog/catalog_set.cpp:81-103 | a create throws that the entry exists exactly when the transaction sees a live one, a write-write conflict exactly when it sees none and the newest version is not seen, and nothing else; it then changes nothing |
| `CatalogEffects.CreateSeen` | Sources/cxx-kuzu/kuzu/src/catalog/catalog_set.cpp:81-103 | after a create the creator sees the entry with the given kind, OID and contents, the version below is logged, and nobody sees a change under another name |
| `CatalogEffects.CreateDrawsOid` | Sources/cxx-kuzu/kuzu/src/catalog/catalog_set.cpp:65-79 | the entry gets the next OID, which is used up even by a failed create |
| `CatalogEffects.DropSeen` | Sources/cxx-kuzu/kuzu/src/catalog/catalog_set.cpp:147-169 | a drop fails exactly when the name has no live entry; afterwards the dropper sees none and no other name has changed for anybody |
| `CatalogEffects.AlterSeen` | Sources/cxx-kuzu/kuzu/src/catalog/catalog_set.cpp:171-208 | an alter fails exactly when the name has no live entry; afterwards the writer sees the entry it saw with the new contents, kind and OID kept |
| `CatalogEffects.RenameSeen` | Sources/cxx-kuzu/kuzu/src/catalog/catalog_set.cpp:171-208 | a rename fails exactly when the old name has no live entry or the new one cannot be created; otherwise the writer sees the entry with kind, OID and contents under the new name and nothing under the old |
| `CatalogDamage.AlterHides` | Sources/cxx-kuzu/kuzu/src/catalog/catalog_set.cpp:171-208 | from every state meeting the invariant: after an alter of a version below the head and its commit, what another transaction that began before sees of the name changes if and only if it saw the version just above the altered one; it then sees what lies below, and its live view has changed if that version was live |
| `CatalogDamage.WriterLosesWrite` | Sources/cxx-kuzu/kuzu/src/catalog/catalog_set.cpp:171-208 | in particular a writer whose only uncommitted version heads the chain loses it to the committed alter of the version below |
| `CatalogDamage.DirtyRead` | Sources/cxx-kuzu/kuzu/src/catalog/catalog_set.cpp:171-208 | in the same case a reader that begins after the commit sees that writer's uncommitted version, and no transaction but the alterer ever sees the altered copy |
| `CatalogDamage.ReaderLosesCommit` | Sources/cxx-kuzu/kuzu/src/catalog/catalog_set.cpp:171-208 | and a reader that begins before the commit loses the newest committed version when that lies just above the altered one: it sees the older one, and its live view has changed |
| `CatalogDamage.DropDangles` | Sources/cxx-kuzu/kuzu/src/storage/undo_buffer.cpp:251-268 | after a drop over another writer's versions and the rollback of that writer, the dropper's undo buffer still holds a record of a version that is no longer in the chain |
| `CatalogDamage.RecordsLive` | Sources/cxx-kuzu/kuzu/src/storage/undo_buffer.cpp:199-204 | in every state meeting the invariant each undo record names a version of its chain, and the version directly above is the transaction's own, so the asserted next version exists |
| `CatalogDamage.RunRecordsLive` | Sources/cxx-kuzu/kuzu/src/storage/undo_buffer.cpp:199-268 | so no record dangles in any state of any safe run |
| `CatalogDamage.AlterThenCommit` | Sources/cxx-kuzu/kuzu/src/storage/undo_buffer.cpp:199-204 | the commit stamps the version above the altered one and leaves the altered copy with its transaction ID |
| `TextTheorem.RoundTripExactly` | Sources/cxx-kuzu/kuzu/src/function/cast_from_string_functions.cpp:217-643 | for every tree of lists, maps and structs over leaves that read back, parsing the printed text at its type returns the tree if and only if no list is a single null, no map key is null and no map repeats a key, at any depth |
| `TextTheorem.ParsePrinted` | Sources/cxx-kuzu/kuzu/src/function/cast_from_string_functions.cpp:871-1037 | for every such tree, parsing its printed text gives the read-back value: the tree with single-null lists emptied, or the error for a null or repeated key |
| `TextTheorem.ParsePrintedList` | Sources/cxx-kuzu/kuzu/src/function/cast_from_string_functions.cpp:295-403 | the list case of the above, by splitting the printed elements again |
| `TextTheorem.ParsePrintedMap` | Sources/cxx-kuzu/kuzu/src/function/cast_from_string_functions.cpp:427-537 | the map case of the above, including both key errors |
| `TextTheorem.ParsePrintedStruct` | Sources/cxx-kuzu/kuzu/src/function/cast_from_string_functions.cpp:547-643 | the struct case of the above, with fields found by upper-cased name |
| `TextTheorem.ReadbackExactly` | Sources/cxx-kuzu/kuzu/src/common/type_utils.cpp:176-258 | what is read back is the tree itself exactly for canonical trees |
| `TextNull.NullTextExactly` | Sources/cxx-kuzu/kuzu/src/function/cast_from_string_functions.cpp:245-263 | a text is taken for null exactly when it is blank, or the word NULL in any case with nothing but blanks around it |
| `TextNull.NullWritten` | Sources/cxx-kuzu/kuzu/src/function/cast_from_string_functions.cpp:245-263 | blanks, the word in any case, and blanks are such a text |
| `TextNull.ParseNullExactly` | Sources/cxx-kuzu/kuzu/src/function/cast_from_string_functions.cpp:850-876 | a parsed text is null exactly when it is a configured null string of its string type, or for any other type means null |
| `TextNull.SpaceChars` | Sources/cxx-kuzu/kuzu/src/function/cast_from_string_functions.cpp:174-187 | the six white space characters of the C locale |
| `TextNull.UpperChars` | Sources/cxx-kuzu/kuzu/src/common/types/types.cpp:443-449 | field names are compared with the letters a to z in upper case and everything else as it is |
| `TextFree.FreeList` | Sources/cxx-kuzu/kuzu/src/function/cast_from_string_functions.cpp:295-403 | a list written by hand, with any blanks around its words and any of them in quotes, parses to what its words are cast to, or to the first error; a single blank word is the empty list |
| `TextFree.FreeMap` | Sources/cxx-kuzu/kuzu/src/function/cast_from_string_functions.cpp:427-537 | a map written so parses to its entries in order, or to the first error of a cast or a null or repeated key |
| `TextFree.FreeStruct` | Sources/cxx-kuzu/kuzu/src/function/cast_from_string_functions.cpp:547-643 | a struct written so, its fields in any order and any of them missing or repeated, parses to the fields' casts without their quotes, missing ones null, the last of a name winning, an unknown name an error |
| `TextFree.EmptyBraces` | Sources/cxx-kuzu/kuzu/src/function/cast_from_string_functions.cpp:487-643 | braces around blanks are the empty map and the struct of nulls |
| `TextFree.OnlyBracketed` | Sources/cxx-kuzu/kuzu/src/function/cast_from_string_functions.cpp:295-643 | whatever parses to a list, map or struct opens with its bracket behind blanks and closes with it before blanks: all else is refused |
| `TextFree.KeysOfMap` | Sources/cxx-kuzu/kuzu/src/function/cast_from_string_functions.cpp:427-444 | whatever parses to a map has keys that are not null and pairwise different |
| `TextFree.ListPasses` | Sources/cxx-kuzu/kuzu/src/function/cast_from_string_functions.cpp:312-317 | the list loop passes over a quoted word whatever it holds |
| `TextFree.PartPasses` | Sources/cxx-kuzu/kuzu/src/function/cast_from_string_functions.cpp:453-485 | a key or value ends at the delimiter behind it, whatever its quotes hold |
| `TextFree.Unquoted` | Sources/cxx-kuzu/kuzu/src/function/cast_from_string_functions.cpp:195-202 | exactly one pair of quotes is dropped from a field's name or value, and nothing from a bare one |
| `TextFree.FieldScans` | Sources/cxx-kuzu/kuzu/src/function/cast_from_string_functions.cpp:600-640 | a field is scanned as its name and value without blanks and quotes |
| `TextPrint.Printed` | Sources/cxx-kuzu/kuzu/src/common/type_utils.cpp:176-258 | what is printed: the texts of the parts joined by a comma for lists, by a comma and a blank for maps and structs, entries with an equals sign, fields with name, colon and blank, in their brackets; null is no text |
| `TextJoin.SplitJoinedList` | Sources/cxx-kuzu/kuzu/src/function/cast_from_string_functions.cpp:295-343 | splitting a printed list gives back exactly the positions of its elements, or no element when its only one is empty text |
| `TextJoin.SplitJoinedMap` | Sources/cxx-kuzu/kuzu/src/function/cast_from_string_functions.cpp:453-519 | splitting a printed map gives back exactly the positions of its keys and values |
| `TextRoundTrip.SkipBody` | Sources/cxx-kuzu/kuzu/src/function/cast_from_string_functions.cpp:217-243 | bracket skipping over a balanced printed body stops at its closing bracket, one level lower for a list and at the same level for a map or struct |
| `TextScan.SplitListInRange` | Sources/cxx-kuzu/kuzu/src/function/cast_from_string_functions.cpp:295-343 | on every text the list parts are ordered positions inside the text |
| `TextScan.SplitMapInRange` | Sources/cxx-kuzu/kuzu/src/function/cast_from_string_functions.cpp:487-519 | on every text the map parts are positions inside the text |
| `TextCast.SkipWhitespace` | Sources/cxx-kuzu/kuzu/src/function/cast_from_string_functions.cpp:174-187 | the first position at or after the cursor that is not white space, or the end |
| `TextCast.TrimRightWhitespace` | Sources/cxx-kuzu/kuzu/src/function/cast_from_string_functions.cpp:189-193 | the end of the text without trailing white space |
| `TextCast.SkipToCloseQuotes` | Sources/cxx-kuzu/kuzu/src/function/cast_from_string_functions.cpp:204-215 | the next occurrence of the opening quote, or failure at the end |
| `TextCast.SkipToClose` | Sources/cxx-kuzu/kuzu/src/function/cast_from_string_functions.cpp:217-243 | the matching close position, final level and success of the specified bracket scan, on every text; the cursor only moves forward, so the recursion ends |
| `TextCast.OpenList` | Sources/cxx-kuzu/kuzu/src/function/cast_from_string_functions.cpp:295-305 | whether the text opens a list, and where its first element starts |
| `TextCast.CountListParts` | Sources/cxx-kuzu/kuzu/src/function/cast_from_string_functions.cpp:266-343 | the counting pass ends on every text and counts exactly the parts of the split |
| `TextCast.HandleElem` | Sources/cxx-kuzu/kuzu/src/function/cast_from_string_functions.cpp:279-293 | casting one part fills the next slot, or throws the error the whole cast throws |
| `TextCast.SplitListParts` | Sources/cxx-kuzu/kuzu/src/function/cast_from_string_functions.cpp:279-343 | with as many slots as the counting pass found, the splitting pass never writes past them and on success fills all of them with the cast parts |
| `TextCast.CastList` | Sources/cxx-kuzu/kuzu/src/function/cast_from_string_functions.cpp:381-403 | the two passes together compute the list parser of the round trip |
| `TextCast.ScanKeyOrValue` | Sources/cxx-kuzu/kuzu/src/function/cast_from_string_functions.cpp:453-485 | the end of the key or value, or failure |
| `TextCast.ScanMapEntry` | Sources/cxx-kuzu/kuzu/src/function/cast_from_string_functions.cpp:487-519 | one round of the map loop: key without value, key and value, or neither |
| `TextCast.CountMapParts` | Sources/cxx-kuzu/kuzu/src/function/cast_from_string_functions.cpp:487-519 | the counting pass ends on every text and counts half the parts, which alternate and are even in number on success |
| `TextCast.SplitMapAlternates` | Sources/cxx-kuzu/kuzu/src/function/cast_from_string_functions.cpp:487-519 | the parts of every map text alternate between keys and values |
| `TextCast.HandleKey` | Sources/cxx-kuzu/kuzu/src/function/cast_from_string_functions.cpp:427-444 | stores the key at the offset and rejects null and repeated keys; no other slot changes |
| `TextCast.HandleValue` | Sources/cxx-kuzu/kuzu/src/function/cast_from_string_functions.cpp:446-451 | stores the value at the offset and advances it; no other slot changes |
| `TextCast.SplitMapParts` | Sources/cxx-kuzu/kuzu/src/function/cast_from_string_functions.cpp:427-519 | the entries are zipped in order, and the pass writes one key beyond the reserved slots if and only if the text ends in a key without a value that is reached without an earlier error |
| `TextCast.BrokenOffMap` | Sources/cxx-kuzu/kuzu/src/function/cast_from_string_functions.cpp:427-519 | the text `{a=` is such a text, for every key and value type |
| `TextCast.LastKey` | Sources/cxx-kuzu/kuzu/src/function/cast_from_string_functions.cpp:487-519 | when all parts but the last are reached, a slot is missing exactly when the number of parts is odd |
| `TextCast.MapOutcome` | Sources/cxx-kuzu/kuzu/src/function/cast_from_string_functions.cpp:521-537 | the map parser throws what the splitting pass throws, and else gives its entries or the format error |
| `TextCast.CastMap` | Sources/cxx-kuzu/kuzu/src/function/cast_from_string_functions.cpp:521-537 | the two passes together compute the map parser of the round trip |
| `TextCast.ParseStructFieldName` | Sources/cxx-kuzu/kuzu/src/function/cast_from_string_functions.cpp:547-555 | the colon after the name, or failure |
| `TextCast.ParseStructFieldValue` | Sources/cxx-kuzu/kuzu/src/function/cast_from_string_functions.cpp:557-582 | the comma or brace after the value, which of the two, or failure |
| `TextCast.ScanStructField` | Sources/cxx-kuzu/kuzu/src/function/cast_from_string_functions.cpp:584-643 | name and value positions of one field after trimming and unquoting |
| `TextCast.CastStruct` | Sources/cxx-kuzu/kuzu/src/function/cast_from_string_functions.cpp:584-652 | the loop over fields computes the struct parser of the round trip, missing fields null |
| `TextCast.CopyStringToVector` | Sources/cxx-kuzu/kuzu/src/function/cast_from_string_functions.cpp:871-1037 | dispatch by type computes the parser of the round trip; it gives null exactly for texts that mean null, or for strings the configured null strings |
| `TextCast.ListToString` | Sources/cxx-kuzu/kuzu/src/common/type_utils.cpp:176-190 | the loop builds the printed list of the round trip, null elements as empty text |
| `TextCast.MapEntryToString` | Sources/cxx-kuzu/kuzu/src/common/type_utils.cpp:192-198 | key, equals sign and value of one entry in their place in the printed map |
| `TextCast.MapToString` | Sources/cxx-kuzu/kuzu/src/common/type_utils.cpp:200-219 | the loop builds the printed map of the round trip |
| `TextCast.FieldToString` | Sources/cxx-kuzu/kuzu/src/common/type_utils.cpp:221-258 | name, colon and value of one field in their place in the printed struct |
| `TextCast.StructToString` | Sources/cxx-kuzu/kuzu/src/common/type_utils.cpp:221-258 | the loop builds the printed struct of the round trip |
| `TextCast.EntryToString` | Sources/cxx-kuzu/kuzu/src/common/type_utils.cpp:176-258 | dispatch by type prints any value of the type |
| `NullMaskKernels.CopyNullMask` | Sources/cxx-kuzu/kuzu/src/common/null_mask.cpp:23-71 | on every path, for all offsets and lengths the short path can address, exactly the target bits become the (inverted) source bits, all others stay, and the result says whether a copied bit is set, before inversion on the short path and after it on the others |
| `NullMaskKernels.CopyUnaligned` | Sources/cxx-kuzu/kuzu/src/common/null_mask.cpp:73-135 | for all offsets and lengths, exactly the target bits become the (inverted) source bits and the result is true exactly when a written bit is set |
| `NullMaskKernels.ReadEntry` | Sources/cxx-kuzu/kuzu/src/common/null_mask.cpp:83-125 | shifting and masking a source word leaves exactly the wanted bits, at their target positions |
| `NullMaskKernels.WriteEntry` | Sources/cxx-kuzu/kuzu/src/common/null_mask.cpp:126-132 | only the target word changes, by merging the bits into it |
| `NullMaskKernels.ChunkCopied` | Sources/cxx-kuzu/kuzu/src/common/null_mask.cpp:73-135 | merging one aligned chunk into its word copies exactly that chunk of bits |
| `NullMaskKernels.MergeBit` | Sources/cxx-kuzu/kuzu/src/common/null_mask.cpp:126-132 | bit by bit, a merged word has source bits in the range and old bits outside |
| `NullMaskKernels.CopyAligned` | Sources/cxx-kuzu/kuzu/src/common/null_mask.cpp:36-66 | head bits, whole bytes and tail bits together copy exactly the range |
| `NullMaskKernels.CopyBytes` | Sources/cxx-kuzu/kuzu/src/common/null_mask.cpp:49-54 | the byte copy equals a copy of eight times as many bits |
| `NullMaskKernels.AnyByte` | Sources/cxx-kuzu/kuzu/src/common/null_mask.cpp:55-57 | true exactly when some bit of the bytes is set |
| `NullMaskKernels.CopyBits` | Sources/cxx-kuzu/kuzu/src/common/null_mask.cpp:27-35 | the short loop writes the bits at positions truncated to 32 bits and reports whether a source bit was set before inversion |
| `NullMaskKernels.ShortCopied` | Sources/cxx-kuzu/kuzu/src/common/null_mask.cpp:27-35 | up to position 2^32 the short loop copies exactly the range |
| `NullMaskKernels.ShortCopyTruncates` | Sources/cxx-kuzu/kuzu/src/common/null_mask.cpp:27-35 | past position 2^32, for every such range there are masks on which the short loop does not copy it |
| `NullMaskKernels.SetNull` | Sources/cxx-kuzu/kuzu/src/common/null_mask.cpp:13-21 | sets or clears exactly the bit at the position |
| `NullMaskKernels.SetBitAt` | Sources/cxx-kuzu/kuzu/src/common/null_mask.cpp:13-21 | after setting one bit, that bit has the value and every other bit is unchanged |
| `NullMaskKernels.IsNull` | Sources/cxx-kuzu/kuzu/src/include/common/null_mask.h:116-119 | reads the bit at the position |
| `NullMaskKernels.SetNullRange` | Sources/cxx-kuzu/kuzu/src/common/null_mask.cpp:164-207 | for all offsets and lengths exactly the bits of the range take the value, without an access past the last word when the range ends on a word boundary |
| `NullMaskKernels.GetMinMax` | Sources/cxx-kuzu/kuzu/src/common/null_mask.cpp:216-278 | for every range: first result true exactly when it is non-empty and all bits are set, second exactly when some bit is set |
| `NullMaskKernels.FirstPart` | Sources/cxx-kuzu/kuzu/src/common/null_mask.cpp:235-252 | the first word either shows both values or gives the base value that the rest is compared with |
| `NullMaskKernels.WholeWords` | Sources/cxx-kuzu/kuzu/src/common/null_mask.cpp:254-264 | all words equal the base value exactly when no bit of them differs from it |
| `NullMaskKernels.LastPart` | Sources/cxx-kuzu/kuzu/src/common/null_mask.cpp:265-277 | the tail decides the answer for the whole range |
| `NullMaskKernels.TestWord` | Sources/cxx-kuzu/kuzu/src/common/null_mask.cpp:216-278 | testing a masked word against zero and against the mask answers any and all over its bits |
| `NullMasks.NullMask.constructor` | Sources/cxx-kuzu/kuzu/src/include/common/null_mask.h:81-87 | enough words for the capacity, all bits clear, flag clear |
| `NullMasks.NullMask.SetNullAt` | Sources/cxx-kuzu/kuzu/src/include/common/null_mask.h:108-114 | sets one bit and keeps the guarantee that a clear flag means no bit is set |
| `NullMasks.NullMask.SetNullFromRange` | Sources/cxx-kuzu/kuzu/src/common/null_mask.cpp:156-162 | fills the range, raises the flag exactly when filling with nulls, keeps the guarantee |
| `NullMasks.NullMask.CopyFromNullBits` | Sources/cxx-kuzu/kuzu/src/common/null_mask.cpp:145-154 | copies the range; the guarantee holds afterwards if and only if the flag was set, nothing was inverted, the range is empty or longer than 3, or a source bit is set |
| `NullMasks.NullMask.CopyFrom` | Sources/cxx-kuzu/kuzu/src/include/common/null_mask.h:148-157 | copies the range from another mask, taking the fill path when that mask has no nulls; the guarantee holds exactly under the corresponding condition |
| `NullMasks.NullMask.OrWith` | Sources/cxx-kuzu/kuzu/src/common/null_mask.cpp:209-214 | every bit becomes the disjunction; the guarantee holds afterwards if and only if the flag was set or the other mask has no null |
| `NullMasks.FilledIsCopied` | Sources/cxx-kuzu/kuzu/src/include/common/null_mask.h:148-157 | filling the range equals copying it from a mask without nulls |
| `NullMasks.CopyKeepsNone` | Sources/cxx-kuzu/kuzu/src/common/null_mask.cpp:145-154 | after a copy into a mask without nulls there are none exactly when no written bit is set |
| `NestedOrder.Trichotomy` | Sources/cxx-kuzu/kuzu/src/function/comparison_functions.cpp:104-222 | for any two values of one type at any depth, exactly one of greater, smaller and equal holds |
| `NestedOrder.NullGreatest` | Sources/cxx-kuzu/kuzu/src/function/comparison_functions.cpp:104-184 | null is greater than every other value and equal to null alone |
| `NestedOrder.LeavesCompare` | Sources/cxx-kuzu/kuzu/src/function/comparison_functions.cpp:104-184 | scalars compare as their type does |
| `NestedOrder.Lexicographic` | Sources/cxx-kuzu/kuzu/src/function/comparison_functions.cpp:186-222 | two lists or structs compare as their components at the first difference do; where one ends there, the longer is greater |
| `NestedOrder.DifferenceExists` | Sources/cxx-kuzu/kuzu/src/function/comparison_functions.cpp:186-222 | there is exactly one first difference |
| `NestedOrder.TieIsEq` | Sources/cxx-kuzu/kuzu/src/function/comparison_functions.cpp:166-184 | before it the components are equal, given ordered scalars |
| `NestedOrder.EqualPairwise` | Sources/cxx-kuzu/kuzu/src/function/comparison_functions.cpp:115-164 | they are equal exactly when they have equally many components and these are equal pairwise |
| `NestedOrder.Chained` | Sources/cxx-kuzu/kuzu/src/function/comparison_functions.cpp:104-222 | greater and equal are transitive, separately and mixed, at any depth |
| `NestedOrder.EqSymmetric` | Sources/cxx-kuzu/kuzu/src/function/comparison_functions.cpp:104-164 | nested equality is symmetric |
| `NestedOrder.PartsTrichotomy` | Sources/cxx-kuzu/kuzu/src/function/comparison_functions.cpp:166-222 | the same for the parts of two lists or structs from any index on, a longer list being greater than its prefix |
| `NestedOrder.PartsChained` | Sources/cxx-kuzu/kuzu/src/function/comparison_functions.cpp:166-222 | transitivity for the parts from any index on |
| `NestedCompare.ExecuteNestedEqual` | Sources/cxx-kuzu/kuzu/src/function/comparison_functions.cpp:104-113 | equality of the two row values, nulls equal only to nulls |
| `NestedCompare.EqualsList` | Sources/cxx-kuzu/kuzu/src/function/comparison_functions.cpp:115-133 | true exactly when the list types agree and the values are equal |
| `NestedCompare.EqualsStruct` | Sources/cxx-kuzu/kuzu/src/function/comparison_functions.cpp:135-164 | true exactly when the struct types agree and the values are equal |
| `NestedCompare.ExecuteNestedGreaterThan` | Sources/cxx-kuzu/kuzu/src/function/comparison_functions.cpp:166-184 | whether the left value is greater and, when it is not, whether they are equal; a null on the left alone is greater, one on the right never smaller, and scalars compare as their type does |
| `NestedCompare.GreaterThan` | Sources/cxx-kuzu/kuzu/src/function/comparison_functions.cpp:166-222 | the order of the two row values |
| `NestedCompare.GreaterThanList` | Sources/cxx-kuzu/kuzu/src/function/comparison_functions.cpp:186-204 | the loop decides the order of the two list values, and so the order of the components at their first difference, or else the longer list |
| `NestedCompare.GreaterThanStruct` | Sources/cxx-kuzu/kuzu/src/function/comparison_functions.cpp:206-222 | the loop decides the order of the two struct values by their first different field |
| `Columns.ValueHasType` | Sources/cxx-kuzu/kuzu/src/function/vector_hash_functions.cpp:123-145 | a row of a well-formed column is a value of the column's type |
| `Columns.RowParts` | Sources/cxx-kuzu/kuzu/src/common/vector/value_vector.cpp:241-312 | a row is null exactly when flagged; the elements of a list stand side by side in the child from its offset on, the fields of a struct at the same row |
| `NestedHash.ListHashGrows` | Sources/cxx-kuzu/kuzu/src/function/vector_hash_functions.cpp:147-164 | null and empty lists have the null hash, and one more element is combined behind the hash of the list so far |
| `NestedHash.StructHashGrows` | Sources/cxx-kuzu/kuzu/src/function/vector_hash_functions.cpp:185-198 | the first field hashes alone, and one more field is combined in front of the hash of the fields so far |
| `NestedHash.LeafHash` | Sources/cxx-kuzu/kuzu/src/include/function/hash/hash_functions.h:42-49 | scalars hash as their type does, and null has the null hash |
| `NestedHash.IdHash` | Sources/cxx-kuzu/kuzu/src/function/vector_hash_functions.cpp:174-184 | a node hashes by field 0 and a relationship by field 3 |
| `NestedHash.CombineForm` | Sources/cxx-kuzu/kuzu/src/include/function/hash/hash_functions.h:16-30 | the constants of the combination and of null, and that the second hash goes in unchanged |
| `NestedHash.EqualHash` | Sources/cxx-kuzu/kuzu/src/function/vector_hash_functions.cpp:123-202 | values equal under nested equality hash equally, given equal leaves hash equally |
| `NestedHash.RowHash` | Sources/cxx-kuzu/kuzu/src/function/vector_hash_functions.cpp:123-202 | when the null structs that a row reaches hide nothing, the hash computed for the row is the recursive hash of its value |
| `NestedHash.EqualRowsHash` | Sources/cxx-kuzu/kuzu/src/function/vector_hash_functions.cpp:123-202 | so two such rows of any two columns of one type that are equal hash equally, whatever other rows hold |
| `NestedHash.NullHash` | Sources/cxx-kuzu/kuzu/src/function/vector_hash_functions.cpp:172-202 | a row whose hashed parts are null scalars and null or empty lists hashes like null, whatever its struct flags say |
| `NestedHash.NullStructsDiffer` | Sources/cxx-kuzu/kuzu/src/function/vector_hash_functions.cpp:172-202 | without that condition two null structs are equal and hash by the scalars they hide |
| `VectorHash.ComputeHash` | Sources/cxx-kuzu/kuzu/src/function/vector_hash_functions.cpp:204-226 | every selected row's hash is written at its target position and no other position changes |
| `VectorHash.HashScalars` | Sources/cxx-kuzu/kuzu/src/function/vector_hash_functions.cpp:22-63 | the same for leaf columns |
| `VectorHash.HashData` | Sources/cxx-kuzu/kuzu/src/function/vector_hash_functions.cpp:123-145 | hashing the child vector in capacity-sized chunks with one re-used selection gives every child row its hash |
| `VectorHash.HashLists` | Sources/cxx-kuzu/kuzu/src/function/vector_hash_functions.cpp:147-170 | the same for list columns |
| `VectorHash.HashEntry` | Sources/cxx-kuzu/kuzu/src/function/vector_hash_functions.cpp:147-164 | folding the child hashes of one entry gives the list's hash |
| `VectorHash.HashStructs` | Sources/cxx-kuzu/kuzu/src/function/vector_hash_functions.cpp:172-202 | the same for struct columns; a node hashes by field 0, a relationship by field 3 |
| `VectorHash.HashAllFields` | Sources/cxx-kuzu/kuzu/src/function/vector_hash_functions.cpp:185-198 | combining the field hashes through a temporary vector gives every selected struct its hash |
| `VectorHash.CombineHash` | Sources/cxx-kuzu/kuzu/src/function/vector_hash_functions.cpp:228-236 | each target position holds the combination of both hashes and others are unchanged |
| `Md5.DigestPieces` | Sources/cxx-kuzu/kuzu/src/common/md5.cpp:129-218 | for every way of cutting a message into pieces, adding the pieces and finishing gives the digest of the whole message as in sections 3.1 to 3.4 of RFC 1321 |
| `Md5.Md5State.constructor` | Sources/cxx-kuzu/kuzu/src/include/common/md5.h:31-43 | a state with nothing added |
| `Md5.Md5State.Init` | Sources/cxx-kuzu/kuzu/src/common/md5.cpp:129-137 | the empty message with the initial buffer of section 3.3 of RFC 1321 |
| `Md5.Md5State.Update` | Sources/cxx-kuzu/kuzu/src/common/md5.cpp:139-181 | the message grows by the data: buffer, counters (bit length mod 2^64) and block hold exactly the new message |
| `Md5.Md5State.Feed` | Sources/cxx-kuzu/kuzu/src/common/md5.cpp:149-181 | topping up the block, whole blocks and the rest together absorb the data |
| `Md5.Md5State.FeedBlocks` | Sources/cxx-kuzu/kuzu/src/common/md5.cpp:168-181 | whole blocks are compressed in order and the rest is kept |
| `Md5.Md5State.Final` | Sources/cxx-kuzu/kuzu/src/common/md5.cpp:183-218 | the digest of the message, padded in one or two blocks |
| `Md5.Md5State.PadTwice` | Sources/cxx-kuzu/kuzu/src/common/md5.cpp:196-214 | padding over two blocks ends in the digest of the message |
| `Md5.Md5State.PadOnce` | Sources/cxx-kuzu/kuzu/src/common/md5.cpp:204-214 | padding within one block ends in the digest of the message |
| `Md5.Md5State.Add` | Sources/cxx-kuzu/kuzu/src/include/common/md5.h:74-80 | starts a new message when none is open, then appends |
| `Md5.Md5State.Finish` | Sources/cxx-kuzu/kuzu/src/include/common/md5.h:85-93 | the digest of the open message, or the previous result when none is open |
| `Md5.CountBits` | Sources/cxx-kuzu/kuzu/src/common/md5.cpp:142-147 | two 32-bit counters with a carry hold the bit length mod 2^64 after adding any length below 2^32 |
| `Md5.Buffered` | Sources/cxx-kuzu/kuzu/src/common/md5.cpp:149-150 | the low counter alone gives the number of buffered bytes |
| `Md5.PaddedOnce` | Sources/cxx-kuzu/kuzu/src/common/md5.cpp:183-218 | below 56 buffered bytes the padded message ends in one more block, the one written |
| `Md5.PaddedTwice` | Sources/cxx-kuzu/kuzu/src/common/md5.cpp:183-218 | from 56 buffered bytes on it ends in two more blocks, the ones written |
| `Md5.LengthWritten` | Sources/cxx-kuzu/kuzu/src/common/md5.cpp:210-212 | the two counters written out are the eight length bytes of section 3.2 of RFC 1321 |
| `Md5.WordBytes` | Sources/cxx-kuzu/kuzu/src/common/md5.cpp:162-163 | the four bytes of a word stand in the block with the low-order byte first |
| `Md5.LengthValue` | Sources/cxx-kuzu/kuzu/src/common/md5.cpp:210-212 | the last eight bytes of the padded message are its bit length mod 2^64, low-order byte first |
| `Md5Example.AbcDigest` | Sources/cxx-kuzu/kuzu/src/common/md5.cpp:49-218 | the digest of the message abc is the one given in section A.5 of RFC 1321, which fixes initial state, constants, rotations, word order, padding and length |
| `Md5Example.AbcPadded` | Sources/cxx-kuzu/kuzu/src/common/md5.cpp:183-218 | the padded message abc is one block of the expected sixteen words |
| `Md5.FoldPrefix` | Sources/cxx-kuzu/kuzu/src/common/md5.cpp:139-181 | the state after k blocks depends only on those blocks |
| `Md5Transform.TransformBlock` | Sources/cxx-kuzu/kuzu/src/common/md5.cpp:49-127 | the 64 unrolled steps equal the table-driven rounds of section 3.4 of RFC 1321 |
| `Md5Transform.AuxForms` | Sources/cxx-kuzu/kuzu/src/common/md5.cpp:40-46 | the optimised auxiliary functions equal F, G, H and I of section 3.4 of RFC 1321 |
| `Md5Transform.StepIsOperation` | Sources/cxx-kuzu/kuzu/src/common/md5.cpp:46-47 | one step macro equals one operation of section 3.4 of RFC 1321 |
| `Find.FindFirst` | Sources/cxx-kuzu/kuzu/src/function/find_function.cpp:95-127 | for every non-empty needle: the least index where it occurs, or -1 exactly when it occurs nowhere |
| `Find.UnalignedFind` | Sources/cxx-kuzu/kuzu/src/function/find_function.cpp:11-42 | the same for needles shorter than the machine word: windows packed by shift and or, moved by a byte shift that drops the top byte of the width |
| `Find.AlignedFind` | Sources/cxx-kuzu/kuzu/src/function/find_function.cpp:45-58 | the same for needles as long as the machine word, loaded little-endian at every position |
| `Find.GenericFind` | Sources/cxx-kuzu/kuzu/src/function/find_function.cpp:60-91 | the same by rolling byte sums mod 2^32 |
| `Find.FirstChar` | Sources/cxx-kuzu/kuzu/src/function/find_function.cpp:97-101 | the least index of the byte, or -1 |
| `Find.FromFirstChar` | Sources/cxx-kuzu/kuzu/src/function/find_function.cpp:95-127 | a search from the first occurrence of the needle's first byte finds the first occurrence of the needle |
| `Find.WindowMatches` | Sources/cxx-kuzu/kuzu/src/function/find_function.cpp:11-42 | packed machine words are equal exactly when the needle occurs there |
| `Find.WindowMoves` | Sources/cxx-kuzu/kuzu/src/function/find_function.cpp:31-36 | shifting the word by a byte within its width and or-ing in the next character gives the packed word of the next window |
| `Find.LoadMatches` | Sources/cxx-kuzu/kuzu/src/function/find_function.cpp:50-55 | loaded machine words are equal exactly when the needle occurs there |
| `PackedWords.PackByte` | Sources/cxx-kuzu/kuzu/src/function/find_function.cpp:19-26 | byte by byte, the packed word holds the text at its top and zeros below |
| `PackedWords.PackInjective` | Sources/cxx-kuzu/kuzu/src/function/find_function.cpp:19-30 | packed texts of one length are equal as words exactly when the texts are equal |
| `PackedWords.PackMoves` | Sources/cxx-kuzu/kuzu/src/function/find_function.cpp:31-36 | byte shift and or move the packed window by one character, for every width up to eight bytes |
| `PackedWords.LoadInjective` | Sources/cxx-kuzu/kuzu/src/function/find_function.cpp:50-55 | loaded words of one width are equal exactly when the texts are equal |
| `PackedWords.ByteShift` | Sources/cxx-kuzu/kuzu/src/function/find_function.cpp:36 | a byte shift within a width moves every byte up by one and drops the top one |
| `Find.SumMoves` | Sources/cxx-kuzu/kuzu/src/function/find_function.cpp:84-90 | the sum of the next window by one addition and one subtraction |
| `Find.SumOfMatch` | Sources/cxx-kuzu/kuzu/src/function/find_function.cpp:77-83 | where the needle occurs the difference of sums is 0 and the first bytes agree |
| `ListSlice.EvaluateSlices` | Sources/cxx-kuzu/kuzu/src/expression_evaluator/lambda_evaluator.cpp:52-65 | the loop ends; in its slices every (data offset, list) pair of a list that is not null comes exactly as often as the list is selected, and nothing else; they come in the order of list offsets, no slice is longer than the capacity and all but the last are full |
| `ListSlice.FlattenPermuted` | Sources/cxx-kuzu/kuzu/src/expression_evaluator/list_slice_info.cpp:10-23 | sorting the lists keeps every (data offset, list) pair exactly as often |
| `ListSlice.FlattenSorted` | Sources/cxx-kuzu/kuzu/src/expression_evaluator/list_slice_info.cpp:10-23 | elements come in the order of their lists' offsets |
| `ListSlice.CountFlat` | Sources/cxx-kuzu/kuzu/src/expression_evaluator/list_slice_info.cpp:25-49 | an element comes once for every time its list is selected |
| `ListSlice.FlattenInOrder` | Sources/cxx-kuzu/kuzu/src/expression_evaluator/list_slice_info.cpp:10-23 | over all elements the offsets of their lists never fall |
| `ListSlice.ListEntryTracker.constructor` | Sources/cxx-kuzu/kuzu/src/expression_evaluator/list_slice_info.cpp:10-23 | all elements of the given lists remain, empty and null lists skipped |
| `ListSlice.ListEntryTracker.UpdateListEntry` | Sources/cxx-kuzu/kuzu/src/expression_evaluator/list_slice_info.cpp:38-49 | skips to the next list with elements and loses none |
| `ListSlice.ListEntryTracker.Current` | Sources/cxx-kuzu/kuzu/src/expression_evaluator/list_slice_info.cpp:91-103 | the first remaining element |
| `ListSlice.ListEntryTracker.Advance` | Sources/cxx-kuzu/kuzu/src/expression_evaluator/list_slice_info.cpp:25-36 | exactly the first remaining element is taken |
| `ListSlice.ListEntryTracker.DoneIsEmpty` | Sources/cxx-kuzu/kuzu/src/expression_evaluator/list_slice_info.cpp:74-76 | done exactly when no element remains |
| `ListSlice.ListSliceInfo.constructor` | Sources/cxx-kuzu/kuzu/src/expression_evaluator/list_slice_info.cpp:10-23 | an empty slice with all elements remaining |
| `ListSlice.ListSliceInfo.NextSlice` | Sources/cxx-kuzu/kuzu/src/expression_evaluator/list_slice_info.cpp:87-103 | the new slice and what remains together are what remained before; the slice is full or nothing remains, and it is not empty when something did |
| `ListSlice.ListSliceInfo.TakeElement` | Sources/cxx-kuzu/kuzu/src/expression_evaluator/list_slice_info.cpp:91-103 | one element moves from the remaining ones to the end of the slice |
| `ListSlice.ListSliceInfo.CurrentSlice` | Sources/cxx-kuzu/kuzu/src/expression_evaluator/list_slice_info.cpp:51-72 | the pairs held by the two selection buffers |
| `CaseEvaluator.CaseExpressionEvaluator.Evaluate` | Sources/cxx-kuzu/kuzu/src/expression_evaluator/case_evaluator.cpp:27-49 | every selected row gets the value of its first true alternative, else the ELSE value, and is written exactly once; no other row is written, early returns included, and the shared selection is as before; for children of all three kinds, under their exact conditions below |
| `CaseEvaluator.CaseExpressionEvaluator.constructor` | Sources/cxx-kuzu/kuzu/src/expression_evaluator/case_evaluator.cpp:70-80 | an evaluator for a result vector of full capacity |
| `CaseEvaluator.CaseExpressionEvaluator.FillEntry` | Sources/cxx-kuzu/kuzu/src/expression_evaluator/case_evaluator.cpp:98-105 | a row is written exactly when its mask bit was clear |
| `CaseEvaluator.CaseExpressionEvaluator.FillSelected` | Sources/cxx-kuzu/kuzu/src/expression_evaluator/case_evaluator.cpp:82-88 | the unfilled rows of a selection vector are written once and marked |
| `CaseEvaluator.CaseExpressionEvaluator.CountFilled` | Sources/cxx-kuzu/kuzu/src/expression_evaluator/case_evaluator.cpp:43-45 | the number of marked rows |
| `CaseEvaluator.FirstTrue` | Sources/cxx-kuzu/kuzu/src/expression_evaluator/case_evaluator.cpp:27-49 | the first true alternative of a row, or their number when none is |
| `CaseEvaluator.CaseOfVectors` | Sources/cxx-kuzu/kuzu/src/expression_evaluator/case_evaluator.cpp:98-105 | a row gets its own slot of the chosen vector, or the one value of a flat vector |
| `CaseEvaluator.NextAlternative` | Sources/cxx-kuzu/kuzu/src/expression_evaluator/case_evaluator.cpp:29-46 | after one more alternative the filled rows are those whose first true alternative is among those seen |
| `CaseEvaluator.CountReached` | Sources/cxx-kuzu/kuzu/src/expression_evaluator/case_evaluator.cpp:43-45 | as many marks as selected rows means that every selected row is filled |
| `CaseEvaluator.CaseExpressionEvaluator.SelectWhen` | Sources/cxx-kuzu/kuzu/src/expression_evaluator/case_evaluator.cpp:29-35 | a WHEN reports a flat condition or fills its selection with the filter of the shared one, which stays as it was |
| `CaseEvaluator.CaseExpressionEvaluator.TakeAlternative` | Sources/cxx-kuzu/kuzu/src/expression_evaluator/case_evaluator.cpp:29-46 | one alternative: afterwards exactly the selected rows whose first true alternative is among those seen are filled, rightly and once |
| `CaseEvaluator.CaseExpressionEvaluator.EvaluateColumn` | Sources/cxx-kuzu/kuzu/src/expression_evaluator/case_evaluator.cpp:27-49 | what CASE returns for a single WHEN that is any column: if it holds somewhere, THEN goes to row 0, selected or not; ELSE goes to the other rows that the column left in the selection, unless just one row is selected; nothing else is written |
| `CaseEvaluator.UnfilteredColumn` | Sources/cxx-kuzu/kuzu/src/expression_evaluator/case_evaluator.cpp:27-49 | so over an unfiltered selection with a true row, row 0 takes the THEN value whether or not it is true and every other row the ELSE value |
| `CaseEvaluator.FalseColumn` | Sources/cxx-kuzu/kuzu/src/expression_evaluator/case_evaluator.cpp:27-49 | and over a filtered selection of several rows without a true one the first row is never written and every other row gets the ELSE value once |
| `Selection.SelectionVector.constructor` | Sources/cxx-kuzu/kuzu/src/include/common/data_chunk/sel_vector.h:96-102 | a selection of the given rows, unfiltered or in its own buffer |
| `Selection.SelectionVector.Get` | Sources/cxx-kuzu/kuzu/src/include/common/data_chunk/sel_vector.h:156-163 | the row at an index of the selection |
| `Selection.Select` | Sources/cxx-kuzu/kuzu/src/include/expression_evaluator/expression_evaluator.h:81 | what CASE relies on: the ordered filter in the given selection, a flat condition reported, and the selection of the child's state unchanged |
| `Selection.FilterInOrder` | Sources/cxx-kuzu/kuzu/src/include/expression_evaluator/expression_evaluator.h:83-95 | the filter keeps the order of the rows |
| `Selection.SelectColumn` | Sources/cxx-kuzu/kuzu/src/expression_evaluator/reference_evaluator.cpp:14-31 | the loop of a bare column: it reports whether a row is true, gives the given selection only a size, and over a filtered state overwrites that state's own selection |
| `Selection.SelectionKept` | Sources/cxx-kuzu/kuzu/src/expression_evaluator/reference_evaluator.cpp:22-28 | a filtered selection of distinct rows survives if and only if every row before the last is true |
| `Selection.FirstRowLost` | Sources/cxx-kuzu/kuzu/src/expression_evaluator/reference_evaluator.cpp:22-28 | without a true row the last row takes the place of the first and nothing else changes |
| `Selection.SelectionDamaged` | Sources/cxx-kuzu/kuzu/src/expression_evaluator/reference_evaluator.cpp:22-28 | the selection 3, 5 over a column false in both rows ends as 5, 5 |
| `Selection.ColumnMeetsExactly` | Sources/cxx-kuzu/kuzu/src/expression_evaluator/reference_evaluator.cpp:14-31 | a column, whose given selection is allocated with zeros and never written to, does what CASE relies on if and only if it is flat, or true at most in row 0 with the state unfiltered or every selected row before the last true |
| `Selection.UpdateSelectedPos` | Sources/cxx-kuzu/kuzu/src/include/expression_evaluator/expression_evaluator.h:83-105 | the loop of a function without a select form: the filter when several rows are selected, else the given selection unchanged |
| `Selection.SelectedPosMeetsExactly` | Sources/cxx-kuzu/kuzu/src/include/expression_evaluator/expression_evaluator.h:83-105 | such a function does what CASE relies on, whatever the given selection holds, if and only if it is flat or more than one row is selected |
| `Selection.SelectChild` | Sources/cxx-kuzu/kuzu/src/expression_evaluator/function_evaluator.cpp:46-58 | each of the three kinds of children does what CASE relies on under its condition, and the zeros given to a column stay |
| `ConstantFold.FoldPreserves` | Sources/cxx-kuzu/kuzu/src/binder/expression_binder.cpp:83-104 | folding bottom-up gives the same value and the same sequence and random state on every row, for every expression in which no foldable part reads `currval` |
| `ConstantFold.CaseValue` | Sources/cxx-kuzu/kuzu/src/expression_evaluator/case_evaluator.cpp:27-49 | evaluated row by row, CASE is the THEN of the first alternative whose condition holds, in the state that the conditions up to it leave, and ELSE when none holds |
| `ConstantFold.CallValue` | Sources/cxx-kuzu/kuzu/src/expression_evaluator/function_evaluator.cpp:24-33 | a function gets the values of its arguments in their order, each evaluated in the state that those before it leave |
| `ConstantFold.ConstantExactly` | Sources/cxx-kuzu/kuzu/src/binder/expression_visitor.cpp:258-328 | an expression counts as constant exactly when it reads no input and calls neither nextval nor gen_random_uuid, at any depth |
| `ConstantFold.FoldsToLiteral` | Sources/cxx-kuzu/kuzu/src/binder/expression_binder.cpp:89-104 | a constant folds to the literal of its value at bind time, and nothing else becomes a literal |
| `ConstantFold.ConstantValue` | Sources/cxx-kuzu/kuzu/src/binder/expression_visitor.cpp:258-328 | a constant expression has one value whatever the row, parameters and state, and does not change the state |
| `ConstantFold.FoldConstant` | Sources/cxx-kuzu/kuzu/src/binder/expression_visitor.cpp:258-294 | folding keeps whether an expression is constant, so bottom-up and top-down decisions agree |
| `ConstantFold.RebuildPreserves` | Sources/cxx-kuzu/kuzu/src/binder/expression_binder.cpp:83-104 | folding only the parts of an expression preserves its meaning |
| `ConstantFold.FrozenCurrVal` | Sources/cxx-kuzu/kuzu/src/binder/expression_visitor.cpp:296-305 | `currval` of a literal counts as constant and is folded to its value at bind time; the result is right exactly when that value has not changed |
| `Decimal.AddExact` | Sources/cxx-kuzu/kuzu/src/function/vector_arithmetic_functions.cpp:495-505 | for in-range operands the sum, or an overflow error exactly when the true sum reaches 10^p; no intermediate overflow |
| `Decimal.SubtractExact` | Sources/cxx-kuzu/kuzu/src/function/vector_arithmetic_functions.cpp:519-529 | the same for the difference |
| `Decimal.SumScale` | Sources/cxx-kuzu/kuzu/src/function/vector_arithmetic_functions.cpp:507-514 | the result type is valid and keeps both scales; uncapped its scale is one more than the larger scale and its integer digits are the larger number of integer digits |
| `Decimal.RescaleExactly` | Sources/cxx-kuzu/kuzu/src/function/vector_arithmetic_functions.cpp:507-514 | all values of both operand types fit the result type after rescaling if and only if larger scale plus larger integer digits is at most 38 |
| `Decimal.OperandFits` | Sources/cxx-kuzu/kuzu/src/function/vector_arithmetic_functions.cpp:507-514 | all values of a type fit a type of larger scale exactly when its integer digits are no more |
| `Decimal.CarryThrows` | Sources/cxx-kuzu/kuzu/src/function/vector_arithmetic_functions.cpp:495-505 | for operand types that fit the result type (the uncapped case included), adding their largest values, rescaled, throws if and only if it is not so that one type has no integer digits and the other has scale 0 |
| `Decimal.CarryAtNine` | Sources/cxx-kuzu/kuzu/src/function/vector_arithmetic_functions.cpp:495-514 | 9 + 9 throws at DECIMAL(1, 0); 999 + 0.9 at DECIMAL(3, 0) and DECIMAL(1, 1) does not |
| `Decimal.ProductBinds` | Sources/cxx-kuzu/kuzu/src/function/vector_arithmetic_functions.cpp:555-563 | a multiplication fails to bind exactly when p1 + p2 + 1 is above 38; else its precision is p1 + p2 + 1 and its scale s1 + s2 |
| `Decimal.RescaleKeepsValue` | Sources/cxx-kuzu/kuzu/src/function/vector_arithmetic_functions.cpp:490-494 | rescaling an operand keeps the value that its digits stand for |
| `Decimal.Storage` | Sources/cxx-kuzu/kuzu/src/common/types/types.cpp:855-872 | 16, 32, 64 and 128 bits for up to 4, 9, 18 and 38 digits, the narrowest that hold them |
| `Decimal.WrapCongruent` | Sources/cxx-kuzu/kuzu/src/function/vector_arithmetic_functions.cpp:541-553 | machine results are in range and equal to the true ones modulo the range |
| `Decimal.MultiplyExact` | Sources/cxx-kuzu/kuzu/src/function/vector_arithmetic_functions.cpp:541-564 | a multiplication that binds is exact and never throws, in every storage width |
| `Decimal.FloorExact` | Sources/cxx-kuzu/kuzu/src/function/vector_arithmetic_functions.cpp:632-651 | the largest whole number not above the value, and it fits DECIMAL(p, 0) |
| `Decimal.CeilExact` | Sources/cxx-kuzu/kuzu/src/function/vector_arithmetic_functions.cpp:653-672 | the smallest whole number not below the value, and it fits DECIMAL(p, 0) |
| `Decimal.PowFits` | Sources/cxx-kuzu/kuzu/src/function/vector_arithmetic_functions.cpp:495-505 | every power of ten the guards use fits the storage width of its precision |

## Left out

- Concurrency inside one operation: mutexes are not modelled, each public operation is one step.
- The write-ahead log, checkpoint files and the buffer manager; a stored catalog is the sequence of its entries.
- Counters are unbounded numbers except that commit timestamps stay below 2^63, where transaction IDs start; commit is enabled only there.
- Sequence entries and undo records of tables; only catalog entry records are replayed.
- SnapshotStability: runs whose steps are all safe, because it is false of the others; AlterHides says for an alter exactly who is affected.
- What the source does with a dangling undo record: it follows a pointer to a version that was freed, while the model leaves the chain alone; no safe run gets there (RunRecordsLive), and no result rests on it.
- AtomicStability: replaces the undo-record replay of commit and rollback by their effect on all versions of the transaction; with the replay as written the statement is false for unsafe steps, and SnapshotStability covers the safe ones.
- Casts and printing of leaf types: a parameter `Codec`, required in the round trip to print texts that read back, are not empty, padded or taken for null, and hold no bracket, quote, comma or equals sign; a colon is allowed.
- Struct field names in the round trip hold no bracket, single quote or colon, are not padded or double-quoted, and differ when upper-cased, as the source looks them up.
- Null strings of the option: the round trip asks that the empty text, as which a null string prints, be one of them, as it is by default.
- Quoted string leaves in the round trip: the printer neither quotes nor escapes, so no inverse exists.
- FreeList, FreeMap, FreeStruct: the parts are words, bare or quoted; nested parts are covered by the round trip, without blanks and quotes added by hand.
- Unbracketed lists, ARRAY length validation, UNION casts, and other CSV options. White space is the C locale's.
- MapEntryToString: map entries that are null as a whole are not modelled.
- Text casts store into slots of values; the columnar layout of list and struct vectors is in `Columns` and is not joined to the casts.
- CopyNullMask: what it does with the result flag past position 2^32 on the short path is not stated; the copied bits are.
- `countNulls`, `resize` and masks over foreign buffers.
- Floating point: leaves are totally ordered in the order theorems, so NaN is excluded.
- The hash function of leaves: a parameter that gives equal leaves equal hashes; combining two hashes is as in the source.
- RowHash: the condition on null structs suffices but is not necessary, because hashes of different values may collide.
- ComputeHash: child vectors hold fewer than 2^32 rows, because the source counts them in 32 bits; target positions are distinct.
- HashScalars: one loop stands for the four paths of the executor by null guarantee and filter, which compute the same values.
- The hexadecimal text of an MD5 digest: the digest is its four words. Little-endian storage is assumed.
- FindFirst: needs a non-empty needle, because the source reads the needle's first byte; haystacks are shorter than 2^32.
- EvaluateSlices: takes the sorted order of lists as an argument with the contract of `std::sort`; what the lambda computes per slice is not modelled.
- CaseExpressionEvaluator.Evaluate: WHEN and THEN values are given as vectors; comparison functions with a select form are one loop that meets the contract. Each alternative owns a scratch selection in the source; here one stands for those of columns, which stay zero, and one for all others, which are written before they are read or may hold anything.
- SelectedPosMeetsExactly: the source reads the first row also of an empty selection; the model asks for a row.
- FoldPreserves: one way only, because a function may ignore an argument that was frozen; FrozenCurrVal gives the exact condition where `currval` stands alone. Functions are total: errors at bind time are not modelled. CURRENT_DATE and CURRENT_TIMESTAMP read the clock of the transaction and count as pure here, which is right because a statement is bound again in the transaction that executes it.
- DecimalDivide is not registered by the source and DecimalModulo depends on casts that are not part of this model.
- The Swift and C wrappers, extensions, function tables, parser and planner: dispatch and ownership code with no deep property.

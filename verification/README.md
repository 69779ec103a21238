# simple-dns: a verified model

A model in Dafny of the three stateful cores of simple-dns, and proofs about it:

- the transactional object store (`object_graph.c`): a graph of typed objects with
  named roots, class tags and derived indexes, an undo log, a write-ahead log, a
  snapshot with checkpoints, a version log and a mark-and-sweep collector;
- name compression, canonical name order and the tag-length-value codec
  (`dns_wire.c`);
- the EPP registry (`eppd.c`): stream framing, the bounded XML tokenizer, the stored
  domain objects and the domain lifecycle.

`dafny verify dfyconfig.toml` checks everything.

## How it is built

Each component has a specification in functions on values, theorems about it over
every input or every run, and methods or classes that do what the C code does, loop
by loop and field by field, proved equal to the specification. What the specification
functions themselves do is stated once more without them, in bytes, fields, label
lists or a grammar, so that a specification and its method cannot go wrong together.

| files | content |
|---|---|
| Bytes, Graph, Effects | bytes, readers and writers; objects, mutators, log records, redo and undo; the effect of each mutator and record, written out |
| Transactions, Gc, Replay, Wal, Snapshot, Recovery, TxnIds, LoadedFile | abort, collection, replay, log and snapshot formats, recovery and transaction ids over whole runs, loading of arbitrary files |
| HashIndex, OrderedIndex, DnsOrder, Indexes, IndexRuns | derived state and its agreement with a scan over whole runs |
| HashTable, ObjectStore, Journal, Durability | the store, its hash tables and its files, updated in place, and how they fit together |
| VersionLog, Ipv6, Ipv6Grammar | the version log; address text and the grammar that the parser accepts |
| DnsNames, Compression, CompressionTable, NameDecoder, WireWriter | names, compression, what it saves, what the decoder accepts, messages and the buffers they are written to |
| Tlv, DomainCodec, Framing, Xml, XmlScanner, XmlAttrs | EPP formats |
| Formats | the bytes of all formats, written out |
| Lifecycle, LifecycleEffects, LifecycleRuns, Registry | one step of a domain, its effect field by field, what holds over every run, the handlers |

Where a promise does not hold of the code, the model follows the code, one lemma says
exactly when it holds, and another shows it fail on an input:

- `set_str` does not maintain indexes: `SetStrExact`; `SetStrStale`.
- Keys and root names of 64 bytes or more are stored truncated and compared whole. For
  indexes: `LongFieldExact`; `LongFieldStale`. For replay: `RedoFieldExact`,
  `RedoBindExact`; `RedoFieldDiffers`, `RedoBindDiffers`. For abort: `AbortBindExact`;
  `CollisionExists`. For the snapshot: `LinkExact`, `LoadSave`; `RepeatedKeyLost`.
- Strings over 2^24 bytes are written but not read back: `RecordRead`, `LoadSave`, and
  the meaning of a recoverable transaction in `CrashAtAnyByte`; `OversizedLost`,
  `OversizedRefused`.
- A crash between the rename of a checkpoint and its new log header: `CheckpointCrash`,
  `StaleLosesCommits`; `StaleExample`.
- Names of more than 64 labels or 255 bytes are compressed as what is left of them:
  `WholeNameExact`; `NameLost`, `SixtyFiveLabels`, `LongNameLost`. A plain name of 128
  labels is read one byte short: `PlainExact`; `FullNameShort`.
- Nesting deeper than 32 elements is reported as malformed: `FindRendered`;
  `DepthLimit`.
- Attribute extraction does not track quotes, takes only letters, digits, colon and dash
  for identifier bytes, and passes over blanks but not line breaks: `AttrExact`,
  `AttrExtracted`; `QuotedDecoy`, `DottedName`, `BreakMissed`.
- A domain too long for the command buffer is acknowledged and not stored:
  `StoredExact`, `ApprovalExact`; `ApprovalLost`.

Comments in the source call an undone new field the last of its object, a trailing
root slot unused, and a domain in redemption unpublished. The first two are proved
(`UndoRun`, `RootsRestored`). The third is not claimed, because an update of the name
servers publishes again whatever the grace state is.

## Model

| member | source | states |
|---|---|---|
| `Transactions.AbortIdentity` | object_graph.c:2929-3092 | Whatever mutators a transaction ran, reverse undo plus the bulk rewind gives back the objects, their order, fields and lists in order, class tags, next id and root map of the store at begin, and nothing that survives refers to a freed object. |
| `Transactions.UndoRun` | object_graph.c:2929-3053 | Undoing all records of any run takes every extension of the final store to an extension of the starting one (the induction behind abort). |
| `Transactions.UndoStep` | object_graph.c:2929-3053 | Undoing the record of one mutator cancels that mutator, whatever was created later. |
| `Transactions.RootsRestored` | object_graph.c:3078-3085 | Dropping trailing unused root slots down to the mark restores the named slots and the root map of begin. |
| `Transactions.AbortBindExact` | object_graph.c:1604-1629 | Aborting a bind restores the store if and only if the name is under 64 bytes or its truncation does not collide with a root in use. |
| `Transactions.CollisionExists` | object_graph.c:453-462 | A concrete store and a 64-byte name for which that condition fails. |
| `Transactions.ApplyWf` | object_graph.c:1192-1652 | Every mutator keeps a well-formed store: table without duplicates, references and roots null or into the table, used root names distinct. |
| `Transactions.ApplySound` | object_graph.c:1403-1474 | Field keys of an object stay distinct as long as truncation does not make two collide. |
| `Gc.Mark` | object_graph.c:1826-1841 | The worklist marks exactly the objects that some chain of references from a used root reaches. |
| `Gc.MarkFrom` | object_graph.c:1800-1824 | Marking from one root ends (unmarked objects, then stack length, decrease), marks only reachable objects and leaves the marked set closed under references, though an object may be pushed several times. |
| `Gc.CollectWf` | object_graph.c:1826-1857 | After a collection no survivor and no root dangles. |
| `Gc.KeptOrder` | object_graph.c:1846-1852 | Survivors keep their relative order in the object table. |
| `Replay.RedoRun` | object_graph.c:2319-2485 | Replaying what a run logged takes a store that looks like its start to one that looks like its end, with the same garbage and soundness kept. |
| `Replay.RedoStep` | object_graph.c:2319-2485 | The redo of one logged record has the effect of the live mutator on any store that looks the same. |
| `Replay.RedoFieldExact` | object_graph.c:417-424 | Live set_field and its replay agree on a key if and only if it is under 64 bytes or its truncation is a new key. |
| `Replay.RedoFieldDiffers` | object_graph.c:417-424 | For every key of 64 bytes or more, a well-formed store on which the live call appends a field that its replay overwrites. |
| `Replay.RedoBindExact` | object_graph.c:1604-1629 | Live bind and its replay give the same root map if and only if the name fits, does not collide once truncated, or already names the object. |
| `Replay.RedoBindDiffers` | object_graph.c:1604-1629 | For every name of 64 bytes or more, a well-formed store on which live bind and its replay give different root maps. |
| `Replay.ViewCollect` | object_graph.c:1826-1857 | Two stores that differ only by garbage are equal after a collection on both. |
| `Wal.RecordRead` | object_graph.c:2256-2297 | Every written record is read back as itself, except that one with a string over 2^24 bytes stops the reader. |
| `Wal.EntryStable` | object_graph.c:2487-2572 | What the record reader accepts from a file it accepts identically from any longer file. |
| `Wal.ReplayTxn` | object_graph.c:2581-2660 | A transaction in a cut log is applied, and the good end moved past its commit, if and only if it is whole and recoverable; otherwise replay stops before it with nothing applied. |
| `Wal.CrashAtAnyByte` | object_graph.c:2581-2660 | For every cut after the header, replay gives exactly the state, good end and next transaction id after the longest run of whole recoverable transactions. |
| `Wal.OversizedLost` | object_graph.c:2581-2660 | For every string over 2^24 bytes, a transaction that is written and committed whole and that replay skips. |
| `Snapshot.LoadSave` | object_graph.c:1926-2250 | load accepts a file written by save if and only if no string in it is over 2^24 bytes. It returns the store with its references linked again and without unused root slots, and that is the saved store itself if and only if fields of one object that share a key are all null. |
| `Snapshot.OversizedRefused` | object_graph.c:1926-2250 | For every string over 2^24 bytes, a well-formed store that save writes and load refuses. |
| `Snapshot.BodyRead` | object_graph.c:2042-2186 | A saved object of any kind is read back as itself, exactly unless it holds an oversized string. |
| `Snapshot.LinkExact` | object_graph.c:2187-2221 | Resolving references in a second pass restores the whole table if and only if fields of one object that share a key are all null. |
| `Snapshot.LinkBodyFields` | object_graph.c:2187-2194 | Linking by key gives the first field of each key the last reference of that key and leaves its later fields null. |
| `Snapshot.RepeatedKeyLost` | object_graph.c:2187-2194 | For every key of 64 bytes or more set twice on an object: the store is well formed, is saved and loaded, and its second field comes back null. |
| `Snapshot.UsedRootsMap` | object_graph.c:1974-1982 | Leaving out unused root slots keeps the root map. |
| `Recovery.RecoveryRefines` | object_graph.c:3140-3210 | After any history of committed, aborted and automatic transactions, collections, checkpoints and crashes, in which strings are within the cap of the readers and long keys and names do not collide once truncated, reopening the files gives the live store up to garbage that collections dropped, and exactly its objects, order, next id and root map if there was none. |
| `Recovery.CommitDurable` | object_graph.c:2880-2893 | A commit keeps the files and the live store in step: the log is the committed transactions and replays to the live store. |
| `Recovery.RollbackDurable` | object_graph.c:3055-3092 | An aborted transaction leaves no trace in the files or the recovered store. |
| `Recovery.CrashDurable` | object_graph.c:3184-3210 | After a crash at any byte of the log, opening gives the store after the surviving transactions, the log is cut to exactly those, and later commits are recoverable again. |
| `Recovery.CheckpointDurable` | object_graph.c:3267-3301 | A checkpoint keeps the files and the live store in step. |
| `Recovery.CheckpointCrash` | object_graph.c:3267-3301 | A crash before the rename, or after it with the old log still whole, reopens to the live store; with the log truncated the store opens if and only if the whole new header was written; after the rename the reopened log keeps its old baseline. |
| `Recovery.StaleLosesCommits` | object_graph.c:3107-3133 | The crash window stated in full: whatever is committed after such a reopen is ignored by the next open. |
| `Recovery.StaleExample` | object_graph.c:3267-3301 | A new store, checkpointed, crashed after the rename and reopened: the object its next transaction creates is gone at the next open. |
| `Recovery.RunDurable` | object_graph.c:3140-3265 | Every reachable session is determined by its files. |
| `IndexRuns.RunAgrees` | object_graph.c:348-364 | In every reachable state of any mix of such mutators, index declarations and drops, begin, commit, abort and collection, each class list, hash entry and ordered entry holds once each object a full scan would select, and no other. |
| `IndexRuns.MutateAgree` | object_graph.c:1403-1474 | A mutator keeps every class list, hash index and ordered index equal to a scan if and only if it is not a set_str that changes what an index sees, nor a set_field under a key of 64 bytes or more that brings an index to see a string. |
| `IndexRuns.RollbackInv` | object_graph.c:3055-3092 | Aborting an open transaction returns to the store at its begin with indexes that agree. |
| `IndexRuns.FindByField` | object_graph.c:4224-4247 | find_by_field returns an object that matches, through an index or without one, if and only if a scan of the store finds a match; what matches is spelled out by MatchesExact. |
| `Indexes.FieldAgree` | object_graph.c:1403-1474 | set_field under a key that fits moves the object between exactly the right entries. |
| `Indexes.ClassChangeAgree` | object_graph.c:3865-4001 | set_class moves the object out of the lists and indexes of its old class and into those of its new one. |
| `Indexes.RebuildAgree` | object_graph.c:720-744 | Rebuilding every index from the objects gives agreement, whatever was there before. |
| `Indexes.DeclareAgree` | object_graph.c:762-784 | A new declaration starts out equal to a scan; an existing or ill-formed one changes nothing. |
| `Indexes.DropAgree` | object_graph.c:786-793 | Dropping a declaration by swap-and-pop leaves the others in agreement. |
| `Indexes.SetStrExact` | object_graph.c:1345-1363 | set_str keeps agreement if and only if no indexed field holds the string or what the index sees of it does not change. |
| `Indexes.SetStrStale` | object_graph.c:1345-1363 | A concrete store in which set_str leaves a hash index stale. |
| `Indexes.LongFieldExact` | object_graph.c:1403-1474 | set_field under a key of 64 bytes or more maintains no index: agreement survives if and only if no declared index starts to see a string under the truncated key. |
| `Indexes.LongFieldStale` | object_graph.c:1403-1474 | For every key of 64 bytes or more, a well-formed store and an index in agreement that set_field leaves stale. |
| `HashIndex.RehashSame` | object_graph.c:575-651 | Rehashing to a power of two keeps every lookup and the validity of the table, and fills exactly the room it reserves. |
| `HashIndex.MaskIsMod` | object_graph.c:560-570 | Masking a hash with a power of two minus one picks the bucket that division would. |
| `HashIndex.InsertItems` | object_graph.c:661-683 | Inserting adds one object under its value and leaves every other lookup alone, across growth. |
| `HashIndex.RemoveItems` | object_graph.c:685-690 | Removing takes one object from its value and leaves every other lookup alone. |
| `HashTable.Fnv1a` | object_graph.c:483-491 | The hashing loop computes 64-bit FNV-1a. |
| `HashTable.Table.Find` | object_graph.c:560-570 | Lookup by masked hash and linear scan finds the entry of a value if there is one. |
| `HashTable.Table.Tally` | object_graph.c:600-612 | The counting pass gives each entry its target bucket and each bucket its exact number. |
| `HashTable.Table.Distribute` | object_graph.c:614-639 | The copy pass fills the reserved room and never exceeds it. |
| `HashTable.Table.Rehash` | object_graph.c:575-651 | The five phases together redistribute every entry to the bucket of its hash. |
| `HashTable.Table.Put` | object_graph.c:661-683 | Insertion in place, with growth, changes exactly one lookup. |
| `HashTable.Table.Delete` | object_graph.c:685-690 | Removal in place changes exactly one lookup. |
| `OrderedIndex.BinarySearch` | object_graph.c:910-921 | The bisection finds the entry of a name, or where it would go. |
| `OrderedIndex.InsertOk` | object_graph.c:923-943 | Insertion keeps the array strictly sorted without empty entries and adds exactly one object under its labels. |
| `OrderedIndex.RemoveOk` | object_graph.c:945-957 | Removal keeps it so and takes exactly one object away. |
| `OrderedIndex.SuccNearest` | object_graph.c:4306-4320 | The successor is the nearest entry strictly after any probe, and there is none exactly when no entry is after it. |
| `OrderedIndex.PredNearest` | object_graph.c:4322-4338 | Likewise for the predecessor. |
| `OrderedIndex.Succ` | object_graph.c:4306-4320 | index_succ returns an object of that nearest entry. |
| `OrderedIndex.Pred` | object_graph.c:4322-4338 | index_pred returns an object of that nearest entry. |
| `OrderedIndex.Range` | object_graph.c:4340-4381 | index_range visits exactly the entries in [lo, hi], ascending. |
| `DnsOrder.NameOrder` | object_graph.c:849-866 | The name comparison is antisymmetric and zero exactly for equal label sequences (so "a" and "a." are one name). |
| `DnsOrder.NameTrans` | object_graph.c:849-866 | The name comparison is transitive, strictly where either step is strict. |
| `DnsOrder.Split` | object_graph.c:826-840 | The one-pass splitter yields the labels, at most 128. |
| `DnsOrder.CompareNames` | object_graph.c:849-866 | The comparison loops put a name before another exactly if its labels are a proper suffix of the other's or, at the rightmost labels that differ, its label is a proper prefix or smaller at the first octet that differs. |
| `VersionLog.EntriesExact` | object_graph.c:2695-2732 | A committed transaction has one entry per object that a creation, value, field, list or class record names, marked as a creation exactly if one created it, with the class of the object if it is a composite in the store and no class otherwise. |
| `VersionLog.BuildEntries` | object_graph.c:2695-2732 | The deduplicating loops compute those entries, with class and creation mark as stated there. |
| `VersionLog.ScanFile` | object_graph.c:2792-2858 | For every cut after the header, a scan yields exactly the whole leading records, their highest version and the end of the last. |
| `VersionLog.Log.Commit` | object_graph.c:2896-2919 | A commit that touched an object adds one record with version exactly one higher; any other adds none. |
| `VersionLog.Log.Reopen` | object_graph.c:3212-3262 | Opening after a cut at any byte starts over from an empty file, refuses a torn header, and otherwise keeps exactly the whole leading records. |
| `VersionLog.Log.ChangesSince` | object_graph.c:4407-4440 | store_changes_since visits exactly the entries of the records newer than the given version, oldest first. |
| `VersionLog.NewerSuffix` | object_graph.c:4407-4440 | With consecutive versions, the records newer than v are those after the first v. |
| `Ipv6.RoundTrip` | object_graph.c:3398-3526 | Parsing the formatted text of any 128-bit value returns that value. |
| `Ipv6.ParseText` | object_graph.c:3398-3478 | The text with any run of zero groups compressed, wherever it lies, or with none, parses to the groups. |
| `Ipv6.FindRun` | object_graph.c:3488-3501 | The scan finds the leftmost longest run of at least two zero groups, or that there is none. |
| `Ipv6.BestRunUnique` | object_graph.c:3488-3501 | That run is unique, so every value has one text. |
| `Ipv6.Format` | object_graph.c:3482-3526 | The formatting loop writes the groups in lower-case hexadecimal with that run as "::", and no capital letter. |
| `Ipv6.ParseAddress` | object_graph.c:3398-3478 | The parsing loops, with their two group arrays and the dotted-quad lookahead, compute the parse. |
| `Ipv6.TextShort` | object_graph.c:3482-3526 | No formatted text is longer than 39 bytes. |
| `ObjectStore.Store.NewObject` | object_graph.c:1192-1321 | Creation stores exactly the given value under the next id at the end of the table, leaves every other object and the roots alone and logs one record, or refuses an unregistered virtual list type and changes nothing. |
| `ObjectStore.Store.AssignValue` | object_graph.c:1327-1397 | set_int, set_str and set_bytes store the new value in an object of the same kind, change nothing else and log the old value. |
| `ObjectStore.Store.AssignField` | object_graph.c:1403-1474 | set_field makes the first field of the key refer to the object, or adds such a field at the end, changes no other object or field, maintains the indexes and logs what undo needs. |
| `ObjectStore.Store.Append` | object_graph.c:1491-1506 | list_append adds one item at the end of that list alone, and its record. |
| `ObjectStore.Store.AssignAt` | object_graph.c:1508-1523 | list_set replaces the item at the index and no other, or refuses an index out of range. |
| `ObjectStore.Store.InsertItem` | object_graph.c:1525-1543 | list_insert puts the item before the one at the index, the others in order, or refuses an index past the end. |
| `ObjectStore.Store.RemoveItem` | object_graph.c:1545-1562 | list_remove takes the item at the index out, the others in order, or refuses an index out of range. |
| `ObjectStore.Store.BindRoot` | object_graph.c:1604-1629 | bind makes the first used slot of the name refer to the object, or adds a slot; no object changes. |
| `ObjectStore.Store.UnbindRoot` | object_graph.c:1637-1652 | unbind frees the slot of a bound name, or changes nothing if there is none. |
| `ObjectStore.Store.Retag` | object_graph.c:3865-4001 | set_class maintains class lists and both kinds of index and logs the old class; it answers true for any composite, also when the class is unchanged and nothing is done. |
| `ObjectStore.Store.Begin` | object_graph.c:2864-2876 | begin takes the marks and changes no object; inside a transaction it is refused. |
| `ObjectStore.Store.Commit` | object_graph.c:2880-2926 | commit hands exactly the logged records to the write-ahead log and changes no object. |
| `ObjectStore.Store.ApplyUndo` | object_graph.c:2929-3053 | Undo of one record, case by case, on the fields of the store. |
| `ObjectStore.Store.Rollback` | object_graph.c:3055-3092 | abort: the reverse loop, the rewind, the shrinking of roots and the rebuild give the store of the abort specification. |
| `ObjectStore.Store.Collection` | object_graph.c:1826-1857 | gc: mark, sweep and rebuild; refused inside a transaction; otherwise an object survives, unchanged and in table order, if and only if a chain of references from a used root reaches it. |
| `ObjectStore.Store.DeclareHashIndex` | object_graph.c:762-784 | index_create: idempotent, refuses names that do not fit, starts from the class list. |
| `ObjectStore.Store.DropHashIndex` | object_graph.c:786-793 | index_drop by swap-and-pop. |
| `ObjectStore.Store.DeclareOrdIndex` | object_graph.c:1017-1039 | ord_index_create likewise. |
| `ObjectStore.Store.DropOrdIndex` | object_graph.c:1041-1048 | ord_index_drop likewise. |
| `ObjectStore.RebuildAll` | object_graph.c:348-364 | The rebuilding loops recompute all derived state. |
| `ObjectStore.AppliedInv` | object_graph.c:1097-1113 | What a mutator of the store class does keeps the index invariant of whole runs. |
| `Journal.WriteTxn` | object_graph.c:2299-2313 | The writing loop appends begin mark, records and commit mark. |
| `Journal.ReplayLog` | object_graph.c:2581-2660 | The replay loop with its record buffer computes the replay that the crash theorem is about. |
| `Journal.SaveStore` | object_graph.c:1926-1989 | The writing loops produce the snapshot format. |
| `Journal.LoadStore` | object_graph.c:2042-2250 | The reading loops with their bounds checks accept and link exactly what the load specification does. |
| `Journal.Disk.OpenStore` | object_graph.c:3140-3210 | Opening loads the snapshot, replays the log, cuts a torn tail or starts a new log, and fails exactly when either file is refused. |
| `Journal.Disk.Checkpoint` | object_graph.c:3267-3301 | A checkpoint writes the next generation and starts the log over. |
| `Durability.CommitIsStep` | object_graph.c:2880-2893 | Committing the open transaction of the store and appending its records to the log is the commit step of which recovery is proved. |
| `Durability.RollbackIsStep` | object_graph.c:3055-3092 | Rolling it back is the rollback step of which recovery is proved. |
| `Durability.AutoIsStep` | object_graph.c:1097-1113 | A mutator outside a transaction commits its one record at once, or leaves the files alone when it logs none. |
| `Effects.ApplyEffect` | object_graph.c:1192-1652 | The effect of every mutator on objects, table order, next id and roots, field by field: what it stores, what it refuses, and that nothing else changes. |
| `Effects.RedoEffect` | object_graph.c:2319-2485 | The effect of every replayed record in the same terms: a created object holds the logged value, with references to missing objects replaced by null. |
| `Wal.StrayEnds` | object_graph.c:2581-2660 | A commit or record outside a transaction, or the commit of another one than was begun, ends the log: what stands before it is replayed and nothing from there on, whatever follows. |
| `Wal.NextTxnAbove` | object_graph.c:2620-2630 | After replay the next transaction id is one above the greatest id replayed, or as it was. |
| `TxnIds.CrashIds` | object_graph.c:2581-2660 | Reopened after a cut at any byte, the log continues one above the last id it recovered. |
| `TxnIds.RunIds` | object_graph.c:2864-2893 | Over every run of fewer than 2^32 - 2 events the transactions in the log have strictly ascending ids, all below the next one. |
| `LoadedFile.LoadedWf` | object_graph.c:2042-2250 | Whatever bytes load as a snapshot, the store has no dangling reference or root; it is well formed if and only if no object id and no root name occurs twice and the next id is not zero. |
| `VersionLog.EntriesOrder` | object_graph.c:2695-2732 | Entries stand in the order in which their objects were first touched. |
| `HashIndex.InsertLoad` | object_graph.c:655-683 | The table keeps at least as many buckets as entries: it starts with eight and doubles when it is full. |
| `Indexes.DeclareEffect` | object_graph.c:762-784 | A declaration is added behind the others exactly if its names are non-empty, under 64 bytes and it is new. |
| `Indexes.DropEffect` | object_graph.c:786-793 | Dropping a declaration takes exactly it away. |
| `IndexRuns.MatchesExact` | object_graph.c:4224-4247 | A match is a composite of the class whose first field of that key refers to that very string. |
| `DnsOrder.CanonicalOrder` | object_graph.c:849-866 | A name is before another if and only if its labels are a proper suffix of the other's or, at the rightmost labels that differ, its label is a proper prefix or smaller at the first octet that differs. |
| `DnsOrder.LabelExact` | object_graph.c:849-866 | A label is before another if and only if it is a proper prefix of it or smaller at the first octet that differs. |
| `DnsNames.LabelsOfJoin` | object_graph.c:826-840 | The labels of a name are what stands between its dots, without an empty last one, and at most 128. |
| `DnsNames.FoldExact` | dns_wire.c:940-973 | Lower-casing identifies exactly the texts that differ in the case of ASCII letters only. |
| `Ipv6.HexCanonical` | object_graph.c:3482-3526 | A group is written without leading zeros in digits 0-9 and a-f. |
| `Ipv6.TextBytes` | object_graph.c:3482-3526 | No byte of a formatted address is a capital letter, or anything but a digit, a lower-case hexadecimal letter or a colon. |
| `Ipv6Grammar.ParserExact` | object_graph.c:3398-3478 | The parser returns groups for a text if and only if the text is a written address with that meaning: one to four hexadecimal digits a group in any case, at most one "::" for one zero group or more, and optionally a dotted quad for the last two groups. |
| `Ipv6Grammar.Accepts` | object_graph.c:3398-3478 | Every written address is parsed to its meaning. |
| `Ipv6Grammar.OnlyAccepts` | object_graph.c:3398-3478 | Whatever is parsed is a written address. |
| `Formats.LogBytes` | object_graph.c:2299-2313 | The log starts with POGW, version 1 and the generation; a transaction stands between begin and commit marks with its id. |
| `Formats.CreateBytes` | object_graph.c:2256-2297 | The bytes of every creation record. |
| `Formats.ChangeBytes` | object_graph.c:2256-2297 | The bytes of value and field records. |
| `Formats.ListBytes` | object_graph.c:2256-2297 | The bytes of list records. |
| `Formats.NameBytes` | object_graph.c:2256-2297 | The bytes of root and class records. |
| `Formats.BodyBytes` | object_graph.c:1926-1989 | The bytes of composites and lists in a snapshot. |
| `Formats.SnapshotBytes` | object_graph.c:1926-1989 | A snapshot starts with POGE, version 4, generation, next id and object count, holds the objects with id and kind, and ends with the roots in use. |
| `Formats.VersionBytes` | object_graph.c:2737-2756 | The bytes of the version log and its records. |
| `Formats.FnvOfA` | object_graph.c:483-491 | The hash of the text "a" is the published FNV-1a value. |
| `Compression.RunDecodes` | dns_wire.c:437-513 | After any run of successful appends since a reset, decoding at every owner-name offset gives the lower-cased name of the first 64 labels of its first 255 bytes, and the offset just past it. |
| `Compression.WholeNameExact` | dns_wire.c:437-446 | That is the whole name if and only if the name has at most 64 labels and nothing but dots past its first 255 bytes. |
| `Compression.NameLost` | dns_wire.c:437-492 | Every name outside that condition whose labels can be written is written, and decodes to another name. |
| `Compression.SixtyFiveLabels` | dns_wire.c:437-446 | Sixty-five labels of one byte: written, and read back as another name. |
| `Compression.LongNameLost` | dns_wire.c:437-446 | Five labels of 59 bytes: written, and read back as another name. |
| `Compression.EmitSpells` | dns_wire.c:437-492 | A successful emission spells its name through labels and pointers that each target an earlier label start, and every registered suffix is spelled where it points. |
| `Compression.DecodeTail` | dns_wire.c:348-388 | The decoder reads exactly what is spelled, and 128 steps suffice for 64 labels with a pointer before each. |
| `Compression.EmitShort` | dns_wire.c:437-492 | A compressed name is never longer than the plain one. |
| `Compression.PlainExact` | dns_wire.c:323-346 | An uncompressed name of labels that fit decodes to the whole name with its exact end if and only if it has fewer than 128 labels and nothing but dots past its first 255 bytes. |
| `Compression.FullNameShort` | dns_wire.c:323-388 | A hundred and twenty-eight labels of one byte fill the buffer exactly and are read back with the end one byte short. |
| `WireWriter.Writer.Reset` | dns_wire.c:429-431 | A reset forgets all sources. |
| `WireWriter.Writer.NameToWire` | dns_wire.c:437-492 | The emission loop writes, at its offset and nowhere else, the bytes of the emission whose form, room and registered suffixes EmitWrites, EmitRoom and EmitRegisters state, also when it runs out of room. |
| `WireWriter.Writer.AppendRr` | dns_wire.c:494-513 | One record appended keeps every earlier owner name decodable; on failure the message so far is untouched. |
| `WireWriter.ReadName` | dns_wire.c:348-388 | The decoding loop computes the decoder. |
| `DnsNames.CanonOrder` | dns_wire.c:940-973 | The canonical comparison is a total order, without regard to case, on the first 255 bytes of names: zero exactly for the same labels of those, and of the whole names if nothing but dots follows; its limit of 128 labels never cuts. |
| `DnsNames.CanonCmp` | dns_wire.c:940-973 | The comparison loops put a name before another exactly if, over the lower-cased labels of the first 255 bytes, its labels are a proper suffix of the other's or its label is before at the rightmost that differ. |
| `DnsNames.SameName` | dns_wire.c:462-464 | Joined names are equal without regard to case exactly when their labels are. |
| `DnsNames.TokensOfJoin` | dns_wire.c:437-446 | Splitting a joined list of labels gives the list back. |
| `DnsNames.CutExact` | dns_wire.c:437-446 | Copying a name into the 256-byte buffer keeps its labels if and only if nothing but dots is cut off. |
| `Tlv.ReadEncoded` | dns_wire.c:538-601 | A blob reads back as the items written. |
| `Tlv.AcceptedIsEncoded` | dns_wire.c:581-601 | Whatever framing is accepted is the encoding of the items it yields. |
| `Tlv.PutItem` | dns_wire.c:545-557 | tlv_put writes one item or, when it does not fit, nothing. |
| `Tlv.HexRoundTrip` | dns_wire.c:46-63 | Hexadecimal text of a blob decodes to the blob, as far as there is room. |
| `Tlv.DecodeHex` | dns_wire.c:55-63 | The decoding loop, with what strtol makes of any two characters. |
| `CompressionTable.EmitWrites` | dns_wire.c:437-492 | A successful emission writes its labels up to the longest suffix that stands in the table, up to case, and then a pointer to the first source of that suffix, or the root if there is none. |
| `CompressionTable.EmitRoom` | dns_wire.c:437-492 | It succeeds if and only if exactly those bytes fit. |
| `CompressionTable.EmitRegisters` | dns_wire.c:437-492 | It registers exactly the suffixes it starts with a label, where they start, while the table has room and they start below offset 0x4000. |
| `CompressionTable.KnownTwoBytes` | dns_wire.c:462-477 | A name that the table knows takes exactly two bytes. |
| `CompressionTable.RunCompresses` | dns_wire.c:437-513 | In any run of appends an owner name first appended below offset 0x4000 while the table had room takes two bytes whenever it is appended again, in any case. |
| `NameDecoder.DecoderExact` | dns_wire.c:348-388 | On any bytes, a name decodes to a text and an end if and only if a trail of at most 128 labels and strictly backward pointers spells that text within the room there is and ends, at a root or at the step limit, with that offset past its first pointer or its end. |
| `Formats.RecordBody` | dns_wire.c:494-513 | After the owner name stand type, class, time to live, length and data, each high byte first. |
| `Formats.ItemBytes` | dns_wire.c:545-557 | An item is its tag, a big-endian length and the value. |
| `Formats.HexBytes` | dns_wire.c:46-53 | Stored text is lower-case hexadecimal, the high digit first. |
| `Tlv.PairIsNumber` | dns_wire.c:55-63 | Two characters decode to what strtol in base 16 reads in them, blanks and signs included, cut to a byte. |
| `DomainCodec.StoredRoundTrip` | eppd.c:1100-1245 | Every well-formed domain that encodes is decoded from its stored text unchanged. |
| `DomainCodec.ForwardCompatible` | eppd.c:1154-1245 | Inserting any number of unknown-tag items anywhere leaves the decoded domain unchanged. |
| `DomainCodec.EncodeDomain` | eppd.c:1100-1152 | Field by field into the buffer: success exactly if the whole blob fits, with exactly its bytes. |
| `DomainCodec.BlobLength` | eppd.c:1100-1152 | The exact number of bytes a domain takes. |
| `DomainCodec.DecodeDomain` | eppd.c:1154-1245 | The decoding loop computes the decoder, and whatever it accepts fits the struct. |
| `Framing.StreamReceived` | eppd.c:327-392 | Every sequence of non-empty payloads, framed, is received in order and ends cleanly. |
| `Framing.Reader.ReadFrame` | eppd.c:352-374 | What a read returns depends only on the bytes the peer sends, not on how reads split them; the buffer is never full without a complete or malformed frame. |
| `Framing.Reader.ReadAll` | eppd.c:352-374 | Repeated reads return the payloads of the byte stream in order, for any split. |
| `Framing.WriteFrame` | eppd.c:376-392 | A frame is written whole or not reported as written. |
| `Xml.FindRendered` | eppd.c:574-615 | On the text of any forest, with comments, CDATA, processing instructions and quoted attributes, the search returns the first direct child of a name with its exact range, or malformed exactly if an element before or at it nests deeper than 32. |
| `Xml.DepthLimit` | eppd.c:529-562 | Thirty-two nested elements are found, thirty-three are malformed. |
| `Xml.HitExact` | eppd.c:574-615 | The range found is the rendered content of the child, and what follows is the rendered rest. |
| `Xml.SkipRendered` | eppd.c:529-562 | Skipping content finds its matching close tag exactly when the nesting stays within the limit. |
| `Xml.EnumerateRendered` | eppd.c:574-615 | Repeated searches from where the last ended visit all direct children of the name, in order, each with exactly its content. |
| `Xml.LeafRead` | eppd.c:429-519 | What the tokenizer makes of text, comments, CDATA, processing instructions and self-closing tags. |
| `XmlScanner.ScanTag` | eppd.c:429-519 | The tokenizer loops compute the next tag. |
| `XmlScanner.ScanToClose` | eppd.c:529-562 | One loop per level and one call per nested element compute the skip. |
| `XmlScanner.SearchChild` | eppd.c:574-615 | The search loop computes the search. |
| `XmlScanner.SearchChildAttr` | eppd.c:670-715 | The search with an attribute selects the very element of the plain search, on every text, and reads the attribute from its opening tag. |
| `XmlAttrs.AttrExact` | eppd.c:630-663 | On any rendered opening tag an attribute without a line break at its equals sign is extracted with its own value if and only if no earlier place passes for it or the first that does reads the same. |
| `XmlAttrs.SourceExact` | eppd.c:630-663 | If the names in the tag are made of identifier bytes, the place read is that of the first attribute recognised by the name or the first quoted value that holds a decoy, whichever is earlier; the tag name and longer attribute names are never mistaken for it. |
| `XmlAttrs.AttrExtracted` | eppd.c:630-663 | In such a tag the attribute itself is read if and only if no value before it holds a decoy, and then exactly its value is extracted, cut to the room there is. |
| `XmlAttrs.AttrAbsent` | eppd.c:630-663 | Without an attribute recognised by the name nothing passes if and only if no value holds a decoy, and then the answer is empty. |
| `XmlAttrs.ChildAttr` | eppd.c:670-715 | On the text of any forest the search with an attribute gives that attribute of the first child of the name, under the same condition. |
| `XmlAttrs.StatusAttr` | eppd.c:3107-3144 | The attribute "s" of a domain:status element is extracted whatever its value, though the letter occurs in the element name. |
| `XmlAttrs.QuotedDecoy` | eppd.c:630-663 | A tag in which the extraction takes quoted text for the attribute. |
| `XmlAttrs.DottedName` | eppd.c:630-663 | A tag in which the end of a longer name with a dot is taken for the attribute. |
| `XmlAttrs.BreakMissed` | eppd.c:630-663 | A line break before the equals sign hides the attribute. |
| `LifecycleRuns.SponsorSafety` | eppd.c:3662-3823 | The sponsor changes only by approval of the losing registrar or the sweep after the pending window, to a registrar whose earlier request matched the authInfo and was pending ever since. |
| `LifecycleRuns.BirthBehind` | eppd.c:2364-2455 | crDate and roid of a live domain are those of the create command it stems from, unchanged since. |
| `LifecycleRuns.DisappearanceSafety` | eppd.c:3244-3307 | A domain disappears only by its sponsor's delete inside a live grace window, or by the sweep once the redemption window of its latest delete has elapsed with the domain in redemption ever since. |
| `LifecycleRuns.ExpiryAccounting` | eppd.c:3984-4063 | In every reachable state exDate is crDate plus 365 days times (1 + renewed years + auto-renewals + approved transfers), counting the steps that are stored, in 32-bit arithmetic, also when one sweep both renews and approves. |
| `Lifecycle.StoredExact` | dns_wire.c:1757-1768 | A changed domain is stored if and only if the SET command with its key and its hexadecimal text is shorter than 8192 bytes; otherwise nothing is sent. |
| `Lifecycle.ApprovalExact` | eppd.c:3767-3820 | An approval that is answered with success makes the requesting registrar the sponsor, adds a year to exDate, sets status clientApproved and the transfer grace window and keeps every other field, if and only if the command fits; otherwise the stored domain stays as it was. |
| `Lifecycle.ApprovalLost` | eppd.c:3767-3820 | A stored domain with a pending transfer whose approval is answered with success and not stored. |
| `LifecycleRuns.SponsorNamed` | eppd.c:3662-3823 | A domain in a run always has a sponsor. |
| `LifecycleRuns.RequestBehind` | eppd.c:3706-3741 | A pending transfer stems from a request of another registrar with the authInfo of that moment. |
| `LifecycleRuns.DeleteBehind` | eppd.c:3292-3300 | A redemption stems from a delete by the sponsor and keeps the end that delete set. |
| `LifecycleRuns.NeverCorrupt` | eppd.c:3044-3063 | Commands never store an object they cannot read again. |
| `LifecycleRuns.TickFacts` | eppd.c:3984-4063 | What one sweep can do to a domain: purge only after redemption, approve only an overdue transfer, extend by what it counts. |
| `Registry.Registry.CreateDomain` | eppd.c:2364-2455 | create, with its refusals and result codes, on the stored text; a domain too long for the SET command is acknowledged and not stored; no other name changes. |
| `Registry.Registry.UpdateDomain` | eppd.c:3044-3242 | update: authorization, list edits, registrant, authInfo, DS data and restore; the old text stays, unreported, when the SET command is too long. |
| `Registry.Registry.DeleteDomain` | eppd.c:3244-3307 | delete: immediate inside a grace window, otherwise redemption; refused while a transfer is pending; the same limit of the SET command. |
| `Registry.Registry.RenewDomain` | eppd.c:3318-3401 | renew: the stated date must match, at least one year, grace state cleared; the same limit. |
| `Registry.Registry.TransferRequest` | eppd.c:3706-3765 | transfer request: refusals in order, authInfo match, pending; the same limit. |
| `Registry.Registry.TransferAnswer` | eppd.c:3767-3820 | transfer cancel, reject and approve, each by the right party only, with the effect of RefusalEffect and ApproveEffect; the same limit. |
| `Registry.Registry.TickOne` | eppd.c:3984-4063 | One domain of the sweep, with the effect of TickEffect on the stored text; no other name changes. |
| `Registry.Registry.TickScan` | eppd.c:4065-4070 | The sweep visits the first 512 listed names in turn, or all if there are fewer, each at its own time; every name ends up as its visits leave it, and the others stay. |
| `Formats.DomainTags` | eppd.c:1100-1152 | The tags of the single fields, which of them are left out when empty, and their order. |
| `Formats.TransferTags` | eppd.c:1137-1152 | The tags of the grace and transfer fields. |
| `Formats.ListTags` | eppd.c:1108-1136 | The tags and bytes of statuses, name servers and DS data, one item each, in order. |
| `Formats.DateBytes` | eppd.c:1154-1245 | A date is four bytes, high byte first; of any other length it reads as zero. |
| `Formats.FrameExact` | eppd.c:327-392 | A frame is read with a payload if and only if the bytes start with the big-endian total length and that payload, at most 65535 bytes. |
| `Xml.OpenEnded` | eppd.c:429-519 | A tag that runs to the end of the input counts as opened there, but is an error inside a quoted value. |
| `LifecycleEffects.CreateEffect` | eppd.c:2364-2455 | A create stores a domain with every field as written out, or is refused if the name is taken. |
| `LifecycleEffects.MissingEffect` | eppd.c:3044-3063 | Commands on a missing or unreadable domain store nothing, with their codes. |
| `LifecycleEffects.UpdateEffect` | eppd.c:3044-3242 | An update thins and grows name servers, statuses and DS data exactly as its lists say, within sixteen entries, and sets registrant, authInfo and the restored grace state; no other field changes. |
| `LifecycleEffects.DeleteEffect` | eppd.c:3244-3307 | A delete inside a live grace window removes the domain at once; otherwise it starts the redemption window and changes nothing else. |
| `LifecycleEffects.RenewEffect` | eppd.c:3318-3401 | A renew adds its years, at least one, to exDate and clears the grace state, if the stated date matches. |
| `LifecycleEffects.RequestEffect` | eppd.c:3706-3765 | A request by another registrar with the authInfo becomes pending with its name and time; the refusals in order. |
| `LifecycleEffects.RefusalEffect` | eppd.c:3767-3786 | Cancelling or rejecting changes the transfer status only. |
| `LifecycleEffects.ApproveEffect` | eppd.c:3787-3820 | An approval hands the domain to the requester with every field as written out. |
| `LifecycleEffects.ApproveFields` | eppd.c:3787-3820 | The same field by field for an approval that is stored. |
| `LifecycleEffects.TickEffect` | eppd.c:3984-4063 | A sweep purges an elapsed redemption; otherwise it renews an expired domain or closes an elapsed window, approves an overdue transfer, and stores the result if it fits. |
| `LifecycleEffects.OverdueFields` | eppd.c:4018-4028 | An overdue transfer that is stored makes the requester the sponsor. |
| `LifecycleEffects.ApprovalTransfers` | eppd.c:3706-3820 | In any run, a stored approval, by the losing registrar or by the sweep, makes the sponsor the registrar of the request that has been pending ever since. |
| `LifecycleEffects.RedemptionEnds` | eppd.c:3984-4063 | In any run, a sweep that finds a domain in redemption past the end of its window removes it. |
| `Lifecycle.SetLenExact` | dns_wire.c:1757-1768 | The limit is on the very bytes of the SET command with its key and hexadecimal text. |
| `Registry.VisitedOnce` | eppd.c:4065-4070 | A name that is listed once is swept exactly once. |

## Left out

- Pointers are ids of one store; virtual-list transients (id 0) are never stored, as the callers of the store guarantee.
- Object ids, list indexes, counts and string lengths are below 2^32, and files are written little-endian, as on the hosts the formats are used on.
- C strings are byte sequences up to their terminator; a length-prefixed string with a zero byte inside, which the writers never produce, is not cut on reading.
- Allocation failure, I/O errors, fsync, rename errors, locks and threads: files are byte sequences and public calls are atomic steps.
- Growth of arrays: only the capacities of hash buckets are modelled.
- The class in `HashTable` and the index values used by `ObjectStore` are two forms of one table: `ObjectStore` applies the index functions that the class is proved to compute.
- `dump`, virtual-list registration, scratch objects and the CIDR and DNS generators.
- IPv4 values of their own: only the dotted quad at the end of an IPv6 text is modelled, and the formatter never writes one.
- Early stop of a version-log query by its callback, and a version counter past 2^32.
- Query callbacks that change the store while a class is being visited.
- Message parts other than owner names: record data and the question section are bytes the caller supplies, and a failed append must be dropped by the caller, because suffixes registered on the way stay registered.
- TLS, sockets, the RESP client apart from the length limit of its command buffer, signatures, EDNS, SVCB and ZONEMD codecs.
- EPP: XML entity decoding, response building, login, hello, poll, fees, hosts, contacts, organisations, publication into zones; the parsed parameters of a domain command are the inputs of the model, and calendar dates are an uninterpreted function of time.
- Commands of different sessions are serial; the code does not serialise them.
- The listing of keys for the sweep is an input: it cuts keys to 255 bytes and may list one twice, which the sweep takes as it comes.
- Bytes outside a buffer: of a blob of exactly 4096 bytes the terminator of its text lies behind the text buffer; the command that would carry it is refused for its length in any case.
- mdnsd.c, apid.c, certd.c, doqd.c, sandbox.c, the dashboard and the fuzzing code.

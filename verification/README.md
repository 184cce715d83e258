# The LLD storage engine and `base_uint`, modelled and proved

This project models the Lower Level Database (LLD) of Nexus and the multi-word integers of
its cryptography layer in Dafny, and proves what they promise. `dafny verify dfyconfig.toml`
checks everything.

## What is modelled

**Sector databases and their transactions.** A `SectorDatabase` appends records to sector
files and finds them through a keychain; several keys may point to one sector.
`SectorDatabase.dfy` works on the bytes of the files (size prefixes, positions, in-place
updates, file rollover) and on keychain buckets (`SectorKeys.dfy`), and proves that they stand
for a record-level store (`Store.dfy`), whose keychain has buckets of slots as well
(`Chain.dfy`): an erase takes the newest copy of a key only. `Transaction.dfy` is the
transaction object: what a run of calls leaves in it, what recovery rebuilds from the journal,
and the program of record steps a commit performs in the order of the C++ containers
(`KeyOrder.dfy`). `Phases.dfy` gives the passes of a commit in closed form, the chains of links
and their index cache included, and `CommitMeaning.dfy` says what a committed transaction means for a single
key, by the calls made in it.

**Redo.** `Redo.dfy` says what an interrupted commit leaves behind (a beginning of its records,
the next write perhaps torn) and which transactions may be committed again on that;
`RedoSoundness.dfy` proves it, `RedoCopies.dfy` that the keychain's slots come out alike, too, and
`RedoLimits.dfy` and `RedoErases.dfy` prove that all other transactions may not.

**Crashes.** `Journal.dfy` is the journal file byte by byte. `Protocol.dfy`,
`CrashAtomicity.dfy` and `Progress.dfy` are the multi-database protocol (checkpoint all, commit
all, release all, recovery) as a state machine in which a crash may happen between any two
steps, inside a record write and at any byte of a journal; `Necessity.dfy` shows its condition to be
exact, and `GlobalTxn.dfy` is the same protocol as calls on database objects, whose disks go through the
protocol's states (`CommitTrace.dfy`). `DiskBuffer.dfy` is
the buffered write mode with its writer thread.

**Caches.** `NodeList.dfy` is the doubly linked list on the heap and what it holds as a
plain sequence. `BinaryLru.dfy` and `KeyLru.dfy` are the two caches on it, each proved to do on the
heap what a short function does on that sequence, and `CachedDatabase.dfy` puts the first in front of a
sector database.

**Keychains.** `Keychain.dfy` and `SearchTree.dfy` are one bucket of a `BinaryHashMap` and of a
`BinaryHashTree`; `BinaryHashMap.dfy` and `BinaryHashTree.dfy` are the files behind them. `TornSlot.dfy` says
what a crash inside the write of an entry does.

**Overlays.** `Overlay.dfy` is the memory layer of the contract, register and ledger
databases; `Events.dfy` the event lists of the ledger.

**Integers.** `BaseUint*.dfy` prove the loops of `base_uint` at every word count against
arithmetic modulo 2^BITS; `Compact.dfy` covers the compact encoding and its `CBigNum`
counterpart; `Words.dfy` is the positional arithmetic below.

A hash (XXH64) is a parameter: a function from keys to numbers. The clock is a parameter of the
methods of `KeyLRU`. I/O is taken to succeed, except that a crash may cut a write short.

## What the proofs found

These hold of the code as it is; each is proved, with its exact condition where one is stated.

- A disk read skips a prefix sized for the whole sector, so a record whose length and whose
  sector length have prefixes of different width (252 bytes, or 65533 to 65535) comes back
  without its first bytes (`SectorDatabase.Database.Get`).
- The journal replay does not take a written key out of the erase set, the live calls do: the
  rebuilt transaction is the original one exactly when no erased key was written again
  (`Transaction.ReplayExact`).
- Committing again after an interruption gives the same store for exactly these transactions
  (`RedoErases.RedoExact`): those that erase nothing and are `Redo.Redoable`, those that erase
  one key and do nothing else but perhaps links that move nothing, and those that link to a key they erase,
  which cannot be committed at all (`RedoErases.ErasedTarget`). `Redoable` has three parts. No link takes
  its entry from an unmarked key that another link moves. Of two keys written with different data of one length, the earlier one is
  marked if the later one is, and marked or moved by a link if the later one is moved. And a written key
  that a link moves has empty data, or its new sector's key is marked, or that key is written, too, and not
  before it with different data of that length. So a key both written and marked, or both written and
  linked, is harmless in many transactions and harmful in others (`RedoLimits.WrittenAndMarked`,
  `RedoLimits.WrittenAndLinked`).
- A transaction outside that condition can be lost for good: there is a run that wrote its whole
  journal, crashed during the commit, recovered, and finished without its new state.
  So can every transaction that writes an erased key again, if it can be committed at all
  (`Necessity.DurableExact`, `Necessity.RewriteLost`).
- A journal cut inside a record makes the stream throw, and so does a whole journal that holds a key or record
  above 32 MB. Nothing catches the exception and the journal stays, so every restart throws
  again: no run, with or without further crashes, ends from there (`Progress.RunFinishes`), and
  one byte of a journal is enough to get there (`Progress.SomeRunStuck`). All other crashes can be
  recovered from.
- The journal's size is kept in 32 bits, so that a journal of 4 GB or more is never taken for committed
  (`Journal.WholeCommits`).
- Erasing a hashmap key brings an old copy back when an earlier write had taken a newer emptied
  slot (`Keychain.AbsentAfterErase`, `Keychain.ErasedRunComesBack`). Redo of an erase is then unsound even
  on its own: it is sound exactly when the key had a single copy (`RedoErases.SingleCopyExact`,
  `RedoErases.TwoCopiesUnsound`).
- The index pass of a commit does not tell the cache: a key that is pointed to another sector keeps
  its old cached record, unless what is cached is the new one already (`CachedDatabase.CachedDatabase.Link`). Nor does
  the pass of bare keys: a cached record of such a key stays readable (`CachedDatabase.CachedDatabase.Mark`).
- Links are set in the byte order of their keys, whatever the order of the calls: a link to a key that is linked
  in the same transaction takes the old entry or the new one as its own key comes first or not
  (`CommitMeaning.CommittedLink`, `CommitMeaning.CommittedLater`).
- The write of a keychain entry is not atomic. A slot that is cut before it is counted is harmless
  (`TornSlot.UncountedSlot`). A reused slot cut inside the key makes a key appear that nobody wrote
  (`TornSlot.TornPut`, `TornSlot.TornStranger`), and an entry cut between the new size and the new start
  can make the write done again overwrite other records (`TornSlot.TornEntry`, `TornSlot.StrayOverlaps`).
- A block-level erase of a contract or proof that is only pending is lost in a memory
  transaction (`Overlay.ContractsDiverge`), and reads that look into memory inside a transaction still see
  committed values it has erased (`Overlay.ReadTwin`).
- The byte counter of the write buffer has 32 bits; the writer thread leaves records behind
  exactly when the buffered bytes are a multiple of 2^32 (`DiskBuffer.ExitEmpty`), which a closing
  database admits (`DiskBuffer.LeftBehind`).
- Erasing an event of an address whose events are all gone wraps the sequence counter
  (`Events.EventLog.EraseEvent`); an event of an unknown transaction moves the counter although
  it is refused, outside a transaction; inside one the call succeeds and the commit fails
  (`Events.EventLog.WriteEvent`).
- `base_uint` and `CBigNum` encode every positive number alike, but 0 differently
  (`Compact.EncodersAgree`).

## Model

| member | source | states |
|---|---|---|
| `SectorDatabase.Database.Get` | src/LLD/sector.cpp:187-196 | a read returns the last record written, except for records of 252 bytes, of 65533 to 65535, and of the last five lengths below 2^32, which come back without their first 2, 2 and 4 bytes; a missing key is not found and a bare key throws |
| `SectorDatabase.LostIs` | src/LLD/sector.cpp:187-196 | those are exactly the lengths at which the prefixes of record and sector have different widths |
| `ByteFile.PrefixForms` | src/Util/templates/serialize.h:244-291 | a stored size is one byte up to 252, else the marker 253, 254 or 255 and the number in 2, 4 or 8 bytes, lowest first |
| `SectorDatabase.EquivReads` | src/LLD/sector.cpp:154-213 | stores that the crash theorems call equivalent answer every read alike, before and after any further write |
| `SectorDatabase.Database.Update` | src/LLD/sector.cpp:271-330 | a record is overwritten in place exactly when it has a sector of its size; no other record's bytes change |
| `SectorDatabase.Database.Force` | src/LLD/sector.cpp:335-416 | update in place or append with a new keychain entry; all sectors stay disjoint and hold their records; the record begins a new file exactly when the last one is longer than 536870912 bytes |
| `SectorDatabase.Database.Append` | src/LLD/sector.cpp:378-396 | the appended sector lies at the end of the last file, and the truncating casts of its position lose nothing |
| `SectorDatabase.LayoutUpdate` | src/LLD/sector.cpp:305-314 | rewriting one sector keeps every other sector's bytes and the disjointness of all |
| `SectorDatabase.LayoutAppend` | src/LLD/sector.cpp:371-380 | a sector appended at the end of the last file overlaps none |
| `SectorDatabase.SectorSizeExact` | src/LLD/sector.cpp:278-284 | comparing sector sizes with their prefixes is comparing record sizes |
| `SectorDatabase.Database.LookupIs` | src/LLD/sector.cpp:163-213 | a keychain lookup finds exactly the keys of the store, each with the place of its sector in the files |
| `SectorDatabase.Database.PutEntry` | src/LLD/sector.cpp:711-717 | writing a keychain entry is setting the key in the store, in the same slot of its bucket |
| `SectorDatabase.Database.EraseEntry` | src/LLD/sector.cpp:701-704 | an erase takes the newest copy of a key away, in the files' keychain and in the store, and fails without one |
| `Store.ErasedGone` | src/LLD/hashmap.cpp:504-574 | an erased key is gone from the store if and only if it had at most one copy |
| `SectorDatabase.Database.Log` | src/LLD/templates/sector.h:585-672 | a call inside a transaction is serialized into the journal stream and folded into the transaction object, whose contents `Transaction.PendingData`, `PendingLink` and `PendingMark` give by the calls |
| `Transaction.PendingData` | src/LLD/templates/sector.h:655-668 | a key is pending a write exactly when one was called and no erase since, and its data are those of the last write |
| `Transaction.PendingLink` | src/LLD/templates/sector.h:543-560 | the same for links and their targets |
| `Transaction.PendingMark` | src/LLD/templates/sector.h:600-616 | the same for bare keys |
| `Transaction.ErasedKeys` | src/LLD/transaction.cpp:38-56 | a key is pending an erase exactly when the last call about it erases it, and after a replay exactly when any call did |
| `Transaction.ReplayedPending` | src/LLD/sector.cpp:783-852 | what a replayed transaction holds for a key, by the records of the journal |
| `SectorDatabase.Database.TxnCheckpoint` | src/LLD/sector.cpp:647-669 | the commit record ends the journal stream and the whole stream is appended to the file, only with a transaction open |
| `SectorDatabase.Database.TxnRelease` | src/LLD/sector.cpp:674-688 | transaction and journal are gone |
| `SectorDatabase.Database.TxnRecovery` | src/LLD/sector.cpp:751-855 | the loop over the bytes of the file succeeds exactly when it reads a commit record, throws exactly when the stream ends inside a record or holds a field too long, and on success has the replayed transaction, whose contents `Transaction.ReplayedPending` gives |
| `SectorDatabase.Database.TxnCommit` | src/LLD/sector.cpp:693-746 | the four passes in key order, with the index cache and the stop at the first error, perform the transaction's record program on the store the bytes stand for; `CommitMeaning` says what that does to single keys |
| `KeyOrder.LexIs` | src/LLD/templates/transaction.h:67-77 | of two keys the one that is a beginning of the other, or has the smaller byte where they first differ, is walked first |
| `CommitMeaning.CommittedData` | src/LLD/sector.cpp:706-709 | after the commit a key that was only written has the data of its last write, if no other written key shares its sector |
| `CommitMeaning.CommittedMark` | src/LLD/sector.cpp:711-717 | a key that was marked and not linked is a bare key, written or not |
| `CommitMeaning.CommittedLink` | src/LLD/sector.cpp:720-739 | a key linked to a key that is not linked, or comes later in the order of the bytes, has the entry and record its target had before the links: the old one, the data written or a bare key |
| `CommitMeaning.CommittedLater` | src/LLD/sector.cpp:720-739 | a key linked to an earlier key, to which no key before it is linked, has the entry that key ends with |
| `CommitMeaning.CommittedAlike` | src/LLD/sector.cpp:726-734 | all keys linked to one target end with one entry, even if the target is linked elsewhere in between |
| `CommitMeaning.CommittedOthers` | src/LLD/sector.cpp:693-746 | a key the calls do not name keeps its entry, and its record if no written key shares its sector |
| `RedoErases.FinalKeys` | src/LLD/sector.cpp:693-746 | the keys after a commit, erases included: the old ones without the erased ones, and those written, marked or linked |
| `Transaction.ErasedApart` | src/LLD/transaction.cpp:38-56 | a key pending erase is pending no write, mark or link, after every run of calls |
| `Transaction.ReplayExact` | src/LLD/sector.cpp:783-852 | replaying the journal gives the transaction of the live calls exactly when no erased key was written again |
| `Transaction.ProgramIs` | src/LLD/sector.cpp:701-739 | the commit program has each pending erase, write, mark and link once, by pass and in key order |
| `Redo.FinalIs` | src/LLD/sector.cpp:706-739 | an erase-free commit whose targets resolve succeeds; every key ends with what the writes and marks left at the key its chain of links leads to, through the index cache |
| `RedoSoundness.RedoStep` | src/LLD/sector.cpp:693-746 | after any beginning of the commit of a redoable transaction, with the next write torn or not, a full commit ends in an equivalent store |
| `RedoSoundness.RedoConverges` | src/LLD/sector.cpp:693-746 | any number of interrupted attempts, and then one redo, end in the store of one uninterrupted commit |
| `RedoCopies.RedoKeepsCopies` | src/LLD/hashmap.cpp:321-400 | after such a redo every slot of every bucket is free or held as after one commit, so a later erase finds as many copies |
| `RedoLimits.EraseFreeExact` | src/LLD/sector.cpp:706-739 | for every transaction that erases nothing, redo is sound if and only if it is redoable |
| `RedoLimits.WrittenAndLinked` | src/LLD/sector.cpp:706-739 | redo is unsound for every transaction that writes data to a key and links it to a key it does not set |
| `RedoLimits.LinkedTarget` | src/LLD/sector.cpp:720-739 | redo is unsound for every transaction in which a link target is itself linked elsewhere later, and not marked |
| `RedoLimits.WrittenAndMarked` | src/LLD/sector.cpp:706-717 | without links redo is sound if and only if no marked key wrote last, in the key order, over an unmarked key with different data of the same length |
| `RedoLimits.SeparateRedoable` | src/LLD/sector.cpp:706-739 | it is sound whenever written keys are neither marked nor linked and no linked key is a target |
| `RedoErases.RedoExact` | src/LLD/sector.cpp:693-746 | for every transaction calls can leave behind, redo is sound if and only if it is redoable and erases nothing, or erases one key and does nothing else, links that move nothing apart, or links to a key it erases, so that it can be committed on no store |
| `RedoErases.ErasedTarget` | src/LLD/sector.cpp:699-739 | a commit that links to a key it erases fails on every store with at most one copy of that key |
| `RedoErases.SingleCopyExact` | src/LLD/hashmap.cpp:504-574 | from any store such a lone erase may be redone if and only if its key has one copy |
| `RedoErases.TwoCopiesUnsound` | src/LLD/hashmap.cpp:353-361 | after a key was set, another one set and erased, and the key set again in that bucket, redo of its erase is unsound |
| `Journal.FieldRead` | src/Util/templates/serialize.h:425-440 | a string or vector is read back whole when it is at most 32 MB, and throws otherwise |
| `Journal.EntryForms` | src/LLD/templates/sector.h:602-661 | the journal's records are the names erase, key, write, index and commit and their fields, each behind its size |
| `Journal.ScanWhole` | src/LLD/sector.cpp:783-852 | a whole journal gives back its calls, or throws if a key or record in it is too long |
| `Journal.ScanCut` | src/LLD/sector.cpp:783-854 | a journal cut at any byte is never committed: unfinished between records, if those before can be read, and otherwise an exception |
| `Journal.ScanExact` | src/LLD/sector.cpp:751-854 | of a journal below 4 GB, cut anywhere or not at all: committed exactly when whole and readable, unfinished exactly at a readable boundary, an exception otherwise |
| `Journal.WholeCommits` | src/LLD/sector.cpp:763-775 | a whole journal is committed if and only if its size fits 32 bits and all of it can be read |
| `Protocol.ScanPlan` | src/LLD/sector.cpp:783-854 | a cut journal is redone only when it is the whole one, and then as the transaction of the live calls |
| `Protocol.GoodInterrupted` | src/LLD/sector.cpp:693-746 | a store from which redo reaches the new state stays one however a safe commit is interrupted |
| `Protocol.GoodWhole` | src/LLD/sector.cpp:693-746 | and however often a commit, safe or indivisible with erases, is done in full |
| `CrashAtomicity.StepOld` | src/LLD/global.cpp:152-221 | before the last commit mark every step, crash at any byte, and recovery keeps all databases as they were |
| `CrashAtomicity.StepNew` | src/LLD/global.cpp:341-425 | once every journal is whole, every step, crash and recovery keeps all databases on the way to the new state; transactions that erase and may not be redone commit in one step |
| `CrashAtomicity.CrashAtomic` | src/LLD/global.cpp:152-221 | every run that finishes, with any number of crashes at any byte of a journal or record and during recovery, leaves all databases old or all new; a new one without erases also has as many copies of every key |
| `CrashAtomicity.Durable` | src/LLD/global.cpp:341-371 | once all checkpoints are written, every finish is the new state; transactions that erase and may not be redone commit in one step |
| `CrashAtomicity.CrashFree` | src/LLD/global.cpp:323-425 | a run without crashes ends in the new state |
| `CrashAtomicity.RecoveryOutcome` | src/LLD/global.cpp:152-221 | from every crash point one recovery that does not throw gives all old or all new stores |
| `Progress.EveryRunFinishes` | src/LLD/global.cpp:152-425 | a run that can be brought to an end can be so without a crash, all old or all new |
| `Progress.RunFinishes` | src/LLD/sector.cpp:783-854 | every run can be brought to an end if and only if it did not crash with a journal that is cut inside a record or holds an entry too long to read |
| `Progress.FinishExact` | src/LLD/global.cpp:152-425 | a state has a finishing continuation, with or without crashes, if and only if recovery does not throw in it |
| `Progress.SomeRunStuck` | src/LLD/sector.cpp:660-666 | every protocol with a database has a run that can never end: a crash after the first byte of a journal |
| `Necessity.DurableExact` | src/LLD/global.cpp:341-371 | a transaction with a readable journal below 4 GB is durable from every store it can be committed on, whatever crashes, if and only if no erased key is written again and redo of it is safe, or there is no such store since it links to a key it erases |
| `Necessity.RewriteLost` | src/LLD/sector.cpp:783-852 | if an erased key is written again, a run that wrote its whole journal and crashed twice ends without the written key |
| `GlobalTxn.TxnCommit` | src/LLD/global.cpp:341-425 | checkpoint, commit and release over all databases: each store is its commit's result and no journal is left; with a transaction open in every database the disks go, call by call, through a behaviour of the protocol from its first state to the last |
| `GlobalTxn.TxnRecovery` | src/LLD/global.cpp:152-221 | all journals are redone when all are complete, otherwise none, and then all are released; when one throws, no store and no journal changes; started where a behaviour of the protocol crashed, it carries that behaviour on |
| `GlobalTxn.Restart` | src/LLD/global.cpp:152-221 | recovery on the database objects, started on what any behaviour of the protocol left at a crash, throws exactly for a broken journal and otherwise ends all old or all new, as the continuation of that behaviour |
| `CommitTrace.CrashAfter` | src/LLD/global.cpp:341-425 | a crash after any call of a commit is a behaviour of the protocol |
| `CommitTrace.CrashPoint` | src/LLD/global.cpp:341-425 | whatever call of a commit was the last, a recovery that does not throw makes all databases old or all new |
| `CommitTrace.CutJournal` | src/LLD/sector.cpp:660-666 | the protocol allows a crash after any byte of a journal |
| `CommitTrace.CutWrite` | src/LLD/sector.cpp:307-317 | and one that leaves a sector being overwritten with any bytes of its length |
| `GlobalTxn.NewReads` | src/LLD/global.cpp:341-371 | in databases that are all new every read answers as after one commit |
| `DiskBuffer.Kept` | src/LLD/sector.cpp:421-575 | in every interleaving the flushed records, the batch in hand and the buffer are together the sequence of puts, and the counter is the buffer's byte sum modulo 2^32 |
| `DiskBuffer.ExitEmpty` | src/LLD/sector.cpp:531-547 | the writer leaves an empty buffer exactly when the buffered bytes stayed below 2^32 |
| `DiskBuffer.LeftBehind` | src/LLD/sector.cpp:531-547 | any records whose sizes add up to a multiple of 2^32 are left behind in some run |
| `DiskBuffer.SameAsForced` | src/LLD/sector.cpp:421-446 | after the writer left an empty buffer the store is the one of the same puts in force mode |
| `DiskBuffer.BufferBound` | src/LLD/sector.cpp:427-440 | while the database is open the buffer exceeds its limit by less than one record per caller, so the counter does not wrap |
| `NodeList.LinkedNodes.RemoveNode` | src/LLD/binary_lru.cpp:316-345 | unlinking a node at any position leaves the list without it, linked both ways, and a node in no list is left alone |
| `NodeList.LinkedNodes.MoveToFront` | src/LLD/binary_lru.cpp:349-376 | the node becomes the first and the others keep their order |
| `BinaryLru.BinaryLRU.Get` | src/LLD/binary_lru.cpp:141-176 | a hit is exactly a live node with the key's hash in any slot and returns its data; the whole list afterwards: that node first and the others in their order, or unchanged on a miss |
| `BinaryLru.BinaryLRU.NoEntry` | src/LLD/binary_lru.cpp:146-166 | a node with a given hash can only be where its bucket's index leads |
| `NodeList.OffAt` | src/LLD/binary_lru.cpp:316-345 | taking out the node of a slot is leaving that slot out of the listing, since slots differ |
| `BinaryLru.BinaryLRU.DropBucket` | src/LLD/binary_lru.cpp:185-203 | the node the bucket's index leads to, whatever its key, is the one that leaves the list, and no live node of that bucket is left |
| `BinaryLru.BinaryLRU.EvictLast` | src/LLD/binary_lru.cpp:238-262 | the index of the last node's bucket leads back to that node, which is the one nulled |
| `BinaryLru.BinaryLRU.Evict` | src/LLD/binary_lru.cpp:235-263 | after the first node the longest beginning of the list whose data fits is kept, so the first node is never evicted and no node needlessly |
| `NodeList.KeptLongest` | src/LLD/binary_lru.cpp:235-263 | what is kept fits, and with one more it would not |
| `BinaryLru.BinaryLRU.Put` | src/LLD/binary_lru.cpp:180-266 | the whole list afterwards: the new record first, then the longest fitting beginning of the old list without the bucket's node and the slot's node; no other entry has its bucket, the size is exact and all but the newest data fit |
| `BinaryLru.PutTwo` | src/LLD/binary_lru.cpp:180-313 | two records whose keys and positions, as numbers, fall into different buckets and slots are both found, if the first is no larger than half the cache |
| `CachedDatabase.CachedDatabase.Get` | src/LLD/sector.cpp:154-213 | a read answered by the cache or the disk is the disk read, or the record itself where the disk read would lose bytes |
| `CachedDatabase.CachedDatabase.FromCache` | src/LLD/sector.cpp:160-161 | a cached answer is what the cache has for the key, current or not, and looking changes no entry |
| `CachedDatabase.CachedDatabase.Update` | src/LLD/sector.cpp:271-330 | an update keeps every cached entry current, also those of other keys of the same sector |
| `CachedDatabase.CachedDatabase.Force` | src/LLD/sector.cpp:335-416 | so does a write that moves its key to a new sector |
| `CachedDatabase.CachedDatabase.Link` | src/LLD/sector.cpp:720-739 | a linked key reads from disk as its target; the cache stays coherent if and only if what it has for the key, if anything, is the target's record in the target's place |
| `CachedDatabase.CachedDatabase.Mark` | src/LLD/sector.cpp:711-717 | a marked key throws on a disk read; the cache stays coherent if and only if it had nothing for the key |
| `KeyLru.KeyLRU.Get` | src/LLD/binary_key.cpp:140-163 | a hit is a stored key whose ten seconds are not over; the whole list afterwards: its node first and the others in their order, or unchanged on a miss |
| `KeyLru.KeyLRU.MoveToFront` | src/LLD/binary_key.cpp:198-234 | the special case of the last node and the general removal give the same list |
| `KeyLru.KeyLRU.EvictLast` | src/LLD/binary_key.cpp:286-304 | the freed node is in no bucket and not in the list |
| `KeyLru.KeyLRU.Put` | src/LLD/binary_key.cpp:238-314 | the whole list afterwards: the new key first, then the longest fitting beginning of the old list without the bucket's node; the list is exactly the occupied buckets, the size is exact, and it is within the maximum or one node is left |
| `KeyLru.PutTwo` | src/LLD/binary_key.cpp:140-314 | two keys of different buckets that fit together are both found, each within its ten seconds |
| `KeyLru.KeyLRU.Penalize` | src/LLD/binary_key.cpp:318-333 | only the time of that key changes |
| `KeyLru.KeyLRU.Remove` | src/LLD/binary_key.cpp:338-367 | exactly the entry of the key is freed and the rest of the list keeps its order |
| `BinaryHashMap.CompressKey` | src/LLD/hashmap.cpp:128-145 | the in-place halving loop computes the folded key, of length 32 for every longer key |
| `BinaryHashMap.CompressedStart` | src/LLD/hashmap.cpp:135-140 | every compressed key starts with a zero byte |
| `BinaryHashMap.Compressed64` | src/LLD/hashmap.cpp:128-145 | a key of 64 bytes becomes its first 32, each combined with the byte at twice its position |
| `BinaryHashMap.CompressedBit` | src/LLD/hashmap.cpp:135-140 | a bit of the result is set when it is set in exactly one of the two bytes |
| `BinaryHashMap.ByteTells` | src/LLD/hashmap.cpp:128-145 | changing one byte of such a key changes the result unless it is the first byte or an odd one of the second half |
| `BinaryHashMap.BinaryHashMap.Reopen` | src/LLD/hashmap.cpp:159-226 | loading the index file gives back every counter and chain |
| `BinaryHashMap.BinaryHashMap.Get` | src/LLD/hashmap.cpp:230-303 | the newest ready slot of the bucket's chain that holds the compressed key |
| `BinaryHashMap.BinaryHashMap.Put` | src/LLD/hashmap.cpp:307-464 | one chain gets the key in its newest usable slot or a new one, and no other chain changes; header and key stand in a file at byte 45 times the hash over 7 modulo the buckets |
| `BinaryHashMap.BinaryHashMap.Erase` | src/LLD/hashmap.cpp:504-574 | the newest slot with the key is zeroed and no other chain changes |
| `Keychain.GetIs` | src/LLD/hashmap.cpp:252-303 | a lookup finds exactly the 13 header bytes of the newest slot whose state is 1 and whose bytes behind the header begin with the key |
| `Keychain.GetPut` | src/LLD/hashmap.cpp:307-464 | a lookup after a write returns what was written, on every chain |
| `Keychain.PutOthers` | src/LLD/hashmap.cpp:321-400 | a write leaves the lookups of all other keys of that length as they were |
| `Keychain.EraseOthers` | src/LLD/hashmap.cpp:519-571 | so does an erase |
| `Keychain.AbsentAfterErase` | src/LLD/hashmap.cpp:504-574 | an erased key is absent if and only if at most one copy was live and the newest slot with the key held it |
| `Keychain.PutCopies` | src/LLD/hashmap.cpp:353-361 | a write adds a copy exactly when the newest usable slot is not a live slot of the key |
| `Keychain.ErasedComesBack` | src/LLD/hashmap.cpp:354-361 | when another key's slot is newer than every usable one, erase of that key, write and erase leave the key with its old value |
| `Keychain.RunGet` | src/LLD/hashmap.cpp:230-464 | after every run on keys of one length a key last written is found with that value, and a key never used is absent |
| `Keychain.RunErasedExact` | src/LLD/hashmap.cpp:504-574 | a key whose last operation is an erase is absent if and only if it had at most one copy before that |
| `Keychain.RunErased` | src/LLD/hashmap.cpp:504-574 | that is so in every run that erases no other key of the bucket |
| `Keychain.ErasedRunComesBack` | src/LLD/hashmap.cpp:353-361 | in the run that writes `k`, writes and erases `b`, writes `k` and erases `k`, the first value of `k` is found at the end |
| `Keychain.GetRefines` | src/LLD/hashmap.cpp:230-303 | a lookup in the bytes of a bucket is a lookup in its cells, as the record store has them |
| `Keychain.PutRefines` | src/LLD/hashmap.cpp:307-464 | a write to the bytes is a write to the cells |
| `Keychain.EraseRefines` | src/LLD/hashmap.cpp:504-574 | so is an erase, unless the key is all zeros, is stored, and a newer emptied slot is there for it to match; an erase of any other key succeeds exactly when the key is found |
| `Keychain.RunOneSlot` | src/LLD/hashmap.cpp:321-464 | in every run without erases each key has exactly one slot |
| `Keychain.FirstEraseAbsent` | src/LLD/hashmap.cpp:504-574 | so the first erase after such a run makes its key absent |
| `TornSlot.UncountedSlot` | src/LLD/hashmap.cpp:436-451 | a new slot written in part and not yet counted changes no chain, and extending the bucket again leaves the very files it leaves without the crash |
| `TornSlot.TornCounter` | src/LLD/hashmap.cpp:441-451 | a counter cut between its two bytes is the new one, unless its low byte passed 255: then the bucket loses 255 slots and the new one |
| `TornSlot.TornPut` | src/LLD/hashmap.cpp:353-382 | after a slot of the chain was overwritten in part, writing the key again gives the chain of one whole write if and only if nothing was written of it or the unwritten bytes of the key were there before |
| `TornSlot.TornStranger` | src/LLD/hashmap.cpp:353-382 | otherwise a key nobody wrote is found, after the key was written again as well |
| `TornSlot.TornEntry` | src/LLD/sector.cpp:271-308 | when the entry of a record that moves to a sector of another size is cut, the write done again goes on as before or after the whole entry, unless the new size stands there while the start still differs from the new one |
| `TornSlot.StrayOverlaps` | src/LLD/sector.cpp:271-308 | an entry cut after ten bytes that locates the record across another one's sector |
| `BinaryHashTree.BinaryHashTree.Get` | src/LLD/hashtree.cpp:229-324 | the file walk finds what the bucket's search tree holds for the compressed key |
| `BinaryHashTree.BinaryHashTree.Put` | src/LLD/hashtree.cpp:328-437 | the file walk, which creates files as it goes, writes the key's own node or the first free one, at byte 45 times the hash modulo the buckets; other buckets do not change |
| `BinaryHashTree.NextOnWalk` | src/LLD/hashtree.cpp:314-317 | with at most 31 keys in the bucket no position on a walk overflows 32 bits |
| `SearchTree.WalkPut` | src/LLD/hashtree.cpp:328-437 | a new node ends no other key's walk early; a walk that stopped there goes one step further |
| `SearchTree.PutConsistent` | src/LLD/hashtree.cpp:397-420 | every node stays where the walk for its key ends |
| `SearchTree.SearchOrder` | src/LLD/hashtree.cpp:314-317 | below a node smaller keys lie under its odd child and larger ones under its even child, byte by byte |
| `SearchTree.RunGet` | src/LLD/hashtree.cpp:229-437 | after every run of writes a lookup returns the last value written for the key, and misses all other keys |
| `SearchTree.RunKeys` | src/LLD/hashtree.cpp:328-437 | the bucket has exactly one node for each key written |
| `SearchTree.WalkLength` | src/LLD/hashtree.cpp:255-318 | a walk visits at most one position more than the bucket has keys |
| `Overlay.TwinStep` | src/LLD/contract.cpp:55-156 | one call keeps a transactional and a direct state in step if and only if it decides alike by the committed and by the pending values |
| `Overlay.ContractsDiverge` | src/LLD/contract.cpp:134-156 | for contracts and proofs only a block-level erase of a key that is pending and not committed diverges |
| `Overlay.RunTwin` | src/LLD/contract.cpp:282-301 | a run that never diverges commits to what the same run leaves with no transaction open |
| `Overlay.ContractsRun` | src/LLD/ledger.cpp:750-893 | mempool writes and erases and block-level writes of contracts and proofs meet that always |
| `Overlay.OpenApart` | src/LLD/ledger.cpp:768-801 | pending writes and the erase set stay disjoint and committed values untouched while a transaction is open |
| `Overlay.Released` | src/LLD/contract.cpp:257-278 | a released transaction leaves the committed values as they were |
| `Overlay.ReadTwin` | src/LLD/contract.cpp:160-200 | a read inside a transaction agrees with the direct one unless it looks into memory and the key is a committed value pending erase that the disk does not equal |
| `Overlay.NeverRollsBack` | src/LLD/register.cpp:92-117 | after any blocks, connected in transactions or not, a mempool read is the last block's state, or the mempool state no block has written |
| `Overlay.MempoolWritten` | src/LLD/contract.cpp:55-79 | after a mempool write of any kind the mempool reads the value, transaction open or not, also once it commits, and no other read changes |
| `Overlay.MempoolErased` | src/LLD/contract.cpp:110-156 | after a mempool erase it reads the disk; inside a transaction it still reads a value committed before, until the commit |
| `Overlay.MinerWritten` | src/LLD/contract.cpp:81-90 | a miner's write is read by the miner only, and lost when no block is being built |
| `Overlay.BlockWritten` | src/LLD/register.cpp:92-117 | a block's write is on disk, and the mempool reads it unless another state or claim was committed to memory |
| `Overlay.BlockErased` | src/LLD/contract.cpp:134-156 | a block's erase takes the value from disk and memory |
| `Overlay.EraseWritten` | src/LLD/ledger.cpp:265-323 | a write with the erase flag sets a claim in memory, drops contracts and states from it, and leaves the disk |
| `Overlay.EraseErased` | src/LLD/register.cpp:265-309 | an erase with that flag drops the committed value and leaves the disk |
| `Overlay.OpenedReads` | src/LLD/contract.cpp:230-278 | opening a transaction changes no read, and releasing it takes its writes back |
| `Overlay.MemoryDB.MemoryCommit` | src/LLD/register.cpp:484-503 | the copying loops commit exactly the pending writes and erases, whatever the order |
| `Overlay.MemoryDB.WriteContract` | src/LLD/contract.cpp:55-107 | the whole new state for every flag |
| `Overlay.MemoryDB.WriteState` | src/LLD/register.cpp:60-169 | the memory state goes only when the block writes that same state, or on an erase flag |
| `Overlay.MemoryDB.WriteClaimed` | src/LLD/ledger.cpp:265-323 | the erase flag writes to memory, the block flag drops an equal claim |
| `Overlay.MemoryDB.EraseValue` | src/LLD/register.cpp:265-309 | the whole new state for every flag, and when the erase below fails |
| `Overlay.MemoryDB.ReadValue` | src/LLD/register.cpp:173-216 | pending, then committed, then disk, for the mempool, for lookups of states and for claims being erased; the miner's values for the miner |
| `Events.EventLog.WriteEvent` | src/LLD/ledger.cpp:614-630 | outside a transaction: pushes a known transaction on the address's stack of events; a refused one moves the counter all the same |
| `Events.EventLog.EraseEvent` | src/LLD/ledger.cpp:634-647 | pops the last event; the stack stays well formed exactly when there was one or the address was never used |
| `Events.EventLog.ReadLastEvent` | src/LLD/ledger.cpp:662-682 | returns the top of the stack |
| `Events.WriteErase` | src/LLD/ledger.cpp:614-647 | an erase takes back what the write before it did |
| `BaseUint.AddAssign` | src/LLC/base_uint.cpp:278-289 | addition modulo 2^BITS |
| `BaseUint.Increment` | src/LLC/base_uint.cpp:427-435 | the rippling carry is addition of one modulo 2^BITS |
| `BaseUint.Negate` | src/LLC/base_uint.cpp:162-172 | complement and increment is negation modulo 2^BITS |
| `BaseUint.SubAssign` | src/LLC/base_uint.cpp:306-311 | subtraction modulo 2^BITS, through negation |
| `BaseUint.GreaterEqual` | src/LLC/base_uint.cpp:525-536 | the word-wise comparison decides the order of the values |
| `BaseUint.Bits` | src/LLC/base_uint.cpp:797-813 | the number of bits: the one r with 2^(r-1) <= x < 2^r, and 0 for zero |
| `BaseUint.BitLengthUnique` | src/LLC/base_uint.cpp:797-813 | a number has only one bit length |
| `BaseUintShift.ShiftLeft` | src/LLC/base_uint.cpp:232-249 | multiplication by 2^s modulo 2^BITS for every s, also beyond the width |
| `BaseUintShift.ShiftRight` | src/LLC/base_uint.cpp:255-273 | the quotient by 2^s for every s |
| `BaseUintMul.RowFits` | src/LLC/base_uint.cpp:338-341 | carry plus word plus product never exceeds 64 bits |
| `BaseUintMul.MulRow` | src/LLC/base_uint.cpp:335-343 | one row adds a word's multiple at its place, modulo 2^BITS |
| `BaseUintMul.MulAssign` | src/LLC/base_uint.cpp:328-346 | multiplication modulo 2^BITS at every word count |
| `BaseUintDiv.Aligned` | src/LLC/base_uint.cpp:389-391 | the aligning shift of the divisor loses no bit |
| `BaseUintDiv.SetBit` | src/LLC/base_uint.cpp:400-401 | setting a clear quotient bit adds its power of two |
| `BaseUintDiv.DivAssign` | src/LLC/base_uint.cpp:378-410 | fails exactly for a zero divisor, and otherwise gives the quotient; the shift is the measure of termination |
| `BaseUintHex.GetHex` | src/LLC/base_uint.cpp:580-588 | two lower-case digits a byte that stand for the number |
| `BaseUintHex.SetHex` | src/LLC/base_uint.cpp:592-625 | the number written in any string, with blanks and prefix skipped, modulo 2^BITS |
| `BaseUintHex.DigitTable` | src/LLC/base_uint.cpp:592-625 | the sixteen digits in lower and upper case have their values, and no other character has one |
| `BaseUintHex.ReadsAlike` | src/LLC/base_uint.cpp:592-625 | a number reads the same behind blanks, behind 0x, 0X or neither, in either case and before anything that is no digit |
| `BaseUintHex.HexRoundTrip` | src/LLC/base_uint.cpp:580-625 | parsing a printed number gives it back |
| `Compact.DecodeEncode` | src/LLC/base_uint.cpp:818-858 | decoding an encoded number cuts it to its top bytes |
| `Compact.EncodeDecode` | src/LLC/base_uint.cpp:818-858 | a word survives decoding and encoding if and only if it is canonical |
| `Compact.EncodersAgree` | src/LLC/bignum.cpp:521-532 | `CBigNum` and `base_uint` encode a number alike if and only if it is positive |
| `Compact.DecodersAgree` | src/LLC/bignum.cpp:503-518 | the two decoders agree but for the sign bit, which only `CBigNum` reads |
| `Compact.MpiSize` | src/LLC/bignum.cpp:521-526 | the length of the MPI bytes is the size byte of the encoding |
| `Compact.SetCompact` | src/LLC/base_uint.cpp:818-835 | the decoder by shifts gives the decoded number modulo 2^BITS |
| `Compact.GetCompact` | src/LLC/base_uint.cpp:839-858 | the encoder by shifts gives the encoded word |

## Left out

- SectorDatabase.Database.Force: file numbers stay below 2^16 and records below 2^31 bytes; beyond that the source truncates the fields of the sector key without notice.
- SectorDatabase.Database.Get: append mode, the read with a keychain entry at hand, `Delete` and its blanking of the record, and the direct branches of `Index`, `Write` of a bare key and `Erase` outside a transaction.
- CrashAtomicity.CrashAtomic: a transaction that erases keys beside anything else is committed in one indivisible step, since its redo is not sound; its erased keys are there in one copy each, its links resolve and no erased key is written again.
- Protocol.GoodInterrupted: a keychain entry (the 45 bytes of its slot and the two of its counter) is written in one step; only sectors and journals are torn. When a torn entry is harmless is `TornSlot.dfy`, for one bucket and one key; runs of the protocol do not have torn entries.
- GlobalTxn.TxnCommit: the memory commits of the contract, register and ledger databases, which come before the checkpoints.
- SectorDatabase.Database.LookupIs: buckets hold whole keys, so keys in use must differ in their bucket or their compressed bytes; the compression is `BinaryHashMap.CompressKey`.
- Keychain.RunErasedExact: the key of nothing but zero bytes is left out, since an emptied slot matches it; so it is in `Keychain.RunErased`.
- CachedDatabase.CachedDatabase.Update: what happens after a link has left a stale entry; the methods start from a coherent cache.
- CachedDatabase.CachedDatabase.Force: the index computed from a sector position must not wrap to 0.
- BinaryLru.BinaryLRU.Put: the size counter is unbounded, so a record near 4 GB does not wrap it; in a reused node the key and data are set in one assignment after the node has moved to the front.
- `BinaryLRU::Remove` subtracts a size after clearing the data, so it is outside the exact size accounting; `Has` and `Reserve` add nothing.
- KeyLru.KeyLRU.Put: time is an unbounded number given by the caller.
- BinaryHashMap.BinaryHashMap.Put: a bucket holds fewer than 32767 slots, the range of the 16-bit loop counter; the 13 header bytes of a sector key are not taken apart; the stream cache is not modelled.
- Keychain.RunGet: keys of different compressed lengths in one bucket are left out, since the code compares a prefix.
- BinaryHashTree.BinaryHashTree.Put: keys of at least 32 bytes, ready records and at most 31 keys a bucket; `Erase` and `Restore` do not follow the path of `Put`.
- Overlay.MemoryDB.WriteState: disk writes of the overlay databases are single map updates; `WriteTrust`, the request to a peer in client-mode lookups, and locks are left out.
- Events.EventLog.WriteEvent: events of client mode and calls inside a transaction; the counter stays below 2^32 - 1.
- BaseUintHex.SetHex: works on the bytes the source reaches by a pointer cast on a little-endian machine.
- Compact.GetCompact: integers of fewer than 64 words, so that the size fits its byte.
- base_uint: the operators with a 64-bit operand, the bitwise operators, `BitCount` (which does not end on zero), `GetBytes` and `SetBytes`.
- Directory creation, stream caches, meters, logging, threads other than the buffer writer, `binary_lfu.cpp`, `filemap.cpp` and `shard_hashmap.cpp`.

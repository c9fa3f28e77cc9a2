# A verified model of FastDHT

FastDHT is a replicated key-value store. Each write goes to a local store and to a binary log; one
reader per peer ships the log to that peer. This project models its hardest parts in Dafny and
proves what they promise: for every input, every run and every reachable state, or, where a
promise does not hold of the code, exactly when it does.

`dafny verify dfyconfig.toml` checks all of it.

| area | modules | what it is about |
|---|---|---|
| Log | `Bytes`, `Decimal`, `RecordCodec`, `Binlog`, `BinlogFiles` | the text-and-bytes record format, buffered append with rotation, a reader that survives torn tails |
| Replication | `Replication`, `ReplicationBytes`, `FullKeys`, `Shipping`, `Routing` | servers with stores, logs, readers and marks; convergence, no echo, first over records, then over bytes, then as handlers and a sync loop that change objects |
| Recovery | `Recovery` | replay from a mark after a crash, with pages reaching disk at any time |
| Compression | `Lex`, `Compress`, `CompressFile` | the log compressor: scan, stable sort, last live record of each key |
| Memory pool | `HashChains`, `HashLinks`, `HashTable`, `Counters`, `MemoryPool` | the chained hash table with byte accounting, rehash, expiry sweep, retrying set and decimal counters |
| AVL tree | `AvlTree`, `AvlNodes` | rotations driven by stored balances, as trees and through node pointers |
| Timing wheel | `Division`, `WheelTime`, `TimingWheel` | lazy moves with a flag: when an entry is handed out, and the doubly linked slot lists |
| Sub-key index | `SubKeyLists`, `SubKeyIndex` | the sorted, separator-joined key lists kept by merge and difference loops |
| Batch set | `BatchFormat`, `BatchSet` | a handler that writes its response over the request it is still reading |
| Scheduler | `Schedule`, `Scheduler` | a chain through an array kept sorted by re-sorting or splicing |
| Codecs | `Md5`, `Md5Context`, `Base64`, `Base64Context` | MD5 streaming around an uninterpreted block transform (RFC 1321), base64 with line breaks and optional padding (RFC 4648) |

Most areas come in two layers. A pure module defines what the operations mean and proves the laws;
a second module has the code's own loops, buffers, arrays and pointers, each method proved to
compute what the pure module says.

What the proofs show about the code, beyond confirming it:

- A record is read back from the log if and only if none of its time stamp, key hash and expiry needs
  eleven characters (is at or below -10^9), its time stamp is not 0, its operation is known and its
  key is not empty (`RecordCodec.ReadsExactly`); a negative time then comes back as a large one
  (`RecordCodec.RoundTripExactly`). The handlers accept any key hash and any expiry, and an empty key
  with a value. Most of what is not readable is *decided*: whatever follows, it stops every reader of
  the log for good (`RecordCodec.DecidedExactly`, `ReplicationBytes.CatchUpExactly`,
  `ReplicationBytes.UnreadableStops`) and makes a replay fail (`Recovery.RecoveryEnds`). The rest, with
  a hash or an expiry too wide, is worse: the reader may return a record that was never logged, or
  find nothing and go on as if it had caught up (`ReplicationBytes.UndecidedMisleads`,
  `ReplicationBytes.MisreadRecord`), and a replay may end well without the record
  (`Recovery.UndecidedLost`). A number too wide can also push the write buffer past its end
  (`Binlog.BufferBoundExactly`). Records without expiry are always decided
  (`ReplicationBytes.LastingConvergence`).
- A full key is joined with a byte that its parts may hold, so different keys can share one store entry
  (`FullKeys.SharedExactly`); keys without that byte in namespace and object id never do
  (`FullKeys.PackExactly`).
- The sweep of the memory pool takes entries in the second they expire, in which a get still shows them
  (`MemoryPool.SweptExactly`).
- A reader skips what has expired, so the value before it stays visible at the peer
  (`Replication.SkippedSetDiverges`).
- A set that fails at the primary after unlinking the key leaves a difference that no shipping
  removes, until the next logged write to that key (`Replication.Convergence`,
  `Replication.FailedSetDiverges`).
- A page that reaches disk before its log record makes the recovered store run ahead of the log
  (`Recovery.RecoveryExactly`, `Recovery.PageAheadOfLog`).
- The compressor's buffer for an encoded key is too small for the longest keys the limits allow
  (`CompressFile.KeyTextFits`).
- Compressing one file of several can bring deleted keys back (`Compress.CompressionInPlaceExactly`,
  `Compress.CompressionResurrects`).
- Lengthening a timer entry twice, the second time by whole turns of the wheel, can make it fire late
  (`WheelTime.ModifyExactly`, `WheelTime.TwoExtensionsStrand`); the server's use, with extensions
  shorter than a turn, is exact (`WheelTime.WheelIsExact`).
- A sub-key list of more than 4096 keys fits its size limit but no longer works as a set
  (`SubKeyLists.AddExactly`, `SubKeyLists.DelExactly`, `SubKeyLists.TooManyKeys`).
- The scheduler's comparison function cuts time differences to 32 bits (`Schedule.CompareExactly`,
  `Schedule.OrderExactly`).
  Its own passes never notice (`Scheduler.Context.Pass`); a new task with a long interval beside an
  overdue one does (`Schedule.LateExactly`, `Schedule.LateMisordered`).
- A batch set whose reading comes to a negative value length goes on with bytes that are not those of
  the message (`BatchSet.Handle`, `BatchSet.NegativeLength`).
- The block loop of MD5 leaves its input for some chunks within 64 bytes of 2^32 (`Md5.InsideExactly`,
  `Md5.IndexableExactly`); base64 decoding computes a negative length for input with more padding than
  output (`Base64Context.Context.Decode`), and the computed encoded length is wrong for some input
  unless the line length is a multiple of four (`Base64.LengthExactly`).

Time, memory, the network and the answers of foreign code are parameters: clock values, allocation
outcomes, delivery outcomes, connect results, the sorting function, the answer of the store. Where the
code would leave the bounds of an array, a method says so with a flag and the model stops there; each
flag has its exact condition.

## Model

| member | source | states |
|---|---|---|
| RecordCodec.RoundTrip | server/sync.c:1251-1263 | a readable record, followed by any bytes, parses back with exactly the computed record length, whatever bytes its value holds; only a negative time comes back as a large one |
| RecordCodec.ReadsExactly | server/sync.c:1301-1595 | whatever follows it, the reader in front of a record of the C types returns it if and only if none of its time stamp, key hash and expiry needs an eleventh character, its time stamp is not 0, its operation is known and its key is not empty |
| RecordCodec.RoundTripExactly | server/sync.c:1301-1595 | it comes back unchanged if and only if, besides, its time stamp is positive and its expiry not negative |
| RecordCodec.ReadsBackOrStops | server/sync.c:1441-1470 | a decided record either comes back or makes the reader stop with EINVAL, whatever follows |
| RecordCodec.DecidedExactly | server/sync.c:1388-1470 | of what a handler can log, "decided" - no object id, no shift, or a value that has some byte other than a newline where the shift leads - is exactly that: the reader returns the record or stops whatever bytes follow; an undecided one is not readable and does not stop the reader at the end of the file |
| RecordCodec.MisreadExactly | server/sync.c:1388-1595 | when the reader returns a record at all for one with a number too wide, at the end of the file, and that this is then not the record that was written |
| RecordCodec.EmptyKey | server/sync.c:1441-1451 | a record with an empty key is written like any other and refused with EINVAL by the reader, whatever follows |
| RecordCodec.WideHash | server/sync.c:1388-1395 | a key hash of -10^9 or below shifts the later numbers by one field: with an object id and an expiry of 1 to 64 the reader returns some record exactly if it finds a newline that far behind the key, waits exactly if the file ends before, and in every other case stops with EINVAL |
| RecordCodec.WideExpiry | server/sync.c:1388-1395 | the same for an expiry of -10^9 or below, with its last digit in place of the 1 to 64 |
| RecordCodec.EncodedLength | server/sync.h:28-32 | a record takes the length computed for it, plus one character for each of time stamp, key hash and expiry that is -10^9 or below |
| RecordCodec.HeaderLayout | server/sync.c:1251-1263 | the eight fields of a header without a number too wide, right-aligned in decimal, at their places in its 61 bytes |
| RecordCodec.BodyLayout | server/sync.h:28-32 | behind the header: namespace, object id and key, each with a space behind it, the value and a newline |
| RecordCodec.Truncated | server/sync.c:1301-1595 | every proper byte prefix of an encoded record reads as "no entry yet", never as a record and never as an error |
| RecordCodec.ScanTooWide | server/sync.c:1388-1395 | an eleven-character number read by a ten-character field loses its last digit, which the next field reads |
| Decimal.ScanShown | server/sync.c:1388-1395 | a number printed right-justified in its field scans back, and the scan stops right behind it |
| Bytes.GetPutInt | common/shared_func.c:1142-1158 | a 32-bit integer written as four bytes reads back, sign included |
| Bytes.PutIntIs | common/shared_func.c:1142-1158 | the four bytes are the digits in base 256 of the number modulo 2^32, the most significant first |
| Binlog.LogIsFaithful | server/sync.c:1024-1274 | for every run of writes of any records of the C types and flushes: files in order and then the buffer are exactly the concatenated encodings; the buffer stays within its size if no number is too wide; and once the buffer is empty a reader from the start returns what was written if and only if all of it is readable |
| Binlog.WriteCommutes | server/sync.c:1203-1274 | writing any record to files and buffer is appending it to the history, and every file still ends on a record boundary |
| Binlog.FlushCommutes | server/sync.c:1024-1102 | flushing moves the pending records to the files without losing or reordering any |
| Binlog.RunRotates | server/sync.c:1024-1102 | over every run of writes and flushes, every file that has been left has reached the size limit and the one being written has not |
| Binlog.BufferBound | server/sync.c:1203-1274 | a write leaves the buffer within its allocation, or past it by exactly as many characters at most as the record has numbers of eleven characters; a record too long for the buffer leaves it empty |
| Binlog.BufferBoundExactly | server/sync.c:1218-1265 | over all contents of the buffer, the write of a record stays within the allocation if and only if it goes straight to the file or none of time stamp, key hash and expiry is -10^9 or below |
| Binlog.OverrunReached | server/sync.c:1244-1265 | for every record with such a number and room for another, two writes from an empty log leave the buffer one byte longer than its allocation for each such number |
| Binlog.ReadAt | server/sync.c:1301-1363 | a reader behind n records gets record n, and then stands behind n + 1, across rotations, if and only if it is flushed and readable; at a decided record that is not readable it gets EINVAL, at the end nothing, and stays behind n |
| Binlog.DrainAll | server/sync.c:1301-1595 | from any record boundary the reader returns the flushed records that follow, in order, as far as they are readable, all of them if and only if all are, and none behind the first that is not if that is decided |
| Binlog.TornTail | server/sync.c:993-1010 | on any byte prefix of the last file the reader returns exactly the complete records, then keeps answering "no entry" at the end of the last complete one |
| Binlog.AtIsStable | server/sync.c:1024-1102 | later writes and rotations move no reader position |
| BinlogFiles.BinlogWriter.Fsync | server/sync.c:1024-1102 | the flush of buffer, file, size and index is the flush of the log |
| BinlogFiles.BinlogWriter.DirectWrite | server/sync.c:1121-1201 | a record too long for the buffer reaches the file in three writes as its whole encoding, with rotation |
| BinlogFiles.BinlogWriter.Write | server/sync.c:1203-1274 | for every record of the C types the write to the global buffer or file is the write of the log, flushing first when it does not fit, unless the text overruns the buffer, which is exactly when the log would outgrow it and only with a number too wide |
| BinlogFiles.BinlogReader.Read | server/sync.c:1301-1595 | the three partial reads, the move to the next file and the rewind together are one step of the log reader; moving on writes the mark |
| Replication.Convergence | server/sync.c:1783-1885 | in every run of client writes (also failed ones) with any expiry, flushes, shipments with any outcome and any clocks, mark writes and reconnects, at a caught-up reader: owner and peer both hold the last value logged for a key - the peer with the expiry as one of its own clocks counted it - or both lack the key, if and only if no failed set has unlinked it at the owner; excepted are only keys whose last record is a set that had expired when the reader passed it: those the owner no longer shows, and the peer holds of them what the log once said |
| Replication.LastingConvergence | server/sync.c:1783-1885 | in every run in which no client sets an expiry no reader ever skips a key, and a caught-up peer holds exactly what the owner holds of a key if and only if no failed set has unlinked it at the owner |
| Replication.FailedSetDiverges | common/hash.c:672-693 | a concrete run: one set, one shipment and one failed set that unlinks the key leave a caught-up peer different |
| Replication.SkippedSetDiverges | server/sync.c:257-261 | a concrete run: a set without expiry is shipped, a later set has expired when the reader comes to it and is skipped; the caught-up peer goes on showing the old value, the owner shows nothing |
| Replication.NoEcho | server/sync.c:243-287 | in every run each replica record is a copy of a source record of another server's log, up to the clock that counts its expiry, and is shipped by no reader whose old-data sync is finished |
| Replication.CanCatchUp | server/sync.c:1783-1885 | from every state that keeps the invariant, a flush and shipments, record by record, bring a reader to the end of the log; the run returned contains both |
| Replication.StepKeeps | server/sync.c:250-309 | every action keeps the invariant that a peer holds, for each key of another server, the value of some prefix of that server's log or will still be sent a later one |
| Replication.RebasedShows | server/work_thread.c:404-409 | a receiver shows a value for as many seconds as were left when the command was stamped, unless the sum leaves 32 bits; without a stamp or a positive expiry the expiry stays as it is |
| Replication.OldDataIs | server/sync.c:243-287 | what a reader sends of a record, in every state of the old-data synchronisation: nothing of what has expired, source records as replicas, and replica records only up to the joining time of a peer that still needs them |
| ReplicationBytes.RunSame | server/sync.c:1301-1885 | every run over files, buffers, offsets and marks that logs only decided records is a run over records, and what it appends to each log is what its steps write |
| ReplicationBytes.Convergence | server/sync.c:1783-1885 | convergence for the system over bytes, for every run that logs only decided records, readable or not: once a reader finds nothing more and the buffer is empty, the stores stand to the log of the sender as in the convergence over records |
| ReplicationBytes.LastingConvergence | server/sync.c:1783-1885 | over bytes, for all that the handlers accept, readable or not: if no client sets an expiry, no reader skips a key, and once one finds nothing more and the buffer is empty, both stores hold the same of each key of the sender if and only if it is not lost |
| ReplicationBytes.ClientsDecide | server/work_thread.c:404-409 | a run logs only decided records if what its clients send is decided and stays so as the clocks of the receivers count its expiry |
| ReplicationBytes.ReaderNeverLost | server/sync.c:814-945 | in every run whose first unreadable record in this log, if any, is decided, whatever happens to the other logs: a reader, wherever a stale mark sends it, stands behind some number of readable records; it then gets the next one if that is flushed and readable, nothing if it is not flushed, and EINVAL exactly if it cannot be read |
| ReplicationBytes.NeverStopped | server/sync.c:1441-1451 | if clients send only records that are readable, also with the expiry as the clocks of the receivers count it, everything logged is readable and no reader ever meets bytes it cannot parse |
| ReplicationBytes.CatchUpExactly | server/sync.c:1783-1885 | whatever has happened so far, the run can go on so that a reader catches up if and only if every record in its log is readable - where the first that is not is decided, and whatever is sent afterwards |
| ReplicationBytes.UnreadableStops | server/work_thread.c:496-529 | one accepted, decided set that is not readable - an empty key, say - and one flush: the reader gets EINVAL, and no continuation of the run lets it catch up |
| ReplicationBytes.UndecidedMisleads | server/sync.c:1388-1595 | one accepted, undecided set and one flush: if the shift does not lead past the record, the reader returns one that was never logged; otherwise it finds nothing and counts as caught up while the peer lacks the key |
| ReplicationBytes.MisreadRecord | server/work_thread.c:404-409 | for every value of seven bytes and every time: the largest expiry, stamped one second before the clock of the server, is accepted, becomes the least 32-bit number and is read back as another record |
| FullKeys.PackLayout | common/fdht_types.h:39-55 | a full key is namespace, object id and key one behind the other, with a byte 1 behind the first and behind the second |
| FullKeys.PackExactly | common/fdht_types.h:39-55 | of keys without a byte 1 in namespace and object id two have the same full key if and only if they are the same |
| FullKeys.SharedExactly | common/fdht_types.h:39-55 | over all keys, one shares its full key with another if and only if a byte 1 is in one of its parts |
| Shipping.Peer.DealSet | server/work_thread.c:1607-1692 | for every request: EINVAL without effect exactly for an empty key with an empty value or a client's use of the list key; otherwise store and log change as the step of the replicated system says, for success and for failure, unless the record overruns the log's buffer; success stores the value under its full key behind the expiry as the server's clock counts it and logs the same with the server's time for a client and the sender's for a peer; every other key without a byte 1 in namespace and object id keeps its value |
| Shipping.Peer.DealDel | server/work_thread.c:1705-1769 | EINVAL for an empty or list key, ENOENT for a missing one, both without effect; otherwise the step of the replicated system, unless the record overruns the log's buffer, with the logged record spelt out; every other key without a byte 1 in namespace and object id keeps its value |
| Shipping.Peer.DealInc | server/work_thread.c:1784-1879 | an increment stores the number its value stands for plus the amount, returns it and logs it as a set with the expiry it has in the store; a value that a get does not show, missing or expired, counts as zero; EINVAL without effect exactly for an empty or list key; every other key without a byte 1 in namespace and object id keeps its value |
| Shipping.Turn | server/sync.c:1783-1850 | one turn of the sync loop - read, skip or send, mark, rewind or advance - changes reader and receiver exactly as the shipping step does, for any log and any clocks, unless the record overruns the receiver's buffer, and reports an unreadable log |
| Routing.GetConnection | client/fdht_client.c:199-254 | the chosen server is the first connected or connectable one in circular order from the home of the hash code, none is chosen only if none is up, and while the home server is up it is chosen |
| Routing.HomeIs | client/fdht_client.c:207-213 | the home of a hash code is the number with its low 15 bits at the top and its high half at the bottom, modulo the number of servers |
| Recovery.RecoverData | server/db_recovery.c:298-396 | the replay loop applies to the store exactly the records behind the mark, in order, up to the first read without a record, and returns how that read ended |
| Recovery.RecoveryInit | server/db_recovery.c:44-143 | start-up leaves the store as replaying everything behind the mark would, also when it decides to replay nothing, and fails exactly if the replay does not end at the end of the log |
| Recovery.RecoveryEnds | server/db_recovery.c:298-396 | a replay whose first unreadable record, if any, is decided ends at the end of the log if and only if every flushed record behind the mark is readable |
| Recovery.CrashRecovery | server/db_recovery.c:145-185 | after any run of logged writes, flushes, page writes and trickle flushes, if the flushed records behind the mark are readable, a crash and one replay from the mark end well and give every key the value of some prefix of the history no shorter than the flushed log, and of the flushed log itself if no unflushed record touches the key |
| Recovery.RecoveryExactly | server/db_recovery.c:298-396 | a replay, up to its first unreadable record if that is decided, gives a key its logged value if and only if a record it has replayed touches it or the disk already held that value |
| Recovery.PageAheadOfLog | server/work_thread.c:1852-1861 | a concrete run in which a page reaches disk before its log record, so that recovery is ahead of the log |
| Recovery.UndecidedLost | server/db_recovery.c:298-396 | for every set whose shift leads past the end of the file: it is flushed, the replay ends well, and the key is gone |
| Recovery.StepKeeps | server/db_recovery.c:145-185 | every step keeps the disk explained by a history no shorter than the mark, for each key |
| Compress.CompressionPreserves | tool/fdht_compress.c:617-850 | replaying the compressed file from empty shows, at any time not before the compression, what replaying the original shows |
| Compress.CompressedLast | tool/fdht_compress.c:542-615 | the last record of a key survives if it is live, and otherwise nothing of that key does |
| Compress.CompressedUnique | tool/fdht_compress.c:773-850 | every key appears at most once |
| Compress.Idempotent | tool/fdht_compress.c:617-850 | compressing again at the same time changes nothing |
| Compress.CompressionInPlaceExactly | tool/fdht_compress.c:617-850 | compressing one file of a longer log keeps the meaning of the log if and only if no key it drops is still visible through the files before it |
| Compress.CompressionResurrects | tool/fdht_compress.c:542-615 | a set in one file and its delete in the next: compressing the second makes the key visible again |
| Compress.SortLast | tool/fdht_compress.c:704-718 | a stable sort by key keeps the last row of every key last |
| CompressFile.ScanRows | tool/fdht_compress.c:385-540 | the scan loop finds one row per record, also for empty keys and negative expiries, with its key text, expiry as an unsigned number, operation, offset and length |
| CompressFile.KeyTextFits | tool/fdht_compress.c:635 | the encoded key and its final zero stay within the buffer for them if and only if namespace, object id and key have no more than 316 bytes together |
| CompressFile.CopySelected | tool/fdht_compress.c:773-850 | the loop over previous and current row copies exactly the bytes of the last live record of every key |
| CompressFile.CompressBinlogFile | tool/fdht_compress.c:617-850 | the output file is the encoding of the compressed log |
| HashTable.HashArray.Insert | common/hash.c:611-741 | the table refines a map: success sets the key, failure loses at most this key; the value goes into the existing allocation exactly if that is large enough and, above 128 bytes, less than twice too large, and -ENOSPC comes exactly if a node of 32 bytes with the key and the value rounded up to 8 bytes would exceed the cap; counts and bytes stay exact and the byte cap is kept |
| HashTable.HashArray.BytesAre | common/hash.h:32-33 | in every valid table the byte counter is 8 per bucket plus 32 per item plus the lengths of all keys plus the sizes allocated for all values |
| HashTable.HashArray.ContentsBound | common/hash.c:689-693 | so under a cap the keys and values of all entries, with 32 bytes each, never exceed it, and the item count is the number of entries |
| HashTable.HashArray.Inc | common/hash.c:771-820 | the new value is computed from the old one and stored, in place whenever it fits, and otherwise decided as the insertion of it, whose failure loses the key and no other |
| HashTable.HashArray.PartialSet | common/hash.c:822-891 | overwrites or extends part of a value; EINVAL and ENOENT exactly for a bad offset or a missing key, and then nothing changes, nor without memory to put the longer value together; a part within the value succeeds, anything else is decided as the insertion of the new value, whose failure loses this key alone |
| HashTable.PatchedIs | common/hash.c:822-891 | byte by byte, a partial set puts the part at its offset and keeps everything before and behind it |
| HashTable.HashArray.Delete | common/hash.c:893-924 | removes exactly the key, ENOENT exactly if it is not there |
| HashTable.HashArray.Find | common/hash.c:518-552 | finds a node exactly if the map holds the key, with its value |
| HashTable.HashArray.Rehash | common/hash.c:315-359 | a rehash to any capacity keeps the map, refused or not; a refusal changes nothing at all |
| HashTable.HashArray.MaybeRehash | common/hash.c:361-406 | the table grows to the next prime exactly if its load has reached the factor, there is such a prime, memory for it and room under the cap; map and cap are kept |
| HashTable.HashArray.Init | common/hash.c:73-116 | an empty table whose capacity is the least prime of the list above the asked one; EINVAL exactly from the last prime on, ENOMEM exactly without memory |
| HashChains.RehashKeeps | common/hash.c:315-359 | moving every node into a bucket array of another size changes nothing but the places |
| HashChains.LookupBucket | common/hash.c:518-552 | the whole table knows a key exactly as the bucket its hash selects does |
| HashChains.RemoveNode | common/hash.c:193-211 | unlinking a node removes exactly its key, one item and its bytes |
| HashChains.AddNode | common/hash.c:193-211 | linking a node of a new key adds exactly that key, one item and its bytes |
| HashLinks.Bucket.FindEntry | common/hash.c:632-643 | the walk along a chain stops at the first node with the key, with the node before it, or at the end exactly if the chain has none |
| HashLinks.Bucket.AddToBucket | common/hash.c:193-196 | linking in front through the pointers puts the node before the chain, and the chain stays well linked |
| HashLinks.Bucket.DeleteFromBucket | common/hash.c:199-211 | unlinking through the previous pointer, or the head, takes exactly that node out of the chain |
| HashLinks.Bucket.Sweep | server/mpool_op.c:405-450 | relinking behind the last node that stays leaves exactly the live nodes of the chain, in order and well linked |
| MemoryPool.Pool.Clear | server/mpool_op.c:350-471 | removes exactly the entries with a nonzero expiry not after now, returns their number with all counters exact, or does nothing while a sweep runs or the last is too recent; every get at a later time sees what it would have seen without it, and what stays is shown by some such get |
| MemoryPool.SweptExactly | server/mpool_op.c:418-431 | the sweep keeps an entry if and only if some get at a later time shows it; it takes one that a get at the same time still shows exactly if that expires then |
| MemoryPool.Pool.SweepBucket | server/mpool_op.c:405-450 | one chain keeps exactly its live nodes in order, counters lowered by the others |
| MemoryPool.Pool.Set | server/mpool_op.c:167-228 | at most two insertions, with one sweep between them, the result decided exactly: that of the first unless it ran out of space with sweeping on, then ENOSPC if the sweep was not due or found nothing expired but this key, and otherwise that of an insertion with the bytes the sweep leaves; success leaves the key set, failure leaves it absent; apart from the key only expired entries are lost |
| MemoryPool.Pool.Inc | server/mpool_op.c:328-348 | the counter becomes its old number plus the increment with the new expiry, or the increment alone if a get does not show it; or the key alone is lost, exactly if the text does not fit its allocation and an insertion fails |
| Counters.CounterSums | server/mpool_op.c:288-326 | over every run of increments with any expiries and times, and of removals, the stored text is the 64-bit sum of all increments since the last one that found the counter missing or expired, behind the expiry of the last |
| Counters.IncAdds | server/mpool_op.c:288-326 | incrementing a live counter replaces its text by that of the 64-bit sum |
| Counters.StaleRestarts | server/mpool_op.c:300-305 | a value whose expiry is not 0 and before now is replaced by the increment alone |
| Counters.OthersRestart | server/mpool_op.c:296-312 | so is a missing value, and one of 31 bytes or more |
| Counters.StrToLLShow | server/mpool_op.c:312-324 | a 64-bit number printed in decimal reads back |
| Counters.StrToLLIs | server/mpool_op.c:312-324 | spaces, an optional sign and digits, up to the first other byte, read as the number of the digits, cut to 64 bits |
| AvlTree.PutCorrect | common/avl_tree.c:80-313 | insert and replace keep search order and true balances, report truthfully and change the element set by exactly what they report |
| AvlTree.DeleteCorrect | common/avl_tree.c:427-637 | delete keeps search order and true balances and removes exactly the element with the key, found or not |
| AvlTree.AfterLeftInsertOk | common/avl_tree.c:80-117 | the insert rebalancer is never entered with a level child, its new balances are true and "taller" tells the truth |
| AvlTree.AfterRightInsertOk | common/avl_tree.c:119-156 | the mirror image on the right |
| AvlTree.AfterLeftDeleteOk | common/avl_tree.c:468-507 | after a deletion on the left the balances are true and "shorter" tells the truth |
| AvlTree.AfterRightDeleteOk | common/avl_tree.c:427-466 | the mirror image on the right |
| AvlTree.CutMaxCorrect | common/avl_tree.c:509-534 | the element handed up is the greatest and exactly it is gone |
| AvlTree.HeightBound | common/avl_tree.c:732-758 | a tree of height h has at least Fib(h + 2) - 1 elements |
| AvlTree.FindGeCorrect | common/avl_tree.c:359-393 | the least element not below the target, or none if and only if there is none |
| AvlTree.RefinesMap | common/avl_tree.c:158-637 | over every run of inserts, replaces and deletes the tree is an AVL tree holding exactly a map's entries |
| AvlNodes.RotateNodeLeft | common/avl_tree.c:66-71 | the pointer rotation is the rotation of the tree and uses the same nodes |
| AvlNodes.RaiseNodeLeft | common/avl_tree.c:427-466 | single and double rotation through pointers give the rebalanced tree on the same nodes |
| AvlNodes.RaiseNodeRight | common/avl_tree.c:468-507 | the mirror image on the right |
| AvlNodes.PutNode | common/avl_tree.c:158-313 | the recursive insertion through node pointers builds the tree of the specification and touches no node outside it |
| AvlNodes.DeleteNode | common/avl_tree.c:509-637 | the recursive deletion through node pointers, with the predecessor's data copied up, builds the tree of the specification |
| AvlNodes.CutMaxNode | common/avl_tree.c:509-534 | the greatest node is unlinked and its data moved into the target node |
| AvlNodes.TreeInfo.Insert | common/avl_tree.c:229-236 | inserting into the tree of nodes is inserting into a map: 1 for a new key, 0 for a known one, -ENOMEM without memory |
| AvlNodes.TreeInfo.Replace | common/avl_tree.c:315-322 | replacing sets the key's payload, known or new |
| AvlNodes.TreeInfo.Delete | common/avl_tree.c:639-650 | deleting removes the key from the map and reports whether it was there |
| AvlNodes.TreeInfo.Find | common/avl_tree.c:395-408 | finds exactly what the map holds |
| AvlNodes.TreeInfo.FindGe | common/avl_tree.c:410-425 | the entry with the least key not below the target, or none if and only if all keys are below |
| AvlNodes.TreeInfo.Depth | common/avl_tree.c:732-758 | following the balance bytes down one path gives the true height, which the Fibonacci bound limits by the number of entries |
| WheelTime.WheelIsExact | common/fast_timer.c:43-174 | over every run of adds, removes, modifications that extend by less than a full turn and hand-outs, the wheel hands out exactly what a plain map from entry to expiry would |
| WheelTime.PromptExactly | common/fast_timer.c:105-174 | an entry is handed out exactly when due by every future series of hand-outs if and only if a local condition on slot, expiry and flag holds |
| WheelTime.ModifyExactly | common/fast_timer.c:58-75 | a modification keeps that promise if and only if it does not lengthen by whole turns an entry that sits outside the slot of its new expiry |
| WheelTime.TwoExtensionsStrand | common/fast_timer.c:71-73 | a concrete entry lengthened twice, the second time by one full turn, which is then handed out late |
| WheelTime.ShortNeverStrands | server/work_thread.c:127-128 | an extension shorter than a full turn never strands an entry |
| WheelTime.SettledNeverStrands | common/fast_timer.c:58-75 | an entry without a pending move that is not overdue can be lengthened by any amount |
| WheelTime.StepRefines | common/fast_timer.c:43-174 | one operation on a wheel that keeps time is that operation on the plain map, and it keeps keeping time exactly if it strands no entry |
| WheelTime.RunRefines | common/fast_timer.c:43-174 | the same over every run that strands nothing |
| TimingWheel.Timer.Init | common/fast_timer.c:9-27 | EINVAL exactly for a non-positive slot count or time, otherwise an empty wheel |
| TimingWheel.Timer.Add | common/fast_timer.c:43-56 | linking an entry into its slot list keeps all lists well linked and is the addition to the wheel |
| TimingWheel.Timer.Remove | common/fast_timer.c:77-94 | unlinking is the removal from the wheel; ENOENT exactly if the entry was detached |
| TimingWheel.Timer.Modify | common/fast_timer.c:58-75 | an earlier expiry moves the entry at once, a later one only sets expiry and flag; a detached entry is added by an earlier expiry and stays out otherwise |
| TimingWheel.Timer.DrainSlot | common/fast_timer.c:127-166 | the walk over one slot list splices the expired runs out, moves flagged entries and leaves the rest, with the lists well linked throughout |
| TimingWheel.Timer.Timeouts | common/fast_timer.c:105-174 | the result list is well linked, holds each due entry once and has the returned length; the wheel afterwards is the drained wheel |
| SubKeyLists.RunIsSet | server/key_op.c:164-622 | over every safe run of adds and deletes the list is strictly sorted and holds exactly the keys added and not since deleted |
| SubKeyLists.StepExactly | server/key_op.c:164-622 | one operation on a sorted list gives the sorted list of the resulting set if and only if it is safe, a condition on the list length and the key positions |
| SubKeyLists.AddExactly | server/key_op.c:340-516 | the list afterwards holds exactly the old and new keys, and is sorted without repetition if and only if each new key lies below the 4096th key or above the last, or the list is short enough |
| SubKeyLists.DelExactly | server/key_op.c:518-622 | the list stays sorted, and is the difference if and only if no key to delete lies behind the column limit |
| SubKeyLists.MergeIsUnion | server/key_op.c:415-494 | the merge loops give the sorted union, also for repeated batch keys |
| SubKeyLists.DiffIsDifference | server/key_op.c:564-617 | the difference loops give the sorted difference |
| SubKeyLists.SplitJoin | common/shared_func.c:705-741 | splitting a stored list gives its keys back, the last ones lumped together when there are more than the limit |
| SubKeyLists.TooManyKeys | common/fdht_types.h:28-29 | 4097 two-byte keys added one by one from the empty list, each addition safe, fit the size limit; adding the 4096th of them again breaks the order |
| SubKeyLists.LongKeysAreSafe | common/fdht_types.h:28-29 | lists of keys of at least fifteen bytes can never reach the column limit |
| SubKeyIndex.SplitEx | common/shared_func.c:705-741 | the splitting loop gives the bounded columns |
| SubKeyIndex.Index.Get | server/key_op.c:87-117 | reading the stored value gives the columns of the list and the length the size check starts from |
| SubKeyIndex.Index.Add | server/key_op.c:164-268 | result code and new stored value of adding one key; the output buffer is never overrun, and the value is again a sorted list exactly if the addition was safe |
| SubKeyIndex.Index.Delete | server/key_op.c:270-338 | the same for deleting one key |
| SubKeyIndex.Index.BatchAdd | server/key_op.c:340-516 | the same for a batch: refused exactly when the sizes exceed the limit, left alone when nothing is new |
| SubKeyIndex.Index.BatchDelete | server/key_op.c:518-622 | the same for a batch of deletions; an emptied list is deleted |
| SubKeyIndex.MergeInto | server/key_op.c:415-479 | the loops that write through a moving pointer write the merge, within the buffer, and count no addition exactly as the columns stay |
| SubKeyIndex.DiffInto | server/key_op.c:564-617 | the loops of the batch delete write the difference, within the buffer |
| BatchSet.Handle | server/work_thread.c:695-857 | although the response overwrites the request while it is being read, store calls, result code, response bytes and length are those of parsing the whole message first, for every message in which reading comes to no negative value length; that is detected exactly, with the calls made by then |
| BatchSet.SetPairs | server/work_thread.c:745-822 | the write position stays at least four bytes behind the read position, so the bytes still to be parsed are the original ones, up to a value of negative length |
| BatchSet.OddDiffers | server/work_thread.c:779-803 | at a negative value length the store is asked once more than for a message parsed first, unless the length is below -4 |
| BatchSet.NegativeLength | server/work_thread.c:779-830 | a message with a value length of -1 that holds no second pair, while the buffer, once the expiry is written, does |
| BatchSet.EndToEnd | client/fdht_client.c:559-673 | for every request the client can send, each pair is set in order, under its full key, with the expiry of the header counted from the server's clock in front of the value, and if any set succeeds the response has the length the client checks and reads back as key count, success count and each key with its status |
| BatchSet.ResponseLength | client/fdht_client.c:631-640 | a response has 8 + 5n + total key bytes |
| BatchFormat.RequestRoundTrip | server/work_thread.c:434-492 | the server reads back namespace, object, count and pairs of the request the client packed |
| Scheduler.Context.Pass | common/sched_thread.c:316-374 | a pass runs exactly the due tasks, once each and in order; afterwards the chain runs through all entries from head to tail in order of time, the entries are those of the pass rescheduled, and all times lie within one 32-bit interval of the clock |
| Scheduler.Context.Loop | common/sched_thread.c:276-376 | over every run of passes at rising times: a pass runs a task if and only if its time has come - at first its own, then its interval after the pass that ran it last - and ids and intervals never change |
| Schedule.Spaced | common/sched_thread.c:316-330 | a task that ran in one pass runs in no later pass before its interval is over, and in the first pass at or after that |
| Scheduler.Context.Init | common/sched_thread.c:30-106 | EINVAL exactly if an interval is not positive; otherwise the chain holds every task at its first time, in order |
| Scheduler.Context.Splice | common/sched_thread.c:344-373 | linking the executed nodes back one by one gives a sorted chain through all entries |
| Scheduler.Context.InsertNode | common/sched_thread.c:346-373 | one node is linked at the tail or before the first entry not earlier, and the chain stays sorted |
| Scheduler.Context.Execute | common/sched_thread.c:316-330 | walking the chain while tasks are due runs exactly the due tasks |
| Scheduler.Context.MakeChain | common/sched_thread.c:108-131 | the chain after sorting is the sorted array, head and tail included |
| Scheduler.Context.Rechain | common/sched_thread.c:108-131 | sorting and linking anew permutes the entries and leaves them in order of time if no two times are 2^31 seconds apart |
| Scheduler.Context.CheckWaiting | common/sched_thread.c:133-260 | a pending deletion and the waiting entries are applied and the chain rebuilt, in order of time if no two times are then 2^31 seconds apart; ENOENT exactly leaves everything as it was |
| Scheduler.LateEnough | common/sched_thread.c:133-260 | with no task late by more than L, waiting tasks due within less than 2^31 - L seconds keep the times that close |
| Scheduler.WantedIsMap | common/sched_thread.c:133-260 | in terms of a map from id to task, that is one removal and then one update per waiting entry |
| Schedule.CompareExactly | common/sched_thread.c:24-28 | the comparison function, which cuts a time difference to 32 bits, orders two tasks by time if and only if the difference survives the cut |
| Schedule.OrderExactly | common/sched_thread.c:108-131 | over all sort functions that keep the promise of `qsort`, a list ends up in order of time if and only if no difference of two of its times is lost in the cut |
| Schedule.LateExactly | common/sched_thread.c:24-28 | of a task late by L and a new one with interval I every way to sort puts the late one first if and only if L + I is below 2^31 |
| Schedule.LateMisordered | common/sched_thread.c:24-28 | two seconds late and an interval of 2^31 - 1: the new task goes in front of the overdue one |
| Schedule.PassBounds | common/sched_thread.c:316-330 | after a pass all times lie within one interval of the clock, so they can be compared |
| Schedule.FirstDueExactly | common/sched_thread.c:61-89 | the first time of a task with a time base is the first moment after now a whole number of intervals from that base |
| Md5Context.Context.Update | common/md5.c:89-127 | buffering keeps the state equal to the fold over the whole blocks, the rest in the buffer, and the count words equal to the bit length, for every chunk the block loop does not run out of, and it runs out of exactly those where its condition wraps |
| Md5Context.Context.Final | common/md5.c:129-158 | the digest is that of the message padded as in sections 3.1 and 3.2 of RFC 1321, and the context is cleared |
| Md5Context.Hash | common/md5.c:73-158 | however a message is cut into chunks of up to 2^32 - 1 bytes, the digest is that of the message, unless the block loop runs past the end of a chunk, which is decided exactly and never happens to chunks 64 bytes short of 2^32 |
| Md5.CountBits | common/md5.c:101-104 | the two count words stay the bit length modulo 2^64, carry included |
| Md5.PaddedFills | common/md5.c:142-149 | the padded message fills whole blocks and is at most 72 bytes longer |
| Md5.PaddedLayout | common/md5.c:134-150 | the padded message is the message, a byte 128, zeros, and eight bytes that are the bit length modulo 2^64 in base 256, the least significant first |
| Md5.DigestLayout | common/md5.c:259-270 | the digest holds the four words of the final state in turn, each in base 256, the least significant byte first |
| Md5.InitialWords | common/md5.c:83-86 | the state starts as the sixteen bytes of section 3.3 of RFC 1321 |
| Md5.InsideExactly | common/md5.c:116 | whenever the block loop comes to a block that block lies within the chunk, if and only if the loop condition does not wrap around 32 bits at the last index |
| Md5.IndexableExactly | common/md5.c:116 | the loop condition does not wrap around 32 bits for any buffer fill if and only if the chunk is at least 64 bytes short of 2^32 |
| Base64.RoundTrip | common/base64.c:119-392 | decoding a padded encoding returns the input, for every line length and every separator outside the alphabet |
| Base64.QuadIs | common/base64.c:196-216 | three bytes in base 256 are the same number as their four letters in base 64 |
| Base64.RoundTripAuto | common/base64.c:257-302 | without line breaks the automatic decoder also inverts the unpadded form |
| Base64.LengthExact | common/base64.c:97-117 | for line lengths that hold whole groups the computed length is the exact length of the padded form |
| Base64.LengthExactly | common/base64.c:97-117 | with a separator, the computed length is right for every input if and only if the line length is a multiple of four (zero included) |
| Base64.Injective | tool/fdht_compress.c:617-700 | two inputs have the same unpadded form only if they are equal |
| Base64.FeedCounts | common/base64.c:330-388 | the decoder's position in a group, output length and padding count are those of the letters in the input |
| Base64Context.Context.constructor | common/base64.c:55-95 | the two tables filled by loops are a well-formed alphabet and its inverse |
| Base64Context.Context.Encode | common/base64.c:119-255 | the encoding loop writes the encoded form, line breaks and padding included |
| Base64Context.Context.Decode | common/base64.c:309-392 | the decoding loop with its cycle counter computes the decoded bytes; the computed length is negative exactly if the input has more padding than decoded bytes |
| Base64Context.Context.DecodeAuto | common/base64.c:257-302 | the padding is completed before decoding, with the same exact condition |

## Left out

- Sockets, event loops, connection set-up, thread creation, locks and lock striping: each request handler is one atomic step, and what a send or connect returns is a parameter.
- Berkeley DB internals: the persistent store is a map in memory and a map on disk, pages reaching disk one key at a time.
- Disk write failures, logging, daemon control, configuration files, the PHP extension and the command-line tools other than the compressor.
- ReplicationBytes.Convergence: is stated for runs that log only decided records; `ReplicationBytes.UndecidedMisleads` shows that it fails for one undecided record, and `ReplicationBytes.ClientsDecide` says which client requests keep a run clear of them.
- A get that changes an expiry, which is not logged.
- The first-join handshake for old data: peers are present from the start of every log, and marks written by recovery itself are not modelled.
- The capacity search of `hash_best_op` and growth past the last prime of the table; `HashTable.HashArray.Rehash` covers any capacity.
- Hash functions and the CRC table: the hash is an arbitrary function.
- `qsort` and the external sort program: any sorted permutation, and a stable sort in byte order; locale collation is not modelled.
- The temporary text file of the compressor: rows are values, not lines of text.
- Values kept in caller-owned memory by the hash table (`is_malloc_value` false).
- The whole table over linked nodes: the pointer work on a chain is modelled for one bucket in `HashLinks`, while `HashTable.HashArray` holds each chain as a sequence.
- The increment of the persistent store: `Shipping.Peer.DealInc` is the one of the memory pool.
- The MD5 block transform: an arbitrary function from state and block to state.
- `fast_timer_slot_get`, which nothing calls, and re-adding an entry while the list it was handed out in is still being walked.
- Keys with a separator byte, a zero byte or no byte at all in sub-key lists: the list format cannot carry them.
- The binlog record of a sub-key list change, and the sub-key bookkeeping of the set, delete and increment handlers.
- BatchSet.Handle: stops at a negative value length, after the store call it leads to, and does not follow the code into the overwritten bytes; and the sorting of the successful keys for the sub-key index is not part of it.
- Scheduler.Context.Pass: is a pass with the continue flag kept set; sleeping, and the calendar arithmetic that turns an hour and minute into a time base, are not modelled.
- Md5Context.Context.Update: does not say what the context holds once the block loop has run past its chunk.
- BinlogFiles.BinlogWriter.Write: does not say what the memory behind the buffer holds once a record has overrun it.
- Recovery.CrashRecovery: covers one crash and marks written by trickle flushes, and logs that are readable behind the mark; `Recovery.RecoveryExactly` says what a replay does up to an unreadable record.
- Shipping.Turn: is a turn with old-data sync finished; heart beats are not modelled.

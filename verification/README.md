# Verification of mini_redis

This project models the storage engine of mini_redis, a key-value store with a Redis-like command
layer over a multi-version LSM tree, and three algorithms of the muduo library that comes with it.
It proves what each part promises, for all inputs and along all runs. `dafny verify dfyconfig.toml`
checks the whole project.

The parts, from the bottom up:

- **Keys, versions.** `Keys.dfy` orders keys and defines prefixes; `Versions.dfy` defines a store of
  versions (key and transaction id to value), "the newest version with id at most t", and the
  lookups that must find it. An empty value is a deletion, and t = 0 means any id.
- **Skip list.** `SkipNet.dfy`, `SkipUnlink.dfy` and `SkipList.dfy` model the skip list with its
  forward and backward pointers as objects updated in place.
- **Blocks, filters, tables on disk.** `Bytes.dfy`, `Block.dfy`, `BlockSearch.dfy`, `BlockMeta.dfy`,
  `Bloom.dfy`, `Cutting.dfy`, `SstFile.dfy`, `Sst.dfy`: byte formats and their inverses, binary
  searches over encoded entries, the table builder and the search of a table.
- **Memtable and engine.** `MemTable.dfy`, `Layers.dfy`, `Engine.dfy`: active and frozen tables,
  files of level 0 and of the lower levels. The invariant of `Layers.dfy` is that for each key the
  ids of a newer source are never below those of an older one; it makes "first match" right.
- **Log, recovery, transactions.** `Record.dfy`, `Wal.dfy`, `Recovery.dfy`, `Transactions.dfy`, and
  `Restart.dfy` for files and log together after a crash.
- **Scans.** `HeapScan.dfy` (heap merge of a memtable), `Iterators.dfy` (block, table, concatenated
  and two-way merged iteration), `Compaction.dfy` (cutting a stream into files),
  `LevelCompaction.dfy` (compacting a level into the next).
- **Block cache.** `BlockCache.dfy`: the LRU-K cache.
- **Redis hashes and lists.** `RedisText.dfy`, `Redis.dfy`, `RedisRuns.dfy`: string encodings that
  refine a map of fields and a double-ended sequence, command by command and over every run.
- **Exact cover.** `Rings.dfy`, `DancingLinks.dfy`, `Building.dfy`, `SudokuRules.dfy`,
  `SudokuMatrix.dfy`, `Sudoku.dfy`: dancing links on an array of nodes, and the sudoku solver on it,
  proved sound and complete.
- **Timers.** `TimerQueue.dfy`: the timer queue of the event loop, with callbacks that add and
  cancel timers.
- **Calendar.** `Date.dfy`, `TimeZone.dfy`: day numbers, broken-down time, and conversion by a table
  of transitions.

Classes model what the source updates in place. Their methods are proved against functions on
values, and the lemmas say what those functions mean. Random tower heights and bits, hash values,
clock readings and addresses handed out by the allocator are parameters of the methods, so every
claim holds for every choice of them. Integers are unbounded; where a width matters it is written
out (16-bit ids and offsets in blocks, 64-bit ids in files, the unsigned comparison in LRANGE,
truncating division in the calendar).

Some things the code does differ from what its comments or callers expect; the model follows the
code and states exactly when the expectation holds:

- Ids read back from a block are narrowed to 16 bits. A lookup errs only by giving a version too new
  for t whose narrowed id is not, at every level up to the engine (`BlockSearch.Block.GetIndexBinary`,
  `Engines.Engine.Get`). It is right whenever narrowing does not change which ids of the key t may see:
  for every t if they are below 65536, and for every t that none of them exceeds; from t = 65535 on, for
  no other (`BlockSearch.WideExample`). Reads without a transaction are always right
  (`Engines.GetNewest`).
- A write with an id below one that stands in an older table for the key can bury the newer version
  (`Layers.UncheckedWrite` gives the exact condition, `Layers.BuriedExample` the smallest case).
  The conflict check at commit prevents this for REPEATABLE_READ and SERIALIZABLE as long as the
  older tables are in memory. It does not see table files: a commit it lets pass keeps reads right
  if and only if no file holds a newer version of a written key (`Layers.CommitOverFiles`).
- Replay skips ids at or below the greatest flushed one, so a transaction that commits late, under a
  smaller id than one already flushed, is lost at a restart (`Restart.Restarted` gives the exact
  condition, `Restart.LateCommitLost` a run). Only flushing everything raises the watermark; after
  any other flush replay can put an older version above a newer one in a file
  (`Restart.PlainWriteBuried`).
- Cutting a merged stream into files drops the tail after the last full file when that is one pair
  or fits one block (`Compaction.GenFiles`, `Compaction.OnePairLost`). For the keys of that tail a
  compaction loses what the two levels held; for all others it gives every reader their newest
  version, whatever its id (`LevelCompaction.CompactedStack`).
- LRANGE with a stop below minus the length takes everything to the end (`Redis.CutRange`).
- A timer cancelled by an earlier callback of its own batch still runs in that batch
  (`TimerQueues.CancelledTooLate`), and a cancellation handled before the insertion it is meant for
  is lost (`TimerQueues.CancelledTooEarly`). After any other cancellation the timer is in no later
  batch.
- A moment whose local time is repeated after the first or last transition of a zone is not
  recovered by either choice (`TimeZones.EitherRecovers`, `TimeZones.LostExample`).
- A local time that the first transition of a zone skips is taken by the old offset, whatever the choice
  (`TimeZones.SkippedBack`).
- A decoded day number is a date exactly from 1 March -4800 on (`Dates.ProperFrom`).
- Keys with underscores can share stored hash fields: two keys do exactly when one, with its
  separator, begins the other (`RedisText.FieldsClash`, `RedisText.ClashExample`).

## Model

| member | source | states |
|---|---|---|
| Keys.LessMeaning | src/skiplist/skipList.cpp:87 | the order of keys is that of their bytes: one key is before another if and only if it is a proper beginning of it or has the smaller byte where they first differ |
| Keys.PrefixDirectionMeaning | src/block/block.cpp:387-392 | the three-way prefix test answers 0 exactly on the keys with the prefix, and points right exactly from the keys below it |
| Keys.PrefixSteps | src/redis_wrapper/redis_wrapper.cpp:230 | along ascending keys the answer of the prefix test never goes back: it is monotone |
| Keys.BeyondPrefix | src/skiplist/skipList.cpp:308-338 | a key that is neither below a prefix nor has it lies above every key that has it |
| Versions.NewestUnique | src/skiplist/skipList.cpp:156-196 | at most one version answers "the newest version of k with id <= t" |
| Versions.LookupIsNewest | src/skiplist/skipList.cpp:156-196 | on versions sorted by key up and id down, the first visible version of the key is the newest one with id <= t (any id when t is 0), and there is none exactly when no such version exists |
| Versions.FirstMatchIsNewest | src/memtable/memtable.cpp:69-115 | if ids in a newer table are never below those of the same key in an older one, the first table with a visible version decides rightly for every key and every t |
| SkipNet.InsertStep | src/skiplist/skipList.cpp:128-150 | linking a new node into one level keeps the whole structure: every chain sorted and a sub-chain of the one below, backward pointers the exact inverse of forward pointers, levels above the current one empty |
| SkipUnlink.BypassStructure | src/skiplist/skipList.cpp:218-233 | after all pointers around a removed node have been bypassed, level by level and both ways, the remaining nodes satisfy the whole structure again |
| SkipUnlink.BypassDone | src/skiplist/skipList.cpp:218-233 | the bottom chain has lost exactly the removed node |
| SkipLists.RisingStep | src/skiplist/skipList.cpp:128-150 | one turn of the tower loop: the predecessor found on the way down is still the right one, and the structure holds one level higher |
| SkipLists.SkipList.constructor | src/skiplist/skipList.cpp:51-56 | the empty list satisfies the structure |
| SkipLists.SkipList.Descend | src/skiplist/skipList.cpp:83-94 | on every level the descent stops at the last node before the bound |
| SkipLists.SkipList.Get | src/skiplist/skipList.cpp:156-196 | tower descent and the walk over invisible versions return exactly what a linear search of the sorted contents returns, for every key and t |
| SkipLists.SkipList.SkipInvisible | src/skiplist/skipList.cpp:176-192 | from the first version of the key the walk ends at the newest version with id <= t or shows that there is none |
| SkipLists.SkipList.SpliceNode | src/skiplist/skipList.cpp:139-145 | the four pointer assignments have exactly the effect of splicing one node, whatever aliases whatever |
| SkipLists.SkipList.Put | src/skiplist/skipList.cpp:71-153 | for every drawn height and every random bit the contents become the old contents with the version inserted in place or overwritten; the structure and the byte count are kept |
| SkipLists.SkipList.Locate | src/skiplist/skipList.cpp:83-99 | the position found is where the sorted insertion takes place, and the node standing there tells whether the version exists |
| SkipLists.SkipList.Overwrite | src/skiplist/skipList.cpp:99-110 | an existing version gets the new value, and the byte count follows |
| SkipLists.SkipList.InsertVersion | src/skiplist/skipList.cpp:112-153 | the new version stands at the position found; everything else is as before |
| SkipLists.SkipList.LinkUp | src/skiplist/skipList.cpp:128-150 | linking level by level until a random bit is clear keeps the structure and adds the node to exactly the levels the bits say |
| SkipLists.SkipList.Remove | src/skiplist/skipList.cpp:201-243 | the first version of the key, if any, is taken out of the contents; nothing else changes and the structure is kept |
| SkipLists.SkipList.BypassForward | src/skiplist/skipList.cpp:220-226 | forward pointers are redirected up to exactly the height the node was linked at |
| SkipLists.SkipList.BypassBackward | src/skiplist/skipList.cpp:228-233 | backward pointers of the successors point to the predecessors |
| SkipLists.SkipList.LowerLevel | src/skiplist/skipList.cpp:238-241 | drops exactly the empty top levels and keeps the structure |
| SkipLists.DropNewestStore | src/skiplist/skipList.cpp:201-243 | as a set of versions: the newest version of the key is gone, and exactly that one |
| SkipLists.SkipList.Flush | src/skiplist/skipList.cpp:246-260 | the flushed sequence is the sorted contents |
| SkipLists.SkipList.Clear | src/skiplist/skipList.cpp:268-272 | the list is empty and well formed |
| SkipLists.SkipList.BeginPrefix | src/skiplist/skipList.cpp:285-305 | the position returned splits the keys below the prefix from the others |
| SkipLists.SkipList.EndPrefix | src/skiplist/skipList.cpp:308-338 | between the two positions stand exactly the keys with the prefix |
| SkipLists.MonotoneAlong | src/skiplist/skipList.cpp:349-458 | a predicate monotone over the key order is monotone along the chain |
| SkipLists.PrefixMonotone | src/skiplist/skipList.cpp:349-458 | the prefix predicate is one |
| SkipLists.SkipList.SeekMatch | src/skiplist/skipList.cpp:355-386 | the descent by direction finds a matching node or a place no match can stand at |
| SkipLists.SkipList.WalkBack | src/skiplist/skipList.cpp:391-418 | the walk back over the towers ends at the first match, and never meets an invalid direction when the predicate is monotone |
| SkipLists.SkipList.WalkForward | src/skiplist/skipList.cpp:423-448 | the walk forward ends at the last match, and never meets an invalid direction when the predicate is monotone |
| SkipLists.SkipList.MatchRange | src/skiplist/skipList.cpp:349-458 | for a monotone predicate the result is exactly the contiguous run of matching nodes, or no match when none exists; the error is never reached |
| Bytes.ByteAt | src/block/block.cpp:22-35 | byte i of a number is the one of weight 256 to the i |
| Blocks.EntryReads | src/block/block.cpp:155-195 | key, value and id read back from an encoded entry |
| Blocks.HoldsAppend | src/block/block.cpp:112-152 | appending an entry to a block that is not yet 64 KiB long keeps every earlier entry readable and adds the new one |
| Blocks.BlockRoundTrip | src/block/block.cpp:15-88 | decode undoes encode, with and without the checksum |
| BlockSearch.Block.CurSize | src/block/block.cpp:375-378 | the size reported is the length of the encoding |
| BlockSearch.Block.AddEntry | src/block/block.cpp:112-152 | an entry is refused exactly when it is not forced, not the first and does not fit; otherwise its bytes and its 16-bit offset are appended |
| BlockSearch.Block.AdjustIndex | src/block/block.cpp:205-246 | from any version of the key, for every t: nothing t may see lies before the result, whose narrowed id t may see; the result is the newest version with id <= t (the first when t is 0) whenever 16-bit reading does not change which ids t may see |
| BlockSearch.Block.WalkLeft | src/block/block.cpp:215-225 | walking left over visible versions passes none that t may see without stopping at or before it, and ends at the newest one if ids are read rightly |
| BlockSearch.Block.WalkRight | src/block/block.cpp:226-237 | walking right over invisible versions ends at the first that looks visible or shows there is none, and passes none that t may see |
| BlockSearch.Block.GetIndexBinary | src/block/block.cpp:267-300 | binary search and adjustment, for every t: the index is right if and only if it is not that of a version too new for t, and nothing t may see lies before it; it is right whenever 16-bit reading does not change which ids of the key t may see; from t = 65535 on, if and only if no id of the key exceeds t |
| BlockSearch.LegibleWhen | src/block/block.cpp:180-195 | 16-bit reading changes nothing for any t if all ids are below 65536, and for any ids at a t that none exceeds; from 65535 on at no other t |
| BlockSearch.WideIds | src/block/block.cpp:180-195 | the first version of a key is the right answer exactly when t sees all its versions |
| BlockSearch.WideExample | src/block/block.cpp:267-300 | a block with one version, of id 65536, that a reader at 65535 is wrongly given |
| BlockSearch.RightIndexLookup | src/block/block.cpp:257-265 | the right index is the one a linear search of the entries finds |
| BlockSearch.Block.GetValueBinary | src/block/block.cpp:257-265 | the value found is that of the newest visible version, or that of a version too new for t whose narrowed id is not; never the latter when 16-bit reading does not change which ids t may see |
| BlockSearch.Block.MatchRange | src/block/block.cpp:312-363 | for a monotone predicate the two binary searches return exactly the half-open matching range |
| BlockSearch.RangeExact | src/block/block.cpp:312-363 | four facts at the two ends of a range decide it for every entry |
| BlockMetas.EncodeMetaToSlice | src/block/blockmeta.cpp:13-69 | the loop writes count, entries and hash |
| BlockMetas.DecodeMetaFromSlice | src/block/blockmeta.cpp:71-130 | the loop reads what the recursive parser reads, errors included |
| BlockMetas.MetasRoundTrip | src/block/blockmeta.cpp:13-130 | decoding the encoded metadata returns it, for every list whose fields fit their widths |
| Bloom.BloomFilter.Add | src/utils/bloom_filter.cpp:40-45 | after adding, the key may be contained, no key that might be contained is lost, and exactly the bits of the key are set |
| Bloom.BloomFilter.PossiblyContains | src/utils/bloom_filter.cpp:48-57 | the loop over the hashes answers yes exactly when all bits of the key are set |
| Bloom.AllHit | src/utils/bloom_filter.cpp:48-57 | a key may be contained if and only if every position its hashes give is set; a filter with no bit set rejects every key |
| Bloom.BloomFilter.Clear | src/utils/bloom_filter.cpp:60 | all bits are clear |
| Bloom.BloomFilter.Encode | src/utils/bloom_filter.cpp:79-117 | the loop packs the bits, eight to a byte, behind the four numbers |
| Bloom.BloomFilter.Decode | src/utils/bloom_filter.cpp:120-163 | from the encoding of any filter decoding gives an object with exactly that filter; bytes that end before their fields give nothing |
| Bloom.BloomFilter.ReadBits | src/utils/bloom_filter.cpp:143-153 | the two loops over bytes and bits read the bits, lowest first |
| Bloom.BitsRoundTrip | src/utils/bloom_filter.cpp:104-163 | unpacking the packed bits returns them, for every number of bits |
| Bloom.FilterRoundTrip | src/utils/bloom_filter.cpp:79-163 | decode undoes encode |
| Cutting.CutKeepsAll | src/sst/sst.cpp:219-271 | the blocks in order are the added entries in order, and none is empty |
| Cutting.CutKeysApart | src/sst/sst.cpp:219-271 | for sorted input no key has versions in two blocks, and block key ranges are ascending and disjoint |
| Cutting.LookupInBlock | src/sst/sst.cpp:134-175 | if only one block holds the key, a search of that block is a search of all entries |
| SstFile.OpenRoundTrip | src/sst/sst.cpp:19-78 | opening the built bytes recovers metadata, filter, id range and key range |
| SstFile.ReadBuiltBlock | src/sst/sst.cpp:96-132 | reading block i of a built table returns the block that was written, checksum included |
| SstFile.BuiltReadsBack | src/sst/sst.cpp:253-271 | a built block holds its entries |
| Ssts.IdRange | src/sst/sst.cpp:231-233 | the recorded bounds are the least and the greatest id |
| Ssts.SSTBuilder.constructor | src/sst/sst.cpp:206-217 | an empty builder |
| Ssts.SSTBuilder.Add | src/sst/sst.cpp:219-249 | the builder has the new entry after all earlier ones, its blocks are cut as specified, and its filter has every added key |
| Ssts.SSTBuilder.FinishBlock | src/sst/sst.cpp:253-271 | the open block is closed with its first and last key and its offset |
| Ssts.SSTBuilder.Build | src/sst/sst.cpp:273-346 | fails exactly on an empty table; otherwise the bytes and metadata are those of the table cut into blocks |
| Ssts.FindBlockIndex | src/sst/sst.cpp:134-162 | binary search over metadata: the block found is the only one whose range admits the key, and no block means the filter rejects it or no range admits it |
| Ssts.StoresMetas | src/sst/sst.cpp:134-162 | metadata of a stored table is ascending, and a key outside a range is not in that block |
| Ssts.Rejected | src/sst/sst.cpp:134-145 | no added key is rejected by the filter |
| Ssts.OutOfRange | src/sst/sst.cpp:164-175 | no key outside the first and last key is in the table |
| Ssts.BuiltStores | src/sst/sst.cpp:273-346 | a table built from sorted entries stores exactly them, and opens again as itself |
| Ssts.Get | src/sst/sst.cpp:164-175 | equals a linear scan of the added entries, or gives the value of a version too new for t whose narrowed id is not; never the latter when 16-bit reading does not change which ids t may see |
| Ssts.GetInBlock | src/sst/sst.cpp:96-132 | reading and searching one block equals a scan of its entries, or gives the value of a version too new for t whose narrowed id is not |
| MemTables.MemTable.Put | src/memtable/memtable.cpp:33-47 | the version goes to the active table; if that then has more bytes than the limit it becomes the first frozen one under a new empty table, and else all stays; older tables are untouched |
| MemTables.MemTable.PutBatch | src/memtable/memtable.cpp:49-67 | a batch goes to the active table under one id, then the limit is checked once |
| MemTables.MemTable.Freeze | src/memtable/memtable.cpp:294-300 | the tables are the old ones behind a new empty one, and the byte count of the frozen ones is exact |
| MemTables.MemTable.Get | src/memtable/memtable.cpp:95-115 | the newest table with a visible version of the key decides |
| MemTables.GetIn | src/memtable/memtable.cpp:69-93 | one table answers like a search of its sorted contents |
| MemTables.MemTable.Remove | src/memtable/memtable.cpp:207-220 | a removal is a version with an empty value |
| MemTables.MemTable.FlushLast | src/memtable/memtable.cpp:248-292 | hands out the oldest table, freezing the active one first when nothing else is there; nothing to flush exactly when the memtable is empty |
| MemTables.MemTable.TotalSize | src/memtable/memtable.cpp:311-325 | the size is the sum over all versions in all tables |
| Layers.GoodAnswers | src/lsm/engine.cpp:104-198 | if the sources are ordered, first match over all of them answers every read of the version store |
| Layers.AnswerUnique | src/lsm/engine.cpp:104-198 | a read has one right answer |
| Layers.AnswersMeaning | src/lsm/engine.cpp:104-125 | a right answer, in plain terms: the value, not empty, of the version of the key with the greatest id up to t (of all when t is 0), and nothing if there is no such version or its value is empty |
| Layers.PutGood | src/lsm/engine.cpp:362-376 | a write whose id is not below the ids of its key keeps the order of the sources, with or without a freeze |
| Layers.FlushGood | src/lsm/engine.cpp:449-487 | moving the oldest table from memory to the front of level 0 keeps the order and the store |
| Layers.UncheckedWrite | src/memtable/memtable.cpp:69-115 | a write with an older id leaves every read of the key right if and only if no version of the key with a greater id lies in an older table only |
| Layers.CommitOverFiles | src/lsm/transation.cpp:187-262 | for a commit whose check passes on the tables in memory, every read of every key stays right if and only if no file holds a newer version of a written key |
| Layers.StackedRight | src/lsm/engine.cpp:104-198 | tables in memory over tables in files, each in order: reads of a key are right if and only if the versions only the files have are older than all in memory |
| Layers.BuriedExample | src/memtable/memtable.cpp:69-115 | the smallest wrong read after such a write |
| Layers.LastWriteIsNewest | src/lsm/engine.cpp:104-198 | along writes with rising ids, the last visible write is the newest visible version |
| Layers.RisingAllowed | src/lsm/engine.cpp:362-376 | ids rise along a run of writes exactly when each write is one the engine may take |
| Layers.BatchStore | src/memtable/memtable.cpp:49-67 | a batch adds its writes to the active table and to no other, later ones over earlier ones |
| Layers.LastWriteMeaning | src/lsm/engine.cpp:104-125 | what is shown of the last write to a key, in plain terms: its value, or nothing if that is empty or no write to the key has an id up to t |
| Layers.AnswerIsLastWrite | src/lsm/engine.cpp:104-198 | the answer to a read is the last write it may see, and nothing if that was a deletion |
| Engines.FileGet | src/lsm/engine.cpp:133-135 | a table file on disk answers like its entries, or with a version too new for t whose narrowed id is not |
| Engines.LevelRanges | src/lsm/engine.cpp:158-198 | files of a lower level have ascending disjoint ranges |
| Engines.LevelGet | src/lsm/engine.cpp:158-198 | the binary search over the files of a level equals a scan of all their entries, or gives a version too new for t whose narrowed id is not; never the latter when 16-bit reading does not change which ids t may see |
| Engines.Engine.constructor | src/lsm/engine.cpp:22-100 | an engine without data |
| Engines.Engine.Put | src/lsm/engine.cpp:362-376 | the store gains the version and the sources stay ordered; the oldest table is flushed exactly when memory has reached its limit, and the answer is then its greatest id, else 0 |
| Engines.Engine.Remove | src/lsm/engine.cpp:394-409 | the store gains a version with an empty value |
| Engines.Engine.Flush | src/lsm/engine.cpp:449-487 | the store is unchanged; a new file at the front of level 0 holds exactly the oldest table of the memory; the answer is its greatest id |
| Engines.Engine.WriteFile | src/lsm/engine.cpp:463-476 | the file written for a table stores it |
| Engines.Engine.Level0Get | src/lsm/engine.cpp:130-155 | files of level 0, newest first: the first with a visible version decides, or one with a version too new for t whose narrowed id is not |
| Engines.Engine.LowerGet | src/lsm/engine.cpp:158-198 | levels in order: the first with a visible version decides, or one with a version too new for t whose narrowed id is not |
| Engines.Engine.Get | src/lsm/engine.cpp:104-198 | for every key and every t a read returns the value of the newest version with id <= t, or nothing if there is none or it is a deletion, from memory, level 0 and the levels below; or else it shows a version in a file that is too new for t and whose narrowed id is not, which cannot be when 16-bit reading does not change which ids t may see |
| Engines.LegibleReads | src/lsm/engine.cpp:104-198 | the condition on ids holds at every t when all ids of the key are below 65536, and at every t that none of them exceeds |
| Engines.GetNewest | src/lsm/engine.cpp:761-769 | a read without a transaction, which takes an id above all written ones, returns the last write to the key, without any condition on the ids; the last write is given by its position in the run |
| Engines.GetLast | src/lsm/engine.cpp:104-198 | after every run of writes with rising ids the read returns the last write to the key that it may see, or shows a version too new for it; never the latter when 16-bit reading does not change which ids it may see; the last write is given by its position in the run |
| Records.Decode | src/wal/record.cpp:94-162 | the decoding loop reads what the recursive parser reads, errors included |
| Records.RecordRoundTrip | src/wal/record.cpp:52-162 | a record of any kind parses back wherever it stands |
| Records.DecodeRoundTrip | src/wal/record.cpp:52-162 | decoding the concatenated encodings of any list of records that fit returns the list |
| Wals.Wal.Log | src/wal/wal.cpp:94-123 | over every run of forced and buffered calls and rotations, files in order plus the buffer hold all logged records in order; a forced call leaves nothing in the buffer; a file is closed only beyond the size limit |
| Wals.Wal.AppendAll | src/wal/wal.cpp:108-113 | the file gains exactly the records, in order |
| Wals.Wal.ResetFile | src/wal/wal.cpp:201-218 | rotation changes no durable record |
| Wals.Recover | src/wal/wal.cpp:39-84 | recovery from the files returns the records above the watermark, grouped by id |
| Wals.GroupExact | src/wal/wal.cpp:70-81 | each group is exactly the records of its id, in log order, and only ids above the watermark have one |
| Wals.RecoverExact | src/wal/wal.cpp:39-84 | so recovery of a log returns, for each id above the watermark, exactly its durable records in order |
| Recovery.ReplayOne | src/lsm/engine.cpp:735-754 | replaying the records of one id in order adds exactly the final value of each of its keys and changes no version of another id |
| Recovery.ReplayAll | src/lsm/engine.cpp:735-754 | the replay loop, ids ascending, rebuilds exactly the final values of all groups, and its writes have rising ids |
| Transactions.TranManager.Begin | src/lsm/transation.cpp:418-436 | a fresh id and a context with one record |
| Transactions.TranManager.TakeId | src/lsm/transation.cpp:406-408 | the id is above every id in the store |
| Transactions.TranManager.Put | src/lsm/transation.cpp:41-70 | recorded and kept in the context only; no other transaction sees it |
| Transactions.TranManager.Remove | src/lsm/transation.cpp:72-97 | recorded as a deletion in the context only |
| Transactions.TranManager.EngineGet | src/memtable/memtable.cpp:117-130 | while write order is id order, first match gives the newest visible version |
| Transactions.TranManager.Get | src/lsm/transation.cpp:99-144 | own writes first; otherwise the newest version visible to the id; above READ_COMMITTED the first answer is kept and every later read of the key by the transaction returns it |
| Transactions.TranManager.Abort | src/lsm/transation.cpp:274-310 | an aborted transaction changes neither store nor log |
| Transactions.TranManager.AutoPut | src/lsm/engine.cpp:792-805 | a write with a fresh id keeps write order equal to id order |
| Transactions.TranManager.FindClash | src/lsm/transation.cpp:187-238 | the conflict check finds a clash exactly when some key of the transaction has a version with a greater id |
| Transactions.NewestTells | src/lsm/transation.cpp:187-238 | looking at the newest version of a key is enough to tell |
| Transactions.TranManager.LogCommit | src/lsm/transation.cpp:243-254 | the records of the transaction, with a commit record, are durable before anything is applied |
| Transactions.TranManager.Apply | src/lsm/transation.cpp:256-262 | the store gains exactly the final values of the transaction under its id |
| Transactions.TranManager.Commit | src/lsm/transation.cpp:146-272 | REPEATABLE_READ and SERIALIZABLE transactions commit exactly when no key they wrote has a newer version, and then write order stays id order; a refused one changes neither store nor log; READ_COMMITTED always commits; a crash between log and apply leaves the log written |
| Transactions.LogGroups | src/lsm/transation.cpp:243-254 | the log holds, per committed id, exactly its records, and they stand for its final values |
| Transactions.TranManager.Replayed | src/lsm/transation.cpp:444-454 | after one crash at any step, recovery and replay rebuild exactly the versions of the logged transactions with id above the watermark; others contribute nothing |
| Restart.Restarted | src/lsm/engine.cpp:735-754 | files and log together: replay brings back exactly the logged versions above the watermark; every committed version is back if and only if none missing from the files has an id at or below the watermark; and every read of every key is right if and only if the versions only the files have are older than the logged ones above the watermark, which holds when no flushed id exceeds the watermark |
| Restart.VersionsKept | src/lsm/engine.cpp:739-752 | files and the logged versions above the watermark make up files and log, if and only if no logged version missing from the files has an id at or below the watermark |
| Restart.RebuildGood | src/lsm/engine.cpp:740-748 | replaying writes with rising ids, freezing tables as they fill up, gives ordered tables that hold exactly the writes |
| Restart.LateCommitLost | src/lsm/engine.cpp:816-821 | a run of two transactions in which the table of the later one is flushed before the earlier one commits: with the watermark that this flush gives, the condition fails and a restart loses the earlier one |
| Restart.PlainWriteBuried | src/lsm/engine.cpp:792-795 | a commit, then a plain write to its key under a greater id that is flushed by filling memory, which raises no watermark: after a restart the replayed older version stands above the file, and reads of the key are wrong |
| Restart.ReplayInto | src/lsm/engine.cpp:740-748 | the replay loop on an engine: its store gains exactly the writes and its sources stay ordered |
| HeapScan.GreaterTotal | src/iterator/iterator.cpp:21-32 | the comparison is a strict total order on items of one level whose table order agrees with id order |
| HeapScan.TopExists | src/iterator/iterator.cpp:21-60 | every such non-empty heap has a top |
| HeapScan.TopIsNewest | src/iterator/iterator.cpp:21-60 | the top has the smallest key, and is its newest version |
| HeapScan.HeapIterator.constructor | src/iterator/iterator.cpp:39-60 | the iterator starts at the first key that is not deleted, and only deleted keys were dropped |
| HeapScan.HeapIterator.SkipById | src/iterator/iterator.cpp:141-149 | items newer than the reader are skipped, and only those |
| HeapScan.HeapIterator.TopValueLegal | src/iterator/iterator.cpp:121-139 | legal means at the end, or visible and not a deletion |
| HeapScan.HeapIterator.Settle | src/iterator/iterator.cpp:45-60 | the skipping loop ends, and dropped deleted keys only |
| HeapScan.HeapIterator.Next | src/iterator/iterator.cpp:71-100 | moves past every version of the current key and every deleted key, and nothing else |
| HeapScan.HeapIterator.Scan | src/iterator/iterator.cpp:71-100 | a scan yields ascending keys, exactly those whose newest version is not a deletion, with its value |
| HeapScan.ItemsOrdered | src/memtable/memtable.cpp:327-355 | the items collected from ordered tables form a heap the comparison orders |
| HeapScan.LiveIsShown | src/memtable/memtable.cpp:327-355 | the keys a scan yields are those a point lookup shows |
| HeapScan.BeginItems | src/memtable/memtable.cpp:327-355 | the loops over the tables collect exactly the versions visible to t, with their table number |
| HeapScan.ScanMemTable | src/memtable/memtable.cpp:327-355 | scanning the memtable at t yields exactly the keys and values that point lookup at t gives, each key once, in the order of their bytes |
| Iterators.FirstPerKeyExact | src/block/block_iterator.cpp:39-62 | the first version of each key, in order: ascending keys, exactly the newest version of each |
| Iterators.BlocksInRow | src/sst/sst_iterator.cpp:128-146 | blocks with disjoint keys one after the other yield the first version of each key of the whole table |
| Iterators.BlockIterator.Next | src/block/block_iterator.cpp:39-62 | advances to the next key |
| Iterators.SstIterator.constructor | src/sst/sst_iterator.cpp:70-79 | starts at the first key of the table |
| Iterators.SstIterator.Next | src/sst/sst_iterator.cpp:128-146 | advances to the next key, across blocks |
| Iterators.ConcatIterator.constructor | src/sst/concact_iterator.cpp:5-12 | starts at the first key of the first table |
| Iterators.ConcatIterator.Next | src/sst/concact_iterator.cpp:14-26 | advances to the next key, across tables |
| Iterators.MergeAscending | src/lsm/two_merge_iterator.cpp:18-57 | the merge of two ascending streams is strictly ascending |
| Iterators.MergeExact | src/lsm/two_merge_iterator.cpp:18-57 | it holds all of the first stream, and of the second what the first has no key for |
| Iterators.TwoMerge.constructor | src/lsm/two_merge_iterator.cpp:7-16 | the iterator stands for the merge |
| Iterators.TwoMerge.SkipB | src/lsm/two_merge_iterator.cpp:28-32 | skipping in the second stream changes nothing of the merge |
| Iterators.TwoMerge.Next | src/lsm/two_merge_iterator.cpp:46-57 | advances by one pair of the merge |
| Compaction.CutStreamExact | src/lsm/engine.cpp:690-708 | the cut of a stream by size: files and tail are the stream with ids set to 0, each file reaches the target with its last pair and not before, and the tail does not |
| Compaction.LostWhen | src/lsm/engine.cpp:709-721 | the tail finishes no block exactly when it is one pair or fits one block |
| Compaction.GenFiles | src/lsm/engine.cpp:682-722 | the files are exactly those of the cut, and its tail unless that is one pair or fits one block, in which case it is lost; file ids ascend and key ranges are disjoint and ascending |
| Compaction.OnePairLost | src/lsm/engine.cpp:682-722 | a stream of one pair leaves no file and is lost |
| Compaction.GeneratedLevel | src/lsm/engine.cpp:682-722 | files generated from a stream that fit the format form a level as the search of levels demands, with the contents of the files in order |
| Compaction.SearchGenerated | src/lsm/engine.cpp:158-198 | generating files from a stream and searching them as a level finds what the kept part of the stream has for the key |
| Compaction.CutsApart | src/lsm/engine.cpp:682-722 | cutting an ascending stream anywhere gives tables with disjoint ascending keys |
| LevelCompaction.ReadLevel | src/lsm/engine.cpp:666-670 | iterating the files of a level yields each key once, ascending, with the value of its newest version |
| LevelCompaction.ReadMerge | src/lsm/engine.cpp:672 | iterating the merge of two streams yields exactly it |
| LevelCompaction.MergedExact | src/lsm/engine.cpp:666-672 | a pair is in the stream of a compaction if and only if its value is what an unfiltered read of the upper and then the lower level finds for its key |
| LevelCompaction.CompactLevels | src/lsm/engine.cpp:652-680 | compacting a level into the next: the new files hold the merged stream with ids set to 0, less the lost tail |
| LevelCompaction.CompactedReads | src/lsm/engine.cpp:652-680 | for every key and every t the new level gives what an unfiltered read of the two levels gave, and nothing for the keys of the lost tail |
| LevelCompaction.CompactedStack | src/lsm/engine.cpp:570-620 | in the whole stack of tables: what every read gives after a compaction; an unfiltered read is unchanged if and only if the key was not lost, or newer tables answer for it, or older ones have the same value |
| LevelCompaction.SearchCompacted | src/lsm/engine.cpp:158-198 | compacting two levels and searching the files written gives, for every key and t, what an unfiltered read of the two levels gave, or nothing for a lost key |
| BlockCaches.BlockCache.Get | src/block/block_cache.cpp:15-29 | a hit returns the block last put for the id, and its count and place in the access order follow; a miss changes nothing but the request count |
| BlockCaches.BlockCache.Put | src/block/block_cache.cpp:31-62 | the id now has the new block; at capacity exactly one entry goes: of those with fewer than k accesses the one whose last access is longest ago, or of all if there are none; the size never exceeds the capacity |
| BlockCaches.BlockCache.Touch | src/block/block_cache.cpp:71-91 | an access adds one to the count of the entry and moves it to the front of the list its count belongs to |
| BlockCaches.AccessUp | src/block/block_cache.cpp:71-91 | the k-th access moves an entry from one list to the other and keeps index, counts and access order |
| BlockCaches.AccessLess | src/block/block_cache.cpp:71-91 | an earlier access keeps them as well |
| BlockCaches.AccessGreater | src/block/block_cache.cpp:71-91 | and so does a later one |
| BlockCaches.SizesAgree | src/block/block_cache.cpp:31-62 | both lists together have as many entries as the index, and never more than the capacity |
| BlockCaches.EvictLess | src/block/block_cache.cpp:44-50 | the last entry of the first list is the least recently used one there; removing it keeps both lists and the index |
| BlockCaches.EvictGreater | src/block/block_cache.cpp:51-55 | with the first list empty it is the least recently used entry overall |
| BlockCaches.VictimMeaning | src/block/block_cache.cpp:44-55 | the entry at the end of its list is, by the counted accesses and their times, the one the rule names |
| RedisText.SplitJoin | src/redis_wrapper/redis_wrapper.cpp:156-175 | splitting the joined string gives back the elements, for all lists of non-empty separator-free elements |
| RedisText.JoinCons | src/redis_wrapper/redis_wrapper.cpp:719-746 | putting an element and a separator in front of a joined list joins the longer list |
| RedisText.JoinSnoc | src/redis_wrapper/redis_wrapper.cpp:748-776 | and behind it |
| RedisText.FieldKeyInjective | src/redis_wrapper/redis_wrapper.cpp:54-57 | different fields of a key are stored under different keys |
| RedisText.FieldsApart | src/redis_wrapper/redis_wrapper.cpp:54-57 | fields of different keys without underscore are stored under different keys, and no such key is itself a field |
| RedisText.FieldsClash | src/redis_wrapper/redis_wrapper.cpp:54-57 | the stored fields of two keys meet if and only if one key, with its separator, begins the other |
| RedisText.ClashExample | src/redis_wrapper/redis_wrapper.cpp:54-57 | two keys, one with an underscore, that store a field under one name |
| Redis.FieldsRoundTrip | src/redis_wrapper/redis_wrapper.cpp:24-52 | the field list is recovered from the hash value |
| Redis.PutField | src/redis_wrapper/redis_wrapper.cpp:583-594 | writing a field keeps the list duplicate-free and naming exactly the stored fields |
| Redis.DropField | src/redis_wrapper/redis_wrapper.cpp:655-695 | and so does removing one |
| Redis.KeyChange | src/redis_wrapper/redis_wrapper.cpp:566-716 | a command that touches one key and its fields leaves every other key as it was |
| Redis.RedisWrapper.CleanHash | src/redis_wrapper/redis_wrapper.cpp:178-198 | an expired hash goes with all its fields and its time, another stays |
| Redis.RedisWrapper.CleanList | src/redis_wrapper/redis_wrapper.cpp:200-214 | an expired list goes with its time, another stays |
| Redis.RedisWrapper.Expire | src/redis_wrapper/redis_wrapper.cpp:464-475 | the time is noted |
| Redis.RedisWrapper.Del | src/redis_wrapper/redis_wrapper.cpp:423-449 | the keys, their times and, for hashes, their fields are gone; the answer is the number of distinct keys that were there |
| Redis.RedisWrapper.Hset | src/redis_wrapper/redis_wrapper.cpp:566-601 | the hash has the new values and no other change; the answer is the number of new fields; an expired time is forgotten, every other kept |
| Redis.UpdateLast | src/redis_wrapper/redis_wrapper.cpp:583-594 | of several pairs for a field the last one gives its value |
| Redis.RedisWrapper.Hget | src/redis_wrapper/redis_wrapper.cpp:635-653 | the value of the field, if the hash has it |
| Redis.RedisWrapper.Hkeys | src/redis_wrapper/redis_wrapper.cpp:697-716 | each field once |
| Redis.RedisWrapper.Hdel | src/redis_wrapper/redis_wrapper.cpp:655-695 | the field is gone, with it the key when it was the last; the answer tells whether it was there |
| Redis.RedisWrapper.Lpush | src/redis_wrapper/redis_wrapper.cpp:719-746 | the list has the element in front; the answer is the new length |
| Redis.RedisWrapper.Rpush | src/redis_wrapper/redis_wrapper.cpp:748-776 | the list has the element at the end; the answer is the new length |
| Redis.RedisWrapper.Lpop | src/redis_wrapper/redis_wrapper.cpp:778-811 | answers and removes the first element, with it the key when it was the only one |
| Redis.RedisWrapper.Rpop | src/redis_wrapper/redis_wrapper.cpp:813-846 | the same at the end |
| Redis.RedisWrapper.Llen | src/redis_wrapper/redis_wrapper.cpp:848-864 | the length |
| Redis.CutRange | src/redis_wrapper/redis_wrapper.cpp:883-902 | the positions taken are the slice of Redis exactly when stop is at least minus the length or start is beyond the list; with a smaller stop the slice to the end is taken |
| Redis.SliceMeaning | src/redis_wrapper/redis_wrapper.cpp:883-902 | the slice of Redis: positions from start to stop, negative ones from the end, a start before the list is its beginning, a stop behind it its end, and an empty range gives nothing |
| Redis.RangeExample | src/redis_wrapper/redis_wrapper.cpp:887-892 | what the code returns for the smallest list and range where Redis returns nothing |
| Redis.RedisWrapper.Lrange | src/redis_wrapper/redis_wrapper.cpp:866-903 | the same for the command, expiry and missing lists included |
| RedisRuns.Execute | src/redis_wrapper/redis_wrapper.cpp:423-903 | one command of any kind does to keys, values and times, and answers, what maps and sequences say |
| RedisRuns.Run | src/redis_wrapper/redis_wrapper.cpp:423-903 | every run of commands, whatever expires meanwhile, leaves what the fold of the commands over maps and sequences gives, and every reply is the one of its turn |
| RedisRuns.OthersKept | src/redis_wrapper/redis_wrapper.cpp:423-903 | along every run of commands about other keys a key keeps its value and its time |
| RedisRuns.FieldStays | src/redis_wrapper/redis_wrapper.cpp:566-653 | a field set, by the last of its pairs, is read back after every run of commands about other keys, until the time of its key comes |
| RedisRuns.HashExpires | src/redis_wrapper/redis_wrapper.cpp:128-142 | after EXPIRE and any commands about other keys a field is answered at every time up to and including the one set, and at no later one; a command after it removes the hash and the time |
| RedisRuns.ListExpires | src/redis_wrapper/redis_wrapper.cpp:128-142 | the same for the elements of a list |
| RedisRuns.DeletedGone | src/redis_wrapper/redis_wrapper.cpp:423-449 | a deleted key has neither value nor time after any commands about other keys |
| RedisRuns.Queue | src/redis_wrapper/redis_wrapper.cpp:748-811 | for every list of elements: pushing them at the end and popping as many at the front answers them in the same order and leaves everything as it was |
| TimerQueues.TimerQueue.constructor | muduo-master/muduo/net/TimerQueue.cc:91-102 | no timers |
| TimerQueues.TimerQueue.ResetTimerfd | muduo-master/muduo/net/TimerQueue.cc:41-55 | the alarm is due at the expiration, or 100 microseconds from now if that is later |
| TimerQueues.TimerQueue.MakeTimer | muduo-master/muduo/net/TimerQueue.cc:116-124 | a timer made by any thread waits to be inserted; no other timer has its sequence number |
| TimerQueues.TimerQueue.Insert | muduo-master/muduo/net/TimerQueue.cc:235-259 | both sets gain the timer, keyed by its current expiration; the answer tells whether it is the earliest |
| TimerQueues.TimerQueue.AddTimerInLoop | muduo-master/muduo/net/TimerQueue.cc:132-141 | the timer is queued; the alarm is set for it, at least 100 microseconds from now, exactly when it is the earliest, and covers the earliest timer afterwards |
| TimerQueues.TimerQueue.CancelInLoop | muduo-master/muduo/net/TimerQueue.cc:143-161 | an active timer is gone, one of the running batch is noted, one not yet inserted stays; whatever counts as cancelled is in no later batch |
| TimerQueues.TimerQueue.GetExpired | muduo-master/muduo/net/TimerQueue.cc:183-202 | the batch is exactly the timers due now, in order; both sets lose exactly them; none was cancelled before |
| TimerQueues.TimerQueue.Perform | muduo-master/muduo/net/TimerQueue.cc:132-161 | adding, cancelling and making timers while callbacks run keeps the queue consistent and the batch alive; a waiting timer stays as it was unless it is the one cancelled; a timer added or made at a free address is there under the next sequence number with its time and interval, queued or waiting to be inserted; nothing else is queued |
| TimerQueues.TimerQueue.RunCallbacks | muduo-master/muduo/net/TimerQueue.cc:171-178 | every callback of the batch runs on a live timer, in order, whatever the others do; the timers noted are exactly those of the batch cancelled meanwhile; a timer outside the batch stays as it was if and only if no callback cancels it; every timer a callback adds is queued for its time if and only if no later act cancels it; nothing else is queued |
| TimerQueues.TimerQueue.ResetOne | muduo-master/muduo/net/TimerQueue.cc:208-222 | a timer that repeats and was not cancelled starts again from now, another is deleted |
| TimerQueues.TimerQueue.Reset | muduo-master/muduo/net/TimerQueue.cc:204-233 | the same for the batch; the alarm is set for the earliest timer |
| TimerQueues.TimerQueue.HandleRead | muduo-master/muduo/net/TimerQueue.cc:163-181 | for every behaviour of the callbacks: exactly the timers due run, each once, earliest first; a timer cancelled by a callback of its own batch still runs in it; afterwards the timers that repeat and that no callback of the batch cancelled are queued from now, the others of the batch are gone; both sets agree, every live timer is in exactly one place, a timer that was waiting and not due stays queued as it was if and only if no callback cancels it; no cancelled timer runs again, and while timers remain the alarm is due by the earliest expiration or the floor; every timer that a callback adds is queued for its time if and only if no later act cancels it, one that another thread makes waits to be inserted, and nothing else is queued; the alarm is set for the earliest expiration or the floor |
| TimerQueues.SameSize | muduo-master/muduo/net/TimerQueue.cc:146-160 | the two sets have the same size, as the source asserts around every step |
| TimerQueues.CancelledTooLate | muduo-master/muduo/net/TimerQueue.cc:171-180 | a timer cancelled by an earlier callback of its batch runs in that batch, and in no later one |
| TimerQueues.CancelledTooEarly | muduo-master/muduo/net/TimerQueue.cc:126-130 | a cancellation handled before the insertion it is meant for is lost |
| TimerQueues.AddedRuns | muduo-master/muduo/net/TimerQueue.cc:116-141 | a timer added by a callback runs in the batch in which it is due |
| TimerQueues.RestartedAfter | muduo-master/muduo/net/Timer.cc:16-26 | the next time of a timer is its interval, in seconds, after now, in microseconds, less what is smaller than a microsecond |
| TimerQueues.DoneFirst | muduo-master/muduo/net/TimerQueue.cc:174-177 | callbacks act in the order of the batch |
| Dates.NextNumber | muduo-master/muduo/base/Date.cc:21-28 | the number of the next day of the Gregorian calendar is one greater |
| Dates.DateRoundTrip | muduo-master/muduo/base/Date.cc:21-43 | the date of the number of a date is that date, from 1 March -4800 on |
| Dates.NumberRoundTrip | muduo-master/muduo/base/Date.cc:30-43 | the date of a number is the date so many days after 1 March -4800 by the rules of the calendar, and has that number |
| Dates.ProperFrom | muduo-master/muduo/base/Date.cc:30-43 | the result is a date of the calendar exactly from that day on |
| Dates.FitsInt | muduo-master/muduo/base/Date.cc:30-43 | no intermediate value leaves 32 bits exactly up to day 536870911 of this count |
| TimeZones.EpochNumber | muduo-master/muduo/base/Date.cc:45 | the number of 1 January 1970 |
| TimeZones.Clockwork | muduo-master/muduo/base/TimeZone.cc:498-504 | seconds since the beginning of 1970: what a second, a minute, an hour and a day add |
| TimeZones.BreakTime | muduo-master/muduo/base/TimeZone.cc:293-312 | for every time from 1 March -4800 on, negative ones included, a proper broken-down time that puts together to the same time, and the only one |
| TimeZones.Data.AddTransition | muduo-master/muduo/base/TimeZone.cc:54-58 | a transition with its shifted local time, refused exactly when the local time type does not exist |
| TimeZones.Data.ReadDataBlock | muduo-master/muduo/base/TimeZone.cc:208-222 | the table lists the transitions in order, or an index was bad |
| TimeZones.Data.FindLocalTimeAt | muduo-master/muduo/base/TimeZone.cc:318-356 | the local time type in force at the moment: that of the last transition not after it, or the first type before all transitions |
| TimeZones.Data.FindLocalTime | muduo-master/muduo/base/TimeZone.cc:358-430 | the branches for gap, repeat and unique times, as specified |
| TimeZones.Data.ToLocalTime | muduo-master/muduo/base/TimeZone.cc:461-478 | the broken-down local time of the moment |
| TimeZones.Data.FromLocalTime | muduo-master/muduo/base/TimeZone.cc:480-491 | the moment of a broken-down local time: one that has it, if any does, and the one the choice prefers; if a transition skips it, the moment by the offset after the transition, shown as an earlier local time, or by the one before it, shown as a later one, the latter for both choices at the first transition |
| TimeZones.Moments | muduo-master/muduo/base/TimeZone.cc:358-430 | a local time has at most two moments, on either side of one transition, and these are they |
| TimeZones.BackExists | muduo-master/muduo/base/TimeZone.cc:358-430 | converting a local time to a moment and back gives it again exactly when some moment has it |
| TimeZones.NoMoment | muduo-master/muduo/base/TimeZone.cc:391-404 | no moment has a local time if and only if some transition skips it |
| TimeZones.SkippedBack | muduo-master/muduo/base/TimeZone.cc:391-404 | which moment each choice gives for a skipped local time, and that it is shown earlier or later |
| TimeZones.SkippedExample | muduo-master/muduo/base/TimeZone.cc:383-404 | the skipped half hour of the table in the source, for both choices |
| TimeZones.BackFinds | muduo-master/muduo/base/TimeZone.cc:358-430 | of two moments with one local time postTransition finds the later one, and its opposite the earlier one except across the first and last transition |
| TimeZones.Recovers | muduo-master/muduo/base/TimeZone.cc:461-491 | a moment converted to local time and back is recovered exactly when the choice prefers it to the other moment with its local time |
| TimeZones.EitherRecovers | muduo-master/muduo/base/TimeZone.cc:461-491 | one of the two choices recovers a moment unless its local time is repeated after the first or the last transition |
| TimeZones.LostExample | muduo-master/muduo/base/TimeZone.cc:374-378 | a moment before the last transition that neither choice recovers |
| TimeZones.ThereAndBack | muduo-master/muduo/base/TimeZone.cc:461-491 | the same for the methods, through broken-down time |
| Rings.RelinkUndoesUnlinkV | muduo-master/examples/sudoku/sudoku.cc:218-242 | relinking the node unlinked last restores every vertical link and the column size |
| Rings.RelinkUndoesUnlinkH | muduo-master/examples/sudoku/sudoku.cc:218-242 | the same for a column header |
| DancingLinks.CoverCanonical | muduo-master/examples/sudoku/sudoku.cc:218-229 | covering a column leaves exactly the rings of the other columns without the rows that met it, and sizes to match |
| DancingLinks.RelinkLast | muduo-master/examples/sudoku/sudoku.cc:231-242 | each step of uncovering, in reverse order, undoes one step of covering |
| DancingLinks.CoverTrace | muduo-master/examples/sudoku/sudoku.cc:218-229 | the walk of cover over the rings passes through the specified states |
| DancingLinks.ColumnSize | muduo-master/examples/sudoku/sudoku.cc:201-216 | the size field of a column is the number of its linked rows |
| DancingLinks.RootAlone | muduo-master/examples/sudoku/sudoku.cc:97 | the root is its own neighbour exactly when no column is left |
| DancingLinks.StackPush | muduo-master/examples/sudoku/sudoku.cc:118-122 | pushing a row whose columns are all uncovered keeps the stacked rows disjoint and accounts for its columns |
| DancingLinks.CoverUsesColumn | muduo-master/examples/sudoku/sudoku.cc:116-118 | every exact cover of what is left uses a linked row of any column chosen |
| DancingLinks.BranchRefuted | muduo-master/examples/sudoku/sudoku.cc:118-130 | if what a row leaves has no exact cover, no exact cover has that row |
| DancingLinks.AllBranchesRefuted | muduo-master/examples/sudoku/sudoku.cc:116-132 | if every linked row of a column is refuted, there is no exact cover |
| Building.PutLeftRing | muduo-master/examples/sudoku/sudoku.cc:244-250 | appends a node to a horizontal ring |
| Building.PutUpRing | muduo-master/examples/sudoku/sudoku.cc:252-260 | appends a node to a vertical ring |
| Building.WholeCanonical | muduo-master/examples/sudoku/sudoku.cc:33-93 | the matrix as built is one on which nothing is covered |
| Building.AppendRowPlan | muduo-master/examples/sudoku/sudoku.cc:82-88 | four new nodes linked into four columns and one row make the matrix with that row |
| SudokuRules.NoRepeat | muduo-master/examples/sudoku/sudoku.cc:47-55 | in a complete board no row, column or box repeats a value |
| SudokuMatrix.CoverIsSolution | muduo-master/examples/sudoku/sudoku.cc:97-113 | writing the stacked rows of an exact cover into the board solves the puzzle |
| SudokuMatrix.SolutionIsCover | muduo-master/examples/sudoku/sudoku.cc:57-92 | every solution of the puzzle is an exact cover of its matrix |
| Sudoku.SudokuSolver.constructor | muduo-master/examples/sudoku/sudoku.cc:33-93 | the matrix built has one column for each open constraint and one row for each open candidate |
| Sudoku.SudokuSolver.AppendColumn | muduo-master/examples/sudoku/sudoku.cc:144-165 | one more column, linked |
| Sudoku.SudokuSolver.AppendRow | muduo-master/examples/sudoku/sudoku.cc:82-88 | one more row, linked |
| Sudoku.SudokuSolver.Cover | muduo-master/examples/sudoku/sudoku.cc:218-229 | the arena becomes the one with the column covered |
| Sudoku.SudokuSolver.Uncover | muduo-master/examples/sudoku/sudoku.cc:231-242 | the arena is again as it was before the cover, in every link and size |
| Sudoku.SudokuSolver.ChooseRow | muduo-master/examples/sudoku/sudoku.cc:120-122 | covers the other columns of the row |
| Sudoku.SudokuSolver.UnchooseRow | muduo-master/examples/sudoku/sudoku.cc:127-129 | uncovers them in reverse order, which restores the arena |
| Sudoku.SudokuSolver.GetMinColumn | muduo-master/examples/sudoku/sudoku.cc:201-216 | an uncovered column with the fewest linked rows, or one with at most one |
| Sudoku.SudokuSolver.TryRow | muduo-master/examples/sudoku/sudoku.cc:118-130 | a failed branch leaves matrix, stack and board as they were |
| Sudoku.SudokuSolver.Solve | muduo-master/examples/sudoku/sudoku.cc:95-133 | true means the stacked rows cover every column exactly once and are written to the board; false means no exact cover exists and nothing has changed; the recursion ends by the number of columns left |
| Sudoku.SolveBoard | muduo-master/examples/sudoku/sudoku.cc:263-291 | true gives a solution of the puzzle, false means there is none and leaves the board |
| Sudoku.SolveSudoku | muduo-master/examples/sudoku/sudoku.cc:263-291 | for every string of 81 characters the answer is a solution if the puzzle has one, and the no-solution text otherwise; a solution has a digit everywhere and keeps the given ones |

## Left out

- Engines.Engine.Put: when the write triggers a flush, level 0 is below its limit, so no compaction runs, and the table to flush fits the file format (lengths below 65536, sizes below 2^32); keys are not empty.
- Engines.Engine.Remove: as Put.
- Engines.Engine.Flush: as Put.
- Engines.Engine.constructor: an engine over an empty directory; loading existing files is not modelled.
- Engines.Engine.Get: the id returned beside the value is not modelled.
- Engines.GetLast: as Get.
- Ssts.Get: as Engine.Get; the block cache in front of the block reader is modelled on its own.
- Ssts.SSTBuilder.Add: keys are not empty; an empty first key is taken for no key by the code.
- BlockSearch.Block.AddEntry: keys and values longer than 65535 bytes have their length truncated; what was added then reads back only if it fits (Blocks.HoldsAppend).
- Transactions.TranManager.Put: the transaction is active and the record fits its 16-bit length; the code checks neither.
- Transactions.TranManager.Remove: as Put.
- Transactions.TranManager.EngineGet: versions in memory; reads through files are those of Engines.Engine.Get.
- Transactions.TranManager.FindClash: versions in memory; what the missing check of files means is Layers.CommitOverFiles.
- Transactions.TranManager.Abort: the rollback of READ_UNCOMMITTED is not modelled.
- Transactions.TranManager.Get: READ_UNCOMMITTED is not modelled; a transaction that reads its own deletion gets an empty value, as in the code.
- Transactions.TranManager.Commit: all versions are in memory; the check against table files compares with a query id of 0 and never finds a conflict.
- Transactions.TranManager.Replayed: one crash; ids after recovery and a second crash are not modelled. Autocommitted writes are not logged by the code and are not rebuilt.
- Restart.ReplayInto: the writes fit in memory, so that no flush happens during replay.
- HeapScan.HeapIterator.constructor: as Next.
- HeapScan.HeapIterator.Settle: as Next.
- HeapScan.HeapIterator.Next: claims are for heaps of items all visible to the reader, which is how the memtable builds them.
- HeapScan.HeapIterator.Scan: as Next.
- Iterators.SstIterator.Next: iteration without an id filter; with one, a block without visible entries ends the scan early in the code.
- Iterators.BlockIterator.Next: as SstIterator.Next.
- Iterators.TwoMerge.constructor: the two streams are given as the sequences they yield; without an id filter, as compaction uses it.
- Iterators.TwoMerge.Next: as the constructor.
- LevelCompaction.CompactLevels: each of the two levels is read to its end before they are merged; keys are not empty; erasing the old files, the recursion to the next level, and level 0, whose heap drops deletions, are not modelled.
- LevelCompaction.SearchCompacted: as CompactLevels; the new tables fit the file format.
- Redis.FieldsOf: of a value shorter than its prefix, which no hash has, it gives no fields where the code throws.
- RedisRuns.Run: commands that the contracts of the single commands admit.
- Redis.RedisWrapper.Hset: at least one pair, as the command demands; keys without underscore, fields without '$', values not empty, and a key of one type.
- Redis.RedisWrapper.Lpush: elements are not empty and hold no '#'; a key of one type.
- Redis.RedisWrapper.Rpush: as Lpush.
- Redis.RedisWrapper.Expire: expiry times are a map of their own instead of keys with a prefix, and the store below is a map in which an empty value is absence.
- TimerQueues.TimerQueue.HandleRead: the clock reads after 1970; reading a timer's sequence number in another thread after handing it to the loop is not modelled.
- Dates.NumberRoundTrip: beyond the day of FitsInt the code overflows 32 bits; the model does not wrap.
- TimeZones.Data.ReadDataBlock: the bytes of a zone file are given as lists already read.
- TimeZones.Data.FindLocalTime: transitions ascend in local time as well; below that the binary search of the library has no defined result.
- TimeZones.EitherRecovers: as Recovers.
- TimeZones.Recovers: transitions are further apart than any two offsets differ.
- LSMEngine::get_batch, Level_Iterator, range queries through table files, and iteration of table files with an id filter.
- MemTable::clear and the heap of iters_preffix.
- Level 0 to level 1 compaction as a whole.
- The thread that removes old log files, and loading existing files at start.
- Strings with expiry, counters, sets and sorted sets of the Redis layer.
- Locks, memory ordering, files and directories, configuration, logging, the Python binding and the server.
- The rest of muduo.

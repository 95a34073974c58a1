# LevelDB table reader, modelled in Dafny

This project models the read side of a LevelDB sorted table (`table/table.cc`, the `Table`
class): opening a table file, attaching its filter on a best-effort basis, turning an index
entry into a cursor over a data block through the shared block cache, point lookups
(`InternalGet`) and offset estimation (`ApproximateOffsetOf`).

The collaborators `table.cc` calls into are modelled abstractly:

- the byte-level decoders (`Footer::DecodeFrom`, `BlockHandle::DecodeFrom`, the block parser)
  are the function fields of a `Codec` value;
- the file and `ReadBlock` are a `File` object whose reads are fixed functions of their
  arguments, with a ghost count of the reads issued;
- a decoded block is a `Block` object with a `live` flag (allocated by `new`, cleared by
  `delete`); what a cursor sees in it is a `BlockView`, a sequence of entries and a status;
- a block cursor's `Seek` lands on the first entry whose key is not less than the target
  (`Blocks.SeekIndex`);
- the block cache is a `Cache` object holding a map from key to (block, number of handles out)
  and the last namespace id handed out;
- a filter is a policy name together with a predicate over (filter bytes, block offset, key);
- the saver callback is a `Saver` object that records every call.

Modules: `Coding` (bytes, `u64`, fixed 64-bit little-endian encoding), `Statuses`, `Format`
(handles, footer, block contents, read options, `Codec`, `File`), `Blocks` (`Block`, seeking,
the bytewise comparator), `BlockCache`, `Cursors` (block cursors and their cleanup),
`TableRules` (every decision of the reader as a function of its inputs, with lemmas), and
`TableReader` (the `Table` class, whose methods perform those decisions on the table's state and
are proved against the `TableRules` functions).

The saver is called with the first block entry whose key is not less than `k`, whether or not
that key equals `k` (table/table.cc:295-300); deciding whether it matches is left to the saver.
The model follows the code in this.

## Model

| member | source | states |
|---|---|---|
| Coding.EncodeFixed64 | table/table.cc:188-191 | the fixed 64-bit encoding of a value is 8 bytes long |
| Coding.EncodeFixed64Injective | table/table.cc:188-191 | two values have the same fixed 64-bit encoding exactly when they are equal |
| Format.InternalReadOptions | table/table.cc:65-68 | the reader's own reads verify checksums exactly when paranoid_checks is set, and fill the cache as a default ReadOptions does |
| Format.File.Read | table/table.cc:53-55 | a read returns the file's bytes at (offset, n) or the read error, and counts one read |
| Format.File.ReadBlock | table/table.cc:71 | ReadBlock returns the block contents at a handle under the given read options or the error, and counts one read |
| Blocks.Block.constructor | table/table.cc:73 | a new block is live and its view is the parse of the contents it was built from |
| Blocks.SeekIndex | table/table.cc:252 | the position a seek leaves a cursor at is within the block, or just past its end |
| Blocks.SeekIndexLands | table/table.cc:252 | every entry before the seek position has a key less than the target, and the entry landed on (if any) does not |
| Blocks.SeekFindsPresentKey | table/table.cc:118-119 | in a sorted block under a strict total order, seeking a key that is present lands exactly on it |
| Blocks.SeekLandsOnKeyIffPresent | table/table.cc:118-119 | in a sorted block, seeking lands on an entry with key equal to the target if and only if some entry has that key |
| Blocks.SeekIndexFindsBlock | table/table.cc:252 | in a table whose index entry i is at or after every key of data block i and before every key of block i+1, seeking the index to any key stored in block p lands on entry p |
| Blocks.SeekIndexMonotone | table/table.cc:322 | seeking a target that is not smaller never lands at an earlier position |
| Blocks.BytewiseLess | table/table.cc:115 | the bytewise comparator never puts a key before itself or an equal key |
| Blocks.BytewiseProperPrefixFirst | table/table.cc:115 | under the bytewise comparator a proper prefix orders before the longer key |
| Blocks.BytewiseIsStrictTotalOrder | table/table.cc:115 | the bytewise comparator the metaindex is searched with is irreflexive, transitive and total |
| BlockCache.CacheKey | table/table.cc:188-191 | the cache key of a block is 16 bytes long |
| BlockCache.CacheKeyInjective | table/table.cc:188-191 | two cache keys are equal exactly when both the cache ids and the block offsets are equal, so tables with distinct ids never share keys |
| BlockCache.NextId | table/table.cc:85 | a new cache id is the last one plus one, modulo 2^64 |
| BlockCache.Pin | table/table.cc:192-194 | a lookup hit keeps the same keys and blocks and adds one handle to the looked-up entry only |
| BlockCache.Unpin | table/table.cc:162-166 | a release keeps the same keys and blocks and removes one handle from the released entry only |
| BlockCache.UnpinPin | table/table.cc:192-194 | releasing a handle just taken by a hit leaves the cache as it was |
| BlockCache.Cache.NewId | table/table.cc:85 | NewId hands out the next id and records it as the last one |
| BlockCache.Cache.Lookup | table/table.cc:192-194 | Lookup hits exactly when the key is cached; a hit pins the entry, a miss changes nothing |
| BlockCache.Cache.Value | table/table.cc:194 | definition: the block the entry under a held key refers to |
| BlockCache.Cache.Insert | table/table.cc:202-203 | Insert stores the block under the key with one handle out, and every other entry is unchanged |
| BlockCache.Cache.Release | table/table.cc:162-166 | Release gives back one handle on the entry |
| Cursors.DeleteBlock | table/table.cc:153-155 | the cleanup of an owned block frees it |
| Cursors.ReleaseBlock | table/table.cc:162-166 | the cleanup of a cache handle gives that handle back to the cache |
| Cursors.Cursor.constructor | table/table.cc:220 | a new cursor over a block is not valid and has no cleanup yet |
| Cursors.Cursor.Valid | table/table.cc:119 | definition: the cursor is positioned at an entry of its block |
| Cursors.Cursor.Key | table/table.cc:295-297 | definition: the key of the entry the cursor is at |
| Cursors.Cursor.Value | table/table.cc:295-297 | definition: the value of the entry the cursor is at |
| Cursors.Cursor.Seek | table/table.cc:288 | after a seek the cursor is at the seek position, and if valid its key is not less than the target |
| Cursors.Cursor.RegisterCleanup | table/table.cc:221-225 | a cursor without a cleanup gets exactly the one given |
| Cursors.Cursor.Discard | table/table.cc:302 | deleting a cursor runs its cleanup once: an owned block is freed, a cache handle given back, and the cache's last id is untouched; a cache holding only live blocks, none of them the owned block, still holds only live blocks |
| Cursors.NewErrorIterator | table/table.cc:227 | an error cursor has no entries, reports the error status and has no cleanup |
| TableRules.OpenBootstrap | table/table.cc:46-75 | a file shorter than the footer fails with Corruption; any success has room for a footer |
| TableRules.OpenLoads | table/table.cc:53-75 | a successful open has read the trailer, decoded it into its footer, read the index block and parsed it into its index |
| TableRules.OpenFailsIff | table/table.cc:46-75 | open fails exactly when the file is too short or the footer read, the footer decode or the index read fails, with that step's own status |
| TableRules.FilterKey | table/table.cc:116-117 | the metaindex key of a filter is "filter." followed by the policy name, byte for byte |
| TableRules.LoadFilter | table/table.cc:126-147 | a loaded filter is bound to the configured policy and to the bytes it keeps |
| TableRules.LoadFilterIff | table/table.cc:126-147 | a filter loads exactly when its handle decodes and its block reads OK, and the table owns the bytes exactly when they are heap-allocated |
| TableRules.MetaFilter | table/table.cc:97-124 | no filter policy means no filter, and a filter found is bound to the configured policy |
| TableRules.FilterAttachedIff | table/table.cc:97-147 | for a bytewise-sorted metaindex, a filter is attached exactly when a policy is set, the metaindex reads OK, holds the key "filter."+name exactly, and that entry's filter loads |
| TableRules.FetchBlock | table/table.cc:178-216 | a fetch holds a cache handle only when a cache is configured; a hit is on a cached key, an insertion on an uncached one |
| TableRules.FetchBlockDecides | table/table.cc:178-216 | a bad handle yields its error; a cached key is a hit and reads nothing; otherwise the block is read, a read error is returned, and a block read OK is inserted exactly when a cache is configured, it is cachable and fill_cache is set |
| TableRules.RefetchHits | table/table.cc:188-203 | after a block is read and inserted under its key, a fetch of any index value decoding to the same offset is a hit and reads nothing |
| TableRules.FetchedView | table/table.cc:218-229 | a fetch without a block gives a cursor with no entries and the fetch error as its status |
| TableRules.FetchIsolated | table/table.cc:188-203 | two tables with distinct cache ids never hold handles on the same cache key |
| TableRules.FilterReader.KeyMayMatch | table/table.cc:269 | definition: the policy's answer for the filter bytes, the block offset and the key |
| TableRules.FilterRulesOut | table/table.cc:267-269 | the filter rules a block out only when a filter is attached and the index value decodes |
| TableRules.Get | table/table.cc:245-315 | a lookup that fetches nothing calls no saver and returns the index status; a saved entry comes from the fetched block; a non-OK status is the block's or the index's |
| TableRules.GetDecides | table/table.cc:245-315 | no index entry, or a filter that rules the landed block out (attached, handle decodes, KeyMayMatch false), fetches nothing and returns the index status; otherwise the fetch uses the landed value, the saver gets the first block entry not less than k (every entry before it is less than k) if any, and the status is the block's when non-OK, else the index's |
| TableRules.GetFindsStoredKey | table/table.cc:288-301 | a lookup that reaches a sorted block holding k hands the saver exactly k's entry and returns the index status |
| TableRules.GetRoundTrip | table/table.cc:245-301 | in a table laid out so that index entry i covers data block i, a lookup of any stored key fetches through the index entry of its block and, when that block is read OK and the filter admits the key, hands the saver exactly the stored entry and returns OK |
| TableRules.GetFilterNeverHidesStoredKey | table/table.cc:263-277 | a filter that admits every key of the landed data block changes no lookup of those keys |
| TableReader.HandleGivenBack | table/table.cc:192-203 | taking the handle a fetch holds and giving it back leaves the cache exactly as before, except that a block read and inserted stays cached under its key, parsed from the bytes read, with no handle out |
| TableReader.CacheAfterFetchRestored | table/table.cc:192-203 | in the model cache, which never evicts, a lookup keeps every entry there was with its handle count and adds no held entry |
| TableReader.CachedBlockServesRefetch | table/table.cc:188-203 | after a lookup that read and inserted a block, a later fetch of the same offset is a hit, reads nothing and shows exactly the block that was read |
| TableReader.Saver.Save | table/table.cc:297 | each saver call is recorded with the key and value it was given |
| TableReader.ScanBlock | table/table.cc:288-302 | the block cursor is seeked to k, the saver is called once with the landed entry if the cursor is valid, its status is returned, and deleting it frees the owned block or gives back the cache handle, leaving the cache's last id alone; a cache holding only live blocks, none of them the owned block, still holds only live blocks |
| TableReader.Table.constructor | table/table.cc:80-88 | a new table holds the given options, file, cache id, metaindex handle and live index block, with no filter |
| TableReader.Table.Open | table/table.cc:42-95 | a table is produced exactly when the footer and index load, else no table and the failing step's status; on success the index and metaindex handle come from the footer, the cache id is NewId() or 0, the filter is what ReadMeta finds, and the status is OK whatever the filter does |
| TableReader.Table.ReadMeta | table/table.cc:97-124 | the filter and its owned bytes become what the metaindex names for the policy; every failure leaves them unchanged |
| TableReader.Table.ReadFilter | table/table.cc:126-147 | a filter whose handle decodes and block reads is attached; its bytes are owned only when heap-allocated; otherwise nothing changes |
| TableReader.Table.Close | table/table.cc:149-151 | destroying the table frees the index block, the filter and the owned filter bytes |
| TableReader.BlockCursor | table/table.cc:218-229 | a cursor over an obtained block carries the one cleanup that gives back the cache handle when one is held and deletes the block otherwise; without a block, an error cursor with the status and no cleanup |
| TableReader.Table.BlockReader | table/table.cc:170-230 | the cursor shows the fetched block or the error; it carries exactly one cleanup when it has a block (the cache handle when one is held, else its own block) and none otherwise; a hit reads nothing and pins, an insert adds one held entry whose block is live, and every other path leaves the cache unchanged; a cache holding only live blocks still does afterwards, and an owned block is never one the cache holds |
| TableReader.Table.ReadThroughCache | table/table.cc:186-209 | a hit reads nothing, pins the key and returns the cached block held; a miss reads the file once; a failed read returns its error and leaves the cache alone; a good read returns a fresh live block parsed from the contents, held and inserted exactly when the block is cachable and fill_cache is set; a cache holding only live blocks still does afterwards |
| TableReader.Table.SearchBlock | table/table.cc:277-302 | fetches the block, calls the saver at most once with the landed entry, returns the block cursor's status, frees an owned block, leaves the cache's last id alone and leaves the cache exactly as before except for a block read and inserted, which stays cached unheld; the cache holds only live blocks before and after, so the inserted block is still live |
| TableReader.Table.IndexSeek | table/table.cc:245-258 | the index cursor yields the value it lands on for k (none when past the end) and the index status |
| TableReader.Table.InternalGet | table/table.cc:238-316 | the status and the saver calls are those of Get; no fetch means no file read and an unchanged cache; a fetch reads the file only on a cache miss; an owned block is freed; the cache's last id is untouched and the cache is left exactly as before except for a block read and inserted, which stays cached under its key with no handle out; the cache holds only live blocks before and after, so the inserted block is still live |
| TableReader.Table.EntryOffset | table/table.cc:325-335 | definition: the offset an index entry's handle decodes to, or the metaindex offset when it does not decode |
| TableReader.Table.ApproximateOffsetOf | table/table.cc:319-344 | the estimate is the metaindex offset when every index key is less than the key, and otherwise the offset decoded from the first index entry not less than the key, or the metaindex offset when that entry's handle does not decode |
| TableReader.Table.ApproximateOffsetOfFirstKey | table/table.cc:319-330 | with index offsets in file order, a key at or before the first index key gets the first block's offset, the smallest of all |
| TableReader.Table.ApproximateOffsetOfMonotone | table/table.cc:319-344 | with a strict total order and index offsets in file order, the estimate never decreases as the key grows |

## Left out

- table/format.cc, table/block.cc, util/coding.cc, util/cache.cc and table/filter_block.cc are not part of this model. Footer and handle decoding, ReadBlock (checksums, decompression), block parsing and filter matching are abstract functions.
- The block cursor's restart-point binary search is not modelled; Seek is specified by the position it lands on.
- Cache eviction, charges, capacity, locking and the `DeleteCachedBlock` deleter (table/table.cc:157-160) are not modelled. The source inserts each block with its size as the charge (table/table.cc:202-203), so a capacity-bounded cache may evict unheld entries on an insert and free their blocks. The model cache never evicts, so the facts that every cached block stays live (TableReader.Table.CacheBlocksLive, required and ensured by BlockReader, SearchBlock and InternalGet) and that a lookup leaves every earlier entry in place (TableReader.HandleGivenBack, TableReader.CacheAfterFetchRestored, TableReader.Table.InternalGet) hold of the model only.
- `Cache.Insert` over a key that is already present adds the old handles to the new entry and does not model the displaced entry. BlockReader only inserts after a miss, so this never happens on the modelled paths.
- `NewIterator` (table/table.cc:232-236) only wires BlockReader into the two-level iterator, which is not part of this model.
- `Rep::status` (table/table.cc:32) is never read or written by the reader and is not modelled.
- The `printf` on the filter-miss path (table/table.cc:270) and the commented-out timing code are output only and are not modelled.
- Concurrency is not modelled: several threads sharing one cache or one table.
- The delete of the index block on Open's failure path (table/table.cc:91) is not modelled. The block is only built once the index read succeeds, so that branch never frees anything.
- TableReader.Table.IndexSeek deletes the index cursor before the data block is searched, whereas the source deletes it at the end (table/table.cc:312). An index cursor carries no cleanup, so the order changes no state.
- A cursor carries at most one cleanup, which is all the reader ever registers (table/table.cc:221-225).
- TableReader.Table.Close does not model the file or the cache, because the table does not own them.
- TableReader.Table.InternalGet: "at most once" for the saver is stated through the record of its calls. The saver's own effect on the caller's state is not modelled.
- Heap allocation is only modelled for the `Block` objects. Filter bytes are values, and owning them is a `Some` in `filterData`.

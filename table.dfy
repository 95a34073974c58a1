/**
 * Table (table/table.cc): an open sorted table. Open loads the footer and the index block and
 * attaches a filter on a best-effort basis; BlockReader turns an index value into a cursor over
 * that data block, through the shared block cache when one is configured; InternalGet performs a
 * point lookup; ApproximateOffsetOf estimates where a key lives in the file.
 * The fields of Table::Rep are fields of the Table class here.
 */
module TableReader {
  import opened Coding
  import opened Statuses
  import opened Format
  import opened Blocks
  import opened BlockCache
  import opened Cursors
  import opened TableRules

  /** The cache object, if any, as a frame. */
  function CacheSet(cache: Cache?): set<object>
  {
    if cache == null then {} else {cache}
  }

  /**
   * The cache after a fetch `f` whose handle was given back: exactly as before, except that a
   * block read and inserted stays cached under its key, parsed from the contents read, with no
   * handle out.
   */
  ghost predicate CacheAfterFetch(before: map<Bytes, CacheEntry>, after: map<Bytes, CacheEntry>, f: Fetch, codec: Codec)
  {
    if f.ReadCached? then
      && f.key in after
      && after == before[f.key := after[f.key]]
      && after[f.key].refs == 0
      && after[f.key].block.view == codec.parseBlock(f.contents.data)
    else
      after == before
  }

  /**
   * Taking the handle BlockReader's fetch `f` holds and giving it back again leaves the cache
   * as CacheAfterFetch says: a hit's entry returns to its old count, an inserted entry is left
   * unheld.
   */
  lemma HandleGivenBack(before: map<Bytes, CacheEntry>, during: map<Bytes, CacheEntry>,
                        after: map<Bytes, CacheEntry>, f: Fetch, codec: Codec)
    requires f.Hit? ==> f.key in before && during == Pin(before, f.key)
    requires f.ReadCached? ==>
      && f.key !in before && f.key in during && during[f.key].refs == 1
      && during == before[f.key := during[f.key]]
      && during[f.key].block.view == codec.parseBlock(f.contents.data)
    requires !HoldsCacheHandle(f) ==> during == before && after == during
    requires HoldsCacheHandle(f) ==> f.key in during && during[f.key].refs > 0 && after == Unpin(during, f.key)
    ensures CacheAfterFetch(before, after, f, codec)
    ensures f.ReadCached? ==> after[f.key].block == during[f.key].block
  {
    if f.Hit? {
      UnpinPin(before, f.key);
    } else if f.ReadCached? {
      assert after == before[f.key := after[f.key]];
    }
  }

  /** A lookup's cache effect keeps every entry there was, with its handle count, and adds no held entry. */
  lemma CacheAfterFetchRestored(before: map<Bytes, CacheEntry>, after: map<Bytes, CacheEntry>, f: Fetch, codec: Codec)
    requires f.ReadCached? ==> f.key !in before
    requires CacheAfterFetch(before, after, f, codec)
    ensures Restored(before, after)
  {
  }

  /**
   * After a lookup that read a block and inserted it, a later fetch of the same block (any index
   * value decoding to the same offset) is a hit, reads nothing, and shows exactly the block a
   * fresh read parsed.
   */
  lemma CachedBlockServesRefetch(cacheId: u64, before: map<Bytes, CacheEntry>, after: map<Bytes, CacheEntry>,
                                 file: File, codec: Codec, options: ReadOptions, indexValue: Bytes,
                                 options2: ReadOptions, indexValue2: Bytes)
    requires var f := FetchBlock(true, cacheId, before.Keys, file, codec, options, indexValue);
      f.ReadCached? && CacheAfterFetch(before, after, f, codec)
    requires codec.decodeHandle(indexValue2).Success?
    requires codec.decodeHandle(indexValue2).value.offset == codec.decodeHandle(indexValue).value.offset
    ensures var f := FetchBlock(true, cacheId, before.Keys, file, codec, options, indexValue);
      var g := FetchBlock(true, cacheId, after.Keys, file, codec, options2, indexValue2);
      && g == Hit(f.key) && !ReadsFile(g)
      && FetchedView(g, after, codec) == codec.parseBlock(f.contents.data)
  {
    var f := FetchBlock(true, cacheId, before.Keys, file, codec, options, indexValue);
    assert after.Keys == before.Keys + {f.key};
    RefetchHits(cacheId, before.Keys, file, codec, options, indexValue, options2, indexValue2);
  }

  /** The saver callback of InternalGet together with its argument: it records every call. */
  class Saver {
    var calls: seq<Entry>

    constructor ()
      ensures calls == []
    {
      calls := [];
    }

    method Save(key: Bytes, value: Bytes)
      modifies this`calls
      ensures calls == old(calls) + [Entry(key, value)]
    {
      calls := calls + [Entry(key, value)];
    }
  }

  /**
   * The block cursor's part of InternalGet: seek k, hand the entry landed on (if any) to the
   * saver, take the cursor's status, and delete the cursor, running its cleanup. A cache that
   * holds only live blocks, none of them the cursor's own, still does afterwards.
   */
  method ScanBlock(iter: Cursor, k: Bytes, saver: Saver, ghost cache: Cache?) returns (s: Status)
    requires !iter.discarded && iter.CleanupPending()
    requires cache != null ==> cache.BlocksLive()
    requires cache != null && iter.cleanup.OwnedBlock? ==> forall key :: key in cache.table ==> cache.table[key].block != iter.cleanup.block
    modifies iter`pos, iter`discarded, iter.CleanupFrame(), saver`calls
    ensures s == iter.view.status && iter.discarded
    ensures var j := SeekIndex(iter.view.entries, iter.less, k);
      saver.calls == old(saver.calls) + (if j < |iter.view.entries| then [iter.view.entries[j]] else [])
    ensures iter.cleanup.OwnedBlock? ==> !iter.cleanup.block.live
    ensures iter.cleanup.CacheHandle? ==> iter.cleanup.cache.table == Unpin(old(iter.cleanup.cache.table), iter.cleanup.key)
    ensures iter.cleanup.CacheHandle? ==> iter.cleanup.cache.lastId == old(iter.cleanup.cache.lastId)
    ensures cache != null ==> cache.BlocksLive()
  {
    iter.Seek(k);
    if iter.Valid() {
      saver.Save(iter.Key(), iter.Value());
    }
    s := iter.view.status;
    iter.Discard(cache);
  }

  /**
   * The end of BlockReader: a cursor over `block` carrying one cleanup, which gives back the cache
   * handle when one is held and deletes the block otherwise; with no block, an error cursor that
   * reports `s` and carries no cleanup.
   */
  method BlockCursor(block: Block?, cache: Cache?, cacheHandle: Option<Bytes>, s: Status,
                     less: (Bytes, Bytes) -> bool) returns (iter: Cursor)
    requires block == null ==> !s.OK?
    requires block != null && cacheHandle.Some? ==> cache != null
    ensures fresh(iter) && !iter.discarded && iter.less == less
    ensures block == null ==> iter.view == View([], s) && iter.cleanup == NoCleanup
    ensures block != null && cacheHandle.None? ==> iter.view == block.view && iter.cleanup == OwnedBlock(block)
    ensures block != null && cacheHandle.Some? ==> iter.view == block.view && iter.cleanup == CacheHandle(cache, cacheHandle.value)
  {
    if block != null {
      iter := new Cursor(block.view, less);
      if cacheHandle.None? {
        iter.RegisterCleanup(OwnedBlock(block));
      } else {
        iter.RegisterCleanup(CacheHandle(cache, cacheHandle.value));
      }
    } else {
      iter := NewErrorIterator(s, less);
    }
  }

  class Table {
    const options: Options
    const file: File
    const codec: Codec
    const cacheId: u64
    const metaindexHandle: BlockHandle  // saved from the footer
    const indexBlock: Block
    var filter: Option<FilterReader>
    var filterData: Option<Bytes>       // the filter block's bytes, when the table owns them

    /** The index block is live until the table is closed; a filter is bound to the configured policy. */
    ghost predicate Valid()
      reads this, indexBlock
    {
      && indexBlock.live
      && (filter.Some? ==> options.filterPolicy.Some? && filter.value.policy == options.filterPolicy.value)
      && (filterData.Some? ==> filter.Some?)
    }

    /** The cache's table, or the empty map when no cache is configured. */
    ghost function CachedTable(): map<Bytes, CacheEntry>
      reads CacheSet(options.blockCache)
    {
      if options.blockCache == null then map[] else options.blockCache.table
    }

    /** The configured cache, if any, holds only live blocks. */
    ghost predicate CacheBlocksLive()
      reads CacheSet(options.blockCache), if options.blockCache == null then {} else options.blockCache.Blocks()
    {
      options.blockCache != null ==> options.blockCache.BlocksLive()
    }

    /** new Table(rep) over a freshly filled Rep, before ReadMeta. */
    constructor (options: Options, file: File, codec: Codec, cacheId: u64,
                 metaindexHandle: BlockHandle, indexBlock: Block)
      requires indexBlock.live
      ensures this.options == options && this.file == file && this.codec == codec
      ensures this.cacheId == cacheId && this.metaindexHandle == metaindexHandle
      ensures this.indexBlock == indexBlock
      ensures filter == None && filterData == None
      ensures Valid()
    {
      this.options := options;
      this.file := file;
      this.codec := codec;
      this.cacheId := cacheId;
      this.metaindexHandle := metaindexHandle;
      this.indexBlock := indexBlock;
      filter := None;
      filterData := None;
    }

    /**
     * Open: a table exactly when the footer and the index block load; otherwise no table and
     * the failing step's status. A missing or unreadable filter never changes the outcome.
     */
    static method Open(options: Options, file: File, codec: Codec, size: u64) returns (s: Status, table: Table?)
      modifies file`readCount, CacheSet(options.blockCache)
      ensures var b := OpenBootstrap(options.paranoidChecks, file, codec, size);
        && (table == null <==> b.Failure?)
        && (b.Failure? ==> s == b.error)
        && (b.Success? ==> s == OK)
      ensures table != null ==>
        var b := OpenBootstrap(options.paranoidChecks, file, codec, size).value;
        var m := MetaFilter(options, file, codec, b.footer.metaindexHandle);
        && fresh(table) && fresh(table.indexBlock) && table.Valid()
        && table.options == options && table.file == file && table.codec == codec
        && table.indexBlock.view == b.index
        && table.metaindexHandle == b.footer.metaindexHandle
        && table.cacheId == (if options.blockCache != null then NextId(old(options.blockCache.lastId)) else 0)
        && table.filter == (if m.Some? then Some(m.value.reader) else None)
        && table.filterData == (if m.Some? && m.value.heapAllocated then Some(m.value.data) else None)
      ensures options.blockCache != null ==>
        && options.blockCache.table == old(options.blockCache.table)
        && options.blockCache.lastId == (if table != null then NextId(old(options.blockCache.lastId)) else old(options.blockCache.lastId))
    {
      table := null;
      if size < kFooterEncodedLength {
        s := Corruption("file is too short to be an sstable");
        return;
      }
      var footerInput := file.Read(size - kFooterEncodedLength, kFooterEncodedLength);
      if footerInput.Failure? {
        s := footerInput.error;
        return;
      }
      var footer := codec.decodeFooter(footerInput.value);
      if footer.Failure? {
        s := footer.error;
        return;
      }
      var contents := file.ReadBlock(InternalReadOptions(options.paranoidChecks), footer.value.indexHandle);
      if contents.Failure? {
        s := contents.error;
        return;
      }
      var indexBlock := new Block(contents.value, codec);
      var cacheId: u64 := 0;
      if options.blockCache != null {
        cacheId := options.blockCache.NewId();
      }
      table := new Table(options, file, codec, cacheId, footer.value.metaindexHandle, indexBlock);
      table.ReadMeta(footer.value);
      s := OK;
    }

    /**
     * ReadMeta: attaches the filter the metaindex names for the configured policy, if any;
     * every failure leaves the filter state as it was.
     */
    method ReadMeta(footer: Footer)
      requires Valid()
      modifies this`filter, this`filterData, file`readCount
      ensures Valid()
      ensures var m := MetaFilter(options, file, codec, footer.metaindexHandle);
        && filter == (if m.Some? then Some(m.value.reader) else old(filter))
        && filterData == (if m.Some? && m.value.heapAllocated then Some(m.value.data) else old(filterData))
    {
      if options.filterPolicy.None? {
        return;
      }
      var contents := file.ReadBlock(InternalReadOptions(options.paranoidChecks), footer.metaindexHandle);
      if contents.Failure? {
        return;
      }
      var meta := new Block(contents.value, codec);
      var iter := new Cursor(meta.view, BytewiseLess);
      var key := FilterKey(options.filterPolicy.value);
      iter.Seek(key);
      if iter.Valid() && iter.Key() == key {
        ReadFilter(iter.Value());
      }
      iter.Discard(null);
      DeleteBlock(meta);
    }

    /**
     * ReadFilter: attaches the filter block `filterHandleValue` points to; the table takes
     * ownership of its bytes only when they are heap-allocated.
     */
    method ReadFilter(filterHandleValue: Bytes)
      requires Valid() && options.filterPolicy.Some?
      modifies this`filter, this`filterData, file`readCount
      ensures Valid()
      ensures var l := LoadFilter(options.paranoidChecks, file, codec, options.filterPolicy.value, filterHandleValue);
        && filter == (if l.Some? then Some(l.value.reader) else old(filter))
        && filterData == (if l.Some? && l.value.heapAllocated then Some(l.value.data) else old(filterData))
    {
      var filterHandle := codec.decodeHandle(filterHandleValue);
      if filterHandle.Failure? {
        return;
      }
      var block := file.ReadBlock(InternalReadOptions(options.paranoidChecks), filterHandle.value);
      if block.Failure? {
        return;
      }
      if block.value.heapAllocated {
        filterData := Some(block.value.data);  // owned: Close frees it
      }
      filter := Some(FilterReader(options.filterPolicy.value, block.value.data));
    }

    /** ~Table: frees the filter, the owned filter bytes and the index block; file and cache are not owned. */
    method Close()
      requires Valid()
      modifies this`filter, this`filterData, indexBlock
      ensures !indexBlock.live && filter.None? && filterData.None?
    {
      filter := None;
      filterData := None;
      DeleteBlock(indexBlock);
    }

    /**
     * BlockReader's cache path: look the block up under `key`; on a miss read it, and insert it
     * (holding a handle on it) when it is cachable and the caller fills the cache. The cache
     * keeps holding only live blocks.
     */
    method ReadThroughCache(blockCache: Cache, key: Bytes, readOptions: ReadOptions, handle: BlockHandle)
      returns (block: Block?, held: bool, s: Status)
      requires blockCache.BlocksLive()
      modifies blockCache`table, file`readCount
      ensures blockCache.BlocksLive()
      ensures key in old(blockCache.table) ==>
        && held && block == old(blockCache.table)[key].block
        && blockCache.table == Pin(old(blockCache.table), key)
        && file.readCount == old(file.readCount)
      ensures key !in old(blockCache.table) ==>
        var read := file.blockAt(readOptions, handle);
        && file.readCount == old(file.readCount) + 1
        && (read.Failure? ==> block == null && !held && s == read.error && blockCache.table == old(blockCache.table))
        && (read.Success? ==>
              && block != null && fresh(block) && block.live && block.view == codec.parseBlock(read.value.data)
              && (held <==> read.value.cachable && readOptions.fillCache)
              && blockCache.table == if held then old(blockCache.table)[key := CacheEntry(block, 1)] else old(blockCache.table))
    {
      s := OK;
      held := blockCache.Lookup(key);
      if held {
        block := blockCache.Value(key);
      } else {
        block := null;
        var contents := file.ReadBlock(readOptions, handle);
        if contents.Success? {
          block := new Block(contents.value, codec);
          if contents.value.cachable && readOptions.fillCache {
            blockCache.Insert(key, block);
            held := true;
          }
        } else {
          s := contents.error;
        }
      }
    }

    /**
     * BlockReader: a cursor over the data block `indexValue` points to, carrying exactly one
     * cleanup when it has a block (a cache handle to release, or its own block to delete) and
     * an error cursor with no cleanup otherwise. A cache hit reads nothing from the file.
     */
    method BlockReader(readOptions: ReadOptions, indexValue: Bytes) returns (iter: Cursor)
      requires CacheBlocksLive()
      modifies CacheSet(options.blockCache), file`readCount
      ensures CacheBlocksLive()
      ensures var f := FetchBlock(options.blockCache != null, cacheId, old(CachedTable()).Keys, file, codec, readOptions, indexValue);
        && fresh(iter) && !iter.discarded && iter.CleanupPending()
        && iter.view == FetchedView(f, old(CachedTable()), codec) && iter.less == options.comparator
        && file.readCount == old(file.readCount) + (if ReadsFile(f) then 1 else 0)
        && (!HasBlock(f) ==> iter.cleanup == NoCleanup)
        && (HoldsCacheHandle(f) ==> options.blockCache != null && iter.cleanup == CacheHandle(options.blockCache, f.key))
        && (f.ReadOwned? ==> iter.cleanup.OwnedBlock? && fresh(iter.cleanup.block) && iter.cleanup.block.live)
      ensures options.blockCache != null && iter.cleanup.OwnedBlock? ==>
        forall key :: key in options.blockCache.table ==> options.blockCache.table[key].block != iter.cleanup.block
      ensures var f := FetchBlock(options.blockCache != null, cacheId, old(CachedTable()).Keys, file, codec, readOptions, indexValue);
        options.blockCache != null ==>
        && options.blockCache.lastId == old(options.blockCache.lastId)
        && (f.Hit? ==> options.blockCache.table == Pin(old(options.blockCache.table), f.key))
        && (f.ReadCached? ==>
              && f.key in options.blockCache.table
              && options.blockCache.table == old(options.blockCache.table)[f.key := options.blockCache.table[f.key]]
              && options.blockCache.table[f.key].refs == 1
              && fresh(options.blockCache.table[f.key].block)
              && options.blockCache.table[f.key].block.live
              && options.blockCache.table[f.key].block.view == codec.parseBlock(f.contents.data))
        && (!HoldsCacheHandle(f) ==> options.blockCache.table == old(options.blockCache.table))
    {
      var blockCache := options.blockCache;
      var block: Block? := null;
      var cacheHandle: Option<Bytes> := None;
      var handle := codec.decodeHandle(indexValue);
      var s: Status := if handle.Failure? then handle.error else OK;
      // decodeHandle reads a prefix of indexValue; what follows it is ignored
      if handle.Success? {
        if blockCache != null {
          var key := CacheKey(cacheId, handle.value.offset);
          var held;
          block, held, s := ReadThroughCache(blockCache, key, readOptions, handle.value);
          if held {
            cacheHandle := Some(key);
          }
        } else {
          var contents := file.ReadBlock(readOptions, handle.value);
          if contents.Success? {
            block := new Block(contents.value, codec);
          } else {
            s := contents.error;
          }
        }
      }
      iter := BlockCursor(block, blockCache, cacheHandle, s, options.comparator);
    }

    /**
     * The part of InternalGet past the filter: fetches the block `handleValue` points to, seeks
     * k in it, calls the saver with the entry it lands on (if any), and deletes the block cursor.
     * Its status is the block cursor's; every cache handle taken is given back.
     */
    method SearchBlock(readOptions: ReadOptions, handleValue: Bytes, k: Bytes, saver: Saver)
      returns (s: Status, ghost block: BlockView, ghost owned: Option<Block>)
      requires CacheBlocksLive()
      modifies CacheSet(options.blockCache), file`readCount, saver`calls
      ensures CacheBlocksLive()
      ensures var f := FetchBlock(options.blockCache != null, cacheId, old(CachedTable()).Keys, file, codec, readOptions, handleValue);
        && block == FetchedView(f, old(CachedTable()), codec)
        && file.readCount == old(file.readCount) + (if ReadsFile(f) then 1 else 0)
        && (owned.Some? <==> f.ReadOwned?)
      ensures s == block.status
      ensures var j := SeekIndex(block.entries, options.comparator, k);
        saver.calls == old(saver.calls) + (if j < |block.entries| then [block.entries[j]] else [])
      ensures owned.Some? ==> fresh(owned.value) && !owned.value.live
      ensures var f := FetchBlock(options.blockCache != null, cacheId, old(CachedTable()).Keys, file, codec, readOptions, handleValue);
        options.blockCache != null ==>
        && options.blockCache.lastId == old(options.blockCache.lastId)
        && CacheAfterFetch(old(options.blockCache.table), options.blockCache.table, f, codec)
        && (f.ReadCached? ==> fresh(options.blockCache.table[f.key].block))
    {
      ghost var f := FetchBlock(options.blockCache != null, cacheId, CachedTable().Keys, file, codec, readOptions, handleValue);
      ghost var before := CachedTable();
      var blockIter := BlockReader(readOptions, handleValue);
      ghost var during := CachedTable();
      block := blockIter.view;
      owned := if blockIter.cleanup.OwnedBlock? then Some(blockIter.cleanup.block) else None;
      s := ScanBlock(blockIter, k, saver, options.blockCache);
      if options.blockCache != null {
        HandleGivenBack(before, during, options.blockCache.table, f, codec);
      }
    }

    /**
     * The index cursor's part of InternalGet: a cursor over the index block, seeked to k, yields
     * the value of the entry it lands on (None when it is not Valid) and its status, and is
     * deleted. It carries no cleanup, so deleting it before the data block is searched rather
     * than after changes nothing.
     */
    method IndexSeek(k: Bytes) returns (landed: Option<Bytes>, indexStatus: Status)
      ensures var entries := indexBlock.view.entries;
        var i := SeekIndex(entries, options.comparator, k);
        landed == (if i < |entries| then Some(entries[i].value) else None)
      ensures indexStatus == indexBlock.view.status
    {
      var iiter := new Cursor(indexBlock.view, options.comparator);
      iiter.Seek(k);
      landed := if iiter.Valid() then Some(iiter.Value()) else None;
      indexStatus := iiter.view.status;
      iiter.Discard(null);
    }

    /**
     * InternalGet: a point lookup for k. The saver is called at most once, with the entry Get
     * delivers; the status is Get's; the block cursor (if any) and the index cursor are both
     * deleted, so every cache handle taken is given back and an owned block is freed.
     */
    method InternalGet(readOptions: ReadOptions, k: Bytes, saver: Saver)
      returns (s: Status, ghost block: BlockView, ghost owned: Option<Block>)
      requires Valid() && CacheBlocksLive()
      modifies CacheSet(options.blockCache), file`readCount, saver`calls
      ensures Valid() && CacheBlocksLive()
      ensures var r := Get(indexBlock.view, options.comparator, filter, codec, k, block);
        && s == r.status
        && saver.calls == old(saver.calls) + (if r.saved.Some? then [r.saved.value] else [])
        && (r.fetchedFrom.None? ==> file.readCount == old(file.readCount) && owned.None?)
        && (r.fetchedFrom.Some? ==>
              var f := FetchBlock(options.blockCache != null, cacheId, old(CachedTable()).Keys, file, codec, readOptions, r.fetchedFrom.value);
              && block == FetchedView(f, old(CachedTable()), codec)
              && file.readCount == old(file.readCount) + (if ReadsFile(f) then 1 else 0)
              && (owned.Some? <==> f.ReadOwned?))
      ensures owned.Some? ==> fresh(owned.value) && !owned.value.live
      ensures options.blockCache != null ==> options.blockCache.lastId == old(options.blockCache.lastId)
      ensures var r := Get(indexBlock.view, options.comparator, filter, codec, k, block);
        options.blockCache != null ==>
        if r.fetchedFrom.None? then
          options.blockCache.table == old(options.blockCache.table)
        else
          var f := FetchBlock(true, cacheId, old(options.blockCache.table).Keys, file, codec, readOptions, r.fetchedFrom.value);
          && CacheAfterFetch(old(options.blockCache.table), options.blockCache.table, f, codec)
          && (f.ReadCached? ==> fresh(options.blockCache.table[f.key].block))
    {
      var landed, indexStatus := IndexSeek(k);
      s := OK;
      block := View([], OK);
      owned := None;
      if landed.Some? {
        var handle := codec.decodeHandle(landed.value);
        if filter.Some? && handle.Success? && !filter.value.KeyMayMatch(handle.value.offset, k) {
          // the filter rules the data block out: nothing is fetched and the saver is not called
        } else {
          s, block, owned := SearchBlock(readOptions, landed.value, k, saver);
        }
      }
      if s.OK? {
        s := indexStatus;
      }
    }

    /** The offset an index entry's handle points to, or the metaindex offset when it does not decode. */
    function EntryOffset(e: Entry): u64
    {
      match codec.decodeHandle(e.value)
      case Success(handle) => handle.offset
      case Failure(_) => metaindexHandle.offset
    }

    /**
     * ApproximateOffsetOf: the offset of the data block the index lands on for key; the
     * metaindex block's offset when key is past the last index entry or the landed handle does
     * not decode. It never fails.
     */
    function ApproximateOffsetOf(key: Bytes): (r: u64)
      ensures (forall i :: 0 <= i < |indexBlock.view.entries| ==> options.comparator(indexBlock.view.entries[i].key, key))
                ==> r == metaindexHandle.offset
      ensures r == metaindexHandle.offset
           || exists i :: 0 <= i < |indexBlock.view.entries| && !options.comparator(indexBlock.view.entries[i].key, key)
                          && codec.decodeHandle(indexBlock.view.entries[i].value).Success?
                          && codec.decodeHandle(indexBlock.view.entries[i].value).value.offset == r
      ensures forall i :: 0 <= i < |indexBlock.view.entries| && !options.comparator(indexBlock.view.entries[i].key, key)
                          && (forall j :: 0 <= j < i ==> options.comparator(indexBlock.view.entries[j].key, key))
                          ==> r == EntryOffset(indexBlock.view.entries[i])
    {
      var entries := indexBlock.view.entries;
      var i := SeekIndex(entries, options.comparator, key);
      SeekIndexLands(entries, options.comparator, key);
      if i < |entries| then
        match codec.decodeHandle(entries[i].value)
        case Success(handle) => handle.offset
        case Failure(_) => metaindexHandle.offset  // a corrupt index entry
      else
        metaindexHandle.offset  // past the last key: the metaindex block is near the end of the file
    }

    /**
     * The index entries point to blocks in file order, all before the metaindex block
     * (entries whose handle does not decode count as the metaindex offset).
     */
    ghost predicate IndexOffsetsOrdered()
    {
      var entries := indexBlock.view.entries;
      && (forall i, j :: 0 <= i < j < |entries| ==> EntryOffset(entries[i]) <= EntryOffset(entries[j]))
      && (forall i :: 0 <= i < |entries| ==> EntryOffset(entries[i]) <= metaindexHandle.offset)
    }

    /** A key at or before the first index key gets the first block's offset, the smallest of all. */
    lemma ApproximateOffsetOfFirstKey(key: Bytes)
      requires IndexOffsetsOrdered()
      requires |indexBlock.view.entries| > 0 && !options.comparator(indexBlock.view.entries[0].key, key)
      ensures ApproximateOffsetOf(key) == EntryOffset(indexBlock.view.entries[0])
      ensures forall i :: 0 <= i < |indexBlock.view.entries| ==> ApproximateOffsetOf(key) <= EntryOffset(indexBlock.view.entries[i])
    {
    }

    /** Under a strict total order and an index in file order, the estimate grows with the key. */
    lemma ApproximateOffsetOfMonotone(k1: Bytes, k2: Bytes)
      requires StrictTotalOrder(options.comparator) && IndexOffsetsOrdered()
      requires !options.comparator(k2, k1)
      ensures ApproximateOffsetOf(k1) <= ApproximateOffsetOf(k2)
    {
      var entries := indexBlock.view.entries;
      SeekIndexMonotone(entries, options.comparator, k1, k2);
      var i1, i2 := SeekIndex(entries, options.comparator, k1), SeekIndex(entries, options.comparator, k2);
      if i1 < |entries| {
        assert ApproximateOffsetOf(k1) == EntryOffset(entries[i1]);
      }
      if i2 < |entries| {
        assert ApproximateOffsetOf(k2) == EntryOffset(entries[i2]);
      }
    }
  }
}

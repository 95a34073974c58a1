/**
 * The decisions of the table reader (table/table.cc) as functions of their inputs: what Open
 * loads or which status it fails with, whether a filter gets attached, how a block fetch obtains
 * its block and who owns it, and what a point lookup delivers and returns.
 * The Table class in TableReader performs these steps on its state and is proved against them.
 */
module TableRules {
  import opened Coding
  import opened Statuses
  import opened Format
  import opened Blocks
  import opened BlockCache

  /**
   * A filter policy: its name, and the answer of a filter block built by it for the data block
   * at a given offset. FilterBlockReader's bit-array algorithm is not part of this model.
   */
  datatype FilterPolicy = FilterPolicy(name: Bytes, blockMayMatch: (Bytes, u64, Bytes) -> bool)

  /** FilterBlockReader: a policy bound to the filter block's bytes. */
  datatype FilterReader = FilterReader(policy: FilterPolicy, data: Bytes)
  {
    /** KeyMayMatch(block_offset, key): false means the key is definitely not in that data block. */
    predicate KeyMayMatch(blockOffset: u64, key: Bytes)
    {
      policy.blockMayMatch(data, blockOffset, key)
    }
  }

  /** The Options fields the reader consults. */
  datatype Options = Options(
    comparator: (Bytes, Bytes) -> bool,
    filterPolicy: Option<FilterPolicy>,
    blockCache: Cache?,
    paranoidChecks: bool)

  // ---------------------------------------------------------------------------------------
  // Open

  /** What Open has loaded once the footer and the index block are read. */
  datatype Opened = Opened(footer: Footer, index: BlockView)

  /**
   * The fallible part of Open: check the size, read and decode the footer, read the index block
   * (verifying checksums under paranoid_checks). The first step that fails decides the status.
   */
  function OpenBootstrap(paranoidChecks: bool, file: File, codec: Codec, size: u64): (r: Result<Opened>)
    ensures size < kFooterEncodedLength ==> r.Failure? && r.error.Corruption?
    ensures r.Success? ==> size >= kFooterEncodedLength
  {
    if size < kFooterEncodedLength then
      Failure(Corruption("file is too short to be an sstable"))
    else
      match file.read(size - kFooterEncodedLength, kFooterEncodedLength)
      case Failure(e) => Failure(e)
      case Success(footerInput) =>
        match codec.decodeFooter(footerInput)
        case Failure(e) => Failure(e)
        case Success(footer) =>
          match file.blockAt(InternalReadOptions(paranoidChecks), footer.indexHandle)
          case Failure(e) => Failure(e)
          case Success(contents) => Success(Opened(footer, codec.parseBlock(contents.data)))
  }

  /**
   * An opened table's footer is the decoded trailer of the file and its index is the parsed
   * index block the footer points to.
   */
  lemma OpenLoads(paranoidChecks: bool, file: File, codec: Codec, size: u64)
    requires OpenBootstrap(paranoidChecks, file, codec, size).Success?
    ensures var r := OpenBootstrap(paranoidChecks, file, codec, size).value;
      && file.read(size - kFooterEncodedLength, kFooterEncodedLength).Success?
      && codec.decodeFooter(file.read(size - kFooterEncodedLength, kFooterEncodedLength).value) == Success(r.footer)
      && file.blockAt(InternalReadOptions(paranoidChecks), r.footer.indexHandle).Success?
      && r.index == codec.parseBlock(file.blockAt(InternalReadOptions(paranoidChecks), r.footer.indexHandle).value.data)
  {
  }

  /**
   * Open fails exactly when the file is shorter than a footer, or the footer read, the footer
   * decode or the index-block read fails; it then reports that step's own status.
   */
  lemma OpenFailsIff(paranoidChecks: bool, file: File, codec: Codec, size: u64)
    ensures var r := OpenBootstrap(paranoidChecks, file, codec, size);
      r.Failure? <==>
        || size < kFooterEncodedLength
        || file.read(size - kFooterEncodedLength, kFooterEncodedLength).Failure?
        || codec.decodeFooter(file.read(size - kFooterEncodedLength, kFooterEncodedLength).value).Failure?
        || file.blockAt(InternalReadOptions(paranoidChecks),
                        codec.decodeFooter(file.read(size - kFooterEncodedLength, kFooterEncodedLength).value).value.indexHandle).Failure?
    ensures size >= kFooterEncodedLength ==>
      var r := OpenBootstrap(paranoidChecks, file, codec, size);
      var trailer := file.read(size - kFooterEncodedLength, kFooterEncodedLength);
      && (trailer.Failure? ==> r == Failure(trailer.error))
      && (trailer.Success? && codec.decodeFooter(trailer.value).Failure? ==>
            r == Failure(codec.decodeFooter(trailer.value).error))
      && (trailer.Success? && codec.decodeFooter(trailer.value).Success? ==>
            var index := file.blockAt(InternalReadOptions(paranoidChecks), codec.decodeFooter(trailer.value).value.indexHandle);
            index.Failure? ==> r == Failure(index.error))
  {
  }

  // ---------------------------------------------------------------------------------------
  // ReadMeta / ReadFilter

  /** A filter block that was found and read: its reader, its bytes, and whether the table owns them. */
  datatype FilterLoad = FilterLoad(reader: FilterReader, data: Bytes, heapAllocated: bool)

  /** "filter." */
  const kFilterPrefix: Bytes := [0x66, 0x69, 0x6c, 0x74, 0x65, 0x72, 0x2e]

  /** The metaindex key under which a policy's filter block is stored. */
  function FilterKey(policy: FilterPolicy): (key: Bytes)
    ensures |key| == |kFilterPrefix| + |policy.name|
    ensures key[..|kFilterPrefix|] == kFilterPrefix && key[|kFilterPrefix|..] == policy.name
  {
    kFilterPrefix + policy.name
  }

  /**
   * ReadFilter: decode the filter block's handle and read the block; any failure leaves the
   * table without a filter.
   */
  function LoadFilter(paranoidChecks: bool, file: File, codec: Codec, policy: FilterPolicy, handleValue: Bytes): (r: Option<FilterLoad>)
    ensures r.Some? ==> r.value.reader.policy == policy && r.value.reader.data == r.value.data
  {
    match codec.decodeHandle(handleValue)
    case Failure(_) => None
    case Success(handle) =>
      match file.blockAt(InternalReadOptions(paranoidChecks), handle)
      case Failure(_) => None
      case Success(block) => Some(FilterLoad(FilterReader(policy, block.data), block.data, block.heapAllocated))
  }

  /**
   * A filter loads exactly when its handle decodes and its block reads OK; the reader then works
   * over the block's bytes, which the table owns exactly when they are heap-allocated.
   */
  lemma LoadFilterIff(paranoidChecks: bool, file: File, codec: Codec, policy: FilterPolicy, handleValue: Bytes)
    ensures var r := LoadFilter(paranoidChecks, file, codec, policy, handleValue);
      && (r.Some? <==>
           && codec.decodeHandle(handleValue).Success?
           && file.blockAt(InternalReadOptions(paranoidChecks), codec.decodeHandle(handleValue).value).Success?)
      && (r.Some? ==>
           var contents := file.blockAt(InternalReadOptions(paranoidChecks), codec.decodeHandle(handleValue).value).value;
           && r.value.reader == FilterReader(policy, contents.data)
           && r.value.data == contents.data
           && r.value.heapAllocated == contents.heapAllocated)
  {
  }

  /**
   * ReadMeta: with a filter policy configured, read the metaindex block, seek it (bytewise) to
   * "filter." + the policy's name and, on an exact match, load the filter it points to.
   * Every failure yields no filter.
   */
  function MetaFilter(options: Options, file: File, codec: Codec, metaindexHandle: BlockHandle): (r: Option<FilterLoad>)
    ensures options.filterPolicy.None? ==> r.None?
    ensures r.Some? ==>
      && options.filterPolicy.Some?
      && r.value.reader.policy == options.filterPolicy.value
  {
    match options.filterPolicy
    case None => None
    case Some(policy) =>
      match file.blockAt(InternalReadOptions(options.paranoidChecks), metaindexHandle)
      case Failure(_) => None
      case Success(contents) =>
        var meta := codec.parseBlock(contents.data);
        var key := FilterKey(policy);
        var i := SeekIndex(meta.entries, BytewiseLess, key);
        if i < |meta.entries| && meta.entries[i].key == key then
          LoadFilter(options.paranoidChecks, file, codec, policy, meta.entries[i].value)
        else
          None
  }

  /**
   * For a metaindex block whose keys are in bytewise order (as the table builder writes them),
   * a filter is attached exactly when a policy is configured, the metaindex block reads OK, it
   * holds an entry whose key is exactly "filter." + the policy's name, and that entry's handle
   * decodes and its block reads OK.
   */
  lemma FilterAttachedIff(options: Options, file: File, codec: Codec, metaindexHandle: BlockHandle)
    requires var meta := file.blockAt(InternalReadOptions(options.paranoidChecks), metaindexHandle);
      meta.Success? ==> Sorted(codec.parseBlock(meta.value.data).entries, BytewiseLess)
    ensures MetaFilter(options, file, codec, metaindexHandle).Some? <==>
      && options.filterPolicy.Some?
      && file.blockAt(InternalReadOptions(options.paranoidChecks), metaindexHandle).Success?
      && var entries := codec.parseBlock(file.blockAt(InternalReadOptions(options.paranoidChecks), metaindexHandle).value.data).entries;
         exists p :: 0 <= p < |entries| && entries[p].key == FilterKey(options.filterPolicy.value)
           && LoadFilter(options.paranoidChecks, file, codec, options.filterPolicy.value, entries[p].value).Some?
  {
    var opt := InternalReadOptions(options.paranoidChecks);
    if options.filterPolicy.Some? && file.blockAt(opt, metaindexHandle).Success? {
      var policy := options.filterPolicy.value;
      var entries := codec.parseBlock(file.blockAt(opt, metaindexHandle).value.data).entries;
      var key := FilterKey(policy);
      BytewiseIsStrictTotalOrder();
      var i := SeekIndex(entries, BytewiseLess, key);
      if p :| 0 <= p < |entries| && entries[p].key == key
             && LoadFilter(options.paranoidChecks, file, codec, policy, entries[p].value).Some? {
        SeekFindsPresentKey(entries, BytewiseLess, p);
      }
    }
  }

  // ---------------------------------------------------------------------------------------
  // BlockReader

  /** How BlockReader obtained (or failed to obtain) the block for an index value. */
  datatype Fetch =
    | DecodeFailed(error: ErrorStatus)                 // the handle did not decode
    | ReadFailed(error: ErrorStatus)                   // the block read failed
    | Hit(key: Bytes)                                  // found in the cache
    | ReadCached(key: Bytes, contents: BlockContents)  // read, then inserted into the cache
    | ReadOwned(contents: BlockContents)               // read, kept by the cursor alone

  /** Whether the fetch read the file. */
  predicate ReadsFile(f: Fetch)
  {
    f.ReadFailed? || f.ReadCached? || f.ReadOwned?
  }

  /** Whether the fetch produced a block (rather than an error cursor). */
  predicate HasBlock(f: Fetch)
  {
    f.Hit? || f.ReadCached? || f.ReadOwned?
  }

  /** Whether the cursor's block is held through a cache handle. */
  predicate HoldsCacheHandle(f: Fetch)
  {
    f.Hit? || f.ReadCached?
  }

  /**
   * BlockReader's decision for `indexValue`, given whether a cache is configured, the table's
   * cache id and the keys the cache holds at the time of the call.
   */
  function FetchBlock(hasCache: bool, cacheId: u64, cachedKeys: set<Bytes>, file: File, codec: Codec,
                      options: ReadOptions, indexValue: Bytes): (r: Fetch)
    ensures HoldsCacheHandle(r) ==> hasCache
    ensures r.Hit? ==> r.key in cachedKeys
    ensures r.ReadCached? ==> r.key !in cachedKeys
  {
    match codec.decodeHandle(indexValue)
    case Failure(e) => DecodeFailed(e)
    case Success(handle) =>
      var key := CacheKey(cacheId, handle.offset);
      if hasCache && key in cachedKeys then Hit(key)
      else
        match file.blockAt(options, handle)
        case Failure(e) => ReadFailed(e)
        case Success(contents) =>
          if hasCache && contents.cachable && options.fillCache then ReadCached(key, contents)
          else ReadOwned(contents)
  }

  /**
   * BlockReader's decision, case by case: a handle that does not decode yields its error; a
   * cached key is a hit and reads nothing; otherwise the block is read, and a block read OK is
   * inserted into the cache exactly when a cache is configured, the block is cachable and the
   * caller asked to fill the cache.
   */
  lemma FetchBlockDecides(hasCache: bool, cacheId: u64, cachedKeys: set<Bytes>, file: File, codec: Codec,
                          options: ReadOptions, indexValue: Bytes)
    ensures var r := FetchBlock(hasCache, cacheId, cachedKeys, file, codec, options, indexValue);
      var handle := codec.decodeHandle(indexValue);
      && (r.DecodeFailed? <==> handle.Failure?)
      && (r.DecodeFailed? ==> r.error == handle.error)
      && (handle.Success? ==>
           var key := CacheKey(cacheId, handle.value.offset);
           && (HoldsCacheHandle(r) ==> hasCache && r.key == key)
           && (r.Hit? <==> hasCache && key in cachedKeys)
           && (ReadsFile(r) <==> !(hasCache && key in cachedKeys))
           && (ReadsFile(r) ==>
                var read := file.blockAt(options, handle.value);
                && (r.ReadFailed? <==> read.Failure?)
                && (r.ReadCached? <==> read.Success? && hasCache && read.value.cachable && options.fillCache)
                && (r.ReadFailed? ==> r.error == read.error)
                && (r.ReadCached? || r.ReadOwned? ==> r.contents == read.value)))
  {
  }

  /** What the cursor BlockReader returns sees: the cached block, the block just read, or the error. */
  function FetchedView(f: Fetch, cached: map<Bytes, CacheEntry>, codec: Codec): (v: BlockView)
    requires f.Hit? ==> f.key in cached
    ensures !HasBlock(f) ==> v.entries == [] && v.status == f.error
  {
    match f
    case DecodeFailed(e) => View([], e)
    case ReadFailed(e) => View([], e)
    case Hit(key) => cached[key].block.view
    case ReadCached(_, contents) => codec.parseBlock(contents.data)
    case ReadOwned(contents) => codec.parseBlock(contents.data)
  }

  /**
   * Two tables with distinct cache ids never hit each other's blocks: a block one table inserts
   * is under a key the other table's fetches never look up.
   */
  lemma FetchIsolated(cacheId1: u64, cacheId2: u64, cachedKeys: set<Bytes>, file: File, codec: Codec,
                      options: ReadOptions, indexValue1: Bytes, indexValue2: Bytes)
    requires cacheId1 != cacheId2
    ensures var f1 := FetchBlock(true, cacheId1, cachedKeys, file, codec, options, indexValue1);
      var f2 := FetchBlock(true, cacheId2, cachedKeys, file, codec, options, indexValue2);
      HoldsCacheHandle(f1) && HoldsCacheHandle(f2) ==> f1.key != f2.key
  {
    var f1 := FetchBlock(true, cacheId1, cachedKeys, file, codec, options, indexValue1);
    var f2 := FetchBlock(true, cacheId2, cachedKeys, file, codec, options, indexValue2);
    if HoldsCacheHandle(f1) && HoldsCacheHandle(f2) {
      var h1, h2 := codec.decodeHandle(indexValue1).value, codec.decodeHandle(indexValue2).value;
      CacheKeyInjective(cacheId1, h1.offset, cacheId2, h2.offset);
    }
  }

  /**
   * A block read and inserted under its key is found by the next fetch of any index value that
   * decodes to the same offset: that fetch is a hit and reads nothing.
   */
  lemma RefetchHits(cacheId: u64, cachedKeys: set<Bytes>, file: File, codec: Codec, options: ReadOptions,
                    indexValue: Bytes, options2: ReadOptions, indexValue2: Bytes)
    requires FetchBlock(true, cacheId, cachedKeys, file, codec, options, indexValue).ReadCached?
    requires codec.decodeHandle(indexValue2).Success?
    requires codec.decodeHandle(indexValue2).value.offset == codec.decodeHandle(indexValue).value.offset
    ensures var f := FetchBlock(true, cacheId, cachedKeys, file, codec, options, indexValue);
      var g := FetchBlock(true, cacheId, cachedKeys + {f.key}, file, codec, options2, indexValue2);
      g == Hit(f.key) && !ReadsFile(g)
  {
  }

  // ---------------------------------------------------------------------------------------
  // InternalGet

  /**
   * The outcome of a point lookup: the index value BlockReader was called with (None when no
   * block was fetched), the entry handed to the saver (None when it was not called), and the
   * returned status.
   */
  datatype GetResult = GetResult(fetchedFrom: Option<Bytes>, saved: Option<Entry>, status: Status)

  /** The filter rules the data block out: it is attached, the handle decodes, and it answers no. */
  predicate FilterRulesOut(filter: Option<FilterReader>, codec: Codec, handleValue: Bytes, k: Bytes): (b: bool)
    ensures b ==> filter.Some? && codec.decodeHandle(handleValue).Success?
  {
    && filter.Some?
    && codec.decodeHandle(handleValue).Success?
    && !filter.value.KeyMayMatch(codec.decodeHandle(handleValue).value.offset, k)
  }

  /**
   * InternalGet over the index block `index`, the attached filter, and `block`, the view of the
   * cursor BlockReader returns for the landed index value (consulted only when it is called).
   */
  function Get(index: BlockView, less: (Bytes, Bytes) -> bool, filter: Option<FilterReader>, codec: Codec,
               k: Bytes, block: BlockView): (r: GetResult)
    ensures r.fetchedFrom.None? ==> r.saved.None? && r.status == index.status
    ensures r.saved.Some? ==> r.fetchedFrom.Some? && r.saved.value in block.entries
    ensures !r.status.OK? ==> r.status == index.status || r.status == block.status
  {
    var i := SeekIndex(index.entries, less, k);
    if i == |index.entries| then
      GetResult(None, None, index.status)
    else if FilterRulesOut(filter, codec, index.entries[i].value, k) then
      GetResult(None, None, index.status)
    else
      var j := SeekIndex(block.entries, less, k);
      var saved := if j < |block.entries| then Some(block.entries[j]) else None;
      GetResult(Some(index.entries[i].value), saved, if block.status.OK? then index.status else block.status)
  }

  /**
   * What a lookup does: no index entry at or past k, or a filter that rules the landed block
   * out, fetches nothing and returns the index cursor's status; otherwise the saver gets the
   * block's first entry not less than k, if any, and a block error wins over the index status.
   */
  lemma GetDecides(index: BlockView, less: (Bytes, Bytes) -> bool, filter: Option<FilterReader>, codec: Codec,
                   k: Bytes, block: BlockView)
    ensures var r := Get(index, less, filter, codec, k, block);
      var i := SeekIndex(index.entries, less, k);
      && (i == |index.entries| ==> r.fetchedFrom.None?)
      && (i < |index.entries| ==>
           && (r.fetchedFrom.None? <==> FilterRulesOut(filter, codec, index.entries[i].value, k))
           && (r.fetchedFrom.Some? ==> r.fetchedFrom.value == index.entries[i].value))
      && (r.fetchedFrom.None? ==> r.saved.None? && r.status == index.status)
      && (r.saved.Some? ==>
           var j := SeekIndex(block.entries, less, k);
           && j < |block.entries| && r.saved.value == block.entries[j]
           && !less(r.saved.value.key, k)
           && (forall i :: 0 <= i < j ==> less(block.entries[i].key, k)))
      && (r.fetchedFrom.Some? ==> (r.saved.Some? <==> SeekIndex(block.entries, less, k) < |block.entries|))
      && (r.status.OK? <==> index.status.OK? && (r.fetchedFrom.None? || block.status.OK?))
      && (r.fetchedFrom.Some? && !block.status.OK? ==> r.status == block.status)
      && (!r.status.OK? ==> r.status == block.status || r.status == index.status)
  {
    SeekIndexLands(block.entries, less, k);
  }

  /**
   * A lookup that reaches a sorted, well-formed data block holding k hands the saver exactly
   * k's entry, and returns the index cursor's status.
   */
  lemma GetFindsStoredKey(index: BlockView, less: (Bytes, Bytes) -> bool, filter: Option<FilterReader>,
                          codec: Codec, block: BlockView, p: nat)
    requires StrictTotalOrder(less) && Sorted(block.entries, less)
    requires p < |block.entries|
    requires Get(index, less, filter, codec, block.entries[p].key, block).fetchedFrom.Some?
    ensures var r := Get(index, less, filter, codec, block.entries[p].key, block);
      r.saved == Some(block.entries[p]) && r.status == index.status
  {
    SeekFindsPresentKey(block.entries, less, p);
  }

  /**
   * The round trip of a lookup over a well-laid-out table: looking up any key stored in data
   * block p lands the index on entry p, fetches through that entry's value and, when `block` is
   * what that fetch shows (data block p, read OK) and the filter does not rule it out, hands the
   * saver exactly the stored entry and returns OK.
   */
  lemma GetRoundTrip(index: BlockView, blocks: seq<seq<Entry>>, less: (Bytes, Bytes) -> bool,
                     filter: Option<FilterReader>, codec: Codec, block: BlockView, p: nat, q: nat)
    requires StrictTotalOrder(less) && IndexCovers(index.entries, blocks, less)
    requires p < |blocks| && q < |blocks[p]|
    requires block.status.OK? && block.entries == blocks[p]
    requires !FilterRulesOut(filter, codec, index.entries[p].value, blocks[p][q].key)
    ensures var r := Get(index, less, filter, codec, blocks[p][q].key, block);
      && r.fetchedFrom == Some(index.entries[p].value)
      && r.saved == Some(blocks[p][q])
      && r.status == OK
  {
    SeekIndexFindsBlock(index.entries, blocks, less, p, q);
    SeekFindsPresentKey(blocks[p], less, q);
  }

  /**
   * A filter without false negatives never hides a stored key: when the filter admits every key
   * of the data block the landed index value points to, a lookup of one of those keys behaves
   * exactly as it would with no filter attached.
   */
  lemma GetFilterNeverHidesStoredKey(index: BlockView, less: (Bytes, Bytes) -> bool, filter: Option<FilterReader>,
                                     codec: Codec, block: BlockView, p: nat)
    requires p < |block.entries|
    requires var i := SeekIndex(index.entries, less, block.entries[p].key);
      i < |index.entries| && filter.Some? && codec.decodeHandle(index.entries[i].value).Success? ==>
        forall e :: e in block.entries ==>
          filter.value.KeyMayMatch(codec.decodeHandle(index.entries[i].value).value.offset, e.key)
    ensures Get(index, less, filter, codec, block.entries[p].key, block)
         == Get(index, less, None, codec, block.entries[p].key, block)
  {
    assert block.entries[p] in block.entries;
  }
}

/**
 * Block cursors (Iterator over a Block) and the cleanup a cursor runs when it is deleted.
 * Block::Iter's binary search is not part of this model; a cursor sees its block's BlockView.
 */
module Cursors {
  import opened Coding
  import opened Statuses
  import opened Format
  import opened Blocks
  import opened BlockCache

  /**
   * The cleanup registered on a cursor: nothing, delete a block the cursor owns (DeleteBlock),
   * or give back a handle on a cached block (ReleaseBlock).
   */
  datatype Cleanup =
    | NoCleanup
    | OwnedBlock(block: Block)
    | CacheHandle(cache: Cache, key: Bytes)

  /** DeleteBlock: frees a block nobody else holds. */
  method DeleteBlock(block: Block)
    requires block.live
    modifies block
    ensures !block.live
  {
    block.live := false;
  }

  /** ReleaseBlock: gives a handle back to the cache, which keeps the block. */
  method ReleaseBlock(cache: Cache, key: Bytes)
    requires key in cache.table && cache.table[key].refs > 0
    modifies cache`table
    ensures cache.table == Unpin(old(cache.table), key)
  {
    cache.Release(key);
  }

  /** Iterator over one block's entries. */
  class Cursor {
    const view: BlockView
    const less: (Bytes, Bytes) -> bool
    var pos: nat
    var cleanup: Cleanup
    var discarded: bool

    /** Block::NewIterator (or NewErrorIterator when the view carries an error): not yet positioned. */
    constructor (view: BlockView, less: (Bytes, Bytes) -> bool)
      ensures this.view == view && this.less == less
      ensures !Valid() && cleanup == NoCleanup && !discarded
    {
      this.view := view;
      this.less := less;
      pos := |view.entries|;
      cleanup := NoCleanup;
      discarded := false;
    }

    /** Valid: the cursor is positioned at an entry. */
    predicate Valid()
      reads this
    {
      pos < |view.entries|
    }

    function Key(): Bytes
      reads this
      requires Valid()
    {
      view.entries[pos].key
    }

    function Value(): Bytes
      reads this
      requires Valid()
    {
      view.entries[pos].value
    }

    /** Seek: positions the cursor at the first entry whose key is not less than target. */
    method Seek(target: Bytes)
      modifies this`pos
      ensures pos == SeekIndex(view.entries, less, target)
      ensures Valid() ==> !less(Key(), target)
    {
      pos := SeekIndex(view.entries, less, target);
      SeekIndexLands(view.entries, less, target);
    }

    /** RegisterCleanup: the one cleanup this cursor runs when deleted. */
    method RegisterCleanup(c: Cleanup)
      requires cleanup.NoCleanup?
      modifies this`cleanup
      ensures cleanup == c
    {
      cleanup := c;
    }

    /** The objects the registered cleanup changes. */
    function CleanupFrame(): set<object>
      reads this`cleanup
    {
      match cleanup
      case NoCleanup => {}
      case OwnedBlock(b) => {b}
      case CacheHandle(c, _) => {c}
    }

    /** The registered cleanup can still run: an owned block is live, a cache handle is still held. */
    ghost predicate CleanupPending()
      reads this`cleanup, CleanupFrame()
    {
      match cleanup
      case NoCleanup => true
      case OwnedBlock(b) => b.live
      case CacheHandle(c, key) => key in c.table && c.table[key].refs > 0
    }

    /**
     * delete iter: runs the registered cleanup once; afterwards an owned block is freed or the
     * cache handle given back. A cache that holds only live blocks, none of them this cursor's
     * own, still does afterwards.
     */
    method Discard(ghost cache: Cache?)
      requires !discarded && CleanupPending()
      requires cache != null ==> cache.BlocksLive()
      requires cache != null && cleanup.OwnedBlock? ==> forall key :: key in cache.table ==> cache.table[key].block != cleanup.block
      modifies this`discarded, CleanupFrame()
      ensures discarded
      ensures cleanup.OwnedBlock? ==> !cleanup.block.live
      ensures cleanup.CacheHandle? ==> cleanup.cache.table == Unpin(old(cleanup.cache.table), cleanup.key)
      ensures cleanup.CacheHandle? ==> cleanup.cache.lastId == old(cleanup.cache.lastId)
      ensures cache != null ==> cache.BlocksLive()
    {
      discarded := true;
      match cleanup
      case NoCleanup =>
      case OwnedBlock(b) => DeleteBlock(b);
      case CacheHandle(c, key) => ReleaseBlock(c, key);
    }
  }

  /** NewErrorIterator: a cursor that is never Valid and reports `s`. */
  method NewErrorIterator(s: ErrorStatus, less: (Bytes, Bytes) -> bool) returns (iter: Cursor)
    ensures fresh(iter) && iter.view == View([], s) && iter.less == less
    ensures iter.cleanup == NoCleanup && !iter.discarded
  {
    iter := new Cursor(View([], s), less);
  }
}

/**
 * The shared block cache as the table reader uses it: NewId, Lookup, Value, Insert and Release.
 * Eviction, charges, capacity and locking are not part of this model; an entry is identified by
 * its key and carries the number of handles clients hold on it.
 */
module BlockCache {
  import opened Coding
  import opened Blocks

  /** A cached block and the number of outstanding client handles on it. */
  datatype CacheEntry = CacheEntry(block: Block, refs: nat)

  /**
   * The cache key of the block at `offset` of the table whose namespace id is `cacheId`:
   * Fixed64(cacheId) followed by Fixed64(offset).
   */
  function CacheKey(cacheId: u64, offset: u64): (key: Bytes)
    ensures |key| == 16
  {
    EncodeFixed64(cacheId) + EncodeFixed64(offset)
  }

  /**
   * Two cache keys coincide exactly when both the namespace id and the offset do: tables with
   * distinct ids never share a key, and one table's blocks at distinct offsets never collide.
   */
  lemma CacheKeyInjective(id1: u64, offset1: u64, id2: u64, offset2: u64)
    ensures CacheKey(id1, offset1) == CacheKey(id2, offset2) <==> id1 == id2 && offset1 == offset2
  {
    var k1, k2 := CacheKey(id1, offset1), CacheKey(id2, offset2);
    if k1 == k2 {
      assert k1[..8] == EncodeFixed64(id1) && k2[..8] == EncodeFixed64(id2);
      assert k1[8..] == EncodeFixed64(offset1) && k2[8..] == EncodeFixed64(offset2);
      EncodeFixed64Injective(id1, id2);
      EncodeFixed64Injective(offset1, offset2);
    }
  }

  /** `++last_id_` on a uint64_t: the next namespace id, wrapping to 0 after the largest. */
  function NextId(id: u64): (r: u64)
    ensures r == (id + 1) % TWO_64
  {
    if id == TWO_64 - 1 then 0 else id + 1
  }

  /** The table after one more handle on `key` is handed out. */
  function Pin(table: map<Bytes, CacheEntry>, key: Bytes): (r: map<Bytes, CacheEntry>)
    requires key in table
    ensures r.Keys == table.Keys
    ensures r[key].block == table[key].block && r[key].refs == table[key].refs + 1
    ensures forall k :: k in table && k != key ==> r[k] == table[k]
  {
    table[key := table[key].(refs := table[key].refs + 1)]
  }

  /** The table after one handle on `key` is given back. */
  function Unpin(table: map<Bytes, CacheEntry>, key: Bytes): (r: map<Bytes, CacheEntry>)
    requires key in table && table[key].refs > 0
    ensures r.Keys == table.Keys
    ensures r[key].block == table[key].block && r[key].refs + 1 == table[key].refs
    ensures forall k :: k in table && k != key ==> r[k] == table[k]
  {
    table[key := table[key].(refs := table[key].refs - 1)]
  }

  /** Giving back a handle just taken leaves the table as it was. */
  lemma UnpinPin(table: map<Bytes, CacheEntry>, key: Bytes)
    requires key in table
    ensures Unpin(Pin(table, key), key) == table
  {
    assert Unpin(Pin(table, key), key) == table[key := table[key]];
  }

  /**
   * `after` holds every entry of `before` unchanged, blocks and handle counts alike, and any
   * entry it adds has no outstanding handle: every handle taken in between was given back.
   */
  ghost predicate Restored(before: map<Bytes, CacheEntry>, after: map<Bytes, CacheEntry>)
  {
    && before.Keys <= after.Keys
    && (forall k :: k in before ==> after[k] == before[k])
    && (forall k :: k in after && k !in before ==> after[k].refs == 0)
  }

  /** Cache (util/cache.cc is not part of this model). */
  class Cache {
    var lastId: u64
    var table: map<Bytes, CacheEntry>

    constructor ()
      ensures lastId == 0 && table == map[]
    {
      lastId := 0;
      table := map[];
    }

    /** The blocks the cache holds. */
    ghost function Blocks(): set<Block>
      reads this
    {
      set k | k in table :: table[k].block
    }

    /** Every block the cache holds is still allocated: only eviction, which frees a block, removes one. */
    ghost predicate BlocksLive()
      reads this, Blocks()
    {
      forall k :: k in table ==> table[k].block.live
    }

    /** NewId: a fresh namespace id for a client that shares this cache. */
    method NewId() returns (id: u64)
      modifies this`lastId
      ensures id == NextId(old(lastId)) && lastId == id
    {
      lastId := NextId(lastId);
      id := lastId;
    }

    /** Lookup: a hit hands out one more handle on the entry; a miss changes nothing. */
    method Lookup(key: Bytes) returns (hit: bool)
      modifies this`table
      ensures hit <==> key in old(table)
      ensures table == if hit then Pin(old(table), key) else old(table)
    {
      hit := key in table;
      if hit {
        table := Pin(table, key);
      }
    }

    /** Value: the block a handle refers to. */
    function Value(key: Bytes): Block
      reads this
      requires key in table
    {
      table[key].block
    }

    /**
     * Insert: stores `block` under `key` and hands out one handle on it. An entry already
     * under `key` keeps its handles counted on the new entry.
     */
    method Insert(key: Bytes, block: Block)
      modifies this`table
      ensures key in table && table[key] == CacheEntry(block, (if key in old(table) then old(table)[key].refs else 0) + 1)
      ensures forall k :: k in old(table) && k != key ==> k in table && table[k] == old(table)[k]
      ensures table.Keys == old(table).Keys + {key}
    {
      var refs := if key in table then table[key].refs else 0;
      table := table[key := CacheEntry(block, refs + 1)];
    }

    /** Release: gives back one handle; the caller must hold one. */
    method Release(key: Bytes)
      requires key in table && table[key].refs > 0
      modifies this`table
      ensures table == Unpin(old(table), key)
    {
      table := Unpin(table, key);
    }
  }
}

/**
 * Decoded blocks and what a cursor's Seek finds in them. A block's restart-point binary search
 * is not part of this model: Seek is specified by what it lands on, the first entry whose key is
 * not less than the target.
 */
module Blocks {
  import opened Coding
  import opened Format

  /** Block: a decoded block, allocated with `new` and freed with `delete`. */
  class Block {
    const view: BlockView
    var live: bool

    constructor (contents: BlockContents, codec: Codec)
      ensures view == codec.parseBlock(contents.data)
      ensures live
    {
      view := codec.parseBlock(contents.data);
      live := true;
    }
  }

  /** A comparator's "less than" is a strict total order over keys. */
  ghost predicate StrictTotalOrder(less: (Bytes, Bytes) -> bool)
  {
    && (forall a :: !less(a, a))
    && (forall a, b, c :: less(a, b) && less(b, c) ==> less(a, c))
    && (forall a, b :: a != b ==> less(a, b) || less(b, a))
  }

  /** The keys of a block are strictly increasing. */
  ghost predicate Sorted(entries: seq<Entry>, less: (Bytes, Bytes) -> bool)
  {
    forall i, j :: 0 <= i < j < |entries| ==> less(entries[i].key, entries[j].key)
  }

  /**
   * The position Seek(target) leaves a block cursor at: the first entry whose key is not
   * less than target, or |entries| (the cursor is then not Valid) when there is none.
   */
  function SeekIndex(entries: seq<Entry>, less: (Bytes, Bytes) -> bool, target: Bytes): (i: nat)
    ensures i <= |entries|
  {
    if entries == [] || !less(entries[0].key, target) then 0
    else 1 + SeekIndex(entries[1..], less, target)
  }

  /**
   * Seek lands on the first entry not less than the target: every entry before the landing
   * position is less than it, and the entry landed on (if any) is not.
   */
  lemma {:induction false} SeekIndexLands(entries: seq<Entry>, less: (Bytes, Bytes) -> bool, target: Bytes)
    ensures var i := SeekIndex(entries, less, target);
      && (forall j :: 0 <= j < i ==> less(entries[j].key, target))
      && (i < |entries| ==> !less(entries[i].key, target))
  {
    if entries != [] && less(entries[0].key, target) {
      SeekIndexLands(entries[1..], less, target);
      var i := SeekIndex(entries, less, target);
      forall j | 0 <= j < i
        ensures less(entries[j].key, target)
      {
        if j > 0 {
          assert entries[j] == entries[1..][j - 1];
        }
      }
    }
  }

  /** In a sorted block, seeking a key that is present lands exactly on it. */
  lemma SeekFindsPresentKey(entries: seq<Entry>, less: (Bytes, Bytes) -> bool, p: nat)
    requires StrictTotalOrder(less) && Sorted(entries, less)
    requires p < |entries|
    ensures SeekIndex(entries, less, entries[p].key) == p
  {
    SeekIndexLands(entries, less, entries[p].key);
  }

  /**
   * In a sorted block, Seek(key) lands on an entry whose key equals key exactly when
   * some entry of the block has that key.
   */
  lemma SeekLandsOnKeyIffPresent(entries: seq<Entry>, less: (Bytes, Bytes) -> bool, key: Bytes)
    requires StrictTotalOrder(less) && Sorted(entries, less)
    ensures var i := SeekIndex(entries, less, key);
      (i < |entries| && entries[i].key == key) <==> exists p :: 0 <= p < |entries| && entries[p].key == key
  {
    if p :| 0 <= p < |entries| && entries[p].key == key {
      SeekFindsPresentKey(entries, less, p);
    }
  }

  /** Seeking a larger target never lands earlier. */
  lemma SeekIndexMonotone(entries: seq<Entry>, less: (Bytes, Bytes) -> bool, t1: Bytes, t2: Bytes)
    requires StrictTotalOrder(less)
    requires !less(t2, t1)
    ensures SeekIndex(entries, less, t1) <= SeekIndex(entries, less, t2)
  {
    SeekIndexLands(entries, less, t1);
    SeekIndexLands(entries, less, t2);
  }

  /**
   * How a table lays out its keys: index entry i stands for data block i, its key is at or after
   * every key of block i and before every key of block i + 1, and the index and every block are
   * sorted. (This is what the table builder writes; the reader relies on it.)
   */
  ghost predicate IndexCovers(index: seq<Entry>, blocks: seq<seq<Entry>>, less: (Bytes, Bytes) -> bool)
  {
    && |index| == |blocks|
    && Sorted(index, less)
    && (forall i :: 0 <= i < |blocks| ==> Sorted(blocks[i], less))
    && (forall i, e :: 0 <= i < |blocks| && e in blocks[i] ==> !less(index[i].key, e.key))
    && (forall i, e :: 0 <= i < |blocks| - 1 && e in blocks[i + 1] ==> less(index[i].key, e.key))
  }

  /** Seeking the index to any key stored in data block p lands on index entry p. */
  lemma SeekIndexFindsBlock(index: seq<Entry>, blocks: seq<seq<Entry>>, less: (Bytes, Bytes) -> bool, p: nat, q: nat)
    requires StrictTotalOrder(less) && IndexCovers(index, blocks, less)
    requires p < |blocks| && q < |blocks[p]|
    ensures SeekIndex(index, less, blocks[p][q].key) == p
  {
    var k := blocks[p][q].key;
    assert blocks[p][q] in blocks[p];
    forall j | 0 <= j < p
      ensures less(index[j].key, k)
    {
      assert blocks[(p - 1) + 1][q] in blocks[(p - 1) + 1];
      if j < p - 1 {
        assert less(index[j].key, index[p - 1].key);
      }
    }
    SeekIndexLands(index, less, k);
  }

  /** BytewiseComparator: lexicographic order on unsigned bytes, a proper prefix first. */
  function BytewiseLess(a: Bytes, b: Bytes): (r: bool)
    ensures r ==> a != b
  {
    if a == [] then b != []
    else if b == [] then false
    else if a[0] != b[0] then a[0] < b[0]
    else BytewiseLess(a[1..], b[1..])
  }

  /** A proper prefix orders before the longer key. */
  lemma {:induction false} BytewiseProperPrefixFirst(a: Bytes, b: Bytes)
    requires |a| < |b| && a == b[..|a|]
    ensures BytewiseLess(a, b)
  {
    if a != [] {
      assert a[1..] == b[1..][..|a| - 1];
      BytewiseProperPrefixFirst(a[1..], b[1..]);
    }
  }

  lemma {:induction false} BytewiseIrreflexive(a: Bytes)
    ensures !BytewiseLess(a, a)
  {
    if a != [] {
      BytewiseIrreflexive(a[1..]);
    }
  }

  lemma {:induction false} BytewiseTransitive(a: Bytes, b: Bytes, c: Bytes)
    requires BytewiseLess(a, b) && BytewiseLess(b, c)
    ensures BytewiseLess(a, c)
  {
    if a != [] && b != [] && c != [] && a[0] == b[0] && b[0] == c[0] {
      BytewiseTransitive(a[1..], b[1..], c[1..]);
    }
  }

  lemma {:induction false} BytewiseConnected(a: Bytes, b: Bytes)
    requires a != b
    ensures BytewiseLess(a, b) || BytewiseLess(b, a)
  {
    if a != [] && b != [] && a[0] == b[0] {
      assert a == [a[0]] + a[1..] && b == [b[0]] + b[1..];
      BytewiseConnected(a[1..], b[1..]);
    }
  }

  /** The bytewise comparator is a strict total order. */
  lemma BytewiseIsStrictTotalOrder()
    ensures StrictTotalOrder(BytewiseLess)
  {
    forall a { BytewiseIrreflexive(a); }
    forall a, b, c | BytewiseLess(a, b) && BytewiseLess(b, c) { BytewiseTransitive(a, b, c); }
    forall a, b | a != b { BytewiseConnected(a, b); }
  }
}

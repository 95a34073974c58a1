/**
 * The on-disk format the table reader consumes: block handles, the footer, raw block contents,
 * the per-read options, and the two collaborators that turn bytes into these values.
 * The byte-level codecs (Footer::DecodeFrom, BlockHandle::DecodeFrom, ReadBlock and the Block
 * parser) are not part of this model: they are taken as the functions of a Codec and of a File.
 */
module Format {
  import opened Coding
  import opened Statuses

  /** BlockHandle: the byte range of a block inside the file. */
  datatype BlockHandle = BlockHandle(offset: u64, size: u64)

  /** Footer: the fixed-length trailer locating the metaindex and index blocks. */
  datatype Footer = Footer(metaindexHandle: BlockHandle, indexHandle: BlockHandle)

  /** Footer::kEncodedLength: two handles of at most 20 bytes each plus an 8-byte magic number. */
  const kFooterEncodedLength: u64 := 48

  /** BlockContents: the bytes ReadBlock returned, with its two ownership flags. */
  datatype BlockContents = BlockContents(data: Bytes, cachable: bool, heapAllocated: bool)

  /** ReadOptions: the two options this reader consults. */
  datatype ReadOptions = ReadOptions(verifyChecksums: bool, fillCache: bool)

  /**
   * The options the reader builds for its own reads at open time: a default ReadOptions
   * (which fills the cache and does not verify checksums) with verify_checksums raised
   * when the table's paranoid_checks option is.
   */
  function InternalReadOptions(paranoidChecks: bool): (r: ReadOptions)
    ensures r.verifyChecksums <==> paranoidChecks
    ensures r.fillCache
  {
    ReadOptions(paranoidChecks, true)
  }

  /** One key/value pair of a block. */
  datatype Entry = Entry(key: Bytes, value: Bytes)

  /** What a cursor over a decoded block sees: its entries in order, and its status. */
  datatype View = View(entries: seq<Entry>, status: Status)

  /** A block whose decoding failed shows no entries, only its non-OK status. */
  type BlockView = v: View | v.status.OK? || v.entries == [] witness View([], OK)

  /** The byte-level decoders of the table format. */
  datatype Codec = Codec(
    decodeFooter: Bytes -> Result<Footer>,       // Footer::DecodeFrom
    decodeHandle: Bytes -> Result<BlockHandle>,  // BlockHandle::DecodeFrom on a prefix; trailing bytes are ignored
    parseBlock: Bytes -> BlockView)              // new Block(contents) followed by NewIterator

  /**
   * RandomAccessFile together with ReadBlock over it. The contents are fixed for the file's
   * lifetime; readCount counts the reads issued against it.
   */
  class File {
    const read: (u64, u64) -> Result<Bytes>                      // Read(offset, n)
    const blockAt: (ReadOptions, BlockHandle) -> Result<BlockContents>  // ReadBlock(file, options, handle)
    ghost var readCount: nat

    constructor (read: (u64, u64) -> Result<Bytes>, blockAt: (ReadOptions, BlockHandle) -> Result<BlockContents>)
      ensures this.read == read && this.blockAt == blockAt && readCount == 0
    {
      this.read := read;
      this.blockAt := blockAt;
      readCount := 0;
    }

    method Read(offset: u64, n: u64) returns (r: Result<Bytes>)
      modifies this`readCount
      ensures r == read(offset, n)
      ensures readCount == old(readCount) + 1
    {
      r := read(offset, n);
      readCount := readCount + 1;
    }

    method ReadBlock(options: ReadOptions, handle: BlockHandle) returns (r: Result<BlockContents>)
      modifies this`readCount
      ensures r == blockAt(options, handle)
      ensures readCount == old(readCount) + 1
    {
      r := blockAt(options, handle);
      readCount := readCount + 1;
    }
  }
}

/**
 * The output .clm file as the builder sees it through stdio: a sequence of
 * bytes and a file position, moved by fseek/ftell and written by fwrite.
 * On top of it: creating the header and the zeroed address table, writing a
 * tile's sentinel record, and appending a tile's compressed block and
 * back-patching its record; and the invariant that these keep.
 */
module Store {
  import opened BitStream
  import opened Layout

  /** s with data written at offset at; a gap past the old end reads as zeros. */
  function Overwrite(s: seq<byte>, at: nat, data: seq<byte>): (r: seq<byte>)
    ensures |r| == if at + |data| > |s| then at + |data| else |s|
    ensures r[at..at + |data|] == data
    ensures forall q :: 0 <= q < |r| && !(at <= q < at + |data|) ==> r[q] == if q < |s| then s[q] else 0
  {
    var padded := if at > |s| then s + Zeros(at - |s|) else s;
    var r := padded[..at] + data + (if at + |data| < |padded| then padded[at + |data|..] else []);
    assert r[at..at + |data|] == data;
    r
  }

  /** Writing at the end of the file appends. */
  lemma OverwriteAtEnd(s: seq<byte>, data: seq<byte>)
    ensures Overwrite(s, |s|, data) == s + data
  {
    var r := Overwrite(s, |s|, data);
    assert forall q :: 0 <= q < |r| ==> r[q] == (s + data)[q] by {
      forall q | 0 <= q < |r|
        ensures r[q] == (s + data)[q]
      {
        if q >= |s| {
          assert r[q] == r[|s|..|s| + |data|][q - |s|];
        }
      }
    }
  }

  /** The stdio view of the output file: its bytes and the position of the next write. */
  class OutputFile {
    var bytes: seq<byte>
    var pos: nat

    /** fopen(..., "wb+"): an empty file positioned at 0. */
    constructor ()
      ensures bytes == [] && pos == 0
    {
      bytes, pos := [], 0;
    }

    /** fseek(ofp, at, SEEK_SET). */
    method Seek(at: nat)
      modifies this
      ensures bytes == old(bytes) && pos == at
    {
      pos := at;
    }

    /** fseek(ofp, 0, SEEK_END). */
    method SeekEnd()
      modifies this
      ensures bytes == old(bytes) && pos == |bytes|
    {
      pos := |bytes|;
    }

    /** ftell(ofp). */
    method Tell() returns (at: nat)
      ensures at == pos
    {
      at := pos;
    }

    /** fwrite(data, |data|, 1, ofp): data written at the position, which moves past it. */
    method Write(data: seq<byte>)
      modifies this
      ensures bytes == Overwrite(old(bytes), old(pos), data)
      ensures pos == old(pos) + |data|
    {
      bytes := Overwrite(bytes, pos, data);
      pos := pos + |data|;
    }
  }

  /** The 7 bytes of the t-th record of the address table. */
  function RecordBytes(bytes: seq<byte>, t: nat): (r: seq<byte>)
    requires t < TileCount && |bytes| >= DataStart
    ensures |r| == RecordSize
  {
    bytes[RecordOffset(t)..RecordOffset(t) + RecordSize]
  }

  /** The entry the t-th record holds. */
  function EntryOf(bytes: seq<byte>, t: nat): Entry
    requires t < TileCount && |bytes| >= DataStart
  {
    DecodeRecord(RecordBytes(bytes, t))
  }

  /** A sentinel entry: undefined, all land or all water, with a zero length field. */
  predicate IsSentinel(e: Entry)
  {
    e.address <= AllWater && e.length == 0
  }

  /** A block entry pointing past the table and no further than the end of the file. */
  predicate BlockWithin(bytes: seq<byte>, e: Entry)
  {
    DataStart <= e.address && e.address + e.length <= |bytes|
  }

  /** The block an entry points at. */
  function BlockBytes(bytes: seq<byte>, e: Entry): seq<byte>
    requires BlockWithin(bytes, e)
  {
    bytes[e.address..e.address + e.length]
  }

  /**
   * The file after the first `done` tiles of the scan: header and table in
   * place; the records of the tiles not yet reached still zero; every record
   * written is a sentinel or points at a block inside the file; and blocks
   * lie in the file in scan order without overlapping.
   */
  predicate StoreValid(bytes: seq<byte>, done: nat): (b: bool)
    ensures b ==> |bytes| >= DataStart && done <= TileCount && forall t :: done <= t < TileCount ==> EntryOf(bytes, t) == Entry(Undefined, 0)
  {
    ZeroRecordIsUndefined();
    && |bytes| >= DataStart
    && done <= TileCount
    && (forall t :: done <= t < TileCount ==> RecordBytes(bytes, t) == Zeros(RecordSize))
    && (forall t :: 0 <= t < done ==> IsSentinel(EntryOf(bytes, t)) || BlockWithin(bytes, EntryOf(bytes, t)))
    && (forall t1, t2 :: 0 <= t1 < t2 < done && BlockWithin(bytes, EntryOf(bytes, t1)) && BlockWithin(bytes, EntryOf(bytes, t2))
          ==> EntryOf(bytes, t1).address + EntryOf(bytes, t1).length <= EntryOf(bytes, t2).address)
  }

  /** In a valid file no tile's record is a block pointing past the end of the file or into the header or table. */
  lemma ValidRecordsInFile(bytes: seq<byte>, done: nat, t: nat)
    requires StoreValid(bytes, done) && t < TileCount
    ensures var e := EntryOf(bytes, t); IsSentinel(e) || BlockWithin(bytes, e)
  {
    if t >= done {
      ZeroRecordIsUndefined();
    }
  }

  /** A record overwrite inside the table leaves the bytes outside that record as they were. */
  lemma RecordWriteFrame(bytes: seq<byte>, t: nat, rec: seq<byte>)
    requires |bytes| >= DataStart && t < TileCount && |rec| == RecordSize
    ensures var r := Overwrite(bytes, RecordOffset(t), rec);
      && |r| == |bytes|
      && RecordBytes(r, t) == rec
      && (forall t' :: 0 <= t' < TileCount && t' != t ==> RecordBytes(r, t') == RecordBytes(bytes, t'))
      && r[DataStart..] == bytes[DataStart..]
  {
    var r := Overwrite(bytes, RecordOffset(t), rec);
    forall t' | 0 <= t' < TileCount && t' != t
      ensures RecordBytes(r, t') == RecordBytes(bytes, t')
    {
      if t' < t {
        assert RecordOffset(t') + RecordSize <= RecordOffset(t);
      } else {
        assert RecordOffset(t) + RecordSize <= RecordOffset(t');
      }
    }
  }

  /**
   * Tile t's record becomes rec, a sentinel: the file stays valid with t
   * done, keeps its length, and every other record and every block is as
   * it was.
   */
  lemma SentinelKeepsValid(bytes: seq<byte>, t: nat, rec: seq<byte>)
    requires StoreValid(bytes, t) && t < TileCount
    requires |rec| == RecordSize && IsSentinel(DecodeRecord(rec))
    ensures var r := Overwrite(bytes, RecordOffset(t), rec);
      && StoreValid(r, t + 1)
      && EntryOf(r, t) == DecodeRecord(rec)
      && |r| == |bytes| && r[DataStart..] == bytes[DataStart..]
      && (forall t' :: 0 <= t' < TileCount && t' != t ==> EntryOf(r, t') == EntryOf(bytes, t'))
  {
    var r := Overwrite(bytes, RecordOffset(t), rec);
    RecordWriteFrame(bytes, t, rec);
    forall t' | 0 <= t' < TileCount && t' != t
      ensures EntryOf(r, t') == EntryOf(bytes, t')
    {
      assert RecordBytes(r, t') == RecordBytes(bytes, t');
    }
  }

  /**
   * Tile t's record becomes (|bytes|, |block|) and the block is appended:
   * the file stays valid with t done, the record points exactly at the
   * block, and every other record and every earlier block is as it was.
   */
  lemma BlockKeepsValid(bytes: seq<byte>, t: nat, rec: seq<byte>, block: seq<byte>)
    requires StoreValid(bytes, t) && t < TileCount
    requires |rec| == RecordSize && DecodeRecord(rec) == Entry(|bytes|, |block|)
    ensures var r := Overwrite(bytes, RecordOffset(t), rec) + block;
      && StoreValid(r, t + 1)
      && EntryOf(r, t) == Entry(|bytes|, |block|)
      && BlockWithin(r, EntryOf(r, t)) && BlockBytes(r, EntryOf(r, t)) == block
      && r[..DataStart] == Overwrite(bytes, RecordOffset(t), rec)[..DataStart]
      && r[DataStart..|bytes|] == bytes[DataStart..]
      && (forall t' :: 0 <= t' < TileCount && t' != t ==> EntryOf(r, t') == EntryOf(bytes, t'))
  {
    var patched := Overwrite(bytes, RecordOffset(t), rec);
    var r := patched + block;
    RecordWriteFrame(bytes, t, rec);
    forall t' | 0 <= t' < TileCount
      ensures RecordBytes(r, t') == RecordBytes(patched, t')
    {
      RecordBytesOfAppend(patched, block, t');
    }
    assert r[|bytes|..] == block;
    assert r[DataStart..|bytes|] == patched[DataStart..];
    assert forall t' :: 0 <= t' < TileCount && t' != t ==> RecordBytes(r, t') == RecordBytes(bytes, t');
    assert EntryOf(r, t) == Entry(|bytes|, |block|) by {
      assert RecordBytes(r, t) == rec;
    }
    ValidAfterAppend(bytes, r, t);
    var e := EntryOf(r, t);
    assert e.address == |bytes| && e.address + e.length == |r|;
    assert BlockBytes(r, e) == r[|bytes|..];
  }

  /**
   * A file grown past bytes whose record t now points at exactly the grown
   * part, every other record unchanged, is valid with t done.
   */
  lemma ValidAfterAppend(bytes: seq<byte>, r: seq<byte>, t: nat)
    requires StoreValid(bytes, t) && t < TileCount && |bytes| <= |r|
    requires forall t' :: 0 <= t' < TileCount && t' != t ==> RecordBytes(r, t') == RecordBytes(bytes, t')
    requires EntryOf(r, t) == Entry(|bytes|, |r| - |bytes|)
    ensures StoreValid(r, t + 1)
    ensures forall t' :: 0 <= t' < TileCount && t' != t ==> EntryOf(r, t') == EntryOf(bytes, t')
  {
    forall t' | 0 <= t' < TileCount && t' != t
      ensures EntryOf(r, t') == EntryOf(bytes, t')
    {
      assert RecordBytes(r, t') == RecordBytes(bytes, t');
    }
    forall t' | 0 <= t' < t + 1
      ensures IsSentinel(EntryOf(r, t')) || BlockWithin(r, EntryOf(r, t'))
    {
      if t' != t {
        assert IsSentinel(EntryOf(bytes, t')) || BlockWithin(bytes, EntryOf(bytes, t'));
      }
    }
    forall t1, t2 | 0 <= t1 < t2 < t + 1 && BlockWithin(r, EntryOf(r, t1)) && BlockWithin(r, EntryOf(r, t2))
      ensures EntryOf(r, t1).address + EntryOf(r, t1).length <= EntryOf(r, t2).address
    {
      assert IsSentinel(EntryOf(bytes, t1)) || BlockWithin(bytes, EntryOf(bytes, t1));
      if t2 < t {
        assert IsSentinel(EntryOf(bytes, t2)) || BlockWithin(bytes, EntryOf(bytes, t2));
      }
    }
  }

  /** Appending to a file does not change its table. */
  lemma RecordBytesOfAppend(bytes: seq<byte>, more: seq<byte>, t: nat)
    requires t < TileCount && |bytes| >= DataStart
    ensures RecordBytes(bytes + more, t) == RecordBytes(bytes, t)
  {
    assert RecordOffset(t) + RecordSize <= DataStart;
  }

  /** A block that lies inside a prefix of the file reads the same from the longer file. */
  lemma BlockBytesOfPrefix(bytes: seq<byte>, longer: seq<byte>, e: Entry)
    requires BlockWithin(bytes, e) && |bytes| <= |longer|
    requires longer[DataStart..|bytes|] == bytes[DataStart..]
    ensures BlockWithin(longer, e) && BlockBytes(longer, e) == BlockBytes(bytes, e)
  {
    assert forall q :: e.address <= q < e.address + e.length ==> longer[q] == longer[DataStart..|bytes|][q - DataStart];
  }

  /** The bytes of tile t's block, or nothing when its record is not a block inside the file. */
  ghost function TileBlock(bytes: seq<byte>, t: nat): seq<byte>
    requires t < TileCount && |bytes| >= DataStart
  {
    var e := EntryOf(bytes, t);
    if BlockWithin(bytes, e) then BlockBytes(bytes, e) else []
  }

  /** The blocks of tiles 0 .. done - 1, back to back in scan order. */
  ghost function Blocks(bytes: seq<byte>, done: nat): seq<byte>
    requires done <= TileCount && |bytes| >= DataStart
  {
    if done == 0 then [] else Blocks(bytes, done - 1) + TileBlock(bytes, done - 1)
  }

  /** The length of tile t's block, or 0 when its record is not a block inside the file. */
  ghost function BlockLength(bytes: seq<byte>, t: nat): nat
    requires t < TileCount && |bytes| >= DataStart
  {
    var e := EntryOf(bytes, t);
    if BlockWithin(bytes, e) then e.length else 0
  }

  /** Where the blocks of tiles 0 .. done - 1 end when they lie back to back after the table. */
  ghost function DataEnd(bytes: seq<byte>, done: nat): nat
    requires done <= TileCount && |bytes| >= DataStart
  {
    if done == 0 then DataStart else DataEnd(bytes, done - 1) + BlockLength(bytes, done - 1)
  }

  /** Each block among the first done tiles starts where the blocks of the tiles before it end. */
  ghost predicate BlocksInPlace(bytes: seq<byte>, done: nat)
    requires done <= TileCount && |bytes| >= DataStart
  {
    || done == 0
    || (&& BlocksInPlace(bytes, done - 1)
        && var e := EntryOf(bytes, done - 1);
           BlockWithin(bytes, e) ==> e.address == DataEnd(bytes, done - 1))
  }

  /**
   * The blocks of the first done tiles lie back to back after the table, in
   * scan order, and the last of them ends the file.
   */
  ghost predicate Packed(bytes: seq<byte>, done: nat)
    requires done <= TileCount && |bytes| >= DataStart
  {
    BlocksInPlace(bytes, done) && |bytes| == DataEnd(bytes, done)
  }

  /** DataEnd only grows along the scan. */
  lemma DataEndGrows(bytes: seq<byte>, k: nat, done: nat)
    requires k <= done <= TileCount && |bytes| >= DataStart
    ensures DataStart <= DataEnd(bytes, k) <= DataEnd(bytes, done)
  {
    if k < done {
      DataEndGrows(bytes, k, done - 1);
    } else if k > 0 {
      DataEndGrows(bytes, k - 1, k - 1);
    }
  }

  /** A block among the first done tiles of a file whose blocks are in place starts at its DataEnd. */
  lemma {:induction false} InPlaceAt(bytes: seq<byte>, done: nat, t: nat)
    requires t < done <= TileCount && |bytes| >= DataStart
    requires BlocksInPlace(bytes, done)
    ensures BlockWithin(bytes, EntryOf(bytes, t)) ==> EntryOf(bytes, t).address == DataEnd(bytes, t)
  {
    if t < done - 1 {
      InPlaceAt(bytes, done - 1, t);
    }
  }

  /**
   * A longer file that keeps the records of the first done tiles, each a
   * sentinel or a block inside the shorter file, places their blocks at the
   * same offsets.
   */
  lemma {:induction false} DataEndKept(bytes: seq<byte>, longer: seq<byte>, done: nat)
    requires done <= TileCount && DataStart <= |bytes| <= |longer|
    requires forall t :: 0 <= t < done ==> EntryOf(longer, t) == EntryOf(bytes, t)
    requires forall t :: 0 <= t < done ==> IsSentinel(EntryOf(bytes, t)) || BlockWithin(bytes, EntryOf(bytes, t))
    ensures DataEnd(longer, done) == DataEnd(bytes, done)
  {
    if done > 0 {
      DataEndKept(bytes, longer, done - 1);
      var e := EntryOf(bytes, done - 1);
      assert EntryOf(longer, done - 1) == e;
      assert BlockWithin(longer, e) == BlockWithin(bytes, e);
    }
  }

  /** The same file change keeps the blocks of the first done tiles in place. */
  lemma {:induction false} InPlaceKept(bytes: seq<byte>, longer: seq<byte>, done: nat)
    requires done <= TileCount && DataStart <= |bytes| <= |longer|
    requires forall t :: 0 <= t < done ==> EntryOf(longer, t) == EntryOf(bytes, t)
    requires forall t :: 0 <= t < done ==> IsSentinel(EntryOf(bytes, t)) || BlockWithin(bytes, EntryOf(bytes, t))
    requires BlocksInPlace(bytes, done)
    ensures BlocksInPlace(longer, done)
  {
    if done > 0 {
      InPlaceKept(bytes, longer, done - 1);
      DataEndKept(bytes, longer, done - 1);
      var e := EntryOf(bytes, done - 1);
      assert EntryOf(longer, done - 1) == e;
      assert BlockWithin(longer, e) ==> BlockWithin(bytes, e);
    }
  }

  /**
   * Tile t's step of the scan: either its record is patched in place with a
   * sentinel, or its record is patched and its block appended at the end of
   * the file, the record pointing at that block.
   */
  ghost predicate TileStep(bytes: seq<byte>, bytes': seq<byte>, t: nat, rec: seq<byte>)
    requires t < TileCount && |rec| == RecordSize && |bytes| >= DataStart && |bytes'| >= DataStart
  {
    || (bytes' == Overwrite(bytes, RecordOffset(t), rec) && IsSentinel(EntryOf(bytes', t)))
    || (var e := EntryOf(bytes', t);
        && e.address == |bytes| && BlockWithin(bytes', e)
        && bytes' == Overwrite(bytes, RecordOffset(t), rec) + BlockBytes(bytes', e))
  }

  /** A tile step grows the file by exactly tile t's block, placed at the old end of the file. */
  lemma SlotAppended(bytes: seq<byte>, bytes': seq<byte>, t: nat, rec: seq<byte>)
    requires t < TileCount && |rec| == RecordSize && |bytes| >= DataStart && |bytes'| >= DataStart
    requires TileStep(bytes, bytes', t, rec)
    ensures |bytes'| == |bytes| + BlockLength(bytes', t)
    ensures BlockWithin(bytes', EntryOf(bytes', t)) ==> EntryOf(bytes', t).address == |bytes|
  {
    RecordWriteFrame(bytes, t, rec);
  }

  /** A tile step on a packed file that keeps the earlier records leaves the file packed one tile further. */
  lemma PackedStep(bytes: seq<byte>, bytes': seq<byte>, t: nat, rec: seq<byte>)
    requires t < TileCount && |rec| == RecordSize && |bytes'| >= DataStart
    requires StoreValid(bytes, t) && Packed(bytes, t)
    requires forall t' :: 0 <= t' < t ==> EntryOf(bytes', t') == EntryOf(bytes, t')
    requires TileStep(bytes, bytes', t, rec)
    ensures Packed(bytes', t + 1)
  {
    SlotAppended(bytes, bytes', t, rec);
    DataEndKept(bytes, bytes', t);
    InPlaceKept(bytes, bytes', t);
  }

  /** Tile t's slot in a packed file, from DataEnd(t) to DataEnd(t + 1), holds its block. */
  lemma PackedSlot(bytes: seq<byte>, done: nat, t: nat)
    requires t < done <= TileCount && |bytes| >= DataStart
    requires Packed(bytes, done)
    ensures DataStart <= DataEnd(bytes, t) <= DataEnd(bytes, t + 1) <= |bytes|
    ensures bytes[DataEnd(bytes, t)..DataEnd(bytes, t + 1)] == TileBlock(bytes, t)
  {
    SlotBounds(bytes, done, t);
    InPlaceAt(bytes, done, t);
  }

  /** The slot of tile t starts after the table and ends before the data of the first done tiles does. */
  lemma SlotBounds(bytes: seq<byte>, done: nat, t: nat)
    requires t < done <= TileCount && |bytes| >= DataStart
    ensures DataStart <= DataEnd(bytes, t) <= DataEnd(bytes, t + 1) <= DataEnd(bytes, done)
  {
    DataEndGrows(bytes, t, t + 1);
    DataEndGrows(bytes, t + 1, done);
  }

  /** Two adjacent slices of s make the slice that spans both. */
  lemma AdjacentSlices(s: seq<byte>, a: nat, b: nat, c: nat)
    requires a <= b <= c <= |s|
    ensures s[a..c] == s[a..b] + s[b..c]
  {
  }

  /** In a packed file the data up to tile k's end is the blocks of tiles 0 .. k - 1. */
  lemma {:induction false} PackedPrefix(bytes: seq<byte>, done: nat, k: nat)
    requires k <= done <= TileCount && |bytes| >= DataStart
    requires Packed(bytes, done)
    ensures DataStart <= DataEnd(bytes, k) <= |bytes| && bytes[DataStart..DataEnd(bytes, k)] == Blocks(bytes, k)
    decreases k, 1
  {
    if k == 0 {
      DataEndGrows(bytes, k, done);
      NoBlocksYet(bytes);
    } else {
      PackedPrefixStep(bytes, done, k);
    }
  }

  /** The induction step of PackedPrefix: the prefix up to tile k - 1 and tile k - 1's slot. */
  lemma PackedPrefixStep(bytes: seq<byte>, done: nat, k: nat)
    requires 0 < k <= done <= TileCount && |bytes| >= DataStart
    requires Packed(bytes, done)
    ensures DataStart <= DataEnd(bytes, k) <= |bytes| && bytes[DataStart..DataEnd(bytes, k)] == Blocks(bytes, k)
    decreases k, 0
  {
    DataEndGrows(bytes, k, done);
    PackedPrefix(bytes, done, k - 1);
    PackedSlot(bytes, done, k - 1);
    PrefixStep(bytes, k);
  }

  /** Before the first tile, no data and no blocks. */
  lemma NoBlocksYet(bytes: seq<byte>)
    requires |bytes| >= DataStart
    ensures DataStart <= DataEnd(bytes, 0) <= |bytes| && bytes[DataStart..DataEnd(bytes, 0)] == Blocks(bytes, 0)
  {
  }

  /** The data up to tile k - 1's end followed by tile k - 1's slot is the data up to tile k's end. */
  lemma PrefixStep(bytes: seq<byte>, k: nat)
    requires 0 < k <= TileCount && |bytes| >= DataStart
    requires DataStart <= DataEnd(bytes, k - 1) <= DataEnd(bytes, k) <= |bytes|
    requires bytes[DataStart..DataEnd(bytes, k - 1)] == Blocks(bytes, k - 1)
    requires bytes[DataEnd(bytes, k - 1)..DataEnd(bytes, k)] == TileBlock(bytes, k - 1)
    ensures bytes[DataStart..DataEnd(bytes, k)] == Blocks(bytes, k)
  {
    AdjacentSlices(bytes, DataStart, DataEnd(bytes, k - 1), DataEnd(bytes, k));
  }

  /** In a packed file the data after the table is the blocks of the first done tiles, back to back in scan order. */
  lemma PackedData(bytes: seq<byte>, done: nat)
    requires done <= TileCount && |bytes| >= DataStart
    requires Packed(bytes, done)
    ensures bytes[DataStart..] == Blocks(bytes, done)
    ensures bytes == bytes[..DataStart] + Blocks(bytes, done)
  {
    PackedPrefix(bytes, done, done);
    assert bytes == bytes[..DataStart] + bytes[DataStart..];
  }

  /**
   * The header and the zeroed address table: the header text, zero bytes up
   * to byte 16384, then 64800 zero records written one after the other in
   * scan order, so that each lands at its tile's record address.  The file
   * position ends at the start of the data area and the returned record
   * buffer is the zeroed mapbuf.
   */
  method CreateStore(f: OutputFile, header: seq<byte>) returns (mapbuf: seq<byte>, ghost positions: seq<nat>)
    requires f.bytes == [] && f.pos == 0
    requires |header| <= HeaderSize
    modifies f
    ensures f.bytes == header + Zeros(HeaderSize - |header|) + Zeros(TableSize)
    ensures f.pos == |f.bytes| == DataStart
    ensures StoreValid(f.bytes, 0)
    ensures mapbuf == Zeros(RecordSize)
    ensures |positions| == TileCount
    ensures forall lat, lon :: ValidTile(lat, lon) ==> positions[TileIndex(lat, lon)] == RecordAddress(lat, lon)
  {
    PadHeader(f, header);
    ghost var prefix := f.bytes;
    mapbuf, positions := WriteZeroTable(f);
    CreatedTableIsZero(f.bytes, prefix);
    forall lat, lon | ValidTile(lat, lon)
      ensures positions[TileIndex(lat, lon)] == RecordAddress(lat, lon)
    {
      RecordAddressIsSlot(lat, lon);
    }
  }

  /** The header string, then zero bytes up to HEADER_SIZE. */
  method PadHeader(f: OutputFile, header: seq<byte>)
    requires f.bytes == [] && f.pos == 0
    requires |header| <= HeaderSize
    modifies f
    ensures f.bytes == header + Zeros(HeaderSize - |header|)
    ensures f.pos == HeaderSize
  {
    f.Write(header);
    OverwriteAtEnd([], header);
    var j := f.Tell();
    var i := j;
    while i < HeaderSize
      invariant |header| <= i <= HeaderSize
      invariant f.bytes == header + Zeros(i - |header|) && f.pos == i
    {
      OverwriteAtEnd(f.bytes, [0]);
      f.Write([0]);
      assert Zeros(i - |header|) + [0] == Zeros(i + 1 - |header|);
      i := i + 1;
    }
  }

  /**
   * One zeroed mapbuf written per tile in scan order: the whole table, zero.
   * positions[t] is where the file stood when tile t's record was written.
   */
  method WriteZeroTable(f: OutputFile) returns (mapbuf: seq<byte>, ghost positions: seq<nat>)
    requires f.pos == |f.bytes|
    modifies f
    ensures f.bytes == old(f.bytes) + Zeros(TableSize)
    ensures f.pos == |f.bytes|
    ensures mapbuf == Zeros(RecordSize)
    ensures |positions| == TileCount
    ensures forall t :: 0 <= t < TileCount ==> positions[t] == |old(f.bytes)| + t * RecordSize
  {
    ghost var prefix := f.bytes;
    mapbuf := Zeros(RecordSize);
    positions := [];
    var lat := -90;
    while lat < 90
      invariant -90 <= lat <= 90
      invariant f.bytes == prefix + Zeros((lat + 90) * 360 * RecordSize)
      invariant f.pos == |f.bytes|
      invariant |positions| == (lat + 90) * 360
      invariant forall t :: 0 <= t < |positions| ==> positions[t] == |prefix| + t * RecordSize
    {
      var lon := -180;
      while lon < 180
        invariant -180 <= lon <= 180
        invariant f.bytes == prefix + Zeros(((lat + 90) * 360 + (lon + 180)) * RecordSize)
        invariant f.pos == |f.bytes|
        invariant |positions| == (lat + 90) * 360 + (lon + 180)
        invariant forall t :: 0 <= t < |positions| ==> positions[t] == |prefix| + t * RecordSize
      {
        positions := positions + [f.pos];
        OverwriteAtEnd(f.bytes, mapbuf);
        f.Write(mapbuf);
        assert Zeros(((lat + 90) * 360 + (lon + 180)) * RecordSize) + mapbuf
            == Zeros(((lat + 90) * 360 + (lon + 1 + 180)) * RecordSize);
        lon := lon + 1;
      }
      lat := lat + 1;
    }
  }

  /** After creation every record of the table is zero, that is undefined. */
  lemma CreatedTableIsZero(bytes: seq<byte>, prefix: seq<byte>)
    requires |prefix| == HeaderSize && bytes == prefix + Zeros(TableSize)
    ensures StoreValid(bytes, 0)
    ensures forall t :: 0 <= t < TileCount ==> EntryOf(bytes, t) == Entry(Undefined, 0)
  {
    forall t | 0 <= t < TileCount
      ensures RecordBytes(bytes, t) == Zeros(RecordSize)
    {
      assert forall q :: 0 <= q < RecordSize ==> RecordBytes(bytes, t)[q] == bytes[RecordOffset(t) + q];
    }
    ZeroRecordIsUndefined();
  }

  /**
   * The sentinel write for a tile without a shapefile: mapbuf zeroed, the
   * sentinel value packed into its 32-bit field (nothing packed for
   * undefined), then the record written at the tile's record address.
   */
  method WriteSentinel(f: OutputFile, lat: int, lon: int, value: nat) returns (mapbuf: seq<byte>)
    requires ValidTile(lat, lon) && value <= AllWater
    requires |f.bytes| >= DataStart
    modifies f
    ensures mapbuf == SentinelRecord(value)
    ensures f.bytes == Overwrite(old(f.bytes), RecordAddress(lat, lon), SentinelRecord(value))
    ensures f.pos == RecordAddress(lat, lon) + RecordSize
  {
    mapbuf := Zeros(RecordSize);
    if value == Undefined {
      UndefinedRecordIsZeros();
    } else {
      mapbuf := BitPack(mapbuf, 0, 32, value);
    }
    f.Seek(RecordAddress(lat, lon));
    f.Write(mapbuf);
  }

  /**
   * Appending a compressed block and back-patching its record, in the
   * source's order: seek to the end, take the block address from ftell,
   * pack address and length into mapbuf over whatever it held, write the
   * record at the tile's record address, seek back to the block address and
   * write the block there.  The address must fit the 32-bit field as a
   * non-negative int32 and the length the 24-bit field.
   */
  method WriteBlock(f: OutputFile, mapbuf: seq<byte>, lat: int, lon: int, block: seq<byte>) returns (mapbuf': seq<byte>)
    requires ValidTile(lat, lon) && |mapbuf| == RecordSize
    requires |f.bytes| >= DataStart
    requires |f.bytes| < Pow2(31) && |block| < Pow2(24)
    modifies f
    ensures |mapbuf'| == RecordSize && DecodeRecord(mapbuf') == Entry(old(|f.bytes|), |block|)
    ensures f.bytes == Overwrite(old(f.bytes), RecordAddress(lat, lon), mapbuf') + block
    ensures f.pos == |f.bytes|
  {
    f.SeekEnd();
    var blockAddress := f.Tell();
    assert Pow2(31) < Pow2(32);
    mapbuf' := PackRecord(mapbuf, blockAddress, |block|);
    f.Seek(RecordAddress(lat, lon));
    f.Write(mapbuf');
    ghost var patched := f.bytes;
    assert |patched| == blockAddress;
    f.Seek(blockAddress);
    OverwriteAtEnd(patched, block);
    f.Write(block);
    assert f.bytes == patched + block;
  }

  /**
   * The order of the two writes does not matter: appending the block first
   * and patching the record afterwards gives the same file.
   */
  lemma WriteOrderIrrelevant(bytes: seq<byte>, t: nat, rec: seq<byte>, block: seq<byte>)
    requires |bytes| >= DataStart && t < TileCount && |rec| == RecordSize
    ensures Overwrite(bytes, RecordOffset(t), rec) + block == Overwrite(bytes + block, RecordOffset(t), rec)
  {
    var a := Overwrite(bytes, RecordOffset(t), rec) + block;
    var b := Overwrite(bytes + block, RecordOffset(t), rec);
    assert |a| == |b|;
    forall q | 0 <= q < |a|
      ensures a[q] == b[q]
    {
      if RecordOffset(t) <= q < RecordOffset(t) + RecordSize {
        assert a[q] == Overwrite(bytes, RecordOffset(t), rec)[RecordOffset(t)..RecordOffset(t) + RecordSize][q - RecordOffset(t)];
        assert b[q] == b[RecordOffset(t)..RecordOffset(t) + RecordSize][q - RecordOffset(t)];
      }
    }
  }
}

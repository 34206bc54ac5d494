/**
 * The layout of a compressed land mask (.clm) file and the arithmetic on it:
 * a 16384-byte ASCII header, then one 7-byte address record per one-degree
 * tile (64800 of them, south to north and west to east within a row), then
 * the compressed tile blocks.  Also the command-line resolution and thread
 * count checks and the size of a tile's packed bit block.
 */
module Layout {
  import opened BitStream
  import opened Options

  /** SWBD_MASK_HEADER_SIZE. */
  const HeaderSize: nat := 16384
  const RecordSize: nat := 7
  const TileCount: nat := 180 * 360
  const TableSize: nat := TileCount * RecordSize
  /** The first byte after header and address table: where blocks begin. */
  const DataStart: nat := HeaderSize + TableSize

  /** Record sentinels held in the 32-bit field. */
  const Undefined: nat := 0
  const AllLand: nat := 1
  const AllWater: nat := 2

  predicate ValidTile(lat: int, lon: int)
  {
    -90 <= lat < 90 && -180 <= lon < 180
  }

  /** The tile's position in the scan order of the table. */
  function TileIndex(lat: int, lon: int): (t: nat)
    requires ValidTile(lat, lon)
    ensures t < TileCount
  {
    (lat + 90) * 360 + (lon + 180)
  }

  /** The tile whose record is the t-th of the table. */
  function TileAt(t: nat): (tile: (int, int))
    requires t < TileCount
    ensures ValidTile(tile.0, tile.1)
    ensures TileIndex(tile.0, tile.1) == t
  {
    (t / 360 - 90, t % 360 - 180)
  }

  /** Tile lat, lon comes strictly before tile lat', lon' in scan order. */
  predicate ScanBefore(lat: int, lon: int, lat': int, lon': int)
  {
    lat < lat' || (lat == lat' && lon < lon')
  }

  /** Byte offset of the t-th record. */
  function RecordOffset(t: nat): nat
  {
    HeaderSize + t * RecordSize
  }

  /** map_address: byte offset of the tile's record. */
  function RecordAddress(lat: int, lon: int): (a: nat)
    requires ValidTile(lat, lon)
    ensures HeaderSize <= a && a + RecordSize <= DataStart
  {
    HeaderSize + ((lat + 90) * 360 + (lon + 180)) * RecordSize
  }

  /** The record address is the t-th record slot, t being the tile's scan index. */
  lemma RecordAddressIsSlot(lat: int, lon: int)
    requires ValidTile(lat, lon)
    ensures RecordAddress(lat, lon) == RecordOffset(TileIndex(lat, lon))
  {
  }

  /** Every tile index names exactly one tile. */
  lemma TileIndexRoundTrip(lat: int, lon: int)
    requires ValidTile(lat, lon)
    ensures TileAt(TileIndex(lat, lon)) == (lat, lon)
  {
    var t := TileIndex(lat, lon);
    assert t == (lat + 90) * 360 + (lon + 180);
    assert t / 360 == lat + 90 && t % 360 == lon + 180;
  }

  /** Two tiles share a record address only if they are the same tile. */
  lemma RecordAddressInjective(lat: int, lon: int, lat': int, lon': int)
    requires ValidTile(lat, lon) && ValidTile(lat', lon')
    requires RecordAddress(lat, lon) == RecordAddress(lat', lon')
    ensures lat == lat' && lon == lon'
  {
    TileIndexRoundTrip(lat, lon);
    TileIndexRoundTrip(lat', lon');
  }

  /**
   * Record addresses increase strictly along the scan order and records do
   * not overlap: a tile before another in scan order has its whole record
   * before the other's.
   */
  lemma RecordAddressOrdered(lat: int, lon: int, lat': int, lon': int)
    requires ValidTile(lat, lon) && ValidTile(lat', lon')
    ensures ScanBefore(lat, lon, lat', lon') <==> RecordAddress(lat, lon) < RecordAddress(lat', lon')
    ensures ScanBefore(lat, lon, lat', lon') ==> RecordAddress(lat, lon) + RecordSize <= RecordAddress(lat', lon')
  {
    var t, t' := TileIndex(lat, lon), TileIndex(lat', lon');
    if ScanBefore(lat, lon, lat', lon') {
      assert t < t';
    } else if lat == lat' && lon == lon' {
      assert t == t';
    } else {
      assert t' < t;
    }
  }

  /** The packed value of an address record: a 32-bit field and a 24-bit field. */
  datatype Entry = Entry(address: nat, length: nat)

  /**
   * bit_pack(mapbuf, 0, 32, address) followed by
   * bit_pack(mapbuf, 32, 24, length) on a 7-byte record buffer.
   */
  function PackRecord(buf: seq<byte>, address: nat, length: nat): (r: seq<byte>)
    requires |buf| == RecordSize
    requires address < Pow2(32) && length < Pow2(24)
    ensures |r| == RecordSize
    ensures DecodeRecord(r) == Entry(address, length)
  {
    var first := BitPack(buf, 0, 32, address);
    var r := BitPack(first, 32, 24, length);
    PackRecordReads(buf, first, r, address, length);
    r
  }

  /** The two fields of a packed record read back as written. */
  lemma PackRecordReads(buf: seq<byte>, first: seq<byte>, r: seq<byte>, address: nat, length: nat)
    requires |buf| == RecordSize
    requires address < Pow2(32) && length < Pow2(24)
    requires first == BitPack(buf, 0, 32, address) && r == BitPack(first, 32, 24, length)
    ensures BitUnpack(r, 0, 32) == address && BitUnpack(r, 32, 24) == length
  {
    assert BitUnpack(r, 0, 32) == address by {
      assert forall q :: 0 <= q < 32 ==> GetBit(r, q) == GetBit(first, q);
      UnpackFrame(r, first, 0, 32);
      UnpackPack(buf, 0, 32, address);
    }
    assert BitUnpack(r, 32, 24) == length by {
      UnpackPack(first, 32, 24, length);
    }
  }

  /** The entry a 7-byte record holds. */
  function DecodeRecord(r: seq<byte>): Entry
    requires |r| == RecordSize
  {
    Entry(BitUnpack(r, 0, 32), BitUnpack(r, 32, 24))
  }

  /**
   * Packing both fields overwrites all 56 bits: the record does not depend on
   * what the buffer held before, and it is the only record with that entry.
   */
  lemma PackRecordUnique(buf: seq<byte>, r: seq<byte>, address: nat, length: nat)
    requires |buf| == RecordSize && |r| == RecordSize
    requires address < Pow2(32) && length < Pow2(24)
    requires DecodeRecord(r) == Entry(address, length)
    ensures PackRecord(buf, address, length) == r
  {
    var p := PackRecord(buf, address, length);
    UnpackDeterminesBits(p, r, 0, 32);
    UnpackDeterminesBits(p, r, 32, 24);
    BuffersFromBits(p, r);
  }

  /** The all-zero record, as written when the table is created, decodes as undefined. */
  lemma ZeroRecordIsUndefined()
    ensures DecodeRecord(Zeros(RecordSize)) == Entry(Undefined, 0)
  {
    UnpackZeros(RecordSize, 0, 32);
    UnpackZeros(RecordSize, 32, 24);
  }

  /** The record written for a sentinel: memset to zero, then the 32-bit field. */
  function SentinelRecord(value: nat): (r: seq<byte>)
    requires value <= AllWater
    ensures |r| == RecordSize
    ensures DecodeRecord(r) == Entry(value, 0)
  {
    var first := BitPack(Zeros(RecordSize), 0, 32, value);
    UnpackPack(Zeros(RecordSize), 0, 32, value);
    UnpackFrame(first, Zeros(RecordSize), 32, 24);
    UnpackZeros(RecordSize, 32, 24);
    first
  }

  /** The undefined sentinel record is seven zero bytes. */
  lemma UndefinedRecordIsZeros()
    ensures SentinelRecord(Undefined) == Zeros(RecordSize)
  {
    ZeroRecordIsUndefined();
    PackRecordUnique(Zeros(RecordSize), Zeros(RecordSize), Undefined, 0);
    PackRecordUnique(Zeros(RecordSize), SentinelRecord(Undefined), Undefined, 0);
  }

  /** The resolutions, in arc seconds, the program accepts. */
  predicate ValidResolution(resolution: int)
  {
    resolution == 1 || resolution == 3 || resolution == 10 || resolution == 30 || resolution == 60
  }

  /** The worker counts the program accepts. */
  predicate ValidThreads(threads: int)
  {
    threads == 4 || threads == 16
  }

  /** A checked command line: resolution and worker count. */
  datatype Config = Config(resolution: nat, threads: nat)

  /**
   * The argument checks: a resolution other than 1, 3, 10, 30 or 60, or a
   * thread count other than 4 or 16, ends the program with the usage message.
   */
  function CheckArguments(resolution: int, threads: int): (r: Option<Config>)
    ensures r.Some? <==> ValidResolution(resolution) && ValidThreads(threads)
    ensures r.Some? ==> r.value.resolution == resolution && r.value.threads == threads
  {
    if !ValidResolution(resolution) then None
    else if !ValidThreads(threads) then None
    else Some(Config(resolution, threads))
  }

  /** The thread count used when the command line gives none. */
  const DefaultThreads: int := 4

  /**
   * The arguments as the command line gives them: the resolution always,
   * the thread count only when there is a third argument.  Without one the
   * default of 4 threads is checked and used.
   */
  function ParseArguments(resolution: int, threadsArg: Option<int>): (r: Option<Config>)
    ensures threadsArg.None? ==> (r.Some? <==> ValidResolution(resolution))
    ensures threadsArg.None? && r.Some? ==> r.value.threads == 4
    ensures threadsArg.Some? ==> r == CheckArguments(resolution, threadsArg.value)
  {
    CheckArguments(resolution, if threadsArg.Some? then threadsArg.value else DefaultThreads)
  }

  /** point_count: cells along one side of a tile's grid. */
  function GridSide(resolution: int): (n: nat)
    requires ValidResolution(resolution)
    ensures n * resolution == 3600
    ensures 60 <= n <= 3600 && n % 4 == 0
  {
    3600 / resolution
  }

  /** The size of a bit block of `cells` bits: the least number of bytes holding them. */
  function PackedSize(cells: nat): (size: nat)
    ensures 8 * size >= cells
    ensures size > 0 ==> 8 * (size - 1) < cells
  {
    cells / 8 + (if cells % 8 != 0 then 1 else 0)
  }

  /** The number of cells of a tile's grid. */
  function CellCount(resolution: int): nat
    requires ValidResolution(resolution)
  {
    var n := GridSide(resolution);
    n * n
  }

  /** For every accepted resolution the grid fills whole bytes: no trailing bits. */
  lemma GridFillsWholeBytes(resolution: int)
    requires ValidResolution(resolution)
    ensures 8 * PackedSize(CellCount(resolution)) == CellCount(resolution)
  {
    var n := GridSide(resolution);
    var h := n / 4;
    assert n == 4 * h;
    assert n * n == 16 * (h * h);
  }
}

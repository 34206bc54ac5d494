/**
 * The builder's scan: after the header and the zeroed table, every tile in
 * scan order either gets a sentinel record (no shapefile) or has its rings
 * read, rasterised by the workers, packed, compressed, appended and
 * recorded.
 *
 * What the program gets from outside is a parameter: whether a shapefile
 * exists (fopen succeeding), the shapes shapelib reads from it, the SRTM
 * reference reading at the tile centre, the point-in-polygon test of the
 * tile's cells and zlib's compression.
 */
module Build {
  import opened BitStream
  import opened Options
  import opened Layout
  import opened TileName
  import opened Rings
  import opened Raster
  import opened Packing
  import opened Store

  /** The outside world, as the builder consults it. */
  datatype Inputs = Inputs(
    /** fopen(name, "rb") succeeds for the shapefile of that name in the SWBD directory. */
    fileExists: string -> bool,
    /** The shapes SHPReadObject returns, in order, for the shapefile of that name. */
    shapesOf: string -> seq<Shape>,
    /** read_srtm_mask_min_res at the centre of tile (lat, lon): 0 for water. */
    landRef: (int, int) -> int,
    /** inside_polygon2 at the cell centres of tile (lat, lon). */
    inside: (int, int) -> InsideTest,
    /** compress2 at level 9 with room enough; None when zlib reports an error. */
    compress: seq<byte> -> Option<seq<byte>>)

  /** Why the scan stopped early. */
  datatype Failure =
    | NoRingStarted    // a vertex reached before any ring: the source indexes its ring arrays at -1
    | CompressFailed   // compress2 returned an error: the source exits
    | AddressOverflow  // the file reached 2^31 bytes: ftell no longer fits int32_t, beyond this model

  datatype Outcome = Done | Failed(lat: int, lon: int, reason: Failure)

  /**
   * out_size: the room compress2 is given, in_size + 10% + 100.  It is
   * never less than the worst case zlib 1.2's compressBound allows for
   * size input bytes.
   */
  function OutCapacity(size: nat): (room: nat)
    ensures room >= size + size / 4096 + size / 16384 + size / 33554432 + 13
  {
    assert size / 16384 <= size / 4096 && size / 33554432 <= size / 4096;
    assert 409 * (size / 4096) <= size / 10;
    size + size / 10 + 100
  }

  /** The room compress2 is given for a tile's packed grid. */
  function BlockRoom(resolution: int): nat
    requires ValidResolution(resolution)
  {
    OutCapacity(PackedSize(CellCount(resolution)))
  }

  /** Every block compress2 can fit in its room also fits the 24-bit length field. */
  lemma CapacityFitsLengthField(resolution: int)
    requires ValidResolution(resolution)
    ensures BlockRoom(resolution) < Pow2(24)
  {
    var n := GridSide(resolution);
    GridFillsWholeBytes(resolution);
    assert n * n <= 3600 * n <= 3600 * 3600;
    assert PackedSize(n * n) <= 1620000;
    assert Pow2(24) == 16777216 by {
      PowersOfTwo();
    }
  }

  lemma PowersOfTwo()
    ensures Pow2(24) == 16777216 && Pow2(31) == 2147483648
  {
    assert Pow2(8) == 256;
    assert Pow2(16) == 65536;
    assert Pow2(24) == 16777216;
  }

  /** All shapes of a file have the usual part lists. */
  predicate AllWellFormed(shapes: seq<Shape>)
  {
    forall m :: 0 <= m < |shapes| ==> WellFormedParts(shapes[m])
  }

  /** What the in-memory half of a tile with a shapefile yields: its block, or why it stops. */
  datatype Encoding = Encoded(block: seq<byte>) | NotEncoded(reason: Failure)

  /** The packed grid of tile lat, lon rasterised from rings. */
  function TileBits(inp: Inputs, resolution: int, lat: int, lon: int, rings: seq<Ring>): (bits: seq<byte>)
    requires ValidResolution(resolution)
    ensures |bits| == PackedSize(CellCount(resolution))
  {
    PackedGrid(Grid(rings, inp.inside(lat, lon), GridSide(resolution)))
  }

  /** compress2 reports an error, or its result needs more than out_size bytes. */
  predicate CompressRejects(compressed: Option<seq<byte>>, resolution: int)
    requires ValidResolution(resolution)
  {
    compressed.None? || |compressed.value| > BlockRoom(resolution)
  }

  /**
   * The reference for a tile whose shapefile is dataset ds: its shapes are
   * split into rings, which fails when a vertex finds no ring; the rings are
   * rasterised and packed, and the compression fails when zlib reports an
   * error or needs more than out_size bytes.  A block always fits the room.
   */
  function Encode(inp: Inputs, resolution: int, lat: int, lon: int, ds: nat): (r: Encoding)
    requires ValidResolution(resolution) && ValidTile(lat, lon) && ds < TriedDatasets
    ensures r.Encoded? ==> |r.block| <= BlockRoom(resolution)
    ensures r.NotEncoded? ==> r.reason != AddressOverflow
  {
    match SplitOf(inp.shapesOf(ShapeFileName(lat, lon, ds)))
    case None => NotEncoded(NoRingStarted)
    case Some(rings) =>
      var compressed := inp.compress(TileBits(inp, resolution, lat, lon, rings));
      if CompressRejects(compressed, resolution) then NotEncoded(CompressFailed)
      else Encoded(compressed.value)
  }

  /**
   * The three ways a tile with a shapefile stops the scan, each tied to its
   * cause: no ring for a vertex, a compression that fails or overflows its
   * room, and a file already 2^31 bytes long before the block.
   */
  lemma EncodeFailures(inp: Inputs, resolution: int, lat: int, lon: int, ds: nat, size: nat)
    requires ValidResolution(resolution) && ValidTile(lat, lon) && ds < TriedDatasets
    ensures var shapes := inp.shapesOf(ShapeFileName(lat, lon, ds));
      (BlockFailure(Encode(inp, resolution, lat, lon, ds), size) == Some(NoRingStarted))
        == (exists m :: 0 <= m < |shapes| && VertexBeforeAnyRing(shapes, m))
    ensures var rings := SplitOf(inp.shapesOf(ShapeFileName(lat, lon, ds)));
      (BlockFailure(Encode(inp, resolution, lat, lon, ds), size) == Some(CompressFailed))
        == (rings.Some? && CompressRejects(inp.compress(TileBits(inp, resolution, lat, lon, rings.value)), resolution))
    ensures (BlockFailure(Encode(inp, resolution, lat, lon, ds), size) == Some(AddressOverflow))
        == (Encode(inp, resolution, lat, lon, ds).Encoded? && size >= Pow2(31))
  {
    SplitOfFails(inp.shapesOf(ShapeFileName(lat, lon, ds)));
  }

  /**
   * Why writing a block stops the scan, given what encoding yielded and the
   * file's length before the append; None when the block is written.
   */
  function BlockFailure(enc: Encoding, size: nat): (r: Option<Failure>)
    ensures r.None? <==> enc.Encoded? && size < Pow2(31)
  {
    if enc.NotEncoded? then Some(enc.reason)
    else if size >= Pow2(31) then Some(AddressOverflow)
    else None
  }

  /**
   * Why tile lat, lon stops the scan when the file holds size bytes before
   * it; None when it is written.  A tile without a shapefile never stops it.
   */
  function TileFailure(inp: Inputs, resolution: int, lat: int, lon: int, size: nat): (r: Option<Failure>)
    requires ValidResolution(resolution) && ValidTile(lat, lon)
    ensures FirstDataset(lat, lon, inp.fileExists).None? ==> r.None?
    ensures r == Some(AddressOverflow) ==> size >= Pow2(31)
  {
    match FirstDataset(lat, lon, inp.fileExists)
    case None => None
    case Some(ds) => BlockFailure(Encode(inp, resolution, lat, lon, ds), size)
  }

  /**
   * What tile t's record holds once the tile is processed: without a
   * shapefile, the sentinel for its latitude and reference reading; with
   * one, a block inside the file no longer than compress2's room, holding
   * what Encode yields, which for a file of well-formed shapes is the
   * compression of the packed rasterisation of its parts.
   */
  predicate TileWritten(bytes: seq<byte>, t: nat, inp: Inputs, resolution: int): (b: bool)
    requires |bytes| >= DataStart && t < TileCount && ValidResolution(resolution)
    ensures b ==> (IsSentinel(EntryOf(bytes, t)) <==> FirstDataset(TileAt(t).0, TileAt(t).1, inp.fileExists).None?)
  {
    var lat, lon := TileAt(t).0, TileAt(t).1;
    var e := EntryOf(bytes, t);
    var n := GridSide(resolution);
    match FirstDataset(lat, lon, inp.fileExists)
    case None => e == Entry(SentinelFor(lat, inp.landRef(lat, lon)), 0)
    case Some(ds) =>
      && BlockWithin(bytes, e)
      && e.length <= BlockRoom(resolution)
      && Encode(inp, resolution, lat, lon, ds) == Encoded(BlockBytes(bytes, e))
      && var shapes := inp.shapesOf(ShapeFileName(lat, lon, ds));
         AllWellFormed(shapes) ==>
           inp.compress(PackedGrid(Grid(PartRings(shapes), inp.inside(lat, lon), n))) == Some(BlockBytes(bytes, e))
  }

  /** Later writes that keep earlier records and earlier data keep what earlier tiles hold. */
  lemma TilesWrittenKept(bytes: seq<byte>, bytes': seq<byte>, done: nat, inp: Inputs, resolution: int)
    requires ValidResolution(resolution) && done <= TileCount
    requires DataStart <= |bytes| <= |bytes'| && bytes'[DataStart..|bytes|] == bytes[DataStart..]
    requires forall t :: 0 <= t < done ==> EntryOf(bytes', t) == EntryOf(bytes, t)
    requires forall t :: 0 <= t < done ==> TileWritten(bytes, t, inp, resolution)
    ensures forall t :: 0 <= t < done ==> TileWritten(bytes', t, inp, resolution)
  {
    forall t | 0 <= t < done
      ensures TileWritten(bytes', t, inp, resolution)
    {
      var e := EntryOf(bytes, t);
      assert EntryOf(bytes', t) == e;
      assert TileWritten(bytes, t, inp, resolution);
      if BlockWithin(bytes, e) {
        BlockBytesOfPrefix(bytes, bytes', e);
      }
    }
  }

  /**
   * A tile without a shapefile: undefined outside 57S..59N; inside, the
   * reference reading decides all water (0) or all land.
   */
  method WriteTileSentinel(f: OutputFile, inp: Inputs, lat: int, lon: int) returns (mapbuf: seq<byte>)
    requires ValidTile(lat, lon)
    requires StoreValid(f.bytes, TileIndex(lat, lon))
    modifies f
    ensures |mapbuf| == RecordSize
    ensures StoreValid(f.bytes, TileIndex(lat, lon) + 1)
    ensures EntryOf(f.bytes, TileIndex(lat, lon)) == Entry(SentinelFor(lat, inp.landRef(lat, lon)), 0)
    ensures f.bytes == Overwrite(old(f.bytes), RecordAddress(lat, lon), mapbuf)
    ensures Extends(old(f.bytes), f.bytes, TileIndex(lat, lon))
  {
    if lat < -57 || lat > 59 {
      mapbuf := WriteSentinel(f, lat, lon, Undefined);
    } else {
      var lnd := inp.landRef(lat, lon);
      if lnd == 0 {
        mapbuf := WriteSentinel(f, lat, lon, AllWater);
      } else {
        mapbuf := WriteSentinel(f, lat, lon, AllLand);
      }
    }
    RecordAddressIsSlot(lat, lon);
    SentinelKeepsValid(old(f.bytes), TileIndex(lat, lon), mapbuf);
    assert f.bytes == Overwrite(old(f.bytes), RecordOffset(TileIndex(lat, lon)), mapbuf) + [];
    KeptEntries(old(f.bytes), f.bytes, TileIndex(lat, lon), mapbuf, []);
  }

  /**
   * A tile with a shapefile: split its shapes into rings, run the workers,
   * pack the grid, compress it into out_size bytes of room, then append the
   * block and back-patch the record.  Nothing is written when it fails.
   */
  method WriteTileBlock(f: OutputFile, mapbuf: seq<byte>, inp: Inputs, resolution: int, threads: int,
                        lat: int, lon: int, ds: nat)
    returns (failure: Option<Failure>, mapbuf': seq<byte>)
    requires ValidResolution(resolution) && ValidThreads(threads) && ValidTile(lat, lon)
    requires ds < TriedDatasets && |mapbuf| == RecordSize
    requires StoreValid(f.bytes, TileIndex(lat, lon))
    modifies f
    ensures |mapbuf'| == RecordSize
    ensures var shapes := inp.shapesOf(ShapeFileName(lat, lon, ds));
      failure == Some(NoRingStarted) <==> exists m :: 0 <= m < |shapes| && VertexBeforeAnyRing(shapes, m)
    ensures failure == BlockFailure(Encode(inp, resolution, lat, lon, ds), old(|f.bytes|))
    ensures failure.Some? ==> f.bytes == old(f.bytes)
    ensures failure.None? ==> StoreValid(f.bytes, TileIndex(lat, lon) + 1)
    ensures failure.None? ==> var e := EntryOf(f.bytes, TileIndex(lat, lon));
      && e.address == old(|f.bytes|)
      && Encode(inp, resolution, lat, lon, ds) == Encoded(BlockBytes(f.bytes, e))
      && BlockWithin(f.bytes, e)
      && f.bytes == Overwrite(old(f.bytes), RecordAddress(lat, lon), mapbuf') + BlockBytes(f.bytes, e)
      && e.length <= BlockRoom(resolution)
      && var shapes := inp.shapesOf(ShapeFileName(lat, lon, ds));
         AllWellFormed(shapes) ==>
           inp.compress(PackedGrid(Grid(PartRings(shapes), inp.inside(lat, lon), GridSide(resolution))))
             == Some(BlockBytes(f.bytes, e))
    ensures failure.None? ==> Extends(old(f.bytes), f.bytes, TileIndex(lat, lon))
  {
    mapbuf' := mapbuf;
    var out;
    failure, out := EncodeTile(inp, resolution, threads, lat, lon, ds);
    if failure.Some? {
      return;
    }
    CapacityFitsLengthField(resolution);
    PowersOfTwo();
    if |f.bytes| >= Pow2(31) {
      return Some(AddressOverflow), mapbuf';
    }
    ghost var before := f.bytes;
    mapbuf' := WriteBlock(f, mapbuf', lat, lon, out);
    RecordAddressIsSlot(lat, lon);
    BlockKeepsValid(before, TileIndex(lat, lon), mapbuf', out);
    KeptEntries(before, f.bytes, TileIndex(lat, lon), mapbuf', out);
  }

  /**
   * The in-memory half of a tile with a shapefile: split its shapes into
   * rings, run the workers, pack the grid and compress it into out_size
   * bytes of room.
   */
  method EncodeTile(inp: Inputs, resolution: int, threads: int, lat: int, lon: int, ds: nat)
    returns (failure: Option<Failure>, out: seq<byte>)
    requires ValidResolution(resolution) && ValidThreads(threads) && ValidTile(lat, lon)
    requires ds < TriedDatasets
    ensures var shapes := inp.shapesOf(ShapeFileName(lat, lon, ds));
      failure == Some(NoRingStarted) <==> exists m :: 0 <= m < |shapes| && VertexBeforeAnyRing(shapes, m)
    ensures failure.Some? ==> failure.value != AddressOverflow
    ensures failure.None? ==> |out| <= BlockRoom(resolution)
    ensures Encode(inp, resolution, lat, lon, ds) == if failure.None? then Encoded(out) else NotEncoded(failure.value)
    ensures failure.None? ==> var shapes := inp.shapesOf(ShapeFileName(lat, lon, ds));
      AllWellFormed(shapes) ==>
        inp.compress(PackedGrid(Grid(PartRings(shapes), inp.inside(lat, lon), GridSide(resolution)))) == Some(out)
  {
    out := [];
    var name := ShapeFileName(lat, lon, ds);
    var shapes := inp.shapesOf(name);
    var rings, numPoly := SplitRings(shapes);
    if rings.None? {
      return Some(NoRingStarted), out;
    }
    var n := GridSide(resolution);
    var block, complete := RasteriseTile(resolution, rings.value, inp.inside(lat, lon), threads);
    var bits := PackBlock(block, n);
    assert bits == TileBits(inp, resolution, lat, lon, rings.value);
    var outSize := OutCapacity(|bits|);
    var compressed := inp.compress(bits);
    if compressed.None? || |compressed.value| > outSize {
      return Some(CompressFailed), out;
    }
    out := compressed.value;
    failure := None;
  }

  /**
   * The body of the tile loop: the dataset search, then the sentinel or the
   * block.  On success the file is valid one tile further, tile lat, lon
   * holds what TileWritten says, and every earlier record and block is kept.
   */
  method ProcessTile(f: OutputFile, mapbuf: seq<byte>, inp: Inputs, resolution: int, threads: int, lat: int, lon: int)
    returns (failure: Option<Failure>, mapbuf': seq<byte>)
    requires ValidResolution(resolution) && ValidThreads(threads) && ValidTile(lat, lon)
    requires |mapbuf| == RecordSize
    requires StoreValid(f.bytes, TileIndex(lat, lon))
    modifies f
    ensures |mapbuf'| == RecordSize
    ensures failure == TileFailure(inp, resolution, lat, lon, old(|f.bytes|))
    ensures failure.Some? ==> f.bytes == old(f.bytes) && FirstDataset(lat, lon, inp.fileExists).Some?
    ensures failure.None? ==> StoreValid(f.bytes, TileIndex(lat, lon) + 1)
    ensures failure.None? ==> TileWritten(f.bytes, TileIndex(lat, lon), inp, resolution)
    ensures failure.None? ==> Extends(old(f.bytes), f.bytes, TileIndex(lat, lon))
    ensures failure.None? && FirstDataset(lat, lon, inp.fileExists).None? ==>
      && IsSentinel(EntryOf(f.bytes, TileIndex(lat, lon)))
      && f.bytes == Overwrite(old(f.bytes), RecordAddress(lat, lon), mapbuf')
    ensures failure.None? && FirstDataset(lat, lon, inp.fileExists).Some? ==> var e := EntryOf(f.bytes, TileIndex(lat, lon));
      && e.address == old(|f.bytes|)
      && BlockWithin(f.bytes, e)
      && f.bytes == Overwrite(old(f.bytes), RecordAddress(lat, lon), mapbuf') + BlockBytes(f.bytes, e)
  {
    TileIndexRoundTrip(lat, lon);
    var found, ext := FindDataset(lat, lon, inp.fileExists);
    if !found {
      mapbuf' := WriteTileSentinel(f, inp, lat, lon);
      failure := None;
    } else {
      failure, mapbuf' := WriteTileBlock(f, mapbuf, inp, resolution, threads, lat, lon, ext);
    }
  }

  /**
   * bytes' continues bytes past tile t: the header, the data written so far
   * and every record but t's are as they were.
   */
  ghost predicate Extends(bytes: seq<byte>, bytes': seq<byte>, t: nat)
    requires |bytes| >= DataStart
  {
    && |bytes| <= |bytes'|
    && bytes'[DataStart..|bytes|] == bytes[DataStart..]
    && bytes'[..HeaderSize] == bytes[..HeaderSize]
    && forall t' :: 0 <= t' < TileCount && t' != t ==> EntryOf(bytes', t') == EntryOf(bytes, t')
  }

  /** A record patch plus an append keeps the header, the data so far and every other record. */
  lemma KeptEntries(bytes: seq<byte>, bytes': seq<byte>, t: nat, rec: seq<byte>, block: seq<byte>)
    requires |bytes| >= DataStart && t < TileCount && |rec| == RecordSize
    requires bytes' == Overwrite(bytes, RecordOffset(t), rec) + block
    ensures Extends(bytes, bytes', t)
  {
    var patched := Overwrite(bytes, RecordOffset(t), rec);
    RecordWriteFrame(bytes, t, rec);
    assert bytes'[DataStart..|bytes|] == patched[DataStart..];
    assert forall q :: 0 <= q < HeaderSize ==> bytes'[q] == patched[q] == bytes[q];
    forall t' | 0 <= t' < TileCount && t' != t
      ensures EntryOf(bytes', t') == EntryOf(bytes, t')
    {
      assert RecordBytes(bytes', t') == RecordBytes(patched, t');
    }
  }

  /**
   * The first done tiles have been scanned: the file is valid up to them,
   * each of them holds what the program writes for it, and their blocks lie
   * back to back after the table, in scan order, up to the end of the file.
   */
  ghost predicate Scanned(bytes: seq<byte>, done: nat, inp: Inputs, resolution: int)
    requires ValidResolution(resolution)
  {
    && StoreValid(bytes, done)
    && (forall t :: 0 <= t < done ==> TileWritten(bytes, t, inp, resolution))
    && Packed(bytes, done)
  }

  /** Processing the next tile extends the scanned prefix by that tile. */
  lemma ScanStep(bytes: seq<byte>, bytes': seq<byte>, t: nat, rec: seq<byte>, inp: Inputs, resolution: int)
    requires ValidResolution(resolution) && t < TileCount && |rec| == RecordSize
    requires Scanned(bytes, t, inp, resolution)
    requires StoreValid(bytes', t + 1) && TileWritten(bytes', t, inp, resolution)
    requires Extends(bytes, bytes', t)
    requires TileStep(bytes, bytes', t, rec)
    ensures Scanned(bytes', t + 1, inp, resolution)
  {
    TilesWrittenKept(bytes, bytes', t, inp, resolution);
    PackedStep(bytes, bytes', t, rec);
  }

  /** A tile without a shapefile, its sentinel patched in place, extends the scan by one tile. */
  lemma SentinelScanned(bytes: seq<byte>, bytes': seq<byte>, lat: int, lon: int, t: nat, rec: seq<byte>, inp: Inputs, resolution: int)
    returns (next: nat)
    requires ValidResolution(resolution) && ValidTile(lat, lon) && t == TileIndex(lat, lon) && |rec| == RecordSize
    requires Scanned(bytes, t, inp, resolution)
    requires StoreValid(bytes', t + 1) && TileWritten(bytes', t, inp, resolution) && Extends(bytes, bytes', t)
    requires IsSentinel(EntryOf(bytes', t)) && bytes' == Overwrite(bytes, RecordAddress(lat, lon), rec)
    ensures next == t + 1 && Scanned(bytes', next, inp, resolution)
    ensures TileStep(bytes, bytes', t, rec)
  {
    RecordAddressIsSlot(lat, lon);
    ScanStep(bytes, bytes', t, rec, inp, resolution);
    next := t + 1;
    ScannedAs(bytes', t + 1, next, inp, resolution);
  }

  /** A tile with a shapefile, its block appended at the old end of the file, extends the scan by one tile. */
  lemma BlockScanned(bytes: seq<byte>, bytes': seq<byte>, lat: int, lon: int, t: nat, rec: seq<byte>, inp: Inputs, resolution: int)
    returns (next: nat)
    requires ValidResolution(resolution) && ValidTile(lat, lon) && t == TileIndex(lat, lon) && |rec| == RecordSize
    requires Scanned(bytes, t, inp, resolution)
    requires StoreValid(bytes', t + 1) && TileWritten(bytes', t, inp, resolution) && Extends(bytes, bytes', t)
    requires var e := EntryOf(bytes', t);
      && e.address == |bytes|
      && BlockWithin(bytes', e)
      && bytes' == Overwrite(bytes, RecordAddress(lat, lon), rec) + BlockBytes(bytes', e)
    ensures next == t + 1 && Scanned(bytes', next, inp, resolution)
    ensures TileStep(bytes, bytes', t, rec)
  {
    RecordAddressIsSlot(lat, lon);
    ScanStep(bytes, bytes', t, rec, inp, resolution);
    next := t + 1;
    ScannedAs(bytes', t + 1, next, inp, resolution);
  }

  /** The scanned prefix does not depend on how its length is written. */
  lemma ScannedAs(bytes: seq<byte>, done: nat, done': nat, inp: Inputs, resolution: int)
    requires ValidResolution(resolution) && done == done' && Scanned(bytes, done, inp, resolution)
    ensures Scanned(bytes, done', inp, resolution)
  {
  }

  /** One tile of the scan, stated over the scanned prefix. */
  method ScanTile(f: OutputFile, mapbuf: seq<byte>, inp: Inputs, resolution: int, threads: int, lat: int, lon: int, ghost t: nat)
    returns (failure: Option<Failure>, mapbuf': seq<byte>, ghost next: nat)
    requires ValidResolution(resolution) && ValidThreads(threads) && ValidTile(lat, lon)
    requires |mapbuf| == RecordSize && t == TileIndex(lat, lon)
    requires Scanned(f.bytes, t, inp, resolution)
    modifies f
    ensures |mapbuf'| == RecordSize && next == t + 1
    ensures failure == TileFailure(inp, resolution, lat, lon, old(|f.bytes|))
    ensures failure.Some? ==> f.bytes == old(f.bytes) && FirstDataset(lat, lon, inp.fileExists).Some?
    ensures failure.Some? ==> Scanned(f.bytes, TileIndex(lat, lon), inp, resolution)
    ensures failure.None? ==> Scanned(f.bytes, next, inp, resolution)
    ensures |f.bytes| >= DataStart && f.bytes[..HeaderSize] == old(f.bytes)[..HeaderSize]
    ensures failure.None? ==> TileStep(old(f.bytes), f.bytes, t, mapbuf')
  {
    failure, mapbuf' := ProcessTile(f, mapbuf, inp, resolution, threads, lat, lon);
    if failure.None? {
      if FirstDataset(lat, lon, inp.fileExists).None? {
        next := SentinelScanned(old(f.bytes), f.bytes, lat, lon, t, mapbuf', inp, resolution);
      } else {
        next := BlockScanned(old(f.bytes), f.bytes, lat, lon, t, mapbuf', inp, resolution);
      }
    } else {
      next := t + 1;
      ScannedAs(old(f.bytes), t, TileIndex(lat, lon), inp, resolution);
    }
  }

  /**
   * One row of the scan: the tiles of latitude lat from 180W eastward.  On
   * success the file is valid and written up to the start of the next row;
   * when a tile fails, the scan stops at it with every earlier tile written.
   * The header is never touched.
   */
  method ScanRow(f: OutputFile, mapbuf: seq<byte>, inp: Inputs, resolution: int, threads: int, lat: int, ghost start: nat)
    returns (failure: Option<Failure>, lon: int, mapbuf': seq<byte>, ghost next: nat)
    requires ValidResolution(resolution) && ValidThreads(threads) && -90 <= lat < 90
    requires |mapbuf| == RecordSize && start == (lat + 90) * 360
    requires Scanned(f.bytes, start, inp, resolution)
    modifies f
    ensures |mapbuf'| == RecordSize
    ensures |f.bytes| >= DataStart && f.bytes[..HeaderSize] == old(f.bytes)[..HeaderSize]
    ensures failure.None? ==> next == start + 360 && Scanned(f.bytes, next, inp, resolution)
    ensures failure.Some? ==> ValidTile(lat, lon) && FirstDataset(lat, lon, inp.fileExists).Some?
    ensures failure.Some? ==> Scanned(f.bytes, TileIndex(lat, lon), inp, resolution)
    ensures failure.Some? ==> failure == TileFailure(inp, resolution, lat, lon, |f.bytes|)
  {
    mapbuf' := mapbuf;
    ghost var headerBytes := f.bytes[..HeaderSize];
    next := start;
    lon := -180;
    while lon < 180
      invariant -180 <= lon <= 180 && next == start + (lon + 180)
      invariant |mapbuf'| == RecordSize
      invariant Scanned(f.bytes, next, inp, resolution)
      invariant |f.bytes| >= DataStart && f.bytes[..HeaderSize] == headerBytes
    {
      failure, mapbuf', next := ScanTile(f, mapbuf', inp, resolution, threads, lat, lon, next);
      if failure.Some? {
        return;
      }
      lon := lon + 1;
    }
    failure := None;
  }

  /**
   * The whole program after the argument checks: header and zeroed table,
   * then every tile from 90S 180W, west to east and south to north.  When
   * it completes, every record of the table is a sentinel or a block inside
   * the file, blocks appear in scan order without overlap, every tile holds
   * what TileWritten says, and the header is in place.  When it stops, it
   * stops at a tile with a shapefile and every tile before it is written.
   */
  method BuildStore(f: OutputFile, header: seq<byte>, inp: Inputs, resolution: int, threads: int) returns (outcome: Outcome)
    requires ValidResolution(resolution) && ValidThreads(threads)
    requires f.bytes == [] && f.pos == 0
    requires |header| <= HeaderSize
    modifies f
    ensures |f.bytes| >= DataStart && f.bytes[..HeaderSize] == header + Zeros(HeaderSize - |header|)
    ensures outcome.Done? ==> Scanned(f.bytes, TileCount, inp, resolution)
    ensures outcome.Done? ==> f.bytes == f.bytes[..DataStart] + Blocks(f.bytes, TileCount)
    ensures outcome.Failed? ==> ValidTile(outcome.lat, outcome.lon)
    ensures outcome.Failed? ==> FirstDataset(outcome.lat, outcome.lon, inp.fileExists).Some?
    ensures outcome.Failed? ==> Scanned(f.bytes, TileIndex(outcome.lat, outcome.lon), inp, resolution)
    ensures outcome.Failed? ==> TileFailure(inp, resolution, outcome.lat, outcome.lon, |f.bytes|) == Some(outcome.reason)
  {
    var mapbuf, _ := CreateStore(f, header);
    ghost var headerBytes := f.bytes[..HeaderSize];
    assert headerBytes == header + Zeros(HeaderSize - |header|);
    var lat := -90;
    ghost var done: nat := 0;
    while lat < 90
      invariant -90 <= lat <= 90 && done == (lat + 90) * 360
      invariant |mapbuf| == RecordSize
      invariant Scanned(f.bytes, done, inp, resolution)
      invariant |f.bytes| >= DataStart && f.bytes[..HeaderSize] == headerBytes
    {
      var failure, lon;
      failure, lon, mapbuf, done := ScanRow(f, mapbuf, inp, resolution, threads, lat, done);
      if failure.Some? {
        return Failed(lat, lon, failure.value);
      }
      lat := lat + 1;
    }
    ScannedAs(f.bytes, done, TileCount, inp, resolution);
    PackedData(f.bytes, TileCount);
    outcome := Done;
  }
}

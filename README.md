# swbd_mask: a Dafny model of the land-mask builder

`swbd_mask` builds a global land/water mask file (`.clm`) from SRTM Water
Body Data (SWBD) shapefiles. The file has four parts:

- a 16384-byte ASCII header;
- 64800 seven-byte address records, one per one-degree tile, from 90S 180W
  west to east and then south to north;
- the tiles' compressed bit blocks, appended one after another;
- in each block, one bit per cell of the tile's n x n grid (n = 3600 /
  resolution): 1 for land, 0 for water.

For each tile the builder first looks for a shapefile.

- Without one, the tile gets a sentinel record:
  - 0 (undefined) outside 57S..59N;
  - otherwise 2 (all water) or 1 (all land), as the SRTM reference mask
    reads at the tile centre.
- With one, the builder:
  1. splits the shapes' vertices into rings;
  2. lets 4 or 16 workers fill a byte grid, each worker owning one square
     sub-block and classifying each cell by the parity of the rings that
     contain it;
  3. packs the grid into bits and compresses it;
  4. appends the block and back-patches the tile's record with the block's
     address and length.

The model covers:

- the record layout;
- the shapefile naming and suffix search;
- the sentinel rule;
- the ring splitting;
- the worker partition and the parity rule;
- the bit packing;
- the file writes.

It is split into these modules:

- `BitStream` (`bits.dfy`): `bit_pack`/`bit_unpack` as functions on byte
  sequences, most significant bit first.
- `Layout` (`layout.dfy`): constants, the record address, record
  packing, argument checks, grid side and packed size.
- `TileName` (`tilename.dfy`): shapefile names, the dataset-suffix
  search and the sentinel decision.
- `Rings` (`rings.dfy`): the ring-splitting loops.
- `Raster` (`raster.dfy`): `maskThread::run`, a class-free imperative
  model over a shared `array<byte>` grid and an `array<bool>` of
  completion flags. The workers run as sequential calls over
  `pass = 0..threads-1`.
- `Packing` (`packing.dfy`): the byte-grid to bit-block loop and the
  reverse reading.
- `Store` (`store.dfy`): the output file as a class `OutputFile`, with a
  byte sequence and a position that `Seek`, `SeekEnd`, `Tell` and `Write`
  change as `fseek`, `ftell` and `fwrite` do. The module also holds
  header and table creation, the sentinel write and the block
  append-and-patch.
- `Build` (`build.dfy`): the per-tile body and the scan over all 64800
  tiles.

The outside world enters as parameters, gathered in `Build.Inputs`:

- whether a shapefile exists;
- the shapes shapelib reads from it;
- the reference reading at a tile centre;
- the point-in-polygon test at a cell centre, `inside(ring, i, j)`;
- zlib's `compress2`.

Two points about the order and size of the writes:

- The code writes the record before the block (main.cpp:580-592);
  `Store.WriteOrderIrrelevant` shows that writing the block first gives the
  same file.
- The code never checks that the compressed length fits the 24-bit
  field. It does not need to: compress2 gets at most `in_size + 10% + 100`
  bytes of room, and `Build.CapacityFitsLengthField` shows that this is
  below 2^24 for every accepted resolution.

## Model

| member | source | states |
|---|---|---|
| BitStream.WithBit | main.cpp:548-552 | setting one bit of a byte sets exactly that bit and keeps the other seven |
| BitStream.SetBit | main.cpp:548-552 | a one-bit write changes exactly that stream bit and keeps the buffer length |
| BitStream.BitPack | main.cpp:582-583 | bit_pack of a w-bit field keeps the length and every bit outside the field |
| BitStream.BitUnpack | main.cpp:627-630 | bit_unpack of a w-bit field is below 2^w |
| BitStream.UnpackPack | main.cpp:582-583 | reading back a field just packed gives the value packed |
| BitStream.UnpackFrame | main.cpp:582-583 | a field's value depends only on the bits inside it, so packing the second field keeps the first |
| BitStream.UnpackDeterminesBits | main.cpp:582-583 | two fields with the same value agree bit for bit |
| BitStream.BuffersFromBits | main.cpp:580-585 | buffers of one length that agree on every bit are equal |
| BitStream.UnpackZeros | main.cpp:304-307 | any field of a memset-zero buffer reads 0 |
| Layout.TileIndex | main.cpp:254 | the scan index (lat+90)*360 + (lon+180) of a valid tile is below 64800 |
| Layout.TileAt | main.cpp:77-86 | every scan index names a valid tile with that index |
| Layout.RecordAddress | main.cpp:254 | map_address lies inside the table: at least 16384 and its 7 bytes end by 16384 + 64800*7 |
| Layout.TileIndexRoundTrip | main.cpp:85-86 | the scan index identifies the tile |
| Layout.RecordAddressInjective | main.cpp:254 | two tiles share a record address only if they are the same tile |
| Layout.RecordAddressOrdered | main.cpp:254 | record addresses increase strictly in scan order (both directions), and records never overlap |
| Layout.PackRecord | main.cpp:582-583 | the two bit_pack calls leave a record that decodes to (address, length) |
| Layout.PackRecordReads | main.cpp:582-583 | the address field of the packed record reads back as the address and the length field as the length |
| Layout.PackRecordUnique | main.cpp:580-585 | the record does not depend on what mapbuf held before, and is the only record with that entry |
| Layout.ZeroRecordIsUndefined | main.cpp:214-225 | a zero record decodes as undefined (0) with length 0 |
| Layout.SentinelRecord | main.cpp:320-334 | memset then bit_pack of 1 or 2 gives a record decoding to (value, 0) |
| Layout.UndefinedRecordIsZeros | main.cpp:302-307 | the undefined record is seven zero bytes |
| Layout.CheckArguments | main.cpp:172-180 | the arguments are accepted exactly for resolution in {1,3,10,30,60} and thread count in {4,16} |
| Layout.ParseArguments | main.cpp:139-180 | without a thread argument the default of 4 threads is used, so only the resolution is checked; with one, both are checked |
| Layout.GridSide | main.cpp:491 | point_count divides 3600 exactly, lies in 60..3600 and is a multiple of 4 |
| Layout.PackedSize | main.cpp:528-529 | size is the least number of bytes holding the given number of bits |
| Layout.GridFillsWholeBytes | main.cpp:528-529 | for every accepted resolution n*n is a multiple of 8, so no bit of the block is unused |
| TileName.ZeroPadded | main.cpp:281 | %03d / %02d produce exactly the given number of decimal digits |
| TileName.ZeroPaddedValue | main.cpp:281 | the zero-padded digits read back as the value |
| TileName.LatHemisphere | main.cpp:239-246 | lathem is 's' exactly south of the equator and 'n' otherwise |
| TileName.LonHemisphere | main.cpp:257-264 | lonhem is 'w' exactly west of Greenwich and 'e' otherwise |
| TileName.IndexOf | main.cpp:141 | the first position of a character in the suffix list, or none when it is absent |
| TileName.SuffixIndex | main.cpp:141 | the suffixes are distinct: each is found at its own position in the list |
| TileName.IndexOfIncreasing | main.cpp:141 | in a strictly increasing list every element is first found at its own position |
| TileName.FirstIsLeast | main.cpp:141 | the head of a strictly increasing list is below every later element |
| TileName.ShapeFileName | main.cpp:281 | the shapefile name is 12 characters: the longitude hemisphere, 3 digits, the latitude hemisphere, 2 digits, the dataset suffix, then ".shp" |
| TileName.ShapeFileNameRoundTrip | main.cpp:239-281 | the name reads back as its tile and suffix |
| TileName.ShapeFileNameInjective | main.cpp:281 | distinct tiles or suffixes never share a name |
| TileName.FirstDatasetFromIsFirst | main.cpp:279-293 | the chosen suffix exists exactly when some tried file exists, is one of the first six (never 'x'), has an existing file, and no earlier suffix does |
| TileName.FirstDatasetFrom | main.cpp:279-293 | the suffix chosen from ds on, if any, is one of the tried ones at or after ds |
| TileName.FindDataset | main.cpp:270-293 | the search loop finds a file exactly when one of the six exists, picks the first in order, and leaves file_ext 0 otherwise |
| TileName.SentinelFor | main.cpp:298-336 | undefined exactly outside 57S..59N; inside, water exactly when the reference reads 0, land otherwise |
| TileName.InReferenceBand | main.cpp:302 | a tile lies in the band of the reference mask exactly when the undefined test lat < -57 or lat > 59 fails |
| TileName.OutsideBandRecordIsZero | main.cpp:302-307 | outside the band the record written is seven zero bytes |
| TileName.InsideBandRecord | main.cpp:308-336 | inside the band the record holds 2 for water or 1 for land, with a zero length field |
| Rings.ShapeRingsFlatten | main.cpp:376-466 | the parts of a well-formed shape, laid end to end, are its vertices up to the next part start |
| Rings.PartRingsFlatten | main.cpp:374-478 | splitting well-formed shapes into parts keeps every vertex read, once and in order |
| Rings.FlattenAppend | main.cpp:459-465 | concatenating ring lists concatenates their vertices |
| Rings.PartRingsCount | main.cpp:397-401 | a well-formed file gives one ring per part of each shape read |
| Rings.AppendToLast | main.cpp:459-465 | appending a vertex to the current ring keeps the other rings and adds the vertex at the end of the vertex order |
| Rings.PartialRingsFirst | main.cpp:383 | vertex 0 of a shape with parts opens a new ring |
| Rings.PartialRingsExtend | main.cpp:442-465 | a vertex that is not a part start extends the current ring |
| Rings.PartialRingsNewPart | main.cpp:388-392 | a vertex at the next part start closes the current ring and opens the next |
| Rings.PartialRingsComplete | main.cpp:376-466 | after the last vertex the rings built are exactly the shape's parts |
| Rings.SplitRings | main.cpp:367-478 | the result is the reference reading SplitOf; failure exactly when a vertex arrives before any ring exists; on success every vertex is in exactly one ring in order, no ring is empty, num_poly is the number of rings, and well-formed shapes give exactly their parts |
| Rings.ReadShape | main.cpp:369-476 | one pass of the shape loop fails exactly when the shape meets a missing ring, and otherwise keeps the loop state one shape further and the reference reading from here unchanged |
| Rings.SplitShape | main.cpp:374-467 | one shape's vertices are appended to the rings, as the reference reading VerticesFrom says; fails exactly when no ring exists and the shape has no parts; well-formed shapes add exactly their parts |
| Rings.CheckPartStart | main.cpp:378-436 | a ring opens at vertex 0 of a shape with parts and at the next part start, which also advances the part counter; opening a ring keeps every vertex read |
| Rings.PartialRingsStep | main.cpp:378-465 | for a well-formed shape, the part-start check and the append keep the rings equal to the parts read up to the next vertex |
| Rings.ReadVertex | main.cpp:378-465 | one pass of the vertex loop fails exactly at vertex 0 of a part-less shape with no ring started, and otherwise keeps the loop state and the reference reading one vertex further |
| Rings.VertexLoopDone | main.cpp:374-466 | after the last vertex the rings hold the earlier vertices then the shape's, none is empty, and a well-formed shape added exactly its parts |
| Rings.VerticesFromNonEmpty | main.cpp:378-465 | once a ring exists, every later vertex of the shape has a ring to go to and the rings stay non-empty |
| Rings.VerticesFromFails | main.cpp:374-465 | reading a shape fails exactly when no ring exists yet and the shape has no parts |
| Rings.ShapesFromFails | main.cpp:367-478 | reading the shapes from one on fails exactly when a later shape meets a missing ring |
| Rings.SplitOfFails | main.cpp:367-478 | the reference reading of a file fails exactly when some shape's first vertex arrives before any ring exists |
| Raster.InsideCount | maskThread.cpp:155-163 | the count never exceeds the number of rings |
| Raster.InsideCountIsCardinality | maskThread.cpp:155-163 | inside_count is the number of rings whose containment test holds at the cell |
| Raster.CountInside | maskThread.cpp:155-163 | the ring loop computes that count |
| Raster.CellValueParity | maskThread.cpp:155-175 | the flag written is water exactly when inside_count is odd and land exactly when it is even |
| Raster.CellValueAddRing | maskThread.cpp:168-175 | one more ring flips the cell when it contains it and keeps it otherwise |
| Raster.CellValue | maskThread.cpp:168-175 | the flag written for a cell is water (0) or land (1) |
| Raster.Grid | main.cpp:491-493 | the tile grid has n*n cells |
| Raster.BlockCount | maskThread.cpp:98 | block_count squared is the thread count (2 for 4, 4 for 16) |
| Raster.PassSide | maskThread.cpp:99 | pass_point_count times block_count is exactly point_count |
| Raster.StartX | maskThread.cpp:101 | start_x plus pass_point_count never passes the grid's last column |
| Raster.StartY | maskThread.cpp:102 | for a worker below the thread count, start_y plus pass_point_count never passes the grid's last row |
| Raster.InSquare | maskThread.cpp:129-148 | a cell a worker's loops visit lies inside the n x n grid |
| Raster.DivInterval | maskThread.cpp:101-102 | a row or column lies in the q-th sub-block band exactly when its quotient by the side is q |
| Raster.BandOf | maskThread.cpp:101-130 | a row or column below side*block_count lies in band x/side, one of the block_count bands |
| Raster.PassOfBand | maskThread.cpp:100-101 | worker row*block_count + col has start_y band row and start_x band col, and is below the thread count |
| Raster.Owner | maskThread.cpp:101-130 | every cell of the grid lies in the sub-block of some worker below the thread count |
| Raster.SquaresPartitionGrid | maskThread.cpp:101-148 | a cell lies in worker pass's sub-block exactly when pass is its owner: the sub-blocks cover the grid with no gaps or overlaps |
| Raster.SquareBounds | maskThread.cpp:101-130 | every sub-block ends within the grid |
| Raster.SquareInsideGrid | maskThread.cpp:139-170 | every cell a worker writes is in the grid, at an index below n*n |
| Raster.CellIndex | maskThread.cpp:170 | i*point_count + j is below n*n and gives back row i and column j |
| Raster.RunRow | maskThread.cpp:148-176 | one row of the sub-block gets its flags; every other cell is unchanged |
| Raster.RunPass | maskThread.cpp:75-192 | the grid after the worker is the grid before with exactly its sub-block filled with parity flags; complete[pass] is raised and no other flag changes |
| Raster.RunRows | maskThread.cpp:139-176 | the latitude loop fills exactly the rectangle [start_y, end_y) x [start_x, end_x) with parity flags and keeps every other cell |
| Raster.PassStep | main.cpp:514-517 | running worker pass on the grid that workers 0..pass-1 filled gives the grid workers 0..pass filled |
| Raster.PartialGridEnds | main.cpp:491-525 | before any worker the grid is calloc's zeros; after all of them it is the whole tile grid |
| Raster.RasteriseTile | main.cpp:491-525 | after all workers the grid holds every cell's flag, whatever the thread count, and every completion flag is raised |
| Packing.PackedByte | main.cpp:541-554 | each bit of a packed byte is its cell's bit; bits not yet packed are clear |
| Packing.PackedGrid | main.cpp:528-554 | the bit block has ceil(n*n/8) bytes; bit pos is set exactly when cell pos is non-zero; trailing bits are zero |
| Packing.BitPackOne | main.cpp:548-552 | bit_pack of width 1 on the bit_block array |
| Packing.PackBlock | main.cpp:528-554 | the calloc-then-bit_pack loop yields exactly that bit block |
| Packing.UnpackGrid | main.cpp:627-630 | reading back gives one 0/1 byte per cell, 1 exactly where the bit is set |
| Packing.UnpackPackedGrid | main.cpp:627-630 | unpacking the bit block gives every cell back as 1 if non-zero and 0 otherwise |
| Packing.UnpackPackedFlags | main.cpp:627-630 | a grid of 0/1 flags survives packing and unpacking unchanged |
| Packing.RasterisedTileRoundTrip | main.cpp:541-554 | a rasterised tile's bit block unpacks to exactly the tile grid |
| Store.Overwrite | main.cpp:223 | fwrite at a position puts the data there, keeps every other byte, and grows the file when it writes past the end |
| Store.OverwriteAtEnd | main.cpp:591-592 | writing at the end of the file appends |
| Store.OutputFile.constructor | main.cpp:187 | the opened file is empty, positioned at 0 |
| Store.OutputFile.Seek | main.cpp:305 | fseek SEEK_SET moves the position only |
| Store.OutputFile.SeekEnd | main.cpp:580 | fseek SEEK_END moves the position to the file length |
| Store.OutputFile.Tell | main.cpp:581 | ftell reports the position |
| Store.OutputFile.Write | main.cpp:306 | fwrite writes at the position and moves it past the data |
| Store.RecordBytes | main.cpp:79-83 | a record is 7 bytes |
| Store.StoreValid | main.cpp:214-592 | in a valid file the records of tiles not yet reached still read as undefined with length 0 |
| Store.ValidRecordsInFile | main.cpp:79-83 | in a valid file every record is a sentinel or a block inside the file past the table |
| Store.RecordWriteFrame | main.cpp:584-585 | a record write keeps the file length, every other record and every data byte |
| Store.SentinelKeepsValid | main.cpp:298-336 | a sentinel write keeps the file valid one tile further and changes nothing else |
| Store.BlockKeepsValid | main.cpp:580-592 | record plus appended block keep the file valid one tile further; the record points exactly at the block; blocks stay ordered and non-overlapping; nothing else changes |
| Store.ValidAfterAppend | main.cpp:578-592 | a file grown by one block that tile t's record points at exactly, other records unchanged, is valid with t done |
| Store.RecordBytesOfAppend | main.cpp:591-592 | appending to the file does not change the table |
| Store.BlockBytesOfPrefix | main.cpp:591-592 | a block already in the file reads the same after later appends |
| Store.DataEndGrows | main.cpp:578-592 | the data written for the first k tiles ends after the table and never after that of a longer prefix of the scan |
| Store.SlotBounds | main.cpp:578-592 | tile t's slot of data starts after the table, and it ends where the data of any longer prefix ends or before |
| Store.PackedSlot | main.cpp:578-592 | in a file whose blocks lie back to back, the bytes of tile t's slot are exactly tile t's block, and nothing for a sentinel |
| Store.SlotAppended | main.cpp:578-592 | one tile step grows the file by exactly that tile's block, and a block lands at the old end of the file |
| Store.DataEndKept | main.cpp:578-592 | a longer file that keeps the earlier records, each a sentinel or a block already in the file, keeps where their data ends |
| Store.InPlaceKept | main.cpp:578-592 | such a longer file also keeps every earlier block at the offset where it was written |
| Store.PackedStep | main.cpp:298-592 | a sentinel patched in place, or a record patched and its block appended, keeps the blocks back to back and ending the file, one tile further |
| Store.PackedPrefix | main.cpp:237-592 | in a packed file the bytes from the end of the table to the end of the first k tiles' data are those tiles' blocks, in scan order |
| Store.PackedData | main.cpp:237-659 | in a packed file everything after the table is the blocks of the tiles done, back to back in scan order, with nothing else |
| Store.CreateStore | main.cpp:194-225 | header, zero padding to 16384, then 64800 zero records; the position at which tile (lat, lon)'s record is written is its record address map_address; position at the data start |
| Store.PadHeader | main.cpp:194-210 | the header text followed by zeros up to byte 16384, position at 16384 |
| Store.WriteZeroTable | main.cpp:215-225 | 64800 zero records appended in scan order, the t-th written at the start position plus 7t |
| Store.CreatedTableIsZero | main.cpp:214-225 | after creation every record is undefined |
| Store.WriteSentinel | main.cpp:298-336 | the sentinel record is written at the tile's record address |
| Store.WriteBlock | main.cpp:578-592 | the record holds (file length at append time, block length), is written at the tile's record address, and the block is written exactly at that address |
| Store.WriteOrderIrrelevant | main.cpp:578-592 | patching the record before or after appending the block gives the same file |
| Build.CapacityFitsLengthField | main.cpp:559-583 | any block that fits compress2's room fits the 24-bit length field |
| Build.OutCapacity | main.cpp:560 | out_size is never below zlib 1.2's compressBound for in_size bytes |
| Build.TileBits | main.cpp:491-554 | the packed grid of a tile has PackedSize(n*n) bytes, whatever its rings |
| Build.Encode | main.cpp:338-573 | the in-memory encoding of a tile: a block never longer than compress2's room, or a failure that is never an address overflow |
| Build.EncodeFailures | main.cpp:338-592 | a tile with a shapefile fails with NoRingStarted exactly when a vertex arrives before any ring, with CompressFailed exactly when its rings exist and compress2 errs or overflows its room, and with AddressOverflow exactly when it encodes and the file already has 2^31 bytes |
| Build.BlockFailure | main.cpp:560-583 | writing a block succeeds exactly when encoding succeeded and the file is below 2^31 bytes |
| Build.TileFailure | main.cpp:279-592 | a tile without a shapefile never fails; an address overflow needs a file of at least 2^31 bytes |
| Build.TilesWrittenKept | main.cpp:237-659 | processing later tiles keeps what earlier tiles' records and blocks hold |
| Build.TileWritten | main.cpp:298-592 | a processed tile's record is a sentinel exactly when the tile has no shapefile |
| Build.WriteTileSentinel | main.cpp:298-337 | a tile without a shapefile gets the sentinel for its latitude and reference reading, and the header, the data and every other record are kept |
| Build.WriteTileBlock | main.cpp:338-656 | fails exactly as BlockFailure says for the tile's encoding and the old file length (NoRingStarted exactly on a ring-less vertex), and writes nothing then; otherwise the file is the old file with the tile's record patched, followed by its block: the tile's encoding, at the old file end, no longer than compress2's room, and for well-formed shapes the compression of the packed rasterised parts |
| Build.EncodeTile | main.cpp:338-573 | splitting, rasterising, packing and compressing yield exactly Encode: the block, or NoRingStarted exactly on a ring-less vertex and CompressFailed exactly on a compression error or overflow; for well-formed shapes the block is the compression of the packed rasterised parts |
| Build.ProcessTile | main.cpp:254-656 | the loop body fails exactly as TileFailure says, only for a tile with a shapefile, and writes nothing then; otherwise the file stays valid one tile further and the tile holds its sentinel or its encoding. Without a shapefile the new file is the old one with the sentinel record patched in place; with one it is the old file with the record patched, followed by the block at the old end. The header, every other record and earlier data are kept |
| Build.ScanStep | main.cpp:250-656 | processing tile t after tiles 0..t-1 leaves tiles 0..t all written, with their blocks back to back after the table, in scan order, ending the file |
| Build.SentinelScanned | main.cpp:298-337 | a tile without a shapefile, its sentinel record patched in place, extends the scanned prefix by that tile |
| Build.BlockScanned | main.cpp:578-592 | a tile whose record is patched and whose block is appended at the old end extends the scanned prefix by that tile |
| Build.ScanTile | main.cpp:250-656 | one tile of the scan extends the written prefix by that tile, by a sentinel patched in place or a record patched plus a block appended at the old end, or fails as TileFailure says, writing nothing |
| Build.ScanRow | main.cpp:250-656 | the longitude loop writes every tile of the row, or stops at a tile whose TileFailure is the failure, with every earlier tile written; the blocks written lie back to back after the table in scan order, and the header is never touched |
| Build.KeptEntries | main.cpp:580-592 | a record patch plus an append keeps the header, the earlier data and every other record |
| Build.BuildStore | main.cpp:194-659 | when the scan completes every tile holds its sentinel or its encoding, the table is valid, and the file is the header and table followed by every tile's block, back to back in scan order, with nothing else; when it stops, it stops at a tile whose TileFailure (for the file length reached) is the reason, with every earlier tile written |

## Left out

- Threads: the Qt thread machinery is not modelled. That covers `maskThread::mask`, `start`/`isRunning`, the mutex hand-off and `wait` (maskThread.cpp:53-91, main.cpp:514-525). The workers run one after another. Their sub-blocks are disjoint (`Raster.SquaresPartitionGrid`), so the grid comes out the same.
- Point-in-polygon: `inside_polygon2` and the double cell-centre coordinates `sw_lat + (i + 0.5) / n` are replaced by the parameter `inside(ring, i, j)`. They are floating-point code in a library that is not shown.
- `block_count`: the model states it directly as 2 or 4 instead of computing `NINT(sqrt(threads))`.
- Output not modelled: the progress percentages, the block counters and averages, the debug print for tile 10N 124E, and the usage and error messages.
- Compression: zlib's `compress2` is the parameter `Inputs.compress`. The room it gets, `in_size + in_size * 0.10 + 100` computed in double, is modelled as `size + size / 10 + 100`. The two agree for the five packed sizes of the accepted resolutions (450, 1800, 16200, 180000, 1620000 bytes).
- External libraries and the OS: shapelib (`SHPOpen`, `SHPGetInfo`, `SHPReadObject`), `read_srtm_mask_min_res`, `check_srtm_mask`, `getenv` and `fopen` probing become the `Inputs` parameters, or are not modelled.
- The `ABE_DATA` directory prefix and the path separator in file names are left out. Shapefile names are modelled relative to the SWBD directory.
- Header text: the version, zlib version, creation date and resolution lines are the parameter `header`. `Store.CreateStore` requires it to be at most 16384 bytes, which holds for the short text the program prints.
- The bit order inside a byte used by nvutility's `bit_pack`/`bit_unpack` is assumed most significant bit first; that library is not part of this model.
- Allocation failures (`calloc`/`realloc` returning NULL, each ending the program) are not modelled.
- Rings.SplitOf: for shapes whose part lists are not well formed the rings are given by the reference functions `VerticesFrom` and `ShapesFrom`, which follow the loops vertex by vertex. A closed formula, `PartRings`, exists only for well-formed part lists.
- Build.BuildStore: a file reaching 2^31 bytes ends the scan with `AddressOverflow`. The source would truncate `ftell`'s result into `int32_t block_address`, and what follows from that is not modelled.
- Build.BuildStore: a shapefile whose first shape read has at least two vertices and no parts ends the scan with `NoRingStarted`. The source would index its ring arrays at -1.
- The read-back test after each block (main.cpp:601-632) is commented out in the source. Only its bit reading is modelled, as `Packing.UnpackGrid`; `uncompress` is not modelled.
- A shapefile that exists but that `SHPOpen` cannot open ends the program with `perror` and `exit(-1)` (main.cpp:347-353). The model reads every existing shapefile through `Inputs.shapesOf` and has no such exit.
- The output file is opened with `fopen(ofile, "wb+")`; a failure there ends the program with a message (main.cpp:187-191). The model starts from the opened, empty file.
- Argument parsing: `sscanf` of the command-line strings and the usage exit for a missing resolution (main.cpp:150, 172, 177) are not modelled; `Layout.ParseArguments` takes the parsed resolution and the thread argument when one is given.
- A rejected thread count makes the source print its usage text with `argv[1]` as the program name (main.cpp:180). Messages are not modelled, so this has no counterpart.

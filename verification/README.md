# Neon Relay tooling: a verified model

The Python tools of Neon Relay write and read the game's maps and images, search tile grids, prepare
the table behind confusable-name detection, scan source lines and generate the network protocol.
This project models that logic in Dafny and proves what the tools promise each other.

* **Map container** (`Integers`, `Bytes`, `Datafile`, `SavedBytes`, `MapFormat`, `DatafileParse`, `Grouping`, `DatafileV4`,
  `Names`, `MapRead`, `MapLayers`, `Layout`, `Resave`, `Fingerprint`, `BuildMaps`). A writer object produces a
  binary file with a type table, three offset tables, an item region and a data region. A lossless
  reader, the gallery reader, a structural validator and the gameplay fingerprint take it apart again.
  zlib is a pair of function values with `decompress(compress(r)) == r`.
* **PNG codec and raster** (`PngFilter`, `PngFile`, `PngRoundTrip`, `PngBytes`, `Bresenham`, `Canvas.dfy` with
  module `Raster`). Chunk framing and row filters follow RFC 2083, sections 3.2 and 6.2 to 6.6; the
  CRC is a function value that the reader never looks at.
* **Grid searches** (`Reach`, `Components`, `Landmarks`, `Torus`, `Oil`, `OilRuns`). Every loop is
  proved to compute a set that is defined without it: classes of a relation, pixels reachable on a
  torus, pixels within a distance, columns below an exposed surface.
* **Confusables** (`Confusables`, `ConfusablePack`, `ConfusableCompare`). Substitution to a fixpoint,
  the packed slice table, and the C++ iterator that compares two texts through it.
* **Line lexer** (`TokenLexer`). Jumping over strings and comments agrees with an automaton that
  reads one character at a time.
* **Protocol generator** (`NetVariables`, `NetProtocol`, `NetObjects`). Emitters produce instruction
  lists; packer and unpacker are queues of tokens; text sanitising is a function value.

Where the source changes something in place the model does: writers, canvases, grids, image rows and
boolean images are classes or arrays, and each method is tied to a function or a set whose properties
are then proved as lemmas.

Findings. Some promises hold only under a condition, and the model states which:

* `save` does not check that ids fit 16 bits. Such a writer is saved without complaint
  (`DatafileV4.LongIdSaved`), and its items survive a round trip exactly when all ids are short
  (`DatafileV4.ItemsSurvive`). The type table agrees with the records, and the structural validator
  accepts the file, exactly when the spilled bits are set in the type already (`Layout.SavedIsValid`):
  an item of type 4 with id 65536 breaks it (`Layout.TypeFourFails`), one of type 1 does not.
* Reading a file and saving it again gives the same bytes exactly when no type has an empty list, every
  item keeps its type in its tag, and every list is still in order once its ids are cut to 16 bits
  (`Resave.ResavesExactly`). With ids of 16 bits only the first condition is left
  (`Resave.ResaveIdentical`). Each of the others can fail alone: an item of type 4 with id 65536
  (`Resave.TypeFourResaved`), and items of type 1 with ids 5 and 65536 (`Resave.CrossedResaved`). A writer
  that was filled through `item` never has an empty list, and one rebuilt from a file meets all three
  (`Resave.AcceptedResaves`).
* A name survives packing exactly when it has no NUL and at most 4n-2 bytes, or has 4n bytes and ends
  in 0x80 (`Names.NameSurvives`).
* The generator of the confusable table refuses more than eight lengths and nothing else. The table
  compiles exactly when some decomposition is not empty, every length fits a byte, every offset 16 bits
  and every character an `int32_t` (`ConfusablePack.CompilesExactly`); offsets between 13 and 16 bits wrap (`ConfusablePack.OffsetsWrap`).
* The exit test of `gen` is reached exactly when it holds after as many rounds as there are table entries,
  for all tables, also with the two entries that delete their character which the generator always adds
  (`Confusables.StopsExactly`). `gen` ends with nothing left to replace exactly when no character that
  rewriting leads to is led back to itself (`Confusables.EndsPlainExactly`). Two tables that undo each
  other never end (`Confusables.SwapNeverStops`), and with an entry that deletes its character the exit
  test can hold too early (`Confusables.StopsEarly`).
* A map is read back cell for cell exactly when it is at least two cells wide
  (`BuildMaps.GridSurvives`): the gallery reader does not decode narrower layers.
* The walk up the bases of an object ends exactly when no name comes twice in as many steps as there
  are objects (`NetObjects.EndsExactly`).
* An object of unchecked size must declare a default for every member, but the default of a text is
  never emitted: such an object is readable at every length exactly when it has no text member
  (`NetObjects.NoSizeNeeded`, `NetObjects.DefaultTextRefused`).

A modelling note: the docstring of `flood_border` reads "border-connected component of mask, 4-neighbour,
step-4 geodesic dilate". The code shifts by four steps each way and by one step down and right only, and
every shift wraps around at the edges. The model follows the code and claims nothing about the
4-connected component.

## Model

| member | source | states |
|---|---|---|
| `Bytes.Le32RoundTrip` | scripts/map_format.py:92-125 | reading a packed little-endian integer gives it back, as signed or as unsigned |
| `Bytes.Le32Onto` | scripts/datafile_v4.py:9-25 | every four bytes are the packing of the integer they read as |
| `Bytes.Be32RoundTrip` | scripts/neon_png.py:33-33 | the same for the big-endian integers of PNG |
| `Bytes.Be32Onto` | scripts/map_format.py:29-29 | every four bytes are the big-endian packing of what they read as |
| `Bytes.UnpackPack` | scripts/datafile_v4.py:25-25 | unpacking a packed list of 32-bit integers gives the list back |
| `Bytes.PackUnpack` | scripts/map_format.py:93-93 | packing what was unpacked from a multiple of four bytes gives the bytes back |
| `Bytes.IntsFromPacked` | scripts/datafile_v4.py:12-14 | a run of integers read at an offset inside a packed list is that part of the list |
| `Bytes.WindowExactly` | scripts/datafile_v4.py:9-25 | `unpack_from` reads exactly the bytes at an offset, counted from the end when negative, and fails where they are not all in the buffer |
| `Bytes.PySliceMeans` | scripts/datafile_v4.py:18-21 | a slice holds exactly the positions at or behind its first bound and not behind its second, negative bounds counting from the end |
| `Bytes.Tiles` | scripts/map_format.py:97-100 | running offsets cut a concatenation exactly into its blocks, without gap or overlap |
| `Sorting.SortSorted` | scripts/map_format.py:85-87 | the sorted list is an ordered rearrangement of its input |
| `Sorting.SortOfSorted` | scripts/map_format.py:86-86 | a sorted list is its own sorting |
| `Sorting.LexLeMeans` | scripts/map_format.py:86-86 | tuples are ordered by their first difference, a prefix first |
| `Sorting.FilterSort` | scripts/map_format.py:86-87 | selecting items before or after sorting gives the same list |
| `SortedSets.SortedSetLists` | scripts/map_format.py:85-85 | sorted(keys) lists each key once, increasing |
| `LexSets.LexSortedLists` | scripts/generate_unicode_confusables_data.py:116-116 | sorted(set of tuples) lists each tuple once, in lexicographic order |
| `Datafile.RetaggedSame` | scripts/datafile_v4.py:23-24 | type and id come back from the combined tag exactly when the id fits 16 bits |
| `Datafile.FileLength` | scripts/map_format.py:111-130 | the file is `size` + 16 bytes long and the data region starts at `swaplen` + 16 |
| `Datafile.SaveSucceeds` | scripts/map_format.py:89-125 | saving raises no struct error exactly when tags, payloads, types and blob sizes fit their fields and the file stays below 2 GiB |
| `Datafile.TypeRow` | scripts/map_format.py:103-107 | row k of the type table holds the type, the number of items of all smaller types and its own count |
| `SavedBytes.SavedHeader` | scripts/map_format.py:108-117 | byte by byte, least significant first: the name of the format, version 4, the file length less 16, that less the data region, the numbers of types, items and blobs, and the sizes of both regions |
| `SavedBytes.SavedTypeRow` | scripts/map_format.py:103-119 | the digits of type, items of all earlier types and own items stand in row j of the type table |
| `SavedBytes.SavedItemOffset` | scripts/map_format.py:88-121 | the digits of the room that all earlier records take stand in item offset i |
| `SavedBytes.SavedBlobEntry` | scripts/map_format.py:96-125 | the digits of the room that all earlier blobs take, and in a table behind them those of the uncompressed size |
| `SavedBytes.SavedItem` | scripts/map_format.py:90-93 | where record i stands, the id's low 16 bits, the type or-ed bit by bit with what the id has beyond them, the payload's size and its integers, digit by digit |
| `SavedBytes.SavedBlob` | scripts/map_format.py:96-100 | where blob k stands, its compressed form |
| `SavedBytes.FlatLists` | scripts/map_format.py:83-87 | the flat list ascends by type and then by id, and holds every item exactly as often as the writer does |
| `MapFormat.MapWriter.constructor` | scripts/map_format.py:37-41 | a new writer is empty |
| `MapFormat.MapWriter.Raw` | scripts/map_format.py:43-45 | the blob is stored at the returned index and earlier blobs keep theirs |
| `MapFormat.MapWriter.String` | scripts/map_format.py:47-48 | a string is stored as its bytes and a NUL |
| `MapFormat.MapWriter.Item` | scripts/map_format.py:50-54 | the item gets an id above all ids its type has so far, and no other list changes |
| `MapFormat.MapWriter.Version` | scripts/map_format.py:57-58 | adds the version item and keeps the numbering fresh |
| `MapFormat.MapWriter.Info` | scripts/map_format.py:60-62 | adds four strings and an info item that refers to them |
| `MapFormat.MapWriter.Image` | scripts/map_format.py:64-65 | adds an image item that refers to the stored name |
| `MapFormat.MapWriter.Group` | scripts/map_format.py:67-69 | adds a group item with its packed name |
| `MapFormat.MapWriter.TilesLayer` | scripts/map_format.py:71-74 | stores the tiles and adds a layer item that refers to them |
| `MapFormat.MapWriter.QuadsLayer` | scripts/map_format.py:76-79 | stores the joined quads and adds a layer item that counts them |
| `MapFormat.FlattenItems` | scripts/map_format.py:84-87 | the flat list holds every item, by type and then by id |
| `MapFormat.ItemRegion` | scripts/map_format.py:88-94 | the accumulated region and offsets are the records and where they start |
| `MapFormat.DataRegion` | scripts/map_format.py:96-101 | the accumulated blobs, offsets and sizes are those of the compressed blocks |
| `MapFormat.TypeRows` | scripts/map_format.py:103-107 | the running start index of each type is the length of the flat list before it |
| `MapFormat.MapWriter.Save` | scripts/map_format.py:82-130 | the step-by-step writer produces the layout that the readers are proved against, or the struct error |
| `DatafileParse.SavedReads` | scripts/datafile_v4.py:7-28 | from every saved file the header, all four tables, every blob and every item are read back |
| `Grouping.GroupFlat` | scripts/datafile_v4.py:26-26 | regrouping the flat list gives each type its items in order, and drops types without items |
| `Grouping.GroupFresh` | scripts/datafile_v4.py:27-27 | the rebuilt next id lies above every id seen |
| `Grouping.CanonicalFile` | scripts/map_format.py:82-130 | a writer and its canonical form (lists in order) save the same bytes |
| `Grouping.EmptyListFile` | scripts/map_format.py:103-107 | a type with an empty list has a table row that the canonical form lacks |
| `DatafileV4.Read` | scripts/datafile_v4.py:7-28 | the loop rebuilds exactly the decoded writer, or raises the first error the file contains |
| `DatafileV4.ReadBlobs` | scripts/datafile_v4.py:18-21 | appends every blob, or stops at the first that does not inflate or has the wrong length |
| `DatafileV4.ReadItems` | scripts/datafile_v4.py:22-27 | files every item and keeps the numbering fresh, or stops at the first malformed record |
| `DatafileV4.ReadAfterSave` | scripts/datafile_v4.py:7-28 | every saved file is accepted and gives back all blobs and all items |
| `DatafileV4.ItemsSurvive` | scripts/datafile_v4.py:23-26 | the items come back unchanged if and only if every id fits 16 bits |
| `DatafileV4.LongIdLost` | scripts/map_format.py:92-92 | any longer id is lost: it spills into the type |
| `DatafileV4.LongIdSaved` | scripts/map_format.py:82-130 | for every type, a writer with one id of 65536 is saved without error and does not get its item back |
| `DatafileV4.RebuiltNumbering` | scripts/datafile_v4.py:27-27 | a writer rebuilt from any accepted file never reuses an id |
| `DatafileV4.AcceptedContents` | scripts/datafile_v4.py:7-28 | a writer rebuilt from any accepted file has ids of 16 bits, no empty list and only numbers that fit |
| `Names.NameReadBack` | scripts/map_format.py:25-29 | what the reader makes of any packed name, including truncation to 4n-1 bytes and a byte 0x80 |
| `Names.NameSurvives` | scripts/neon_mapread.py:145-151 | the exact condition under which a name is read back unchanged |
| `Names.PackedName` | scripts/map_format.py:25-29 | the digits of every packed integer: the name's bytes 128 further modulo 256, padding, and 0 in the last place |
| `MapRead.MapFile.ParseFile` | scripts/neon_mapread.py:171-201 | the reader's loops fill its fields with the parsed view, or stop at the first error |
| `MapRead.MapFile.PhysicsLayer` | scripts/neon_mapread.py:204-208 | finds the first layer with the flag, or none |
| `MapRead.FirstWithIs` | scripts/neon_mapread.py:204-208 | a layer that has the flag and none before it is the one found |
| `MapRead.StrictReaderAgrees` | scripts/neon_mapread.py:171-189 | on every file the lossless reader accepts, this reader sees the same blobs and the same items |
| `MapRead.BothAfterSave` | scripts/neon_mapread.py:171-189 | on the saved file of a writer with ids of 16 bits it sees the writer's own items in order |
| `MapLayers.LayersAfterSave` | scripts/neon_mapread.py:190-201 | one decoded layer per layer item of a saved writer with ids of 16 bits, in order |
| `MapLayers.ViewAfterSave` | scripts/neon_mapread.py:190-201 | one image and one group per item of a saved writer with ids of 16 bits, in order, and the last info |
| `MapLayers.TilesDecode` | scripts/neon_mapread.py:112-142 | for every size and all flags, a layer from `tiles_layer` decodes to its size, flags, image, data, name, tiles and tele array (no array below width 2, no other array ever), and fails exactly when a tele array is wanted at an index beyond the blobs |
| `MapLayers.QuadsDecode` | scripts/neon_mapread.py:108-111 | a layer from `quads_layer` decodes to its number of quads, data, image and name, and never counts as physics |
| `MapLayers.GroupDecodes` | scripts/neon_mapread.py:196-199 | a group from `group` is read as its offset, parallax, layers and name |
| `MapLayers.FixedFields` | scripts/map_format.py:67-79 | the item versions, colours, envelopes, clipping and absent physics arrays that the writer fills in |
| `MapLayers.TilesPositions` | scripts/neon_mapread.py:112-142 | for a tiles layer of any version and length: where size, flags, image and data stand, which integer refers to the tele, speedup, front and switch array and which flag enables it; missing references count as -1 and a front array replaces the tiles |
| `MapLayers.LayerSucceeds` | scripts/neon_mapread.py:95-142 | a layer item is decoded if and only if it is long enough and its tiles and every enabled reference lead to a blob |
| `MapLayers.OtherLayer` | scripts/neon_mapread.py:98-114 | of a sound layer, or a tiles layer that is too short, only the header is kept: no size, no flags, no references, no arrays |
| `Layout.SavedIsValid` | scripts/test_map_format.py:12-40 | a saved file passes the structural validator if and only if every item keeps its type in its tag; short ids do |
| `Layout.ValidExactly` | scripts/test_map_format.py:12-40 | the validator accepts a file if and only if its sizes and regions add up to its length, each row starts where the one before it ends, the last ends with the last item, each record has its row's type and reaches to the next, and every blob inflates to its size |
| `Layout.TypeFourFails` | scripts/map_format.py:92-92 | a saved writer with one item of type 4 and id 65536 does not pass |
| `Layout.TypeOneHolds` | scripts/map_format.py:92-92 | the same with type 1 passes although the id is long |
| `Layout.IndexAgreesWithScan` | scripts/map_format.py:103-119 | for all rows and records of a saved file, covering by a row and carrying its type agree if and only if every item keeps its type |
| `Layout.FlatRow` | scripts/map_format.py:85-107 | an item of the flat list has type j exactly when its index lies in row j |
| `Resave.KeptReadBack` | scripts/datafile_v4.py:22-27 | where every item keeps its type, the reader files every type's sorted list with ids cut to 16 bits, and drops types without items |
| `Resave.ResavesExactly` | scripts/map_format.py:82-130 | for every writer that can be saved, saving the rebuilt writer is byte-identical if and only if no type has an empty list, every item keeps its type and every list stays in order when ids are cut to 16 bits |
| `Resave.ResaveIdentical` | scripts/map_format.py:82-130 | with ids of 16 bits, if and only if no type has an empty list |
| `Resave.AcceptedResaves` | scripts/datafile_v4.py:7-28 | a writer rebuilt from any accepted file can be saved exactly when that stays below 2 GiB, gives back the same blobs and items, and from then on the bytes are stable |
| `Resave.TypeFourResaved` | scripts/map_format.py:92-92 | one item of type 4 with id 65536, and no empty list, resaves to other bytes |
| `Resave.TypeOneResaved` | scripts/map_format.py:92-92 | the same item under type 1 resaves to the same bytes although its id is long |
| `Resave.CrossedResaved` | scripts/map_format.py:85-92 | items of type 1 with ids 5 and 65536 keep their type and resave to other bytes, in another order |
| `Fingerprint.Gameplay` | scripts/map_gameplay_fingerprint.py:6-21 | the loop collects exactly the hashed list, or raises the first error |
| `Fingerprint.SignIgnored` | scripts/map_gameplay_fingerprint.py:14-20 | reading tags as signed changes nothing about the two types it looks for |
| `Fingerprint.ThreeReadersAgree` | scripts/map_gameplay_fingerprint.py:6-15 | on every saved file all three readers see the same blobs and the same items in the same order |
| `Fingerprint.PreimageAfterSave` | scripts/map_gameplay_fingerprint.py:6-21 | on the saved file of a writer with ids of 16 bits it is a function of the writer's own items and blobs |
| `Fingerprint.EntriesOfPlayable` | scripts/map_gameplay_fingerprint.py:16-20 | removing every visual item leaves the hashed list as it is |
| `Fingerprint.FingerprintInvariant` | scripts/map_gameplay_fingerprint.py:6-21 | two saved files with the same playable items hash the same list, under any renumbering of blobs and whatever their ids |
| `Fingerprint.FingerprintExactly` | scripts/map_gameplay_fingerprint.py:6-21 | two saved files whose fingerprints exist have the same hashed list if and only if their playable items correspond one by one, in order: layers of equal size, flags, tile bytes and extra blobs, and equal settings |
| `Fingerprint.FingerprintShows` | scripts/map_gameplay_fingerprint.py:16-20 | the hashed list has one entry per playable item, with the size, the flags and the bytes its references lead to |
| `Fingerprint.FingerprintSucceeds` | scripts/map_gameplay_fingerprint.py:16-20 | the fingerprint exists if and only if every reference of a playable item leads to a blob |
| `Fingerprint.VisualsDoNotMatter` | scripts/map_gameplay_fingerprint.py:6-21 | adding visual items and blobs anywhere leaves it unchanged |
| `Fingerprint.InsertVisual` | scripts/map_gameplay_fingerprint.py:16-20 | one visual item may be filed between any two others |
| `BuildMaps.Grid.constructor` | scripts/build_neon_maps.py:39-41 | a new grid is all air |
| `BuildMaps.Grid.Set` | scripts/build_neon_maps.py:48-50 | writes one cell, or nothing outside the grid |
| `BuildMaps.Grid.Rect` | scripts/build_neon_maps.py:43-46 | fills exactly the clipped rectangle |
| `BuildMaps.Grid.Floor` | scripts/build_neon_maps.py:52-53 | fills exactly the columns from row y down |
| `BuildMaps.Grid.GridBytes` | scripts/build_neon_maps.py:55-60 | four bytes per cell, or the error of a cell that is no byte |
| `BuildMaps.CellsAreBytes` | scripts/build_neon_maps.py:55-60 | the flattened grid fits bytes if and only if every cell is between 0 and 255 |
| `BuildMaps.Grid.LiftPads` | scripts/build_neon_maps.py:250-257 | moves every tele pad out of the grid, leaving air, into the tele bytes |
| `BuildMaps.OverlayCell` | scripts/neon_mapread.py:76-77 | through the strided arrays a tele pad is read as number 1 and its type over air, any other cell as its index without a tele type |
| `BuildMaps.GridLayers` | scripts/neon_mapread.py:131-142 | the reader finds the game layer and the tele layer that were written, and decodes their arrays if they are at least two cells wide |
| `BuildMaps.WriteMap` | scripts/build_neon_maps.py:236-308 | writes the file of exactly the listed items and blobs: version, info, four images, envelope, six layers, three groups, with the grid split into a game and a tele layer |
| `BuildMaps.GridSurvives` | scripts/build_neon_maps.py:250-303 | the overlay of the two layers read back is the original grid, cell for cell, if and only if the width is at least 2 |
| `BuildMaps.MapView` | scripts/build_neon_maps.py:238-304 | the reader sees the info texts, the four images with their sizes, and three named groups with their parallax that tile the six layers |
| `BuildMaps.LayersSeen` | scripts/build_neon_maps.py:294-303 | the six layers are seen in order under their names, with their images and flags, over their quads or tiles |
| `PngFilter.PaethNearest` | scripts/neon_png.py:41-48 | the predictor is the nearest of the three neighbours, ties going to left, then above |
| `PngFilter.UndoApply` | scripts/neon_png.py:76-93 | undoing a filter on a filtered row gives the row back, for each of the five filters |
| `PngFilter.ApplyUndo` | scripts/neon_png.py:76-93 | filtering an unfiltered row gives the raw bytes back |
| `PngFilter.UndoRow` | scripts/neon_png.py:76-93 | in place, every byte becomes the raw byte plus the prediction of its filter type from the recovered left byte and the row above, modulo 256; other filter types are refused |
| `PngFilter.DefilteredExactly` | scripts/neon_png.py:76-93 | a row is the recovered one if and only if every byte is raw plus prediction modulo 256: nothing, left, up, half their sum rounded down, or the neighbour nearest to left + up - corner |
| `PngFile.ReadChunks` | scripts/neon_png.py:28-38 | the loop yields the chunk list, or the error of a bad magic or length |
| `PngFile.FramedBack` | scripts/neon_png.py:32-38 | framed chunks are read back, whatever their CRC fields hold |
| `PngFile.GatherChunks` | scripts/neon_png.py:54-60 | the last header counts and all IDAT bodies are joined |
| `PngFile.PlaceRow` | scripts/neon_png.py:94-103 | writes one row into the raster, alpha 255 for RGB, and nothing else |
| `PngFile.NextRow` | scripts/neon_png.py:72-104 | one round undoes the filter of a line and places its pixels, or finds the bad filter |
| `PngFile.ReadRaster` | scripts/neon_png.py:64-105 | the rows defiltered one after the other fill the raster, or the first bad filter fails |
| `PngFile.ReadPng` | scripts/neon_png.py:51-105 | the whole reader computes the decoded image or the first error |
| `PngBytes.ReadsPixels` | scripts/neon_png.py:51-105 | whatever is accepted: 8-bit RGB or RGBA, scanlines that fill the image, every row defiltered over the one before it, and every byte of the image that of its row, or 255 for the alpha of RGB |
| `PngBytes.NextChunkRead` | scripts/neon_png.py:32-38 | on any accepted bytes: length, type and body of the next chunk and where the one after it starts |
| `PngBytes.HeadStands` | scripts/neon_png.py:56-56 | width and height are the big-endian digits of the header's first eight bytes, the other fields stand at 8, 9 and 12 |
| `PngRoundTrip.LinesOfStream` | scripts/neon_png.py:71-104 | a stream of rows, each under any filter, is read back row by row |
| `PngRoundTrip.ReadsEveryEncoder` | scripts/neon_png.py:51-105 | any RGB or RGBA file with any filter per row and any split into chunks is read as its rows |
| `PngRoundTrip.FilterImage` | scripts/neon_png.py:112-118 | the writer's loop produces the Sub-filtered stream |
| `PngRoundTrip.WritePng` | scripts/neon_png.py:108-132 | writes the encoding, or fails when a size does not fit |
| `PngBytes.WrittenBytes` | scripts/neon_png.py:108-132 | byte by byte: the eight bytes of the format, big-endian width and height, 8-bit RGBA, one chunk with the compressed Sub-filtered scanlines, an empty last chunk, and every chunk's length and checksum |
| `PngBytes.FramedStands` | scripts/neon_png.py:121-122 | a chunk stands as its big-endian length, its type, its body and four more bytes |
| `PngRoundTrip.WriteThenRead` | scripts/neon_png.py:108-132 | reading what was written gives back width, height and every byte |
| `Bresenham.RoundNearest` | scripts/neon_png.py:234-252 | the rounding that describes the line picks the nearest point, with one rule for ties |
| `Bresenham.OneStep` | scripts/neon_png.py:245-251 | the two tests on the error term take exactly the step that this rounding asks for |
| `Bresenham.CloseToIdeal` | scripts/neon_png.py:239-251 | after any number of steps twice the deviation is at most the longer side |
| `Bresenham.WalkShape` | scripts/neon_png.py:239-251 | each step moves one along the longer axis and at most one along the other, from start to end |
| `Raster.Canvas.Blend` | scripts/neon_png.py:194-210 | each colour byte becomes the mean weighted by alpha, the alpha byte covers what shows through, both rounded down; all other bytes stay; outside or fully transparent it does nothing |
| `Raster.OverExactly` | scripts/neon_png.py:194-210 | these roundings determine the blended pixel |
| `Raster.TintedBytes` | scripts/neon_png.py:194-210 | in every region that is drawn once, each pixel's four bytes are blended so, and the bytes outside it stay |
| `Raster.OverTints` | scripts/neon_png.py:203-210 | each channel ends between source and destination, alpha never falls, and the clamp at 255 never takes effect |
| `Raster.AlphaGrows` | scripts/neon_png.py:210-210 | the unclamped alpha lies between the old one and 255 |
| `Raster.Canvas.Stamp` | scripts/neon_png.py:240-242 | blends exactly the square around a point |
| `Raster.Canvas.Line` | scripts/neon_png.py:234-252 | terminates for all endpoints and blends each pixel once per square that covers it |
| `Raster.SquareSides` | scripts/neon_png.py:238-242 | a point of a line covers `width` columns and rows, the odd one to the right and below |
| `Raster.Canvas.Circle` | scripts/neon_png.py:254-265 | blends exactly the pixels of the disc or ring, once each |
| `Raster.DiscReach` | scripts/neon_png.py:254-265 | along its axes a disc reaches its radius, and a ring is `width` wide there |
| `Raster.DiscMirrors` | scripts/neon_png.py:258-264 | the quarters of a disc or ring mirror each other, and so do its axes |
| `Raster.ThinLine` | scripts/neon_png.py:234-252 | the centres run from start to end, one step on the longer axis each, close to the ideal line |
| `Raster.ThinLineOnce` | scripts/neon_png.py:234-252 | a line of width 1 touches each of its points exactly once and no other |
| `Raster.RunTints` | scripts/neon_png.py:194-265 | over any sequence of lines and circles size is kept, alpha never falls and colours stay within bounds |
| `Cells.IndexInjective` | scripts/build_neon_tilesets.py:175-175 | different cells have different indices |
| `Reach.ClassIsMaximal` | scripts/build_neon_tilesets.py:153-161 | a class holds exactly what is linked to any of its members |
| `Reach.PartitionIsAll` | scripts/build_neon_tilesets.py:153-161 | a partition lists every class there is |
| `Components.EligiblePixels` | scripts/build_neon_tilesets.py:162-170 | marks exactly the solid pixels of used decor cells |
| `Components.Flood` | scripts/build_neon_tilesets.py:178-207 | one search visits exactly the unseen class of its seed and measures it |
| `Components.FindComponents` | scripts/build_neon_tilesets.py:153-208 | the result lists all 4-connected classes of the eligible pixels in reading order of their first pixels, with exact size, tight box and touched cells |
| `Components.EachPixelOnce` | scripts/build_neon_tilesets.py:186-186 | the sizes add up to the number of eligible pixels |
| `Landmarks.Regions` | scripts/learn_landmarks.py:41-54 | one tight box per class under steps of 1 sideways and 1 to 4 up or down, in the order of least cells |
| `Torus.RollBack` | scripts/build_potato_weapon_sheet.py:117-117 | rolling forth and back ends where it began |
| `Torus.OrRolled` | scripts/build_potato_weapon_sheet.py:116-117 | adds exactly the rolled pixels |
| `Torus.RollsForward` | scripts/build_potato_weapon_sheet.py:117-117 | a roll moves every pixel its number of steps forward along its axis, around the edge |
| `Torus.HopIsShift` | scripts/build_potato_weapon_sheet.py:116-116 | the six rolls lead exactly 4 down, 4 up, 1 down, 4 right, 4 left and 1 right |
| `Torus.FloodStable` | scripts/build_potato_weapon_sheet.py:119-120 | an image that one round does not change holds everything reachable |
| `Torus.FloodSeeded` | scripts/build_potato_weapon_sheet.py:112-121 | terminates with exactly the mask pixels reachable from the seeds inside the mask by steps of 4 in all directions and of 1 down and right, around the edges |
| `Torus.FloodBorder` | scripts/build_potato_weapon_sheet.py:75-98 | the same from the border pixels of the mask; with seed_all the whole mask |
| `Torus.GrowNear` | scripts/build_potato_weapon_sheet.py:104-108 | distance k+1 on the torus is distance k and one more step |
| `Torus.Dilate` | scripts/build_potato_weapon_sheet.py:101-109 | exactly the pixels within toroidal L1 distance k of the mask |
| `Oil.MaximalRun` | scripts/learn_oil.py:20-28 | a cell of a maximal exposed run is surface exactly when the run has length 3 or more |
| `Oil.FillColumn` | scripts/learn_oil.py:31-33 | adds exactly the unbroken hazard column below a surface cell |
| `Oil.FindPools` | scripts/learn_oil.py:17-34 | for any hazard set, surfaces and cells are exactly as declared |
| `Oil.Pools` | scripts/learn_oil.py:9-34 | on the game, front and tele layers: surfaces are the hurting cells in runs of three or more that are open above, cells are what hurts without a break below them; thaw tiles and walls are never among them |
| `OilRuns.Merge` | scripts/learn_oil.py:84-95 | runs of at most two surface cells or four deep ones cover every cell, in order and without overlap, each as long as it can be, and no other cover has fewer |
| `OilRuns.FewestRuns` | scripts/learn_oil.py:84-95 | no other cover by such runs has fewer |
| `OilRuns.StretchPieces` | scripts/learn_oil.py:93-94 | a maximal stretch of one kind is cut from its left end into runs of 2 (surface) or 4 (deep) cells, only the last one shorter |
| `OilRuns.StretchCount` | scripts/learn_oil.py:84-95 | a stretch of L cells takes exactly ceil(L / 2) runs on the surface and ceil(L / 4) below |
| `Confusables.EndsPlainExactly` | scripts/generate_unicode_confusables_data.py:45-54 | the loop on a character ends with nothing left to replace if and only if rewriting it never leads to a character that is led back to itself, and then within as many rounds as there are table entries |
| `Confusables.TextEndsExactly` | scripts/generate_unicode_confusables_data.py:45-54 | the loop on a text does if and only if it does on each of its characters, and within as many rounds as there are table entries |
| `Confusables.StopsExactly` | scripts/generate_unicode_confusables_data.py:37-53 | for all tables and texts, also with entries that delete: the exit test is reached if and only if it holds after as many rounds as there are table entries |
| `Confusables.StopsWithoutLoop` | scripts/generate_unicode_confusables_data.py:51-52 | without entries that delete, that is exactly when there is no loop of characters |
| `Confusables.Settles` | scripts/generate_unicode_confusables_data.py:42-53 | a substitution table that ever stops changing a text has stopped after as many steps as it has entries |
| `Confusables.EveryCharacterStops` | scripts/generate_unicode_confusables_data.py:40-56 | if the exit test is reached on every character with an entry, it is on every character |
| `Confusables.EndsPlainClosure` | scripts/generate_unicode_confusables_data.py:51-53 | ending with nothing left to replace means: the exit test is reached and what it lets through is plain |
| `Confusables.ShrinkingEnds` | scripts/generate_unicode_confusables_data.py:45-54 | tables whose entries outweigh their replacements end on every text with nothing left to replace |
| `Confusables.ClosureAppend` | scripts/generate_unicode_confusables_data.py:42-56 | where the loop ends on two texts it ends on their concatenation, with the two results put together |
| `Confusables.Gen` | scripts/generate_unicode_confusables_data.py:45-54 | on the characters where the exit test holds within the bound, which are exactly those where the loop ends, returns what it ends with, without the ignored characters |
| `Confusables.SkeletonIsClosure` | scripts/generate_unicode_confusables_data.py:56-56 | one table entry per character is enough to compute the closure of any text |
| `Confusables.SwapNeverStops` | scripts/generate_unicode_confusables_data.py:47-53 | on two tables that undo each other the exit test is never reached |
| `Confusables.SwapEnds` | scripts/generate_unicode_confusables_data.py:47-53 | a table that swaps two characters ends if the other table leads out of the swap, although no weight shrinks it |
| `Confusables.StopsEarly` | scripts/generate_unicode_confusables_data.py:51-52 | with an entry that deletes, the exit test can hold while a replaceable character is left |
| `ConfusablePack.Pack` | scripts/generate_unicode_confusables_data.py:112-134 | the running offsets give the packed tables; more than eight lengths are refused |
| `ConfusablePack.Lookup` | src/base/unicode/confusables.cpp:7-28 | the scan with its early exit finds the entry of a character if there is one |
| `ConfusablePack.TablesWellFormed` | scripts/generate_unicode_confusables_data.py:79-109 | the keys strictly increase and every slice stays inside the data |
| `ConfusablePack.CompilesExactly` | scripts/generate_unicode_confusables_data.py:84-104 | the written tables compile if and only if some decomposition is not empty, every length fits a byte, every offset 16 bits, and every character is at least 0 and below 2^31 |
| `ConfusablePack.LookupReads` | src/base/unicode/confusables.cpp:7-28 | the lookup reads as many data as the decomposition has, from its offset cut down to 13 bits |
| `ConfusablePack.LookupExact` | scripts/generate_unicode_confusables_data.py:79-127 | at an offset of 13 bits that is exactly the decomposition; other characters are not found |
| `ConfusablePack.OffsetsWrap` | scripts/generate_unicode_confusables_data.py:103-103 | beyond 13 bits the offset wraps and the lookup is wrong, in a table that compiles |
| `ConfusableCompare.Generate` | scripts/generate_unicode_confusables_data.py:40-56 | every interesting character gets its filtered closure |
| `ConfusableCompare.Uninteresting` | scripts/generate_unicode_confusables_data.py:40-40 | any other character is its own filtered closure |
| `ConfusableCompare.ExpandIsClosure` | src/base/unicode/confusables.cpp:44-63 | lookups through the packed table compute the closure of the whole text |
| `ConfusableCompare.NoZeros` | scripts/generate_unicode_confusables_data.py:34-38 | with NUL ignored no decomposition can end a text early |
| `ConfusableCompare.SkeletonStream.Load` | src/base/unicode/confusables.cpp:7-28 | points the iterator at the expansion of a character |
| `ConfusableCompare.SkeletonStream.Next` | src/base/unicode/confusables.cpp:44-63 | delivers the skeleton one character at a time, 0 exactly at its end |
| `ConfusableCompare.ToSkeleton` | src/base/unicode/confusables.cpp:65-80 | fills the buffer with the longest prefix of the skeleton that fits |
| `ConfusableCompare.CompareConfusable` | src/base/unicode/confusables.cpp:82-101 | returns 0 if and only if the two texts have the same skeleton |
| `TokenLexer.FindClose` | scripts/branding_scan.py:267-268 | the end of a block comment is behind the first closing pair after the opener, so `/*/` does not close |
| `TokenLexer.StringEnd` | scripts/branding_scan.py:274-285 | skipping escapes in pairs stays in step with the automaton, up to one past the line |
| `TokenLexer.TokenContexts` | scripts/branding_scan.py:251-294 | terminates; spans are non-empty, ordered, disjoint, end at most one past the line, open where the automaton opens one and label every position as it does |
| `TokenLexer.QuotedText` | scripts/branding_scan.py:272-285 | a text between quotes of either kind is a string whatever else stands in it, and code goes on behind it |
| `TokenLexer.EscapedQuote` | scripts/branding_scan.py:276-278 | a backslash in a string takes the next character with it |
| `TokenLexer.RestIsComment` | scripts/branding_scan.py:263-292 | two slashes, or a `#` that starts no directive, make the rest of the line a comment |
| `TokenLexer.BlockIsComment` | scripts/branding_scan.py:266-271 | a block comment reaches from its opener to the first closing pair behind it |
| `TokenLexer.PlainCode` | scripts/branding_scan.py:261-293 | everything else is code |
| `TokenLexer.ContextAt` | scripts/branding_scan.py:297-301 | returns the kind of the first span that holds the position |
| `NetVariables.NetVariable.constructor` | datasrc/datatypes.py:397-400 | a variable starts under its own name |
| `NetVariables.NetArray.constructor` | datasrc/datatypes.py:539-545 | an array remembers the name its element had |
| `NetVariables.NetArray.Emit` | datasrc/datatypes.py:551-584 | renaming the element in a loop emits one slot per index, and the same code on every pass |
| `NetVariables.EmitMember` | datasrc/datatypes.py:347-376 | a pass over one member emits the code of its fields |
| `NetVariables.EmitAll` | datasrc/datatypes.py:347-376 | a pass over a definition emits its fields in declaration and index order and leaves it ready for the next pass |
| `NetProtocol.PackSends` | datasrc/datatypes.py:366-376 | emitted Pack code sends the values in declaration and index order |
| `NetProtocol.ReadsBack` | datasrc/datatypes.py:353-355 | after each read the data so far and the rest of the queue are what they should be, and errors stick |
| `NetProtocol.ChecksNameFirst` | datasrc/datatypes.py:499-500 | the checks name the first field out of range |
| `NetProtocol.PackThenUnpack` | datasrc/compile.py:357-384 | for any message cut off anywhere: an unpack error, the first field out of range, or the message, sanitised and completed with defaults |
| `NetProtocol.RoundTrip` | datasrc/datatypes.py:347-376 | unpacking restores a packed message if and only if its ranged fields are in range and its texts are sanitised |
| `NetProtocol.Forwarded` | datasrc/datatypes.py:427-466 | an accepted message can be sent on unchanged when sanitising is idempotent |
| `NetObjects.EndsExactly` | datasrc/datatypes.py:279-283 | the walk up the bases ends if and only if no name comes twice in as many steps as there are objects |
| `NetObjects.MembersFromThisAndParents` | datasrc/datatypes.py:277-284 | wherever it ends, the walk lists the oldest base's members first, or fails on a base that is missing or ambiguous |
| `NetObjects.DerivedExtendsBase` | datasrc/datatypes.py:277-284 | the code of an object starts with the code of its base |
| `NetObjects.NamedByEachOther` | datasrc/datatypes.py:279-283 | among any objects, from two that name each other as base the walk never ends |
| `NetObjects.FoundByName` | datasrc/datatypes.py:281-281 | an object whose name no other one has is the one found |
| `NetObjects.CycleNeverEnds` | datasrc/datatypes.py:279-283 | from two objects that name each other the walk never ends, from an object derived from a third one beside them it does |
| `NetObjects.TwinsEnd` | datasrc/datatypes.py:281-281 | a name used twice ends the walk with an error, even on a cycle |
| `NetObjects.EmitUnpackAndValidate` | datasrc/datatypes.py:286-306 | emits reads and clamps, or refuses a member without a declared default in an object of unchecked size |
| `NetObjects.ValidateClamps` | datasrc/datatypes.py:496-497 | the clamps put every member into its range and touch no other |
| `NetObjects.ObjectArrives` | datasrc/compile.py:312-347 | an object arrives with defaults filled in and every member in range, or is refused when a mandatory member is missing |
| `NetObjects.NoSizeNeeded` | datasrc/datatypes.py:293-297 | an emitted object of unchecked size is refused exactly where a text is among the missing members, and so readable at every length if and only if it has no text |
| `NetObjects.DefaultTextRefused` | datasrc/datatypes.py:434-435 | a text with a default is emitted all the same, and refused when it is missing |

## Left out

- zlib, CRC-32 and SHA-256 internals: compression is a pair of inverse functions, the CRC a function value, and the fingerprint is compared before hashing.
- Reading and writing files: every reader takes bytes and every writer returns them.
- UTF-8: names, settings and strings are bytes, and decoded texts are lists of code points; the replacement of malformed input is not part of this model.
- BuildMaps.WriteMap: takes the bytes of the visual tiles and of the quads, the envelope points, the credits and the style name as parameters. None of them affects play; the autotile masks and light curves that compute them are not modelled.
- `quad_rect`: a fixed list of 38 products; the writer takes finished quads.
- `MapFile.facts`, `entities`, `histogram` and `count`: totals over one decoded array.
- Raster: `fill`, `set`, `rect`, `ellipse`, gradients, noise and everything that paints with floating point.
- Raster.Canvas.Line: colours are bytes; channel values outside 0 to 255 raise an error in the source and are not modelled.
- Torus.FloodSeeded, Torus.FloodBorder, Torus.Dilate: images have at least one pixel.
- Oil.Pools: the three layers have a byte for every cell. Which items of a map hold them, and the animation frames and quads made from the runs, are left out.
- Components.FindComponents: the used-cell grid and the decor predicate are parameters; their pixel count thresholds are not modelled.
- Confusables.Gen: where the loop of the source never ends there is nothing to return, so it asks that the exit test is reached. StopsExactly says when that is. The parsing of the Unicode data files and their categories are parameters.
- ConfusablePack.LookupExact: at a wrapped offset the data found may happen to be right; LookupReads says what is found there, and OffsetsWrap that it is wrong throughout in tables of one-character decompositions.
- TokenLexer.TokenContexts: the keyword test behind `#` is a predicate on the rest of the line. The regular expressions and path rules of `classify` are left out.
- NetProtocol.PackThenUnpack: tokens stand for the variable-length bytes of an integer or a string; a token of the wrong kind is an error; the packer's 2048-byte buffer never fills; `sanitize` includes the skipping of leading blanks.
- NetVariables.NetArray.Emit: arrays of arrays, which no definition uses, and the emitters of declarations and debug dumps. Bounds are integers, not names of constants.
- The fixed tables of network.py, the concrete maps, palettes, sounds and bake scripts: finite data.
- The engine, the backend and the chain programs, apart from the packer and the skeleton iterator named above.

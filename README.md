# VirtualTale map display, modelled in Dafny

VirtualTale runs a Game Boy / Game Boy Advance emulator inside a game
server and shows its screen on a player's world map. The model covers the
display pipeline:

- the frame hand-off between the emulator and the render loop;
- the RGB to RGBA colour conversion;
- the placement of the screen on the map:
  - a display rectangle centred on the player;
  - a 5-block gray border;
  - an inner grid of 32x32-block map tiles covering both;
  - an outer ring of 8 black padding tiles;
- the rendering of one 64x64 tile image;
- the per-tile change cache;
- the renderer that turns a frame into the list of tile updates to send;
- the session's render tick and its scheduling period;
- ROM type detection from a file name.

Files and modules:

- `options.dfy` (`Options`): the `Option` type; `None` stands for the source's `null`.
- `color_mapper.dfy` (`ColorMapper`): pixels as `bv32`, with Java's 32-bit shift.
- `rom_types.dfy` (`RomTypes`): ROM kinds and extension detection.
- `frame_buffer.dfy` (`FrameBuffers`): the single-slot frame buffer, a class over an array.
- `delta_compressor.dfy` (`DeltaCompression`):
  - the change cache, a class over an array of nullable arrays;
  - `Observe`, its specification on values.
- `map_geometry.dfy` (`MapGeometry`):
  - the renderer's constructor arithmetic;
  - the per-block colour rule;
  - the in-place tile extraction `ExtractChunk`.
- `map_display_renderer.dfy` (`MapDisplay`):
  - `Emissions`, the specification of one render;
  - the renderer class, whose nested render loop is proved against it.
- `emulator_session.dfy` (`Emulator`): the session's `start` period and `renderTick`.

Java `int` arithmetic is modelled on unbounded integers. `GeometryFitsInt`
shows that, under explicit input bounds, no intermediate value leaves the
32-bit range, so the two agree there. Pixels are `bv32`, so shifts
truncate exactly as in Java.

## Model

| member | source | states |
|---|---|---|
| ColorMapper.ToRgba | src/main/java/dev/chasem/hg/virtualtale/display/ColorMapper.java:24-26 | the alpha byte is 0xFF and the upper three bytes are the low 24 bits of the input |
| ColorMapper.Black | src/main/java/dev/chasem/hg/virtualtale/display/ColorMapper.java:55-57 | black is the conversion of colour 0 |
| ColorMapper.ToRgbaOf24Bit | src/main/java/dev/chasem/hg/virtualtale/display/ColorMapper.java:24-26 | for a 24-bit colour the result is `rgb*256+255` and shifting right by 8 recovers the colour |
| ColorMapper.ToRgbaIgnoresTopByte | src/main/java/dev/chasem/hg/virtualtale/display/ColorMapper.java:24-26 | the top input byte never affects the result |
| ColorMapper.ToRgbaExamples | src/main/java/dev/chasem/hg/virtualtale/display/ColorMapper.java:24-26 | white, black, a green and red convert to the expected RGBA values |
| ColorMapper.ToRgbaInPlace | src/main/java/dev/chasem/hg/virtualtale/display/ColorMapper.java:33-37 | every element becomes the conversion of its old value |
| ColorMapper.ToRgbaArray | src/main/java/dev/chasem/hg/virtualtale/display/ColorMapper.java:46-50 | the first `len` destination pixels are conversions of the source pixels; the rest of the destination and the source are unchanged |
| RomTypes.NativeResolutions | src/main/java/dev/chasem/hg/virtualtale/emulator/RomType.java:11-28 | Game Boy is 160x144 and Game Boy Advance 240x160 |
| RomTypes.Detect | src/main/java/dev/chasem/hg/virtualtale/emulator/RomType.java:36-45 | Game Boy exactly when the lower-cased name ends in `.gb` or `.gbc`; GBA exactly when it ends in `.gba` or `.agb` |
| RomTypes.DetectIgnoresCase | src/main/java/dev/chasem/hg/virtualtale/emulator/RomType.java:37-37 | names equal up to letter case get the same answer |
| RomTypes.DetectGbaExample | src/main/java/dev/chasem/hg/virtualtale/emulator/RomType.java:38-42 | `x.gba` is GBA; the `.gb` test does not capture it |
| RomTypes.DetectUpperCaseExample | src/main/java/dev/chasem/hg/virtualtale/emulator/RomType.java:37-39 | `Tetris.GB` is a Game Boy ROM |
| RomTypes.DetectUnknownExample | src/main/java/dev/chasem/hg/virtualtale/emulator/RomType.java:44-44 | `notes.txt` is unrecognised |
| FrameBuffers.PollTwiceNoUpdate | src/main/java/dev/chasem/hg/virtualtale/emulator/FrameBuffer.java:65-78 | no update exactly when the counter equals the caller's; a second read with the returned counter reports no update |
| FrameBuffers.FrameBuffer.constructor | src/main/java/dev/chasem/hg/virtualtale/emulator/FrameBuffer.java:29-34 | an all-zero slot of `width*height` pixels and counter 0 |
| FrameBuffers.FrameBuffer.SubmitFrame | src/main/java/dev/chasem/hg/virtualtale/emulator/FrameBuffer.java:47-55 | the first `min(len, pixelCount)` pixels are overwritten, the rest keep the old frame, the counter grows by one |
| FrameBuffers.FrameBuffer.GetLatestFrame | src/main/java/dev/chasem/hg/virtualtale/emulator/FrameBuffer.java:65-78 | returns -1 and leaves `dest` alone when the counter is unchanged; otherwise copies the slot to the front of `dest` and returns the counter |
| FrameBuffers.FrameBuffer.GetPixelCount | src/main/java/dev/chasem/hg/virtualtale/emulator/FrameBuffer.java:96-98 | equals `width*height` and the slot length |
| DeltaCompression.ObserveSpec | src/main/java/dev/chasem/hg/virtualtale/display/DeltaCompressor.java:37-55 | unchanged exactly when the index is in range and its baseline equals the first `chunkPixelCount` pixels; afterwards that slot holds those pixels and no other slot changes |
| DeltaCompression.ObserveTwiceUnchanged | src/main/java/dev/chasem/hg/virtualtale/display/DeltaCompressor.java:37-55 | asking twice with the same pixels answers unchanged the second time |
| DeltaCompression.ObserveDetectsAnyDifference | src/main/java/dev/chasem/hg/virtualtale/display/DeltaCompressor.java:49-52 | one differing pixel within the compared range is reported as a change |
| DeltaCompression.ObserveAfterReset | src/main/java/dev/chasem/hg/virtualtale/display/DeltaCompressor.java:60-62 | after a reset every query answers changed |
| DeltaCompression.DeltaCompressor.constructor | src/main/java/dev/chasem/hg/virtualtale/display/DeltaCompressor.java:21-27 | `gridWidth*gridHeight` slots, all empty |
| DeltaCompression.DeltaCompressor.HasChanged | src/main/java/dev/chasem/hg/virtualtale/display/DeltaCompressor.java:37-55 | the answer and the new baselines are those `Observe` gives for the old baselines |
| DeltaCompression.DeltaCompressor.StoreCopy | src/main/java/dev/chasem/hg/virtualtale/display/DeltaCompressor.java:43-47 | the empty slot gets a fresh zero-padded copy of the pixels |
| DeltaCompression.DeltaCompressor.Overwrite | src/main/java/dev/chasem/hg/virtualtale/display/DeltaCompressor.java:49-52 | the slot's baseline becomes the first `chunkPixelCount` pixels; no other slot changes |
| DeltaCompression.DeltaCompressor.Reset | src/main/java/dev/chasem/hg/virtualtale/display/DeltaCompressor.java:60-62 | every slot becomes empty |
| DeltaCompression.ArraysEqual | src/main/java/dev/chasem/hg/virtualtale/display/DeltaCompressor.java:49-49 | true exactly when the two ranges `[0, n)` are equal |
| MapGeometry.FloorDiv | src/main/java/dev/chasem/hg/virtualtale/display/MapDisplayRenderer.java:124-125 | the quotient rounded towards minus infinity, for either sign of the divisor |
| MapGeometry.CeilDiv | src/main/java/dev/chasem/hg/virtualtale/display/MapDisplayRenderer.java:149-151 | the quotient rounded towards plus infinity: the least `q` with `q*b >= a` for positive `b` |
| MapGeometry.CeilDivExamples | src/test/java/dev/chasem/hg/virtualtale/display/MapDisplayRendererTest.java:212-219 | `ceilDiv` of 10, 9, 0, -10 and -9 by 3 |
| MapGeometry.ComputeGeometry | src/main/java/dev/chasem/hg/virtualtale/display/MapDisplayRenderer.java:105-144 | scale `max(1, mapScale)`; display of `pixel*scale` blocks centred on the anchor; the inner grid is the tightest tile range covering display plus border; the outer grid adds 8 tiles per side |
| MapGeometry.GameBoyGeometryExample | src/test/java/dev/chasem/hg/virtualtale/display/MapDisplayRendererTest.java:124-144 | a Game Boy screen at (80, 72) starts at block (0, 0) with a 7x6 inner and a 23x22 outer grid; at (0, 0) it starts at (-80, -72) |
| MapGeometry.LargerScaleExample | src/test/java/dev/chasem/hg/virtualtale/display/MapDisplayRendererTest.java:162-170 | at the origin scale 2 needs a 12x10 inner grid where scale 1 needs 6x6 |
| MapGeometry.GeometryFitsInt | src/main/java/dev/chasem/hg/virtualtale/display/MapDisplayRenderer.java:105-144 | under the input bounds every coordinate, the grid size and the frame size fit a Java `int` |
| MapGeometry.InnerIndex | src/main/java/dev/chasem/hg/virtualtale/display/MapDisplayRenderer.java:181-183 | an inner tile's cache index lies within the cache |
| MapGeometry.InnerIndexInjective | src/main/java/dev/chasem/hg/virtualtale/display/MapDisplayRenderer.java:181-183 | distinct inner tiles use distinct cache slots |
| MapGeometry.InnerIndexOnto | src/main/java/dev/chasem/hg/virtualtale/display/MapDisplayRenderer.java:136-140 | every cache slot belongs to an inner tile |
| MapGeometry.ZoneRule | src/main/java/dev/chasem/hg/virtualtale/display/MapDisplayRenderer.java:252-285 | with a `pixel*scale` display: a display block shows its in-range frame pixel, a border block is gray, any other block is black |
| MapGeometry.ScaledPixelReplicated | src/main/java/dev/chasem/hg/virtualtale/display/MapDisplayRenderer.java:262-275 | every block of a frame pixel's `scale`x`scale` square shows that pixel |
| MapGeometry.PaddingTileIsBlack | src/main/java/dev/chasem/hg/virtualtale/display/MapDisplayRenderer.java:192-199 | a tile outside the inner grid renders all black, which justifies the 1x1 black padding image |
| MapGeometry.ZoneExamples | src/test/java/dev/chasem/hg/virtualtale/display/MapDisplayRendererTest.java:27-122 | the display, border, outside and scale-2 examples |
| MapGeometry.ExtractChunk | src/main/java/dev/chasem/hg/virtualtale/display/MapDisplayRenderer.java:236-288 | the first 4096 destination pixels are the tile's image under the colour rule; the rest of the destination is unchanged |
| MapGeometry.ExtractRow | src/main/java/dev/chasem/hg/virtualtale/display/MapDisplayRenderer.java:249-286 | image row `py` holds the tile image's row under the colour rule; nothing else in `dest` changes |
| MapGeometry.FillRow | src/main/java/dev/chasem/hg/virtualtale/display/MapDisplayRenderer.java:262-286 | for a row that reaches the border, each pixel gets its world block's colour; nothing outside the row changes |
| MapGeometry.BlockColour | src/main/java/dev/chasem/hg/virtualtale/display/MapDisplayRenderer.java:266-285 | the colour chosen from the row's precomputed values is the colour rule's value for that world block |
| MapDisplay.TileEmission | src/main/java/dev/chasem/hg/virtualtale/display/MapDisplayRenderer.java:168-201 | an update for tile (row, col) carries that tile's absolute coordinates |
| MapDisplay.RowEmissionsSound | src/main/java/dev/chasem/hg/virtualtale/display/MapDisplayRenderer.java:167-201 | every update a row lists belongs to a tile of that row and is that tile's update |
| MapDisplay.RowEmissionsSorted | src/main/java/dev/chasem/hg/virtualtale/display/MapDisplayRenderer.java:167-201 | a row lists its updates left to right |
| MapDisplay.RowEmissionsComplete | src/main/java/dev/chasem/hg/virtualtale/display/MapDisplayRenderer.java:167-201 | every tile of the row that has an update has it listed |
| MapDisplay.GridEmissionsSorted | src/main/java/dev/chasem/hg/virtualtale/display/MapDisplayRenderer.java:166-202 | the updates of the first `n` rows are in row-major order, within those rows |
| MapDisplay.GridEmissionsSound | src/main/java/dev/chasem/hg/virtualtale/display/MapDisplayRenderer.java:166-202 | every listed update is the update of its own tile |
| MapDisplay.GridEmissionsComplete | src/main/java/dev/chasem/hg/virtualtale/display/MapDisplayRenderer.java:166-202 | every tile that has an update is listed |
| MapDisplay.EmissionsExactly | src/main/java/dev/chasem/hg/virtualtale/display/MapDisplayRenderer.java:161-213 | a packet lists each tile needing an update exactly once, in row-major order, and nothing else |
| MapDisplay.EmissionShapes | src/main/java/dev/chasem/hg/virtualtale/display/MapDisplayRenderer.java:175-199 | inner updates are 64x64 tile images; padding updates are 1x1 black |
| MapDisplay.RowEmissionsCount | src/main/java/dev/chasem/hg/virtualtale/display/MapDisplayRenderer.java:167-201 | if every tile of a row has an update, the row yields one per tile |
| MapDisplay.GridEmissionsCount | src/main/java/dev/chasem/hg/virtualtale/display/MapDisplayRenderer.java:166-202 | if every tile has an update, `n` rows yield `n*gridWidth` updates |
| MapDisplay.FirstRenderSendsEveryTile | src/test/java/dev/chasem/hg/virtualtale/display/MapDisplayRendererTest.java:146-160 | from an empty cache and no padding sent, one render sends all `gridWidth*gridHeight` tiles |
| MapDisplay.RowEmissionsNone | src/main/java/dev/chasem/hg/virtualtale/display/MapDisplayRenderer.java:167-201 | a row with no tile updates yields nothing |
| MapDisplay.GridEmissionsNone | src/main/java/dev/chasem/hg/virtualtale/display/MapDisplayRenderer.java:166-202 | rows with no tile updates yield nothing |
| MapDisplay.RenderAgainSendsNothing | src/main/java/dev/chasem/hg/virtualtale/display/MapDisplayRenderer.java:204-206 | once the cache holds the frame and all padding is flagged, rendering the same frame gives `null` |
| MapDisplay.PaddingSentOnce | src/main/java/dev/chasem/hg/virtualtale/display/MapDisplayRenderer.java:193-199 | once all padding is flagged, only inner tiles are sent |
| MapDisplay.MapDisplayRenderer.constructor | src/main/java/dev/chasem/hg/virtualtale/display/MapDisplayRenderer.java:105-144 | geometry as `ComputeGeometry`, an empty cache of the inner grid's size, no padding flagged |
| MapDisplay.MapDisplayRenderer.RenderTile | src/main/java/dev/chasem/hg/virtualtale/display/MapDisplayRenderer.java:168-201 | the tile's update is `TileEmission` of the old state; an inner tile's baseline becomes its image; a padding tile gets flagged |
| MapDisplay.MapDisplayRenderer.RenderInnerTile | src/main/java/dev/chasem/hg/virtualtale/display/MapDisplayRenderer.java:175-191 | an inner tile's update is `TileEmission`, sent when its image differs from the baseline, which becomes that image |
| MapDisplay.MapDisplayRenderer.RenderStep | src/main/java/dev/chasem/hg/virtualtale/display/MapDisplayRenderer.java:167-201 | one iteration, seen from the start of the frame: the update is that state's `TileEmission`, and cache and flags advance by one tile |
| MapDisplay.MapDisplayRenderer.RenderFrame | src/main/java/dev/chasem/hg/virtualtale/display/MapDisplayRenderer.java:161-213 | the packet is `Emissions` of the old cache and flags, `null` when empty; afterwards the cache holds every inner tile's image and exactly the padding tiles are newly flagged |
| MapDisplay.MapDisplayRenderer.RenderRow | src/main/java/dev/chasem/hg/virtualtale/display/MapDisplayRenderer.java:167-201 | one row of the loop: its updates are `RowEmissions` of the state before the frame, and the cache and flags advance by that row |
| MapDisplay.MapDisplayRenderer.Reset | src/main/java/dev/chasem/hg/virtualtale/display/MapDisplayRenderer.java:301-304 | the cache is emptied and a fresh all-false padding array replaces the old one |
| Emulator.TickPeriodMs | src/main/java/dev/chasem/hg/virtualtale/emulator/EmulatorSession.java:82-88 | a period exists exactly for 1..1000 FPS; it is the largest positive `p` with `p*fps <= 1000` |
| Emulator.TickPeriodExamples | src/main/java/dev/chasem/hg/virtualtale/emulator/EmulatorSession.java:82-88 | 20 FPS gives 50 ms and 30 FPS 33 ms; 0, 1001 and -5 FPS cannot be scheduled |
| Emulator.EmulatorSession.constructor | src/main/java/dev/chasem/hg/virtualtale/emulator/EmulatorSession.java:42-66 | a renderer for the screen size, buffers of the frame buffer's size, no frame rendered, nothing sent |
| Emulator.EmulatorSession.Start | src/main/java/dev/chasem/hg/virtualtale/emulator/EmulatorSession.java:71-92 | the clearing packet is sent first; scheduling succeeds exactly for 1..1000 FPS, with period `TickPeriodMs` |
| Emulator.EmulatorSession.RenderTick | src/main/java/dev/chasem/hg/virtualtale/emulator/EmulatorSession.java:121-141 | no new frame changes nothing (counter, packets, cache, padding flags and both buffers stay); otherwise the counter is recorded, the frame is copied and converted, and the packet of `Emissions` is sent if non-empty; afterwards the cache matches the frame and all padding is flagged |
| Emulator.EmulatorSession.DrawFrame | src/main/java/dev/chasem/hg/virtualtale/emulator/EmulatorSession.java:130-137 | the copied frame is converted, its `Emissions` packet is sent if non-empty, and afterwards the cache matches the frame and all padding is flagged |
| Emulator.FirstTickRenders | src/main/java/dev/chasem/hg/virtualtale/emulator/EmulatorSession.java:36-36 | starting from counter -1, the first tick always sees a frame |

## Left out

- Threads, locks, the atomic counter and the scheduled executor:
  - every operation is modelled as running alone;
  - `getLatestFrame` reads the counter once, with no submit in between.
- `EmulatorSession.stop`: it only cancels the scheduler and stops the emulator backend. Neither the scheduler nor the backend is modelled.
- Emulator backends, ROM loading, logging and the player identity are not modelled.
- Packet delivery is modelled as appending to `sent`. A failed `write` is not modelled; in the source it is logged and swallowed, with the cache already updated.
- The render tick catches every exception. The model instead requires the inputs under which nothing throws: the frame buffer holds at least `width*height` pixels.
- `Start`: `backend.start()` and its `IOException` are not modelled.
- Renderer and session constructors:
  - they take the already rounded integer anchor, not the `double` player position;
  - `Math.round` is not modelled.
- Java `int` overflow:
  - the model uses unbounded integers;
  - `GeometryFitsInt` bounds the values only for inputs satisfying `InputsInRange`;
  - wrap-around outside those bounds is not modelled.
- Negative sizes:
  - the source throws `NegativeArraySizeException` for a negative frame size, grid size or chunk pixel count;
  - the model requires non-negative sizes, and `chunkPixelCount` is a `nat`.
- `ToRgbaArray`: where `len` exceeds either array the source throws. The model requires `len` within both arrays.
- `HasChanged`: where `pixels` is shorter than `chunkPixelCount` and a baseline exists, the source throws. The model requires enough pixels.
- `Detect`:
  - `File.getName` is not modelled; the name is passed directly;
  - lower-casing folds only ASCII letters, whereas Java's `toLowerCase` is locale-dependent full Unicode folding.
- Getters (`getGridWidth`, `getInnerGridWidth`, `getTotalChunks`, ...) are the `Geometry` and class fields themselves.
- The renderer's Game Boy default constructor only fixes 160x144, so it is not modelled separately.
- `FrameBuffer.GetFrameCount` returns the counter field and carries no contract of its own.
- The map packets' client-side rendering is not modelled. Neither are the `MapChunk`/`MapImage` classes beyond their coordinates, size and pixels.

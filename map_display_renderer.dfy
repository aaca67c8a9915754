/**
 * The map display renderer: each emulator frame is cut into map tiles over
 * the outer grid, row by row. An inner tile is rendered in full and sent
 * only when the change cache says it differs from what was last sent; a
 * padding tile is sent once, as a 1x1 black image, until the next reset.
 *
 * Tiles are addressed by (row, col) in the outer grid; tile (row, col) is
 * the absolute map tile (gridMinChunkX + col, gridMinChunkZ + row).
 */
module MapDisplay {
  import opened Options
  import opened ColorMapper
  import opened DeltaCompression
  import opened MapGeometry

  /** One tile update of a map packet: its absolute tile coordinates and its image. */
  datatype Chunk = Chunk(chunkX: int, chunkZ: int, width: int, height: int, pixels: seq<Pixel>)

  /** The update sent for a padding tile: a single black pixel the client stretches over the tile. */
  function PaddingChunk(chunkX: int, chunkZ: int): Chunk
  {
    Chunk(chunkX, chunkZ, 1, 1, [BLACK])
  }

  predicate InGrid(g: Geometry, row: int, col: int)
  {
    0 <= row < g.gridHeight && 0 <= col < g.gridWidth
  }

  function TileX(g: Geometry, col: int): int
  {
    g.gridMinChunkX + col
  }

  function TileZ(g: Geometry, row: int): int
  {
    g.gridMinChunkZ + row
  }

  predicate IsInnerTile(g: Geometry, row: int, col: int)
  {
    IsInnerChunk(g, TileX(g, col), TileZ(g, row))
  }

  /** The padding flag of tile (row, col): its row-major index in the outer grid. */
  function GridIndex(g: Geometry, row: int, col: int): (k: int)
    requires WellFormed(g)
    ensures InGrid(g, row, col) ==> 0 <= k < g.gridWidth * g.gridHeight
  {
    var k := row * g.gridWidth + col;
    if InGrid(g, row, col) then
      FrameIndexInRange(col, row, g.gridWidth, g.gridHeight);
      k
    else
      k
  }

  /** The change-cache slot of tile (row, col). */
  function TileInnerIndex(g: Geometry, row: int, col: int): (k: int)
    requires WellFormed(g)
    ensures IsInnerTile(g, row, col) ==> 0 <= k < g.InnerWidth() * g.InnerHeight()
  {
    InnerIndex(g, TileX(g, col), TileZ(g, row))
  }

  /** What the renderer reads: a geometry, a frame, the cache baselines and the padding flags. */
  ghost predicate RenderInputs(g: Geometry, frame: seq<Pixel>, baselines: seq<Option<seq<Pixel>>>, sent: seq<bool>)
  {
    && WellFormed(g)
    && |frame| >= g.pixelW * g.pixelH
    && |baselines| == g.InnerWidth() * g.InnerHeight()
    && |sent| == g.gridWidth * g.gridHeight
  }

  /** The rendered image of tile (row, col). */
  function TileImage(g: Geometry, frame: seq<Pixel>, row: int, col: int): seq<Pixel>
    requires WellFormed(g) && |frame| >= g.pixelW * g.pixelH
  {
    ChunkImage(frame, g.DisplayPlacement(), TileX(g, col), TileZ(g, row))
  }

  /**
   * The update tile (row, col) contributes to the packet: an inner tile
   * whose image differs from its baseline (or has none) is sent in full; a
   * padding tile is sent as black unless its flag is already set.
   */
  function TileEmission(g: Geometry, frame: seq<Pixel>, baselines: seq<Option<seq<Pixel>>>, sent: seq<bool>,
                        row: int, col: int): (e: Option<Chunk>)
    requires RenderInputs(g, frame, baselines, sent) && InGrid(g, row, col)
    ensures e.Some? ==> e.value.chunkX == TileX(g, col) && e.value.chunkZ == TileZ(g, row)
  {
    if IsInnerTile(g, row, col) then
      var image := TileImage(g, frame, row, col);
      if baselines[TileInnerIndex(g, row, col)] == Some(image) then None
      else Some(Chunk(TileX(g, col), TileZ(g, row), CHUNK_IMAGE_SIZE, CHUNK_IMAGE_SIZE, image))
    else if sent[GridIndex(g, row, col)] then
      None
    else
      Some(PaddingChunk(TileX(g, col), TileZ(g, row)))
  }

  function Emitted(e: Option<Chunk>): seq<Chunk>
  {
    if e.Some? then [e.value] else []
  }

  /** The updates of the first `n` tiles of row `row`, left to right. */
  function RowEmissions(g: Geometry, frame: seq<Pixel>, baselines: seq<Option<seq<Pixel>>>, sent: seq<bool>,
                        row: int, n: int): seq<Chunk>
    requires RenderInputs(g, frame, baselines, sent) && 0 <= row < g.gridHeight && 0 <= n <= g.gridWidth
    decreases n
  {
    if n == 0 then []
    else RowEmissions(g, frame, baselines, sent, row, n - 1) + Emitted(TileEmission(g, frame, baselines, sent, row, n - 1))
  }

  /** The updates of the first `n` rows, top to bottom. */
  function GridEmissions(g: Geometry, frame: seq<Pixel>, baselines: seq<Option<seq<Pixel>>>, sent: seq<bool>,
                         n: int): seq<Chunk>
    requires RenderInputs(g, frame, baselines, sent) && 0 <= n <= g.gridHeight
    decreases n
  {
    if n == 0 then []
    else GridEmissions(g, frame, baselines, sent, n - 1) + RowEmissions(g, frame, baselines, sent, n - 1, g.gridWidth)
  }

  /** Every update one render produces, in the order the packet lists them. */
  function Emissions(g: Geometry, frame: seq<Pixel>, baselines: seq<Option<seq<Pixel>>>, sent: seq<bool>): seq<Chunk>
    requires RenderInputs(g, frame, baselines, sent)
  {
    GridEmissions(g, frame, baselines, sent, g.gridHeight)
  }

  /** The packet: `None` (the source's `null`) when there is nothing to send. */
  function Batch(chunks: seq<Chunk>): Option<seq<Chunk>>
  {
    if chunks == [] then None else Some(chunks)
  }

  /** `a` comes before `b` in row-major order of tile coordinates. */
  predicate Before(a: Chunk, b: Chunk)
  {
    a.chunkZ < b.chunkZ || (a.chunkZ == b.chunkZ && a.chunkX < b.chunkX)
  }

  predicate RowMajorSorted(s: seq<Chunk>)
  {
    forall i, j :: 0 <= i < j < |s| ==> Before(s[i], s[j])
  }

  /** Every cache slot holds the current image of its tile. */
  ghost predicate BaselinesMatch(g: Geometry, frame: seq<Pixel>, baselines: seq<Option<seq<Pixel>>>)
    requires WellFormed(g) && |frame| >= g.pixelW * g.pixelH && |baselines| == g.InnerWidth() * g.InnerHeight()
  {
    forall row, col :: IsInnerTile(g, row, col) ==>
      baselines[TileInnerIndex(g, row, col)] == Some(TileImage(g, frame, row, col))
  }

  /** Every padding tile is flagged as sent. */
  ghost predicate AllPaddingSent(g: Geometry, sent: seq<bool>)
    requires WellFormed(g) && |sent| == g.gridWidth * g.gridHeight
  {
    forall row, col :: InGrid(g, row, col) && !IsInnerTile(g, row, col) ==> sent[GridIndex(g, row, col)]
  }

  /** Appending a sorted run that lies wholly after a sorted prefix keeps the sequence sorted. */
  lemma SortedAppend(a: seq<Chunk>, b: seq<Chunk>)
    requires RowMajorSorted(a) && RowMajorSorted(b)
    requires forall x, y :: x in a && y in b ==> Before(x, y)
    ensures RowMajorSorted(a + b)
  {
    forall i, j | 0 <= i < j < |a + b|
      ensures Before((a + b)[i], (a + b)[j])
    {
      if j < |a| {
        assert (a + b)[i] == a[i] && (a + b)[j] == a[j];
      } else if i >= |a| {
        assert (a + b)[i] == b[i - |a|] && (a + b)[j] == b[j - |a|];
      } else {
        assert (a + b)[i] == a[i] && a[i] in a;
        assert (a + b)[j] == b[j - |a|] && b[j - |a|] in b;
      }
    }
  }

  /** The updates of a run of tiles, in order: the tiles that have one, each contributing it. */
  function Flatten(tiles: seq<Option<Chunk>>): seq<Chunk>
  {
    if |tiles| == 0 then [] else Flatten(tiles[..|tiles| - 1]) + Emitted(tiles[|tiles| - 1])
  }

  /** Tile `i` of the run, when it has an update, sits at column `x0 + i` of tile row `z`. */
  predicate Placed(tiles: seq<Option<Chunk>>, x0: int, z: int)
  {
    forall i :: 0 <= i < |tiles| && tiles[i].Some? ==> tiles[i].value.chunkX == x0 + i && tiles[i].value.chunkZ == z
  }

  /** Every update of a placed run is the update of the tile at its own column. */
  lemma {:induction false} FlattenSound(tiles: seq<Option<Chunk>>, x0: int, z: int)
    requires Placed(tiles, x0, z)
    ensures forall c :: c in Flatten(tiles) ==>
      c.chunkZ == z && x0 <= c.chunkX < x0 + |tiles| && tiles[c.chunkX - x0] == Some(c)
    decreases |tiles|
  {
    if |tiles| > 0 {
      var prefix := tiles[..|tiles| - 1];
      var t := tiles[|tiles| - 1];
      assert Placed(prefix, x0, z) by {
        forall i | 0 <= i < |prefix| && prefix[i].Some?
          ensures prefix[i].value.chunkX == x0 + i && prefix[i].value.chunkZ == z
        {
          assert prefix[i] == tiles[i];
        }
      }
      FlattenSound(prefix, x0, z);
      forall c | c in Flatten(prefix) + Emitted(t)
        ensures c.chunkZ == z && x0 <= c.chunkX < x0 + |tiles| && tiles[c.chunkX - x0] == Some(c)
      {
        if c in Flatten(prefix) {
          assert tiles[c.chunkX - x0] == prefix[c.chunkX - x0];
        } else {
          assert t.Some? && c == t.value;
        }
      }
    }
  }

  /** A placed run lists its updates left to right. */
  lemma {:induction false} FlattenSorted(tiles: seq<Option<Chunk>>, x0: int, z: int)
    requires Placed(tiles, x0, z)
    ensures RowMajorSorted(Flatten(tiles))
    decreases |tiles|
  {
    if |tiles| > 0 {
      var prefix := tiles[..|tiles| - 1];
      var t := tiles[|tiles| - 1];
      assert Placed(prefix, x0, z) by {
        forall i | 0 <= i < |prefix| && prefix[i].Some?
          ensures prefix[i].value.chunkX == x0 + i && prefix[i].value.chunkZ == z
        {
          assert prefix[i] == tiles[i];
        }
      }
      FlattenSorted(prefix, x0, z);
      FlattenSound(prefix, x0, z);
      SortedAppend(Flatten(prefix), Emitted(t));
    }
  }

  /** Every tile of a run that has an update has it listed. */
  lemma {:induction false} FlattenComplete(tiles: seq<Option<Chunk>>)
    ensures forall i :: 0 <= i < |tiles| && tiles[i].Some? ==> tiles[i].value in Flatten(tiles)
    decreases |tiles|
  {
    if |tiles| > 0 {
      var prefix := tiles[..|tiles| - 1];
      var t := tiles[|tiles| - 1];
      FlattenComplete(prefix);
      forall i | 0 <= i < |tiles| && tiles[i].Some?
        ensures tiles[i].value in Flatten(prefix) + Emitted(t)
      {
        if i < |tiles| - 1 {
          assert tiles[i] == prefix[i];
        } else {
          assert t.value in Emitted(t);
        }
      }
    }
  }

  /** The outcomes of the first `n` tiles of row `row`, left to right. */
  function RowTiles(g: Geometry, frame: seq<Pixel>, baselines: seq<Option<seq<Pixel>>>, sent: seq<bool>,
                    row: int, n: int): (tiles: seq<Option<Chunk>>)
    requires RenderInputs(g, frame, baselines, sent) && 0 <= row < g.gridHeight && 0 <= n <= g.gridWidth
    ensures |tiles| == n
    ensures forall col :: 0 <= col < n ==> tiles[col] == TileEmission(g, frame, baselines, sent, row, col)
  {
    seq(n, col requires 0 <= col < n => TileEmission(g, frame, baselines, sent, row, col))
  }

  /** A row's updates are the flattened outcomes of its tiles, and those are placed at their columns. */
  lemma {:induction false} RowEmissionsFlatten(g: Geometry, frame: seq<Pixel>, baselines: seq<Option<seq<Pixel>>>, sent: seq<bool>,
                                               row: int, n: int)
    requires RenderInputs(g, frame, baselines, sent) && 0 <= row < g.gridHeight && 0 <= n <= g.gridWidth
    ensures RowEmissions(g, frame, baselines, sent, row, n) == Flatten(RowTiles(g, frame, baselines, sent, row, n))
    ensures Placed(RowTiles(g, frame, baselines, sent, row, n), g.gridMinChunkX, TileZ(g, row))
    decreases n
  {
    var tiles := RowTiles(g, frame, baselines, sent, row, n);
    if n > 0 {
      RowEmissionsFlatten(g, frame, baselines, sent, row, n - 1);
      assert tiles[..n - 1] == RowTiles(g, frame, baselines, sent, row, n - 1);
    }
    forall i | 0 <= i < n && tiles[i].Some?
      ensures tiles[i].value.chunkX == g.gridMinChunkX + i && tiles[i].value.chunkZ == TileZ(g, row)
    {
      assert tiles[i] == TileEmission(g, frame, baselines, sent, row, i);
    }
  }

  /** Every update listed for row `row` is the update of its own tile among the first `n`. */
  lemma RowEmissionsSound(g: Geometry, frame: seq<Pixel>, baselines: seq<Option<seq<Pixel>>>, sent: seq<bool>,
                          row: int, n: int)
    requires RenderInputs(g, frame, baselines, sent) && 0 <= row < g.gridHeight && 0 <= n <= g.gridWidth
    ensures forall c :: c in RowEmissions(g, frame, baselines, sent, row, n) ==>
      && c.chunkZ == TileZ(g, row) && g.gridMinChunkX <= c.chunkX < g.gridMinChunkX + n
      && TileEmission(g, frame, baselines, sent, row, c.chunkX - g.gridMinChunkX) == Some(c)
  {
    var tiles := RowTiles(g, frame, baselines, sent, row, n);
    RowEmissionsFlatten(g, frame, baselines, sent, row, n);
    FlattenSound(tiles, g.gridMinChunkX, TileZ(g, row));
    forall c | c in RowEmissions(g, frame, baselines, sent, row, n)
      ensures c.chunkZ == TileZ(g, row) && g.gridMinChunkX <= c.chunkX < g.gridMinChunkX + n
      ensures TileEmission(g, frame, baselines, sent, row, c.chunkX - g.gridMinChunkX) == Some(c)
    {
      assert tiles[c.chunkX - g.gridMinChunkX] == Some(c);
    }
  }

  /** Row `row` lists its updates left to right. */
  lemma RowEmissionsSorted(g: Geometry, frame: seq<Pixel>, baselines: seq<Option<seq<Pixel>>>, sent: seq<bool>,
                           row: int, n: int)
    requires RenderInputs(g, frame, baselines, sent) && 0 <= row < g.gridHeight && 0 <= n <= g.gridWidth
    ensures RowMajorSorted(RowEmissions(g, frame, baselines, sent, row, n))
  {
    RowEmissionsFlatten(g, frame, baselines, sent, row, n);
    FlattenSorted(RowTiles(g, frame, baselines, sent, row, n), g.gridMinChunkX, TileZ(g, row));
  }

  /** Every tile among the first `n` of row `row` that has an update has it listed. */
  lemma RowEmissionsComplete(g: Geometry, frame: seq<Pixel>, baselines: seq<Option<seq<Pixel>>>, sent: seq<bool>,
                             row: int, n: int)
    requires RenderInputs(g, frame, baselines, sent) && 0 <= row < g.gridHeight && 0 <= n <= g.gridWidth
    ensures forall col :: 0 <= col < n && TileEmission(g, frame, baselines, sent, row, col).Some? ==>
      TileEmission(g, frame, baselines, sent, row, col).value in RowEmissions(g, frame, baselines, sent, row, n)
  {
    RowEmissionsFlatten(g, frame, baselines, sent, row, n);
    FlattenComplete(RowTiles(g, frame, baselines, sent, row, n));
  }

  /** The first `n` rows are listed row after row, so in row-major order. */
  lemma {:induction false} GridEmissionsSorted(g: Geometry, frame: seq<Pixel>, baselines: seq<Option<seq<Pixel>>>, sent: seq<bool>, n: int)
    requires RenderInputs(g, frame, baselines, sent) && 0 <= n <= g.gridHeight
    ensures RowMajorSorted(GridEmissions(g, frame, baselines, sent, n))
    ensures forall c :: c in GridEmissions(g, frame, baselines, sent, n) ==> g.gridMinChunkZ <= c.chunkZ < g.gridMinChunkZ + n
    decreases n
  {
    if n > 0 {
      GridEmissionsSorted(g, frame, baselines, sent, n - 1);
      RowEmissionsSorted(g, frame, baselines, sent, n - 1, g.gridWidth);
      RowEmissionsSound(g, frame, baselines, sent, n - 1, g.gridWidth);
      SortedAppend(GridEmissions(g, frame, baselines, sent, n - 1), RowEmissions(g, frame, baselines, sent, n - 1, g.gridWidth));
    }
  }

  /** Every update listed for the first `n` rows is the update of its own tile. */
  lemma {:induction false} GridEmissionsSound(g: Geometry, frame: seq<Pixel>, baselines: seq<Option<seq<Pixel>>>, sent: seq<bool>, n: int)
    requires RenderInputs(g, frame, baselines, sent) && 0 <= n <= g.gridHeight
    ensures forall c :: c in GridEmissions(g, frame, baselines, sent, n) ==>
      && InGrid(g, c.chunkZ - g.gridMinChunkZ, c.chunkX - g.gridMinChunkX)
      && TileEmission(g, frame, baselines, sent, c.chunkZ - g.gridMinChunkZ, c.chunkX - g.gridMinChunkX) == Some(c)
    decreases n
  {
    if n > 0 {
      GridEmissionsSound(g, frame, baselines, sent, n - 1);
      RowEmissionsSound(g, frame, baselines, sent, n - 1, g.gridWidth);
      var prefix := GridEmissions(g, frame, baselines, sent, n - 1);
      var last := RowEmissions(g, frame, baselines, sent, n - 1, g.gridWidth);
      forall c: Chunk | c in prefix + last
        ensures InGrid(g, c.chunkZ - g.gridMinChunkZ, c.chunkX - g.gridMinChunkX)
        ensures TileEmission(g, frame, baselines, sent, c.chunkZ - g.gridMinChunkZ, c.chunkX - g.gridMinChunkX) == Some(c)
      {
        if c !in prefix {
          assert c in last && c.chunkZ - g.gridMinChunkZ == n - 1;
        }
      }
    }
  }

  /** Every tile of the first `n` rows that has an update has it listed. */
  lemma {:induction false} GridEmissionsComplete(g: Geometry, frame: seq<Pixel>, baselines: seq<Option<seq<Pixel>>>, sent: seq<bool>, n: int)
    requires RenderInputs(g, frame, baselines, sent) && 0 <= n <= g.gridHeight
    ensures forall row, col :: 0 <= row < n && 0 <= col < g.gridWidth && TileEmission(g, frame, baselines, sent, row, col).Some? ==>
      TileEmission(g, frame, baselines, sent, row, col).value in GridEmissions(g, frame, baselines, sent, n)
    decreases n
  {
    if n > 0 {
      GridEmissionsComplete(g, frame, baselines, sent, n - 1);
      RowEmissionsComplete(g, frame, baselines, sent, n - 1, g.gridWidth);
    }
  }

  /**
   * The packet holds exactly the updates of the tiles that have one, each
   * once, in row-major order (top row first, left to right).
   */
  lemma EmissionsExactly(g: Geometry, frame: seq<Pixel>, baselines: seq<Option<seq<Pixel>>>, sent: seq<bool>)
    requires RenderInputs(g, frame, baselines, sent)
    ensures var e := Emissions(g, frame, baselines, sent);
      && RowMajorSorted(e)
      && (forall c :: c in e ==>
            && InGrid(g, c.chunkZ - g.gridMinChunkZ, c.chunkX - g.gridMinChunkX)
            && TileEmission(g, frame, baselines, sent, c.chunkZ - g.gridMinChunkZ, c.chunkX - g.gridMinChunkX) == Some(c))
      && (forall row, col :: InGrid(g, row, col) && TileEmission(g, frame, baselines, sent, row, col).Some? ==>
            TileEmission(g, frame, baselines, sent, row, col).value in e)
  {
    GridEmissionsSorted(g, frame, baselines, sent, g.gridHeight);
    GridEmissionsSound(g, frame, baselines, sent, g.gridHeight);
    GridEmissionsComplete(g, frame, baselines, sent, g.gridHeight);
  }

  /**
   * The shape of every update: an inner tile goes out as its full 64x64
   * image, a padding tile as one black pixel, and only when its flag was
   * clear.
   */
  lemma EmissionShapes(g: Geometry, frame: seq<Pixel>, baselines: seq<Option<seq<Pixel>>>, sent: seq<bool>)
    requires RenderInputs(g, frame, baselines, sent)
    ensures forall c :: c in Emissions(g, frame, baselines, sent) ==>
      var row, col := c.chunkZ - g.gridMinChunkZ, c.chunkX - g.gridMinChunkX;
      && InGrid(g, row, col)
      && (IsInnerChunk(g, c.chunkX, c.chunkZ) ==>
            c.width == CHUNK_IMAGE_SIZE && c.height == CHUNK_IMAGE_SIZE && c.pixels == TileImage(g, frame, row, col)
            && baselines[InnerIndex(g, c.chunkX, c.chunkZ)] != Some(c.pixels))
      && (!IsInnerChunk(g, c.chunkX, c.chunkZ) ==>
            c == PaddingChunk(c.chunkX, c.chunkZ) && !sent[GridIndex(g, row, col)])
  {
    EmissionsExactly(g, frame, baselines, sent);
  }

  lemma {:induction false} RowEmissionsCount(g: Geometry, frame: seq<Pixel>, baselines: seq<Option<seq<Pixel>>>, sent: seq<bool>,
                          row: int, n: int)
    requires RenderInputs(g, frame, baselines, sent) && 0 <= row < g.gridHeight && 0 <= n <= g.gridWidth
    requires forall col :: 0 <= col < n ==> TileEmission(g, frame, baselines, sent, row, col).Some?
    ensures |RowEmissions(g, frame, baselines, sent, row, n)| == n
    decreases n
  {
    if n > 0 {
      RowEmissionsCount(g, frame, baselines, sent, row, n - 1);
    }
  }

  lemma {:induction false} GridEmissionsCount(g: Geometry, frame: seq<Pixel>, baselines: seq<Option<seq<Pixel>>>, sent: seq<bool>, n: int)
    requires RenderInputs(g, frame, baselines, sent) && 0 <= n <= g.gridHeight
    requires forall row, col :: 0 <= row < n && 0 <= col < g.gridWidth ==>
      TileEmission(g, frame, baselines, sent, row, col).Some?
    ensures |GridEmissions(g, frame, baselines, sent, n)| == n * g.gridWidth
    decreases n
  {
    if n > 0 {
      GridEmissionsCount(g, frame, baselines, sent, n - 1);
      RowEmissionsCount(g, frame, baselines, sent, n - 1, g.gridWidth);
      assert n * g.gridWidth == (n - 1) * g.gridWidth + g.gridWidth;
    }
  }

  /**
   * A render from a cleared state (no baselines, no padding flags, as after
   * construction or a reset) sends every tile of the outer grid.
   */
  lemma FirstRenderSendsEveryTile(g: Geometry, frame: seq<Pixel>, baselines: seq<Option<seq<Pixel>>>, sent: seq<bool>)
    requires RenderInputs(g, frame, baselines, sent)
    requires forall i :: 0 <= i < |baselines| ==> baselines[i] == None
    requires forall i :: 0 <= i < |sent| ==> !sent[i]
    ensures |Emissions(g, frame, baselines, sent)| == g.gridWidth * g.gridHeight
  {
    GridEmissionsCount(g, frame, baselines, sent, g.gridHeight);
  }

  lemma {:induction false} RowEmissionsNone(g: Geometry, frame: seq<Pixel>, baselines: seq<Option<seq<Pixel>>>, sent: seq<bool>,
                                            row: int, n: int)
    requires RenderInputs(g, frame, baselines, sent) && 0 <= row < g.gridHeight && 0 <= n <= g.gridWidth
    requires forall col :: 0 <= col < n ==> TileEmission(g, frame, baselines, sent, row, col) == None
    ensures RowEmissions(g, frame, baselines, sent, row, n) == []
    decreases n
  {
    if n > 0 {
      RowEmissionsNone(g, frame, baselines, sent, row, n - 1);
    }
  }

  lemma {:induction false} GridEmissionsNone(g: Geometry, frame: seq<Pixel>, baselines: seq<Option<seq<Pixel>>>, sent: seq<bool>, n: int)
    requires RenderInputs(g, frame, baselines, sent) && 0 <= n <= g.gridHeight
    requires forall row, col :: 0 <= row < n && 0 <= col < g.gridWidth ==>
      TileEmission(g, frame, baselines, sent, row, col) == None
    ensures GridEmissions(g, frame, baselines, sent, n) == []
    decreases n
  {
    if n > 0 {
      GridEmissionsNone(g, frame, baselines, sent, n - 1);
      RowEmissionsNone(g, frame, baselines, sent, n - 1, g.gridWidth);
    }
  }

  /**
   * Once every baseline holds its tile's image and every padding flag is
   * set, rendering the same frame again sends nothing.
   */
  lemma RenderAgainSendsNothing(g: Geometry, frame: seq<Pixel>, baselines: seq<Option<seq<Pixel>>>, sent: seq<bool>)
    requires RenderInputs(g, frame, baselines, sent)
    requires BaselinesMatch(g, frame, baselines) && AllPaddingSent(g, sent)
    ensures Emissions(g, frame, baselines, sent) == []
    ensures Batch(Emissions(g, frame, baselines, sent)) == None
  {
    forall row, col | InGrid(g, row, col)
      ensures TileEmission(g, frame, baselines, sent, row, col) == None
    {
    }
    GridEmissionsNone(g, frame, baselines, sent, g.gridHeight);
  }

  /** With every padding flag set, only inner tiles are sent: padding goes out once per reset. */
  lemma PaddingSentOnce(g: Geometry, frame: seq<Pixel>, baselines: seq<Option<seq<Pixel>>>, sent: seq<bool>)
    requires RenderInputs(g, frame, baselines, sent) && AllPaddingSent(g, sent)
    ensures forall c :: c in Emissions(g, frame, baselines, sent) ==> IsInnerChunk(g, c.chunkX, c.chunkZ)
  {
    EmissionsExactly(g, frame, baselines, sent);
  }

  /** Tile (r, c) comes before tile (row, col) in the render order. */
  predicate Visited(row: int, col: int, r: int, c: int)
  {
    r < row || (r == row && c < col)
  }

  /** The cache after the tiles before (row, col) were rendered, starting from `start`. */
  ghost predicate BaselinesUpTo(g: Geometry, frame: seq<Pixel>, start: seq<Option<seq<Pixel>>>,
                                baselines: seq<Option<seq<Pixel>>>, row: int, col: int)
    requires WellFormed(g) && |frame| >= g.pixelW * g.pixelH
    requires |start| == g.InnerWidth() * g.InnerHeight() && |baselines| == |start|
  {
    forall r, c :: IsInnerTile(g, r, c) ==>
      baselines[TileInnerIndex(g, r, c)] ==
        if Visited(row, col, r, c) then Some(TileImage(g, frame, r, c)) else start[TileInnerIndex(g, r, c)]
  }

  /** The padding flags after the tiles before (row, col) were rendered, starting from `start`. */
  ghost predicate SentUpTo(g: Geometry, start: seq<bool>, sent: seq<bool>, row: int, col: int)
    requires WellFormed(g) && |start| == g.gridWidth * g.gridHeight && |sent| == |start|
  {
    forall r, c :: InGrid(g, r, c) ==>
      sent[GridIndex(g, r, c)] == (start[GridIndex(g, r, c)] || (Visited(row, col, r, c) && !IsInnerTile(g, r, c)))
  }

  /** Rendering tile (row, col) advances the cache by one tile. */
  lemma BaselinesStep(g: Geometry, frame: seq<Pixel>, start: seq<Option<seq<Pixel>>>,
                      before: seq<Option<seq<Pixel>>>, after: seq<Option<seq<Pixel>>>, row: int, col: int)
    requires WellFormed(g) && |frame| >= g.pixelW * g.pixelH && InGrid(g, row, col)
    requires |start| == g.InnerWidth() * g.InnerHeight() && |before| == |start|
    requires BaselinesUpTo(g, frame, start, before, row, col)
    requires IsInnerTile(g, row, col) ==>
      after == before[TileInnerIndex(g, row, col) := Some(TileImage(g, frame, row, col))]
    requires !IsInnerTile(g, row, col) ==> after == before
    ensures |after| == |start| && BaselinesUpTo(g, frame, start, after, row, col + 1)
  {
    forall r, c | IsInnerTile(g, r, c)
      ensures after[TileInnerIndex(g, r, c)] ==
        if Visited(row, col + 1, r, c) then Some(TileImage(g, frame, r, c)) else start[TileInnerIndex(g, r, c)]
    {
      if IsInnerTile(g, row, col) && TileInnerIndex(g, r, c) == TileInnerIndex(g, row, col) {
        InnerIndexInjective(g, TileX(g, c), TileZ(g, r), TileX(g, col), TileZ(g, row));
      }
    }
  }

  /** Rendering tile (row, col) advances the padding flags by one tile. */
  lemma SentStep(g: Geometry, start: seq<bool>, before: seq<bool>, after: seq<bool>, row: int, col: int)
    requires WellFormed(g) && InGrid(g, row, col)
    requires |start| == g.gridWidth * g.gridHeight && |before| == |start|
    requires SentUpTo(g, start, before, row, col)
    requires IsInnerTile(g, row, col) ==> after == before
    requires !IsInnerTile(g, row, col) ==> after == before[GridIndex(g, row, col) := true]
    ensures |after| == |start| && SentUpTo(g, start, after, row, col + 1)
  {
    forall r, c | InGrid(g, r, c)
      ensures after[GridIndex(g, r, c)] ==
        (start[GridIndex(g, r, c)] || (Visited(row, col + 1, r, c) && !IsInnerTile(g, r, c)))
    {
      if GridIndex(g, r, c) == GridIndex(g, row, col) {
        RowMajorInjective(c, r, col, row, g.gridWidth);
      }
    }
  }

  /** Finishing row `row` is the same as starting row `row + 1`. */
  lemma RowDone(g: Geometry, frame: seq<Pixel>, start: seq<Option<seq<Pixel>>>, startSent: seq<bool>,
                baselines: seq<Option<seq<Pixel>>>, sent: seq<bool>, row: int)
    requires RenderInputs(g, frame, start, startSent) && RenderInputs(g, frame, baselines, sent)
    requires BaselinesUpTo(g, frame, start, baselines, row, g.gridWidth)
    requires SentUpTo(g, startSent, sent, row, g.gridWidth)
    ensures BaselinesUpTo(g, frame, start, baselines, row + 1, 0)
    ensures SentUpTo(g, startSent, sent, row + 1, 0)
  {
    forall r, c | IsInnerTile(g, r, c)
      ensures baselines[TileInnerIndex(g, r, c)] ==
        if Visited(row + 1, 0, r, c) then Some(TileImage(g, frame, r, c)) else start[TileInnerIndex(g, r, c)]
    {
      assert c < g.gridWidth;
    }
  }

  /** Once every row is rendered, every baseline holds its tile's image and every padding tile is flagged. */
  lemma FrameDone(g: Geometry, frame: seq<Pixel>, start: seq<Option<seq<Pixel>>>, startSent: seq<bool>,
                  baselines: seq<Option<seq<Pixel>>>, sent: seq<bool>)
    requires RenderInputs(g, frame, start, startSent) && RenderInputs(g, frame, baselines, sent)
    requires BaselinesUpTo(g, frame, start, baselines, g.gridHeight, 0)
    requires SentUpTo(g, startSent, sent, g.gridHeight, 0)
    ensures BaselinesMatch(g, frame, baselines)
    ensures forall row, col :: InGrid(g, row, col) ==>
      sent[GridIndex(g, row, col)] == (startSent[GridIndex(g, row, col)] || !IsInnerTile(g, row, col))
  {
    forall row, col | IsInnerTile(g, row, col)
      ensures baselines[TileInnerIndex(g, row, col)] == Some(TileImage(g, frame, row, col))
    {
      assert row < g.gridHeight;
    }
  }

  /** A tile not yet rendered sees the cache and flags it started with. */
  lemma UnvisitedTileEmission(g: Geometry, frame: seq<Pixel>, start: seq<Option<seq<Pixel>>>, startSent: seq<bool>,
                              baselines: seq<Option<seq<Pixel>>>, sent: seq<bool>, row: int, col: int)
    requires RenderInputs(g, frame, start, startSent) && RenderInputs(g, frame, baselines, sent) && InGrid(g, row, col)
    requires BaselinesUpTo(g, frame, start, baselines, row, col) && SentUpTo(g, startSent, sent, row, col)
    ensures TileEmission(g, frame, baselines, sent, row, col) == TileEmission(g, frame, start, startSent, row, col)
  {
    assert !Visited(row, col, row, col);
  }

  class MapDisplayRenderer {
    const geom: Geometry
    const compressor: DeltaCompressor
    /** Reused buffer each inner tile is rendered into. */
    const chunkPixels: array<Pixel>
    /** One flag per outer-grid tile: its black padding update was already sent. */
    var paddingSent: array<bool>
    ghost var Repr: set<object>

    ghost predicate Valid()
      reads this, Repr
      ensures Valid() ==> this in Repr
    {
      && this in Repr && compressor in Repr && chunkPixels in Repr && paddingSent in Repr
      && compressor.Repr <= Repr
      && this !in compressor.Repr && chunkPixels !in compressor.Repr && paddingSent !in compressor.Repr
      && (paddingSent as object) != (chunkPixels as object)
      && compressor.Valid()
      && WellFormed(geom)
      && compressor.totalChunks == geom.InnerWidth() * geom.InnerHeight()
      && compressor.chunkPixelCount == CHUNK_IMAGE_PIXELS
      && chunkPixels.Length == CHUNK_IMAGE_PIXELS
      && paddingSent.Length == geom.gridWidth * geom.gridHeight
    }

    /**
     * A renderer for a `pixelWidth` x `pixelHeight` screen centred on the
     * (rounded) anchor block, with an empty change cache and no padding sent.
     */
    constructor (anchorX: int, anchorZ: int, mapScale: int, pixelWidth: int, pixelHeight: int)
      requires pixelWidth >= 0 && pixelHeight >= 0
      ensures Valid() && fresh(Repr)
      ensures geom == ComputeGeometry(anchorX, anchorZ, mapScale, pixelWidth, pixelHeight)
      ensures compressor.Baselines == seq(geom.InnerWidth() * geom.InnerHeight(), _ => None)
      ensures paddingSent[..] == seq(geom.gridWidth * geom.gridHeight, _ => false)
    {
      var g := ComputeGeometry(anchorX, anchorZ, mapScale, pixelWidth, pixelHeight);
      geom := g;
      compressor := new DeltaCompressor(g.InnerWidth(), g.InnerHeight(), CHUNK_IMAGE_PIXELS);
      chunkPixels := new Pixel[CHUNK_IMAGE_PIXELS];
      paddingSent := new bool[g.gridWidth * g.gridHeight](_ => false);
      new;
      Repr := {this, chunkPixels, paddingSent} + compressor.Repr;
    }

    /**
     * One iteration of the render loop: renders tile (row, col) and, if it
     * must be sent, returns its update. An inner tile's baseline becomes its
     * image; a padding tile's flag becomes set.
     */
    method RenderTile(frame: array<Pixel>, row: int, col: int) returns (e: Option<Chunk>)
      requires Valid() && frame !in Repr && frame.Length >= geom.pixelW * geom.pixelH
      requires InGrid(geom, row, col)
      modifies this`Repr, compressor.Repr, chunkPixels, paddingSent
      ensures Valid() && fresh(Repr - old(Repr))
      ensures e == TileEmission(geom, frame[..], old(compressor.Baselines), old(paddingSent[..]), row, col)
      ensures IsInnerTile(geom, row, col) ==>
        && compressor.Baselines == old(compressor.Baselines)[TileInnerIndex(geom, row, col) := Some(TileImage(geom, frame[..], row, col))]
        && paddingSent[..] == old(paddingSent[..])
      ensures !IsInnerTile(geom, row, col) ==>
        && compressor.Baselines == old(compressor.Baselines)
        && paddingSent[..] == old(paddingSent[..])[GridIndex(geom, row, col) := true]
    {
      var chunkX := geom.gridMinChunkX + col;
      var chunkZ := geom.gridMinChunkZ + row;
      var gridIndex := row * geom.gridWidth + col;
      assert gridIndex == GridIndex(geom, row, col);
      var isInner := chunkX >= geom.innerMinChunkX && chunkX < geom.innerMaxChunkX
        && chunkZ >= geom.innerMinChunkZ && chunkZ < geom.innerMaxChunkZ;
      if isInner {
        e := RenderInnerTile(frame, row, col);
      } else if !paddingSent[gridIndex] {
        paddingSent[gridIndex] := true;
        e := Some(PaddingChunk(chunkX, chunkZ));
      } else {
        e := None;
      }
    }

    /** The inner-tile branch of `RenderTile`: the tile is extracted and checked against its baseline. */
    method RenderInnerTile(frame: array<Pixel>, row: int, col: int) returns (e: Option<Chunk>)
      requires Valid() && frame !in Repr && frame.Length >= geom.pixelW * geom.pixelH
      requires InGrid(geom, row, col) && IsInnerTile(geom, row, col)
      modifies this`Repr, compressor.Repr, chunkPixels
      ensures Valid() && fresh(Repr - old(Repr))
      ensures e == TileEmission(geom, frame[..], old(compressor.Baselines), paddingSent[..], row, col)
      ensures compressor.Baselines == old(compressor.Baselines)[TileInnerIndex(geom, row, col) := Some(TileImage(geom, frame[..], row, col))]
    {
      var chunkX := geom.gridMinChunkX + col;
      var chunkZ := geom.gridMinChunkZ + row;
      ExtractChunk(frame, chunkX, chunkZ, geom.scale, chunkPixels,
        geom.displayStartX, geom.displayStartZ, geom.displayBlocksW, geom.displayBlocksH, geom.pixelW, geom.pixelH);
      assert chunkPixels[..] == TileImage(geom, frame[..], row, col);
      var innerW := geom.innerMaxChunkX - geom.innerMinChunkX;
      var innerIndex := (chunkZ - geom.innerMinChunkZ) * innerW + (chunkX - geom.innerMinChunkX);
      assert innerIndex == TileInnerIndex(geom, row, col);
      assert CopyOf(chunkPixels[..], CHUNK_IMAGE_PIXELS) == chunkPixels[..];
      var changed := compressor.HasChanged(innerIndex, chunkPixels);
      Repr := Repr + compressor.Repr;
      if changed {
        e := Some(Chunk(chunkX, chunkZ, CHUNK_IMAGE_SIZE, CHUNK_IMAGE_SIZE, chunkPixels[..]));
      } else {
        e := None;
      }
    }

    /**
     * Renders a frame: the packet lists exactly the updates `Emissions`
     * gives for the cache and flags before the call (`None` when there are
     * none); afterwards every baseline holds its tile's image of this frame
     * and every padding flag is set.
     */
    method RenderFrame(rgbaPixels: array<Pixel>) returns (r: Option<seq<Chunk>>)
      requires Valid() && rgbaPixels !in Repr && rgbaPixels.Length >= geom.pixelW * geom.pixelH
      modifies Repr
      ensures Valid() && fresh(Repr - old(Repr)) && paddingSent == old(paddingSent)
      ensures r == Batch(Emissions(geom, rgbaPixels[..], old(compressor.Baselines), old(paddingSent[..])))
      ensures BaselinesMatch(geom, rgbaPixels[..], compressor.Baselines)
      ensures forall row, col :: InGrid(geom, row, col) ==>
        paddingSent[GridIndex(geom, row, col)] == (old(paddingSent[GridIndex(geom, row, col)]) || !IsInnerTile(geom, row, col))
    {
      ghost var frame := rgbaPixels[..];
      ghost var start := compressor.Baselines;
      ghost var startSent := paddingSent[..];
      var changedChunks: seq<Chunk> := [];
      var row := 0;
      while row < geom.gridHeight
        invariant 0 <= row <= geom.gridHeight
        invariant Valid() && fresh(Repr - old(Repr)) && paddingSent == old(paddingSent)
        invariant rgbaPixels !in Repr && rgbaPixels[..] == frame
        invariant |compressor.Baselines| == |start|
        invariant BaselinesUpTo(geom, frame, start, compressor.Baselines, row, 0)
        invariant SentUpTo(geom, startSent, paddingSent[..], row, 0)
        invariant changedChunks == GridEmissions(geom, frame, start, startSent, row)
      {
        var rowChunks := RenderRow(rgbaPixels, row, start, startSent);
        assert GridEmissions(geom, frame, start, startSent, row + 1) == changedChunks + rowChunks;
        changedChunks := changedChunks + rowChunks;
        row := row + 1;
      }
      FrameDone(geom, frame, start, startSent, compressor.Baselines, paddingSent[..]);
      if changedChunks == [] {
        return None;
      }
      return Some(changedChunks);
    }

    /** The inner loop of `RenderFrame`: renders the tiles of row `row`, left to right. */
    method RenderRow(rgbaPixels: array<Pixel>, row: int, ghost start: seq<Option<seq<Pixel>>>, ghost startSent: seq<bool>)
      returns (rowChunks: seq<Chunk>)
      requires Valid() && rgbaPixels !in Repr && rgbaPixels.Length >= geom.pixelW * geom.pixelH
      requires 0 <= row < geom.gridHeight
      requires RenderInputs(geom, rgbaPixels[..], start, startSent)
      requires BaselinesUpTo(geom, rgbaPixels[..], start, compressor.Baselines, row, 0)
      requires SentUpTo(geom, startSent, paddingSent[..], row, 0)
      modifies Repr
      ensures Valid() && fresh(Repr - old(Repr)) && paddingSent == old(paddingSent)
      ensures |compressor.Baselines| == |start|
      ensures BaselinesUpTo(geom, rgbaPixels[..], start, compressor.Baselines, row + 1, 0)
      ensures SentUpTo(geom, startSent, paddingSent[..], row + 1, 0)
      ensures rowChunks == RowEmissions(geom, rgbaPixels[..], start, startSent, row, geom.gridWidth)
    {
      ghost var frame := rgbaPixels[..];
      rowChunks := [];
      var col := 0;
      while col < geom.gridWidth
        invariant 0 <= col <= geom.gridWidth
        invariant Valid() && fresh(Repr - old(Repr)) && paddingSent == old(paddingSent)
        invariant rgbaPixels !in Repr && rgbaPixels[..] == frame
        invariant |compressor.Baselines| == |start|
        invariant BaselinesUpTo(geom, frame, start, compressor.Baselines, row, col)
        invariant SentUpTo(geom, startSent, paddingSent[..], row, col)
        invariant rowChunks == RowEmissions(geom, frame, start, startSent, row, col)
      {
        var e := RenderStep(rgbaPixels, row, col, start, startSent);
        rowChunks := rowChunks + Emitted(e);
        col := col + 1;
      }
      RowDone(geom, frame, start, startSent, compressor.Baselines, paddingSent[..], row);
    }

    /**
     * One step of `RenderRow`: renders tile (row, col) and advances the
     * cache and flags, as seen from the start of the frame, by that tile.
     */
    method RenderStep(rgbaPixels: array<Pixel>, row: int, col: int,
                      ghost start: seq<Option<seq<Pixel>>>, ghost startSent: seq<bool>)
      returns (e: Option<Chunk>)
      requires Valid() && rgbaPixels !in Repr && rgbaPixels.Length >= geom.pixelW * geom.pixelH
      requires InGrid(geom, row, col)
      requires RenderInputs(geom, rgbaPixels[..], start, startSent)
      requires BaselinesUpTo(geom, rgbaPixels[..], start, compressor.Baselines, row, col)
      requires SentUpTo(geom, startSent, paddingSent[..], row, col)
      modifies this`Repr, compressor.Repr, chunkPixels, paddingSent
      ensures Valid() && fresh(Repr - old(Repr))
      ensures |compressor.Baselines| == |start|
      ensures BaselinesUpTo(geom, rgbaPixels[..], start, compressor.Baselines, row, col + 1)
      ensures SentUpTo(geom, startSent, paddingSent[..], row, col + 1)
      ensures e == TileEmission(geom, rgbaPixels[..], start, startSent, row, col)
    {
      ghost var frame := rgbaPixels[..];
      ghost var before := compressor.Baselines;
      ghost var beforeSent := paddingSent[..];
      UnvisitedTileEmission(geom, frame, start, startSent, before, beforeSent, row, col);
      e := RenderTile(rgbaPixels, row, col);
      assert rgbaPixels[..] == frame;
      BaselinesStep(geom, frame, start, before, compressor.Baselines, row, col);
      SentStep(geom, startSent, beforeSent, paddingSent[..], row, col);
    }

    /** Forces a full redraw: every baseline is dropped and every padding flag cleared. */
    method Reset()
      requires Valid()
      modifies Repr
      ensures Valid() && fresh(Repr - old(Repr)) && fresh(paddingSent)
      ensures compressor.Baselines == seq(geom.InnerWidth() * geom.InnerHeight(), _ => None)
      ensures paddingSent[..] == seq(geom.gridWidth * geom.gridHeight, _ => false)
    {
      compressor.Reset();
      paddingSent := new bool[geom.gridWidth * geom.gridHeight](_ => false);
      Repr := Repr + {paddingSent};
    }
  }
}

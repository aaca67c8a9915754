/**
 * Placement of the emulator screen on the world map: the display rectangle
 * in world blocks, the inner tile grid covering it plus a border, the outer
 * grid of padding tiles around that, and the colour every world block gets.
 *
 * A map tile ("chunk") covers 32x32 world blocks and its image is 64x64
 * pixels, two image pixels per block.
 */
module MapGeometry {
  import opened ColorMapper

  /** World blocks per map tile side. */
  const CHUNK_BLOCKS: int := 32
  /** Image pixels per world block. */
  const PX_PER_BLOCK: int := 2
  /** Image pixels per tile side. */
  const CHUNK_IMAGE_SIZE: int := 64
  const CHUNK_IMAGE_PIXELS: int := 4096
  /** Width of the gray frame around the display, in world blocks. */
  const BORDER_BLOCKS: int := 5
  /** Tiles of solid black added on every side of the inner grid. */
  const PADDING_CHUNKS: int := 8
  /** Dark gray border colour (RGBA). */
  const BORDER_COLOR: Pixel := 0x2A2A_2AFF
  /** Opaque black (RGBA). */
  const BLACK: Pixel := 0x0000_00FF

  /** Java's `Math.floorDiv`: the quotient rounded towards minus infinity. */
  function FloorDiv(a: int, b: int): (q: int)
    requires b != 0
    ensures b > 0 ==> q * b <= a < (q + 1) * b
    ensures b < 0 ==> (q + 1) * b < a <= q * b
  {
    if b > 0 then a / b else (-a) / (-b)
  }

  /**
   * Ceiling division as `-floorDiv(-a, b)`: the quotient rounded towards
   * plus infinity, so for a positive `b` the least `q` with `q * b >= a`.
   */
  function CeilDiv(a: int, b: int): (q: int)
    requires b != 0
    ensures b > 0 ==> (q - 1) * b < a <= q * b
    ensures b < 0 ==> q * b <= a < (q - 1) * b
  {
    -FloorDiv(-a, b)
  }

  /** The worked values of `ceilDiv`, negative dividends included. */
  lemma CeilDivExamples()
    ensures CeilDiv(10, 3) == 4 && CeilDiv(9, 3) == 3 && CeilDiv(0, 3) == 0
    ensures CeilDiv(-10, 3) == -3 && CeilDiv(-9, 3) == -3
  {
  }

  function Max(a: int, b: int): int
  {
    if a < b then b else a
  }

  /**
   * Bounds on the renderer's inputs under which none of its Java `int`
   * computations (display size, block and tile coordinates, grid and frame
   * sizes and indices) leaves the 32-bit range.
   */
  predicate InputsInRange(anchorX: int, anchorZ: int, mapScale: int, pixelWidth: int, pixelHeight: int)
  {
    && -0x1000_0000 <= anchorX <= 0x1000_0000
    && -0x1000_0000 <= anchorZ <= 0x1000_0000
    && 0 <= pixelWidth && 0 <= pixelHeight
    && pixelWidth * Max(1, mapScale) <= 0x10_0000
    && pixelHeight * Max(1, mapScale) <= 0x10_0000
    && pixelWidth * pixelHeight < 0x8000_0000
  }

  /** The renderer's fixed geometry, in world blocks and absolute tile coordinates. */
  datatype Geometry = Geometry(
    scale: int, pixelW: int, pixelH: int,
    displayStartX: int, displayStartZ: int, displayBlocksW: int, displayBlocksH: int,
    innerMinChunkX: int, innerMinChunkZ: int, innerMaxChunkX: int, innerMaxChunkZ: int,
    gridMinChunkX: int, gridMinChunkZ: int, gridWidth: int, gridHeight: int)
  {
    function InnerWidth(): int
    {
      innerMaxChunkX - innerMinChunkX
    }

    function InnerHeight(): int
    {
      innerMaxChunkZ - innerMinChunkZ
    }

    /** The display rectangle and frame size, as `extractChunk` receives them. */
    function DisplayPlacement(): Placement
    {
      Placement(scale, displayStartX, displayStartZ, displayBlocksW, displayBlocksH, pixelW, pixelH)
    }
  }

  /**
   * What every geometry the renderer builds satisfies: the display is
   * `pixel * scale` blocks, the inner grid covers the display plus border
   * and is at least one tile wide and high, and the outer grid adds
   * `PADDING_CHUNKS` tiles on every side.
   */
  ghost predicate WellFormed(g: Geometry)
  {
    && g.scale >= 1 && g.pixelW >= 0 && g.pixelH >= 0
    && g.displayBlocksW == g.pixelW * g.scale
    && g.displayBlocksH == g.pixelH * g.scale
    && g.innerMinChunkX * CHUNK_BLOCKS <= g.displayStartX - BORDER_BLOCKS
    && g.innerMinChunkZ * CHUNK_BLOCKS <= g.displayStartZ - BORDER_BLOCKS
    && g.displayStartX + g.displayBlocksW + BORDER_BLOCKS <= g.innerMaxChunkX * CHUNK_BLOCKS
    && g.displayStartZ + g.displayBlocksH + BORDER_BLOCKS <= g.innerMaxChunkZ * CHUNK_BLOCKS
    && g.InnerWidth() >= 1 && g.InnerHeight() >= 1
    && g.gridMinChunkX == g.innerMinChunkX - PADDING_CHUNKS
    && g.gridMinChunkZ == g.innerMinChunkZ - PADDING_CHUNKS
    && g.gridWidth == g.InnerWidth() + 2 * PADDING_CHUNKS
    && g.gridHeight == g.InnerHeight() + 2 * PADDING_CHUNKS
  }

  /**
   * The constructor's arithmetic, from an already rounded anchor: the scale
   * is at least 1, the display is centred on the anchor, the inner grid is
   * the tightest tile range covering the display plus the border, and the
   * outer grid adds the padding.
   */
  function ComputeGeometry(anchorX: int, anchorZ: int, mapScale: int, pixelWidth: int, pixelHeight: int): (g: Geometry)
    requires pixelWidth >= 0 && pixelHeight >= 0
    ensures WellFormed(g)
    ensures g.pixelW == pixelWidth && g.pixelH == pixelHeight
    ensures g.scale == Max(1, mapScale)
    // Centred: the anchor is the display's middle block (the right one of the two middle blocks for an even size).
    ensures -1 <= 2 * (anchorX - g.displayStartX) - g.displayBlocksW <= 0
    ensures -1 <= 2 * (anchorZ - g.displayStartZ) - g.displayBlocksH <= 0
    // Tightest: one tile less on either side would leave part of the border uncovered.
    ensures (g.innerMinChunkX + 1) * CHUNK_BLOCKS > g.displayStartX - BORDER_BLOCKS
    ensures (g.innerMinChunkZ + 1) * CHUNK_BLOCKS > g.displayStartZ - BORDER_BLOCKS
    ensures (g.innerMaxChunkX - 1) * CHUNK_BLOCKS < g.displayStartX + g.displayBlocksW + BORDER_BLOCKS
    ensures (g.innerMaxChunkZ - 1) * CHUNK_BLOCKS < g.displayStartZ + g.displayBlocksH + BORDER_BLOCKS
  {
    var scale := Max(1, mapScale);
    var blocksW := pixelWidth * scale;
    var blocksH := pixelHeight * scale;
    assert blocksW >= 0 && blocksH >= 0;
    var startX := anchorX - blocksW / 2;
    var startZ := anchorZ - blocksH / 2;
    var innerMinX := FloorDiv(startX - BORDER_BLOCKS, CHUNK_BLOCKS);
    var innerMinZ := FloorDiv(startZ - BORDER_BLOCKS, CHUNK_BLOCKS);
    var innerMaxX := CeilDiv(startX + blocksW + BORDER_BLOCKS, CHUNK_BLOCKS);
    var innerMaxZ := CeilDiv(startZ + blocksH + BORDER_BLOCKS, CHUNK_BLOCKS);
    var gridMinX := innerMinX - PADDING_CHUNKS;
    var gridMinZ := innerMinZ - PADDING_CHUNKS;
    Geometry(scale, pixelWidth, pixelHeight, startX, startZ, blocksW, blocksH,
             innerMinX, innerMinZ, innerMaxX, innerMaxZ,
             gridMinX, gridMinZ, (innerMaxX + PADDING_CHUNKS) - gridMinX, (innerMaxZ + PADDING_CHUNKS) - gridMinZ)
  }

  /**
   * A Game Boy screen at scale 1 anchored at (80, 72) starts at block (0, 0)
   * and needs a 7x6 inner grid inside a 23x22 outer grid of 506 tiles;
   * anchored at (0, 0) it starts at (-80, -72).
   */
  lemma GameBoyGeometryExample()
    ensures var g := ComputeGeometry(80, 72, 1, 160, 144);
      && g.displayStartX == 0 && g.displayStartZ == 0
      && g.InnerWidth() == 7 && g.InnerHeight() == 6
      && g.gridWidth == 23 && g.gridHeight == 22 && g.gridWidth * g.gridHeight == 506
    ensures var g := ComputeGeometry(0, 0, 1, 160, 144);
      g.displayStartX == -80 && g.displayStartZ == -72
  {
  }

  /** Tile (chunkX, chunkZ) belongs to the inner grid, the one rendered in full. */
  predicate IsInnerChunk(g: Geometry, chunkX: int, chunkZ: int)
  {
    g.innerMinChunkX <= chunkX < g.innerMaxChunkX && g.innerMinChunkZ <= chunkZ < g.innerMaxChunkZ
  }

  /** The change-cache slot of an inner tile: its row-major index within the inner grid. */
  function InnerIndex(g: Geometry, chunkX: int, chunkZ: int): (k: int)
    requires WellFormed(g)
    ensures IsInnerChunk(g, chunkX, chunkZ) ==> 0 <= k < g.InnerWidth() * g.InnerHeight()
  {
    var k := (chunkZ - g.innerMinChunkZ) * g.InnerWidth() + (chunkX - g.innerMinChunkX);
    if IsInnerChunk(g, chunkX, chunkZ) then
      FrameIndexInRange(chunkX - g.innerMinChunkX, chunkZ - g.innerMinChunkZ, g.InnerWidth(), g.InnerHeight());
      k
    else
      k
  }

  /** Row-major indexing of a `w`-wide grid is one-to-one. */
  lemma RowMajorInjective(x1: int, y1: int, x2: int, y2: int, w: int)
    requires 0 <= x1 < w && 0 <= x2 < w
    requires y1 * w + x1 == y2 * w + x2
    ensures x1 == x2 && y1 == y2
  {
    assert (y1 - y2) * w == x2 - x1;
    MultipleAwayFromZero(y1 - y2, w);
  }

  /** Distinct inner tiles own distinct cache slots. */
  lemma InnerIndexInjective(g: Geometry, x1: int, z1: int, x2: int, z2: int)
    requires WellFormed(g) && IsInnerChunk(g, x1, z1) && IsInnerChunk(g, x2, z2)
    requires InnerIndex(g, x1, z1) == InnerIndex(g, x2, z2)
    ensures x1 == x2 && z1 == z2
  {
    RowMajorInjective(x1 - g.innerMinChunkX, z1 - g.innerMinChunkZ, x2 - g.innerMinChunkX, z2 - g.innerMinChunkZ, g.InnerWidth());
  }

  /** Every cache slot belongs to exactly one inner tile. */
  lemma InnerIndexOnto(g: Geometry, k: int)
    requires WellFormed(g) && 0 <= k < g.InnerWidth() * g.InnerHeight()
    ensures var chunkX, chunkZ := g.innerMinChunkX + k % g.InnerWidth(), g.innerMinChunkZ + k / g.InnerWidth();
      IsInnerChunk(g, chunkX, chunkZ) && InnerIndex(g, chunkX, chunkZ) == k
  {
    var w, h := g.InnerWidth(), g.InnerHeight();
    DivBelow(k, w, h);
    assert k == (k / w) * w + k % w;
  }

  /** At the origin, scale 2 needs a 12x10 inner grid where scale 1 needs 6x6. */
  lemma LargerScaleExample()
    ensures ComputeGeometry(0, 0, 1, 160, 144).InnerWidth() == 6
    ensures ComputeGeometry(0, 0, 1, 160, 144).InnerHeight() == 6
    ensures ComputeGeometry(0, 0, 2, 160, 144).InnerWidth() == 12
    ensures ComputeGeometry(0, 0, 2, 160, 144).InnerHeight() == 10
  {
  }

  const INT_MIN: int := -0x8000_0000
  const INT_MAX: int := 0x7FFF_FFFF

  /** Products of numbers in `[0, m]` stay within `m * m`. */
  lemma MulBounded(a: int, b: int, m: int)
    requires 0 <= a <= m && 0 <= b <= m
    ensures a * b <= m * m
  {
    MulNonNegative(m - a, b);
    MulNonNegative(m - b, m);
    assert a * b <= m * b && m * b <= m * m;
  }

  /**
   * Under `InputsInRange` every block and tile coordinate the renderer
   * computes, the grid size and every frame index fit in a Java `int`, so
   * the unbounded arithmetic of this model agrees with the source's 32-bit
   * arithmetic.
   */
  lemma GeometryFitsInt(anchorX: int, anchorZ: int, mapScale: int, pixelWidth: int, pixelHeight: int)
    requires InputsInRange(anchorX, anchorZ, mapScale, pixelWidth, pixelHeight)
    ensures var g := ComputeGeometry(anchorX, anchorZ, mapScale, pixelWidth, pixelHeight);
      && INT_MIN <= g.gridMinChunkX * CHUNK_BLOCKS && (g.gridMinChunkX + g.gridWidth) * CHUNK_BLOCKS <= INT_MAX
      && INT_MIN <= g.gridMinChunkZ * CHUNK_BLOCKS && (g.gridMinChunkZ + g.gridHeight) * CHUNK_BLOCKS <= INT_MAX
      && INT_MIN <= g.displayStartX - BORDER_BLOCKS && g.displayStartX + g.displayBlocksW + BORDER_BLOCKS <= INT_MAX
      && INT_MIN <= g.displayStartZ - BORDER_BLOCKS && g.displayStartZ + g.displayBlocksH + BORDER_BLOCKS <= INT_MAX
      && g.gridWidth * g.gridHeight <= INT_MAX
      && g.pixelW * g.pixelH <= INT_MAX
  {
    var g := ComputeGeometry(anchorX, anchorZ, mapScale, pixelWidth, pixelHeight);
    var m := 0x8000 + 2 * PADDING_CHUNKS + 2;
    assert 0 < g.gridWidth <= m && 0 < g.gridHeight <= m;
    MulBounded(g.gridWidth, g.gridHeight, m);
  }

  /** The display rectangle and native frame size, as `extractChunk` takes them. */
  datatype Placement = Placement(
    scale: int, startX: int, startZ: int, blocksW: int, blocksH: int, pixelW: int, pixelH: int)
  {
    predicate InDisplay(wx: int, wz: int)
    {
      startX <= wx < startX + blocksW && startZ <= wz < startZ + blocksH
    }

    predicate InBorder(wx: int, wz: int)
    {
      && startX - BORDER_BLOCKS <= wx < startX + blocksW + BORDER_BLOCKS
      && startZ - BORDER_BLOCKS <= wz < startZ + blocksH + BORDER_BLOCKS
    }

    /** The placement `extractChunk` can be called with: a positive scale and a frame that holds `pixelW * pixelH` pixels. */
    predicate Fits(frame: seq<Pixel>)
    {
      scale >= 1 && pixelW >= 0 && pixelH >= 0 && |frame| >= pixelW * pixelH
    }
  }

  /** Row-major frame indices of a `w`-wide, `h`-high frame lie in `[0, w * h)`. */
  lemma FrameIndexInRange(x: int, y: int, w: int, h: int)
    requires 0 <= x < w && 0 <= y < h
    ensures 0 <= y * w + x < w * h
  {
    MulNonNegative(y, w);
    MulNonNegative(h - 1 - y, w);
    assert (h - 1 - y) * w == h * w - y * w - w;
  }

  /**
   * The colour of world block (wx, wz): inside the display the frame pixel
   * it maps to (black if its column lies beyond the frame; a block whose
   * row lies beyond the frame falls through to the border test), inside the
   * border gray, elsewhere black.
   */
  function WorldPixel(frame: seq<Pixel>, p: Placement, wx: int, wz: int): Pixel
    requires p.Fits(frame)
  {
    var ey := (wz - p.startZ) / p.scale;
    var ex := (wx - p.startX) / p.scale;
    if p.InDisplay(wx, wz) && ey < p.pixelH then
      if ex < p.pixelW then
        FrameIndexInRange(ex, ey, p.pixelW, p.pixelH);
        frame[ey * p.pixelW + ex]
      else
        BLACK
    else if p.InBorder(wx, wz) then
      BORDER_COLOR
    else
      BLACK
  }

  /** Pixel (px, py) of tile (chunkX, chunkZ): two image pixels per world block. */
  function ChunkPixel(frame: seq<Pixel>, p: Placement, chunkX: int, chunkZ: int, px: int, py: int): Pixel
    requires p.Fits(frame)
  {
    WorldPixel(frame, p, chunkX * CHUNK_BLOCKS + px / PX_PER_BLOCK, chunkZ * CHUNK_BLOCKS + py / PX_PER_BLOCK)
  }

  /** The 64x64 image of tile (chunkX, chunkZ), row by row. */
  function ChunkImage(frame: seq<Pixel>, p: Placement, chunkX: int, chunkZ: int): (image: seq<Pixel>)
    requires p.Fits(frame)
    ensures |image| == CHUNK_IMAGE_PIXELS
  {
    seq(CHUNK_IMAGE_PIXELS, k requires 0 <= k < CHUNK_IMAGE_PIXELS =>
      ChunkPixel(frame, p, chunkX, chunkZ, k % CHUNK_IMAGE_SIZE, k / CHUNK_IMAGE_SIZE))
  }

  /** A product of two non-negative numbers is non-negative. */
  lemma MulNonNegative(x: int, y: int)
    requires x >= 0 && y >= 0
    ensures x * y >= 0
  {
  }

  /** A non-zero multiple of a positive `s` is at least `s` away from zero. */
  lemma MultipleAwayFromZero(k: int, s: int)
    requires s >= 1
    ensures k >= 1 ==> k * s >= s
    ensures k <= -1 ==> k * s <= -s
  {
    if k >= 1 {
      MulNonNegative(k - 1, s);
      assert k * s == (k - 1) * s + s;
    } else if k <= -1 {
      MulNonNegative(-k - 1, s);
      assert k * s == -((-k - 1) * s) - s;
    }
  }

  /** Dividing a non-negative number by a positive one gives a non-negative quotient. */
  lemma DivNonNegative(a: int, s: int)
    requires a >= 0 && s >= 1
    ensures a / s >= 0
  {
    assert a == (a / s) * s + a % s;
    if a / s < 0 {
      MultipleAwayFromZero(a / s, s);
    }
  }

  /** `a / s` stays below `n` when `a` is below `n * s`. */
  lemma DivBelow(a: int, s: int, n: int)
    requires s >= 1 && 0 <= a < n * s
    ensures 0 <= a / s < n
  {
    var d := a / s;
    assert a == d * s + a % s;
    MultipleAwayFromZero(d - n, s);
    assert (d - n) * s == d * s - n * s;
  }

  /** `(q * s + r) / s == q` for a remainder `0 <= r < s`. */
  lemma DivOfMulAdd(q: int, s: int, r: int)
    requires s >= 1 && 0 <= r < s
    ensures (q * s + r) / s == q
  {
    var a := q * s + r;
    var d := a / s;
    assert a == d * s + a % s;
    assert (d - q) * s == d * s - q * s;
    MultipleAwayFromZero(d - q, s);
  }

  /**
   * The zone rule when the display is exactly `pixel * scale` blocks: a
   * display block always maps into the frame (the black fallback is never
   * taken), a border block is gray and every other block is black.
   */
  lemma ZoneRule(frame: seq<Pixel>, p: Placement, wx: int, wz: int)
    requires p.Fits(frame)
    requires p.blocksW == p.pixelW * p.scale && p.blocksH == p.pixelH * p.scale
    ensures p.InDisplay(wx, wz) ==>
      var ex := (wx - p.startX) / p.scale;
      var ey := (wz - p.startZ) / p.scale;
      && 0 <= ex < p.pixelW && 0 <= ey < p.pixelH
      && 0 <= ey * p.pixelW + ex < p.pixelW * p.pixelH
      && WorldPixel(frame, p, wx, wz) == frame[ey * p.pixelW + ex]
    ensures p.InBorder(wx, wz) && !p.InDisplay(wx, wz) ==> WorldPixel(frame, p, wx, wz) == BORDER_COLOR
    ensures !p.InBorder(wx, wz) ==> WorldPixel(frame, p, wx, wz) == BLACK
  {
    if p.InDisplay(wx, wz) {
      DivBelow(wx - p.startX, p.scale, p.pixelW);
      DivBelow(wz - p.startZ, p.scale, p.pixelH);
      FrameIndexInRange((wx - p.startX) / p.scale, (wz - p.startZ) / p.scale, p.pixelW, p.pixelH);
    }
  }

  /**
   * Nearest-neighbour scaling: every block of the `scale` x `scale` square
   * that frame pixel (ex, ey) covers shows that pixel.
   */
  lemma ScaledPixelReplicated(frame: seq<Pixel>, p: Placement, ex: int, ey: int, i: int, j: int)
    requires p.Fits(frame)
    requires p.blocksW == p.pixelW * p.scale && p.blocksH == p.pixelH * p.scale
    requires 0 <= ex < p.pixelW && 0 <= ey < p.pixelH && 0 <= i < p.scale && 0 <= j < p.scale
    ensures 0 <= ey * p.pixelW + ex < |frame|
    ensures WorldPixel(frame, p, p.startX + ex * p.scale + i, p.startZ + ey * p.scale + j) == frame[ey * p.pixelW + ex]
  {
    var sc := p.scale;
    var dx, dz := ex * sc + i, ey * sc + j;
    DivOfMulAdd(ex, sc, i);
    DivOfMulAdd(ey, sc, j);
    MulNonNegative(ex, sc);
    MulNonNegative(ey, sc);
    MultipleAwayFromZero(p.pixelW - ex, sc);
    MultipleAwayFromZero(p.pixelH - ey, sc);
    assert (p.pixelW - ex) * sc == p.pixelW * sc - ex * sc;
    assert (p.pixelH - ey) * sc == p.pixelH * sc - ey * sc;
    FrameIndexInRange(ex, ey, p.pixelW, p.pixelH);
    assert p.InDisplay(p.startX + dx, p.startZ + dz);
  }

  /**
   * Outside the inner grid there is nothing but black: every pixel of a
   * tile beyond the inner grid lies outside the border, which is why the
   * padding tiles can be sent as plain black without rendering them.
   */
  lemma PaddingTileIsBlack(g: Geometry, frame: seq<Pixel>, chunkX: int, chunkZ: int)
    requires WellFormed(g) && g.DisplayPlacement().Fits(frame)
    requires !IsInnerChunk(g, chunkX, chunkZ)
    ensures ChunkImage(frame, g.DisplayPlacement(), chunkX, chunkZ) == seq(CHUNK_IMAGE_PIXELS, _ => BLACK)
  {
    var p := g.DisplayPlacement();
    forall k | 0 <= k < CHUNK_IMAGE_PIXELS
      ensures ChunkImage(frame, p, chunkX, chunkZ)[k] == BLACK
    {
      var px, py := k % CHUNK_IMAGE_SIZE, k / CHUNK_IMAGE_SIZE;
      var wx, wz := chunkX * CHUNK_BLOCKS + px / PX_PER_BLOCK, chunkZ * CHUNK_BLOCKS + py / PX_PER_BLOCK;
      assert 0 <= px / PX_PER_BLOCK < CHUNK_BLOCKS && 0 <= py / PX_PER_BLOCK < CHUNK_BLOCKS;
      assert !p.InBorder(wx, wz);
      ZoneRule(frame, p, wx, wz);
    }
  }

  /**
   * The border examples: with the display at block (5, 5), pixel (0, 0) of
   * tile (0, 0) is border gray and pixel (10, 10) shows the first frame
   * pixel; pixels (0, 0) and (63, 63) of tile (-2, -2) of a display at the
   * origin are black, and so is the first pixel of tile (-1, 0), whose
   * pixel (54, 0) is border gray. With
   * the display at the origin the last pixel of tile (0, 0) shows frame
   * pixel (31, 31), and at scale 2 image pixels 0 and 4 of row 0 show
   * frame pixels 0 and 1.
   */
  lemma ZoneExamples(frame: seq<Pixel>)
    requires |frame| == 160 * 144
    ensures ChunkPixel(frame, Placement(1, 5, 5, 160, 144, 160, 144), 0, 0, 0, 0) == BORDER_COLOR
    ensures ChunkPixel(frame, Placement(1, 5, 5, 160, 144, 160, 144), 0, 0, 10, 10) == frame[0]
    ensures ChunkPixel(frame, Placement(1, 0, 0, 160, 144, 160, 144), -2, -2, 0, 0) == BLACK
    ensures ChunkPixel(frame, Placement(1, 0, 0, 160, 144, 160, 144), -2, -2, 63, 63) == BLACK
    ensures ChunkPixel(frame, Placement(1, 0, 0, 160, 144, 160, 144), -1, 0, 0, 0) == BLACK
    ensures ChunkPixel(frame, Placement(1, 0, 0, 160, 144, 160, 144), -1, 0, 54, 0) == BORDER_COLOR
    ensures ChunkPixel(frame, Placement(1, 0, 0, 160, 144, 160, 144), 0, 0, 63, 63) == frame[31 * 160 + 31]
    ensures ChunkPixel(frame, Placement(2, 0, 0, 320, 288, 160, 144), 0, 0, 0, 0) == frame[0]
    ensures ChunkPixel(frame, Placement(2, 0, 0, 320, 288, 160, 144), 0, 0, 4, 0) == frame[1]
  {
  }

  /**
   * Fills `dest[0..4096)` with the image of tile (chunkX, chunkZ), row by
   * row; everything past the image is left alone.
   */
  method ExtractChunk(frame: array<Pixel>, chunkX: int, chunkZ: int, scale: int, dest: array<Pixel>,
                      dispStartX: int, dispStartZ: int, dispW: int, dispH: int, pixelW: int, pixelH: int)
    requires Placement(scale, dispStartX, dispStartZ, dispW, dispH, pixelW, pixelH).Fits(frame[..])
    requires dest.Length >= CHUNK_IMAGE_PIXELS && frame != dest
    modifies dest
    ensures dest[..CHUNK_IMAGE_PIXELS] == ChunkImage(frame[..], Placement(scale, dispStartX, dispStartZ, dispW, dispH, pixelW, pixelH), chunkX, chunkZ)
    ensures dest[CHUNK_IMAGE_PIXELS..] == old(dest[CHUNK_IMAGE_PIXELS..])
  {
    ghost var f := frame[..];
    ghost var p := Placement(scale, dispStartX, dispStartZ, dispW, dispH, pixelW, pixelH);
    var py := 0;
    while py < CHUNK_IMAGE_SIZE
      invariant 0 <= py <= CHUNK_IMAGE_SIZE
      invariant forall y, x :: 0 <= y < py && 0 <= x < CHUNK_IMAGE_SIZE ==>
        dest[y * CHUNK_IMAGE_SIZE + x] == ChunkPixel(f, p, chunkX, chunkZ, x, y)
      invariant forall k :: CHUNK_IMAGE_PIXELS <= k < dest.Length ==> dest[k] == old(dest[k])
      invariant frame[..] == f
    {
      ghost var before := dest[..];
      ExtractRow(frame, chunkX, chunkZ, scale, dest, dispStartX, dispStartZ, dispW, dispH, pixelW, pixelH, py);
      forall y, x | 0 <= y <= py && 0 <= x < CHUNK_IMAGE_SIZE
        ensures dest[y * CHUNK_IMAGE_SIZE + x] == ChunkPixel(f, p, chunkX, chunkZ, x, y)
      {
        if y < py {
          assert y * CHUNK_IMAGE_SIZE + x < py * CHUNK_IMAGE_SIZE;
          assert dest[y * CHUNK_IMAGE_SIZE + x] == before[y * CHUNK_IMAGE_SIZE + x];
        } else {
          assert frame[..] == f;
        }
      }
      py := py + 1;
    }
    assert forall k :: 0 <= k < CHUNK_IMAGE_PIXELS ==>
      k == (k / CHUNK_IMAGE_SIZE) * CHUNK_IMAGE_SIZE + k % CHUNK_IMAGE_SIZE;
  }

  /**
   * The colour rule for world block (worldX, worldZ), from the values
   * `ExtractRow` computes once per image row: whether the row lies in the
   * display and in the border, its frame row `emuY` (-1 outside the display)
   * and that row's offset in the frame (-1 when there is none).
   */
  method BlockColour(frame: array<Pixel>, p: Placement, worldX: int, worldZ: int,
                     zInDisplay: bool, zInBorder: bool, emuY: int, frameRow: int) returns (colour: Pixel)
    requires p.Fits(frame[..])
    requires zInDisplay == (p.startZ <= worldZ < p.startZ + p.blocksH)
    requires zInBorder == (p.startZ - BORDER_BLOCKS <= worldZ < p.startZ + p.blocksH + BORDER_BLOCKS)
    requires emuY == if zInDisplay then (worldZ - p.startZ) / p.scale else -1
    requires frameRow == if 0 <= emuY < p.pixelH then emuY * p.pixelW else -1
    ensures colour == WorldPixel(frame[..], p, worldX, worldZ)
  {
    var xInDisplay := worldX >= p.startX && worldX < p.startX + p.blocksW;
    var xInBorder := worldX >= p.startX - BORDER_BLOCKS && worldX < p.startX + p.blocksW + BORDER_BLOCKS;
    if zInDisplay && xInDisplay && frameRow >= 0 {
      assert p.InDisplay(worldX, worldZ) && 0 <= emuY < p.pixelH;
      var emuX := (worldX - p.startX) / p.scale;
      DivNonNegative(worldX - p.startX, p.scale);
      if emuX >= 0 && emuX < p.pixelW {
        FrameIndexInRange(emuX, emuY, p.pixelW, p.pixelH);
        colour := frame[frameRow + emuX];
      } else {
        colour := BLACK;
      }
    } else if zInBorder && xInBorder {
      if zInDisplay {
        DivNonNegative(worldZ - p.startZ, p.scale);
      }
      colour := BORDER_COLOR;
    } else {
      colour := BLACK;
    }
  }

  /**
   * One pass of `ExtractChunk`'s row loop: fills image row `py`. A row whose
   * world row lies outside the border is filled black at once; otherwise
   * every pixel is classified by its world block.
   */
  method ExtractRow(frame: array<Pixel>, chunkX: int, chunkZ: int, scale: int, dest: array<Pixel>,
                    dispStartX: int, dispStartZ: int, dispW: int, dispH: int, pixelW: int, pixelH: int, py: int)
    requires Placement(scale, dispStartX, dispStartZ, dispW, dispH, pixelW, pixelH).Fits(frame[..])
    requires dest.Length >= CHUNK_IMAGE_PIXELS && frame != dest
    requires 0 <= py < CHUNK_IMAGE_SIZE
    modifies dest
    ensures forall x :: 0 <= x < CHUNK_IMAGE_SIZE ==>
      dest[py * CHUNK_IMAGE_SIZE + x] == ChunkPixel(frame[..], Placement(scale, dispStartX, dispStartZ, dispW, dispH, pixelW, pixelH), chunkX, chunkZ, x, py)
    ensures forall k :: 0 <= k < dest.Length && !(py * CHUNK_IMAGE_SIZE <= k < py * CHUNK_IMAGE_SIZE + CHUNK_IMAGE_SIZE) ==>
      dest[k] == old(dest[k])
  {
    var p := Placement(scale, dispStartX, dispStartZ, dispW, dispH, pixelW, pixelH);
    var chunkWorldZ := chunkZ * CHUNK_BLOCKS;
    var borderMinZ := dispStartZ - BORDER_BLOCKS;
    var borderMaxZ := dispStartZ + dispH + BORDER_BLOCKS;
    var worldZ := chunkWorldZ + py / PX_PER_BLOCK;
    var destRow := py * CHUNK_IMAGE_SIZE;
    var zInDisplay := worldZ >= dispStartZ && worldZ < dispStartZ + dispH;
    var zInBorder := worldZ >= borderMinZ && worldZ < borderMaxZ;
    if !zInBorder {
      // The whole row lies outside the border.
      forall x | 0 <= x < CHUNK_IMAGE_SIZE {
        dest[destRow + x] := BLACK;
      }
      return;
    }
    var emuY := if zInDisplay then (worldZ - dispStartZ) / scale else -1;
    var frameRow := if emuY >= 0 && emuY < pixelH then emuY * pixelW else -1;
    FillRow(frame, p, chunkX, chunkZ, dest, py, worldZ, zInDisplay, zInBorder, emuY, frameRow);
  }

  /** The pixel loop of `ExtractRow`, for an image row that reaches the border. */
  method FillRow(frame: array<Pixel>, p: Placement, chunkX: int, chunkZ: int, dest: array<Pixel>, py: int,
                 worldZ: int, zInDisplay: bool, zInBorder: bool, emuY: int, frameRow: int)
    requires p.Fits(frame[..])
    requires dest.Length >= CHUNK_IMAGE_PIXELS && frame != dest
    requires 0 <= py < CHUNK_IMAGE_SIZE && worldZ == chunkZ * CHUNK_BLOCKS + py / PX_PER_BLOCK
    requires zInDisplay == (p.startZ <= worldZ < p.startZ + p.blocksH)
    requires zInBorder == (p.startZ - BORDER_BLOCKS <= worldZ < p.startZ + p.blocksH + BORDER_BLOCKS)
    requires emuY == if zInDisplay then (worldZ - p.startZ) / p.scale else -1
    requires frameRow == if 0 <= emuY < p.pixelH then emuY * p.pixelW else -1
    modifies dest
    ensures forall x :: 0 <= x < CHUNK_IMAGE_SIZE ==>
      dest[py * CHUNK_IMAGE_SIZE + x] == ChunkPixel(frame[..], p, chunkX, chunkZ, x, py)
    ensures forall k :: 0 <= k < dest.Length && !(py * CHUNK_IMAGE_SIZE <= k < py * CHUNK_IMAGE_SIZE + CHUNK_IMAGE_SIZE) ==>
      dest[k] == old(dest[k])
  {
    ghost var f := frame[..];
    var chunkWorldX := chunkX * CHUNK_BLOCKS;
    var destRow := py * CHUNK_IMAGE_SIZE;
    var px := 0;
    while px < CHUNK_IMAGE_SIZE
      invariant 0 <= px <= CHUNK_IMAGE_SIZE
      invariant forall x :: 0 <= x < px ==> dest[destRow + x] == ChunkPixel(f, p, chunkX, chunkZ, x, py)
      invariant forall k :: 0 <= k < dest.Length && !(destRow <= k < destRow + CHUNK_IMAGE_SIZE) ==> dest[k] == old(dest[k])
      invariant frame[..] == f
    {
      var worldX := chunkWorldX + px / PX_PER_BLOCK;
      var colour := BlockColour(frame, p, worldX, worldZ, zInDisplay, zInBorder, emuY, frameRow);
      assert colour == ChunkPixel(f, p, chunkX, chunkZ, px, py);
      dest[destRow + px] := colour;
      px := px + 1;
    }
  }
}

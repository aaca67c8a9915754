/**
 * A player's emulator session: it owns the renderer and two reusable frame
 * buffers, and its render tick polls the shared frame buffer, converts the
 * new frame to RGBA, renders it and hands the resulting packet to the
 * player's connection. Scheduling is modelled by the period `Start` chooses;
 * the connection by the log of packets handed to it.
 */
module Emulator {
  import opened Options
  import opened ColorMapper
  import opened FrameBuffers
  import opened MapGeometry
  import opened MapDisplay

  /** A world-map packet sent to the player. */
  datatype Packet = ClearWorldMap | UpdateWorldMap(chunks: seq<Chunk>)

  /**
   * The render period `1000 / renderFps` in milliseconds (Java `long`
   * division; the dividend is positive, so truncation and Dafny's division
   * agree). `None` stands for the exceptions `start` throws: division by
   * zero for 0 FPS, and a rejected non-positive period for a negative rate
   * or one above 1000 FPS.
   */
  function TickPeriodMs(renderFps: int): (period: Option<int>)
    ensures period.Some? <==> 1 <= renderFps <= 1000
    ensures period.Some? ==> period.value >= 1 && period.value * renderFps <= 1000 < (period.value + 1) * renderFps
  {
    if renderFps == 0 then
      None
    else
      var p := 1000 / renderFps;
      if p <= 0 then None else Some(p)
  }

  /** The default 20 FPS renders every 50 ms; 30 FPS every 33 ms. */
  lemma TickPeriodExamples()
    ensures TickPeriodMs(20) == Some(50) && TickPeriodMs(30) == Some(33)
    ensures TickPeriodMs(0) == None && TickPeriodMs(1001) == None && TickPeriodMs(-5) == None
  {
  }

  class EmulatorSession {
    /** The frame hand-off shared with the emulator thread. */
    const frameBuffer: FrameBuffer
    const renderer: MapDisplayRenderer
    const readBuffer: array<Pixel>
    const rgbaBuffer: array<Pixel>
    /** The frame counter of the last frame rendered; -1 before the first. */
    var lastFrameCount: int
    /** Packets handed to the player's connection, oldest first. */
    var sent: seq<Packet>
    /** The period the render tick was scheduled with, once `Start` succeeded. */
    var periodMs: Option<int>
    ghost var Repr: set<object>

    ghost predicate Valid()
      reads this, Repr
      ensures Valid() ==> this in Repr
    {
      && this in Repr && renderer in Repr && readBuffer in Repr && rgbaBuffer in Repr
      && frameBuffer in Repr && frameBuffer.buffer in Repr
      && renderer.Repr <= Repr
      && this !in renderer.Repr && readBuffer !in renderer.Repr && rgbaBuffer !in renderer.Repr
      && frameBuffer !in renderer.Repr && frameBuffer.buffer !in renderer.Repr
      && readBuffer != rgbaBuffer && readBuffer != frameBuffer.buffer && rgbaBuffer != frameBuffer.buffer
      && renderer.Valid() && frameBuffer.Valid()
      && readBuffer.Length == frameBuffer.pixelCount && rgbaBuffer.Length == frameBuffer.pixelCount
      && frameBuffer.pixelCount >= renderer.geom.pixelW * renderer.geom.pixelH
    }

    /**
     * A session over `frameBuffer` for a `displayWidth` x `displayHeight`
     * screen centred on the (rounded) anchor; both buffers hold as many
     * pixels as the frame buffer, and no frame has been rendered yet.
     */
    constructor (frameBuffer: FrameBuffer, anchorX: int, anchorZ: int, mapScale: int,
                 displayWidth: int, displayHeight: int)
      requires frameBuffer.Valid() && displayWidth >= 0 && displayHeight >= 0
      requires frameBuffer.pixelCount >= displayWidth * displayHeight
      ensures Valid() && fresh(Repr - {frameBuffer, frameBuffer.buffer})
      ensures this.frameBuffer == frameBuffer
      ensures renderer.geom == ComputeGeometry(anchorX, anchorZ, mapScale, displayWidth, displayHeight)
      ensures renderer.compressor.Baselines == seq(renderer.geom.InnerWidth() * renderer.geom.InnerHeight(), _ => None)
      ensures renderer.paddingSent[..] == seq(renderer.geom.gridWidth * renderer.geom.gridHeight, _ => false)
      ensures lastFrameCount == -1 && sent == [] && periodMs == None
    {
      this.frameBuffer := frameBuffer;
      renderer := new MapDisplayRenderer(anchorX, anchorZ, mapScale, displayWidth, displayHeight);
      readBuffer := new Pixel[frameBuffer.pixelCount](_ => 0);
      rgbaBuffer := new Pixel[frameBuffer.pixelCount](_ => 0);
      lastFrameCount := -1;
      sent := [];
      periodMs := None;
      new;
      Repr := {this, readBuffer, rgbaBuffer, frameBuffer, frameBuffer.buffer} + renderer.Repr;
    }

    /**
     * Sends the map-clearing packet and schedules the render tick every
     * `TickPeriodMs(renderFps)` milliseconds. `ok` is false where the
     * source throws instead of scheduling; the clearing packet has been sent
     * by then either way.
     */
    method Start(renderFps: int) returns (ok: bool)
      requires Valid()
      modifies this`sent, this`periodMs
      ensures Valid()
      ensures sent == old(sent) + [ClearWorldMap]
      ensures ok <==> 1 <= renderFps <= 1000
      ensures periodMs == (if ok then TickPeriodMs(renderFps) else old(periodMs))
    {
      sent := sent + [ClearWorldMap];
      var period := TickPeriodMs(renderFps);
      if period.None? {
        return false;
      }
      periodMs := period;
      return true;
    }

    /**
     * One render tick. With no new frame since the last tick nothing
     * changes. Otherwise the counter is recorded, the frame is copied and
     * converted to RGBA, rendered against the renderer's state, and the
     * packet, if any, is handed to the connection; afterwards the renderer's
     * baselines hold this frame's tiles and every padding tile is flagged.
     */
    method RenderTick()
      requires Valid()
      modifies this`lastFrameCount, this`sent, this`Repr, renderer.Repr, readBuffer, rgbaBuffer
      ensures Valid() && fresh(Repr - old(Repr))
      ensures Poll(frameBuffer.frameCount, old(lastFrameCount)) == NO_UPDATE ==>
        && lastFrameCount == old(lastFrameCount) && sent == old(sent)
        && renderer.compressor.Baselines == old(renderer.compressor.Baselines)
        && renderer.paddingSent[..] == old(renderer.paddingSent[..])
        && readBuffer[..] == old(readBuffer[..]) && rgbaBuffer[..] == old(rgbaBuffer[..])
      ensures Poll(frameBuffer.frameCount, old(lastFrameCount)) != NO_UPDATE ==>
        && lastFrameCount == frameBuffer.frameCount
        && readBuffer[..] == frameBuffer.buffer[..]
        && (forall i :: 0 <= i < rgbaBuffer.Length ==> rgbaBuffer[i] == ToRgba(frameBuffer.buffer[i]))
        && sent == old(sent) + (
             var batch := Batch(Emissions(renderer.geom, rgbaBuffer[..],
                                          old(renderer.compressor.Baselines), old(renderer.paddingSent[..])));
             if batch.Some? then [UpdateWorldMap(batch.value)] else [])
        && BaselinesMatch(renderer.geom, rgbaBuffer[..], renderer.compressor.Baselines)
        && AllPaddingSent(renderer.geom, renderer.paddingSent[..])
    {
      var newCount := frameBuffer.GetLatestFrame(readBuffer, lastFrameCount);
      if newCount == NO_UPDATE {
        return;
      }
      lastFrameCount := newCount;
      DrawFrame();
    }

    /**
     * The rendering half of a tick that saw a new frame: `readBuffer` is
     * converted into `rgbaBuffer`, rendered, and the packet, if any, is
     * handed to the connection.
     */
    method DrawFrame()
      requires Valid()
      modifies this`sent, this`Repr, renderer.Repr, rgbaBuffer
      ensures Valid() && fresh(Repr - old(Repr))
      ensures forall i :: 0 <= i < rgbaBuffer.Length ==> rgbaBuffer[i] == ToRgba(readBuffer[i])
      ensures sent == old(sent) + (
               var batch := Batch(Emissions(renderer.geom, rgbaBuffer[..],
                                            old(renderer.compressor.Baselines), old(renderer.paddingSent[..])));
               if batch.Some? then [UpdateWorldMap(batch.value)] else [])
      ensures BaselinesMatch(renderer.geom, rgbaBuffer[..], renderer.compressor.Baselines)
      ensures AllPaddingSent(renderer.geom, renderer.paddingSent[..])
    {
      ToRgbaArray(readBuffer, rgbaBuffer, frameBuffer.GetPixelCount());
      var packet := renderer.RenderFrame(rgbaBuffer);
      Repr := Repr + renderer.Repr;
      if packet.Some? {
        sent := sent + [UpdateWorldMap(packet.value)];
      }
    }
  }

  /**
   * The first tick after construction always renders: no counter equals the
   * initial -1, so even the all-zero frame present before any submit is
   * drawn (as black).
   */
  lemma FirstTickRenders(frameCount: nat)
    ensures Poll(frameCount, -1) == frameCount
  {
  }
}

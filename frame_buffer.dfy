/**
 * The single-slot frame hand-off between the emulator (producer) and the
 * render loop (consumer): the newest frame overwrites the slot and bumps a
 * frame counter; a reader passes the counter it last saw and gets either
 * the new counter and a copy of the slot, or the "no update" sentinel -1.
 */
module FrameBuffers {
  import opened ColorMapper

  /** Returned by `GetLatestFrame` when nothing was submitted since the caller's last read. */
  const NO_UPDATE: int := -1

  /**
   * The outcome of a read against the current counter: the counter itself
   * if it differs from the one the caller last saw, `NO_UPDATE` otherwise.
   */
  function Poll(frameCount: int, lastFrameCount: int): (r: int)
  {
    if frameCount == lastFrameCount then NO_UPDATE else frameCount
  }

  /**
   * Reading twice with no submit in between: the second read, given the
   * counter the first one returned, reports no update. A counter is never
   * negative, so a counter can never be mistaken for the sentinel.
   */
  lemma PollTwiceNoUpdate(frameCount: nat, lastFrameCount: int)
    ensures Poll(frameCount, lastFrameCount) != NO_UPDATE ==> Poll(frameCount, Poll(frameCount, lastFrameCount)) == NO_UPDATE
    ensures Poll(frameCount, lastFrameCount) == NO_UPDATE <==> frameCount == lastFrameCount
  {
  }

  class FrameBuffer {
    const width: int
    const height: int
    const pixelCount: nat
    const buffer: array<Pixel>
    /** Number of frames submitted so far (a Java `AtomicLong`, unbounded here). */
    var frameCount: nat

    ghost predicate Valid()
      reads this
    {
      pixelCount == width * height && buffer.Length == pixelCount
    }

    /** An all-zero buffer of `width * height` pixels, with no frame submitted yet. */
    constructor (width: int, height: int)
      requires width * height >= 0
      ensures Valid() && fresh(buffer)
      ensures this.width == width && this.height == height
      ensures buffer[..] == seq(width * height, _ => 0)
      ensures frameCount == 0
    {
      this.width := width;
      this.height := height;
      pixelCount := width * height;
      buffer := new Pixel[width * height](_ => 0);
      frameCount := 0;
    }

    /**
     * Copies the first `min(pixels.Length, pixelCount)` pixels over the slot
     * (the rest of the slot keeps the previous frame's pixels) and counts
     * one more frame. Nothing is queued: an unread frame is overwritten.
     */
    method SubmitFrame(pixels: array<Pixel>)
      requires Valid() && pixels != buffer
      modifies this, buffer
      ensures Valid()
      ensures var n := if pixels.Length < pixelCount then pixels.Length else pixelCount;
        buffer[..] == pixels[..n] + old(buffer[n..])
      ensures frameCount == old(frameCount) + 1
    {
      var n := if pixels.Length < pixelCount then pixels.Length else pixelCount;
      var i := 0;
      while i < n
        invariant 0 <= i <= n
        invariant forall k :: 0 <= k < i ==> buffer[k] == pixels[k]
        invariant forall k :: i <= k < buffer.Length ==> buffer[k] == old(buffer[k])
        invariant frameCount == old(frameCount)
      {
        buffer[i] := pixels[i];
        i := i + 1;
      }
      assert buffer[..] == pixels[..n] + old(buffer[n..]);
      frameCount := frameCount + 1;
    }

    /**
     * If the counter still equals `lastFrameCount`, returns `NO_UPDATE` and
     * leaves `dest` alone; otherwise copies the whole slot into the front of
     * `dest` and returns the current counter.
     */
    method GetLatestFrame(dest: array<Pixel>, lastFrameCount: int) returns (r: int)
      requires Valid() && dest != buffer && dest.Length >= pixelCount
      modifies dest
      ensures r == Poll(frameCount, lastFrameCount)
      ensures r == NO_UPDATE ==> dest[..] == old(dest[..])
      ensures r != NO_UPDATE ==> dest[..] == buffer[..] + old(dest[pixelCount..])
    {
      if frameCount == lastFrameCount {
        return NO_UPDATE;
      }
      var i := 0;
      while i < pixelCount
        invariant 0 <= i <= pixelCount
        invariant forall k :: 0 <= k < i ==> dest[k] == buffer[k]
        invariant forall k :: i <= k < dest.Length ==> dest[k] == old(dest[k])
      {
        dest[i] := buffer[i];
        i := i + 1;
      }
      assert dest[..] == buffer[..] + old(dest[pixelCount..]);
      r := frameCount;
    }

    function GetFrameCount(): (c: nat)
      reads this
    {
      frameCount
    }

    function GetPixelCount(): (n: nat)
      reads this
      requires Valid()
      ensures n == width * height && n == buffer.Length
    {
      pixelCount
    }
  }
}

/**
 * The per-tile change cache: for every tile index of a grid it keeps the
 * pixels last reported as changed (the baseline) and answers whether a
 * freshly rendered tile differs from it.
 */
module DeltaCompression {
  import opened Options
  import opened ColorMapper

  /**
   * Java's `Arrays.copyOf(s, n)`: the first `n` pixels of `s`, padded with
   * zeros when `s` is shorter.
   */
  function CopyOf(s: seq<Pixel>, n: nat): (r: seq<Pixel>)
    ensures |r| == n
    ensures forall i :: 0 <= i < n ==> r[i] == if i < |s| then s[i] else 0
  {
    if n <= |s| then s[..n] else s + seq(n - |s|, _ => 0)
  }

  /** The answer of one change query and the baselines it leaves behind. */
  datatype Observation = Observation(changed: bool, baselines: seq<Option<seq<Pixel>>>)

  /**
   * One change query on the baselines as values. An index outside the
   * grid is changed and stores nothing. An empty slot is changed and stores
   * `CopyOf(pixels, chunkPixelCount)`. Otherwise the first `chunkPixelCount`
   * pixels are compared with the baseline: equal means unchanged, and a
   * difference is changed and makes those pixels the new baseline.
   */
  function Observe(baselines: seq<Option<seq<Pixel>>>, chunkIndex: int, pixels: seq<Pixel>, chunkPixelCount: nat): Observation
    // Comparing against a baseline reads `chunkPixelCount` pixels.
    requires 0 <= chunkIndex < |baselines| && baselines[chunkIndex].Some? ==> |pixels| >= chunkPixelCount
  {
    if !(0 <= chunkIndex < |baselines|) then
      Observation(true, baselines)
    else
      match baselines[chunkIndex]
      case None => Observation(true, baselines[chunkIndex := Some(CopyOf(pixels, chunkPixelCount))])
      case Some(previous) =>
        if previous == pixels[..chunkPixelCount] then Observation(false, baselines)
        else Observation(true, baselines[chunkIndex := Some(pixels[..chunkPixelCount])])
  }

  /**
   * A query answers "unchanged" exactly when the index is in the grid and
   * its baseline equals the first `chunkPixelCount` pixels; afterwards that
   * baseline holds those pixels (zero-padded if fewer), and no other slot
   * changes.
   */
  lemma ObserveSpec(baselines: seq<Option<seq<Pixel>>>, chunkIndex: int, pixels: seq<Pixel>, chunkPixelCount: nat)
    requires 0 <= chunkIndex < |baselines| && baselines[chunkIndex].Some? ==> |pixels| >= chunkPixelCount
    ensures var r := Observe(baselines, chunkIndex, pixels, chunkPixelCount);
      && (!r.changed <==>
            0 <= chunkIndex < |baselines| && baselines[chunkIndex].Some? && baselines[chunkIndex].value == pixels[..chunkPixelCount])
      && |r.baselines| == |baselines|
      && (0 <= chunkIndex < |baselines| ==> r.baselines[chunkIndex] == Some(CopyOf(pixels, chunkPixelCount)))
      && (forall j :: 0 <= j < |baselines| && j != chunkIndex ==> r.baselines[j] == baselines[j])
  {
    if 0 <= chunkIndex < |baselines| && baselines[chunkIndex].Some? {
      assert CopyOf(pixels, chunkPixelCount) == pixels[..chunkPixelCount];
    }
  }

  /** Asking again about the same pixels, with nothing in between, answers "unchanged". */
  lemma ObserveTwiceUnchanged(baselines: seq<Option<seq<Pixel>>>, chunkIndex: int, pixels: seq<Pixel>, chunkPixelCount: nat)
    requires 0 <= chunkIndex < |baselines| && |pixels| >= chunkPixelCount
    ensures !Observe(Observe(baselines, chunkIndex, pixels, chunkPixelCount).baselines, chunkIndex, pixels, chunkPixelCount).changed
  {
    assert CopyOf(pixels, chunkPixelCount) == pixels[..chunkPixelCount];
  }

  /** A single differing pixel within the compared range is always reported. */
  lemma ObserveDetectsAnyDifference(baselines: seq<Option<seq<Pixel>>>, chunkIndex: int, pixels: seq<Pixel>,
                                    chunkPixelCount: nat, k: int)
    requires 0 <= chunkIndex < |baselines| && |pixels| >= chunkPixelCount
    requires baselines[chunkIndex].Some? && |baselines[chunkIndex].value| == chunkPixelCount
    requires 0 <= k < chunkPixelCount && pixels[k] != baselines[chunkIndex].value[k]
    ensures Observe(baselines, chunkIndex, pixels, chunkPixelCount).changed
  {
    assert pixels[..chunkPixelCount][k] != baselines[chunkIndex].value[k];
  }

  /** After a reset every query in the grid answers "changed". */
  lemma ObserveAfterReset(n: nat, chunkIndex: int, pixels: seq<Pixel>, chunkPixelCount: nat)
    ensures Observe(seq(n, _ => None), chunkIndex, pixels, chunkPixelCount).changed
  {
  }

  class DeltaCompressor {
    const gridWidth: int
    const gridHeight: int
    const totalChunks: int
    const chunkPixelCount: nat
    /** One slot per tile index: `null` until the tile is first seen, then its baseline. */
    const previousChunks: array<array?<Pixel>>

    /** The baselines as values: `None` for an empty slot. */
    ghost var Baselines: seq<Option<seq<Pixel>>>
    /** The slot each baseline array was stored in; it shows that no array serves two slots. */
    ghost var SlotOf: map<array?<Pixel>, int>
    ghost var Repr: set<object>

    ghost predicate Valid()
      reads this, Repr
      ensures Valid() ==> this in Repr
    {
      && this in Repr && previousChunks in Repr
      && totalChunks == gridWidth * gridHeight
      && previousChunks.Length == totalChunks
      && |Baselines| == totalChunks
      && (forall i :: 0 <= i < previousChunks.Length ==>
            (previousChunks[i] == null <==> Baselines[i] == None))
      && (forall i :: 0 <= i < previousChunks.Length && previousChunks[i] != null ==>
            previousChunks[i] in Repr
            && (previousChunks[i] as object) != (previousChunks as object)
            && previousChunks[i].Length == chunkPixelCount
            && previousChunks[i][..] == Baselines[i].value
            && previousChunks[i] in SlotOf && SlotOf[previousChunks[i]] == i)
    }

    /** A cache for a `gridWidth` x `gridHeight` grid of tiles, every slot empty. */
    constructor (gridWidth: int, gridHeight: int, chunkPixelCount: nat)
      requires gridWidth * gridHeight >= 0
      ensures Valid() && fresh(Repr)
      ensures this.gridWidth == gridWidth && this.gridHeight == gridHeight
      ensures this.chunkPixelCount == chunkPixelCount
      ensures totalChunks == gridWidth * gridHeight
      ensures Baselines == seq(gridWidth * gridHeight, _ => None)
    {
      this.gridWidth := gridWidth;
      this.gridHeight := gridHeight;
      this.chunkPixelCount := chunkPixelCount;
      totalChunks := gridWidth * gridHeight;
      previousChunks := new array?<Pixel>[gridWidth * gridHeight](_ => null);
      Baselines := seq(gridWidth * gridHeight, _ => None);
      SlotOf := map[];
      new;
      Repr := {this, previousChunks};
    }

    /** Whether tile `chunkIndex` must be sent, answered and recorded as `Observe` describes. */
    method HasChanged(chunkIndex: int, pixels: array<Pixel>) returns (changed: bool)
      requires Valid() && pixels !in Repr
      // Comparing against a baseline reads `chunkPixelCount` pixels.
      requires 0 <= chunkIndex < totalChunks && Baselines[chunkIndex].Some? ==> pixels.Length >= chunkPixelCount
      modifies Repr
      ensures Valid() && fresh(Repr - old(Repr))
      ensures Observation(changed, Baselines) == Observe(old(Baselines), chunkIndex, pixels[..], chunkPixelCount)
    {
      if chunkIndex < 0 || chunkIndex >= totalChunks {
        return true;
      }
      var previous := previousChunks[chunkIndex];
      if previous == null {
        StoreCopy(chunkIndex, pixels);
        return true;
      }
      var same := ArraysEqual(previous, pixels, chunkPixelCount);
      if !same {
        Overwrite(chunkIndex, pixels);
        return true;
      }
      return false;
    }

    /** The first-use branch: slot `chunkIndex` gets a fresh copy of `pixels`. */
    method StoreCopy(chunkIndex: int, pixels: array<Pixel>)
      requires Valid() && pixels !in Repr
      requires 0 <= chunkIndex < totalChunks && Baselines[chunkIndex] == None
      modifies this`Repr, this`Baselines, this`SlotOf, previousChunks
      ensures Valid() && fresh(Repr - old(Repr))
      ensures Baselines == old(Baselines)[chunkIndex := Some(CopyOf(pixels[..], chunkPixelCount))]
    {
      var copy := new Pixel[chunkPixelCount];
      var i := 0;
      while i < chunkPixelCount
        invariant 0 <= i <= chunkPixelCount
        invariant forall k :: 0 <= k < i ==> copy[k] == if k < pixels.Length then pixels[k] else 0
        modifies copy
      {
        copy[i] := if i < pixels.Length then pixels[i] else 0;
        i := i + 1;
      }
      assert copy[..] == CopyOf(pixels[..], chunkPixelCount);
      previousChunks[chunkIndex] := copy;
      Baselines := Baselines[chunkIndex := Some(copy[..])];
      SlotOf := SlotOf[copy := chunkIndex];
      Repr := Repr + {copy};
    }

    /** The changed branch: the baseline array of slot `chunkIndex` is overwritten in place. */
    method Overwrite(chunkIndex: int, pixels: array<Pixel>)
      requires Valid() && pixels !in Repr
      requires 0 <= chunkIndex < totalChunks && Baselines[chunkIndex].Some?
      requires pixels.Length >= chunkPixelCount
      modifies this`Baselines, previousChunks[chunkIndex]
      ensures Valid()
      ensures Baselines == old(Baselines)[chunkIndex := Some(pixels[..chunkPixelCount])]
    {
      var previous := previousChunks[chunkIndex];
      assert forall j :: 0 <= j < previousChunks.Length && j != chunkIndex && previousChunks[j] != null ==>
        SlotOf[previousChunks[j]] != SlotOf[previous];
      var i := 0;
      while i < chunkPixelCount
        invariant 0 <= i <= chunkPixelCount
        invariant forall k :: 0 <= k < i ==> previous[k] == pixels[k]
        modifies previous
      {
        previous[i] := pixels[i];
        i := i + 1;
      }
      assert previous[..] == pixels[..chunkPixelCount];
      Baselines := Baselines[chunkIndex := Some(previous[..])];
    }

    /** Empties every slot, so the next call for any index reports a change. */
    method Reset()
      requires Valid()
      modifies this, previousChunks
      ensures Valid() && Repr == old(Repr)
      ensures Baselines == seq(totalChunks, _ => None)
    {
      var i := 0;
      while i < previousChunks.Length
        invariant 0 <= i <= previousChunks.Length
        invariant forall k :: 0 <= k < i ==> previousChunks[k] == null
        invariant forall k :: i <= k < previousChunks.Length ==> previousChunks[k] == old(previousChunks[k])
        modifies previousChunks
      {
        previousChunks[i] := null;
        i := i + 1;
      }
      Baselines := seq(totalChunks, _ => None);
    }
  }

  /** Java's `Arrays.equals` over the ranges `[0, n)` of both arrays. */
  method ArraysEqual(a: array<Pixel>, b: array<Pixel>, n: nat) returns (same: bool)
    requires n <= a.Length && n <= b.Length
    ensures same <==> a[..n] == b[..n]
  {
    var i := 0;
    while i < n
      invariant 0 <= i <= n
      invariant a[..i] == b[..i]
    {
      if a[i] != b[i] {
        assert a[..n][i] != b[..n][i];
        return false;
      }
      i := i + 1;
    }
    return true;
  }
}

/** The two passes over an animated GIF: classifying it as full or partial
    (`analyseImage`) and extracting, compositing and shrinking its frames
    (`extract_and_resize_frames`). The frames of the opened file are given as
    a sequence; the end of that sequence is where `im.seek` raises `EOFError`. */
module GifFrames {
  import opened Imaging

  datatype Mode = Full | Partial

  /** The `results` dictionary of `analyseImage`. */
  datatype Analysis = Analysis(size: Size, mode: Mode)

  /** `update_region[2:]`: the lower-right corner `(x1, y1)` of a region. */
  function RegionTail(r: Region): Size {
    Size(r.x1, r.y1)
  }

  /** A frame that makes the animation partial: it has tile data and the tail
      of its first tile's region differs from its size. */
  predicate PartialFrame(f: Image) {
    |f.tile| > 0 && RegionTail(f.tile[0].region) != f.size
  }

  /** The mode of a frame sequence: partial as soon as one frame is. */
  function ModeOf(frames: seq<Image>): (m: Mode)
    ensures m == Partial <==> exists k :: 0 <= k < |frames| && PartialFrame(frames[k])
  {
    if frames == [] then Full
    else if PartialFrame(frames[0]) then Partial
    else
      assert forall k :: 0 < k < |frames| ==> frames[k] == frames[1..][k - 1];
      ModeOf(frames[1..])
  }

  /** The comparison is with the region's lower-right corner, not its extent:
      a frame updating only the lower-right 90 by 90 pixels of a 100 by 100
      canvas leaves the animation full. */
  lemma CornerAnchoredRegionIsFull()
    ensures ModeOf([Image(Size(100, 100), [Tile("gif", Region(10, 10, 100, 100))], None, [])]) == Full
  {
  }

  /** `analyseImage`: walk the frames until one is partial or the frames run out. */
  method AnalyseImage(frames: seq<Image>) returns (results: Analysis)
    requires |frames| > 0
    ensures results.size == frames[0].size
    ensures results.mode == Partial <==> exists k :: 0 <= k < |frames| && PartialFrame(frames[k])
  {
    results := Analysis(frames[0].size, Full);
    var cursor := 0;
    while cursor < |frames|
      invariant 0 <= cursor <= |frames|
      invariant results == Analysis(frames[0].size, Full)
      invariant forall k :: 0 <= k < cursor ==> !PartialFrame(frames[k])
    {
      var im := frames[cursor];
      if |im.tile| > 0 {
        var tile := im.tile[0];
        var updateRegion := tile.region;
        var updateRegionDimensions := RegionTail(updateRegion);
        if updateRegionDimensions != im.size {
          results := results.(mode := Partial);
          break;
        }
      }
      cursor := cursor + 1;
    }
  }

  /** `resize_to`, or the 512 by 512 box when it is not given. */
  function BoundingBox(resizeTo: Option<Size>): Size {
    if resizeTo.None? then Size(512, 512) else resizeTo.value
  }

  /** The frame as it is pasted: a frame without a palette of its own gets the
      global palette `p`; a `ValueError` from `putpalette` leaves it as it was. */
  function WithPalette(lib: Pillow, p: Option<seq<int>>, im: Image): Image {
    if HasPalette(im) then im
    else match lib.putPalette(im, p)
      case Some(withP) => withP
      case None => im
  }

  /** The blank RGBA canvas of the frame's size, with the previous frame pasted
      on it first in partial mode. */
  function Base(lib: Pillow, mode: Mode, lastFrame: Image, size: Size): Image {
    var blank := lib.newRgba(size);
    if mode == Partial then lib.paste(blank, lastFrame) else blank
  }

  /** The frame pasted on its base through its own RGBA mask; a `ValueError`
      leaves the base as it was. */
  function Composite(lib: Pillow, mode: Mode, lastFrame: Image, im: Image): Image {
    var base := Base(lib, mode, lastFrame, im.size);
    match lib.pasteMasked(base, im, lib.convertRgba(im))
    case Some(pasted) => pasted
    case None => base
  }

  /** The frame one iteration of the extraction loop appends. */
  function Emitted(lib: Pillow, mode: Mode, p: Option<seq<int>>, box: Size, lastFrame: Image, im: Image): Image {
    lib.thumbnail(Composite(lib, mode, lastFrame, WithPalette(lib, p, im)), box)
  }

  /** The frames the extraction loop appends for `frames`, starting from
      `lastFrame`; each emitted frame is the next iteration's `lastFrame`. */
  function Extracted(lib: Pillow, mode: Mode, p: Option<seq<int>>, box: Size, lastFrame: Image,
                     frames: seq<Image>): (out: seq<Image>)
    ensures |out| == |frames|
    decreases |frames|
  {
    if frames == [] then []
    else
      var newFrame := Emitted(lib, mode, p, box, lastFrame, frames[0]);
      [newFrame] + Extracted(lib, mode, p, box, newFrame, frames[1..])
  }

  /** The k-th extracted frame is built from the k-th source frame on top of
      the frame emitted just before it (on `lastFrame` for the first one). */
  lemma {:induction false} ExtractedAt(lib: Pillow, mode: Mode, p: Option<seq<int>>, box: Size, lastFrame: Image,
                                       frames: seq<Image>, k: nat)
    requires k < |frames|
    ensures var out := Extracted(lib, mode, p, box, lastFrame, frames);
            out[k] == Emitted(lib, mode, p, box, if k == 0 then lastFrame else out[k - 1], frames[k])
    decreases k
  {
    if k > 0 {
      var newFrame := Emitted(lib, mode, p, box, lastFrame, frames[0]);
      ExtractedAt(lib, mode, p, box, newFrame, frames[1..], k - 1);
    }
  }

  /** In full mode the previous frame is never used: the k-th extracted frame
      is the k-th source frame pasted on a blank canvas, whatever `lastFrame`
      the loop started from. */
  lemma {:induction false} FullModeIgnoresLastFrame(lib: Pillow, p: Option<seq<int>>, box: Size, lastFrame: Image,
                                                    frames: seq<Image>, k: nat)
    requires k < |frames|
    ensures var im := WithPalette(lib, p, frames[k]);
            var base := lib.newRgba(im.size);
            Extracted(lib, Full, p, box, lastFrame, frames)[k]
            == lib.thumbnail(if lib.pasteMasked(base, im, lib.convertRgba(im)).Some?
                             then lib.pasteMasked(base, im, lib.convertRgba(im)).value
                             else base, box)
    decreases k
  {
    if k > 0 {
      var newFrame := Emitted(lib, Full, p, box, lastFrame, frames[0]);
      FullModeIgnoresLastFrame(lib, p, box, newFrame, frames[1..], k - 1);
    }
  }

  /** In partial mode the k-th canvas starts as the blank canvas with the
      previously emitted frame pasted on it (frame 0 in RGBA form for k = 0). */
  lemma PartialModeLayersOnPrevious(lib: Pillow, p: Option<seq<int>>, box: Size, frames: seq<Image>, k: nat)
    requires k < |frames|
    ensures var out := Extracted(lib, Partial, p, box, lib.convertRgba(frames[0]), frames);
            var im := WithPalette(lib, p, frames[k]);
            var prev := if k == 0 then lib.convertRgba(frames[0]) else out[k - 1];
            var base := lib.paste(lib.newRgba(im.size), prev);
            out[k] == lib.thumbnail(if lib.pasteMasked(base, im, lib.convertRgba(im)).Some?
                                    then lib.pasteMasked(base, im, lib.convertRgba(im)).value
                                    else base, box)
  {
    ExtractedAt(lib, Partial, p, box, lib.convertRgba(frames[0]), frames, k);
  }

  /** Every emitted frame is built from its source frame as the palette step
      leaves it: a frame with a palette of its own is used as it is, one without
      gets frame 0's palette from `putpalette`, and is used as it is when
      `putpalette` raises `ValueError`. */
  lemma {:induction false} PaletteInherited(lib: Pillow, frames: seq<Image>, resizeTo: Option<Size>, k: nat)
    requires k < |frames|
    ensures var mode := ModeOf(frames);
            var box := BoundingBox(resizeTo);
            var out := Extracted(lib, mode, frames[0].palette, box, lib.convertRgba(frames[0]), frames);
            var prev := if k == 0 then lib.convertRgba(frames[0]) else out[k - 1];
            var put := lib.putPalette(frames[k], frames[0].palette);
            var im := if HasPalette(frames[k]) || put.None? then frames[k] else put.value;
            out[k] == lib.thumbnail(Composite(lib, mode, prev, im), box)
  {
    ExtractedAt(lib, ModeOf(frames), frames[0].palette, BoundingBox(resizeTo), lib.convertRgba(frames[0]), frames, k);
  }

  /** One iteration of the loop: the frames still to come unfold by one. */
  lemma ExtractedStep(lib: Pillow, mode: Mode, p: Option<seq<int>>, box: Size, lastFrame: Image,
                      frames: seq<Image>, i: nat)
    requires i < |frames|
    ensures var newFrame := Emitted(lib, mode, p, box, lastFrame, frames[i]);
            Extracted(lib, mode, p, box, lastFrame, frames[i..])
            == [newFrame] + Extracted(lib, mode, p, box, newFrame, frames[i + 1..])
  {
    assert frames[i..][1..] == frames[i + 1..];
  }

  /** Regrouping the accumulator and the frames still to come. */
  lemma AppendAssoc<T>(a: seq<T>, b: seq<T>, c: seq<T>)
    ensures a + b + c == a + (b + c)
  {
  }

  /** `extract_and_resize_frames`: one output frame per source frame, in order;
      the loop ends normally when the frames run out. */
  method ExtractAndResizeFrames(lib: Pillow, frames: seq<Image>, resizeTo: Option<Size>)
    returns (allFrames: seq<Image>)
    requires |frames| > 0
    ensures |allFrames| == |frames|
    ensures allFrames == Extracted(lib, ModeOf(frames), frames[0].palette, BoundingBox(resizeTo),
                                   lib.convertRgba(frames[0]), frames)
  {
    var analysis := AnalyseImage(frames);
    var mode := analysis.mode;
    var box := BoundingBox(resizeTo);

    var i := 0;
    var p := frames[0].palette;
    var lastFrame := lib.convertRgba(frames[0]);
    ghost var firstLast := lastFrame;

    allFrames := [];
    while i < |frames|
      invariant 0 <= i <= |frames|
      invariant |allFrames| == i
      invariant i > 0 ==> lastFrame == allFrames[i - 1]
      invariant allFrames + Extracted(lib, mode, p, box, lastFrame, frames[i..])
                == Extracted(lib, mode, p, box, firstLast, frames)
    {
      var im := frames[i];
      if !HasPalette(im) {
        var put := lib.putPalette(im, p);
        if put.Some? {
          im := put.value;
        }
      }
      assert im == WithPalette(lib, p, frames[i]);

      var newFrame := lib.newRgba(im.size);
      if mode == Partial {
        newFrame := lib.paste(newFrame, lastFrame);
      }
      assert newFrame == Base(lib, mode, lastFrame, im.size);
      var pasted := lib.pasteMasked(newFrame, im, lib.convertRgba(im));
      if pasted.Some? {
        newFrame := pasted.value;
      }
      assert newFrame == Composite(lib, mode, lastFrame, im);

      newFrame := lib.thumbnail(newFrame, box);
      ExtractedStep(lib, mode, p, box, lastFrame, frames, i);
      ghost var rest := Extracted(lib, mode, p, box, newFrame, frames[i + 1..]);
      AppendAssoc(allFrames, [newFrame], rest);
      allFrames := allFrames + [newFrame];

      i := i + 1;
      lastFrame := newFrame;
    }
    assert frames[i..] == [];
  }
}

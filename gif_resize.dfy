/** `resize_gif`: extract and shrink the frames of a GIF, then save them to
    the output path, as a still image when there is one frame and as an
    endlessly looping animation otherwise. The save itself is described by
    the call it makes, not performed. */
module GifResize {
  import opened Imaging
  import opened GifFrames

  /** The `save` call made on the first frame. Both forms pass `optimize=True`. */
  datatype SaveCall =
    | StaticSave(target: string, image: Image, optimize: bool)
    | AnimatedSave(target: string, first: Image, appendImages: seq<Image>,
                   duration: int, loop: int, optimize: bool)

  /** The frames a save call writes, in the order they are written. */
  function SavedFrames(call: SaveCall): seq<Image> {
    match call
    case StaticSave(_, image, _) => [image]
    case AnimatedSave(_, first, appendImages, _, _, _) => [first] + appendImages
  }

  /** `save_as` when it is truthy, the input path otherwise. */
  function OutputPath(path: string, saveAs: Option<string>): string {
    if saveAs.None? || saveAs.value == "" then path else saveAs.value
  }

  /** The save branch of `resize_gif` for frames already extracted; `None`
      when `all_frames[0]` raises `IndexError` on an empty list. */
  function SaveFrames(path: string, myduration: int, saveAs: Option<string>, allFrames: seq<Image>)
    : (r: Option<SaveCall>)
    ensures r.None? <==> allFrames == []
    ensures r.Some? ==> SavedFrames(r.value) == allFrames
    ensures r.Some? ==> r.value.target == OutputPath(path, saveAs)
    ensures r.Some? ==> r.value.optimize
    ensures r.Some? ==> (r.value.StaticSave? <==> |allFrames| == 1)
    ensures r.Some? && r.value.AnimatedSave? ==> r.value.duration == myduration && r.value.loop == 0
  {
    var target := OutputPath(path, saveAs);
    if |allFrames| == 1 then Some(StaticSave(target, allFrames[0], true))
    else if allFrames == [] then None
    else Some(AnimatedSave(target, allFrames[0], allFrames[1..], myduration, 0, true))
  }

  /** `resize_gif` on the frames of the file at `path`: every extracted frame
      is saved, in order, to the output path. */
  method ResizeGif(lib: Pillow, path: string, frames: seq<Image>, myduration: int,
                   saveAs: Option<string>, resizeTo: Option<Size>)
    returns (saved: SaveCall)
    requires |frames| > 0
    ensures saved.target == OutputPath(path, saveAs)
    ensures SavedFrames(saved) == Extracted(lib, ModeOf(frames), frames[0].palette, BoundingBox(resizeTo),
                                            lib.convertRgba(frames[0]), frames)
    ensures |SavedFrames(saved)| == |frames|
    ensures saved.StaticSave? <==> |frames| == 1
    ensures saved.AnimatedSave? ==> saved.duration == myduration && saved.loop == 0
  {
    var allFrames := ExtractAndResizeFrames(lib, frames, resizeTo);
    var call := SaveFrames(path, myduration, saveAs, allFrames);
    saved := call.value;
  }
}

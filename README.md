# PinAnimate core, modelled in Dafny

PinAnimate is a small GTK desktop tool. The user picks a folder of images of one size and orders them in a list. The tool previews them as an animation and exports them as an animated GIF. A GIF that is too large is re-encoded with its frames shrunk to fit 512 by 512 pixels.

This project models the parts of `PinAnimate.py` that carry logic of their own:

- `Imaging` holds the abstract images: a size, tile data, an optional palette and opaque pixels. Pillow's operations (`convert('RGBA')`, `putpalette`, `Image.new`, `paste`, `thumbnail`) are fields of a `Pillow` record of total functions. They are never interpreted, so every result holds whatever Pillow does. The two calls the source guards with `except ValueError` return `None` when they raise.
- `GifFrames` models `analyseImage` and `extract_and_resize_frames`. Both walk the frames of an opened GIF. `analyseImage` is a search that stops at the first frame whose first tile region does not end at the frame's size. The extraction loop is the imperative state machine of the source. Its state is the global palette `p`, `last_frame`, the `all_frames` accumulator and the counter `i`. It is proved equal to `Extracted`, a fold over the frames, and the lemmas about the emitted frames are proved of that fold. The end of the frame sequence stands for the `EOFError` that `im.seek` raises.
- `GifResize` models the save dispatch of `resize_gif` and describes the `save` call it makes as a `SaveCall` value. With one frame it is a still-image save. Otherwise it is an animated save of the first frame with the rest appended, the given duration and `loop=0`.
- `ImageFilter` models `compare_images` and the loop of `open_location` that keeps the files whose size equals the first listed file's size.
- `RowOrder` models `move_selected_items_up` and `move_selected_items_down` as in-place swaps on an array of rows. The selection is a strictly increasing list of row indices, and both methods return early at the boundary. Each method is proved equal to a recursive specification, and the permutation and movement lemmas are proved of that specification.

Points where the code's behaviour is easy to misread:

- The classifier compares the region's lower-right corner `(x1, y1)` with the frame size, not the region's width and height. So a frame that updates only the lower-right part of the canvas leaves the animation full (`GifFrames.CornerAnchoredRegionIsFull`).
- A single-frame GIF whose one tile does not end at the canvas size is classified partial: the classifier looks at every frame, the first included.
- The same-size filter excludes the files whose size differs from the first file's: `compare_images` returns `False` for them, and the `else: pass` branch skips their append.
- The default bounding box is 512 by 512, although the docstring of `resize_gif` speaks of half the image's size.

## Model

| member | source | states |
|---|---|---|
| `GifFrames.RegionTail` | PinAnimate.py:70-74 | Defines `update_region[2:]`: the lower-right corner `(x1, y1)` of a tile's region, the pair the classifier compares with the frame's size. |
| `GifFrames.PartialFrame` | PinAnimate.py:70-74 | Defines the per-frame test of `analyseImage`: the frame has tile data and its first tile's corner differs from its size. |
| `GifFrames.ModeOf` | PinAnimate.py:69-76 | The animation is partial exactly when some frame has tile data whose first region's tail differs from the frame's size. Frames without tile data never make it partial. |
| `GifFrames.AnalyseImage` | PinAnimate.py:57-80 | The reported size is the first frame's size. The mode is `Partial` iff some frame has tile data whose `tile[0][1][2:]` differs from its size, else `Full`. The walk ends normally at the last frame. |
| `GifFrames.CornerAnchoredRegionIsFull` | PinAnimate.py:70-74 | A frame whose region `(10, 10, 100, 100)` covers only part of a 100 by 100 canvas leaves the mode `Full`, because only the region's corner is compared. |
| `GifFrames.BoundingBox` | PinAnimate.py:94-95 | Defines the box frames are shrunk into: `resize_to` when it is given, 512 by 512 otherwise. |
| `GifFrames.WithPalette` | PinAnimate.py:110-114 | Defines the palette step: a frame with a palette of its own is kept; one without gets the palette from `putpalette`, or is kept when `putpalette` raises `ValueError`. |
| `GifFrames.Base` | PinAnimate.py:116-123 | Defines the canvas: `Image.new('RGBA', size)`, with `last_frame` pasted on it in partial mode only. |
| `GifFrames.Composite` | PinAnimate.py:116-127 | Defines the composite: the frame pasted on the canvas through its RGBA mask, or the canvas unchanged when that paste raises `ValueError`. |
| `GifFrames.Emitted` | PinAnimate.py:110-130 | Defines the frame one loop iteration appends: the composite of the palette-fixed frame, shrunk into the box by `thumbnail`. |
| `GifFrames.Extracted` | PinAnimate.py:103-136 | The extraction emits exactly one frame per source frame, whatever Pillow does and whichever `ValueError`s it raises. |
| `GifFrames.ExtractedAt` | PinAnimate.py:110-133 | The k-th emitted frame is the thumbnail, within the box, of the k-th source frame after the palette step, composited on the frame emitted just before it (on `last_frame`'s initial value for k = 0). |
| `GifFrames.FullModeIgnoresLastFrame` | PinAnimate.py:116-129 | In full mode `last_frame` is never used: whatever frame the loop starts from, the k-th emitted frame is the k-th source frame, after the palette step, pasted through its mask on a blank `Image.new('RGBA', size)` canvas (the canvas alone on `ValueError`), then shrunk into the box. |
| `GifFrames.PartialModeLayersOnPrevious` | PinAnimate.py:116-129 | In partial mode, frame k's canvas is `Image.new('RGBA', size)` with the previously emitted, already thumbnailed frame pasted on it, or frame 0 in RGBA form when k = 0. The current frame is pasted on top through its RGBA mask. A `ValueError` from that paste leaves the canvas as it was. |
| `GifFrames.PaletteInherited` | PinAnimate.py:98-133 | Every frame the extraction emits is built from its source frame as `putpalette` leaves it: the frame itself when it has a palette of its own, the frame given frame 0's palette `p` (read once before the loop) when it has none, and the frame itself when that `putpalette` raises `ValueError`. It is composited on the frame emitted before it. |
| `GifFrames.ExtractAndResizeFrames` | PinAnimate.py:83-138 | The loop returns one frame per source frame, in source order. The counter `i` equals `len(all_frames)` at every iteration. The result equals `Extracted`, started from frame 0's palette, frame 0 in RGBA form, the mode `analyseImage` reports, and the box `resize_to` or 512 by 512 by default. |
| `GifResize.OutputPath` | PinAnimate.py:47-48 | Defines the output path: `save_as` when it is truthy, the input path otherwise. |
| `GifResize.SavedFrames` | PinAnimate.py:50-54 | Defines the frames a `save` call writes: the one image of a still save; the first frame followed by `append_images` for an animated save. |
| `GifResize.SaveFrames` | PinAnimate.py:45-54 | Without a truthy `save_as`, the output path is the input path. Exactly one frame gives a still save. More frames give an animated save with `duration` and `loop=0`. Either way the saved frames are all the frames, in order. An empty list raises `IndexError`. |
| `GifResize.ResizeGif` | PinAnimate.py:32-54 | Every extracted frame is saved, in order, to the output path. The save is still exactly when the source has one frame, and animated with the given duration and `loop=0` otherwise. It never hits the `IndexError` case. |
| `ImageFilter.CompareImages` | PinAnimate.py:141-146 | Returns `False` exactly when the two sizes differ, and `None` exactly when they are equal. It never returns `True`. |
| `ImageFilter.Kept` | PinAnimate.py:312-320 | A file is in the filtered list iff it is one of the listed files and its size equals the first file's size. The list is never longer than the input. |
| `ImageFilter.FirstFileKept` | PinAnimate.py:313-318 | The first listed file is compared with itself, so it is always kept, and it comes first. |
| `ImageFilter.SameSizeImages` | PinAnimate.py:308-320 | The loop's list equals `Kept` of the listed files against the first file's size, so it keeps folder order and exactly the files of that size. The first file comes first, and no file is kept when none is listed. |
| `RowOrder.Swap` | PinAnimate.py:254 | Exchanging two rows, as `move_before` of a row and the row just above it does (and `move_after` at line 263): the rows keep their number and the two entries trade places. |
| `RowOrder.MovedUp` | PinAnimate.py:250-254 | Moving selected rows up keeps the number of rows. |
| `RowOrder.MovedUpPermutes` | PinAnimate.py:250-254 | Moving selected rows up only swaps neighbours, so the result is a permutation of the rows. |
| `RowOrder.MovedUpAllOrNothing` | PinAnimate.py:250-254 | If the first selected row is at index 0, the early return leaves every row in place. Otherwise every selected row ends exactly one place higher. |
| `RowOrder.MovedUpKeepsAbove` | PinAnimate.py:250-254 | Rows above the row just above the first selected row are not touched. |
| `RowOrder.MovedUpOthersUnchanged` | PinAnimate.py:250-254 | A row that is neither selected nor just above a selected row stays where it was. |
| `RowOrder.MovedUpKeepsOrder` | PinAnimate.py:250-254 | Unless the early return fires, the rows that are not selected keep their relative order: read at every index that is not just above a selected row, the result lists the unselected rows in their old order. So each displaced row ends below the selected rows that passed it. |
| `RowOrder.MoveSelectedItemsUp` | PinAnimate.py:247-254 | The in-place loop leaves the array equal to `MovedUp` of the old rows and the selection, and the array is a permutation of the old one. |
| `RowOrder.MovedDown` | PinAnimate.py:259-263 | Moving selected rows down keeps the number of rows. |
| `RowOrder.MovedDownPermutes` | PinAnimate.py:259-263 | Moving selected rows down only swaps neighbours, so the result is a permutation of the rows. |
| `RowOrder.MovedDownAllOrNothing` | PinAnimate.py:259-263 | If the last selected row is the bottom row, the early return leaves every row in place. Otherwise every selected row ends exactly one place lower. |
| `RowOrder.MovedDownKeepsBelow` | PinAnimate.py:259-263 | Rows below the row just below the last selected row are not touched. |
| `RowOrder.MovedDownOthersUnchanged` | PinAnimate.py:259-263 | A row that is neither selected nor just below a selected row stays where it was. |
| `RowOrder.MovedDownKeepsOrder` | PinAnimate.py:259-263 | Unless the early return fires, the rows that are not selected keep their relative order: read at every index that is not just below a selected row, the result lists the unselected rows in their old order. So each displaced row ends above the selected rows that passed it. |
| `RowOrder.MoveSelectedItemsDown` | PinAnimate.py:256-263 | The in-place loop, run bottom-up, leaves the array equal to `MovedDown` of the old rows over the whole selection, and the array is a permutation of the old one. |

## Left out

- GTK window construction, dialogs, the tree view wiring, the image preview and the timeouts (PinAnimate.py:148-245, 265-284, 286-305, 329-349, 480-522, 524-527). They are user-interface glue.
- `save_as_gif` and `preview_image` (PinAnimate.py:351-381, 427-470). This includes the preview's 512-pixel check that calls `resize_gif`. Both are export and preview wiring around Pillow's `save`.
- The background threads (PinAnimate.py:419-424, 472-477). They only exist for concurrency.
- File I/O and Pillow itself. `Image.open` is replaced by the given frame sequence or file sizes, and `seek`/`tell` by an index into the frames. `save` is described by a `SaveCall`, not performed. `convert`, `putpalette`, `Image.new`, `paste` and `thumbnail` are uninterpreted, so nothing is claimed about pixels, aspect ratios or the LANCZOS filter.
- Pillow exceptions other than the `ValueError`s the source catches at PinAnimate.py:113 and 126. The model assumes the other Pillow calls do not raise.
- `print("Warning: only 1 frame found")` (PinAnimate.py:51). It is console output; the still-save branch it accompanies is modelled.
- `int(myduration)` (PinAnimate.py:45). The duration is an integer on entry, as every caller passes one, so the conversion is the identity.
- The size label "Width: …px - Height: …px" (PinAnimate.py:315-316). The rows carry the size itself.
- `natsorted` and `glob` (PinAnimate.py:307, 322). They are foreign library behaviour; the filter keeps the folder order it is given.
- Platform and desktop path selection, `resource_path`, and the timestamped file names (PinAnimate.py:16-28, 352-371, 441-445). They are environment plumbing.
- The commented-out video export (PinAnimate.py:383-417). It is dead code.

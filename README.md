# Magic-wand selection engine, modelled in Dafny

This project models `SelectionWindow`, the region-selection engine of an
interactive image-labelling tool. An operator clicks on an image to grow a
flood-fill region. Modifier keys combine that region with the current
selection. Ctrl-click pairs cut the selection along a line. A digit key
commits the selection into an accumulated class-colour layer, `c` resets the
transient state, and a second window lets the operator erase the colour
layer with a disc.

The engine is a class, `Selection.SelectionWindow`. Its buffers are `array2`
fields that the handlers update in place:

- the binary region mask (`mask`, h x w, bytes 0/255);
- the colour layer (`rgbMask`, h x w pixels of blue/green/red bytes);
- the line scratch (`lineMask`, h x w);
- the padded flood-fill scratch (`floodScratch`, (h+2) x (w+2)).

The anchor click, the cut-point list, the eraser flag, the tolerance and the
eraser size are plain fields. `Valid()` is the engine's invariant:

- every buffer has the image's shape;
- the flood flags make the fill write 255;
- every region-mask byte is 0 or 255.

Every handler that touches a buffer requires `Valid()` and ensures it
again. The two trackbar handlers set one plain field each and need neither.

The OpenCV primitives are inputs to the handlers, not modelled:

- a flood fill is the set of padded-scratch cells it reaches. When
  `cv.floodFill` raises instead of filling, the model follows it: the seed
  lies off the image, the connectivity byte is not 0, 4 or 8, or a
  tolerance channel is negative;
- `cv.line` and `cv.circle` are function parameters (`lineOf`, `discOf`)
  from their geometric arguments to the image cells they cover. The
  handlers apply them to the source's own arguments: the last two cut
  points, and the pointer with radius `eraserSize`.

Modules:

- `Events`: the OpenCV event codes and modifier bits, and the decoding of the modifier bits into one of five edits.
- `Pixels`: byte values, the bitwise edit per pixel and its set meaning, the flood-fill flags, and when the flood fill raises.
- `Cut`: the crossing of mask and line, its extent, the cut axis and the side that is kept.
- `Keys`: the class colours and the key dispatch of the event loop.
- `Raster`: the whole-buffer numpy/OpenCV operations, as row-major loops with invariants.
- `Selection`: the window class and its handlers.
- `Wrappers`: `Option`.

Behaviour of the code that a user of the tool might not expect, and that the model keeps:

- Alt alone subtracts the flood region from the selection.
- Ctrl alone is a two-click line cut. Ctrl together with Alt or Shift falls through to Replace.
- The eraser paints the colour layer only. It never touches the region mask.
- A handler that raises ends there, and the window keeps the state reached so far: OpenCV's Python binding prints an exception raised in a mouse callback and carries on. A press where the flood fill raises has cleared the scratch and done nothing else; no anchor is set and no cut point is recorded.
- A cut whose line misses the selection, or that comes before any anchor click, is not a clean no-op. The source raises inside `_cut_selected_area` after it has appended the point and drawn the line. The model stops at the same point: the mask is unchanged, the point is recorded, and the line stays drawn on `lineMask`, where the next cut will see it.

## Model

| member | source | states |
|---|---|---|
| Events.Decode | magicwand/__init__.py:118-144 | Intersect iff Alt and Shift without Ctrl; Union iff Shift alone; Subtract iff Alt alone; LineCut iff Ctrl alone; Replace iff no modifier, or Ctrl together with Alt or Shift |
| Events.DecodeIgnoresOtherBits | magicwand/__init__.py:118 | bits outside Ctrl/Shift/Alt (such as the button bits) never change the chosen edit |
| Pixels.Combine | magicwand/__init__.py:131-143 | on 0/255 inputs the bitwise result is 0/255, and it is 255 exactly when the pixel is in the fill (Replace), in either (Union), in both (Intersect), or in the mask and not the fill (Subtract) |
| Pixels.FloodFlags | magicwand/__init__.py:35-38 | the low byte is the connectivity's low byte, the fill value carried in bits 8..15 is 255 for every connectivity, and the fixed-range and mask-only bits are set |
| Pixels.FloodAcceptsInsideSeeds | magicwand/__init__.py:20-38 | with connectivity 4 or 8 and a non-negative tolerance, the fill raises exactly for seeds outside the image |
| Pixels.UnionAndIntersectOrderFree | magicwand/__init__.py:131-136 | two Shift clicks, or two Alt+Shift clicks, give the same mask in either order |
| Pixels.RepeatedClickIdempotent | magicwand/__init__.py:131-144 | repeating any set edit with the same fill changes nothing |
| Cut.RoiExtent | magicwand/__init__.py:71-77 | None iff no pixel has mask AND line equal to 255; otherwise the exact row and column extent of those pixels (all inside, every bound attained) |
| Cut.ExtentUnique | magicwand/__init__.py:73-77 | a set of cells has only one extent, so the min/max the cut uses are determined |
| Cut.KeptIsAnchorSide | magicwand/__init__.py:78-97 | along Y a pixel survives iff its column is on the same side of the crossing's max column as the anchor's x; along X the same with rows, max row and the anchor's y |
| Cut.AnchorPixelKept | magicwand/__init__.py:80-97 | the anchor's own pixel is on the kept side of every cut |
| Cut.BoundaryBelongsToFarSide | magicwand/__init__.py:80-97 | the crossing pixels on the boundary column (Y) or row (X) are removed when the anchor lies before the boundary and kept otherwise |
| Keys.KeyByte | magicwand/__init__.py:184 | the key byte is in 0..255 and congruent to the key code modulo 256 (`& 0xFF` on a Python integer) |
| Keys.Dispatch | magicwand/__init__.py:186-194 | Quit iff q or Esc; otherwise a class id that is not one decimal digit fails the loop; a digit key of a listed class commits that class; `c` resets; every other key is ignored |
| Selection.SelectionWindow.constructor | magicwand/__init__.py:20-54 | for any connectivity: all buffers zero and shaped h x w (scratch (h+2) x (w+2)), no anchor, no cut points, eraser up, tolerance repeated on three channels, eraser size 1, flags built from the connectivity with fill value 255 |
| Selection.SelectionWindow.TrackbarCallback | magicwand/__init__.py:56-57 | the tolerance becomes the position on all three channels |
| Selection.SelectionWindow.EraserSizeCallback | magicwand/__init__.py:59-60 | the eraser radius becomes the trackbar value |
| Selection.SelectionWindow.MouseCallback | magicwand/__init__.py:114-146 | non-press events change nothing; a press whose fill raises (seed off the image, bad connectivity, negative tolerance) zeroes the scratch and changes nothing else; otherwise the scratch has a frame of 1, 255 on the inner cells the fill reaches and 0 elsewhere; a set edit makes each mask pixel 255 iff the edit's set rule holds for its old value and its cropped fill cell, and sets the anchor to (x, y); Ctrl behaves as `CutApplied`; the mask stays binary |
| Selection.SelectionWindow.CutSelectedArea | magicwand/__init__.py:62-101 | the point is appended and the anchor kept; an odd count changes nothing else; on an even count the line is the one `lineOf` draws between the last two cut points; an empty crossing or missing anchor leaves the mask unchanged with that line drawn; otherwise the extent is exact, pixels off the anchor's side become 0, others keep their value, and the line mask is cleared |
| Selection.SelectionWindow.DrawLine | magicwand/__init__.py:68-77 | the line is drawn as 255 on the line mask, and the crossing found is the one of the mask with the line mask after `line` is drawn on it |
| Selection.SelectionWindow.MouseRgbCallback | magicwand/__init__.py:103-112 | press raises and release lowers the eraser flag; a move to (x, y) while it is up blacks out exactly the disc `discOf` draws around (x, y) with radius `eraserSize`, and nothing when the radius is negative (`cv.circle` raises); the region mask is unchanged |
| Selection.SelectionWindow.SetSegmentClass | magicwand/__init__.py:172-177 | every pixel with mask 255 takes the class colour, every other colour pixel and the mask are unchanged |
| Selection.SelectionWindow.HandleKey | magicwand/__init__.py:183-194 | the action is the dispatch of `code & 0xFF`; Commit has the effect of `SetSegmentClass`, Reset that of `ResetWindow`, every other key leaves all state unchanged |
| Raster.FloodInto | magicwand/__init__.py:120-128 | a mask-only fill sets the padded mask's one-pixel frame to 1, the reached inner cells to the fill value, and keeps every other cell |
| Selection.SelectionWindow.ResetWindow | magicwand/__init__.py:196-208 | mask, line mask and scratch become zero with their shapes kept; no anchor, no cut points, eraser down; the colour layer is unchanged |

## Left out

- `_update`, `show_image`, `destroyWindows` and the window, trackbar and status-bar set-up: these are display side effects over floating-point OpenCV calls (contours, blending, mean and standard deviation).
- The `show` loop as a loop: `HandleKey` models one pass of it, and `BadClassTable` is the pass that raises.
- The preview image `self.img`: it is the image `cv.floodFill` reads. The grey cut line drawn on it (thickness 3) changes which pixels later fills reach, and the reset restores it from `org_img`. The model does not hold the image, because the flood region is an input of `MouseCallback`; so it does not capture how a drawn cut line shapes later fills.
- The `cv.imwrite` debug dump inside the cut and the `print` calls: these are file and console output.
- The internals of `cv.floodFill`, `cv.line` and `cv.circle`. The fill is a handler input, so the model does not tie the reached cells to the seed, the tolerance or the connectivity. `lineOf` and `discOf` are parameters, so the model does not say which cells a line or a disc covers.
- `cv.floodFill` also raises on image types it does not support. The model takes the image to have three 8-bit channels, so only the tolerance check on those three channels is modelled.
- Selection.SelectionWindow.constructor: the connectivity is a 32-bit value. A Python integer outside that range is not modelled.
- Buffer reassignment: the source rebinds `self.mask` and the other buffers to new arrays, and the model writes the same values into fixed arrays. Nothing else holds the old arrays, so the two cannot be told apart.
- Class colours: they are taken as three bytes. A colour list of another length, or with values outside 0..255, is not modelled.
- main.py: it is the batch driver (directory listing, image read and write, output naming).

# Chroma-key value finder, modelled in Dafny

The program shows an image. The user left-clicks pixels to sample colours for the
`background` category and right-clicks near a marker to remove that sample. It computes the
smallest per-channel BGR box holding every sampled colour of the original image. Every pixel
whose original colour lies in that box, or in one of the built-in preset boxes, is painted
white in the working image.

This project models the pure logic of that loop:

- `Images` (images.dfy): 8-bit BGR pixels, the componentwise order, elementwise min/max,
  inclusive colour boxes (the comparison `cv2.inRange` makes) and images as rows of pixels.
- `Points` (points.dfy): the marker radius, the distance test, `check_point_marked`
  (modelled as written: a search for the first point near the click, then Python's
  `list.remove` by value), and the category registry `points_dict` as a sequence of named
  lists in dictionary order.
- `Masking` (masking.dfy): gathering the original colour under every registered point, the
  min/max range with its failure on an empty selection, the mask and paint steps of
  `mask_img`, and the preset table `masks` with `apply_existing_mask`.
- `Session` (session.dfy): the global state as a record `State` (original image, working
  image, registry), start-up, and the mouse and key handlers as functions from a state to
  the next step (`Running`, `Exited` or `Crashed`).
- `Wrappers` (wrappers.dfy): `Option` and `Result`.

The program lets Python exceptions escape. Numpy raises when it reduces an empty array, so
`mask_img` raises whenever no point is registered. That happens on a right click that
removes the last point, on a right click while no point is registered at all, and on the
`m` key with no points. The model's range computation returns `Failure(EmptySelection)`
in those cases. What follows depends on where the exception is raised:

- In the mouse handler, the exception reaches OpenCV's callback wrapper, which prints it
  and returns. The program keeps running in the state the right click had reached: the
  point removed, and the working image reset to the original with the presets painted.
  The model's step is `Running` with that state (`Session.ResetAfterRemoval`).
- In the key loop, the exception leaves the main loop and ends the program. The model's
  step is `Crashed`.

The square-root distance test `sqrt(dx² + dy²) <= 4` is modelled as `dx² + dy² <= 16`. For
integer coordinates the two agree, because the square root is monotone and 16 is a perfect
square.

Where a plain reading of the program's purpose differs from the code, the model follows the
code:

- A right click removes the FIRST stored point within the radius in list order, not the
  nearest one. `Points.FirstNotNearest` shows a click on a just-added point that removes an
  earlier point instead.
- A right click resets the working image and applies the presets. It then also applies the
  range of the remaining points, and fails when none remain. The key `m` paints on top of
  the current working image without a reset.

## Model

| member | source | states |
|---|---|---|
| Images.Meet | value_finder.py:133 | the elementwise minimum lies below both colours, above every common lower bound, and takes each channel from one of them |
| Images.Join | value_finder.py:134 | the elementwise maximum lies above both colours, below every common upper bound, and takes each channel from one of them |
| Points.Near | value_finder.py:64-65 | the squared-distance test: a near point lies within `RADIUS` on each axis, and on a shared row or column it is near exactly when the other coordinate differs by at most `RADIUS` |
| Points.FirstNear | value_finder.py:63-65 | the index found is the first in list order whose point is within `RADIUS` of the click; none is found exactly when no point is within `RADIUS` |
| Points.RemoveFirst | value_finder.py:67 | `list.remove` of a present value shortens the list by exactly one |
| Points.RemoveFirstAt | value_finder.py:63-67 | removing by value the point found at index i deletes exactly position i, when no earlier element equals it |
| Points.RemoveNear | value_finder.py:55-68 | removes at most one point; the list is unchanged exactly when no point is near; otherwise exactly the first near point goes and the rest keep their order; nothing new appears |
| Points.Find | value_finder.py:63 | the lookup `points_dict[name]` finds a category with that name, and fails only when no category has it |
| Points.AddPoint | value_finder.py:112 | the category gets exactly `[x, y]` appended at its end; its earlier points and every other category are unchanged |
| Points.RemoveNearIn | value_finder.py:63-68 | only the named category changes, by the near-point removal; names and order of categories are kept |
| Points.AllPointsMember | value_finder.py:129-131 | a point is gathered by the loop over all categories exactly when some category holds it |
| Points.AllPoints | value_finder.py:129-131 | the gathering loop over all categories collects nothing exactly when every category is empty |
| Points.AddThenRemove | value_finder.py:55-68 | a right click on a point just appended removes exactly that point, when no earlier point is within `RADIUS` |
| Points.FirstNotNearest | value_finder.py:63-68 | with (0,0) stored before (3,0), a right click at (3,0) removes (0,0) |
| Masking.Samples | value_finder.py:128-131 | one sample per registered point, in category order, each the original image's colour at that point |
| Masking.Bounds | value_finder.py:132-134 | the min/max box holds every sample, and each of its six channel bounds is the channel of some sample |
| Masking.ComputeRange | value_finder.py:128-134 | the range fails exactly when there are no samples; otherwise it brackets every sample, each bound is attained, and min ≤ max per channel |
| Masking.BoundsTightest | value_finder.py:133-134 | any box holding every sample contains the computed box |
| Masking.PresetSamples | value_finder.py:12-17 | sampling (120,208,253) and (124,208,255) yields exactly the built-in background preset |
| Masking.InRangeMask | value_finder.py:135 | the mask has the image's shape and marks a pixel exactly when its original colour is inside the box on all three channels |
| Masking.Paint | value_finder.py:136 | marked pixels become (255,255,255), unmarked pixels keep their working value |
| Masking.ApplyRange | value_finder.py:135-136 | a working pixel is painted white when the original pixel lies in the inclusive box on all three channels; every other working pixel keeps its value |
| Masking.ApplyRangeIdempotent | value_finder.py:135-136 | applying the same range twice gives the same image as applying it once |
| Masking.ApplyPresets | value_finder.py:140-146 | applying the preset table keeps the image's shape |
| Masking.ApplyPresetsPixel | value_finder.py:140-146 | after all presets a pixel is painted white when its original colour lies in some preset box, and keeps its working value otherwise |
| Masking.MaskImg | value_finder.py:126-136 | `mask_img` fails exactly when no point is registered, and otherwise keeps the image's shape |
| Masking.MaskImgPixel | value_finder.py:126-136 | after `mask_img` a pixel is painted white when its original colour lies in the box of the samples, and is unchanged otherwise |
| Session.Start | value_finder.py:150-155 | the start-up session is valid, has an empty background list, and shows white where the original matches a preset and the original colour elsewhere |
| Session.LeftClick | value_finder.py:108-113 | a left click appends exactly `(x, y)` to the background list; other categories and both images are unchanged; the session stays valid |
| Session.ResetAfterRemoval | value_finder.py:116-119 | before `mask_img` runs, a right click has removed the first near background point, and the working image is the original with white wherever the original matches a preset; the state stays valid |
| Session.RightClick | value_finder.py:115-121 | a right click fails exactly when no point remains after the removal; on success the session stays valid, the original is untouched, and the registry is the one after the removal |
| Session.RightClickIgnoresWork | value_finder.py:115-121 | the result of a right click does not depend on the previous working image |
| Session.RightClickPixel | value_finder.py:115-121 | a right click that leaves some point succeeds, and afterwards a pixel is white when its original colour lies in a preset box or in the box of the remaining samples, and is the original colour otherwise |
| Session.RemoveLastPointFails | value_finder.py:115-120 | a right click near the only registered point leaves nothing to sample and fails |
| Session.Recompute | value_finder.py:164-166 | key `m` fails exactly when no point is registered; otherwise the session stays valid and the original and registry are unchanged |
| Session.RecomputePixel | value_finder.py:164-166 | after key `m` a pixel is white when its original colour lies in a preset box or in the sampled box, and keeps its previous working value otherwise |
| Session.OnMouse | value_finder.py:97-123 | mouse events never end the program: a left click is `LeftClick`, a right click is `RightClick`'s state when the range computation succeeds and `ResetAfterRemoval`'s state when it raises, and other events change nothing |
| Session.RightClickAtStart | value_finder.py:115-121 | a right click before any point is registered raises inside the callback and leaves the program in its start-up state |
| Session.OnKey | value_finder.py:161-170 | the key loop exits exactly on escape, crashes exactly on `m` with no point, yields `Recompute`'s state on `m` otherwise, ignores other keys, and keeps the state valid |

## Left out

- Marker drawing (`draw_screen`, `draw_all_points`, `draw_point`, `select_point_color`, `cv2.circle`): library rasterisation. After every left click and every right click the program draws black marker disks of radius `RADIUS` into the working image; the model's working image has none. Every pixel law here (`Session.Start`, `Session.ResetAfterRemoval`, `Session.RightClickPixel`, `Session.RecomputePixel`) therefore describes the program's image only away from the markers.
- `resize_img_to_screen_size`: floating-point scale factors, the screen-size query and `cv2.resize` interpolation. The model starts from the already resized image.
- Image loading, window display, the mouse-callback registration, `waitKey`, `destroyAllWindows` and every `print`. The HSV conversion of the clicked pixel is display-only.
- Session.LeftClick: requires the click to address a pixel of the image. The program indexes `img[y, x]` there and raises for coordinates beyond the image. For negative coordinates numpy wraps around instead, and that case is not modelled.
- The traceback that OpenCV's callback wrapper prints when a right click raises is output only, and is not modelled.
- Points.RemoveFirst: states only the length of the result. Its exact effect, at the index the caller uses, is `Points.RemoveFirstAt`.
- Masking.ApplyPresets: its own contract states only the image shape. The pixel law is `Masking.ApplyPresetsPixel`.
- The registry is assumed to always hold the `background` key, as the program's initial dictionary does. A missing key would raise `KeyError`, and no code path removes it.

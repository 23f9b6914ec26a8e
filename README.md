# Image resizer: chroma-key removal and editing session

A Dafny model of the core of the browser image editor in `script.js`: the
`ImageProcessor` class that loads an image onto a preview canvas, resizes
it, makes its background transparent with a single-colour chroma key,
restores it, and decides how to export it.

Two modules:

- `ChromaKey` (`chroma_key.dfy`): the transparency pass of
  `removeBackground`. A canvas `ImageData` buffer is a flat `seq<int>` of
  RGBA bytes. The pure function `RemoveBackground(s, t)` specifies the pass.
  It is defined through `Keyed`, which processes one 4-byte pixel at a time.
  The method `RemoveBackgroundInPlace` is the source's `for (i += 4)` loop
  over an `array<int>`. Its loop invariant says that the processed prefix
  equals `Keyed` of the same prefix of the input. The remaining bytes are
  untouched.
- `Editor` (`editor.dfy`): the class `ImageProcessor`, with the fields the
  source updates. These are the decoded image, the preview canvas (width,
  height, pixels), the snapshot `originalImageData` and the flag
  `isBackgroundRemoved`. Its methods are load (`initializeCanvas`),
  `resizeImage`, `handleDimensionChange`, `removeBackground`,
  `restoreBackground` and the export decision of `downloadImage`. Browser
  resampling is the class constant `resample`, a function of
  (image, width, height) that is otherwise uninterpreted. `Valid()` only
  requires that it returns width×height×4 bytes.

The colour test `Math.sqrt(D) < tolerance * 2.55` uses the squared RGB
distance D. It is modelled on integers as `400·D < 2601·t²`, since
2.55 = 51/20 and both sides are non-negative. The lemma
`IsBackgroundMeansBelowThreshold` proves that this agrees with the test in
exact real arithmetic. It also agrees with the IEEE double comparison for
every integer tolerance from 0 to 100:

- When sqrt(D) differs from 51t/20, the integer 400·D − 2601·t² is not 0.
  Since D is at most 3·255² for byte channels, sqrt(D) is then more than
  10⁻⁶ away from 51t/20, far more than the
  rounding error of `t*2.55` or `Math.sqrt`.
- sqrt(D) can equal 51t/20 only when t is a multiple of 20. There
  `t*2.55` evaluates to exactly 51, 102, 153 and 204, and to
  254.99999999999997 for t = 100. In each case the strict `<` is false at
  equality, as in the model.

Behaviour modelled as the code has it:

- Tolerance 0 makes nothing transparent, even pixels of exactly the
  reference colour, because the comparison is a strict `<` (script.js:233).
- Removal reads the current canvas, not the snapshot (script.js:211).
  Removing twice gives the same result as removing once, because the
  reference bytes 0..2 are never rewritten.
- Neither load nor resize touches `isBackgroundRemoved`. Only remove and
  restore write it (script.js:244, 263). `resetImage` would clear it at
  script.js:308, but the call before it never returns (see "Left out").
  After remove then resize, the canvas is the resampled image again, so the
  removal's transparency is gone, but the export is still flattened onto
  white (`RemoveThenResize`).
- `originalImageData` is refreshed on every load and resize (script.js:123,
  180). It keeps its own width and height, which always equal the canvas's.
  Remove never changes it.

## Model

| member | source | states |
|---|---|---|
| `ChromaKey.Square` | script.js:227-229 | `Math.pow(x, 2)` is non-negative and is 0 exactly when x is 0 |
| `ChromaKey.SquaredDistance` | script.js:226-230 | the squared RGB distance is non-negative and is 0 exactly when the two colours are equal |
| `ChromaKey.IsBackgroundMeansBelowThreshold` | script.js:226-233 | for any non-negative real distance whose square is D, the integer test `400·D < 2601·t²` holds exactly when distance < t·2.55 |
| `ChromaKey.IsBackground` | script.js:233 | the integer form of `sqrt(D) < t·2.55`: never true at tolerance 0, always true at distance 0 with a positive tolerance |
| `ChromaKey.Reference` | script.js:215-217 | the reference colour is the RGB of pixel 0, and that pixel is close to it exactly when the tolerance is positive |
| `ChromaKey.KeyPixel` | script.js:221-235 | one pixel: R, G and B kept; alpha becomes 0 or stays; an alpha that was not 0 becomes 0 exactly when the pixel is close to the reference |
| `ChromaKey.ThresholdMonotone` | script.js:233 | a pixel under the threshold for tolerance t1 is under it for every larger tolerance |
| `ChromaKey.Keyed` | script.js:220-236 | processing the buffer pixel by pixel keeps its length |
| `ChromaKey.KeyedPixelAt` | script.js:220-235 | after the pixel loop with reference bg, every pixel keeps its colour, and its alpha is 0 when the pixel is close to bg and its old value otherwise |
| `ChromaKey.KeyedAppend` | script.js:220 | the pixel loop over a concatenation of whole pixels is the concatenation of the loops |
| `ChromaKey.RemoveBackground` | script.js:210-236 | the pass keeps the buffer length |
| `ChromaKey.RemoveBackgroundInPlace` | script.js:210-236 | the in-place loop, with the reference read from bytes 0..2 first, leaves the array equal to `RemoveBackground` of its old contents |
| `ChromaKey.RemoveBackgroundPixel` | script.js:215-235 | for pixel p: length kept; its R, G and B bytes kept; its alpha becomes 0 exactly when 400·D < 2601·t² (D its squared distance to bytes 0..2), else keeps its old value |
| `ChromaKey.RemoveBackgroundAt` | script.js:215-235 | byte k of the result is 0 when k ≡ 3 (mod 4) and its pixel is close to bytes 0..2, and is the old byte otherwise |
| `ChromaKey.RemoveBackgroundKeepsColour` | script.js:220-235 | only bytes at indices ≡ 3 (mod 4) can change |
| `ChromaKey.RemoveBackgroundKeepsReference` | script.js:215-217 | the reference colour, bytes 0..2, is the same after the pass |
| `ChromaKey.ZeroToleranceKeepsBuffer` | script.js:233 | with tolerance 0 the buffer is unchanged |
| `ChromaKey.PositiveToleranceClearsFirstPixel` | script.js:215-234 | with tolerance ≥ 1 the top-left pixel always becomes transparent |
| `ChromaKey.LargerToleranceClearsMore` | script.js:233-234 | every alpha that is 0 after the pass with t1 is 0 after the pass with any t2 ≥ t1 |
| `ChromaKey.RemoveBackgroundIdempotent` | script.js:215-235 | applying the pass to its own result with the same tolerance changes nothing |
| `ChromaKey.FullToleranceThreshold` | script.js:233 | at tolerance 100 an alpha becomes 0 exactly when the squared distance is below 255² |
| `Editor.Resamples` | script.js:159-162 | what the model assumes of the browser's resampling: for a positive width and height it yields width×height RGBA pixels |
| `Editor.DimensionOrOriginal` | script.js:142-143 | a parsed NaN or 0 falls back to the natural dimension and any other parse is kept, so with a positive natural dimension the result is ≤ 0 exactly when the input parsed to a negative number |
| `Editor.ImageProcessor.constructor` | script.js:2-11 | a new processor has no image, no snapshot and the flag cleared |
| `Editor.ImageProcessor.InitializeCanvas` | script.js:104-124 | the canvas takes the decoded image's size and pixels, the snapshot is the decoded image's size and pixels, and the flag is unchanged |
| `Editor.ImageProcessor.ResizeImage` | script.js:148-181 | a width or height ≤ 0, or no image, changes nothing. Otherwise the canvas becomes the resampled decoded image at width×height, the snapshot is that width, height and canvas, and the image and flag are unchanged |
| `Editor.ImageProcessor.HandleDimensionChange` | script.js:141-146 | resizes to the parsed dimensions with the NaN/0 fallback, and changes nothing when a resulting dimension is ≤ 0 or no image is loaded |
| `Editor.ImageProcessor.RemoveBackground` | script.js:203-254 | without a snapshot nothing changes. Otherwise the canvas becomes `RemoveBackground` of the current canvas, the flag is set, and the snapshot, image and dimensions are unchanged |
| `Editor.ImageProcessor.RestoreBackground` | script.js:256-266 | without a snapshot nothing changes. Otherwise the canvas becomes exactly the snapshot's pixels, the flag is cleared, and the snapshot, image and dimensions are unchanged |
| `Editor.ImageProcessor.DownloadImage` | script.js:268-285 | the export has the canvas's size and pixels and is flattened onto white exactly when the flag is set |
| `Editor.LoadRemoveRestore` | script.js:203-266 | load, remove and restore leave the loaded image, its size, its pixels on the canvas and as the snapshot, with the flag cleared, and the export is the loaded image not flattened |
| `Editor.RemoveTwice` | script.js:210-244 | two removals with the same tolerance leave the canvas as one removal does, set the flag, keep the snapshot, image and size, and the export is that canvas flattened |
| `Editor.RemoveThenResize` | script.js:165-180 | a resize after a removal makes the canvas the resampled image at the new size and refreshes the snapshot, but the flag stays set and the export is that canvas at that size, still flattened |

## Left out

- DOM lookup, event binding, drag and drop, button visibility, the loading overlay, the quality and tolerance displays, the aspect-ratio toggle (it only changes a CSS class) and the keyboard shortcuts (script.js:17-88, 131-139, 183-201, 318-353): user interface only.
- `aspectRatio` (script.js:119): written and never read.
- `loadImage` (script.js:90-102): asynchronous `FileReader`/`Image` decoding. Load is modelled from an already decoded image of positive size. A decoded image of zero width or height is not modelled, because the browser throws from `getImageData` in that case.
- `resample`: the browser's smoothing filter (script.js:159-162) is left uninterpreted. Only the size of its output is assumed.
- `workingCanvas` (script.js:106-109, 174-177, 242, 261): only written, never read.
- `resetImage` (script.js:305-316): it calls `loadImage` with the decoded image element, and `readAsDataURL` (script.js:101) throws a `TypeError` when given anything but a Blob. So the flag write at script.js:308 and the rest of the method never run, and reset changes no modelled field.
- `Editor.ImageProcessor.ResizeImage`: does not model the browser's canvas size limits. `canvas.width` is an unsigned long, so a requested size wraps modulo 2³², and a value above 2³¹−1 becomes the default 300. A canvas over the browser's area cap makes `getImageData` (script.js:180) throw after the dimensions changed (script.js:165-166), which leaves a snapshot of the old size. The model assumes any positive size is accepted as given.
- `formatFileSize` (script.js:329-335): floating-point formatting, and never called.
- `Editor.ImageProcessor.DownloadImage`: models only the decision to fill white and the size and pixels handed over. It leaves out canvas compositing, PNG encoding, `toBlob`, object URLs and the download link (script.js:280-297). The quality argument has no effect on `image/png`.
- The premultiplied-alpha round trip of `putImageData`/`getImageData`, which in some browsers zeroes the colour of transparent pixels: a browser detail outside the script.
- A tolerance that parses to NaN. The tolerance is an integer from 0 to 100, as the range input gives.
- Byte range: pixel values are modelled as `int`. No stated property depends on them being 0..255.
- The `try`/`catch` around removal and download: with an integer tolerance and a loaded image, nothing inside them throws.


# Image editor filtering core, modelled in Dafny

This project models the filtering engine of a browser image editor. It covers two
pieces of the editor.

- **Sobel edge detection** (`rust-wasm/src/edge_detection.rs`), compiled to wasm.
  It works in integer arithmetic, except for the `f64` square root at line 34.
  The model computes that step as an integer square root (see "Left out"):
  - An RGBA buffer is turned into one greyscale byte per pixel, weighting red,
    green and blue 299/587/114 per thousand.
  - The two 3×3 Sobel kernels are applied at every interior pixel.
  - The gradient magnitude `sqrt(gx² + gy²)`, saturated at 255, is written into a
    (w-2)×(h-2) buffer.
  - That buffer is expanded back to RGBA as opaque grey pixels.
- **The image worker** (`src/workers/imageWorker.ts`, and its JavaScript twin
  `src/workers/imageWorker.js`). It is a message handler with module state:
  `wasmReady`, the stored image `originalPixels`, and its `width` and `height`.
  - `init` replaces the stored image.
  - `blur` and `edgeDetect` compute a buffer from the stored image and post it.
  - `resetOriginalImage` posts a copy of the stored image.
  - Any other message type is ignored.

The two worker files are the same handler, line for line. The `.js` file is three
lines shorter at the top and posts through `self` instead of `ctx`. Both are
modelled by the one class `ImageWorker.Worker`.

Files:

- `pixels.dfy` (module `Pixels`): the byte type, row-major indexing, and the
  bookkeeping for the nested `for x … for y …` loops.
- `edge_detection.dfy` (module `EdgeDetection`): specification functions for each
  stage, lemmas about them, and methods that fill buffers by index as the crate does.
  Each method is proved equal to its specification function.
- `edge_detection_examples.dfy` (module `EdgeDetectionExamples`): the crate's unit
  tests, stated as lemmas about the model.
- `image_worker.dfy` (module `ImageWorker`): `Step`, the handler as a function on a
  state value, and lemmas about it. Also the class `Worker`, whose `Handle` method
  mirrors `onmessage` and is proved to agree with `Step`.

The worker keeps no filtered buffer: every filter reads `originalPixels`, so
results never chain. There is no busy flag and no queue; no request is delayed,
superseded or dropped. `init` checks no buffer length. Whatever buffer it
gets is stored as it is. `blur` later aborts on a buffer shorter than
width·height·4 bytes, and `edgeDetect` on one shorter than width·height·4 − 1 bytes.

The doc comment of `sobel_edge_detect` says the input must be larger than 3×3. The
code itself runs for any width and height of at least 2 (a 2-pixel side gives an
empty output), and the model follows the code. The code reads only the red, green
and blue bytes of each pixel, so a buffer that lacks only the last alpha byte
(4·w·h − 1 bytes) is still processed; the model accepts it too.

Specification functions without a row of their own: `GreyAt`, `Convolve` and
`EdgeStrength` (rust-wasm/src/edge_detection.rs:19-34) are the closures and the
magnitude expression inside `sobel_edge_detect`; they are pinned down by
`SobelXExpanded`, `SobelYExpanded`, `GradientBounds`, `Magnitude` and `MagnitudeAt`.
`ResetResponse` (src/workers/imageWorker.ts:66-70) is the specification of
`Worker.ResetOriginalImage`, stated by `ResetPostsOriginal`.

## Model

| member | source | states |
|---|---|---|
| EdgeDetection.SobelKernelX | rust-wasm/src/edge_detection.rs:47-50 | In each row the right weight is the negated left weight and the centre weight is 0; the centre row weighs twice the outer rows |
| EdgeDetection.SobelKernelY | rust-wasm/src/edge_detection.rs:52-55 | In each column the bottom weight is the negated top weight and the centre weight is 0; the centre column weighs twice the outer columns |
| EdgeDetection.SobelKernelsAreTransposed | rust-wasm/src/edge_detection.rs:48-55 | The x kernel is `[[-1,0,1],[-2,0,2],[-1,0,1]]` and the y kernel is its transpose (and vice versa) |
| EdgeDetection.SobelKernelsSumToZero | rust-wasm/src/edge_detection.rs:47-55 | Both kernels' weights sum to 0 |
| EdgeDetection.GreyValue | rust-wasm/src/edge_detection.rs:67-72 | The `u32` weighted sum of a pixel never wraps. The luminance is `(299r + 587g + 114b) / 1000` rounded down, and the `as u8` cast keeps it whole (it is below 256) |
| EdgeDetection.Greyscale | rust-wasm/src/edge_detection.rs:61 | The greyscale image has one byte per pixel: length w·h |
| EdgeDetection.GreyscaleAt | rust-wasm/src/edge_detection.rs:63-72 | Greyscale pixel (x, y) is the weighted mean of the R, G, B bytes at `(y·w + x)·4`, and these reads are in bounds for any buffer of at least 4·w·h − 1 bytes |
| EdgeDetection.GreyscaleIgnoresAlpha | rust-wasm/src/edge_detection.rs:65-72 | Two buffers that agree on R, G and B have the same greyscale, whatever their alpha bytes |
| EdgeDetection.ConvertToGreyscale | rust-wasm/src/edge_detection.rs:58-77 | For any buffer holding the R, G, B bytes of every pixel (at least 4·w·h − 1 bytes), the column-by-column loop fills the buffer with exactly `Greyscale(image, w, h)` |
| EdgeDetection.NeighbourhoodInBounds | rust-wasm/src/edge_detection.rs:19-29 | Every greyscale read `(y+dy)·w + (x+dx)` of an interior pixel's 3×3 neighbourhood lies inside the w·h buffer |
| EdgeDetection.SobelXExpanded | rust-wasm/src/edge_detection.rs:20-32 | gx is right column minus left column, with the centre row weighted 2 |
| EdgeDetection.SobelYExpanded | rust-wasm/src/edge_detection.rs:20-33 | gy is bottom row minus top row, with the centre column weighted 2 |
| EdgeDetection.GradientBounds | rust-wasm/src/edge_detection.rs:32-34 | abs(gx) and abs(gy) are at most 1020, so `g_x*g_x + g_y*g_y` fits in an `i32` |
| EdgeDetection.ISqrt | rust-wasm/src/edge_detection.rs:34 | The result r is the integer floor square root: r² ≤ n < (r+1)² |
| EdgeDetection.Magnitude | rust-wasm/src/edge_detection.rs:34 | The magnitude is the floor square root of gx² + gy² when that is below 255, and it is 255 exactly when gx² + gy² ≥ 255² (saturating cast) |
| EdgeDetection.OutputIndex | rust-wasm/src/edge_detection.rs:36-37 | The output index `(y-1)(w-2) + (x-1)` of an interior pixel lies inside the (w-2)·(h-2) output |
| EdgeDetection.OutputCell | rust-wasm/src/edge_detection.rs:36-37 | Every output cell q corresponds to an interior input pixel |
| EdgeDetection.Magnitudes | rust-wasm/src/edge_detection.rs:15 | The magnitude buffer has (w-2)·(h-2) cells |
| EdgeDetection.OutputIndexBijective | rust-wasm/src/edge_detection.rs:17-38 | `(x, y) ↦ (y-1)(w-2) + (x-1)` maps interior pixels into range and one-to-one, and OutputX/OutputY invert it, so every output cell is written exactly once |
| EdgeDetection.MagnitudeAt | rust-wasm/src/edge_detection.rs:32-38 | Output cell `(y-1)(w-2) + (x-1)` holds the Sobel magnitude of interior pixel (x, y) |
| EdgeDetection.OpaqueGrey | rust-wasm/src/edge_detection.rs:81 | The RGBA expansion is four times as long as the one-channel input |
| EdgeDetection.OpaqueGreyAt | rust-wasm/src/edge_detection.rs:84-91 | Pixel p of the expansion has R = G = B = g[p] and A = 255 |
| EdgeDetection.ConvertToNumChannels | rust-wasm/src/edge_detection.rs:80-96 | The column-by-column loop fills the buffer with exactly `OpaqueGrey` of the first w·h input bytes |
| EdgeDetection.EdgeImage | rust-wasm/src/edge_detection.rs:42-43 | The edge image has (w-2)·(h-2)·4 bytes |
| EdgeDetection.EdgeImageAt | rust-wasm/src/edge_detection.rs:9-44 | Output pixel (x-1, y-1) is opaque grey whose level is `min(255, isqrt(gx² + gy²))` of input pixel (x, y) |
| EdgeDetection.EdgeImageIsOpaqueGrey | rust-wasm/src/edge_detection.rs:87-91 | Every output pixel has R = G = B = its magnitude and A = 255 |
| EdgeDetection.UniformImageHasNoEdges | rust-wasm/src/edge_detection.rs:19-34 | An image of one colour (any alpha) gives all bytes 0 except alpha 255 |
| EdgeDetection.SobelEdgeDetect | rust-wasm/src/edge_detection.rs:9-45 | For width, height ≥ 2 and a buffer of at least 4·w·h − 1 bytes, the imperative filter returns exactly `EdgeImage(image, w, h)` |
| EdgeDetectionExamples.ColourStripGreyscale | rust-wasm/src/edge_detection.rs:127-153 | The test strip (including black with alpha 25) greys to `[0,0,76,76,149,149,29,29,255,255]` |
| EdgeDetectionExamples.HorizontalEdgeDetected | rust-wasm/src/edge_detection.rs:156-190 | Red over green (5×5) gives rows white, white, black |
| EdgeDetectionExamples.VerticalEdgeDetected | rust-wasm/src/edge_detection.rs:193-227 | Green beside blue (5×5) gives columns white, white, black |
| ImageWorker.Worker.constructor | src/workers/imageWorker.ts:10-13 | A fresh worker has wasm not loaded, no image, and dimensions 0 |
| ImageWorker.Worker.InitWasm | src/workers/imageWorker.ts:15-20 | Afterwards wasm is loaded; nothing else changes |
| ImageWorker.Worker.PerformBlur | src/workers/imageWorker.ts:47-57 | Sets `wasmReady`. Posts nothing without an image or when the stored buffer is shorter than width·height·4 (the wasm call aborts); else the library blur of the stored image with the stored dimensions |
| ImageWorker.Worker.PerformEdgeDetect | src/workers/imageWorker.ts:59-64 | Sets `wasmReady`. Posts nothing without an image or when the wasm call aborts (a dimension below 2, or fewer than 4·w·h − 1 bytes); else the edge image of the stored image |
| ImageWorker.Worker.ResetOriginalImage | src/workers/imageWorker.ts:66-70 | Changes no state and posts the stored image, if there is one |
| ImageWorker.Worker.Handle | src/workers/imageWorker.ts:22-45 | The new state and the posted buffer (at most one) are those of `Step` on the old state |
| ImageWorker.BlurResponse | rust-wasm/src/blurring.rs:117-133 | A blur is posted exactly when an image is stored whose buffer holds width·height RGBA pixels, and it has width·height·4 bytes |
| ImageWorker.EdgeResponse | src/workers/imageWorker.ts:59-64 | An edge image is posted exactly when an image is stored, both dimensions are at least 2 and the buffer has at least 4·w·h − 1 bytes; it has (w-2)·(h-2)·4 bytes |
| ImageWorker.Step | src/workers/imageWorker.ts:22-45 | Only `init` changes the stored image, and a buffer is posted only for `blur`, `edgeDetect` or `resetOriginalImage` with an image stored |
| ImageWorker.Run | src/workers/imageWorker.js:19-42 | Handling a sequence of messages yields one response slot per message: each message posts at most once |
| ImageWorker.InitStoresImage | src/workers/imageWorker.js:23-27 | `init` stores the message's pixels, width and height without any length check, and posts nothing |
| ImageWorker.NoImageNoResponse | src/workers/imageWorker.js:44-67 | With no image stored, every message other than `init` posts nothing and leaves the image state as it is |
| ImageWorker.OnlyInitChangesImage | src/workers/imageWorker.ts:22-45 | Only `init` changes the image state. `resetOriginalImage` changes nothing, and `blur`/`edgeDetect` only set `wasmReady` |
| ImageWorker.UnknownMessageIgnored | src/workers/imageWorker.js:19-42 | A message whose type is none of the four tags changes no state and posts nothing |
| ImageWorker.ResetPostsOriginal | src/workers/imageWorker.ts:66-70 | `resetOriginalImage` posts something exactly when an image is stored, and what it posts equals the stored image byte for byte |
| ImageWorker.InitThenResetRoundTrip | src/workers/imageWorker.js:63-67 | `init` with pixels followed by `resetOriginalImage` posts nothing, then those pixels |
| ImageWorker.EdgeDetectResponseSize | src/workers/imageWorker.ts:59-64 | An `edgeDetect` response has (width-2)·(height-2)·4 bytes, not width·height·4, and every pixel in it is opaque grey |
| ImageWorker.BlurResponseSize | src/workers/imageWorker.ts:47-56 | `blur` posts exactly when the stored buffer has at least width·height·4 bytes, and then a buffer of width·height·4 bytes |
| ImageWorker.EdgeDetectPostsWhen | src/workers/imageWorker.js:56-60 | `edgeDetect` posts exactly when an image is stored, both dimensions are at least 2 and the buffer has at least 4·w·h − 1 bytes |
| ImageWorker.ResponseIgnoresWasmReady | src/workers/imageWorker.js:44-61 | What a message posts depends only on the stored image and dimensions |
| ImageWorker.NoChaining | src/workers/imageWorker.ts:47-64 | Along any run of messages without `init`, the image state never changes, and each message posts what it would post as the first message of the run |
| ImageWorker.EdgeDetectTwiceSame | src/workers/imageWorker.js:56-61 | Two consecutive `edgeDetect` requests post identical buffers |
| ImageWorker.EdgeDetectAfterBlurSeesOriginal | src/workers/imageWorker.ts:59-62 | An `edgeDetect` after a `blur` detects the edges of the stored image, not of the blurred one |

## Left out

- Gaussian blur arithmetic. `library_gaussian_blur`
  (rust-wasm/src/blurring.rs:117-133) is modelled up to the `image` crate's float
  blur: the call aborts on `expect` when `from_raw` rejects a buffer shorter than
  width·height·4 bytes, and otherwise returns the blurred image. That image is a
  function value given to the worker (`LibraryBlur`), and the only thing assumed
  about it is that it has width·height·4 bytes. The blur factor's conversion to a
  sigma (`blur as f32 / 8.0`) and the blur itself are float code inside that
  function. The hand-written `gaussian_blur` in `rust-wasm/src/blurring.rs`, the
  `blur` wrapper in `rust-wasm/src/lib.rs` and `src/workers/blurWorker.js` are float
  code or pass-throughs and are not modelled.
- EdgeDetection.Magnitude: the `f64` square root followed by a saturating `as u8`
  is modelled as the integer floor square root capped at 255. This rests on two
  facts about IEEE doubles: gx² + gy² is at most 2 080 800, and for such integers
  the truncated `f64` square root equals the integer square root. That argument is
  not proved here.
- EdgeDetection.SobelEdgeDetect: it requires width ≥ 2, height ≥ 2 and a buffer of
  at least width·height·4 − 1 bytes. Outside that, the Rust code underflows a
  `usize` or indexes out of bounds. The worker treats such a call as a wasm abort that
  posts nothing. What a build without overflow checks would compute for those
  inputs is not modelled. `usize` overflow of `width*height*4` for huge images is
  not modelled either.
- The `Vec`s that the crate preallocates and fills by index are modelled as local
  arrays inside methods that return their contents as sequences.
- Asynchrony in the worker. The `await initWasm()` step, the interleaving of a
  later `init` with a filter that is still awaiting, and `postMessage` transfer
  lists are not modelled. Each message is handled atomically, in arrival order.
  The loading of the wasm module is external: `InitWasm` only sets the flag.
- ImageWorker.Message: the JavaScript values are typed. `width` and `height` are
  natural numbers, the pixel bytes are a byte sequence or absent (`null` or
  `undefined`), and the tag is a string. The handler compares `init` and `blur`
  with `===` and the other two tags with `==`; for string tags these agree, and
  non-string tags (which `==` would coerce) are not modelled. Non-integer or
  negative dimensions, and buffers that are not byte arrays, are not modelled. The copy into a
  `Uint8ClampedArray` clamps nothing for bytes, so it is modelled as an equal
  sequence.
- The UI and glue (`src/App.tsx`, `frontend/src/App.tsx`,
  `src/components/ClickableCanvas.tsx`, `src/components/StyledClickableCanvas.tsx`):
  canvas and DOM code with no filtering logic.

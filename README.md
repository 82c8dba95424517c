# C++/WebAssembly photo editor: the pixel kernels and the page that drives them

The photo editor draws an uploaded image on a canvas. It applies one of two
filters, grayscale or sepia, using a compute module compiled from C++ to
WebAssembly. The page does not pass its own image objects to the module. For
each button press it does the following:

- it puts the saved original pixels back on the canvas and reads them as a
  flat RGBA byte array;
- it allocates a block of that many bytes in the module's linear memory with
  `_malloc`;
- it copies the bytes in with `HEAPU8.set`;
- it calls the exported kernel `_grayscale` or `_sepia` on the block;
- it copies the same number of bytes back out of `HEAPU8` onto the canvas;
- it frees the block with `_free`.

The project has three modules:

- `Effects` (effects.dfy) models the two kernels of `cpp_src/effects.cpp`.
  - On the pixel level there are the functions `GrayRgb` and `SepiaRgb`,
    and properties proved about them.
  - On the buffer level there is the specification `Recolor(f, s)`: every
    4-byte pixel of `s` gets new colour channels from its own old ones, and
    its alpha byte is kept. Lemmas about `Recolor` state alpha preservation,
    idempotence of grayscale, channel order under sepia, and pixel
    independence.
  - The two kernels themselves are methods over an `array<Byte>` (the
    module's memory). They run the source's loop, and are proved to leave
    exactly `Recolor(...)` in the window they walk and every other byte
    unchanged.
- `Wasm` (wasm.dfy) models the module as the page sees it, the `WasmModule`
  interface of `WasmEditor.tsx`. It is a class holding the memory
  (`HEAPU8`, an array), the live blocks (a map from address to size) and a
  ghost log of the calls made across the boundary. It has `_malloc`, `set`,
  the kernels, `subarray` and `_free` as methods.
- `Editor` (editor.dfy) models the `WasmEditor` component: the module
  reference, the saved original image and the canvas. The two click
  handlers `applyGrayscale` and `applySepia` are one method `Apply(effect)`,
  since they differ only in the kernel called.
  - `Apply` is proved to do three things: leave the effect of the original
    on the canvas, free the block it allocated, and make the five boundary
    calls in the source's order.
  - `Process` proves, for any allocator, that the page's own steps (copy
    in, kernel, copy out) change memory only inside the block. `Apply` and
    `RoundTrip` also promise that memory outside the block is unchanged
    after `_free`, and that the block still holds the result. That holds of
    the model's allocator only, which keeps its bookkeeping outside memory
    (see "## Left out").
  - `PressTwice` proves that two presses start from the same original. So
    the second press's picture does not depend on the first, and pressing
    the same button twice shows the same picture.

Facts about the code that the model makes explicit:

- Grayscale is the truncated integer average `(r + g + b) / 3`, not a
  weighted luminance, so red (255,0,0) becomes (85,85,85) (`GrayOfRed`).
- Sepia truncates its weighted sums and clamps them only from above, so
  white becomes (255,255,238) (`SepiaOfWhite`).
- The kernels take C `int` dimensions. The loop runs while
  `i < width*height*4`, so it walks nothing when that product is not
  positive (`NoPixelsNoChange`). It does walk bytes when both dimensions
  are negative (`Span`).
- Each handler allocates, copies, runs, reads and frees in one straight
  line, with no cleanup path of its own. A failed `_malloc` is modelled as
  the handler stopping right there (see below).

## Model

| member | source | states |
|---|---|---|
| Effects.Average | cpp_src/effects.cpp:9 | the grey level lies between the smallest and the largest channel, so storing it in a byte never truncates; three equal channels average to themselves |
| Effects.GrayRgb | cpp_src/effects.cpp:9-12 | grayscale writes one value to red, green and blue, and that value lies between the pixel's smallest and largest channel |
| Effects.GrayFixesGray | cpp_src/effects.cpp:9-12 | a pixel whose three channels are already equal is left unchanged by grayscale |
| Effects.GrayOfRed | cpp_src/effects.cpp:9 | pure red (255,0,0) becomes (85,85,85): the kernel averages the channels, it does not weigh them by luminance |
| Effects.SepiaRgb | cpp_src/effects.cpp:24-31 | the three capped weighted sums are bytes, and for every input pixel the result has red >= green >= blue, clamping included |
| Effects.SepiaKeepsBlack | cpp_src/effects.cpp:24-31 | black stays black under sepia |
| Effects.SepiaOfWhite | cpp_src/effects.cpp:24-31 | white becomes (255,255,238): red and green reach the clamp at 255, blue (weights summing to 0.937) does not |
| Effects.Recolor | cpp_src/effects.cpp:7-14 | the buffer-level result of a kernel keeps the buffer's length; what it holds pixel by pixel is stated by RecolorPixel, and RecolorUnique ties it to any pixel-by-pixel recolouring |
| Effects.RecolorPixel | cpp_src/effects.cpp:19-32 | bytes 4q..4q+3 of the kernel's result are the new colour computed from original pixel q's own channels, followed by pixel q's original alpha |
| Effects.RecolorBytes | cpp_src/effects.cpp:20-31 | the same, byte by byte: the red, green and blue bytes of pixel q hold the new channels, and the alpha byte its old value |
| Effects.RecolorUnique | cpp_src/effects.cpp:7-14 | a buffer of whole pixels has exactly one recolouring: any sequence of its length that recolours every pixel equals Recolor |
| Effects.RecolorAppend | cpp_src/effects.cpp:7 | the kernels work pixel by pixel, so running one over two consecutive parts of whole pixels gives the result on the joined buffer |
| Effects.AlphaUnchanged | cpp_src/effects.cpp:13 | no kernel ever changes a byte at an index that is 3 modulo 4 (the alpha channel) |
| Effects.GrayscaleChannelsEqual | cpp_src/effects.cpp:9-12 | after grayscale, red, green and blue of every pixel are equal to the average of that pixel's original channels |
| Effects.GrayscaleIdempotent | cpp_src/effects.cpp:5-15 | running grayscale on its own output changes nothing |
| Effects.SepiaResultOrdered | cpp_src/effects.cpp:18-33 | every pixel of a sepia result has red >= green >= blue |
| Effects.PixelIndependent | cpp_src/effects.cpp:20-31 | each output pixel depends only on the same input pixel: buffers that agree on a pixel agree on it after the kernel, whatever the other pixels hold |
| Effects.Span | cpp_src/effects.cpp:7 | the number of bytes the loop walks, width*height*4 when positive and 0 otherwise, is always a multiple of 4 (whole pixels) |
| Effects.NoPixelsNoChange | cpp_src/effects.cpp:7 | when width*height <= 0 a kernel leaves memory exactly as it was, whatever the signs of width and height |
| Effects.SpanOfImage | cpp_src/effects.cpp:7 | for non-negative dimensions the loop walks width*height*4 bytes, and none exactly when the image has no pixels |
| Effects.InBounds | cpp_src/effects.cpp:7 | every loop turn (i below width*height*4, i a multiple of 4) touches four bytes that all lie inside the walked window |
| Effects.GrayscaleKernel | cpp_src/effects.cpp:5-15 | the in-place loop leaves memory equal to the old memory with its Span(width, height) bytes from ptr replaced by Recolor(GrayRgb, ...) and every other byte unchanged |
| Effects.SepiaKernel | cpp_src/effects.cpp:18-33 | the in-place loop leaves memory equal to the old memory with its Span(width, height) bytes from ptr replaced by Recolor(SepiaRgb, ...) and every other byte unchanged |
| Wasm.FirstFitUnique | frontend/src/app/components/WasmEditor.tsx:9 | under the first-fit stand-in for `_malloc` (not the real allocator's policy), the placement is determined by the live blocks and the memory size: two first fits for the same request are the same address |
| Wasm.WasmModule.Malloc | frontend/src/app/components/WasmEditor.tsx:9 | returns 0 exactly when no block of the size fits; otherwise a non-null address where the block fits and overlaps no live block (the lowest such, under the first-fit stand-in), recorded as live with its size; live blocks stay pairwise disjoint and inside memory |
| Wasm.WasmModule.Set | frontend/src/app/components/WasmEditor.tsx:73 | memory becomes the old memory with the bytes written from ptr on, nothing else changed |
| Wasm.WasmModule.Run | frontend/src/app/components/WasmEditor.tsx:74 | the selected kernel rewrites exactly the Span(width, height) bytes from ptr, as Recolor with that kernel's colour function |
| Wasm.WasmModule.Subarray | frontend/src/app/components/WasmEditor.tsx:75 | the copy is the len bytes of memory from ptr when they lie inside memory, and is cut at the end of memory otherwise |
| Wasm.WasmModule.Free | frontend/src/app/components/WasmEditor.tsx:78 | the block at ptr is no longer live, every other block still is, and the live blocks stay disjoint |
| Editor.BlankCanvas | frontend/src/app/components/WasmEditor.tsx:104 | a canvas with no image is a well-formed 300 by 150 image |
| Editor.WasmEditor.constructor | frontend/src/app/components/WasmEditor.tsx:21-24 | the component starts with no module, no original image and a blank canvas |
| Editor.WasmEditor.ModuleLoaded | frontend/src/app/components/WasmEditor.tsx:26-40 | once the module is set, the image state is as it was |
| Editor.WasmEditor.ImageLoaded | frontend/src/app/components/WasmEditor.tsx:47-56 | the canvas takes the upload's size and pixels and the same pixels are kept as the original |
| Editor.WasmEditor.Apply | frontend/src/app/components/WasmEditor.tsx:64-96 | nothing happens without a module or an original (both directions); when `_malloc` finds no room the canvas shows the original and nothing is allocated; otherwise the canvas shows the effect applied to the original (whatever the canvas showed before), the block allocated (the first fit, under the stand-in allocator) is freed again, and the five boundary calls are made in order; that memory changes only inside the block, which still holds the result, holds under the stand-in allocator only, whose bookkeeping is kept outside memory |
| Editor.RoundTrip | frontend/src/app/components/WasmEditor.tsx:72-78 | malloc, set, kernel, subarray and free in a row: the bytes read back are Recolor of the bytes written in, and the live blocks are as before; that memory outside the block is unchanged after `_free`, and the block still holds the result, holds under the stand-in allocator only, whose bookkeeping is kept outside memory (Process states the part that holds for any allocator) |
| Editor.Process | frontend/src/app/components/WasmEditor.tsx:73-75 | writing the pixels into an allocated block, running the kernel there and reading the block back yields Recolor of the pixels, and leaves memory outside the block as it was |
| Editor.PressTwice | frontend/src/app/components/WasmEditor.tsx:69 | each press starts again from the saved original: after two presses the canvas shows the second effect of the original, the same button twice shows the same picture twice, and (under the first-fit stand-in allocator) the second press gets the block the first one got |

## Left out

- File upload and decoding (`FileReader`, `Image`, `drawImage`) are left
  out, as is reading pixels back through the 2D context. `ImageLoaded`
  takes the decoded pixels as a parameter.
- Editor.WasmEditor.Apply: the model assumes that `putImageData` of the
  original followed by `getImageData` returns the original bytes. A real
  canvas may store premultiplied alpha, so pixels with alpha below 255 can
  read back slightly different colour bytes. That loss is not modelled.
- Module loading (the `window.Module` polling interval and the promise) is
  left out. It becomes `ModuleLoaded`, and "not loaded yet" is a null
  module reference.
- The `canvasRef.current` and `getContext('2d')` null checks are left out.
  The canvas is always present in the model, so `Apply` is skipped only for
  a missing module or a missing original.
- Rendering (JSX, the buttons' `disabled` state and labels) is left out.
- Editor.WasmEditor.Apply: the source puts the result on the canvas and
  then frees the block. The model frees the block first and then updates
  the canvas. The two steps touch disjoint state, so within one call their
  order is not observable.
- Effects.SepiaRgb: the source multiplies by `double` constants (0.393
  and so on) and truncates the sum. The model uses exact thousandths with
  floor division. Binary floating point can land just below an integer
  that the exact sum reaches, and then give one less; for example the red
  channel of (4,11,21) is 14 exactly but 13 in doubles. That rounding is
  not modelled, so Effects.SepiaKernel computes exact-thousandths sepia.
- Effects.GrayscaleKernel and Effects.SepiaKernel require that width,
  height, width*height and width*height*4 fit in a C `int`. Past that the C
  multiplication overflows, which is undefined behaviour, so it is not
  modelled.
- Wasm.WasmModule.Malloc: the real allocator's placement policy is not part
  of the model; a first-fit search over the fixed memory stands for it.
  Memory growth is also not modelled.
- Wasm.WasmModule.Malloc, Wasm.WasmModule.Free, Editor.WasmEditor.Apply and
  Editor.RoundTrip: the real `_malloc` and `_free` are C code in the same
  module. They keep chunk headers and free-list links in linear memory,
  just before a block and, after a free, inside it. The model keeps the
  allocator's bookkeeping outside memory: `Malloc` and `Free` change only
  the live blocks and the call log, never `HEAPU8`. So two facts hold of
  this stand-in only: after `_free` the block still holds the result, and
  memory outside the block is unchanged across the whole handler.
  `Editor.Process` proves, for any allocator, that the page's own steps
  (`set`, the kernel and `subarray`) change memory only inside the block.
- Editor.PressTwice: "the second press gets the same block", and the second
  press succeeding whenever the first did, follow from the first-fit
  stand-in, not from any promise of the real `_malloc`. That the canvas
  shows the second effect of the original holds for any allocator.
- A `_malloc` that finds no room stops the handler in the model
  (`OutOfMemory`). The original is already back on the canvas, and nothing is
  allocated, written or freed. This is how an aborting allocator behaves. A
  build that returned 0 and went on writing at address 0 is not modelled.
- Wasm.WasmModule.Free: freeing a pointer that is not live (a double free)
  is outside its precondition.
- `new Uint8ClampedArray(...)` copies bytes that are already in 0..255, so
  its clamping never applies and is not modelled. `new ImageData(...)`
  wraps that copy without copying again. The copy is a value (`Subarray`
  returns a sequence), so freeing the block cannot change the result.

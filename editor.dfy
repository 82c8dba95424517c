/** The photo editor component: it holds the compute module once it has
    loaded, the image as first drawn, and the canvas, and runs one effect per
    button press by copying the original pixels into the module's memory,
    running the kernel there and copying the result back out. */
module Editor {
  import opened Effects
  import opened Wasm

  datatype Option<T> = None | Some(value: T)

  /** A canvas `ImageData`: RGBA bytes, row by row, four per pixel. */
  datatype ImageData = ImageData(width: nat, height: nat, data: seq<Byte>)

  /** Four bytes per pixel, and dimensions a C `int` can carry to the kernel. */
  predicate WellFormed(img: ImageData)
  {
    |img.data| == img.width * img.height * 4 && Dimensions(img.width, img.height)
  }

  /** What one press of an effect button did. */
  datatype Outcome =
    | Skipped          // module not loaded yet, or no image: the handler returns at once
    | OutOfMemory      // _malloc found no room; the original is back on the canvas
    | Applied(ptr: nat)  // the effect ran in the block at ptr, which is free again

  /** The canvas before any image is drawn: 300 by 150 transparent black. */
  function BlankCanvas(): (img: ImageData)
    ensures WellFormed(img)
  {
    ImageData(300, 150, seq(300 * 150 * 4, _ => 0))
  }

  class WasmEditor {
    /** `wasmModule`: null until the module has loaded. */
    var wasm: WasmModule?
    /** `originalImageData`: the pixels as first drawn, None before any upload. */
    var original: Option<ImageData>
    /** The pixels the canvas shows. */
    var canvas: ImageData

    /** The canvas holds a well-formed image of the original's size, and the
        module's allocator is consistent. */
    ghost predicate Valid()
      reads this, wasm
    {
      WellFormed(canvas) &&
      (original.Some? ==>
        WellFormed(original.value) &&
        original.value.width == canvas.width && original.value.height == canvas.height) &&
      (wasm != null ==> wasm.Valid())
    }

    constructor ()
      ensures Valid() && wasm == null && original == None && canvas == BlankCanvas()
    {
      wasm := null;
      original := None;
      canvas := BlankCanvas();
    }

    /** The module has finished loading (`setWasmModule`). */
    method ModuleLoaded(m: WasmModule)
      requires Valid() && m.Valid()
      modifies this`wasm
      ensures Valid() && wasm == m
      ensures original == old(original) && canvas == old(canvas)
    {
      wasm := m;
    }

    /** An upload has been decoded and drawn: the canvas takes the image's size
        and pixels, and those pixels are saved as the original. */
    method ImageLoaded(img: ImageData)
      requires Valid() && WellFormed(img)
      modifies this`canvas, this`original
      ensures Valid() && wasm == old(wasm)
      ensures canvas == img && original == Some(img)
    {
      canvas := img;
      original := Some(img);
    }

    /** One effect button press. Without a module or an original image nothing
        happens. Otherwise the original goes back on the canvas, a block of its
        size is allocated, the pixels are copied in at the block's start, the
        kernel runs there, exactly that many bytes are copied back out onto the
        canvas, and the block is freed. */
    method Apply(effect: Effect) returns (outcome: Outcome)
      requires Valid()
      modifies this`canvas, if wasm == null then {} else {wasm, wasm.heap}
      ensures Valid() && wasm == old(wasm) && original == old(original)
      ensures outcome == Skipped <==> old(wasm) == null || old(original).None?
      ensures outcome == Skipped ==> canvas == old(canvas)
      ensures outcome == Skipped && wasm != null ==> unchanged(wasm) && unchanged(wasm.heap)
      ensures outcome == OutOfMemory ==> canvas == original.value && unchanged(wasm) && unchanged(wasm.heap)
      ensures outcome == OutOfMemory ==> NoFit(wasm.live, wasm.heap.Length, |original.value.data|)
      ensures outcome.Applied? ==> FirstFit(old(wasm.live), wasm.heap.Length, |original.value.data|, outcome.ptr)
      ensures outcome.Applied? ==>
        var img, p := original.value, outcome.ptr;
        canvas == ImageData(img.width, img.height, Recolor(effect.Color(), img.data))
      ensures outcome.Applied? ==> wasm.live == old(wasm.live) && outcome.ptr !in wasm.live
      ensures outcome.Applied? ==>
        var img, p := original.value, outcome.ptr;
        var n := |img.data|;
        wasm.calls == old(wasm.calls) +
          [Allocated(n, p), Copied(p, n), Ran(effect, p, img.width, img.height), Read(p, n), Freed(p)]
      ensures outcome.Applied? ==>
        var p, n := outcome.ptr, |original.value.data|;
        wasm.heap == old(wasm.heap) && p + n <= wasm.heap.Length &&
        wasm.heap[..p] == old(wasm.heap[..p]) &&
        wasm.heap[p..p + n] == canvas.data &&
        wasm.heap[p + n..] == old(wasm.heap[p + n..])
    {
      if wasm == null || original.None? {
        return Skipped;
      }
      var img := original.value;
      canvas := img;                     // putImageData(original), then getImageData
      SpanOfImage(canvas.width, canvas.height);
      var ptr, result := RoundTrip(wasm, effect, canvas.data, canvas.width, canvas.height);
      if ptr == 0 {
        return OutOfMemory;
      }
      canvas := ImageData(canvas.width, canvas.height, result);
      outcome := Applied(ptr);
    }
  }

  /** The steps of an effect handler from `_malloc` to `_free`: a block of
      |data| bytes is allocated, the pixels are copied in at its start, the
      kernel runs on them there, as many bytes are copied back out, and the
      block is freed. When `_malloc` finds no room the handler stops there. */
  method RoundTrip(m: WasmModule, effect: Effect, data: seq<Byte>, width: int, height: int)
    returns (ptr: nat, result: seq<Byte>)
    requires m.Valid() && Dimensions(width, height) && |data| == Span(width, height)
    modifies m`live, m`calls, m.heap
    ensures m.Valid()
    ensures ptr == 0 <==> NoFit(old(m.live), m.heap.Length, |data|)
    ensures ptr == 0 ==> unchanged(m) && unchanged(m.heap)
    ensures ptr != 0 ==> FirstFit(old(m.live), m.heap.Length, |data|, ptr) && m.live == old(m.live)
    ensures ptr != 0 ==> result == Recolor(effect.Color(), data)
    ensures ptr != 0 ==>
      var n := |data|;
      m.calls == old(m.calls) +
        [Allocated(n, ptr), Copied(ptr, n), Ran(effect, ptr, width, height), Read(ptr, n), Freed(ptr)]
    ensures ptr != 0 ==>
      var n := |data|;
      ptr + n <= m.heap.Length &&
      m.heap[..ptr] == old(m.heap[..ptr]) &&
      m.heap[ptr..ptr + n] == result &&
      m.heap[ptr + n..] == old(m.heap[ptr + n..])
  {
    var n := |data|;
    ghost var live0, calls0 := m.live, m.calls;
    ptr := m.Malloc(n);
    if ptr == 0 {
      return ptr, [];
    }
    result := Process(m, effect, data, ptr, width, height);
    m.Free(ptr);
    assert m.live == live0[ptr := n] - {ptr};
    assert m.calls == calls0 + [Allocated(n, ptr)] + [Copied(ptr, n), Ran(effect, ptr, width, height), Read(ptr, n)]
      + [Freed(ptr)];
  }

  /** The middle of RoundTrip, on a block already allocated at ptr: copy in,
      run the kernel, copy out. Memory outside the block keeps its bytes. */
  method Process(m: WasmModule, effect: Effect, data: seq<Byte>, ptr: nat, width: int, height: int)
    returns (result: seq<Byte>)
    requires Dimensions(width, height) && |data| == Span(width, height)
    requires ptr + |data| <= m.heap.Length
    modifies m`calls, m.heap
    ensures result == Recolor(effect.Color(), data)
    ensures m.calls == old(m.calls) + [Copied(ptr, |data|), Ran(effect, ptr, width, height), Read(ptr, |data|)]
    ensures var n := |data|;
      m.heap[..ptr] == old(m.heap[..ptr]) &&
      m.heap[ptr..ptr + n] == result &&
      m.heap[ptr + n..] == old(m.heap[ptr + n..])
  {
    var n := |data|;
    ghost var h0 := m.heap[..];
    m.Set(data, ptr);
    ghost var h1 := m.heap[..];
    SpliceParts(h1, h0, ptr, data);
    m.Run(effect, ptr, width, height);
    ghost var h2 := m.heap[..];
    SpliceParts(h2, h1, ptr, Recolor(effect.Color(), data));
    result := m.Subarray(ptr, n);
  }

  /** Two effect button presses, a and then b. Each press starts again from the
      saved original, so the canvas ends up showing b of the original, whatever
      a was (grayscale then sepia shows sepia of the original, not sepia of the
      grey picture), and pressing the same button twice shows the same picture
      twice. When the first press found room, the second finds the same block. */
  method PressTwice(e: WasmEditor, a: Effect, b: Effect) returns (first: Outcome, shown: ImageData, second: Outcome)
    requires e.Valid()
    modifies e`canvas, if e.wasm == null then {} else {e.wasm, e.wasm.heap}
    ensures e.Valid()
    ensures first.Applied? ==> second == first
    ensures second.Applied? ==>
      e.original.Some? &&
      var img := e.original.value;
      e.canvas == ImageData(img.width, img.height, Recolor(b.Color(), img.data))
    ensures a == b && first.Applied? ==> e.canvas == shown
  {
    first := e.Apply(a);
    shown := e.canvas;
    second := e.Apply(b);
    if first.Applied? && second.Applied? {
      FirstFitUnique(e.wasm.live, e.wasm.heap.Length, |e.original.value.data|, first.ptr, second.ptr);
    }
  }
}

/** The two pixel kernels the compute module exports (`grayscale` and `sepia`).
    Both walk a flat RGBA byte buffer of width*height*4 bytes, four bytes per
    pixel in the order red, green, blue, alpha, and rewrite red, green and blue
    in place; alpha is never written. */
module Effects {

  /** One byte of the buffer (C `unsigned char`). */
  type Byte = x: int | 0 <= x < 256

  /** The two kernels. */
  datatype Effect = Grayscale | Sepia {

    /** What the kernel does to the colour channels of one pixel. */
    function Color(): Rgb -> Rgb
    {
      match this
      case Grayscale => GrayRgb
      case Sepia => SepiaRgb
    }
  }

  /** The colour part of one pixel; alpha is kept apart because no kernel touches it. */
  datatype Rgb = Rgb(r: Byte, g: Byte, b: Byte)

  function Min3(x: int, y: int, z: int): int
  {
    if x <= y && x <= z then x else if y <= z then y else z
  }

  function Max3(x: int, y: int, z: int): int
  {
    if x >= y && x >= z then x else if y >= z then y else z
  }

  // ---------------------------------------------------------------------------
  // Per-pixel arithmetic
  // ---------------------------------------------------------------------------

  /** The grey level of grayscale: the integer average of the three channels.
      It lies between the smallest and the largest channel, so it fits a byte
      and no truncation happens when it is stored; three equal channels are
      their own average. */
  function Average(r: Byte, g: Byte, b: Byte): (v: Byte)
    ensures Min3(r, g, b) <= v <= Max3(r, g, b)
    ensures r == g == b ==> v == r
  {
    (r + g + b) / 3
  }

  /** Clamping from above only: the weighted sums of sepia are never negative. */
  function ClampHigh(x: nat): Byte
  {
    if x > 255 then 255 else x
  }

  /** Grayscale of one pixel: one grey value for all three channels, lying
      between the pixel's smallest and largest channel. */
  function GrayRgb(c: Rgb): (d: Rgb)
    ensures d.r == d.g == d.b && Min3(c.r, c.g, c.b) <= d.r <= Max3(c.r, c.g, c.b)
  {
    var v := Average(c.r, c.g, c.b);
    Rgb(v, v, v)
  }

  /** Sepia of one pixel: weighted sums truncated toward zero and capped at
      255. Every coefficient column of the matrix is non-increasing from the red
      row to the blue row, and capping keeps the order, so every result has
      red >= green >= blue. */
  function SepiaRgb(c: Rgb): (d: Rgb)
    ensures d.r >= d.g >= d.b
  {
    Rgb(ClampHigh((393 * c.r + 769 * c.g + 189 * c.b) / 1000),
        ClampHigh((349 * c.r + 686 * c.g + 168 * c.b) / 1000),
        ClampHigh((272 * c.r + 534 * c.g + 131 * c.b) / 1000))
  }

  /** A pixel that is already grey is left as it is. */
  lemma GrayFixesGray(c: Rgb)
    requires c.r == c.g == c.b
    ensures GrayRgb(c) == c
  {
  }

  /** Red (255,0,0) becomes (85,85,85): the kernel averages, it does not weigh
      the channels by luminance. */
  lemma GrayOfRed()
    ensures GrayRgb(Rgb(255, 0, 0)) == Rgb(85, 85, 85)
  {
  }

  /** Black stays black under sepia. */
  lemma SepiaKeepsBlack()
    ensures SepiaRgb(Rgb(0, 0, 0)) == Rgb(0, 0, 0)
  {
  }

  /** White becomes (255,255,238) under sepia: the blue row sums to 0.937,
      so only red and green reach the clamp. */
  lemma SepiaOfWhite()
    ensures SepiaRgb(Rgb(255, 255, 255)) == Rgb(255, 255, 238)
  {
  }

  // ---------------------------------------------------------------------------
  // Whole-buffer specification
  // ---------------------------------------------------------------------------

  /** The colour channels of the pixel whose first byte is at index p. */
  function PixelAt(s: seq<Byte>, p: nat): Rgb
    requires p + 3 <= |s|
  {
    Rgb(s[p], s[p + 1], s[p + 2])
  }

  /** The bytes a kernel leaves behind: every 4-byte pixel of s, first to last,
      gets the new colour computed from its own original channels, and keeps its
      alpha byte. (A trailing partial pixel, which the kernels never meet since
      they walk a multiple of 4 bytes, is left as it is.) */
  function Recolor(f: Rgb -> Rgb, s: seq<Byte>): (t: seq<Byte>)
    ensures |t| == |s|
    decreases |s|
  {
    if |s| < 4 then s
    else
      var c := f(PixelAt(s, 0));
      [c.r, c.g, c.b, s[3]] + Recolor(f, s[4..])
  }

  /** Pixel q of the result, bytes 4q to 4q+3: the new colour of original
      pixel q, computed from that pixel's channels alone, followed by its
      original alpha byte. */
  lemma {:induction false} RecolorPixel(f: Rgb -> Rgb, s: seq<Byte>, q: nat)
    requires 4 * q + 4 <= |s|
    ensures var c := f(PixelAt(s, 4 * q));
      Recolor(f, s)[4 * q..4 * q + 4] == [c.r, c.g, c.b, s[4 * q + 3]]
  {
    if q > 0 {
      RecolorPixel(f, s[4..], q - 1);
      assert PixelAt(s[4..], 4 * (q - 1)) == PixelAt(s, 4 * q);
      assert Recolor(f, s)[4 * q..4 * q + 4] == Recolor(f, s[4..])[4 * (q - 1)..4 * q];
    }
  }

  /** The same, byte by byte. */
  lemma RecolorBytes(f: Rgb -> Rgb, s: seq<Byte>, p: nat, q: nat)
    requires p == 4 * q && p + 4 <= |s|
    ensures var t, c := Recolor(f, s), f(PixelAt(s, p));
      t[p] == c.r && t[p + 1] == c.g && t[p + 2] == c.b && t[p + 3] == s[p + 3]
  {
    var t := Recolor(f, s);
    RecolorPixel(f, s, q);
    assert t[p] == t[p..p + 4][0] && t[p + 1] == t[p..p + 4][1];
    assert t[p + 2] == t[p..p + 4][2] && t[p + 3] == t[p..p + 4][3];
  }

  /** Pixel q of t is pixel q of s recoloured by f, alpha kept. */
  ghost predicate Recolored(f: Rgb -> Rgb, s: seq<Byte>, t: seq<Byte>, q: nat)
  {
    var p := 4 * q;
    p + 4 <= |s| && p + 4 <= |t| &&
    var c := f(PixelAt(s, p));
    t[p] == c.r && t[p + 1] == c.g && t[p + 2] == c.b && t[p + 3] == s[p + 3]
  }

  /** A buffer of whole pixels has one recolouring: a sequence of its length
      that recolours every pixel is Recolor(f, s). This is how a kernel loop,
      which rewrites one pixel per turn, is tied to Recolor. */
  lemma {:induction false} RecolorUnique(f: Rgb -> Rgb, s: seq<Byte>, t: seq<Byte>)
    requires |s| % 4 == 0 && |t| == |s|
    requires forall q: nat :: 4 * q + 4 <= |s| ==> Recolored(f, s, t, q)
    ensures t == Recolor(f, s)
  {
    if |s| > 0 {
      assert Recolored(f, s, t, 0);
      forall q: nat | 4 * q + 4 <= |s| - 4
        ensures Recolored(f, s[4..], t[4..], q)
      {
        assert Recolored(f, s, t, q + 1);
        assert PixelAt(s[4..], 4 * q) == PixelAt(s, 4 * (q + 1));
      }
      RecolorUnique(f, s[4..], t[4..]);
      assert t == t[..4] + t[4..];
    }
  }

  /** Recolor recolours every whole pixel of s. The result is returned without
      saying that it is Recolor(f, s), so that a kernel loop can work against
      the pixel-by-pixel description alone. */
  lemma Recoloring(f: Rgb -> Rgb, s: seq<Byte>) returns (t: seq<Byte>)
    ensures |t| == |s| && forall q: nat :: 4 * q + 4 <= |s| ==> Recolored(f, s, t, q)
  {
    t := Recolor(f, s);
    forall q: nat | 4 * q + 4 <= |s|
      ensures Recolored(f, s, t, q)
    {
      RecolorBytes(f, s, 4 * q, q);
    }
  }

  /** Kernels work pixel by pixel, so a buffer can be processed in two parts. */
  lemma {:induction false} RecolorAppend(f: Rgb -> Rgb, s: seq<Byte>, u: seq<Byte>)
    requires |s| % 4 == 0
    ensures Recolor(f, s + u) == Recolor(f, s) + Recolor(f, u)
  {
    if s == [] {
      assert s + u == u;
    } else {
      assert (s + u)[4..] == s[4..] + u;
      RecolorAppend(f, s[4..], u);
    }
  }

  /** Alpha is never changed, by either kernel. */
  lemma AlphaUnchanged(f: Rgb -> Rgb, s: seq<Byte>)
    ensures forall i :: 0 <= i < |s| && i % 4 == 3 ==> Recolor(f, s)[i] == s[i]
  {
    forall i | 0 <= i < |s| && i % 4 == 3
      ensures Recolor(f, s)[i] == s[i]
    {
      RecolorBytes(f, s, i - 3, (i - 3) / 4);
    }
  }

  /** After grayscale, red, green and blue of every pixel hold one value: the
      average of that pixel's original channels. */
  lemma GrayscaleChannelsEqual(s: seq<Byte>, q: nat)
    requires 4 * q + 4 <= |s|
    ensures var t, p := Recolor(GrayRgb, s), 4 * q;
      t[p] == t[p + 1] == t[p + 2] == Average(s[p], s[p + 1], s[p + 2])
  {
    RecolorBytes(GrayRgb, s, 4 * q, q);
  }

  /** Grayscale is idempotent: a second pass changes nothing. */
  lemma {:induction false} GrayscaleIdempotent(s: seq<Byte>)
    ensures Recolor(GrayRgb, Recolor(GrayRgb, s)) == Recolor(GrayRgb, s)
  {
    if |s| >= 4 {
      var t := Recolor(GrayRgb, s);
      assert t[4..] == Recolor(GrayRgb, s[4..]);
      GrayFixesGray(PixelAt(t, 0));
      GrayscaleIdempotent(s[4..]);
    }
  }

  /** Every pixel of a sepia result has red >= green >= blue. */
  lemma SepiaResultOrdered(s: seq<Byte>, q: nat)
    requires 4 * q + 4 <= |s|
    ensures var t, p := Recolor(SepiaRgb, s), 4 * q; t[p] >= t[p + 1] >= t[p + 2]
  {
    RecolorBytes(SepiaRgb, s, 4 * q, q);
  }

  /** A kernel only ever looks at the pixel it rewrites: two buffers that agree
      on one pixel agree on that pixel after the kernel, whatever the other
      pixels hold. */
  lemma PixelIndependent(f: Rgb -> Rgb, s: seq<Byte>, u: seq<Byte>, q: nat)
    requires 4 * q + 4 <= |s| && 4 * q + 4 <= |u|
    requires s[4 * q..4 * q + 4] == u[4 * q..4 * q + 4]
    ensures Recolor(f, s)[4 * q..4 * q + 4] == Recolor(f, u)[4 * q..4 * q + 4]
  {
    var p := 4 * q;
    RecolorPixel(f, s, q);
    RecolorPixel(f, u, q);
    assert s[p] == s[p..p + 4][0] && u[p] == u[p..p + 4][0];
    assert s[p + 1] == s[p..p + 4][1] && u[p + 1] == u[p..p + 4][1];
    assert s[p + 2] == s[p..p + 4][2] && u[p + 2] == u[p..p + 4][2];
    assert s[p + 3] == s[p..p + 4][3] && u[p + 3] == u[p..p + 4][3];
  }

  // ---------------------------------------------------------------------------
  // The kernels as the module runs them: in place, over a region of memory
  // ---------------------------------------------------------------------------

  /** A value of C `int` (32 bits, two's complement). */
  predicate IsInt(x: int)
  {
    -0x8000_0000 <= x < 0x8000_0000
  }

  /** The arguments are C `int`s and the loop bound width*height*4 does not overflow. */
  predicate Dimensions(width: int, height: int)
  {
    IsInt(width) && IsInt(height) && IsInt(width * height) && IsInt(width * height * 4)
  }

  /** The number of bytes the loop `for (i = 0; i < width*height*4; i += 4)`
      walks: width*height*4 when that is positive, none otherwise (also when
      both sides are negative, the product is positive and the loop runs). */
  function Span(width: int, height: int): (n: nat)
    ensures n % 4 == 0
  {
    var wh := width * height;
    if wh > 0 then wh * 4 else 0
  }

  /** Span of non-negative dimensions is the pixel count times four; it is zero
      exactly when the image has no pixels. */
  lemma SpanOfImage(width: nat, height: nat)
    ensures Span(width, height) == width * height * 4
    ensures Span(width, height) == 0 <==> width == 0 || height == 0
  {
  }

  /** A turn of the loop `i < width*height*4` with i a multiple of 4 works on
      four bytes that all lie inside the span. */
  lemma InBounds(width: int, height: int, i: int, q: int)
    requires 0 <= i < width * height * 4 && i == 4 * q
    ensures i + 4 <= Span(width, height)
  {
  }

  /** The grayscale kernel, run on the bytes of `data` from `ptr` on (the
      module's `unsigned char* data`). Only the first Span(width, height) bytes
      from ptr change, and they change as Recolor(GrayRgb, ...) says. */
  method GrayscaleKernel(data: array<Byte>, ptr: nat, width: int, height: int)
    requires Dimensions(width, height)
    requires ptr + Span(width, height) <= data.Length
    modifies data
    ensures Rewritten(GrayRgb, old(data[..]), data[..], ptr, Span(width, height))
  {
    var wh := width * height;
    var limit := wh * 4;
    ghost var n := Span(width, height);
    ghost var orig := data[..];
    ghost var src := orig[ptr..ptr + n];
    ghost var spec := Recoloring(GrayRgb, src);
    var i := 0;
    ghost var done := 0;
    while i < limit
      invariant 0 <= i <= n && i == 4 * done
      invariant Progress(data, ptr, i, orig, spec)
    {
      InBounds(width, height, i, done);
      var gray: int := (data[ptr + i] as int + data[ptr + i + 1] + data[ptr + i + 2]) / 3;
      PixelStep(GrayRgb, src, spec, done, Rgb(data[ptr + i], data[ptr + i + 1], data[ptr + i + 2]), Rgb(gray, gray, gray));
      Paint(data, ptr, i, Rgb(gray, gray, gray), orig, spec);
      i, done := i + 4, done + 1;
    }
    Finished(GrayRgb, data, ptr, orig, spec);
  }

  /** The sepia kernel, run on the bytes of `data` from `ptr` on. Each pixel's
      channels are read before any is written, so each new pixel depends only on
      that pixel's original channels. */
  method SepiaKernel(data: array<Byte>, ptr: nat, width: int, height: int)
    requires Dimensions(width, height)
    requires ptr + Span(width, height) <= data.Length
    modifies data
    ensures Rewritten(SepiaRgb, old(data[..]), data[..], ptr, Span(width, height))
  {
    var wh := width * height;
    var limit := wh * 4;
    ghost var n := Span(width, height);
    ghost var orig := data[..];
    ghost var src := orig[ptr..ptr + n];
    ghost var spec := Recoloring(SepiaRgb, src);
    var i := 0;
    ghost var done := 0;
    while i < limit
      invariant 0 <= i <= n && i == 4 * done
      invariant Progress(data, ptr, i, orig, spec)
    {
      InBounds(width, height, i, done);
      var r := data[ptr + i];
      var g := data[ptr + i + 1];
      var b := data[ptr + i + 2];
      var c := SepiaRgb(Rgb(r, g, b));
      PixelStep(SepiaRgb, src, spec, done, Rgb(r, g, b), c);
      Paint(data, ptr, i, c, orig, spec);
      i, done := i + 4, done + 1;
    }
    Finished(SepiaRgb, data, ptr, orig, spec);
  }

  /** How far a kernel loop has got: below ptr and from ptr + i on, memory
      still holds orig; the i bytes from ptr hold the first i bytes of spec. */
  ghost predicate Progress(data: array<Byte>, ptr: nat, i: nat, orig: seq<Byte>, spec: seq<Byte>)
    reads data
  {
    data.Length == |orig| && ptr + |spec| <= |orig| && i <= |spec| &&
    (forall k :: 0 <= k < ptr ==> data[k] == orig[k]) &&
    (forall k :: ptr + i <= k < data.Length ==> data[k] == orig[k]) &&
    (forall k :: 0 <= k < i ==> data[ptr + k] == spec[k])
  }

  /** The three colour writes of a loop turn, at the pixel that starts i bytes
      from ptr: when spec holds c there, and the alpha byte already, the loop
      has got four bytes further. */
  method Paint(data: array<Byte>, ptr: nat, i: nat, c: Rgb, ghost orig: seq<Byte>, ghost spec: seq<Byte>)
    requires Progress(data, ptr, i, orig, spec) && i + 4 <= |spec|
    requires spec[i] == c.r && spec[i + 1] == c.g && spec[i + 2] == c.b
    requires spec[i + 3] == orig[ptr + i + 3]
    modifies data
    ensures Progress(data, ptr, i + 4, orig, spec)
  {
    data[ptr + i] := c.r;
    data[ptr + i + 1] := c.g;
    data[ptr + i + 2] := c.b;
  }

  /** What one turn of a kernel loop writes: when pixel q of spec recolours
      pixel q of src, and that pixel holds the channels `was`, then spec holds
      the new colour `now` of `was` there, and src's alpha. */
  lemma PixelStep(f: Rgb -> Rgb, src: seq<Byte>, spec: seq<Byte>, q: nat, was: Rgb, now: Rgb)
    requires 4 * q + 4 <= |src| && 4 * q + 4 <= |spec|
    requires Recolored(f, src, spec, q)
    requires was == Rgb(src[4 * q], src[4 * q + 1], src[4 * q + 2]) && now == f(was)
    ensures spec[4 * q] == now.r && spec[4 * q + 1] == now.g && spec[4 * q + 2] == now.b
    ensures spec[4 * q + 3] == src[4 * q + 3]
  {
  }

  /** Memory `after` is memory `before` with the n bytes from ptr recoloured
      by f, pixel by pixel, and every other byte as it was. */
  ghost predicate Rewritten(f: Rgb -> Rgb, before: seq<Byte>, after: seq<Byte>, ptr: nat, n: nat)
  {
    ptr + n <= |before| && after == before[..ptr] + Recolor(f, before[ptr..ptr + n]) + before[ptr + n..]
  }

  /** When width*height is not positive the loop test fails at once, so a
      kernel leaves memory exactly as it was (whatever the signs of width and
      height, and whichever colour function it applies). */
  lemma NoPixelsNoChange(f: Rgb -> Rgb, before: seq<Byte>, after: seq<Byte>, ptr: nat, width: int, height: int)
    requires width * height <= 0
    requires Rewritten(f, before, after, ptr, Span(width, height))
    ensures after == before
  {
    assert before == before[..ptr] + before[ptr..];
  }

  /** A kernel loop that has got all the way, every pixel of spec being the
      f-recoloured pixel of the span of orig from ptr: memory is orig with that
      span replaced by Recolor(f, ...). */
  lemma Finished(f: Rgb -> Rgb, data: array<Byte>, ptr: nat, orig: seq<Byte>, spec: seq<Byte>)
    requires Progress(data, ptr, |spec|, orig, spec) && |spec| % 4 == 0
    requires forall q: nat :: 4 * q + 4 <= |spec| ==> Recolored(f, orig[ptr..ptr + |spec|], spec, q)
    ensures Rewritten(f, orig, data[..], ptr, |spec|)
  {
    RecolorUnique(f, orig[ptr..ptr + |spec|], spec);
    Splice(data[..], orig, ptr, spec);
  }

  /** `now` is `before` with `bytes` written over it from ptr on. */
  lemma Splice(now: seq<Byte>, before: seq<Byte>, ptr: nat, bytes: seq<Byte>)
    requires |now| == |before| && ptr + |bytes| <= |before|
    requires forall k :: 0 <= k < |bytes| ==> now[ptr + k] == bytes[k]
    requires forall j :: 0 <= j < |now| && !(ptr <= j < ptr + |bytes|) ==> now[j] == before[j]
    ensures now == before[..ptr] + bytes + before[ptr + |bytes|..]
  {
    var spliced := before[..ptr] + bytes + before[ptr + |bytes|..];
    forall j | 0 <= j < |now|
      ensures now[j] == spliced[j]
    {
      if ptr <= j < ptr + |bytes| {
        assert now[ptr + (j - ptr)] == bytes[j - ptr];
      }
    }
  }
}

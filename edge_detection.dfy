/** Sobel edge detection over an RGBA byte buffer, in integer arithmetic.

    The buffer is converted to one greyscale byte per pixel, the two 3×3 Sobel
    kernels are applied at every interior pixel, and the gradient magnitude of each
    interior pixel is written back out as an opaque grey RGBA pixel. The output
    image is one pixel smaller on each side than the input. */
module EdgeDetection {
  import opened Pixels

  // ---------------------------------------------------------------------------
  // Kernels

  /** A 3×3 convolution kernel, row by row. */
  type Kernel = k: seq<seq<int>> | |k| == 3 && |k[0]| == 3 && |k[1]| == 3 && |k[2]| == 3
    witness [[0, 0, 0], [0, 0, 0], [0, 0, 0]]

  /** Kernel for the gradient in the x direction: in every row the right weight is
      the negated left weight and the centre weight is 0, so a row of equal values
      contributes nothing. */
  function SobelKernelX(): (k: Kernel)
    ensures forall i :: 0 <= i < 3 ==> k[i][2] == -k[i][0] && k[i][1] == 0
    ensures k[1][2] == 2 * k[0][2] == 2 * k[2][2] == 2
  {
    [[-1, 0, 1], [-2, 0, 2], [-1, 0, 1]]
  }

  /** Kernel for the gradient in the y direction: in every column the bottom weight
      is the negated top weight and the centre weight is 0, so a column of equal
      values contributes nothing. */
  function SobelKernelY(): (k: Kernel)
    ensures forall j :: 0 <= j < 3 ==> k[2][j] == -k[0][j] && k[1][j] == 0
    ensures k[2][1] == 2 * k[2][0] == 2 * k[2][2] == 2
  {
    [[-1, -2, -1], [0, 0, 0], [1, 2, 1]]
  }

  function Transpose(k: Kernel): Kernel
  {
    [[k[0][0], k[1][0], k[2][0]], [k[0][1], k[1][1], k[2][1]], [k[0][2], k[1][2], k[2][2]]]
  }

  function KernelSum(k: Kernel): int
  {
    k[0][0] + k[0][1] + k[0][2] + k[1][0] + k[1][1] + k[1][2] + k[2][0] + k[2][1] + k[2][2]
  }

  /** The two kernels are the standard Sobel pair: the y kernel is the transpose of
      the x kernel, and both weigh the centre row (column) twice. */
  lemma SobelKernelsAreTransposed()
    ensures SobelKernelX() == [[-1, 0, 1], [-2, 0, 2], [-1, 0, 1]]
    ensures SobelKernelY() == Transpose(SobelKernelX())
    ensures SobelKernelX() == Transpose(SobelKernelY())
  {
  }

  /** Both kernels sum to zero, so they vanish on a constant neighbourhood. */
  lemma SobelKernelsSumToZero()
    ensures KernelSum(SobelKernelX()) == 0 && KernelSum(SobelKernelY()) == 0
  {
  }

  // ---------------------------------------------------------------------------
  // Greyscale conversion

  /** Rust's `as u8` on an unsigned integer keeps its low eight bits. */
  function AsU8(n: nat): byte
  {
    n % 256
  }

  /** The luminance of one pixel: red, green and blue weighted 299, 587 and 114 per
      thousand, computed in `u32` (wrapping modulo 2^32) and cast to `u8`. Neither the
      `u32` arithmetic nor the cast ever truncates: the value is the weighted sum
      divided by 1000, rounded down. */
  function GreyValue(r: byte, g: byte, b: byte): (v: byte)
    ensures 299 * r + 587 * g + 114 * b < 0x1_0000_0000
    ensures v == (299 * r + 587 * g + 114 * b) / 1000
    ensures v * 1000 <= 299 * r + 587 * g + 114 * b < (v + 1) * 1000
  {
    var sum := (299 * r + 587 * g + 114 * b) % 0x1_0000_0000;
    assert sum == 299 * r + 587 * g + 114 * b <= 255_000;
    AsU8(sum / 1000)
  }

  /** The buffer holds the red, green and blue bytes of each of the first w×h RGBA
      pixels. Only those bytes are read, so the alpha byte of the last pixel may be
      missing: the highest index read is 4·w·h - 2. */
  predicate RgbInBounds(image: seq<byte>, w: nat, h: nat)
  {
    |image| + 1 >= w * h * 4
  }

  /** The greyscale image of the first w×h pixels of an RGBA buffer: one byte per
      pixel, row-major. */
  function Greyscale(image: seq<byte>, w: nat, h: nat): (grey: seq<byte>)
    requires RgbInBounds(image, w, h)
    ensures |grey| == w * h
  {
    seq(w * h, p requires 0 <= p < w * h =>
      GreyValue(image[4 * p], image[4 * p + 1], image[4 * p + 2]))
  }

  /** Pixel (x, y) of the greyscale image is the weighted mean of the red, green and
      blue bytes of pixel (x, y) of the input, rounded down. */
  lemma GreyscaleAt(image: seq<byte>, w: nat, h: nat, x: nat, y: nat)
    requires RgbInBounds(image, w, h)
    requires x < w && y < h
    ensures Idx(x, y, w) < w * h
    ensures Idx(x, y, w) * 4 + 2 < |image|
    ensures var i := Idx(x, y, w) * 4;
      Greyscale(image, w, h)[Idx(x, y, w)] as int == (299 * (image[i] as int) + 587 * (image[i + 1] as int) + 114 * (image[i + 2] as int)) / 1000
  {
    IdxInGrid(x, y, w, h);
  }

  /** Two buffers whose red, green and blue bytes agree have the same greyscale
      image, whatever their alpha bytes. */
  lemma GreyscaleIgnoresAlpha(a: seq<byte>, b: seq<byte>, w: nat, h: nat)
    requires RgbInBounds(a, w, h) && RgbInBounds(b, w, h)
    requires forall p :: 0 <= p < w * h ==>
      a[4 * p] == b[4 * p] && a[4 * p + 1] == b[4 * p + 1] && a[4 * p + 2] == b[4 * p + 2]
    ensures Greyscale(a, w, h) == Greyscale(b, w, h)
  {
    var ga, gb := Greyscale(a, w, h), Greyscale(b, w, h);
    forall p | 0 <= p < w * h
      ensures ga[p] == gb[p]
    {
      assert a[4 * p] == b[4 * p] && a[4 * p + 1] == b[4 * p + 1] && a[4 * p + 2] == b[4 * p + 2];
    }
  }

  // ---------------------------------------------------------------------------
  // Gradient magnitude

  /** The greyscale value at pixel (x, y). */
  function GreyAt(grey: seq<byte>, w: nat, h: nat, x: nat, y: nat): byte
    requires x < w && y < h && |grey| >= w * h
  {
    IdxInGrid(x, y, w, h);
    grey[Idx(x, y, w)]
  }

  /** (x, y) has a full 3×3 neighbourhood in a w×h image. */
  predicate Interior(x: int, y: int, w: nat, h: nat)
  {
    1 <= x < w - 1 && 1 <= y < h - 1
  }

  /** Every read of the 3×3 neighbourhood of an interior pixel is inside the
      greyscale buffer. */
  lemma NeighbourhoodInBounds(w: nat, h: nat, x: int, y: int, dx: int, dy: int)
    requires Interior(x, y, w, h)
    requires -1 <= dx <= 1 && -1 <= dy <= 1
    ensures 0 <= Idx(x + dx, y + dy, w) < w * h
  {
    IdxInGrid(x + dx, y + dy, w, h);
  }

  /** The kernel `k` weighted sum over the 3×3 greyscale neighbourhood of the
      interior pixel (x, y). */
  function Convolve(grey: seq<byte>, w: nat, h: nat, x: nat, y: nat, k: Kernel): int
    requires Interior(x, y, w, h) && |grey| >= w * h
  {
    k[0][0] * GreyAt(grey, w, h, x - 1, y - 1)
    + k[0][1] * GreyAt(grey, w, h, x, y - 1)
    + k[0][2] * GreyAt(grey, w, h, x + 1, y - 1)
    + k[1][0] * GreyAt(grey, w, h, x - 1, y)
    + k[1][1] * GreyAt(grey, w, h, x, y)
    + k[1][2] * GreyAt(grey, w, h, x + 1, y)
    + k[2][0] * GreyAt(grey, w, h, x - 1, y + 1)
    + k[2][1] * GreyAt(grey, w, h, x, y + 1)
    + k[2][2] * GreyAt(grey, w, h, x + 1, y + 1)
  }

  /** The x gradient spelled out: right column minus left column, centre row
      counted twice. */
  lemma SobelXExpanded(grey: seq<byte>, w: nat, h: nat, x: nat, y: nat)
    requires Interior(x, y, w, h) && |grey| >= w * h
    ensures Convolve(grey, w, h, x, y, SobelKernelX())
         == (GreyAt(grey, w, h, x + 1, y - 1) - GreyAt(grey, w, h, x - 1, y - 1))
            + 2 * (GreyAt(grey, w, h, x + 1, y) - GreyAt(grey, w, h, x - 1, y))
            + (GreyAt(grey, w, h, x + 1, y + 1) - GreyAt(grey, w, h, x - 1, y + 1))
  {
    var k := SobelKernelX();
    assert k[0] == [-1, 0, 1] && k[1] == [-2, 0, 2] && k[2] == [-1, 0, 1];
  }

  /** The y gradient spelled out: bottom row minus top row, centre column counted
      twice. */
  lemma SobelYExpanded(grey: seq<byte>, w: nat, h: nat, x: nat, y: nat)
    requires Interior(x, y, w, h) && |grey| >= w * h
    ensures Convolve(grey, w, h, x, y, SobelKernelY())
         == (GreyAt(grey, w, h, x - 1, y + 1) - GreyAt(grey, w, h, x - 1, y - 1))
            + 2 * (GreyAt(grey, w, h, x, y + 1) - GreyAt(grey, w, h, x, y - 1))
            + (GreyAt(grey, w, h, x + 1, y + 1) - GreyAt(grey, w, h, x + 1, y - 1))
  {
    var k := SobelKernelY();
    assert k[0] == [-1, -2, -1] && k[1] == [0, 0, 0] && k[2] == [1, 2, 1];
  }

  /** Largest value of |gx| and |gy| for greyscale bytes. */
  const MAX_GRADIENT: int := 1020
  /** Values of a Rust `i32` lie below this. */
  const I32_LIMIT: int := 0x8000_0000

  /** The Sobel sums lie within ±1020, so `g_x * g_x + g_y * g_y` never overflows an
      `i32`. */
  lemma GradientBounds(grey: seq<byte>, w: nat, h: nat, x: nat, y: nat)
    requires Interior(x, y, w, h) && |grey| >= w * h
    ensures -MAX_GRADIENT <= Convolve(grey, w, h, x, y, SobelKernelX()) <= MAX_GRADIENT
    ensures -MAX_GRADIENT <= Convolve(grey, w, h, x, y, SobelKernelY()) <= MAX_GRADIENT
    ensures var gx, gy := Convolve(grey, w, h, x, y, SobelKernelX()), Convolve(grey, w, h, x, y, SobelKernelY());
      0 <= gx * gx + gy * gy < I32_LIMIT
  {
    var gx, gy := Convolve(grey, w, h, x, y, SobelKernelX()), Convolve(grey, w, h, x, y, SobelKernelY());
    SquareBound(gx, MAX_GRADIENT);
    SquareBound(gy, MAX_GRADIENT);
  }

  lemma SquareBound(a: int, n: int)
    requires 0 <= n && -n <= a <= n
    ensures 0 <= a * a <= n * n
  {
    if a < 0 {
      MulMono(-a, n, -a);
      MulMono(-a, n, n);
    } else {
      MulMono(a, n, a);
      MulMono(a, n, n);
    }
  }

  lemma MulMono(a: nat, b: nat, c: nat)
    requires a <= b
    ensures a * c <= b * c
  {
  }

  /** Integer floor square root. */
  function ISqrt(n: nat): (r: nat)
    ensures r * r <= n < (r + 1) * (r + 1)
  {
    if n < 4 then
      (if n == 0 then 0 else 1)
    else
      var t := ISqrt(n / 4);
      ISqrtStep(n, t);
      if (2 * t + 1) * (2 * t + 1) <= n then 2 * t + 1 else 2 * t
  }

  /** The root of n lies between twice the root of n / 4 and two more than that. */
  lemma ISqrtStep(n: nat, t: nat)
    requires t * t <= n / 4 < (t + 1) * (t + 1)
    ensures (2 * t) * (2 * t) <= n < (2 * t + 2) * (2 * t + 2)
  {
    var q := n / 4;
    assert 4 * q <= n < 4 * q + 4;
    assert (2 * t) * (2 * t) == 4 * (t * t);
    assert (2 * t + 2) * (2 * t + 2) == 4 * ((t + 1) * (t + 1));
  }

  /** Rust's `sqrt(g_x² + g_y²) as u8`: the floor of the square root, saturated at
      255 by the float-to-`u8` cast. For sums below 2^31 the `f64` square root of an
      integer truncates to exactly the integer square root, so no float is needed. */
  function Magnitude(gx: int, gy: int): (m: byte)
    ensures m < 255 ==> m * m <= gx * gx + gy * gy < (m + 1) * (m + 1)
    ensures m == 255 <==> 255 * 255 <= gx * gx + gy * gy
  {
    var s := gx * gx + gy * gy;
    assert s >= 0 by {
      SquareBound(gx, if gx < 0 then -gx else gx);
      SquareBound(gy, if gy < 0 then -gy else gy);
    }
    var r := ISqrt(s);
    if r < 255 then
      MulMono(r + 1, 255, r + 1);
      MulMono(r + 1, 255, 255);
      r
    else
      MulMono(255, r, 255);
      MulMono(255, r, r);
      255
  }

  /** The Sobel gradient magnitude of interior pixel (x, y) of a greyscale image. */
  function EdgeStrength(grey: seq<byte>, w: nat, h: nat, x: nat, y: nat): byte
    requires Interior(x, y, w, h) && |grey| >= w * h
  {
    Magnitude(Convolve(grey, w, h, x, y, SobelKernelX()), Convolve(grey, w, h, x, y, SobelKernelY()))
  }

  /** Index in the output of the magnitude of interior pixel (x, y): the output image
      starts at (1, 1) of the input and is w - 2 pixels wide. */
  function OutputIndex(x: int, y: int, w: nat, h: nat): (q: int)
    requires Interior(x, y, w, h)
    ensures 0 <= q < (w - 2) * (h - 2)
  {
    IdxInGrid(x - 1, y - 1, w - 2, h - 2);
    Idx(x - 1, y - 1, w - 2)
  }

  /** Column of the interior pixel whose magnitude is output cell q: the inverse of
      OutputIndex, with OutputY. */
  function OutputX(q: int, w: nat): int
    requires w > 2
  {
    q % (w - 2) + 1
  }

  /** Row of the interior pixel whose magnitude is output cell q. */
  function OutputY(q: int, w: nat): int
    requires w > 2
  {
    q / (w - 2) + 1
  }

  /** Every output cell q comes from an interior pixel of the input. */
  lemma OutputCell(q: int, w: nat, h: nat)
    requires 2 <= w && 2 <= h && 0 <= q < (w - 2) * (h - 2)
    ensures w > 2 && Interior(OutputX(q, w), OutputY(q, w), w, h)
  {
    CellOfGrid(q, w - 2, h - 2);
  }

  /** The gradient magnitudes of the interior pixels, one byte each, row-major in a
      (w-2)×(h-2) image. */
  function Magnitudes(grey: seq<byte>, w: nat, h: nat): (mags: seq<byte>)
    requires 2 <= w && 2 <= h && |grey| >= w * h
    ensures |mags| == (w - 2) * (h - 2)
  {
    seq((w - 2) * (h - 2), q requires 0 <= q < (w - 2) * (h - 2) =>
      OutputCell(q, w, h);
      EdgeStrength(grey, w, h, OutputX(q, w), OutputY(q, w)))
  }

  /** The map from interior pixels (x, y) to output indices is a bijection onto
      0 .. (w-2)*(h-2): it lands in range, it is one-to-one, and OutputX/OutputY
      invert it. So every output cell is written once and only once. */
  lemma OutputIndexBijective(w: nat, h: nat)
    requires 2 <= w && 2 <= h
    ensures forall x, y :: Interior(x, y, w, h) ==> 0 <= OutputIndex(x, y, w, h) < (w - 2) * (h - 2)
    ensures forall x1, y1, x2, y2 ::
      Interior(x1, y1, w, h) && Interior(x2, y2, w, h) && OutputIndex(x1, y1, w, h) == OutputIndex(x2, y2, w, h)
      ==> x1 == x2 && y1 == y2
    ensures forall q :: 0 <= q < (w - 2) * (h - 2) ==>
      Interior(OutputX(q, w), OutputY(q, w), w, h) && OutputIndex(OutputX(q, w), OutputY(q, w), w, h) == q
  {
    forall x, y | Interior(x, y, w, h)
      ensures 0 <= OutputIndex(x, y, w, h) < (w - 2) * (h - 2)
    {
      IdxInGrid(x - 1, y - 1, w - 2, h - 2);
    }
    forall x1, y1, x2, y2 |
      Interior(x1, y1, w, h) && Interior(x2, y2, w, h) && OutputIndex(x1, y1, w, h) == OutputIndex(x2, y2, w, h)
      ensures x1 == x2 && y1 == y2
    {
      IdxInGrid(x1 - 1, y1 - 1, w - 2, h - 2);
      IdxInGrid(x2 - 1, y2 - 1, w - 2, h - 2);
    }
    forall q | 0 <= q < (w - 2) * (h - 2)
      ensures Interior(OutputX(q, w), OutputY(q, w), w, h) && OutputIndex(OutputX(q, w), OutputY(q, w), w, h) == q
    {
      CellOfGrid(q, w - 2, h - 2);
    }
  }

  /** The output cell of interior pixel (x, y) holds the magnitude of its Sobel
      gradient. */
  lemma MagnitudeAt(grey: seq<byte>, w: nat, h: nat, x: nat, y: nat)
    requires 2 <= w && 2 <= h && |grey| >= w * h
    requires Interior(x, y, w, h)
    ensures 0 <= OutputIndex(x, y, w, h) < (w - 2) * (h - 2)
    ensures Magnitudes(grey, w, h)[OutputIndex(x, y, w, h)] == EdgeStrength(grey, w, h, x, y)
  {
    IdxInGrid(x - 1, y - 1, w - 2, h - 2);
  }

  // ---------------------------------------------------------------------------
  // Back to RGBA

  /** A one-channel image as RGBA: each byte becomes an opaque grey pixel. */
  function OpaqueGrey(g: seq<byte>): (rgba: seq<byte>)
    ensures |rgba| == 4 * |g|
  {
    seq(4 * |g|, i requires 0 <= i < 4 * |g| =>
      if i % 4 == 3 then 255 else g[i / 4])
  }

  /** Pixel p of an RGBA buffer is opaque grey with level g[p]: R = G = B = g[p], A = 255. */
  ghost predicate GreyPixel(rgba: seq<byte>, g: seq<byte>, p: int)
    requires 0 <= p < |g| && 4 * p + 3 < |rgba|
  {
    rgba[4 * p] == g[p] && rgba[4 * p + 1] == g[p] && rgba[4 * p + 2] == g[p] && rgba[4 * p + 3] == 255
  }

  /** Pixel p of OpaqueGrey(g) is opaque grey with level g[p]. */
  lemma OpaqueGreyAt(g: seq<byte>, p: int)
    requires 0 <= p < |g|
    ensures 4 * p + 3 < |OpaqueGrey(g)|
    ensures GreyPixel(OpaqueGrey(g), g, p)
  {
    var rgba := OpaqueGrey(g);
    assert (4 * p) / 4 == p && (4 * p + 1) / 4 == p && (4 * p + 2) / 4 == p;
    assert rgba[4 * p] == g[p] && rgba[4 * p + 1] == g[p] && rgba[4 * p + 2] == g[p];
  }

  // ---------------------------------------------------------------------------
  // The whole filter

  /** The precondition under which `sobel_edge_detect` runs without a panic: the
      subtractions `width - 2`, `height - 2` do not underflow and every pixel read
      lies inside the input. */
  predicate CanDetectEdges(image: seq<byte>, w: nat, h: nat)
  {
    2 <= w && 2 <= h && RgbInBounds(image, w, h)
  }

  /** The edge image of the first w×h pixels of `image`. */
  function EdgeImage(image: seq<byte>, w: nat, h: nat): (out: seq<byte>)
    requires CanDetectEdges(image, w, h)
    ensures |out| == (w - 2) * (h - 2) * 4
  {
    OpaqueGrey(Magnitudes(Greyscale(image, w, h), w, h))
  }

  /** Output pixel (x-1, y-1) of the edge image is opaque grey, its grey level the
      gradient magnitude of input pixel (x, y), saturated at 255. */
  lemma EdgeImageAt(image: seq<byte>, w: nat, h: nat, x: nat, y: nat)
    requires CanDetectEdges(image, w, h)
    requires Interior(x, y, w, h)
    ensures 0 <= OutputIndex(x, y, w, h) < (w - 2) * (h - 2)
    ensures var out, q, grey := EdgeImage(image, w, h), OutputIndex(x, y, w, h), Greyscale(image, w, h);
      var m := EdgeStrength(grey, w, h, x, y);
      out[4 * q] == m && out[4 * q + 1] == m && out[4 * q + 2] == m && out[4 * q + 3] == 255
  {
    var grey := Greyscale(image, w, h);
    var mags := Magnitudes(grey, w, h);
    MagnitudeAt(grey, w, h, x, y);
    var out, q := EdgeImage(image, w, h), OutputIndex(x, y, w, h);
    assert out == OpaqueGrey(mags);
    OpaqueGreyAt(mags, q);
  }

  /** Every pixel of the edge image is opaque grey. */
  lemma EdgeImageIsOpaqueGrey(image: seq<byte>, w: nat, h: nat)
    requires CanDetectEdges(image, w, h)
    ensures forall p :: 0 <= p < (w - 2) * (h - 2) ==>
      GreyPixel(EdgeImage(image, w, h), Magnitudes(Greyscale(image, w, h), w, h), p)
  {
    var mags := Magnitudes(Greyscale(image, w, h), w, h);
    assert EdgeImage(image, w, h) == OpaqueGrey(mags);
    forall p | 0 <= p < (w - 2) * (h - 2)
      ensures GreyPixel(EdgeImage(image, w, h), mags, p)
    {
      OpaqueGreyAt(mags, p);
    }
  }

  /** Every pixel of the image has the same red, green and blue bytes. */
  predicate UniformColour(image: seq<byte>, w: nat, h: nat)
    requires RgbInBounds(image, w, h)
  {
    forall p :: 0 <= p < w * h ==>
      image[4 * p] == image[0] && image[4 * p + 1] == image[1] && image[4 * p + 2] == image[2]
  }

  /** A uniform image has a uniform greyscale. */
  lemma UniformGreyscale(image: seq<byte>, w: nat, h: nat)
    requires RgbInBounds(image, w, h) && UniformColour(image, w, h) && w * h > 0
    ensures forall p :: 0 <= p < w * h ==> Greyscale(image, w, h)[p] == Greyscale(image, w, h)[0]
  {
    forall p | 0 <= p < w * h
      ensures Greyscale(image, w, h)[p] == Greyscale(image, w, h)[0]
    {
      assert image[4 * p] == image[0] && image[4 * p + 1] == image[1] && image[4 * p + 2] == image[2];
    }
  }

  /** In a flat greyscale image every pixel reads as the first one. */
  lemma FlatAt(grey: seq<byte>, w: nat, h: nat, x: nat, y: nat)
    requires x < w && y < h && |grey| >= w * h
    requires forall p :: 0 <= p < w * h ==> grey[p] == grey[0]
    ensures GreyAt(grey, w, h, x, y) == grey[0]
  {
    IdxInGrid(x, y, w, h);
  }

  /** A zero gradient has magnitude 0. */
  lemma NoGradientNoMagnitude()
    ensures Magnitude(0, 0) == 0
  {
  }

  /** Both Sobel sums vanish on a flat neighbourhood, so its edge strength is 0. */
  lemma FlatNeighbourhoodHasNoEdge(grey: seq<byte>, w: nat, h: nat, x: nat, y: nat)
    requires Interior(x, y, w, h) && |grey| >= w * h
    requires forall p :: 0 <= p < w * h ==> grey[p] == grey[0]
    ensures EdgeStrength(grey, w, h, x, y) == 0
  {
    FlatAt(grey, w, h, x - 1, y - 1);
    FlatAt(grey, w, h, x, y - 1);
    FlatAt(grey, w, h, x + 1, y - 1);
    FlatAt(grey, w, h, x - 1, y);
    FlatAt(grey, w, h, x + 1, y);
    FlatAt(grey, w, h, x - 1, y + 1);
    FlatAt(grey, w, h, x, y + 1);
    FlatAt(grey, w, h, x + 1, y + 1);
    SobelXExpanded(grey, w, h, x, y);
    SobelYExpanded(grey, w, h, x, y);
    assert Convolve(grey, w, h, x, y, SobelKernelX()) == 0;
    assert Convolve(grey, w, h, x, y, SobelKernelY()) == 0;
    NoGradientNoMagnitude();
  }

  /** An image of one colour (any alpha) has no edges: every output pixel is opaque
      black. */
  lemma UniformImageHasNoEdges(image: seq<byte>, w: nat, h: nat)
    requires CanDetectEdges(image, w, h)
    requires UniformColour(image, w, h)
    ensures var out := EdgeImage(image, w, h);
      forall i :: 0 <= i < |out| ==> out[i] == if i % 4 == 3 then 255 else 0
  {
    var grey := Greyscale(image, w, h);
    var mags := Magnitudes(grey, w, h);
    forall q | 0 <= q < (w - 2) * (h - 2)
      ensures mags[q] == 0
    {
      OutputCell(q, w, h);
      UniformGreyscale(image, w, h);
      FlatNeighbourhoodHasNoEdge(grey, w, h, OutputX(q, w), OutputY(q, w));
    }
    var out := EdgeImage(image, w, h);
    assert out == OpaqueGrey(mags);
    forall i | 0 <= i < |out|
      ensures out[i] == if i % 4 == 3 then 255 else 0
    {
      var p := i / 4;
      assert 4 * p <= i < 4 * p + 4 && 0 <= p < |mags|;
      OpaqueGreyAt(mags, p);
    }
  }


  // ---------------------------------------------------------------------------
  // The imperative filter, loop by loop as the crate runs it

  /** `convert_to_greyscale`: fills a w×h buffer column by column. */
  method ConvertToGreyscale(image: seq<byte>, w: nat, h: nat) returns (grey: seq<byte>)
    requires RgbInBounds(image, w, h)
    ensures grey == Greyscale(image, w, h)
  {
    ghost var spec := Greyscale(image, w, h);
    var buf := new byte[w * h];
    forall p | 0 <= p < w * h
      ensures !VisitedBefore(p, w, 0, 0)
    {
      NoneVisitedAtStart(p, w, h);
    }
    for x := 0 to w
      invariant forall p :: 0 <= p < w * h && VisitedBefore(p, w, x, 0) ==> buf[p] == spec[p]
    {
      for y := 0 to h
        invariant forall p :: 0 <= p < w * h && VisitedBefore(p, w, x, y) ==> buf[p] == spec[p]
      {
        IdxInGrid(x, y, w, h);
        var greyIdx := Idx(x, y, w);
        var originalIdx := greyIdx * 4;
        buf[greyIdx] := GreyValue(image[originalIdx], image[originalIdx + 1], image[originalIdx + 2]);
        forall p | 0 <= p < w * h && VisitedBefore(p, w, x, y + 1)
          ensures buf[p] == spec[p]
        {
          if p != greyIdx {
            VisitStep(p, w, h, x, y);
          }
        }
      }
      forall p | 0 <= p < w * h && VisitedBefore(p, w, x + 1, 0)
        ensures buf[p] == spec[p]
      {
        ColumnDone(p, w, h, x);
      }
    }
    forall p | 0 <= p < w * h
      ensures buf[p] == spec[p]
    {
      AllVisited(p, w, h);
    }
    grey := buf[..];
  }

  /** A buffer four times as long as `g` whose every pixel p is opaque grey of
      level g[p] is OpaqueGrey(g). */
  lemma OpaqueGreyByPixels(rgba: seq<byte>, g: seq<byte>)
    requires |rgba| == 4 * |g|
    requires forall p :: 0 <= p < |g| ==> GreyPixel(rgba, g, p)
    ensures rgba == OpaqueGrey(g)
  {
    var spec := OpaqueGrey(g);
    forall i | 0 <= i < |rgba|
      ensures rgba[i] == spec[i]
    {
      var p, k := i / 4, i % 4;
      assert i == 4 * p + k && 0 <= p < |g|;
      assert GreyPixel(rgba, g, p);
      assert spec[i] == if k == 3 then 255 else g[p];
      if k == 0 {
        assert rgba[i] == rgba[4 * p];
      } else if k == 1 {
        assert rgba[i] == rgba[4 * p + 1];
      } else if k == 2 {
        assert rgba[i] == rgba[4 * p + 2];
      }
    }
  }

  /** Writing pixel (x, y) as opaque grey keeps every earlier pixel and adds (x, y)
      to the pixels already converted. */
  lemma GreyPixelWritten(before: seq<byte>, after: seq<byte>, input: seq<byte>, w: nat, h: nat, x: nat, y: nat)
    requires x < w && y < h && |input| >= w * h && |before| == w * h * 4
    requires forall p :: 0 <= p < w * h && VisitedBefore(p, w, x, y) ==> GreyPixel(before, input, p)
    requires 4 * Idx(x, y, w) + 3 < |before|
    requires after == before[4 * Idx(x, y, w) := input[Idx(x, y, w)]][4 * Idx(x, y, w) + 1 := input[Idx(x, y, w)]]
      [4 * Idx(x, y, w) + 2 := input[Idx(x, y, w)]][4 * Idx(x, y, w) + 3 := 255]
    ensures forall p :: 0 <= p < w * h && VisitedBefore(p, w, x, y + 1) ==> GreyPixel(after, input, p)
  {
    forall p | 0 <= p < w * h && VisitedBefore(p, w, x, y + 1)
      ensures GreyPixel(after, input, p)
    {
      if p != Idx(x, y, w) {
        VisitStep(p, w, h, x, y);
        assert GreyPixel(before, input, p);
      }
    }
  }

  /** After column x, the pixels converted are those of the columns up to x. */
  lemma GreyColumnDone(buf: seq<byte>, input: seq<byte>, w: nat, h: nat, x: nat)
    requires |input| >= w * h && |buf| == w * h * 4
    requires forall p :: 0 <= p < w * h && VisitedBefore(p, w, x, h) ==> GreyPixel(buf, input, p)
    ensures forall p :: 0 <= p < w * h && VisitedBefore(p, w, x + 1, 0) ==> GreyPixel(buf, input, p)
  {
    forall p | 0 <= p < w * h && VisitedBefore(p, w, x + 1, 0)
      ensures GreyPixel(buf, input, p)
    {
      ColumnDone(p, w, h, x);
    }
  }

  /** Once every pixel has been converted, the buffer is the opaque grey image. */
  lemma AllGreyPixels(output: seq<byte>, input: seq<byte>, w: nat, h: nat)
    requires |input| >= w * h && |output| == w * h * 4
    requires forall p :: 0 <= p < w * h && VisitedBefore(p, w, w, 0) ==> GreyPixel(output, input, p)
    ensures output == OpaqueGrey(input[..w * h])
  {
    forall p | 0 <= p < w * h
      ensures GreyPixel(output, input[..w * h], p)
    {
      AllVisited(p, w, h);
    }
    OpaqueGreyByPixels(output, input[..w * h]);
  }

  /** `convert_to_num_channels`: expands the first w×h bytes of a one-channel image
      to opaque grey RGBA, column by column. */
  method ConvertToNumChannels(input: seq<byte>, w: nat, h: nat) returns (output: seq<byte>)
    requires |input| >= w * h
    ensures output == OpaqueGrey(input[..w * h])
  {
    var buf := new byte[w * h * 4];
    forall p | 0 <= p < w * h
      ensures !VisitedBefore(p, w, 0, 0)
    {
      NoneVisitedAtStart(p, w, h);
    }
    for x := 0 to w
      invariant forall p :: 0 <= p < w * h && VisitedBefore(p, w, x, 0) ==> GreyPixel(buf[..], input, p)
    {
      for y := 0 to h
        invariant forall p :: 0 <= p < w * h && VisitedBefore(p, w, x, y) ==> GreyPixel(buf[..], input, p)
      {
        IdxInGrid(x, y, w, h);
        var inputIdx := Idx(x, y, w);
        var outputIdx := inputIdx * 4;
        assert outputIdx + 3 < buf.Length;
        ghost var before := buf[..];
        buf[outputIdx] := input[inputIdx];
        buf[outputIdx + 1] := input[inputIdx];
        buf[outputIdx + 2] := input[inputIdx];
        buf[outputIdx + 3] := 255;
        GreyPixelWritten(before, buf[..], input, w, h, x, y);
      }
      GreyColumnDone(buf[..], input, w, h, x);
    }
    output := buf[..];
    AllGreyPixels(output, input, w, h);
  }


  /** `sobel_edge_detect`: greyscale, then the gradient magnitude of every interior
      pixel into a (w-2)×(h-2) buffer, then back to RGBA. */
  method SobelEdgeDetect(image: seq<byte>, w: nat, h: nat) returns (out: seq<byte>)
    requires CanDetectEdges(image, w, h)
    ensures out == EdgeImage(image, w, h)
  {
    var sobelX := SobelKernelX();
    var sobelY := SobelKernelY();
    var grey := ConvertToGreyscale(image, w, h);
    ghost var spec := Magnitudes(grey, w, h);

    // The border pixels have no output cell.
    var outW, outH := w - 2, h - 2;
    var buf := new byte[outW * outH];
    forall q | 0 <= q < outW * outH
      ensures !VisitedBefore(q, outW, 0, 0)
    {
      NoneVisitedAtStart(q, outW, outH);
    }
    for x := 1 to w - 1
      invariant forall q :: 0 <= q < outW * outH && VisitedBefore(q, outW, x - 1, 0) ==> buf[q] == spec[q]
    {
      for y := 1 to h - 1
        invariant forall q :: 0 <= q < outW * outH && VisitedBefore(q, outW, x - 1, y - 1) ==> buf[q] == spec[q]
      {
        var gx := Convolve(grey, w, h, x, y, sobelX);
        var gy := Convolve(grey, w, h, x, y, sobelY);
        var magnitude := Magnitude(gx, gy);
        assert magnitude == EdgeStrength(grey, w, h, x, y);
        MagnitudeAt(grey, w, h, x, y);
        var outputIdx := OutputIndex(x, y, w, h);
        buf[outputIdx] := magnitude;
        forall q | 0 <= q < outW * outH && VisitedBefore(q, outW, x - 1, y)
          ensures buf[q] == spec[q]
        {
          if q != outputIdx {
            VisitStep(q, outW, outH, x - 1, y - 1);
          }
        }
      }
      forall q | 0 <= q < outW * outH && VisitedBefore(q, outW, x, 0)
        ensures buf[q] == spec[q]
      {
        ColumnDone(q, outW, outH, x - 1);
      }
    }
    forall q | 0 <= q < outW * outH
      ensures buf[q] == spec[q]
    {
      AllVisited(q, outW, outH);
    }
    assert buf[..] == spec;
    out := ConvertToNumChannels(buf[..], outW, outH);
    assert buf[..][..outW * outH] == spec;
  }
}

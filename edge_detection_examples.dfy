/** The crate's unit tests, as lemmas about the model: the greyscale of a strip of
    colours, and the edges found in two two-colour 5×5 images. The test images are
    written pixel by pixel (the bytes of the crate's tests, four to a pixel). */
module EdgeDetectionExamples {
  import opened Pixels
  import opened EdgeDetection

  /** One RGBA pixel. */
  datatype Colour = Colour(r: byte, g: byte, b: byte, a: byte)

  const Black := Colour(0, 0, 0, 255)
  const Red := Colour(255, 0, 0, 255)
  const Green := Colour(0, 255, 0, 255)
  const Blue := Colour(0, 0, 255, 255)
  const White := Colour(255, 255, 255, 255)

  /** Channel k (0 R, 1 G, 2 B, 3 A) of a pixel. */
  function Channel(c: Colour, k: int): byte
  {
    if k == 0 then c.r else if k == 1 then c.g else if k == 2 then c.b else c.a
  }

  /** The RGBA bytes of a sequence of pixels, four per pixel. */
  function Rgba(px: seq<Colour>): (image: seq<byte>)
    ensures |image| == 4 * |px|
  {
    seq(4 * |px|, i requires 0 <= i < 4 * |px| => Channel(px[i / 4], i % 4))
  }

  /** Bytes 4p .. 4p+3 of Rgba(px) are the channels of pixel p. */
  lemma RgbaAt(px: seq<Colour>, p: int)
    requires 0 <= p < |px|
    ensures 4 * p + 3 < |Rgba(px)|
    ensures Rgba(px)[4 * p] == px[p].r && Rgba(px)[4 * p + 1] == px[p].g
    ensures Rgba(px)[4 * p + 2] == px[p].b && Rgba(px)[4 * p + 3] == px[p].a
  {
    assert (4 * p) / 4 == p && (4 * p + 1) / 4 == p && (4 * p + 2) / 4 == p && (4 * p + 3) / 4 == p;
  }

  /** The greyscale of pixel p of Rgba(px) is the weighted value of its colour. */
  lemma GreyscaleOfRgba(px: seq<Colour>, w: nat, h: nat, p: int)
    requires |px| == w * h && 0 <= p < w * h
    ensures Greyscale(Rgba(px), w, h)[p] == GreyValue(px[p].r, px[p].g, px[p].b)
  {
    assert |Rgba(px)| == w * h * 4;
    RgbaAt(px, p);
  }

  // The weighted values of the test colours, one lemma each.

  lemma BlackGrey(c: Colour)
    requires c.r == 0 && c.g == 0 && c.b == 0
    ensures GreyValue(c.r, c.g, c.b) == 0
  {
  }

  lemma RedGrey()
    ensures GreyValue(255, 0, 0) == 76
  {
  }

  lemma GreenGrey()
    ensures GreyValue(0, 255, 0) == 149
  {
  }

  lemma BlueGrey()
    ensures GreyValue(0, 0, 255) == 29
  {
  }

  lemma WhiteGrey()
    ensures GreyValue(255, 255, 255) == 255
  {
  }

  // The greyscale test

  /** Two black pixels (the second with alpha 25), then two each of red, green, blue
      and white, in a 2×5 image. */
  function ColourStripPixels(): (px: seq<Colour>)
    ensures |px| == 2 * 5
  {
    [Black, Colour(0, 0, 0, 25), Red, Red, Green, Green, Blue, Blue, White, White]
  }

  /** The greyscale the crate's test expects of the strip. */
  function ColourStripGreys(): (grey: seq<byte>)
    ensures |grey| == 2 * 5
  {
    [0, 0, 76, 76, 149, 149, 29, 29, 255, 255]
  }

  // The strip row by row.

  /** Pixel p of an image of pixels is black in greyscale when its colour channels are
      0, whatever its alpha. */
  lemma BlackPixelGrey(px: seq<Colour>, w: nat, h: nat, p: int)
    requires |px| == w * h && 0 <= p < w * h
    requires px[p].r == 0 && px[p].g == 0 && px[p].b == 0
    ensures Greyscale(Rgba(px), w, h)[p] == 0
  {
    GreyscaleOfRgba(px, w, h, p);
    BlackGrey(px[p]);
  }

  lemma ColourStripBlackRow(image: seq<byte>)
    requires image == Rgba(ColourStripPixels())
    ensures Greyscale(image, 2, 5)[0] == 0 && Greyscale(image, 2, 5)[1] == 0
  {
    BlackPixelGrey(ColourStripPixels(), 2, 5, 0);
    BlackPixelGrey(ColourStripPixels(), 2, 5, 1);
  }

  lemma ColourStripRedRow(image: seq<byte>)
    requires image == Rgba(ColourStripPixels())
    ensures Greyscale(image, 2, 5)[2] == 76 && Greyscale(image, 2, 5)[3] == 76
  {
    var px := ColourStripPixels();
    GreyscaleOfRgba(px, 2, 5, 2);
    GreyscaleOfRgba(px, 2, 5, 3);
    RedGrey();
  }

  lemma ColourStripGreenRow(image: seq<byte>)
    requires image == Rgba(ColourStripPixels())
    ensures Greyscale(image, 2, 5)[4] == 149 && Greyscale(image, 2, 5)[5] == 149
  {
    var px := ColourStripPixels();
    GreyscaleOfRgba(px, 2, 5, 4);
    GreyscaleOfRgba(px, 2, 5, 5);
    GreenGrey();
  }

  lemma ColourStripBlueRow(image: seq<byte>)
    requires image == Rgba(ColourStripPixels())
    ensures Greyscale(image, 2, 5)[6] == 29 && Greyscale(image, 2, 5)[7] == 29
  {
    var px := ColourStripPixels();
    GreyscaleOfRgba(px, 2, 5, 6);
    GreyscaleOfRgba(px, 2, 5, 7);
    BlueGrey();
  }

  lemma ColourStripWhiteRow(image: seq<byte>)
    requires image == Rgba(ColourStripPixels())
    ensures Greyscale(image, 2, 5)[8] == 255 && Greyscale(image, 2, 5)[9] == 255
  {
    var px := ColourStripPixels();
    GreyscaleOfRgba(px, 2, 5, 8);
    GreyscaleOfRgba(px, 2, 5, 9);
    WhiteGrey();
  }

  /** Black stays 0 whatever its alpha, pure red, green and blue weigh 76, 149 and 29,
      white stays 255. */
  lemma ColourStripGreyscale(image: seq<byte>)
    requires image == Rgba(ColourStripPixels())
    ensures Greyscale(image, 2, 5) == ColourStripGreys()
  {
    var g := Greyscale(image, 2, 5);
    ColourStripBlackRow(image);
    ColourStripRedRow(image);
    ColourStripGreenRow(image);
    ColourStripBlueRow(image);
    ColourStripWhiteRow(image);
    StripOfTen(g);
  }

  /** A sequence of ten levels that agrees with the expected strip at every index is
      the expected strip. */
  lemma StripOfTen(g: seq<byte>)
    requires |g| == 10 && g[0] == 0 && g[1] == 0 && g[2] == 76 && g[3] == 76
    requires g[4] == 149 && g[5] == 149 && g[6] == 29 && g[7] == 29 && g[8] == 255 && g[9] == 255
    ensures g == ColourStripGreys()
  {
  }

  // The edge tests

  /** In a 5×5 image: the top two rows red, the other three green. */
  function RedOverGreen(): (px: seq<Colour>)
    ensures |px| == 5 * 5
  {
    seq(25, p => if p / 5 < 2 then Red else Green)
  }

  /** In a 5×5 image: the left two columns green, the other three blue. */
  function GreenBesideBlue(): (px: seq<Colour>)
    ensures |px| == 5 * 5
  {
    seq(25, p => if p % 5 < 2 then Green else Blue)
  }

  /** A gradient of 4 × 73 (red against green) or 4 × 120 (green against blue)
      saturates, no gradient gives 0. */
  lemma TestMagnitudes()
    ensures Magnitude(0, 292) == 255 && Magnitude(-480, 0) == 255 && Magnitude(0, 0) == 0
  {
    NoGradientNoMagnitude();
  }

  /** The greyscale of RedOverGreen, pixel by pixel: 76 above row 2, 149 from it on. */
  lemma RedOverGreenGrey(x: nat, y: nat)
    requires x < 5 && y < 5
    ensures GreyAt(Greyscale(Rgba(RedOverGreen()), 5, 5), 5, 5, x, y) == if y < 2 then 76 else 149
  {
    IdxInGrid(x, y, 5, 5);
    GreyscaleOfRgba(RedOverGreen(), 5, 5, Idx(x, y, 5));
    RedGrey();
    GreenGrey();
  }

  /** The greyscale of GreenBesideBlue, pixel by pixel: 149 left of column 2, 29 from
      it on. */
  lemma GreenBesideBlueGrey(x: nat, y: nat)
    requires x < 5 && y < 5
    ensures GreyAt(Greyscale(Rgba(GreenBesideBlue()), 5, 5), 5, 5, x, y) == if x < 2 then 149 else 29
  {
    IdxInGrid(x, y, 5, 5);
    GreyscaleOfRgba(GreenBesideBlue(), 5, 5, Idx(x, y, 5));
    GreenGrey();
    BlueGrey();
  }

  /** A 5×5 greyscale image whose top two rows have level a and the rest level b. */
  ghost predicate HorizontalBands(grey: seq<byte>, a: byte, b: byte)
  {
    |grey| == 25 && forall i, j :: 0 <= i < 5 && 0 <= j < 5 ==> GreyAt(grey, 5, 5, i, j) == if j < 2 then a else b
  }

  /** A 5×5 greyscale image whose left two columns have level a and the rest level b. */
  ghost predicate VerticalBands(grey: seq<byte>, a: byte, b: byte)
  {
    |grey| == 25 && forall i, j :: 0 <= i < 5 && 0 <= j < 5 ==> GreyAt(grey, 5, 5, i, j) == if i < 2 then a else b
  }

  /** Across horizontal bands there is no x gradient; the y gradient is 4(b - a) on the
      two rows whose neighbourhood straddles the boundary and 0 below them. */
  lemma HorizontalBandsGradient(grey: seq<byte>, a: byte, b: byte, x: nat, y: nat)
    requires HorizontalBands(grey, a, b) && Interior(x, y, 5, 5)
    ensures Convolve(grey, 5, 5, x, y, SobelKernelX()) == 0
    ensures Convolve(grey, 5, 5, x, y, SobelKernelY()) == if y < 3 then 4 * (b - a) else 0
  {
    SobelXExpanded(grey, 5, 5, x, y);
    SobelYExpanded(grey, 5, 5, x, y);
  }

  /** Across vertical bands there is no y gradient; the x gradient is 4(b - a) on the
      two columns whose neighbourhood straddles the boundary and 0 right of them. */
  lemma VerticalBandsGradient(grey: seq<byte>, a: byte, b: byte, x: nat, y: nat)
    requires VerticalBands(grey, a, b) && Interior(x, y, 5, 5)
    ensures Convolve(grey, 5, 5, x, y, SobelKernelX()) == if x < 3 then 4 * (b - a) else 0
    ensures Convolve(grey, 5, 5, x, y, SobelKernelY()) == 0
  {
    SobelXExpanded(grey, 5, 5, x, y);
    SobelYExpanded(grey, 5, 5, x, y);
  }

  /** The greyscale of RedOverGreen is two bands: red's 76 above green's 149. */
  lemma RedOverGreenBands()
    ensures HorizontalBands(Greyscale(Rgba(RedOverGreen()), 5, 5), 76, 149)
  {
    var grey := Greyscale(Rgba(RedOverGreen()), 5, 5);
    forall i, j | 0 <= i < 5 && 0 <= j < 5
      ensures GreyAt(grey, 5, 5, i, j) == if j < 2 then 76 else 149
    {
      RedOverGreenGrey(i, j);
    }
  }

  /** The greyscale of GreenBesideBlue is two bands: green's 149 left of blue's 29. */
  lemma GreenBesideBlueBands()
    ensures VerticalBands(Greyscale(Rgba(GreenBesideBlue()), 5, 5), 149, 29)
  {
    var grey := Greyscale(Rgba(GreenBesideBlue()), 5, 5);
    forall i, j | 0 <= i < 5 && 0 <= j < 5
      ensures GreyAt(grey, 5, 5, i, j) == if i < 2 then 149 else 29
    {
      GreenBesideBlueGrey(i, j);
    }
  }

  /** The output cell of interior pixel (x, y) of red-over-green bands: white on the
      two rows next to the boundary, black on the last row. */
  lemma RedOverGreenCell(grey: seq<byte>, x: nat, y: nat)
    requires HorizontalBands(grey, 76, 149) && Interior(x, y, 5, 5)
    ensures 0 <= OutputIndex(x, y, 5, 5) < |Magnitudes(grey, 5, 5)|
    ensures Magnitudes(grey, 5, 5)[OutputIndex(x, y, 5, 5)] == if y < 3 then 255 else 0
  {
    MagnitudeAt(grey, 5, 5, x, y);
    HorizontalBandsGradient(grey, 76, 149, x, y);
    TestMagnitudes();
  }

  /** The output cell of interior pixel (x, y) of green-beside-blue bands: white on the
      two columns next to the boundary, black on the last column. */
  lemma GreenBesideBlueCell(grey: seq<byte>, x: nat, y: nat)
    requires VerticalBands(grey, 149, 29) && Interior(x, y, 5, 5)
    ensures 0 <= OutputIndex(x, y, 5, 5) < |Magnitudes(grey, 5, 5)|
    ensures Magnitudes(grey, 5, 5)[OutputIndex(x, y, 5, 5)] == if x < 3 then 255 else 0
  {
    MagnitudeAt(grey, 5, 5, x, y);
    VerticalBandsGradient(grey, 149, 29, x, y);
    TestMagnitudes();
  }

  /** A sequence of nine levels that agrees with `expected` at every index is
      `expected`. */
  lemma NineLevels(mags: seq<byte>, expected: seq<byte>)
    requires |mags| == 9 && |expected| == 9
    requires forall q :: 0 <= q < 9 ==> mags[q] == expected[q]
    ensures mags == expected
  {
  }

  /** Every output cell of red-over-green bands: the two rows next to the boundary
      are white, the last row black. */
  lemma RedOverGreenCells(grey: seq<byte>)
    requires HorizontalBands(grey, 76, 149)
    ensures |Magnitudes(grey, 5, 5)| == 9
    ensures forall q :: 0 <= q < 9 ==> Magnitudes(grey, 5, 5)[q] == if q < 6 then 255 else 0
  {
    forall q | 0 <= q < 9
      ensures Magnitudes(grey, 5, 5)[q] == if q < 6 then 255 else 0
    {
      var x, y := q % 3 + 1, q / 3 + 1;
      RedOverGreenCell(grey, x, y);
      assert OutputIndex(x, y, 5, 5) == q;
    }
  }

  /** Every output cell of green-beside-blue bands: the two columns next to the
      boundary are white, the last column black. */
  lemma GreenBesideBlueCells(grey: seq<byte>)
    requires VerticalBands(grey, 149, 29)
    ensures |Magnitudes(grey, 5, 5)| == 9
    ensures forall q :: 0 <= q < 9 ==> Magnitudes(grey, 5, 5)[q] == if q % 3 < 2 then 255 else 0
  {
    forall q | 0 <= q < 9
      ensures Magnitudes(grey, 5, 5)[q] == if q % 3 < 2 then 255 else 0
    {
      var x, y := q % 3 + 1, q / 3 + 1;
      GreenBesideBlueCell(grey, x, y);
      assert OutputIndex(x, y, 5, 5) == q;
    }
  }

  /** The magnitudes of the test's bands, as the crate's test expects them. */
  lemma RedOverGreenMagnitudes(grey: seq<byte>)
    requires HorizontalBands(grey, 76, 149)
    ensures Magnitudes(grey, 5, 5) == [255, 255, 255, 255, 255, 255, 0, 0, 0]
  {
    RedOverGreenCells(grey);
    NineLevels(Magnitudes(grey, 5, 5), [255, 255, 255, 255, 255, 255, 0, 0, 0]);
  }

  /** The horizontal edge between rows 1 and 2 shows as two rows of white above a row
      of black. */
  lemma HorizontalEdgeDetected()
    ensures EdgeImage(Rgba(RedOverGreen()), 5, 5) == OpaqueGrey([255, 255, 255, 255, 255, 255, 0, 0, 0])
  {
    RedOverGreenBands();
    RedOverGreenMagnitudes(Greyscale(Rgba(RedOverGreen()), 5, 5));
  }

  /** Three rows of white, white, black. */
  lemma WhiteWhiteBlackColumns()
    ensures seq(9, q => if q % 3 < 2 then 255 else 0) == [255, 255, 0, 255, 255, 0, 255, 255, 0]
  {
  }

  /** The magnitudes of the test's bands, as the crate's test expects them. */
  lemma GreenBesideBlueMagnitudes(grey: seq<byte>)
    requires VerticalBands(grey, 149, 29)
    ensures Magnitudes(grey, 5, 5) == [255, 255, 0, 255, 255, 0, 255, 255, 0]
  {
    GreenBesideBlueCells(grey);
    var columns: seq<byte> := seq(9, q => if q % 3 < 2 then 255 else 0);
    assert Magnitudes(grey, 5, 5) == columns;
    WhiteWhiteBlackColumns();
  }

  /** The vertical edge between columns 1 and 2 shows as two columns of white beside a
      column of black. */
  lemma VerticalEdgeDetected()
    ensures EdgeImage(Rgba(GreenBesideBlue()), 5, 5) == OpaqueGrey([255, 255, 0, 255, 255, 0, 255, 255, 0])
  {
    GreenBesideBlueBands();
    GreenBesideBlueMagnitudes(Greyscale(Rgba(GreenBesideBlue()), 5, 5));
  }
}

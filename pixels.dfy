/** Byte buffers and the row-major index arithmetic shared by the filters.

    An RGBA buffer has four channels per pixel (R, G, B, A, the crate's
    `NUM_CHANNELS`); the channel count is written as the literal 4 throughout, so
    that index arithmetic on it stays linear for the verifier. */
module Pixels {

  /** An unsigned 8-bit value: a Rust `u8`, an element of a JavaScript `Uint8Array`. */
  type byte = x: int | 0 <= x < 256

  /** Row-major index of pixel (x, y) in an image `w` pixels wide. */
  function Idx(x: int, y: int, w: int): int
  {
    y * w + x
  }

  /** The nested `for x in 0..w { for y in 0..h { … } }` loops, standing at (x, y),
      have already visited cell `p` of a row-major buffer `w` cells wide. */
  predicate VisitedBefore(p: int, w: nat, x: int, y: int)
  {
    w > 0 && (p % w < x || (p % w == x && p / w < y))
  }

  lemma MulAtLeast(a: int, b: nat)
    requires a >= 1
    ensures a * b >= b
  {
  }

  /** Euclidean division is determined by quotient and remainder. */
  lemma DivModUnique(i: int, w: nat, q: int, r: int)
    requires w > 0 && 0 <= r < w && i == q * w + r
    ensures i / w == q && i % w == r
  {
    var q', r' := i / w, i % w;
    assert (q - q') * w == r' - r;
    if q > q' {
      MulAtLeast(q - q', w);
    } else if q < q' {
      MulAtLeast(q' - q, w);
    }
  }

  /** Pixel (x, y) of a w×h image has an index inside the buffer, from which x and y
      are recovered by remainder and quotient. */
  lemma IdxInGrid(x: int, y: int, w: nat, h: nat)
    requires 0 <= x < w && 0 <= y < h
    ensures 0 <= Idx(x, y, w) < w * h
    ensures Idx(x, y, w) / w == y && Idx(x, y, w) % w == x
  {
    MulAtLeast(h - y, w);
    assert (h - y) * w == h * w - y * w;
    DivModUnique(Idx(x, y, w), w, y, x);
  }

  /** Every index of a w×h buffer is the index of a pixel of the image. */
  lemma CellOfGrid(p: int, w: nat, h: nat)
    requires 0 <= p < w * h
    ensures w > 0 && 0 <= p % w < w && 0 <= p / w < h
    ensures Idx(p % w, p / w, w) == p
  {
  }

  // The nested loops over a w×h buffer, one step at a time.

  /** Before the loops start, no cell has been visited. */
  lemma NoneVisitedAtStart(p: int, w: nat, h: nat)
    requires 0 <= p < w * h
    ensures !VisitedBefore(p, w, 0, 0)
  {
    CellOfGrid(p, w, h);
  }

  /** Visiting (x, y) adds exactly the cell Idx(x, y, w). */
  lemma VisitStep(p: int, w: nat, h: nat, x: nat, y: nat)
    requires 0 <= p < w * h && x < w && y < h
    requires VisitedBefore(p, w, x, y + 1) && p != Idx(x, y, w)
    ensures VisitedBefore(p, w, x, y)
  {
    CellOfGrid(p, w, h);
  }

  /** Once the inner loop has run through a whole column x, the cells visited are
      those of the columns before x + 1. */
  lemma ColumnDone(p: int, w: nat, h: nat, x: nat)
    requires 0 <= p < w * h && VisitedBefore(p, w, x + 1, 0)
    ensures VisitedBefore(p, w, x, h)
  {
    CellOfGrid(p, w, h);
  }

  /** After the last column every cell has been visited. */
  lemma AllVisited(p: int, w: nat, h: nat)
    requires 0 <= p < w * h
    ensures VisitedBefore(p, w, w, 0)
  {
    CellOfGrid(p, w, h);
  }
}

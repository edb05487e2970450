/** The pixel canvas: a flat, row-major RGB byte buffer of `width * height`
    pixels, three bytes each, written one pixel or one vertical line at a
    time. */
module Canvas {
  import opened Numeric

  function Max(a: int, b: int): int { if a >= b then a else b }
  function Min(a: int, b: int): int { if a <= b then a else b }

  /** Number of the pixel at column `x` of row `y`; its bytes start at
      three times this number. */
  function PixelIndex(width: int, x: int, y: int): int { width * y + x }

  /** The byte written at buffer offset `k` when a pixel is set to
      `(c1, c2, c3)`: red, green and blue in that order. */
  function Channel(k: int, c1: u8, c2: u8, c3: u8): u8 {
    if k % 3 == 0 then c1 else if k % 3 == 1 then c2 else c3
  }

  /** Buffer `s` after pixel number `p` is set to `(c1, c2, c3)`. */
  function WithPixel(s: seq<u8>, p: int, c1: u8, c2: u8, c3: u8): (r: seq<u8>)
    requires 0 <= p && 3 * p + 2 < |s|
    ensures |r| == |s|
  {
    s[3 * p := c1][3 * p + 1 := c2][3 * p + 2 := c3]
  }

  /** The first and the last row of `[lo, hi)` in column `x` name pixels
      of a buffer of `len` bytes; since the pixel number grows with the row,
      so do all rows between them. */
  predicate RowsFit(len: int, width: int, x: int, lo: int, hi: int) {
    width >= 0 && (lo < hi ==> 0 <= PixelIndex(width, x, lo) && 3 * PixelIndex(width, x, hi - 1) + 3 <= len)
  }

  /** Buffer `s` after the pixels of column `x` in rows `[lo, hi)` are set
      to `(c1, c2, c3)`, row by row from the top. */
  function Line(s: seq<u8>, width: int, x: int, lo: int, hi: int, c1: u8, c2: u8, c3: u8): (r: seq<u8>)
    requires RowsFit(|s|, width, x, lo, hi)
    ensures |r| == |s|
    decreases hi - lo
  {
    if hi <= lo then s
    else
      MulMonotone(width, hi - 2, hi - 1);
      MulMonotone(width, lo, hi - 1);
      WithPixel(Line(s, width, x, lo, hi - 1, c1, c2, c3), PixelIndex(width, x, hi - 1), c1, c2, c3)
  }

  /** Drawing one more row adds that row's pixel to the line. */
  lemma LineStep(s: seq<u8>, width: int, x: int, lo: int, y: int, c1: u8, c2: u8, c3: u8)
    requires lo <= y && RowsFit(|s|, width, x, lo, y + 1)
    ensures RowsFit(|s|, width, x, lo, y)
    ensures 0 <= PixelIndex(width, x, y) && 3 * PixelIndex(width, x, y) + 2 < |s|
    ensures Line(s, width, x, lo, y + 1, c1, c2, c3)
            == WithPixel(Line(s, width, x, lo, y, c1, c2, c3), PixelIndex(width, x, y), c1, c2, c3)
  {
    MulMonotone(width, y - 1, y);
    MulMonotone(width, lo, y);
  }

  /** Pixel number `p` is `width * y + x` for some row `y` in `[lo, hi)`. */
  predicate OnLine(width: int, x: int, lo: int, hi: int, p: int) {
    if width == 0 then p == x && lo < hi
    else (p - x) % width == 0 && lo <= (p - x) / width < hi
  }

  /** Setting a pixel changes exactly its three bytes, to its red, green
      and blue values. */
  lemma WithPixelAt(s: seq<u8>, p: int, c1: u8, c2: u8, c3: u8, k: int)
    requires 0 <= p && 3 * p + 2 < |s| && 0 <= k < |s|
    ensures WithPixel(s, p, c1, c2, c3)[k] == if k / 3 == p then Channel(k, c1, c2, c3) else s[k]
  {
    if 3 * p <= k < 3 * p + 3 {
      DivModUnique(k, 3, p, k - 3 * p);
    } else {
      assert k / 3 != p;
    }
  }

  /** `WithPixelAt` for every byte of the buffer. */
  lemma WithPixelBytes(s: seq<u8>, p: int, c1: u8, c2: u8, c3: u8)
    requires 0 <= p && 3 * p + 2 < |s|
    ensures forall k :: 0 <= k < |s| ==>
              WithPixel(s, p, c1, c2, c3)[k] == if k / 3 == p then Channel(k, c1, c2, c3) else s[k]
  {
    forall k | 0 <= k < |s| {
      WithPixelAt(s, p, c1, c2, c3, k);
    }
  }

  /** Extending a line by its last row adds exactly that row's pixel. */
  lemma OnLineStep(width: int, x: int, lo: int, hi: int, p: int)
    requires lo < hi && width >= 0
    ensures OnLine(width, x, lo, hi, p) <==> OnLine(width, x, lo, hi - 1, p) || p == PixelIndex(width, x, hi - 1)
  {
    if width > 0 {
      var d := p - x;
      if p == PixelIndex(width, x, hi - 1) {
        DivModUnique(d, width, hi - 1, 0);
      } else if OnLine(width, x, lo, hi, p) {
        var q := d / width;
        assert d == width * q;
        assert q != hi - 1;
      }
    }
  }

  /** Drawing a line changes exactly the bytes of the pixels on it. */
  lemma {:induction false} LineAt(s: seq<u8>, width: int, x: int, lo: int, hi: int, c1: u8, c2: u8, c3: u8, k: int)
    requires RowsFit(|s|, width, x, lo, hi) && 0 <= k < |s|
    ensures Line(s, width, x, lo, hi, c1, c2, c3)[k]
            == if OnLine(width, x, lo, hi, k / 3) then Channel(k, c1, c2, c3) else s[k]
    decreases hi - lo
  {
    if lo < hi {
      MulMonotone(width, hi - 2, hi - 1);
      MulMonotone(width, lo, hi - 1);
      LineAt(s, width, x, lo, hi - 1, c1, c2, c3, k);
      WithPixelAt(Line(s, width, x, lo, hi - 1, c1, c2, c3), PixelIndex(width, x, hi - 1), c1, c2, c3, k);
      OnLineStep(width, x, lo, hi, k / 3);
    }
  }

  /** When `x` is a column of the canvas, the pixels on the line are those
      in column `x` whose row lies in `[lo, hi)`. */
  lemma OnLineInColumn(width: int, x: int, lo: int, hi: int, p: int)
    requires 0 <= x < width
    ensures OnLine(width, x, lo, hi, p) <==> p % width == x && lo <= p / width < hi
  {
    var q, r := p / width, p % width;
    if r >= x {
      DivModUnique(p - x, width, q, r - x);
    } else {
      DivModUnique(p - x, width, q - 1, r - x + width);
    }
  }

  /** `LineAt` for every byte, in both the pixel-number form and, when `x`
      is a column of the canvas, the column-and-row form. */
  lemma LineBytes(s: seq<u8>, width: int, x: int, lo: int, hi: int, c1: u8, c2: u8, c3: u8)
    requires RowsFit(|s|, width, x, lo, hi)
    ensures forall k :: 0 <= k < |s| ==>
              Line(s, width, x, lo, hi, c1, c2, c3)[k]
              == if OnLine(width, x, lo, hi, k / 3) then Channel(k, c1, c2, c3) else s[k]
    ensures 0 <= x < width ==> forall k :: 0 <= k < |s| ==>
              Line(s, width, x, lo, hi, c1, c2, c3)[k]
              == if (k / 3) % width == x && lo <= (k / 3) / width < hi then Channel(k, c1, c2, c3) else s[k]
  {
    forall k | 0 <= k < |s|
      ensures Line(s, width, x, lo, hi, c1, c2, c3)[k]
              == if OnLine(width, x, lo, hi, k / 3) then Channel(k, c1, c2, c3) else s[k]
      ensures 0 <= x < width ==> (OnLine(width, x, lo, hi, k / 3) <==> (k / 3) % width == x && lo <= (k / 3) / width < hi)
    {
      LineAt(s, width, x, lo, hi, c1, c2, c3, k);
      if 0 <= x < width {
        OnLineInColumn(width, x, lo, hi, k / 3);
      }
    }
  }

  /** The caller's obligation for a line: the first and the last row it
      draws name pixels of a `width * height` canvas. */
  predicate LineFits(width: nat, height: nat, x: int, lo: int, hi: int) {
    lo < hi ==> 0 <= PixelIndex(width, x, lo) && PixelIndex(width, x, hi - 1) < width * height
  }

  /** Every row of a line that fits names a pixel of the canvas, and the
      rows drawn so far fit too. */
  lemma RowFits(width: nat, height: nat, x: int, lo: int, hi: int, y: int)
    requires LineFits(width, height, x, lo, hi) && lo <= y < hi
    ensures 0 <= PixelIndex(width, x, y) < width * height
    ensures RowsFit(width * height * 3, width, x, lo, y)
    ensures RowsFit(width * height * 3, width, x, lo, y + 1)
  {
    MulMonotone(width, lo, y);
    MulMonotone(width, y, hi - 1);
    MulMonotone(width, y - 1, y);
  }

  class Canvas {
    var width: nat
    var height: nat
    var pixels: array<u8>

    /** The buffer always holds one RGB triplet per pixel. */
    ghost predicate Valid()
      reads this
    {
      pixels.Length == width * height * 3
    }

    /** A canvas of `width * height` black pixels. */
    constructor (width: nat, height: nat)
      ensures Valid() && fresh(pixels)
      ensures this.width == width && this.height == height
      ensures forall k :: 0 <= k < pixels.Length ==> pixels[k] == 0
    {
      this.width := width;
      this.height := height;
      pixels := new u8[width * height * 3](_ => 0);
    }

    /** Sets pixel `(x, y)` to `(c1, c2, c3)`. The source checks neither
        coordinate; it indexes the buffer at `(width * y + x) * 3`, so the
        only demand is that this pixel lies in the buffer. */
    method SetPixel(x: int, y: int, c1: u8, c2: u8, c3: u8)
      requires Valid()
      requires 0 <= PixelIndex(width, x, y) < width * height
      modifies pixels
      ensures Valid()
      ensures pixels[..] == WithPixel(old(pixels[..]), PixelIndex(width, x, y), c1, c2, c3)
    {
      var p := width * y + x;
      pixels[p * 3] := c1;
      pixels[p * 3 + 1] := c2;
      pixels[p * 3 + 2] := c3;
    }

    /** Sets column `x` to `(c1, c2, c3)` in every row of
        `[max(y1, 0), min(y2, height))`. The rows are clamped to the canvas;
        the column is not, so the caller must make every drawn row name a
        pixel of the buffer. */
    method DrawVerticalLine(x: int, y1: int, y2: int, c1: u8, c2: u8, c3: u8)
      requires Valid()
      requires LineFits(width, height, x, Max(y1, 0), Min(y2, height))
      modifies pixels
      ensures Valid()
      ensures pixels[..] == Line(old(pixels[..]), width, x, Max(y1, 0), Min(y2, height), c1, c2, c3)
      ensures Max(y1, 0) >= Min(y2, height) ==> pixels[..] == old(pixels[..])
    {
      var lo := Max(y1, 0);
      var hi := Min(y2, height);
      ghost var s0 := pixels[..];
      var y := lo;
      while y < hi
        invariant lo <= y && (y <= hi || y == lo)
        invariant RowsFit(|s0|, width, x, lo, y)
        invariant pixels[..] == Line(s0, width, x, lo, y, c1, c2, c3)
      {
        RowFits(width, height, x, lo, hi, y);
        LineStep(s0, width, x, lo, y, c1, c2, c3);
        SetPixel(x, y, c1, c2, c3);
        y := y + 1;
      }
    }
  }
}

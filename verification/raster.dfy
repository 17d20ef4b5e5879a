/**
 * The renderer's pixel buffer as a value: a flat, row-major sequence of
 * packed words, `width` words per row, pixel (x, y) at index x + y * width.
 * The renderer's loops are specified against the functions here.
 */
module Raster {

  /** A per-pixel colour source: the packed word for column x of row y. */
  type Shader = (nat, nat) -> bv32

  /** The image whose pixel (x, y) is shade(x, y), laid out row by row. */
  function Image(width: nat, height: nat, shade: Shader): seq<bv32>
  {
    seq(width * height, i requires 0 <= i < width * height => shade(i % width, i / width))
  }

  /**
   * `buf` with the indices in [from, to) repainted: index i receives the
   * colour of the pixel it stands for, shade(i % width, i / width).
   */
  function Fill(buf: seq<bv32>, width: nat, from: int, to: int, shade: Shader): seq<bv32>
    requires width > 0 || |buf| == 0
  {
    seq(|buf|, i requires 0 <= i < |buf| => if from <= i < to then shade(i % width, i / width) else buf[i])
  }

  /** Multiplying by a non-negative factor keeps the order. */
  lemma MulMono(a: int, b: int, c: nat)
    requires a <= b
    ensures a * c <= b * c
  {
    assert (b - a) * c >= 0;
  }

  /** Column and row are recovered from a row-major index. */
  lemma {:induction false} RowMajor(x: int, y: int, width: int)
    requires 0 <= x < width && 0 <= y
    ensures (x + y * width) / width == y && (x + y * width) % width == x
  {
    var i := x + y * width;
    var q, r := i / width, i % width;
    assert q * width + r == y * width + x;
    assert (q - y) * width == x - r;
    if q > y {
      MulMono(1, q - y, width);
    } else if q < y {
      MulMono(1, y - q, width);
    }
  }

  /** Pixel (x, y) of a width × height image has an index inside the buffer. */
  lemma IndexInRange(x: int, y: int, width: int, height: int)
    requires 0 <= x < width && 0 <= y < height
    ensures 0 <= x + y * width < width * height
  {
    MulMono(y + 1, height, width);
    assert (y + 1) * width == y * width + width;
    assert height * width == width * height;
  }

  /** The image holds shade(x, y) at index x + y * width, for every pixel. */
  lemma ImageAt(width: nat, height: nat, shade: Shader, x: nat, y: nat)
    requires x < width && y < height
    ensures x + y * width < |Image(width, height, shade)|
    ensures Image(width, height, shade)[x + y * width] == shade(x, y)
  {
    IndexInRange(x, y, width, height);
    RowMajor(x, y, width);
  }

  /** An empty or reversed range repaints nothing. */
  lemma FillEmpty(buf: seq<bv32>, width: nat, from: int, to: int, shade: Shader)
    requires width > 0 || |buf| == 0
    requires to <= from
    ensures Fill(buf, width, from, to, shade) == buf
  {
  }

  /** Extending the range by one index repaints exactly that index. */
  lemma FillStep(buf: seq<bv32>, width: nat, from: int, to: int, shade: Shader)
    requires width > 0
    requires from <= to < |buf| && 0 <= to
    ensures Fill(buf, width, from, to + 1, shade)
         == Fill(buf, width, from, to, shade)[to := shade(to % width, to / width)]
  {
  }

  /** Repainting [from, mid) and then [mid, to) is repainting [from, to). */
  lemma FillThenFill(buf: seq<bv32>, width: nat, from: int, mid: int, to: int, shade: Shader)
    requires width > 0 || |buf| == 0
    requires from <= mid <= to
    ensures Fill(Fill(buf, width, from, mid, shade), width, mid, to, shade)
         == Fill(buf, width, from, to, shade)
  {
  }

  /**
   * Repainting the rows [lo, hi), that is the indices [lo * width, hi * width),
   * sets exactly the pixels of those rows and keeps every other pixel.
   */
  lemma FillRowsAt(buf: seq<bv32>, width: nat, height: nat, lo: int, hi: int, shade: Shader, x: nat, y: nat)
    requires |buf| == width * height
    requires x < width && y < height
    ensures x + y * width < |buf|
    ensures Fill(buf, width, lo * width, hi * width, shade)[x + y * width]
         == if lo <= y < hi then shade(x, y) else buf[x + y * width]
  {
    IndexInRange(x, y, width, height);
    RowMajor(x, y, width);
    if lo <= y < hi {
      MulMono(lo, y, width);
      MulMono(y + 1, hi, width);
    } else if y < lo {
      MulMono(y + 1, lo, width);
    } else {
      MulMono(hi, y, width);
    }
  }

  /** Repainting every row leaves nothing of the old contents: the result is the image. */
  lemma {:induction false} FillAll(buf: seq<bv32>, width: nat, height: nat, shade: Shader)
    requires |buf| == width * height
    ensures Fill(buf, width, 0, height * width, shade) == Image(width, height, shade)
  {
    assert height * width == width * height;
  }
}

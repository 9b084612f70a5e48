// The row-major pixel grid with unchecked accessors (src/Image.cpp,
// src/Image.h), and the facts about row-major indexing it relies on.

module Images {
  import opened Types

  /**
   * Position of pixel (r, c) in a row-major buffer of a `width` x `height`
   * grid; every cell of the grid lands inside the buffer.
   */
  function Index(r: int, c: int, width: nat, height: nat): (i: nat)
    requires 0 <= r < height && 0 <= c < width
    ensures i < width * height
  {
    MulAtLeast(height - r, width);
    r * width + c
  }

  /** Row of buffer position `i`. */
  function RowOf(i: int, width: int): int
    requires width > 0
  {
    i / width
  }

  /** Column of buffer position `i`. */
  function ColOf(i: int, width: int): int
    requires width > 0
  {
    i % width
  }

  lemma MulAtLeast(k: int, width: int)
    requires k >= 1 && width >= 0
    ensures k * width >= width
  {
  }

  lemma MulMonotone(a: int, b: int, width: nat)
    requires a <= b
    ensures a * width <= b * width
  {
  }

  /** Moving one row down moves one full row further into the buffer. */
  lemma IndexNextRow(r: int, c: int, width: nat, height: nat)
    requires 1 <= r < height && 0 <= c < width
    ensures Index(r, c, width, height) == width + Index(r - 1, c, width, height - 1)
  {
  }

  /** Two buffers of one grid that agree on every cell are equal. */
  lemma {:induction false} SameCells(s: seq<RGB>, t: seq<RGB>, width: nat, height: nat)
    requires |s| == width * height && |t| == width * height
    requires forall r, c :: 0 <= r < height && 0 <= c < width ==>
               s[Index(r, c, width, height)] == t[Index(r, c, width, height)]
    ensures s == t
  {
    forall i | 0 <= i < |s|
      ensures s[i] == t[i]
    {
      RowOfInRange(i, width, height);
      SplitPosition(i, width);
    }
  }

  /** Splitting a position into row and column and recombining it gives it back. */
  lemma SplitPosition(i: int, width: int)
    requires width > 0
    ensures 0 <= ColOf(i, width) < width
    ensures RowOf(i, width) * width + ColOf(i, width) == i
  {
  }

  /** A position inside a `width` x `height` buffer lies on a grid cell. */
  lemma RowOfInRange(i: int, width: nat, height: nat)
    requires width > 0 && 0 <= i < width * height
    ensures 0 <= RowOf(i, width) < height
    ensures Index(RowOf(i, width), ColOf(i, width), width, height) == i
  {
  }

  /** Row and column of a cell are recovered exactly from its position. */
  lemma {:induction false} RowColOfIndex(r: int, c: int, width: nat, height: nat)
    requires 0 <= r < height && 0 <= c < width
    ensures RowOf(Index(r, c, width, height), width) == r
    ensures ColOf(Index(r, c, width, height), width) == c
  {
    var i := Index(r, c, width, height);
    var q, m := RowOf(i, width), ColOf(i, width);
    SplitPosition(i, width);
    assert (q - r) * width == c - m;
    if q > r {
      MulAtLeast(q - r, width);
      assert false;
    } else if q < r {
      MulAtLeast(r - q, width);
      assert false;
    }
  }

  /** Distinct cells of a grid occupy distinct buffer positions. */
  lemma IndexInjective(r1: int, c1: int, r2: int, c2: int, width: nat, height: nat)
    requires 0 <= r1 < height && 0 <= c1 < width
    requires 0 <= r2 < height && 0 <= c2 < width
    requires Index(r1, c1, width, height) == Index(r2, c2, width, height)
    ensures r1 == r2 && c1 == c2
  {
    RowColOfIndex(r1, c1, width, height);
    RowColOfIndex(r2, c2, width, height);
  }

  /**
   * `Image`: a `width` x `height` grid of pixels stored row-major. The
   * dimensions and the storage are fixed when the image is made; only pixel
   * values change afterwards.
   */
  class Image {
    const width: nat
    const height: nat
    const data: array<RGB>

    /** The buffer holds exactly one pixel per grid cell. */
    predicate Valid()
    {
      data.Length == width * height
    }

    /** `Image(width, height)`: sizes the buffer, every pixel zeroed. */
    constructor (width: nat, height: nat)
      ensures Valid() && fresh(data)
      ensures GetWidth() == width && GetHeight() == height
      ensures forall i :: 0 <= i < data.Length ==> data[i] == Black
    {
      this.width := width;
      this.height := height;
      data := new RGB[width * height](_ => Black);
    }

    /** `get_width`: the length of one row of the buffer. */
    function GetWidth(): (w: nat)
      ensures Valid() ==> w * GetHeight() == data.Length
    {
      width
    }

    /** `get_height`: the number of rows in the buffer. */
    function GetHeight(): (h: nat)
      ensures Valid() ==> width * h == data.Length
    {
      height
    }

    /** `get_pixel`: no bounds check, so the cell must lie in the grid. */
    function GetPixel(r: int, c: int): RGB
      requires Valid() && 0 <= r < height && 0 <= c < width
      reads data
    {
      data[Index(r, c, width, height)]
    }

    /**
     * The pixel `get_pixel(r, c)` returns is the one stored at the buffer
     * position whose row (position divided by the width) is `r` and whose
     * column (the remainder) is `c`.
     */
    lemma GetPixelAt(r: int, c: int, i: int)
      requires Valid() && 0 <= r < height && 0 <= c < width
      requires 0 <= i < data.Length && RowOf(i, width) == r && ColOf(i, width) == c
      ensures GetPixel(r, c) == data[i]
    {
    }

    /**
     * `set_pixel`: writes one cell in place. Reading it back gives `color`,
     * every other cell keeps its value, and the dimensions (constants) and
     * buffer length cannot change.
     */
    method SetPixel(r: int, c: int, color: RGB)
      requires Valid() && 0 <= r < height && 0 <= c < width
      modifies data
      ensures GetPixel(r, c) == color
      ensures forall r', c' :: 0 <= r' < height && 0 <= c' < width && (r' != r || c' != c) ==>
                GetPixel(r', c') == old(GetPixel(r', c'))
      ensures data[..] == old(data[..])[Index(r, c, width, height) := color]
    {
      var i := Index(r, c, width, height);
      ghost var before := data[..];
      data[i] := color;
      assert data[..] == before[i := color];
      forall r', c' | 0 <= r' < height && 0 <= c' < width && (r' != r || c' != c)
        ensures GetPixel(r', c') == old(GetPixel(r', c'))
      {
        if Index(r', c', width, height) == i {
          IndexInjective(r', c', r, c, width, height);
        }
      }
    }
  }
}

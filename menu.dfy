// The parts of the interactive editor (src/main.cpp) that compute something:
// validating a typed-in rectangle, and deleting a row or a column of the
// current image.

module Menu {
  import opened Types
  import opened Images
  import opened VectorImages

  /**
   * `get_rect`'s verdict on the four coordinates it read; `readOk` is false
   * when the input stream failed.
   */
  function GetRect(maxRows: int, maxCols: int, readOk: bool, r1: int, c1: int, r2: int, c2: int): (ok: bool)
    ensures ok ==> readOk
    ensures ok ==> 0 <= r1 <= r2 < maxRows && 0 <= c1 <= c2 < maxCols
  {
    readOk && !(r1 < 0 || c1 < 0 || r2 >= maxRows || c2 >= maxCols || r1 > r2 || c1 > c2)
  }

  /**
   * After a successful read, `get_rect` accepts exactly the non-empty
   * rectangles all of whose cells lie in the grid.
   */
  lemma GetRectExact(maxRows: int, maxCols: int, r1: int, c1: int, r2: int, c2: int)
    ensures GetRect(maxRows, maxCols, true, r1, c1, r2, c2) <==>
            !Rect(r1, c1, r2, c2).IsEmpty() &&
            forall r, c :: Rect(r1, c1, r2, c2).Contains(r, c) ==> 0 <= r < maxRows && 0 <= c < maxCols
  {
    var rect := Rect(r1, c1, r2, c2);
    if !rect.IsEmpty() && forall r, c :: rect.Contains(r, c) ==> 0 <= r < maxRows && 0 <= c < maxCols {
      assert rect.Contains(r1, c1) && rect.Contains(r2, c2);
    }
  }

  /**
   * An accepted rectangle meets the preconditions of the region operations
   * of an image of that size, and every cell of it has a buffer position.
   */
  lemma GetRectWritable(height: nat, width: nat, readOk: bool, r1: int, c1: int, r2: int, c2: int)
    requires GetRect(height, width, readOk, r1, c1, r2, c2)
    ensures Rect(r1, c1, r2, c2).Writable(height, width)
    ensures forall r, c :: Rect(r1, c1, r2, c2).Contains(r, c) ==>
              0 <= r < height && 0 <= c < width && Index(r, c, width, height) < width * height
  {
  }

  // ---------------------------------------------------------------------------
  // Deleting a row or a column.

  /** Row of the old image that row `r` of the new one shows, once row `k` is gone. */
  function SourceRow(r: int, k: int): int
  {
    if r < k then r else r + 1
  }

  /** The buffer of a grid with row `k` cut out: the rows above it, then the rows below it. */
  function RowDeleted(s: seq<RGB>, width: nat, height: nat, k: int): (t: seq<RGB>)
    requires |s| == width * height && 0 <= k < height
    ensures |t| == width * (height - 1)
  {
    MulMonotone(k, k + 1, width);
    MulMonotone(k + 1, height, width);
    s[..k * width] + s[(k + 1) * width..]
  }

  /** Cell (r, c) of the shortened buffer holds cell (SourceRow(r, k), c) of the old one. */
  lemma {:induction false} RowDeletedAt(s: seq<RGB>, width: nat, height: nat, k: int, r: int, c: int)
    requires |s| == width * height && 0 <= k < height
    requires 0 <= r < height - 1 && 0 <= c < width
    ensures RowDeleted(s, width, height, k)[Index(r, c, width, height - 1)]
         == s[Index(SourceRow(r, k), c, width, height)]
  {
    MulMonotone(k, k + 1, width);
    MulMonotone(k + 1, height, width);
    var above, below := s[..k * width], s[(k + 1) * width..];
    assert RowDeleted(s, width, height, k) == above + below;
    var i := Index(r, c, width, height - 1);
    if r < k {
      MulMonotone(r + 1, k, width);
      assert (above + below)[i] == above[i];
    } else {
      MulMonotone(k, r, width);
      assert (k + 1) * width == k * width + width;
      assert (r + 1) * width == r * width + width;
      assert (above + below)[i] == below[i - k * width];
    }
  }

  /** A buffer that agrees cell by cell with the row-deleted grid is the row-deleted buffer. */
  lemma RowDeletedFromCells(s: seq<RGB>, t: seq<RGB>, width: nat, height: nat, k: int)
    requires |s| == width * height && 0 <= k < height && |t| == width * (height - 1)
    requires forall r, c :: 0 <= r < height - 1 && 0 <= c < width ==>
               t[Index(r, c, width, height - 1)] == s[Index(SourceRow(r, k), c, width, height)]
    ensures t == RowDeleted(s, width, height, k)
  {
    var u, newHeight := RowDeleted(s, width, height, k), height - 1;
    forall r, c | 0 <= r < newHeight && 0 <= c < width
      ensures t[Index(r, c, width, newHeight)] == u[Index(r, c, width, newHeight)]
    {
      RowDeletedAt(s, width, height, k, r, c);
    }
    SameCells(t, u, width, newHeight);
  }

  /**
   * Menu option 6, "row": copies every row but row `k` of `before` into a
   * new image one row shorter. A missing or out-of-range `k` is rejected
   * (`null`) and nothing is replaced.
   */
  method DeleteRow(before: Image, readOk: bool, k: int) returns (after: Image?)
    requires before.Valid()
    ensures after == null <==> !(readOk && 0 <= k < before.GetHeight())
    ensures after != null ==>
              fresh(after) && fresh(after.data) && after.Valid() &&
              after.GetWidth() == before.GetWidth() && after.GetHeight() == before.GetHeight() - 1
    ensures after != null ==>
              forall r, c :: 0 <= r < after.height && 0 <= c < after.width ==>
                after.GetPixel(r, c) == before.GetPixel(SourceRow(r, k), c)
    ensures after != null ==> after.data[..] == RowDeleted(before.data[..], before.width, before.height, k)
  {
    var oldHeight, oldWidth := before.GetHeight(), before.GetWidth();
    if !readOk || k < 0 || k >= oldHeight {
      return null;
    }
    var image := new Image(oldWidth, oldHeight - 1);
    var r, newR := 0, 0;
    while r < oldHeight
      invariant 0 <= r <= oldHeight
      invariant newR == if r <= k then r else r - 1
      invariant forall rr, c :: 0 <= rr < newR && 0 <= c < oldWidth ==>
                  image.GetPixel(rr, c) == before.GetPixel(SourceRow(rr, k), c)
    {
      if r != k {
        var c := 0;
        while c < oldWidth
          invariant 0 <= c <= oldWidth
          invariant forall rr, cc :: 0 <= rr < newR && 0 <= cc < oldWidth ==>
                      image.GetPixel(rr, cc) == before.GetPixel(SourceRow(rr, k), cc)
          invariant forall cc :: 0 <= cc < c ==> image.GetPixel(newR, cc) == before.GetPixel(r, cc)
        {
          image.SetPixel(newR, c, before.GetPixel(r, c));
          c := c + 1;
        }
        newR := newR + 1;
      }
      r := r + 1;
    }
    var newHeight := oldHeight - 1;
    forall rr, c | 0 <= rr < newHeight && 0 <= c < oldWidth
      ensures image.data[..][Index(rr, c, oldWidth, newHeight)]
           == before.data[..][Index(SourceRow(rr, k), c, oldWidth, oldHeight)]
    {
      assert image.GetPixel(rr, c) == before.GetPixel(SourceRow(rr, k), c);
    }
    RowDeletedFromCells(before.data[..], image.data[..], oldWidth, oldHeight, k);
    after := image;
  }

  /** Column of the old image that column `c` of the new one shows, once column `k` is gone. */
  function SourceCol(c: int, k: int): int
  {
    if c < k then c else c + 1
  }

  /**
   * The buffer of a grid with column `k` cut out, row by row: each row loses
   * its `k`-th pixel.
   */
  function ColumnDeleted(s: seq<RGB>, width: nat, height: nat, k: int): (t: seq<RGB>)
    requires |s| == width * height && 0 <= k < width
    ensures |t| == (width - 1) * height
    decreases height
  {
    if height == 0 then []
    else
      assert |s[width..]| == width * (height - 1);
      s[..k] + s[k + 1..width] + ColumnDeleted(s[width..], width, height - 1, k)
  }

  /** The first row of the narrowed buffer is the first row of the old one without pixel `k`. */
  lemma ColumnDeletedFirstRow(s: seq<RGB>, width: nat, height: nat, k: int, c: int)
    requires |s| == width * height && 0 <= k < width
    requires 0 < height && 0 <= c < width - 1
    ensures ColumnDeleted(s, width, height, k)[c] == s[SourceCol(c, k)]
  {
  }

  /** Cell (r, c) of the narrowed buffer holds cell (r, SourceCol(c, k)) of the old one. */
  lemma {:induction false} ColumnDeletedAt(s: seq<RGB>, width: nat, height: nat, k: int, r: int, c: int)
    requires |s| == width * height && 0 <= k < width
    requires 0 <= r < height && 0 <= c < width - 1
    ensures ColumnDeleted(s, width, height, k)[Index(r, c, width - 1, height)]
         == s[Index(r, SourceCol(c, k), width, height)]
    decreases height
  {
    if r == 0 {
      ColumnDeletedFirstRow(s, width, height, k, c);
    } else {
      var rest := s[width..];
      assert |rest| == width * (height - 1);
      var tail := ColumnDeleted(rest, width, height - 1, k);
      assert ColumnDeleted(s, width, height, k)[width - 1..] == tail;
      var j := Index(r - 1, c, width - 1, height - 1);
      var m := Index(r - 1, SourceCol(c, k), width, height - 1);
      ColumnDeletedAt(rest, width, height - 1, k, r - 1, c);
      IndexNextRow(r, c, width - 1, height);
      IndexNextRow(r, SourceCol(c, k), width, height);
      assert s[width + m] == rest[m];
    }
  }

  /** A buffer that agrees cell by cell with the column-deleted grid is the column-deleted buffer. */
  lemma ColumnDeletedFromCells(s: seq<RGB>, t: seq<RGB>, width: nat, height: nat, k: int)
    requires |s| == width * height && 0 <= k < width && |t| == (width - 1) * height
    requires forall r, c :: 0 <= r < height && 0 <= c < width - 1 ==>
               t[Index(r, c, width - 1, height)] == s[Index(r, SourceCol(c, k), width, height)]
    ensures t == ColumnDeleted(s, width, height, k)
  {
    var u, newWidth := ColumnDeleted(s, width, height, k), width - 1;
    forall r, c | 0 <= r < height && 0 <= c < newWidth
      ensures t[Index(r, c, newWidth, height)] == u[Index(r, c, newWidth, height)]
    {
      ColumnDeletedAt(s, width, height, k, r, c);
    }
    SameCells(t, u, newWidth, height);
  }

  /**
   * Menu option 6, "col": copies every column but column `k` of `before`
   * into a new image one column narrower. A missing or out-of-range `k` is
   * rejected (`null`) and nothing is replaced.
   */
  method DeleteColumn(before: Image, readOk: bool, k: int) returns (after: Image?)
    requires before.Valid()
    ensures after == null <==> !(readOk && 0 <= k < before.GetWidth())
    ensures after != null ==>
              fresh(after) && fresh(after.data) && after.Valid() &&
              after.GetWidth() == before.GetWidth() - 1 && after.GetHeight() == before.GetHeight()
    ensures after != null ==>
              forall r, c :: 0 <= r < after.height && 0 <= c < after.width ==>
                after.GetPixel(r, c) == before.GetPixel(r, SourceCol(c, k))
    ensures after != null ==> after.data[..] == ColumnDeleted(before.data[..], before.width, before.height, k)
  {
    var oldHeight, oldWidth := before.GetHeight(), before.GetWidth();
    if !readOk || k < 0 || k >= oldWidth {
      return null;
    }
    var image := new Image(oldWidth - 1, oldHeight);
    var r := 0;
    while r < oldHeight
      invariant 0 <= r <= oldHeight
      invariant forall rr, cc :: 0 <= rr < r && 0 <= cc < oldWidth - 1 ==>
                  image.GetPixel(rr, cc) == before.GetPixel(rr, SourceCol(cc, k))
    {
      var c, newC := 0, 0;
      while c < oldWidth
        invariant 0 <= c <= oldWidth
        invariant newC == if c <= k then c else c - 1
        invariant forall rr, cc :: 0 <= rr < r && 0 <= cc < oldWidth - 1 ==>
                    image.GetPixel(rr, cc) == before.GetPixel(rr, SourceCol(cc, k))
        invariant forall cc :: 0 <= cc < newC ==> image.GetPixel(r, cc) == before.GetPixel(r, SourceCol(cc, k))
      {
        if c != k {
          image.SetPixel(r, newC, before.GetPixel(r, c));
          newC := newC + 1;
        }
        c := c + 1;
      }
      r := r + 1;
    }
    var newWidth := oldWidth - 1;
    forall rr, c | 0 <= rr < oldHeight && 0 <= c < newWidth
      ensures image.data[..][Index(rr, c, newWidth, oldHeight)]
           == before.data[..][Index(rr, SourceCol(c, k), oldWidth, oldHeight)]
    {
      assert image.GetPixel(rr, c) == before.GetPixel(rr, SourceCol(c, k));
    }
    ColumnDeletedFromCells(before.data[..], image.data[..], oldWidth, oldHeight, k);
    after := image;
  }
}

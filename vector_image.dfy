// The per-pixel reference editor (src/VectorImage.cpp): a row-major buffer
// edited in place over inclusive rectangles.

module VectorImages {
  import opened Types
  import opened Images

  /** The inclusive rectangle [r1..r2] x [c1..c2] the region operations walk. */
  datatype Rect = Rect(r1: int, c1: int, r2: int, c2: int) {
    predicate Contains(r: int, c: int)
    {
      r1 <= r <= r2 && c1 <= c <= c2
    }

    /** The loops over the rectangle run no iteration. */
    predicate IsEmpty()
    {
      r1 > r2 || c1 > c2
    }

    predicate InGrid(height: int, width: int)
    {
      0 <= r1 && r2 < height && 0 <= c1 && c2 < width
    }

    /**
     * What the region operations need of their caller: every cell the loops
     * visit is a cell of the grid. The loops visit nothing when the rectangle
     * is empty, whatever its corners.
     */
    predicate Writable(height: int, width: int)
    {
      !IsEmpty() ==> InGrid(height, width)
    }
  }

  /** The three per-pixel edits. */
  datatype Edit = Fill(color: RGB) | Brightness(value: int) | Contrast(multiplier: real)

  /** `adjust_brightness` on one pixel: each channel plus `value`, saturated. */
  function Brighten(p: RGB, value: int): (q: RGB)
    ensures q == RGB(Clamp(p.r + value), Clamp(p.g + value), Clamp(p.b + value))
  {
    SaturateOfInt(p.r + value);
    SaturateOfInt(p.g + value);
    SaturateOfInt(p.b + value);
    RGB(SaturateCast((p.r + value) as real),
        SaturateCast((p.g + value) as real),
        SaturateCast((p.b + value) as real))
  }

  /** `adjust_contrast` on one pixel: each channel times `multiplier`, saturated. */
  function Scale(p: RGB, multiplier: real): (q: RGB)
    ensures SaturatedTo(p.r as real * multiplier, q.r)
    ensures SaturatedTo(p.g as real * multiplier, q.g)
    ensures SaturatedTo(p.b as real * multiplier, q.b)
  {
    RGB(SaturateCast(p.r as real * multiplier),
        SaturateCast(p.g as real * multiplier),
        SaturateCast(p.b as real * multiplier))
  }

  function ApplyEdit(e: Edit, p: RGB): RGB
  {
    match e
    case Fill(color) => color
    case Brightness(value) => Brighten(p, value)
    case Contrast(multiplier) => Scale(p, multiplier)
  }

  /**
   * The buffer `s` of a grid `width` pixels wide after applying `e` to every
   * pixel of `rect`: the reference semantics of the three region operations.
   */
  function Edited(s: seq<RGB>, width: nat, rect: Rect, e: Edit): (t: seq<RGB>)
    ensures |t| == |s|
  {
    if width == 0 then s
    else
      seq(|s|, i requires 0 <= i < |s| =>
        if rect.Contains(RowOf(i, width), ColOf(i, width)) then ApplyEdit(e, s[i]) else s[i])
  }

  /**
   * Cell by cell: a pixel inside the rectangle is edited, every other pixel
   * keeps its value.
   */
  lemma EditedAt(s: seq<RGB>, width: nat, height: nat, rect: Rect, e: Edit, r: int, c: int)
    requires |s| == width * height
    requires 0 <= r < height && 0 <= c < width
    ensures Edited(s, width, rect, e)[Index(r, c, width, height)] ==
            if rect.Contains(r, c) then ApplyEdit(e, s[Index(r, c, width, height)])
            else s[Index(r, c, width, height)]
  {
    RowColOfIndex(r, c, width, height);
  }

  /** An empty rectangle changes nothing. */
  lemma EditedEmpty(s: seq<RGB>, width: nat, rect: Rect, e: Edit)
    requires rect.IsEmpty()
    ensures Edited(s, width, rect, e) == s
  {
  }

  /** Filling a rectangle twice with one colour is filling it once. */
  lemma FillIdempotent(s: seq<RGB>, width: nat, rect: Rect, color: RGB)
    ensures Edited(Edited(s, width, rect, Fill(color)), width, rect, Fill(color))
         == Edited(s, width, rect, Fill(color))
  {
  }

  /** Every pixel of a filled rectangle holds the fill colour. */
  lemma FillSetsRegion(s: seq<RGB>, width: nat, height: nat, rect: Rect, color: RGB, r: int, c: int)
    requires |s| == width * height
    requires 0 <= r < height && 0 <= c < width && rect.Contains(r, c)
    ensures Edited(s, width, rect, Fill(color))[Index(r, c, width, height)] == color
  {
    EditedAt(s, width, height, rect, Fill(color), r, c);
  }

  /** Adding 0 to every channel saturates to the channel itself. */
  lemma BrightenZero(p: RGB)
    ensures Brighten(p, 0) == p
  {
  }

  /** `adjust_brightness` by 0 leaves the whole buffer unchanged. */
  lemma BrightnessZeroIdentity(s: seq<RGB>, width: nat, rect: Rect)
    ensures Edited(s, width, rect, Brightness(0)) == s
  {
  }

  /** A channel that did not saturate going up by `d` comes back going down by `d`. */
  lemma ChannelRoundTrip(v: Byte, d: int)
    requires 0 <= v + d <= 255
    ensures SaturateCast((SaturateCast((v + d) as real) - d) as real) == v
  {
  }

  /**
   * Brightening a rectangle by `d` and then by `-d` restores every channel
   * for which `old + d` stayed within [0, 255].
   */
  lemma BrightnessUndo(s: seq<RGB>, width: nat, rect: Rect, d: int, i: int)
    requires 0 <= i < |s|
    ensures var t := Edited(Edited(s, width, rect, Brightness(d)), width, rect, Brightness(-d));
            |t| == |s| &&
            (0 <= s[i].r + d <= 255 ==> t[i].r == s[i].r) &&
            (0 <= s[i].g + d <= 255 ==> t[i].g == s[i].g) &&
            (0 <= s[i].b + d <= 255 ==> t[i].b == s[i].b)
  {
  }

  /** `adjust_contrast` by 1 leaves the whole buffer unchanged. */
  lemma ContrastOneIdentity(s: seq<RGB>, width: nat, rect: Rect)
    ensures Edited(s, width, rect, Contrast(1.0)) == s
  {
  }

  /**
   * A worked example on a 4 x 4 grid of (10, 10, 10): fill the inner 2 x 2
   * square with (200, 0, 0), then brighten the whole grid by 5. The square
   * ends up (205, 5, 5) and every other pixel (15, 15, 15).
   */
  lemma FillThenBrightenExample()
    ensures var s := seq(16, _ => RGB(10, 10, 10));
            var t := Edited(Edited(s, 4, Rect(1, 1, 2, 2), Fill(RGB(200, 0, 0))), 4, Rect(0, 0, 3, 3), Brightness(5));
            forall r, c :: 0 <= r < 4 && 0 <= c < 4 ==>
              t[Index(r, c, 4, 4)] == if Rect(1, 1, 2, 2).Contains(r, c) then RGB(205, 5, 5) else RGB(15, 15, 15)
  {
    var s := seq(16, _ => RGB(10, 10, 10));
    var filled := Edited(s, 4, Rect(1, 1, 2, 2), Fill(RGB(200, 0, 0)));
    forall r, c | 0 <= r < 4 && 0 <= c < 4
      ensures Edited(filled, 4, Rect(0, 0, 3, 3), Brightness(5))[Index(r, c, 4, 4)]
           == if Rect(1, 1, 2, 2).Contains(r, c) then RGB(205, 5, 5) else RGB(15, 15, 15)
    {
      EditedAt(s, 4, 4, Rect(1, 1, 2, 2), Fill(RGB(200, 0, 0)), r, c);
      EditedAt(filled, 4, 4, Rect(0, 0, 3, 3), Brightness(5), r, c);
    }
  }

  // ---------------------------------------------------------------------------
  // The row-major scan of a rectangle, as the nested loops perform it.

  /**
   * The loops have visited (r, c) once they reach (row, col): the cell lies in
   * the rectangle and comes before (row, col) in row-major order.
   */
  predicate Visited(rect: Rect, row: int, col: int, r: int, c: int)
  {
    rect.Contains(r, c) && (r < row || (r == row && c < col))
  }

  /** `cur` is `orig` with `e` applied to exactly the visited cells. */
  ghost predicate ScannedUpTo(cur: seq<RGB>, orig: seq<RGB>, width: nat, rect: Rect, e: Edit, row: int, col: int)
  {
    |cur| == |orig| &&
    (width > 0 ==> forall i :: 0 <= i < |cur| ==>
      cur[i] == if Visited(rect, row, col, RowOf(i, width), ColOf(i, width)) then ApplyEdit(e, orig[i]) else orig[i])
  }

  /** Nothing is visited before the first cell. */
  lemma ScanStart(orig: seq<RGB>, width: nat, rect: Rect, e: Edit)
    ensures ScannedUpTo(orig, orig, width, rect, e, rect.r1, rect.c1)
  {
  }

  /** Editing the cell at (row, col) moves the scan one cell on. */
  lemma {:induction false} ScanStep(cur: seq<RGB>, orig: seq<RGB>, width: nat, height: nat,
                                    rect: Rect, e: Edit, row: int, col: int)
    requires |cur| == width * height
    requires 0 <= row < height && 0 <= col < width && rect.Contains(row, col)
    requires ScannedUpTo(cur, orig, width, rect, e, row, col)
    ensures ScannedUpTo(cur[Index(row, col, width, height) := ApplyEdit(e, cur[Index(row, col, width, height)])],
                        orig, width, rect, e, row, col + 1)
  {
    var j := Index(row, col, width, height);
    var next := cur[j := ApplyEdit(e, cur[j])];
    RowColOfIndex(row, col, width, height);
    forall i | 0 <= i < |next|
      ensures next[i] == if Visited(rect, row, col + 1, RowOf(i, width), ColOf(i, width))
                         then ApplyEdit(e, orig[i]) else orig[i]
    {
      if i != j {
        SplitPosition(i, width);
        SplitPosition(j, width);
      }
    }
  }

  /** Past the last column of the rectangle, the scan moves to the next row. */
  lemma ScanNextRow(cur: seq<RGB>, orig: seq<RGB>, width: nat, rect: Rect, e: Edit, row: int, col: int)
    requires col > rect.c2
    requires ScannedUpTo(cur, orig, width, rect, e, row, col)
    ensures ScannedUpTo(cur, orig, width, rect, e, row + 1, rect.c1)
  {
  }

  /** Past the last row of the rectangle, the scan has edited all of it. */
  lemma ScanDone(cur: seq<RGB>, orig: seq<RGB>, width: nat, height: nat, rect: Rect, e: Edit, row: int)
    requires |orig| == width * height
    requires row > rect.r2
    requires ScannedUpTo(cur, orig, width, rect, e, row, rect.c1)
    ensures cur == Edited(orig, width, rect, e)
  {
  }

  /**
   * `VectorImage`: the naive editor, a `width` x `height` grid stored as a
   * row-major buffer that the region operations overwrite in place.
   */
  class VectorImage {
    const width: nat
    const height: nat
    const imageData: array<RGB>

    predicate Valid()
    {
      imageData.Length == width * height
    }

    /**
     * `VectorImage(width, height)`: sizes the buffer to one pixel per cell.
     * `pixels` stands for the values `generate_random` then draws.
     */
    constructor (width: nat, height: nat, pixels: seq<RGB>)
      requires |pixels| == width * height
      ensures Valid() && fresh(imageData)
      ensures this.width == width && this.height == height
      ensures imageData[..] == pixels
    {
      this.width := width;
      this.height := height;
      imageData := new RGB[width * height](i requires 0 <= i < width * height => pixels[i]);
    }

    /** `get_image`: an `Image` of the same size showing the same pixels. */
    method GetImage() returns (image: Image)
      requires Valid()
      ensures fresh(image) && fresh(image.data) && image.Valid()
      ensures image.GetWidth() == width && image.GetHeight() == height
      ensures forall r, c :: 0 <= r < height && 0 <= c < width ==>
                image.GetPixel(r, c) == imageData[Index(r, c, width, height)]
    {
      image := new Image(width, height);
      var r := 0;
      while r < height
        invariant 0 <= r <= height
        invariant forall rr, cc :: 0 <= rr < r && 0 <= cc < width ==>
                    image.GetPixel(rr, cc) == imageData[Index(rr, cc, width, height)]
      {
        var c := 0;
        while c < width
          invariant 0 <= c <= width
          invariant forall rr, cc :: 0 <= rr < r && 0 <= cc < width ==>
                      image.GetPixel(rr, cc) == imageData[Index(rr, cc, width, height)]
          invariant forall cc :: 0 <= cc < c ==>
                      image.GetPixel(r, cc) == imageData[Index(r, cc, width, height)]
        {
          image.SetPixel(r, c, imageData[Index(r, c, width, height)]);
          c := c + 1;
        }
        r := r + 1;
      }
    }

    /** `fill_region`: every pixel of the rectangle becomes `color`. */
    method FillRegion(r1: int, c1: int, r2: int, c2: int, color: RGB)
      requires Valid() && Rect(r1, c1, r2, c2).Writable(height, width)
      modifies imageData
      ensures imageData[..] == Edited(old(imageData[..]), width, Rect(r1, c1, r2, c2), Fill(color))
    {
      ghost var rect, e := Rect(r1, c1, r2, c2), Fill(color);
      ScanStart(imageData[..], width, rect, e);
      var r := r1;
      while r <= r2
        invariant r1 <= r
        invariant ScannedUpTo(imageData[..], old(imageData[..]), width, rect, e, r, c1)
      {
        var c := c1;
        while c <= c2
          invariant c1 <= c
          invariant ScannedUpTo(imageData[..], old(imageData[..]), width, rect, e, r, c)
        {
          ScanStep(imageData[..], old(imageData[..]), width, height, rect, e, r, c);
          imageData[Index(r, c, width, height)] := color;
          c := c + 1;
        }
        ScanNextRow(imageData[..], old(imageData[..]), width, rect, e, r, c);
        r := r + 1;
      }
      ScanDone(imageData[..], old(imageData[..]), width, height, rect, e, r);
    }

    /**
     * `adjust_brightness`: each channel of each pixel of the rectangle
     * becomes `old + value` clamped to [0, 255].
     */
    method AdjustBrightness(r1: int, c1: int, r2: int, c2: int, value: int)
      requires Valid() && Rect(r1, c1, r2, c2).Writable(height, width)
      modifies imageData
      ensures imageData[..] == Edited(old(imageData[..]), width, Rect(r1, c1, r2, c2), Brightness(value))
    {
      ghost var rect, e := Rect(r1, c1, r2, c2), Brightness(value);
      ScanStart(imageData[..], width, rect, e);
      var r := r1;
      while r <= r2
        invariant r1 <= r
        invariant ScannedUpTo(imageData[..], old(imageData[..]), width, rect, e, r, c1)
      {
        var c := c1;
        while c <= c2
          invariant c1 <= c
          invariant ScannedUpTo(imageData[..], old(imageData[..]), width, rect, e, r, c)
        {
          ScanStep(imageData[..], old(imageData[..]), width, height, rect, e, r, c);
          var i := Index(r, c, width, height);
          imageData[i] := Brighten(imageData[i], value);
          c := c + 1;
        }
        ScanNextRow(imageData[..], old(imageData[..]), width, rect, e, r, c);
        r := r + 1;
      }
      ScanDone(imageData[..], old(imageData[..]), width, height, rect, e, r);
    }

    /**
     * `adjust_contrast`: each channel of each pixel of the rectangle becomes
     * `old * multiplier`, saturated to [0, 255].
     */
    method AdjustContrast(r1: int, c1: int, r2: int, c2: int, multiplier: real)
      requires Valid() && Rect(r1, c1, r2, c2).Writable(height, width)
      modifies imageData
      ensures imageData[..] == Edited(old(imageData[..]), width, Rect(r1, c1, r2, c2), Contrast(multiplier))
    {
      ghost var rect, e := Rect(r1, c1, r2, c2), Contrast(multiplier);
      ScanStart(imageData[..], width, rect, e);
      var r := r1;
      while r <= r2
        invariant r1 <= r
        invariant ScannedUpTo(imageData[..], old(imageData[..]), width, rect, e, r, c1)
      {
        var c := c1;
        while c <= c2
          invariant c1 <= c
          invariant ScannedUpTo(imageData[..], old(imageData[..]), width, rect, e, r, c)
        {
          ScanStep(imageData[..], old(imageData[..]), width, height, rect, e, r, c);
          var i := Index(r, c, width, height);
          imageData[i] := Scale(imageData[i], multiplier);
          c := c + 1;
        }
        ScanNextRow(imageData[..], old(imageData[..]), width, rect, e, r, c);
        r := r + 1;
      }
      ScanDone(imageData[..], old(imageData[..]), width, height, rect, e, r);
    }
  }
}

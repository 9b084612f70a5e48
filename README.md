# png-tree: the per-pixel reference editor, in Dafny

This project models the verifiable core of png-tree, a terminal raster
editor. The core is its per-pixel reference editor. `VectorImage` holds a
row-major RGB buffer and edits it in place over inclusive rectangles
`[r1..r2] x [c1..c2]`. It can fill with a colour, shift brightness, or scale
contrast. Whatever faster region structure the program uses, it must match
these semantics. The model also covers the pieces this editor relies on:

- `Types` (src/types.h): the 8-bit channel, the `RGB_uc` pixel, and
  `saturate_cast_uchar`. That function clamps to [0, 255] and truncates in
  between.
- `Images` (src/Image.cpp, src/Image.h): the `Image` grid with unchecked
  `get_pixel` / `set_pixel`, plus the arithmetic of row-major indexing. A
  cell's index `r * width + c` is in range and injective, and every buffer
  position is a cell.
- `VectorImages` (src/VectorImage.cpp): the editor class. Its three region
  operations keep the source's nested loops and write into an `array` in
  place. Each is proved equal to `Edited`, one reference function on the old
  buffer. The lemmas about `Edited` state what the operations promise:
  - pixels inside the rectangle are edited and all others keep their value;
  - an empty rectangle changes nothing;
  - filling is idempotent;
  - brightness 0 and contrast 1 are no-ops;
  - brightening by `d` and then by `-d` restores every channel that did not
    saturate.
- `Menu` (src/main.cpp):
  - the rectangle check of `get_rect`;
  - the row-deletion and column-deletion loops. These copy into a new image
    while advancing a separate `new_r` / `new_c` counter. Each is proved
    correct pixel by pixel. Each is also proved equal to an independent
    definition: the rows above plus the rows below, or each row minus its
    `k`-th pixel.

Two facts about the code fix the arithmetic of the edits:

- `adjust_contrast` multiplies each channel by the factor, with no pivot
  (src/VectorImage.cpp:48-50).
- `saturate_cast_uchar` truncates toward zero rather than rounding
  (src/types.h:26).

## Model

| member | source | states |
|---|---|---|
| Types.SaturateCast | src/types.h:23-27 | the result is always a channel value in [0, 255], and it is the one value `SaturatedTo` allows: 255 above the range, 0 below it, the integer part inside it |
| Types.SaturateAbove | src/types.h:24 | any value above 255 saturates to 255 |
| Types.SaturateBelow | src/types.h:25 | any negative value saturates to 0 |
| Types.SaturateOfByte | src/types.h:26 | an integer already in [0, 255] passes through unchanged |
| Types.SaturateOfInt | src/types.h:23-27 | on an exact integer argument (the brightness path) the conversion is `Clamp`, the integer clamp to [0, 255] |
| Types.SaturateTruncates | src/types.h:26 | for a real in [0, 255] the result is its floor: r <= v < r + 1 |
| Types.SaturateMonotone | src/types.h:23-27 | a <= b implies saturate(a) <= saturate(b) |
| Types.SaturateIdempotent | src/types.h:23-27 | saturating a saturated value changes nothing |
| Images.Index | src/Image.cpp:10 | the row-major position of every in-grid cell lies in [0, width*height) |
| Images.RowColOfIndex | src/Image.cpp:10 | row and column are recovered exactly from a cell's position (division and remainder by the width) |
| Images.IndexInjective | src/Image.cpp:14 | distinct in-grid cells have distinct positions |
| Images.RowOfInRange | src/Image.cpp:10 | every position of a width*height buffer is the position of an in-grid cell |
| Images.Image.constructor | src/Image.cpp:5-8 | the buffer holds exactly width*height zeroed pixels, and GetWidth/GetHeight return the constructor arguments |
| Images.Image.GetWidth | src/Image.h:11 | `get_width` returns the row length: width times height is the buffer size |
| Images.Image.GetHeight | src/Image.h:12 | `get_height` returns the number of rows: width times height is the buffer size |
| Images.Image.GetPixelAt | src/Image.cpp:10 | for an in-grid cell (`get_pixel` has no bounds check), GetPixel(r, c) is the pixel stored at the buffer position whose quotient by the width is r and whose remainder is c |
| Images.Image.SetPixel | src/Image.cpp:12-15 | afterwards GetPixel(r, c) is the colour written, every other in-grid cell reads as before, and the buffer is the old one with that one position replaced; dimensions and length cannot change |
| VectorImages.Brighten | src/VectorImage.cpp:36-39 | one pixel under `adjust_brightness`: each channel becomes the integer clamp of channel + value to [0, 255] |
| VectorImages.Scale | src/VectorImage.cpp:47-50 | one pixel under `adjust_contrast`: each channel becomes 255 if channel * multiplier exceeds 255, 0 if it is negative, and otherwise its integer part |
| VectorImages.Edited | src/VectorImage.cpp:33-61 | a region edit never changes the buffer length |
| VectorImages.EditedAt | src/VectorImage.cpp:33-61 | cell (r, c) of the edited buffer is the edited old pixel if (r, c) is in the rectangle, and the old pixel otherwise |
| VectorImages.EditedEmpty | src/VectorImage.cpp:33-61 | an empty rectangle (r1 > r2 or c1 > c2) leaves the buffer unchanged |
| VectorImages.FillIdempotent | src/VectorImage.cpp:55-61 | filling the same rectangle with the same colour twice gives the buffer of filling once |
| VectorImages.FillSetsRegion | src/VectorImage.cpp:55-61 | after a fill every pixel of the rectangle is the fill colour |
| VectorImages.BrightenZero | src/VectorImage.cpp:37-39 | adding 0 to every channel of a pixel gives the pixel back |
| VectorImages.BrightnessZeroIdentity | src/VectorImage.cpp:33-42 | adjusting brightness by 0 leaves the whole buffer unchanged |
| VectorImages.ChannelRoundTrip | src/VectorImage.cpp:37-39 | a channel v with v + d in [0, 255] comes back to v after +d then -d |
| VectorImages.BrightnessUndo | src/VectorImage.cpp:33-42 | brightening by d then by -d restores every channel whose old value plus d stayed within [0, 255] |
| VectorImages.ContrastOneIdentity | src/VectorImage.cpp:44-53 | adjusting contrast by 1 leaves the whole buffer unchanged |
| VectorImages.FillThenBrightenExample | src/VectorImage.cpp:33-61 | on a 4 x 4 grid of (10, 10, 10), filling the inner 2 x 2 square with (200, 0, 0) and then brightening the whole grid by 5 gives (205, 5, 5) in the square and (15, 15, 15) everywhere else |
| VectorImages.ScanStep | src/VectorImage.cpp:34-36 | editing the cell the loops have reached extends "the visited cells are edited, the rest untouched" by that cell |
| VectorImages.ScanDone | src/VectorImage.cpp:33-42 | once the row loop has passed r2, the buffer is exactly the edited buffer |
| VectorImages.VectorImage.constructor | src/VectorImage.cpp:6-7 | the buffer is sized to exactly width*height pixels (holding the given initial pixels) |
| VectorImages.VectorImage.GetImage | src/VectorImage.cpp:23-31 | a fresh Image of the same width and height whose GetPixel(r, c) is the buffer's pixel at r*width + c for every in-grid cell |
| VectorImages.VectorImage.FillRegion | src/VectorImage.cpp:55-61 | the new buffer is Edited(old buffer, rectangle, Fill(color)); every write is in bounds whenever the rectangle is empty or inside the grid |
| VectorImages.VectorImage.AdjustBrightness | src/VectorImage.cpp:33-42 | the new buffer is Edited(old buffer, rectangle, Brightness(value)): each in-rectangle channel becomes old + value saturated |
| VectorImages.VectorImage.AdjustContrast | src/VectorImage.cpp:44-53 | the new buffer is Edited(old buffer, rectangle, Contrast(multiplier)): each in-rectangle channel becomes old * multiplier saturated, the rest untouched |
| Menu.GetRect | src/main.cpp:53-69 | a failed read is always rejected; an accepted rectangle has 0 <= r1 <= r2 < max_rows and 0 <= c1 <= c2 < max_cols (the converse is GetRectExact) |
| Menu.GetRectExact | src/main.cpp:60-61 | after a successful read, get_rect accepts exactly the non-empty rectangles all of whose cells lie in the grid |
| Menu.GetRectWritable | src/main.cpp:60-61 | an accepted rectangle meets the region operations' precondition and each of its cells has an in-range buffer position |
| Menu.RowDeleted | src/main.cpp:187 | the row-deleted buffer has width*(height-1) pixels |
| Menu.RowDeletedAt | src/main.cpp:188-198 | cell (r, c) of the row-deleted buffer is old cell (r, c) above row k and old cell (r+1, c) from row k on |
| Menu.DeleteRow | src/main.cpp:176-201 | k outside [0, height) or a failed read is rejected with nothing built; otherwise a fresh image of width w and height h-1 with new(r, c) = old(r, c) for r < k and old(r+1, c) for r >= k, equal to the rows above k followed by the rows below it |
| Menu.ColumnDeleted | src/main.cpp:214 | the column-deleted buffer has (width-1)*height pixels |
| Menu.ColumnDeletedAt | src/main.cpp:215-225 | cell (r, c) of the column-deleted buffer is old cell (r, c) left of column k and old cell (r, c+1) from column k on |
| Menu.DeleteColumn | src/main.cpp:202-228 | k outside [0, width) or a failed read is rejected with nothing built; otherwise a fresh image of width w-1 and height h with new(r, c) = old(r, c) for c < k and old(r, c+1) for c >= k, equal to each old row without its k-th pixel |

## Left out

- The lazy region tree (src/SegmentTree.h, src/SegmentTree.cpp). The header only declares it, and the .cpp file is an unrelated placeholder with empty bodies. There is no code to model. The menu's edits, average queries and blur all go through this tree, so they are not modelled either. The histogram (src/main.cpp:473) calls `Image::histogram`, which src/Image.h does not declare, so there is no code for it either.
- `generate_random` (src/Image.cpp:17-29, src/VectorImage.cpp:11-21), which draws from a random device. The `VectorImage` constructor instead takes the drawn pixels as a parameter.
- The benchmark's update generator (src/main.cpp:404-409). It is a fixed-seed `mt19937` whose draws only feed the timed region operations, which are modelled themselves.
- Terminal output, the menu, and the reading of numbers from standard input, including the `(unsigned char)` narrowing of typed colours. A failed read is a `readOk` flag on `GetRect`, `DeleteRow` and `DeleteColumn`.
- Benchmarks (src/benchmark.cpp and the timing cases in src/main.cpp). They only measure wall-clock time.
- `ImageProcessor` (src/ImageProcessor.cpp). It is a thin wrapper: `generate_random`, `get_image` and `set_image` forward to `Image` (lines 8-12), and `blur` (lines 14-17) calls `Image::blur`, which does not exist in the code. `RGB_d` arithmetic is also left out.
- VectorImages.VectorImage.AdjustContrast: computes the product over exact reals, not IEEE doubles. Rounding of the double product, NaN and infinite multipliers are not modelled.
- VectorImages.VectorImage.AdjustBrightness: adds `value` to a channel over unbounded integers. The C++ `int` addition overflows (undefined behaviour) only when `value` is within 255 of `INT_MAX` (the channel is at least 0, so the sum cannot fall below `INT_MIN`), and that case is not modelled.
- Widths and heights are `nat`, so negative sizes are excluded. No caller passes one: src/main.cpp:74 uses 64 x 32 (through `ImageProcessor`); lines 187 and 214 shrink an image of at least one row or column by one; lines 271 and 388-389 reject sizes that are not positive. 32-bit overflow of `width * height` and `r * width + c` is not modelled.
- `Image` is a value type in C++: assigning it copies the pixels. Here it is a reference to a fresh object. Deletion and `GetImage` always build a fresh image, so no aliasing can arise between the old and the new one.

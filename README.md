# Colour-picker texture: the pixel-buffer helpers

This project models the two texture helpers of the colour-picker generator,
`Extensions.Fill` and `Extensions.Circle`. The generator is a Unity script that
draws an annular RGB colour wheel and saves it as a PNG.

- `Fill` builds a `width * height` array of one colour and writes it over the
  whole texture.
- `Circle` reads the `2r x 2r` block of pixels around a centre (`GetPixels`).
  It walks one quadrant of pixel offsets `(x, y)`, `0 <= x, y < r`. It keeps
  the offsets whose pixel centre `(x + 0.5, y + 0.5)` lies strictly inside the
  circle. For each kept offset it writes four mirrored cells, with a colour
  computed by a caller-supplied callback from the signed pixel centre. Then it
  writes the block back (`SetPixels`).

A texture's pixels are a flat row-major sequence of an abstract colour type
`C`. `GetPixels` is the `block` argument, copied into a fresh array. `SetPixels`
is the sequence the method returns. The callback is a Dafny function
`PixelPos -> C`.

Pixel centres are kept as doubled integers: offset `(x, y)` has its centre
at `PixelPos(2x + 1, 2y + 1)`. The float test `(x+0.5)^2 + (y+0.5)^2 < r^2` is
then the integer test `(2x+1)^2 + (2y+1)^2 < 4r^2` (`Disc.InDisc`).

Files:

- `disc.dfy` (module `Disc`) holds the geometry. It defines cells, the flat
  index `2 * radius * row + col`, the disc test and the four-way mirror. It
  also defines `Rasterized`, a direct per-pixel reference for the disc, and
  `Painted`, the buffer as the loop leaves it after each offset. The lemmas
  about them are in the same module.
- `extensions.dfy` (module `Extensions`) holds the methods `Fill`, `Circle`
  and `CircleInBlock`, written as loops over an array.

`Circle` is proved to compute exactly `Rasterized`. The properties of the
drawing are proved as lemmas about `Rasterized`:

- which cells are written, and with which colour;
- that every disc pixel is written once;
- that nothing else changes.

The loop indexes cells with the absolute texture row and column. The block,
however, starts at `(centerX - r, centerY - r)`. So the writes stay in the
buffer only under `Disc.InBounds`, which is the method's precondition. That
condition holds for the program's coloured disc. It fails for the program's
inner hole (see Findings).

## Model

| member | source | states |
|---|---|---|
| `Extensions.Fill` | Assets/Scripts/Extensions.cs:16-25 | the buffer has `width * height` entries and every entry is the fill colour |
| `Extensions.Circle` | Assets/Scripts/Extensions.cs:43-72 | with the buffer read by GetPixels and every write in bounds, the buffer written back is exactly the per-pixel disc rasterisation `Rasterized` |
| `Extensions.CircleInBlock` | Assets/Scripts/Extensions.cs:43-72 | corrected Circle with block-relative indices: for any centre, no bounds condition is needed, the result is the disc drawn in the middle of the block, and each mirrored cell of an inside offset, at its block-relative index, holds the colour of its signed centre |
| `Disc.Rasterized` | Assets/Scripts/Extensions.cs:45-71 | the disc drawn pixel by pixel has as many cells as the block GetPixels read, which is the block SetPixels writes back |
| `Disc.CellAt` | Assets/Scripts/Extensions.cs:64-67 | every flat index is the index of a cell whose column lies in the circle's column window `[cx - r, cx + r)` |
| `Disc.IndexInjective` | Assets/Scripts/Extensions.cs:64-67 | two cells in the column window with the same flat index are the same cell |
| `Disc.CellAtIndex` | Assets/Scripts/Extensions.cs:64-67 | decoding the index of a window cell gives that cell back |
| `Disc.MirrorCellDecodes` | Assets/Scripts/Extensions.cs:61-67 | each of the four cells written for a quadrant offset decodes back to itself |
| `Disc.MirrorIndices` | Assets/Scripts/Extensions.cs:51-52 | the four mirror cells have the indices the loop computes from `py = cy + y`, `ny = cy - y - 1`, `px = cx + x`, `nx = cx - x - 1` |
| `Disc.InsideSymmetric` | Assets/Scripts/Extensions.cs:59-67 | the disc test for one quadrant offset decides all four signed centres passed to the callback |
| `Disc.MirrorWritesDisjoint` | Assets/Scripts/Extensions.cs:47-67 | two writes, each for any quadrant offset and any mirror, hit the same index only if they are the same write; so every disc pixel is written once |
| `Disc.MirrorsDistinct` | Assets/Scripts/Extensions.cs:61-67 | the four cells written for one offset are pairwise distinct |
| `Disc.RasterizedMirror` | Assets/Scripts/Extensions.cs:47-67 | for every inside quadrant offset, each mirrored cell lies in `[c - r, c + r)` on both axes and holds the callback's value for its own signed centre |
| `Disc.RasterizedUnwritten` | Assets/Scripts/Extensions.cs:45-71 | an index that no write of an inside offset hits keeps the value GetPixels read |
| `Disc.RasterizedOutsideDisc` | Assets/Scripts/Extensions.cs:56-59 | a window cell whose pixel centre fails the half-pixel test keeps its old value |
| `Disc.PaintedStart` | Assets/Scripts/Extensions.cs:45 | before the first offset the loop's buffer is the block read by GetPixels |
| `Disc.PaintedRowEnd` | Assets/Scripts/Extensions.cs:47-54 | finishing row `y` of the quadrant is starting row `y + 1` |
| `Disc.PaintedEnd` | Assets/Scripts/Extensions.cs:47 | after the last row, the loop's buffer is the reference rasterisation |
| `Disc.MirrorPixel` | Assets/Scripts/Extensions.cs:58-67 | each mirror cell of an offset gets its own signed centre's colour if the offset passes the test, and keeps the block's value otherwise |
| `Disc.HitIsMirror` | Assets/Scripts/Extensions.cs:61-67 | every cell whose offset is `(x, y)` is one of the four cells written for `(x, y)` |
| `Disc.PlotAsWritten` | Assets/Scripts/Extensions.cs:61-67 | the four writes of one offset, with the loop's own index expressions and signed centres, are in bounds, and are the model's four mirror writes |
| `Disc.PaintStep` | Assets/Scripts/Extensions.cs:54-68 | one inner iteration makes the four mirrored writes for an inside offset, and changes nothing for an outside one |
| `Disc.WindowIndexInBuffer` | Assets/Scripts/Extensions.cs:45 | a cell of the block `[0, 2r) x [0, 2r)` has an index in `[0, 4r^2)` |
| `Disc.BlockIndexInBuffer` | Assets/Scripts/Extensions.cs:45 | block-relative indices of the four mirror cells are in `[0, 4r^2)` for every centre, and equal the indices of the disc centred at `(r, r)` |
| `Disc.CentredInBounds` | Assets/Scripts/Main.cs:112 | with centre `(r, r)`, every write of Circle lies in the `4r^2` buffer |
| `Disc.InnerHoleOverruns` | Assets/Scripts/Main.cs:115 | for centre `(R, R)` and radius `R - T` with `0 < T < R`, offset `(0, R - T - 1)` is inside the disc and its write lands past the buffer's end |
| `Disc.DefaultHoleOverruns` | Assets/Scripts/Main.cs:15-21 | with `Radius = 512` and `Thick = 100`, the hole's buffer has 678976 cells and, as a witness, the write for offset `(0, 411)` goes to index 761064 |
| `Disc.DefaultHoleFirstOverrun` | Assets/Scripts/Main.cs:115-128 | with the defaults, every write of an inside offset on rows `y < 312` is in bounds, and the first write of offset `(0, 312)` goes to index 679488 of the 678976-cell buffer; that is where the call throws, before the texture is applied, encoded or saved |

## Left out

- `Main.Start` (engine lifecycle, texture creation, `Apply`, PNG encoding, the file write, logging) is engine and I/O plumbing. The two calls it makes to `Circle` are only modelled through their bounds, in `CentredInBounds`, `InnerHoleOverruns` and `DefaultHoleOverruns`.
- `Main.CalcColor` is floating-point trigonometry through an engine call. It is the function parameter `calcColor`.
- The RGB reference-point setup uses quaternion rotation, which is float engine maths.
- `GetPixels` and `SetPixels` are modelled as copying the block in and out. How the engine checks the block against the texture, or places it there, is not modelled.
- `Extensions.Circle`: an out-of-range write throws `IndexOutOfRangeException` in the source. The model makes "every write in bounds" (`InBounds`) a precondition instead of modelling the exception.
- `Extensions.Circle`: `radius` is a `nat`. A negative radius would make `GetPixels` fail in the engine, and that is not modelled.
- `Extensions.Circle`: the `float` test `sqrMagnitude < radius * radius` is modelled as exact. In single precision every intermediate is exact for radii up to at least 2048 (each `(x + 0.5)^2` stays below 2^22 and their sum below 2^23); the program uses 512. Rounding for larger radii is not modelled.
- `Extensions.Circle`: the 32-bit `int` arithmetic is modelled as unbounded. For the centred call, `2 * radius * py` overflows only from radius 23171 and `radius * radius` only from radius 46341; that wrap-around is not modelled.
- `Extensions.Circle`: the colour callback is modelled as a side-effect-free function of the pixel centre. The program's `CalcColor` writes its `Angles` scratch field on each call, but its result depends only on the pixel centre.
- `Extensions.Fill`: the colour type needs a default value (`C(0)`), like a fresh C# `Color[]`. Writing to the texture is the returned sequence.

## Findings

| source | as written | input that shows it | evidently intended | confidence | as-written member | corrected member |
|---|---|---|---|---|---|---|
| Assets/Scripts/Extensions.cs:64-67 | cells are indexed `2 * radius * py + px` with absolute texture row `py` and column `px`, but the buffer is the `2r x 2r` block starting at `(centerX - radius, centerY - radius)` | the inner-hole call at Assets/Scripts/Main.cs:115 with `Radius = 512`, `Thick = 100`: centre `(512, 512)`, radius 412, the first write that leaves the 678976-cell buffer is offset `(0, 312)`, at index 679488 (offset `(0, 411)`, index 761064, is another witness; any `0 < Thick < Radius` overruns). The call throws there, so `Start` never reaches `Apply`, `EncodeToPNG` or `WriteAllBytes` and no PNG is written | index relative to the block, `2r * (py - (centerY - r)) + (px - (centerX - r))`, which draws the disc in the middle of the block for every centre | not executed; inspector values in the scene may override the defaults | `Disc.InnerHoleOverruns`, `Disc.DefaultHoleFirstOverrun` | `Extensions.CircleInBlock` |

# drawsvg rasterizer core in Dafny

This project models the CPU rasterizer of drawsvg and the index and level arithmetic of its texture sampler.

The renderer keeps a supersampled RGBA byte buffer of `w x h` cells, where `w = sample_rate * target_w` and `h = sample_rate * target_h`. It does the following:

- composites primitives into that buffer with a source-over blend (`fill_sample`, `fill_pixel`);
- rasterizes points, integer Bresenham lines and triangles into it;
- box-filters it into the caller's `target_w x target_h` render target (`resolve`).

The texture side covers the following:

- the mip pyramid that `generate_mips` allocates and fills from 2x2 parent blocks;
- the `color_at_tex` bound;
- the nearest, bilinear and trilinear lookups.

Modules, one per component of the source:

- `Common` holds bytes, `Option`, cell addressing `4*(x + y*w)` and small arithmetic facts.
- `Compositor` holds colours over exact reals, the per-byte blend `Over`, and the specification functions `Paint` / `PaintCells` of the buffer after compositing.
- `Line` holds the closed form `Segment` of the pixels a line plots, and the imperative error-term walk proved equal to it.
- `Triangle` holds the edge cross products, the `lit` test and the column-by-column scan with its early exit.
- `SampleResolve` holds the box-sum specification of `resolve`.
- `Renderer` holds the class `SoftwareRenderer`:
  - its `array` sample buffer and borrowed render target are updated in place;
  - every method is proved against the specification functions above.
- `Mipmap` holds mip levels, `color_at_tex`, the allocation and filling specification, and `GenerateMips` over the class `Texture`.
- `Sampler` holds the nearest, bilinear and trilinear lookups as functions, with their lemmas.

Float colour values are exact `real`s, and a `(uint8_t)` cast is the floor (`Quantize`). A failed `assert` in `color_at_tex` is a `None` result.

Two defects of the source are recorded under "## Findings", each beside its corrected version:

- The `lit` test lights the whole line through b and c, not just the closed triangle. With the early exit of the column scan, this can make the scan skip a sample that lies inside the triangle: for a=(10,10), b=(0,0), c=(4,2) at one sample per pixel, column 8 stops after the spurious row 4 and never reaches (8,8). `RasterizeTriangle` keeps the written test. `Triangle.Inside` is the intended one, and under it the same scan (`ScanBox` with `InsideTest`) fills exactly the covered samples.
- A texture whose start level is one texel high, such as a 4x1 base, fails `color_at_tex`'s assertion while its mip levels are filled. Clamping each read into the parent fixes it and changes nothing where the parent is twice the child.

Listing a triangle's vertices as a, c, b leaves both tests and the whole scan unchanged (`Renderer.TriangleScanReversed`). Rotating them to b, c, a does not: the reference edge changes, and a point of the line through b and c that was lit becomes unlit (`Triangle.LitDependsOnFirstVertex`).

## Model

| member | source | states |
|---|---|---|
| Renderer.SoftwareRenderer.SetSampleRate | src/software_renderer.cpp:54-65 | the rate is stored; w = rate*target_w and h = rate*target_h; the buffer is 4*w*h bytes with the old prefix kept and the new bytes zero; the target is untouched and the size invariant holds |
| Renderer.SoftwareRenderer.SetRenderTarget | src/software_renderer.cpp:67-82 | the given buffer and size are adopted; w and h follow the rate; the sample buffer is resized the same way as above |
| Renderer.Resize | src/software_renderer.cpp:64 | the new array holds the old prefix and zeros beyond it |
| Renderer.ResizedKeepsPrefix | src/software_renderer.cpp:64 | resizing keeps every shared byte, zero-fills the rest, and changes nothing at the same length |
| Renderer.Resized | src/software_renderer.cpp:64 | the resized buffer has the requested length, keeps every byte of the old prefix and is zero beyond the old length |
| Renderer.SoftwareRenderer.ClearSampleBuffer | src/software_renderer.cpp:19-20 | every byte of the sample buffer is 255 |
| SampleResolve.ResolvedConstant | src/software_renderer.cpp:494-513 | a buffer holding v in every byte resolves to v in every target byte, so a cleared buffer resolves to white |
| Renderer.SoftwareRenderer.FillSample | src/software_renderer.cpp:517-541 | the buffer becomes Paint of the one cell (sx, sy); with PaintCell and PaintOutside, only its four bytes change, and nothing changes out of range |
| Compositor.PaintCell | src/software_renderer.cpp:520-536 | compositing one in-range cell changes exactly the bytes 4*(x+y*w)..+3, each to the blend of its channel |
| Compositor.PaintCellWrites | src/software_renderer.cpp:532-536 | the four in-place byte writes of fill_sample, one per channel at 4*(x+y*w)+k, give exactly Paint of that one cell |
| Compositor.Paint | src/software_renderer.cpp:517-553 | the buffer after compositing c over the cells of [x0,x1) x [y0,y1): each byte of such a cell becomes Over of itself and every other byte is kept; PaintCell, PaintOutside, PaintExtendDown and PaintExtendRight state it |
| Compositor.PaintOutside | src/software_renderer.cpp:518-519 | a cell or block outside [0,w) x [0,h) leaves the buffer unchanged |
| Compositor.Quantize | src/software_renderer.cpp:533-536 | (uint8_t)(v*255) for v in [0,1] is the byte b with b <= 255v < b+1 |
| Compositor.OverValue | src/software_renderer.cpp:523-531 | the blended channel (1-a)*d + c*a, and 1-(1-d)(1-a) for alpha, stays in [0,1] |
| Compositor.OverOpaque | src/software_renderer.cpp:528-536 | an opaque colour replaces the byte by its quantised channel |
| Compositor.OverTransparent | src/software_renderer.cpp:528-536 | a fully transparent colour leaves the byte unchanged |
| Compositor.Over | src/software_renderer.cpp:523-536 | the stored byte after blending channel k of c over byte d: OverValue quantised by the (uint8_t) cast; OverOpaque and OverTransparent give its two extremes |
| Renderer.SoftwareRenderer.FillPixel | src/software_renderer.cpp:543-553 | the buffer becomes Paint of the s x s block [x*s, x*s+s) x [y*s, y*s+s) |
| Compositor.PaintExtendDown | src/software_renderer.cpp:549-551 | painting rows [y0,y1) and then row y1 equals painting rows [y0,y1+1) |
| Compositor.PaintExtendRight | src/software_renderer.cpp:548-552 | painting columns [x0,x1) and then column x1 equals painting columns [x0,x1+1) |
| Compositor.PaintEmpty | src/software_renderer.cpp:548-552 | an empty block changes nothing |
| Compositor.PaintCellsAppend | src/software_renderer.cpp:441-462 | painting the cells of a + b is painting a, then b |
| Compositor.PaintCells | src/software_renderer.cpp:453-455 | the buffer after fill_sample of each listed cell in order, of unchanged length; PaintCellsAppend and PaintCellsElsewhere state it |
| Compositor.PaintCellsElsewhere | src/software_renderer.cpp:517-536 | compositing a list of cells changes no byte of a cell that is not in the list |
| Renderer.SoftwareRenderer.RasterizePoint | src/software_renderer.cpp:250-267 | the buffer becomes PlotPixel of (floor x, floor y): the pixel's block is composited, and nothing happens outside the target |
| Renderer.PlotPixel | src/software_renderer.cpp:250-267 | the buffer after plotting target pixel (px, py): its s x s sample block composited when the pixel is inside the target, the buffer unchanged otherwise |
| Renderer.BlockInside | src/software_renderer.cpp:544-547 | the block of an in-target pixel lies inside the supersampled row or column, so every sample passes fill_sample's check |
| Renderer.SoftwareRenderer.RasterizeLine | src/software_renderer.cpp:269-343 | the buffer becomes PlotPixels of Line.Segment of the floored endpoints, plotted in order |
| Renderer.PlotPixels | src/software_renderer.cpp:269-343 | the buffer after plotting the listed pixels in order, of unchanged length |
| Line.LinePixels | src/software_renderer.cpp:274-343 | the pixels plotted, in order, are Segment of the floored endpoints |
| Line.ShallowPixels | src/software_renderer.cpp:298-319 | the error-term walk along x yields Shallow |
| Line.SteepPixels | src/software_renderer.cpp:320-342 | the error-term walk along y yields Steep |
| Line.Offset | src/software_renderer.cpp:305-318 | the minor-axis offset after i steps: i*minor/major rounded to nearest with halves up; OffsetBracket and OffsetStep tie it to the error term |
| Line.Shallow | src/software_renderer.cpp:298-319 | the x-major pixels: x = sx+i and y moved Offset(i) towards ey, for i = 0 .. ex-sx; ShallowPixels, ShallowEnds and ShallowNearIdeal state it |
| Line.Steep | src/software_renderer.cpp:320-342 | the y-major pixels: y = sy+i and x moved Offset(i) towards ex, for i = 0 .. ey-sy; SteepPixels, SteepEnds and SteepNearIdeal state it |
| Line.Segment | src/software_renderer.cpp:282-343 | the pixels of the line in plotting order: a horizontal or vertical run, or the shallow or steep walk from the endpoint with the smaller major coordinate; SegmentLength, SegmentEndpoints, SegmentConnected and SegmentNearIdeal state it |
| Line.OffsetStep | src/software_renderer.cpp:308-318 | the loop keeps -major <= 2*error < major, and one step moves the minor coordinate exactly when 2*(error+minor) >= major |
| Line.OffsetBracket | src/software_renderer.cpp:308-318 | the minor offset at step i is the k with -major <= 2*(i*minor - k*major) < major |
| Line.OffsetEnds | src/software_renderer.cpp:305-319 | the minor offset is 0 at the first step and minor at the last |
| Line.SegmentLength | src/software_renderer.cpp:282-343 | max(abs dx, abs dy) + 1 pixels are plotted, including horizontal and vertical lines |
| Line.SegmentEndpoints | src/software_renderer.cpp:282-343 | the first and last pixels are the two floored endpoints |
| Line.ShallowEnds | src/software_renderer.cpp:298-319 | the x-major walk starts at its start point and ends at its end point |
| Line.SteepEnds | src/software_renderer.cpp:320-342 | the y-major walk starts at its start point and ends at its end point |
| Line.SegmentSymmetric | src/software_renderer.cpp:282-326 | swapping the endpoints gives the identical pixel sequence |
| Line.SegmentConnected | src/software_renderer.cpp:286-341 | consecutive pixels advance the major axis by 1 and the minor by at most 1 |
| Line.ShallowConnected | src/software_renderer.cpp:298-319 | each step of the x-major walk advances x by 1 and y by at most 1 |
| Line.SteepConnected | src/software_renderer.cpp:320-342 | each step of the y-major walk advances y by 1 and x by at most 1 |
| Line.ShallowNearIdeal | src/software_renderer.cpp:298-319 | every pixel of the x-major walk lies within half a pixel of the ideal line |
| Line.SteepNearIdeal | src/software_renderer.cpp:320-342 | every pixel of the y-major walk lies within half a pixel of the ideal line |
| Line.SegmentNearIdeal | src/software_renderer.cpp:282-343 | every plotted pixel lies within half a pixel, along the minor axis, of the ideal line |
| Line.LineCrossReversed | src/software_renderer.cpp:282-343 | the distance measure only changes sign when the endpoints are swapped |
| Renderer.SoftwareRenderer.RasterizeTriangle | src/software_renderer.cpp:425-464 | the buffer becomes PaintCells of TriangleScan under the written lit test: the cells the column scan reaches over the box [floor min, ceil max] |
| Renderer.TriangleScan | src/software_renderer.cpp:425-464 | the cells the scan fills, in order, under a given coverage test: ScanCells over the columns and rows of the subsample box [floor min, ceil max] |
| Renderer.TriangleScanReversed | src/software_renderer.cpp:425-464 | listing the second and third vertices in the other order fills the same cells in the same order, under either test |
| Renderer.Min3 | src/software_renderer.cpp:431-433 | the least of three values |
| Renderer.Max3 | src/software_renderer.cpp:432-434 | the greatest of three values |
| Renderer.Ceil | src/software_renderer.cpp:432-434 | ceil: x <= r < x + 1 |
| Renderer.SoftwareRenderer.ScanBox | src/software_renderer.cpp:441-462 | the column loop composites the cells of ScanCells, column by column, under the given coverage test |
| Renderer.SoftwareRenderer.ScanColumn | src/software_renderer.cpp:443-460 | one column composites the cells of ColumnRows under the given test: lit rows in order, up to the first unlit row after a lit one |
| Triangle.LitReversedWinding | src/software_renderer.cpp:435-452 | listing the vertices as a, c, b gives the same test |
| Triangle.Edge | src/software_renderer.cpp:435-451 | the cross product of q-p and r-p, that is cross_a, cross_b and cross_c; EdgeSum, EdgeReversed and EdgeAlongColumn state it |
| Triangle.Lit | src/software_renderer.cpp:446-452 | the written test: cross_a*cross_b >= 0 and cross_c*cross_b >= 0; LitCharacterised, LitOnLineBC and LitDependsOnFirstVertex state it |
| Triangle.Inside | src/software_renderer.cpp:446-452 | the intended test: the three cross products are all >= 0 or all <= 0; InsideIsClosed and InsideIsLit state it |
| Triangle.Covers | src/software_renderer.cpp:446-452 | the coverage test a scan applies: Lit as written or Inside as intended |
| Triangle.CoversReversedWinding | src/software_renderer.cpp:435-452 | listing the vertices as a, c, b leaves either test unchanged |
| Triangle.InsideIsClosed | src/software_renderer.cpp:446-452 | for a non-degenerate triangle, Inside holds iff the point lies in the closed triangle |
| Triangle.InsideIsLit | src/software_renderer.cpp:446-452 | Inside implies Lit, and for a non-degenerate triangle Lit holds iff Inside or the point lies on line bc |
| Triangle.InsideColumnConvex | src/software_renderer.cpp:443-452 | on one column, a point between two Inside points is Inside |
| Triangle.EdgeBetween | src/software_renderer.cpp:449-451 | along a column a cross product is affine, so it is >= 0 between two points where it is >= 0 |
| Triangle.LitCharacterised | src/software_renderer.cpp:446-452 | for a non-degenerate triangle, lit iff in the closed triangle or on the line through b and c |
| Triangle.LitOnLineBC | src/software_renderer.cpp:450-452 | cross_b == 0 alone makes a point lit |
| Triangle.LitOutsideTriangle | src/software_renderer.cpp:446-452 | a point of line bc beyond b or c is lit although outside the triangle |
| Triangle.LitDependsOnFirstVertex | src/software_renderer.cpp:435-452 | rotating the vertex order (b, c, a) unlights such a point: the test depends on which vertex is first |
| Triangle.EdgeSum | src/software_renderer.cpp:449-451 | the three cross products sum to twice the signed area |
| Triangle.EdgeReversed | src/software_renderer.cpp:449-451 | reversing an edge negates its cross product |
| Triangle.HalfStepIsZero | src/software_renderer.cpp:444-445 | 1 / (2*sample_rate) is 0 in integer arithmetic for every rate >= 1 |
| Triangle.CandidateAtUnitRate | src/software_renderer.cpp:441-445 | at rate 1 the tested point is the integer grid corner |
| Triangle.CandidateColumn | src/software_renderer.cpp:441-445 | the candidates of one column share x, and y grows with the row |
| Triangle.SampleAtUnitRate | src/software_renderer.cpp:441-452 | at rate 1 a subsample is tested at its integer grid corner |
| Triangle.ColumnRows | src/software_renderer.cpp:443-460 | the rows a column fills: every lit row, up to the first unlit row after a filled one; ColumnRowsSound, ColumnRowsRun and ColumnRowsComplete state it |
| Triangle.ColumnRowsAdvance | src/software_renderer.cpp:453-459 | one row of the inner loop: a lit row is appended, an unlit row after a fill ends the column, and any other unlit row is skipped |
| Triangle.ColumnRowsSound | src/software_renderer.cpp:443-460 | a column fills only lit rows of its range, each once, increasing |
| Triangle.ColumnRowsRun | src/software_renderer.cpp:453-459 | every row of a run of lit rows from the start is filled |
| Triangle.ColumnRowsComplete | src/software_renderer.cpp:453-459 | when the lit rows of a column are contiguous, the early exit fills all of them |
| Triangle.ScanCellsSound | src/software_renderer.cpp:441-462 | every filled cell is a lit subsample of the box |
| Triangle.ScanCellsByColumn | src/software_renderer.cpp:441-462 | a filled cell of column kx comes from that column's scan |
| Triangle.ScanCells | src/software_renderer.cpp:441-462 | the cells the scan fills: the cells of columns 0, 1, ... in order; ScanCellsSound and ScanCellsByColumn state it |
| Triangle.ColumnRowsReversed | src/software_renderer.cpp:443-460 | the rows a column fills do not depend on the order of the second and third vertices |
| Triangle.ScanCellsReversed | src/software_renderer.cpp:441-462 | the cells the scan fills do not depend on the order of the second and third vertices |
| Triangle.InsideRowsContiguous | src/software_renderer.cpp:443-460 | under the intended test the covered rows of a column are contiguous |
| Triangle.InsideColumnComplete | src/software_renderer.cpp:443-460 | under the intended test the early exit still fills every covered row of the column |
| Triangle.InsideScanComplete | src/software_renderer.cpp:441-462 | under the intended test every covered subsample of the box is filled |
| Triangle.InsideScanExact | src/software_renderer.cpp:441-462 | under the intended test a subsample of the box is filled iff it is covered |
| Triangle.ColumnEightLit | src/software_renderer.cpp:446-452 | for a=(10,10), b=(0,0), c=(4,2), the integer points of x=8 lit are exactly (8,4) and (8,8) |
| Triangle.ColumnEightRows | src/software_renderer.cpp:443-460 | that column's scan fills row 4 alone |
| Triangle.ScanSkipsLitSample | src/software_renderer.cpp:441-462 | the scan never fills cell (8,8) |
| Triangle.SkippedSampleInside | src/software_renderer.cpp:446-452 | (8,8) is lit and lies in the closed triangle |
| Triangle.SkippedSampleAccepted | src/software_renderer.cpp:446-452 | the intended test covers (8,8), which the written scan skips |
| Renderer.SoftwareRenderer.Resolve | src/software_renderer.cpp:489-515 | the first 4*target_w*target_h target bytes become Resolved(sample buffer), and the rest are untouched |
| Renderer.SoftwareRenderer.ResolvePixel | src/software_renderer.cpp:496-512 | exactly the four bytes of pixel (i, j) are written, each with its channel's block mean |
| Renderer.SoftwareRenderer.BlockSums | src/software_renderer.cpp:497-508 | the four channel sums over the pixel's s x s block |
| Renderer.SoftwareRenderer.ColumnSums | src/software_renderer.cpp:500-507 | the four channel sums down one column of the block |
| Renderer.PixelResolved | src/software_renderer.cpp:509-512 | byte k of pixel (i, j) in Resolved is the block sum of channel k divided by s*s |
| Renderer.PixelOfByte | src/software_renderer.cpp:496 | byte p belongs to pixel (i, j) iff it is one of the four bytes from 4*(target_w*j + i) |
| SampleResolve.ColumnSum | src/software_renderer.cpp:500-507 | a column sum of n bytes lies in [0, 255n] |
| SampleResolve.BlockSum | src/software_renderer.cpp:499-508 | a block sum of m x n bytes lies in [0, 255mn] |
| SampleResolve.ResolvedBetween | src/software_renderer.cpp:509-512 | each resolved byte lies between the least and the greatest sample of its block, so it lies in 0..255 |
| SampleResolve.ResolvedUniform | src/software_renderer.cpp:509-512 | a block whose samples all hold v resolves to exactly v |
| SampleResolve.ResolvedAtUnitRate | src/software_renderer.cpp:494-513 | at rate 1 the target equals the sample buffer |
| SampleResolve.ResolvedByte | src/software_renderer.cpp:496-512 | channel k of target pixel (i, j): its s x s block sum divided by s*s; ResolvedBetween and ResolvedUniform state it |
| SampleResolve.Resolved | src/software_renderer.cpp:494-513 | the first 4*target_w*target_h bytes of the render target after resolve, of that length; ResolvedConstant and ResolvedAtUnitRate state it |
| Mipmap.ColorAtTex | src/texture.cpp:28-35 | the read succeeds iff x + y*width < width*height, and then channel k is texel byte 4*(x+y*width)+k over 255 |
| Mipmap.ColorAtTexInside | src/texture.cpp:28-35 | every texel inside the level passes the assertion |
| Mipmap.ColorAtTexWraps | src/texture.cpp:31-32 | column index width on a row above the last reads texel 0 of the next row |
| Mipmap.ColorAtTexPastEnd | src/texture.cpp:31-32 | column index width on the last row, or any row index >= height, fails the assertion |
| Mipmap.TexelAt | src/texture.cpp:28-35 | texel (x, y) as a colour: each of its four bytes from 4*(x+y*width) over 255; TexelChannel states it |
| Mipmap.GenerateMips | src/texture.cpp:37-95 | an invalid start level is reported and the texture is unchanged; otherwise generation succeeds iff every level's 2x2 reads fit its parent, and then the pyramid is FillUpTo of Allocated |
| Mipmap.AllocateLevels | src/texture.cpp:52-76 | the pyramid becomes Allocated(old pyramid, L, kMaxMipLevels) |
| Mipmap.FillLevels | src/texture.cpp:78-94 | succeeds iff all reads fit, and then the pyramid is refilled from level 1 up, each level from its refilled parent |
| Mipmap.DownsampleLevel | src/texture.cpp:82-93 | succeeds iff the level's reads fit, and then yields DownsampledTexels of the parent |
| Mipmap.DownsampleRow | src/texture.cpp:83-92 | a row either fails, and then the level does not fit, or extends the correct texel prefix by one row |
| Mipmap.ReadBlock | src/texture.cpp:84-89 | the four reads succeed iff the block fits the parent, giving base plus the four texels, times 0.25 |
| Mipmap.ReadFailed | src/texture.cpp:84-88 | one failed block read means the level does not fit |
| Mipmap.ReadOrder | src/texture.cpp:85-88 | the four read indices are non-decreasing, so the last read bounds them all |
| Mipmap.BlockFitsEarlier | src/texture.cpp:82-88 | if a block fits, every block at or before it in both coordinates fits |
| Mipmap.DoubledParentFits | src/texture.cpp:85-88 | a parent at least twice the child in each dimension passes every read |
| Mipmap.OneRowParentFails | src/texture.cpp:85-88 | a parent one texel high fails the reads of any child |
| Mipmap.LevelCount | src/texture.cpp:53-58 | the level count is L + floor(log2(max(w,h))) + 1 capped at kMaxMipLevels, and is at least 1 |
| Mipmap.ILog2 | src/texture.cpp:55 | floor(log2 n): 2^r <= n < 2^(r+1) |
| Mipmap.ILog2OfPow2 | src/texture.cpp:55 | floor(log2(2^n)) is n |
| Mipmap.Allocated | src/texture.cpp:58-76 | the resized pyramid has LevelCount levels, all well formed |
| Mipmap.AllocatedLevel | src/texture.cpp:64-74 | levels up to L are kept, and later ones are well formed |
| Mipmap.AllocatedShape | src/texture.cpp:60-74 | level L+i has width max(1, w/2^i) and height max(1, h/2^i), both >= 1, with 4*width*height texels |
| Mipmap.HalvedStep | src/texture.cpp:67-70 | halving i+1 times is max(1, halving i times / 2) and is >= 1 |
| Mipmap.HalvingReachesOne | src/texture.cpp:55-70 | after floor(log2 d) halvings a dimension d is 1, and it was >= 2 one step earlier |
| Mipmap.NewLevel | src/texture.cpp:72-74 | a new level's texel array has 4*width*height bytes |
| Mipmap.ResizedLevels | src/texture.cpp:58 | resizing the pyramid keeps the shared prefix of levels |
| Mipmap.FillUpTo | src/texture.cpp:78-94 | refilling keeps every level's size and well-formedness, and levels past n are unchanged |
| Mipmap.FillUpToFixes | src/texture.cpp:79-93 | each refilled level is the downsampling of its refilled parent |
| Mipmap.FillStep | src/texture.cpp:79-93 | one step of the fill: level i is refilled from its refilled parent, whose reads fit iff the original parent's do, and the levels so far fit together with it iff it fits |
| Mipmap.FillUpToStable | src/texture.cpp:79-93 | once level m is refilled, no later step changes it or any level below it |
| Mipmap.FillUpToLast | src/texture.cpp:79-93 | the last step of the fill computes its level from the refilled parent |
| Mipmap.SquarePowerOfTwoFits | src/texture.cpp:53-94 | from a 2^n x 2^n level 0 every read of every level fits |
| Mipmap.OneRowBaseFails | src/texture.cpp:53-94 | a start level one texel high and at least two wide (a 4x1 base) gets a sub-level, and its reads fail |
| Mipmap.Clamp01 | src/texture.cpp:22-25 | max(0, min(1, v)) lies in [0,1] and is v on [0,1] |
| Mipmap.QuarterByte | src/texture.cpp:89-91 | a quarter of a sum of four bytes, written back, is the sum divided by 4 |
| Mipmap.DownsampledAverage | src/texture.cpp:84-91 | with a zero accumulator, each child byte is the parent block's channel sum divided by 4 |
| Mipmap.DownsampledUniform | src/texture.cpp:84-91 | a block of four equal bytes downsamples to that byte |
| Mipmap.BlockAverage | src/texture.cpp:84-89 | the accumulator plus the four texels of the 2x2 parent block, times 0.25; BlockAverageChannel states it |
| Mipmap.BlockAverageChannel | src/texture.cpp:84-89 | with a zero accumulator, channel q of the average is the block's channel sum over 1020 |
| Mipmap.DownsampledTexels | src/texture.cpp:82-92 | the child level's bytes: byte 4*(j*cw+k)+q is channel q of the block average, clamped and quantised; DownsampledTexelAt, DownsampledAverage and DownsampledUniform state it |
| Mipmap.DownsampledTexelAt | src/texture.cpp:90-91 | byte 4*(j*cw+k)+q of the child lies in range and holds the quantised channel q of block (k, j) |
| Mipmap.ToByte | src/texture.cpp:20-26 | float_to_uint8 of one channel: clamped to [0,1] and floored after scaling by 255 |
| Mipmap.ClampTo | src/texture.cpp:85-88 | the intended read coordinate: in [0, size), and unchanged when already below size |
| Mipmap.ClampedReadsFit | src/texture.cpp:85-88 | all four clamped reads of any child texel pass color_at_tex's assertion |
| Mipmap.ClampedAllFit | src/texture.cpp:53-94 | with clamped reads every read of every level of any well-formed pyramid fits, a 4x1 base included |
| Mipmap.ClampedAgreesWhenDoubled | src/texture.cpp:82-92 | where the parent is at least twice the child in each dimension, the clamped fill computes the same texels as the written one |
| Mipmap.ReadBlockClamped | src/texture.cpp:84-89 | the corrected block read: four clamped reads, none of which can fail, averaged as ClampedBlockAverage |
| Mipmap.ClampedTexels | src/texture.cpp:82-92 | the intended child level's bytes, of length 4*cw*ch |
| Mipmap.BlockChannelSum | src/texture.cpp:84-88 | the channel sum of a 2x2 block lies in 0..1020 |
| Compositor.Unit | src/texture.cpp:12-17 | a byte over 255 lies in [0,1] |
| Sampler.NearestSentinel | src/texture.cpp:104-106 | outside [0,1] x [0,1] the nearest lookup is magenta whatever the texture |
| Sampler.SampleNearest | src/texture.cpp:97-112 | magenta outside [0,1] x [0,1], otherwise color_at_tex of (floor(u*width), floor(v*height)), which fails when its assertion does; NearestSentinel, NearestInside, NearestFailsAtVOne and NearestAtUOne state it |
| Sampler.TexelIndexRange | src/texture.cpp:108-111 | for t in [0,1], floor(t*size) lies in [0,size], is below size when t < 1 and equals size at t = 1 |
| Sampler.NearestInside | src/texture.cpp:108-111 | for u, v in [0,1) the lookup reads the in-range texel (floor(u*w), floor(v*h)) |
| Sampler.NearestFailsAtVOne | src/texture.cpp:111 | at v = 1 the lookup fails color_at_tex's assertion |
| Sampler.NearestAtUOne | src/texture.cpp:111 | at u = 1 the lookup returns texel 0 of the next row, or fails on the last row |
| Sampler.SampleNearestClamped | src/texture.cpp:97-112 | the clamped lookup always yields a colour, and is magenta outside the square |
| Sampler.ClampedNearest | src/texture.cpp:97-112 | the clamped lookup reads the clamped texel and agrees with the written one for u, v < 1 |
| Sampler.AxisTapsRange | src/texture.cpp:127-139 | 0 <= x0 <= x1 <= min(x0+1, width-1), and the weight s lies in [0,1) |
| Sampler.AxisTaps | src/texture.cpp:127-139 | the two taps max(0, floor(x-0.5)) and min(size-1, floor(x+0.5)) of x = t*size, and the weight max(x-lo-0.5, 0); AxisTapsRange states it |
| Sampler.BilerpConstant | src/texture.cpp:140-141 | interpolating four equal colours gives that colour |
| Sampler.Bilerp | src/texture.cpp:140-141 | (1-t)((1-s)c00 + s c10) + t((1-s)c01 + s c11); BilerpConstant states it |
| Sampler.SampleBilinear | src/texture.cpp:114-142 | magenta outside the square, otherwise Bilerp of the four color_at_tex reads at the taps; BilinearNeverFails and BilinearUniform state it |
| Sampler.BilinearNeverFails | src/texture.cpp:121-141 | the bilinear lookup always yields a colour, and magenta outside the square |
| Sampler.BilinearUniform | src/texture.cpp:124-141 | a level of one colour samples to that colour everywhere in the square |
| Sampler.TrilinearLevelsRange | src/texture.cpp:151-159 | lod <= 0 picks level 0 and lod >= n-1 the last; otherwise levels floor(lod) and floor(lod)+1, in range, with weights >= 0 summing to 1 whose weighted level is lod |
| Sampler.TrilinearLevels | src/texture.cpp:151-159 | the level choice: level 0, the last level, or floor(lod) and floor(lod)+1 with weights (high - lod) and (lod - low); TrilinearLevelsRange states it |
| Sampler.SampleTrilinear | src/texture.cpp:144-160 | a bilinear lookup of the chosen level, or the weighted sum of the two chosen levels' lookups; TrilinearNeverFails states it |
| Sampler.TrilinearNeverFails | src/texture.cpp:144-160 | the trilinear lookup always yields a colour, and is magenta outside the square |

## Left out

- Floating point: colours, weights and coordinates are exact reals, so float rounding and drift are not modelled. A `(uint8_t)` cast of a value in [0,1] times 255 is its floor.
- Integer widths: `int` and `size_t` are unbounded here, so the overflow of `4*w*h` or of the resolve sums for huge sizes is not modelled.
- rasterize_triangle: the float accumulation `x += step_size` is modelled as exact subsample indices `k / sample_rate`.
- draw_svg: its buffer clear is modelled. Its canvas outline (four `rasterize_line` calls) and its final `resolve` call are compositions of modelled operations. Setting the transform and dispatching each element through draw_element are left out, for the reason on the next line.
- draw_element and the draw_point ... draw_group dispatch are not modelled, because they need the matrix types and `transform`, which are not part of this model. The same goes for `triangulate`, the empty `draw_ellipse` and `rasterize_image` (float stepping plus a sampler call).
- The commented-out float line version in software_renderer.cpp is not modelled.
- src/viewport.cpp is not part of this model.
- The `std::cerr` diagnostics are not modelled.
- Headers: software_renderer.h, texture.h, color.h and triangulation.h are not part of this model.
  - `kMaxMipLevels` is the parameter `maxLevels`.
  - The accumulator that `generate_mips` starts from (a default `Color`) is the parameter `base`.
  - A default `MipLevel` created by the pyramid's resize is an empty placeholder that the allocation loop overwrites.
  - The renderer's constructor is taken to start at one sample per pixel with empty buffers.
- Renderer.Resized: the system's documentation describes the sample buffer as cleared to opaque white when it is reallocated. The code's `vector::resize` keeps the old prefix and zero-fills new bytes. The model follows the code.
- The render target is a raw pointer in the source. The model borrows an `array` that must hold at least `4*target_w*target_h` bytes and is distinct from the sample buffer.
- Sampler.SampleTrilinear: the level of detail `log2f(max(tex.width/u_scale, tex.height/v_scale))` is the real input `lod`.
- Mipmap.GenerateMips: when the start level is invalid (including a negative one, through the unsigned comparison), the source prints a message but does not return, then indexes past the end. That is undefined behaviour. The model stops with `InvalidStartLevel` and leaves the texture unchanged.
- Mipmap.GenerateMips: after a failed `color_at_tex` assertion (`AssertionFailed`) the contract says nothing about the texture, since the program would abort there.
- Compositor.Over: requires a colour whose four channels lie in [0,1] (`IsUnitColor`), and so does every member that composites (FillSample, FillPixel, the rasterizers, Paint, PaintCells). For a channel outside [0,1], the source's `(uint8_t)` cast of v*255 is out of range, which C++ leaves undefined.
- Renderer.SoftwareRenderer.SetSampleRate: requires a rate of at least 1. The source accepts 0, which leaves an empty buffer and makes a later `resolve` divide by zero.

## Findings

| source | as written | input that shows it | evidently intended | confidence | as-written member | corrected member |
|---|---|---|---|---|---|---|
| src/texture.cpp:104-111 | the range test lets v = 1 through, and floor(v*height) = height goes to color_at_tex unclamped | v = 1.0, any u in [0,1]: the row index is past the last row and the assertion at line 32 fails | clamp the row index to height-1 | not executed | Sampler.NearestFailsAtVOne | Sampler.SampleNearestClamped |
| src/texture.cpp:104-111 | the range test lets u = 1 through, and floor(u*width) = width goes to color_at_tex unclamped | u = 1.0, v = 0 on a level two or more rows high: texel (0,1) of the next row is returned; on the last row the assertion fails | clamp the column index to width-1 | not executed | Sampler.NearestAtUOne | Sampler.SampleNearestClamped |
| src/software_renderer.cpp:446-459 | `lit` accepts a sample whenever cross_b is 0, so points of line bc beyond the triangle are lit; the column then breaks at the first unlit sample after them | triangle (10,10), (0,0), (4,2) at one sample per pixel: column 8 fills the spurious (8,4), breaks at (8,5) and never fills (8,8), which lies in the closed triangle | test that the three cross products agree in sign, so each column's covered samples are contiguous and the early exit fills all of them | not executed | Triangle.ScanSkipsLitSample | Triangle.InsideScanExact |
| src/texture.cpp:85-88 | the 2x2 reads of child texel (k, j) use rows 2j and 2j+1 of the parent unclamped, so a parent one texel high is read past its end | a 4x1 level 0: level 1 is 2x1, its first texel reads row 1 of the parent, and the assertion at line 32 fails | clamp each read coordinate to the parent's last row and column | not executed | Mipmap.OneRowBaseFails | Mipmap.ClampedAllFit |

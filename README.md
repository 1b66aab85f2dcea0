# draw2d rasteriser — a Dafny model

This project models the software rasteriser of `code/draw2d`. It also models the
pixel-scanning helpers that the line and triangle tests use to judge the
rasteriser's output.

The rasteriser has these parts:

- **Surface.** A row-major buffer of `4 * width * height` bytes. Pixel (x, y) sits
  at bytes `4 * (y * width + x)` to `+ 3`, as red, green, blue and one padding
  byte. The operations are construction, move construction, move assignment,
  `clear`, `fill` and `set_pixel_srgb`.
- **Line.** `draw_line_solid` is an all-octant Bresenham walk between the
  endpoints truncated toward zero. It sets each visited pixel that lies on the
  surface.
- **Line benchmark.** `draw_line_dda_integer_` is the integer twin of the line
  walk in the line benchmark.
- **Triangles.**
  - `draw_triangle_wireframe` draws three lines.
  - `draw_triangle_solid` sorts the vertices by y and fills scanlines. It has a
    flat-top case, a flat-bottom case and a general case split at the middle
    vertex.
  - `draw_triangle_interp` scans the bounding box clamped to the surface. It
    writes the pixels whose three barycentric weights are non-negative, in the
    blend of the vertex colours converted to sRGB.
  - The two rectangle routines are unimplemented stubs.
- **Masked blit.** `blit_masked` copies every image pixel with alpha at least 128
  to the position plus the pixel's offset, when that destination lies on the
  surface.
- **Shapes.** `LineStrip` and `TriangleFan` store vertices (and colours) in heap
  arrays. They draw themselves as a series of line or interpolated-triangle calls
  on the vertices transformed by `rotation * v + translation`.
- **Test helpers.**
  - `max_row_pixel_count` and `max_col_pixel_count` give the largest number of
    drawn pixels in one row or column.
  - `count_pixel_neighbours` gives a histogram of drawn pixels by their number of
    drawn 8-neighbours.
  - `find_most_red_pixel` and `find_least_red_nonzero_pixel` scan the surface
    column by column.

The surface is a class whose `data` array the drawing methods update in place.

- **Drawing routines.** Each one is proved to leave the surface exactly as
  `Surfaces.Paint` leaves it after the routine's candidate writes, in the order
  the routine produces them. `Paint` discards candidates that lie off the
  surface, which is how every routine clips.
- **Meaning of the candidate writes.** The lemmas give it: which pixels are aimed
  at, with which colour, and what every pixel holds afterwards.
- **Loops.** The loops keep the source's own variables. Each loop is proved
  against a function giving the surface after the first n passes, which in turn
  is proved equal to painting the first n candidate writes.
- **Test helpers.** These are methods proved against their specifications:
  maxima, counts, a histogram, and the last or first extremal pixel in scan
  order.

The model keeps these behaviours of the code as written:

- The rectangle routines do nothing.
- `draw_triangle_interp` and `draw_triangle_solid` can fill different pixels
  for the same triangle.
- `draw_triangle_solid` writes nothing on a row whose left-edge x lies right of
  its right-edge x. This happens, for example, in the flat-top case with
  `p0.x > p1.x`.
- `draw_triangle_interp`'s weight `b0` is 1 at P2 but multiplies the colour of
  P0. The model computes the blend exactly as written: `c0*b0 + c1*b1 + c2*b2`.
- `blit_masked` tests the bounds on the untruncated real destination and writes
  at the truncated one.

## Model

| member | source | states |
|---|---|---|
| Colors.DropAlpha | code/draw2d/image.cpp:88-91 | the converted pixel has the image pixel's red, green and blue; alpha is dropped |
| Geometry.Trunc | code/draw2d/draw.cpp:41-42 | `static_cast<int>` rounds toward zero: the result is within 1 of its argument, on the side toward 0 |
| Geometry.TruncMonotone | code/draw2d/draw.cpp:41-42 | truncation preserves order |
| Geometry.TruncOrder | code/draw2d/draw.cpp:47-59 | when two coordinates truncate to different integers, comparing the reals and comparing the integers agree, so the float direction test picks the integer direction |
| Geometry.TruncOfInt | code/draw2d/draw.cpp:312-313 | truncating an integral value gives that integer |
| Surfaces.PixelIndexBounds | code/draw2d/surface.hpp:20-24 | every on-surface pixel has its own 4-byte slot inside the buffer |
| Surfaces.PixelIndexInjective | code/draw2d/surface.hpp:20-24 | two distinct pixels never share a slot |
| Surfaces.SetPixelEffect | code/draw2d/surface.hpp:54-55 | setting one pixel changes that pixel to the new colour and leaves every other pixel, and every padding byte, unchanged |
| Surfaces.PaintPixel | code/draw2d/draw.cpp:74-77 | after a batch of clipped writes each surface pixel holds the colour of the last write aimed at it, or its old colour when none was |
| Surfaces.PaintPadding | code/draw2d/surface.hpp:20-24 | drawing never changes a padding byte |
| Surfaces.PaintAppend | code/draw2d/draw.cpp:110-112 | drawing two batches one after the other equals drawing their concatenation |
| Surfaces.PaintOffSurface | code/draw2d/draw.cpp:74-77 | a batch whose candidates all miss the surface leaves it unchanged |
| Surfaces.LastWriteUniform | code/draw2d/draw.cpp:76 | when every write aimed at a pixel has one colour, that pixel ends with that colour exactly when it is aimed at |
| Surfaces.FilledNext | code/draw2d/surface.cpp:44-50 | one more pass of the fill loop appends exactly the pixel's r, g, b and a zero padding byte |
| Surfaces.FilledPixels | code/draw2d/surface.cpp:39-51 | in a filled buffer every pixel has colour c and padding byte 0 |
| Surfaces.FillBlackIsClear | code/draw2d/surface.cpp:34-51 | `fill({0,0,0})` yields the same bytes as `clear()` |
| Surfaces.Surface.constructor | code/draw2d/surface.cpp:8-14 | stores the width and height and allocates a fresh buffer of exactly `w*h*4` bytes |
| Surfaces.Surface.MoveFrom | code/draw2d/surface.cpp:20-24 | takes over the other surface's buffer and size; the other is left 0 x 0 with an empty buffer |
| Surfaces.Surface.MoveAssign | code/draw2d/surface.cpp:25-31 | the two surfaces exchange buffer, width and height |
| Surfaces.Surface.Clear | code/draw2d/surface.cpp:34-37 | every byte becomes 0; the new contents do not depend on the old, so clearing twice equals clearing once |
| Surfaces.Surface.Fill | code/draw2d/surface.cpp:39-51 | every pixel becomes c with padding 0; the new contents do not depend on the old, so filling twice equals filling once |
| Surfaces.Surface.Peek | code/lines-test/helpers.cpp:25-28 | reading the three bytes at `y*stride + 4*x` gives the colour of pixel (x, y) |
| Surfaces.Surface.SetPixelSrgb | code/draw2d/surface.hpp:54-55 | with x < width and y < height, changes exactly bytes `4(y*w+x)` to `+2`, to c's red, green and blue |
| Lines.ErrClosed | code/draw2d/draw.cpp:65 | after i steps along x and j along y the error term is `(j+1)*dx - (i+1)*dy` |
| Lines.ErrShift | code/draw2d/draw.cpp:93-101 | an x step lowers the error by dy and a y step raises it by dx |
| Lines.StartReachable | code/draw2d/draw.cpp:65-67 | the initial state satisfies the walk invariant |
| Lines.ErrAtXEnd | code/draw2d/draw.cpp:93-96 | once all x steps are taken but not all y steps, no further x step happens |
| Lines.ErrAtYEnd | code/draw2d/draw.cpp:98-101 | once all y steps are taken but not all x steps, no further y step happens |
| Lines.NextReachable | code/draw2d/draw.cpp:86-101 | one iteration keeps the invariant, moves each axis by at most one, moves at least one axis and always moves the dominant axis |
| Lines.ReachableEnd | code/draw2d/draw.cpp:81-83 | a state whose dominant count is complete is the end point |
| Lines.WalkState | code/draw2d/draw.cpp:72-102 | after k iterations the dominant axis has taken exactly k steps and the state is reachable |
| Lines.WalkStateNext | code/draw2d/draw.cpp:86-101 | the state after k + 1 iterations is one iteration on from the state after k |
| Lines.WalkStep | code/draw2d/draw.cpp:86-101 | the loop body's doubled-error tests and updates move the error exactly as one iteration of the walk does |
| Lines.WalkStateEnd | code/draw2d/draw.cpp:81-83 | the walk reaches its end after exactly max(dx, dy) iterations and at no earlier one, so the loop terminates |
| Lines.AxisEnd | code/draw2d/draw.cpp:81 | the coordinate equals the end coordinate exactly when all its steps are taken |
| Lines.LinePixels | code/draw2d/draw.cpp:72-102 | the walk visits exactly max(\|dx\|, \|dy\|) + 1 positions |
| Lines.LinePixelAt | code/draw2d/draw.cpp:72-102 | position k is the start moved by the step counts after k iterations |
| Lines.LinePixelEnd | code/draw2d/draw.cpp:81-83 | position k is the end point exactly when it is the last one |
| Lines.LineEnds | code/draw2d/draw.cpp:66-83 | the walk starts at the truncated begin, ends at the truncated end and reaches it only at the end; coinciding endpoints give a single position |
| Lines.ConnectedAt | code/draw2d/draw.cpp:93-101 | positions k and k + 1 differ by at most one in each coordinate and are never equal |
| Lines.LineConnected | code/draw2d/draw.cpp:86-101 | consecutive positions are distinct 8-neighbours: the line has no gaps |
| Lines.LineThin | code/draw2d/draw.cpp:93-101 | along the dominant axis position k is k steps from the start, so a line at least as wide as tall has one pixel per column and one at least as tall as wide one per row; no position repeats |
| Lines.LineInBox | code/draw2d/draw.cpp:72-102 | every position lies in the box spanned by the endpoints |
| Lines.WalkAtStart | code/draw2d/draw.cpp:65-67 | the loop variables start at the walk's initial state |
| Lines.WalkAtEnd | code/draw2d/draw.cpp:81-83 | the loop's exit test holds exactly after the last iteration |
| Lines.WalkAtStep | code/draw2d/draw.cpp:86-101 | one pass of the loop body takes the loop variables from the state after n iterations to that after n + 1 |
| Lines.LinePaintStep | code/draw2d/draw.cpp:74-77 | the writes of the first n + 1 iterations are those of the first n, then the current position |
| Lines.AdvanceStep | code/draw2d/draw.cpp:86-101 | one pass of the loop body, from the loop variables after n passes of a walk not yet at its end, gives the walk's state after n + 1 passes |
| Lines.WalkMatches | code/draw2d/draw.cpp:72-102 | running the source's loop body n times lands on the walk's state after n iterations |
| Lines.WalkDone | code/draw2d/draw.cpp:81-83 | the loop reaches the truncated end after exactly max(dx, dy) passes and not before |
| Lines.LineSoFarNext | code/draw2d/draw.cpp:74-77 | one more pass sets the current position when it lies on the surface |
| Lines.LineSoFarPaint | code/draw2d/draw.cpp:72-102 | the first n passes paint the first n candidate writes of the line |
| Lines.LineSoFarDone | code/draw2d/draw.cpp:72-102 | after max(dx, dy) + 1 passes the surface holds the whole line |
| Lines.LinePaint | code/draw2d/draw.cpp:74-77 | after drawing, a pixel has the line's colour when the walk visits it and its old colour otherwise |
| Lines.LineOffSurface | code/draw2d/draw.cpp:74-77 | a line none of whose positions is on the surface changes nothing |
| Draw.FloatDirections | code/draw2d/draw.cpp:47-59 | the direction test on the float coordinates points every axis the walk moves along from the truncated start to the truncated end |
| Draw.DrawLineSolid | code/draw2d/draw.cpp:22-103 | the surface ends as painting the walk between the truncated endpoints in the given colour, off-surface positions discarded |
| Draw.DrawTriangleWireframe | code/draw2d/draw.cpp:105-113 | the surface ends as drawing lines P0-P1, P1-P2 and P2-P0, in that order |
| Draw.FillSpan | code/draw2d/draw.cpp:153-160 | one scanline: x from start to end inclusive on row y, each on-surface pixel set to the colour |
| Draw.FillRows | code/draw2d/draw.cpp:142-161 | rows lo to hi, each spanning the truncated x of the left edge to that of the right edge |
| Draw.DrawTriangleSolid | code/draw2d/draw.cpp:117-134 | the surface ends as painting the solid fill of the vertices sorted by y; nothing for a triangle of zero height |
| Draw.FillSorted | code/draw2d/draw.cpp:140-243 | the flat-top, flat-bottom and split general cases, in the source's edge order |
| Draw.DrawTriangleInterp | code/draw2d/draw.cpp:277-333 | the surface ends as painting the interpolated fill: nothing for zero area, otherwise the covered pixels of the clamped box column by column |
| Draw.ShadeBox | code/draw2d/draw.cpp:312-332 | the outer loop paints the columns of the box from left to right |
| Draw.ShadeColumn | code/draw2d/draw.cpp:313-331 | the inner loop paints one column of the box from top to bottom |
| Draw.ShadePixel | code/draw2d/draw.cpp:316-330 | a pixel is set to the converted blend exactly when its three weights are non-negative |
| Draw.DrawRectangleSolid | code/draw2d/draw.cpp:335-346 | the surface is unchanged |
| Draw.DrawRectangleOutline | code/draw2d/draw.cpp:348-359 | the surface is unchanged |
| Triangles.SortByY | code/draw2d/draw.cpp:128-130 | after the three conditional swaps the vertices are ordered by y |
| Triangles.SortByYPermutes | code/draw2d/draw.cpp:128-130 | the swaps only reorder the three vertices |
| Triangles.SpanWrites | code/draw2d/draw.cpp:153 | a span has end - start + 1 pixels, and none when start > end |
| Triangles.SpanSnoc | code/draw2d/draw.cpp:153-160 | a span to x is the span to x - 1, then pixel x |
| Triangles.RowsWrites | code/draw2d/draw.cpp:142-161 | every write of rows lo to hi is in the fill colour, on one of those rows |
| Triangles.SolidWrites | code/draw2d/draw.cpp:134 | three vertices at one height give no writes |
| Triangles.SolidWritesRows | code/draw2d/draw.cpp:140-243 | every write of the solid fill is in the fill colour, on a row between the truncated top and bottom vertex |
| Triangles.ClampedBox | code/draw2d/draw.cpp:282-298 | the bounding box clamped to the surface and truncated lies on the surface |
| Triangles.InterpColumnBounds | code/draw2d/draw.cpp:313 | every write of column x lies in that column, between the box's top and the current row |
| Triangles.InterpColumnsBounds | code/draw2d/draw.cpp:312 | every write of the columns so far lies in the box |
| Triangles.InterpWrites | code/draw2d/draw.cpp:304-309 | a triangle of zero area gives no writes |
| Triangles.InterpBounds | code/draw2d/draw.cpp:292-313 | every write of the interpolated fill lies in the clamped box and on the surface |
| Triangles.ShadeOntoPaint | code/draw2d/draw.cpp:316-330 | shading one pixel is painting its write, if it is covered |
| Triangles.ColumnSoFarPaint | code/draw2d/draw.cpp:313-331 | shading a column down to row y is painting its writes so far |
| Triangles.ColumnsSoFarPaint | code/draw2d/draw.cpp:312-332 | shading the columns up to x is painting their writes so far |
| Triangles.InterpColumnSound | code/draw2d/draw.cpp:320-329 | every write of a column is a covered pixel in the colour its weights blend |
| Triangles.InterpColumnsSound | code/draw2d/draw.cpp:320-329 | every write of the columns so far is a covered pixel in the colour its weights blend |
| Triangles.InterpSound | code/draw2d/draw.cpp:316-329 | every write of the interpolated fill is at a pixel with b0, b1, b2 >= 0, in the converted blend of those weights |
| Triangles.WeightsReconstruct | code/draw2d/draw.cpp:316-318 | the weights sum to 1 and rebuild the pixel from the vertices, b2 on P0, b1 on P1 and b0 on P2 |
| Triangles.CoveredInHull | code/draw2d/draw.cpp:316-320 | a covered pixel lies in the bounding box of the vertices |
| Triangles.WeightsAtVertices | code/draw2d/draw.cpp:316-318 | at an integral vertex the weights are (0,0,1) at P0, (0,1,0) at P1 and (1,0,0) at P2 |
| Triangles.WeightsAtP0 | code/draw2d/draw.cpp:316-318 | the weights at P0 are (0, 0, 1) |
| Triangles.WeightsAtP1 | code/draw2d/draw.cpp:316-318 | the weights at P1 are (0, 1, 0) |
| Triangles.WeightsAtP2 | code/draw2d/draw.cpp:316-318 | the weights at P2 are (1, 0, 0) |
| Triangles.CoveredInBox | code/draw2d/draw.cpp:282-320 | a covered on-surface pixel always falls inside the clamped box: clamping and truncation lose none |
| Triangles.InterpColumnTargets | code/draw2d/draw.cpp:313-320 | every covered pixel of a column down to row y is aimed at |
| Triangles.InterpColumnsTargets | code/draw2d/draw.cpp:312-320 | every covered pixel of the box up to column x is aimed at |
| Triangles.InterpTargets | code/draw2d/draw.cpp:304-320 | on the surface the fill aims at exactly the pixels whose three weights are non-negative, and only when the area is not zero |
| Triangles.InterpPaint | code/draw2d/draw.cpp:312-330 | after the fill, each pixel holds the converted blend where all weights are non-negative and its old colour elsewhere |
| Triangles.BlendUniform | code/draw2d/draw.cpp:324-326 | weights summing to 1 blend three equal colours into that colour |
| Triangles.InterpUniform | code/draw2d/draw.cpp:324-329 | with one colour c at all vertices every written pixel gets `linear_to_srgb(c)` |
| Triangles.InterpInHull | code/draw2d/draw.cpp:312-330 | every written pixel lies in the bounding box of the vertices |
| Triangles.InterpOffSurface | code/draw2d/draw.cpp:282-332 | a triangle wholly left of, above, right of or below the surface writes nothing |
| Images.BlitRowSource | code/draw2d/image.cpp:64-100 | every write of a row comes from an opaque pixel of that row whose destination passes the bounds test |
| Images.BlitRowsSource | code/draw2d/image.cpp:62-100 | every write of the rows so far comes from an opaque pixel of those rows whose destination passes the bounds test |
| Images.BlitSource | code/draw2d/image.cpp:62-100 | every write of the blit comes from an opaque image pixel (alpha >= 128) whose destination is in bounds, and carries its red, green and blue to the truncated destination |
| Images.DestTrunc | code/draw2d/image.cpp:95-99 | a destination passing the real bounds test truncates to a pixel of the surface, and truncation is then the floor |
| Images.BlitInBounds | code/draw2d/image.cpp:82-100 | every write lands on the surface, for any position including fully off-surface ones |
| Images.BlitRowCovers | code/draw2d/image.cpp:64-100 | every opaque pixel of a row with an in-bounds destination is written there |
| Images.BlitRowsCovers | code/draw2d/image.cpp:62-100 | every opaque pixel of the rows so far with an in-bounds destination is written there |
| Images.LandsAt | code/draw2d/image.cpp:82-83 | only one image pixel can land on a given surface pixel, so destinations are distinct |
| Images.BlitPaint | code/draw2d/image.cpp:62-103 | after the blit each surface pixel holds the colour of the opaque image pixel landing there, and its old colour outside the footprint or under a transparent pixel |
| Images.BlitPaintIntegral | code/draw2d/image.cpp:62-101 | at integral position (px, py), pixel (sx, sy) receives image pixel (sx-px, sy-py) when it exists and is opaque, and is unchanged otherwise |
| Images.BlitPixelPaint | code/draw2d/image.cpp:67-100 | handling one pixel is painting its write, if any |
| Images.RowSoFarPaint | code/draw2d/image.cpp:64-102 | handling the first n pixels of a row paints that row's writes so far |
| Images.RowsSoFarPaint | code/draw2d/image.cpp:62-103 | handling the first n rows paints the blit's writes so far |
| Images.BlitMasked | code/draw2d/image.cpp:52-104 | the surface ends as painting the blit's writes, row by row; the image is a value and is never modified |
| Images.BlitRow | code/draw2d/image.cpp:64-102 | the inner loop paints one image row, left to right |
| Images.BlitPixel | code/draw2d/image.cpp:67-100 | an image pixel is written when its alpha is at least 128 and its destination is in bounds, and not otherwise |
| Shapes.StripCalls | code/draw2d/shape.cpp:44-49 | the first n loop iterations make n line calls |
| Shapes.StripCallAt | code/draw2d/shape.cpp:42-49 | call i draws from transformed vertex i to transformed vertex i + 1 |
| Shapes.SegmentsWritesColor | code/draw2d/shape.cpp:40-47 | every write of the strip carries the colour converted once |
| Shapes.SegmentsWritesEnds | code/draw2d/shape.cpp:47 | the truncated start and end of every line call are aimed at |
| Shapes.StripStep | code/draw2d/shape.cpp:44-49 | drawing the first n calls is drawing the first n - 1, then the line from vertex n - 1 to vertex n |
| Shapes.StripPaint | code/draw2d/shape.cpp:38-50 | after drawing a strip each pixel has the strip's colour where one of its lines passes and its old colour elsewhere |
| Shapes.StripVertices | code/draw2d/shape.cpp:42-49 | with two or more vertices, every truncated transformed vertex is drawn through |
| Shapes.LineStrip.constructor | code/draw2d/shape.cpp:12-20 | stores exactly the first aCount vertices, in input order, in a fresh array |
| Shapes.LineStrip.MoveFrom | code/draw2d/shape.cpp:27-30 | takes over count and vertices; the other strip is left with count 0 |
| Shapes.LineStrip.MoveAssign | code/draw2d/shape.cpp:31-36 | the two strips exchange count and vertices |
| Shapes.LineStrip.VertexCount | code/draw2d/shape.hpp:63 | returns the stored count |
| Shapes.LineStrip.DrawStrip | code/draw2d/shape.cpp:38-50 | converts the colour once and draws N - 1 lines (T v[i-1], T v[i]) for i = 1 .. N - 1 in order; the vertices are not changed |
| Shapes.FanLoopCalls | code/draw2d/shape.cpp:113-120 | iteration i draws centre, vertex i - 1 and vertex i, transformed, with the colours of the same indices |
| Shapes.FanCalls | code/draw2d/shape.cpp:106-125 | the fan makes N - 1 calls, the last being the closing triangle centre, last vertex, vertex 1 |
| Shapes.FanLoopStep | code/draw2d/shape.cpp:113-120 | drawing the first n loop triangles is drawing the first n - 1, then triangle n |
| Shapes.FanClose | code/draw2d/shape.cpp:122-124 | drawing the fan is drawing the loop's triangles, then the closing one |
| Shapes.ShadedWritesSound | code/draw2d/shape.cpp:113-124 | every write of a series of triangle calls is on the surface, in `linear_to_srgb(c)` when every call has all colours c |
| Shapes.FanUniform | code/draw2d/shape.cpp:106-125 | a fan whose vertices all have colour c writes only `linear_to_srgb(c)`, and only on the surface |
| Shapes.FanOfTwo | code/draw2d/shape.cpp:111-124 | with two vertices the only triangle is the degenerate closing one, so nothing is drawn |
| Shapes.TriangleFan.FromPosAndCol | code/draw2d/shape.cpp:53-68 | stores the position and colour of each of the first aCount entries, index by index |
| Shapes.TriangleFan.constructor | code/draw2d/shape.cpp:69-83 | stores exactly the first aCount positions and colours |
| Shapes.TriangleFan.MoveFrom | code/draw2d/shape.cpp:92-96 | takes over count and both arrays; the other fan is left with count 0 |
| Shapes.TriangleFan.MoveAssign | code/draw2d/shape.cpp:97-103 | the two fans exchange count and arrays |
| Shapes.TriangleFan.DrawFan | code/draw2d/shape.cpp:106-125 | draws (T v0, T v[i-1], T v[i]) for i = 2 .. N - 1, then (T v0, T v[N-1], T v1), with the matching colours; vertices and colours are not changed |
| LinesBenchmark.DrawLineDdaInteger | code/lines-benchmark/main.cpp:60-112 | the surface ends with exactly the writes `draw_line_solid` makes for the same endpoints: every write in bounds, all other pixels unchanged |
| LineTestHelpers.RowLit | code/lines-test/helpers.cpp:16-30 | a row count is at most the pixels scanned, and 0 exactly when none of them is drawn |
| LineTestHelpers.ColLit | code/lines-test/helpers.cpp:45-53 | a column count is at most the pixels scanned, and 0 exactly when none of them is drawn |
| LineTestHelpers.MaxRowPixelCount | code/lines-test/helpers.cpp:9-36 | returns the maximum over rows of the number of drawn pixels: at most the width, and 0 exactly when no pixel is drawn |
| LineTestHelpers.CountInRow | code/lines-test/helpers.cpp:16-30 | counts the drawn pixels of one row |
| LineTestHelpers.MaxColPixelCount | code/lines-test/helpers.cpp:38-59 | returns the maximum over columns of the number of drawn pixels: at most the height, and 0 exactly when no pixel is drawn |
| LineTestHelpers.CountInCol | code/lines-test/helpers.cpp:45-53 | counts the drawn pixels of one column |
| LineTestHelpers.WrapBounds | code/lines-test/helpers.cpp:93-99 | the unsigned bounds test on a wrapped neighbour coordinate passes exactly when the coordinate is on the surface; -1 wraps and fails |
| LineTestHelpers.LitNeighbours | code/lines-test/helpers.cpp:90-106 | a pixel has at most as many drawn neighbours as offsets examined |
| LineTestHelpers.RowTallyCounts | code/lines-test/helpers.cpp:80-110 | a row adds to entry k its drawn pixels with exactly k drawn neighbours, and to the total its drawn pixels |
| LineTestHelpers.HistogramCounts | code/lines-test/helpers.cpp:78-111 | entry k counts the drawn pixels with exactly k drawn neighbours; the entries add up to the number of drawn pixels |
| LineTestHelpers.CountPixelNeighbours | code/lines-test/helpers.cpp:62-114 | entry k counts the drawn pixels with exactly k drawn on-surface neighbours, and the entries sum to the number of drawn pixels |
| LineTestHelpers.NeighbourRow | code/lines-test/helpers.cpp:80-110 | each drawn pixel of a row adds one to the entry of its neighbour count |
| LineTestHelpers.CountNeighbours | code/lines-test/helpers.cpp:90-108 | counts the drawn on-surface neighbours, never reading outside the surface; the count is at most 8 |
| TriangleTestHelpers.LastMostRedUnique | code/triangles-test/helpers.cpp:23 | at most one pixel is the last with the most red, so the result is determined |
| TriangleTestHelpers.FirstLeastRedUnique | code/triangles-test/helpers.cpp:49 | at most one pixel is the first drawn one with the least red, so the result is determined |
| TriangleTestHelpers.FindMostRedPixel | code/triangles-test/helpers.cpp:7-33 | on a non-empty surface returns the full colour of the last pixel in x-outer, y-inner order with the maximum red; black on an all-black or empty surface |
| TriangleTestHelpers.MostSoFarAll | code/triangles-test/helpers.cpp:12-32 | once every column is scanned the running state gives the last most-red pixel |
| TriangleTestHelpers.MostRedColumn | code/triangles-test/helpers.cpp:14-29 | scanning one column keeps the running most-red state |
| TriangleTestHelpers.MostSoFarNext | code/triangles-test/helpers.cpp:23-28 | the `>=` test moves the state on by one pixel, later pixels winning ties |
| TriangleTestHelpers.MostSoFarNextColumn | code/triangles-test/helpers.cpp:12-14 | the end of column x is the start of column x + 1 |
| TriangleTestHelpers.FindLeastRedNonzeroPixel | code/triangles-test/helpers.cpp:34-60 | skips black pixels; white when no other pixel has red below 255, otherwise the full colour of the first pixel in scan order with the least red |
| TriangleTestHelpers.LeastSoFarAll | code/triangles-test/helpers.cpp:39-58 | once every column is scanned the running state gives the first least-red drawn pixel |
| TriangleTestHelpers.LeastRedColumn | code/triangles-test/helpers.cpp:41-55 | scanning one column keeps the running least-red state |
| TriangleTestHelpers.LeastSoFarNext | code/triangles-test/helpers.cpp:46-54 | the black skip and the strict `<` test move the state on by one pixel, earlier pixels winning ties |
| TriangleTestHelpers.LeastSoFarNextColumn | code/triangles-test/helpers.cpp:39-41 | the end of column x is the start of column x + 1 |

## Left out

- `linear_to_srgb` is defined in `color.inl`, which is not part of this model. The
  drawing routines that convert colours take the conversion as a parameter
  `toSrgb`, so the sRGB byte values of the tests (188, (127, 64, 192)) are not
  modelled.
- `float` is idealised as `real`. Rounding of float arithmetic is not modelled:
  - the edge interpolation and split vertex of `draw_triangle_solid`;
  - the area, weights and blend of `draw_triangle_interp`;
  - the destination of `blit_masked`;
  - the vertex transform.
- `int` is unbounded. Overflow of the float-to-`int` casts and of the integer
  arithmetic is not modelled, so coordinates are assumed to lie within `int`
  range. In the test helpers, byte offsets `y*stride + 4*x` are exact; wrap-around
  is modelled only for the neighbour coordinates (`Wrap32`).
- Surfaces.Surface.constructor: requires `4*w*h` to fit 32 bits. The source
  computes the byte count in `uint32_t` and would allocate a short buffer on
  wrap-around. `Surface.Valid` keeps this bound for every live surface, which
  the `uint32_t` limit of `fill` relies on.
- The source's constructor leaves the new buffer uninitialised. The model does
  not fix its contents (Dafny gives them some value).
- A moved-from surface, strip or fan has a null array in the source. The model
  gives it an empty array.
- `load_image` and the stb_image decoder are file I/O, so they are not modelled.
  The image is a read-only value whose pixel (x, y) sits at `y*width + x`.
  `image.inl`, where `get_pixel` is defined, is not part of this model.
- The nested loops are split into helper methods, one per loop level, with the
  same variables and tests:
  - `Draw.FillRows`, `Draw.FillSpan` and `Draw.FillSorted`;
  - `Draw.ShadeBox`, `Draw.ShadeColumn` and `Draw.ShadePixel`;
  - `Images.BlitRow` and `Images.BlitPixel`;
  - `Lines.AdvanceStep`, the body of the line loop;
  - the column and row helpers of the test helpers.
- `draw_triangle_interp` computes `1 / area` before testing the area for zero. In
  `float` that gives an infinity and no fault. The model computes the inverse only
  once the area is known to be nonzero.
- The three tests at draw.cpp lines 193-210 always store the same split vertex,
  since the first two cannot hold in the general case. The model computes the
  split vertex once.
- The triangle fill's pixel coverage is not proved, nor is agreement between the
  solid and interpolated fills. As written, the scanline code leaves a row empty
  whenever its left edge lies right of its right edge.
- Draw.DrawTriangleInterp, Shapes.TriangleFan.DrawFan: require a surface of at
  least one pixel in each direction. The source computes `width - 1` unsigned
  for the clamp.
- Shapes.LineStrip.DrawStrip: requires at least one vertex, because the source
  reads vertex 0 unconditionally.
- Shapes.TriangleFan.DrawFan: requires at least two vertices, because the source
  reads vertices 0 and 1 unconditionally.
- The destructors only free memory, so they are not modelled.
- `get_width`, `get_height` and `get_linear_index` are not modelled as separate
  members. The model reads the fields directly.
- The benchmark harnesses, the float DDA line, the windowing and OpenGL code, the
  game logic and the command-line parser are outside the rasteriser core and are
  not modelled.

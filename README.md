# olc-pge core, modelled in Dafny

olc-pge is a small immediate-mode 2D engine in Rust (a port of the
olcPixelGameEngine). An application implements three hooks (create, update,
destroy); each frame the engine reads the keyboard and mouse, calls the update
hook, and presents a frame buffer of packed 32-bit pixels. All drawing goes
through one single-pixel plot routine, `_draw`, which honours the current
pixel mode (Normal, Mask, Alpha, Custom) and writes into the current draw
target, a sprite.

This project models that core and five of the example programs:

- `pixel.dfy` (`Pixels`): the four-channel pixel, its lossless ARGB packing,
  the pixel modes and the colour constants.
- `sprite.dfy` (`Sprites`): the row-major buffer with bounds-checked
  `get_pixel` / `set_pixel` and the periodic read; `Image` is the buffer's
  value, `Sprite` the object `set_pixel` updates in place.
- `vector.dfy` (`Vectors`): `V2d<i32>` arithmetic, each operator and its
  `*Assign` form.
- `int_ops.dfy` (`IntOps`): Rust's truncating `/` and `%`, and the row-major
  index `y * w + x`.
- `plotting.dfy` (`Plotting`): a `_draw` call as a `Plot`, its effect on an
  image (`DrawOn`), and the effect of a list of calls in order (`Paint`).
- `lines.dfy`, `circles.dfy`, `raster.dfy` (`Lines`, `Circles`, `Raster`):
  for each rasterizer, the list of `_draw` calls it makes, and what those
  lists cover.
- `engine.dfy` (`Engines`): the engine object. Every drawing method is
  proved to leave its draw target equal to `Paint` of the plot list of its
  specification function; input updates and `set_draw_target` change
  exactly the state they name.
- `input.dfy` (`Input`): keys, the three-flag button, mouse edge detection
  and the logical keys.
- `lifecycle.dfy` (`Lifecycle`): `core_update` and `start`, with the window
  and the application hooks answering from scripts.
- `text_editor.dfy` (`TextEditor`): the text editor example's line buffer,
  tab-stop cursor arithmetic and `key_to_char`.
- `waveprop.dfy` (`WaveProp`): the path-finding example's wave labelling and
  path descent, proved to compute a distance field and a descending path.
- `shadowcast.dfy` (`ShadowCast`): the conversion of a tile map into merged
  wall edges.
- `galaxy.dfy` (`Galaxy`): the Lehmer-style generator and star-system
  generation.
- `isometric.dfy` (`Isometric`): isometric picking, `to_screen` and tile
  cycling.

Rust's `i32` and `u32` arithmetic panics on overflow in debug builds. The
model uses unbounded integers. Where a `u32` to `i32` cast or a `u32` product
decides what the code does (sprite sizes, `_fill_rect` and blit counts) the
range is a precondition or the cast is written out; elsewhere (the vector
operations, the rasterizers' coordinates, the text editor's cursor) overflow
is not modelled, as listed under "Left out". The galaxy generator works on
`bv32` / `bv64` words.

## Model

| member | source | states |
|---|---|---|
| IntOps.TruncDiv | src/vector.rs:158-163 | definition: Rust's signed `/`, rounding toward zero; `TruncRem`, `TruncDivExact` and `DivTruncates` state its properties |
| IntOps.TruncRem | src/sprite.rs:82 | Rust's `%` on `i32`: `a == TruncDiv(a, b) * b + m`, the remainder is smaller than the divisor in magnitude and takes the sign of `a` |
| IntOps.TruncBounds | src/sprite.rs:82 | the truncating remainder is bounded by the divisor and carries the dividend's sign |
| IntOps.TruncAgreesOnNatural | examples/isometric.rs:38-40 | on a non-negative dividend and a positive divisor Rust's `/` and `%` agree with Euclidean division |
| IntOps.TruncRemSmall | src/sprite.rs:82 | the remainder of a value already in `[0, b)` is that value |
| IntOps.IndexInRange | src/sprite.rs:74-75 | the row-major index `y*w + x` of an in-grid cell lies inside the `w*h` buffer |
| IntOps.IndexInjective | src/sprite.rs:91 | two in-grid cells with the same row-major index are the same cell |
| IntOps.IndexSplit | src/sprite.rs:42 | every buffer index `k < w*h` is the row-major index of the cell `(k % w, k / w)` |
| IntOps.TruncDivExact | src/vector.rs:155-164 | Rust's division undoes a multiplication by the same non-zero factor |
| Pixels.Default | src/pixel.rs:16-20 | definition: `Pixel::default()` is `rgb(0, 0, 0)`; `DefaultIsOpaqueBlack` states that its packed word is 0xFF000000, not 0 |
| Pixels.Pack | src/pixel.rs:22-26 | definition of `Into<u32>`: alpha, red, green, blue shifted into one word; `UnpackPack`, `PackUnpack` and `PackLayout` state that it is a bijection with a fixed byte layout |
| Pixels.Unpack | src/pixel.rs:28-32 | definition of `From<u32>`: each channel is one byte of the word, kept by `as u8`; `UnpackPack` and `PackUnpack` state that it inverts `Pack` |
| Pixels.Rgb | src/pixel.rs:7-9 | `rgb` yields alpha 255 and keeps the three colour channels |
| Pixels.Rgba | src/pixel.rs:11-13 | `rgba` keeps all four channels, taking them in the order r, g, b, a |
| Pixels.UnpackPack | src/pixel.rs:22-32 | unpacking a packed pixel gives back the same four channels |
| Pixels.PackUnpack | src/pixel.rs:22-32 | packing an unpacked `u32` gives back the same word |
| Pixels.PackLayout | src/pixel.rs:24 | alpha, red, green and blue occupy bits 24-31, 16-23, 8-15 and 0-7 of the packed word |
| Pixels.DefaultIsOpaqueBlack | src/pixel.rs:16-20 | `Pixel::default()` packs to `0xFF000000`, not 0 |
| Pixels.BlankIsOnlyTranslucentColour | src/pixel.rs:39-62 | `BLANK` packs to 0 and unpacks from 0, and it is the only named colour whose alpha is not 255 |
| Sprites.Image.Index | src/sprite.rs:75 | the index of an in-grid cell is `y*width + x` and lies below `width*height` |
| Sprites.Image.Get | src/sprite.rs:71-86 | a Normal read inside the grid unpacks that cell and reads `Pixel::default()` outside it; a Periodic read unpacks the cell at the wrapped index |
| Sprites.Image.Set | src/sprite.rs:88-95 | a write keeps width, height, sampling mode and the buffer length |
| Sprites.PeriodicIndex | src/sprite.rs:81-84 | `|y rem h|*w + |x rem w|` lies in `[0, w*h)` whenever `w, h > 0` |
| Sprites.PeriodicIndexInside | src/sprite.rs:81-84 | inside the grid the wrapped index is the ordinary row-major index |
| Sprites.PeriodicAgreesInside | src/sprite.rs:71-86 | inside the grid a Periodic read and a Normal read return the same pixel |
| Sprites.FilledReads | src/sprite.rs:71-86 | when every cell holds `p` packed, every in-grid read (and every Periodic read) gives `p` |
| Sprites.BlankReadsBlank | src/sprite.rs:38-45 | a fresh `w x h` sprite has exactly `w*h` cells and every in-grid read gives `BLANK` |
| Sprites.SetCells | src/sprite.rs:88-95 | an in-grid write stores the packed pixel at `y*width + x` and changes no other cell; an out-of-grid write changes nothing |
| Sprites.GetAfterSet | src/sprite.rs:71-95 | after `set_pixel(x, y, p)` a Normal read at `(x, y)` gives `p` if the write was in the grid, and every other read is unchanged |
| Sprites.OutsideReadsDefault | src/sprite.rs:76-78 | outside the grid a Normal read is opaque black (`0xFF000000`), not `BLANK` |
| Sprites.Sprite.View | src/sprite.rs:17-22 | the sprite's value has its fixed width, height and sampling mode |
| Sprites.Sprite.constructor | src/sprite.rs:38-45 | `Sprite::new(w, h)` allocates exactly `w*h` zero cells in Normal mode |
| Sprites.Sprite.Empty | src/sprite.rs:26-35 | `Sprite::default()` is the empty 0x0 sprite |
| Sprites.Sprite.GetPixel | src/sprite.rs:71-86 | reading the live buffer returns `Image.Get` of its contents |
| Sprites.Sprite.SetPixel | src/sprite.rs:88-95 | returns true exactly when `0 <= x < width` and `0 <= y < height`, and the new contents are `Image.Set` of the old |
| Vectors.Vi2d.Neg | src/vector.rs:84-93 | definition: both components negated; `NegInvolutive` and `AddGroup` state its properties |
| Vectors.Vi2d.Add | src/vector.rs:95-104 | definition: componentwise sum; `AddGroup` states the group laws |
| Vectors.Vi2d.Sub | src/vector.rs:115-124 | definition: componentwise difference; `AddGroup` and `AddThenSub` relate it to addition |
| Vectors.Vi2d.Mul | src/vector.rs:135-144 | definition: both components times a scalar; `MulDistributes` and `MulThenDiv` state its properties |
| Vectors.Vi2d.Div | src/vector.rs:155-164 | definition: both components divided by a scalar, rounding toward zero; `MulThenDiv` and `DivTruncates` state its properties |
| Vectors.Vi2d.Mag2 | src/vector.rs:51-53 | definition: `x*x + y*y`; `DotFacts` states that it is the dot product with itself |
| Vectors.Vi2d.Dot | src/vector.rs:55-57 | definition: `x*rhs.x + y*rhs.y`; `DotFacts` states its properties |
| Vectors.Vi2d.Cross | src/vector.rs:61-63 | definition: `x*rhs.x - y*rhs.y`; `CrossIsNotDeterminant`, `CrossWithSelf` and `CrossIsMirroredDot` state what it computes |
| Vectors.Vi2d.Perp | src/vector.rs:67-72 | definition: `(-y, x)`, a quarter turn; `PerpTwice` states its properties |
| Vectors.Zero | src/vector.rs:75-82 | definition: `V2d::default()`, both components 0; `AddGroup` states that it is the identity |
| Vectors.Vi2d.AddAssign | src/vector.rs:106-113 | `+=` equals the binary `+` |
| Vectors.Vi2d.SubAssign | src/vector.rs:126-133 | `-=` equals the binary `-` |
| Vectors.Vi2d.MulAssign | src/vector.rs:146-153 | `*=` equals the binary scalar `*` |
| Vectors.Vi2d.DivAssign | src/vector.rs:166-173 | `/=` equals the binary scalar `/` |
| Vectors.AddGroup | src/vector.rs:75-124 | addition is commutative and associative with the default (zero) vector as identity and `-v` as inverse; `a - b == a + (-b)` |
| Vectors.AddThenSub | src/vector.rs:95-124 | `(a + b) - b == a` |
| Vectors.NegInvolutive | src/vector.rs:84-93 | `-(-v) == v` |
| Vectors.PerpTwice | src/vector.rs:66-73 | `perp(perp(v)) == -v`, four quarter turns are the identity, and `perp(v)` is orthogonal to `v` |
| Vectors.DotFacts | src/vector.rs:50-58 | `dot` is symmetric, `mag2(v) == dot(v, v) >= 0`, and a quarter turn of both vectors keeps their dot product |
| Vectors.MulDistributes | src/vector.rs:95-144 | scaling distributes over addition |
| Vectors.MulThenDiv | src/vector.rs:135-164 | dividing by the factor just multiplied by returns the vector exactly |
| Vectors.DivTruncates | src/vector.rs:155-164 | scalar division rounds each component toward zero: `(-7, 7) / 2 == (-3, 3)` |
| Vectors.CrossIsNotDeterminant | src/vector.rs:60-64 | `cross` is `x*rhs.x - y*rhs.y`: for (1,0) and (0,1) it gives 0 where the 2D determinant gives 1 |
| Vectors.CrossWithSelf | src/vector.rs:60-64 | a vector crossed with itself gives `x*x - y*y`, not 0 |
| Vectors.CrossIsMirroredDot | src/vector.rs:50-64 | `cross(a, b)` is the dot product of `a` with `b` mirrored in the x axis |
| Plotting.Weight | src/lib.rs:198 | definition: the source alpha as a fraction of 255 times the blend factor; used by `Blend` |
| Plotting.BlendChannel | src/lib.rs:200-203 | definition: one channel of `a * src + (1 - a) * dst`, truncated by `as u8`; `BlendOpaque`, `BlendTransparent` and `ExactChannel` state its end points and exact cases |
| Plotting.Rows | src/lib.rs:344-347 | definition: the plots of a `for` loop over `0..n`, body after body; `RowsMember` and `RowsLength` characterise its members and length |
| Plotting.Saturate | src/lib.rs:203 | Rust's float-to-`u8` cast: truncation toward zero, saturating at 0 and 255 |
| Plotting.Blend | src/lib.rs:196-204 | the Alpha-mode colour is always opaque |
| Plotting.BlendOpaque | src/lib.rs:196-204 | an opaque source at blend factor 1 replaces the pixel outright |
| Plotting.BlendTransparent | src/lib.rs:196-204 | a fully transparent source keeps the colour already there, made opaque, whatever the blend factor |
| Plotting.ExactChannel | src/lib.rs:198-203 | a channel mixed with weight 1 is the source channel, and with weight 0 it is the destination channel |
| Plotting.DrawOn | src/lib.rs:191-210 | `_draw` keeps the target's size and mode, and a plot that is off the target, or is translucent in Mask mode, leaves the image unchanged |
| Plotting.DrawOnCells | src/lib.rs:191-210 | a plot changes at most the cell it lands on, and in Normal, Custom and (for an opaque pixel) Mask mode it stores its own pixel there |
| Plotting.Paint | src/lib.rs:191-210 | a sequence of `_draw` calls keeps the target's size and mode |
| Plotting.PaintSnoc | src/lib.rs:191-210 | painting a list followed by one more plot is that plot drawn on the painted image |
| Plotting.PaintAppend | src/lib.rs:191-210 | painting two lists one after the other is painting their concatenation |
| Plotting.PaintUntouched | src/lib.rs:191-210 | an in-grid cell that no plot lands on keeps its value, whatever the mode |
| Plotting.PaintLastHit | src/lib.rs:193-195 | in Normal, Custom and (for an opaque pixel) Mask mode, the last plot to land on a cell decides its value |
| Plotting.PaintUniform | src/lib.rs:193-195 | with one pixel for every plot (Normal, Custom, or opaque Mask), an in-grid cell holds that pixel exactly when some plot lands on it, and is untouched otherwise |
| Plotting.LastHitIndex | src/lib.rs:191-210 | every plot that lands on a cell is followed by a last one landing there |
| Plotting.PaintMaskTranslucent | src/lib.rs:195 | in Mask mode a list of translucent plots changes nothing |
| Plotting.PaintCustomIsNormal | src/lib.rs:205-208 | Custom mode draws exactly as Normal mode does |
| Plotting.RowsMember | src/lib.rs:344-347 | a plot is produced by a `for` loop over `0..n` exactly when some iteration `i < n` produces it |
| Plotting.RowsLength | src/lib.rs:344-347 | `n` iterations of `m` plots each produce `n*m` plots |
| Lines.RolBit | src/lib.rs:219-222 | `rol` is the 32-bit rotation left by one (`RotateLeft(1)`): bit i of the rotated pattern is bit (i + 31) mod 32 of the old one: every bit moves up one place and bit 31 comes round to bit 0 |
| Lines.AtSwap | src/lib.rs:230-276 | the steep branch's plot is the shallow branch's with the coordinates exchanged; in either branch distinct (major, minor) pairs give distinct plots, all in the line's colour |
| Lines.NextE | src/lib.rs:239-274 | definition: `px += 2*dy1` or `2*(dy1 - dx1)` (and `py` likewise with the roles exchanged); `StepKeepsTracking` states that it keeps the Bresenham invariant |
| Lines.Run | src/lib.rs:237-276 | definition: the stepping loop of both branches written once over (major, minor); `RunReachesEnd`, `RunSolid`, `RunBlank` and `RunDiagonal` state its properties |
| Lines.LinePlots | src/lib.rs:213-278 | definition: the start plot and the stepping loop of `_draw_line_pattern`; `SolidLineEndpoints`, `SolidLineShape`, `DiagonalLine` and `BlankPatternPlotsNothing` state its properties |
| Lines.Rol | src/lib.rs:219-222 | rotating the pattern keeps the empty pattern empty and the solid pattern solid |
| Lines.At | src/lib.rs:235-275 | definition: the plot at major `a` and minor `b`, `(a, b)` in the shallow branch and `(b, a)` in the steep one; `AtSwap` states its properties |
| Lines.NextB | src/lib.rs:239-250 | one step of the loop moves the minor coordinate by at most 1 |
| Lines.Start | src/lib.rs:224-233 | the steep branch is taken exactly when `|dx| < |dy|`, and the loop runs `max(|dx|, |dy|)` steps from its start point |
| Lines.RunBlank | src/lib.rs:237-252 | with pattern 0 the stepping loop plots nothing |
| Lines.BlankPatternPlotsNothing | src/lib.rs:213-278 | a line with pattern 0 plots nothing |
| Lines.RunSolid | src/lib.rs:237-252 | with the all-ones pattern the loop plots once per step, the k-th plot `k+1` steps along the major axis |
| Lines.RunSolidSteps | src/lib.rs:237-252 | with the all-ones pattern consecutive plots differ by at most 1 in the minor coordinate |
| Lines.SolidSplit | src/lib.rs:230-252 | a solid line is its start cell followed by the plots of the stepping loop |
| Lines.SolidLineShape | src/lib.rs:213-278 | a solid line has exactly `max(|dx|, |dy|) + 1` plots, the k-th exactly k steps from the start along the major axis, and consecutive plots at most 1 apart along the minor axis |
| Lines.ConsShape | src/lib.rs:235-251 | putting the start cell before a unit-stepping run keeps both stepping properties |
| Lines.OddMultiplePinned | src/lib.rs:239-250 | an odd multiple of m strictly between -3m and m is -m (the bound on the error term at the end of the loop) |
| Lines.StepKeepsTracking | src/lib.rs:237-250 | one step keeps the Bresenham invariant relating the error term to the major and minor steps taken |
| Lines.TrackingAtEnd | src/lib.rs:237-250 | when the major coordinate reaches its end, the invariant forces the minor coordinate to have moved exactly `min(|dx|, |dy|)` |
| Lines.RunReachesEnd | src/lib.rs:237-276 | under the invariant the last plot of a solid run is the far endpoint |
| Lines.StartEndpoints | src/lib.rs:224-233 | the loop starts on the endpoint with the lower major coordinate, its far end is the other endpoint, and the initial error term satisfies the invariant |
| Lines.SolidLineEndpoints | src/lib.rs:213-278 | a solid line's first plot is the endpoint with the lower major coordinate and its last plot is the other endpoint |
| Lines.RunDiagonal | src/lib.rs:237-252 | on a 45-degree rising run every step moves both coordinates by one |
| Lines.DiagonalLine | src/lib.rs:213-278 | a solid 45-degree line from `(x, y)` plots exactly `(x+i, y+i)` for `i = 0..n`, in order |
| Circles.OctantPlots | src/lib.rs:289-296 | definition: the eight `_draw` calls of one iteration, each guarded by its mask bit, in the order 0x01 to 0x80; `OctantMember` characterises its plots |
| Circles.NextY | src/lib.rs:298-299 | definition: y0 is kept when d < 0 and decremented otherwise; `StepX` and `StepY` relate it to the midpoint invariant |
| Circles.NextD | src/lib.rs:298-299 | definition: `d + 4*x0 + 6` or `d + 4*(x0 - y0) + 10`; `InvStep` states that it keeps the midpoint invariant |
| Circles.CircleRun | src/lib.rs:288-300 | definition: the plots of the `while y0 >= x0` loop from a given state; `RunNear`, `RunMirror`, `RunSwap` and `RunMaskSubset` state its properties |
| Circles.CirclePlots | src/lib.rs:281-301 | definition: nothing for radius 0, otherwise the loop from (0, r, 3 - 2r); `CircleNearRadius`, `CircleSymmetric` and `MaskedCircleIsSubset` state its properties |
| Circles.Row | src/lib.rs:312-314 | definition: n cells of one row, left to right; `RowMember` characterises them |
| Circles.Span | src/lib.rs:311-315 | definition: the cells of `sx..ex`, or of `sx..=ex` when inclusive; `SpanMember` characterises them |
| Circles.SpanPlots | src/lib.rs:318-321 | definition: the four spans of one iteration in call order; `SpanPlotsMember` characterises them |
| Circles.FillRun | src/lib.rs:317-331 | definition: the plots of the filled-circle loop from a given state; `FillRunMirror`, `FillRunCoversOutline` and `FillRunInside` state its properties |
| Circles.FillCirclePlotsAsWritten | src/lib.rs:304-332 | definition: `_fill_circle` with its half-open spans; `FillCircleAsWrittenLopsided` shows the missing right ends |
| Circles.FillCirclePlots | src/lib.rs:304-332 | definition: `_fill_circle` with closed spans; `FillCircleMirror`, `FillCircleCoversOutline` and `FillCircleInside` state its properties |
| Circles.InvInitially | src/lib.rs:284-286 | the start state `(0, r)` with `d = 3 - 2r` satisfies the midpoint invariant |
| Circles.StepX | src/lib.rs:298-299 | how the doubled midpoint test values change when x0 grows by one |
| Circles.StepY | src/lib.rs:299 | how the doubled midpoint test values change when y0 shrinks by one |
| Circles.BOdd | src/lib.rs:286 | the inner test value is always odd |
| Circles.InvStep | src/lib.rs:288-299 | one iteration of the loop, in either branch of `d < 0`, keeps the midpoint invariant |
| Circles.InvNear | src/lib.rs:288-299 | under the invariant the current octant point is within r of the circle: `r*r - r <= x0*x0 + y0*y0 < r*r + r` |
| Circles.OctantMember | src/lib.rs:289-296 | the mask selects some of the eight octant images, and the full mask gives exactly the points `(cx +/- x0, cy +/- y0)` and `(cx +/- y0, cy +/- x0)` |
| Circles.OctantDistance | src/lib.rs:289-296 | every octant image is at squared distance `x0*x0 + y0*y0` from the centre |
| Circles.RunNear | src/lib.rs:288-300 | every plot of the loop is within r of the circle |
| Circles.CircleNearRadius | src/lib.rs:281-301 | anything `_draw_circle_mask` plots means the radius is positive, and its squared distance from the centre lies in `[r*r - r, r*r + r)` |
| Circles.RunMaskZero | src/lib.rs:288-300 | with mask 0 the loop plots nothing |
| Circles.CircleNothing | src/lib.rs:281-301 | a circle with mask 0, or with radius <= 0, plots nothing |
| Circles.RunMaskSubset | src/lib.rs:288-300 | the loop under any mask plots a subset of what it plots under the full mask |
| Circles.MaskedCircleIsSubset | src/lib.rs:281-301 | a masked circle draws a subset of the full circle |
| Circles.RunSwap | src/lib.rs:288-300 | the full-mask loop's plots are closed under swapping the two offsets |
| Circles.RunMirror | src/lib.rs:288-300 | the full-mask loop's plots are closed under mirroring either axis |
| Circles.CircleSymmetric | src/lib.rs:281-301 | the full circle is symmetric under swapping the offsets and under mirroring either axis through the centre |
| Circles.CircleCompassPoints | src/lib.rs:281-301 | a positive radius draws the four points `r` straight above, right of, below and left of the centre |
| Circles.RowMember | src/lib.rs:311-315 | a row of n cells from `sx` holds exactly the plots with that pixel on that row in `[sx, sx + n)` |
| Circles.SpanMember | src/lib.rs:311-315 | `for i in sx..ex` covers `[sx, ex)` of its row, and the closed span also `ex` |
| Circles.SpanExtend | src/lib.rs:311-315 | a half-open span grows by its next cell, and a closed span is the half-open span one cell longer |
| Circles.SpanPlotsMember | src/lib.rs:318-321 | the four spans of an octant point cover exactly the rows `cy -/+ y0` within x0 of cx and the rows `cy -/+ x0` within y0 of cx, with the right ends only when the spans are closed |
| Circles.FillCircleAsWrittenLopsided | src/lib.rs:304-332 | as written, the unit disc at the origin covers `(-1, 0)` but not its mirror image `(1, 0)`, which the circle outline draws |
| Circles.FillRunMirror | src/lib.rs:317-331 | the closed-span loop's plots are closed under mirroring either axis |
| Circles.FillCircleMirror | src/lib.rs:304-332 | the corrected disc is mirror-symmetric about both axes through the centre |
| Circles.FillRunCoversOutline | src/lib.rs:317-331 | every outline point of the same walk lies in one of the closed spans |
| Circles.OctantInSpans | src/lib.rs:318-321 | each octant point is an end of one of the four closed spans |
| Circles.FillCircleCoversOutline | src/lib.rs:281-332 | the corrected disc covers every point of the circle outline of the same radius |
| Circles.SpanWithin | src/lib.rs:311-315 | a cell of the closed span of half-width m on the row n above or below the centre is within squared distance `m*m + n*n` |
| Circles.SpansInside | src/lib.rs:318-321 | every cell of the four closed spans is no farther from the centre than the octant point they were drawn for |
| Circles.SpanNear | src/lib.rs:317-321 | under the midpoint invariant every span cell has squared distance below `r*r + r` |
| Circles.FillRunInside | src/lib.rs:317-331 | every plot of the closed-span loop has squared distance below `r*r + r` |
| Circles.FillCircleInside | src/lib.rs:304-332 | the corrected disc stays inside the outline: every cell has squared distance below `r*r + r` from the centre |
| Raster.Outline | src/lib.rs:335-340 | definition: the four solid edges of `_draw_rect` from the top clockwise; `OutlineCorners` and `OutlineOnBorder` state its properties |
| Raster.TrianglePlots | src/lib.rs:351-355 | definition: the three solid edges of `_draw_triangle`; `TriangleVertices` states that each vertex is drawn |
| Raster.Column | src/lib.rs:345-347 | definition: the inner `for` loop over one column; `ColumnInside`, `ColumnCovers` and `ColumnLength` state its properties |
| Raster.Block | src/lib.rs:344-347 | definition: columns left to right, each top to bottom; `BlockInside`, `BlockCovers`, `BlockMember` and `BlockLength` state its properties |
| Raster.FillRectPlots | src/lib.rs:343-348 | definition: `_fill_rect` with the `u32` sizes cast to `i32`; `FillRectNormal` states what it paints |
| Raster.Blit | src/lib.rs:427-437 | definition: a w-by-h source window drawn at scale s; `BlitInside`, `BlitOutside` and `BlitBlock` state its properties |
| Raster.SpritePlots | src/lib.rs:423-439 | definition: `_draw_sprite` for scales 0, 1 and more; `SpriteIsFullPartial` and `BlitInside` state its properties |
| Raster.PartialPlotsAsWritten | src/lib.rs:442-459 | definition: `_draw_partial_sprite` whose scaled branch walks the whole sprite; `PartialScaledBlitOverdraws` shows it leaving the destination |
| Raster.PartialPlots | src/lib.rs:442-459 | definition: `_draw_partial_sprite` with both branches over the w-by-h window; `PartialInside` states that it stays inside its destination |
| Raster.PenAfter | src/lib.rs:470-495 | definition: the pen after a text, a newline returning to column 0 one 8*scale row down; `PenOnOneLine` and `PenAfterNewline` state its properties |
| Raster.FontIndex | src/lib.rs:478 | definition: `c*64 + j*8 + i`; `FontIndexInRange` states that it stays inside the font table |
| Raster.FontIndexInRange | src/lib.rs:476-479 | every cell of an 8-by-8 glyph indexes the 16384-entry font table |
| Raster.Glyph | src/lib.rs:475-492 | definition: the loops over one glyph's lit cells, each an s-by-s block; `GlyphInside`, `GlyphCellShape` and `GlyphInColour` state its properties |
| Raster.TextWalk | src/lib.rs:470-495 | definition: the byte loop, one glyph per byte other than a newline; `WalkIsText` and `TextWalkInColour` state its properties |
| Raster.TextMode | src/lib.rs:467-468 | definition: Alpha for a translucent colour, Mask for an opaque one |
| Raster.TextPlots | src/lib.rs:462-498 | definition: `_draw_string_scaled`'s plots; `TextColour` states that they are all in the text colour |
| Raster.I32Count | src/lib.rs:344-345 | the range `0..n as i32` for a `u32` n has n iterations below 2^31 and never more than n |
| Raster.RunFlat | src/lib.rs:237-252 | with no minor displacement the stepping loop never leaves its starting row or column |
| Raster.HorizontalLine | src/lib.rs:213-278 | every plot of a line within one row lies on that row between the two end columns, whatever the pattern |
| Raster.VerticalLine | src/lib.rs:213-278 | every plot of a line within one column lies on that column between the two end rows, whatever the pattern |
| Raster.LineEnds | src/lib.rs:213-278 | a solid line plots both of its endpoints |
| Raster.OutlineCorners | src/lib.rs:335-340 | `_draw_rect` draws the four corners `(x, y)`, `(x+w, y)`, `(x+w, y+h)`, `(x, y+h)` |
| Raster.OutlineOnBorder | src/lib.rs:335-340 | nothing `_draw_rect` draws is off the border of the rectangle with corners `(x, y)` and `(x+w, y+h)` |
| Raster.TriangleVertices | src/lib.rs:351-355 | `_draw_triangle` passes through all three vertices |
| Raster.SortByY | src/lib.rs:360-372 | the vertex sort returns a permutation of the three vertices in non-decreasing y |
| Raster.SortByYStrict | src/lib.rs:360-372 | with three different y values the order is strict, and vertices already in increasing y keep their order |
| Raster.ColumnInside | src/lib.rs:345-347 | every plot of the inner loop lies on its column within `[y, y+h)` |
| Raster.ColumnCovers | src/lib.rs:345-347 | the inner loop plots every row of `[y, y+h)` on its column |
| Raster.BlockInside | src/lib.rs:344-347 | every plot of the nested loops lies in `[x, x+w) x [y, y+h)`, in the fill colour |
| Raster.BlockCovers | src/lib.rs:344-347 | the nested loops plot every cell of `[x, x+w) x [y, y+h)` |
| Raster.BlockMember | src/lib.rs:344-347 | the nested loops plot exactly the cells of `[x, x+w) x [y, y+h)`, each in the fill colour |
| Raster.ColumnLength | src/lib.rs:345-347 | the inner loop makes h plots |
| Raster.BlockLength | src/lib.rs:344-347 | a w-by-h fill makes `w*h` plots |
| Raster.BlockUnit | src/lib.rs:491 | a 1-by-1 block is the single plot the 1:1 glyph branch makes |
| Raster.FillRectNormal | src/lib.rs:343-348 | in Normal mode `_fill_rect` sets exactly the in-target cells of `[x, x+w) x [y, y+h)` to `p` and leaves every other cell as it was |
| Raster.GridColumnFind | src/lib.rs:428-430 | every plot of an inner loop was made by one of its rows |
| Raster.GridColumnOf | src/lib.rs:427-430 | every plot of the nested loops was made by one of its columns |
| Raster.GridFind | src/lib.rs:427-430 | every plot of the nested loops was made by one iteration `(i, j)` of the w-by-h walk |
| Raster.GridColumnCovers | src/lib.rs:428-430 | whatever row j of an inner loop makes, the loop makes |
| Raster.GridCovers | src/lib.rs:427-430 | whatever iteration `(i, j)` makes, the nested loops make |
| Raster.GridMember | src/lib.rs:427-430 | a plot is made by the nested loops exactly when some iteration of the w-by-h walk makes it |
| Raster.SpriteIsFullPartial | src/lib.rs:423-459 | `_draw_sprite` is the corrected partial blit of the whole sprite at offset 0 |
| Raster.BlitBlock | src/lib.rs:431-437 | source pixel `(i, j)` is plotted over the whole s-by-s block at `(x + i*s, y + j*s)` in the colour read at `(i + ox, j + oy)` |
| Raster.BlitCellInside | src/lib.rs:431-437 | a plot made for source pixel `(i, j)` lies in its s-by-s block and has the colour read at `(i + ox, j + oy)` |
| Raster.BlitInside | src/lib.rs:423-459 | every plot of a blit of a w-by-h window at scale s lies in `[x, x + w*s) x [y, y + h*s)` |
| Raster.PartialInside | src/lib.rs:442-459 | the corrected partial blit stays inside its `w*s` by `h*s` destination |
| Raster.PartialScaledBlitOverdraws | src/lib.rs:451-457 | as written, a scaled partial blit of a window narrower than the sprite paints the block of the sprite's last column, beyond the `w*s`-wide destination; the corrected blit does not |
| Raster.BlitOutside | src/lib.rs:423-459 | a blit of width w plots nothing at or right of `x + w*s` |
| Raster.CellSize | src/lib.rs:475-492 | a glyph cell is at least one pixel on a side |
| Raster.PenOnOneLine | src/lib.rs:470-495 | on a line without newlines each byte moves the pen right by `8*scale` |
| Raster.PenAfterNewline | src/lib.rs:471-473 | after `'\n'` the pen restarts at column 0, one `8*scale`-high row lower, and the bytes after it move it along that row |
| Raster.NewlinePlotsNothing | src/lib.rs:471-473 | `'\n'` plots nothing |
| Raster.WalkIsText | src/lib.rs:470-495 | the text loop draws, for each byte other than `'\n'`, the glyph at the current pen |
| Raster.GlyphCellShape | src/lib.rs:475-492 | glyph cell `(i, j)` reads `FONT_DATA[c*64 + j*8 + i]` (an in-range index) and draws nothing when it is not 1, an s-by-s block when the scale exceeds 1, and one plot otherwise |
| Raster.GlyphCellInside | src/lib.rs:475-492 | a plot of glyph cell `(i, j)` comes from a set font bit, is in the text colour, and lies in that cell's square |
| Raster.GlyphInside | src/lib.rs:475-492 | a glyph is drawn in the text colour and stays inside its character cell, 8 glyph cells on each side |
| Raster.GlyphCellCovers | src/lib.rs:479-485 | a set glyph cell paints its whole square |
| Raster.GlyphGridCovers | src/lib.rs:476-492 | whatever a glyph cell paints, the glyph loops paint |
| Raster.GlyphInColour | src/lib.rs:475-492 | every plot of a glyph is in the text colour |
| Raster.TextWalkInColour | src/lib.rs:470-495 | if every glyph is drawn in colour p, so is the whole text |
| Raster.TextColour | src/lib.rs:462-498 | every plot of a text, at any scale, is in the text colour |
| Engines.OctantsInOrder | src/lib.rs:289-296 | the eight guarded `_draw` calls of one circle iteration make exactly the octant plots the mask selects, in the source's order |
| Engines.SpansInOrder | src/lib.rs:318-321 | the four `draw_line` calls of one filled-circle iteration make exactly the four spans of that octant point |
| Engines.WalkAdvance | src/lib.rs:470-495 | one pass of the byte loop moves the pen and the plots from those of the first k bytes to those of the first k + 1 |
| Engines.RunStep | src/lib.rs:237-252 | one iteration of a line loop is a step plus a `_draw` where the rotated pattern's low bit is set, followed by the rest of the walk |
| Engines.CircleStep | src/lib.rs:288-300 | one iteration of the circle loop draws the octant plots and hands the next `(x0, y0, d)` to the rest of the walk |
| Engines.FillStep | src/lib.rs:317-331 | one iteration of the filled-circle loop draws its four spans and hands the next `(x0, y0, d)` to the rest of the walk |
| Engines.Engine.constructor | src/lib.rs:657-708 | `construct`: a fresh blank screen-sized frame buffer is both the default and the current draw target; the mouse starts at (300, 200), every button and key is idle, and the engine is active in Normal mode with blend factor 1 |
| Engines.Engine.Draw | src/lib.rs:191-210 | `_draw` reports a write exactly when the cell is on the target and, in Mask mode, the pixel is opaque, and leaves the target as `DrawOn` describes |
| Engines.Engine.DrawTracked | src/lib.rs:191-210 | a `_draw` extends the painted plot list by one plot |
| Engines.Engine.DrawIf | src/lib.rs:289-296 | a guarded `_draw` extends the painted plot list by the plot exactly when the guard holds |
| Engines.Engine.DrawLinePattern | src/lib.rs:213-278 | `_draw_line_pattern` leaves the target painted with exactly the plots of `LinePlots`, in order |
| Engines.Engine.WalkShallow | src/lib.rs:237-252 | the shallow loop paints the plots of its run |
| Engines.Engine.ShallowStep | src/lib.rs:238-251 | one shallow iteration steps x by one, y by `NextB`, px by `NextE`, rotates the pattern and draws where its low bit is set |
| Engines.Engine.WalkSteep | src/lib.rs:261-276 | the steep loop paints the plots of its run |
| Engines.Engine.SteepStep | src/lib.rs:262-275 | one steep iteration steps y by one, x by `NextB`, py by `NextE`, rotates the pattern and draws where its low bit is set |
| Engines.Engine.DrawCircleMask | src/lib.rs:281-301 | `_draw_circle_mask` leaves the target painted with exactly the plots of `CirclePlots` |
| Engines.Engine.DrawOctants | src/lib.rs:289-296 | the body of the circle loop paints exactly the octant plots the mask selects |
| Engines.Engine.FillCircle | src/lib.rs:304-332 | `_fill_circle` with closed spans leaves the target painted with exactly the plots of `FillCirclePlots` |
| Engines.Engine.DrawSpans | src/lib.rs:318-321 | the four spans of one octant point are painted in drawing order |
| Engines.Engine.DrawSpan | src/lib.rs:311-315 | the `draw_line` closure paints its span cell by cell from left to right |
| Engines.Engine.DrawRect | src/lib.rs:335-340 | `_draw_rect` paints the four solid edges from `(x, y)` round to `(x+w, y+h)` and back |
| Engines.Engine.DrawOutline | src/lib.rs:336-339 | the four edge lines are painted in order: top, right, bottom, left |
| Engines.Engine.DrawTriangle | src/lib.rs:351-355 | `_draw_triangle` paints the three solid edges in order |
| Engines.Engine.DrawColumn | src/lib.rs:345-347 | the inner loop paints the column of h plots downwards |
| Engines.Engine.DrawBlock | src/lib.rs:344-347 | the nested loops paint a w-by-h block column by column |
| Engines.Engine.FillRect | src/lib.rs:343-348 | `_fill_rect` leaves the target painted with exactly the plots of `FillRectPlots` |
| Engines.Engine.BlitCell | src/lib.rs:429-436 | one source pixel is read with `get_pixel` and painted as its s-by-s block (one plot at scale 1) |
| Engines.Engine.BlitColumn | src/lib.rs:428-437 | the rows of one blit column are painted top to bottom |
| Engines.Engine.DrawBlit | src/lib.rs:427-437 | the blit loops paint the w-by-h window column by column |
| Engines.Engine.DrawSprite | src/lib.rs:423-439 | `_draw_sprite` paints exactly `SpritePlots` of the source sprite's current contents |
| Engines.Engine.DrawPartialSprite | src/lib.rs:442-459 | the corrected `_draw_partial_sprite` paints exactly `PartialPlots` of the source sprite's contents |
| Engines.Engine.GlyphCellDraw | src/lib.rs:478-491 | one glyph cell is painted when its font bit is 1: an s-by-s block above scale 1, one plot otherwise |
| Engines.Engine.GlyphColumn | src/lib.rs:477-492 | the rows of one glyph column are painted top to bottom |
| Engines.Engine.DrawGlyph | src/lib.rs:476-492 | the 8-by-8 glyph loops paint the glyph's whole grid |
| Engines.Engine.TextByte | src/lib.rs:471-494 | a `'\n'` moves the pen to column 0 one `8*scale` row lower and paints nothing; any other byte paints its glyph at the pen and moves the pen `8*scale` right |
| Engines.Engine.DrawGlyphAt | src/lib.rs:475-492 | one non-newline byte paints exactly the plots of its glyph at the pen, in order |
| Engines.Engine.DrawText | src/lib.rs:470-495 | the byte loop paints exactly the text walk |
| Engines.Engine.DrawStringScaled | src/lib.rs:462-498 | the text is painted in Alpha mode for a translucent colour and Mask mode for an opaque one, and every engine field, the pixel mode included, is as it was on entry |
| Engines.Engine.ClearCell | src/lib.rs:506 | one `set_pixel` of `_clear` extends the cleared prefix of the buffer by one cell |
| Engines.Engine.Clear | src/lib.rs:501-509 | `_clear` sets every cell of the draw target to `p`, whatever the pixel mode |
| Engines.Engine.UpdateKeys | src/lib.rs:511-555 | after `_update_keys` every key slot holds `KeyAfter` of the frame's key lists |
| Engines.Engine.ReadKeys | src/lib.rs:512-524 | every slot is cleared and then flagged held, pressed and released from the three lists |
| Engines.Engine.UpdateMouse | src/lib.rs:557-581 | the position is the window's divided by the pixel size with truncation (kept when the window reports none), buttons 0-2 are stepped by `NextButton`, the other two slots are unchanged, and the wheel delta is the window's or 0 |
| Engines.Engine.SetDrawTarget | src/lib.rs:126-131 | the draw target becomes the given sprite, or the default target for None, and nothing else changes |
| Input.Raw | src/lib.rs:512-524 | definition: a key's slot read straight from the held, pressed and released lists |
| Input.EitherLaws | src/lib.rs:526-554 | combining two buttons is commutative, associative and idempotent, with the idle button as identity, so the order of the left and right keys does not matter |
| Input.KeyAfter | src/lib.rs:511-555 | definition: the slot `_update_keys` leaves for a key; `LogicalKeys` states what each combined key reads |
| Input.NextButton | src/lib.rs:565-573 | a button is pressed on the first frame it is down and held on later down frames, released on the first up frame after being down, and never has more than one flag |
| Input.Replay | src/lib.rs:565-573 | replaying raw readings gives one button state per frame |
| Input.PressHoldRelease | src/lib.rs:565-573 | raw readings down, down, down, up, up from idle give pressed, held, held, released, nothing |
| Input.NoDoublePress | src/lib.rs:565-573 | a press is never followed by a second press on the next frame |
| Input.Either | src/lib.rs:526-554 | definition: two buttons combined flag by flag with `\|`; `EitherLaws` states its algebra |
| Input.LogicalKeys | src/lib.rs:511-555 | Shift is held exactly when left or right Shift is down, Enter is pressed exactly when Return or keypad Enter is, Alt ignores whether Alt itself was listed, and every other key reports exactly the three lists |
| Lifecycle.Context.constructor | src/lib.rs:589-596 | a context wraps the given engine |
| Lifecycle.Context.CoreUpdate | src/lib.rs:599-635 | a closed window deactivates the engine and touches no input state; otherwise the keys and buttons are updated and the engine stays active only if `on_user_update` returned true and presenting the frame succeeded; nothing here ever activates it |
| Lifecycle.Context.Start | src/lib.rs:637-653 | `start` returns Fail before any frame when `on_user_create` is false; it returns Ok only with the engine inactive, after an ending where `on_user_destroy` agreed or the window closed, and every earlier ending re-entered the loop |
| TextEditor.Advance | examples/text/main.rs:63-68 | a tab moves the column to the next multiple of the tab width, at most a tab width on; any other character moves it by one |
| TextEditor.TabStop | examples/text/main.rs:64 | `pos + (tab - pos % tab)` is the next multiple of tab after pos |
| TextEditor.Width | examples/text/main.rs:187-199 | the display width is at least the character count, and equals it on text without tabs |
| TextEditor.WidthStep | examples/text/main.rs:187-199 | the width of a prefix one character longer is one more step of the source's loop |
| TextEditor.WidthGrows | examples/text/main.rs:187-199 | every character makes the width grow |
| TextEditor.WidthMonotone | examples/text/main.rs:187-199 | a prefix longer by n characters is at least n columns wider |
| TextEditor.FitsUnique | examples/text/main.rs:56-76 | exactly one insertion index satisfies the stopping rule of `calc_insertion_pos` for a line and a shadow column |
| TextEditor.FitsLongest | examples/text/main.rs:56-76 | any prefix longer than the chosen insertion index is wider than the shadow column |
| TextEditor.Joined | examples/text/main.rs:23 | no lines hold no text |
| TextEditor.JoinedConcat | examples/text/main.rs:23 | the text of two runs of lines is the text of the first followed by that of the second |
| TextEditor.SplitKeepsText | examples/text/main.rs:135-139 | splitting a line in two keeps the text |
| TextEditor.EmptyLineKeepsText | examples/text/main.rs:130 | inserting an empty line keeps the text |
| TextEditor.EmptyLineAt | examples/text/main.rs:130-146 | an empty line inserted at index l adds one line, empty at l, and keeps the text |
| TextEditor.SplitLineAt | examples/text/main.rs:135-139 | `split_off(k)` on line l plus the insert adds one line, holding the tail at l + 1, and keeps the text |
| TextEditor.JoinedPrefixStep | examples/text/main.rs:23 | the text of the first k + 1 lines is that of the first k followed by line k |
| TextEditor.JoinedUpdate | examples/text/main.rs:101-107 | replacing one line replaces its stretch of the text |
| TextEditor.CutInside | examples/text/main.rs:102-106 | cutting a concatenation at an index inside its middle part |
| TextEditor.JoinedInsert | examples/text/main.rs:100-111 | typing c at a position inserts c into the text at that position's index |
| TextEditor.JoinedRemove | examples/text/main.rs:114-115 | deleting the character at a position deletes the text's character at that position's index |
| TextEditor.JoinNextKeepsText | examples/text/main.rs:118-121 | joining a line with the next one keeps the text |
| TextEditor.Forward | examples/text/main.rs:165-179 | moving forward keeps the cursor on a line of the buffer at an index within it |
| TextEditor.Backward | examples/text/main.rs:151-163 | moving backward keeps the cursor on a line of the buffer at an index within it |
| TextEditor.ForwardStep | examples/text/main.rs:165-179 | forward advances exactly one step (a line break counts as one), except at the end of the last line, where the position is unchanged |
| TextEditor.BackwardStep | examples/text/main.rs:151-163 | backward goes back exactly one step, except at (line 0, index 0), where the position is unchanged |
| TextEditor.ForwardBackward | examples/text/main.rs:151-179 | away from the end of the buffer, moving forward and then backward returns to the start position |
| TextEditor.BackwardForward | examples/text/main.rs:151-179 | away from the start of the buffer, moving backward and then forward returns to the start position |
| TextEditor.Editor.Default | examples/text/main.rs:28-53 | the default editor holds one empty line with the cursor at its start, tab width 4 and a redraw due |
| TextEditor.Editor.CalcCursorPos | examples/text/main.rs:78-98 | the cursor column becomes the display width of the first `insertion_pos` characters, and is copied to the shadow column only when `set_shadow` is true |
| TextEditor.Editor.CalcInsertionPos | examples/text/main.rs:56-76 | the insertion index becomes the longest prefix of the current line whose display width is at most the shadow column |
| TextEditor.Editor.CalcDrawLength | examples/text/main.rs:187-199 | the result is the display width of the text |
| TextEditor.Editor.ResetCursorBlink | examples/text/main.rs:181-185 | the cursor shows and a redraw is due |
| TextEditor.Editor.InsertChar | examples/text/main.rs:100-111 | c goes into the current line at the insertion index (appended at the end), the index moves past it, the line grows by one, and in the running text c lands at the cursor's index |
| TextEditor.Editor.RemoveChar | examples/text/main.rs:113-125 | inside the line the character at the insertion index is deleted; at the end of a non-last line the next line is joined on (one line fewer, text kept); at the end of the last line nothing changes |
| TextEditor.Editor.InsertNewLine | examples/text/main.rs:127-149 | exactly one line is added and the text is kept; the line breaks at the insertion index and the cursor moves to the start of the new line, except at index 0 of a non-empty line, where an empty line goes in front and the cursor stays on it |
| TextEditor.Editor.MoveCursorBackward | examples/text/main.rs:151-163 | the position moves one step back as `Backward` says, the shadow column follows the cursor, and the cursor shows |
| TextEditor.Editor.MoveCursorForward | examples/text/main.rs:165-179 | the position moves one step on as `Forward` says, the shadow column follows the cursor, and the cursor shows |
| TextEditor.Editor.KeyUp | examples/text/main.rs:317-330 | on the first line the cursor goes to its start and the shadow column is reset; otherwise the cursor goes up a line to the index that fits the kept shadow column |
| TextEditor.Editor.KeyDown | examples/text/main.rs:332-347 | on the last line the cursor goes to its end and the shadow column follows; otherwise the cursor goes down a line to the index that fits the kept shadow column |
| TextEditor.Editor.Backspace | examples/text/main.rs:361-366 | at the start of the buffer nothing happens; otherwise the character before the cursor is deleted from the text, or at the start of a line that line is joined to the one above |
| TextEditor.Lookup | examples/text/main.rs:270-299 | a key of the table yields one of its characters, and any other key the `'\0'` fallback |
| TextEditor.LookupAt | examples/text/main.rs:270-299 | the character found is the one paired with the key's first occurrence |
| TextEditor.KeyToChar | examples/text/main.rs:263-302 | `key_to_char` returns Err exactly for keys outside `PRINTABLE_KEYS` |
| TextEditor.TablesCoverPrintable | examples/text/main.rs:248-302 | for every printable key both arms of the match give a real character, never the `'\0'` fallback |
| TextEditor.LookupPrefix | examples/text/main.rs:270-299 | a key found in a prefix of the table is looked up in that prefix alone |
| TextEditor.LetterRows | examples/text/main.rs:248-289 | the letter rows of the key list and of both character tables run through the alphabet in order |
| TextEditor.LetterCase | examples/text/main.rs:263-302 | a letter key types its capital with shift and its small letter without |
| WaveProp.FlowField.Selected | examples/waveprop.rs:62-63 | definition: the mouse position divided by the cell size, rounding toward zero; used by `Click` |
| WaveProp.FlowField.Neighbours | examples/waveprop.rs:147-171 | definition: the labelled 8-neighbours in push order; `NeighboursInOrder` and `NeighboursExact` state that `GatherNeighbours` builds it |
| WaveProp.DirectionsAround | examples/waveprop.rs:147-171 | the descent looks at exactly the eight cells around the current one |
| WaveProp.FlowField.constructor | examples/waveprop.rs:21-56 | a map of 32-pixel cells as large as the screen allows, no obstacles, all labels 0, start (3, 7), end (12, 7), wave marker 1 |
| WaveProp.FlowField.Click | examples/waveprop.rs:59-73 | releasing the left button toggles exactly the obstacle at the selected cell's row-major index and nothing else; releasing the right button moves the start to the selected cell |
| WaveProp.FlowField.ToggledCell | examples/waveprop.rs:60-67 | for a selection inside the map the row-major index is in the buffer and addresses the selected cell |
| WaveProp.FlowField.AdjustWave | examples/waveprop.rs:75-84 | Q raises the wave marker by one; A lowers it by one but puts a 0 back to 1; a marker of at least 1 stays at least 1 |
| WaveProp.FlowField.InitLabels | examples/waveprop.rs:86-95 | every cell of the outer ring and every obstacle is labelled -1, every other cell 0 |
| WaveProp.FlowField.Parent | examples/waveprop.rs:111-127 | a cell with label k >= 2 has a 4-neighbour in the map labelled k - 1 |
| WaveProp.FlowField.VisitKeeps | examples/waveprop.rs:106-128 | labelling one frontier entry keeps the round's invariant: the rest of the frontier and the enlarged next frontier stay valid and one fewer cell is unlabelled |
| WaveProp.FlowField.RoundEnds | examples/waveprop.rs:130-132 | once a frontier is used up the next one becomes the frontier, with the label one higher |
| WaveProp.FlowField.Visit | examples/waveprop.rs:106-128 | a visit writes the entry's label into its cell alone, queues its unlabelled 4-neighbours with the next label and keeps the round's invariant |
| WaveProp.FlowField.QueueZeroNeighbours | examples/waveprop.rs:113-127 | the next frontier gains exactly the 4-neighbours in the map still labelled 0, with label k; no label changes |
| WaveProp.FlowField.Round | examples/waveprop.rs:104-132 | a round labels every cell of the frontier and returns the next frontier; the end stays labelled 1 and each later round labels as many cells as its frontier holds |
| WaveProp.FlowField.WaveStarts | examples/waveprop.rs:97-99 | the end cell alone, with label 1, is a valid first frontier |
| WaveProp.FlowField.WaveEnds | examples/waveprop.rs:103-133 | when a frontier comes out empty the labels are a distance field: the end alone holds 1, every label k >= 2 has a neighbour k - 1, no labelled cell borders an unlabelled one, labelled neighbours differ by at most one, and the -1 cells other than the end are those blocked before |
| WaveProp.FlowField.WalkBound | examples/waveprop.rs:103-133 | along any walk over unblocked cells that ends at the end cell, the first cell is labelled and its label is at most the walk's length |
| WaveProp.FlowField.DescentWalk | examples/waveprop.rs:103-133 | from a cell labelled k there is a walk of exactly k cells to the end; with `WalkBound`, a label is one more than the 4-connected distance to the end |
| WaveProp.FlowField.Propagate | examples/waveprop.rs:97-133 | after the wave the labels form the distance field described under `WaveEnds`, and a cell other than the end is -1 exactly when it is blocked |
| WaveProp.FlowField.Rounds | examples/waveprop.rs:101-133 | the loop of rounds terminates, and ends with the distance field over any starting labels of -1 and 0 |
| WaveProp.FlowField.NeighboursInOrder | examples/waveprop.rs:147-171 | the neighbour list is gathered north, east, south, west, then north-west, north-east, south-west, south-east |
| WaveProp.FlowField.NeighboursExact | examples/waveprop.rs:147-171 | the neighbour list holds exactly the 8-neighbours in the map with a positive label, each with its label |
| WaveProp.FlowField.LowestIndex | examples/waveprop.rs:178-180 | the chosen entry has the least label, and no entry before it has a label as small |
| WaveProp.FlowField.StepDown | examples/waveprop.rs:144-184 | from a labelled cell other than the end the lowest labelled 8-neighbour exists and has a smaller positive label |
| WaveProp.FlowField.GatherNeighbours | examples/waveprop.rs:145-171 | the eight tests gather the neighbour list of `NeighboursInOrder` |
| WaveProp.FlowField.Push | examples/waveprop.rs:148-171 | one test pushes the cell with its label exactly when it is in the map with a positive label |
| WaveProp.FlowField.LowestOf | examples/waveprop.rs:178-180 | the scan keeps the first entry of least label |
| WaveProp.FlowField.Advance | examples/waveprop.rs:145-184 | one pass moves to the lowest labelled 8-neighbour when there is one, and that neighbour's label is below the current one's; with no neighbour it reports no path |
| WaveProp.FlowField.Descend | examples/waveprop.rs:135-185 | the loop terminates; the path starts at the start cell, follows the descent with labels strictly falling, and ends at the end cell unless no path is reported, which happens only when the start has no labelled neighbour and never from a labelled start |
| WaveProp.FlowField.Update | examples/waveprop.rs:58-185 | one frame: the clicks and keys, the labels, the distance field and a descending path from the start that reaches the end whenever the start is labelled |
| ShadowCast.NewEdge | examples/shadowcast.rs:93-205 | definition: a one-block edge along side d of a cell; `NewEdgeBorders` states that it lies on that side |
| ShadowCast.Grow | examples/shadowcast.rs:87-185 | definition: a vertical edge grown one block down, a horizontal one one block right; `GrowBorders` and `GrowKeeps` state its properties |
| ShadowCast.NewEdgeBorders | examples/shadowcast.rs:93-205 | a new edge is one block long, straight, and lies on the side of the cell that starts it |
| ShadowCast.GrowBorders | examples/shadowcast.rs:87-185 | growing the edge of the cell above (west, east sides) or to the left (north, south sides) by one block makes it cover the same side of the current cell |
| ShadowCast.GrowKeeps | examples/shadowcast.rs:89-182 | growing an edge keeps every side it already covered covered |
| ShadowCast.ShadowCasting.constructor | examples/shadowcast.rs:15-60 | every cell of a width by height world is empty with no side flags and zero ids, and the edge pool is empty |
| ShadowCast.ShadowCasting.AddBoundary | examples/shadowcast.rs:283-292 | exactly the cells of rows 1 and height - 2 and columns 1 and width - 2 (inside the outer ring) are added; no cell is removed |
| ShadowCast.ShadowCasting.Picked | examples/shadowcast.rs:308 | the picked row-major index is never negative |
| ShadowCast.ShadowCasting.CellAt | examples/shadowcast.rs:308-309 | an index inside the world names the cell whose row-major index it is |
| ShadowCast.ShadowCasting.CellAtIndex | examples/shadowcast.rs:308-309 | each cell's row-major index is in the world and names that cell again |
| ShadowCast.ShadowCasting.Toggle | examples/shadowcast.rs:306-310 | a released left button flips whether the picked cell exists and leaves every other cell alone |
| ShadowCast.ShadowCasting.ClearCell | examples/shadowcast.rs:68-69 | the four side flags of the cell are cleared and no other flag changes |
| ShadowCast.ShadowCasting.ClearColumn | examples/shadowcast.rs:67-70 | the side flags of the region's cells in column x are cleared and no other flag changes |
| ShadowCast.ShadowCasting.ClearRegion | examples/shadowcast.rs:63-70 | the side flags of exactly the region's cells are cleared |
| ShadowCast.ShadowCasting.GrowEdge | examples/shadowcast.rs:89-182 | only the edge with the preceding cell's id changes, grown by one block, and it then covers the current cell's side |
| ShadowCast.ShadowCasting.PushEdge | examples/shadowcast.rs:105-200 | the pool gains exactly the new edge at its end, which covers the side |
| ShadowCast.ShadowCasting.Mark | examples/shadowcast.rs:90-142 | the side is flagged with the given edge id, which is the preceding cell's id on that side whenever that cell is interior and flagged there, and no other flag or id changes |
| ShadowCast.ShadowCasting.Side | examples/shadowcast.rs:84-206 | a side whose neighbour is missing is flagged; it reuses the preceding cell's id and grows that edge when the preceding cell has one on the same side, and otherwise gets a new edge at the end of the pool; nothing else changes |
| ShadowCast.ShadowCasting.Finished | examples/shadowcast.rs:73-74 | once the scan has passed the last interior column the region is converted |
| ShadowCast.ShadowCasting.ConvertCell | examples/shadowcast.rs:75-207 | an existing interior cell has its west, east, north and south sides handled in that order, keeping the scan's marks (including the shared id of a side that continues the preceding cell's edge), and no other cell changes |
| ShadowCast.ShadowCasting.ConvertColumn | examples/shadowcast.rs:74-208 | the interior cells of column x are handled top to bottom, keeping the scan's marks (including the shared ids of continued edges), and nothing outside the column changes |
| ShadowCast.ShadowCasting.ConvertTileMapToPolyMap | examples/shadowcast.rs:62-210 | afterwards the region's outer ring has no side flags; an interior side is flagged exactly when the cell exists and its neighbour across that side does not, and then names an edge of the pool lying along that side; two flagged interior sides in a row (west or east down a column, north or south along a row) name the same edge, so a run of sides becomes one edge; every edge is straight; there are at most four edges per existing interior cell; cells outside the region keep their flags |
| ShadowCast.ShadowCasting.Update | examples/shadowcast.rs:300-315 | the click flips the picked cell alone, then the whole world is converted with 16-pixel blocks |
| Galaxy.Seed | examples/galaxy.rs:47 | definition: the low 16 bits of x above the low 16 bits of y; `SeedHalves`, `SeedMasked` and `SeedInjective` state its properties |
| Galaxy.Advance | examples/galaxy.rs:98 | definition: the state plus 0xe120fc15, wrapping; `AdvanceInjective` and `CheckedAgrees` state its properties |
| Galaxy.Mix | examples/galaxy.rs:99-103 | definition: the two 64-bit products of `lehmer32`, each folded onto its high half and truncated to 32 bits; `StarSystem.Lehmer32` returns it |
| Galaxy.Skip | examples/galaxy.rs:66-79 | definition: the state after n draws whose values the model does not keep; `StarSystem.SurfaceDraws` states that the planet's `rand_f64` draws take it there |
| Galaxy.PlanetsFrom | examples/galaxy.rs:63-90 | definition: n planets drawn one after another; `PlanetsShape` states its length and bounds |
| Galaxy.Generate | examples/galaxy.rs:45-95 | definition: the system `StarSystem::new` builds; `GeneratePeriodic`, `StarExistence`, `FullAgreesOnStar` and `SystemBounds` state its properties |
| Galaxy.Draw | examples/galaxy.rs:97-108 | `rand_i32(min, max)` steps the state once and yields a value in [min, max) |
| Galaxy.PlanetFrom | examples/galaxy.rs:64-89 | a planet has fewer than five moons, the negative moon draws counting as none |
| Galaxy.SeedHalves | examples/galaxy.rs:47 | the seed holds x's low 16 bits in its high half and y's low 16 bits in its low half |
| Galaxy.SeedMasked | examples/galaxy.rs:47 | only the low 16 bits of each coordinate enter the seed |
| Galaxy.SeedInjective | examples/galaxy.rs:47 | two positions share a seed exactly when their low 16 bits agree |
| Galaxy.GeneratePeriodic | examples/galaxy.rs:45-95 | positions that agree in their low 16 bits generate the same system, so the galaxy repeats every 65536 sectors each way |
| Galaxy.StarExistence | examples/galaxy.rs:54-60 | the star exists exactly when the first draw in [0, 20) is 1; a missing star stays white; a system generated without `generate_full_system` has no planets |
| Galaxy.FullAgreesOnStar | examples/galaxy.rs:54-60 | the full system shown for a selected star has the same star, and colour, as the one drawn in the sector view |
| Galaxy.PlanetsShape | examples/galaxy.rs:63-90 | the planet loop pushes as many planets as its count, each with fewer than five moons |
| Galaxy.SystemBounds | examples/galaxy.rs:54-92 | a system has fewer than ten planets, each with fewer than five moons, and an existing star has one of the eight star colours |
| Galaxy.CheckedAdvance | examples/galaxy.rs:98 | the `u32` `+=` succeeds exactly when the mathematical sum of the state and 0xe120fc15 is below 2^32, and then yields a word exactly the increment above the state, with no wrap-around |
| Galaxy.AdvanceInjective | examples/galaxy.rs:98 | the wrapping step is total and loses no state: distinct states step to distinct states |
| Galaxy.CheckedAgrees | examples/galaxy.rs:98 | where the checked step succeeds it gives what the wrapping step gives |
| Galaxy.SecondStepOverflows | examples/galaxy.rs:97-98 | no two checked steps in a row succeed, so every existing star overflows by its second draw |
| Galaxy.FirstStepOverflows | examples/galaxy.rs:47-54 | the seed of position (65535, 0) overflows on the very first draw |
| Galaxy.StarSystem.constructor | examples/galaxy.rs:45-95 | the stored results are those of `Generate` for the position and the flag, so a system depends on nothing but its arguments |
| Galaxy.StarSystem.Populate | examples/galaxy.rs:54-92 | the draws after initialisation leave the fields as `Generate` describes |
| Galaxy.StarSystem.AddPlanets | examples/galaxy.rs:63-90 | the loop pushes the planets in the order they are generated and leaves the star alone |
| Galaxy.StarSystem.Lehmer32 | examples/galaxy.rs:97-104 | the state steps by the increment, wrapping, and the result is the two-round 64-bit mix of the new state |
| Galaxy.StarSystem.RandI32 | examples/galaxy.rs:106-108 | the value and new state are those of `Draw` |
| Galaxy.StarSystem.RandF64 | examples/galaxy.rs:110-112 | the draw steps the state once and changes nothing else |
| Galaxy.StarSystem.NewPlanet | examples/galaxy.rs:64-89 | one pass of the planet loop gives the planet and state of `PlanetFrom` |
| Galaxy.StarSystem.SurfaceDraws | examples/galaxy.rs:66-79 | the eight real-valued draws of a planet step the state eight times |
| Galaxy.StarSystem.MoonDraws | examples/galaxy.rs:85-87 | the moon loop steps the state once per moon |
| Isometric.CellOf | examples/isometric.rs:38 | definition: `mouse / tile_size`, rounding toward zero; `CellAndOffset` states that cell and offset rebuild the mouse |
| Isometric.OffsetOf | examples/isometric.rs:40 | definition: `mouse % tile_size` with the mouse's sign; `CellAndOffset` bounds it |
| Isometric.Diamond | examples/isometric.rs:44-47 | definition: the world tile a screen cell stands for; `DiamondInjective` and `DiamondOnCell` state its properties |
| Isometric.Pick | examples/isometric.rs:38-52 | definition: the diamond nudged by the picking tile's colour; `PickOnCell` states where it lands |
| Isometric.ToScreen | examples/isometric.rs:61-66 | definition: the `to_screen` closure; `DiamondOnCell` and `NudgeOnScreen` state that it undoes the picking |
| Isometric.CellAndOffset | examples/isometric.rs:38-40 | cell times tile size plus offset gives the mouse back; the offset lies in [0, tile) right of and below the screen origin and in (-tile, 0] left of and above it |
| Isometric.DiamondInjective | examples/isometric.rs:44-47 | different screen cells stand for different diamonds |
| Isometric.Nudge | examples/isometric.rs:49-52 | the picking colour moves the selection by at most one step |
| Isometric.NudgeMoves | examples/isometric.rs:49-52 | the selection moves exactly when the colour is red, blue, green or yellow |
| Isometric.DiamondOnCell | examples/isometric.rs:44-66 | with even tile sides `to_screen` of a cell's diamond is that cell's top-left corner |
| Isometric.NudgeOnScreen | examples/isometric.rs:49-66 | a nudge moves the drawn tile half a tile toward the corner whose colour was under the mouse |
| Isometric.PickOnCell | examples/isometric.rs:38-66 | off the corners, the picked tile is drawn on the screen cell holding the mouse |
| Isometric.Clicked | examples/isometric.rs:54-59 | a click keeps the world's size |
| Isometric.ClickedOnlyPicked | examples/isometric.rs:54-59 | a click moves the picked tile on by one kind, modulo six, and leaves every other tile; outside the world it changes nothing |
| Isometric.ClickedKeepsIds | examples/isometric.rs:57-85 | clicks keep every tile id below six, so the draw loop never reaches its unknown-id arm |
| Isometric.ClickedTimes | examples/isometric.rs:54-59 | repeated clicks keep the world's size |
| Isometric.ClickedTimesAt | examples/isometric.rs:54-59 | n clicks move the picked tile n kinds on, modulo six, and leave everything else |
| Isometric.SixClicksCycle | examples/isometric.rs:57 | six clicks on one place give back the world they started from |
| Isometric.TileBlit | examples/isometric.rs:75-85 | a tile id gives a blit exactly when it is one of the six kinds |
| Isometric.TileBlitBottom | examples/isometric.rs:75-84 | flat and tall tiles are one tile wide and end on the same bottom edge, a tile below the flat tile's top |
| Isometric.IsometricDemo.Default | examples/isometric.rs:11-21 | a 14-by-10 world of 40-by-20 tiles with origin (5, 1) and no tiles yet |
| Isometric.IsometricDemo.OnUserCreate | examples/isometric.rs:26-31 | the world gets one tile per cell, all of kind 0 |
| Isometric.IsometricDemo.Click | examples/isometric.rs:54-59 | a pressed button applies `Clicked` to the selection; tile ids stay among the six kinds |
| Isometric.IsometricDemo.TileBlits | examples/isometric.rs:70-88 | the loop yields one blit per world cell in row-major order, each for the cell's id at its `to_screen` corner, and none is the unknown-id case |

## Left out

- The minifb window backend (window creation, `get_keys`, `get_mouse_down`, `update_with_buffer`, `set_title`, `limit_update_rate`, src/lib.rs:557-586 and 657-708): key lists, mouse readings and "window is open" are inputs.
- The `KEYMAP` table (src/lib.rs:41-64) depends on the external minifb key ordering: the key lists reach `UpdateKeys` already translated into engine keys.
- Wall-clock timing, the FPS counter and the title update in `core_update` (src/lib.rs:606-608, 622-634).
- Plotting.Blend: the Alpha-mode mix is computed on reals with Rust's saturating `as u8` truncation; the rounding of `f32` arithmetic is not modelled.
- The scanline fill of `fill_triangle` (src/lib.rs:374-419) uses `f32` slopes; only its vertex sort is modelled.
- `FONT_DATA` lives in a module that is not part of this model: the font is a parameter (a 256-by-64 bit table as a function).
- `Sprite::load_file` (file I/O and image decoding) and `sample` / `sample_bl` (unimplemented in the source).
- The `Rc<RefCell>` sharing of sprites is modelled by object references; drawing a sprite onto itself is a double borrow that panics in the source, so the blit methods require the sprite and the draw target to be different objects.
- The Periodic sampling mode is modelled in `Image.Get`, but no code path of the engine ever sets it.
- Engines.Engine.FillCircle, Engines.Engine.DrawSpans, Engines.Engine.DrawSpan, Engines.SpansInOrder, Engines.FillStep: the engine draws the corrected filled circle, with closed spans `sx..=ex` (`FillCirclePlots`); the half-open spans of src/lib.rs:312 are modelled by `Circles.FillCirclePlotsAsWritten` and compared under "Findings".
- Engines.Engine.DrawPartialSprite: the engine draws the corrected partial blit, whose scaled branch walks the `w` by `h` window (`PartialPlots`); the scaled branch of src/lib.rs:451-457, which walks the whole sprite, is modelled by `Raster.PartialPlotsAsWritten` and compared under "Findings".
- Sprites.Sprite.constructor: requires both sides below 2^31 besides `w * h < 2^32`; a sprite 2^31 or more wide (possible only with height 0 or 1) makes `width as i32` negative in `get_pixel` and `set_pixel`, which then reject every coordinate, and such sprites are not described.
- Vectors.Vi2d.Add, Vectors.Vi2d.Sub, Vectors.Vi2d.Neg, Vectors.Vi2d.Mul, Vectors.Vi2d.Div, Vectors.Vi2d.Dot, Vectors.Vi2d.Mag2, Vectors.Vi2d.Cross, Vectors.Vi2d.Perp, Vectors.Vi2d.AddAssign, Vectors.Vi2d.SubAssign, Vectors.Vi2d.MulAssign, Vectors.Vi2d.DivAssign: `i32` overflow, which panics in debug builds, and the panic of `i32::MIN / -1` are not modelled; the components are unbounded integers.
- Vectors.AddGroup, Vectors.AddThenSub, Vectors.NegInvolutive, Vectors.PerpTwice, Vectors.DotFacts, Vectors.MulDistributes, Vectors.MulThenDiv, Vectors.CrossWithSelf, Vectors.CrossIsMirroredDot: the laws hold over unbounded integers; for `i32` they hold only where no intermediate result overflows (in a debug build any other input panics).
- Engines.Engine.DrawLinePattern and the other rasterizers: `i32` overflow of coordinates and of the decision variables is not modelled (the integers are unbounded).
- Floating-point work in the examples: the shadow-casting visibility polygon and point de-duplication, the path-finding flow vectors and arrows, the galaxy's `rand_f64` values and the `f64` planet fields (each `rand_f64` is one step of the generator state, and a planet keeps only its ring flag and moon count).
- `mag` and `norm` of `V2d`, and every `f32` / `f64` instantiation of it.
- The drawing calls inside the examples' `on_user_update` bodies, and examples/example.rs, which only fills the screen with random pixels.
- TextEditor.Editor.InsertChar: the `u32` overflow of `cursor_pos` and `shadow_pos` is not modelled; the cursor blink timer and the colours are left out; the printable-key loop of `on_user_update` is modelled only through `KeyToChar` and `InsertChar`.
- WaveProp.FlowField.Update: the clicks, the labels and the path are modelled; the `map_width * map_height` buffers are two-dimensional arrays, and a selection or start outside the map, where the source reads another cell or panics, is excluded by the requires.
- ShadowCast.ShadowCasting.ConvertTileMapToPolyMap: the pitch is the world width, as in the example's only call; edge coordinates are integers (the source stores them as `f32`, exactly, at these sizes).
- Galaxy.StarSystem.RandI32: requires `min < max` and a width that fits `i32`, as at every call in the example.
- Isometric.IsometricDemo.TileBlits: the sprite sheet is a sampler and the drawing is the list of partial-sprite blits the loop asks for; the unknown-id `println!` is the `None` blit.
- Engines.Engine.constructor: requires a positive pixel width and height; `construct` (src/lib.rs:681-696) hands a `width * pixel_width` by `height * pixel_height` window to the minifb backend, which is not part of this model, and panics if that call fails, so an engine with a zero pixel size is not described.
- Lifecycle.Context.CoreUpdate: `on_user_update` is an answer in the frame script, so what the hook does to the engine (drawing, `set_draw_target`, `set_pixel_mode`, `set_pixel_blend`) is not modelled; the unchanged draw target, pixel mode and blend factor hold of the modelled frame only.
- Lifecycle.Context.Start: the hooks' answers come from finite scripts; a script that runs out ends the run with no return code, so runs longer than the scripts are not described.

## Findings

| source | as written | input that shows it | evidently intended | confidence | as-written member | corrected member |
|---|---|---|---|---|---|---|
| src/lib.rs:311-315 | `_fill_circle` draws each span with the half-open range `sx..ex`, so the right end of every span is missing | radius 1 at (0, 0): (-1, 0) is painted but (1, 0), which `draw_circle` of the same radius draws, is not | closed spans `sx..=ex`, a disc symmetric about its centre that covers its outline (the C++ original is inclusive) | not executed | Circles.FillCircleAsWrittenLopsided | Circles.FillCircleMirror |
| src/lib.rs:451-457 | the scaled branch of `_draw_partial_sprite` loops over the whole sprite's width and height instead of the `w` by `h` window | a 1x1 window of a 4x4 sprite at scale 2 paints the block at (x + 6, y), outside the 2-by-2 destination | both branches walk the `w` by `h` window, so the blit stays inside `w*s` by `h*s` | not executed | Raster.PartialScaledBlitOverdraws | Raster.PartialInside |
| examples/galaxy.rs:98 | `self.lehmer += 0xe120fc15` is a checked `u32` addition, which panics on overflow in debug builds | position (65535, 0): the seed 0xFFFF0000 overflows on the first draw; any existing star overflows on its second draw | a wrapping addition, as in the C++ original's `uint32_t` | not executed | Galaxy.FirstStepOverflows | Galaxy.AdvanceInjective |

# sense_mfile — a Dafny model

`sense_mfile` is the senseye sensor that compares several files side by side.
Each input file is one source. At a shared byte offset, every source is drawn
as a square tile of `base` x `base` pixels on one canvas. Bytes become pixels
through one of three packing modes. The tiles are laid out on a near-square
grid with border strips between neighbours. A separate diff canvas holds one
heat-map tile that shows, for each pixel window, how many sources differ from
source 0. Commands from the display server change the tile base, move the
offset, choose the packing mode and set the step sizes, and each change
redraws both canvases.

The model has one module per part of `senses/sense_mfile.c`:

- `Pixels` (pixels.dfy) covers the packing modes, the stride table and `pack_pixel`.
- `Tiles` (tiles.dfy) is the meaning of `draw_tile`: the clamp on the number of data pixels and the value of every cell of a tile.
- `Diff` (diff.dfy) is the meaning of `draw_dtile`: the pad substitution, the mismatch count and the heat colour, plus the per-pixel loops as methods.
- `Layout` (layout.dfy) holds the grid arithmetic of `resize_base` and the flood-fill placement of `refresh_data`.
- `Render` (render.dfy) holds the class `Canvas`, a pixel array with a width, a height and a pitch. Its methods are the drawing routines, each proved against the specifications above. `draw_box` is modelled as a clipped rectangle fill.
- `Navigation` (navigation.dfy) models the navigation state as a value. The class `Navigator` updates it in place, one method per command.
- `Sensor` (sensor.dfy) is the program state of `main`: the sources, the two canvases and the navigator. It has the `REFRESH` step and a handler per display-server command.
- `Sources` (sources.dfy) models `load_context`: files are loaded in order, the first failure stops the load, and the minimum and maximum sizes are folded.
- `Arith` (arith.dfy) holds small multiplication and division facts that the other modules share.

Calls into the display server become parameters. The answer to a resize
request is the boolean `granted`. Acquiring a new segment becomes `acquired`
plus the geometry the server handed out. The contents of the mapped files
are the byte sequences `srcs`.

Quirks of the code that the model keeps:

- A tile with `k` data pixels pads only the rows that start at or after the k-th cell. The cells of the partly filled row after the k-th keep their old value; they are not padded.
- In the diff tile, a source counts as padding when `pos + step >= map_sz`. The last window that fits exactly is therefore padding there, although `draw_tile` draws it as data.
- The command line accepts 2 to 256 files, although its own error message (senses/sense_mfile.c:302-303) says fewer than 256.
- The start-up resize result is not checked.
- The diff canvas resize on a display hint is not checked.
- A new diff segment is drawn whether or not the diff tile is enabled.

## Model

| member | source | states |
|---|---|---|
| `Pixels.Stride` | senses/sense_mfile.c:56-64 | the stride looked up in the table is 1 to 4 bytes: 1 exactly for intensity packing, 4 for tight packing and 3 for tight packing without alpha |
| `Pixels.ModeOfCode` | senses/sense_mfile.c:396-397 | a graph-mode code selects a mode exactly when it is 20 to 22, and the mode's ordinal is the code minus 20 |
| `Pixels.Pack` | senses/sense_mfile.c:136-149 | the packed pixel's channels are the bytes of the window; intensity is grey; alpha is 0xff except in tight packing |
| `Pixels.PackReadsOnlyWindow` | senses/sense_mfile.c:136-145 | the packed pixel depends only on the stride-sized window at the offset |
| `Pixels.PackInjective` | senses/sense_mfile.c:136-145 | in each mode, two windows pack to the same pixel exactly when their bytes are equal |
| `Tiles.DataPixels` | senses/sense_mfile.c:181-186 | the clamped count is zero past the end, otherwise min(base*base, (size-pos)/step); it never exceeds the tile, and every admitted window ends within the source |
| `Tiles.Clamp` | senses/sense_mfile.c:183-186 | the renderer's two-branch clamp equals that closed form for any offset, however large |
| `Tiles.ClampShort` | senses/sense_mfile.c:185-186 | when the last window would end past the file but the offset does not, fewer whole windows than asked for are left, and they end within the file |
| `Tiles.ClampFull` | senses/sense_mfile.c:183-186 | when the last window ends within the file, no fewer windows are left than asked for, and the offset lies before the end unless none was asked for |
| `Tiles.WindowAt` | senses/sense_mfile.c:196-197 | window c of a row of m windows lies inside the file, and the row's pixel c is its packed window |
| `Tiles.WindowInSource` | senses/sense_mfile.c:193-197 | every window the data loop reads lies inside the mapped file |
| `Tiles.PastEndIsPad` | senses/sense_mfile.c:185-186 | a tile at or past the end of its source is all padding |
| `Tiles.DataCell` | senses/sense_mfile.c:195-197 | a cell before the k-th shows the packed window of its row-major index |
| `Tiles.FullTileIsData` | senses/sense_mfile.c:183-186 | when the whole tile fits in the source, every cell shows data |
| `Tiles.TileShape` | senses/sense_mfile.c:195-201 | a tile holds k div base full data rows, then k mod base data cells whose row keeps its old pixels, then padding rows |
| `Tiles.RowMajorSplit` | senses/sense_mfile.c:195-196 | row-major order: index < k exactly for the first k div base rows and k mod base cells of the next; a row starts at or after k exactly below that |
| `Diff.CountUnequal` | senses/sense_mfile.c:168-170 | the count is bounded by the length and is zero exactly when every pixel equals the reference |
| `Diff.Heat` | senses/sense_mfile.c:172-173 | no mismatch gives the match colour; otherwise an opaque green whose level is 255*m/n rounded down |
| `Diff.GatherColumn` | senses/sense_mfile.c:164-166 | the buffer holds, in source order, each source's pixel or the pad colour when pos+step reaches its size |
| `Diff.CountMismatches` | senses/sense_mfile.c:168-170 | the counter equals the number of sources after source 0 whose pixel differs from source 0's |
| `Diff.DiffAt` | senses/sense_mfile.c:163-173 | the stored pixel is the heat colour of the mismatch count of the gathered column |
| `Diff.CountOneUnequal` | senses/sense_mfile.c:168-170 | exactly one differing entry counts as one |
| `Diff.IdenticalSourcesMatch` | senses/sense_mfile.c:163-173 | identical sources give the match colour |
| `Diff.OneDifferingSource` | senses/sense_mfile.c:168-173 | one differing source among n gives opaque green at level 255/n, rounded down |
| `Diff.MatchColourMeans` | senses/sense_mfile.c:172-173 | a cell shows the match colour exactly when no source differs or 255*m < n |
| `Diff.HeatIsMatch` | senses/sense_mfile.c:172-173 | the heat colour equals the match colour exactly when m is 0 or 255*m < n |
| `Diff.SingleMismatchAmongMaximumSources` | senses/sense_mfile.c:172-173 | with 256 sources, one differing source is indistinguishable from a match |
| `Diff.ExactFitIsPad` | senses/sense_mfile.c:165-166 | the last window that fits a source exactly is treated as padding in the diff tile |
| `Diff.ZeroIntensityMatchesPad` | senses/sense_mfile.c:139-140 | in intensity mode a zero byte compares equal to a source that has run out |
| `Layout.CeilSqrt` | senses/sense_mfile.c:246 | the column count is the least c with c*c >= n |
| `Layout.CeilDiv` | senses/sense_mfile.c:247 | the row count is the least q with q*columns >= n |
| `Layout.GridFits` | senses/sense_mfile.c:246-247 | the grid holds all n tiles, its last row is not empty, and it has as many columns as rows or one more |
| `Layout.ExtentHoldsOneTile` | senses/sense_mfile.c:249-250 | a requested canvas dimension of one tile or more is at least base |
| `Layout.Origin` | senses/sense_mfile.c:220-228 | every flood-fill tile corner leaves room for a whole tile before the canvas width |
| `Layout.OriginOrder` | senses/sense_mfile.c:222-227 | a later tile lies in a later row, or further right in the same row past the border |
| `Layout.TilesDisjoint` | senses/sense_mfile.c:220-228 | two different tiles never overlap |
| `Layout.GridOrigin` | senses/sense_mfile.c:222-227 | on a canvas sized for c columns, tile k lands in column k mod c and row k div c |
| `Layout.GridTileInside` | senses/sense_mfile.c:220-228 | on the grid-sized canvas, a tile fits below exactly when its index is less than columns*rows |
| `Render.Clip` | senses/sense_mfile.c:226 | a fill extent is cut to the canvas; it is unchanged when the rectangle fits |
| `Render.Fitting` | senses/sense_mfile.c:220 | the number of tiles flood fill draws lies between the start and the number of sources |
| `Render.FittingStops` | senses/sense_mfile.c:220 | every drawn tile fits, and drawing stops short of the last source only at a tile that reaches below the canvas |
| `Render.FittingAll` | senses/sense_mfile.c:220 | when every remaining tile fits, all are drawn |
| `Render.GridShowsAll` | senses/sense_mfile.c:246-250 | on a canvas resized for n tiles, every one of up to n sources is drawn, including the n+1 request of the display hint |
| `Render.FloodStep` | senses/sense_mfile.c:220-231 | drawing tile i and its border strip keeps every earlier tile intact |
| `Render.NextRow` | senses/sense_mfile.c:195-197 | the windows of one row of the data loop lie inside the file; afterwards either data is left and the next row starts at the next window, or the data ended in this row |
| `Render.TileRowCells` | senses/sense_mfile.c:195-197 | a row written from the next windows, stopping where the data ends, holds that row of the specified tile; the cells past the data keep their value |
| `Render.TileDataRow` | senses/sense_mfile.c:195-197 | one pass of the data loop over a row extends the drawn tile by that row |
| `Render.TilePadRow` | senses/sense_mfile.c:199-201 | one padding row extends the drawn tile by that row |
| `Render.HeatRowCells` | senses/sense_mfile.c:161-173 | the heat-map pixels of the windows after the first n rows, written into the next row, are that row's cells of the specified diff tile |
| `Render.DiffRowDone` | senses/sense_mfile.c:161-173 | one written heat-map row extends the drawn diff tile by that row |
| `Render.Canvas.FillSpan` | senses/sense_mfile.c:199-201 | the span of a row is filled with the colour and nothing else changes |
| `Render.Canvas.DrawBox` | senses/sense_mfile.c:226 | the rectangle, clipped to the canvas, is filled and nothing else changes |
| `Render.Canvas.PutCell` | senses/sense_mfile.c:196-197 | storing a pixel at (row, col) extends the written part of the row by that pixel, and nothing else changes |
| `Render.Canvas.PackRow` | senses/sense_mfile.c:196-197 | the inner data loop writes the next min(ntw, base) packed windows into the row, in order, counts them off and advances the offset by as many strides; nothing else changes |
| `Render.Canvas.DataRows` | senses/sense_mfile.c:195-197 | the data loop stops at the bottom of the tile or at a row that starts at or after the end of the data; the rows above it show the specified tile, and nothing else changes |
| `Render.Canvas.DrawTile` | senses/sense_mfile.c:177-202 | the tile square shows the tile's specified cells and every pixel outside it is unchanged |
| `Render.Canvas.DiffRow` | senses/sense_mfile.c:162-173 | one row of the diff tile receives the heat-map pixels of base consecutive windows, in order, and the offset advances by base strides; nothing else changes |
| `Render.Canvas.DiffRowStep` | senses/sense_mfile.c:161-173 | one more row of the diff tile is drawn over the rows already drawn, and the window offset moves to the start of the next row |
| `Render.Canvas.DrawDTile` | senses/sense_mfile.c:155-175 | every cell of the diff tile shows the heat colour of its window, and nothing outside the tile changes |
| `Render.Canvas.Resize` | senses/sense_mfile.c:249-254 | a granted resize gives a fresh buffer of the requested size; a refused one changes nothing |
| `Render.Canvas.ResizeBase` | senses/sense_mfile.c:243-258 | the result is the server's answer; on success the canvas has the grid's extents and is all padding; on failure nothing changes |
| `Render.Canvas.BorderAfter` | senses/sense_mfile.c:222-230 | the next corner is one tile and one border to the right, or the start of the next row when another tile would not fit; with a border, the strip between them is filled with the border colour, clipped to the canvas, and nothing else changes; without one, nothing changes |
| `Render.StripClear` | senses/sense_mfile.c:222-230 | the border strip after a tile lies clear of every later tile and of the strip after it |
| `Render.FloodFrame` | senses/sense_mfile.c:220-231 | a tile and then its strip change nothing outside the tiles and strips drawn so far and those two |
| `Render.StripStep` | senses/sense_mfile.c:220-231 | drawing the next tile and its strip keeps every earlier strip in the border colour and fills the new one |
| `Render.Canvas.RefreshData` | senses/sense_mfile.c:212-231 | the first Fitting sources are drawn at their flood-fill corners, the strip after each drawn tile shows the border colour (clipped to the canvas), and no other pixel changes |
| `Navigation.Initial` | senses/sense_mfile.c:280-283 | the start state: offset 0, intensity packing, one row small step, one tile large step |
| `Navigation.Back` | senses/sense_mfile.c:386-387 | a step back never goes below zero and subtracts the step when the offset allows it |
| `Navigation.StepFrame` | senses/sense_mfile.c:381-390 | codes 1 and 2 add the small step or the large step in bytes to the offset; -1 and -2 take it off, stopping at zero; other codes keep the offset; nothing else changes |
| `Navigation.StepBackUndoesStep` | senses/sense_mfile.c:382-389 | a forward step followed by the same step back restores the state |
| `Navigation.StepsAccumulate` | senses/sense_mfile.c:382-389 | two forward steps move by twice the step, the large one scaled by the stride |
| `Navigation.StepBackStopsAtStart` | senses/sense_mfile.c:386-387 | a step back from within one step of the start lands on zero |
| `Navigation.OtherCodesKeepState` | senses/sense_mfile.c:385-390 | codes other than -2, -1, 1 and 2 change nothing |
| `Navigation.GraphMode` | senses/sense_mfile.c:394-397 | codes 20 to 22 set the mode with ordinal code-20; other codes keep it; nothing else changes |
| `Navigation.Align` | senses/sense_mfile.c:421-428 | when align > 0 and ofs > align, the offset becomes a multiple of align within align of the old one; otherwise it is unchanged |
| `Navigation.AlignIdempotent` | senses/sense_mfile.c:421-428 | aligning twice gives the same offset as aligning once |
| `Navigation.AlignIsLargestMultiple` | senses/sense_mfile.c:423-425 | the aligned offset is the largest multiple of align not above the offset |
| `Navigation.CustomSmall` | senses/sense_mfile.c:416-419 | a custom step is truncated to 32 bits and adopted only when the truncation is not zero |
| `Navigation.Io` | senses/sense_mfile.c:405-431 | STEP_BYTE, STEP_PIXEL and STEP_ROW set the small step to 1, the stride and the base; STEP_HALFPAGE and STEP_PAGE set the large step to base*base/2 and base*base; CSTEP sets the truncated custom step; STEP_ALIGN aligns the offset; other labels change nothing; the base and mode never change |
| `Navigation.CustomStepTruncates` | senses/sense_mfile.c:417-419 | CSTEP_4294967296 leaves the small step; CSTEP_4294967301 sets it to 5; the saturated largest size_t sets it to 2^32 - 1 |
| `Navigation.RealignIsQuiet` | senses/sense_mfile.c:421-428 | a repeated align changes nothing and triggers no redraw |
| `Navigation.AdoptBase` | senses/sense_mfile.c:356-362 | the new base is set; each step follows it only while it still has its default for the old base |
| `Navigation.DefaultsFollowBase` | senses/sense_mfile.c:345-362 | from the initial steps, a new base gives the initial state of that base |
| `Navigation.HintWidth` | senses/sense_mfile.c:353 | the hint's int32 becomes a size_t: a non-negative value is kept, a negative one lands within 2^31 of 2^64 |
| `Navigation.PowerOfTwoIsPow2` | senses/sense_mfile.c:354 | every 2^k passes the power-of-two test |
| `Navigation.NoPowerOfTwoBetween` | senses/sense_mfile.c:354 | no number strictly between 2^k and 2^(k+1) passes it |
| `Navigation.BitAnd` | senses/sense_mfile.c:354 | the bitwise and of two unsigned numbers is at most either of them |
| `Navigation.BitAndSelf` | senses/sense_mfile.c:354 | a number anded with itself is itself |
| `Navigation.BitTestIsPowerOfTwo` | senses/sense_mfile.c:354 | for n >= 1, `(n & (n - 1)) == 0` holds exactly when n is a power of two |
| `Navigation.AcceptsPowersOfTwo` | senses/sense_mfile.c:353-354 | the display hint accepts a width exactly when it is a positive power of two |
| `Navigation.NegativeHintRejected` | senses/sense_mfile.c:353-354 | a negative hint width never passes the power-of-two test |
| `Navigation.Navigator.constructor` | senses/sense_mfile.c:280-283 | the navigator starts in the initial state of its base |
| `Navigation.Navigator.OnStepFrame` | senses/sense_mfile.c:381-390 | the new state is the frame step of the old one |
| `Navigation.Navigator.OnGraphMode` | senses/sense_mfile.c:394-397 | the new state is the graph-mode change of the old one |
| `Navigation.Navigator.OnIo` | senses/sense_mfile.c:405-431 | the new state is the label's effect on the old one; it asks for a redraw exactly when an align moved the offset |
| `Navigation.Navigator.OnNewBase` | senses/sense_mfile.c:356-362 | the new state is the old one with the new base adopted |
| `Sensor.ClampBorder` | senses/sense_mfile.c:293-295 | a border option above 9 becomes 9; others are kept |
| `Sensor.HintTiles` | senses/sense_mfile.c:355 | the hint sizes the canvas for one tile per source when the diff tile is off, and for exactly one more when it is on |
| `Sensor.Sensor.constructor` | senses/sense_mfile.c:302-346 | start-up: initial navigation, no diff canvas; when the resize is granted, a grid-sized canvas showing every source's tile and the strips after them over the blank canvas, and nothing else |
| `Sensor.Sensor.Refresh` | senses/sense_mfile.c:334-338 | the diff tile is drawn on the diff canvas, and the tiles are drawn on the main canvas |
| `Sensor.Sensor.RefreshAgain` | senses/sense_mfile.c:340-343 | drawing the tiles a second time leaves them, their strips and the untouched pixels as the first drawing left them |
| `Sensor.Sensor.OnDisplayHint` | senses/sense_mfile.c:352-367 | a refused hint changes nothing: navigation state, both canvases' sizes, pitches, buffers and pixels stay; an accepted one adopts the base, resizes to the grid with pitch equal to the width and shows every source's tile; a granted diff resize gives a base x base diff canvas, pitch base, showing the diff tile, and otherwise the diff canvas keeps its size and is redrawn as by a refresh |
| `Sensor.Sensor.Rebase` | senses/sense_mfile.c:357-365 | the steps follow the new base, the diff canvas is asked for one tile of it, and both canvases are redrawn |
| `Sensor.Sensor.ResizeDiff` | senses/sense_mfile.c:363-364 | with the diff tile on and a diff canvas present, a granted resize makes it one tile of the base, pitch included; otherwise it keeps its size, pitch and pixels |
| `Sensor.Sensor.OnNewSegment` | senses/sense_mfile.c:369-379 | the new segment becomes the diff canvas with the size and pitch the server gave, or there is none; a new one that holds a tile gets the diff tile |
| `Sensor.Sensor.OnStepFrame` | senses/sense_mfile.c:381-392 | the offset moves by the frame step, then both canvases are redrawn |
| `Sensor.Sensor.OnGraphMode` | senses/sense_mfile.c:394-400 | the packing mode changes, then both canvases are redrawn |
| `Sensor.Sensor.OnIo` | senses/sense_mfile.c:405-431 | the label updates the steps or the offset; the canvases are redrawn only when an align moved the offset |
| `Sources.MaxFold` | senses/sense_mfile.c:95-127 | no size exceeds the running maximum, which is 0 for no file |
| `Sources.MinFold` | senses/sense_mfile.c:96-130 | the running minimum is at most INT_MAX and at most every size |
| `Sources.FoldStep` | senses/sense_mfile.c:126-130 | one more file moves a bound only when its size lies beyond it |
| `Sources.MaxIsASize` | senses/sense_mfile.c:126-127 | the maximum of one file or more is one of the sizes |
| `Sources.MinIsASizeOrIntMax` | senses/sense_mfile.c:96-130 | the minimum is INT_MAX or one of the sizes |
| `Sources.MinCappedAtIntMax` | senses/sense_mfile.c:96-130 | when every file is larger than INT_MAX, the minimum stays INT_MAX |
| `Sources.MinIsSmallest` | senses/sense_mfile.c:129-130 | with a size at most INT_MAX among them, the minimum is one of the sizes |
| `Sources.LoadContext` | senses/sense_mfile.c:91-134 | the load fails exactly when some file fails to open or map; otherwise it gives every size with the folded minimum and maximum |

## Left out

- The transport to the display server is not modelled: events, signals, `arcan_shmif_wait`, the ident, streaminfo, framestatus and segment-request events, and `arcan_shmif_drop`. Server answers are parameters.
- `draw_box` lives in the shared helper header, which is not part of this model. It is modelled as a fill of the rectangle clipped to the canvas.
- Floating point is replaced by integer arithmetic. `ceil(sqrtf(n))` and `ceil(n / npr)` become integer ceilings; they agree for the at most 257 tiles the program can ask for. The diff green level `255.0 * (m / n)` becomes `255 * m / n` rounded down, so the float's own rounding is not modelled.
- Integers are unbounded. The size_t wrap of `pos + ntw * step` is not modelled. Neither is the overflow of the `off_t` offset after very many forward steps.
- Render.Canvas.RefreshData: requires base <= w and base <= h. The loop bound `y <= dst->h - base` underflows as a size_t when the canvas is shorter than a tile, and the program would then write outside the canvas; on a canvas narrower than a tile it would draw tile 0 past the end of each row.
- Sensor.Sensor.Refresh: draws the tiles only when the main canvas holds one tile, and the diff tile only when the diff canvas holds one. The program draws regardless and would write outside a smaller buffer. That can happen after a refused start-up resize or a refused diff resize, whose results the program does not check.
- Sensor.Sensor.OnNewSegment: draws the diff tile only when the new segment holds one tile of the base. The program draws into every segment it acquired and would write outside a segment smaller than a tile.
- Render.Canvas.Resize: requires a width of at least one. The program never asks for less.
- Sensor.Sensor.constructor: takes the diff-tile switch and the border as parameters. Option parsing is not modelled. As written, `-d` sets the switch to true, so the diff tile cannot be disabled. The long option `--border` maps to a letter the parser never handles.
- The error message at senses/sense_mfile.c:302-303 says fewer than 256 files. The code accepts 2 to 256 (`Sensor.AcceptedFileCount`), and the constructor requires that range.
- Sources.LoadContext: takes each file's outcome as a parameter. The stat check compares `fstat`'s result with 1, which `fstat` never returns, so a stat failure is never caught; the model leaves the stat call out. A file that is not regular only gets a warning and is loaded anyway. The minimum and maximum are never used by the program.
- The fallback colour after the switch in `pack_pixel` cannot be reached, because every packing mode has a case.
- Command-line parsing, file opening and mapping, `strtoul` and `strcmp` on labels are not modelled. A labelled event arrives as an `IoCommand` with the number already parsed, below 2^64 as `strtoul` saturates.
- Each canvas's pixels are an `array`, and the display server may hand out buffers whose contents are undefined. The model does not describe the pixels outside the tiles and border strips, beyond "unchanged" where the code leaves them.

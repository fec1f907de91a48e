/** The canvases the sensor draws into, and the renderers that write them:
    rectangle fill, the single-source tile, the diff tile, the resize of the
    main canvas to the tile grid and the flood-fill refresh of all tiles. */
module Render {
  import opened Pixels
  import opened Tiles
  import opened Diff
  import opened Layout
  import opened Arith

  /** Cell `i` of a buffer with row pitch `pitch` lies in the wd x ht
      rectangle whose top-left corner is (x, y). */
  ghost predicate InBox(pitch: nat, i: int, x: nat, y: nat, wd: nat, ht: nat) {
    pitch > 0 && 0 <= i && y <= i / pitch < y + ht && x <= i % pitch < x + wd
  }

  /** The index of cell (row, col) in a buffer with row pitch `pitch` has
      that row and column. */
  lemma CellAt(pitch: nat, row: nat, col: nat)
    requires col < pitch
    ensures (row * pitch + col) / pitch == row && (row * pitch + col) % pitch == col
  {
    DivModUnique(row * pitch + col, pitch, row, col);
  }

  lemma IndexInBuffer(pitch: nat, h: nat, row: nat, col: nat)
    requires col < pitch && row < h
    ensures row * pitch + col < h * pitch
  {
    MulLess(row + 1, h, pitch);
  }

  /** Nothing outside the wd x ht rectangle at (x, y) differs. */
  ghost predicate UnchangedOutside(prev: seq<Pixel>, cur: seq<Pixel>, pitch: nat,
                                   x: nat, y: nat, wd: nat, ht: nat)
  {
    && |prev| == |cur|
    && forall i :: 0 <= i < |cur| && !InBox(pitch, i, x, y, wd, ht) ==> cur[i] == prev[i]
  }

  /** `cur` is `prev` with every cell of the wd x ht rectangle at (x, y) set
      to `colour`. */
  ghost predicate Filled(prev: seq<Pixel>, cur: seq<Pixel>, pitch: nat,
                         x: nat, y: nat, wd: nat, ht: nat, colour: Pixel)
  {
    && |prev| == |cur|
    && forall i :: 0 <= i < |cur| ==>
         cur[i] == if InBox(pitch, i, x, y, wd, ht) then colour else prev[i]
  }

  /** Setting the cell right of a filled run of one row extends the run. */
  lemma FillCell(o: seq<Pixel>, a: seq<Pixel>, pitch: nat, x: nat, y: nat, n: nat, colour: Pixel)
    requires Filled(o, a, pitch, x, y, n, 1, colour)
    requires x + n < pitch && y * pitch + x + n < |a|
    ensures Filled(o, a[y * pitch + x + n := colour], pitch, x, y, n + 1, 1, colour)
  {
    CellAt(pitch, y, x + n);
  }

  /** Filling the row below a filled rectangle extends the rectangle. */
  lemma FillRow(o: seq<Pixel>, a: seq<Pixel>, b: seq<Pixel>, pitch: nat,
                x: nat, y: nat, wd: nat, ht: nat, colour: Pixel)
    requires Filled(o, a, pitch, x, y, wd, ht, colour)
    requires Filled(a, b, pitch, x, y + ht, wd, 1, colour)
    ensures Filled(o, b, pitch, x, y, wd, ht + 1, colour)
  {
  }

  /** A fill changes nothing outside any rectangle that contains it. */
  lemma FilledWithin(o: seq<Pixel>, s: seq<Pixel>, pitch: nat, x: nat, y: nat,
                     wd: nat, ht: nat, colour: Pixel, wd': nat, ht': nat)
    requires Filled(o, s, pitch, x, y, wd, ht, colour) && wd <= wd' && ht <= ht'
    ensures UnchangedOutside(o, s, pitch, x, y, wd', ht')
  {
  }

  /** `cur` is `prev` with the cells of row `row` from column x on set to
      the pixels of `want`, in order. */
  ghost predicate RowWritten(prev: seq<Pixel>, cur: seq<Pixel>, pitch: nat, x: nat, row: nat,
                             want: seq<Pixel>)
  {
    && |prev| == |cur|
    && forall i :: 0 <= i < |cur| ==>
         cur[i] == if InBox(pitch, i, x, row, |want|, 1) then want[i % pitch - x] else prev[i]
  }

  /** Writing the next pixel of `want` after a written prefix extends the
      prefix by one. */
  lemma WriteCell(o: seq<Pixel>, a: seq<Pixel>, pitch: nat, x: nat, row: nat, want: seq<Pixel>, n: nat)
    requires n < |want| && RowWritten(o, a, pitch, x, row, want[..n])
    requires x + n < pitch && row * pitch + x + n < |a|
    ensures RowWritten(o, a[row * pitch + x + n := want[n]], pitch, x, row, want[..n + 1])
  {
    CellAt(pitch, row, x + n);
  }

  /** The length of [a, a + len) that lies below `lim`. */
  function Clip(a: nat, len: nat, lim: nat): (r: nat)
    ensures r <= len
    ensures r == 0 || a + r <= lim
    ensures a < lim && a + len <= lim ==> r == len
  {
    if a >= lim then 0 else Min(len, lim - a)
  }

  /** `cur` holds, in the ht rows from row `top` and the wd columns from
      column x, what the tile renderer draws into the tile whose corner is
      (x, y) from `src` over the cells `prev` held there, and `prev`
      everywhere else. */
  ghost predicate TilePart(prev: seq<Pixel>, cur: seq<Pixel>, pitch: nat, src: seq<byte>, pos: nat,
                           x: nat, y: nat, mode: PackMode, base: nat, top: nat, wd: nat, ht: nat)
  {
    && |prev| == |cur| && y <= top
    && forall i :: 0 <= i < |cur| ==>
         cur[i] == if InBox(pitch, i, x, top, wd, ht)
                   then TileCell(prev[i], src, pos, mode, base, i / pitch - y, i % pitch - x)
                   else prev[i]
  }

  /** `cur` holds, in the tile at (x, y), what the tile renderer draws from
      `src` over the cells `prev` held there. */
  ghost predicate TileDrawn(prev: seq<Pixel>, cur: seq<Pixel>, pitch: nat, src: seq<byte>,
                            pos: nat, x: nat, y: nat, mode: PackMode, base: nat)
  {
    && |prev| == |cur|
    && forall i :: 0 <= i < |cur| && InBox(pitch, i, x, y, base, base) ==>
         cur[i] == TileCell(prev[i], src, pos, mode, base, i / pitch - y, i % pitch - x)
  }

  /** A row of data cells written from the windows after the ones drawn so
      far, stopping where the data ends, holds that row of the tile: the
      cells past the end of the data keep what they held. */
  lemma TileRowCells(a: seq<Pixel>, b: seq<Pixel>, pitch: nat, src: seq<byte>, pos: nat,
                     x: nat, y: nat, mode: PackMode, base: nat, n: nat, ntw: nat, at: nat)
    requires n * base + ntw == DataPixels(|src|, pos, base, Stride(mode)) && ntw > 0
    requires at == pos + CellIndex(base, n, 0) * Stride(mode)
    requires at + Min(ntw, base) * Stride(mode) <= |src|
    requires RowWritten(a, b, pitch, x, y + n, Windows(mode, src, at, Min(ntw, base)))
    ensures forall i :: 0 <= i < |b| && InBox(pitch, i, x, y + n, base, 1) ==>
              b[i] == TileCell(a[i], src, pos, mode, base, i / pitch - y, i % pitch - x)
  {
    forall i | 0 <= i < |b| && InBox(pitch, i, x, y + n, base, 1)
      ensures b[i] == TileCell(a[i], src, pos, mode, base, i / pitch - y, i % pitch - x)
    {
      var c := i % pitch - x;
      assert i / pitch - y == n;
      if c < Min(ntw, base) {
        assert b[i] == Windows(mode, src, at, Min(ntw, base))[c];
        WindowAt(mode, src, at, Min(ntw, base), c);
        DataCell(a[i], src, pos, mode, base, n, c);
        WindowStep(pos, base, n, c, Stride(mode));
      } else {
        assert CellIndex(base, n, c) >= n * base + ntw;
      }
    }
  }

  /** A row of data cells written from the windows after the ones drawn so
      far makes the next row of the tile. */
  lemma TileDataRow(o: seq<Pixel>, a: seq<Pixel>, b: seq<Pixel>, pitch: nat, src: seq<byte>, pos: nat,
                    x: nat, y: nat, mode: PackMode, base: nat, n: nat, ntw: nat, at: nat)
    requires TilePart(o, a, pitch, src, pos, x, y, mode, base, y, base, n)
    requires n * base + ntw == DataPixels(|src|, pos, base, Stride(mode)) && ntw > 0
    requires at == pos + CellIndex(base, n, 0) * Stride(mode)
    requires at + Min(ntw, base) * Stride(mode) <= |src|
    requires RowWritten(a, b, pitch, x, y + n, Windows(mode, src, at, Min(ntw, base)))
    ensures TilePart(o, b, pitch, src, pos, x, y, mode, base, y, base, n + 1)
  {
    TileRowCells(a, b, pitch, src, pos, x, y, mode, base, n, ntw, at);
    forall i | 0 <= i < |b|
      ensures b[i] == if InBox(pitch, i, x, y, base, n + 1)
                      then TileCell(o[i], src, pos, mode, base, i / pitch - y, i % pitch - x)
                      else o[i]
    {
      if InBox(pitch, i, x, y + n, base, 1) {
        assert a[i] == o[i];
      }
    }
  }

  /** One row of the data loop of a tile with k data pixels, entered with
      the rows above full and ntw pixels left at byte `at`: the row's windows
      lie inside the source, and after it either data is left and the next
      row starts at the next window, or the data ended within this row. */
  lemma NextRow(size: nat, pos: nat, base: nat, n: nat, step: nat, k: nat, ntw: nat, at: nat)
    requires pos + k * step <= size && ntw > 0
    requires k == CellIndex(base, n, 0) + ntw && at == pos + CellIndex(base, n, 0) * step
    ensures at + Min(ntw, base) * step <= size
    ensures ntw - Min(ntw, base) > 0 ==>
              k == CellIndex(base, n + 1, 0) + (ntw - Min(ntw, base))
              && at + Min(ntw, base) * step == pos + CellIndex(base, n + 1, 0) * step
    ensures ntw - Min(ntw, base) == 0 ==> k <= CellIndex(base, n + 1, 0)
  {
    MulLess(CellIndex(base, n, 0) + Min(ntw, base), k, step);
    NextWindow(n, base);
  }

  /** The row after row n starts base windows after it. */
  lemma NextRowStart(pos: nat, base: nat, n: nat, step: nat)
    ensures pos + CellIndex(base, n, 0) * step + base * step == pos + CellIndex(base, n + 1, 0) * step
  {
    NextWindow(n, base);
  }

  /** Window c of row n starts c strides after the row's first window. */
  lemma WindowStep(pos: nat, base: nat, n: nat, c: nat, step: nat)
    ensures pos + CellIndex(base, n, 0) * step + c * step == pos + CellIndex(base, n, c) * step
  {
  }

  /** An opaque black row below the data extends the drawn tile. */
  lemma TilePadRow(o: seq<Pixel>, a: seq<Pixel>, b: seq<Pixel>, pitch: nat, src: seq<byte>, pos: nat,
                   x: nat, y: nat, mode: PackMode, base: nat, n: nat)
    requires TilePart(o, a, pitch, src, pos, x, y, mode, base, y, base, n)
    requires Filled(a, b, pitch, x, y + n, base, 1, Pad)
    requires DataPixels(|src|, pos, base, Stride(mode)) <= n * base
    ensures TilePart(o, b, pitch, src, pos, x, y, mode, base, y, base, n + 1)
  {
  }

  /** `cur` holds, in the ht rows from row `top` and the wd columns from
      column x, the heat map of the sources for the tile whose corner is
      (x, y), and `prev` everywhere else. */
  ghost predicate DiffPart(prev: seq<Pixel>, cur: seq<Pixel>, pitch: nat, srcs: seq<seq<byte>>, pos: nat,
                           x: nat, y: nat, mode: PackMode, base: nat, top: nat, wd: nat, ht: nat)
    requires |srcs| >= 1
  {
    && |prev| == |cur| && y <= top
    && forall i :: 0 <= i < |cur| ==>
         cur[i] == if InBox(pitch, i, x, top, wd, ht)
                   then DiffPixel(srcs, mode, pos + CellIndex(base, i / pitch - y, i % pitch - x) * Stride(mode))
                   else prev[i]
  }

  /** `cur` holds, in the tile at (x, y), the heat map of the sources. */
  ghost predicate DiffDrawn(cur: seq<Pixel>, pitch: nat, srcs: seq<seq<byte>>,
                            pos: nat, x: nat, y: nat, mode: PackMode, base: nat)
    requires |srcs| >= 1
  {
    forall i :: 0 <= i < |cur| && InBox(pitch, i, x, y, base, base) ==>
      cur[i] == DiffPixel(srcs, mode, pos + CellIndex(base, i / pitch - y, i % pitch - x) * Stride(mode))
  }

  /** The heat-map pixels of the windows after the first n rows of the diff
      tile, written into the next row, are that row's cells of the tile. */
  lemma HeatRowCells(a: seq<Pixel>, b: seq<Pixel>, pitch: nat, srcs: seq<seq<byte>>, pos: nat,
                     x: nat, y: nat, mode: PackMode, base: nat, n: nat, at: nat)
    requires |srcs| >= 1
    requires at == pos + CellIndex(base, n, 0) * Stride(mode)
    requires RowWritten(a, b, pitch, x, y + n, HeatRow(srcs, mode, at, base))
    ensures forall i :: 0 <= i < |b| && InBox(pitch, i, x, y + n, base, 1) ==>
              b[i] == DiffPixel(srcs, mode, pos + CellIndex(base, i / pitch - y, i % pitch - x) * Stride(mode))
  {
    forall i | 0 <= i < |b| && InBox(pitch, i, x, y + n, base, 1)
      ensures b[i] == DiffPixel(srcs, mode, pos + CellIndex(base, i / pitch - y, i % pitch - x) * Stride(mode))
    {
      var c := i % pitch - x;
      assert i / pitch - y == n;
      assert b[i] == HeatRow(srcs, mode, at, base)[c];
      WindowStep(pos, base, n, c, Stride(mode));
    }
  }

  /** A row of heat-map pixels written from the windows after the rows drawn
      so far makes the next row of the diff tile. */
  lemma DiffRowDone(o: seq<Pixel>, a: seq<Pixel>, b: seq<Pixel>, pitch: nat, srcs: seq<seq<byte>>, pos: nat,
                    x: nat, y: nat, mode: PackMode, base: nat, n: nat, at: nat)
    requires |srcs| >= 1
    requires DiffPart(o, a, pitch, srcs, pos, x, y, mode, base, y, base, n)
    requires at == pos + CellIndex(base, n, 0) * Stride(mode)
    requires RowWritten(a, b, pitch, x, y + n, HeatRow(srcs, mode, at, base))
    ensures DiffPart(o, b, pitch, srcs, pos, x, y, mode, base, y, base, n + 1)
  {
    HeatRowCells(a, b, pitch, srcs, pos, x, y, mode, base, n, at);
  }

  lemma NextWindow(n: nat, step: nat)
    ensures (n + 1) * step == n * step + step
  {
  }

  /** A fill of the whole canvas leaves no cell out. */
  lemma FilledAll(s: seq<Pixel>, pitch: nat, h: nat, colour: Pixel)
    requires pitch > 0 && |s| == h * pitch
    requires forall i :: 0 <= i < |s| && InBox(pitch, i, 0, 0, Clip(0, pitch, pitch), Clip(0, h, h)) ==> s[i] == colour
    ensures forall i :: 0 <= i < |s| ==> s[i] == colour
  {
    forall i | 0 <= i < |s|
      ensures s[i] == colour
    {
      QuotientBelow(i, pitch, h);
    }
  }

  /** All base rows drawn make the whole tile, with nothing else changed. */
  lemma TileComplete(o: seq<Pixel>, s: seq<Pixel>, pitch: nat, src: seq<byte>, pos: nat,
                     x: nat, y: nat, mode: PackMode, base: nat)
    requires TilePart(o, s, pitch, src, pos, x, y, mode, base, y, base, base)
    ensures TileDrawn(o, s, pitch, src, pos, x, y, mode, base)
    ensures UnchangedOutside(o, s, pitch, x, y, base, base)
  {
  }

  lemma DiffComplete(o: seq<Pixel>, s: seq<Pixel>, pitch: nat, srcs: seq<seq<byte>>, pos: nat,
                     x: nat, y: nat, mode: PackMode, base: nat)
    requires |srcs| >= 1
    requires DiffPart(o, s, pitch, srcs, pos, x, y, mode, base, y, base, base)
    ensures DiffDrawn(s, pitch, srcs, pos, x, y, mode, base)
    ensures UnchangedOutside(o, s, pitch, x, y, base, base)
  {
  }

  /** A drawn tile stays drawn while only a disjoint rectangle is written. */
  lemma TileDrawnFrame(o: seq<Pixel>, a: seq<Pixel>, b: seq<Pixel>, pitch: nat, src: seq<byte>,
                       pos: nat, tx: nat, ty: nat, mode: PackMode, base: nat,
                       fx: nat, fy: nat, fw: nat, fh: nat)
    requires TileDrawn(o, a, pitch, src, pos, tx, ty, mode, base)
    requires UnchangedOutside(a, b, pitch, fx, fy, fw, fh)
    requires ty + base <= fy || fy + fh <= ty || tx + base <= fx || fx + fw <= tx
    ensures TileDrawn(o, b, pitch, src, pos, tx, ty, mode, base)
  {
    forall i | 0 <= i < |b| && InBox(pitch, i, tx, ty, base, base)
      ensures b[i] == TileCell(o[i], src, pos, mode, base, i / pitch - ty, i % pitch - tx)
    {
      assert !InBox(pitch, i, fx, fy, fw, fh);
    }
  }

  /** A rectangle of the canvas: corner, width and height. */
  datatype Rect = Rect(x: nat, y: nat, wd: nat, ht: nat)

  /** The border strip the flood fill draws after the tile at `p`: the full
      canvas width below the tile's row when the next tile wraps to a new row,
      else the gap right of the tile. */
  function StripAfter(p: Pos, width: nat, base: nat, border: nat): Rect {
    var x := p.x + base + border;
    if x + base > width then Rect(0, p.y + base, width, border)
    else Rect(x - border, p.y, border, base)
  }

  /** Nothing at or below row y + base, nor at or right of (x, y) in the rows
      from y, differs: the region flood fill has not reached when its next
      tile goes to `p`. */
  ghost predicate Untouched(prev: seq<Pixel>, cur: seq<Pixel>, pitch: nat, p: Pos, base: nat) {
    && |prev| == |cur|
    && forall i :: 0 <= i < |cur| && pitch > 0 && (i / pitch >= p.y + base || (i / pitch >= p.y && i % pitch >= p.x))
         ==> cur[i] == prev[i]
  }

  /** The strip after tile k as it is drawn: clipped to the canvas. */
  function StripBox(k: nat, width: nat, height: nat, base: nat, border: nat): Rect
    requires base <= width
  {
    var r := StripAfter(Origin(k, width, base, border), width, base, border);
    Rect(r.x, r.y, Clip(r.x, r.wd, width), Clip(r.y, r.ht, height))
  }

  /** Cell i lies in the border strip drawn after tile k; without a border
      no strip is drawn. */
  ghost predicate InStrip(pitch: nat, i: int, k: nat, width: nat, height: nat, base: nat, border: nat)
    requires base <= width
  {
    var r := StripBox(k, width, height, base, border);
    border > 0 && InBox(pitch, i, r.x, r.y, r.wd, r.ht)
  }

  /** Cell i lies in one of the first `count` tiles or in the strip after
      one of them. */
  ghost predicate Covered(pitch: nat, i: int, count: nat, width: nat, height: nat, base: nat, border: nat)
    requires base <= width
  {
    && count > 0
    && (|| Covered(pitch, i, count - 1, width, height, base, border)
        || InBox(pitch, i, Origin(count - 1, width, base, border).x, Origin(count - 1, width, base, border).y,
                 base, base)
        || InStrip(pitch, i, count - 1, width, height, base, border))
  }

  /** Nothing but the first `count` tiles and the strips after them differs. */
  ghost predicate OnlyTilesAndStrips(prev: seq<Pixel>, cur: seq<Pixel>, pitch: nat, count: nat,
                                     width: nat, height: nat, base: nat, border: nat)
    requires base <= width
  {
    && |prev| == |cur|
    && forall i :: 0 <= i < |cur| && !Covered(pitch, i, count, width, height, base, border) ==> cur[i] == prev[i]
  }

  /** The strip after each of the first `count` tiles shows the border
      colour. */
  ghost predicate StripsDrawn(cur: seq<Pixel>, pitch: nat, count: nat, width: nat, height: nat,
                              base: nat, border: nat)
    requires base <= width
  {
    forall k, i :: 0 <= k < count && 0 <= i < |cur| && InStrip(pitch, i, k, width, height, base, border)
      ==> cur[i] == BorderColour
  }

  /** The strip after a tile lies clear of every later tile and of the strip
      after it. */
  lemma StripClear(pitch: nat, i: int, k: nat, j: nat, width: nat, height: nat, base: nat, border: nat)
    requires base <= width && k < j
    requires InStrip(pitch, i, k, width, height, base, border)
    ensures !InBox(pitch, i, Origin(j, width, base, border).x, Origin(j, width, base, border).y, base, base)
    ensures !InStrip(pitch, i, j, width, height, base, border)
  {
    OriginOrder(k, j, width, base, border);
  }

  /** One step of the flood fill, as far as the cells outside the tiles go:
      a tile and then its strip only extend the covered region. */
  lemma FloodFrame(o: seq<Pixel>, a: seq<Pixel>, b: seq<Pixel>, c: seq<Pixel>, pitch: nat, i: nat,
                   width: nat, height: nat, base: nat, border: nat)
    requires base <= width
    requires OnlyTilesAndStrips(o, a, pitch, i, width, height, base, border)
    requires UnchangedOutside(a, b, pitch, Origin(i, width, base, border).x, Origin(i, width, base, border).y,
                              base, base)
    requires var r := StripBox(i, width, height, base, border);
             if border > 0 then Filled(b, c, pitch, r.x, r.y, r.wd, r.ht, BorderColour) else c == b
    ensures OnlyTilesAndStrips(o, c, pitch, i + 1, width, height, base, border)
  {
    var p, r := Origin(i, width, base, border), StripBox(i, width, height, base, border);
    forall j | 0 <= j < |c| && !Covered(pitch, j, i + 1, width, height, base, border)
      ensures c[j] == o[j]
    {
      assert !Covered(pitch, j, i, width, height, base, border);
      assert !InBox(pitch, j, p.x, p.y, base, base);
      assert b[j] == a[j];
      if border > 0 {
        assert !InBox(pitch, j, r.x, r.y, r.wd, r.ht);
      }
    }
  }

  /** One step of the flood fill keeps every strip drawn so far in the border
      colour and adds the strip after the new tile. */
  lemma StripStep(a: seq<Pixel>, b: seq<Pixel>, c: seq<Pixel>, pitch: nat, i: nat,
                  width: nat, height: nat, base: nat, border: nat)
    requires base <= width && border > 0
    requires StripsDrawn(a, pitch, i, width, height, base, border)
    requires UnchangedOutside(a, b, pitch, Origin(i, width, base, border).x, Origin(i, width, base, border).y,
                              base, base)
    requires var r := StripBox(i, width, height, base, border);
             Filled(b, c, pitch, r.x, r.y, r.wd, r.ht, BorderColour)
    ensures StripsDrawn(c, pitch, i + 1, width, height, base, border)
  {
    var p, r := Origin(i, width, base, border), StripBox(i, width, height, base, border);
    forall k, j | 0 <= k < i + 1 && 0 <= j < |c| && InStrip(pitch, j, k, width, height, base, border)
      ensures c[j] == BorderColour
    {
      if k < i {
        StripClear(pitch, j, k, i, width, height, base, border);
        assert a[j] == BorderColour;
        assert b[j] == a[j];
        assert !InBox(pitch, j, r.x, r.y, r.wd, r.ht);
      } else {
        assert InBox(pitch, j, r.x, r.y, r.wd, r.ht);
      }
    }
  }

  /** The first `count` sources are drawn into their flood-fill tiles. */
  ghost predicate TilesDrawn(prev: seq<Pixel>, cur: seq<Pixel>, pitch: nat, srcs: seq<seq<byte>>, count: nat,
                             pos: nat, mode: PackMode, width: nat, base: nat, border: nat)
    requires base <= width && count <= |srcs|
  {
    forall k :: 0 <= k < count ==>
      TileDrawn(prev, cur, pitch, srcs[k], pos, Origin(k, width, base, border).x,
                Origin(k, width, base, border).y, mode, base)
  }

  /** One step of the flood fill: a tile drawn where nothing was drawn yet,
      then its border strip, keeps every earlier tile and leaves the region
      past the next corner untouched. */
  lemma FloodStep(o: seq<Pixel>, a: seq<Pixel>, b: seq<Pixel>, c: seq<Pixel>, pitch: nat,
                  srcs: seq<seq<byte>>, i: nat, pos: nat, mode: PackMode,
                  width: nat, base: nat, border: nat)
    requires base <= width && i < |srcs|
    requires TilesDrawn(o, a, pitch, srcs, i, pos, mode, width, base, border)
    requires Untouched(o, a, pitch, Origin(i, width, base, border), base)
    requires TileDrawn(a, b, pitch, srcs[i], pos, Origin(i, width, base, border).x,
                       Origin(i, width, base, border).y, mode, base)
    requires UnchangedOutside(a, b, pitch, Origin(i, width, base, border).x,
                              Origin(i, width, base, border).y, base, base)
    requires var r := StripAfter(Origin(i, width, base, border), width, base, border);
             UnchangedOutside(b, c, pitch, r.x, r.y, r.wd, r.ht)
    ensures TilesDrawn(o, c, pitch, srcs, i + 1, pos, mode, width, base, border)
    ensures Untouched(o, c, pitch, Origin(i + 1, width, base, border), base)
  {
    var p := Origin(i, width, base, border);
    var r := StripAfter(p, width, base, border);
    forall k | 0 <= k < i + 1
      ensures TileDrawn(o, c, pitch, srcs[k], pos, Origin(k, width, base, border).x,
                        Origin(k, width, base, border).y, mode, base)
    {
      var q := Origin(k, width, base, border);
      if k < i {
        OriginOrder(k, i, width, base, border);
        TileDrawnFrame(o, a, b, pitch, srcs[k], pos, q.x, q.y, mode, base, p.x, p.y, base, base);
        TileDrawnFrame(o, b, c, pitch, srcs[k], pos, q.x, q.y, mode, base, r.x, r.y, r.wd, r.ht);
      } else {
        assert TileDrawn(o, b, pitch, srcs[k], pos, q.x, q.y, mode, base);
        TileDrawnFrame(o, b, c, pitch, srcs[k], pos, q.x, q.y, mode, base, r.x, r.y, r.wd, r.ht);
      }
    }
  }

  /** The number of tiles, of `n`, that flood fill draws on a canvas of the
      given size: it stops at the first tile that does not fit below. */
  function Fitting(k: nat, n: nat, width: nat, height: nat, base: nat, border: nat): (r: nat)
    requires base <= width && k <= n
    ensures k <= r <= n
    decreases n - k
  {
    if k < n && Origin(k, width, base, border).y + base <= height
    then Fitting(k + 1, n, width, height, base, border)
    else k
  }

  /** Every tile flood fill draws fits the canvas, and it stops short of the
      last source only at a tile that would reach below the bottom. */
  lemma {:induction false} FittingStops(k: nat, n: nat, width: nat, height: nat, base: nat, border: nat)
    requires base <= width && k <= n
    ensures forall j :: k <= j < Fitting(k, n, width, height, base, border) ==>
              Origin(j, width, base, border).y + base <= height
    ensures var r := Fitting(k, n, width, height, base, border);
            r < n ==> Origin(r, width, base, border).y + base > height
    decreases n - k
  {
    if k < n && Origin(k, width, base, border).y + base <= height {
      FittingStops(k + 1, n, width, height, base, border);
    }
  }

  /** When every tile from the k-th on fits, flood fill draws them all. */
  lemma {:induction false} FittingAll(k: nat, n: nat, width: nat, height: nat, base: nat, border: nat)
    requires base <= width && k <= n
    requires forall j :: k <= j < n ==> Origin(j, width, base, border).y + base <= height
    ensures Fitting(k, n, width, height, base, border) == n
    decreases n - k
  {
    if k < n {
      FittingAll(k + 1, n, width, height, base, border);
    }
  }

  /** On a canvas sized to the grid for n tiles, flood fill draws every one of
      up to n sources: resizing for one tile more than there are sources, as
      the display hint does to leave room for the diff tile, loses none. */
  lemma GridShowsAll(count: nat, n: nat, base: nat, border: nat)
    requires 1 <= count <= n && base >= 1
    ensures base <= Extent(Columns(n), base, border)
    ensures Fitting(0, count, Extent(Columns(n), base, border), Extent(Rows(n), base, border), base, border)
         == count
  {
    GridFits(n);
    var c, r := Columns(n), Rows(n);
    assert r >= 1;
    var width, height := Extent(c, base, border), Extent(r, base, border);
    ExtentHoldsOneTile(c, base, border);
    forall j | 0 <= j < count
      ensures Origin(j, width, base, border).y + base <= height
    {
      GridTileInside(j, c, r, base, border);
      MulLess(j, n, 1);
    }
    FittingAll(0, count, width, height, base, border);
  }

  /** A pixel buffer with a width, a height and a row pitch, the drawing
      surface of one connection to the display server. */
  class Canvas {
    var w: nat
    var h: nat
    var pitch: nat
    var px: array<Pixel>

    ghost predicate Valid()
      reads this
    {
      0 < pitch && w <= pitch && h * pitch <= px.Length
    }

    constructor (w: nat, h: nat, pitch: nat)
      requires 0 < pitch && w <= pitch
      ensures Valid() && fresh(px)
      ensures this.w == w && this.h == h && this.pitch == pitch && px.Length == h * pitch
    {
      this.w, this.h, this.pitch := w, h, pitch;
      px := new Pixel[h * pitch];
    }

    /** Fill n columns of one row, from column x0, with a colour. */
    method FillSpan(row: nat, x0: nat, n: nat, colour: Pixel)
      requires Valid() && row < h && x0 + n <= w
      modifies px
      ensures Filled(old(px[..]), px[..], pitch, x0, row, n, 1, colour)
    {
      ghost var o := px[..];
      var c := 0;
      while c < n
        invariant c <= n
        invariant Filled(o, px[..], pitch, x0, row, c, 1, colour)
      {
        IndexInBuffer(pitch, h, row, x0 + c);
        FillCell(o, px[..], pitch, x0, row, c, colour);
        ghost var a := px[..];
        px[row * pitch + x0 + c] := colour;
        assert px[..] == a[row * pitch + x0 + c := colour];
        c := c + 1;
      }
    }

    /** Fill a rectangle with one colour, clipped to the canvas. */
    method DrawBox(x: nat, y: nat, bw: nat, bh: nat, colour: Pixel)
      requires Valid()
      modifies px
      ensures Filled(old(px[..]), px[..], pitch, x, y, Clip(x, bw, w), Clip(y, bh, h), colour)
    {
      var cw, ch := Clip(x, bw, w), Clip(y, bh, h);
      ghost var o := px[..];
      if cw > 0 {
        var r := 0;
        while r < ch
          invariant r <= ch
          invariant Filled(o, px[..], pitch, x, y, cw, r, colour)
        {
          ghost var a := px[..];
          FillSpan(y + r, x, cw, colour);
          FillRow(o, a, px[..], pitch, x, y, cw, r, colour);
          r := r + 1;
        }
      }
    }

    /** Store the next pixel of a row being written from column x. */
    method PutCell(ghost o: seq<Pixel>, ghost want: seq<Pixel>, x: nat, row: nat, col: nat, p: Pixel)
      requires Valid() && x <= col < w && row < h
      requires col - x < |want| && want[col - x] == p
      requires RowWritten(o, px[..], pitch, x, row, want[..col - x])
      modifies px
      ensures RowWritten(o, px[..], pitch, x, row, want[..col - x + 1])
    {
      IndexInBuffer(pitch, h, row, col);
      WriteCell(o, px[..], pitch, x, row, want, col - x);
      ghost var a := px[..];
      px[row * pitch + col] := p;
      assert px[..] == a[row * pitch + col := p];
    }

    /** One row of data pixels of a tile: from column x, while the row and the
        count `ntw` of data pixels still to draw last, the packed window at
        byte `at`, advancing by the stride. */
    method PackRow(src: seq<byte>, mode: PackMode, base: nat, x: nat, row: nat, ntw: nat, at: nat)
      returns (ntw': nat, at': nat)
      requires Valid() && x + base <= w && row < h
      requires at + Min(ntw, base) * Stride(mode) <= |src|
      modifies px
      ensures ntw' == ntw - Min(ntw, base)
      ensures at' == at + Min(ntw, base) * Stride(mode)
      ensures RowWritten(old(px[..]), px[..], pitch, x, row, Windows(mode, src, at, Min(ntw, base)))
    {
      var step := Stride(mode);
      ghost var m := Min(ntw, base);
      ghost var ws := Windows(mode, src, at, m);
      ghost var o := px[..];
      var col := x;
      ntw', at' := ntw, at;
      while col < x + base && ntw' > 0
        invariant x <= col <= x + base && ntw' <= ntw && col - x == ntw - ntw' <= m
        invariant at' == at + (col - x) * step
        invariant RowWritten(o, px[..], pitch, x, row, ws[..col - x])
        invariant Valid()
      {
        WindowAt(mode, src, at, m, col - x);
        PutCell(o, ws, x, row, col, Pack(mode, src, at'));
        NextWindow(col - x, step);
        col, ntw', at' := col + 1, ntw' - 1, at' + step;
      }
      assert ws[..col - x] == ws;
    }

    /** The data rows of a tile: from row y, while rows and data pixels are
        left, one row of packed windows, the windows taken in order from byte
        offset `pos`. Gives the first row it did not write. */
    method DataRows(src: seq<byte>, pos: nat, x: nat, y: nat, mode: PackMode, base: nat)
      returns (row: nat)
      requires Valid() && x + base <= w && y + base <= h
      modifies px
      ensures y <= row <= y + base
      ensures DataPixels(|src|, pos, base, Stride(mode)) <= (row - y) * base || row == y + base
      ensures TilePart(old(px[..]), px[..], pitch, src, pos, x, y, mode, base, y, base, row - y)
    {
      var step := Stride(mode);
      var ntw: nat := DataPixels(|src|, pos, base, step);
      ghost var k := ntw;
      ghost var o := px[..];
      var at: nat := pos;
      row := y;
      while row < y + base && ntw > 0
        invariant y <= row <= y + base
        invariant ntw > 0 ==> k == CellIndex(base, row - y, 0) + ntw
                              && at == pos + CellIndex(base, row - y, 0) * step
        invariant ntw == 0 ==> k <= CellIndex(base, row - y, 0)
        invariant TilePart(o, px[..], pitch, src, pos, x, y, mode, base, y, base, row - y)
      {
        ghost var a := px[..];
        ghost var ntw0, at0 := ntw, at;
        NextRow(|src|, pos, base, row - y, step, k, ntw, at);
        ntw, at := PackRow(src, mode, base, x, row, ntw, at);
        TileDataRow(o, a, px[..], pitch, src, pos, x, y, mode, base, row - y, ntw0, at0);
        row := row + 1;
      }
    }

    /** The single-source tile: the data pixels of `src` from byte offset `pos`
        row by row into the base x base square at (x, y), then opaque black
        for every row the data did not reach. */
    method DrawTile(src: seq<byte>, pos: nat, x: nat, y: nat, mode: PackMode, base: nat)
      requires Valid() && x + base <= w && y + base <= h
      modifies px
      ensures TileDrawn(old(px[..]), px[..], pitch, src, pos, x, y, mode, base)
      ensures UnchangedOutside(old(px[..]), px[..], pitch, x, y, base, base)
    {
      ghost var o := px[..];
      var row := DataRows(src, pos, x, y, mode, base);
      while row < y + base
        invariant y <= row <= y + base
        invariant DataPixels(|src|, pos, base, Stride(mode)) <= (row - y) * base || row == y + base
        invariant TilePart(o, px[..], pitch, src, pos, x, y, mode, base, y, base, row - y)
      {
        ghost var a := px[..];
        FillSpan(row, x, base, RGBA(0x00, 0x00, 0x00, 0xff));
        TilePadRow(o, a, px[..], pitch, src, pos, x, y, mode, base, row - y);
        NextWindow(row - y, base);
        row := row + 1;
      }
      TileComplete(o, px[..], pitch, src, pos, x, y, mode, base);
    }

    /** One row of the heat map: from column x, the heat-map pixel of byte
        offset `at` of every source, advancing by the stride. */
    method DiffRow(srcs: seq<seq<byte>>, mode: PackMode, base: nat, x: nat, row: nat, at: nat)
      returns (at': nat)
      requires |srcs| >= 1
      requires Valid() && x + base <= w && row < h
      modifies px
      ensures at' == at + base * Stride(mode)
      ensures RowWritten(old(px[..]), px[..], pitch, x, row, HeatRow(srcs, mode, at, base))
    {
      var step := Stride(mode);
      ghost var hr := HeatRow(srcs, mode, at, base);
      ghost var o := px[..];
      var col: nat := x;
      at' := at;
      while col < x + base
        invariant x <= col <= x + base
        invariant at' == at + (col - x) * step
        invariant RowWritten(o, px[..], pitch, x, row, hr[..col - x])
      {
        var p := DiffAt(srcs, mode, at');
        PutCell(o, hr, x, row, col, p);
        NextWindow(col - x, step);
        col, at' := col + 1, at' + step;
      }
      assert hr[..col - x] == hr;
    }

    /** One pass of the row loop of the diff tile: row y + n receives the
        heat-map pixels of the next base windows. */
    method DiffRowStep(ghost o: seq<Pixel>, srcs: seq<seq<byte>>, pos: nat, mode: PackMode, base: nat,
                       x: nat, y: nat, n: nat, at: nat)
      returns (at': nat)
      requires |srcs| >= 1
      requires Valid() && x + base <= w && y + n < h
      requires at == pos + CellIndex(base, n, 0) * Stride(mode)
      requires DiffPart(o, px[..], pitch, srcs, pos, x, y, mode, base, y, base, n)
      modifies px
      ensures at' == pos + CellIndex(base, n + 1, 0) * Stride(mode)
      ensures DiffPart(o, px[..], pitch, srcs, pos, x, y, mode, base, y, base, n + 1)
    {
      ghost var a := px[..];
      at' := DiffRow(srcs, mode, base, x, y + n, at);
      DiffRowDone(o, a, px[..], pitch, srcs, pos, x, y, mode, base, n, at);
      NextRowStart(pos, base, n, Stride(mode));
    }

    /** The diff tile: every cell of the base x base square at (x, y) shows
        the heat map of the sources at its window, windows taken row by row
        from byte offset `pos`. */
    method DrawDTile(srcs: seq<seq<byte>>, pos: nat, x: nat, y: nat, mode: PackMode, base: nat)
      requires |srcs| >= 1
      requires Valid() && x + base <= w && y + base <= h
      modifies px
      ensures DiffDrawn(px[..], pitch, srcs, pos, x, y, mode, base)
      ensures UnchangedOutside(old(px[..]), px[..], pitch, x, y, base, base)
    {
      ghost var o := px[..];
      var row: nat, at: nat := y, pos;
      while row < y + base
        invariant y <= row <= y + base
        invariant at == pos + CellIndex(base, row - y, 0) * Stride(mode)
        invariant DiffPart(o, px[..], pitch, srcs, pos, x, y, mode, base, y, base, row - y)
        invariant Valid()
      {
        at := DiffRowStep(o, srcs, pos, mode, base, x, y, row - y, at);
        row := row + 1;
      }
      DiffComplete(o, px[..], pitch, srcs, pos, x, y, mode, base);
    }

    /** Resize to the near-square grid for n tiles of `base` pixels with a
        border between neighbours, then clear to opaque black. `granted` is
        the display server's answer to the resize request; when it refuses,
        nothing changes. */
    method ResizeBase(base: nat, n: nat, border: nat, granted: bool) returns (ok: bool)
      requires Valid() && base >= 1 && n >= 1
      modifies this
      ensures ok == granted
      ensures ok ==> Valid() && fresh(px) && pitch == w
      ensures ok ==> w == Extent(Columns(n), base, border) && h == Extent(Rows(n), base, border)
      ensures ok ==> forall i :: 0 <= i < px.Length ==> px[i] == Pad
      ensures !ok ==> w == old(w) && h == old(h) && pitch == old(pitch) && px == old(px)
    {
      var nw, nh := Extent(Columns(n), base, border), Extent(Rows(n), base, border);
      ExtentHoldsOneTile(Columns(n), base, border);
      ok := Resize(nw, nh, granted);
      if ok {
        DrawBox(0, 0, w, h, Pad);
        FilledAll(px[..], pitch, h, Pad);
      }
    }

    /** Ask the display server for a new size. `granted` is its answer: when
        it agrees the canvas gets a fresh, unpadded buffer of the new size;
        when it refuses, nothing changes. */
    method Resize(nw: nat, nh: nat, granted: bool) returns (ok: bool)
      requires Valid() && nw >= 1
      modifies this
      ensures ok == granted
      ensures ok ==> Valid() && fresh(px) && w == nw && h == nh && pitch == nw && px.Length == nh * nw
      ensures !ok ==> w == old(w) && h == old(h) && pitch == old(pitch) && px == old(px)
    {
      if !granted {
        return false;
      }
      w, h, pitch := nw, nh, nw;
      px := new Pixel[nh * nw];
      ok := true;
    }

    /** After the tile at `p`: the corner of the next tile, one tile and one
        border to the right or else the start of the next row, and, when
        there is a border, the strip between the two filled with the border
        colour. */
    method BorderAfter(p: Pos, base: nat, border: nat) returns (q: Pos)
      requires Valid()
      modifies px
      ensures q == Next(p, w, base, border)
      ensures var r := StripAfter(p, w, base, border);
              border > 0 ==> Filled(old(px[..]), px[..], pitch, r.x, r.y, Clip(r.x, r.wd, w), Clip(r.y, r.ht, h),
                                    BorderColour)
      ensures border == 0 ==> px[..] == old(px[..])
    {
      var x, y := p.x + base + border, p.y;
      if x + base > w {
        x := 0;
        if border > 0 {
          DrawBox(0, y + base, w, border, BorderColour);
        }
        y := y + base + border;
      } else if border > 0 {
        DrawBox(x - border, y, border, base, BorderColour);
      }
      q := Pos(x, y);
    }

    /** Flood-fill every source into its tile, left to right and row by row,
        with a border strip after each tile, until the sources run out or the
        next tile would not fit below. */
    method RefreshData(srcs: seq<seq<byte>>, base: nat, mode: PackMode, pos: nat, border: nat)
      requires Valid() && 1 <= base <= w && base <= h
      modifies px
      ensures TilesDrawn(old(px[..]), px[..], pitch, srcs, Fitting(0, |srcs|, w, h, base, border),
                         pos, mode, w, base, border)
      ensures StripsDrawn(px[..], pitch, Fitting(0, |srcs|, w, h, base, border), w, h, base, border)
      ensures OnlyTilesAndStrips(old(px[..]), px[..], pitch, Fitting(0, |srcs|, w, h, base, border),
                                 w, h, base, border)
    {
      ghost var o := px[..];
      var x: nat, y: nat := 0, 0;
      var i := 0;
      while i < |srcs| && y + base <= h
        invariant i <= |srcs| && Pos(x, y) == Origin(i, w, base, border)
        invariant Fitting(i, |srcs|, w, h, base, border) == Fitting(0, |srcs|, w, h, base, border)
        invariant TilesDrawn(o, px[..], pitch, srcs, i, pos, mode, w, base, border)
        invariant Untouched(o, px[..], pitch, Pos(x, y), base)
        invariant StripsDrawn(px[..], pitch, i, w, h, base, border)
        invariant OnlyTilesAndStrips(o, px[..], pitch, i, w, h, base, border)
      {
        ghost var a := px[..];
        DrawTile(srcs[i], pos, x, y, mode, base);
        ghost var b := px[..];
        ghost var r := StripAfter(Pos(x, y), w, base, border);
        var q := BorderAfter(Pos(x, y), base, border);
        if border > 0 {
          FilledWithin(b, px[..], pitch, r.x, r.y, Clip(r.x, r.wd, w), Clip(r.y, r.ht, h),
                       BorderColour, r.wd, r.ht);
        }
        x, y := q.x, q.y;
        FloodStep(o, a, b, px[..], pitch, srcs, i, pos, mode, w, base, border);
        FloodFrame(o, a, b, px[..], pitch, i, w, h, base, border);
        if border > 0 {
          StripStep(a, b, px[..], pitch, i, w, h, base, border);
        }
        i := i + 1;
      }
    }
  }
}

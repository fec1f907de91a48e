/** What one single-source tile holds: how many of its pixels carry data, and
    the value each cell of the base x base square ends up with. */
module Tiles {
  import opened Pixels
  import opened Arith

  function Min(a: nat, b: nat): nat { if a <= b then a else b }

  /** The number of data pixels of a tile at byte offset `pos` of a source of
      `size` bytes, computed by the clamp of the renderer: the whole tile when
      its last window ends within the source, nothing when the offset is past
      the end, else the whole windows that still fit. Every window it admits
      lies inside the source, however large `pos` is. */
  function DataPixels(size: nat, pos: nat, base: nat, step: nat): (k: nat)
    requires step > 0
    ensures k == if pos >= size then 0 else Min(base * base, (size - pos) / step)
    ensures k <= base * base
    ensures pos + k * step <= size || k == 0
  {
    Clamp(size, pos, base * base, step)
  }

  /** The clamp of the renderer on a tile of `ntw` windows of `step` bytes. */
  function Clamp(size: nat, pos: nat, ntw: nat, step: nat): (k: nat)
    requires step > 0
    ensures k == if pos >= size then 0 else Min(ntw, (size - pos) / step)
    ensures pos + k * step <= size || k == 0
  {
    var end := pos + ntw * step;
    if end > size then
      if end > size + ntw * step then 0
      else
        ClampShort(size, pos, ntw, step);
        (size - pos) / step
    else
      ClampFull(size, pos, ntw, step);
      ntw
  }

  /** When the last window would end past the source but the offset is not,
      the whole windows left are fewer than asked for and end within it. */
  lemma ClampShort(size: nat, pos: nat, ntw: nat, step: nat)
    requires step > 0 && size < pos + ntw * step && pos <= size
    ensures (size - pos) / step < ntw
    ensures pos + (size - pos) / step * step <= size
  {
    QuotientBelow(size - pos, step, ntw);
    assert (size - pos) / step * step <= size - pos;
  }

  /** When the last window ends within the source, no fewer windows are left
      than asked for. */
  lemma ClampFull(size: nat, pos: nat, ntw: nat, step: nat)
    requires step > 0 && pos + ntw * step <= size
    ensures ntw <= (size - pos) / step
    ensures pos < size || ntw == 0
  {
    QuotientBelow(size - pos, step, ntw);
  }

  /** The ordinal of the window a cell of a tile shows: tiles are filled row
      by row, left to right. */
  function CellIndex(base: nat, row: nat, col: nat): nat {
    row * base + col
  }

  /** The `m` packed windows of one row of a tile, the first at byte `at`,
      each `Stride(mode)` bytes after the one before. */
  function Windows(mode: PackMode, src: seq<byte>, at: nat, m: nat): (ws: seq<Pixel>)
    requires at + m * Stride(mode) <= |src|
    ensures |ws| == m
  {
    seq(m, c requires 0 <= c < m =>
           MulLess(c + 1, m, Stride(mode));
           Pack(mode, src, at + c * Stride(mode)))
  }

  /** Window c of a row of m windows lies inside the source and is packed. */
  lemma WindowAt(mode: PackMode, src: seq<byte>, at: nat, m: nat, c: nat)
    requires at + m * Stride(mode) <= |src| && c < m
    ensures at + c * Stride(mode) + Stride(mode) <= |src|
    ensures Windows(mode, src, at, m)[c] == Pack(mode, src, at + c * Stride(mode))
  {
    MulLess(c + 1, m, Stride(mode));
  }

  /** Window `o` of a tile with `k` data pixels ends within the source. */
  lemma WindowInSource(size: nat, pos: nat, base: nat, step: nat, o: nat)
    requires step > 0 && o < DataPixels(size, pos, base, step)
    ensures pos + o * step + step <= size
  {
    MulLess(o + 1, DataPixels(size, pos, base, step), step);
  }

  /** The value of cell (row, col) of a tile after the renderer drew it over a
      cell that held `prev`: the packed window for the first `k` cells, opaque
      black for every row that starts at or after the k-th cell, and the old
      value for the rest of a partially filled row. */
  function TileCell(prev: Pixel, src: seq<byte>, pos: nat, mode: PackMode, base: nat,
                    row: nat, col: nat): Pixel
  {
    var step := Stride(mode);
    var k := DataPixels(|src|, pos, base, step);
    var o := CellIndex(base, row, col);
    if o < k then
      WindowInSource(|src|, pos, base, step, o);
      Pack(mode, src, pos + o * step)
    else if row * base >= k then Pad
    else prev
  }

  /** A tile drawn at or past the end of its source is all padding. */
  lemma PastEndIsPad(prev: Pixel, src: seq<byte>, pos: nat, mode: PackMode, base: nat,
                     row: nat, col: nat)
    requires pos >= |src|
    ensures TileCell(prev, src, pos, mode, base, row, col) == Pad
  {
  }

  /** Cells before the k-th show the packed window of their index. */
  lemma DataCell(prev: Pixel, src: seq<byte>, pos: nat, mode: PackMode, base: nat,
                 row: nat, col: nat)
    requires CellIndex(base, row, col) < DataPixels(|src|, pos, base, Stride(mode))
    ensures pos + CellIndex(base, row, col) * Stride(mode) + Stride(mode) <= |src|
    ensures TileCell(prev, src, pos, mode, base, row, col)
         == Pack(mode, src, pos + CellIndex(base, row, col) * Stride(mode))
  {
    WindowInSource(|src|, pos, base, Stride(mode), CellIndex(base, row, col));
  }

  /** A tile whose windows all fit in the source is all data. */
  lemma FullTileIsData(prev: Pixel, src: seq<byte>, pos: nat, mode: PackMode, base: nat,
                       row: nat, col: nat)
    requires pos + base * base * Stride(mode) <= |src|
    requires row < base && col < base
    ensures pos + CellIndex(base, row, col) * Stride(mode) + Stride(mode) <= |src|
    ensures TileCell(prev, src, pos, mode, base, row, col)
         == Pack(mode, src, pos + CellIndex(base, row, col) * Stride(mode))
  {
    QuotientBelow(|src| - pos, Stride(mode), base * base);
    IndexInTile(base, row, col);
    DataCell(prev, src, pos, mode, base, row, col);
  }

  lemma IndexInTile(base: nat, row: nat, col: nat)
    requires row < base && col < base
    ensures CellIndex(base, row, col) < base * base
  {
    MulLess(row + 1, base, base);
    assert (row + 1) * base == row * base + base;
  }

  /** The shape of a drawn tile with k data pixels: k / base full rows of
      data, then a row holding k % base data pixels whose remaining cells keep
      their old value, then opaque black rows down to the bottom. */
  lemma TileShape(prev: Pixel, src: seq<byte>, pos: nat, mode: PackMode, base: nat,
                  row: nat, col: nat, k: nat)
    requires row < base && col < base
    requires k == DataPixels(|src|, pos, base, Stride(mode))
    ensures CellIndex(base, row, col) < k <==> row < k / base || (row == k / base && col < k % base)
    ensures CellIndex(base, row, col) < k ==> pos + CellIndex(base, row, col) * Stride(mode) + Stride(mode) <= |src|
    ensures CellIndex(base, row, col) < k ==>
              TileCell(prev, src, pos, mode, base, row, col) == Pack(mode, src, pos + CellIndex(base, row, col) * Stride(mode))
    ensures row == k / base && 0 < k % base <= col ==> TileCell(prev, src, pos, mode, base, row, col) == prev
    ensures row > k / base || (row == k / base && k % base == 0) ==> TileCell(prev, src, pos, mode, base, row, col) == Pad
  {
    RowMajorSplit(base, row, col, k);
    if CellIndex(base, row, col) < k {
      DataCell(prev, src, pos, mode, base, row, col);
    }
  }

  /** Row-major order: the cells before index k are k / base full rows and
      k % base cells of the next row; a row starts at or after k exactly when
      it lies below that. */
  lemma RowMajorSplit(base: nat, row: nat, col: nat, k: nat)
    requires row < base && col < base
    ensures CellIndex(base, row, col) < k <==> (row < k / base || (row == k / base && col < k % base))
    ensures row * base >= k <==> (row > k / base || (row == k / base && k % base == 0))
  {
    var q, r := k / base, k % base;
    assert k == q * base + r && r < base;
    if row < q {
      MulLess(row + 1, q, base);
      assert (row + 1) * base == row * base + base;
      assert CellIndex(base, row, col) < k && row * base < k;
    } else if row > q {
      MulLess(q + 1, row, base);
      assert (q + 1) * base == q * base + base;
      assert CellIndex(base, row, col) >= k && row * base > k;
    } else {
      assert CellIndex(base, row, col) == q * base + col;
    }
  }
}

/** The layout engine: the near-square grid the canvas is sized for, and the
    flood-fill placement of the tiles on a canvas. */
module Layout {
  import opened Arith

  /** The smallest c with c * c >= n (the integer form of ceil(sqrt(n))). */
  function CeilSqrt(n: nat): (c: nat)
    ensures c * c >= n
    ensures c == 0 || (c - 1) * (c - 1) < n
  {
    CeilSqrtFrom(n, 0)
  }

  function CeilSqrtFrom(n: nat, c: nat): (r: nat)
    requires c == 0 || (c - 1) * (c - 1) < n
    ensures r * r >= n
    ensures r == 0 || (r - 1) * (r - 1) < n
    decreases n - c
  {
    if c * c >= n then c
    else
      assert c <= c * c by {
        if c > 0 { MulLess(1, c, c); }
      }
      CeilSqrtFrom(n, c + 1)
  }

  /** The smallest q with q * d >= n (the integer form of ceil(n / d)). */
  function CeilDiv(n: nat, d: nat): (q: nat)
    requires d > 0
    ensures q * d >= n
    ensures q == 0 || (q - 1) * d < n
  {
    var q := n / d;
    assert n == q * d + n % d;
    if n % d == 0 then q else q + 1
  }

  /** A row of one tile or more is at least one tile wide. */
  lemma ExtentHoldsOneTile(count: nat, base: nat, border: nat)
    requires count >= 1
    ensures Extent(count, base, border) >= base
  {
    MulLess(1, count, base + border);
  }

  /** The grid requested for n tiles: columns and rows. */
  function Columns(n: nat): nat { CeilSqrt(n) }

  function Rows(n: nat): nat
    requires n >= 1
  {
    assert Columns(n) > 0;
    CeilDiv(n, Columns(n))
  }

  /** The extent of `count` tiles of `base` pixels with a border between each
      two neighbours and none after the last. */
  function Extent(count: nat, base: nat, border: nat): nat
    requires count >= 1
  {
    assert count * (base + border) >= base + border;
    count * (base + border) - border
  }

  /** The grid holds all n tiles, its last row is not empty, and it is near
      square: it has as many columns as rows, or one more. */
  lemma GridFits(n: nat)
    requires n >= 1
    ensures Columns(n) >= 1 && Rows(n) >= 1
    ensures Columns(n) * Rows(n) >= n
    ensures Columns(n) * (Rows(n) - 1) < n
    ensures Rows(n) <= Columns(n) <= Rows(n) + 1
  {
    var c := Columns(n);
    assert c >= 1;
    var r := CeilDiv(n, c);
    assert r >= 1;
    var r' := r - 1;
    assert c * r == r * c && c * r' == r' * c;
    NoMoreRowsThanColumns(n, c, r);
    AtMostOneExtraColumn(n, c, r);
  }

  lemma NoMoreRowsThanColumns(n: nat, c: nat, r: nat)
    requires c * c >= n && r >= 1 && (r - 1) * c < n
    ensures r <= c
  {
    if r > c {
      MulLess(c, r - 1, c);
      assert false;
    }
  }

  lemma AtMostOneExtraColumn(n: nat, c: nat, r: nat)
    requires c >= 1 && (c - 1) * (c - 1) < n && r * c >= n
    ensures c <= r + 1
  {
    if c > r + 1 {
      SquareGap(c, r);
      assert false;
    }
  }

  lemma SquareGap(c: nat, r: nat)
    requires c >= r + 2
    ensures r * c < (c - 1) * (c - 1)
  {
    MulLess(r, c - 2, c);
    assert (c - 2) * c + 1 == (c - 1) * (c - 1);
  }

  /** A tile's top-left corner. */
  datatype Pos = Pos(x: nat, y: nat)

  /** The corner after the tile at `p`: one tile and one border to the right,
      or, when the next tile would not fit the canvas width, the start of the
      next row. */
  function Next(p: Pos, width: nat, base: nat, border: nat): Pos {
    var x := p.x + base + border;
    if x + base > width then Pos(0, p.y + base + border) else Pos(x, p.y)
  }

  /** The corner of tile k under flood-fill placement from (0, 0). */
  function Origin(k: nat, width: nat, base: nat, border: nat): (p: Pos)
    requires base <= width
    ensures p.x + base <= width
  {
    if k == 0 then Pos(0, 0) else Next(Origin(k - 1, width, base, border), width, base, border)
  }

  /** Flood-fill never goes back: a later tile lies in a later row, or in the
      same row right of the earlier tile and its border. */
  lemma {:induction false} OriginOrder(j: nat, k: nat, width: nat, base: nat, border: nat)
    requires base <= width && j < k
    ensures var p, q := Origin(j, width, base, border), Origin(k, width, base, border);
            p.y + base + border <= q.y || (p.y == q.y && p.x + base + border <= q.x)
  {
    if j < k - 1 {
      OriginOrder(j, k - 1, width, base, border);
    }
  }

  /** The corner of grid slot k of a grid with c columns. */
  function Slot(k: nat, c: nat, base: nat, border: nat): Pos
    requires c >= 1
  {
    Pos((k % c) * (base + border), (k / c) * (base + border))
  }

  /** On a canvas sized for c columns, tile k lands in column k mod c and
      row k div c of the grid. */
  lemma {:induction false} GridOrigin(k: nat, c: nat, base: nat, border: nat)
    requires c >= 1 && base >= 1
    ensures base <= Extent(c, base, border)
    ensures Origin(k, Extent(c, base, border), base, border) == Slot(k, c, base, border)
  {
    MulLess(1, c, base + border);
    if k > 0 {
      GridOrigin(k - 1, c, base, border);
      NextSlot(k - 1, c, base, border);
    }
  }

  /** Stepping past slot j of the grid leads to slot j + 1. */
  lemma NextSlot(j: nat, c: nat, base: nat, border: nat)
    requires c >= 1 && base >= 1
    ensures Next(Slot(j, c, base, border), Extent(c, base, border), base, border)
         == Slot(j + 1, c, base, border)
  {
    var w, s := Extent(c, base, border), base + border;
    var x := (j % c) * s + s;
    assert x == (j % c + 1) * s;
    SuccDivMod(j, c);
    if j % c + 1 < c {
      MulLess(j % c + 1, c - 1, s);
      assert (c - 1) * s + s == c * s;
    } else {
      assert (j / c + 1) * s == (j / c) * s + s;
    }
  }

  lemma SuccDivMod(j: nat, c: nat)
    requires c >= 1
    ensures j % c + 1 < c ==> (j + 1) % c == j % c + 1 && (j + 1) / c == j / c
    ensures j % c + 1 == c ==> (j + 1) % c == 0 && (j + 1) / c == j / c + 1
  {
    var q, r := j / c, j % c;
    assert j == q * c + r;
    if r + 1 < c {
      DivModUnique(j + 1, c, q, r + 1);
    } else {
      assert (q + 1) * c == q * c + c;
      DivModUnique(j + 1, c, q + 1, 0);
    }
  }

  /** With the canvas sized for a c x r grid, the first c * r tiles lie inside
      it and every later one would start below its bottom. */
  lemma GridTileInside(k: nat, c: nat, r: nat, base: nat, border: nat)
    requires c >= 1 && r >= 1 && base >= 1
    ensures base <= Extent(c, base, border)
    ensures var p := Origin(k, Extent(c, base, border), base, border);
            p.x + base <= Extent(c, base, border)
            && (p.y + base <= Extent(r, base, border) <==> k < c * r)
  {
    GridOrigin(k, c, base, border);
    var s := base + border;
    RowFits(k / c, r, s);
    QuotientBelow(k, c, r);
  }

  lemma RowFits(row: nat, r: nat, s: nat)
    requires s >= 1
    ensures row < r <==> row * s + s <= r * s
  {
    if row < r {
      MulLess(row + 1, r, s);
    } else {
      MulLess(r, row, s);
    }
  }

  /** Two different tiles never overlap. */
  lemma TilesDisjoint(j: nat, k: nat, width: nat, base: nat, border: nat)
    requires base <= width && j != k
    ensures var p, q := Origin(j, width, base, border), Origin(k, width, base, border);
            p.y + base <= q.y || q.y + base <= p.y || p.x + base <= q.x || q.x + base <= p.x
  {
    if j < k {
      OriginOrder(j, k, width, base, border);
    } else {
      OriginOrder(k, j, width, base, border);
    }
  }
}

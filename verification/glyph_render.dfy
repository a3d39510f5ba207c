/**
 The digit renderer: one digit slot paints its glyph as a grid of filled
 rectangles ("texels"). Each glyph is a column of row patterns; bit
 `cols - 1 - col` of a row pattern says whether column `col` is filled, so
 the leftmost column reads the most significant used bit.
 */
module GlyphRender {

  /** A rectangle in the slot's own coordinates, as passed to the fill call. */
  datatype Rect = Rect(x: int, y: int, w: int, h: int)

  /**
   The build-time sizes of a digit slot: the font grid (`rows` x `cols`),
   the slot's width and height, and the border inset on every side.
   */
  datatype Geometry = Geometry(rows: nat, cols: nat, slotW: int, slotH: int, border: int)

  predicate ValidGeometry(g: Geometry) {
    g.rows > 0 && g.cols > 0 && g.border >= 0
  }

  /** The slot is at least as large as its two borders in each direction. */
  predicate FitsBorders(g: Geometry) {
    g.slotW >= 2 * g.border && g.slotH >= 2 * g.border
  }

  /** Each texel is at least one pixel wide and high. */
  predicate PositiveTexels(g: Geometry)
    requires ValidGeometry(g)
  {
    TexelsOf(g).w > 0 && TexelsOf(g).h > 0
  }

  /** A bitmap font: ten glyphs of `rows` byte-sized row patterns. */
  type Font = seq<seq<int>>

  predicate ValidFont(font: Font, g: Geometry) {
    && |font| == 10
    && (forall d :: 0 <= d < |font| ==> |font[d]| == g.rows)
    && (forall d, r :: 0 <= d < |font| && 0 <= r < |font[d]| ==> 0 <= font[d][r] < 256)
  }

  /**
   C integer division, which truncates toward zero: for a positive divisor
   the quotient never overshoots `a` in magnitude, and the remainder takes
   the sign of the dividend.
   */
  function CDiv(a: int, b: int): (q: int)
    requires b != 0
    ensures a >= 0 && b > 0 ==> q == a / b
    ensures b > 0 ==> (q <= 0 <==> a < b)
    ensures b > 0 && a >= 0 ==> 0 <= a - q * b < b
    ensures b > 0 && a < 0 ==> 0 <= q * b - a < b
  {
    if a >= 0 then a / b
    else if b > 0 then -((-a) / b)
    else (-a) / (-b)
  }

  /**
   Bit `k` of `v` in two's complement, the C test `v & (1 << k)`: shift
   right `k` times (floor division by two) and test the lowest bit.
   */
  predicate Lit(v: int, k: nat)
    decreases k
  {
    if k == 0 then v % 2 == 1 else Lit(v / 2, k - 1)
  }

  /** C's `1 << k` on a non-negative shift. */
  function ShiftLeftOne(k: nat): (p: nat)
    ensures p > 0
  {
    if k == 0 then 1 else 2 * ShiftLeftOne(k - 1)
  }

  /** C's bitwise `a & b` on non-negative operands, bit by bit from the lowest. */
  function BitAnd(a: nat, b: nat): nat
    decreases a
  {
    if a == 0 then 0
    else 2 * BitAnd(a / 2, b / 2) + (if a % 2 == 1 && b % 2 == 1 then 1 else 0)
  }

  /** For a non-negative row pattern, `Lit` is exactly the C test `v & (1 << k)` being non-zero. */
  lemma {:induction false} LitIsBitTest(v: nat, k: nat)
    ensures Lit(v, k) <==> BitAnd(v, ShiftLeftOne(k)) != 0
    decreases k
  {
    if k == 0 {
      BitAndZero(v / 2);
    } else {
      LitIsBitTest(v / 2, k - 1);
      assert ShiftLeftOne(k) / 2 == ShiftLeftOne(k - 1) && ShiftLeftOne(k) % 2 == 0;
    }
  }

  lemma {:induction false} BitAndZero(a: nat)
    ensures BitAnd(a, 0) == 0
    decreases a
  {
    if a > 0 {
      BitAndZero(a / 2);
    }
  }

  /** The number of set bits among bits `0 .. k-1` of `v`. */
  function Popcount(v: int, k: nat): (n: nat)
    ensures n <= k
  {
    if k == 0 then 0 else Popcount(v, k - 1) + (if Lit(v, k - 1) then 1 else 0)
  }

  /** The number of set bits among the low `cols` bits of the first `n` rows. */
  function GlyphPopcount(glyph: seq<int>, cols: nat, n: nat): nat
    requires n <= |glyph|
  {
    if n == 0 then 0 else GlyphPopcount(glyph, cols, n - 1) + Popcount(glyph[n - 1], cols)
  }

  /** The texel grid of a slot: its border inset and the size of one texel. */
  datatype Texels = Texels(border: int, w: int, h: int)

  /**
   The texel size: the inset slot divided by the grid size with C's
   truncating division, so leftover pixels on the right and bottom stay
   unpainted.
   */
  function TexelsOf(g: Geometry): (t: Texels)
    requires ValidGeometry(g)
    ensures t.border == g.border
    ensures g.slotW >= 2 * g.border ==> t.w >= 0
    ensures g.slotH >= 2 * g.border ==> t.h >= 0
    ensures g.slotW >= 2 * g.border ==> t.w * g.cols <= g.slotW - 2 * g.border < (t.w + 1) * g.cols
    ensures g.slotH >= 2 * g.border ==> t.h * g.rows <= g.slotH - 2 * g.border < (t.h + 1) * g.rows
  {
    Texels(g.border, CDiv(g.slotW - 2 * g.border, g.cols), CDiv(g.slotH - 2 * g.border, g.rows))
  }

  /** The offset of texel `k` from the inset edge: `k * size`, as a sum of `k` texel sizes. */
  function Scale(k: nat, size: int): int {
    if k == 0 then 0 else Scale(k - 1, size) + size
  }

  lemma {:induction false} ScaleIsProduct(k: nat, size: int)
    ensures Scale(k, size) == k * size
  {
    if k > 0 {
      ScaleIsProduct(k - 1, size);
      assert k * size == (k - 1) * size + size;
    }
  }

  /** With a positive size, texel `a` ends no later than a later texel `b` starts. */
  lemma {:induction false} ScaleStrictlyIncreasing(a: nat, b: nat, size: int)
    requires a < b && size > 0
    ensures Scale(a, size) + size <= Scale(b, size)
    decreases b
  {
    if a + 1 < b {
      ScaleStrictlyIncreasing(a, b - 1, size);
    }
  }

  /** The rectangle painted for grid cell (row, col): `(B + col*w, B + row*h, w, h)`. */
  function Cell(t: Texels, row: nat, col: nat): Rect {
    Rect(t.border + Scale(col, t.w), t.border + Scale(row, t.h), t.w, t.h)
  }

  /** Cell (row, col) is the texel-sized rectangle `col` texels right of and `row` texels below the inset corner. */
  lemma CellAt(t: Texels, row: nat, col: nat)
    ensures Cell(t, row, col) == Rect(t.border + col * t.w, t.border + row * t.h, t.w, t.h)
  {
    ScaleIsProduct(col, t.w);
    ScaleIsProduct(row, t.h);
  }

  /** The slot's area inside its border inset. */
  predicate WithinInset(g: Geometry, r: Rect) {
    && g.border <= r.x && r.x + r.w <= g.slotW - g.border
    && g.border <= r.y && r.y + r.h <= g.slotH - g.border
  }

  /** Strict row-major order of grid cells, the order the nested loops visit them. */
  predicate Before(a: (nat, nat), b: (nat, nat)) {
    a.0 < b.0 || (a.0 == b.0 && a.1 < b.1)
  }

  /**
   The lit cells of columns `0 .. n-1` of one row pattern, left to right.
   There is one per set bit among the top `n` of the low `cols` bits.
   */
  function RowCells(v: int, row: nat, cols: nat, n: nat): (cells: seq<(nat, nat)>)
    requires n <= cols
    ensures |cells| == Popcount(v, cols) - Popcount(v, cols - n)
    ensures forall rc :: rc in cells <==> rc.0 == row && rc.1 < n && Lit(v, cols - 1 - rc.1)
    ensures forall i, j :: 0 <= i < j < |cells| ==> cells[i].0 == row && cells[i].1 < cells[j].1
    decreases n
  {
    if n == 0 then []
    else
      var prefix := RowCells(v, row, cols, n - 1);
      if Lit(v, cols - n) then prefix + [(row, n - 1)] else prefix
  }

  /**
   The lit cells of rows `0 .. n-1` of a glyph, in row-major order: the
   cells painted by the first `n` iterations of the row loop.
   */
  function GlyphCells(glyph: seq<int>, cols: nat, n: nat): (cells: seq<(nat, nat)>)
    requires n <= |glyph|
    ensures |cells| == GlyphPopcount(glyph, cols, n)
    ensures forall rc :: rc in cells <==> rc.0 < n && rc.1 < cols && Lit(glyph[rc.0], cols - 1 - rc.1)
    ensures forall i, j :: 0 <= i < j < |cells| ==> Before(cells[i], cells[j])
    decreases n
  {
    if n == 0 then []
    else
      var prefix := GlyphCells(glyph, cols, n - 1);
      var row := RowCells(glyph[n - 1], n - 1, cols, cols);
      assert forall i :: 0 <= i < |prefix| ==> prefix[i] in prefix;
      assert forall j :: 0 <= j < |row| ==> row[j] in row;
      prefix + row
  }

  /** The texel rectangles of a sequence of cells, cell by cell. */
  function CellRects(t: Texels, cells: seq<(nat, nat)>): (rects: seq<Rect>)
    ensures |rects| == |cells|
    ensures forall i :: 0 <= i < |cells| ==> rects[i] == Cell(t, cells[i].0, cells[i].1)
  {
    seq(|cells|, i requires 0 <= i < |cells| => Cell(t, cells[i].0, cells[i].1))
  }

  /** C's `texel * (k + 1) <= extent` for a texel size that fits `n` times into `extent` and `k < n`. */
  lemma TexelFits(extent: int, n: nat, k: nat, size: int)
    requires k < n && 0 <= size && size * n <= extent
    ensures 0 <= Scale(k, size) && Scale(k, size) + size <= extent
  {
    ScaleIsProduct(k, size);
    MulMonotone(k + 1, n, size);
    assert (k + 1) * size == k * size + size;
  }

  lemma MulMonotone(a: int, b: int, t: int)
    requires a <= b && t >= 0
    ensures a * t <= b * t
  {}

  /** With the slot at least as large as its borders, every grid cell lies inside the inset. */
  lemma CellWithinInset(g: Geometry, row: nat, col: nat)
    requires ValidGeometry(g) && FitsBorders(g)
    requires row < g.rows && col < g.cols
    ensures WithinInset(g, Cell(TexelsOf(g), row, col))
  {
    var t := TexelsOf(g);
    TexelFits(g.slotW - 2 * g.border, g.cols, col, t.w);
    TexelFits(g.slotH - 2 * g.border, g.rows, row, t.h);
  }

  /**
   update_digit_slot: the rectangles filled for the digit `curDigit`, in
   the order they are filled. A negative digit paints nothing; otherwise
   one rectangle is filled per set bit of the glyph's rows.
   (PaintedSetIsLitCells says which rectangles, PaintedWithinInset where.)
   */
  function PaintDigit(g: Geometry, font: Font, curDigit: int): (rects: seq<Rect>)
    requires ValidGeometry(g) && ValidFont(font, g) && curDigit < 10
    ensures curDigit < 0 ==> rects == []
    ensures curDigit >= 0 ==> |rects| == GlyphPopcount(font[curDigit], g.cols, g.rows)
  {
    if curDigit < 0 then [] else CellRects(TexelsOf(g), GlyphCells(font[curDigit], g.cols, g.rows))
  }

  /**
   When the slot is at least as large as its two borders, every rectangle
   a digit slot fills stays inside the border inset.
   */
  lemma PaintedWithinInset(g: Geometry, font: Font, curDigit: int)
    requires ValidGeometry(g) && ValidFont(font, g) && curDigit < 10
    requires FitsBorders(g)
    ensures forall rect :: rect in PaintDigit(g, font, curDigit) ==> WithinInset(g, rect)
  {
    if curDigit >= 0 {
      var cells := GlyphCells(font[curDigit], g.cols, g.rows);
      var rects := CellRects(TexelsOf(g), cells);
      assert rects == PaintDigit(g, font, curDigit);
      forall i | 0 <= i < |rects|
        ensures WithinInset(g, rects[i])
      {
        assert cells[i] in cells;
        CellWithinInset(g, cells[i].0, cells[i].1);
      }
    }
  }

  /** Two rectangles share no pixel. */
  predicate Disjoint(a: Rect, b: Rect) {
    a.x + a.w <= b.x || b.x + b.w <= a.x || a.y + a.h <= b.y || b.y + b.h <= a.y
  }

  /** With texels of positive size, the rectangles of two different cells do not overlap. */
  lemma DistinctCellsDisjoint(t: Texels, r1: nat, c1: nat, r2: nat, c2: nat)
    requires t.w > 0 && t.h > 0
    requires (r1, c1) != (r2, c2)
    ensures Disjoint(Cell(t, r1, c1), Cell(t, r2, c2))
  {
    if c1 < c2 {
      ScaleStrictlyIncreasing(c1, c2, t.w);
    } else if c2 < c1 {
      ScaleStrictlyIncreasing(c2, c1, t.w);
    } else if r1 < r2 {
      ScaleStrictlyIncreasing(r1, r2, t.h);
    } else {
      ScaleStrictlyIncreasing(r2, r1, t.h);
    }
  }

  /** With texels of positive size, different cells have different rectangles. */
  lemma CellInjective(t: Texels, r1: nat, c1: nat, r2: nat, c2: nat)
    requires t.w > 0 && t.h > 0
    requires Cell(t, r1, c1) == Cell(t, r2, c2)
    ensures r1 == r2 && c1 == c2
  {
    if (r1, c1) != (r2, c2) {
      DistinctCellsDisjoint(t, r1, c1, r2, c2);
      assert false;
    }
  }

  /** The rectangle of every listed cell is among the cells' rectangles. */
  lemma ListedCellIsPainted(t: Texels, cells: seq<(nat, nat)>, row: nat, col: nat)
    requires (row, col) in cells
    ensures Cell(t, row, col) in CellRects(t, cells)
  {}

  /** With texels of positive size, a cell's rectangle is among them only if the cell is listed. */
  lemma PaintedCellIsListed(t: Texels, cells: seq<(nat, nat)>, row: nat, col: nat)
    requires t.w > 0 && t.h > 0
    requires Cell(t, row, col) in CellRects(t, cells)
    ensures (row, col) in cells
  {
    var rects := CellRects(t, cells);
    var i :| 0 <= i < |rects| && rects[i] == Cell(t, row, col);
    var rc := cells[i];
    CellInjective(t, row, col, rc.0, rc.1);
    assert cells[i] == (row, col);
  }

  /** Every rectangle of a cell sequence is the rectangle of one of its cells. */
  lemma PaintedIsListedCell(t: Texels, cells: seq<(nat, nat)>, rect: Rect)
    requires rect in CellRects(t, cells)
    ensures exists rc :: rc in cells && rect == Cell(t, rc.0, rc.1)
  {}

  /**
   With texels of positive size, the painted rectangles are pairwise
   disjoint: no pixel is painted twice.
   */
  lemma PaintedPairwiseDisjoint(g: Geometry, font: Font, curDigit: int)
    requires ValidGeometry(g) && ValidFont(font, g) && curDigit < 10
    requires PositiveTexels(g)
    ensures var rects := PaintDigit(g, font, curDigit);
      forall i, j :: 0 <= i < j < |rects| ==> Disjoint(rects[i], rects[j])
  {
    if curDigit >= 0 {
      var t := TexelsOf(g);
      var cells := GlyphCells(font[curDigit], g.cols, g.rows);
      var rects := CellRects(t, cells);
      assert rects == PaintDigit(g, font, curDigit);
      forall i, j | 0 <= i < j < |rects|
        ensures Disjoint(rects[i], rects[j])
      {
        assert Before(cells[i], cells[j]);
        DistinctCellsDisjoint(t, cells[i].0, cells[i].1, cells[j].0, cells[j].1);
      }
    }
  }

  /** The rectangles of the lit cells of a glyph, as a set: the reference renderer. */
  function LitCellRects(g: Geometry, glyph: seq<int>): set<Rect>
    requires ValidGeometry(g) && |glyph| == g.rows
  {
    set row: nat, col: nat | row < g.rows && col < g.cols && Lit(glyph[row], g.cols - 1 - col) :: Cell(TexelsOf(g), row, col)
  }

  /** A sequence without repeated elements has as many distinct elements as entries. */
  lemma {:induction false} DistinctSeqCard<T>(s: seq<T>)
    requires forall i, j :: 0 <= i < j < |s| ==> s[i] != s[j]
    ensures |set x | x in s| == |s|
  {
    if s != [] {
      var init := s[..|s| - 1];
      DistinctSeqCard(init);
      assert (set x | x in s) == (set x | x in init) + {s[|s| - 1]};
      assert s[|s| - 1] !in (set x | x in init);
    }
  }

  /**
   The renderer paints exactly the set of lit-cell rectangles of the
   glyph: every lit cell is painted, and nothing else is.
   */
  lemma PaintedSetIsLitCells(g: Geometry, font: Font, curDigit: int)
    requires ValidGeometry(g) && ValidFont(font, g) && 0 <= curDigit < 10
    ensures (set rect | rect in PaintDigit(g, font, curDigit)) == LitCellRects(g, font[curDigit])
  {
    var t := TexelsOf(g);
    var glyph := font[curDigit];
    var cells := GlyphCells(glyph, g.cols, g.rows);
    var rects := CellRects(t, cells);
    assert rects == PaintDigit(g, font, curDigit);
    forall rect | rect in rects
      ensures rect in LitCellRects(g, glyph)
    {
      PaintedIsListedCell(t, cells, rect);
    }
    forall rect | rect in LitCellRects(g, glyph)
      ensures rect in rects
    {
      var row: nat, col: nat :| row < g.rows && col < g.cols && Lit(glyph[row], g.cols - 1 - col) && rect == Cell(t, row, col);
      ListedCellIsPainted(t, cells, row, col);
    }
  }

  /**
   With texels of positive size, the number of distinct rectangles painted
   is the number of set bits in the glyph's rows.
   */
  lemma PaintedCountIsPopcount(g: Geometry, font: Font, curDigit: int)
    requires ValidGeometry(g) && ValidFont(font, g) && 0 <= curDigit < 10
    requires PositiveTexels(g)
    ensures |set rect | rect in PaintDigit(g, font, curDigit)| == GlyphPopcount(font[curDigit], g.cols, g.rows)
  {
    var rects := PaintDigit(g, font, curDigit);
    PaintedPairwiseDisjoint(g, font, curDigit);
    forall i, j | 0 <= i < j < |rects|
      ensures rects[i] != rects[j]
    {
      assert Disjoint(rects[i], rects[j]);
    }
    DistinctSeqCard(rects);
  }

  /**
   With texels of positive size, the rectangle of cell (row, col) is
   painted if and only if bit `cols - 1 - col` of the row pattern is set.
   */
  lemma PaintedIffLit(g: Geometry, font: Font, curDigit: int, row: nat, col: nat)
    requires ValidGeometry(g) && ValidFont(font, g) && 0 <= curDigit < 10
    requires PositiveTexels(g) && row < g.rows && col < g.cols
    ensures Cell(TexelsOf(g), row, col) in PaintDigit(g, font, curDigit) <==> Lit(font[curDigit][row], g.cols - 1 - col)
  {
    var t := TexelsOf(g);
    var glyph := font[curDigit];
    var cells := GlyphCells(glyph, g.cols, g.rows);
    assert PaintDigit(g, font, curDigit) == CellRects(t, cells);
    if Lit(glyph[row], g.cols - 1 - col) {
      ListedCellIsPainted(t, cells, row, col);
    }
    if Cell(t, row, col) in CellRects(t, cells) {
      PaintedCellIsListed(t, cells, row, col);
    }
  }

  /** A negative digit paints nothing, whatever the font and geometry. */
  lemma BlankPaintsNothing(g: Geometry, font: Font)
    requires ValidGeometry(g) && ValidFont(font, g)
    ensures PaintDigit(g, font, -1) == []
  {}
}

/** The vertex shader of textures/icons.c: which square cell of an evenly
    divided, square icon texture is mapped for a given icon id.

    The shader receives `icon_id = (id, n)`, where `n` is the number of icons
    per side of the texture. The column of the icon is `id mod n`, its row is
    `id / n`, and the row is flipped to `n - 1 - id / n` with unsigned (wrapping)
    arithmetic. Both are scaled by the side of one cell, `1 / n`. Texture
    coordinates are exact reals here. */
module IconAtlas {
  import opened GLTypes

  /** A texture coordinate `(u, v)` in the texture's normalised space. */
  datatype TexCoord = TexCoord(u: real, v: real)

  /** The part of the texture that the quad samples. */
  datatype Rect = Rect(uMin: real, vMin: real, uMax: real, vMax: real)

  /** A grid cell: column from the left, row in texture `v` order. */
  datatype Cell = Cell(col: int, row: int)

  /** Column of the icon, `mod(icon_id.x, icon_id.y)`. */
  function Column(id: GLuint, n: GLuint): (c: GLuint)
    requires n > 0
    ensures c < n
  {
    id % n
  }

  /** Row of the icon counted from the bottom of the image, `icon_id.x / icon_id.y`.
      It is a row of the `n x n` grid exactly when the id is below `n * n`. */
  function Row(id: GLuint, n: GLuint): (r: nat)
    requires n > 0
    ensures r < n <==> id < n * n
  {
    RowBelowSide(id, n);
    id / n
  }

  /** The shader's flipped row, `icon_id.y - uint(1) - icon_id.x / icon_id.y`,
      evaluated in 32-bit unsigned arithmetic. It is a row of the texture
      exactly when the id names an icon of the grid; otherwise the
      subtraction wraps and the row lies beyond the texture. */
  function FlippedRow(id: GLuint, n: GLuint): (r: GLuint)
    requires n > 0
    ensures r < n <==> id < n * n
    ensures id < n * n ==> r == n - 1 - Row(id, n)
    ensures id >= n * n ==> r == GLUINT_MODULUS + n - 1 - Row(id, n)
  {
    RowBelowSide(id, n);
    WrapUint(n - 1 - Row(id, n))
  }

  /** The cell the shader selects. */
  function SelectedCell(id: GLuint, n: GLuint): (c: Cell)
    requires n > 0
    ensures 0 <= c.col < n && 0 <= c.row
    ensures c.row < n <==> id < n * n
  {
    Cell(Column(id, n), FlippedRow(id, n))
  }

  /** One component of `vs_tex_coord`: the cell index `k` times the side of
      one cell, `square_side = 1 / n`, plus the vertex's input coordinate `x`
      times the same side. Measured in cells it is `k + x`. */
  function ShaderCoord(k: GLuint, x: real, n: GLuint): (t: real)
    requires n > 0
    ensures t * n as real == k as real + x
  {
    var s := 1.0 / n as real;
    CellUnits(k as real, x, n);
    k as real * s + x * s
  }

  /** The output `vs_tex_coord` of the vertex shader for the vertex whose
      input texture coordinate is `corner`:
      `(col * s + corner.u * s, flippedRow * s + corner.v * s)` with `s = 1 / n`. */
  function VertexTexCoord(id: GLuint, n: GLuint, corner: TexCoord): (t: TexCoord)
    requires n > 0
    ensures t.u * n as real == Column(id, n) as real + corner.u
    ensures t.v * n as real == FlippedRow(id, n) as real + corner.v
  {
    TexCoord(ShaderCoord(Column(id, n), corner.u, n), ShaderCoord(FlippedRow(id, n), corner.v, n))
  }

  /** The rectangle spanned by the quad, whose input texture coordinates are
      the corners `(0, 0)` and `(1, 1)` of the unit square. */
  function CellRect(id: GLuint, n: GLuint): (r: Rect)
    requires n > 0
    ensures r.uMax - r.uMin == 1.0 / n as real && r.vMax - r.vMin == 1.0 / n as real
  {
    var lo := VertexTexCoord(id, n, TexCoord(0.0, 0.0));
    var hi := VertexTexCoord(id, n, TexCoord(1.0, 1.0));
    Rect(lo.u, lo.v, hi.u, hi.v)
  }

  /** Inverse of the selection: the icon id whose cell is `c`. */
  function IconAt(c: Cell, n: GLuint): int
    requires n > 0
  {
    (n - 1 - c.row) * n + c.col
  }

  // ----- Integer and real arithmetic used by the proofs -----

  lemma MulAtLeast(a: int, n: int)
    requires a >= 1 && n > 0
    ensures a * n >= n
  {
    assert a * n == (a - 1) * n + n;
  }

  lemma MulMonotone(a: int, b: int, n: int)
    requires a <= b && n > 0
    ensures a * n <= b * n
  {
    if a < b {
      MulAtLeast(b - a, n);
      assert b * n - a * n == (b - a) * n;
    }
  }

  /** Quotient and remainder are determined by `id == q * n + c`, `0 <= c < n`. */
  lemma DivModUnique(id: int, n: int, q: int, c: int)
    requires n > 0 && 0 <= c < n && 0 <= q && id == q * n + c
    ensures id / n == q && id % n == c
  {
    var q', c' := id / n, id % n;
    assert id == q' * n + c';
    assert (q - q') * n == c' - c;
    if q > q' {
      MulAtLeast(q - q', n);
    } else if q < q' {
      MulAtLeast(q' - q, n);
    }
  }

  /** The quotient `id / n` is a row of the grid exactly when `id < n * n`. */
  lemma RowBelowSide(id: int, n: int)
    requires n > 0 && id >= 0
    ensures id / n < n <==> id < n * n
  {
    var q, c := id / n, id % n;
    assert id == q * n + c;
    if q < n {
      MulMonotone(q, n - 1, n);
      assert (n - 1) * n + n == n * n;
    } else {
      MulMonotone(n, q, n);
    }
  }

  /** A shader coordinate grows with the vertex's input coordinate. */
  lemma ShaderCoordMonotone(k: GLuint, x: real, y: real, n: GLuint)
    requires n > 0 && x <= y
    ensures ShaderCoord(k, x, n) <= ShaderCoord(k, y, n)
  {
    var s := 1.0 / n as real;
    assert s > 0.0;
    assert (y - x) * s >= 0.0;
    assert ShaderCoord(k, y, n) - ShaderCoord(k, x, n) == (y - x) * s;
  }

  /** Cell `k` of `n` spans `[k / n, (k + 1) / n]`, inside `[0, 1]`. */
  lemma CellSpan(k: GLuint, n: GLuint)
    requires 0 <= k < n
    ensures 0.0 <= ShaderCoord(k, 0.0, n) < ShaderCoord(k, 1.0, n) <= 1.0
    ensures ShaderCoord(k, 1.0, n) - ShaderCoord(k, 0.0, n) == 1.0 / n as real
  {
    var s := 1.0 / n as real;
    ScaledAtMostOne(k + 1, n);
    assert ShaderCoord(k, 1.0, n) == (k + 1) as real * s;
  }

  /** Scaled by `1 / n`, an offset `x` within cell `k` is `k + x` cells. */
  lemma CellUnits(k: real, x: real, n: int)
    requires n > 0
    ensures (k * (1.0 / n as real) + x * (1.0 / n as real)) * n as real == k + x
  {
    var s := 1.0 / n as real;
    assert s * n as real == 1.0;
    assert (k * s + x * s) * n as real == (k + x) * (s * n as real);
  }

  lemma ScaleBack(k: int, n: int)
    requires n > 0
    ensures (k as real * (1.0 / n as real)) * n as real == k as real
  {
  }

  /** Scaling by `1 / n`: `k / n <= 1` exactly when `k <= n`. */
  lemma ScaledAtMostOne(k: int, n: int)
    requires 0 < n && 0 <= k
    ensures k as real * (1.0 / n as real) <= 1.0 <==> k <= n
  {
  }

  // ----- Properties of the selection -----

  /** The worked example of the shader's comment: `(6, 4)` is row 1, column 2,
      drawn from flipped row 2, i.e. the square `[0.5, 0.75] x [0.5, 0.75]`. */
  lemma SixOfFour()
    ensures Row(6, 4) == 1 && Column(6, 4) == 2 && FlippedRow(6, 4) == 2
    ensures CellRect(6, 4) == Rect(0.5, 0.5, 0.75, 0.75)
  {
  }

  /** The row and column are the unique quotient and remainder of the id:
      `(q, c)` is `(id / n, id mod n)` exactly when `id == q * n + c` and
      `0 <= c < n`, as in "6/4 = 1, remainder 2". */
  lemma RowColumnUnique(id: GLuint, n: GLuint, q: int, c: int)
    requires n > 0 && q >= 0
    ensures (Row(id, n) == q && Column(id, n) == c) <==> (id == q * n + c && 0 <= c < n)
  {
    if id == q * n + c && 0 <= c < n {
      DivModUnique(id, n, q, c);
    }
  }

  /** For a valid id, the rectangle lies inside the unit square and is
      exactly one cell, `1 / n`, wide and tall. */
  lemma CellInsideTexture(id: GLuint, n: GLuint)
    requires n > 0 && id < n * n
    ensures var r := CellRect(id, n);
      0.0 <= r.uMin < r.uMax <= 1.0 && 0.0 <= r.vMin < r.vMax <= 1.0 &&
      r.uMax - r.uMin == 1.0 / n as real && r.vMax - r.vMin == 1.0 / n as real
  {
    var c, f := Column(id, n), FlippedRow(id, n);
    assert CellRect(id, n) == Rect(ShaderCoord(c, 0.0, n), ShaderCoord(f, 0.0, n),
                                   ShaderCoord(c, 1.0, n), ShaderCoord(f, 1.0, n));
    CellSpan(c, n);
    CellSpan(f, n);
  }

  /** Every vertex of the quad maps into the selected cell when its input
      texture coordinate lies in the unit square. */
  lemma VertexInsideCell(id: GLuint, n: GLuint, corner: TexCoord)
    requires n > 0
    requires 0.0 <= corner.u <= 1.0 && 0.0 <= corner.v <= 1.0
    ensures var t := VertexTexCoord(id, n, corner); var r := CellRect(id, n);
      r.uMin <= t.u <= r.uMax && r.vMin <= t.v <= r.vMax
  {
    var c, f := Column(id, n), FlippedRow(id, n);
    ShaderCoordMonotone(c, 0.0, corner.u, n);
    ShaderCoordMonotone(c, corner.u, 1.0, n);
    ShaderCoordMonotone(f, 0.0, corner.v, n);
    ShaderCoordMonotone(f, corner.v, 1.0, n);
  }

  /** An id past the grid (and below the 32-bit limit) makes the flipped
      row wrap: the cell starts at or beyond the top edge `v = 1`. */
  lemma OutOfRangeLeavesTexture(id: GLuint, n: GLuint)
    requires n > 0 && id >= n * n
    ensures FlippedRow(id, n) >= n
    ensures CellRect(id, n).vMin >= 1.0
  {
    ScaledAtMostOne(n, n);
    ScaledAtMostOne(FlippedRow(id, n), n);
  }

  /** Id 0 is the bottom-left icon: column 0 and flipped row `n - 1`, whose
      cell touches `v = 1`, the last image row uploaded (the bottom row of an
      image decoded top row first). The last id, `n * n - 1`, is the top-right
      icon. */
  lemma CornerIcons(n: GLuint)
    requires n > 0
    ensures SelectedCell(0, n) == Cell(0, n - 1)
    ensures CellRect(0, n).uMin == 0.0 && CellRect(0, n).vMax == 1.0
    ensures n * n - 1 < GLUINT_MODULUS ==>
      SelectedCell(n * n - 1, n) == Cell(n - 1, 0)
  {
    var s := 1.0 / n as real;
    assert (n - 1) as real * s + 1.0 * s == n as real * s;
    if n * n - 1 < GLUINT_MODULUS {
      var last := n * n - 1;
      DivModUnique(last, n, n - 1, n - 1);
    }
  }

  /** Consecutive ids in the same row select horizontally adjacent cells:
      the rectangle moves right by exactly one cell. */
  lemma NextIdIsRightNeighbour(id: GLuint, n: GLuint)
    requires n > 0 && id + 1 < n * n && id < GLUINT_MAX && Column(id, n) + 1 < n
    ensures SelectedCell(id + 1, n) == Cell(Column(id, n) + 1, FlippedRow(id, n))
    ensures CellRect(id + 1, n).uMin == CellRect(id, n).uMax
    ensures CellRect(id + 1, n).vMin == CellRect(id, n).vMin
  {
    var q, c := Row(id, n), Column(id, n);
    DivModUnique(id + 1, n, q, c + 1);
  }

  /** Selecting a cell and mapping it back yields the id again. */
  lemma SelectThenIconAt(id: GLuint, n: GLuint)
    requires n > 0 && id < n * n
    ensures IconAt(SelectedCell(id, n), n) == id
  {
  }

  /** Every cell of the `n x n` grid is selected by the id `IconAt` gives. */
  lemma IconAtThenSelect(c: Cell, n: GLuint)
    requires n > 0 && 0 <= c.col < n && 0 <= c.row < n
    ensures 0 <= IconAt(c, n) < n * n
    ensures IconAt(c, n) < GLUINT_MODULUS ==> SelectedCell(IconAt(c, n), n) == c
  {
    var q := n - 1 - c.row;
    var id := IconAt(c, n);
    DivModUnique(id, n, q, c.col);
    RowBelowSide(id, n);
  }

  /** Distinct valid ids select distinct cells and distinct rectangles. */
  lemma DistinctIdsDistinctCells(id1: GLuint, id2: GLuint, n: GLuint)
    requires n > 0 && id1 < n * n && id2 < n * n && id1 != id2
    ensures SelectedCell(id1, n) != SelectedCell(id2, n)
    ensures CellRect(id1, n) != CellRect(id2, n)
  {
    SelectThenIconAt(id1, n);
    SelectThenIconAt(id2, n);
    ScaleBack(Column(id1, n), n);
    ScaleBack(Column(id2, n), n);
    ScaleBack(FlippedRow(id1, n), n);
    ScaleBack(FlippedRow(id2, n), n);
  }
}

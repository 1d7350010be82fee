/**
  The two neighbour-cell walks of the shearing cell list.  Both step a cursor
  over linear cell indices and correct it by a whole period whenever it runs
  off the grid along a periodic axis.

  - The face walk (gcellsShearing.cpp, runEvent) visits the 3 x 3 face of
    cells that becomes visible when a particle steps one cell along an axis.
  - The Lees-Edwards walk (getExtraLEParticleNeighbourhood) visits the cells
    of the opposite y boundary layer, every x, three z layers.

  Each walk is proved equal to a reference sequence (FaceCells, LECells),
  and each reference sequence is characterised as a set of cells.
*/
module CellWalks {
  import opened CellGrid

  /** The faster-moving axis of the face walk, given the crossing axis. */
  function Dim1(dir: int): (r: int)
    requires 0 <= dir < 3
    ensures 0 <= r < 3 && r != dir
  {
    dir + 1 - 3 * (if dir > 1 then 1 else 0)
  }

  /** The slower-moving axis of the face walk, given the crossing axis. */
  function Dim2(dir: int): (r: int)
    requires 0 <= dir < 3
    ensures 0 <= r < 3 && r != dir && r != Dim1(dir)
  {
    dir + 2 - 3 * (if dir > 0 then 1 else 0)
  }

  /** `x` is within one cell of `y` along a periodic axis of `m` cells. */
  predicate Near(x: int, y: int, m: int) {
    x == Wrap(y - 1, m) || x == y || x == Wrap(y + 1, m)
  }

  /** The cell `c` with its coordinate along Dim1 replaced by `u` and along Dim2 by `v`. */
  function FacePoint(c: Vec3, dir: int, u: int, v: int): (p: Vec3)
    requires 0 <= dir < 3
    ensures p.At(dir) == c.At(dir) && p.At(Dim1(dir)) == u && p.At(Dim2(dir)) == v
  {
    if dir == 0 then Vec3(c.x, u, v) else if dir == 1 then Vec3(v, c.y, u) else Vec3(u, v, c.z)
  }

  /** The face cell in row i (along Dim2) and column j (along Dim1) around `c`. */
  function FaceCell(n: Vec3, c: Vec3, dir: int, i: int, j: int): Vec3
    requires 0 <= dir < 3
  {
    var d1, d2 := Dim1(dir), Dim2(dir);
    FacePoint(c, dir, Wrap(c.At(d1) - 1 + j, n.At(d1)), Wrap(c.At(d2) - 1 + i, n.At(d2)))
  }

  /** The first j cells of row i of the face walk around `c`. */
  function FaceRow(n: Vec3, c: Vec3, dir: int, i: int, j: nat): (r: seq<int>)
    requires 0 <= dir < 3
    ensures |r| == j
  {
    if j == 0 then [] else FaceRow(n, c, dir, i, j - 1) + [CellId(n, FaceCell(n, c, dir, i, j - 1))]
  }

  /** The first i rows of the face walk around `c`, each three cells along Dim1. */
  function FaceRows(n: Vec3, c: Vec3, dir: int, i: nat): (r: seq<int>)
    requires 0 <= dir < 3
    ensures |r| == 3 * i
  {
    if i == 0 then [] else FaceRows(n, c, dir, i - 1) + FaceRow(n, c, dir, i - 1, 3)
  }

  /** The nine cells the face walk visits around `c`, in visiting order: Dim1 fastest, then Dim2. */
  function FaceCells(n: Vec3, c: Vec3, dir: int): (r: seq<int>)
    requires 0 <= dir < 3
    ensures |r| == 9
  {
    FaceRows(n, c, dir, 3)
  }

  /**
    The cell with coordinates `e` lies on the face around `c`: same
    coordinate along the crossing axis, within one cell along the other two.
  */
  predicate OnFace(n: Vec3, c: Vec3, dir: int, e: Vec3)
    requires 0 <= dir < 3
  {
    var d1, d2 := Dim1(dir), Dim2(dir);
    InGrid(n, e) && e.At(dir) == c.At(dir) && Near(e.At(d1), c.At(d1), n.At(d1)) && Near(e.At(d2), c.At(d2), n.At(d2))
  }

  /** The y layer the Lees-Edwards walk scans: the other y boundary. */
  function Opposite(n: Vec3, y: int): int {
    if y != 0 then 0 else n.y - 1
  }

  /** A boundary layer along y. */
  predicate OnYBoundary(n: Vec3, c: Vec3) {
    c.y == 0 || c.y == n.y - 1
  }

  /** The cell in z row i and column x of the Lees-Edwards walk for a particle in cell `c`. */
  function LECell(n: Vec3, c: Vec3, i: int, x: int): Vec3 {
    Vec3(x, Opposite(n, c.y), Wrap(c.z - 1 + i, n.z))
  }

  /** The first j cells of z row i of the Lees-Edwards walk for a particle in cell `c`. */
  function LERow(n: Vec3, c: Vec3, i: int, j: nat): (r: seq<int>)
    ensures |r| == j
  {
    if j == 0 then [] else LERow(n, c, i, j - 1) + [CellId(n, LECell(n, c, i, j - 1))]
  }

  /** The first i z rows of the Lees-Edwards walk, each running over every x. */
  function LERows(n: Vec3, c: Vec3, i: nat): (r: seq<int>)
    requires GridCounts(n)
    ensures |r| == i * n.x
  {
    if i == 0 then [] else
      var r := LERows(n, c, i - 1) + LERow(n, c, i - 1, n.x);
      MulStep(n.x, i - 1, 1);
      r
  }

  /** The cells the Lees-Edwards walk visits for a particle in cell `c`, in visiting order: x fastest, then z. */
  function LECells(n: Vec3, c: Vec3): (r: seq<int>)
    requires GridCounts(n)
    ensures |r| == 3 * n.x
  {
    LERows(n, c, 3)
  }

  /** Entry x of a face walk row is the face cell in that row and column x. */
  lemma {:induction false} FaceRowAt(n: Vec3, c: Vec3, dir: int, i: int, j: nat, x: int)
    requires 0 <= dir < 3 && 0 <= x < j
    ensures FaceRow(n, c, dir, i, j)[x] == CellId(n, FaceCell(n, c, dir, i, x))
  {
    if x < j - 1 {
      FaceRowAt(n, c, dir, i, j - 1, x);
    }
  }

  /** Entry 3 * i' + x of the first i face walk rows is the face cell in row i', column x. */
  lemma {:induction false} FaceRowsAt(n: Vec3, c: Vec3, dir: int, i: nat, i': int, x: int)
    requires 0 <= dir < 3 && 0 <= i' < i && 0 <= x < 3
    ensures FaceRows(n, c, dir, i)[3 * i' + x] == CellId(n, FaceCell(n, c, dir, i', x))
  {
    if i' < i - 1 {
      FaceRowsAt(n, c, dir, i - 1, i', x);
    } else {
      FaceRowAt(n, c, dir, i', 3, x);
    }
  }

  /** Entry x of a Lees-Edwards walk row is the cell in that row and column x. */
  lemma {:induction false} LERowAt(n: Vec3, c: Vec3, i: int, j: nat, x: int)
    requires 0 <= x < j
    ensures LERow(n, c, i, j)[x] == CellId(n, LECell(n, c, i, x))
  {
    if x < j - 1 {
      LERowAt(n, c, i, j - 1, x);
    }
  }

  /** Entry i' * n.x + x of the first i Lees-Edwards rows is the cell in row i', column x. */
  lemma {:induction false} LERowsAt(n: Vec3, c: Vec3, i: nat, i': int, x: int)
    requires GridCounts(n) && 0 <= i' < i && 0 <= x < n.x
    ensures 0 <= i' * n.x + x < i * n.x
    ensures LERows(n, c, i)[i' * n.x + x] == CellId(n, LECell(n, c, i', x))
  {
    MulStep(n.x, i - 1, 1);
    if i' < i - 1 {
      LERowsAt(n, c, i - 1, i', x);
    } else {
      LERowAt(n, c, i', n.x, x);
    }
  }

  // ---------------------------------------------------------------------------
  // Wrap facts

  /** From the lowered corner a = Wrap(y - 1), one wrap reaches the same cells as from y - 1. */
  lemma WrapStep(y: int, m: int, j: int)
    requires m >= 2 && 0 <= y < m && 0 <= j < 3
    ensures 0 <= Wrap(y - 1, m) < m
    ensures Wrap(Wrap(y - 1, m) + j, m) == Wrap(y - 1 + j, m)
    ensures 0 <= Wrap(y - 1 + j, m) < m
  {}

  /** On an axis of at least three cells, the three cells around `y` are distinct. */
  lemma WrapDistinct(y: int, m: int, j: int, j': int)
    requires m >= 3 && 0 <= y < m && 0 <= j < 3 && 0 <= j' < 3
    ensures Wrap(y - 1 + j, m) == Wrap(y - 1 + j', m) <==> j == j'
  {}

  /** The three cells around `y` are near it. */
  lemma WrapNear(y: int, m: int, j: int)
    requires m >= 2 && 0 <= y < m && 0 <= j < 3
    ensures Near(Wrap(y - 1 + j, m), y, m)
  {}

  lemma NearChoice(x: int, y: int, m: int) returns (j: int)
    requires m >= 2 && 0 <= y < m && Near(x, y, m)
    ensures 0 <= j < 3 && x == Wrap(y - 1 + j, m)
  {
    if x == Wrap(y - 1, m) { j := 0; } else if x == y { j := 1; } else { j := 2; }
  }

  /** Moving the walk coordinates by (du, dv) moves the index by du Dim1-strides and dv Dim2-strides. */
  lemma ShiftFace(n: Vec3, c: Vec3, dir: int, u: int, v: int, du: int, dv: int)
    requires 0 <= dir < 3
    ensures CellId(n, FacePoint(c, dir, u + du, v + dv))
         == CellId(n, FacePoint(c, dir, u, v)) + Stride(n, Dim1(dir)) * du + Stride(n, Dim2(dir)) * dv
  {
    var d1, d2 := Dim1(dir), Dim2(dir);
    var p := FacePoint(c, dir, u, v);
    var q := p.With(d1, u + du);
    ShiftId(n, p, d1, du);
    ShiftId(n, q, d2, dv);
    assert q.With(d2, v + dv) == FacePoint(c, dir, u + du, v + dv);
  }

  /** Moving the Dim1 coordinate of a face point by k moves its index by k Dim1-strides. */
  lemma ShiftU(n: Vec3, c: Vec3, dir: int, u: int, v: int, k: int)
    requires 0 <= dir < 3
    ensures CellId(n, FacePoint(c, dir, u + k, v)) == CellId(n, FacePoint(c, dir, u, v)) + Stride(n, Dim1(dir)) * k
    ensures CellId(n, FacePoint(c, dir, u - k, v)) == CellId(n, FacePoint(c, dir, u, v)) - Stride(n, Dim1(dir)) * k
  {
    ShiftFace(n, c, dir, u, v, k, 0);
    ShiftFace(n, c, dir, u, v, -k, 0);
  }

  /** Moving the Dim2 coordinate of a face point by k moves its index by k Dim2-strides. */
  lemma ShiftV(n: Vec3, c: Vec3, dir: int, u: int, v: int, k: int)
    requires 0 <= dir < 3
    ensures CellId(n, FacePoint(c, dir, u, v + k)) == CellId(n, FacePoint(c, dir, u, v)) + Stride(n, Dim2(dir)) * k
    ensures CellId(n, FacePoint(c, dir, u, v - k)) == CellId(n, FacePoint(c, dir, u, v)) - Stride(n, Dim2(dir)) * k
  {
    ShiftFace(n, c, dir, u, v, 0, k);
    ShiftFace(n, c, dir, u, v, 0, -k);
  }

  /** Moving a cell along y moves its index by multiples of n.x. */
  lemma MoveY(n: Vec3, p: Vec3, dy: int)
    ensures CellId(n, p.(y := p.y + dy)) == CellId(n, p) + n.x * dy
    ensures CellId(n, p.(y := p.y - dy)) == CellId(n, p) - n.x * dy
  {
    MulStep(n.x, p.y + n.y * p.z, dy);
  }

  /** Moving a cell along z moves its index by multiples of n.x * n.y. */
  lemma MoveZ(n: Vec3, p: Vec3, dz: int)
    ensures CellId(n, p.(z := p.z + dz)) == CellId(n, p) + n.x * n.y * dz
    ensures CellId(n, p.(z := p.z - dz)) == CellId(n, p) - n.x * n.y * dz
  {
    MulStep(n.y, p.z, dz);
    MulStep(n.x, p.y + n.y * p.z, n.y * dz);
  }

  // ---------------------------------------------------------------------------
  // The face walk

  /** A face cell of a grid with at least two cells per axis is a cell of the grid. */
  lemma FaceCellInGrid(n: Vec3, c: Vec3, dir: int, i: int, j: int)
    requires AtLeast(n, 2) && InGrid(n, c) && 0 <= dir < 3 && 0 <= i < 3 && 0 <= j < 3
    ensures InGrid(n, FaceCell(n, c, dir, i, j))
  {
    if dir == 0 {
      WrapStep(c.y, n.y, j);
      WrapStep(c.z, n.z, i);
    } else if dir == 1 {
      WrapStep(c.z, n.z, j);
      WrapStep(c.x, n.x, i);
    } else {
      WrapStep(c.x, n.x, j);
      WrapStep(c.y, n.y, i);
    }
  }

  /** A face cell of a grid with at least two cells per axis lies on the face. */
  lemma FaceCellOnFace(n: Vec3, c: Vec3, dir: int, i: int, j: int)
    requires AtLeast(n, 2) && InGrid(n, c) && 0 <= dir < 3 && 0 <= i < 3 && 0 <= j < 3
    ensures OnFace(n, c, dir, FaceCell(n, c, dir, i, j))
  {
    var d1, d2 := Dim1(dir), Dim2(dir);
    FaceCellInGrid(n, c, dir, i, j);
    WrapNear(c.At(d1), n.At(d1), j);
    WrapNear(c.At(d2), n.At(d2), i);
  }

  /** Entry k of the face walk is the face cell in row k / 3, column k % 3, and is in the grid. */
  lemma FaceCellsAt(n: Vec3, c: Vec3, dir: int, k: int)
    requires AtLeast(n, 2) && InGrid(n, c) && 0 <= dir < 3 && 0 <= k < 9
    ensures InGrid(n, FaceCell(n, c, dir, k / 3, k % 3))
    ensures FaceCells(n, c, dir)[k] == CellId(n, FaceCell(n, c, dir, k / 3, k % 3))
    ensures 0 <= FaceCells(n, c, dir)[k] < NumCells(n)
    ensures CoordsOf(n, FaceCells(n, c, dir)[k]) == FaceCell(n, c, dir, k / 3, k % 3)
  {
    FaceRowsAt(n, c, dir, 3, k / 3, k % 3);
    FaceCellInGrid(n, c, dir, k / 3, k % 3);
    CoordsOfCellId(n, FaceCell(n, c, dir, k / 3, k % 3));
  }

  /** A cell of the grid on the face around `c` is the face cell of some row and column. */
  lemma FaceCellOf(n: Vec3, c: Vec3, dir: int, e: Vec3) returns (i: int, j: int)
    requires AtLeast(n, 2) && InGrid(n, c) && 0 <= dir < 3 && OnFace(n, c, dir, e)
    ensures 0 <= i < 3 && 0 <= j < 3 && FaceCell(n, c, dir, i, j) == e
  {
    var d1, d2 := Dim1(dir), Dim2(dir);
    j := NearChoice(e.At(d1), c.At(d1), n.At(d1));
    i := NearChoice(e.At(d2), c.At(d2), n.At(d2));
  }

  /** Every index the face walk visits is a cell of the grid on the face. */
  lemma FaceCellsOnFace(n: Vec3, c: Vec3, dir: int, k: int)
    requires AtLeast(n, 2) && InGrid(n, c) && 0 <= dir < 3 && 0 <= k < 9
    ensures 0 <= FaceCells(n, c, dir)[k] < NumCells(n)
    ensures OnFace(n, c, dir, CoordsOf(n, FaceCells(n, c, dir)[k]))
  {
    FaceCellsAt(n, c, dir, k);
    FaceCellOnFace(n, c, dir, k / 3, k % 3);
  }

  /** Every cell of the grid on the face is visited by the face walk. */
  lemma FaceCellsCover(n: Vec3, c: Vec3, dir: int, id: int)
    requires AtLeast(n, 2) && InGrid(n, c) && 0 <= dir < 3
    requires 0 <= id < NumCells(n) && OnFace(n, c, dir, CoordsOf(n, id))
    ensures id in FaceCells(n, c, dir)
  {
    var e := CoordsOf(n, id);
    var i, j := FaceCellOf(n, c, dir, e);
    var k := 3 * i + j;
    DivModUnique(k, 3, i, j);
    FaceCellsAt(n, c, dir, k);
    assert FaceCells(n, c, dir)[k] == CellId(n, e);
  }

  /**
    The face walk reaches exactly the cells on the face: every visited index
    is a cell of the grid on the face, and every cell on the face is visited.
  */
  lemma {:induction false} FaceCellsAreFace(n: Vec3, c: Vec3, dir: int)
    requires AtLeast(n, 2) && InGrid(n, c) && 0 <= dir < 3
    ensures forall k :: 0 <= k < 9 ==> 0 <= FaceCells(n, c, dir)[k] < NumCells(n)
    ensures forall id :: id in FaceCells(n, c, dir) <==>
              0 <= id < NumCells(n) && OnFace(n, c, dir, CoordsOf(n, id))
  {
    forall k | 0 <= k < 9
      ensures 0 <= FaceCells(n, c, dir)[k] < NumCells(n)
      ensures OnFace(n, c, dir, CoordsOf(n, FaceCells(n, c, dir)[k]))
    {
      FaceCellsOnFace(n, c, dir, k);
    }
    forall id | 0 <= id < NumCells(n) && OnFace(n, c, dir, CoordsOf(n, id))
      ensures id in FaceCells(n, c, dir)
    {
      FaceCellsCover(n, c, dir, id);
    }
  }

  /** Two different positions of the face walk on a grid of at least three cells per axis hold different cells. */
  lemma FaceCellsDiffer(n: Vec3, c: Vec3, dir: int, k: int, l: int)
    requires AtLeast(n, 3) && InGrid(n, c) && 0 <= dir < 3 && 0 <= k < l < 9
    ensures FaceCells(n, c, dir)[k] != FaceCells(n, c, dir)[l]
  {
    var d1, d2 := Dim1(dir), Dim2(dir);
    FaceCellsAt(n, c, dir, k);
    FaceCellsAt(n, c, dir, l);
    if k % 3 != l % 3 {
      WrapDistinct(c.At(d1), n.At(d1), k % 3, l % 3);
    } else {
      WrapDistinct(c.At(d2), n.At(d2), k / 3, l / 3);
    }
  }

  /** On a grid with at least three cells per axis the face walk visits nine distinct cells. */
  lemma {:induction false} FaceCellsDistinct(n: Vec3, c: Vec3, dir: int)
    requires AtLeast(n, 3) && InGrid(n, c) && 0 <= dir < 3
    ensures forall k, l :: 0 <= k < l < 9 ==> FaceCells(n, c, dir)[k] != FaceCells(n, c, dir)[l]
  {
    forall k, l | 0 <= k < l < 9 ensures FaceCells(n, c, dir)[k] != FaceCells(n, c, dir)[l] {
      FaceCellsDiffer(n, c, dir, k, l);
    }
  }

  /** A coordinate lowered by one cell, wrapping below zero to the top cell. */
  method Lowered(x: int, m: int) returns (r: int)
    requires 0 <= x < m
    ensures r == Wrap(x - 1, m) && 0 <= r < m
  {
    r := x - 1;
    if r < 0 { r := m - 1; }
  }

  /** The face point at walk coordinates (Wrap(a + j), v) is the face cell in row i, column j. */
  lemma FaceCellIs(n: Vec3, c: Vec3, dir: int, i: int, j: int, a: int, u: int, v: int)
    requires AtLeast(n, 2) && InGrid(n, c) && 0 <= dir < 3 && 0 <= j < 3
    requires a == Wrap(c.At(Dim1(dir)) - 1, n.At(Dim1(dir)))
    requires v == Wrap(c.At(Dim2(dir)) - 1 + i, n.At(Dim2(dir)))
    requires u == Wrap(a + j, n.At(Dim1(dir)))
    ensures FacePoint(c, dir, u, v) == FaceCell(n, c, dir, i, j)
  {
    WrapStep(c.At(Dim1(dir)), n.At(Dim1(dir)), j);
  }

  /**
    The cursor j Dim1-strides past the row start, less a period of n1
    cells once the column has wrapped, is the index of the j-th cell of
    the row.
  */
  lemma RowEntry(n: Vec3, cc: Vec3, dir: int, i: int, j: nat, a: int, v: int, start: int, nb: int)
    requires AtLeast(n, 2) && InGrid(n, cc) && 0 <= dir < 3 && j < 3
    requires a == Wrap(cc.At(Dim1(dir)) - 1, n.At(Dim1(dir)))
    requires v == Wrap(cc.At(Dim2(dir)) - 1 + i, n.At(Dim2(dir)))
    requires start == CellId(n, FacePoint(cc, dir, a, v))
    requires nb == start + Stride(n, Dim1(dir)) * j -
                   (if a + j >= n.At(Dim1(dir)) then Stride(n, Dim1(dir)) * n.At(Dim1(dir)) else 0)
    ensures FaceRow(n, cc, dir, i, j + 1) == FaceRow(n, cc, dir, i, j) + [nb]
  {
    var n1, p := n.At(Dim1(dir)), Stride(n, Dim1(dir));
    var u := Wrap(a + j, n1);
    if a + j >= n1 {
      ShiftU(n, cc, dir, a, v, j - n1);
      MulStep(p, j, n1);
      assert a + (j - n1) == u;
    } else {
      ShiftU(n, cc, dir, a, v, j);
      assert a + j == u;
    }
    FaceCellIs(n, cc, dir, i, j, a, u, v);
  }

  /**
    One row of the face walk (the inner loop of the walk in runEvent): from
    the cell at column `a` (the lowered Dim1 coordinate) and row coordinate
    `v`, visit three cells along Dim1, subtracting a period of n1 cells when
    the Dim1 coordinate reaches the count.  Returns the row and the final
    cursor.
  */
  method WalkFaceRow(n: Vec3, ghost cc: Vec3, dir: int, ghost i: int, a: int, ghost v: int,
                     n1: int, dim1pow: int, start: int)
    returns (row: seq<int>, nb: int)
    requires AtLeast(n, 2) && InGrid(n, cc) && 0 <= dir < 3 && 0 <= i < 3
    requires n1 == n.At(Dim1(dir)) && dim1pow == Stride(n, Dim1(dir))
    requires a == Wrap(cc.At(Dim1(dir)) - 1, n1)
    requires v == Wrap(cc.At(Dim2(dir)) - 1 + i, n.At(Dim2(dir)))
    requires start == CellId(n, FacePoint(cc, dir, a, v))
    ensures row == FaceRow(n, cc, dir, i, 3)
    ensures nb == start + 3 * dim1pow - (if a + 2 >= n1 then dim1pow * n1 else 0)
  {
    nb := start;
    row := [];
    var j := 0;
    while j < 3
      invariant 0 <= j <= 3
      invariant row == FaceRow(n, cc, dir, i, j)
      invariant nb == start + dim1pow * j - (if a + j > n1 then dim1pow * n1 else 0)
    {
      if a + j == n1 {
        nb := nb - dim1pow * n1;
      }
      RowEntry(n, cc, dir, i, j, a, v, start, nb);
      row := row + [nb];
      MulStep(dim1pow, j, 1);
      nb := nb + dim1pow;
      j := j + 1;
    }
  }

  /**
    The 3 x 3 face walk of runEvent around the cell with stored coordinates
    `cc` (the cell two steps ahead of the particle's old cell).  It lowers
    the two walk coordinates by one (wrapping), then steps the cursor `nb`
    by strides row by row, subtracting a period when a coordinate reaches
    the count and adding it back at the end of each row.
  */
  method FaceWalk(n: Vec3, cc: Vec3, dir: int) returns (visited: seq<int>)
    requires AtLeast(n, 2) && InGrid(n, cc) && 0 <= dir < 3
    ensures visited == FaceCells(n, cc, dir)
    ensures forall k :: 0 <= k < |visited| ==> 0 <= visited[k] < NumCells(n)
  {
    var dim1, dim2 := Dim1(dir), Dim2(dir);
    var n1, n2 := n.At(dim1), n.At(dim2);
    var dim1pow := CellPow(n, dim1);
    var dim2pow := CellPow(n, dim2);
    // the corner of the face: both walk coordinates lowered by one, wrapping
    var a := Lowered(cc.At(dim1), n1);
    var b := Lowered(cc.At(dim2), n2);
    var nb := CellId(n, FacePoint(cc, dir, a, b));
    ghost var v := b;
    visited := [];
    var i := 0;
    while i < 3
      invariant 0 <= i <= 3
      invariant visited == FaceRows(n, cc, dir, i)
      invariant v == b + i - (if b + i > n2 then n2 else 0)
      invariant nb == CellId(n, FacePoint(cc, dir, a, v))
    {
      if b + i == n2 {
        ShiftV(n, cc, dir, a, v, n2);
        nb := nb - dim2pow * n2;
        v := v - n2;
      }
      WrapStep(cc.At(dim2), n2, i);
      var row;
      row, nb := WalkFaceRow(n, cc, dir, i, a, v, n1, dim1pow, nb);
      visited := visited + row;
      if a + 2 >= n1 {
        nb := nb + dim1pow * n1;
      }
      ShiftV(n, cc, dir, a, v, 1);
      nb := nb + dim2pow - 3 * dim1pow;
      v := v + 1;
      i := i + 1;
    }
    FaceCellsAreFace(n, cc, dir);
  }

  // ---------------------------------------------------------------------------
  // The Lees-Edwards walk

  /** Entry i * n.x + x of the Lees-Edwards walk is the cell in z row i and column x. */
  lemma LECellsAt(n: Vec3, c: Vec3, i: int, x: int)
    requires GridCounts(n) && n.z >= 2 && InGrid(n, c) && 0 <= i < 3 && 0 <= x < n.x
    ensures 0 <= i * n.x + x < 3 * n.x
    ensures InGrid(n, LECell(n, c, i, x))
    ensures LECells(n, c)[i * n.x + x] == CellId(n, LECell(n, c, i, x))
    ensures 0 <= CellId(n, LECell(n, c, i, x)) < NumCells(n)
    ensures CoordsOf(n, CellId(n, LECell(n, c, i, x))) == LECell(n, c, i, x)
  {
    DivModUnique(i * n.x + x, n.x, i, x);
    LERowsAt(n, c, 3, i, x);
    WrapStep(c.z, n.z, i);
    CoordsOfCellId(n, LECell(n, c, i, x));
  }

  /** Visiting the cell x steps along row i from its start extends the Lees-Edwards row. */
  lemma LEVisit(n: Vec3, c: Vec3, i: int, x: nat)
    ensures LERow(n, c, i, x + 1) == LERow(n, c, i, x) + [CellId(n, LECell(n, c, i, 0)) + x]
  {}

  /** Appending to the last of two concatenated sequences. */
  lemma AppendLast<T>(a: seq<T>, b: seq<T>, e: T)
    ensures a + b + [e] == a + (b + [e])
  {}

  /** Every position of the Lees-Edwards walk splits into a z row and a column. */
  lemma LESplit(n: Vec3, k: int)
    requires GridCounts(n) && 0 <= k < 3 * n.x
    ensures 0 <= k / n.x < 3 && 0 <= k % n.x < n.x && k == k / n.x * n.x + k % n.x
  {
    DivBelow(k, n.x, 3);
  }

  /**
    The Lees-Edwards walk reaches exactly the cells of the opposite y layer
    whose z is within one layer of the particle's, for every x.
  */
  lemma {:induction false} LECellsAreStrip(n: Vec3, c: Vec3)
    requires GridCounts(n) && n.z >= 2 && InGrid(n, c)
    ensures forall k :: 0 <= k < 3 * n.x ==> 0 <= LECells(n, c)[k] < NumCells(n)
    ensures forall id :: id in LECells(n, c) <==>
              0 <= id < NumCells(n) && CoordsOf(n, id).y == Opposite(n, c.y) && Near(CoordsOf(n, id).z, c.z, n.z)
  {
    var le := LECells(n, c);
    forall k | 0 <= k < 3 * n.x
      ensures 0 <= le[k] < NumCells(n)
      ensures CoordsOf(n, le[k]).y == Opposite(n, c.y) && Near(CoordsOf(n, le[k]).z, c.z, n.z)
    {
      LESplit(n, k);
      LECellsAt(n, c, k / n.x, k % n.x);
    }
    forall id | 0 <= id < NumCells(n) && CoordsOf(n, id).y == Opposite(n, c.y) && Near(CoordsOf(n, id).z, c.z, n.z)
      ensures id in le
    {
      var e := CoordsOf(n, id);
      var i := NearChoice(e.z, c.z, n.z);
      LECellsAt(n, c, i, e.x);
      assert LECell(n, c, i, e.x) == e;
      assert le[i * n.x + e.x] == id;
    }
  }

  /** With at least three z layers the Lees-Edwards walk visits 3 * n.x distinct cells. */
  lemma {:induction false} LECellsDistinct(n: Vec3, c: Vec3)
    requires GridCounts(n) && n.z >= 3 && InGrid(n, c)
    ensures forall k, l :: 0 <= k < l < 3 * n.x ==> LECells(n, c)[k] != LECells(n, c)[l]
  {
    var le := LECells(n, c);
    forall k, l | 0 <= k < l < 3 * n.x ensures le[k] != le[l] {
      LESplit(n, k);
      LESplit(n, l);
      LECellsAt(n, c, k / n.x, k % n.x);
      LECellsAt(n, c, l / n.x, l % n.x);
      if k / n.x != l / n.x {
        WrapDistinct(c.z, n.z, k / n.x, l / n.x);
      }
    }
  }

  /**
    The start of the Lees-Edwards walk for a particle in `cell` with stored
    coordinates `cc`: x = 0 of the opposite y layer, one z layer down,
    wrapping to the top layer from z = 0.
  */
  method LEStart(n: Vec3, cell: int, cc: Vec3) returns (cellID: int, coords: Vec3)
    requires GridCounts(n) && InGrid(n, cc) && cell == CellId(n, cc) && OnYBoundary(n, cc)
    ensures coords == LECell(n, cc, 0, 0)
    ensures cellID == CellId(n, coords)
  {
    cellID := cell;
    coords := cc;
    // move to the bottom of x
    cellID := cellID - coords.x;
    coords := coords.(x := 0);
    // the y layer to scan
    if coords.y != 0 {
      MoveY(n, coords, n.y - 1);
      coords := coords.(y := 0);
      cellID := cellID - n.x * (n.y - 1);
    } else {
      MoveY(n, coords, n.y - 1);
      coords := coords.(y := n.y - 1);
      cellID := cellID + n.x * (n.y - 1);
    }
    // one z layer down, wrapping
    if coords.z != 0 {
      MoveZ(n, coords, 1);
      coords := coords.(z := coords.z - 1);
      cellID := cellID - n.x * n.y;
    } else {
      MoveZ(n, coords, n.z - 1);
      coords := coords.(z := n.z - 1);
      cellID := cellID + n.x * n.y * (n.z - 1);
    }
  }

  /**
    The walk of getExtraLEParticleNeighbourhood for a particle in `cell`
    with stored coordinates `cc`, which must be a y boundary cell: the
    cursor moves to x = 0 of the opposite y layer, one z layer down
    (wrapping), and then runs along x for three z layers, subtracting a
    period when z reaches the count.
  */
  method ExtraLEWalk(n: Vec3, cell: int, cc: Vec3) returns (visited: seq<int>)
    requires AtLeast(n, 2) && InGrid(n, cc) && cell == CellId(n, cc)
    requires OnYBoundary(n, cc)
    ensures visited == LECells(n, cc)
    ensures forall k :: 0 <= k < |visited| ==> 0 <= visited[k] < NumCells(n)
  {
    var cellID, coords := LEStart(n, cell, cc);
    var y, z0 := coords.y, coords.z;
    ghost var pos := coords;
    visited := [];
    var i := 0;
    while i < 3
      invariant 0 <= i <= 3
      invariant visited == LERows(n, cc, i)
      invariant pos == Vec3(0, y, z0 + i - (if z0 + i > n.z then n.z else 0))
      invariant cellID == CellId(n, pos)
    {
      if coords.z + i == n.z {
        MoveZ(n, pos, n.z);
        pos := pos.(z := pos.z - n.z);
        cellID := cellID - n.x * n.y * n.z;
      }
      WrapStep(cc.z, n.z, i);
      assert pos == LECell(n, cc, i, 0);
      ghost var rowStart := cellID;
      var j := 0;
      while j < n.x
        invariant 0 <= j <= n.x
        invariant visited == LERows(n, cc, i) + LERow(n, cc, i, j)
        invariant cellID == rowStart + j
      {
        LEVisit(n, cc, i, j);
        AppendLast(LERows(n, cc, i), LERow(n, cc, i, j), cellID);
        visited := visited + [cellID];
        cellID := cellID + 1;
        j := j + 1;
      }
      MoveZ(n, pos, 1);
      MulStep(n.x, n.y, 1);
      cellID := cellID + n.x * (n.y - 1);
      pos := pos.(z := pos.z + 1);
      i := i + 1;
    }
    LECellsAreStrip(n, cc);
  }
}

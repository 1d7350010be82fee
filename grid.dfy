/**
  Row-major numbering of the cells of a three-dimensional cell grid.

  A cell with coordinates (x, y, z) in a grid of n.x * n.y * n.z cells has
  the linear index x + n.x * (y + n.y * z); moving one cell along axis d
  changes the index by the stride of d, the product of the counts of the
  axes below it.  The cell list stores each cell's coordinates beside it;
  here they are the function CoordsOf.
*/
module CellGrid {

  /** An integer vector of the three axes (the source's CVector<int>). */
  datatype Vec3 = Vec3(x: int, y: int, z: int) {
    /** The component along axis d. */
    function At(d: int): int
      requires 0 <= d < 3
    {
      if d == 0 then x else if d == 1 then y else z
    }

    /** This vector with its component along axis d replaced by v. */
    function With(d: int, v: int): (r: Vec3)
      requires 0 <= d < 3
      ensures r.At(d) == v
    {
      if d == 0 then this.(x := v) else if d == 1 then this.(y := v) else this.(z := v)
    }
  }

  /** Cell counts of a three-dimensional grid, at least one cell per axis. */
  predicate GridCounts(n: Vec3) {
    n.x >= 1 && n.y >= 1 && n.z >= 1
  }

  /** Every axis has at least `m` cells. */
  predicate AtLeast(n: Vec3, m: int) {
    n.x >= m && n.y >= m && n.z >= m
  }

  function NumCells(n: Vec3): int {
    n.x * n.y * n.z
  }

  /** The product of the counts of the axes below `d` (the source's `cellpow`). */
  function Stride(n: Vec3, d: int): int
    requires 0 <= d <= 3
  {
    if d == 0 then 1 else Stride(n, d - 1) * n.At(d - 1)
  }

  /** Coordinates that name a cell of the grid. */
  predicate InGrid(n: Vec3, c: Vec3) {
    0 <= c.x < n.x && 0 <= c.y < n.y && 0 <= c.z < n.z
  }

  /** The linear index of the cell at `c` (the base cell list's getCellIDprebounded). */
  function CellId(n: Vec3, c: Vec3): int {
    c.x + n.x * (c.y + n.y * c.z)
  }

  /** The coordinates stored with cell `id`. */
  function CoordsOf(n: Vec3, id: int): (c: Vec3)
    requires GridCounts(n) && 0 <= id < NumCells(n)
    ensures InGrid(n, c) && CellId(n, c) == id
  {
    var y := id / n.x;
    DivBelow(id, n.x, n.y * n.z);
    DivBelow(y, n.y, n.z);
    Vec3(id % n.x, y % n.y, y / n.y)
  }

  /** Reduces `x` into [0, m) by at most one period (the in-loop wrap corrections). */
  function Wrap(x: int, m: int): int {
    if x < 0 then x + m else if x >= m then x - m else x
  }

  // ---------------------------------------------------------------------------
  // Arithmetic facts

  lemma MulAtLeast(a: int, m: int)
    requires a >= 1 && m > 0
    ensures a * m >= m
  {}

  /** Multiplication distributes over a step of `k`. */
  lemma MulStep(p: int, u: int, k: int)
    ensures p * (u + k) == p * u + p * k
    ensures p * (u - k) == p * u - p * k
  {}

  /** The quotient and remainder of Euclidean division are unique. */
  lemma DivModUnique(x: int, m: int, q: int, r: int)
    requires m > 0 && 0 <= r < m && x == q * m + r
    ensures x / m == q && x % m == r
  {
    var q', r' := x / m, x % m;
    assert (q' - q) * m == r - r';
    if q' > q {
      MulAtLeast(q' - q, m);
    } else if q' < q {
      MulAtLeast(q - q', m);
    }
  }

  /** Dividing an index below a * b by a gives an index below b. */
  lemma DivBelow(x: int, a: int, b: int)
    requires a > 0 && 0 <= x < a * b
    ensures 0 <= x / a < b
  {
    var q := x / a;
    assert a * q == a * b + (q - b) * a;
    if q >= b {
      MulAtLeast(q - b + 1, a);
    }
  }

  /** A single wrap correction is the modulus for values within one period of range. */
  lemma WrapIsMod(x: int, m: int)
    requires m > 0 && -m <= x < 2 * m
    ensures Wrap(x, m) == x % m
  {
    if x < 0 {
      DivModUnique(x, m, -1, x + m);
    } else if x >= m {
      DivModUnique(x, m, 1, x - m);
    } else {
      DivModUnique(x, m, 0, x);
    }
  }

  lemma StrideValues(n: Vec3)
    ensures Stride(n, 0) == 1 && Stride(n, 1) == n.x && Stride(n, 2) == n.x * n.y
    ensures Stride(n, 3) == NumCells(n)
  {}

  /** Moving k cells along axis d moves the linear index by k strides. */
  lemma ShiftId(n: Vec3, c: Vec3, d: int, k: int)
    requires 0 <= d < 3
    ensures CellId(n, c.With(d, c.At(d) + k)) == CellId(n, c) + Stride(n, d) * k
  {
    StrideValues(n);
    if d == 1 {
      assert n.x * (c.y + k + n.y * c.z) == n.x * (c.y + n.y * c.z) + n.x * k;
    } else if d == 2 {
      assert n.y * (c.z + k) == n.y * c.z + n.y * k;
      assert n.x * (c.y + n.y * (c.z + k)) == n.x * (c.y + n.y * c.z) + n.x * (n.y * k);
    }
  }

  /** A digit below m plus m times an index below k is an index below m * k. */
  lemma DigitBelow(r: int, q: int, m: int, k: int)
    requires 0 <= r < m && 0 <= q < k
    ensures 0 <= r + m * q < m * k
  {
    assert m * k == m * q + (k - q) * m;
    MulAtLeast(k - q, m);
  }

  /** Every cell of the grid has an index in [0, NumCells). */
  lemma {:induction false} CellIdInRange(n: Vec3, c: Vec3)
    requires GridCounts(n) && InGrid(n, c)
    ensures 0 <= CellId(n, c) < NumCells(n)
  {
    DigitBelow(c.y, c.z, n.y, n.z);
    DigitBelow(c.x, c.y + n.y * c.z, n.x, n.y * n.z);
    assert n.x * (n.y * n.z) == NumCells(n);
  }

  /** The stored coordinates of a cell are the ones its index was built from. */
  lemma {:induction false} CoordsOfCellId(n: Vec3, c: Vec3)
    requires GridCounts(n) && InGrid(n, c)
    ensures 0 <= CellId(n, c) < NumCells(n)
    ensures CoordsOf(n, CellId(n, c)) == c
  {
    CellIdInRange(n, c);
    var id := CellId(n, c);
    var inner := c.y + n.y * c.z;
    DivModUnique(id, n.x, inner, c.x);
    DivModUnique(inner, n.y, c.z, c.y);
  }

  /** Two cells of the grid with the same index are the same cell. */
  lemma CellIdInjective(n: Vec3, c: Vec3, e: Vec3)
    requires GridCounts(n) && InGrid(n, c) && InGrid(n, e)
    ensures CellId(n, c) == CellId(n, e) <==> c == e
  {
    CoordsOfCellId(n, c);
    CoordsOfCellId(n, e);
  }

  /**
    The stride loop the source runs before each walk: the product of the
    counts of the axes below `d`.
  */
  method CellPow(n: Vec3, d: int) returns (pow: int)
    requires GridCounts(n) && 0 <= d <= 3
    ensures pow == Stride(n, d)
    ensures pow >= 1
  {
    pow := 1;
    var iDim := 0;
    while iDim < d
      invariant 0 <= iDim <= d
      invariant pow == Stride(n, iDim)
      invariant pow >= 1
    {
      MulAtLeast(pow, n.At(iDim));
      pow := pow * n.At(iDim);
      iDim := iDim + 1;
    }
  }
}

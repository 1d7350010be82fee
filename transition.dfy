/**
  The destination of a cell crossing in the shearing cell list.

  A crossing is classified by its direction and the sign of the velocity
  (after the boundary condition is applied) into one of three cases: a
  wrap in y to the opposite boundary layer, where the shear moves the
  particle to an x cell computed from its predicted position (`xn` here);
  an entry into a boundary layer from the layer next to it; or an ordinary
  step of one cell along an axis with periodic wrap.  The methods compute
  the linear indices as the source does, with in-place corrections; the
  functions say independently, with Euclidean `%`, which cell that is.
*/
module ShearingTransition {
  import opened CellGrid
  import opened CellWalks

  /** A velocity; only the signs of its components are consulted here. */
  datatype Velocity = Velocity(x: real, y: real, z: real) {
    function At(d: int): real
      requires 0 <= d < 3
    {
      if d == 0 then x else if d == 1 then y else z
    }
  }

  datatype Crossing = YWrap | StripEntry | Interior

  /** The three-way case split of the crossing out of the cell at `c` along `dir`. */
  function Classify(n: Vec3, c: Vec3, dir: int, vel: Velocity): (r: Crossing)
    ensures dir != 1 ==> r == Interior
    ensures r == YWrap ==> OnYBoundary(n, c)
    ensures r == StripEntry ==> c.y == 1 || c.y == n.y - 2
  {
    if dir == 1 && c.y == (if vel.y < 0.0 then 0 else n.y - 1) then YWrap
    else if dir == 1 && c.y == (if vel.y < 0.0 then 1 else n.y - 2) then StripEntry
    else Interior
  }

  /** The direction of an ordinary step: +1 for a positive component, otherwise -1. */
  function Velsign(v: real): int {
    if v > 0.0 then 1 else -1
  }

  /** The cell `k` cells along `dir` from `c`, periodic in every axis. */
  function StepTarget(n: Vec3, c: Vec3, dir: int, k: int): (r: Vec3)
    requires GridCounts(n) && 0 <= dir < 3
    ensures r.At(dir) == (c.At(dir) + k) % n.At(dir)
  {
    c.With(dir, (c.At(dir) + k) % n.At(dir))
  }

  /**
    The coordinates of the cell the particle enters: only the coordinate
    along the crossing changes, apart from the sheared x of a y wrap.
  */
  function DestCoords(n: Vec3, c: Vec3, dir: int, vel: Velocity, xn: int): (r: Vec3)
    requires GridCounts(n) && 0 <= dir < 3
    ensures dir == 0 || Classify(n, c, dir, vel) == YWrap || r.x == c.x
    ensures dir == 1 || r.y == c.y
    ensures dir == 2 || r.z == c.z
  {
    match Classify(n, c, dir, vel)
    case YWrap => Vec3(xn, Opposite(n, c.y), c.z)
    case StripEntry => c.(y := if vel.y < 0.0 then 0 else n.y - 1)
    case Interior => StepTarget(n, c, dir, Velsign(vel.At(dir)))
  }

  /** The coordinates of the cell beyond the entered one, whose face holds the new neighbours. */
  function InCoords(n: Vec3, c: Vec3, dir: int, vel: Velocity): (r: Vec3)
    requires GridCounts(n) && 0 <= dir < 3
    ensures InGrid(n, c) ==> InGrid(n, r)
    ensures dir == 0 || r.x == c.x
    ensures dir == 1 || r.y == c.y
    ensures dir == 2 || r.z == c.z
  {
    StepTarget(n, c, dir, 2 * Velsign(vel.At(dir)))
  }

  // ---------------------------------------------------------------------------
  // Index computations

  /**
    A step of `k` cells along `dir` that leaves the grid by at most one
    period, corrected by `w` periods (`t` in index units), moves the index
    by `k` strides less `t`.
  */
  lemma StepIndex(n: Vec3, c: Vec3, dir: int, k: int, w: int, p: int, t: int)
    requires GridCounts(n) && 0 <= dir < 3 && InGrid(n, c)
    requires p == Stride(n, dir) && t == w * p * n.At(dir)
    requires (w == 0 && 0 <= c.At(dir) + k < n.At(dir)) ||
             (w == 1 && n.At(dir) <= c.At(dir) + k < 2 * n.At(dir)) ||
             (w == -1 && -n.At(dir) <= c.At(dir) + k < 0)
    ensures CellId(n, StepTarget(n, c, dir, k)) == CellId(n, c) + p * k - t
  {
    var m, x := n.At(dir), c.At(dir);
    var q := if w == 0 then k else if w == 1 then k - m else k + m;
    if w == 0 {
      DivModUnique(x + k, m, 0, x + k);
    } else if w == 1 {
      DivModUnique(x + k, m, 1, x + k - m);
    } else {
      DivModUnique(x + k, m, -1, x + k + m);
    }
    assert StepTarget(n, c, dir, k) == c.With(dir, x + q);
    ShiftId(n, c, dir, q);
    StepProduct(p, k, w, m);
  }

  /** The index correction of `w` periods of `m` cells of stride `p`, for w in {-1, 0, 1}. */
  lemma StepProduct(p: int, k: int, w: int, m: int)
    requires w == 0 || w == 1 || w == -1
    ensures p * (if w == 0 then k else if w == 1 then k - m else k + m) == p * k - w * p * m
  {
    if w == 1 {
      MulStep(p, k, m);
    } else if w == -1 {
      MulStep(p, k, -m);
    }
  }

  /**
    The old cell's index moved one and two cells along `dir`, each
    corrected by one period when it leaves the grid.
  */
  method InteriorCells(n: Vec3, oldCell: int, cc: Vec3, dir: int, vd: real) returns (endCell: int, inCell: int)
    requires AtLeast(n, 2) && InGrid(n, cc) && oldCell == CellId(n, cc) && 0 <= dir < 3
    ensures endCell == CellId(n, StepTarget(n, cc, dir, Velsign(vd)))
    ensures inCell == CellId(n, StepTarget(n, cc, dir, 2 * Velsign(vd)))
  {
    var cellpow := CellPow(n, dir);
    var velsign := 2 * (if vd > 0.0 then 1 else 0) - 1;
    var offset := (if vd > 0.0 then 1 else 0) * (n.At(dir) - 1);
    endCell := oldCell + cellpow * velsign;
    inCell := oldCell + 2 * cellpow * velsign;
    var tmpint := velsign * cellpow * n.At(dir);
    // the periods taken off each index, and the same in index units
    ghost var wEnd, wIn, tEnd, tIn := 0, 0, 0, 0;
    if cc.At(dir) == offset {
      endCell := endCell - tmpint;
      inCell := inCell - tmpint;
      wEnd, wIn, tEnd, tIn := velsign, velsign, tmpint, tmpint;
    } else if cc.At(dir) == offset - velsign {
      inCell := inCell - tmpint;
      wIn, tIn := velsign, tmpint;
    }
    StepIndex(n, cc, dir, velsign, wEnd, cellpow, tEnd);
    StepIndex(n, cc, dir, 2 * velsign, wIn, cellpow, tIn);
    assert 2 * cellpow * velsign == cellpow * (2 * velsign);
  }

  /**
    The y wrap: the x coordinate is replaced by `xn` and the y coordinate
    jumps across the grid to the opposite boundary layer.
  */
  method YWrapCell(n: Vec3, oldCell: int, cc: Vec3, vy: real, xn: int) returns (endCell: int)
    requires GridCounts(n) && InGrid(n, cc) && oldCell == CellId(n, cc)
    requires cc.y == (if vy < 0.0 then 0 else n.y - 1)
    ensures endCell == CellId(n, Vec3(xn, Opposite(n, cc.y), cc.z))
  {
    endCell := oldCell - cc.x;
    if vy < 0.0 {
      endCell := endCell + n.x * (n.y - 1);
      assert n.x * (n.y - 1 + n.y * cc.z) == n.x * (n.y * cc.z) + n.x * (n.y - 1);
    } else {
      endCell := endCell - n.x * (n.y - 1);
      assert n.x * (n.y - 1 + n.y * cc.z) == n.x * (n.y * cc.z) + n.x * (n.y - 1);
    }
    endCell := endCell + xn;
  }

  /** The entry into a boundary layer: one cell along y, with no wrap. */
  method StripCell(n: Vec3, oldCell: int, cc: Vec3, vy: real) returns (endCell: int)
    requires oldCell == CellId(n, cc)
    ensures endCell == CellId(n, cc.(y := cc.y + (if vy < 0.0 then -1 else 1)))
  {
    endCell := oldCell + n.x * (if vy < 0.0 then -1 else 1);
    MulStep(n.x, cc.y + n.y * cc.z, 1);
  }

  // ---------------------------------------------------------------------------
  // Properties of the destination

  /** The destination of an interior crossing is the cell one step along `dir`, in the grid. */
  lemma InteriorInGrid(n: Vec3, c: Vec3, dir: int, k: int)
    requires GridCounts(n) && InGrid(n, c) && 0 <= dir < 3
    ensures InGrid(n, StepTarget(n, c, dir, k))
    ensures forall d :: 0 <= d < 3 && d != dir ==> StepTarget(n, c, dir, k).At(d) == c.At(d)
  {}

  /** A y wrap lands on the opposite boundary layer, at x cell `xn` and the same z. */
  lemma {:induction false} YWrapLands(n: Vec3, c: Vec3, vel: Velocity, xn: int)
    requires GridCounts(n) && n.y >= 2 && InGrid(n, c) && Classify(n, c, 1, vel) == YWrap
    ensures var e := DestCoords(n, c, 1, vel, xn);
      e.x == xn && e.z == c.z &&
      (c.y == n.y - 1 ==> vel.y >= 0.0 && e.y == 0) &&
      (c.y == 0 ==> vel.y < 0.0 && e.y == n.y - 1)
  {}

  /** A strip entry moves one cell in y onto a boundary layer; x and z are kept. */
  lemma StripLands(n: Vec3, c: Vec3, vel: Velocity, xn: int)
    requires GridCounts(n) && InGrid(n, c) && Classify(n, c, 1, vel) == StripEntry
    ensures var e := DestCoords(n, c, 1, vel, xn);
      InGrid(n, e) && e.x == c.x && e.z == c.z && OnYBoundary(n, e) &&
      e == c.(y := c.y + (if vel.y < 0.0 then -1 else 1)) &&
      (vel.y < 0.0 ==> c.y == 1 && e.y == 0) &&
      (vel.y >= 0.0 ==> c.y == n.y - 2 && e.y == n.y - 1)
  {}

  /**
    An interior crossing in y with a non-zero velocity never wraps: both
    the entered cell and the one beyond it are plain steps.
  */
  lemma {:induction false} InteriorYNoWrap(n: Vec3, c: Vec3, vel: Velocity, xn: int)
    requires GridCounts(n) && InGrid(n, c) && Classify(n, c, 1, vel) == Interior && vel.y != 0.0
    ensures DestCoords(n, c, 1, vel, xn) == c.(y := c.y + Velsign(vel.y))
    ensures InCoords(n, c, 1, vel) == c.(y := c.y + 2 * Velsign(vel.y))
  {
    var s := Velsign(vel.y);
    DivModUnique(c.y + s, n.y, 0, c.y + s);
    DivModUnique(c.y + 2 * s, n.y, 0, c.y + 2 * s);
  }

  /**
    An interior crossing other than in y keeps the y coordinate, so a
    particle on a y boundary layer stays on it.
  */
  lemma InteriorKeepsY(n: Vec3, c: Vec3, dir: int, vel: Velocity, xn: int)
    requires GridCounts(n) && 0 <= dir < 3 && dir != 1
    ensures Classify(n, c, dir, vel) == Interior
    ensures DestCoords(n, c, dir, vel, xn).y == c.y
  {}

  /** Every crossing out of a grid cell enters a grid cell, given an x cell in range. */
  lemma DestInGrid(n: Vec3, c: Vec3, dir: int, vel: Velocity, xn: int)
    requires AtLeast(n, 2) && InGrid(n, c) && 0 <= dir < 3 && 0 <= xn < n.x
    ensures InGrid(n, DestCoords(n, c, dir, vel, xn))
  {
    if Classify(n, c, dir, vel) == Interior {
      InteriorInGrid(n, c, dir, Velsign(vel.At(dir)));
    }
  }

  /**
    With at least three cells along `dir`, the cell whose face is walked is
    one step beyond the entered cell, and differs from it.
  */
  lemma {:induction false} InCellBeyond(n: Vec3, c: Vec3, dir: int, vel: Velocity)
    requires AtLeast(n, 3) && InGrid(n, c) && 0 <= dir < 3
    ensures var s := Velsign(vel.At(dir));
      InCoords(n, c, dir, vel) == StepTarget(n, StepTarget(n, c, dir, s), dir, s) &&
      InCoords(n, c, dir, vel).At(dir) != StepTarget(n, c, dir, s).At(dir)
  {
    var s, m, x := Velsign(vel.At(dir)), n.At(dir), c.At(dir);
    var e := (x + s) % m;
    WrapIsMod(x + s, m);
    WrapIsMod(e + s, m);
    WrapIsMod(x + 2 * s, m);
  }
}

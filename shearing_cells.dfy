/**
  The shearing cell list: the cell of every particle, the member list and
  the local objects of every cell, and the record of what a cell crossing
  does.

  The scheduler calls, the notifications to the registered neighbour, local
  and cell-change callbacks, and the cell-list operations of the base class
  are recorded as Actions in `trace`, in the order they happen.
*/
module ShearingCells {
  import opened CellGrid
  import opened CellWalks
  import opened ShearingTransition

  /** One effect of the cell list on the rest of the simulation. */
  datatype Action =
    | Remove(p: nat)                  // removeFromCell
    | Add(p: nat, cell: int)          // addToCell
    | PopNext                         // the scheduler drops the event being run
    | BaseNeighbourhood(p: nat)       // the base cell list's own neighbourhood scan
    | NewNeighbour(p: nat, q: nat)    // new-neighbour callback for the pair (p, q)
    | NewLocal(p: nat, local: nat)    // new-local callback for p and a local object
    | Push(p: nat)                    // the scheduler receives p's next cell event
    | Sort(p: nat)                    // the scheduler re-sorts p
    | CellChange(p: nat, oldCell: int) // cell-changed callback with the cell left

  datatype ConfigError = NotLeesEdwards | Overlinked

  datatype Outcome = Ok | Failed(error: ConfigError)

  /**
    The checks of initialise: the shearing list needs Lees-Edwards boundary
    conditions and an overlink of one; the boundary check comes first.
  */
  function CheckConfig(leesEdwards: bool, overlink: int): (r: Outcome)
    ensures r == Ok <==> leesEdwards && overlink == 1
    ensures !leesEdwards ==> r == Failed(NotLeesEdwards)
    ensures leesEdwards && overlink != 1 ==> r == Failed(Overlinked)
  {
    if !leesEdwards then Failed(NotLeesEdwards)
    else if overlink != 1 then Failed(Overlinked)
    else Ok
  }

  /**
    The member lists agree with the cell of every particle: a particle is
    listed in a cell exactly when that is its cell.
  */
  ghost predicate Consistent(n: Vec3, cellOf: seq<int>, members: seq<seq<nat>>) {
    |members| == NumCells(n) &&
    (forall p :: 0 <= p < |cellOf| ==> 0 <= cellOf[p] < NumCells(n)) &&
    (forall c :: 0 <= c < |members| ==> forall q :: q in members[c] ==> q < |cellOf| && cellOf[q] == c) &&
    (forall q :: 0 <= q < |cellOf| ==> q in members[cellOf[q]])
  }

  /** A member list with `p` unlinked. */
  function Without(s: seq<nat>, p: nat): (r: seq<nat>)
    ensures forall q :: q in r <==> q in s && q != p
  {
    if s == [] then []
    else if s[0] == p then Without(s[1..], p)
    else [s[0]] + Without(s[1..], p)
  }

  /** The member lists after p moves from cell `o` to the head of cell `e`'s list. */
  function Moved(members: seq<seq<nat>>, o: int, p: nat, e: int): seq<seq<nat>>
    requires 0 <= o < |members| && 0 <= e < |members|
  {
    var unlinked := members[o := Without(members[o], p)];
    unlinked[e := [p] + unlinked[e]]
  }

  /** The new-neighbour notifications for the members `qs` of one cell, in list order. */
  function MemberNotes(p: nat, qs: seq<nat>, skipSelf: bool): seq<Action> {
    if qs == [] then []
    else
      var last := qs[|qs| - 1];
      MemberNotes(p, qs[..|qs| - 1], skipSelf) + (if skipSelf && last == p then [] else [NewNeighbour(p, last)])
  }

  /** The notifications for one cell name p and exactly the members of the cell (p itself excepted when skipping). */
  lemma {:induction false} MemberNotesAre(p: nat, qs: seq<nat>, skipSelf: bool)
    ensures forall a :: a in MemberNotes(p, qs, skipSelf) <==>
              a.NewNeighbour? && a.p == p && a.q in qs && (!skipSelf || a.q != p)
  {
    if qs != [] {
      var last := qs[|qs| - 1];
      assert qs == qs[..|qs| - 1] + [last];
      MemberNotesAre(p, qs[..|qs| - 1], skipSelf);
    }
  }

  /** Some cell of `cells` lists q. */
  ghost predicate Listed(members: seq<seq<nat>>, cells: seq<int>, q: nat)
    requires forall k :: 0 <= k < |cells| ==> 0 <= cells[k] < |members|
  {
    exists k :: 0 <= k < |cells| && q in members[cells[k]]
  }

  /** The new-neighbour notifications for the members of `cells`, cell by cell. */
  function CellNotes(members: seq<seq<nat>>, p: nat, cells: seq<int>, skipSelf: bool): seq<Action>
    requires forall k :: 0 <= k < |cells| ==> 0 <= cells[k] < |members|
  {
    if cells == [] then []
    else CellNotes(members, p, cells[..|cells| - 1], skipSelf) + MemberNotes(p, members[cells[|cells| - 1]], skipSelf)
  }

  /**
    The notifications for a sequence of cells name p and exactly the
    particles listed in one of the cells (p itself excepted when skipping).
  */
  lemma {:induction false} CellNotesAre(members: seq<seq<nat>>, p: nat, cells: seq<int>, skipSelf: bool)
    requires forall k :: 0 <= k < |cells| ==> 0 <= cells[k] < |members|
    ensures forall a :: a in CellNotes(members, p, cells, skipSelf) <==>
              a.NewNeighbour? && a.p == p && (!skipSelf || a.q != p) && Listed(members, cells, a.q)
  {
    if cells != [] {
      CellNotesAre(members, p, cells[..|cells| - 1], skipSelf);
      MemberNotesAre(p, members[cells[|cells| - 1]], skipSelf);
      ListedSplit(members, cells);
    }
  }

  lemma ListedSplit(members: seq<seq<nat>>, cells: seq<int>)
    requires |cells| > 0 && forall k :: 0 <= k < |cells| ==> 0 <= cells[k] < |members|
    ensures forall q: nat :: Listed(members, cells, q) <==>
              Listed(members, cells[..|cells| - 1], q) || q in members[cells[|cells| - 1]]
  {
    var init := cells[..|cells| - 1];
    forall q: nat | Listed(members, cells, q)
      ensures Listed(members, init, q) || q in members[cells[|cells| - 1]]
    {
      var k :| 0 <= k < |cells| && q in members[cells[k]];
      if k < |init| {
        assert init[k] == cells[k];
      }
    }
    forall q: nat | Listed(members, init, q)
      ensures Listed(members, cells, q)
    {
      var k :| 0 <= k < |init| && q in members[init[k]];
      assert cells[k] == init[k];
    }
  }

  /** The new-local notifications for the local objects of a cell, in order. */
  function LocalNotes(p: nat, locals: seq<nat>): (r: seq<Action>)
    ensures |r| == |locals|
    ensures forall k :: 0 <= k < |r| ==> r[k] == NewLocal(p, locals[k])
  {
    if locals == [] then [] else LocalNotes(p, locals[..|locals| - 1]) + [NewLocal(p, locals[|locals| - 1])]
  }

  /** What the Lees-Edwards walk reports for p in the cell at `c`: every other particle of the opposite strip. */
  function LENotes(n: Vec3, members: seq<seq<nat>>, c: Vec3, p: nat): seq<Action>
    requires AtLeast(n, 2) && |members| == NumCells(n) && InGrid(n, c)
  {
    LECellsAreStrip(n, c);
    CellNotes(members, p, LECells(n, c), true)
  }

  /** What getParticleNeighbourhood reports for p in the cell at `c`: the base scan, then the strip on a y boundary layer. */
  function NeighbourhoodNotes(n: Vec3, members: seq<seq<nat>>, c: Vec3, p: nat): seq<Action>
    requires AtLeast(n, 2) && |members| == NumCells(n) && InGrid(n, c)
  {
    [BaseNeighbourhood(p)] + (if OnYBoundary(n, c) then LENotes(n, members, c, p) else [])
  }

  /** What the face walk around the cell at `ic` reports: every particle of the nine face cells. */
  function FaceNotes(n: Vec3, members: seq<seq<nat>>, ic: Vec3, dir: int, p: nat): seq<Action>
    requires AtLeast(n, 2) && |members| == NumCells(n) && InGrid(n, ic) && 0 <= dir < 3
  {
    FaceCellsAreFace(n, ic, dir);
    CellNotes(members, p, FaceCells(n, ic, dir), false)
  }

  /**
    The neighbour notifications of a crossing out of the cell at `oc` into
    the cell at `ec`, with `ic` the cell beyond, given the new member lists.
  */
  function NewNotes(n: Vec3, members: seq<seq<nat>>, oc: Vec3, dir: int, vel: Velocity,
                    ec: Vec3, ic: Vec3, p: nat): seq<Action>
    requires AtLeast(n, 2) && |members| == NumCells(n) && 0 <= dir < 3 && InGrid(n, ec) && InGrid(n, ic)
  {
    match Classify(n, oc, dir, vel)
    case YWrap => NeighbourhoodNotes(n, members, ec, p)
    case StripEntry => LENotes(n, members, ec, p)
    case Interior =>
      (if dir == 2 && OnYBoundary(n, oc) then LENotes(n, members, ec, p) else []) +
      FaceNotes(n, members, ic, dir, p)
  }

  /**
    Everything a crossing of p out of `oldCell` (coordinates `oc`) into
    cell `endCell` (coordinates `ec`) does, in order.
  */
  function EventTrace(n: Vec3, members: seq<seq<nat>>, locals: seq<seq<nat>>, p: nat, oldCell: int, oc: Vec3,
                      dir: int, vel: Velocity, endCell: int, ec: Vec3, ic: Vec3): seq<Action>
    requires AtLeast(n, 2) && |members| == NumCells(n) && |locals| == NumCells(n) && 0 <= dir < 3
    requires 0 <= endCell < NumCells(n) && InGrid(n, ec) && InGrid(n, ic)
  {
    [Remove(p), Add(p, endCell), PopNext] + NewNotes(n, members, oc, dir, vel, ec, ic, p) +
    LocalNotes(p, locals[endCell]) + [Push(p), Sort(p), CellChange(p, oldCell)]
  }

  /** Every cell stores the coordinates its index was built from. */
  ghost predicate StoredCoords(n: Vec3, coords: seq<Vec3>) {
    |coords| == NumCells(n) && forall c :: 0 <= c < |coords| ==> InGrid(n, coords[c]) && CellId(n, coords[c]) == c
  }

  /** The stored coordinates of the cell of a grid point are that point. */
  lemma StoredAt(n: Vec3, coords: seq<Vec3>, x: Vec3)
    requires GridCounts(n) && StoredCoords(n, coords) && InGrid(n, x)
    ensures 0 <= CellId(n, x) < NumCells(n) && coords[CellId(n, x)] == x
  {
    CellIdInRange(n, x);
    CellIdInjective(n, coords[CellId(n, x)], x);
  }

  // ---------------------------------------------------------------------------
  // The state

  class ShearingCellList {
    var id: nat
    /** The counts of cells along x, y and z. */
    var n: Vec3
    /** The stored coordinates of every cell. */
    var coords: seq<Vec3>
    /** The cell of every particle. */
    var cellOf: seq<int>
    /** The member list of every cell, head first. */
    var members: seq<seq<nat>>
    /** The local objects of every cell. */
    var locals: seq<seq<nat>>
    /** The effects on the scheduler, the callbacks and the base list so far. */
    var trace: seq<Action>

    ghost predicate Valid()
      reads this
    {
      AtLeast(n, 2) && StoredCoords(n, coords) && |locals| == NumCells(n) && Consistent(n, cellOf, members)
    }

    constructor (n: Vec3, coords: seq<Vec3>, cellOf: seq<int>, members: seq<seq<nat>>, locals: seq<seq<nat>>)
      requires AtLeast(n, 2) && StoredCoords(n, coords) && |locals| == NumCells(n) && Consistent(n, cellOf, members)
      ensures Valid() && trace == []
      ensures this.n == n && this.coords == coords && this.cellOf == cellOf
      ensures this.members == members && this.locals == locals
    {
      id := 0;
      this.n := n;
      this.coords := coords;
      this.cellOf := cellOf;
      this.members := members;
      this.locals := locals;
      trace := [];
    }

    /** initialise: record the identifier, then check the configuration. */
    method Initialise(nID: nat, leesEdwards: bool, overlink: int) returns (r: Outcome)
      modifies this
      ensures n == old(n) && coords == old(coords) && cellOf == old(cellOf) && members == old(members)
      ensures locals == old(locals) && trace == old(trace)
      ensures id == nID
      ensures r == CheckConfig(leesEdwards, overlink)
    {
      id := nID;
      if !leesEdwards {
        return Failed(NotLeesEdwards);
      }
      if overlink != 1 {
        return Failed(Overlinked);
      }
      r := Ok;
    }

    /** removeFromCell followed by addToCell: unlink p, then put it at the head of cell `e`. */
    method Relocate(p: nat, e: int)
      requires Valid() && p < |cellOf| && 0 <= e < NumCells(n)
      modifies this
      ensures n == old(n) && coords == old(coords) && locals == old(locals) && id == old(id)
      ensures Valid()
      ensures cellOf == old(cellOf)[p := e]
      ensures members == Moved(old(members), old(cellOf[p]), p, e)
      ensures trace == old(trace) + [Remove(p), Add(p, e)]
    {
      var o := cellOf[p];
      members := members[o := Without(members[o], p)];
      trace := trace + [Remove(p)];
      members := members[e := [p] + members[e]];
      cellOf := cellOf[p := e];
      trace := trace + [Add(p, e)];
    }

    /** The traversal of the member lists of `cells`, notifying each member (other than p when `skipSelf`). */
    method NotifyNeighbours(p: nat, cells: seq<int>, skipSelf: bool)
      requires forall k :: 0 <= k < |cells| ==> 0 <= cells[k] < |members|
      modifies this
      ensures n == old(n) && coords == old(coords) && cellOf == old(cellOf) && members == old(members) && locals == old(locals) && id == old(id)
      ensures trace == old(trace) + CellNotes(members, p, cells, skipSelf)
    {
      var k := 0;
      while k < |cells|
        invariant 0 <= k <= |cells|
        invariant n == old(n) && coords == old(coords) && cellOf == old(cellOf) && members == old(members) && locals == old(locals) && id == old(id)
        invariant trace == old(trace) + CellNotes(members, p, cells[..k], skipSelf)
      {
        NotifyMembers(p, members[cells[k]], skipSelf);
        assert cells[..k + 1][..k] == cells[..k];
        assert trace == old(trace) + CellNotes(members, p, cells[..k], skipSelf) + MemberNotes(p, members[cells[k]], skipSelf);
        k := k + 1;
      }
      assert cells[..k] == cells;
    }

    /** The traversal of one cell's member list `list`, notifying each member (other than p when `skipSelf`). */
    method NotifyMembers(p: nat, list: seq<nat>, skipSelf: bool)
      modifies this
      ensures n == old(n) && coords == old(coords) && cellOf == old(cellOf) && members == old(members) && locals == old(locals) && id == old(id)
      ensures trace == old(trace) + MemberNotes(p, list, skipSelf)
    {
      var j := 0;
      while j < |list|
        invariant 0 <= j <= |list|
        invariant n == old(n) && coords == old(coords) && cellOf == old(cellOf) && members == old(members) && locals == old(locals) && id == old(id)
        invariant trace == old(trace) + MemberNotes(p, list[..j], skipSelf)
      {
        var next := list[j];
        assert list[..j + 1][..j] == list[..j];
        if !skipSelf || next != p {
          trace := trace + [NewNeighbour(p, next)];
        }
        j := j + 1;
      }
      assert list[..j] == list;
    }

    /** The new-local notifications for the local objects of `cell`. */
    method NotifyLocals(p: nat, cell: int)
      requires 0 <= cell < |locals|
      modifies this
      ensures n == old(n) && coords == old(coords) && cellOf == old(cellOf) && members == old(members) && locals == old(locals) && id == old(id)
      ensures trace == old(trace) + LocalNotes(p, locals[cell])
    {
      var ls := locals[cell];
      var k := 0;
      while k < |ls|
        invariant 0 <= k <= |ls|
        invariant n == old(n) && coords == old(coords) && cellOf == old(cellOf) && members == old(members) && locals == old(locals) && id == old(id)
        invariant trace == old(trace) + LocalNotes(p, ls[..k])
      {
        assert ls[..k + 1][..k] == ls[..k];
        trace := trace + [NewLocal(p, ls[k])];
        k := k + 1;
      }
      assert ls[..k] == ls;
    }

    /** getExtraLEParticleNeighbourhood for p, which must be on a y boundary layer. */
    method ExtraLENeighbourhood(p: nat)
      requires Valid() && p < |cellOf| && OnYBoundary(n, coords[cellOf[p]])
      modifies this
      ensures n == old(n) && coords == old(coords) && cellOf == old(cellOf) && members == old(members) && locals == old(locals) && id == old(id)
      ensures trace == old(trace) + LENotes(n, members, coords[cellOf[p]], p)
    {
      var cell := cellOf[p];
      var cc := coords[cell];
      var visited := ExtraLEWalk(n, cell, cc);
      NotifyNeighbours(p, visited, true);
    }

    /** getParticleNeighbourhood for p: the base scan, and the strip when p is on a y boundary layer. */
    method ParticleNeighbourhood(p: nat)
      requires Valid() && p < |cellOf|
      modifies this
      ensures n == old(n) && coords == old(coords) && cellOf == old(cellOf) && members == old(members) && locals == old(locals) && id == old(id)
      ensures trace == old(trace) + NeighbourhoodNotes(n, members, coords[cellOf[p]], p)
    {
      trace := trace + [BaseNeighbourhood(p)];
      var c := coords[cellOf[p]];
      if c.y == 0 || c.y == n.y - 1 {
        ExtraLENeighbourhood(p);
      }
    }

    /** The y-wrap case of runEvent: move p to the sheared image's cell and scan its whole neighbourhood. */
    method YWrapEvent(p: nat, oldCell: int, cc: Vec3, vy: real, xn: int) returns (endCell: int)
      requires Valid() && p < |cellOf| && oldCell == cellOf[p] && cc == coords[oldCell]
      requires cc.y == (if vy < 0.0 then 0 else n.y - 1) && 0 <= xn < n.x
      modifies this
      ensures n == old(n) && coords == old(coords) && locals == old(locals) && id == old(id)
      ensures Valid()
      ensures InGrid(n, Vec3(xn, Opposite(n, cc.y), cc.z)) && endCell == CellId(n, Vec3(xn, Opposite(n, cc.y), cc.z))
      ensures 0 <= endCell < NumCells(n) && coords[endCell] == Vec3(xn, Opposite(n, cc.y), cc.z)
      ensures cellOf == old(cellOf)[p := endCell] && members == Moved(old(members), oldCell, p, endCell)
      ensures trace == old(trace) + ([Remove(p), Add(p, endCell), PopNext] +
                                     NeighbourhoodNotes(n, members, Vec3(xn, Opposite(n, cc.y), cc.z), p))
    {
      endCell := YWrapCell(n, oldCell, cc, vy, xn);
      StoredAt(n, coords, Vec3(xn, Opposite(n, cc.y), cc.z));
      ghost var t0 := trace;
      Relocate(p, endCell);
      trace := trace + [PopNext];
      ghost var t1 := trace;
      assert t1 == t0 + [Remove(p), Add(p, endCell), PopNext];
      ParticleNeighbourhood(p);
      AppendTwo(t0, [Remove(p), Add(p, endCell), PopNext], NeighbourhoodNotes(n, members, coords[endCell], p));
    }

    /** The strip-entry case of runEvent: one cell along y, then the strip across the boundary. */
    method StripEvent(p: nat, oldCell: int, cc: Vec3, vel: Velocity) returns (endCell: int)
      requires Valid() && p < |cellOf| && oldCell == cellOf[p] && cc == coords[oldCell]
      requires Classify(n, cc, 1, vel) == StripEntry
      modifies this
      ensures n == old(n) && coords == old(coords) && locals == old(locals) && id == old(id)
      ensures Valid()
      ensures var ec := cc.(y := cc.y + (if vel.y < 0.0 then -1 else 1));
        InGrid(n, ec) && endCell == CellId(n, ec) && 0 <= endCell < NumCells(n) && coords[endCell] == ec &&
        cellOf == old(cellOf)[p := endCell] && members == Moved(old(members), oldCell, p, endCell) &&
        trace == old(trace) + ([Remove(p), Add(p, endCell), PopNext] + LENotes(n, members, ec, p))
    {
      endCell := StripCell(n, oldCell, cc, vel.y);
      StripLands(n, cc, vel, 0);
      StoredAt(n, coords, cc.(y := cc.y + (if vel.y < 0.0 then -1 else 1)));
      ghost var t0 := trace;
      Relocate(p, endCell);
      trace := trace + [PopNext];
      ghost var t1 := trace;
      assert t1 == t0 + [Remove(p), Add(p, endCell), PopNext];
      ExtraLENeighbourhood(p);
      AppendTwo(t0, [Remove(p), Add(p, endCell), PopNext], LENotes(n, members, coords[endCell], p));
    }

    /**
      The interior case of runEvent: one cell along `dir`, the strip when a
      z step runs along a y boundary layer, then the face walk beyond.
    */
    method InteriorEvent(p: nat, oldCell: int, cc: Vec3, dir: int, vel: Velocity) returns (endCell: int, inCell: int)
      requires Valid() && p < |cellOf| && oldCell == cellOf[p] && cc == coords[oldCell] && 0 <= dir < 3
      modifies this
      ensures n == old(n) && coords == old(coords) && locals == old(locals) && id == old(id)
      ensures Valid()
      ensures var ec, ic := StepTarget(n, cc, dir, Velsign(vel.At(dir))), InCoords(n, cc, dir, vel);
        InGrid(n, ec) && InGrid(n, ic) && endCell == CellId(n, ec) && inCell == CellId(n, ic) &&
        0 <= endCell < NumCells(n) && 0 <= inCell < NumCells(n) && coords[endCell] == ec && coords[inCell] == ic &&
        cellOf == old(cellOf)[p := endCell] && members == Moved(old(members), oldCell, p, endCell) &&
        trace == old(trace) + ([Remove(p), Add(p, endCell), PopNext] +
                 ((if dir == 2 && OnYBoundary(n, cc) then LENotes(n, members, ec, p) else []) +
                  FaceNotes(n, members, ic, dir, p)))
    {
      endCell, inCell := InteriorCells(n, oldCell, cc, dir, vel.At(dir));
      ghost var ec, ic := StepTarget(n, cc, dir, Velsign(vel.At(dir))), InCoords(n, cc, dir, vel);
      InteriorInGrid(n, cc, dir, Velsign(vel.At(dir)));
      InteriorInGrid(n, cc, dir, 2 * Velsign(vel.At(dir)));
      StoredAt(n, coords, ec);
      StoredAt(n, coords, ic);
      ghost var t0 := trace;
      Relocate(p, endCell);
      trace := trace + [PopNext];
      ghost var t1 := trace;
      assert t1 == t0 + [Remove(p), Add(p, endCell), PopNext];
      ghost var le: seq<Action> := [];
      if dir == 2 && (cc.y == 0 || cc.y == n.y - 1) {
        // a z step along a boundary layer: the strip across the boundary shifts
        assert coords[cellOf[p]] == ec && ec.y == cc.y;
        ExtraLENeighbourhood(p);
        le := LENotes(n, members, ec, p);
      }
      assert trace == t1 + le;
      var visited := FaceWalk(n, coords[inCell], dir);
      NotifyNeighbours(p, visited, false);
      ghost var face := FaceNotes(n, members, ic, dir, p);
      assert trace == t1 + le + face;
      AppendNested(t0, [Remove(p), Add(p, endCell), PopNext], le, face);
    }

    /**
      runEvent: the cell crossing of p out of its cell along `dir`, with
      velocity `vel` (after the boundary condition) and, for a y wrap, the
      x cell `xn` of the sheared image.
    */
    method RunEvent(p: nat, dir: int, vel: Velocity, xn: int)
      requires Valid() && p < |cellOf| && 0 <= dir < 3 && 0 <= xn < n.x
      modifies this
      ensures n == old(n) && coords == old(coords) && locals == old(locals) && id == old(id)
      ensures Valid()
      ensures var oc := coords[old(cellOf[p])];
        var ec, ic := DestCoords(n, oc, dir, vel, xn), InCoords(n, oc, dir, vel);
        InGrid(n, ec) && InGrid(n, ic) && 0 <= CellId(n, ec) < NumCells(n) &&
        cellOf == old(cellOf)[p := CellId(n, ec)] &&
        members == Moved(old(members), old(cellOf[p]), p, CellId(n, ec)) &&
        trace == old(trace) + EventTrace(n, members, locals, p, old(cellOf[p]), oc, dir, vel, CellId(n, ec), ec, ic)
    {
      var oldCell := cellOf[p];
      var cc := coords[oldCell];
      DestInGrid(n, cc, dir, vel, xn);
      InteriorInGrid(n, cc, dir, 2 * Velsign(vel.At(dir)));
      CellIdInRange(n, DestCoords(n, cc, dir, vel, xn));
      ghost var ec := DestCoords(n, cc, dir, vel, xn);
      ghost var ic := InCoords(n, cc, dir, vel);
      ghost var t0 := trace;
      var endCell: int;
      if dir == 1 && cc.y == (if vel.y < 0.0 then 0 else n.y - 1) {
        endCell := YWrapEvent(p, oldCell, cc, vel.y, xn);
      } else if dir == 1 && cc.y == (if vel.y < 0.0 then 1 else n.y - 2) {
        endCell := StripEvent(p, oldCell, cc, vel);
      } else {
        var inCell;
        endCell, inCell := InteriorEvent(p, oldCell, cc, dir, vel);
      }
      ghost var head := [Remove(p), Add(p, endCell), PopNext] + NewNotes(n, members, cc, dir, vel, ec, ic, p);
      assert trace == t0 + head;
      NotifyLocals(p, endCell);
      trace := trace + [Push(p), Sort(p), CellChange(p, oldCell)];
      AppendThree(t0, head, LocalNotes(p, locals[endCell]), [Push(p), Sort(p), CellChange(p, oldCell)]);
    }
  }

  lemma AppendTwo<T>(t: seq<T>, a: seq<T>, b: seq<T>)
    ensures t + a + b == t + (a + b)
  {}

  lemma AppendThree<T>(t: seq<T>, a: seq<T>, b: seq<T>, c: seq<T>)
    ensures t + a + b + c == t + (a + b + c)
  {}

  lemma AppendNested<T>(t: seq<T>, a: seq<T>, b: seq<T>, c: seq<T>)
    ensures t + a + b + c == t + (a + (b + c))
  {}

  // ---------------------------------------------------------------------------
  // Properties of a crossing

  /**
    A crossing unlinks and adds the particle once each, then drops the
    scheduler's event; it ends with the push, the re-sort and the
    cell-changed callback with the old cell; everything between is a
    neighbourhood scan or a notification.
  */
  lemma {:induction false} EventTraceShape(n: Vec3, members: seq<seq<nat>>, locals: seq<seq<nat>>, p: nat,
                                           oldCell: int, oc: Vec3, dir: int, vel: Velocity, e: int, ec: Vec3, ic: Vec3)
    requires AtLeast(n, 2) && |members| == NumCells(n) && |locals| == NumCells(n) && 0 <= dir < 3
    requires 0 <= e < NumCells(n) && InGrid(n, ec) && InGrid(n, ic)
    ensures var t := EventTrace(n, members, locals, p, oldCell, oc, dir, vel, e, ec, ic);
      |t| >= 6 && t[..3] == [Remove(p), Add(p, e), PopNext] &&
      t[|t| - 3..] == [Push(p), Sort(p), CellChange(p, oldCell)] &&
      forall k :: 3 <= k < |t| - 3 ==> t[k].NewNeighbour? || t[k].BaseNeighbourhood? || t[k].NewLocal?
  {
    var nn := NewNotes(n, members, oc, dir, vel, ec, ic, p);
    var ln := LocalNotes(p, locals[e]);
    var t := EventTrace(n, members, locals, p, oldCell, oc, dir, vel, e, ec, ic);
    NewNotesKinds(n, members, oc, dir, vel, ec, ic, p);
    assert t == [Remove(p), Add(p, e), PopNext] + nn + ln + [Push(p), Sort(p), CellChange(p, oldCell)];
    forall k | 3 <= k < |t| - 3
      ensures t[k].NewNeighbour? || t[k].BaseNeighbourhood? || t[k].NewLocal?
    {
      if k < 3 + |nn| {
        assert t[k] == nn[k - 3];
        assert nn[k - 3] in nn;
      } else {
        assert t[k] == ln[k - 3 - |nn|];
      }
    }
  }

  /** The neighbour part of a crossing holds only neighbourhood scans and new-neighbour notifications for p. */
  lemma NewNotesKinds(n: Vec3, members: seq<seq<nat>>, oc: Vec3, dir: int, vel: Velocity, ec: Vec3, ic: Vec3, p: nat)
    requires AtLeast(n, 2) && |members| == NumCells(n) && 0 <= dir < 3 && InGrid(n, ec) && InGrid(n, ic)
    ensures forall a :: a in NewNotes(n, members, oc, dir, vel, ec, ic, p) ==>
              (a.NewNeighbour? && a.p == p) || a == BaseNeighbourhood(p)
  {
    LECellsAreStrip(n, ec);
    FaceCellsAreFace(n, ic, dir);
    CellNotesAre(members, p, LECells(n, ec), true);
    CellNotesAre(members, p, FaceCells(n, ic, dir), false);
  }

  /** The new-local notifications of a crossing are exactly those for the locals of the entered cell, in order. */
  lemma {:induction false} EventTraceLocals(n: Vec3, members: seq<seq<nat>>, locals: seq<seq<nat>>, p: nat,
                                            oldCell: int, oc: Vec3, dir: int, vel: Velocity, e: int, ec: Vec3, ic: Vec3)
    requires AtLeast(n, 2) && |members| == NumCells(n) && |locals| == NumCells(n) && 0 <= dir < 3
    requires 0 <= e < NumCells(n) && InGrid(n, ec) && InGrid(n, ic)
    ensures var t, ls := EventTrace(n, members, locals, p, oldCell, oc, dir, vel, e, ec, ic), locals[e];
      |t| >= |ls| + 3 &&
      t[|t| - 3 - |ls|..|t| - 3] == LocalNotes(p, ls) &&
      forall k :: 0 <= k < |t| - 3 - |ls| ==> !t[k].NewLocal?
  {
    var nn := NewNotes(n, members, oc, dir, vel, ec, ic, p);
    var ln := LocalNotes(p, locals[e]);
    var t := EventTrace(n, members, locals, p, oldCell, oc, dir, vel, e, ec, ic);
    NewNotesKinds(n, members, oc, dir, vel, ec, ic, p);
    var head := [Remove(p), Add(p, e), PopNext] + nn;
    assert t == head + ln + [Push(p), Sort(p), CellChange(p, oldCell)];
    assert t[|head|..|head| + |ln|] == ln;
    forall k | 0 <= k < |head|
      ensures !t[k].NewLocal?
    {
      assert t[k] == head[k];
      if k >= 3 {
        assert head[k] == nn[k - 3];
        assert nn[k - 3] in nn;
      }
    }
  }

  /** With consistent member lists, a particle is listed in one of `cells` exactly when its cell is one of them. */
  lemma ListedIsCell(n: Vec3, cellOf: seq<int>, members: seq<seq<nat>>, cells: seq<int>, q: nat)
    requires Consistent(n, cellOf, members) && forall k :: 0 <= k < |cells| ==> 0 <= cells[k] < |members|
    ensures Listed(members, cells, q) <==> q < |cellOf| && cellOf[q] in cells
  {
    if Listed(members, cells, q) {
      var k :| 0 <= k < |cells| && q in members[cells[k]];
      assert cells[k] in cells;
    }
    if q < |cellOf| && cellOf[q] in cells {
      var k :| 0 <= k < |cells| && cells[k] == cellOf[q];
      assert q in members[cells[k]];
    }
  }

  /**
    With consistent member lists, the face walk around `ic` reports exactly
    the particles whose cell lies on that face.
  */
  lemma {:induction false} FaceNotesExact(n: Vec3, cellOf: seq<int>, members: seq<seq<nat>>, ic: Vec3, dir: int,
                                          p: nat, q: nat)
    requires AtLeast(n, 2) && Consistent(n, cellOf, members) && InGrid(n, ic) && 0 <= dir < 3
    ensures NewNeighbour(p, q) in FaceNotes(n, members, ic, dir, p) <==>
            q < |cellOf| && OnFace(n, ic, dir, CoordsOf(n, cellOf[q]))
  {
    FaceCellsAreFace(n, ic, dir);
    CellNotesAre(members, p, FaceCells(n, ic, dir), false);
    ListedIsCell(n, cellOf, members, FaceCells(n, ic, dir), q);
  }

  /**
    With consistent member lists, the Lees-Edwards walk for the cell at `c`
    reports exactly the other particles of the opposite y layer within one
    z layer.
  */
  lemma {:induction false} LENotesExact(n: Vec3, cellOf: seq<int>, members: seq<seq<nat>>, c: Vec3, p: nat, q: nat)
    requires AtLeast(n, 2) && Consistent(n, cellOf, members) && InGrid(n, c)
    ensures NewNeighbour(p, q) in LENotes(n, members, c, p) <==>
            q != p && q < |cellOf| && CoordsOf(n, cellOf[q]).y == Opposite(n, c.y) && Near(CoordsOf(n, cellOf[q]).z, c.z, n.z)
  {
    LECellsAreStrip(n, c);
    CellNotesAre(members, p, LECells(n, c), true);
    ListedIsCell(n, cellOf, members, LECells(n, c), q);
  }

  /** The Lees-Edwards walk never reports the particle itself. */
  lemma LENotesNotSelf(n: Vec3, members: seq<seq<nat>>, c: Vec3, p: nat)
    requires AtLeast(n, 2) && |members| == NumCells(n) && InGrid(n, c)
    ensures NewNeighbour(p, p) !in LENotes(n, members, c, p)
  {
    LECellsAreStrip(n, c);
    CellNotesAre(members, p, LECells(n, c), true);
  }

  /**
    On a grid of at least three cells per axis the face walk of an interior
    crossing never reports the particle itself: after the move it sits in
    the entered cell, which is not on the face beyond it.
  */
  lemma {:induction false} FaceNotesNotSelf(n: Vec3, cellOf: seq<int>, members: seq<seq<nat>>, p: nat,
                                            oc: Vec3, dir: int, vel: Velocity)
    requires AtLeast(n, 3) && Consistent(n, cellOf, members) && InGrid(n, oc) && 0 <= dir < 3 && p < |cellOf|
    requires cellOf[p] == CellId(n, StepTarget(n, oc, dir, Velsign(vel.At(dir))))
    ensures InGrid(n, InCoords(n, oc, dir, vel))
    ensures NewNeighbour(p, p) !in FaceNotes(n, members, InCoords(n, oc, dir, vel), dir, p)
  {
    var ic := InCoords(n, oc, dir, vel);
    var ec := StepTarget(n, oc, dir, Velsign(vel.At(dir)));
    InteriorInGrid(n, oc, dir, 2 * Velsign(vel.At(dir)));
    InteriorInGrid(n, oc, dir, Velsign(vel.At(dir)));
    CoordsOfCellId(n, ec);
    InCellBeyond(n, oc, dir, vel);
    FaceNotesExact(n, cellOf, members, ic, dir, p, p);
  }

  /**
    A z step along a y boundary layer walks the Lees-Edwards strip of the
    entered cell and then the face beyond it, and the two overlap: the cell
    of the opposite boundary layer at the same x, in the z layer beyond,
    belongs to both.  Every other particle of that cell is therefore
    notified twice in one crossing.
  */
  lemma {:induction false} ZStepNotifiesTwice(n: Vec3, cellOf: seq<int>, members: seq<seq<nat>>, locals: seq<seq<nat>>,
                                              p: nat, q: nat, oldCell: int, oc: Vec3, vel: Velocity)
    requires AtLeast(n, 3) && Consistent(n, cellOf, members) && |locals| == NumCells(n)
    requires InGrid(n, oc) && OnYBoundary(n, oc) && q != p && q < |cellOf|
    requires cellOf[q] == CellId(n, Vec3(oc.x, Opposite(n, oc.y), InCoords(n, oc, 2, vel).z))
    ensures var ec, ic := StepTarget(n, oc, 2, Velsign(vel.z)), InCoords(n, oc, 2, vel);
      InGrid(n, ec) && InGrid(n, ic) && 0 <= CellId(n, ec) < NumCells(n) &&
      NewNeighbour(p, q) in LENotes(n, members, ec, p) &&
      NewNeighbour(p, q) in FaceNotes(n, members, ic, 2, p) &&
      multiset(EventTrace(n, members, locals, p, oldCell, oc, 2, vel, CellId(n, ec), ec, ic))[NewNeighbour(p, q)] >= 2
  {
    var ec, ic := StepTarget(n, oc, 2, Velsign(vel.z)), InCoords(n, oc, 2, vel);
    var e := Vec3(oc.x, Opposite(n, oc.y), ic.z);
    ZStepSharedCell(n, oc, vel);
    CellIdInRange(n, ec);
    CoordsOfCellId(n, e);
    LENotesExact(n, cellOf, members, ec, p, q);
    FaceNotesExact(n, cellOf, members, ic, 2, p, q);
    var le, face := LENotes(n, members, ec, p), FaceNotes(n, members, ic, 2, p);
    var t := EventTrace(n, members, locals, p, oldCell, oc, 2, vel, CellId(n, ec), ec, ic);
    var head, tail := [Remove(p), Add(p, CellId(n, ec)), PopNext], LocalNotes(p, locals[CellId(n, ec)]) + [Push(p), Sort(p), CellChange(p, oldCell)];
    assert NewNotes(n, members, oc, 2, vel, ec, ic, p) == le + face;
    assert t == head + (le + face) + tail;
    TwiceInMiddle(head, le, face, tail, NewNeighbour(p, q));
  }

  /**
    For a z step along a y boundary layer, the opposite-layer cell at the
    same x in the z layer beyond is in the strip of the entered cell and on
    the face beyond it.
  */
  lemma ZStepSharedCell(n: Vec3, oc: Vec3, vel: Velocity)
    requires AtLeast(n, 3) && InGrid(n, oc) && OnYBoundary(n, oc)
    ensures var ec, ic := StepTarget(n, oc, 2, Velsign(vel.z)), InCoords(n, oc, 2, vel);
      var e := Vec3(oc.x, Opposite(n, oc.y), ic.z);
      InGrid(n, ec) && InGrid(n, ic) && InGrid(n, e) && ec.y == oc.y &&
      e.y == Opposite(n, ec.y) && Near(e.z, ec.z, n.z) && OnFace(n, ic, 2, e)
  {
    var s := Velsign(vel.z);
    var ec, ic := StepTarget(n, oc, 2, s), InCoords(n, oc, 2, vel);
    InteriorInGrid(n, oc, 2, s);
    InCellBeyond(n, oc, 2, vel);
    // the z layer beyond is next to the entered one
    WrapIsMod(ec.z + s, n.z);
  }

  lemma TwiceInMiddle<T>(a: seq<T>, b: seq<T>, c: seq<T>, d: seq<T>, x: T)
    requires x in b && x in c
    ensures multiset(a + (b + c) + d)[x] >= 2
  {
    assert multiset(a + (b + c) + d) == multiset(a) + multiset(b) + multiset(c) + multiset(d);
  }
}

# Shearing cell list and double-wall guard of DynamO, in Dafny

This project models two pieces of the DynamO event-driven molecular
dynamics simulator and proves properties of the models.

**The shearing cell list (`CGCellsShearing`).** This is the neighbour cell
list used under Lees-Edwards (sliding-brick) boundary conditions. Space is
cut into a grid of `n.x * n.y * n.z` cells, numbered row-major
(`x + n.x * (y + n.y * z)`). Every particle belongs to one cell. When a
particle crosses into a neighbouring cell, `runEvent`:
- classifies the crossing into one of three cases:
  - a wrap in y across the sheared boundary, where the image lands at a
    shifted x cell;
  - an entry into a y boundary layer;
  - an ordinary step along an axis, with periodic wrap;
- moves the particle between the member lists;
- drops the scheduler's pending event;
- reports the particles that have just become neighbours:
  - for a y wrap, the whole neighbourhood;
  - for a boundary-layer entry, the extra Lees-Edwards strip;
  - for an ordinary step, the 3 x 3 face of cells beyond the new cell,
    plus the strip for a z step along a boundary layer;
- reports the local objects of the new cell;
- pushes and sorts the particle's next event;
- signals the cell change.

The index arithmetic is written as the source does it: strides, in-place
corrections by one period, and a cursor stepped through the walks. Each
result is proved equal to an independent definition in terms of
coordinates and Euclidean `%`. Each walk is also characterised as a set of
cells: the face, or the opposite y layer within one z layer.

**The double wall (`CLDblWall`).** The wall remembers the last particle it
reflected (`lastID`, whose sentinel is the largest `size_t`). It gives that
particle no event until a later event involving the particle arrives on
the simulation's update signal.

Files:
- `grid.dfy` (`CellGrid`): cell numbering, strides, coordinates, and the
  one-period wrap.
- `walks.dfy` (`CellWalks`): the face walk and the extra Lees-Edwards walk.
- `transition.dfy` (`ShearingTransition`): the three-way classification
  and the destination cell.
- `shearing_cells.dfy` (`ShearingCells`): the cell-list state as a class.
  Its `trace` records the effects of a crossing in order.
- `dblwall.dfy` (`DoubleWall`): the repeat-collision guard.

The code calls `removeFromCell` and `addToCell` before `popNextEvent` in
all three cases (`gcellsShearing.cpp:130-135`, `151-156`, `187-192`), so the
model's trace starts `Remove, Add, PopNext`.

## Model

| member | source | states |
|---|---|---|
| CellGrid.CellId | src/dynamics/globals/gcellsShearing.cpp:225 | The row-major index `getCellIDprebounded` gives a cell's coordinates. Its range and its inverse are stated by CellIdInRange and CoordsOfCellId. |
| CellGrid.CellIdInRange | src/dynamics/globals/gcellsShearing.cpp:225 | Every grid cell's index lies in [0, NumCells), so the walks' cursor values name cells. |
| CellGrid.CellPow | src/dynamics/globals/gcellsShearing.cpp:165-168 | The stride loop yields the product of the cell counts of the axes below the direction, which is at least 1. |
| CellGrid.CoordsOfCellId | src/dynamics/globals/gcellsShearing.cpp:225 | A cell's row-major index is in the grid's range, and decoding it gives back the coordinates it was built from. |
| CellGrid.CellIdInjective | src/dynamics/globals/gcellsShearing.cpp:225 | Two grid cells have the same index exactly when they are the same cell. |
| CellGrid.WrapIsMod | src/dynamics/globals/gcellsShearing.cpp:222-223 | A single wrap correction equals the Euclidean remainder for values within one period of the range. |
| CellWalks.Dim1 | src/dynamics/globals/gcellsShearing.cpp:211 | The faster walk axis is an axis other than the crossing direction. |
| CellWalks.Dim2 | src/dynamics/globals/gcellsShearing.cpp:212 | The slower walk axis differs from both the crossing direction and the faster axis, so the three form a permutation of the axes. |
| CellWalks.Lowered | src/dynamics/globals/gcellsShearing.cpp:222-223 | Decrementing a coordinate with wrap gives the coordinate one cell lower modulo the count, and stays in range. |
| CellWalks.WalkFaceRow | src/dynamics/globals/gcellsShearing.cpp:234-247 | The inner loop visits exactly the three cells of one face row, in order. The cursor it leaves is the row start plus three strides, less one period when the row wrapped. |
| CellWalks.FaceWalk | src/dynamics/globals/gcellsShearing.cpp:203-250 | The 3 x 3 walk visits exactly the reference face sequence, and every visited cursor value is a valid cell index. |
| CellWalks.FaceCellsAreFace | src/dynamics/globals/gcellsShearing.cpp:203-250 | An index is visited by the face walk if and only if it is a grid cell on the face: same coordinate along the crossing axis, within one cell (periodically) on the other two. |
| CellWalks.FaceCellsDistinct | src/dynamics/globals/gcellsShearing.cpp:229-250 | With at least three cells per axis, the nine visited cells are pairwise distinct. |
| CellWalks.LEStart | src/dynamics/globals/gcellsShearing.cpp:304-342 | The LE walk's cursor starts at x = 0 of the opposite y boundary layer, one z layer lower with wrap, and its index matches those coordinates. |
| CellWalks.ExtraLEWalk | src/dynamics/globals/gcellsShearing.cpp:301-361 | The LE walk visits exactly the reference strip sequence of 3 * n.x cells, and every cursor value is a valid index. It requires the cell to be on a y boundary layer, which is the source's debug check. |
| CellWalks.LECellsAreStrip | src/dynamics/globals/gcellsShearing.cpp:313-360 | An index is visited by the LE walk if and only if its cell lies in the opposite y boundary layer, within one z layer of the particle's, at any x. |
| CellWalks.LECellsDistinct | src/dynamics/globals/gcellsShearing.cpp:345-360 | With at least three z layers, the 3 * n.x visited cells are pairwise distinct. |
| ShearingTransition.Classify | src/dynamics/globals/gcellsShearing.cpp:89-91 | The three-way case split of runEvent. A crossing along x or z is always interior. A y wrap starts on a y boundary layer, and a strip entry from the layer next to one (y = 1 or y = n.y - 2). |
| ShearingTransition.DestCoords | src/dynamics/globals/gcellsShearing.cpp:89-185 | The cell entered in each case. Only the coordinate along the crossing changes, except that a y wrap also takes the sheared x cell. |
| ShearingTransition.InCoords | src/dynamics/globals/gcellsShearing.cpp:170-185 | The cell two steps along the crossing, whose face is walked. It is a grid cell, and only the coordinate along the crossing differs from the old cell's. |
| ShearingTransition.StepIndex | src/dynamics/globals/gcellsShearing.cpp:173-184 | A step of k cells that leaves the grid by at most one period changes the index by k strides, less the corrected periods. The result is the index of the Euclidean-wrapped target. |
| ShearingTransition.InteriorCells | src/dynamics/globals/gcellsShearing.cpp:165-185 | endCell and inCell computed the source's way are the indices of the cells one and two steps along the direction, each wrapped modulo the count. |
| ShearingTransition.YWrapCell | src/dynamics/globals/gcellsShearing.cpp:102-109 | Removing the x contribution and jumping n.x * (n.y - 1) gives the index of the cell at x = xn, on the opposite y boundary, with the same z. |
| ShearingTransition.StripCell | src/dynamics/globals/gcellsShearing.cpp:149 | Adding or subtracting n.x moves to the cell one y step in the velocity's direction, with no wrap. |
| ShearingTransition.YWrapLands | src/dynamics/globals/gcellsShearing.cpp:89-128 | A y wrap from the top layer (y velocity not negative) lands on y = 0, and from the bottom layer (y velocity negative) on y = n.y - 1. Both keep z and take x from xn. |
| ShearingTransition.StripLands | src/dynamics/globals/gcellsShearing.cpp:144-149 | A strip entry comes from the layer next to a boundary and lands on that boundary: from y = 1 onto y = 0, or from y = n.y - 2 onto y = n.y - 1. x and z are kept. |
| ShearingTransition.InteriorInGrid | src/dynamics/globals/gcellsShearing.cpp:170-185 | An interior step stays in the grid. Only the coordinate along the crossing direction changes. |
| ShearingTransition.InteriorYNoWrap | src/dynamics/globals/gcellsShearing.cpp:162-185 | For a y crossing with nonzero y velocity that is not a wrap or strip entry, both target cells are plain y steps: no periodic correction applies. |
| ShearingTransition.InteriorKeepsY | src/dynamics/globals/gcellsShearing.cpp:89-91 | A crossing along x or z is always interior. It keeps y, so a particle on a boundary layer stays on it. |
| ShearingTransition.DestInGrid | src/dynamics/globals/gcellsShearing.cpp:89-185 | In all three cases the entered cell is a grid cell, given an x cell in range for the wrap. |
| ShearingTransition.InCellBeyond | src/dynamics/globals/gcellsShearing.cpp:174 | The cell whose face is walked is one step beyond the entered cell. With at least three cells it differs from the entered cell along the direction. |
| ShearingCells.CheckConfig | src/dynamics/globals/gcellsShearing.cpp:54-58 | Initialisation succeeds if and only if the boundary conditions are Lees-Edwards and overlink is 1. Without Lees-Edwards the error is NotLeesEdwards, whatever the overlink. With Lees-Edwards and a wrong overlink it is Overlinked. |
| ShearingCells.ShearingCellList.Initialise | src/dynamics/globals/gcellsShearing.cpp:50-58 | initialise stores the ID, then returns the configuration outcome. Nothing else changes. |
| ShearingCells.Without | src/dynamics/globals/gcellsShearing.cpp:130 | Unlinking p from a member list leaves exactly the other members. |
| ShearingCells.ShearingCellList.Relocate | src/dynamics/globals/gcellsShearing.cpp:130-131 | removeFromCell then addToCell: p's cell becomes the entered cell and p heads that cell's list. The lists stay consistent with the cells, and the trace gains Remove then Add. |
| ShearingCells.MemberNotesAre | src/dynamics/globals/gcellsShearing.cpp:239-242 | Scanning one cell's list notifies exactly its members, except p itself when skipping. |
| ShearingCells.CellNotesAre | src/dynamics/globals/gcellsShearing.cpp:239-242 | Scanning a sequence of cells notifies exactly the particles listed in one of them, except p when skipping. |
| ShearingCells.ShearingCellList.NotifyMembers | src/dynamics/globals/gcellsShearing.cpp:239-242 | The list traversal appends one new-neighbour notification per member, in list order. |
| ShearingCells.ShearingCellList.NotifyNeighbours | src/dynamics/globals/gcellsShearing.cpp:349-356 | The traversal appends the notifications of each visited cell in visiting order, skipping p in the LE walk. |
| ShearingCells.ShearingCellList.NotifyLocals | src/dynamics/globals/gcellsShearing.cpp:255-257 | One new-local notification per local of the cell, in order. |
| ShearingCells.ShearingCellList.ExtraLENeighbourhood | src/dynamics/globals/gcellsShearing.cpp:301-361 | getExtraLEParticleNeighbourhood notifies exactly the strip's members, other than p, and changes nothing else. |
| ShearingCells.ShearingCellList.ParticleNeighbourhood | src/dynamics/globals/gcellsShearing.cpp:288-298 | The base scan is always recorded. The LE walk follows if and only if the particle's cell is on a y boundary layer. |
| ShearingCells.ShearingCellList.YWrapEvent | src/dynamics/globals/gcellsShearing.cpp:89-143 | The y wrap moves p to the sheared image's cell and drops the pending event, then scans its whole neighbourhood. |
| ShearingCells.ShearingCellList.StripEvent | src/dynamics/globals/gcellsShearing.cpp:144-161 | The strip entry moves p one y step onto the boundary and drops the event, then walks the LE strip. |
| ShearingCells.ShearingCellList.InteriorEvent | src/dynamics/globals/gcellsShearing.cpp:162-252 | An interior step moves p one cell and drops the event. It walks the strip if and only if this is a z step on a y boundary layer, then the face beyond the new cell. |
| ShearingCells.ShearingCellList.RunEvent | src/dynamics/globals/gcellsShearing.cpp:69-266 | runEvent keeps the lists consistent and moves p to the destination of its crossing case. Its trace is exactly the event trace: remove/add, pop, the case's new-neighbour notes, the locals of the entered cell, push, sort, then the cell change with the old cell. |
| ShearingCells.EventTraceShape | src/dynamics/globals/gcellsShearing.cpp:130-265 | A crossing starts with Remove, Add and PopNext and ends with Push, Sort and CellChange(old cell). Everything between is a neighbourhood scan or a notification. |
| ShearingCells.NewNotesKinds | src/dynamics/globals/gcellsShearing.cpp:137-250 | The neighbour part of a crossing holds only scans of p's neighbourhood and new-neighbour notes for p. |
| ShearingCells.EventTraceLocals | src/dynamics/globals/gcellsShearing.cpp:254-257 | The locals of the entered cell are announced, in order, just before the push, and at no earlier point. |
| ShearingCells.FaceNotesExact | src/dynamics/globals/gcellsShearing.cpp:229-250 | With consistent lists, the face walk notifies q if and only if q's cell lies on the face. |
| ShearingCells.LENotesExact | src/dynamics/globals/gcellsShearing.cpp:345-360 | With consistent lists, the LE walk notifies q if and only if q is not p and q's cell is in the opposite y layer within one z layer. |
| ShearingCells.LENotesNotSelf | src/dynamics/globals/gcellsShearing.cpp:353 | The LE walk never reports the particle itself. |
| ShearingCells.FaceNotesNotSelf | src/dynamics/globals/gcellsShearing.cpp:203-250 | With at least three cells per axis, the face walk of an interior crossing never reports the moved particle, which sits in the entered cell. |
| ShearingCells.ZStepNotifiesTwice | src/dynamics/globals/gcellsShearing.cpp:194-250 | A z step along a y boundary layer walks the strip of the entered cell, then the face beyond it. The opposite-layer cell at the same x in the z layer beyond lies in both, so every other particle of that cell gets at least two new-neighbour notifications in one crossing. |
| ShearingCells.ZStepSharedCell | src/dynamics/globals/gcellsShearing.cpp:194-250 | On a z step along a y boundary layer, the opposite-layer cell at the same x in the z layer beyond is both in the strip of the entered cell and on the face beyond it. |
| DoubleWall.AfterUpdate | src/dynamics/locals/ldblwall.cpp:115-131 | The remembered particle after an update is either unchanged or the sentinel. It is the sentinel if and only if it already was, or the event data involves it. |
| DoubleWall.DoubleWall.Initialise | src/dynamics/locals/ldblwall.cpp:102-109 | initialise stores the ID, sets lastID to the size_t maximum and subscribes the wall to the update signal. |
| DoubleWall.DoubleWall.GetEvent | src/dynamics/locals/ldblwall.cpp:52-62 | The remembered particle gets a NONE event at infinite time, whatever the geometry. Any other particle gets a WALL event at the Liouvillean's time, which may itself be "never". |
| DoubleWall.DoubleWall.ParticleUpdate | src/dynamics/locals/ldblwall.cpp:113-131 | With the sentinel it is a no-op. Otherwise lastID is reset if the particle occurs among the single changes or in either slot of a pair change, and is unchanged if not. |
| DoubleWall.DoubleWall.RunEvent | src/dynamics/locals/ldblwall.cpp:66-88 | lNColl grows by exactly one, the signal precedes the full update, and lastID ends as p whatever it was. Afterwards p gets no event from this wall. |
| DoubleWall.UpdateKeepsUninvolved | src/dynamics/locals/ldblwall.cpp:117-130 | An event not involving the remembered particle leaves it remembered. |
| DoubleWall.OwnDataClears | src/dynamics/locals/ldblwall.cpp:82-85 | If lastID were set before the signal, the wall's own collision data, which names p, would reset it. This is why the assignment follows the signal. |
| DoubleWall.UpdateIdempotent | src/dynamics/locals/ldblwall.cpp:115-131 | Hearing the same event data twice has the same effect as hearing it once. |

## Left out

- Floating-point geometry is an input:
  - the crossing direction (`getSquareCellCollision3`) is the parameter `dir`;
  - the velocity after `applyBC` is the parameter `vel`;
  - the sheared image's x cell, from the `getSquareCellCollision2` and `advanceUpdateParticle` probe and `applyBC` (`gcellsShearing.cpp:96-128`), is the parameter `xn`.
- The Liouvillean calls and the wall physics are not modelled. This covers `updateParticle`, the wall normal flip, `getWallCollision` and `runWallCollision`. The wall's collision time and collision data are inputs.
- The scheduler is recorded as actions only (`PopNext`, `Push`, `Sort`, `FullUpdate`). The content of the pushed event is not modelled.
- ShearingCells.ShearingCellList.RunEvent models one subscriber per signal. The source repeats every scan once per registered new-neighbour callback, and notifies every callback per member in the face walk.
- The generic cell list `CGCells` is not part of this model:
  - `removeFromCell` and `addToCell` are stated by their effect (unlink p; put p at the head of the new cell's list);
  - its `getParticleNeighbourhood` is recorded as one `BaseNeighbourhood` action;
  - cell origins, `reinitialise` and the cell sizing are left out.
- CellWalks.FaceWalk and CellWalks.ExtraLEWalk require at least two cells per axis: with a single cell the source's cursor corrections leave the index range. Distinctness of the visited cells is proved with at least three.
- CellWalks.FaceWalk and CellWalks.ExtraLEWalk return the visited indices, and ShearingCells.ShearingCellList.NotifyNeighbours then notifies cell by cell. The source notifies while stepping; the order of the notifications is the same.
- Integer widths: `int` and `size_t` indices are unbounded here, and so is `lNColl`. The sentinel is the 64-bit size_t maximum. A particle whose ID equals the sentinel is treated as the source treats it: it never gets an event while no particle is remembered.
- ShearingCells.ShearingCellList.RunEvent does not notify each new neighbour exactly once, and the model does not claim it. On a z step along a y boundary layer the source runs the strip walk of the entered cell (`gcellsShearing.cpp:194-201`) and then the face walk beyond it (`229-250`). The two walks share the three opposite-layer cells of the face, so their particles are notified twice; ShearingCells.ZStepNotifiesTwice states this. Within one walk the cells are distinct, but the member lists are not required to be duplicate-free, so at-most-once within a walk is not proved either.
- ShearingCells.ShearingCellList.RunEvent requires `0 <= xn < n.x` in every case, though only the y wrap uses `xn`. The x cell of the sheared image is computed in floating point (`int((tmpPos[0] + 0.5 * aspect) / width)`, `gcellsShearing.cpp:127-128`). The model assumes it lands in range and does not model what the source does when it does not.
- A zero velocity component is modelled as written: the y tests use `vel[1] < 0` and the interior step uses `vel > 0`.
- CLDblWall's elasticity, the output plugins loop (`ldblwall.cpp:90-91`), `isInCell`, XML input and output, povray output, and the debug output of `runEvent` (`gcellsShearing.cpp:269-284`) are not modelled.

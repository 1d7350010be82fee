/**
  The repeat-collision guard of the double wall.

  A double wall remembers the last particle it collided with, `lastID`, so
  that its very next event query does not find the same particle at the
  same wall again.  The memory is forgotten when any later event changes
  that particle; the sentinel "no particle" is the largest value of the
  source's `size_t`.  The collision physics (the wall normal, the
  Liouvillean's collision time and collision data) is an input here.
*/
module DoubleWall {

  /** The largest 64-bit `size_t`: no particle is remembered. */
  const SizeMax: nat := 0xFFFF_FFFF_FFFF_FFFF

  /** The event types a local can report (the source's NONE and WALL). */
  datatype EventKind = NoEvent | WallEvent

  /** An event time: a finite time, or HUGE_VAL for "never". */
  datatype Time = Finite(t: real) | Never

  /** A local event: the particle, when, what, and which local reports it. */
  datatype LocalEvent = LocalEvent(particle: nat, time: Time, kind: EventKind, local: nat)

  /** A pair change names the two particles of a two-particle event. */
  datatype PairChange = PairChange(p1: nat, p2: nat)

  /**
    The data of an event as passed to the update signal: the IDs of the
    particles changed alone (`l1`) and the pairs changed together (`l2`).
  */
  datatype ParticleData = ParticleData(l1: seq<nat>, l2: seq<PairChange>)

  /** Particle `id` takes part in the event data `d`. */
  predicate Involves(d: ParticleData, id: nat) {
    (exists k :: 0 <= k < |d.l1| && d.l1[k] == id) ||
    (exists k :: 0 <= k < |d.l2| && (d.l2[k].p1 == id || d.l2[k].p2 == id))
  }

  /** The remembered particle after the wall hears of the event data `d`. */
  function AfterUpdate(last: nat, d: ParticleData): (r: nat)
    ensures r == last || r == SizeMax
    ensures r == SizeMax <==> last == SizeMax || Involves(d, last)
  {
    if last != SizeMax && Involves(d, last) then SizeMax else last
  }

  /** What the simulation is asked to do, in order. */
  datatype SimAction = Signal(d: ParticleData) | FullUpdate(p: nat)

  /** The parts of the simulation a wall event touches: the local-collision count and the requests made. */
  class Simulation {
    var lNColl: nat
    var log: seq<SimAction>

    constructor ()
      ensures lNColl == 0 && log == []
    {
      lNColl := 0;
      log := [];
    }
  }

  class DoubleWall {
    const sim: Simulation
    var id: nat
    var lastID: nat
    /** The wall's particleUpdate is subscribed to the simulation's update signal. */
    var registered: bool

    /** A wall before `Initialise`: `lastID` holds whatever value it was built with. */
    constructor (sim: Simulation, lastID: nat)
      ensures this.sim == sim && this.lastID == lastID && !registered
    {
      this.sim := sim;
      this.id := 0;
      this.lastID := lastID;
      this.registered := false;
    }

    /** Takes its ID, forgets any remembered particle and subscribes to the update signal. */
    method Initialise(nID: nat)
      modifies this
      ensures id == nID && lastID == SizeMax && registered
    {
      id := nID;
      lastID := SizeMax;
      registered := true;
    }

    /**
      The next event of particle p at this wall, given the time the
      Liouvillean computes for p to reach the wall (`Never` when it does
      not).  The remembered particle gets no event, whatever its position.
    */
    function GetEvent(p: nat, wallTime: Time): (r: LocalEvent)
      reads this
      ensures r.particle == p && r.local == id
      ensures r.kind == NoEvent <==> p == lastID
      ensures p == lastID ==> r.time == Never
      ensures p != lastID ==> r.kind == WallEvent && r.time == wallTime
    {
      if p == lastID then LocalEvent(p, Never, NoEvent, id)
      else LocalEvent(p, wallTime, WallEvent, id)
    }

    /**
      The wall's subscriber to the update signal: the remembered particle is
      forgotten as soon as it appears in the data of an event, alone or in a
      pair.
    */
    method ParticleUpdate(d: ParticleData)
      modifies this
      ensures id == old(id) && registered == old(registered)
      ensures lastID == AfterUpdate(old(lastID), d)
    {
      if lastID == SizeMax {
        return;
      }
      var i := 0;
      while i < |d.l1|
        invariant 0 <= i <= |d.l1| && lastID == old(lastID) != SizeMax
        invariant forall k :: 0 <= k < i ==> d.l1[k] != lastID
      {
        if d.l1[i] == lastID {
          lastID := SizeMax;
          return;
        }
        i := i + 1;
      }
      var j := 0;
      while j < |d.l2|
        invariant 0 <= j <= |d.l2| && lastID == old(lastID) != SizeMax
        invariant forall k :: 0 <= k < j ==> d.l2[k].p1 != lastID && d.l2[k].p2 != lastID
      {
        if d.l2[j].p1 == lastID || d.l2[j].p2 == lastID {
          lastID := SizeMax;
          return;
        }
        j := j + 1;
      }
    }

    /**
      A collision of particle p with the wall, whose collision data `edat`
      the Liouvillean computed: count it, signal the update (which this
      wall hears too), remember p, then ask the scheduler for a full update
      of p.
    */
    method RunEvent(p: nat, edat: ParticleData)
      modifies this, sim
      ensures id == old(id) && registered == old(registered)
      ensures sim.lNColl == old(sim.lNColl) + 1
      ensures sim.log == old(sim.log) + [Signal(edat), FullUpdate(p)]
      ensures lastID == p
      ensures forall t: Time :: GetEvent(p, t).kind == NoEvent && GetEvent(p, t).time == Never
    {
      sim.lNColl := sim.lNColl + 1;
      sim.log := sim.log + [Signal(edat)];
      if registered {
        ParticleUpdate(edat);
      }
      lastID := p;
      sim.log := sim.log + [FullUpdate(p)];
    }
  }

  /** The remembered particle survives any event that does not involve it. */
  lemma UpdateKeepsUninvolved(last: nat, d: ParticleData)
    requires !Involves(d, last)
    ensures AfterUpdate(last, d) == last
  {}

  /**
    Why the assignment follows the signal: the wall's own collision data
    names the colliding particle, so remembering it before the signal
    would forget it at once.
  */
  lemma {:induction false} OwnDataClears(p: nat, edat: ParticleData)
    requires p != SizeMax && p in edat.l1
    ensures AfterUpdate(p, edat) == SizeMax
  {
    var k :| 0 <= k < |edat.l1| && edat.l1[k] == p;
    assert Involves(edat, p);
  }

  /** Forgetting is for good: a second update of the same data changes nothing. */
  lemma UpdateIdempotent(last: nat, d: ParticleData)
    ensures AfterUpdate(AfterUpdate(last, d), d) == AfterUpdate(last, d)
  {}
}

/** `VerletManager` (verlet.cpp): the particle pool, its add and force-toggle cooldowns, the
    collision pass over a uniform grid whose `InsertNode` probes forward without wrapping, and the
    Verlet position step. Positions are exact reals; the collision response itself (floating point)
    is not modelled: the pass yields the trace of particle pairs it hands to `VerletCollision`'s
    body. DIM, CELL_MAX, MAX, THREAD_COUNT and the batch size are construction parameters. */
module Verlet {
  import opened Vectors
  import opened GridIndex
  import opened GridFill
  import opened GridSweep
  import opened Wrappers

  /** One particle, the source's `Verlet` struct without its radius. */
  datatype Particle = Particle(position: Vec3, oldPosition: Vec3, acceleration: Vec3)

  // ---------------------------------------------------------------------------------------------
  // AddVerlet: the live count after one call.

  /** The gate of `AddVerlet`: the cooldown has run out, the pool is not full and the frame rate is
      at least 90 (`slowFrame` says it is not). */
  predicate AddAllowed(count: nat, max: nat, addTimer: real, slowFrame: bool) {
    !(addTimer < 0.1 || count >= max) && !slowFrame
  }

  function CountAfterAdd(count: nat, max: nat, amount: nat, addTimer: real, slowFrame: bool): (r: nat)
    ensures r == count || r == count + amount
    ensures count >= max || addTimer < 0.1 || slowFrame ==> r == count
  {
    if AddAllowed(count, max, addTimer, slowFrame) then count + amount else count
  }

  /** The count never passes MAX when MAX is a multiple of the batch size and the count is a
      multiple of it too: a batch either fits exactly or is refused. */
  lemma CountStaysBounded(count: nat, max: nat, amount: nat, addTimer: real, slowFrame: bool)
    requires 0 < amount && count <= max
    requires count % amount == 0 && max % amount == 0
    ensures CountAfterAdd(count, max, amount, addTimer, slowFrame) <= max
    ensures CountAfterAdd(count, max, amount, addTimer, slowFrame) % amount == 0
  {
    if AddAllowed(count, max, addTimer, slowFrame) {
      DivMod(count, amount);
      DivMod(max, amount);
      var qc, qm := count / amount, max / amount;
      assert count == amount * qc && max == amount * qm;
      MulLe(qc + 1, qm, amount);
      assert count + amount == amount * (qc + 1);
      assert (count + amount) % amount == 0 by {
        DivMod(count + amount, amount);
        UniqueDecomposition(amount, (count + amount) / amount, (count + amount) % amount, qc + 1, 0);
      }
    }
  }

  /** There is no clamp: with MAX = 25 and batches of 10, a count of 20 becomes 30. */
  lemma CountOvershoot()
    ensures CountAfterAdd(20, 25, 10, 0.1, false) == 30 > 25
  {
  }

  // ---------------------------------------------------------------------------------------------
  // PositionUpdate: one Verlet step of one particle.

  /** The step of particle p: `extra` is the point-force acceleration the force toggle adds
      (computed in floating point by the source, an input here), `grav` the gravity. */
  function VerletStep(p: Particle, extra: Vec3, grav: Vec3, dt: real): (r: Particle)
    ensures r.oldPosition == p.position
    ensures r.acceleration == Zero
  {
    var acc := Add(Add(p.acceleration, extra), grav);
    Particle(Add(Add(p.position, Sub(p.position, p.oldPosition)), Scale(acc, dt * dt)), p.position, Zero)
  }

  /** The statement-by-statement update of `PositionUpdate` computes VerletStep. */
  lemma StepIs(p: Particle, extra: Vec3, grav: Vec3, dt: real, acc: Vec3, position: Vec3)
    requires acc == Scale(Add(Add(p.acceleration, extra), grav), dt * dt)
    requires position == Add(Add(p.position, Sub(p.position, p.oldPosition)), acc)
    ensures VerletStep(p, extra, grav, dt) == Particle(position, p.position, Zero)
  {
  }

  /** The implied velocity (the step from old to new position) grows by the total acceleration
      times dt²; with no acceleration at all it is kept. */
  lemma StepVelocity(p: Particle, extra: Vec3, grav: Vec3, dt: real)
    ensures Sub(VerletStep(p, extra, grav, dt).position, VerletStep(p, extra, grav, dt).oldPosition)
         == Add(Sub(p.position, p.oldPosition), Scale(Add(Add(p.acceleration, extra), grav), dt * dt))
    ensures p.acceleration == Zero && extra == Zero && grav == Zero ==>
              Sub(VerletStep(p, extra, grav, dt).position, VerletStep(p, extra, grav, dt).oldPosition)
              == Sub(p.position, p.oldPosition)
  {
  }

  class VerletManager {
    const max: nat
    const dim: nat
    const cellMax: nat
    const threadCount: nat
    const amountToAdd: nat

    /** The live particles are 0..currCount-1. */
    var currCount: nat
    var addTimer: real
    var toggleTimer: real
    var forceToggle: bool
    var dt: real
    var grav: Vec3

    /** `verlet_list`, MAX particles. */
    var particles: array<Particle>
    /** `collision_grid`, DIM³·CELL_MAX slots. */
    var grid: array<Slot>

    ghost predicate Valid()
      reads this
    {
      2 <= dim && 0 < cellMax && grid.Length == GridSize(dim, cellMax) && particles.Length == max
    }

    constructor(max: nat, dim: nat, cellMax: nat, threadCount: nat, amountToAdd: nat,
                addTimer: real, toggleTimer: real, dt: real, grav: Vec3, seed: Particle)
      requires 2 <= dim && 0 < cellMax
      ensures Valid() && fresh(particles) && fresh(grid)
      ensures this.max == max && this.dim == dim && this.cellMax == cellMax
      ensures this.threadCount == threadCount && this.amountToAdd == amountToAdd
      ensures currCount == 0 && !forceToggle && this.addTimer == addTimer && this.toggleTimer == toggleTimer
      ensures this.dt == dt && this.grav == grav
      ensures AllNull(grid[..]) && forall i | 0 <= i < max :: particles[i] == seed
    {
      this.max := max;
      this.dim := dim;
      this.cellMax := cellMax;
      this.threadCount := threadCount;
      this.amountToAdd := amountToAdd;
      currCount := 0;
      this.addTimer := addTimer;
      this.toggleTimer := toggleTimer;
      forceToggle := false;
      this.dt := dt;
      this.grav := grav;
      particles := new Particle[max](_ => seed);
      grid := new Slot[GridSize(dim, cellMax)](_ => Null);
    }

    /** `AddVerlet`: when the gate is open, the count grows by one batch and the cooldown restarts;
        otherwise nothing changes. */
    method AddVerlet(slowFrame: bool)
      modifies this
      ensures currCount == CountAfterAdd(old(currCount), max, amountToAdd, old(addTimer), slowFrame)
      ensures addTimer == if AddAllowed(old(currCount), max, old(addTimer), slowFrame) then 0.0 else old(addTimer)
      ensures toggleTimer == old(toggleTimer) && forceToggle == old(forceToggle)
      ensures dt == old(dt) && grav == old(grav) && particles == old(particles) && grid == old(grid)
    {
      if addTimer < 0.1 || currCount >= max {
        return;
      }
      if slowFrame {
        return;
      }
      currCount := currCount + amountToAdd;
      addTimer := 0.0;
    }

    /** `ToggleForce`: once the cooldown has run out, flip the force and restart the cooldown;
        otherwise nothing changes. Either way a second call before the timer advances is a no-op. */
    method ToggleForce()
      modifies this
      ensures forceToggle == (if old(toggleTimer) < 0.5 then old(forceToggle) else !old(forceToggle))
      ensures toggleTimer == (if old(toggleTimer) < 0.5 then old(toggleTimer) else 0.0)
      ensures toggleTimer < 0.5
      ensures currCount == old(currCount) && addTimer == old(addTimer)
      ensures dt == old(dt) && grav == old(grav) && particles == old(particles) && grid == old(grid)
    {
      if toggleTimer < 0.5 {
        return;
      }
      forceToggle := !forceToggle;
      toggleTimer := 0.0;
    }

    /** `ClearGrid`: every slot becomes empty. */
    method ClearGrid()
      requires Valid()
      modifies grid
      ensures AllNull(grid[..])
    {
      var i := 0;
      while i < grid.Length
        invariant 0 <= i <= grid.Length
        invariant forall k | 0 <= k < i :: grid[k] == Null
      {
        grid[i] := Null;
        i := i + 1;
      }
    }

    /** `InsertNode`: scan forward from the bucket's first slot, without wrapping, to the first
        empty slot and store the particle there; no other slot changes. Reading past the end of
        the array is undefined in the source, so the scan must find a slot inside it. */
    method InsertNode(x: int, y: int, z: int, id: nat)
      requires Valid() && InGrid(dim, Cell(x, y, z))
      requires 0 <= NodeBase(dim, cellMax, Cell(x, y, z))  // follows from InGrid, but the next clause needs it stated
      requires FirstNullFrom(grid[..], NodeBase(dim, cellMax, Cell(x, y, z))) < grid.Length
      modifies grid
      ensures grid[..] == old(grid[..])[FirstNullFrom(old(grid[..]), NodeBase(dim, cellMax, Cell(x, y, z))) := Occupant(id)]
    {
      ghost var g := grid[..];
      NodeBaseInBounds(dim, cellMax, Cell(x, y, z));
      var base := NodeBase(dim, cellMax, Cell(x, y, z));
      ghost var stop := FirstNullFrom(g, base);
      var i := 0;
      while grid[base + i] != Null
        invariant base + i <= stop && grid[..] == g
        decreases stop - (base + i)
      {
        i := i + 1;
      }
      grid[base + i] := Occupant(id);
    }

    /** `FillGrid`: the live particles are inserted in order, each at its clamped cell; `cells`
        holds their truncated cell coordinates. */
    method FillGrid(cells: seq<Cell>)
      requires Valid() && |cells| == currCount
      requires FillLinear(grid[..], CellBases(dim, cellMax, cells)).Some?
      modifies grid
      ensures Some(grid[..]) == FillLinear(old(grid[..]), CellBases(dim, cellMax, cells))
    {
      ghost var g0 := grid[..];
      ghost var bases := CellBases(dim, cellMax, cells);
      for i := 0 to currCount
        invariant Some(grid[..]) == FillLinear(g0, bases[..i])
      {
        var x := Clamp(cells[i].x, 0, dim - 1);
        var y := Clamp(cells[i].y, 0, dim - 1);
        var z := Clamp(cells[i].z, 0, dim - 1);
        assert Cell(x, y, z) == ClampCell(dim, cells[i]);
        FillLinearStep(g0, bases, i, grid[..]);
        InsertNode(x, y, z, i);
      }
      assert bases[..currCount] == bases;
    }

    /** `VerletCollision`: the pairs (a, b) of a particle a read from the current bucket and a
        particle b read from the other, except a particle with itself; each once. */
    method VerletCollision(cur: nat, other: nat) returns (calls: Trace)
      ensures calls == CellPairs(Run(grid[..], cur), Run(grid[..], other), true)
      ensures forall p :: p in calls <==> p.0 in Run(grid[..], cur) && p.1 in Run(grid[..], other) && p.0 != p.1
    {
      calls := ScanPairs(grid, cur, other, true);
      forall p
        ensures p in calls <==> p.0 in Run(grid[..], cur) && p.1 in Run(grid[..], other) && p.0 != p.1
      {
        CellPairsMembers(Run(grid[..], cur), Run(grid[..], other), true, p);
      }
    }

    /** `GridCollision`: one thread sweeps every interior cell. */
    method GridCollision() returns (calls: Trace)
      requires Valid()
      ensures calls == SlabCalls(grid[..], dim, cellMax, 1, dim - 1, true)
    {
      calls := SweepSlab(grid, dim, cellMax, 1, dim - 1, true);
    }

    /** `GridCollisionThread`: thread t sweeps its slab of interior x values, over the corrected
        bounds (see SafeSlabStart). */
    method GridCollisionThread(t: nat) returns (calls: Trace)
      requires Valid() && t < threadCount
      ensures calls == SlabCalls(grid[..], dim, cellMax, SafeSlabStart(dim, threadCount, t),
                                 SafeSlabEnd(dim, threadCount, t), true)
    {
      var start := Min(1 + t * (dim / threadCount), dim - 1);
      var end := if t == threadCount - 1 then dim - 1 else Min(1 + (t + 1) * (dim / threadCount), dim - 1);
      SafeSlabsContiguous(dim, threadCount, t);
      calls := SweepSlab(grid, dim, cellMax, start, end, true);
    }

    /** `CollisionUpdate`: nothing at all happens with no live particle. Otherwise the grid is
        cleared and refilled from the live particles' cells and the threads, run one after the
        other, make the calls of one sweep over all interior cells. */
    method CollisionUpdate(cells: seq<Cell>) returns (calls: Trace)
      requires Valid() && |cells| == currCount
      requires FillLinear(Nulls(grid.Length), CellBases(dim, cellMax, cells)).Some?
      modifies grid
      ensures old(currCount) == 0 ==> calls == [] && grid[..] == old(grid[..])
      ensures 0 < currCount ==> Some(grid[..]) == FillLinear(Nulls(grid.Length), CellBases(dim, cellMax, cells))
      ensures 0 < currCount && threadCount == 0 ==> calls == []
      ensures 0 < currCount && 0 < threadCount ==> calls == SlabCalls(grid[..], dim, cellMax, 1, dim - 1, true)
    {
      calls := [];
      if currCount <= 0 {
        return;
      }
      ClearGrid();
      AllNullIsNulls(grid[..]);
      FillGrid(cells);
      if threadCount == 0 {
        return;
      }
      ghost var filled := grid[..];
      ghost var f := ThreadFn(filled, dim, cellMax, threadCount, true);
      for t := 0 to threadCount
        invariant grid[..] == filled
        invariant calls == Span(f, 0, t)
      {
        var slab := GridCollisionThread(t);
        SpanStep(f, 0, t);
        calls := calls + slab;
      }
      ThreadsMatchSingleSweep(grid[..], dim, cellMax, threadCount, true);
    }

    /** `PositionUpdate`: each live particle takes one Verlet step, with the point-force
        acceleration pull[i] only while the force is toggled on; other particles are untouched. */
    method PositionUpdate(pull: seq<Vec3>)
      requires Valid() && currCount <= max && |pull| == currCount
      modifies particles
      ensures forall i | 0 <= i < currCount ::
                particles[i] == VerletStep(old(particles[i]), if forceToggle then pull[i] else Zero, grav, dt)
      ensures forall i | currCount <= i < max :: particles[i] == old(particles[i])
    {
      for i := 0 to currCount
        invariant forall k | 0 <= k < i ::
                    particles[k] == VerletStep(old(particles[k]), if forceToggle then pull[k] else Zero, grav, dt)
        invariant forall k | i <= k < max :: particles[k] == old(particles[k])
      {
        var a := particles[i];
        var acc := a.acceleration;
        if forceToggle {
          acc := Add(acc, pull[i]);
        }
        acc := Add(acc, grav);
        var disp := Sub(a.position, a.oldPosition);
        var oldPosition := a.position;
        acc := Scale(acc, dt * dt);
        var position := Add(Add(a.position, disp), acc);
        StepIs(a, if forceToggle then pull[i] else Zero, grav, dt, acc, position);
        particles[i] := Particle(position, oldPosition, Zero);
      }
    }
  }

  lemma AllNullIsNulls(g: seq<Slot>)
    requires AllNull(g)
    ensures g == Nulls(|g|)
  {
  }

  /** With no bucket over capacity, `ClearGrid` then `FillGrid` stays inside the array and puts
      live particle j in exactly one slot: the slot of its rank in the bucket of its clamped cell. */
  lemma FillPlacesEachInOwnBucket(dim: nat, cm: nat, cells: seq<Cell>, j: nat)
    requires 1 <= dim && 0 < cm && j < |cells|
    requires NoOverflow(Buckets(dim, ClampAll(dim, cells)), cm)
    ensures FillLinear(Nulls(GridSize(dim, cm)), CellBases(dim, cm, cells)).Some?
    ensures var g := FillLinear(Nulls(GridSize(dim, cm)), CellBases(dim, cm, cells)).value;
            var rank := Rank(Buckets(dim, ClampAll(dim, cells)), j);
            var k := CellBases(dim, cm, cells)[j] + rank;
            rank < cm && k < |g| && g[k] == Occupant(j)
            && forall k' | 0 <= k' < |g| && g[k'] == Occupant(j) :: k' == k
  {
    var bs := Buckets(dim, ClampAll(dim, cells));
    assert GridSize(dim, cm) == dim * dim * dim * cm;
    FillLinearIsLayout(bs, cm, dim * dim * dim);
    assert Bases(bs, cm) == CellBases(dim, cm, cells);
    LayoutPlacesEach(bs, cm, dim * dim * dim, j);
    assert CellBases(dim, cm, cells)[j] == bs[j] * cm;
  }

  /** The broad phase of `CollisionUpdate` is complete: with no bucket over capacity, the sweep
      over the refilled grid checks live particle i against every other live particle j whose
      clamped cell is one of the 27 around i's, provided i's cell is interior. */
  lemma CollisionUpdateComplete(dim: nat, cm: nat, cells: seq<Cell>, i: nat, j: nat, dx: int, dy: int, dz: int)
    requires 2 <= dim && 0 < cm
    requires NoOverflow(Buckets(dim, ClampAll(dim, cells)), cm)
    requires i < |cells| && j < |cells| && i != j
    requires Interior(dim, ClampCell(dim, cells[i]))
    requires -1 <= dx <= 1 && -1 <= dy <= 1 && -1 <= dz <= 1
    requires ClampCell(dim, cells[j]) == Neighbour(ClampCell(dim, cells[i]), dx, dy, dz)
    ensures FillLinear(Nulls(GridSize(dim, cm)), CellBases(dim, cm, cells)).Some?
    ensures (i, j) in SlabCalls(FillLinear(Nulls(GridSize(dim, cm)), CellBases(dim, cm, cells)).value,
                                dim, cm, 1, dim - 1, true)
  {
    var clamped := ClampAll(dim, cells);
    var bs := Buckets(dim, clamped);
    assert GridSize(dim, cm) == dim * dim * dim * cm;
    FillLinearIsLayout(bs, cm, dim * dim * dim);
    assert Bases(bs, cm) == CellBases(dim, cm, cells);
    BroadPhaseComplete(dim, cm, clamped, i, j, dx, dy, dz, true);
  }

  /** `VerletCollision`'s self test holds for the whole sweep: no particle is ever checked against
      itself. */
  lemma CollisionUpdateNoSelfPairs(g: seq<Slot>, dim: nat, cm: nat, p: (nat, nat))
    requires p in SlabCalls(g, dim, cm, 1, dim - 1, true)
    ensures p.0 != p.1
  {
    var c, dx, dy, dz := SweepSound(g, dim, cm, 1, dim - 1, true, p);
  }
}

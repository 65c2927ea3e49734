/** `Octree` (octree.hpp, octree.cpp): despite its name a uniform grid of DIM³ buckets of CELL_MAX
    slots, cleared and refilled every frame. `InsertNode` probes forward from a bucket's first slot
    and wraps around at the end of the array; `GridCollisionThread` sweeps one x-slab of interior
    cells and hands every pair read from a cell and one of its 27 neighbours to the collision
    callback. The callback is recorded as a trace of id pairs, the worker threads run one after the
    other, and particle positions arrive already truncated to integer cells. */
module Octree {
  import opened GridIndex
  import opened GridFill
  import opened GridSweep

  /** Cells per axis and slots per cell. */
  const DIM: nat := 49
  const CELL_MAX: nat := 4

  class Octree {
    /** `collision_grid`, DIM³·CELL_MAX slots. */
    var grid: array<Slot>
    /** `THREAD_COUNT`: whatever `hardware_concurrency` reported, possibly 0. */
    var threadCount: nat

    ghost predicate Valid()
      reads this
    {
      grid.Length == GridSize(DIM, CELL_MAX)
    }

    /** The grid starts with every slot empty. */
    constructor(hardwareThreads: nat)
      ensures Valid() && fresh(grid)
      ensures AllNull(grid[..]) && threadCount == hardwareThreads
    {
      grid := new Slot[GridSize(DIM, CELL_MAX)](_ => Null);
      threadCount := hardwareThreads;
    }

    /** `ClearTree`: every slot becomes empty. */
    method ClearTree()
      requires Valid()
      modifies grid
      ensures Valid() && AllNull(grid[..])
    {
      var i := 0;
      while i < grid.Length
        invariant 0 <= i <= grid.Length
        invariant forall k | 0 <= k < i :: grid[k] == Null
      {
        grid[i] := Null;
        i := i + 1;
      }
    }

    /** `GetNode`: the first slot of the bucket of cell (x, y, z). The whole bucket of a cell inside
        the grid lies inside the array; NodeRangesDisjoint shows distinct cells get disjoint
        buckets. */
    function GetNode(x: int, y: int, z: int): (base: int)
      ensures InGrid(DIM, Cell(x, y, z)) ==> 0 <= base && base + CELL_MAX <= GridSize(DIM, CELL_MAX)
      ensures base % CELL_MAX == 0
    {
      if InGrid(DIM, Cell(x, y, z)) then NodeBaseInBounds(DIM, CELL_MAX, Cell(x, y, z)); NodeBase(DIM, CELL_MAX, Cell(x, y, z))
      else NodeBase(DIM, CELL_MAX, Cell(x, y, z))
    }

    /** `InsertNode`: starting at the bucket's first slot, step forward modulo the array size to the
        first empty slot and store the particle there; no other slot changes. The loop only ends
        when some slot is empty, so the grid must not be full. */
    method InsertNode(x: int, y: int, z: int, id: nat)
      requires Valid() && InGrid(DIM, Cell(x, y, z))
      requires Occupied(grid[..]) < grid.Length
      modifies grid
      ensures Valid()
      ensures WrapSteps(old(grid[..]), GetNode(x, y, z), 0) < grid.Length
      ensures grid[..] == old(grid[..])[WrapProbe(old(grid[..]), GetNode(x, y, z)) := Occupant(id)]
    {
      ghost var g := grid[..];
      var base := GetNode(x, y, z);
      NullExists(g);
      WrapProbeFindsNull(g, base);
      ghost var steps := WrapSteps(g, base, 0);
      var index := base;
      ghost var m := 0;
      ModBelow(base, grid.Length);
      while grid[index] != Null
        invariant 0 <= index < grid.Length && grid[..] == g
        invariant m <= steps && index == (base + m) % grid.Length
        decreases steps - m
      {
        assert Visit(g, base, m) != Null;
        ModNext(base + m, grid.Length);
        index := (index + 1) % grid.Length;
        m := m + 1;
      }
      assert Visit(g, base, m) == Null;
      WrapStepsIs(g, base, m);
      grid[index] := Occupant(id);
    }

    /** `FillTree`: particles 0..n-1 are inserted in order, each at its clamped cell. */
    method FillTree(cells: seq<Cell>)
      requires Valid() && Occupied(grid[..]) + |cells| <= grid.Length
      modifies grid
      ensures Valid()
      ensures grid[..] == FillWrap(old(grid[..]), CellBases(DIM, CELL_MAX, cells))
    {
      ghost var g0 := grid[..];
      ghost var bases := CellBases(DIM, CELL_MAX, cells);
      for i := 0 to |cells|
        invariant grid[..] == FillWrap(g0, bases[..i])
      {
        var c := cells[i];
        var x := Clamp(c.x, 0, DIM - 1);
        var y := Clamp(c.y, 0, DIM - 1);
        var z := Clamp(c.z, 0, DIM - 1);
        assert Cell(x, y, z) == ClampCell(DIM, c);
        assert GetNode(x, y, z) == bases[i];
        assert bases[..i + 1] == bases[..i] + [bases[i]];
        FillWrapSnoc(g0, bases[..i], bases[i]);
        InsertNode(x, y, z, i);
      }
      assert bases[..|cells|] == bases;
    }

    /** `VerletCollision`: the callback gets every pair (a, b) of a particle a read from the
        current bucket and a particle b read from the other bucket, a == b included, and nothing
        else, once each. */
    method VerletCollision(cur: nat, other: nat) returns (calls: Trace)
      ensures calls == CellPairs(Run(grid[..], cur), Run(grid[..], other), false)
      ensures |calls| == |Run(grid[..], cur)| * |Run(grid[..], other)|
      ensures forall p :: p in calls <==> p.0 in Run(grid[..], cur) && p.1 in Run(grid[..], other)
    {
      calls := ScanPairs(grid, cur, other, false);
      CellPairsCount(Run(grid[..], cur), Run(grid[..], other));
      forall p
        ensures p in calls <==> p.0 in Run(grid[..], cur) && p.1 in Run(grid[..], other)
      {
        CellPairsMembers(Run(grid[..], cur), Run(grid[..], other), false, p);
      }
    }

    /** `GridCollisionThread`: thread t sweeps its slab of interior x values, with every y and z
        in [1, DIM-1). The slab bounds are the corrected ones (see SafeSlabStart); they equal the
        source's whenever DIM / THREAD_COUNT + DIM % THREAD_COUNT >= 2. */
    method GridCollisionThread(t: nat) returns (calls: Trace)
      requires Valid() && t < threadCount
      ensures calls == SlabCalls(grid[..], DIM, CELL_MAX, SafeSlabStart(DIM, threadCount, t),
                                 SafeSlabEnd(DIM, threadCount, t), false)
    {
      var start := Min(1 + t * (DIM / threadCount), DIM - 1);
      var end := if t == threadCount - 1 then DIM - 1 else Min(1 + (t + 1) * (DIM / threadCount), DIM - 1);
      SafeSlabsContiguous(DIM, threadCount, t);
      calls := SweepSlab(grid, DIM, CELL_MAX, start, end, false);
    }

    /** `CheckCollisions`: threads 0..THREAD_COUNT-1, run one after the other, make exactly the
        calls of one sweep over all interior cells; with no threads there are no calls. */
    method CheckCollisions() returns (calls: Trace)
      requires Valid()
      ensures threadCount == 0 ==> calls == []
      ensures 0 < threadCount ==> calls == SlabCalls(grid[..], DIM, CELL_MAX, 1, DIM - 1, false)
    {
      calls := [];
      if threadCount == 0 {
        return;
      }
      ghost var f := ThreadFn(grid[..], DIM, CELL_MAX, threadCount, false);
      for t := 0 to threadCount
        invariant calls == Span(f, 0, t)
      {
        var slab := GridCollisionThread(t);
        SpanStep(f, 0, t);
        calls := calls + slab;
      }
      ThreadsMatchSingleSweep(grid[..], DIM, CELL_MAX, threadCount, false);
    }
  }

  /** One probe step: the slot after slot (k mod n) is slot (k + 1) mod n. */
  lemma ModNext(k: nat, n: nat)
    requires 0 < n
    ensures (k % n + 1) % n == (k + 1) % n
  {
    var q, r := k / n, k % n;
    DivMod(k, n);
    assert k == q * n + r;
    if r + 1 < n {
      ModIs(k + 1, n, q, r + 1);
      ModIs(r + 1, n, 0, r + 1);
    } else {
      assert k + 1 == (q + 1) * n + 0;
      ModIs(k + 1, n, q + 1, 0);
      ModIs(r + 1, n, 1, 0);
    }
  }

  /** a mod n is the remainder of any division of a by n. */
  lemma ModIs(a: int, n: nat, q: int, r: int)
    requires 0 <= a && 0 <= r < n && a == q * n + r
    ensures a % n == r
  {
    DivMod(a, n);
    assert a == (a / n) * n + a % n;
    UniqueDecomposition(n, a / n, a % n, q, r);
  }

  /** After `ClearTree` then `FillTree` of n <= DIM³·CELL_MAX particles, exactly n slots are
      occupied and each particle is in exactly one of them. */
  lemma ClearThenFillHoldsEachOnce(g: seq<Slot>, cells: seq<Cell>)
    requires |g| == GridSize(DIM, CELL_MAX) && AllNull(g)
    requires |cells| <= |g|
    ensures Occupied(g) == 0
    ensures HoldsEachOnce(FillWrap(g, CellBases(DIM, CELL_MAX, cells)), |cells|)
    ensures Occupied(FillWrap(g, CellBases(DIM, CELL_MAX, cells))) == |cells|
  {
    FillWrapHoldsEachOnce(g, CellBases(DIM, CELL_MAX, cells));
  }

  /** With no bucket over capacity, `CheckCollisions` after `ClearTree` and `FillTree` hands the
      callback every pair of distinct particles whose clamped cells are neighbours, the first one's
      cell being interior. */
  lemma TreeBroadPhaseComplete(g: seq<Slot>, cells: seq<Cell>, i: nat, j: nat, dx: int, dy: int, dz: int)
    requires |g| == GridSize(DIM, CELL_MAX) && AllNull(g)
    requires |cells| <= |g|
    requires NoOverflow(Buckets(DIM, ClampAll(DIM, cells)), CELL_MAX)
    requires i < |cells| && j < |cells| && i != j
    requires Interior(DIM, ClampCell(DIM, cells[i]))
    requires -1 <= dx <= 1 && -1 <= dy <= 1 && -1 <= dz <= 1
    requires ClampCell(DIM, cells[j]) == Neighbour(ClampCell(DIM, cells[i]), dx, dy, dz)
    ensures Occupied(g) == 0
    ensures (i, j) in SlabCalls(FillWrap(g, CellBases(DIM, CELL_MAX, cells)), DIM, CELL_MAX, 1, DIM - 1, false)
  {
    OccupiedAllNull(g);
    var clamped := ClampAll(DIM, cells);
    var bs := Buckets(DIM, clamped);
    assert g == Nulls(DIM * DIM * DIM * CELL_MAX);
    FillWrapIsLayout(bs, CELL_MAX, DIM * DIM * DIM);
    assert Bases(bs, CELL_MAX) == CellBases(DIM, CELL_MAX, cells);
    BroadPhaseComplete(DIM, CELL_MAX, clamped, i, j, dx, dy, dz, false);
  }
}

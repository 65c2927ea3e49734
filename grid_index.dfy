/** Index arithmetic of the uniform collision grid shared by `VerletManager` (verlet.cpp) and
    `Octree` (octree.hpp/octree.cpp): a flat array of DIM³ buckets of CELL_MAX slots, bucket
    (x, y, z) starting at slot (z + y·DIM + x·DIM²)·CELL_MAX; per-axis clamping of cell
    coordinates; the split of the interior x-range [1, DIM-1) into one slab per worker thread;
    and the bounds of the 27-cell neighbour sweep. */
module GridIndex {

  /** One grid slot: empty (the source's nullptr) or the id of the particle stored there. */
  datatype Slot = Null | Occupant(id: nat)

  /** An integer cell coordinate triple. */
  datatype Cell = Cell(x: int, y: int, z: int)

  /** 2^32: unsigned arithmetic in the source wraps modulo this. */
  const U32: int := 0x1_0000_0000

  predicate InGrid(dim: nat, c: Cell) {
    0 <= c.x < dim && 0 <= c.y < dim && 0 <= c.z < dim
  }

  /** Flat number of a cell: z + y·DIM + x·DIM². */
  function CellNumber(dim: nat, c: Cell): int {
    c.z + c.y * dim + c.x * dim * dim
  }

  /** First slot of a cell's bucket, the index `GetNode` and `InsertNode` compute. */
  function NodeBase(dim: nat, cellMax: nat, c: Cell): int {
    CellNumber(dim, c) * cellMax
  }

  /** Number of slots of the grid array, DIM·DIM·DIM·CELL_MAX. */
  function GridSize(dim: nat, cellMax: nat): nat {
    dim * dim * dim * cellMax
  }

  // ---------------------------------------------------------------------------------------------
  // Small facts about multiplication.

  lemma MulLe(a: int, b: int, c: int)
    requires a <= b && 0 <= c
    ensures a * c <= b * c
  {
    assert b * c - a * c == (b - a) * c;
  }

  /** Division with remainder by d is unique. */
  lemma UniqueDecomposition(d: int, q1: int, r1: int, q2: int, r2: int)
    requires 0 < d && 0 <= r1 < d && 0 <= r2 < d
    requires q1 * d + r1 == q2 * d + r2
    ensures q1 == q2 && r1 == r2
  {
    if q1 < q2 {
      MulLe(q1 + 1, q2, d);
      assert false;
    } else if q2 < q1 {
      MulLe(q2 + 1, q1, d);
      assert false;
    }
  }

  // ---------------------------------------------------------------------------------------------
  // GetNode: every bucket of an in-grid cell lies inside the array, and distinct cells own
  // disjoint buckets.

  lemma {:induction false} CellNumberRange(dim: nat, c: Cell)
    requires InGrid(dim, c)
    ensures 0 <= CellNumber(dim, c) < dim * dim * dim
  {
    MulLe(c.y, dim - 1, dim);
    MulLe(c.x, dim - 1, dim * dim);
    assert c.x * dim * dim == c.x * (dim * dim);
    assert (dim - 1) * (dim * dim) == dim * dim * dim - dim * dim;
    assert 0 <= c.y * dim && 0 <= c.x * (dim * dim);
  }

  /** The whole bucket [NodeBase, NodeBase + CELL_MAX) of an in-grid cell is inside the array. */
  lemma NodeBaseInBounds(dim: nat, cellMax: nat, c: Cell)
    requires InGrid(dim, c)
    ensures 0 <= NodeBase(dim, cellMax, c)
    ensures NodeBase(dim, cellMax, c) + cellMax <= GridSize(dim, cellMax)
  {
    CellNumberRange(dim, c);
    BucketInArray(CellNumber(dim, c), dim * dim * dim, cellMax);
  }

  /** Bucket n of `cells` buckets of cm slots lies within the cells·cm slots. */
  lemma BucketInArray(n: int, cells: int, cm: nat)
    requires 0 <= n < cells
    ensures 0 <= n * cm && n * cm + cm <= cells * cm
  {
    MulLe(n + 1, cells, cm);
    MulLe(0, n, cm);
    assert (n + 1) * cm == n * cm + cm;
  }

  /** Distinct in-grid cells have distinct flat numbers. */
  lemma CellNumberInjective(dim: nat, c1: Cell, c2: Cell)
    requires InGrid(dim, c1) && InGrid(dim, c2)
    requires CellNumber(dim, c1) == CellNumber(dim, c2)
    ensures c1 == c2
  {
    CellNumberNested(dim, c1);
    CellNumberNested(dim, c2);
    UniqueDecomposition(dim, c1.y + c1.x * dim, c1.z, c2.y + c2.x * dim, c2.z);
    UniqueDecomposition(dim, c1.x, c1.y, c2.x, c2.y);
  }

  /** The flat number in Horner form: ((x · DIM) + y) · DIM + z. */
  lemma CellNumberNested(dim: nat, c: Cell)
    ensures CellNumber(dim, c) == (c.y + c.x * dim) * dim + c.z
  {
    assert (c.y + c.x * dim) * dim == c.y * dim + c.x * dim * dim;
  }

  /** The buckets of two distinct in-grid cells do not overlap. */
  lemma NodeRangesDisjoint(dim: nat, cellMax: nat, c1: Cell, c2: Cell)
    requires InGrid(dim, c1) && InGrid(dim, c2) && c1 != c2
    ensures NodeBase(dim, cellMax, c1) + cellMax <= NodeBase(dim, cellMax, c2)
         || NodeBase(dim, cellMax, c2) + cellMax <= NodeBase(dim, cellMax, c1)
  {
    var n1, n2 := CellNumber(dim, c1), CellNumber(dim, c2);
    if n1 == n2 {
      CellNumberInjective(dim, c1, c2);
    } else if n1 < n2 {
      BucketsOrdered(n1, n2, cellMax);
    } else {
      BucketsOrdered(n2, n1, cellMax);
    }
  }

  lemma BucketsOrdered(n1: int, n2: int, cellMax: nat)
    requires n1 < n2
    ensures n1 * cellMax + cellMax <= n2 * cellMax
  {
    MulLe(n1 + 1, n2, cellMax);
    assert (n1 + 1) * cellMax == n1 * cellMax + cellMax;
  }

  // ---------------------------------------------------------------------------------------------
  // Clamping of cell coordinates (glm::clamp / std::clamp to [0, DIM-1]).

  function Clamp(v: int, lo: int, hi: int): int
    requires lo <= hi
  {
    if v < lo then lo else if v > hi then hi else v
  }

  /** The cell that `FillGrid`/`FillTree` insert into: each coordinate clamped to [0, DIM-1].
      Cells already inside the grid are kept, and each coordinate moves to the nearest bound. */
  function ClampCell(dim: nat, c: Cell): (r: Cell)
    requires 1 <= dim
    ensures InGrid(dim, r)
    ensures InGrid(dim, c) ==> r == c
    ensures (c.x < 0 ==> r.x == 0) && (c.x >= dim ==> r.x == dim - 1)
    ensures (c.y < 0 ==> r.y == 0) && (c.y >= dim ==> r.y == dim - 1)
    ensures (c.z < 0 ==> r.z == 0) && (c.z >= dim ==> r.z == dim - 1)
  {
    Cell(Clamp(c.x, 0, dim - 1), Clamp(c.y, 0, dim - 1), Clamp(c.z, 0, dim - 1))
  }

  /** The clamped cells of a sequence of particles. */
  function ClampAll(dim: nat, cells: seq<Cell>): (r: seq<Cell>)
    requires 1 <= dim
    ensures |r| == |cells|
    ensures forall k | 0 <= k < |cells| :: r[k] == ClampCell(dim, cells[k]) && InGrid(dim, r[k])
  {
    seq(|cells|, k requires 0 <= k < |cells| => ClampCell(dim, cells[k]))
  }

  /** Flat cell number of the clamped cell: always a valid bucket number. */
  function BucketOf(dim: nat, c: Cell): (b: nat)
    requires 1 <= dim
    ensures b < dim * dim * dim
  {
    CellNumberRange(dim, ClampCell(dim, c));
    CellNumber(dim, ClampCell(dim, c))
  }

  // ---------------------------------------------------------------------------------------------
  // Slabs: thread t sweeps x in [start, end). As written in the source:
  //   start = 1 + t·(DIM / T);  end = 1 + (t + 1)·(DIM / T);  the last thread adds DIM % T - 2
  //   to `end` in unsigned arithmetic.

  function SlabStart(dim: nat, threads: nat, t: nat): int
    requires 0 < threads
  {
    1 + t * (dim / threads)
  }

  function SlabEnd(dim: nat, threads: nat, t: nat): int
    requires 0 < threads
  {
    var end := 1 + (t + 1) * (dim / threads);
    if t == threads - 1 then (end + (dim % threads - 2) % U32) % U32 else end
  }

  predicate InSlab(dim: nat, threads: nat, t: nat, x: int)
    requires 0 < threads
  {
    SlabStart(dim, threads, t) <= x < SlabEnd(dim, threads, t)
  }

  lemma DivMod(a: nat, b: nat)
    requires 0 < b
    ensures a == b * (a / b) + a % b && 0 <= a % b < b
  {
  }

  /** Whatever DIM % T is, the unsigned sum gives the last slab the end DIM - 1. */
  lemma LastSlabEnd(dim: nat, threads: nat)
    requires 0 < threads && 1 <= dim < U32
    ensures SlabEnd(dim, threads, threads - 1) == dim - 1
  {
    var q, r := dim / threads, dim % threads;
    DivMod(dim, threads);
    var end := 1 + (threads - 1 + 1) * q;
    assert end == 1 + dim - r;
    if r >= 2 {
      ModSmall(r - 2);
      ModSmall(dim - 1);
      assert end + (r - 2) == dim - 1;
    } else {
      ModSmall(U32 + r - 2);
      ModWrap(r - 2);
      ModWrap(dim - 1);
      assert end + (U32 + r - 2) == dim - 1 + U32;
    }
  }

  lemma ModSmall(v: int)
    requires 0 <= v < U32
    ensures v % U32 == v
  {
  }

  lemma ModWrap(v: int)
    requires -U32 <= v < U32
    ensures (v + U32) % U32 == v % U32 && (v < 0 ==> v % U32 == v + U32)
  {
  }

  // The corrected split: every bound clamped to DIM - 1, the last end fixed at DIM - 1.

  function Min(a: int, b: int): int { if a <= b then a else b }

  function SafeSlabStart(dim: nat, threads: nat, t: nat): int
    requires 0 < threads
  {
    Min(1 + t * (dim / threads), dim - 1)
  }

  function SafeSlabEnd(dim: nat, threads: nat, t: nat): int
    requires 0 < threads
  {
    if t == threads - 1 then dim - 1 else Min(1 + (t + 1) * (dim / threads), dim - 1)
  }

  predicate InSafeSlab(dim: nat, threads: nat, t: nat, x: int)
    requires 0 < threads
  {
    SafeSlabStart(dim, threads, t) <= x < SafeSlabEnd(dim, threads, t)
  }

  /** The corrected slabs are contiguous: slab 0 starts at 1, each slab ends where the next one
      starts, the last ends at DIM - 1, and no slab is reversed. */
  lemma SafeSlabsContiguous(dim: nat, threads: nat, t: nat)
    requires 0 < threads && 2 <= dim && t < threads
    ensures SafeSlabStart(dim, threads, 0) == 1
    ensures 1 <= SafeSlabStart(dim, threads, t) <= SafeSlabEnd(dim, threads, t) <= dim - 1
    ensures t < threads - 1 ==> SafeSlabEnd(dim, threads, t) == SafeSlabStart(dim, threads, t + 1)
    ensures SafeSlabEnd(dim, threads, threads - 1) == dim - 1
  {
    var q := dim / threads;
    MulLe(t, t + 1, q);
    assert 0 <= t * q;
  }

  /** A slab ends no later than any later slab starts. */
  lemma SafeSlabsOrdered(dim: nat, threads: nat, t1: nat, t2: nat)
    requires 0 < threads && 2 <= dim && t1 < t2 < threads
    ensures SafeSlabEnd(dim, threads, t1) <= SafeSlabStart(dim, threads, t2)
  {
    MulLe(t1 + 1, t2, dim / threads);
  }

  /** The first k corrected slabs together cover exactly [1, end of slab k-1). */
  lemma {:induction false} SafeSlabsCoverPrefix(dim: nat, threads: nat, k: nat, x: int)
    requires 0 < threads && 2 <= dim && 1 <= k <= threads
    ensures (exists t :: 0 <= t < k && InSafeSlab(dim, threads, t, x))
        <==> 1 <= x < SafeSlabEnd(dim, threads, k - 1)
  {
    SafeSlabsContiguous(dim, threads, k - 1);
    if k > 1 {
      SafeSlabsCoverPrefix(dim, threads, k - 1, x);
      SafeSlabsContiguous(dim, threads, k - 2);
      if 1 <= x < SafeSlabEnd(dim, threads, k - 2) {
        var t :| 0 <= t < k - 1 && InSafeSlab(dim, threads, t, x);
        assert 0 <= t < k && InSafeSlab(dim, threads, t, x);
      } else if SafeSlabEnd(dim, threads, k - 2) <= x < SafeSlabEnd(dim, threads, k - 1) {
        assert InSafeSlab(dim, threads, k - 1, x);
      }
    } else {
      if 1 <= x < SafeSlabEnd(dim, threads, 0) {
        assert InSafeSlab(dim, threads, 0, x);
      }
    }
  }

  /** The corrected slabs partition the interior x-range [1, DIM-1): every interior x lies in
      exactly one slab, and no slab holds an x outside it. */
  lemma SafeSlabsPartition(dim: nat, threads: nat, x: int)
    requires 0 < threads && 2 <= dim
    ensures (1 <= x < dim - 1) <==> (exists t :: 0 <= t < threads && InSafeSlab(dim, threads, t, x))
    ensures forall t1, t2 ::
              (0 <= t1 < threads && 0 <= t2 < threads &&
               InSafeSlab(dim, threads, t1, x) && InSafeSlab(dim, threads, t2, x)) ==> t1 == t2
  {
    SafeSlabsCoverPrefix(dim, threads, threads, x);
    forall t1, t2 | 0 <= t1 < threads && 0 <= t2 < threads
        && InSafeSlab(dim, threads, t1, x) && InSafeSlab(dim, threads, t2, x)
      ensures t1 == t2
    {
      if t1 < t2 {
        SafeSlabsOrdered(dim, threads, t1, t2);
      } else if t2 < t1 {
        SafeSlabsOrdered(dim, threads, t2, t1);
      }
    }
  }

  /** When DIM / T + DIM % T >= 2, the source's bounds are exactly the corrected ones, so its
      slabs also tile [1, DIM-1). */
  lemma SlabsAgreeWhenLastSlabFits(dim: nat, threads: nat, t: nat)
    requires 0 < threads && 2 <= dim < U32 && t < threads
    requires dim / threads + dim % threads >= 2
    ensures SlabStart(dim, threads, t) == SafeSlabStart(dim, threads, t)
    ensures SlabEnd(dim, threads, t) == SafeSlabEnd(dim, threads, t)
  {
    var q, r := dim / threads, dim % threads;
    DivMod(dim, threads);
    MulLe(t, threads - 1, q);
    assert (threads - 1) * q == dim - r - q;
    LastSlabEnd(dim, threads);
    if t < threads - 1 {
      MulLe(t + 1, threads - 1, q);
    }
  }

  /** The source's split with DIM = 49 and 49 threads: slab 47 is [48, 49) and so contains
      x = DIM - 1, whose +1 neighbour x = 49 has a bucket beyond the end of the grid. */
  lemma SlabOverrunWhenThreadsEqualDim()
    ensures InSlab(49, 49, 47, 48) && !(48 < 49 - 1)
    ensures NodeBase(49, 4, Cell(48 + 1, 1, 1)) >= GridSize(49, 4)
    ensures !InSafeSlab(49, 49, 47, 48)
  {
  }

  // ---------------------------------------------------------------------------------------------
  // The 27-cell neighbour sweep.

  /** Interior cells: every coordinate in [1, DIM-1). */
  predicate Interior(dim: nat, c: Cell) {
    1 <= c.x < dim - 1 && 1 <= c.y < dim - 1 && 1 <= c.z < dim - 1
  }

  function Neighbour(c: Cell, dx: int, dy: int, dz: int): Cell {
    Cell(c.x + dx, c.y + dy, c.z + dz)
  }

  /** Every neighbour of an interior cell is in the grid, so its whole bucket is in bounds. */
  lemma NeighbourBucketInBounds(dim: nat, cellMax: nat, c: Cell, dx: int, dy: int, dz: int)
    requires Interior(dim, c)
    requires -1 <= dx <= 1 && -1 <= dy <= 1 && -1 <= dz <= 1
    ensures InGrid(dim, Neighbour(c, dx, dy, dz))
    ensures 0 <= NodeBase(dim, cellMax, Neighbour(c, dx, dy, dz))
    ensures NodeBase(dim, cellMax, Neighbour(c, dx, dy, dz)) + cellMax <= GridSize(dim, cellMax)
  {
    NodeBaseInBounds(dim, cellMax, Neighbour(c, dx, dy, dz));
  }
}

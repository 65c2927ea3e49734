/** The broad-phase sweep over the collision grid, shared by `VerletManager::GridCollision`,
    `VerletManager::GridCollisionThread` (verlet.cpp) and `Octree::GridCollisionThread`
    (octree.cpp): for every interior cell (x, y, z) whose bucket is not empty, for each of the 27
    offsets (dx, dy, dz) in {-1, 0, 1}³ whose bucket is not empty, the pair scan `VerletCollision`
    calls the collision response on every particle read from the current bucket against every
    particle read from the other one. A bucket is read from its first slot until the first empty
    slot, so a full bucket runs on into the next one.

    The model records the calls the sweep makes, in order, as a trace of particle-id pairs; the
    collision response itself is a parameter of the source and is not modelled here. */
module GridSweep {
  import opened GridIndex
  import opened GridFill

  /** Slot i, or empty outside the array. */
  function SlotAt(g: seq<Slot>, i: int): Slot {
    if 0 <= i < |g| then g[i] else Null
  }

  /** The particles `for (a = 0; cell[a]; ++a)` visits from slot i: every slot up to the first
      empty one. The end of the array also stops the scan (reading past it is undefined in the
      source). */
  function Run(g: seq<Slot>, i: int): seq<nat>
    decreases |g| - i
  {
    if SlotAt(g, i) == Null then [] else [g[i].id] + Run(g, i + 1)
  }

  /** The calls of the inner loop of `VerletCollision` for one particle a of the current bucket;
      `skipSelf` is the `v1 != v2` test of verlet.cpp, which octree.cpp does not have. */
  function Row(a: nat, bs: seq<nat>, skipSelf: bool): seq<(nat, nat)> {
    if bs == [] then []
    else Row(a, bs[..|bs| - 1], skipSelf)
         + (if skipSelf && a == bs[|bs| - 1] then [] else [(a, bs[|bs| - 1])])
  }

  /** All calls of `VerletCollision` for the particles `xs` of the current bucket against the
      particles `bs` of the other bucket, in loop order. */
  function CellPairs(xs: seq<nat>, bs: seq<nat>, skipSelf: bool): seq<(nat, nat)> {
    if xs == [] then [] else CellPairs(xs[..|xs| - 1], bs, skipSelf) + Row(xs[|xs| - 1], bs, skipSelf)
  }

  lemma {:induction false} RowMembers(a: nat, bs: seq<nat>, skipSelf: bool, p: (nat, nat))
    ensures p in Row(a, bs, skipSelf) <==> p.0 == a && p.1 in bs && !(skipSelf && p.0 == p.1)
  {
    if bs != [] {
      RowMembers(a, bs[..|bs| - 1], skipSelf, p);
      assert bs == bs[..|bs| - 1] + [bs[|bs| - 1]];
    }
  }

  /** `VerletCollision` pairs every particle of one bucket with every particle of the other,
      except a particle with itself when `skipSelf` holds, and nothing else. */
  lemma {:induction false} CellPairsMembers(xs: seq<nat>, bs: seq<nat>, skipSelf: bool, p: (nat, nat))
    ensures p in CellPairs(xs, bs, skipSelf) <==> p.0 in xs && p.1 in bs && !(skipSelf && p.0 == p.1)
  {
    if xs != [] {
      CellPairsMembers(xs[..|xs| - 1], bs, skipSelf, p);
      RowMembers(xs[|xs| - 1], bs, skipSelf, p);
      assert xs == xs[..|xs| - 1] + [xs[|xs| - 1]];
    }
  }

  /** Without the self test, the scan makes exactly |xs|·|bs| calls. */
  lemma {:induction false} CellPairsCount(xs: seq<nat>, bs: seq<nat>)
    ensures |CellPairs(xs, bs, false)| == |xs| * |bs|
  {
    if xs != [] {
      CellPairsCount(xs[..|xs| - 1], bs);
      RowCount(xs[|xs| - 1], bs);
      assert (|xs| - 1) * |bs| + |bs| == |xs| * |bs|;
    }
  }

  lemma {:induction false} RowCount(a: nat, bs: seq<nat>)
    ensures |Row(a, bs, false)| == |bs|
  {
    if bs != [] {
      RowCount(a, bs[..|bs| - 1]);
    }
  }

  lemma {:induction false} CellPairsEmptyOther(xs: seq<nat>, skipSelf: bool)
    ensures CellPairs(xs, [], skipSelf) == []
  {
    if xs != [] {
      CellPairsEmptyOther(xs[..|xs| - 1], skipSelf);
    }
  }

  // ---------------------------------------------------------------------------------------------
  // The sweep, loop by loop. Each loop of the source over [lo, hi) whose body makes the calls
  // f(i) makes the calls Span(f, lo, hi); each `...Fn` function below is the body of one loop.

  type Trace = seq<(nat, nat)>

  /** f(lo) + f(lo + 1) + ... + f(hi - 1). */
  function Span(f: int -> Trace, lo: int, hi: int): Trace
    decreases hi - lo
  {
    if hi <= lo then [] else Span(f, lo, hi - 1) + f(hi - 1)
  }

  /** A loop over [lo, hi) is the loop over [lo, mid) followed by the loop over [mid, hi). */
  lemma {:induction false} SpanSplit(f: int -> Trace, lo: int, mid: int, hi: int)
    requires lo <= mid <= hi
    decreases hi - mid
    ensures Span(f, lo, mid) + Span(f, mid, hi) == Span(f, lo, hi)
  {
    if mid < hi {
      SpanSplit(f, lo, mid, hi - 1);
    }
  }

  /** Every call the body makes for some i in [lo, hi) is a call of the loop. */
  lemma {:induction false} InSpan(f: int -> Trace, i: int, lo: int, hi: int, p: (nat, nat))
    requires lo <= i < hi && p in f(i)
    decreases hi - lo
    ensures p in Span(f, lo, hi)
  {
    if i < hi - 1 {
      InSpan(f, i, lo, hi - 1, p);
    }
  }

  /** The n-th of the 27 offsets in loop order: dx outermost, dz innermost. */
  function Offset(n: int): (int, int, int) {
    (n / 9 - 1, n / 3 % 3 - 1, n % 3 - 1)
  }

  function OffsetCell(c: Cell, n: int): Cell {
    Neighbour(c, Offset(n).0, Offset(n).1, Offset(n).2)
  }

  /** The 27 cells around c (c included), in the order of the offset loops. */
  function Neighbourhood(c: Cell): (r: seq<Cell>)
    ensures |r| == 27
  {
    seq(27, n requires 0 <= n < 27 => OffsetCell(c, n))
  }

  /** The offset loops of current cell `cur` over the cells `others`: one pair scan per cell. */
  function PairScan(g: seq<Slot>, dim: nat, cm: nat, cur: Cell, others: seq<Cell>, skipSelf: bool): Trace {
    if others == [] then []
    else PairScan(g, dim, cm, cur, others[..|others| - 1], skipSelf)
         + CellPairs(Run(g, NodeBase(dim, cm, cur)), Run(g, NodeBase(dim, cm, others[|others| - 1])), skipSelf)
  }

  /** The calls for current cell c. */
  function CellCalls(g: seq<Slot>, dim: nat, cm: nat, c: Cell, skipSelf: bool): Trace {
    PairScan(g, dim, cm, c, Neighbourhood(c), skipSelf)
  }

  lemma {:induction false} InPairScan(g: seq<Slot>, dim: nat, cm: nat, cur: Cell, others: seq<Cell>, k: nat,
                                      skipSelf: bool, p: (nat, nat))
    requires k < |others|
    requires p in CellPairs(Run(g, NodeBase(dim, cm, cur)), Run(g, NodeBase(dim, cm, others[k])), skipSelf)
    ensures p in PairScan(g, dim, cm, cur, others, skipSelf)
  {
    if k < |others| - 1 {
      InPairScan(g, dim, cm, cur, others[..|others| - 1], k, skipSelf, p);
    }
  }

  /** When the current bucket is empty the offset loops make no call. */
  lemma {:induction false} PairScanOfEmpty(g: seq<Slot>, dim: nat, cm: nat, cur: Cell, others: seq<Cell>, skipSelf: bool)
    requires Run(g, NodeBase(dim, cm, cur)) == []
    ensures PairScan(g, dim, cm, cur, others, skipSelf) == []
  {
    if others != [] {
      PairScanOfEmpty(g, dim, cm, cur, others[..|others| - 1], skipSelf);
    }
  }

  /** The z loop for fixed x and y. */
  function CellFn(g: seq<Slot>, dim: nat, cm: nat, x: int, y: int, skipSelf: bool): int -> Trace {
    z => CellCalls(g, dim, cm, Cell(x, y, z), skipSelf)
  }

  function RowCalls(g: seq<Slot>, dim: nat, cm: nat, x: int, y: int, skipSelf: bool): Trace {
    Span(CellFn(g, dim, cm, x, y, skipSelf), 1, dim - 1)
  }

  /** The y loop for fixed x. */
  function RowFn(g: seq<Slot>, dim: nat, cm: nat, x: int, skipSelf: bool): int -> Trace {
    y => RowCalls(g, dim, cm, x, y, skipSelf)
  }

  function PlaneCalls(g: seq<Slot>, dim: nat, cm: nat, x: int, skipSelf: bool): Trace {
    Span(RowFn(g, dim, cm, x, skipSelf), 1, dim - 1)
  }

  /** The x loop. */
  function PlaneFn(g: seq<Slot>, dim: nat, cm: nat, skipSelf: bool): int -> Trace {
    x => PlaneCalls(g, dim, cm, x, skipSelf)
  }

  /** The calls for the slab x in [lo, hi): what one worker thread does; `GridCollision` is the
      slab [1, DIM-1). */
  function SlabCalls(g: seq<Slot>, dim: nat, cm: nat, lo: int, hi: int, skipSelf: bool): Trace {
    Span(PlaneFn(g, dim, cm, skipSelf), lo, hi)
  }

  /** Thread t's work over the corrected slabs. */
  function ThreadFn(g: seq<Slot>, dim: nat, cm: nat, threads: nat, skipSelf: bool): int -> Trace
    requires 0 < threads
  {
    t => if t < 0 then []
         else SlabCalls(g, dim, cm, SafeSlabStart(dim, threads, t), SafeSlabEnd(dim, threads, t), skipSelf)
  }

  /** The calls of threads 0..k-1, one after the other. */
  function ThreadCalls(g: seq<Slot>, dim: nat, cm: nat, threads: nat, k: nat, skipSelf: bool): Trace
    requires 0 < threads
  {
    Span(ThreadFn(g, dim, cm, threads, skipSelf), 0, k)
  }

  /** Run one after the other, the worker threads of `CollisionUpdate` / `CheckCollisions` make
      exactly the calls of the single-threaded `GridCollision`, in the same order. */
  lemma ThreadsMatchSingleSweep(g: seq<Slot>, dim: nat, cm: nat, threads: nat, skipSelf: bool)
    requires 0 < threads && 2 <= dim
    ensures ThreadCalls(g, dim, cm, threads, threads, skipSelf) == SlabCalls(g, dim, cm, 1, dim - 1, skipSelf)
  {
    ThreadsPrefix(g, dim, cm, threads, threads, skipSelf);
    SafeSlabsContiguous(dim, threads, threads - 1);
  }

  lemma {:induction false} ThreadsPrefix(g: seq<Slot>, dim: nat, cm: nat, threads: nat, k: nat, skipSelf: bool)
    requires 0 < threads && 2 <= dim && 1 <= k <= threads
    ensures ThreadCalls(g, dim, cm, threads, k, skipSelf)
         == SlabCalls(g, dim, cm, 1, SafeSlabEnd(dim, threads, k - 1), skipSelf)
  {
    SafeSlabsContiguous(dim, threads, k - 1);
    var lo, hi := SafeSlabStart(dim, threads, k - 1), SafeSlabEnd(dim, threads, k - 1);
    var f := ThreadFn(g, dim, cm, threads, skipSelf);
    assert Span(f, 0, k) == Span(f, 0, k - 1) + SlabCalls(g, dim, cm, lo, hi, skipSelf);
    if k == 1 {
      assert lo == 1;
    } else {
      ThreadsPrefix(g, dim, cm, threads, k - 1, skipSelf);
      SafeSlabsContiguous(dim, threads, k - 2);
      SpanSplit(PlaneFn(g, dim, cm, skipSelf), 1, lo, hi);
    }
  }

  /** The offsets enumerate the whole 3×3×3 neighbourhood. */
  lemma OffsetOf(dx: int, dy: int, dz: int)
    requires -1 <= dx <= 1 && -1 <= dy <= 1 && -1 <= dz <= 1
    ensures 0 <= 9 * (dx + 1) + 3 * (dy + 1) + (dz + 1) < 27
    ensures Offset(9 * (dx + 1) + 3 * (dy + 1) + (dz + 1)) == (dx, dy, dz)
  {
  }

  /** Every particle read from the bucket of an interior cell c is paired, by the full sweep, with
      every particle read from the bucket of each of c's 27 neighbours (itself excepted when
      `skipSelf` holds). */
  lemma SweepCoversNeighbours(g: seq<Slot>, dim: nat, cm: nat, c: Cell, dx: int, dy: int, dz: int,
                              skipSelf: bool, i: nat, j: nat)
    requires Interior(dim, c)
    requires -1 <= dx <= 1 && -1 <= dy <= 1 && -1 <= dz <= 1
    requires i in Run(g, NodeBase(dim, cm, c))
    requires j in Run(g, NodeBase(dim, cm, Neighbour(c, dx, dy, dz)))
    requires !(skipSelf && i == j)
    ensures (i, j) in SlabCalls(g, dim, cm, 1, dim - 1, skipSelf)
  {
    var n := 9 * (dx + 1) + 3 * (dy + 1) + (dz + 1);
    var p := (i, j);
    OffsetOf(dx, dy, dz);
    assert OffsetCell(c, n) == Neighbour(c, dx, dy, dz);
    CellPairsMembers(Run(g, NodeBase(dim, cm, c)), Run(g, NodeBase(dim, cm, OffsetCell(c, n))), skipSelf, p);
    InPairScan(g, dim, cm, c, Neighbourhood(c), n, skipSelf, p);
    InSlabOfCell(g, dim, cm, c, skipSelf, p);
  }

  /** A call made for an interior cell is a call of the full sweep. */
  lemma InSlabOfCell(g: seq<Slot>, dim: nat, cm: nat, c: Cell, skipSelf: bool, p: (nat, nat))
    requires Interior(dim, c) && p in CellCalls(g, dim, cm, c, skipSelf)
    ensures p in SlabCalls(g, dim, cm, 1, dim - 1, skipSelf)
  {
    InRowCalls(g, dim, cm, c, skipSelf, p);
    InPlaneCalls(g, dim, cm, c.x, c.y, skipSelf, p);
    InSpan(PlaneFn(g, dim, cm, skipSelf), c.x, 1, dim - 1, p);
  }

  lemma InRowCalls(g: seq<Slot>, dim: nat, cm: nat, c: Cell, skipSelf: bool, p: (nat, nat))
    requires 1 <= c.z < dim - 1 && p in CellCalls(g, dim, cm, c, skipSelf)
    ensures p in RowCalls(g, dim, cm, c.x, c.y, skipSelf)
  {
    var f := CellFn(g, dim, cm, c.x, c.y, skipSelf);
    assert f(c.z) == CellCalls(g, dim, cm, c, skipSelf);
    InSpan(f, c.z, 1, dim - 1, p);
  }

  lemma InPlaneCalls(g: seq<Slot>, dim: nat, cm: nat, x: int, y: int, skipSelf: bool, p: (nat, nat))
    requires 1 <= y < dim - 1 && p in RowCalls(g, dim, cm, x, y, skipSelf)
    ensures p in PlaneCalls(g, dim, cm, x, skipSelf)
  {
    var f := RowFn(g, dim, cm, x, skipSelf);
    assert f(y) == RowCalls(g, dim, cm, x, y, skipSelf);
    InSpan(f, y, 1, dim - 1, p);
  }

  /** Every call of a loop is a call its body makes for some i in [lo, hi). */
  lemma {:induction false} SpanSource(f: int -> Trace, lo: int, hi: int, p: (nat, nat)) returns (i: int)
    requires p in Span(f, lo, hi)
    decreases hi - lo
    ensures lo <= i < hi && p in f(i)
  {
    if p in f(hi - 1) {
      i := hi - 1;
    } else {
      i := SpanSource(f, lo, hi - 1, p);
    }
  }

  /** Every call of the offset loops comes from the scan of one of the cells `others`. */
  lemma {:induction false} PairScanSource(g: seq<Slot>, dim: nat, cm: nat, cur: Cell, others: seq<Cell>,
                                          skipSelf: bool, p: (nat, nat)) returns (k: nat)
    requires p in PairScan(g, dim, cm, cur, others, skipSelf)
    ensures k < |others|
    ensures p in CellPairs(Run(g, NodeBase(dim, cm, cur)), Run(g, NodeBase(dim, cm, others[k])), skipSelf)
  {
    var last := |others| - 1;
    if p in CellPairs(Run(g, NodeBase(dim, cm, cur)), Run(g, NodeBase(dim, cm, others[last])), skipSelf) {
      k := last;
    } else {
      k := PairScanSource(g, dim, cm, cur, others[..last], skipSelf, p);
    }
  }

  /** The sweep makes no other calls: each pair it hands on was read from the bucket of an
      interior cell c of the slab and from the bucket of one of c's 27 neighbours, and is never a
      particle with itself when `skipSelf` holds. */
  lemma SweepSound(g: seq<Slot>, dim: nat, cm: nat, lo: int, hi: int, skipSelf: bool, p: (nat, nat))
    returns (c: Cell, dx: int, dy: int, dz: int)
    requires p in SlabCalls(g, dim, cm, lo, hi, skipSelf)
    ensures lo <= c.x < hi && 1 <= c.y < dim - 1 && 1 <= c.z < dim - 1
    ensures -1 <= dx <= 1 && -1 <= dy <= 1 && -1 <= dz <= 1
    ensures p.0 in Run(g, NodeBase(dim, cm, c))
    ensures p.1 in Run(g, NodeBase(dim, cm, Neighbour(c, dx, dy, dz)))
    ensures !(skipSelf && p.0 == p.1)
  {
    var x := SpanSource(PlaneFn(g, dim, cm, skipSelf), lo, hi, p);
    assert p in PlaneCalls(g, dim, cm, x, skipSelf);
    var y := SpanSource(RowFn(g, dim, cm, x, skipSelf), 1, dim - 1, p);
    assert p in RowCalls(g, dim, cm, x, y, skipSelf);
    var z := SpanSource(CellFn(g, dim, cm, x, y, skipSelf), 1, dim - 1, p);
    c := Cell(x, y, z);
    assert p in PairScan(g, dim, cm, c, Neighbourhood(c), skipSelf);
    var n := PairScanSource(g, dim, cm, c, Neighbourhood(c), skipSelf, p);
    dx, dy, dz := Offset(n).0, Offset(n).1, Offset(n).2;
    assert Neighbourhood(c)[n] == Neighbour(c, dx, dy, dz);
    CellPairsMembers(Run(g, NodeBase(dim, cm, c)), Run(g, NodeBase(dim, cm, Neighbourhood(c)[n])), skipSelf, p);
  }

  /** In the packed grid, the scan of a bucket reads at least all of the bucket's members. */
  lemma MembersInRun(bs: seq<nat>, cm: nat, cells: nat, b: nat, j: nat)
    requires 0 < cm && b < cells && NoOverflow(bs, cm)
    requires forall k | 0 <= k < |bs| :: bs[k] < cells
    requires j < |bs| && bs[j] == b
    ensures j in Run(Layout(bs, cm, cells), b * cm)
  {
    var g := Layout(bs, cm, cells);
    var ms := Members(bs, b);
    var rank := Rank(bs, j);
    MembersComplete(bs, j);
    forall o | 0 <= o <= rank
      ensures SlotAt(g, b * cm + o) == Occupant(ms[o])
    {
      LayoutInBucket(bs, cm, cells, b, o);
    }
    PrefixInRun(g, b * cm, ms, rank);
  }

  /** A scan from slot i reads every particle of a run of occupied slots starting at i. */
  lemma {:induction false} PrefixInRun(g: seq<Slot>, i: int, ms: seq<nat>, rank: nat)
    requires rank < |ms|
    requires forall o | 0 <= o <= rank :: SlotAt(g, i + o) == Occupant(ms[o])
    decreases rank
    ensures ms[rank] in Run(g, i)
  {
    assert SlotAt(g, i + 0) == Occupant(ms[0]);
    if 0 < rank {
      forall o | 0 <= o <= rank - 1
        ensures SlotAt(g, i + 1 + o) == Occupant(ms[1..][o])
      {
        assert SlotAt(g, i + (o + 1)) == Occupant(ms[o + 1]);
      }
      PrefixInRun(g, i + 1, ms[1..], rank - 1);
    }
  }

  /** The broad phase is complete: after `ClearGrid` and `FillGrid` with no bucket over capacity,
      the sweep checks particle i against every other particle j whose cell is one of the 27 cells
      around i's cell, provided i's cell is interior. */
  lemma BroadPhaseComplete(dim: nat, cm: nat, cells: seq<Cell>, i: nat, j: nat, dx: int, dy: int, dz: int,
                           skipSelf: bool)
    requires 2 <= dim && 0 < cm
    requires forall k | 0 <= k < |cells| :: InGrid(dim, cells[k])
    requires NoOverflow(Buckets(dim, cells), cm)
    requires i < |cells| && j < |cells| && i != j
    requires Interior(dim, cells[i])
    requires -1 <= dx <= 1 && -1 <= dy <= 1 && -1 <= dz <= 1
    requires cells[j] == Neighbour(cells[i], dx, dy, dz)
    ensures (i, j) in SlabCalls(Layout(Buckets(dim, cells), cm, dim * dim * dim), dim, cm, 1, dim - 1, skipSelf)
  {
    var bs := Buckets(dim, cells);
    var g := Layout(bs, cm, dim * dim * dim);
    CellNumberRange(dim, cells[i]);
    CellNumberRange(dim, cells[j]);
    MembersInRun(bs, cm, dim * dim * dim, bs[i], i);
    MembersInRun(bs, cm, dim * dim * dim, bs[j], j);
    SweepCoversNeighbours(g, dim, cm, cells[i], dx, dy, dz, skipSelf, i, j);
  }

  // ---------------------------------------------------------------------------------------------
  // The sweep itself, on the grid array. These methods only read the grid.

  lemma RunStep(g: seq<Slot>, i: int)
    requires 0 <= i < |g| && g[i] != Null
    ensures Run(g, i) == [g[i].id] + Run(g, i + 1)
  {
  }

  lemma RunEnd(g: seq<Slot>, i: int)
    requires !(0 <= i < |g| && g[i] != Null)
    ensures Run(g, i) == []
  {
  }

  /** One step of a scan from slot `base`: the particle at slot i moves from the unread part of
      the run to the part already read. */
  lemma RunAdvance(g: seq<Slot>, base: int, i: int, read: seq<nat>)
    requires 0 <= i < |g| && g[i] != Null
    requires read + Run(g, i) == Run(g, base)
    ensures (read + [g[i].id]) + Run(g, i + 1) == Run(g, base)
  {
    RunStep(g, i);
    assert read + ([g[i].id] + Run(g, i + 1)) == (read + [g[i].id]) + Run(g, i + 1);
  }

  /** The end of a scan from slot `base`: everything has been read. */
  lemma RunDone(g: seq<Slot>, base: int, i: int, read: seq<nat>)
    requires !(0 <= i < |g| && g[i] != Null)
    requires read + Run(g, i) == Run(g, base)
    ensures read == Run(g, base)
  {
    RunEnd(g, i);
    assert read + [] == read;
  }

  lemma CellPairsSnoc(done: seq<nat>, v: nat, bs: seq<nat>, skipSelf: bool)
    ensures CellPairs(done + [v], bs, skipSelf) == CellPairs(done, bs, skipSelf) + Row(v, bs, skipSelf)
  {
    assert (done + [v])[..|done|] == done;
  }

  lemma RowSnoc(v: nat, seen: seq<nat>, w: nat, skipSelf: bool)
    ensures Row(v, seen + [w], skipSelf) == Row(v, seen, skipSelf) + (if skipSelf && v == w then [] else [(v, w)])
  {
    assert (seen + [w])[..|seen|] == seen;
  }

  /** `VerletCollision`: the outer scan of the current bucket; `ScanRow` is its inner scan of
      the other bucket. */
  method ScanPairs(g: array<Slot>, cur: nat, other: nat, skipSelf: bool) returns (calls: Trace)
    ensures calls == CellPairs(Run(g[..], cur), Run(g[..], other), skipSelf)
  {
    ghost var gs := g[..];
    ghost var bs := Run(gs, other);
    calls := [];
    ghost var done: seq<nat> := [];
    var a := 0;
    while cur + a < g.Length && g[cur + a] != Null
      invariant done + Run(gs, cur + a) == Run(gs, cur)
      invariant calls == CellPairs(done, bs, skipSelf)
      decreases g.Length - a
    {
      var v1 := g[cur + a].id;
      RunAdvance(gs, cur, cur + a, done);
      var row := ScanRow(g, v1, other, skipSelf);
      calls := calls + row;
      CellPairsSnoc(done, v1, bs, skipSelf);
      done := done + [v1];
      a := a + 1;
    }
    RunDone(gs, cur, cur + a, done);
  }

  /** The inner loop of `VerletCollision`: particle v1 against every particle read from the other
      bucket, skipping v1 itself when `skipSelf` holds. */
  method ScanRow(g: array<Slot>, v1: nat, other: nat, skipSelf: bool) returns (row: Trace)
    ensures row == Row(v1, Run(g[..], other), skipSelf)
  {
    ghost var gs := g[..];
    ghost var bs := Run(gs, other);
    ghost var seen: seq<nat> := [];
    row := [];
    var b := 0;
    while other + b < g.Length && g[other + b] != Null
      invariant seen + Run(gs, other + b) == bs
      invariant row == Row(v1, seen, skipSelf)
      decreases g.Length - b
    {
      var v2 := g[other + b].id;
      RunAdvance(gs, other, other + b, seen);
      RowSnoc(v1, seen, v2, skipSelf);
      if !skipSelf || v1 != v2 {
        row := row + [(v1, v2)];
      }
      seen := seen + [v2];
      b := b + 1;
    }
    RunDone(gs, other, other + b, seen);
  }

  lemma PairScanSnoc(g: seq<Slot>, dim: nat, cm: nat, c: Cell, visited: seq<Cell>, d: Cell, skipSelf: bool)
    ensures PairScan(g, dim, cm, c, visited + [d], skipSelf)
         == PairScan(g, dim, cm, c, visited, skipSelf)
            + CellPairs(Run(g, NodeBase(dim, cm, c)), Run(g, NodeBase(dim, cm, d)), skipSelf)
  {
    assert (visited + [d])[..|visited|] == visited;
  }

  /** `visited` is a prefix of the neighbourhood of c in loop order. */
  ghost predicate VisitedInOrder(c: Cell, visited: seq<Cell>) {
    forall k | 0 <= k < |visited| :: visited[k] == OffsetCell(c, k)
  }

  /** The offset loops visit the neighbourhood in order: offset (dx, dy, dz) is the next cell. */
  lemma VisitNext(c: Cell, visited: seq<Cell>, dx: int, dy: int, dz: int)
    requires -1 <= dx <= 1 && -1 <= dy <= 1 && -1 <= dz <= 1
    requires VisitedInOrder(c, visited) && |visited| == 9 * (dx + 1) + 3 * (dy + 1) + (dz + 1)
    ensures VisitedInOrder(c, visited + [Neighbour(c, dx, dy, dz)])
  {
    OffsetOf(dx, dy, dz);
  }

  lemma VisitedAll(c: Cell, visited: seq<Cell>)
    requires VisitedInOrder(c, visited) && |visited| == 27
    ensures visited == Neighbourhood(c)
  {
  }

  /** The body of the offset loops: skip an empty neighbour bucket, otherwise scan it. */
  method ScanNeighbour(g: array<Slot>, cur: nat, other: nat, skipSelf: bool) returns (pairs: Trace)
    requires other < g.Length
    ensures pairs == CellPairs(Run(g[..], cur), Run(g[..], other), skipSelf)
  {
    if g[other] != Null {
      pairs := ScanPairs(g, cur, other, skipSelf);
    } else {
      RunEnd(g[..], other);
      CellPairsEmptyOther(Run(g[..], cur), skipSelf);
      pairs := [];
    }
  }

  /** The body of the x/y/z loops for one interior cell: skip an empty current bucket, otherwise
      run the offset loops, skipping empty neighbour buckets. */
  method SweepCell(g: array<Slot>, dim: nat, cm: nat, c: Cell, skipSelf: bool) returns (calls: Trace)
    requires 0 < cm && g.Length == GridSize(dim, cm) && Interior(dim, c)
    ensures calls == CellCalls(g[..], dim, cm, c, skipSelf)
  {
    ghost var gs := g[..];
    NodeBaseInBounds(dim, cm, c);
    var cur := NodeBase(dim, cm, c);
    if g[cur] == Null {
      RunEnd(gs, cur);
      PairScanOfEmpty(gs, dim, cm, c, Neighbourhood(c), skipSelf);
      return [];
    }
    calls := [];
    ghost var visited: seq<Cell> := [];
    for dx := -1 to 2
      invariant |visited| == 9 * (dx + 1) && VisitedInOrder(c, visited)
      invariant calls == PairScan(gs, dim, cm, c, visited, skipSelf)
    {
      for dy := -1 to 2
        invariant |visited| == 9 * (dx + 1) + 3 * (dy + 1) && VisitedInOrder(c, visited)
        invariant calls == PairScan(gs, dim, cm, c, visited, skipSelf)
      {
        for dz := -1 to 2
          invariant |visited| == 9 * (dx + 1) + 3 * (dy + 1) + (dz + 1) && VisitedInOrder(c, visited)
          invariant calls == PairScan(gs, dim, cm, c, visited, skipSelf)
        {
          VisitNext(c, visited, dx, dy, dz);
          NeighbourBucketInBounds(dim, cm, c, dx, dy, dz);
          var next := Neighbour(c, dx, dy, dz);
          PairScanSnoc(gs, dim, cm, c, visited, next, skipSelf);
          var pairs := ScanNeighbour(g, cur, NodeBase(dim, cm, next), skipSelf);
          calls := calls + pairs;
          visited := visited + [next];
        }
      }
    }
    VisitedAll(c, visited);
  }

  /** One loop step: the loop over [lo, hi + 1) is the loop over [lo, hi) and then body hi. */
  lemma SpanStep(f: int -> Trace, lo: int, hi: int)
    requires lo <= hi
    ensures Span(f, lo, hi + 1) == Span(f, lo, hi) + f(hi)
  {
  }

  /** The z loop for fixed x and y. */
  method SweepRow(g: array<Slot>, dim: nat, cm: nat, x: int, y: int, skipSelf: bool) returns (calls: Trace)
    requires 0 < cm && g.Length == GridSize(dim, cm)
    requires 1 <= x < dim - 1 && 1 <= y < dim - 1
    ensures calls == RowCalls(g[..], dim, cm, x, y, skipSelf)
  {
    ghost var f := CellFn(g[..], dim, cm, x, y, skipSelf);
    calls := [];
    var z := 1;
    while z < dim - 1
      invariant 1 <= z <= dim - 1
      invariant calls == Span(f, 1, z)
    {
      var cellCalls := SweepCell(g, dim, cm, Cell(x, y, z), skipSelf);
      SpanStep(f, 1, z);
      calls := calls + cellCalls;
      z := z + 1;
    }
  }

  /** The y loop for fixed x. */
  method SweepPlane(g: array<Slot>, dim: nat, cm: nat, x: int, skipSelf: bool) returns (calls: Trace)
    requires 0 < cm && g.Length == GridSize(dim, cm)
    requires 1 <= x < dim - 1
    ensures calls == PlaneCalls(g[..], dim, cm, x, skipSelf)
  {
    ghost var f := RowFn(g[..], dim, cm, x, skipSelf);
    calls := [];
    var y := 1;
    while y < dim - 1
      invariant 1 <= y <= dim - 1
      invariant calls == Span(f, 1, y)
    {
      var rowCalls := SweepRow(g, dim, cm, x, y, skipSelf);
      SpanStep(f, 1, y);
      calls := calls + rowCalls;
      y := y + 1;
    }
  }

  /** The x loop over the slab x in [lo, hi), y and z in [1, DIM-1). */
  method SweepSlab(g: array<Slot>, dim: nat, cm: nat, lo: int, hi: int, skipSelf: bool) returns (calls: Trace)
    requires 0 < cm && g.Length == GridSize(dim, cm)
    requires 1 <= lo <= hi <= dim - 1
    ensures calls == SlabCalls(g[..], dim, cm, lo, hi, skipSelf)
  {
    ghost var gs := g[..];
    calls := [];
    var x := lo;
    while x < hi
      invariant lo <= x <= hi
      invariant calls == SlabCalls(gs, dim, cm, lo, x, skipSelf)
    {
      var planeCalls := SweepPlane(g, dim, cm, x, skipSelf);
      SlabStep(gs, dim, cm, lo, x, skipSelf);
      calls := calls + planeCalls;
      x := x + 1;
    }
  }

  lemma SlabStep(g: seq<Slot>, dim: nat, cm: nat, lo: int, x: int, skipSelf: bool)
    requires lo <= x
    ensures SlabCalls(g, dim, cm, lo, x + 1, skipSelf) == SlabCalls(g, dim, cm, lo, x, skipSelf) + PlaneCalls(g, dim, cm, x, skipSelf)
  {
    SpanStep(PlaneFn(g, dim, cm, skipSelf), lo, x);
  }
}

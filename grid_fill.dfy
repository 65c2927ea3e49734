/** Filling the collision grid: `InsertNode` in verlet.cpp scans forward from a bucket's first slot
    to the first empty slot without wrapping; `InsertNode` in octree.cpp does the same but wraps
    around modulo the grid size. Both `FillGrid` and `FillTree` insert particle ids 0..n-1 in
    order. This module holds the specification functions of those probes and fills, and what they
    guarantee: each inserted id occupies exactly one slot and, when no bucket receives more than
    CELL_MAX particles, that slot lies in the particle's own bucket. */
module GridFill {
  import opened Wrappers
  import opened GridIndex

  predicate AllNull(g: seq<Slot>) {
    forall k | 0 <= k < |g| :: g[k] == Null
  }

  function Nulls(n: nat): (r: seq<Slot>)
    ensures |r| == n && AllNull(r)
  {
    seq(n, _ => Null)
  }

  /** Number of non-null slots. */
  function Occupied(g: seq<Slot>): (n: nat)
    ensures n <= |g|
  {
    if g == [] then 0 else Occupied(g[..|g| - 1]) + (if g[|g| - 1].Occupant? then 1 else 0)
  }

  lemma {:induction false} OccupiedAllNull(g: seq<Slot>)
    requires AllNull(g)
    ensures Occupied(g) == 0
  {
    if g != [] {
      OccupiedAllNull(g[..|g| - 1]);
    }
  }

  /** Filling one empty slot raises the occupancy by exactly one. */
  lemma {:induction false} OccupiedPut(g: seq<Slot>, k: nat, id: nat)
    requires k < |g| && g[k] == Null
    ensures Occupied(g[k := Occupant(id)]) == Occupied(g) + 1
  {
    var h := g[k := Occupant(id)];
    if k == |g| - 1 {
      assert h[..|h| - 1] == g[..|g| - 1];
    } else {
      assert h[..|h| - 1] == g[..|g| - 1][k := Occupant(id)];
      OccupiedPut(g[..|g| - 1], k, id);
    }
  }

  /** A grid that is not full has an empty slot. */
  lemma {:induction false} NullExists(g: seq<Slot>)
    requires Occupied(g) < |g|
    ensures exists k :: 0 <= k < |g| && g[k] == Null
  {
    if g[|g| - 1] != Null {
      NullExists(g[..|g| - 1]);
      var k :| 0 <= k < |g| - 1 && g[..|g| - 1][k] == Null;
      assert g[k] == Null;
    }
  }

  // ---------------------------------------------------------------------------------------------
  // The linear probe of verlet.cpp: the first empty slot at or after i; a result >= |g| means
  // the scan would run past the end of the array.

  function FirstNullFrom(g: seq<Slot>, i: nat): (r: nat)
    decreases |g| - i
    ensures i <= r && (r == i || r <= |g|)
    ensures r < |g| ==> g[r] == Null
    ensures forall k | i <= k < r :: g[k] != Null
  {
    if i >= |g| || g[i] == Null then i
    else FirstNullFrom(g, i + 1)
  }

  // ---------------------------------------------------------------------------------------------
  // The wrapping probe of octree.cpp: starting at slot `start`, step m visits slot
  // (start + m) % |g|. WrapSteps counts the steps, from step s on, until an empty slot is
  // visited; |g| steps means every slot was visited and none was empty.

  /** The slot visited at step m of a probe that starts at slot `start`. */
  function Visit(g: seq<Slot>, start: nat, m: nat): Slot
    requires 0 < |g|
  {
    g[(start + m) % |g|]
  }

  function WrapSteps(g: seq<Slot>, start: nat, s: nat): (n: nat)
    requires 0 < |g| && s <= |g|
    decreases |g| - s
    ensures s <= n <= |g|
    ensures n < |g| ==> Visit(g, start, n) == Null
    ensures forall m | s <= m < n :: Visit(g, start, m) != Null
  {
    if s == |g| || Visit(g, start, s) == Null then s else WrapSteps(g, start, s + 1)
  }

  /** The slot where the wrapping probe from `start` stores its particle. */
  function WrapProbe(g: seq<Slot>, start: nat): (r: nat)
    requires start < |g|
    ensures WrapSteps(g, start, 0) < |g| ==> r < |g| && g[r] == Null
  {
    (start + WrapSteps(g, start, 0)) % |g|
  }

  lemma ModBelow(k: int, n: int)
    requires 0 <= k < n
    ensures k % n == k && (k + n) % n == k
  {
  }

  /** The wrapping probe finds an empty slot whenever the grid has one. */
  lemma WrapProbeFindsNull(g: seq<Slot>, start: nat)
    requires start < |g|
    requires exists k :: 0 <= k < |g| && g[k] == Null
    ensures WrapSteps(g, start, 0) < |g|
  {
    var k :| 0 <= k < |g| && g[k] == Null;
    var m := if k >= start then k - start else k + |g| - start;
    ModBelow(k, |g|);
    assert Visit(g, start, m) == Null;
  }

  /** When the linear probe finds an empty slot before the end of the array, the wrapping probe
      finds the same slot. */
  lemma WrapProbeMatchesLinear(g: seq<Slot>, start: nat)
    requires start < |g| && FirstNullFrom(g, start) < |g|
    ensures WrapSteps(g, start, 0) == FirstNullFrom(g, start) - start
    ensures WrapProbe(g, start) == FirstNullFrom(g, start)
  {
    var r := FirstNullFrom(g, start);
    forall m | 0 <= m <= r - start
      ensures Visit(g, start, m) == g[start + m]
    {
      ModBelow(start + m, |g|);
    }
    WrapStepsIs(g, start, r - start);
    ModBelow(r, |g|);
  }

  /** The probe takes n steps when step n is the first to visit an empty slot. */
  lemma WrapStepsIs(g: seq<Slot>, start: nat, n: nat)
    requires n < |g| && Visit(g, start, n) == Null
    requires forall m | 0 <= m < n :: Visit(g, start, m) != Null
    ensures WrapSteps(g, start, 0) == n
  {
  }

  // ---------------------------------------------------------------------------------------------
  // FillTree: ids 0..n-1 inserted in order by the wrapping probe, id j from slot bases[j].

  function FillWrap(g: seq<Slot>, bases: seq<nat>): (r: seq<Slot>)
    requires forall j | 0 <= j < |bases| :: bases[j] < |g|
    requires Occupied(g) + |bases| <= |g|
    ensures |r| == |g|
    ensures Occupied(r) == Occupied(g) + |bases|
  {
    if bases == [] then g
    else
      var n := |bases| - 1;
      var prev := FillWrap(g, bases[..n]);
      NullExists(prev);
      WrapProbeFindsNull(prev, bases[n]);
      var k := WrapProbe(prev, bases[n]);
      OccupiedPut(prev, k, n);
      prev[k := Occupant(n)]
  }

  /** Filling one more particle probes from its base on the grid the earlier particles left. */
  lemma FillWrapSnoc(g: seq<Slot>, bases: seq<nat>, b: nat)
    requires forall j | 0 <= j < |bases| :: bases[j] < |g|
    requires b < |g| && Occupied(g) + |bases| + 1 <= |g|
    ensures |FillWrap(g, bases)| == |g| && Occupied(FillWrap(g, bases)) < |g|
    ensures WrapProbe(FillWrap(g, bases), b) < |g|
    ensures FillWrap(g, bases + [b])
         == FillWrap(g, bases)[WrapProbe(FillWrap(g, bases), b) := Occupant(|bases|)]
  {
    assert (bases + [b])[..|bases|] == bases;
    NullExists(FillWrap(g, bases));
    WrapProbeFindsNull(FillWrap(g, bases), b);
  }

  /** The grid holds exactly the ids 0..n-1, each in exactly one slot. */
  ghost predicate HoldsEachOnce(g: seq<Slot>, n: nat) {
    && (forall k | 0 <= k < |g| && g[k].Occupant? :: g[k].id < n)
    && (forall j | 0 <= j < n :: exists k :: 0 <= k < |g| && g[k] == Occupant(j))
    && (forall k1, k2 | 0 <= k1 < k2 < |g| && g[k1].Occupant? :: g[k1] != g[k2])
  }

  /** Storing the next id in an empty slot keeps every id exactly once. */
  lemma InsertKeepsEachOnce(g: seq<Slot>, n: nat, k: nat)
    requires HoldsEachOnce(g, n) && k < |g| && g[k] == Null
    ensures HoldsEachOnce(g[k := Occupant(n)], n + 1)
  {
    var h := g[k := Occupant(n)];
    forall j | 0 <= j < n + 1
      ensures exists k' :: 0 <= k' < |h| && h[k'] == Occupant(j)
    {
      if j == n {
        assert h[k] == Occupant(j);
      } else {
        var k' :| 0 <= k' < |g| && g[k'] == Occupant(j);
        assert h[k'] == Occupant(j);
      }
    }
  }

  /** After `ClearTree` then `FillTree` of n <= DIM³·CELL_MAX particles, exactly n slots are
      occupied and each of the ids 0..n-1 is in exactly one of them. */
  lemma {:induction false} FillWrapHoldsEachOnce(g: seq<Slot>, bases: seq<nat>)
    requires AllNull(g)
    requires forall j | 0 <= j < |bases| :: bases[j] < |g|
    requires |bases| <= |g|
    ensures Occupied(g) == 0
    ensures HoldsEachOnce(FillWrap(g, bases), |bases|)
    ensures Occupied(FillWrap(g, bases)) == |bases|
  {
    OccupiedAllNull(g);
    if bases != [] {
      var n := |bases| - 1;
      FillWrapHoldsEachOnce(g, bases[..n]);
      var prev := FillWrap(g, bases[..n]);
      NullExists(prev);
      WrapProbeFindsNull(prev, bases[n]);
      InsertKeepsEachOnce(prev, n, WrapProbe(prev, bases[n]));
    }
  }

  // ---------------------------------------------------------------------------------------------
  // FillGrid: ids 0..n-1 inserted in order by the linear probe, id j from slot bases[j]. None
  // when some probe would read past the end of the array (undefined behaviour in the source).

  function FillLinear(g: seq<Slot>, bases: seq<nat>): (r: Option<seq<Slot>>)
    ensures r.Some? ==> |r.value| == |g|
  {
    if bases == [] then Some(g)
    else
      var n := |bases| - 1;
      match FillLinear(g, bases[..n])
      case None => None
      case Some(prev) =>
        var k := FirstNullFrom(prev, bases[n]);
        if k < |prev| then Some(prev[k := Occupant(n)]) else None
  }

  /** Filling one more particle: the linear probe from its base on the grid the earlier ones left. */
  lemma FillLinearSnoc(g: seq<Slot>, bases: seq<nat>, b: nat, prev: seq<Slot>)
    requires FillLinear(g, bases) == Some(prev) && FirstNullFrom(prev, b) < |prev|
    ensures FillLinear(g, bases + [b]) == Some(prev[FirstNullFrom(prev, b) := Occupant(|bases|)])
  {
    assert (bases + [b])[..|bases|] == bases;
  }

  /** A fill that stays inside the array also does so for every prefix of the particles. */
  lemma {:induction false} FillLinearPrefix(g: seq<Slot>, bases: seq<nat>, i: nat)
    requires i <= |bases| && FillLinear(g, bases).Some?
    decreases |bases|
    ensures FillLinear(g, bases[..i]).Some?
  {
    if i < |bases| {
      var n := |bases| - 1;
      assert bases[..n][..i] == bases[..i];
      FillLinearPrefix(g, bases[..n], i);
    } else {
      assert bases[..i] == bases;
    }
  }

  /** Step i of a fill that stays inside the array: the probe of particle i, on the grid particles
      0..i-1 left, finds an empty slot inside the array and fills it. */
  lemma FillLinearStep(g: seq<Slot>, bases: seq<nat>, i: nat, prev: seq<Slot>)
    requires i < |bases| && FillLinear(g, bases).Some?
    requires FillLinear(g, bases[..i]) == Some(prev)
    ensures FirstNullFrom(prev, bases[i]) < |prev|
    ensures FillLinear(g, bases[..i + 1]) == Some(prev[FirstNullFrom(prev, bases[i]) := Occupant(i)])
  {
    FillLinearPrefix(g, bases, i + 1);
    assert bases[..i + 1][..i] == bases[..i];
  }

  /** After `ClearGrid` then a `FillGrid` that stays inside the array, each of the ids 0..n-1 is in
      exactly one slot and exactly n slots are occupied. */
  lemma {:induction false} FillLinearHoldsEachOnce(g: seq<Slot>, bases: seq<nat>)
    requires AllNull(g) && FillLinear(g, bases).Some?
    ensures Occupied(g) == 0
    ensures HoldsEachOnce(FillLinear(g, bases).value, |bases|)
    ensures Occupied(FillLinear(g, bases).value) == |bases|
  {
    OccupiedAllNull(g);
    if bases != [] {
      var n := |bases| - 1;
      FillLinearPrefix(g, bases, n);
      assert bases[..n] == bases[..n][..n];
      FillLinearHoldsEachOnce(g, bases[..n]);
      var prev := FillLinear(g, bases[..n]).value;
      var k := FirstNullFrom(prev, bases[n]);
      InsertKeepsEachOnce(prev, n, k);
      OccupiedPut(prev, k, n);
    } else {
      assert forall k | 0 <= k < |g| :: !g[k].Occupant?;
    }
  }

  // ---------------------------------------------------------------------------------------------
  // Bucket discipline. bs[j] is the bucket number of particle j; bucket b owns slots
  // [b·cm, b·cm + cm). When no bucket receives more than cm particles, the fill places the
  // members of each bucket at its front, in insertion order, and leaves the rest empty.

  /** The ids whose bucket is b, in insertion order. */
  function Members(bs: seq<nat>, b: nat): seq<nat> {
    if bs == [] then []
    else Members(bs[..|bs| - 1], b) + (if bs[|bs| - 1] == b then [|bs| - 1] else [])
  }

  /** Position of particle j within its bucket: the number of earlier particles in that bucket. */
  function Rank(bs: seq<nat>, j: nat): nat
    requires j < |bs|
  {
    |Members(bs[..j], bs[j])|
  }

  /** No bucket receives more than cm particles. */
  predicate NoOverflow(bs: seq<nat>, cm: nat) {
    forall j | 0 <= j < |bs| :: |Members(bs, bs[j])| <= cm
  }

  /** Slot k of the packed grid: the (k % cm)-th member of bucket k / cm, or empty. */
  function LayoutAt(bs: seq<nat>, cm: nat, k: nat): Slot
    requires 0 < cm
  {
    var ms := Members(bs, k / cm);
    if k % cm < |ms| then Occupant(ms[k % cm]) else Null
  }

  function Layout(bs: seq<nat>, cm: nat, cells: nat): (r: seq<Slot>)
    requires 0 < cm
    ensures |r| == cells * cm
  {
    seq(cells * cm, k requires 0 <= k => LayoutAt(bs, cm, k))
  }

  lemma MembersAppend(bs: seq<nat>, x: nat, b: nat)
    ensures Members(bs + [x], b) == Members(bs, b) + (if x == b then [|bs|] else [])
  {
    assert (bs + [x])[..|bs|] == bs;
  }

  /** Every member of bucket b is a particle whose bucket is b, and its rank is its position. */
  lemma {:induction false} MembersSound(bs: seq<nat>, b: nat, o: nat)
    requires o < |Members(bs, b)|
    ensures Members(bs, b)[o] < |bs| && bs[Members(bs, b)[o]] == b
    ensures Rank(bs, Members(bs, b)[o]) == o
  {
    var n := |bs| - 1;
    var init := bs[..n];
    if o < |Members(init, b)| {
      MembersSound(init, b, o);
      var j := Members(init, b)[o];
      assert bs[..j] == init[..j];
    } else {
      assert Members(bs, b)[o] == n && bs[n] == b;
      assert bs[..n] == init;
    }
  }

  /** Every particle is a member of its own bucket, at its rank. */
  lemma {:induction false} MembersComplete(bs: seq<nat>, j: nat)
    requires j < |bs|
    ensures Rank(bs, j) < |Members(bs, bs[j])|
    ensures Members(bs, bs[j])[Rank(bs, j)] == j
  {
    var n := |bs| - 1;
    var init := bs[..n];
    if j < n {
      MembersComplete(init, j);
      assert init[..j] == bs[..j];
    } else {
      assert bs[..j] == init;
    }
  }

  lemma NoOverflowPrefix(bs: seq<nat>, x: nat, cm: nat)
    requires NoOverflow(bs + [x], cm)
    ensures NoOverflow(bs, cm)
    ensures |Members(bs, x)| < cm
  {
    MembersAppend(bs, x, x);
    assert (bs + [x])[|bs|] == x;
    forall j | 0 <= j < |bs|
      ensures |Members(bs, bs[j])| <= cm
    {
      MembersAppend(bs, x, bs[j]);
      assert (bs + [x])[j] == bs[j];
    }
  }

  lemma DivModOf(b: nat, o: nat, cm: nat)
    requires o < cm
    ensures (b * cm + o) / cm == b && (b * cm + o) % cm == o
  {
    var k := b * cm + o;
    DivMod(k, cm);
    UniqueDecomposition(cm, b, o, k / cm, k % cm);
  }

  lemma BucketSlotInGrid(b: nat, o: nat, cm: nat, cells: nat)
    requires b < cells && o < cm
    ensures b * cm + o < cells * cm
  {
    MulLe(b + 1, cells, cm);
  }

  /** The empty grid is the packing of no particles. */
  lemma LayoutEmpty(cm: nat, cells: nat)
    requires 0 < cm
    ensures Layout([], cm, cells) == Nulls(cells * cm)
  {
  }

  /** Slot k is slot o of bucket b exactly when k / cm == b and k % cm == o. */
  lemma SlotOfBucket(k: nat, b: nat, o: nat, cm: nat)
    requires o < cm
    ensures (k == b * cm + o) <==> (k / cm == b && k % cm == o)
  {
    DivModOf(b, o, cm);
    DivMod(k, cm);
  }

  lemma LayoutAtInsert(bs: seq<nat>, x: nat, cm: nat, k: nat)
    requires 0 < cm
    ensures LayoutAt(bs + [x], cm, k)
         == if k / cm == x && k % cm == |Members(bs, x)| then Occupant(|bs|) else LayoutAt(bs, cm, k)
  {
    MembersAppend(bs, x, k / cm);
  }

  /** Slot o of bucket b in the packed grid holds the o-th member of the bucket, if any. */
  lemma LayoutInBucket(bs: seq<nat>, cm: nat, cells: nat, b: nat, o: nat)
    requires 0 < cm && b < cells && o < cm
    ensures b * cm + o < cells * cm
    ensures Layout(bs, cm, cells)[b * cm + o]
         == if o < |Members(bs, b)| then Occupant(Members(bs, b)[o]) else Null
  {
    BucketSlotInGrid(b, o, cm, cells);
    DivModOf(b, o, cm);
  }

  /** The linear probe from i stops at r when r is empty and every slot in [i, r) is occupied. */
  lemma FirstNullIs(g: seq<Slot>, i: nat, r: nat)
    requires i <= r < |g| && g[r] == Null
    requires forall k | i <= k < r :: g[k] != Null
    ensures FirstNullFrom(g, i) == r
  {
  }

  /** In the packed grid, the linear probe from the first slot of bucket x stops at the bucket's
      first free slot, which lies inside the bucket while the bucket is below capacity. */
  lemma ProbeStaysInBucket(bs: seq<nat>, x: nat, cm: nat, cells: nat)
    requires 0 < cm && x < cells && |Members(bs, x)| < cm
    ensures FirstNullFrom(Layout(bs, cm, cells), x * cm) == x * cm + |Members(bs, x)| < cells * cm
  {
    var g := Layout(bs, cm, cells);
    var m := |Members(bs, x)|;
    var base := x * cm;
    LayoutInBucket(bs, cm, cells, x, m);
    forall k | base <= k < base + m
      ensures g[k] != Null
    {
      LayoutInBucket(bs, cm, cells, x, k - base);
    }
    FirstNullIs(g, base, base + m);
  }

  /** Inserting particle |bs| with bucket x into the packed grid: the linear probe from the bucket's
      first slot stops at the bucket's first free slot, inside the bucket, and the result is the
      packing of bs + [x]. */
  lemma LayoutInsert(bs: seq<nat>, x: nat, cm: nat, cells: nat)
    requires 0 < cm && x < cells
    requires NoOverflow(bs + [x], cm)
    ensures |Members(bs, x)| < cm
    ensures FirstNullFrom(Layout(bs, cm, cells), x * cm) == x * cm + |Members(bs, x)| < cells * cm
    ensures Layout(bs + [x], cm, cells)
         == Layout(bs, cm, cells)[x * cm + |Members(bs, x)| := Occupant(|bs|)]
  {
    NoOverflowPrefix(bs, x, cm);
    ProbeStaysInBucket(bs, x, cm, cells);
    var g := Layout(bs, cm, cells);
    var m := |Members(bs, x)|;
    var h := Layout(bs + [x], cm, cells);
    forall k | 0 <= k < |h|
      ensures h[k] == g[x * cm + m := Occupant(|bs|)][k]
    {
      LayoutAtInsert(bs, x, cm, k);
      SlotOfBucket(k, x, m, cm);
    }
  }

  /** After `ClearGrid` then `FillGrid` with no bucket over capacity: particle j occupies exactly
      one slot, the one at position Rank(bs, j) < cm of its own bucket bs[j]. */
  lemma LayoutPlacesEach(bs: seq<nat>, cm: nat, cells: nat, j: nat)
    requires 0 < cm && j < |bs| && bs[j] < cells
    requires NoOverflow(bs, cm)
    ensures Rank(bs, j) < cm
    ensures bs[j] * cm + Rank(bs, j) < cells * cm
    ensures Layout(bs, cm, cells)[bs[j] * cm + Rank(bs, j)] == Occupant(j)
    ensures forall k | 0 <= k < cells * cm :: Layout(bs, cm, cells)[k] == Occupant(j)
              ==> k == bs[j] * cm + Rank(bs, j)
  {
    MembersComplete(bs, j);
    LayoutInBucket(bs, cm, cells, bs[j], Rank(bs, j));
    forall k | 0 <= k < cells * cm && Layout(bs, cm, cells)[k] == Occupant(j)
      ensures k == bs[j] * cm + Rank(bs, j)
    {
      LayoutHolder(bs, cm, cells, k);
    }
  }

  /** The particle in slot k of the packed grid has bucket k / cm and rank k % cm. */
  lemma LayoutHolder(bs: seq<nat>, cm: nat, cells: nat, k: nat)
    requires 0 < cm && k < cells * cm && Layout(bs, cm, cells)[k].Occupant?
    ensures Layout(bs, cm, cells)[k].id < |bs|
    ensures k == bs[Layout(bs, cm, cells)[k].id] * cm + Rank(bs, Layout(bs, cm, cells)[k].id)
  {
    MembersSound(bs, k / cm, k % cm);
    DivMod(k, cm);
  }

  /** The first slot of the bucket of each particle, as `NodeBase` computes it. */
  function Bases(bs: seq<nat>, cm: nat): (r: seq<nat>)
    ensures |r| == |bs| && forall j | 0 <= j < |bs| :: r[j] == bs[j] * cm
  {
    seq(|bs|, j requires 0 <= j < |bs| => bs[j] * cm)
  }

  /** The bucket number of each particle's cell. */
  function Buckets(dim: nat, cells: seq<Cell>): (bs: seq<nat>)
    requires forall k | 0 <= k < |cells| :: InGrid(dim, cells[k])
    ensures |bs| == |cells|
    ensures forall k | 0 <= k < |cells| :: bs[k] == CellNumber(dim, cells[k]) < dim * dim * dim
  {
    if cells == [] then []
    else
      var last := cells[|cells| - 1];
      CellNumberRange(dim, last);
      Buckets(dim, cells[..|cells| - 1]) + [CellNumber(dim, last)]
  }

  /** The first slot of the bucket of each particle's clamped cell: where `FillGrid` and
      `FillTree` start probing for particle j. */
  function CellBases(dim: nat, cm: nat, cells: seq<Cell>): (r: seq<nat>)
    requires 1 <= dim && 0 < cm
    ensures |r| == |cells|
    ensures forall j | 0 <= j < |cells| ::
              r[j] == NodeBase(dim, cm, ClampCell(dim, cells[j])) && r[j] + cm <= GridSize(dim, cm)
  {
    var bs := Buckets(dim, ClampAll(dim, cells));
    forall j | 0 <= j < |cells|
      ensures bs[j] * cm + cm <= GridSize(dim, cm)
    {
      BucketInArray(bs[j], dim * dim * dim, cm);
    }
    Bases(bs, cm)
  }

  lemma BasesInGrid(bs: seq<nat>, cm: nat, cells: nat)
    requires 0 < cm && forall j | 0 <= j < |bs| :: bs[j] < cells
    ensures forall j | 0 <= j < |bs| :: Bases(bs, cm)[j] < cells * cm
  {
    forall j | 0 <= j < |bs|
      ensures Bases(bs, cm)[j] < cells * cm
    {
      BucketSlotInGrid(bs[j], 0, cm, cells);
    }
  }

  /** With no bucket over capacity, the wrapping fill of the octree produces the same packed
      grid as the linear fill: no probe ever leaves its bucket. */
  lemma {:induction false} FillWrapIsLayout(bs: seq<nat>, cm: nat, cells: nat)
    requires 0 < cm && |bs| <= cells * cm
    requires forall j | 0 <= j < |bs| :: bs[j] < cells
    requires NoOverflow(bs, cm)
    ensures forall j | 0 <= j < |bs| :: Bases(bs, cm)[j] < cells * cm
    ensures Occupied(Nulls(cells * cm)) == 0
    ensures FillWrap(Nulls(cells * cm), Bases(bs, cm)) == Layout(bs, cm, cells)
  {
    OccupiedAllNull(Nulls(cells * cm));
    BasesInGrid(bs, cm, cells);
    if bs == [] {
      LayoutEmpty(cm, cells);
    } else {
      var n := |bs| - 1;
      var init, x := bs[..n], bs[n];
      assert bs == init + [x];
      NoOverflowPrefix(init, x, cm);
      FillWrapIsLayout(init, cm, cells);
      FillWrapLayoutStep(init, x, cm, cells);
    }
  }

  /** One more particle, in bucket x, extends the packed grid as the wrapping probe does. */
  lemma FillWrapLayoutStep(init: seq<nat>, x: nat, cm: nat, cells: nat)
    requires 0 < cm && |init| + 1 <= cells * cm && x < cells
    requires forall j | 0 <= j < |init| :: init[j] < cells
    requires NoOverflow(init + [x], cm)
    requires forall j | 0 <= j < |init| :: Bases(init, cm)[j] < cells * cm
    requires Occupied(Nulls(cells * cm)) == 0
    requires FillWrap(Nulls(cells * cm), Bases(init, cm)) == Layout(init, cm, cells)
    ensures forall j | 0 <= j < |init| + 1 :: Bases(init + [x], cm)[j] < cells * cm
    ensures FillWrap(Nulls(cells * cm), Bases(init + [x], cm)) == Layout(init + [x], cm, cells)
  {
    var bs := init + [x];
    BasesInGrid(bs, cm, cells);
    var g := Nulls(cells * cm);
    var prev := Layout(init, cm, cells);
    var b := x * cm;
    LayoutInsert(init, x, cm, cells);
    assert bs[|init|] == x && Bases(bs, cm)[|init|] == b;
    assert Bases(bs, cm) == Bases(init, cm) + [b];
    ProbeStep(g, Bases(init, cm), b, prev, b + |Members(init, x)|);
  }

  /** When the grid filled so far has its first empty slot from b at k, the wrapping probe of one
      more particle with base b stores it at k. */
  lemma ProbeStep(g: seq<Slot>, bases: seq<nat>, b: nat, prev: seq<Slot>, k: nat)
    requires forall j | 0 <= j < |bases| :: bases[j] < |g|
    requires b < |g| && Occupied(g) + |bases| + 1 <= |g|
    requires FillWrap(g, bases) == prev && FirstNullFrom(prev, b) == k < |prev|
    ensures FillWrap(g, bases + [b]) == prev[k := Occupant(|bases|)]
  {
    WrapProbeMatchesLinear(prev, b);
    FillWrapSnoc(g, bases, b);
  }

  /** With no bucket over capacity, `FillGrid` after `ClearGrid` never reads past the end of the
      array and produces the packed grid: every particle lands in its own bucket. */
  lemma {:induction false} FillLinearIsLayout(bs: seq<nat>, cm: nat, cells: nat)
    requires 0 < cm
    requires forall j | 0 <= j < |bs| :: bs[j] < cells
    requires NoOverflow(bs, cm)
    ensures FillLinear(Nulls(cells * cm), Bases(bs, cm)) == Some(Layout(bs, cm, cells))
  {
    if bs == [] {
      LayoutEmpty(cm, cells);
    } else {
      var n := |bs| - 1;
      var init, x := bs[..n], bs[n];
      assert bs == init + [x];
      var b := Bases(init, cm);
      assert Bases(bs, cm) == b + [x * cm];
      NoOverflowPrefix(init, x, cm);
      FillLinearIsLayout(init, cm, cells);
      var prev := Layout(init, cm, cells);
      LayoutInsert(init, x, cm, cells);
      var k := x * cm + |Members(init, x)|;
      FillLinearSnoc(Nulls(cells * cm), b, x * cm, prev);
      assert FillLinear(Nulls(cells * cm), b + [x * cm]) == Some(prev[k := Occupant(n)]);
    }
  }
}

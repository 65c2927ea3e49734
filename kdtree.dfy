/** `KDTree` (kdtree.hpp, kdtree.cpp): a k-d tree over the particle positions, built by recursive
    median split on axis depth mod 3, searched for the particles strictly inside a sphere, and
    cleared by returning every node block to its `MemoryBank`. A node is a value holding the
    handle of the bank block it occupies; the positions are exact reals. */
module KdTree {
  import opened Vectors
  import opened MemoryBank

  datatype Tree = Nil | Node(block: nat, axis: nat, idx: nat, left: Tree, right: Tree)

  // ---------------------------------------------------------------------------------------------
  // std::sort of an index range by one coordinate.

  /** The position of particle i; indices past the list do not occur in a tree `BuildTree` built
      from no more than the list's particles. */
  function Pos(points: seq<Vec3>, i: nat): Vec3 {
    if i < |points| then points[i] else Zero
  }

  function Key(points: seq<Vec3>, i: nat, axis: nat): real
    requires axis < 3
  {
    Coord(Pos(points, i), axis)
  }

  predicate SortedOn(points: seq<Vec3>, s: seq<nat>, axis: nat)
    requires axis < 3
  {
    forall i, j | 0 <= i < j < |s| :: Key(points, s[i], axis) <= Key(points, s[j], axis)
  }

  /** x placed in front of the first element of s with a larger coordinate. */
  function Insert(points: seq<Vec3>, x: nat, s: seq<nat>, axis: nat): (r: seq<nat>)
    requires axis < 3
    ensures multiset(r) == multiset(s) + multiset{x} && |r| == |s| + 1
  {
    if s == [] then [x]
    else if Key(points, x, axis) <= Key(points, s[0], axis) then [x] + s
    else
      assert s == [s[0]] + s[1..];
      [s[0]] + Insert(points, x, s[1..], axis)
  }

  /** Inserting into a sorted sequence keeps it sorted. */
  lemma {:induction false} InsertSorted(points: seq<Vec3>, x: nat, s: seq<nat>, axis: nat)
    requires axis < 3 && SortedOn(points, s, axis)
    ensures SortedOn(points, Insert(points, x, s, axis), axis)
  {
    if s != [] && Key(points, x, axis) > Key(points, s[0], axis) {
      var t := Insert(points, x, s[1..], axis);
      SortedTail(points, s, axis);
      InsertSorted(points, x, s[1..], axis);
      InsertAbove(points, x, s, axis, t);
      ConsSorted(points, s[0], t, axis);
      assert Insert(points, x, s, axis) == [s[0]] + t;
    }
  }

  /** An element at most every element of a sorted sequence can go in front of it. */
  lemma ConsSorted(points: seq<Vec3>, h: nat, t: seq<nat>, axis: nat)
    requires axis < 3 && SortedOn(points, t, axis)
    requires forall j | 0 <= j < |t| :: Key(points, h, axis) <= Key(points, t[j], axis)
    ensures SortedOn(points, [h] + t, axis)
  {
    var r := [h] + t;
    forall i, j | 0 <= i < j < |r|
      ensures Key(points, r[i], axis) <= Key(points, r[j], axis)
    {
      assert r[j] == t[j - 1];
      if 0 < i {
        assert r[i] == t[i - 1];
      }
    }
  }

  lemma SortedTail(points: seq<Vec3>, s: seq<nat>, axis: nat)
    requires axis < 3 && SortedOn(points, s, axis) && s != []
    ensures SortedOn(points, s[1..], axis)
  {
    forall i, j | 0 <= i < j < |s| - 1
      ensures Key(points, s[1..][i], axis) <= Key(points, s[1..][j], axis)
    {
      assert s[1..][i] == s[i + 1] && s[1..][j] == s[j + 1];
    }
  }

  /** Inserting x, which lies above the head of a sorted s, into the rest of s gives elements all
      above that head. */
  lemma InsertAbove(points: seq<Vec3>, x: nat, s: seq<nat>, axis: nat, t: seq<nat>)
    requires axis < 3 && SortedOn(points, s, axis) && s != []
    requires Key(points, x, axis) > Key(points, s[0], axis) && t == Insert(points, x, s[1..], axis)
    ensures forall j | 0 <= j < |t| :: Key(points, s[0], axis) <= Key(points, t[j], axis)
  {
    forall j | 0 <= j < |t|
      ensures Key(points, s[0], axis) <= Key(points, t[j], axis)
    {
      assert t[j] in multiset(s[1..]) + multiset{x};
      if t[j] != x {
        assert t[j] in s[1..];
        var k :| 0 <= k < |s| - 1 && s[1..][k] == t[j];
        assert s[k + 1] == t[j];
      }
    }
  }

  /** The order std::sort produces. Elements with equal coordinates may come out in any order
      there; this model fixes one, and the lemmas below use only that the result is a sorted
      permutation. */
  function SortOn(points: seq<Vec3>, s: seq<nat>, axis: nat): (r: seq<nat>)
    requires axis < 3
    ensures multiset(r) == multiset(s) && |r| == |s|
  {
    if s == [] then []
    else
      assert s == [s[0]] + s[1..];
      Insert(points, s[0], SortOn(points, s[1..], axis), axis)
  }

  lemma {:induction false} SortOnSorted(points: seq<Vec3>, s: seq<nat>, axis: nat)
    requires axis < 3
    ensures SortedOn(points, SortOn(points, s, axis), axis)
  {
    if s != [] {
      SortOnSorted(points, s[1..], axis);
      InsertSorted(points, s[0], SortOn(points, s[1..], axis), axis);
    }
  }

  // ---------------------------------------------------------------------------------------------
  // The tree `BuildNode` builds, and what it guarantees.

  /** t is what `BuildNode` builds from `indices` at `depth` (block handles aside): nothing for no
      index; otherwise, with the indices sorted on axis depth % 3, the median s[(n-1)/2] at the
      root, the indices before it on the left and those after it on the right. */
  ghost predicate Built(points: seq<Vec3>, indices: seq<nat>, depth: nat, t: Tree)
    decreases |indices|
  {
    if indices == [] then t == Nil
    else
      var s := SortOn(points, indices, depth % 3);
      var mid := (|indices| - 1) / 2;
      t.Node? && t.axis == depth % 3 && t.idx == s[mid]
      && Built(points, s[..mid], depth + 1, t.left)
      && Built(points, s[mid + 1..], depth + 1, t.right)
  }

  /** The particle indices of the tree, in preorder. */
  function Idxs(t: Tree): seq<nat> {
    if t.Nil? then [] else [t.idx] + Idxs(t.left) + Idxs(t.right)
  }

  /** The blocks in the order `BuildNode` takes them from the bank: preorder. */
  function PreBlocks(t: Tree): seq<nat> {
    if t.Nil? then [] else [t.block] + PreBlocks(t.left) + PreBlocks(t.right)
  }

  /** The blocks in the order `ClearNode` stores them: postorder. */
  function PostBlocks(t: Tree): seq<nat> {
    if t.Nil? then [] else PostBlocks(t.left) + PostBlocks(t.right) + [t.block]
  }

  /** Node axes are in range. */
  predicate WellFormed(t: Tree) {
    t.Node? ==> t.axis < 3 && WellFormed(t.left) && WellFormed(t.right)
  }

  /** Each node at depth d splits on axis d % 3. */
  predicate AxesFrom(t: Tree, d: nat) {
    t.Node? ==> t.axis == d % 3 && AxesFrom(t.left, d + 1) && AxesFrom(t.right, d + 1)
  }

  /** Every index of s has coordinate at most (below) or at least (not below) v on the axis. */
  predicate AllOnSide(points: seq<Vec3>, s: seq<nat>, axis: nat, v: real, below: bool)
    requires axis < 3
  {
    forall k | 0 <= k < |s| :: if below then Key(points, s[k], axis) <= v else Key(points, s[k], axis) >= v
  }

  /** The k-d ordering: on each node's axis, every point of the left subtree is at most the node's
      point and every point of the right subtree at least. */
  predicate KdOrdered(points: seq<Vec3>, t: Tree)
    requires WellFormed(t)
  {
    t.Node? ==>
      AllOnSide(points, Idxs(t.left), t.axis, Key(points, t.idx, t.axis), true)
      && AllOnSide(points, Idxs(t.right), t.axis, Key(points, t.idx, t.axis), false)
      && KdOrdered(points, t.left) && KdOrdered(points, t.right)
  }

  /** Splitting the sorted indices around position mid. */
  lemma SplitAround(s: seq<nat>, mid: nat)
    requires mid < |s|
    ensures multiset(s) == multiset(s[..mid]) + multiset{s[mid]} + multiset(s[mid + 1..])
  {
    assert s == s[..mid] + [s[mid]] + s[mid + 1..];
  }

  /** The built tree holds exactly the given indices, with their multiplicities. */
  lemma {:induction false} BuiltIndices(points: seq<Vec3>, indices: seq<nat>, depth: nat, t: Tree)
    requires Built(points, indices, depth, t)
    decreases |indices|
    ensures multiset(Idxs(t)) == multiset(indices)
    ensures |Idxs(t)| == |indices|
  {
    if indices != [] {
      var s := SortOn(points, indices, depth % 3);
      var mid := (|indices| - 1) / 2;
      BuiltIndices(points, s[..mid], depth + 1, t.left);
      BuiltIndices(points, s[mid + 1..], depth + 1, t.right);
      NodeIndices(t, s, mid);
    }
  }

  /** A node holding s[mid] over subtrees holding s[..mid] and s[mid+1..] holds s. */
  lemma NodeIndices(t: Tree, s: seq<nat>, mid: nat)
    requires mid < |s| && t.Node? && t.idx == s[mid]
    requires multiset(Idxs(t.left)) == multiset(s[..mid]) && |Idxs(t.left)| == mid
    requires multiset(Idxs(t.right)) == multiset(s[mid + 1..]) && |Idxs(t.right)| == |s| - mid - 1
    ensures multiset(Idxs(t)) == multiset(s) && |Idxs(t)| == |s|
  {
    SplitAround(s, mid);
  }

  /** The left subtree of a node built from n indices gets (n-1)/2 of them, the right one the
      remaining n - (n-1)/2 - 1. */
  lemma BuiltSplit(points: seq<Vec3>, indices: seq<nat>, depth: nat, t: Tree)
    requires Built(points, indices, depth, t) && indices != []
    ensures t.Node?
    ensures |Idxs(t.left)| == (|indices| - 1) / 2
    ensures |Idxs(t.right)| == |indices| - (|indices| - 1) / 2 - 1
  {
    var s := SortOn(points, indices, depth % 3);
    var mid := (|indices| - 1) / 2;
    BuiltIndices(points, s[..mid], depth + 1, t.left);
    BuiltIndices(points, s[mid + 1..], depth + 1, t.right);
  }

  /** `BuildNode` on an empty range builds nothing, and on a non-empty one a node. */
  lemma BuiltEmpty(points: seq<Vec3>, indices: seq<nat>, depth: nat, t: Tree)
    requires Built(points, indices, depth, t)
    ensures t == Nil <==> indices == []
  {
  }

  /** Each node of a tree built at depth d splits on axis (its depth) % 3. */
  lemma {:induction false} BuiltAxes(points: seq<Vec3>, indices: seq<nat>, depth: nat, t: Tree)
    requires Built(points, indices, depth, t)
    decreases |indices|
    ensures AxesFrom(t, depth) && WellFormed(t)
  {
    if indices != [] {
      var s := SortOn(points, indices, depth % 3);
      var mid := (|indices| - 1) / 2;
      BuiltAxes(points, s[..mid], depth + 1, t.left);
      BuiltAxes(points, s[mid + 1..], depth + 1, t.right);
    }
  }

  /** The indices of a slice of a sorted sequence lie on one side of the element at mid. */
  lemma SortedSides(points: seq<Vec3>, s: seq<nat>, axis: nat, mid: nat, side: seq<nat>, below: bool)
    requires axis < 3 && mid < |s| && SortedOn(points, s, axis)
    requires if below then multiset(side) == multiset(s[..mid]) else multiset(side) == multiset(s[mid + 1..])
    ensures AllOnSide(points, side, axis, Key(points, s[mid], axis), below)
  {
    forall k | 0 <= k < |side|
      ensures if below then Key(points, side[k], axis) <= Key(points, s[mid], axis)
              else Key(points, side[k], axis) >= Key(points, s[mid], axis)
    {
      assert side[k] in multiset(side);
      if below {
        assert side[k] in s[..mid];
        var j :| 0 <= j < mid && s[..mid][j] == side[k];
        assert s[j] == side[k];
      } else {
        assert side[k] in s[mid + 1..];
        var j :| 0 <= j < |s| - mid - 1 && s[mid + 1..][j] == side[k];
        assert s[mid + 1 + j] == side[k];
      }
    }
  }

  /** A built tree is k-d ordered. */
  lemma {:induction false} BuiltOrdered(points: seq<Vec3>, indices: seq<nat>, depth: nat, t: Tree)
    requires Built(points, indices, depth, t)
    decreases |indices|
    ensures WellFormed(t) && KdOrdered(points, t)
  {
    BuiltAxes(points, indices, depth, t);
    if indices != [] {
      var axis := depth % 3;
      var s := SortOn(points, indices, axis);
      var mid := (|indices| - 1) / 2;
      SortOnSorted(points, indices, axis);
      BuiltOrdered(points, s[..mid], depth + 1, t.left);
      BuiltOrdered(points, s[mid + 1..], depth + 1, t.right);
      BuiltIndices(points, s[..mid], depth + 1, t.left);
      BuiltIndices(points, s[mid + 1..], depth + 1, t.right);
      SortedSides(points, s, axis, mid, Idxs(t.left), true);
      SortedSides(points, s, axis, mid, Idxs(t.right), false);
    }
  }

  /** The blocks a tree returns to the bank when cleared are the blocks it took when built, one
      per node. */
  lemma {:induction false} ClearReturnsBuiltBlocks(t: Tree)
    ensures multiset(PostBlocks(t)) == multiset(PreBlocks(t))
    ensures |PreBlocks(t)| == |Idxs(t)|
  {
    if t.Node? {
      ClearReturnsBuiltBlocks(t.left);
      ClearReturnsBuiltBlocks(t.right);
    }
  }

  /** 0, 1, ..., n-1: what std::iota writes. */
  function Iota(n: nat): (r: seq<nat>)
    ensures |r| == n && forall i | 0 <= i < n :: r[i] == i
  {
    seq(n, i requires 0 <= i => i)
  }

  lemma {:induction false} IotaCount(n: nat, i: int)
    ensures multiset(Iota(n))[i] == if 0 <= i < n then 1 else 0
  {
    if n > 0 {
      assert Iota(n) == Iota(n - 1) + [n - 1];
      IotaCount(n - 1, i);
    }
  }

  /** `BuildTree(Size)` holds each index 0..Size-1 exactly once and nothing else, in Size nodes. */
  lemma BuildTreeHoldsEachOnce(points: seq<Vec3>, size: nat, t: Tree, i: int)
    requires Built(points, Iota(size), 0, t)
    ensures |Idxs(t)| == size
    ensures multiset(Idxs(t))[i] == if 0 <= i < size then 1 else 0
  {
    BuiltIndices(points, Iota(size), 0, t);
    IotaCount(size, i);
  }

  // ---------------------------------------------------------------------------------------------
  // SphereSearchNode.

  /** The side of the node's splitting plane the origin is on (left when strictly below). */
  predicate GoLeft(points: seq<Vec3>, t: Tree, origin: Vec3)
    requires t.Node? && t.axis < 3
  {
    Coord(origin, t.axis) < Key(points, t.idx, t.axis)
  }

  /** The sphere reaches across the splitting plane: `Radius² > distToSiblings²`. */
  predicate Crosses(points: seq<Vec3>, t: Tree, origin: Vec3, radius: real)
    requires t.Node? && t.axis < 3
  {
    var d := Key(points, t.idx, t.axis) - Coord(origin, t.axis);
    radius * radius > d * d
  }

  /** Particle i is strictly inside the sphere. */
  predicate Inside(points: seq<Vec3>, i: nat, origin: Vec3, radius: real) {
    DistSq(origin, Pos(points, i)) < radius * radius
  }

  /** The subtree on the origin's side of the splitting plane, and the other one. */
  function Near(points: seq<Vec3>, t: Tree, origin: Vec3): Tree
    requires t.Node? && t.axis < 3
  {
    if GoLeft(points, t, origin) then t.left else t.right
  }

  function Far(points: seq<Vec3>, t: Tree, origin: Vec3): Tree
    requires t.Node? && t.axis < 3
  {
    if GoLeft(points, t, origin) then t.right else t.left
  }

  /** The indices `SphereSearchNode` appends, in order: the node's own when its point is strictly
      inside the sphere, then the results of the side of the origin, then those of the other side
      when the sphere reaches across the splitting plane. */
  function Search(points: seq<Vec3>, t: Tree, origin: Vec3, radius: real): seq<nat>
    requires WellFormed(t)
  {
    if t.Nil? then []
    else
      (if Inside(points, t.idx, origin, radius) then [t.idx] else [])
      + Search(points, Near(points, t, origin), origin, radius)
      + (if Crosses(points, t, origin, radius) then Search(points, Far(points, t, origin), origin, radius) else [])
  }

  /** Soundness: every index the search reports is in the tree and strictly inside the sphere. */
  lemma {:induction false} SearchSound(points: seq<Vec3>, t: Tree, origin: Vec3, radius: real, i: nat)
    requires WellFormed(t) && i in Search(points, t, origin, radius)
    ensures i in Idxs(t) && Inside(points, i, origin, radius)
  {
    if i != t.idx || !Inside(points, i, origin, radius) {
      if i in Search(points, Near(points, t, origin), origin, radius) {
        SearchSound(points, Near(points, t, origin), origin, radius, i);
      } else {
        assert i in Search(points, Far(points, t, origin), origin, radius);
        SearchSound(points, Far(points, t, origin), origin, radius, i);
      }
    }
  }

  /** A point on the far side of the splitting plane is at least as far from the origin as the
      plane is. */
  lemma FarSideIsFar(q: Vec3, m: real, origin: Vec3, axis: nat)
    requires axis < 3
    requires Coord(origin, axis) < m <= Coord(q, axis) || Coord(q, axis) <= m <= Coord(origin, axis)
    ensures (m - Coord(origin, axis)) * (m - Coord(origin, axis)) <= DistSq(origin, q)
  {
    var o, c := Coord(origin, axis), Coord(q, axis);
    DistSqAtLeastAxis(origin, q, axis);
    if o < m {
      SqMonotone(m - o, c - o);
      assert Sq(o - c) == Sq(c - o);
    } else {
      SqMonotone(o - m, o - c);
      assert Sq(m - o) == Sq(o - m);
    }
  }

  /** On a k-d ordered node, the points of the far subtree lie beyond the splitting plane, as
      seen from the origin. */
  lemma FarSideBeyond(points: seq<Vec3>, t: Tree, origin: Vec3, i: nat)
    requires WellFormed(t) && t.Node? && KdOrdered(points, t)
    requires i in Idxs(Far(points, t, origin))
    ensures var m, o := Key(points, t.idx, t.axis), Coord(origin, t.axis);
            o < m <= Key(points, i, t.axis) || Key(points, i, t.axis) <= m <= o
  {
    var m := Key(points, t.idx, t.axis);
    var far := Idxs(Far(points, t, origin));
    var k :| 0 <= k < |far| && far[k] == i;
    if GoLeft(points, t, origin) {
      assert AllOnSide(points, Idxs(t.right), t.axis, m, false) && far == Idxs(t.right);
    } else {
      assert AllOnSide(points, Idxs(t.left), t.axis, m, true) && far == Idxs(t.left);
    }
  }

  /** On a k-d ordered node, a point of the far subtree strictly inside the sphere means the
      sphere reaches across the splitting plane. */
  lemma FarInsideCrosses(points: seq<Vec3>, t: Tree, origin: Vec3, radius: real, i: nat)
    requires WellFormed(t) && t.Node? && KdOrdered(points, t)
    requires i in Idxs(Far(points, t, origin)) && Inside(points, i, origin, radius)
    ensures Crosses(points, t, origin, radius)
  {
    FarSideBeyond(points, t, origin, i);
    CrossesWhenBeyond(points, t, origin, radius, i);
  }

  lemma CrossesWhenBeyond(points: seq<Vec3>, t: Tree, origin: Vec3, radius: real, i: nat)
    requires t.Node? && t.axis < 3 && Inside(points, i, origin, radius)
    requires var m, o := Key(points, t.idx, t.axis), Coord(origin, t.axis);
             o < m <= Key(points, i, t.axis) || Key(points, i, t.axis) <= m <= o
    ensures Crosses(points, t, origin, radius)
  {
    FarSideIsFar(Pos(points, i), Key(points, t.idx, t.axis), origin, t.axis);
  }

  /** Completeness: on a k-d ordered tree, every index of the tree strictly inside the sphere is
      reported; the pruning of the far side never loses one. */
  lemma {:induction false} SearchComplete(points: seq<Vec3>, t: Tree, origin: Vec3, radius: real, i: nat)
    requires WellFormed(t) && KdOrdered(points, t)
    requires i in Idxs(t) && Inside(points, i, origin, radius)
    ensures i in Search(points, t, origin, radius)
  {
    if i != t.idx {
      var sub := if i in Idxs(t.left) then t.left else t.right;
      assert i in Idxs(sub);
      SearchComplete(points, sub, origin, radius, i);
      if sub != Near(points, t, origin) {
        assert sub == Far(points, t, origin);
        FarInsideCrosses(points, t, origin, radius, i);
      }
    }
  }

  /** The search reports no index more often than the tree holds it. */
  lemma {:induction false} SearchWithinTree(points: seq<Vec3>, t: Tree, origin: Vec3, radius: real)
    requires WellFormed(t)
    ensures multiset(Search(points, t, origin, radius)) <= multiset(Idxs(t))
  {
    if t.Node? {
      SearchWithinTree(points, t.left, origin, radius);
      SearchWithinTree(points, t.right, origin, radius);
      SearchUnfold(points, t, origin, radius);
      var l, r := Search(points, t.left, origin, radius), Search(points, t.right, origin, radius);
      var here := if Inside(points, t.idx, origin, radius) then [t.idx] else [];
      var far := if Crosses(points, t, origin, radius) then Search(points, Far(points, t, origin), origin, radius) else [];
      if GoLeft(points, t, origin) {
        WithinNode(t.idx, here, l, far, Idxs(t.left), Idxs(t.right));
      } else {
        WithinNode(t.idx, here, r, far, Idxs(t.right), Idxs(t.left));
      }
    }
  }

  /** What one node of the search appends is within what the node holds. */
  lemma WithinNode(idx: nat, here: seq<nat>, near: seq<nat>, far: seq<nat>, a: seq<nat>, b: seq<nat>)
    requires here == [] || here == [idx]
    requires multiset(near) <= multiset(a) && (far == [] || multiset(far) <= multiset(b))
    ensures multiset(here + near + far) <= multiset([idx] + a + b)
    ensures multiset(here + near + far) <= multiset([idx] + b + a)
  {
  }

  /** On a tree `BuildTree(Size)` built, `SphereSearchTree` reports each particle strictly inside
      the sphere exactly once and no other index. */
  lemma SphereSearchExactlyOnce(points: seq<Vec3>, size: nat, t: Tree, origin: Vec3, radius: real, i: nat)
    requires Built(points, Iota(size), 0, t)
    ensures WellFormed(t)
    ensures multiset(Search(points, t, origin, radius))[i]
         == if i < size && Inside(points, i, origin, radius) then 1 else 0
  {
    BuiltOrdered(points, Iota(size), 0, t);
    BuildTreeHoldsEachOnce(points, size, t, i);
    SearchWithinTree(points, t, origin, radius);
    if i < size && Inside(points, i, origin, radius) {
      assert i in multiset(Idxs(t));
      SearchComplete(points, t, origin, radius, i);
    } else if i in Search(points, t, origin, radius) {
      SearchSound(points, t, origin, radius, i);
    }
  }

  // ---------------------------------------------------------------------------------------------

  class KDTree {
    /** Positions of the particle list `points` (only positions are read). */
    var points: seq<Vec3>
    var pointsSize: nat
    var head: Tree
    const memoryBank: MemoryBank

    ghost predicate Valid()
      reads this, memoryBank
    {
      memoryBank.Valid() && WellFormed(head)
      && (forall i | i in Idxs(head) :: i < |points|)
      && forall b | b in PreBlocks(head) :: b < memoryBank.nextBlock
    }

    /** `KDTree(PointsList, Size)`: no tree yet and a fresh bank. */
    constructor(points: seq<Vec3>, size: nat)
      ensures Valid() && fresh(memoryBank)
      ensures this.points == points && pointsSize == size && head == Nil
      ensures memoryBank.counter == 0 && |memoryBank.bank| == BANK_SIZE && memoryBank.issued == []
    {
      this.points := points;
      pointsSize := size;
      head := Nil;
      memoryBank := new MemoryBank();
    }

    /** `BuildTree`: the tree built from the indices 0..Size-1 at depth 0, one bank block per node
        taken in preorder. The previous tree, if any, is dropped without returning its blocks. */
    method BuildTree(size: nat)
      requires Valid() && size <= |points|
      modifies this, memoryBank
      ensures Valid()
      ensures points == old(points) && pointsSize == size
      ensures Built(points, Iota(size), 0, head)
      ensures memoryBank.issued == old(memoryBank.issued) + PreBlocks(head)
      ensures Took(old(memoryBank.bank), old(memoryBank.nextBlock), old(memoryBank.counter),
                   memoryBank.bank, memoryBank.nextBlock, memoryBank.counter, PreBlocks(head))
    {
      pointsSize := size;
      var indices := Iota(pointsSize);
      head := BuildNode(indices, 0);
      forall i | i in Idxs(head)
        ensures i < |points|
      {
        BuildTreeHoldsEachOnce(points, size, head, i);
      }
    }

    /** `BuildNode`: as Built says; the node's block is taken from the bank before its children's. */
    method BuildNode(indices: seq<nat>, depth: nat) returns (node: Tree)
      requires memoryBank.Valid()
      modifies memoryBank
      decreases |indices|
      ensures memoryBank.Valid()
      ensures Built(points, indices, depth, node) && WellFormed(node)
      ensures memoryBank.issued == old(memoryBank.issued) + PreBlocks(node)
      ensures forall b | b in PreBlocks(node) :: b < memoryBank.nextBlock
      ensures Took(old(memoryBank.bank), old(memoryBank.nextBlock), old(memoryBank.counter),
                   memoryBank.bank, memoryBank.nextBlock, memoryBank.counter, PreBlocks(node))
    {
      if |indices| <= 0 {
        return Nil;
      }
      var axis := depth % 3;
      var sorted := SortOn(points, indices, axis);
      var mid := (|indices| - 1) / 2;
      ghost var b0, n0, c0 := memoryBank.bank, memoryBank.nextBlock, memoryBank.counter;
      var block := memoryBank.Get();
      ghost var b1, n1, c1 := memoryBank.bank, memoryBank.nextBlock, memoryBank.counter;
      assert Took(b0, n0, c0, b1, n1, c1, [block]);
      var left := BuildNode(sorted[..mid], depth + 1);
      TookCompose(b0, n0, c0, b1, n1, c1, memoryBank.bank, memoryBank.nextBlock, memoryBank.counter, [block], PreBlocks(left));
      ghost var b2, n2, c2 := memoryBank.bank, memoryBank.nextBlock, memoryBank.counter;
      var right := BuildNode(sorted[mid + 1..], depth + 1);
      TookCompose(b0, n0, c0, b2, n2, c2, memoryBank.bank, memoryBank.nextBlock, memoryBank.counter, [block] + PreBlocks(left), PreBlocks(right));
      node := Node(block, axis, sorted[mid], left, right);
      BuiltNode(points, indices, depth, node);
      NodeBlocks(node, memoryBank.nextBlock);
      AppendAssoc(old(memoryBank.issued), [block], PreBlocks(left), PreBlocks(right));
    }

    /** `ClearTree`: every block of the tree goes back to the bank, and there is no tree. */
    method ClearTree()
      requires Valid()
      modifies this, memoryBank
      ensures Valid() && head == Nil && points == old(points) && pointsSize == old(pointsSize)
      ensures memoryBank.bank == old(memoryBank.bank) + PostBlocks(old(head))
      ensures memoryBank.counter == old(memoryBank.counter) && memoryBank.issued == old(memoryBank.issued)
      ensures memoryBank.nextBlock == old(memoryBank.nextBlock)
    {
      ClearNode(head);
      head := Nil;
    }

    /** `ClearNode`: the left subtree's blocks, then the right subtree's, then the node's own go to
        the back of the bank. */
    method ClearNode(t: Tree)
      requires memoryBank.Valid() && forall b | b in PreBlocks(t) :: b < memoryBank.nextBlock
      modifies memoryBank
      ensures memoryBank.Valid()
      ensures memoryBank.bank == old(memoryBank.bank) + PostBlocks(t)
      ensures memoryBank.counter == old(memoryBank.counter) && memoryBank.issued == old(memoryBank.issued)
      ensures memoryBank.nextBlock == old(memoryBank.nextBlock)
    {
      if t.Nil? {
        return;
      }
      ChildBlocks(t, memoryBank.nextBlock);
      if t.left.Node? {
        ClearNode(t.left);
      }
      if t.right.Node? {
        ClearNode(t.right);
      }
      memoryBank.Store(t.block);
    }

    /** `SphereSearchTree`: the indices the search of the whole tree reports, each one in the tree
        and strictly inside the sphere. */
    method SphereSearchTree(origin: Vec3, radius: real) returns (targets: seq<nat>)
      requires Valid()
      ensures targets == Search(points, head, origin, radius)
      ensures forall i | i in targets :: i in Idxs(head) && i < |points| && DistSq(origin, points[i]) < radius * radius
    {
      targets := SphereSearchNode(head, origin, radius, []);
      forall i | i in targets
        ensures i in Idxs(head) && i < |points| && DistSq(origin, points[i]) < radius * radius
      {
        SearchSound(points, head, origin, radius, i);
      }
    }

    /** `SphereSearchNode`: appends to `targets` what Search reports for t. */
    method SphereSearchNode(t: Tree, origin: Vec3, radius: real, targets: seq<nat>) returns (out: seq<nat>)
      requires WellFormed(t) && forall i | i in Idxs(t) :: i < |points|
      ensures out == targets + Search(points, t, origin, radius)
    {
      out := targets;
      if t.Nil? {
        return;
      }
      assert t.idx in Idxs(t);
      ChildIdxs(t, |points|);
      var median := points[t.idx];
      assert median == Pos(points, t.idx);
      var distSquared := DistSq(origin, median);
      ghost var inside := distSquared < radius * radius;
      assert inside == Inside(points, t.idx, origin, radius);
      if distSquared < radius * radius {
        out := out + [t.idx];
      }
      ghost var afterHere := out;
      ghost var goLeft := Coord(origin, t.axis) < Coord(median, t.axis);
      assert goLeft == GoLeft(points, t, origin);
      if Coord(origin, t.axis) < Coord(median, t.axis) {
        out := SphereSearchNode(t.left, origin, radius, out);
      } else {
        out := SphereSearchNode(t.right, origin, radius, out);
      }
      ghost var afterNear := out;
      assert afterNear == afterHere + Search(points, Near(points, t, origin), origin, radius);
      var distToSiblings := Coord(median, t.axis) - Coord(origin, t.axis);
      ghost var crosses := radius * radius > distToSiblings * distToSiblings;
      assert crosses == Crosses(points, t, origin, radius);
      if radius * radius > distToSiblings * distToSiblings {
        if Coord(origin, t.axis) < Coord(median, t.axis) {
          out := SphereSearchNode(t.right, origin, radius, out);
        } else {
          out := SphereSearchNode(t.left, origin, radius, out);
        }
        assert out == afterNear + Search(points, Far(points, t, origin), origin, radius);
      }
      SearchStep(points, t, origin, radius, targets, afterHere, afterNear, out);
    }
  }

  /** The indices of a node's subtrees are among the node's. */
  lemma ChildIdxs(t: Tree, n: nat)
    requires t.Node? && forall i | i in Idxs(t) :: i < n
    ensures forall i | i in Idxs(t.left) :: i < n
    ensures forall i | i in Idxs(t.right) :: i < n
  {
    assert Idxs(t) == [t.idx] + Idxs(t.left) + Idxs(t.right);
    forall i | i in Idxs(t.left)
      ensures i < n
    {
      assert i in Idxs(t);
    }
    forall i | i in Idxs(t.right)
      ensures i < n
    {
      assert i in Idxs(t);
    }
  }

  /** The blocks of a node's subtrees, and its own, are among the node's. */
  lemma ChildBlocks(t: Tree, n: nat)
    requires t.Node? && forall b | b in PreBlocks(t) :: b < n
    ensures t.block < n
    ensures forall b | b in PreBlocks(t.left) :: b < n
    ensures forall b | b in PreBlocks(t.right) :: b < n
  {
    assert PreBlocks(t) == [t.block] + PreBlocks(t.left) + PreBlocks(t.right);
    assert t.block in PreBlocks(t);
    forall b | b in PreBlocks(t.left)
      ensures b < n
    {
      assert b in PreBlocks(t);
    }
    forall b | b in PreBlocks(t.right)
      ensures b < n
    {
      assert b in PreBlocks(t);
    }
  }

  /** A node holding the median of the sorted indices over the trees built from the two halves is
      the tree built from the indices. */
  lemma BuiltNode(points: seq<Vec3>, indices: seq<nat>, depth: nat, t: Tree)
    requires indices != [] && t.Node? && t.axis == depth % 3
    requires var s := SortOn(points, indices, depth % 3);
             var mid := (|indices| - 1) / 2;
             t.idx == s[mid] && Built(points, s[..mid], depth + 1, t.left) && Built(points, s[mid + 1..], depth + 1, t.right)
    ensures Built(points, indices, depth, t)
  {
  }

  /** A node whose own block and whose subtrees' blocks are below n has all its blocks below n. */
  lemma NodeBlocks(t: Tree, n: nat)
    requires t.Node? && t.block < n
    requires (forall b | b in PreBlocks(t.left) :: b < n) && forall b | b in PreBlocks(t.right) :: b < n
    ensures forall b | b in PreBlocks(t) :: b < n
    ensures PreBlocks(t) == [t.block] + PreBlocks(t.left) + PreBlocks(t.right)
  {
  }

  /** The three appends of one `SphereSearchNode` call make the Search of the node. */
  lemma SearchStep(points: seq<Vec3>, t: Tree, origin: Vec3, radius: real,
                   targets: seq<nat>, afterHere: seq<nat>, afterNear: seq<nat>, out: seq<nat>)
    requires WellFormed(t) && t.Node?
    requires afterHere == targets + if Inside(points, t.idx, origin, radius) then [t.idx] else []
    requires afterNear == afterHere + Search(points, Near(points, t, origin), origin, radius)
    requires out == afterNear + if Crosses(points, t, origin, radius)
                                then Search(points, Far(points, t, origin), origin, radius) else []
    ensures out == targets + Search(points, t, origin, radius)
  {
    SearchUnfold(points, t, origin, radius);
    var here := if Inside(points, t.idx, origin, radius) then [t.idx] else [];
    var near := Search(points, Near(points, t, origin), origin, radius);
    var far := if Crosses(points, t, origin, radius) then Search(points, Far(points, t, origin), origin, radius) else [];
    AppendAssoc(targets, here, near, far);
  }

  /** One unfolding of Search at a node. */
  lemma SearchUnfold(points: seq<Vec3>, t: Tree, origin: Vec3, radius: real)
    requires WellFormed(t) && t.Node?
    ensures Search(points, t, origin, radius)
         == (if Inside(points, t.idx, origin, radius) then [t.idx] else [])
            + Search(points, Near(points, t, origin), origin, radius)
            + (if Crosses(points, t, origin, radius) then Search(points, Far(points, t, origin), origin, radius) else [])
  {
  }

  lemma AppendAssoc(a: seq<nat>, b: seq<nat>, c: seq<nat>, d: seq<nat>)
    ensures a + b + c + d == a + (b + c + d)
  {
  }
}

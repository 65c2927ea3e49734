# super_waddle: the discrete core of a Verlet particle simulation, in Dafny

super_waddle is a small C++ game engine. Its particle demo integrates spheres with the Verlet
method and finds colliding pairs through a uniform grid. This project models the exactly
modellable parts of that engine around the floating-point physics. It then proves what those
parts promise:

- **Uniform-grid broad phase** (`VerletManager` in verlet.cpp, `Octree` in octree.hpp/.cpp).
  The collision grid is a flat array of DIM³ buckets of CELL_MAX slots.
  - Bucket (x, y, z) starts at slot (z + y·DIM + x·DIM²)·CELL_MAX.
  - Cell coordinates are clamped to [0, DIM-1].
  - Particles are inserted by a forward probe for the first empty slot. The probe does not wrap in
    verlet.cpp (running past the end of the array is undefined, and InsertNode's requires excludes
    it) and wraps around in octree.cpp.
  - The interior x-range [1, DIM-1) is split into one slab per worker thread.
  - Each slab sweeps the 27 neighbours of every interior cell and hands every pair read from two
    null-terminated buckets to the collision response.

  Modules `GridIndex`, `GridFill`, `GridSweep`, `Octree` and `Verlet`.
- **Particle life cycle** (`Verlet`): the add and force-toggle cooldowns, the early exit of
  `CollisionUpdate`, and the Verlet position step over exact reals.
- **k-d tree** (`KdTree`, `MemoryBank`): median-split build on axis depth mod 3, sphere search
  with half-space pruning, and the FIFO pool of node blocks the tree draws from and returns to.
- **Wavefront OBJ loader** (`ModelManager`): dispatch of `v`/`vt`/`vn`/`f` lines, the interleaved
  eight-float vertex layout, and the per-file cache.
- **Object/component registry** (`ObjectManager`): one component per type with first-wins
  attachment, ids equal to list positions, and removal.
- **Profiler condensation** (`Profiler`): the prefix search `find` and the first-occurrence
  histogram of sampled function names.

How the model represents the source:

- Particles and nodes are identified by ids or handles instead of pointers.
- The collision callback is recorded as a trace of id pairs.
- Worker threads run one after the other, one slab per thread id.
- Positions reach the grid as already truncated integer cells.
- Coordinates are exact reals.

Each stateful C++ class is a Dafny `class` whose methods are proved against specification
functions. Lemmas then prove what the source promises about those functions.

## Model

| member | source | states |
|---|---|---|
| GridIndex.CellNumberRange | project_files/src/octree.hpp:34-36 | The flat number z + y·DIM + x·DIM² of a cell inside the grid lies in [0, DIM³). |
| GridIndex.NodeBaseInBounds | project_files/src/octree.hpp:34-36 | The whole bucket [base, base + CELL_MAX) that `GetNode` addresses for an in-grid cell lies inside the DIM³·CELL_MAX array. |
| GridIndex.CellNumberInjective | project_files/src/octree.hpp:34-36 | Distinct in-grid cells have distinct flat numbers. |
| GridIndex.NodeRangesDisjoint | project_files/src/octree.hpp:34-36 | The buckets of two distinct in-grid cells do not overlap. |
| GridIndex.ClampCell | project_files/src/octree.cpp:25-27 | The clamped cell is always in the grid. An in-grid cell is unchanged, and each out-of-range coordinate moves to the nearest bound 0 or DIM-1. |
| GridIndex.ClampAll | project_files/src/verlet.cpp:332-334 | Every particle's cell is replaced by its clamped cell, which lies in the grid. |
| GridIndex.BucketOf | project_files/src/octree.cpp:21-29 | The bucket a particle is inserted into is always one of the DIM³ buckets. |
| GridIndex.LastSlabEnd | project_files/src/verlet.cpp:170-172 | The unsigned `end += DIM % THREAD_COUNT - 2` ends the last slab at exactly DIM-1, whatever DIM % THREAD_COUNT is, wrap-around included. |
| GridIndex.SafeSlabsContiguous | project_files/src/verlet.cpp:167-174 | With the corrected bounds, slab 0 starts at 1 and each slab ends where the next starts. The last slab ends at DIM-1 and no slab is reversed. |
| GridIndex.SafeSlabsOrdered | project_files/src/verlet.cpp:167-168 | An earlier corrected slab ends no later than any later one starts, so slabs are pairwise disjoint. |
| GridIndex.SafeSlabsCoverPrefix | project_files/src/verlet.cpp:167-174 | The first k corrected slabs together cover exactly [1, end of slab k-1). |
| GridIndex.SafeSlabsPartition | project_files/src/verlet.cpp:167-174 | Every interior x in [1, DIM-1) lies in exactly one corrected slab, and no slab holds an x outside that range. |
| GridIndex.SlabsAgreeWhenLastSlabFits | project_files/src/octree.cpp:51-56 | When DIM / THREAD_COUNT + DIM % THREAD_COUNT >= 2, the source's slab bounds are exactly the corrected ones, so they tile [1, DIM-1) too. |
| GridIndex.SlabOverrunWhenThreadsEqualDim | project_files/src/octree.cpp:51-56 | As written, with DIM = 49 and 49 threads, slab 47 contains x = DIM-1. The bucket of its +1 neighbour starts past the end of the grid, and the corrected slab excludes that x. |
| GridIndex.NeighbourBucketInBounds | project_files/src/octree.cpp:67-70 | Every one of the 27 neighbours of an interior cell is in the grid, and so is its whole bucket, so every `GetNode` of the sweep is in bounds. |
| GridFill.OccupiedPut | project_files/src/octree.cpp:38 | Storing a particle in an empty slot raises the number of occupied slots by exactly one. |
| GridFill.NullExists | project_files/src/octree.cpp:35-37 | A grid with fewer occupied slots than slots has an empty slot. |
| GridFill.FirstNullFrom | project_files/src/verlet.cpp:343-346 | The linear probe stops at the first empty slot at or after the bucket base, with every slot before it occupied. A result past the array means the scan runs off the end. |
| GridFill.WrapSteps | project_files/src/octree.cpp:35-36 | The wrapping probe stops at the first step that visits an empty slot, and every earlier step visited an occupied one. It needs as many steps as there are slots only when none is empty. |
| GridFill.WrapProbe | project_files/src/octree.cpp:34-38 | When the wrapping probe stops, the slot it stores into lies inside the array and is empty. |
| GridFill.WrapProbeFindsNull | project_files/src/octree.cpp:35-37 | The wrapping probe terminates whenever the grid has an empty slot. |
| GridFill.WrapProbeMatchesLinear | project_files/src/octree.cpp:33-39 | Whenever the non-wrapping probe of verlet.cpp finds a slot inside the array, the wrapping probe finds the same slot. |
| GridFill.FillWrap | project_files/src/octree.cpp:16-31 | Filling keeps the grid's size and raises the occupancy by exactly the number of particles inserted. |
| GridFill.InsertKeepsEachOnce | project_files/src/octree.cpp:38 | Storing the next id in an empty slot keeps every id present exactly once. |
| GridFill.FillWrapHoldsEachOnce | project_files/src/octree.cpp:16-31 | After `ClearTree` and `FillTree` of n <= DIM³·CELL_MAX particles, exactly n slots are occupied and each id 0..n-1 is in exactly one of them. |
| GridFill.FillLinearStep | project_files/src/verlet.cpp:326-347 | In a `FillGrid` that stays inside the array, particle i's probe finds an empty slot inside the array on the grid particles 0..i-1 left, and fills exactly that slot. |
| GridFill.FillLinearHoldsEachOnce | project_files/src/verlet.cpp:321-348 | After `ClearGrid` and a `FillGrid` that stays inside the array, each id 0..n-1 is in exactly one slot and exactly n slots are occupied. |
| GridFill.ProbeStaysInBucket | project_files/src/verlet.cpp:343-346 | While a bucket is below capacity, the probe from its first slot stops at the bucket's first free slot, inside the bucket. |
| GridFill.LayoutInsert | project_files/src/verlet.cpp:340-348 | Inserting one more particle into a grid whose buckets are all below capacity fills its bucket's next free slot. The result is again a grid packed bucket by bucket in insertion order. |
| GridFill.LayoutPlacesEach | project_files/src/verlet.cpp:321-348 | With no bucket over capacity, particle j occupies exactly one slot: position rank(j) < CELL_MAX of its own bucket. |
| GridFill.LayoutHolder | project_files/src/verlet.cpp:340-348 | In the packed grid, the particle in slot k belongs to bucket k / CELL_MAX and is that bucket's (k mod CELL_MAX)-th member. |
| GridFill.Buckets | project_files/src/octree.hpp:34-36 | Each particle's bucket number is the flat number of its cell, below DIM³. |
| GridFill.CellBases | project_files/src/verlet.cpp:328-336 | `FillGrid` and `FillTree` start each particle's probe at the first slot of its clamped cell's bucket, and that bucket lies inside the array. |
| GridFill.FillWrapIsLayout | project_files/src/octree.cpp:16-39 | With no bucket over capacity, the wrapping fill never leaves a bucket and yields the same packed grid as the linear fill. |
| GridFill.FillLinearIsLayout | project_files/src/verlet.cpp:325-348 | With no bucket over capacity, `FillGrid` after `ClearGrid` never reads past the array and leaves every particle in its own bucket. |
| GridSweep.CellPairsMembers | project_files/src/octree.cpp:84-90 | The pair scan calls (a, b) exactly when a is read from the current bucket and b from the other. With verlet.cpp's self test, a == b is excluded. |
| GridSweep.CellPairsCount | project_files/src/octree.cpp:84-90 | Without the self test, the pair scan makes exactly (current bucket run length) × (other bucket run length) calls. |
| GridSweep.PairScanOfEmpty | project_files/src/octree.cpp:63-65 | A current cell whose first slot is empty produces no call at all. |
| GridSweep.OffsetOf | project_files/src/octree.cpp:67-69 | The three offset loops visit each (dx, dy, dz) in {-1, 0, 1}³, once, in loop order. |
| GridSweep.ThreadsMatchSingleSweep | project_files/src/verlet.cpp:166-200 | Run one after the other over the corrected slabs, threads 0..T-1 make exactly the calls of the single-threaded `GridCollision`, in the same order. |
| GridSweep.SweepCoversNeighbours | project_files/src/verlet.cpp:137-164 | Each particle read from an interior cell's bucket is paired with each particle read from the bucket of each of its 27 neighbours. Only a particle with itself is skipped, and only when the self test is on. |
| GridSweep.SweepSound | project_files/src/verlet.cpp:137-164 | Every pair the sweep hands on comes from an interior cell of the slab and one of its 27 neighbours. It is never a particle with itself when the self test is on. |
| GridSweep.BroadPhaseComplete | project_files/src/verlet.cpp:137-164 | After clearing and filling with no bucket over capacity, the sweep checks particle i against every other particle in a neighbouring cell, when i's cell is interior. |
| GridSweep.ScanPairs | project_files/src/verlet.cpp:202-224 | The nested scan of `VerletCollision` makes exactly the pair-scan calls, in loop order. |
| GridSweep.ScanRow | project_files/src/verlet.cpp:204-208 | The inner loop pairs particle v1 with every particle read from the other bucket, in order, skipping v1 itself when the self test is on. |
| GridSweep.ScanNeighbour | project_files/src/verlet.cpp:150-157 | An empty neighbour bucket is skipped; otherwise its pairs are scanned. |
| GridSweep.SweepCell | project_files/src/verlet.cpp:141-160 | For one interior cell, the offset loops make exactly the calls of scanning its 27 neighbours in order. |
| GridSweep.SweepRow | project_files/src/verlet.cpp:176-197 | The z loop makes the calls of its cells in order. |
| GridSweep.SweepPlane | project_files/src/verlet.cpp:175-198 | The y loop makes the calls of its rows in order. |
| GridSweep.SweepSlab | project_files/src/verlet.cpp:174-199 | The x loop over [start, end) makes exactly the calls the slab specification lists. |
| Octree.Octree.constructor | project_files/src/octree.cpp:9-14 | The grid starts empty, and THREAD_COUNT is whatever the hardware reports, possibly 0. |
| Octree.Octree.ClearTree | project_files/src/octree.hpp:30-32 | Every slot of the grid is null afterwards. |
| Octree.Octree.GetNode | project_files/src/octree.hpp:34-36 | The first slot of a cell's bucket is a multiple of CELL_MAX. For a cell inside the grid, the whole bucket lies inside the array. |
| Octree.Octree.InsertNode | project_files/src/octree.cpp:33-39 | On a grid that is not full, the wrapping probe terminates. Exactly one slot changes, the probe's first empty slot, which receives the particle. |
| Octree.Octree.FillTree | project_files/src/octree.cpp:16-31 | Particles 0..n-1 are inserted in order, each probing from its clamped cell's bucket. |
| Octree.Octree.VerletCollision | project_files/src/octree.cpp:84-90 | The callback gets exactly the pairs (a, b) read from the two buckets, a == b included, once each, in product number. |
| Octree.Octree.GridCollisionThread | project_files/src/octree.cpp:50-82 | Thread t makes exactly the calls of sweeping its slab. |
| Octree.Octree.CheckCollisions | project_files/src/octree.cpp:41-48 | With no thread there are no calls. Otherwise the threads together make exactly the calls of one sweep over all interior cells. |
| Octree.ClearThenFillHoldsEachOnce | project_files/src/octree.cpp:16-31 | After `ClearTree` and `FillTree` of n <= DIM³·CELL_MAX particles, exactly n slots are occupied and each particle is in exactly one. |
| Octree.TreeBroadPhaseComplete | project_files/src/octree.cpp:41-90 | With no bucket over capacity, `CheckCollisions` after clearing and filling calls back every pair of distinct particles whose clamped cells are neighbours, the first cell being interior. |
| Verlet.CountAfterAdd | project_files/src/verlet.cpp:64-77 | The count grows by exactly one batch or not at all. It does not grow when the cooldown is below 0.1, the pool is at MAX or the frame rate is below 90. |
| Verlet.CountStaysBounded | project_files/src/verlet.cpp:67-75 | When MAX and the count are multiples of the batch size, the count never passes MAX. |
| Verlet.CountOvershoot | project_files/src/verlet.cpp:67-75 | There is no clamp: with MAX 25 and batches of 10, a count of 20 becomes 30. |
| Verlet.VerletStep | project_files/src/verlet.cpp:242-272 | After a step, the old position is the position before the step, and the acceleration is zero. |
| Verlet.StepVelocity | project_files/src/verlet.cpp:261-268 | The step from old to new position grows by the total acceleration times dt², and is kept when there is no acceleration. |
| Verlet.VerletManager.AddVerlet | project_files/src/verlet.cpp:64-77 | When the gate is open, the count grows by one batch and the add cooldown restarts. Otherwise nothing changes, and no other field changes either way. |
| Verlet.VerletManager.ToggleForce | project_files/src/verlet.cpp:101-109 | At a cooldown of 0.5 or more, the force flips and the cooldown restarts; below it, nothing changes. Afterwards the cooldown is always below 0.5, so a repeated call is a no-op. |
| Verlet.VerletManager.ClearGrid | project_files/src/verlet.cpp:321-323 | Every slot of the grid is null afterwards. |
| Verlet.VerletManager.InsertNode | project_files/src/verlet.cpp:340-348 | Exactly one slot changes: the first empty slot at or after the bucket base receives the particle. |
| Verlet.VerletManager.FillGrid | project_files/src/verlet.cpp:325-338 | The live particles are inserted in order, each probing from its clamped cell's bucket. |
| Verlet.VerletManager.VerletCollision | project_files/src/verlet.cpp:202-224 | The response is applied to exactly the pairs (a, b) read from the two buckets with a != b, once each. |
| Verlet.VerletManager.GridCollision | project_files/src/verlet.cpp:137-164 | One thread sweeps every interior cell and makes exactly the calls of the full sweep. |
| Verlet.VerletManager.GridCollisionThread | project_files/src/verlet.cpp:166-200 | Thread t makes exactly the calls of sweeping its slab. |
| Verlet.VerletManager.CollisionUpdate | project_files/src/verlet.cpp:119-135 | With no live particle, nothing happens. Otherwise the grid is the clear-and-fill of the live particles, and the threads make the calls of one full sweep (none when there is no thread). |
| Verlet.VerletManager.PositionUpdate | project_files/src/verlet.cpp:242-272 | Every live particle takes one Verlet step, with the point-force pull only while the force is on. Particles at or beyond the live count are untouched. |
| Verlet.FillPlacesEachInOwnBucket | project_files/src/verlet.cpp:321-348 | With no bucket over capacity, `ClearGrid` then `FillGrid` stays inside the array. It puts live particle j in exactly one slot, inside the bucket of j's clamped cell. |
| Verlet.CollisionUpdateComplete | project_files/src/verlet.cpp:119-132 | With no bucket over capacity, the collision pass checks live particle i against every other live particle whose clamped cell neighbours i's interior cell. |
| Verlet.CollisionUpdateNoSelfPairs | project_files/src/verlet.cpp:208 | No pair of the whole sweep is a particle with itself. |
| Vectors.DistSqAtLeastAxis | project_files/src/kdtree.cpp:100-101 | The squared distance between two points is at least their squared difference on any one axis, which makes the pruning test sound. |
| KdTree.SortOn | project_files/src/kdtree.cpp:49-51 | Sorting the index range yields a permutation of it. |
| KdTree.SortOnSorted | project_files/src/kdtree.cpp:49-51 | The sorted range is ordered by coordinate on the node's axis. |
| KdTree.BuiltEmpty | project_files/src/kdtree.cpp:43-45 | `BuildNode` builds nothing exactly when the range is empty. |
| KdTree.BuiltIndices | project_files/src/kdtree.cpp:53-60 | A built tree holds exactly the given indices, with their multiplicities. |
| KdTree.BuiltSplit | project_files/src/kdtree.cpp:53-60 | A node built from n indices has (n-1)/2 indices on the left and n - (n-1)/2 - 1 on the right. |
| KdTree.BuiltAxes | project_files/src/kdtree.cpp:47-57 | Each node built at depth d splits on axis d % 3. |
| KdTree.BuiltOrdered | project_files/src/kdtree.cpp:49-60 | On each node's axis, every left-subtree point is at most the node's point and every right-subtree point at least. |
| KdTree.ClearReturnsBuiltBlocks | project_files/src/kdtree.cpp:65-79 | The blocks a cleared tree returns to the bank are exactly the blocks its build took, one per node. |
| KdTree.Iota | project_files/src/kdtree.cpp:23-24 | The index buffer holds 0, 1, ..., Size-1. |
| KdTree.BuildTreeHoldsEachOnce | project_files/src/kdtree.cpp:21-27 | `BuildTree(Size)` holds each index 0..Size-1 exactly once and nothing else, in Size nodes. |
| KdTree.SearchSound | project_files/src/kdtree.cpp:89-92 | Every index the search reports is in the tree and strictly inside the sphere. |
| KdTree.FarInsideCrosses | project_files/src/kdtree.cpp:100-101 | On a k-d ordered node, a point of the far subtree inside the sphere implies the sphere crosses the splitting plane, so the far side is searched. |
| KdTree.SearchComplete | project_files/src/kdtree.cpp:94-107 | On a k-d ordered tree, every index strictly inside the sphere is reported; pruning never loses one. |
| KdTree.SearchWithinTree | project_files/src/kdtree.cpp:81-107 | No index is reported more often than the tree holds it. |
| KdTree.SphereSearchExactlyOnce | project_files/src/kdtree.cpp:34-40 | On a tree `BuildTree(Size)` built, the search reports each particle strictly inside the sphere exactly once and nothing else. |
| KdTree.KDTree.constructor | project_files/src/kdtree.cpp:13-15 | There is no tree yet, and the bank is new. |
| KdTree.KDTree.BuildTree | project_files/src/kdtree.cpp:21-27 | The tree is the median-split build of 0..Size-1 at depth 0. It takes one bank block per node, in preorder, off the front of the pool (allocating only once the pool runs dry), and the bank's counter counts them up to BANK_SIZE. |
| KdTree.KDTree.BuildNode | project_files/src/kdtree.cpp:42-63 | The result is the median-split tree of the range. The node's block is taken from the bank before its children's blocks; together they are the front of the pool, which keeps the rest in order, and the counter counts each one. |
| KdTree.KDTree.ClearTree | project_files/src/kdtree.cpp:29-32 | Every block of the tree goes back to the back of the pool in postorder, the head becomes empty, and nothing is allocated or counted. |
| KdTree.KDTree.ClearNode | project_files/src/kdtree.cpp:65-79 | Blocks are stored in postorder: the left subtree's, then the right subtree's, then the node's own. The counter does not change. |
| KdTree.KDTree.SphereSearchTree | project_files/src/kdtree.cpp:34-40 | The search result contains only indices in the tree that are strictly inside the sphere. |
| KdTree.KDTree.SphereSearchNode | project_files/src/kdtree.cpp:81-108 | The node's own index comes first when it is inside the sphere. Then come the results of the origin's side, then those of the other side when the sphere crosses the plane. |
| MemoryBank.FreshBlocksAbove | project_files/src/kdtree.hpp:46-50 | Newly allocated blocks differ from every block allocated before them. |
| MemoryBank.MemoryBank.constructor | project_files/src/kdtree.hpp:29-33 | A new bank holds BANK_SIZE new blocks and its counter is 0. |
| MemoryBank.MemoryBank.Allocate | project_files/src/kdtree.hpp:46-50 | BANK_SIZE new blocks join the back of the pool, behind the blocks already there. |
| MemoryBank.MemoryBank.Get | project_files/src/kdtree.hpp:52-65 | The front block leaves the pool, which is refilled first when empty; the rest keep their order. The counter counts up to BANK_SIZE and stays there. |
| MemoryBank.MemoryBank.Store | project_files/src/kdtree.hpp:67-69 | The block joins the back of the pool; nothing else changes. |
| MemoryBank.Saturated | project_files/src/kdtree.hpp:59-63 | The counter after k more `Get`s: it grows by k but never past BANK_SIZE. |
| MemoryBank.TookCompose | project_files/src/kdtree.hpp:52-65 | Taking blocks off the pool in two runs of `Get`s is the same as taking both runs in one, for the pool, the allocations and the counter. |
| MemoryBank.TookFromStock | project_files/src/kdtree.hpp:52-65 | While the pool holds enough blocks, k `Get`s return exactly its first k blocks, allocate nothing, and leave the rest in order. |
| ModelManager.Start | project_files/src/model_manager.cpp:105-111 | The attribute arrays start zeroed at full size, with zero counters and an empty list. |
| ModelManager.StepEffect | project_files/src/model_manager.cpp:122-148 | A `v` or `vn` line stores three values in its array's next slot and advances that counter by one. A `vt` line stores two values and a 0. A face line appends 3 × STRIDE floats. Any other line changes nothing. |
| ModelManager.StepList | project_files/src/model_manager.cpp:128-147 | Only a face line lengthens the list, by 3 × STRIDE floats, and no line changes what is already there. |
| ModelManager.LoadSnoc | project_files/src/model_manager.cpp:115-149 | Loading one more line applies one more line step. |
| ModelManager.LoadExtends | project_files/src/model_manager.cpp:115-149 | Loading more lines only appends to the vertex list. |
| ModelManager.VertexLayout | project_files/src/model_manager.cpp:210-224 | A face corner's eight floats read back as: position v[a-1] at offset 0, normal vn[c-1] at offset 3, and texture coordinate vt[b-1].xy at offset 6. |
| ModelManager.LoadLength | project_files/src/model_manager.cpp:165 | The list length is a multiple of STRIDE, so `num_vertices` is exactly three per face line. |
| ModelManager.ModelManager.LoadObj | project_files/src/model_manager.cpp:88-154 | A cached file returns its cached list with no read. A file that does not open gives no list and adds no entry. Otherwise the loaded list is returned and cached under the name. |
| ModelManager.ModelManager.ReadLines | project_files/src/model_manager.cpp:105-149 | Starting from zeroed arrays, the read loop produces the list the line-by-line specification gives. |
| ModelManager.ModelManager.ReadLine | project_files/src/model_manager.cpp:115-148 | One loop pass updates arrays, counters and list as the line step does. |
| ModelManager.ModelManager.InsertData | project_files/src/model_manager.cpp:210-224 | Exactly one corner's eight floats are appended to the list. |
| ModelManager.ModelManager.GetMesh | project_files/src/model_manager.cpp:156-165 | There is no mesh exactly when the file is neither cached nor opens. Otherwise `num_vertices` is the list length / STRIDE, three per face line of a newly loaded file. The cache is unchanged on a hit or a failed open and gains the loaded list otherwise, so a second call is a hit. |
| ObjectManager.Component.constructor | project_files/src/component.cpp:5 | A new component has the given type and is not deleted. |
| ObjectManager.Component.TransformCopy | project_files/src/component.cpp:24-26 | A copied `Transform` takes over every field of the other one, parent included. |
| ObjectManager.Attach | project_files/src/object_manager.cpp:74-81 | Attaching keeps every entry already present, and afterwards every handed component's type has an entry. |
| ObjectManager.AttachKeys | project_files/src/object_manager.cpp:74-81 | The types present afterwards are exactly the old ones plus those of the handed components. |
| ObjectManager.AttachFirstWins | project_files/src/object_manager.cpp:74-81 | An absent type ends up with the first handed component of that type. |
| ObjectManager.AttachDistinct | project_files/src/object_manager.cpp:74-81 | Components with pairwise different, absent types are all attached. |
| ObjectManager.Object.constructor | project_files/src/object_manager.cpp:6-8 | A new object has id -1, name "object" and exactly one component, a new `Transform` whose parent is the object. |
| ObjectManager.Object.Named | project_files/src/object_manager.cpp:10-12 | A new named object has id -1, the name and exactly one component, a new `Transform`. |
| ObjectManager.Object.Copy | project_files/src/object_manager.cpp:14-21 | A copy has id -1 and the other's name. It carries over only a new copy of the `Transform`, if the other has one. |
| ObjectManager.Object.Clear | project_files/src/object_manager.cpp:23-32 | Only the `Transform` entry leaves the map, and that component is deleted. Without a `Transform`, nothing changes. |
| ObjectManager.Object.AddComponent | project_files/src/object_manager.cpp:34-37 | The component's parent becomes the object. It is filed only when its type is absent; an existing entry is kept. |
| ObjectManager.Object.HasComponent | project_files/src/object_manager.cpp:51-58 | True exactly when the type has an entry. |
| ObjectManager.Object.GetComponent | project_files/src/object_manager.hpp:31-40 | Null exactly when the type has no entry; otherwise the entry, which has that type. The result is the same as `GetComponentConst`. |
| ObjectManager.Object.GetComponentConst | project_files/src/object_manager.hpp:56-65 | Null exactly when the type has no entry. It reads the object without changing it. |
| ObjectManager.Object.RemoveComponent | project_files/src/object_manager.hpp:42-53 | A no-op when the type is absent. Otherwise exactly that entry leaves the map, its component is deleted, and every other entry is unchanged. |
| ObjectManager.Grow | project_files/src/object_manager.cpp:64 | The buffer `emplace_back` grows into holds the new size and is never smaller than the old one. |
| ObjectManager.ObjectManager.constructor | project_files/src/object_manager.cpp:60-61 | The list starts empty. |
| ObjectManager.ObjectManager.CreateObject | project_files/src/object_manager.cpp:63-69 | One new object joins the back with id equal to its index, size - 1, and only a `Transform`. The objects already there are kept, so every id stays equal to its position. |
| ObjectManager.ObjectManager.CreateObjectAsWritten | project_files/src/object_manager.cpp:63-69 | As the source builds it: the new object's id is its index and it holds only a fresh `Transform` parented to it. When the buffer was full, every earlier object is replaced by a copy with id -1 that keeps only its `Transform`. |
| ObjectManager.ObjectManager.CreateObjectWith | project_files/src/object_manager.cpp:71-84 | The new object holds its own `Transform` and the first handed component of each other type. Each handed component ends up held with the object as parent, or deleted. |
| ObjectManager.ObjectManager.AttachAll | project_files/src/object_manager.cpp:74-81 | The loop leaves the map as the attach specification gives it. Every component is held with the object as parent or is deleted. |
| ObjectManager.ObjectManager.Offer | project_files/src/object_manager.cpp:75-80 | A component of an absent type is attached; otherwise it is deleted. |
| ObjectManager.ObjectManager.CreateObjects | project_files/src/object_manager.cpp:86-90 | The list grows by `Amount` objects (none when `Amount` <= 0), each built as `CreateObject(Components, Name)` builds it. |
| ObjectManager.GrowthResetsFirstId | project_files/src/object_manager.cpp:14-21 | As written, two `CreateObject` calls on a new manager leave the first object with id -1. The ids no longer match positions. |
| ObjectManager.GrowthKeepsIds | project_files/src/object_manager.cpp:63-69 | Corrected, the same two calls keep ids 0 and 1. |
| Profiler.Quote | project_files/src/profiler.cpp:71-78 | The stored name has length NameLen + 3: a quote, the symbol's characters, a quote, then NUL. |
| Profiler.QuoteInjective | project_files/src/profiler.cpp:72-78 | Different symbol names have different stored forms. |
| Profiler.QuoteMatch | project_files/src/profiler.cpp:81 | Comparing NameLen + 3 characters of two stored forms is comparing the symbol names. |
| Profiler.Find | project_files/src/profiler.cpp:28-45 | The result is -1 exactly when no stored name matches on the first `nameLen` characters. Otherwise it is the smallest matching index. |
| Profiler.IndexOf | project_files/src/profiler.cpp:81-87 | The position of the first entry with a given stored name, or the list length when there is none. |
| Profiler.FirstSample | project_files/src/profiler.cpp:67-84 | The position of the first sample with a given stored name, or the number of samples. |
| Profiler.TallyNames | project_files/src/profiler.cpp:81-87 | One sample appends its name with count 1 exactly when the name is absent. It changes no stored name, and afterwards its name is present. |
| Profiler.CondensedCovers | project_files/src/profiler.cpp:66-89 | Every sample's name is in the histogram. |
| Profiler.CondensedDistinct | project_files/src/profiler.cpp:66-89 | The stored names of the histogram are pairwise different. |
| Profiler.CondensedCounts | project_files/src/profiler.cpp:66-89 | Each entry carries the address and stored name of the first sample with that name, and counts exactly the samples with it. |
| Profiler.CondensedOrder | project_files/src/profiler.cpp:66-89 | Entries appear in the order in which their names first occur. |
| Profiler.CondensedTotal | project_files/src/profiler.cpp:66-89 | The counts sum to the number of samples. |
| Profiler.QuoteName | project_files/src/profiler.cpp:72-78 | The character loop builds exactly the stored form of the symbol name. |
| Profiler.Condense | project_files/src/profiler.cpp:66-89 | The condensing loop, with `find` on the full stored length, builds exactly the histogram specification. |
| Profiler.FindFindsName | project_files/src/profiler.cpp:81-82 | On the histogram, `find`'s answer is -1 exactly for a new name, and otherwise that name's own entry. |

## Left out

- Floating-point physics is outside the model:
  - the pair separation in `VerletManager::VerletCollision` (verlet.cpp:209-220);
  - `ContainerCollision`;
  - `ApplyForce`;
  - the point-force pull in `PositionUpdate`, which is an input vector per particle;
  - the SIMD vector helpers.

  Arithmetic is over exact reals, and `vec_distance_squared` is taken as the squared Euclidean distance.
- The float-to-int casts of positions in `FillGrid`/`FillTree` are not modelled: cells are given already truncated, and an out-of-range cast is undefined in C++.
- Threads are not modelled: spawn and join in `CollisionUpdate` and `CheckCollisions` run sequentially, one slab per thread id, and the unused atomic, mutex and condition variable are dropped. Races between slabs, which may touch the same particle, are not modelled.
- The slab bounds used by the `GridCollisionThread` methods are the corrected ones. The source's bounds equal them whenever DIM / THREAD_COUNT + DIM % THREAD_COUNT >= 2, as SlabsAgreeWhenLastSlabFits shows; see "## Findings" for the case where they differ.
- Verlet.VerletManager.constructor: stands in for `CreateVerlets` and the class's default member values. The randomised seeding (sin/cos/rand), input callbacks, shader and model loading are not modelled, and every particle starts as one given value. DIM, CELL_MAX, MAX, THREAD_COUNT and the batch size are parameters, because verlet.hpp is older than verlet.cpp and does not declare them.
- Verlet.VerletManager.AddVerlet: the frame-rate test `1 / GetDeltaTime() < 90` is a boolean input. Engine time, `Update`'s timer accumulation, and the timers themselves are plain fields.
- `DrawVerlets`, `GetModel`, the GL part of `GetMesh` and everything under rendering, shaders, input, camera, editor, trace and crash handling are not modelled.
- Verlet.VerletManager.PositionUpdate: requires `currCount <= max`. `AddVerlet` can push the count past MAX (CountOvershoot), and the source's loop over `curr_count` then reads and writes `verlet_list` out of bounds, which is undefined in C++; the model does not describe that case.
- KdTree.KDTree.BuildTree: requires `size <= |points|`. A larger `Size` makes the source index the points array out of bounds, which is undefined in C++; the model does not describe that case.
- GridSweep.Run: the null-terminated bucket scan `for (a = 0; cell[a]; ++a)` is modelled as stopping at the end of the grid array. In the source a scan that finds no empty slot before the end reads past the array, which is undefined; the model does not describe that read.
- Verlet.VerletManager.InsertNode and FillGrid require the probe to stay inside the array (reading past it is undefined in C++). The Octree version needs a grid that is not full, because its loop never ends otherwise.
- KdTree.SortOn: fixes one order among points with equal coordinates, which `std::sort` leaves unspecified. Every lemma uses only that the result is a sorted permutation.
- KdTree.KDTree.BuildNode: sorts a value copy of the index range, so the in-place reordering of the shared `int*` buffer is not modelled, only its effect on the tree. Node fields are values in a `Tree` datatype holding the bank block handle, instead of writes through `Node*`.
- The default constructors `Node()` and `KDTree()` are not modelled: the model never reads a node before `BuildNode` sets its fields. `~KDTree` and `~MemoryBank` (deallocation) are not modelled either.
- MemoryBank.MemoryBank.Get: the `~Node()` call on recycled blocks is a no-op (Node's destructor is trivial) and is not modelled.
- Reading the OBJ file is not modelled: `fopen_s`, `fgets` into a 64-byte buffer, `strtok_s`, `atof` and `atoi`. A file is its pre-tokenised lines, and a file that opens is one present in the `files` map. Lines longer than the buffer are not modelled.
- ModelManager.ModelManager.LoadObj: requires each line to read only tokens that exist and to keep indices within VERTEX_LIMIT, because the source's behaviour is undefined otherwise. The `Trace` message on a failed open is not modelled.
- Component payloads (positions, velocities, models) and the component getters and setters are not modelled; only the type tag, the parent and deletion are. `delete` is a `deleted` flag.
- ObjectManager.Component.constructor: the source leaves `parent` uninitialised, and the model starts it at null.
- ObjectManager.ObjectManager.CreateObjectWith: requires the handed components to be pairwise distinct and not yet deleted. Otherwise the source deletes a component twice or reads a deleted one.
- ObjectManager.ObjectManager.CreateObjects: requires pairwise different types and no `Transform` among the components when `Amount >= 2`. Otherwise the second call reads components the first call deleted.
- ObjectManager.Grow: vector growth follows the 1.5× policy of Microsoft's standard library. The property the model needs is only that the new buffer is large enough.
- `SetId`, `GetId`, `Object::Update`, `GetObjectList`, `Instance` and the declared but undefined `DestoryObject` are not modelled. The `static_cast<int>` of the id is exact only for fewer than 2^31 objects; the model's ids are unbounded integers, so a wrap-around of the id past that is not modelled.
- The profiler's sampling thread (`Record`, `SuspendThread`, `GetThreadContext`), `SymInitialize`, `SymFromAddr` and the CSV output are not modelled. A sample is given as its address and resolved symbol name.
- Profiler.Find: reading past the end of a shorter stored name, which is out of bounds in C++, is modelled as a mismatch. On quoted NUL-free names, a mismatch always occurs before the stored NUL anyway.

## Findings

| source | as written | input that shows it | evidently intended | confidence | as-written member | corrected member |
|---|---|---|---|---|---|---|
| project_files/src/octree.cpp:51-56 | When THREAD_COUNT == DIM, the last slab's `end += DIM % THREAD_COUNT - 2` wraps to DIM-1, but slab DIM-2 is [DIM-1, DIM). It sweeps x = DIM-1, whose +1 neighbours lie past the end of `collision_grid`. verlet.cpp:167-174 is the same. | DIM = 49 (octree.hpp:50) and a machine whose `hardware_concurrency()` is 49: thread 47 has x in [48, 49) and calls `GetNode(49, y+dy, z+dz)` | Slabs that tile [1, DIM-1) for every thread count, each bound clamped to DIM-1 | not executed | GridIndex.SlabOverrunWhenThreadsEqualDim | GridIndex.SafeSlabsPartition |
| project_files/src/object_manager.cpp:63-69 | `Object` declares a copy constructor and no move constructor. When `emplace_back` reallocates, `std::vector` copies every object through `Object(const Object&)` (object_manager.cpp:14-21), which resets the id to -1 and drops every component but the `Transform`. | Two `CreateObject("a")` calls on a new `ObjectManager`: the second one grows the buffer, and object 0 then has id -1 | Objects keep their ids and components when the list grows (moved, not copied) | not executed | ObjectManager.GrowthResetsFirstId | ObjectManager.GrowthKeepsIds |

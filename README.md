# Quad-tree broad phase and distance constraint, modelled in Dafny

This project models two parts of the CSC8503 physics core.

- **The generic quad-tree index** (`QuadTree<T>`, `QuadTreeNode<T>`, `QuadTreeEntry<T>` in
  `CSC8503CoreClasses/QuadTree.h`). It is a tree of rectangular regions on the X/Z plane, each given by a centre and independent X and Z
  half-sizes.
  - A leaf keeps a bucket of entries, each holding a payload, a box centre and a box half-size.
  - Inserting an entry first tests the entry's box against the node's box. The node's box is centred at
    `(position.x, 0, position.y)` with half-size `(size.x, 1000, size.y)`; entries that fail the test are
    dropped.
  - An internal node forwards the entry to all four children one level down. Straddling entries are
    therefore duplicated.
  - A leaf appends the entry. Once the bucket is longer than `maxSize` while `depthLeft > 0`, the leaf
    splits into four quadrants, re-inserts its bucket in order into every child, and clears the bucket.
  - `OperateOnContents` visits the non-empty leaf buckets depth first, children 0 to 3.
- **The two-body distance constraint** (`PositionConstraint` in `CSC8503CoreClasses/PositionConstraint.cpp`).
  - One `UpdateConstraint(dt)` computes the offset `distance - |posA - posB|`.
  - It does nothing when the offset is exactly zero or the summed inverse mass is not positive.
  - Otherwise it applies the impulses `dir * lambda` to A and `-dir * lambda` to B. Here `dir` is the
    normalised separation. `lambda` is the Lagrange multiplier with the Baumgarte bias
    `-(0.01 / dt) * offset`.

Files:

- `maths.dfy` (module `Maths`): exact `Vec2` and `Vec3` vectors over `real`.
- `quadtree_model.dfy` (module `QuadTreeModel`): the tree as a value, `Tree<T>`.
  - `Insert`, `InsertAll`, `Split` and `Visit` compute exactly what the C++ leaves behind.
  - Every property of the index is proved here as a lemma about these functions.
- `quadtree.dfy` (module `QuadTree`): the heap classes `QuadTreeNode<T>` and `QuadTree<T>`.
  - They have mutable buckets and allocated children, with a ghost `Model` and a `Repr` footprint.
  - Every method is proved to move `Model` exactly as the functions of `QuadTreeModel` say.
  - `QuadTree` keeps the tree-wide invariant.
- `quadtree_scenario.dfy` (module `QuadTreeScenario`): concrete box tests.
  - It works out the first split of a tree of half-size 100 (a 200 x 200 region) with a strict box test.
  - It shows that a strict test does not satisfy `CoversQuadrants` and can lose an accepted zero-size box.
  - It shows that a closed test over non-negative sizes satisfies `CoversQuadrants`.
- `position_constraint.dfy` (module `PositionConstraints`):
  - `Solve`, the closed form of one constraint step, with its lemmas;
  - the classes the step works on, with `PositionConstraint.UpdateConstraint` proved to apply the pair
    `Solve` gives.

Foreign calls are parameters:

- `CollisionDetection::AABBTest` is the function value `aabb: AabbTest`.
- `Vector::Length` and `Vector::Normalise` are `length` and `normalise`.
- `PhysicsObject::ApplyLinearImpulse` is modelled as a record of the impulses each physics object receives.

## Model

| member | source | states |
|---|---|---|
| QuadTreeModel.EmptyNode | CSC8503CoreClasses/QuadTree.h:33-37 | a new node is a leaf at the given centre and half-size that the visitor never sees and that keeps the invariant for every test, depth and bucket limit |
| QuadTreeModel.QuadrantCentre | CSC8503CoreClasses/QuadTree.h:78-87 | child i is centred half a half-size from the parent's centre: towards -X for even i and +X for odd i, towards +Z for i < 2 and -Z otherwise |
| QuadTreeModel.Quadrants | CSC8503CoreClasses/QuadTree.h:78-87 | four empty leaves of half the half-size, child i at QuadrantCentre i; when neither half-size is zero the four centres are pairwise distinct |
| QuadTreeModel.Split | CSC8503CoreClasses/QuadTree.h:76-88 | the node keeps its centre, half-size and bucket and gets four empty leaf children of half the half-size at the quadrant centres |
| QuadTreeModel.Overlaps | CSC8503CoreClasses/QuadTree.h:45 | (definition, no contract) an entry meets a node when its captured box passes RegionTest for the node's region |
| QuadTreeModel.RegionTest | CSC8503CoreClasses/QuadTree.h:45 | (definition, no contract) the box test of a box against the node's box, centred at (position.x, 0, position.y) with half-size (size.x, 1000, size.y), in this argument order |
| QuadTreeModel.Insert | CSC8503CoreClasses/QuadTree.h:43-74 | insertion never moves or resizes a node's region |
| QuadTreeModel.InsertAll | CSC8503CoreClasses/QuadTree.h:63-67 | inserting a run of entries one after the other never moves or resizes the region |
| QuadTreeModel.Visit | CSC8503CoreClasses/QuadTree.h:93-106 | every bucket handed to the visitor is non-empty |
| QuadTreeModel.VisitChildren | CSC8503CoreClasses/QuadTree.h:94-98 | the buckets visited under children i..3 are all non-empty |
| QuadTreeModel.RejectedInsertIsNoOp | CSC8503CoreClasses/QuadTree.h:45-47 | an entry whose box fails the node test leaves the node and its whole subtree unchanged, so the visit is unchanged too |
| QuadTreeModel.InternalInsertForwards | CSC8503CoreClasses/QuadTree.h:49-53 | an internal node keeps its bucket and passes the same entry to every child with depthLeft - 1, with no deduplication |
| QuadTreeModel.LeafInsert | CSC8503CoreClasses/QuadTree.h:55-58 | a leaf splits if and only if its bucket after the append is longer than maxSize and depthLeft > 0; otherwise the entry goes at the end of the unchanged bucket |
| QuadTreeModel.LeafSplit | CSC8503CoreClasses/QuadTree.h:58-71 | after a split the node has an empty bucket and four children; child j is quadrant j with the whole old bucket plus the new entry inserted in order at depthLeft - 1 |
| QuadTreeModel.SplitGeometry | CSC8503CoreClasses/QuadTree.h:76-88 | Split gives four empty leaves of half the half-size, centred at position + (-h.x, +h.y), (+h.x, +h.y), (-h.x, -h.y), (+h.x, -h.y) in index order |
| QuadTreeModel.QuadrantsTile | CSC8503CoreClasses/QuadTree.h:78-87 | each quadrant lies inside the parent region, and every point of the parent lies in some quadrant |
| QuadTreeModel.InsertAllIntoLeaf | CSC8503CoreClasses/QuadTree.h:55-58 | inserting a run into a leaf that does not split appends exactly the accepted entries, in their order, after the old bucket |
| QuadTreeModel.SplitKeepsOrder | CSC8503CoreClasses/QuadTree.h:59-71 | when the children of a split do not split in turn, child j's bucket is exactly the old bucket plus the new entry, filtered by quadrant j, in their original order |
| QuadTreeModel.InsertStoresOnly | CSC8503CoreClasses/QuadTree.h:43-74 | after an insert a tree stores only what it stored before, plus the new entry if the node accepted it |
| QuadTreeModel.InsertAllStoresOnly | CSC8503CoreClasses/QuadTree.h:63-67 | after re-inserting a run, a tree stores only what it had plus entries of the run |
| QuadTreeModel.InsertKeeps | CSC8503CoreClasses/QuadTree.h:43-74 | for a box test that covers quadrants, an insert into a well-formed tree loses nothing, and an accepted entry is then stored |
| QuadTreeModel.InsertAllKeeps | CSC8503CoreClasses/QuadTree.h:63-67 | the same for a run of entries |
| QuadTreeModel.StoredOverlaps | CSC8503CoreClasses/QuadTree.h:45-47 | every stored entry of a tree whose buckets all meet a region meets that region |
| QuadTreeModel.InsertKeepsOverlap | CSC8503CoreClasses/QuadTree.h:45-47 | inserting an entry that meets a region keeps every stored entry meeting that region |
| QuadTreeModel.InsertAllKeepsOverlap | CSC8503CoreClasses/QuadTree.h:63-67 | the same for a run of entries that all meet the region |
| QuadTreeModel.InsertPreservesInvariant | CSC8503CoreClasses/QuadTree.h:49-71 | insertion keeps the tree-wide invariant: internal nodes have depthLeft > 0, an empty bucket and the four quadrant children; a leaf with depthLeft > 0 holds at most maxSize entries; every stored entry meets its node |
| QuadTreeModel.InsertAllPreservesInvariant | CSC8503CoreClasses/QuadTree.h:63-67 | re-inserting a run keeps the invariant |
| QuadTreeModel.InvariantBoundsHeight | CSC8503CoreClasses/QuadTree.h:58 | a tree keeping the invariant for depthLeft is at most depthLeft levels deep |
| QuadTreeModel.VisitedIffStored | CSC8503CoreClasses/QuadTree.h:93-106 | an entry is in some visited bucket if and only if it is stored in some leaf |
| QuadTreeModel.VisitChildrenIffStored | CSC8503CoreClasses/QuadTree.h:94-98 | an entry is visited under children i..3 if and only if one of them stores it |
| QuadTreeModel.VisitFour | CSC8503CoreClasses/QuadTree.h:94-98 | the visit of an internal node is the visits of children 0, 1, 2, 3 in that order |
| QuadTreeModel.RejectedNeverVisited | CSC8503CoreClasses/QuadTree.h:45-47 | in a tree keeping the invariant, an entry that fails the node's test is in no visited bucket |
| QuadTree.QuadTreeNode.constructor | CSC8503CoreClasses/QuadTree.h:33-37 | a new node is a well-formed leaf with an empty bucket at the given centre and half-size |
| QuadTree.QuadTreeNode.Split | CSC8503CoreClasses/QuadTree.h:76-88 | the node gains four freshly allocated children, everything added to its footprint is fresh, and its model becomes Split of the old model |
| QuadTree.QuadTreeNode.NewQuadrants | CSC8503CoreClasses/QuadTree.h:81-87 | four distinct fresh well-formed leaves, child i being quadrant i of the region |
| QuadTree.QuadTreeNode.Insert | CSC8503CoreClasses/QuadTree.h:43-74 | the node stays well formed, and its new model is QuadTreeModel.Insert of the old model |
| QuadTree.QuadTreeNode.SplitAndReinsert | CSC8503CoreClasses/QuadTree.h:59-71 | after the split branch the bucket is empty and child j's model is quadrant j with the old bucket inserted in order |
| QuadTree.QuadTreeNode.InsertAllIntoChildren | CSC8503CoreClasses/QuadTree.h:63-67 | each child's model becomes the old one with the whole run inserted in order |
| QuadTree.QuadTreeNode.InsertIntoChildren | CSC8503CoreClasses/QuadTree.h:50-52 | each of the four children's models becomes its Insert of the entry at depthLeft - 1 |
| QuadTree.QuadTreeNode.InsertIntoChild | CSC8503CoreClasses/QuadTree.h:51 | child i's model becomes its Insert of the entry and the other three children are untouched |
| QuadTree.QuadTreeNode.OperateOnContents | CSC8503CoreClasses/QuadTree.h:93-106 | the buckets handed to the visitor, in call order, are Visit of the node's model |
| QuadTree.QuadTree.constructor | CSC8503CoreClasses/QuadTree.h:127-131 | the root is an empty leaf centred at the origin with the given size; maxDepth and maxSize default to 6 and 5 and the invariant holds |
| QuadTree.QuadTree.Insert | CSC8503CoreClasses/QuadTree.h:135-137 | the root's model becomes its Insert with depthLeft = maxDepth, and the tree-wide invariant is kept |
| QuadTree.QuadTree.OperateOnContents | CSC8503CoreClasses/QuadTree.h:143-145 | the visit of the whole tree is the visit of the root's model |
| QuadTreeScenario.QuadrantAcceptance | CSC8503CoreClasses/QuadTree.h:84-87 | with a strict box test, the box at (10, 0, 10) meets only quadrant 1 of a root of half-size 100 and the box at (-10, 0, -10) only quadrant 2 |
| QuadTreeScenario.FirstInsert | CSC8503CoreClasses/QuadTree.h:55-58 | the first box only fills the root's bucket when maxSize = 1 |
| QuadTreeScenario.SecondInsertSplits | CSC8503CoreClasses/QuadTree.h:58-71 | the second box splits the root, and every quadrant receives the accepted entries of the pair |
| QuadTreeScenario.TwoBoxesInOppositeQuadrants | CSC8503CoreClasses/QuadTree.h:43-106 | after both inserts the root is internal and empty, the boxes sit alone in diagonally opposite quadrants 1 and 2, and the visit reports exactly those two one-entry buckets |
| QuadTreeScenario.StrictTestMissesQuadrants | CSC8503CoreClasses/QuadTree.h:45 | a strict per-axis test does not cover quadrants: a zero-size box at the origin passes the root's test but none of its quarters' |
| QuadTreeScenario.StrictTestLosesPointOnSplit | CSC8503CoreClasses/QuadTree.h:43-71 | with that test the root accepts the zero-size box, splits with maxSize = 0 and depthLeft = 1, and no child keeps the box, so the visit is empty |
| QuadTreeScenario.ClosedTestCoversQuadrants | CSC8503CoreClasses/QuadTree.h:45 | a closed per-axis test over non-negative half-sizes covers quadrants: a box meeting a region meets one of the region's quarters |
| QuadTreeScenario.ClosedTestInsertKeeps | CSC8503CoreClasses/QuadTree.h:43-74 | with the closed test an insert into a tree keeping the invariant keeps every stored entry and stores an accepted one |
| Maths.Abs | CSC8503CoreClasses/PositionConstraint.cpp:39 | the absolute value is non-negative and equals x or -x |
| PositionConstraints.Offset | CSC8503CoreClasses/PositionConstraint.cpp:29-36 | the offset is positive if and only if the bodies are closer than the rest length, and negative if and only if they are farther apart |
| PositionConstraints.Direction | CSC8503CoreClasses/PositionConstraint.cpp:41 | (definition, no contract) the separation direction, Normalise(posA - posB) |
| PositionConstraints.VelocityAlong | CSC8503CoreClasses/PositionConstraint.cpp:48-56 | the relative velocity along dir is A's speed along dir minus B's, and zero for equal velocities |
| PositionConstraints.Bias | CSC8503CoreClasses/PositionConstraint.cpp:59-60 | the bias has the opposite sign of the offset, and is zero if and only if the offset is |
| PositionConstraints.Solve | CSC8503CoreClasses/PositionConstraint.cpp:27-73 | no impulse if and only if the offset is zero or the summed inverse mass is not positive; an applied pair is equal and opposite, with total impulse zero |
| PositionConstraints.Multiplier | CSC8503CoreClasses/PositionConstraint.cpp:63 | lambda times the constraint mass is -(velocityDot + bias) |
| PositionConstraints.StaticPairUntouched | CSC8503CoreClasses/PositionConstraint.cpp:52-54 | two bodies of zero inverse mass receive no impulse, whatever the offset |
| PositionConstraints.ImpulseFormula | CSC8503CoreClasses/PositionConstraint.cpp:41-67 | an applied impulse on A is dir * lambda and on B its negation, with dir = Normalise(posA - posB), bias = -(0.01 / dt) * offset and lambda = -(dot(vA - vB, dir) + bias) / (invMassA + invMassB) |
| PositionConstraints.ResolvesRelativeVelocity | CSC8503CoreClasses/PositionConstraint.cpp:56-67 | if each velocity takes its impulse times its inverse mass and dir has unit length, the new relative velocity along dir is exactly (0.01 / dt) * offset |
| PositionConstraints.ReactsToBothSigns | CSC8503CoreClasses/PositionConstraint.cpp:25-39 | with a positive summed inverse mass and no relative velocity along a non-degenerate dir, an impulse is applied if and only if the offset is non-zero; A is pushed along dir (away from B) if and only if the bodies are too close, and against it if and only if they are too far apart |
| PositionConstraints.TwoBodiesTooFarApart | CSC8503CoreClasses/PositionConstraint.cpp:27-73 | bodies at (0,0,0) and (5,0,0) at rest, both of inverse mass 1, with rest length 2 and dt = 1/60: offset -3, impulses (0.9, 0, 0) on A and (-0.9, 0, 0) on B |
| PositionConstraints.PhysicsObject.ApplyLinearImpulse | CSC8503CoreClasses/PositionConstraint.cpp:70-71 | the impulse is recorded after those the object has already received |
| PositionConstraints.PositionConstraint.constructor | CSC8503CoreClasses/PositionConstraint.cpp:13-18 | objectA, objectB and distance are stored unchanged |
| PositionConstraints.PositionConstraint.UpdateConstraint | CSC8503CoreClasses/PositionConstraint.cpp:27-73 | the only effects are ApplyLinearImpulse calls carrying the pair Solve gives: none for NoImpulse, else A's then B's (both to one object when A and B share it); positions, velocities, masses and distance are not written |

## Left out

- `CollisionDetection::AABBTest` is not part of this model. It is the parameter `aabb`.
  - The preservation lemmas `InsertKeeps` and `InsertAllKeeps` assume `CoversQuadrants(aabb)`: a box that meets
    a region meets one of its quadrants. Whether an insert can lose an entry therefore depends on the test.
  - A closed per-axis test over non-negative half-sizes has the property (`ClosedTestCoversQuadrants`).
  - A strict per-axis test does not (`StrictTestMissesQuadrants`). For example, a zero-size box at the centre of
    the root passes the root's test but no quarter's test. It is dropped when the root splits
    (`StrictTestLosesPointOnSplit`).
  - `StrictBoxTest` and `ClosedBoxTest` are illustrative per-axis overlaps, not the engine's code.
- `Vector::Length` and `Vector::Normalise` are parameters.
  - Square roots are not modelled.
  - `ResolvesRelativeVelocity` and `ReactsToBothSigns` state what they need of `normalise` (unit or non-zero
    length) as preconditions.
- `PhysicsObject::ApplyLinearImpulse` is not part of this model. Nothing is claimed about how the engine
  integrates an impulse into velocity. `ResolvesRelativeVelocity` assumes the usual `v += impulse * inverseMass`.
- Floating point is modelled with exact `real`.
  - `abs(offset) > 0.0f` is read with the floating-point overload of `abs`, i.e. offset != 0. The integer overload
    would truncate, but the headers that decide between them are not part of this model.
  - Rounding is not modelled, and neither is the `(int)contents.size()` cast, since buckets are far below 2^31.
- `dt > 0` is a precondition of `Solve` and `UpdateConstraint`. The code has no guard for `dt <= 0` and divides
  by `dt` at PositionConstraint.cpp:60. The model requires `dt > 0` and models no skip or clamp.
- The comment at PositionConstraint.cpp:25 describes a maximum distance, but the code reacts to both signs of the
  offset. The model follows the code; `ReactsToBothSigns` states the two-sided behaviour.
- Memory management is left out: `delete[] children` in the destructor, and the copy of a temporary node into
  `children[i]` and into `root`. Children are modelled as a sequence of four distinct, freshly allocated nodes
  instead of an array. The default constructor `QuadTreeNode()` serves that array allocation. It also default-initialises
  `QuadTree::root` (QuadTree.h:148) before the constructor assigns it at QuadTree.h:128. It is not modelled on
  its own, because both objects it builds are overwritten before use.
- `DebugDraw` is empty in the source and is not modelled.
- `OperateOnContents` is modelled as the ordered list of buckets the visitor receives. The visitor receives a
  mutable reference, and any change it makes to a bucket is not modelled.
- The default constructor, `GetTransform()` and `GetPhysicsObject()` of `GameObject` are not part of this model.
  `GameObject` and `PhysicsObject` are reduced to the fields `UpdateConstraint` reads.
- The `QuadTreeEntry` constructor is the datatype constructor `QuadTreeEntry(obj, pos, size)`; it only stores its
  three arguments.
- QuadTreeModel.SplitKeepsOrder: stated only for children that do not split in turn. When a child splits, its
  order is carried by `LeafSplit` applied one level down.

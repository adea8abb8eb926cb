/**
 * The quad-tree broad-phase index of CSC8503CoreClasses/QuadTree.h as pure
 * values: a node is a `Tree` holding its region, its bucket (`contents`) and
 * its children, and `Insert`, `Split` and `Visit` compute the node that the
 * in-place C++ code leaves behind. The heap classes in quadtree.dfy are
 * proved to follow these functions; everything the index promises is stated
 * here, as lemmas about them.
 */
module QuadTreeModel {
  import opened Maths

  /**
   * `CollisionDetection::AABBTest(posA, posB, halfSizeA, halfSizeB)`, which
   * is not part of this model: any total test can be supplied.
   */
  type AabbTest = (Vec3, Vec3, Vec3, Vec3) -> bool

  /** The vertical half-extent of every node's box: the split is 2-D (X/Z). */
  const VerticalHalfSize: real := 1000.0

  /** `QuadTreeEntry(obj, pos, size)`: the payload and the box captured at insertion. */
  datatype QuadTreeEntry<T> = QuadTreeEntry(obj: T, pos: Vec3, size: Vec3)

  /**
   * A `QuadTreeNode`: centre `position` (X, Z), half-size `size`, the bucket
   * `contents` and the `children` (empty for the source's `nullptr`).
   */
  datatype Tree<T> = Tree(position: Vec2, size: Vec2, contents: seq<QuadTreeEntry<T>>, children: seq<Tree<T>>)

  function Max0(d: int): nat {
    if d > 0 then d else 0
  }

  /**
   * The region test of `Insert`: the entry's box against the node's box,
   * centred at (position.x, 0, position.y) with half-size
   * (size.x, 1000, size.y).
   */
  predicate Overlaps<T>(aabb: AabbTest, e: QuadTreeEntry<T>, position: Vec2, size: Vec2) {
    RegionTest(aabb, e.pos, e.size, position, size)
  }

  /** A box (centre `pos`, half-size `size`) against a node's region. */
  predicate RegionTest(aabb: AabbTest, pos: Vec3, size: Vec3, position: Vec2, halfSize: Vec2) {
    aabb(pos, Vec3(position.x, 0.0, position.y), size, Vec3(halfSize.x, VerticalHalfSize, halfSize.y))
  }

  /**
   * `QuadTreeNode(pos, size)`: a leaf over the given region that stores
   * nothing, so the visitor is never called on it, and that keeps the
   * invariant whatever test, depth and bucket limit it is used with.
   */
  function EmptyNode<T>(position: Vec2, size: Vec2): (r: Tree<T>)
    ensures r.position == position && r.size == size && |r.children| == 0
    ensures Visit(r) == []
    ensures forall aabb, depthLeft, maxSize :: Invariant(aabb, r, depthLeft, maxSize)
  {
    Tree(position, size, [], [])
  }

  /**
   * The centre `Split` gives child `i` (top-left, top-right, bottom-left,
   * bottom-right): the even children lie half a half-size towards -X and the
   * odd ones towards +X; children 0 and 1 lie towards +Z and 2 and 3 towards -Z.
   */
  function QuadrantCentre(position: Vec2, size: Vec2, i: nat): (c: Vec2)
    requires i < 4
    ensures c.x == position.x + (if i % 2 == 0 then -size.x / 2.0 else size.x / 2.0)
    ensures c.y == position.y + (if i < 2 then size.y / 2.0 else -size.y / 2.0)
  {
    var h := Half(size);
    if i == 0 then Add2(position, Vec2(-h.x, h.y))
    else if i == 1 then Add2(position, Vec2(h.x, h.y))
    else if i == 2 then Add2(position, Vec2(-h.x, -h.y))
    else Add2(position, Vec2(h.x, -h.y))
  }

  /**
   * The four fresh children that `Split` allocates: empty leaves of half the
   * half-size, one per quarter, at four different centres unless the region
   * is flat along an axis.
   */
  function Quadrants<T>(position: Vec2, size: Vec2): (q: seq<Tree<T>>)
    ensures |q| == 4
    ensures forall i :: 0 <= i < 4 ==>
      && q[i].position == QuadrantCentre(position, size, i) && q[i].size == Half(size)
      && q[i].contents == [] && q[i].children == []
    ensures size.x != 0.0 && size.y != 0.0 ==>
      forall i, j :: 0 <= i < j < 4 ==> q[i].position != q[j].position
  {
    seq(4, i requires 0 <= i < 4 => EmptyNode(QuadrantCentre(position, size, i), Half(size)))
  }

  /**
   * `QuadTreeNode::Split`: the node keeps its region and its bucket and gains
   * the four empty quadrant children.
   */
  function Split<T>(t: Tree<T>): (r: Tree<T>)
    ensures r.position == t.position && r.size == t.size && r.contents == t.contents
    ensures |r.children| == 4
    ensures forall i :: 0 <= i < 4 ==>
      && r.children[i].position == QuadrantCentre(t.position, t.size, i) && r.children[i].size == Half(t.size)
      && r.children[i].contents == [] && r.children[i].children == []
  {
    t.(children := Quadrants(t.position, t.size))
  }

  /**
   * `QuadTreeNode::Insert(object, objectPos, objectSize, depthLeft, maxSize)`.
   * A rejected entry leaves the node alone; an internal node forwards the
   * entry to every child; a leaf appends it and, when the bucket then holds
   * more than `maxSize` entries and `depthLeft > 0`, splits and re-inserts
   * the whole bucket, in order, into each child.
   */
  function Insert<T>(aabb: AabbTest, t: Tree<T>, e: QuadTreeEntry<T>, depthLeft: int, maxSize: int): (r: Tree<T>)
    ensures r.position == t.position && r.size == t.size
    decreases Max0(depthLeft), 0, t
  {
    if !Overlaps(aabb, e, t.position, t.size) then t
    else if |t.children| != 0 then
      t.(children := seq(|t.children|, i requires 0 <= i < |t.children| =>
                           Insert(aabb, t.children[i], e, depthLeft - 1, maxSize)))
    else
      var bucket := t.contents + [e];
      if |bucket| > maxSize && depthLeft > 0 then
        var q := Quadrants<T>(t.position, t.size);
        Tree(t.position, t.size, [],
             seq(4, j requires 0 <= j < 4 => InsertAll(aabb, q[j], bucket, depthLeft - 1, maxSize)))
      else
        t.(contents := bucket)
  }

  /** Insert `es` one after the other, first to last. */
  function InsertAll<T>(aabb: AabbTest, t: Tree<T>, es: seq<QuadTreeEntry<T>>, depthLeft: int, maxSize: int): (r: Tree<T>)
    ensures r.position == t.position && r.size == t.size
    decreases Max0(depthLeft), |es|, t
  {
    if |es| == 0 then t
    else Insert(aabb, InsertAll(aabb, t, es[..|es| - 1], depthLeft, maxSize), es[|es| - 1], depthLeft, maxSize)
  }

  /** The entries of `es` whose box passes the test of the region, in their order. */
  function Accepted<T>(aabb: AabbTest, es: seq<QuadTreeEntry<T>>, position: Vec2, size: Vec2): (r: seq<QuadTreeEntry<T>>)
    ensures |r| <= |es|
    ensures forall k :: 0 <= k < |r| ==> r[k] in es && Overlaps(aabb, r[k], position, size)
    decreases |es|
  {
    if |es| == 0 then []
    else
      Accepted(aabb, es[..|es| - 1], position, size)
      + (if Overlaps(aabb, es[|es| - 1], position, size) then [es[|es| - 1]] else [])
  }

  /**
   * `QuadTreeNode::OperateOnContents`: the buckets handed to the visitor,
   * in the order of the calls: a depth-first walk, children 0 to 3, that
   * skips empty leaves and never visits an internal node's own bucket.
   */
  function Visit<T>(t: Tree<T>): (r: seq<seq<QuadTreeEntry<T>>>)
    ensures forall k :: 0 <= k < |r| ==> |r[k]| > 0
    decreases t, 1, 0
  {
    if |t.children| == 0 then
      if |t.contents| == 0 then [] else [t.contents]
    else
      VisitChildren(t, 0)
  }

  /** The visits of children `i`, `i + 1`, ... of `t`, in that order. */
  function VisitChildren<T>(t: Tree<T>, i: nat): (r: seq<seq<QuadTreeEntry<T>>>)
    requires i <= |t.children|
    ensures forall k :: 0 <= k < |r| ==> |r[k]| > 0
    decreases t, 0, |t.children| - i
  {
    if i == |t.children| then [] else Visit(t.children[i]) + VisitChildren(t, i + 1)
  }

  // ---------------------------------------------------------------------
  // Reference definitions
  // ---------------------------------------------------------------------

  /** `x` sits in the bucket of some leaf of `t`. */
  ghost predicate Stores<T>(t: Tree<T>, x: QuadTreeEntry<T>)
    decreases t
  {
    if |t.children| == 0 then x in t.contents
    else exists i :: 0 <= i < |t.children| && Stores(t.children[i], x)
  }

  /** `x` is in one of the buckets `bs`. */
  ghost predicate InSome<T>(bs: seq<seq<QuadTreeEntry<T>>>, x: QuadTreeEntry<T>) {
    exists k :: 0 <= k < |bs| && x in bs[k]
  }

  /** No path from `t` down to a leaf has more than `n` edges. */
  ghost predicate HeightAtMost<T>(t: Tree<T>, n: int)
    decreases t
  {
    |t.children| == 0 || (n > 0 && forall i :: 0 <= i < |t.children| ==> HeightAtMost(t.children[i], n - 1))
  }

  /** Every entry in every leaf bucket of `t` meets the region (`position`, `size`). */
  ghost predicate AllOverlap<T>(aabb: AabbTest, t: Tree<T>, position: Vec2, size: Vec2)
    decreases t
  {
    if |t.children| == 0 then
      forall k :: 0 <= k < |t.contents| ==> Overlaps(aabb, t.contents[k], position, size)
    else
      forall i :: 0 <= i < |t.children| ==> AllOverlap(aabb, t.children[i], position, size)
  }

  /**
   * The invariant of a node that receives `depthLeft` (the root receives
   * `maxDepth`, a node at level k receives `maxDepth - k`): every stored
   * entry passed this node's region test; a leaf that may still split holds
   * at most `maxSize` entries; an internal node has `depthLeft > 0`, an empty
   * bucket and exactly the four quadrant children of `Split`, each of which
   * satisfies the invariant one level down.
   */
  ghost predicate Invariant<T>(aabb: AabbTest, t: Tree<T>, depthLeft: int, maxSize: int)
    decreases t
  {
    && AllOverlap(aabb, t, t.position, t.size)
    && (if |t.children| == 0 then
          depthLeft > 0 ==> |t.contents| <= Max0(maxSize)
        else
          && depthLeft > 0
          && |t.contents| == 0
          && |t.children| == 4
          && (forall i :: 0 <= i < 4 ==>
                t.children[i].position == QuadrantCentre(t.position, t.size, i) && t.children[i].size == Half(t.size))
          && (forall i :: 0 <= i < 4 ==> Invariant(aabb, t.children[i], depthLeft - 1, maxSize)))
  }

  /**
   * The test is geometric enough that an entry meeting a region meets one of
   * its four quadrants.
   */
  ghost predicate CoversQuadrants(aabb: AabbTest) {
    forall pos: Vec3, size: Vec3, position: Vec2, halfSize: Vec2 {:trigger RegionTest(aabb, pos, size, position, halfSize)} ::
      RegionTest(aabb, pos, size, position, halfSize) ==>
        exists i :: 0 <= i < 4 &&
          var c, h := QuadrantCentre(position, halfSize, i), Half(halfSize);
          aabb(pos, Vec3(c.x, 0.0, c.y), size, Vec3(h.x, VerticalHalfSize, h.y))
  }

  // ---------------------------------------------------------------------
  // One insertion
  // ---------------------------------------------------------------------

  /** An entry that fails the region test changes nothing, so no visit sees it. */
  lemma RejectedInsertIsNoOp<T>(aabb: AabbTest, t: Tree<T>, e: QuadTreeEntry<T>, depthLeft: int, maxSize: int)
    requires !Overlaps(aabb, e, t.position, t.size)
    ensures Insert(aabb, t, e, depthLeft, maxSize) == t
    ensures Visit(Insert(aabb, t, e, depthLeft, maxSize)) == Visit(t)
  {
  }

  /** An internal node passes the same entry to all its children, one level down, and keeps its bucket. */
  lemma InternalInsertForwards<T>(aabb: AabbTest, t: Tree<T>, e: QuadTreeEntry<T>, depthLeft: int, maxSize: int)
    requires Overlaps(aabb, e, t.position, t.size) && |t.children| != 0
    ensures var r := Insert(aabb, t, e, depthLeft, maxSize);
      && r.contents == t.contents
      && |r.children| == |t.children|
      && forall i :: 0 <= i < |t.children| ==> r.children[i] == Insert(aabb, t.children[i], e, depthLeft - 1, maxSize)
  {
  }

  /**
   * A leaf splits exactly when its bucket, with the new entry, is longer than
   * `maxSize` and `depthLeft > 0`; otherwise the entry goes at the end of the
   * bucket and the earlier entries stay as they were.
   */
  lemma LeafInsert<T>(aabb: AabbTest, t: Tree<T>, e: QuadTreeEntry<T>, depthLeft: int, maxSize: int)
    requires Overlaps(aabb, e, t.position, t.size) && |t.children| == 0
    ensures var r := Insert(aabb, t, e, depthLeft, maxSize);
      && (|r.children| != 0 <==> |t.contents| + 1 > maxSize && depthLeft > 0)
      && (|r.children| == 0 ==> r.contents == t.contents + [e])
  {
  }

  /**
   * After a split the node has four children and an empty bucket, and child
   * `j` is the `j`th quadrant into which the whole bucket, new entry last,
   * has been inserted in order at `depthLeft - 1`.
   */
  lemma LeafSplit<T>(aabb: AabbTest, t: Tree<T>, e: QuadTreeEntry<T>, depthLeft: int, maxSize: int)
    requires Overlaps(aabb, e, t.position, t.size) && |t.children| == 0
    requires |t.contents| + 1 > maxSize && depthLeft > 0
    ensures var r := Insert(aabb, t, e, depthLeft, maxSize);
      && r.contents == []
      && |r.children| == 4
      && forall j :: 0 <= j < 4 ==>
           r.children[j] == InsertAll(aabb, Split(t).children[j], t.contents + [e], depthLeft - 1, maxSize)
  {
  }

  /**
   * `Split` halves the half-size and centres the children at
   * position + (-h.x, +h.y), (+h.x, +h.y), (-h.x, -h.y), (+h.x, -h.y).
   */
  lemma SplitGeometry<T>(t: Tree<T>)
    ensures var s := Split(t); var h := Vec2(t.size.x / 2.0, t.size.y / 2.0);
      && s.position == t.position && s.size == t.size && s.contents == t.contents
      && |s.children| == 4
      && (forall j :: 0 <= j < 4 ==> s.children[j].size == h && s.children[j].contents == [] && s.children[j].children == [])
      && s.children[0].position == Vec2(t.position.x - h.x, t.position.y + h.y)
      && s.children[1].position == Vec2(t.position.x + h.x, t.position.y + h.y)
      && s.children[2].position == Vec2(t.position.x - h.x, t.position.y - h.y)
      && s.children[3].position == Vec2(t.position.x + h.x, t.position.y - h.y)
  {
  }

  /**
   * The four quadrants tile the parent: each lies inside it, and every point
   * of the parent lies in one of them.
   */
  lemma QuadrantsTile(position: Vec2, size: Vec2, p: Vec2)
    requires size.x >= 0.0 && size.y >= 0.0
    ensures forall i, q: Vec2 :: 0 <= i < 4 && InBox(q, QuadrantCentre(position, size, i), Half(size)) ==> InBox(q, position, size)
    ensures InBox(p, position, size) ==> exists i :: 0 <= i < 4 && InBox(p, QuadrantCentre(position, size, i), Half(size))
  {
    var h := Half(size);
    if InBox(p, position, size) {
      var i := if p.x <= position.x then (if p.y >= position.y then 0 else 2)
               else (if p.y >= position.y then 1 else 3);
      assert InBox(p, QuadrantCentre(position, size, i), h);
    }
  }

  /** `p` lies in the closed rectangle with centre `c` and half-size `h`. */
  ghost predicate InBox(p: Vec2, c: Vec2, h: Vec2) {
    c.x - h.x <= p.x <= c.x + h.x && c.y - h.y <= p.y <= c.y + h.y
  }

  // ---------------------------------------------------------------------
  // Order of buckets
  // ---------------------------------------------------------------------

  /**
   * Inserting a run of entries into a leaf that does not split (it has no
   * depth left, or the accepted entries fit) appends exactly the accepted
   * ones, in their order, behind the old bucket.
   */
  lemma {:induction false} InsertAllIntoLeaf<T>(aabb: AabbTest, t: Tree<T>, es: seq<QuadTreeEntry<T>>, depthLeft: int, maxSize: int)
    requires |t.children| == 0
    requires depthLeft <= 0 || |t.contents| + |Accepted(aabb, es, t.position, t.size)| <= maxSize
    ensures InsertAll(aabb, t, es, depthLeft, maxSize) == t.(contents := t.contents + Accepted(aabb, es, t.position, t.size))
    decreases |es|
  {
    if |es| > 0 {
      var n := |es| - 1;
      var pre := es[..n];
      InsertAllIntoLeaf(aabb, t, pre, depthLeft, maxSize);
      var mid := t.(contents := t.contents + Accepted(aabb, pre, t.position, t.size));
      assert InsertAll(aabb, t, es, depthLeft, maxSize) == Insert(aabb, mid, es[n], depthLeft, maxSize);
      if Overlaps(aabb, es[n], t.position, t.size) {
        assert mid.contents + [es[n]] == t.contents + Accepted(aabb, es, t.position, t.size);
      }
    }
  }

  /**
   * When the children of a split leaf do not split in turn, child `j` holds
   * exactly those bucket entries (new one last) that meet quadrant `j`, in
   * their original order.
   */
  lemma SplitKeepsOrder<T>(aabb: AabbTest, t: Tree<T>, e: QuadTreeEntry<T>, depthLeft: int, maxSize: int, j: nat)
    requires Overlaps(aabb, e, t.position, t.size) && |t.children| == 0
    requires |t.contents| + 1 > maxSize && depthLeft > 0 && j < 4
    requires depthLeft - 1 <= 0
      || |Accepted(aabb, t.contents + [e], QuadrantCentre(t.position, t.size, j), Half(t.size))| <= maxSize
    ensures Insert(aabb, t, e, depthLeft, maxSize).children[j].contents
         == Accepted(aabb, t.contents + [e], QuadrantCentre(t.position, t.size, j), Half(t.size))
    ensures Insert(aabb, t, e, depthLeft, maxSize).children[j].children == []
  {
    var q := Quadrants<T>(t.position, t.size);
    InsertAllIntoLeaf(aabb, q[j], t.contents + [e], depthLeft - 1, maxSize);
  }

  // ---------------------------------------------------------------------
  // What a tree stores
  // ---------------------------------------------------------------------

  /** Insertion stores nothing but what was there and the new entry, and that one only if the node accepts it. */
  lemma {:induction false} InsertStoresOnly<T>(aabb: AabbTest, t: Tree<T>, e: QuadTreeEntry<T>, depthLeft: int, maxSize: int, x: QuadTreeEntry<T>)
    requires Stores(Insert(aabb, t, e, depthLeft, maxSize), x)
    ensures Stores(t, x) || (x == e && Overlaps(aabb, e, t.position, t.size))
    decreases Max0(depthLeft), 0, t
  {
    var r := Insert(aabb, t, e, depthLeft, maxSize);
    if !Overlaps(aabb, e, t.position, t.size) {
    } else if |t.children| != 0 {
      var i :| 0 <= i < |r.children| && Stores(r.children[i], x);
      InsertStoresOnly(aabb, t.children[i], e, depthLeft - 1, maxSize, x);
    } else if |t.contents| + 1 > maxSize && depthLeft > 0 {
      var q := Quadrants<T>(t.position, t.size);
      var j :| 0 <= j < 4 && Stores(r.children[j], x);
      InsertAllStoresOnly(aabb, q[j], t.contents + [e], depthLeft - 1, maxSize, x);
    }
  }

  /** Inserting a run stores nothing but what was there and entries of the run. */
  lemma {:induction false} InsertAllStoresOnly<T>(aabb: AabbTest, t: Tree<T>, es: seq<QuadTreeEntry<T>>, depthLeft: int, maxSize: int, x: QuadTreeEntry<T>)
    requires Stores(InsertAll(aabb, t, es, depthLeft, maxSize), x)
    ensures Stores(t, x) || x in es
    decreases Max0(depthLeft), |es|, t
  {
    if |es| > 0 {
      var n := |es| - 1;
      var mid := InsertAll(aabb, t, es[..n], depthLeft, maxSize);
      InsertStoresOnly(aabb, mid, es[n], depthLeft, maxSize, x);
      if Stores(mid, x) {
        InsertAllStoresOnly(aabb, t, es[..n], depthLeft, maxSize, x);
        assert x in es[..n] ==> x in es;
      }
    }
  }

  /**
   * With a test that covers quadrants, insertion loses nothing: every stored
   * entry stays stored, and an accepted entry becomes stored.
   */
  lemma {:induction false} InsertKeeps<T>(aabb: AabbTest, t: Tree<T>, e: QuadTreeEntry<T>, depthLeft: int, maxSize: int, x: QuadTreeEntry<T>)
    requires CoversQuadrants(aabb) && Invariant(aabb, t, depthLeft, maxSize)
    requires Stores(t, x) || (x == e && Overlaps(aabb, e, t.position, t.size))
    ensures Stores(Insert(aabb, t, e, depthLeft, maxSize), x)
    decreases Max0(depthLeft), 0, t
  {
    var r := Insert(aabb, t, e, depthLeft, maxSize);
    if !Overlaps(aabb, e, t.position, t.size) {
    } else if |t.children| != 0 {
      if Stores(t, x) {
        var i :| 0 <= i < |t.children| && Stores(t.children[i], x);
        InsertKeeps(aabb, t.children[i], e, depthLeft - 1, maxSize, x);
        assert Stores(r.children[i], x);
      } else {
        var i :| 0 <= i < 4 && Overlaps(aabb, e, QuadrantCentre(t.position, t.size, i), Half(t.size));
        InsertKeeps(aabb, t.children[i], e, depthLeft - 1, maxSize, x);
        assert Stores(r.children[i], x);
      }
    } else if |t.contents| + 1 > maxSize && depthLeft > 0 {
      var bucket := t.contents + [e];
      var q := Quadrants<T>(t.position, t.size);
      if Stores(t, x) {
        StoredOverlaps(aabb, t, t.position, t.size, x);
      }
      assert x in bucket && Overlaps(aabb, x, t.position, t.size);
      var j :| 0 <= j < 4 && Overlaps(aabb, x, QuadrantCentre(t.position, t.size, j), Half(t.size));
      InsertAllKeeps(aabb, q[j], bucket, depthLeft - 1, maxSize, x);
      assert Stores(r.children[j], x);
    }
  }

  /** With a test that covers quadrants, a run of insertions keeps what was stored and stores what was accepted. */
  lemma {:induction false} InsertAllKeeps<T>(aabb: AabbTest, t: Tree<T>, es: seq<QuadTreeEntry<T>>, depthLeft: int, maxSize: int, x: QuadTreeEntry<T>)
    requires CoversQuadrants(aabb) && Invariant(aabb, t, depthLeft, maxSize)
    requires Stores(t, x) || (x in es && Overlaps(aabb, x, t.position, t.size))
    ensures Stores(InsertAll(aabb, t, es, depthLeft, maxSize), x)
    decreases Max0(depthLeft), |es|, t
  {
    if |es| > 0 {
      var n := |es| - 1;
      var pre := es[..n];
      assert es == pre + [es[n]];
      var mid := InsertAll(aabb, t, pre, depthLeft, maxSize);
      InsertAllPreservesInvariant(aabb, t, pre, depthLeft, maxSize);
      if Stores(t, x) || x in pre {
        InsertAllKeeps(aabb, t, pre, depthLeft, maxSize, x);
      }
      InsertKeeps(aabb, mid, es[n], depthLeft, maxSize, x);
    }
  }

  /** A stored entry meets every region that all entries of the tree meet. */
  lemma {:induction false} StoredOverlaps<T>(aabb: AabbTest, t: Tree<T>, position: Vec2, size: Vec2, x: QuadTreeEntry<T>)
    requires AllOverlap(aabb, t, position, size) && Stores(t, x)
    ensures Overlaps(aabb, x, position, size)
    decreases t
  {
    if |t.children| == 0 {
      var k :| 0 <= k < |t.contents| && t.contents[k] == x;
    } else {
      var i :| 0 <= i < |t.children| && Stores(t.children[i], x);
      StoredOverlaps(aabb, t.children[i], position, size, x);
    }
  }

  /** Inserting an entry that meets a region keeps "every entry meets the region". */
  lemma {:induction false} InsertKeepsOverlap<T>(aabb: AabbTest, t: Tree<T>, e: QuadTreeEntry<T>, depthLeft: int, maxSize: int, position: Vec2, size: Vec2)
    requires AllOverlap(aabb, t, position, size) && Overlaps(aabb, e, position, size)
    ensures AllOverlap(aabb, Insert(aabb, t, e, depthLeft, maxSize), position, size)
    decreases Max0(depthLeft), 0, t
  {
    var r := Insert(aabb, t, e, depthLeft, maxSize);
    if !Overlaps(aabb, e, t.position, t.size) {
    } else if |t.children| != 0 {
      forall i | 0 <= i < |t.children|
        ensures AllOverlap(aabb, r.children[i], position, size)
      {
        InsertKeepsOverlap(aabb, t.children[i], e, depthLeft - 1, maxSize, position, size);
      }
    } else if |t.contents| + 1 > maxSize && depthLeft > 0 {
      var q := Quadrants<T>(t.position, t.size);
      forall j | 0 <= j < 4
        ensures AllOverlap(aabb, r.children[j], position, size)
      {
        InsertAllKeepsOverlap(aabb, q[j], t.contents + [e], depthLeft - 1, maxSize, position, size);
      }
    }
  }

  /** Inserting a run of entries that all meet a region keeps "every entry meets the region". */
  lemma {:induction false} InsertAllKeepsOverlap<T>(aabb: AabbTest, t: Tree<T>, es: seq<QuadTreeEntry<T>>, depthLeft: int, maxSize: int, position: Vec2, size: Vec2)
    requires AllOverlap(aabb, t, position, size)
    requires forall k :: 0 <= k < |es| ==> Overlaps(aabb, es[k], position, size)
    ensures AllOverlap(aabb, InsertAll(aabb, t, es, depthLeft, maxSize), position, size)
    decreases Max0(depthLeft), |es|, t
  {
    if |es| > 0 {
      var n := |es| - 1;
      InsertAllKeepsOverlap(aabb, t, es[..n], depthLeft, maxSize, position, size);
      InsertKeepsOverlap(aabb, InsertAll(aabb, t, es[..n], depthLeft, maxSize), es[n], depthLeft, maxSize, position, size);
    }
  }

  // ---------------------------------------------------------------------
  // The tree-wide invariant
  // ---------------------------------------------------------------------

  /** Insertion keeps the invariant. */
  lemma {:induction false} InsertPreservesInvariant<T>(aabb: AabbTest, t: Tree<T>, e: QuadTreeEntry<T>, depthLeft: int, maxSize: int)
    requires Invariant(aabb, t, depthLeft, maxSize)
    ensures Invariant(aabb, Insert(aabb, t, e, depthLeft, maxSize), depthLeft, maxSize)
    decreases Max0(depthLeft), 0, t
  {
    var r := Insert(aabb, t, e, depthLeft, maxSize);
    if !Overlaps(aabb, e, t.position, t.size) {
    } else if |t.children| != 0 {
      forall i | 0 <= i < 4
        ensures Invariant(aabb, r.children[i], depthLeft - 1, maxSize)
        ensures AllOverlap(aabb, r.children[i], t.position, t.size)
      {
        InsertPreservesInvariant(aabb, t.children[i], e, depthLeft - 1, maxSize);
        InsertKeepsOverlap(aabb, t.children[i], e, depthLeft - 1, maxSize, t.position, t.size);
      }
    } else if |t.contents| + 1 > maxSize && depthLeft > 0 {
      var bucket := t.contents + [e];
      var q := Quadrants<T>(t.position, t.size);
      forall j | 0 <= j < 4
        ensures Invariant(aabb, r.children[j], depthLeft - 1, maxSize)
        ensures AllOverlap(aabb, r.children[j], t.position, t.size)
      {
        assert Invariant(aabb, q[j], depthLeft - 1, maxSize);
        InsertAllPreservesInvariant(aabb, q[j], bucket, depthLeft - 1, maxSize);
        InsertAllKeepsOverlap(aabb, q[j], bucket, depthLeft - 1, maxSize, t.position, t.size);
      }
    }
  }

  /** A run of insertions keeps the invariant. */
  lemma {:induction false} InsertAllPreservesInvariant<T>(aabb: AabbTest, t: Tree<T>, es: seq<QuadTreeEntry<T>>, depthLeft: int, maxSize: int)
    requires Invariant(aabb, t, depthLeft, maxSize)
    ensures Invariant(aabb, InsertAll(aabb, t, es, depthLeft, maxSize), depthLeft, maxSize)
    decreases Max0(depthLeft), |es|, t
  {
    if |es| > 0 {
      var n := |es| - 1;
      InsertAllPreservesInvariant(aabb, t, es[..n], depthLeft, maxSize);
      InsertPreservesInvariant(aabb, InsertAll(aabb, t, es[..n], depthLeft, maxSize), es[n], depthLeft, maxSize);
    }
  }

  /** A tree that keeps the invariant is no taller than the depth it was given. */
  lemma {:induction false} InvariantBoundsHeight<T>(aabb: AabbTest, t: Tree<T>, depthLeft: int, maxSize: int)
    requires Invariant(aabb, t, depthLeft, maxSize)
    ensures HeightAtMost(t, depthLeft)
    decreases t
  {
    if |t.children| != 0 {
      forall i | 0 <= i < |t.children|
        ensures HeightAtMost(t.children[i], depthLeft - 1)
      {
        InvariantBoundsHeight(aabb, t.children[i], depthLeft - 1, maxSize);
      }
    }
  }

  // ---------------------------------------------------------------------
  // Visiting
  // ---------------------------------------------------------------------

  lemma InSomeConcat<T>(a: seq<seq<QuadTreeEntry<T>>>, b: seq<seq<QuadTreeEntry<T>>>, x: QuadTreeEntry<T>)
    ensures InSome(a + b, x) <==> InSome(a, x) || InSome(b, x)
  {
    if InSome(a, x) {
      var k :| 0 <= k < |a| && x in a[k];
      assert (a + b)[k] == a[k];
    }
    if InSome(b, x) {
      var k :| 0 <= k < |b| && x in b[k];
      assert (a + b)[|a| + k] == b[k];
    }
    if InSome(a + b, x) {
      var k :| 0 <= k < |a + b| && x in (a + b)[k];
      if k >= |a| {
        assert b[k - |a|] == (a + b)[k];
      } else {
        assert a[k] == (a + b)[k];
      }
    }
  }

  /** The visitor sees exactly the stored entries. */
  lemma {:induction false} VisitedIffStored<T>(t: Tree<T>, x: QuadTreeEntry<T>)
    ensures InSome(Visit(t), x) <==> Stores(t, x)
    decreases t, 1, 0
  {
    if |t.children| == 0 {
      if |t.contents| != 0 {
        assert Visit(t)[0] == t.contents;
      }
    } else {
      VisitChildrenIffStored(t, 0, x);
    }
  }

  lemma {:induction false} VisitChildrenIffStored<T>(t: Tree<T>, i: nat, x: QuadTreeEntry<T>)
    requires i <= |t.children|
    ensures InSome(VisitChildren(t, i), x) <==> exists j :: i <= j < |t.children| && Stores(t.children[j], x)
    decreases t, 0, |t.children| - i
  {
    if i < |t.children| {
      VisitedIffStored(t.children[i], x);
      VisitChildrenIffStored(t, i + 1, x);
      InSomeConcat(Visit(t.children[i]), VisitChildren(t, i + 1), x);
      if exists j :: i <= j < |t.children| && Stores(t.children[j], x) {
        var j :| i <= j < |t.children| && Stores(t.children[j], x);
        assert j == i || (i + 1 <= j < |t.children| && Stores(t.children[j], x));
      }
    }
  }

  /** An internal node with four children is visited child 0, then 1, 2 and 3. */
  lemma VisitFour<T>(t: Tree<T>)
    requires |t.children| == 4
    ensures Visit(t) == Visit(t.children[0]) + Visit(t.children[1]) + Visit(t.children[2]) + Visit(t.children[3])
  {
    assert VisitChildren(t, 3) == Visit(t.children[3]) + VisitChildren(t, 4);
    assert VisitChildren(t, 2) == Visit(t.children[2]) + VisitChildren(t, 3);
    assert VisitChildren(t, 1) == Visit(t.children[1]) + VisitChildren(t, 2);
  }

  /** An entry whose box misses the root's region is never handed to the visitor. */
  lemma RejectedNeverVisited<T>(aabb: AabbTest, t: Tree<T>, depthLeft: int, maxSize: int, x: QuadTreeEntry<T>)
    requires Invariant(aabb, t, depthLeft, maxSize)
    requires !Overlaps(aabb, x, t.position, t.size)
    ensures forall k :: 0 <= k < |Visit(t)| ==> x !in Visit(t)[k]
  {
    VisitedIffStored(t, x);
    if Stores(t, x) {
      StoredOverlaps(aabb, t, t.position, t.size, x);
    }
  }
}

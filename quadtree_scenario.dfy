/**
 * Worked runs of the quad-tree with concrete box tests. In the first, a tree
 * of half-size 100 (a 200 x 200 region) with `maxDepth = 2` and `maxSize = 1`
 * receives one small box in the (+X, +Z) quarter and one in the (-X, -Z)
 * quarter; the second insert splits the root and each box lands in exactly
 * one child, diagonally opposite. The last lemmas show which tests satisfy
 * `CoversQuadrants`, the hypothesis under which an insert loses nothing: a
 * closed test over non-negative sizes does, while a strict test drops a
 * zero-size box lying on a split line.
 */
module QuadTreeScenario {
  import opened Maths
  import opened QuadTreeModel

  /**
   * A strict per-axis overlap of two centred boxes, standing in for the
   * engine's `CollisionDetection::AABBTest` (which is not part of this model).
   */
  predicate StrictBoxTest(posA: Vec3, posB: Vec3, halfA: Vec3, halfB: Vec3) {
    && Abs(posB.x - posA.x) < halfA.x + halfB.x
    && Abs(posB.y - posA.y) < halfA.y + halfB.y
    && Abs(posB.z - posA.z) < halfA.z + halfB.z
  }

  function Root<T>(): Tree<T> {
    EmptyNode(Vec2(0.0, 0.0), Vec2(100.0, 100.0))
  }

  /** A unit-half-size box centred at (10, 0, 10). */
  function E1<T>(o1: T): QuadTreeEntry<T> {
    QuadTreeEntry(o1, Vec3(10.0, 0.0, 10.0), Vec3(1.0, 1.0, 1.0))
  }

  /** A unit-half-size box centred at (-10, 0, -10). */
  function E2<T>(o2: T): QuadTreeEntry<T> {
    QuadTreeEntry(o2, Vec3(-10.0, 0.0, -10.0), Vec3(1.0, 1.0, 1.0))
  }

  /** Which quarters of the root each box passes the test for. */
  lemma QuadrantAcceptance<T>(o1: T, o2: T)
    ensures var q := Quadrants<T>(Vec2(0.0, 0.0), Vec2(100.0, 100.0));
      && Accepted(StrictBoxTest, [E1(o1), E2(o2)], q[0].position, q[0].size) == []
      && Accepted(StrictBoxTest, [E1(o1), E2(o2)], q[1].position, q[1].size) == [E1(o1)]
      && Accepted(StrictBoxTest, [E1(o1), E2(o2)], q[2].position, q[2].size) == [E2(o2)]
      && Accepted(StrictBoxTest, [E1(o1), E2(o2)], q[3].position, q[3].size) == []
  {
    var q := Quadrants<T>(Vec2(0.0, 0.0), Vec2(100.0, 100.0));
    assert q[0].position == Vec2(-50.0, 50.0) && q[1].position == Vec2(50.0, 50.0);
    assert q[2].position == Vec2(-50.0, -50.0) && q[3].position == Vec2(50.0, -50.0);
    assert [E1(o1), E2(o2)][..1] == [E1(o1)];
  }

  /** The first box lands in the root's bucket: one entry does not exceed `maxSize = 1`. */
  lemma FirstInsert<T>(o1: T)
    ensures Insert(StrictBoxTest, Root<T>(), E1(o1), 2, 1) == Root<T>().(contents := [E1(o1)])
  {
    assert Overlaps(StrictBoxTest, E1(o1), Root<T>().position, Root<T>().size);
  }

  /** The second box makes two, so the root splits and both are re-inserted into every quarter. */
  lemma SecondInsertSplits<T>(o1: T, o2: T)
    ensures var t2 := Insert(StrictBoxTest, Root<T>().(contents := [E1(o1)]), E2(o2), 2, 1);
      var q := Quadrants<T>(Vec2(0.0, 0.0), Vec2(100.0, 100.0));
      && t2.contents == [] && |t2.children| == 4
      && forall j :: 0 <= j < 4 ==>
           t2.children[j] == q[j].(contents := Accepted(StrictBoxTest, [E1(o1), E2(o2)], q[j].position, q[j].size))
  {
    var t1 := Root<T>().(contents := [E1(o1)]);
    var q := Quadrants<T>(Vec2(0.0, 0.0), Vec2(100.0, 100.0));
    assert Overlaps(StrictBoxTest, E2(o2), t1.position, t1.size);
    LeafSplit(StrictBoxTest, t1, E2(o2), 2, 1);
    assert t1.contents + [E2(o2)] == [E1(o1), E2(o2)];
    forall j | 0 <= j < 4
      ensures InsertAll(StrictBoxTest, q[j], [E1(o1), E2(o2)], 1, 1)
           == q[j].(contents := Accepted(StrictBoxTest, [E1(o1), E2(o2)], q[j].position, q[j].size))
    {
      InsertAllIntoLeaf(StrictBoxTest, q[j], [E1(o1), E2(o2)], 1, 1);
    }
  }

  /**
   * After both inserts the root is internal with an empty bucket, the first
   * box sits only in quarter 1 and the second only in quarter 2, and a visit
   * reports exactly those two one-entry buckets.
   */
  lemma TwoBoxesInOppositeQuadrants<T>(o1: T, o2: T)
    ensures var t1 := Insert(StrictBoxTest, Root<T>(), E1(o1), 2, 1);
      var t2 := Insert(StrictBoxTest, t1, E2(o2), 2, 1);
      && t1 == Root<T>().(contents := [E1(o1)])
      && t2.contents == [] && |t2.children| == 4
      && t2.children[0].contents == [] && t2.children[1].contents == [E1(o1)]
      && t2.children[2].contents == [E2(o2)] && t2.children[3].contents == []
      && Visit(t2) == [[E1(o1)], [E2(o2)]]
  {
    FirstInsert<T>(o1);
    SecondInsertSplits(o1, o2);
    QuadrantAcceptance(o1, o2);
    var t2 := Insert(StrictBoxTest, Root<T>().(contents := [E1(o1)]), E2(o2), 2, 1);
    VisitFour(t2);
  }

  // ---------------------------------------------------------------------
  // Which tests cover quadrants
  // ---------------------------------------------------------------------

  /** A zero-size box at the origin: it lies on both split lines of `Root`. */
  function Point<T>(o: T): QuadTreeEntry<T> {
    QuadTreeEntry(o, Zero3, Zero3)
  }

  /** The strict test accepts the point at the root but at none of the root's quarters. */
  lemma StrictTestMissesQuadrants()
    ensures !CoversQuadrants(StrictBoxTest)
  {
    var position, halfSize := Vec2(0.0, 0.0), Vec2(100.0, 100.0);
    assert RegionTest(StrictBoxTest, Zero3, Zero3, position, halfSize);
    forall i | 0 <= i < 4
      ensures var c, h := QuadrantCentre(position, halfSize, i), Half(halfSize);
        !StrictBoxTest(Zero3, Vec3(c.x, 0.0, c.y), Zero3, Vec3(h.x, VerticalHalfSize, h.y))
    {
    }
  }

  /**
   * So with the strict test an accepted entry can be lost: the root accepts
   * the point, the bucket overflows `maxSize = 0`, the root splits, and no
   * quarter accepts the point again, so the visitor never sees it.
   */
  lemma StrictTestLosesPointOnSplit<T>(o: T)
    ensures Overlaps(StrictBoxTest, Point(o), Root<T>().position, Root<T>().size)
    ensures var r := Insert(StrictBoxTest, Root<T>(), Point(o), 1, 0);
      |r.children| == 4 && Visit(r) == []
  {
    var q := Quadrants<T>(Vec2(0.0, 0.0), Vec2(100.0, 100.0));
    var r := Insert(StrictBoxTest, Root<T>(), Point(o), 1, 0);
    forall j | 0 <= j < 4
      ensures r.children[j] == q[j]
    {
      assert !Overlaps(StrictBoxTest, Point(o), q[j].position, q[j].size);
      assert [Point(o)][..0] == [];
    }
    VisitFour(r);
  }

  /**
   * A closed per-axis overlap that rejects negative half-sizes: boxes that
   * touch count as overlapping.
   */
  predicate ClosedBoxTest(posA: Vec3, posB: Vec3, halfA: Vec3, halfB: Vec3) {
    && halfA.x >= 0.0 && halfA.y >= 0.0 && halfA.z >= 0.0
    && halfB.x >= 0.0 && halfB.y >= 0.0 && halfB.z >= 0.0
    && Abs(posB.x - posA.x) <= halfA.x + halfB.x
    && Abs(posB.y - posA.y) <= halfA.y + halfB.y
    && Abs(posB.z - posA.z) <= halfA.z + halfB.z
  }

  /**
   * The closed test covers quadrants: a box meeting a region meets the
   * quarter on its own side of each split line. So `InsertKeeps` and
   * `InsertAllKeeps` apply to it, and with it an insert loses nothing.
   */
  lemma ClosedTestCoversQuadrants()
    ensures CoversQuadrants(ClosedBoxTest)
  {
    forall pos: Vec3, size: Vec3, position: Vec2, halfSize: Vec2 | RegionTest(ClosedBoxTest, pos, size, position, halfSize)
      ensures exists i :: 0 <= i < 4 &&
                var c, h := QuadrantCentre(position, halfSize, i), Half(halfSize);
                ClosedBoxTest(pos, Vec3(c.x, 0.0, c.y), size, Vec3(h.x, VerticalHalfSize, h.y))
    {
      var i := if pos.x <= position.x then (if pos.z >= position.y then 0 else 2)
               else (if pos.z >= position.y then 1 else 3);
      var c, h := QuadrantCentre(position, halfSize, i), Half(halfSize);
      assert ClosedBoxTest(pos, Vec3(c.x, 0.0, c.y), size, Vec3(h.x, VerticalHalfSize, h.y));
    }
  }

  /** With the closed test an insert into a tree that keeps the invariant keeps every stored entry and stores an accepted one. */
  lemma ClosedTestInsertKeeps<T>(t: Tree<T>, e: QuadTreeEntry<T>, depthLeft: int, maxSize: int, x: QuadTreeEntry<T>)
    requires Invariant(ClosedBoxTest, t, depthLeft, maxSize)
    requires Stores(t, x) || (x == e && Overlaps(ClosedBoxTest, e, t.position, t.size))
    ensures Stores(Insert(ClosedBoxTest, t, e, depthLeft, maxSize), x)
  {
    ClosedTestCoversQuadrants();
    InsertKeeps(ClosedBoxTest, t, e, depthLeft, maxSize, x);
  }
}

/**
 * The quad-tree of CSC8503CoreClasses/QuadTree.h as heap objects: a
 * `QuadTreeNode` whose `Insert` appends to its own bucket and allocates its
 * own children, and the `QuadTree` that owns the root. Each node carries the
 * pure `Tree` it stands for (`Model`) and the objects it is made of (`Repr`);
 * every method is proved to change `Model` exactly as the functions of
 * QuadTreeModel say.
 */
module QuadTree {
  import opened Maths
  import opened QuadTreeModel

  class QuadTreeNode<T> {
    var contents: seq<QuadTreeEntry<T>>
    var position: Vec2
    var size: Vec2
    /** No children (the source's `nullptr`) or the four allocated by `Split`. */
    var children: seq<QuadTreeNode<T>>

    ghost var Model: Tree<T>
    ghost var Repr: set<object>

    ghost predicate Valid()
      reads this, Repr
      decreases Repr, 1
    {
      && this in Repr
      && Model.position == position
      && Model.size == size
      && Model.contents == contents
      && |Model.children| == |children|
      && (|children| != 0 ==>
            && ChildrenValid()
            && forall i :: 0 <= i < |children| ==> children[i] in Repr && Model.children[i] == children[i].Model)
    }

    /** Four valid children whose footprints are disjoint and lie inside this node's. */
    ghost predicate ChildrenValid()
      reads this`children, this`Repr, Repr - {this}
      decreases Repr, 0
    {
      && this in Repr
      && |children| == 4
      && (forall i :: 0 <= i < 4 ==> children[i] in Repr && children[i].Repr <= Repr && this !in children[i].Repr)
      && (forall i, j :: 0 <= i < 4 && 0 <= j < 4 && i != j ==> children[i].Repr !! children[j].Repr)
      && (forall i :: 0 <= i < 4 ==> children[i].Valid())
    }

    /** `QuadTreeNode(pos, size)` */
    constructor (position: Vec2, size: Vec2)
      ensures Valid() && Repr == {this}
      ensures Model == EmptyNode(position, size)
    {
      this.children := [];
      this.position := position;
      this.size := size;
      this.contents := [];
      Model := EmptyNode(position, size);
      Repr := {this};
    }

    /** `QuadTreeNode::Split`: allocate the four quadrant children. */
    method Split()
      requires Valid() && |children| == 0
      modifies this
      ensures Valid() && fresh(Repr - old(Repr))
      ensures |children| == 4 && forall i :: 0 <= i < 4 ==> fresh(children[i])
      ensures Model == QuadTreeModel.Split(old(Model))
    {
      var cs := NewQuadrants(position, size);
      Model := Model.(children := Quadrants(position, size));
      children := cs;
      Repr := Repr + {cs[0], cs[1], cs[2], cs[3]};
      assert ChildrenValid();
    }

    /** The four `new QuadTreeNode(...)` of `Split`, one per quadrant, in the source's order. */
    static method NewQuadrants(position: Vec2, size: Vec2) returns (cs: seq<QuadTreeNode<T>>)
      ensures |cs| == 4
      ensures forall i :: 0 <= i < 4 ==> fresh(cs[i]) && cs[i].Valid() && cs[i].Repr == {cs[i]}
      ensures forall i :: 0 <= i < 4 ==> cs[i].Model == Quadrants<T>(position, size)[i]
      ensures forall i, j :: 0 <= i < 4 && 0 <= j < 4 && i != j ==> cs[i] != cs[j]
    {
      var halfSize := Half(size);
      var c0 := new QuadTreeNode(Add2(position, Vec2(-halfSize.x, halfSize.y)), halfSize);
      var c1 := new QuadTreeNode(Add2(position, Vec2(halfSize.x, halfSize.y)), halfSize);
      var c2 := new QuadTreeNode(Add2(position, Vec2(-halfSize.x, -halfSize.y)), halfSize);
      var c3 := new QuadTreeNode(Add2(position, Vec2(halfSize.x, -halfSize.y)), halfSize);
      cs := [c0, c1, c2, c3];
    }

    /**
     * `QuadTreeNode::Insert`. The split branch re-inserts every bucket entry,
     * new one last, into the four children before clearing the bucket.
     */
    method Insert(aabb: AabbTest, obj: T, objectPos: Vec3, objectSize: Vec3, depthLeft: int, maxSize: int)
      requires Valid()
      modifies Repr
      ensures Valid() && fresh(Repr - old(Repr))
      ensures Model == QuadTreeModel.Insert(aabb, old(Model), QuadTreeEntry(obj, objectPos, objectSize), depthLeft, maxSize)
      // Forwarding descends into a child's smaller footprint; the re-insertion
      // after a split grows the footprint but lowers depthLeft.
      decreases 4 * Max0(depthLeft), Repr, 3
    {
      ghost var entry := QuadTreeEntry(obj, objectPos, objectSize);
      if !aabb(objectPos, Vec3(position.x, 0.0, position.y), objectSize, Vec3(size.x, VerticalHalfSize, size.y)) {
        return;
      }
      if |children| != 0 {
        InternalInsertForwards(aabb, Model, entry, depthLeft, maxSize);
        InsertIntoChildren(aabb, obj, objectPos, objectSize, depthLeft, maxSize);
        Model := Model.(children := [children[0].Model, children[1].Model, children[2].Model, children[3].Model]);
      } else {
        contents := contents + [QuadTreeEntry(obj, objectPos, objectSize)];
        Model := Model.(contents := contents);
        if |contents| > maxSize && depthLeft > 0 {
          if |children| == 0 {
            LeafSplit(aabb, old(Model), entry, depthLeft, maxSize);
            SplitAndReinsert(aabb, depthLeft, maxSize);
            assert Model.children == QuadTreeModel.Insert(aabb, old(Model), entry, depthLeft, maxSize).children;
          }
        }
      }
    }

    /**
     * The split branch of `QuadTreeNode::Insert`: allocate the children,
     * re-insert every bucket entry (the new one last) into all four of them at
     * `depthLeft - 1`, then clear the bucket.
     */
    method SplitAndReinsert(aabb: AabbTest, depthLeft: int, maxSize: int)
      requires Valid() && |children| == 0 && depthLeft > 0
      modifies Repr
      ensures Valid() && fresh(Repr - old(Repr))
      ensures Model.position == old(position) && Model.size == old(size) && Model.contents == [] && |Model.children| == 4
      ensures forall j :: 0 <= j < 4 ==>
        Model.children[j] == InsertAll(aabb, Quadrants<T>(old(position), old(size))[j], old(contents), depthLeft - 1, maxSize)
      decreases 4 * depthLeft, Repr, 2
    {
      Split();
      InsertAllIntoChildren(aabb, contents, depthLeft, maxSize);
      contents, Model := [], Tree(position, size, [], [children[0].Model, children[1].Model, children[2].Model, children[3].Model]);
    }

    /** The re-insertion loop of the split branch: every entry of `es`, in order, into all four children. */
    method InsertAllIntoChildren(aabb: AabbTest, es: seq<QuadTreeEntry<T>>, depthLeft: int, maxSize: int)
      requires ChildrenValid() && depthLeft > 0
      modifies Repr
      ensures ChildrenValid() && fresh(Repr - old(Repr))
      ensures children == old(children) && contents == old(contents)
      ensures position == old(position) && size == old(size) && Model == old(Model)
      ensures forall j :: 0 <= j < 4 ==>
        children[j].Model == InsertAll(aabb, old(children[j].Model), es, depthLeft - 1, maxSize)
      decreases 4 * depthLeft - 1
    {
      for k := 0 to |es|
        invariant ChildrenValid() && fresh(Repr - old(Repr))
        invariant children == old(children) && contents == old(contents)
        invariant position == old(position) && size == old(size) && Model == old(Model)
        invariant forall j :: 0 <= j < 4 ==>
          children[j].Model == InsertAll(aabb, old(children[j].Model), es[..k], depthLeft - 1, maxSize)
      {
        assert es[..k + 1][..k] == es[..k];
        InsertIntoChildren(aabb, es[k].obj, es[k].pos, es[k].size, depthLeft, maxSize);
      }
      assert es[..|es|] == es;
    }

    /** The loop `for (int i = 0; i < 4; ++i) children[i].Insert(..., depthLeft - 1, maxSize)`. */
    method InsertIntoChildren(aabb: AabbTest, obj: T, objectPos: Vec3, objectSize: Vec3, depthLeft: int, maxSize: int)
      requires ChildrenValid()
      modifies this`Repr, Repr - {this}
      ensures ChildrenValid() && fresh(Repr - old(Repr))
      ensures forall i :: 0 <= i < 4 ==>
        children[i].Model == QuadTreeModel.Insert(aabb, old(children[i].Model), QuadTreeEntry(obj, objectPos, objectSize), depthLeft - 1, maxSize)
      decreases if depthLeft > 0 then 4 * depthLeft - 2 else 0, Repr, 1
    {
      for i := 0 to 4
        invariant ChildrenValid() && fresh(Repr - old(Repr))
        invariant forall k :: 0 <= k < i ==>
          children[k].Model == QuadTreeModel.Insert(aabb, old(children[k].Model), QuadTreeEntry(obj, objectPos, objectSize), depthLeft - 1, maxSize)
        invariant forall k :: i <= k < 4 ==> children[k].Model == old(children[k].Model) && children[k].Repr == old(children[k].Repr)
      {
        InsertIntoChild(i, aabb, obj, objectPos, objectSize, depthLeft, maxSize);
      }
    }

    /** One turn of that loop: `children[i].Insert(...)`; the other three children are left alone. */
    method InsertIntoChild(i: int, aabb: AabbTest, obj: T, objectPos: Vec3, objectSize: Vec3, depthLeft: int, maxSize: int)
      requires ChildrenValid() && 0 <= i < 4
      modifies this`Repr, children[i].Repr
      ensures ChildrenValid() && fresh(Repr - old(Repr))
      ensures children[i].Model == QuadTreeModel.Insert(aabb, old(children[i].Model), QuadTreeEntry(obj, objectPos, objectSize), depthLeft - 1, maxSize)
      ensures forall k :: 0 <= k < 4 && k != i ==> children[k].Model == old(children[k].Model) && children[k].Repr == old(children[k].Repr)
      decreases if depthLeft > 0 then 4 * depthLeft - 3 else 0, children[i].Repr, 4
    {
      children[i].Insert(aabb, obj, objectPos, objectSize, depthLeft - 1, maxSize);
      Repr := Repr + children[i].Repr;
    }

    /** `QuadTreeNode::OperateOnContents`: the buckets the visitor is called with, in call order. */
    function OperateOnContents(): (r: seq<seq<QuadTreeEntry<T>>>)
      reads this, Repr
      requires Valid()
      ensures r == Visit(Model)
      decreases Repr
    {
      if |children| != 0 then
        assert ChildrenValid();
        assert children[0].Valid() && children[1].Valid() && children[2].Valid() && children[3].Valid();
        VisitFour(Model);
        children[0].OperateOnContents() + children[1].OperateOnContents()
        + children[2].OperateOnContents() + children[3].OperateOnContents()
      else if |contents| == 0 then []
      else [contents]
    }
  }

  class QuadTree<T> {
    var root: QuadTreeNode<T>
    var maxDepth: int
    var maxSize: int
    /** The box test `Insert` uses (`CollisionDetection::AABBTest`). */
    const aabb: AabbTest

    ghost var Repr: set<object>

    /** The root is well formed and its tree keeps the invariant for `maxDepth` and `maxSize`. */
    ghost predicate Valid()
      reads this, Repr
    {
      && this in Repr
      && root in Repr
      && root.Repr <= Repr
      && this !in root.Repr
      && root.Valid()
      && Invariant(aabb, root.Model, maxDepth, maxSize)
    }

    /** `QuadTree(size, maxDepth = 6, maxSize = 5)`: an empty root leaf centred at the origin. */
    constructor (aabb: AabbTest, size: Vec2, maxDepth: int := 6, maxSize: int := 5)
      ensures Valid() && fresh(Repr)
      ensures this.aabb == aabb && this.maxDepth == maxDepth && this.maxSize == maxSize
      ensures root.Model == EmptyNode(Vec2(0.0, 0.0), size)
    {
      this.aabb := aabb;
      root := new QuadTreeNode(Vec2(0.0, 0.0), size);
      this.maxDepth := maxDepth;
      this.maxSize := maxSize;
      new;
      Repr := {this} + root.Repr;
    }

    /** `QuadTree::Insert`: insert at the root with `depthLeft = maxDepth`. */
    method Insert(obj: T, pos: Vec3, size: Vec3)
      requires Valid()
      modifies Repr
      ensures Valid() && fresh(Repr - old(Repr))
      ensures maxDepth == old(maxDepth) && maxSize == old(maxSize)
      ensures root.Model == QuadTreeModel.Insert(aabb, old(root.Model), QuadTreeEntry(obj, pos, size), maxDepth, maxSize)
    {
      InsertPreservesInvariant(aabb, root.Model, QuadTreeEntry(obj, pos, size), maxDepth, maxSize);
      root.Insert(aabb, obj, pos, size, maxDepth, maxSize);
      Repr := Repr + root.Repr;
    }

    /** `QuadTree::OperateOnContents`: the visit of the root. */
    function OperateOnContents(): (r: seq<seq<QuadTreeEntry<T>>>)
      reads this, Repr
      requires Valid()
      ensures r == Visit(root.Model)
    {
      root.OperateOnContents()
    }
  }
}

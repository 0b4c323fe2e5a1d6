/**
 * KDTree<T>: the mutable tree the units keeper stores units in. Its nodes
 * live in the arena `nodes` (see KDTreeSpec); `root` and `last` are slots
 * of it, -1 for null, and every search reads positions through `pos`.
 */
module KDTrees {
  import opened Wrappers
  import opened Geometry
  import opened PointCheckers
  import opened KDTreeSpec
  import opened KDTreeProofs
  import opened KDTreeSearch

  class KDTree<T(==)> {
    var nodes: seq<Node<T>>
    var root: int
    var last: int
    var count: nat
    var lastUpdate: real

    ghost predicate Valid()
      reads this
    {
      WellFormed(nodes) && count == |nodes|
      && root == (if |nodes| == 0 then -1 else 0)
      && last == |nodes| - 1
    }

    /** The items in enumeration order. */
    function Items(): seq<T>
      reads this
    {
      ItemsOf(nodes)
    }

    constructor()
      ensures Valid() && nodes == [] && lastUpdate == 0.0
    {
      nodes := [];
      root := -1;
      last := -1;
      count := 0;
      lastUpdate := 0.0;
    }

    /** Walks from the root to the node a new item at q hangs from; -1 on an empty tree. */
    method FindParent(q: Vec3, pos: T -> Vec3) returns (parent: int)
      requires Valid()
      ensures parent == ParentFor(nodes, pos, q)
    {
      var current := root;
      parent := root;
      while current != -1
        invariant current == -1 || 0 <= current < |nodes|
        invariant current != -1 ==> Descend(nodes, pos, current, q) == ParentFor(nodes, pos, q)
        invariant current == -1 ==> parent == ParentFor(nodes, pos, q)
        decreases if current == -1 then 0 else |nodes| + 1 - current
      {
        parent := current;
        var splitCurrent := SplitValue(nodes[current].level, pos(nodes[current].value));
        var splitSearch := SplitValue(nodes[current].level, q);
        if splitSearch < splitCurrent {
          current := nodes[current].left;
        } else {
          current := nodes[current].right;
        }
      }
    }

    /** Appends x to the thread and links it below its parent. */
    method AddNode(x: T, pos: T -> Vec3)
      requires Valid()
      modifies this
      ensures Valid() && nodes == Insert(old(nodes), x, pos) && lastUpdate == old(lastUpdate)
    {
      InsertWellFormed(nodes, x, pos);
      ghost var expected := Insert(nodes, x, pos);
      var n := |nodes|;
      var parent := FindParent(pos(x), pos);
      count := count + 1;
      if last != -1 {
        nodes := nodes[last := nodes[last].(next := n)];
      }
      last := n;
      if parent == -1 {
        root := n;
        nodes := nodes + [Node(x, 0, -1, -1, -1)];
        assert nodes == expected;
        return;
      }
      var level := nodes[parent].level + 1;
      var splitParent := SplitValue(nodes[parent].level, pos(nodes[parent].value));
      var splitNew := SplitValue(nodes[parent].level, pos(x));
      if splitNew < splitParent {
        nodes := nodes[parent := nodes[parent].(left := n)];
      } else {
        nodes := nodes[parent := nodes[parent].(right := n)];
      }
      nodes := nodes + [Node(x, level, -1, -1, -1)];
      assert nodes == expected;
    }

    method Add(x: T, pos: T -> Vec3)
      requires Valid()
      modifies this
      ensures Valid() && nodes == Insert(old(nodes), x, pos) && lastUpdate == old(lastUpdate)
    {
      AddNode(x, pos);
    }

    method AddRange(items: seq<T>, pos: T -> Vec3)
      requires Valid()
      modifies this
      ensures Valid() && nodes == InsertAll(old(nodes), items, pos) && lastUpdate == old(lastUpdate)
    {
      var i := 0;
      while i < |items|
        invariant 0 <= i <= |items| && Valid()
        invariant nodes == InsertAll(old(nodes), items[..i], pos)
        invariant lastUpdate == old(lastUpdate)
      {
        assert items[..i + 1][..i] == items[..i];
        AddNode(items[i], pos);
        i := i + 1;
      }
      assert items[..i] == items;
    }

    method ClearTree()
      modifies this
      ensures Valid() && nodes == [] && lastUpdate == old(lastUpdate)
    {
      root := -1;
      last := -1;
      count := 0;
      nodes := [];
    }

    /** The enumerator: walks the Next thread from the root. */
    method ToList() returns (list: seq<T>)
      requires Valid()
      ensures list == Items()
    {
      list := [];
      var current := root;
      while current != -1
        invariant 0 <= |list| <= |nodes|
        invariant current == (if |list| < |nodes| then |list| else -1)
        invariant list == Items()[..|list|]
        decreases |nodes| - |list|
      {
        list := list + [nodes[current].value];
        current := nodes[current].next;
      }
    }

    /**
     * The indexer: the index-th item of the thread. An index at or past
     * Count throws; a negative index walks no step and yields the root's item.
     */
    method Get(index: int) returns (r: Result<T>)
      requires Valid()
      ensures index >= count ==> r == Err(ArgumentOutOfRange)
      ensures 0 <= index < count ==> r == Ok(Items()[index])
      ensures index < 0 && count > 0 ==> r == Ok(Items()[0])
      ensures index < 0 && count == 0 ==> r == Err(NullReference)
    {
      if index >= count {
        return Err(ArgumentOutOfRange);
      }
      var current := root;
      var i := 0;
      while i < index
        invariant 0 <= i && (i <= index || i == 0)
        invariant current == (if |nodes| == 0 then -1 else i)
      {
        current := nodes[current].next;
        i := i + 1;
      }
      if current == -1 {
        return Err(NullReference);
      }
      return Ok(nodes[current].value);
    }

    /** The first item in enumeration order that matches, or null. */
    method Find(pred: T -> bool) returns (r: Option<T>)
      requires Valid()
      ensures var k := FirstMatch(Items(), pred);
              r == if k == -1 then None else Some(Items()[k])
    {
      var current := root;
      ghost var i := 0;
      while current != -1
        invariant 0 <= i <= |nodes|
        invariant current == (if i < |nodes| then i else -1)
        invariant forall k :: 0 <= k < i ==> !pred(Items()[k])
        decreases |nodes| - i
      {
        if pred(nodes[current].value) {
          return Some(nodes[current].value);
        }
        current := nodes[current].next;
        i := i + 1;
      }
      return None;
    }

    /** A new tree holding the matching items, added in enumeration order. */
    method FindAll(pred: T -> bool, pos: T -> Vec3) returns (tree: KDTree<T>)
      requires Valid()
      ensures fresh(tree) && tree.Valid()
      ensures tree.nodes == Build(Filter(Items(), pred), pos)
    {
      var items := ToList();
      tree := new KDTree();
      tree.AddMatching(items, pred, pos);
    }

    /** FindAll's loop: adds the matching items of `items`, in order. */
    method AddMatching(items: seq<T>, pred: T -> bool, pos: T -> Vec3)
      requires Valid() && nodes == []
      modifies this
      ensures Valid() && nodes == Build(Filter(items, pred), pos)
    {
      for i := 0 to |items|
        invariant Valid()
        invariant nodes == Build(Filter(items[..i], pred), pos)
      {
        BuildFilterStep(items, i, pred, pos);
        if pred(items[i]) {
          AddNode(items[i], pos);
        }
      }
      assert items[..|items|] == items;
    }

    /** The number of matching items. */
    function CountAll(pred: T -> bool): (c: nat)
      reads this
      ensures c == |Filter(Items(), pred)|
    {
      CountIsFilterLength(Items(), pred);
      CountMatching(Items(), pred)
    }

    /**
     * Rebuilds the tree under the current positions. The source first
     * copies every node's Next into OldNext, clears the tree and re-adds the
     * nodes along OldNext; `oldNodes` is that copy of the thread.
     */
    method UpdatePositions(pos: T -> Vec3)
      requires Valid()
      modifies this
      ensures Valid() && nodes == Build(old(Items()), pos) && Ordered(nodes, pos)
      ensures lastUpdate == old(lastUpdate)
    {
      var oldNodes := nodes;
      ghost var items := ItemsOf(oldNodes);
      var current := root;
      ClearTree();
      ghost var i := 0;
      while current != -1
        invariant Valid() && 0 <= i <= |oldNodes|
        invariant current == (if i < |oldNodes| then i else -1)
        invariant nodes == Build(items[..i], pos)
        invariant lastUpdate == old(lastUpdate)
        decreases |oldNodes| - i
      {
        TakeSnoc(items, i);
        BuildSnoc(items[..i], oldNodes[current].value, pos);
        AddNode(oldNodes[current].value, pos);
        current := oldNodes[current].next;
        i := i + 1;
      }
      assert items[..i] == items;
      BuildValid(items, pos);
    }

    /**
     * Rebuilds at most `rate` times per second: `now` is the time since the
     * level loaded. A rate that is not positive throws.
     */
    method Update(rate: real, now: real, pos: T -> Vec3) returns (r: Outcome)
      requires Valid()
      modifies this
      ensures Valid()
      ensures rate <= 0.0 ==> r == Fail(ArgumentOutOfRange) && nodes == old(nodes) && lastUpdate == old(lastUpdate)
      ensures rate > 0.0 ==> r == Done
      ensures rate > 0.0 && now - old(lastUpdate) < 1.0 / rate ==>
                nodes == old(nodes) && lastUpdate == old(lastUpdate)
      ensures rate > 0.0 && now - old(lastUpdate) >= 1.0 / rate ==>
                lastUpdate == now && nodes == Build(old(Items()), pos) && Ordered(nodes, pos)
    {
      if rate <= 0.0 {
        return Fail(ArgumentOutOfRange);
      }
      if now - lastUpdate < 1.0 / rate {
        return Done;
      }
      lastUpdate := now;
      UpdatePositions(pos);
      return Done;
    }

    /** Removes the index-th item and rebuilds from the rest; an index outside [0, Count) throws first. */
    method RemoveAt(index: int, pos: T -> Vec3) returns (r: Outcome)
      requires Valid()
      modifies this
      ensures Valid() && lastUpdate == old(lastUpdate)
      ensures !(0 <= index < old(count)) ==> r == Fail(ArgumentOutOfRange) && nodes == old(nodes)
      ensures 0 <= index < old(count) ==>
                r == Done && Items() == old(Items()[..index] + Items()[index + 1..])
                && nodes == Build(Items(), pos) && Ordered(nodes, pos)
    {
      var list := ToList();
      if !(0 <= index < |list|) {
        return Fail(ArgumentOutOfRange);
      }
      list := list[..index] + list[index + 1..];
      ClearTree();
      AddRange(list, pos);
      BuildValid(list, pos);
      return Done;
    }

    /** Removes every matching item and rebuilds from the rest. */
    method RemoveAll(pred: T -> bool, pos: T -> Vec3)
      requires Valid()
      modifies this
      ensures Valid() && lastUpdate == old(lastUpdate)
      ensures Items() == Filter(old(Items()), Not(pred))
      ensures nodes == Build(Items(), pos) && Ordered(nodes, pos)
    {
      var list := ToList();
      list := Filter(list, Not(pred));
      ClearTree();
      AddRange(list, pos);
      BuildValid(list, pos);
    }

    /**
     * The item nearest to q on the (x, z) plane, by a breadth-first walk
     * that always enters the near side of a split and enters the far side
     * only while the squared split gap is below the best distance so far.
     * Distances start at float.MaxValue and only a strictly smaller one
     * replaces the best, so an item at that distance or more is never found.
     */
    method FindClosest(q: Vec3, pos: T -> Vec3) returns (r: Option<T>)
      requires Valid()
      ensures count == 0 ==> r == None
      ensures r.Some? ==> r.value in Items()
      ensures count > 0 && SqDistance(q, pos(Items()[0])) < FloatMax ==> r.Some?
      ensures Ordered(nodes, pos) && r.None? ==>
                forall j :: 0 <= j < count ==> SqDistance(q, pos(Items()[j])) >= FloatMax
      ensures Ordered(nodes, pos) && r.Some? ==>
                forall j :: 0 <= j < count ==> SqDistance(q, pos(r.value)) <= SqDistance(q, pos(Items()[j]))
    {
      if root == -1 {
        return None;
      }
      var nearestDist := FloatMax;
      var nearest := -1;
      var openedNodes := new int[count](i => -1);
      var openAdd := 0;
      var openCur := 0;
      openedNodes[openAdd] := root;
      openAdd := openAdd + 1;
      ghost var order := [root];
      ghost var par := [0];
      while openCur < openedNodes.Length && openedNodes[openCur] != -1
        invariant openedNodes.Length == |nodes| && 1 <= openAdd <= openedNodes.Length && 0 <= openCur <= openAdd
        invariant |order| == openAdd && Frontier(nodes, order, par, openCur)
        invariant forall k :: 0 <= k < openAdd ==> openedNodes[k] == order[k]
        invariant forall k :: openAdd <= k < openedNodes.Length ==> openedNodes[k] == -1
        invariant BestSoFar(nodes, pos, q, nearest, nearestDist)
        invariant openCur > 0 ==> nearestDist <= SqDistance(q, pos(nodes[0].value))
        invariant ClosestPending(nodes, pos, q, order, openCur, nearestDist)
        decreases openedNodes.Length - openCur
      {
        openAdd, nearest, nearestDist, order, par :=
          ClosestVisit(nodes, pos, q, openedNodes, openAdd, openedNodes[openCur], nearest, nearestDist, order, par, openCur);
        openCur := openCur + 1;
      }
      assert openCur == openAdd;
      if nearest == -1 {
        return None;
      }
      return Some(nodes[nearest].value);
    }

    /**
     * The breadth-first range search: output every dequeued item the checker
     * accepts, and enqueue a child only on the sides of the split the box
     * [min, max] reaches. `hits` are the slots of the output items. The
     * queue is the sequence of every node enqueued, `head` its read index.
     */
    method RangeSearch(min: Vec3, max: Vec3, checker: PointChecker, pos: T -> Vec3)
      returns (output: seq<T>, ghost hits: seq<int>)
      requires Valid()
      ensures |output| == |hits| <= count
      ensures forall k :: 0 <= k < |hits| ==> 0 <= hits[k] < |nodes| && output[k] == nodes[hits[k]].value
      ensures forall k :: 0 <= k < |hits| ==>
                Reach(nodes, pos, min, max, 0, hits[k]) && IsInArea(checker, pos(nodes[hits[k]].value))
      ensures forall k, l :: 0 <= k < l < |hits| ==> hits[k] != hits[l]
      ensures forall j :: 0 <= j < |nodes| && Reach(nodes, pos, min, max, 0, j) && IsInArea(checker, pos(nodes[j].value))
                ==> j in hits
    {
      output, hits := [], [];
      if root == -1 {
        return;
      }
      var queue := [root];
      var head := 0;
      ghost var par := [0];
      ghost var hitIdx: seq<int> := [];
      assert Reach(nodes, pos, min, max, 0, 0);
      while head < |queue|
        invariant RangeWalk(nodes, pos, min, max, queue, par, head)
        invariant HitsOk(nodes, pos, checker, queue, head, output, hits, hitIdx)
        invariant RangeCovered(nodes, pos, min, max, checker, queue, head, hits)
        decreases |nodes| - head
      {
        queue, output, par, hits, hitIdx := RangeVisit(nodes, pos, min, max, checker, queue, head, output, par, hits, hitIdx);
        head := head + 1;
      }
      RangeDone(nodes, pos, min, max, checker, queue, par, head, output, hits, hitIdx);
    }

    /** Every item inside the rectangle [min, max] on the (x, z) plane, edges included. */
    method GetByRegion(min: Vec3, max: Vec3, pos: T -> Vec3) returns (output: seq<T>, ghost hits: seq<int>)
      requires Valid()
      ensures |output| == |hits| <= count
      ensures forall k :: 0 <= k < |hits| ==>
                0 <= hits[k] < |nodes| && output[k] == nodes[hits[k]].value
                && IsInArea(InRectangle(min, max), pos(output[k]))
      ensures forall k, l :: 0 <= k < l < |hits| ==> hits[k] != hits[l]
      ensures Ordered(nodes, pos) ==>
                forall j :: 0 <= j < |nodes| && IsInArea(InRectangle(min, max), pos(nodes[j].value)) ==> j in hits
    {
      output, hits := RangeSearch(min, max, InRectangle(min, max), pos);
      if Ordered(nodes, pos) {
        RectangleWithinItself(min, max);
        forall j | 0 <= j < |nodes| && IsInArea(InRectangle(min, max), pos(nodes[j].value))
          ensures Reach(nodes, pos, min, max, 0, j)
        {
          ReachCompleteFor(nodes, pos, InRectangle(min, max), min, max, j);
        }
      }
    }

    /**
     * Every item inside the circle, searched in the box centre +- radius as
     * written: with a negative radius the box is inverted and the pruning
     * can skip accepted items (see NegativeRadiusMissesItem).
     */
    method GetByCircleArea(center: Vec3, radius: real, pos: T -> Vec3) returns (output: seq<T>, ghost hits: seq<int>)
      requires Valid()
      ensures |output| == |hits| <= count
      ensures forall k :: 0 <= k < |hits| ==>
                0 <= hits[k] < |nodes| && output[k] == nodes[hits[k]].value
                && IsInArea(InCircle(center, radius), pos(output[k]))
                && Reach(nodes, pos, CircleBoxMin(center, radius), CircleBoxMax(center, radius), 0, hits[k])
      ensures forall k, l :: 0 <= k < l < |hits| ==> hits[k] != hits[l]
      ensures forall j :: 0 <= j < |nodes| && IsInArea(InCircle(center, radius), pos(nodes[j].value))
                            && Reach(nodes, pos, CircleBoxMin(center, radius), CircleBoxMax(center, radius), 0, j)
                ==> j in hits
      ensures radius >= 0.0 && Ordered(nodes, pos) ==>
                forall j :: 0 <= j < |nodes| && IsInArea(InCircle(center, radius), pos(nodes[j].value)) ==> j in hits
    {
      var min := CircleBoxMin(center, radius);
      var max := CircleBoxMax(center, radius);
      output, hits := RangeSearch(min, max, InCircle(center, radius), pos);
      if radius >= 0.0 && Ordered(nodes, pos) {
        CircleWithinBox(center, radius);
        forall j | 0 <= j < |nodes| && IsInArea(InCircle(center, radius), pos(nodes[j].value))
          ensures Reach(nodes, pos, min, max, 0, j)
        {
          ReachCompleteFor(nodes, pos, InCircle(center, radius), min, max, j);
        }
      }
    }

    /** GetByCircleArea with the search box spanned by |radius|: complete for every radius. */
    method GetByCircleAreaCorrected(center: Vec3, radius: real, pos: T -> Vec3) returns (output: seq<T>, ghost hits: seq<int>)
      requires Valid()
      ensures |output| == |hits| <= count
      ensures forall k :: 0 <= k < |hits| ==>
                0 <= hits[k] < |nodes| && output[k] == nodes[hits[k]].value
                && IsInArea(InCircle(center, radius), pos(output[k]))
      ensures forall k, l :: 0 <= k < l < |hits| ==> hits[k] != hits[l]
      ensures Ordered(nodes, pos) ==>
                forall j :: 0 <= j < |nodes| && IsInArea(InCircle(center, radius), pos(nodes[j].value)) ==> j in hits
    {
      var min := CircleBoxMin(center, Abs(radius));
      var max := CircleBoxMax(center, Abs(radius));
      output, hits := RangeSearch(min, max, InCircle(center, radius), pos);
      if Ordered(nodes, pos) {
        CircleWithinBox(center, radius);
        forall j | 0 <= j < |nodes| && IsInArea(InCircle(center, radius), pos(nodes[j].value))
          ensures Reach(nodes, pos, min, max, 0, j)
        {
          ReachCompleteFor(nodes, pos, InCircle(center, radius), min, max, j);
        }
      }
    }
  }

  /** The lower corner of GetByCircleArea's search box. */
  function CircleBoxMin(center: Vec3, radius: real): Vec3 {
    Vec3(center.x - radius, center.y, center.z - radius)
  }

  /** The upper corner of GetByCircleArea's search box. */
  function CircleBoxMax(center: Vec3, radius: real): Vec3 {
    Vec3(center.x + radius, center.y, center.z + radius)
  }

  /**
   * GetByCircleArea as written misses items when the radius is negative:
   * item 1 lies at distance 0.5 from the centre, inside the circle of
   * radius -1, but the inverted box (1, 1)..(-1, -1) stops the walk from
   * entering the root's left subtree where item 1 sits.
   */
  lemma NegativeRadiusMissesItem()
    ensures var pos := (i: int) => if i == 0 then Vec3(0.0, 0.0, 0.0) else Vec3(-0.5, 0.0, 0.0);
            var t := Build([0, 1], pos);
            var c := Vec3(0.0, 0.0, 0.0);
            WellFormed(t) && Ordered(t, pos) && |t| == 2 && t[1].value == 1
            && IsInArea(InCircle(c, -1.0), pos(t[1].value))
            && !Reach(t, pos, CircleBoxMin(c, -1.0), CircleBoxMax(c, -1.0), 0, 1)
  {
    var pos := (i: int) => if i == 0 then Vec3(0.0, 0.0, 0.0) else Vec3(-0.5, 0.0, 0.0);
    BuildValid([0, 1], pos);
    assert [0, 1][..1] == [0];
    assert [0][..0] == [];
    var t1 := Build([0], pos);
    assert t1 == [Node(0, 0, -1, -1, -1)];
    var t := Build([0, 1], pos);
    assert t == Insert(t1, 1, pos);
    assert t == [Node(0, 0, 1, -1, 1), Node(1, 1, -1, -1, -1)];
  }

  /**
   * openedNodes[openAdd++] = c. The buffer mirrors the ghost breadth-first
   * order of the walk and its parent links, so it never overflows.
   */
  method Open<T>(nodes: seq<Node<T>>, a: array<int>, openAdd: int, c: int,
                 ghost order: seq<int>, ghost par: seq<int>, ghost done: int, ghost cur: int)
    returns (openAdd2: int, ghost order2: seq<int>, ghost par2: seq<int>)
    requires LinksForward(nodes) && UniqueParents(nodes)
    requires Frontier(nodes, order, par, done) && 0 <= cur < done
    requires IsChild(nodes, order[cur], c)
    requires forall k :: 1 <= k < |order| && par[k] == cur ==> order[k] != c
    requires a.Length == |nodes| && |order| == openAdd <= a.Length
    requires forall k :: 0 <= k < openAdd ==> a[k] == order[k]
    requires forall k :: openAdd <= k < a.Length ==> a[k] == -1
    modifies a
    ensures openAdd2 == openAdd + 1 && order2 == order + [c] && par2 == par + [cur]
    ensures Frontier(nodes, order2, par2, done)
    ensures openAdd2 <= a.Length && forall k :: 0 <= k < openAdd2 ==> a[k] == order2[k]
    ensures forall k :: openAdd2 <= k < a.Length ==> a[k] == -1
  {
    FrontierPush(nodes, order, par, done, cur, c);
    a[openAdd] := c;
    openAdd2, order2, par2 := openAdd + 1, order + [c], par + [cur];
  }

  /** The best candidate so far: none at float.MaxValue, or a slot at its squared distance. */
  ghost predicate BestSoFar<T>(nodes: seq<Node<T>>, pos: T -> Vec3, q: Vec3, nearest: int, nearestDist: real) {
    nearestDist <= FloatMax
    && (nearest == -1 ==> nearestDist == FloatMax)
    && (nearest != -1 ==> 0 <= nearest < |nodes| && nearestDist == SqDistance(q, pos(nodes[nearest].value)))
  }

  /** In an ordered tree, every node nearer than the best is still under a pending queue entry. */
  ghost predicate ClosestPending<T>(nodes: seq<Node<T>>, pos: T -> Vec3, q: Vec3, order: seq<int>, from: int, best: real) {
    Ordered(nodes, pos) ==> forall j :: 0 <= j < |nodes| ==>
      SqDistance(q, pos(nodes[j].value)) >= best || Covered(nodes, order, from, j)
  }

  /**
   * One iteration of FindClosest on the node `current` taken from slot cur:
   * it becomes the best when strictly nearer, then its children are opened.
   */
  method ClosestVisit<T>(nodes: seq<Node<T>>, pos: T -> Vec3, q: Vec3, a: array<int>, openAdd: int, current: int,
                         nearest: int, nearestDist: real, ghost order: seq<int>, ghost par: seq<int>, ghost cur: int)
    returns (openAdd2: int, nearest2: int, nearestDist2: real, ghost order2: seq<int>, ghost par2: seq<int>)
    requires LinksForward(nodes) && DistinctChildren(nodes) && UniqueParents(nodes)
    requires Frontier(nodes, order, par, cur) && 0 <= cur < |order| && current == order[cur]
    requires a.Length == |nodes| && |order| == openAdd <= a.Length
    requires forall k :: 0 <= k < openAdd ==> a[k] == order[k]
    requires forall k :: openAdd <= k < a.Length ==> a[k] == -1
    requires BestSoFar(nodes, pos, q, nearest, nearestDist)
    requires ClosestPending(nodes, pos, q, order, cur, nearestDist)
    modifies a
    ensures |order2| == openAdd2 && |order| <= |order2| && Frontier(nodes, order2, par2, cur + 1)
    ensures openAdd2 <= a.Length && forall k :: 0 <= k < openAdd2 ==> a[k] == order2[k]
    ensures forall k :: openAdd2 <= k < a.Length ==> a[k] == -1
    ensures BestSoFar(nodes, pos, q, nearest2, nearestDist2)
    ensures nearestDist2 <= nearestDist && nearestDist2 <= SqDistance(q, pos(nodes[current].value))
    ensures ClosestPending(nodes, pos, q, order2, cur + 1, nearestDist2)
  {
    nearest2, nearestDist2 := nearest, nearestDist;
    var nodeDist := SqDistance(q, pos(nodes[current].value));
    if nodeDist < nearestDist {
      nearestDist2 := nodeDist;
      nearest2 := current;
    }
    openAdd2, order2, par2 := OpenChildren(nodes, pos, q, nearestDist2, a, openAdd, current, order, par, cur);
    if Ordered(nodes, pos) {
      ClosestCoverStep(nodes, pos, q, order, order2, cur, nearestDist, nearestDist2);
    }
  }

  /**
   * The branching step of FindClosest for the node `current` just taken from
   * slot cur: enqueue the child on q's side of the split, then the other
   * child too when the squared split gap is below the best distance.
   */
  method OpenChildren<T>(nodes: seq<Node<T>>, pos: T -> Vec3, q: Vec3, best: real, a: array<int>, openAdd: int,
                         current: int, ghost order: seq<int>, ghost par: seq<int>, ghost cur: int)
    returns (openAdd2: int, ghost order2: seq<int>, ghost par2: seq<int>)
    requires LinksForward(nodes) && DistinctChildren(nodes) && UniqueParents(nodes)
    requires Frontier(nodes, order, par, cur) && 0 <= cur < |order| && current == order[cur]
    requires a.Length == |nodes| && |order| == openAdd <= a.Length
    requires forall k :: 0 <= k < openAdd ==> a[k] == order[k]
    requires forall k :: openAdd <= k < a.Length ==> a[k] == -1
    modifies a
    ensures |order2| == openAdd2 && |order| <= |order2| && order2[..|order|] == order
    ensures Frontier(nodes, order2, par2, cur + 1)
    ensures openAdd2 <= a.Length && forall k :: 0 <= k < openAdd2 ==> a[k] == order2[k]
    ensures forall k :: openAdd2 <= k < a.Length ==> a[k] == -1
    ensures ChildrenEnqueued(nodes, pos, q, current, best, order2, |order|)
  {
    var splitCurrent := SplitValue(nodes[current].level, pos(nodes[current].value));
    var splitSearch := SplitValue(nodes[current].level, q);
    var farToo := Abs(splitCurrent - splitSearch) * Abs(splitCurrent - splitSearch) < best;
    if splitSearch < splitCurrent {
      openAdd2, order2, par2 := OpenNearFar(nodes, a, openAdd, current, nodes[current].left, nodes[current].right, farToo, order, par, cur);
    } else {
      openAdd2, order2, par2 := OpenNearFar(nodes, a, openAdd, current, nodes[current].right, nodes[current].left, farToo, order, par, cur);
    }
  }

  /** Enqueue the near child of `current` if it exists, then the far one if it exists and farToo holds. */
  method OpenNearFar<T>(nodes: seq<Node<T>>, a: array<int>, openAdd: int, current: int, near: int, far: int, farToo: bool,
                        ghost order: seq<int>, ghost par: seq<int>, ghost cur: int)
    returns (openAdd2: int, ghost order2: seq<int>, ghost par2: seq<int>)
    requires LinksForward(nodes) && DistinctChildren(nodes) && UniqueParents(nodes)
    requires Frontier(nodes, order, par, cur) && 0 <= cur < |order| && current == order[cur]
    requires (near == nodes[current].left && far == nodes[current].right) || (near == nodes[current].right && far == nodes[current].left)
    requires a.Length == |nodes| && |order| == openAdd <= a.Length
    requires forall k :: 0 <= k < openAdd ==> a[k] == order[k]
    requires forall k :: openAdd <= k < a.Length ==> a[k] == -1
    modifies a
    ensures |order2| == openAdd2 && |order| <= |order2| && order2[..|order|] == order
    ensures Frontier(nodes, order2, par2, cur + 1)
    ensures openAdd2 <= a.Length && forall k :: 0 <= k < openAdd2 ==> a[k] == order2[k]
    ensures forall k :: openAdd2 <= k < a.Length ==> a[k] == -1
    ensures near != -1 ==> Enqueued(order2, |order|, near)
    ensures far != -1 && farToo ==> Enqueued(order2, |order|, far)
  {
    openAdd2, order2, par2 := openAdd, order, par;
    if near != -1 {
      openAdd2, order2, par2 := Open(nodes, a, openAdd2, near, order2, par2, cur + 1, cur);
    }
    if far != -1 && farToo {
      openAdd2, order2, par2 := Open(nodes, a, openAdd2, far, order2, par2, cur + 1, cur);
      assert order2[|order2| - 1] == far;
    }
    if near != -1 {
      assert order2[|order|] == near;
    }
  }

  /**
   * One iteration of RangeSearch: the entry at `head` is output when the
   * checker accepts it, and its children the box reaches are enqueued.
   */
  method RangeVisit<T>(nodes: seq<Node<T>>, pos: T -> Vec3, min: Vec3, max: Vec3, checker: PointChecker,
                       queue: seq<int>, head: int, output: seq<T>,
                       ghost par: seq<int>, ghost hits: seq<int>, ghost hitIdx: seq<int>)
    returns (queue2: seq<int>, output2: seq<T>, ghost par2: seq<int>, ghost hits2: seq<int>, ghost hitIdx2: seq<int>)
    requires WellFormed(nodes) && head < |queue|
    requires RangeWalk(nodes, pos, min, max, queue, par, head)
    requires HitsOk(nodes, pos, checker, queue, head, output, hits, hitIdx)
    requires RangeCovered(nodes, pos, min, max, checker, queue, head, hits)
    ensures RangeWalk(nodes, pos, min, max, queue2, par2, head + 1)
    ensures HitsOk(nodes, pos, checker, queue2, head + 1, output2, hits2, hitIdx2)
    ensures RangeCovered(nodes, pos, min, max, checker, queue2, head + 1, hits2)
  {
    var node := queue[head];
    output2, hits2, hitIdx2 := output, hits, hitIdx;
    if IsInArea(checker, pos(nodes[node].value)) {
      output2 := output + [nodes[node].value];
      hits2 := hits + [node];
      hitIdx2 := hitIdx + [head];
    }
    queue2, par2 := EnqueueChildren(nodes, pos, min, max, queue, node, par, head);
    HitsStep(nodes, pos, checker, queue, queue2, head, output, hits, hitIdx);
    RangeCoverStep(nodes, pos, min, max, checker, queue, queue2, head, hits, hits2);
  }

  /**
   * The enqueueing step of RangeSearch for the node just dequeued from
   * position cur: its left child when min's split value is below the
   * node's, its right child when max's is at or above it.
   */
  method EnqueueChildren<T>(nodes: seq<Node<T>>, pos: T -> Vec3, min: Vec3, max: Vec3, queue: seq<int>, node: int,
                            ghost par: seq<int>, ghost cur: int)
    returns (queue2: seq<int>, ghost par2: seq<int>)
    requires WellFormed(nodes)
    requires RangeWalk(nodes, pos, min, max, queue, par, cur) && 0 <= cur < |queue| && node == queue[cur]
    ensures |queue| <= |queue2| && queue2[..|queue|] == queue
    ensures RangeWalk(nodes, pos, min, max, queue2, par2, cur + 1)
    ensures RangeChildrenEnqueued(nodes, pos, min, max, node, queue2, |queue|)
  {
    var splitMin := SplitValue(nodes[node].level, min);
    var splitMax := SplitValue(nodes[node].level, max);
    var splitNode := SplitValue(nodes[node].level, pos(nodes[node].value));
    var left, right := nodes[node].left, nodes[node].right;
    queue2, par2 := queue, par;
    if splitMin < splitNode && left != -1 {
      RangeChildPush(nodes, pos, min, max, queue2, par2, cur, left);
      queue2, par2 := queue2 + [left], par2 + [cur];
    }
    if splitMax >= splitNode && right != -1 {
      RangeChildPush(nodes, pos, min, max, queue2, par2, cur, right);
      queue2, par2 := queue2 + [right], par2 + [cur];
      assert queue2[|queue2| - 1] == right;
    }
    if splitMin < splitNode && left != -1 {
      assert queue2[|queue|] == left;
    }
  }

  /** Enqueuing a child of the dequeued entry on a side the box reaches keeps RangeSearch's walk. */
  lemma RangeChildPush<T>(nodes: seq<Node<T>>, pos: T -> Vec3, min: Vec3, max: Vec3, queue: seq<int>, par: seq<int>,
                          cur: int, c: int)
    requires WellFormed(nodes)
    requires RangeWalk(nodes, pos, min, max, queue, par, cur + 1) && 0 <= cur < |queue|
    requires var p := queue[cur];
             (c == nodes[p].left && SplitValue(nodes[p].level, min) < NodeKey(nodes, pos, p))
             || (c == nodes[p].right && SplitValue(nodes[p].level, max) >= NodeKey(nodes, pos, p))
    requires c != -1
    requires forall k :: 1 <= k < |queue| && par[k] == cur ==> queue[k] != c
    ensures RangeWalk(nodes, pos, min, max, queue + [c], par + [cur], cur + 1)
  {
    ReachStep(nodes, pos, min, max, 0, queue[cur], c);
    RangePush(nodes, pos, min, max, queue, par, cur + 1, cur, c);
  }
}

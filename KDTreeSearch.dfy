/**
 * What the k-d tree's two searches visit: the breadth-first queue both of
 * them keep, the pruning of the nearest-item search, and the subtrees the
 * range search enters.
 */
module KDTreeSearch {
  import opened Geometry
  import opened PointCheckers
  import opened KDTreeSpec
  import opened KDTreeProofs

  // ---------------------------------------------------------------- the queue

  /** A sequence of distinct slots of an arena of size n has at most n entries. */
  lemma {:induction false} DistinctBound(s: seq<int>, n: nat)
    requires forall k :: 0 <= k < |s| ==> 0 <= s[k] < n
    requires forall k, l :: 0 <= k < l < |s| ==> s[k] != s[l]
    ensures |s| <= n
    decreases n
  {
    if |s| > 0 {
      assert 0 <= s[0] < n;
      if k :| 0 <= k < |s| && s[k] == n - 1 {
        var t := s[..k] + s[k + 1..];
        assert forall i :: 0 <= i < |t| ==> t[i] == if i < k then s[i] else s[i + 1];
        forall i, l | 0 <= i < l < |t|
          ensures t[i] != t[l]
        {
          var i', l' := if i < k then i else i + 1, if l < k then l else l + 1;
          assert i' < l';
        }
        DistinctBound(t, n - 1);
      } else {
        DistinctBound(s, n - 1);
      }
    }
  }

  /**
   * The bookkeeping of a breadth-first walk from the root: `order` lists
   * every slot ever enqueued, without repetition, and each entry after the
   * first was enqueued, as a child, by an entry par[k] already dequeued.
   */
  ghost predicate Frontier<T>(nodes: seq<Node<T>>, order: seq<int>, par: seq<int>, done: int) {
    |par| == |order| && 1 <= |order| && order[0] == 0 && 0 <= done <= |order|
    && (forall k :: 0 <= k < |order| ==> 0 <= order[k] < |nodes|)
    && (forall k, l :: 0 <= k < l < |order| ==> order[k] != order[l])
    && (forall k :: 1 <= k < |order| ==> 0 <= par[k] < done && IsChild(nodes, order[par[k]], order[k]))
  }

  /**
   * Enqueuing a child of a dequeued entry that this entry has not enqueued
   * yet keeps the walk free of repetitions, so the queue never outgrows the
   * tree (the openedNodes buffer of Count slots suffices).
   */
  lemma FrontierPush<T>(nodes: seq<Node<T>>, order: seq<int>, par: seq<int>, done: int, cur: int, c: int)
    requires LinksForward(nodes) && UniqueParents(nodes)
    requires Frontier(nodes, order, par, done) && 0 <= cur < done
    requires IsChild(nodes, order[cur], c)
    requires forall k :: 1 <= k < |order| && par[k] == cur ==> order[k] != c
    ensures Frontier(nodes, order + [c], par + [cur], done)
    ensures |order| < |nodes|
  {
    forall k | 0 <= k < |order|
      ensures order[k] != c
    {
    }
    var o := order + [c];
    DistinctBound(o, |nodes|);
  }

  // ---------------------------------------------------------------- FindClosest

  /** Some pending queue entry, from index `from` on, roots a subtree holding j. */
  ghost predicate Covered<T>(nodes: seq<Node<T>>, order: seq<int>, from: int, j: int) {
    exists k :: 0 <= from <= k < |order| && Ancestor(nodes, order[k], j)
  }

  /** The squared (x, z) distance is at least the squared difference on either axis. */
  lemma AxisBound(q: Vec3, p: Vec3, level: nat)
    ensures SqDistance(q, p) >= (SplitValue(level, p) - SplitValue(level, q)) * (SplitValue(level, p) - SplitValue(level, q))
  {
    var dx, dz := q.x - p.x, q.z - p.z;
    assert (p.x - q.x) * (p.x - q.x) == dx * dx;
    assert (p.z - q.z) * (p.z - q.z) == dz * dz;
    assert dx * dx >= 0.0 && dz * dz >= 0.0;
  }

  /** The squared split gap FindClosest compares with the best distance so far. */
  function SplitGapSquared<T>(nodes: seq<Node<T>>, pos: T -> Vec3, c: int, q: Vec3): real
    requires 0 <= c < |nodes|
  {
    Abs(NodeKey(nodes, pos, c) - SplitValue(nodes[c].level, q)) * Abs(NodeKey(nodes, pos, c) - SplitValue(nodes[c].level, q))
  }

  /** A value beyond the split, on the side away from the query, is at least as far from it as the split is. */
  lemma SplitGap(kc: real, kq: real, kj: real)
    requires (kq < kc && kj >= kc) || (kq >= kc && kj < kc)
    ensures (kj - kq) * (kj - kq) >= Abs(kc - kq) * Abs(kc - kq)
  {
    AbsSquare(kc - kq);
    AbsSquare(kj - kq);
    SquareMonotone(Abs(kc - kq), Abs(kj - kq));
  }

  /**
   * In an ordered tree, every node on the far side of c from q is at least
   * the split distance away: the bound FindClosest prunes with.
   */
  lemma FarSideBound<T>(nodes: seq<Node<T>>, pos: T -> Vec3, q: Vec3, c: int, j: int)
    requires Ordered(nodes, pos) && 0 <= c < |nodes| && 0 <= j < |nodes|
    requires if GoesLeft(nodes, pos, c, q) then Ancestor(nodes, nodes[c].right, j)
             else Ancestor(nodes, nodes[c].left, j)
    ensures SqDistance(q, pos(nodes[j].value)) >= SplitGapSquared(nodes, pos, c, q)
  {
    FarSide(nodes, pos, q, c, j);
    GapBound(q, pos(nodes[j].value), nodes[c].level, NodeKey(nodes, pos, c));
  }

  /** A point beyond a split value, on the side away from q, is at least the split gap away from q. */
  lemma GapBound(q: Vec3, p: Vec3, lv: nat, kc: real)
    requires var kq, kj := SplitValue(lv, q), SplitValue(lv, p);
             (kq < kc && kj >= kc) || (kq >= kc && kj < kc)
    ensures SqDistance(q, p) >= Abs(kc - SplitValue(lv, q)) * Abs(kc - SplitValue(lv, q))
  {
    var kq, kj := SplitValue(lv, q), SplitValue(lv, p);
    SplitGap(kc, kq, kj);
    AxisBound(q, p, lv);
  }

  /** The node on the far side of c lies beyond c's split, away from q. */
  lemma FarSide<T>(nodes: seq<Node<T>>, pos: T -> Vec3, q: Vec3, c: int, j: int)
    requires Ordered(nodes, pos) && 0 <= c < |nodes| && 0 <= j < |nodes|
    requires if GoesLeft(nodes, pos, c, q) then Ancestor(nodes, nodes[c].right, j)
             else Ancestor(nodes, nodes[c].left, j)
    ensures var kc, kq, kj := NodeKey(nodes, pos, c), SplitValue(nodes[c].level, q),
                              SplitValue(nodes[c].level, pos(nodes[j].value));
            (kq < kc && kj >= kc) || (kq >= kc && kj < kc)
  {
    assert Separated(nodes, pos, c, j);
  }

  // ---------------------------------------------------------------- RangeSearch

  /**
   * RangeSearch's walk: j is dequeued after i when every turn on the way
   * passes the box's pruning test (left while min's split value is below the
   * node's, right while max's is at or above it).
   */
  predicate Reach<T>(nodes: seq<Node<T>>, pos: T -> Vec3, min: Vec3, max: Vec3, i: int, j: int)
    decreases |nodes| - i
  {
    0 <= i < |nodes| &&
    (i == j
     || (i < nodes[i].left && SplitValue(nodes[i].level, min) < NodeKey(nodes, pos, i)
         && Reach(nodes, pos, min, max, nodes[i].left, j))
     || (i < nodes[i].right && SplitValue(nodes[i].level, max) >= NodeKey(nodes, pos, i)
         && Reach(nodes, pos, min, max, nodes[i].right, j)))
  }

  lemma {:induction false} ReachRange<T>(nodes: seq<Node<T>>, pos: T -> Vec3, min: Vec3, max: Vec3, i: int, j: int)
    requires Reach(nodes, pos, min, max, i, j)
    ensures 0 <= i <= j < |nodes|
    decreases |nodes| - i
  {
    if i != j {
      if i < nodes[i].left && SplitValue(nodes[i].level, min) < NodeKey(nodes, pos, i)
         && Reach(nodes, pos, min, max, nodes[i].left, j) {
        ReachRange(nodes, pos, min, max, nodes[i].left, j);
      } else {
        ReachRange(nodes, pos, min, max, nodes[i].right, j);
      }
    }
  }

  /** Pending work of the range search: some queued entry from `from` on still reaches j. */
  ghost predicate Reachable<T>(nodes: seq<Node<T>>, pos: T -> Vec3, min: Vec3, max: Vec3,
                               order: seq<int>, from: int, j: int) {
    exists k :: 0 <= from <= k < |order| && Reach(nodes, pos, min, max, order[k], j)
  }

  /**
   * In an ordered tree, the range search reaches every node inside the box:
   * the pruning only skips subtrees lying entirely outside it.
   */
  lemma {:induction false} ReachComplete<T>(nodes: seq<Node<T>>, pos: T -> Vec3, min: Vec3, max: Vec3, i: int, j: int)
    requires LinksForward(nodes) && Ordered(nodes, pos)
    requires 0 <= j < |nodes| && Ancestor(nodes, i, j) && IsInArea(InRectangle(min, max), pos(nodes[j].value))
    ensures Reach(nodes, pos, min, max, i, j)
    decreases |nodes| - i
  {
    AncestorRange(nodes, i, j);
    if i != j {
      assert Separated(nodes, pos, i, j);
      if i < nodes[i].left && Ancestor(nodes, nodes[i].left, j) {
        ReachComplete(nodes, pos, min, max, nodes[i].left, j);
      } else {
        ReachComplete(nodes, pos, min, max, nodes[i].right, j);
      }
    }
  }

  /** The same, for any checker whose accepted area lies inside the box. */
  lemma ReachCompleteFor<T>(nodes: seq<Node<T>>, pos: T -> Vec3, checker: PointChecker, min: Vec3, max: Vec3, j: int)
    requires WellFormed(nodes) && Ordered(nodes, pos) && AreaWithin(checker, min, max)
    requires 0 <= j < |nodes| && IsInArea(checker, pos(nodes[j].value))
    ensures Reach(nodes, pos, min, max, 0, j)
  {
    ReachComplete(nodes, pos, min, max, 0, j);
  }

  /** One more allowed turn extends a range-search path. */
  lemma {:induction false} ReachStep<T>(nodes: seq<Node<T>>, pos: T -> Vec3, min: Vec3, max: Vec3, i: int, p: int, c: int)
    requires Reach(nodes, pos, min, max, i, p) && 0 <= p < |nodes|
    requires (c == nodes[p].left && p < c && SplitValue(nodes[p].level, min) < NodeKey(nodes, pos, p))
          || (c == nodes[p].right && p < c && SplitValue(nodes[p].level, max) >= NodeKey(nodes, pos, p))
    requires c < |nodes|
    ensures Reach(nodes, pos, min, max, i, c)
    decreases |nodes| - i
  {
    if i != p {
      if i < nodes[i].left && SplitValue(nodes[i].level, min) < NodeKey(nodes, pos, i)
         && Reach(nodes, pos, min, max, nodes[i].left, p) {
        ReachStep(nodes, pos, min, max, nodes[i].left, p, c);
      } else {
        ReachStep(nodes, pos, min, max, nodes[i].right, p, c);
      }
    } else {
      assert Reach(nodes, pos, min, max, c, c);
    }
  }

  // ---------------------------------------------------------------- loop steps

  /** x was appended to the queue at index `from` or later. */
  ghost predicate Enqueued(order: seq<int>, from: int, x: int) {
    exists m :: 0 <= from <= m < |order| && order[m] == x
  }

  /** j lies in the left subtree of c. */
  predicate InLeftSubtree<T>(nodes: seq<Node<T>>, c: int, j: int)
    requires 0 <= c < |nodes|
  {
    c < nodes[c].left && Ancestor(nodes, nodes[c].left, j)
  }

  /** The children FindClosest enqueues from c: the near one always, the far one while the split gap is below best. */
  ghost predicate ChildrenEnqueued<T>(nodes: seq<Node<T>>, pos: T -> Vec3, q: Vec3, c: int, best: real, order: seq<int>, from: int)
    requires 0 <= c < |nodes|
  {
    (nodes[c].left != -1 && (GoesLeft(nodes, pos, c, q) || SplitGapSquared(nodes, pos, c, q) < best)
     ==> Enqueued(order, from, nodes[c].left)) &&
    (nodes[c].right != -1 && (!GoesLeft(nodes, pos, c, q) || SplitGapSquared(nodes, pos, c, q) < best)
     ==> Enqueued(order, from, nodes[c].right))
  }

  /** A node below the dequeued entry c that beats best is inside the subtree of a child just enqueued. */
  lemma ClosestCoverOne<T>(nodes: seq<Node<T>>, pos: T -> Vec3, q: Vec3, c: int, best: real,
                           order: seq<int>, from: int, j: int)
    requires LinksForward(nodes) && Ordered(nodes, pos)
    requires 0 <= c < |nodes| && 0 <= j < |nodes| && 0 <= from
    requires best <= SqDistance(q, pos(nodes[c].value))
    requires ChildrenEnqueued(nodes, pos, q, c, best, order, from)
    requires Ancestor(nodes, c, j) && SqDistance(q, pos(nodes[j].value)) < best
    ensures Covered(nodes, order, from, j)
  {
    var l, r := nodes[c].left, nodes[c].right;
    assert j != c;
    if InLeftSubtree(nodes, c, j) {
      if !(GoesLeft(nodes, pos, c, q) || SplitGapSquared(nodes, pos, c, q) < best) {
        FarSideBound(nodes, pos, q, c, j);
      }
      var m :| from <= m < |order| && order[m] == l;
    } else {
      assert c < r && Ancestor(nodes, r, j);
      if !(!GoesLeft(nodes, pos, c, q) || SplitGapSquared(nodes, pos, c, q) < best) {
        FarSideBound(nodes, pos, q, c, j);
      }
      var m :| from <= m < |order| && order[m] == r;
    }
  }

  /**
   * One iteration of FindClosest keeps its coverage invariant: every node
   * is either no closer than the best distance so far or inside the subtree
   * of an entry still queued.
   */
  lemma ClosestCoverStep<T>(nodes: seq<Node<T>>, pos: T -> Vec3, q: Vec3,
                            order: seq<int>, order2: seq<int>, cur: int, best: real, best2: real)
    requires LinksForward(nodes) && Ordered(nodes, pos)
    requires 0 <= cur < |order| <= |order2| && order2[..|order|] == order
    requires 0 <= order[cur] < |nodes|
    requires best2 <= best && best2 <= SqDistance(q, pos(nodes[order[cur]].value))
    requires ChildrenEnqueued(nodes, pos, q, order[cur], best2, order2, |order|)
    requires forall j :: 0 <= j < |nodes| ==>
               SqDistance(q, pos(nodes[j].value)) >= best || Covered(nodes, order, cur, j)
    ensures forall j :: 0 <= j < |nodes| ==>
               SqDistance(q, pos(nodes[j].value)) >= best2 || Covered(nodes, order2, cur + 1, j)
  {
    forall j | 0 <= j < |nodes| && SqDistance(q, pos(nodes[j].value)) < best2
      ensures Covered(nodes, order2, cur + 1, j)
    {
      var k :| 0 <= cur <= k < |order| && Ancestor(nodes, order[k], j);
      assert order2[k] == order[k];
      if k == cur {
        ClosestCoverOne(nodes, pos, q, order[cur], best2, order2, |order|, j);
      }
    }
  }

  /** The children RangeSearch enqueues from c: each one whose side of the split the box reaches. */
  ghost predicate RangeChildrenEnqueued<T>(nodes: seq<Node<T>>, pos: T -> Vec3, min: Vec3, max: Vec3,
                                           c: int, order: seq<int>, from: int)
    requires 0 <= c < |nodes|
  {
    (nodes[c].left != -1 && SplitValue(nodes[c].level, min) < NodeKey(nodes, pos, c)
     ==> Enqueued(order, from, nodes[c].left)) &&
    (nodes[c].right != -1 && SplitValue(nodes[c].level, max) >= NodeKey(nodes, pos, c)
     ==> Enqueued(order, from, nodes[c].right))
  }

  /** Every node the walk reaches and the checker accepts is output already or still reachable from the queue. */
  ghost predicate RangeCovered<T>(nodes: seq<Node<T>>, pos: T -> Vec3, min: Vec3, max: Vec3, checker: PointChecker,
                                  order: seq<int>, from: int, hits: seq<int>) {
    forall j :: 0 <= j < |nodes| && Reach(nodes, pos, min, max, 0, j) && IsInArea(checker, pos(nodes[j].value))
      ==> j in hits || Reachable(nodes, pos, min, max, order, from, j)
  }

  /**
   * One iteration of RangeSearch keeps its completeness invariant: every
   * node the walk reaches and the checker accepts is already output or
   * still reachable from a queued entry.
   */
  lemma RangeCoverStep<T>(nodes: seq<Node<T>>, pos: T -> Vec3, min: Vec3, max: Vec3, checker: PointChecker,
                          order: seq<int>, order2: seq<int>, cur: int, hits: seq<int>, hits2: seq<int>)
    requires LinksForward(nodes)
    requires 0 <= cur < |order| <= |order2| && order2[..|order|] == order
    requires 0 <= order[cur] < |nodes|
    requires hits2 == hits + (if IsInArea(checker, pos(nodes[order[cur]].value)) then [order[cur]] else [])
    requires RangeChildrenEnqueued(nodes, pos, min, max, order[cur], order2, |order|)
    requires RangeCovered(nodes, pos, min, max, checker, order, cur, hits)
    ensures RangeCovered(nodes, pos, min, max, checker, order2, cur + 1, hits2)
  {
    var c := order[cur];
    forall j | 0 <= j < |nodes| && Reach(nodes, pos, min, max, 0, j) && IsInArea(checker, pos(nodes[j].value))
               && j !in hits2
      ensures Reachable(nodes, pos, min, max, order2, cur + 1, j)
    {
      assert j !in hits;
      var k :| 0 <= cur <= k < |order| && Reach(nodes, pos, min, max, order[k], j);
      assert order2[k] == order[k];
      if k == cur {
        assert j != c;
        var l, r := nodes[c].left, nodes[c].right;
        if c < l && SplitValue(nodes[c].level, min) < NodeKey(nodes, pos, c) && Reach(nodes, pos, min, max, l, j) {
          var m :| |order| <= m < |order2| && order2[m] == l;
        } else {
          var m :| |order| <= m < |order2| && order2[m] == r;
        }
      }
    }
  }

  // ---------------------------------------------------------------- RangeSearch state

  /** The range search's queue: a breadth-first walk whose every entry the box reaches from the root. */
  ghost predicate RangeWalk<T>(nodes: seq<Node<T>>, pos: T -> Vec3, min: Vec3, max: Vec3,
                               queue: seq<int>, par: seq<int>, head: int) {
    Frontier(nodes, queue, par, head) && |queue| <= |nodes|
    && forall k :: 0 <= k < |queue| ==> Reach(nodes, pos, min, max, 0, queue[k])
  }

  /** Enqueuing a reached child of a dequeued entry keeps the walk. */
  lemma RangePush<T>(nodes: seq<Node<T>>, pos: T -> Vec3, min: Vec3, max: Vec3,
                     queue: seq<int>, par: seq<int>, done: int, cur: int, c: int)
    requires LinksForward(nodes) && UniqueParents(nodes)
    requires RangeWalk(nodes, pos, min, max, queue, par, done) && 0 <= cur < done
    requires IsChild(nodes, queue[cur], c) && Reach(nodes, pos, min, max, 0, c)
    requires forall k :: 1 <= k < |queue| && par[k] == cur ==> queue[k] != c
    ensures RangeWalk(nodes, pos, min, max, queue + [c], par + [cur], done)
  {
    FrontierPush(nodes, queue, par, done, cur, c);
    DistinctBound(queue + [c], |nodes|);
  }

  /**
   * The output so far: the accepted entries among the first `head` dequeued,
   * in queue order; hitIdx[k] is the queue position of hits[k].
   */
  ghost predicate HitsOk<T>(nodes: seq<Node<T>>, pos: T -> Vec3, checker: PointChecker, queue: seq<int>, head: int,
                            output: seq<T>, hits: seq<int>, hitIdx: seq<int>) {
    0 <= head <= |queue| && |output| == |hits| == |hitIdx|
    && (forall k :: 0 <= k < |hits| ==>
          0 <= hitIdx[k] < head && hits[k] == queue[hitIdx[k]] && 0 <= hits[k] < |nodes|
          && output[k] == nodes[hits[k]].value && IsInArea(checker, pos(nodes[hits[k]].value)))
    && (forall k, l :: 0 <= k < l < |hits| ==> hitIdx[k] < hitIdx[l])
  }

  /** Dequeuing entry `head` outputs it exactly when the checker accepts it. */
  lemma HitsStep<T>(nodes: seq<Node<T>>, pos: T -> Vec3, checker: PointChecker, queue: seq<int>, queue2: seq<int>,
                    head: int, output: seq<T>, hits: seq<int>, hitIdx: seq<int>)
    requires HitsOk(nodes, pos, checker, queue, head, output, hits, hitIdx) && head < |queue|
    requires |queue| <= |queue2| && queue2[..|queue|] == queue && 0 <= queue[head] < |nodes|
    ensures var c := queue[head];
            var take := IsInArea(checker, pos(nodes[c].value));
            HitsOk(nodes, pos, checker, queue2, head + 1,
                   output + (if take then [nodes[c].value] else []),
                   hits + (if take then [c] else []),
                   hitIdx + (if take then [head] else []))
  {
    forall k | 0 <= k < |hits|
      ensures queue2[hitIdx[k]] == queue[hitIdx[k]]
    {
      assert queue2[..|queue|][hitIdx[k]] == queue2[hitIdx[k]];
    }
    assert queue2[head] == queue2[..|queue|][head];
  }

  /** Output entries come from distinct queue positions, so they are distinct nodes, at most one per slot. */
  lemma HitsDistinct<T>(nodes: seq<Node<T>>, pos: T -> Vec3, checker: PointChecker, queue: seq<int>, par: seq<int>,
                        head: int, output: seq<T>, hits: seq<int>, hitIdx: seq<int>)
    requires Frontier(nodes, queue, par, head) && HitsOk(nodes, pos, checker, queue, head, output, hits, hitIdx)
    ensures forall k, l :: 0 <= k < l < |hits| ==> hits[k] != hits[l]
    ensures |hits| <= |nodes|
  {
    forall k, l | 0 <= k < l < |hits|
      ensures hits[k] != hits[l]
    {
      assert hitIdx[k] < hitIdx[l];
    }
    DistinctBound(hits, |nodes|);
  }

  /** When RangeSearch's queue is drained, its hits are the distinct reached nodes the checker accepts, all of them. */
  lemma RangeDone<T>(nodes: seq<Node<T>>, pos: T -> Vec3, min: Vec3, max: Vec3, checker: PointChecker,
                     queue: seq<int>, par: seq<int>, head: int, output: seq<T>, hits: seq<int>, hitIdx: seq<int>)
    requires RangeWalk(nodes, pos, min, max, queue, par, head) && head >= |queue|
    requires HitsOk(nodes, pos, checker, queue, head, output, hits, hitIdx)
    requires RangeCovered(nodes, pos, min, max, checker, queue, head, hits)
    ensures |hits| <= |nodes|
    ensures forall k :: 0 <= k < |hits| ==> Reach(nodes, pos, min, max, 0, hits[k])
    ensures forall k, l :: 0 <= k < l < |hits| ==> hits[k] != hits[l]
    ensures forall j :: 0 <= j < |nodes| && Reach(nodes, pos, min, max, 0, j) && IsInArea(checker, pos(nodes[j].value))
              ==> j in hits
  {
    HitsDistinct(nodes, pos, checker, queue, par, head, output, hits, hitIdx);
    forall k | 0 <= k < |hits|
      ensures Reach(nodes, pos, min, max, 0, hits[k])
    {
      assert hits[k] == queue[hitIdx[k]];
    }
  }
}

/**
 * Properties of the k-d tree specification: the subtree relation, the
 * invariants AddNode preserves, and what a rebuild produces.
 */
module KDTreeProofs {
  import opened Geometry
  import opened KDTreeSpec

  // ---------------------------------------------------------------- subtrees

  /** A subtree relation only relates slots of the arena, and never goes backwards. */
  lemma {:induction false} AncestorRange<T>(nodes: seq<Node<T>>, i: int, j: int)
    requires Ancestor(nodes, i, j)
    ensures 0 <= i <= j < |nodes|
    decreases |nodes| - i
  {
    if i != j {
      if i < nodes[i].left && Ancestor(nodes, nodes[i].left, j) {
        AncestorRange(nodes, nodes[i].left, j);
      } else {
        AncestorRange(nodes, nodes[i].right, j);
      }
    }
  }

  lemma {:induction false} AncestorTransitive<T>(nodes: seq<Node<T>>, i: int, k: int, j: int)
    requires Ancestor(nodes, i, k) && Ancestor(nodes, k, j)
    ensures Ancestor(nodes, i, j)
    decreases |nodes| - i
  {
    if i != k {
      if i < nodes[i].left && Ancestor(nodes, nodes[i].left, k) {
        AncestorTransitive(nodes, nodes[i].left, k, j);
      } else {
        AncestorTransitive(nodes, nodes[i].right, k, j);
      }
    }
  }

  /** A proper descendant has a parent inside the same subtree. */
  lemma {:induction false} AncestorParent<T>(nodes: seq<Node<T>>, a: int, r: int) returns (p: int)
    requires Ancestor(nodes, a, r) && a != r
    ensures IsChild(nodes, p, r) && Ancestor(nodes, a, p)
    decreases |nodes| - a
  {
    var c := if a < nodes[a].left && Ancestor(nodes, nodes[a].left, r) then nodes[a].left else nodes[a].right;
    AncestorRange(nodes, c, r);
    if c == r {
      p := a;
    } else {
      p := AncestorParent(nodes, c, r);
      AncestorRange(nodes, c, p);
    }
  }

  /** In a tree, two ancestors of the same node lie on one path. */
  lemma {:induction false} AncestorsComparable<T>(nodes: seq<Node<T>>, a: int, b: int, r: int)
    requires LinksForward(nodes) && UniqueParents(nodes)
    requires Ancestor(nodes, a, r) && Ancestor(nodes, b, r)
    ensures Ancestor(nodes, a, b) || Ancestor(nodes, b, a)
    decreases r
  {
    AncestorRange(nodes, a, r);
    AncestorRange(nodes, b, r);
    if a != r && b != r {
      var p := AncestorParent(nodes, a, r);
      var q := AncestorParent(nodes, b, r);
      assert p == q;
      assert p < r;
      AncestorsComparable(nodes, a, b, p);
    }
  }

  /** The two subtrees below a node share no node. */
  lemma SubtreesDisjoint<T>(nodes: seq<Node<T>>, i: int, r: int)
    requires LinksForward(nodes) && DistinctChildren(nodes) && UniqueParents(nodes)
    requires 0 <= i < |nodes|
    ensures !(Ancestor(nodes, nodes[i].left, r) && Ancestor(nodes, nodes[i].right, r))
  {
    var l, rr := nodes[i].left, nodes[i].right;
    if Ancestor(nodes, l, r) && Ancestor(nodes, rr, r) {
      AncestorRange(nodes, l, r);
      AncestorRange(nodes, rr, r);
      assert l != rr;
      AncestorsComparable(nodes, l, rr, r);
      if Ancestor(nodes, l, rr) {
        var p := AncestorParent(nodes, l, rr);
        assert IsChild(nodes, i, rr);
        AncestorRange(nodes, l, p);
      } else {
        var p := AncestorParent(nodes, rr, l);
        assert IsChild(nodes, i, l);
        AncestorRange(nodes, rr, p);
      }
    }
  }

  /** A child's subtree lies inside its parent's. */
  lemma ChildSubtree<T>(nodes: seq<Node<T>>, i: int, j: int)
    requires LinksForward(nodes) && 0 <= i < |nodes|
    requires Ancestor(nodes, nodes[i].left, j) || Ancestor(nodes, nodes[i].right, j)
    ensures Ancestor(nodes, i, j)
  {
    if Ancestor(nodes, nodes[i].left, j) {
      AncestorRange(nodes, nodes[i].left, j);
    } else {
      AncestorRange(nodes, nodes[i].right, j);
    }
  }

  // ---------------------------------------------------------------- FindParent

  /**
   * The walk for q from s turns, at every node i on its path, to the side
   * q's split value selects.
   */
  lemma {:induction false} DescendSide<T>(nodes: seq<Node<T>>, pos: T -> Vec3, s: int, q: Vec3, i: int)
    requires LinksForward(nodes) && DistinctChildren(nodes) && UniqueParents(nodes)
    requires 0 <= s < |nodes| && Ancestor(nodes, s, i)
    ensures 0 <= i < |nodes|
    ensures Ancestor(nodes, nodes[i].left, Descend(nodes, pos, s, q)) ==> GoesLeft(nodes, pos, i, q)
    ensures Ancestor(nodes, nodes[i].right, Descend(nodes, pos, s, q)) ==> !GoesLeft(nodes, pos, i, q)
    decreases |nodes| - s
  {
    AncestorRange(nodes, s, i);
    var c := Toward(nodes, pos, s, q);
    var d := Descend(nodes, pos, s, q);
    if c == -1 {
      assert d == s;
      if Ancestor(nodes, nodes[i].left, d) { AncestorRange(nodes, nodes[i].left, d); }
      if Ancestor(nodes, nodes[i].right, d) { AncestorRange(nodes, nodes[i].right, d); }
    } else {
      assert d == Descend(nodes, pos, c, q);
      assert Ancestor(nodes, c, d);
      if s == i {
        SubtreesDisjoint(nodes, i, d);
      } else {
        var other := if c == nodes[s].left then nodes[s].right else nodes[s].left;
        if Ancestor(nodes, c, i) {
          DescendSide(nodes, pos, c, q, i);
        } else {
          assert Ancestor(nodes, other, i);
          if Ancestor(nodes, nodes[i].left, d) || Ancestor(nodes, nodes[i].right, d) {
            ChildSubtree(nodes, i, d);
            AncestorTransitive(nodes, other, i, d);
            SubtreesDisjoint(nodes, s, d);
          }
        }
      }
    }
  }

  // ---------------------------------------------------------------- AddNode

  /** What AddNode changes: the new slot, one link of the parent, and the old last node's Next. */
  lemma InsertShape<T>(nodes: seq<Node<T>>, x: T, pos: T -> Vec3)
    requires LinksForward(nodes)
    ensures var r := Insert(nodes, x, pos);
            var n := |nodes|;
            var p := ParentFor(nodes, pos, pos(x));
            && r[n] == Node(x, if p == -1 then 0 else nodes[p].level + 1, -1, -1, -1)
            && (forall i :: 0 <= i < n ==> r[i].value == nodes[i].value && r[i].level == nodes[i].level)
            && (forall i :: 0 <= i < n ==> r[i].next == if i == n - 1 then n else nodes[i].next)
            && (forall i :: 0 <= i < n && i != p ==> r[i].left == nodes[i].left && r[i].right == nodes[i].right)
            && (p != -1 && GoesLeft(nodes, pos, p, pos(x)) ==>
                  nodes[p].left == -1 && r[p].left == n && r[p].right == nodes[p].right)
            && (p != -1 && !GoesLeft(nodes, pos, p, pos(x)) ==>
                  nodes[p].right == -1 && r[p].right == n && r[p].left == nodes[p].left)
  {
  }

  /** AddNode leaves the subtree relation between old nodes as it was. */
  lemma {:induction false} InsertAncestorOld<T>(nodes: seq<Node<T>>, x: T, pos: T -> Vec3, i: int, j: int)
    requires LinksForward(nodes) && 0 <= j < |nodes|
    ensures Ancestor(Insert(nodes, x, pos), i, j) <==> Ancestor(nodes, i, j)
    decreases |nodes| + 1 - i
  {
    var r := Insert(nodes, x, pos);
    var n := |nodes|;
    if 0 <= i < n {
      InsertShape(nodes, x, pos);
      if i < r[i].left { InsertAncestorOld(nodes, x, pos, r[i].left, j); }
      if i < r[i].right { InsertAncestorOld(nodes, x, pos, r[i].right, j); }
      if i < nodes[i].left { InsertAncestorOld(nodes, x, pos, nodes[i].left, j); }
      if i < nodes[i].right { InsertAncestorOld(nodes, x, pos, nodes[i].right, j); }
    } else if i == n {
      InsertShape(nodes, x, pos);
    }
  }

  /** After AddNode, the new node lies exactly in the subtrees that held its parent. */
  lemma {:induction false} InsertAncestorNew<T>(nodes: seq<Node<T>>, x: T, pos: T -> Vec3, i: int)
    requires LinksForward(nodes) && |nodes| > 0 && 0 <= i <= |nodes|
    ensures Ancestor(Insert(nodes, x, pos), i, |nodes|) <==>
            i == |nodes| || Ancestor(nodes, i, ParentFor(nodes, pos, pos(x)))
    decreases |nodes| - i
  {
    var r := Insert(nodes, x, pos);
    var n := |nodes|;
    var p := ParentFor(nodes, pos, pos(x));
    if i < n {
      InsertShape(nodes, x, pos);
      if i == p {
        assert Ancestor(r, n, n);
      } else {
        assert r[i].left == nodes[i].left && r[i].right == nodes[i].right;
        if i < nodes[i].left { InsertAncestorNew(nodes, x, pos, nodes[i].left); }
        if i < nodes[i].right { InsertAncestorNew(nodes, x, pos, nodes[i].right); }
      }
    }
  }

  lemma InsertUniqueParents<T>(nodes: seq<Node<T>>, x: T, pos: T -> Vec3)
    requires LinksForward(nodes) && UniqueParents(nodes)
    ensures UniqueParents(Insert(nodes, x, pos))
  {
    var r := Insert(nodes, x, pos);
    var n := |nodes|;
    var p := ParentFor(nodes, pos, pos(x));
    InsertShape(nodes, x, pos);
    forall a, b, c | IsChild(r, a, c) && IsChild(r, b, c)
      ensures a == b
    {
      assert a < n && b < n;
      if c == n {
        assert a == p && b == p;
      } else {
        assert IsChild(nodes, a, c) && IsChild(nodes, b, c);
      }
    }
  }

  /** AddNode keeps the tree shape. */
  lemma InsertWellFormed<T>(nodes: seq<Node<T>>, x: T, pos: T -> Vec3)
    requires WellFormed(nodes)
    ensures WellFormed(Insert(nodes, x, pos))
  {
    var r := Insert(nodes, x, pos);
    var n := |nodes|;
    var p := ParentFor(nodes, pos, pos(x));
    InsertShape(nodes, x, pos);
    InsertUniqueParents(nodes, x, pos);
    forall i | 0 <= i < |r|
      ensures LevelsOk(r, i)
    {
      if i < n {
        assert LevelsOk(nodes, i);
      }
    }
    forall j | 0 <= j < |r|
      ensures Ancestor(r, 0, j)
    {
      if j < n {
        InsertAncestorOld(nodes, x, pos, 0, j);
      } else if n > 0 {
        InsertAncestorNew(nodes, x, pos, 0);
      }
    }
  }

  /**
   * AddNode keeps the k-d ordering: the new item lands on the side of every
   * ancestor that its split value selects.
   */
  lemma InsertOrdered<T>(nodes: seq<Node<T>>, x: T, pos: T -> Vec3)
    requires WellFormed(nodes) && Ordered(nodes, pos)
    ensures Ordered(Insert(nodes, x, pos), pos)
  {
    var r := Insert(nodes, x, pos);
    var n := |nodes|;
    var p := ParentFor(nodes, pos, pos(x));
    InsertShape(nodes, x, pos);
    forall i, j | 0 <= i < |r| && 0 <= j < |r|
      ensures Separated(r, pos, i, j)
    {
      if i == n {
        assert !Ancestor(r, -1, j);
      } else if j < n {
        InsertAncestorOld(nodes, x, pos, r[i].left, j);
        InsertAncestorOld(nodes, x, pos, r[i].right, j);
        InsertAncestorOld(nodes, x, pos, n, j);
        assert Separated(nodes, pos, i, j);
      } else {
        assert Ancestor(nodes, 0, i);
        DescendSide(nodes, pos, 0, pos(x), i);
        if 0 <= nodes[i].left < n { InsertAncestorNew(nodes, x, pos, nodes[i].left); }
        if 0 <= nodes[i].right < n { InsertAncestorNew(nodes, x, pos, nodes[i].right); }
      }
    }
  }

  // ---------------------------------------------------------------- rebuilds

  /** Adding items one by one keeps both the shape and the ordering. */
  lemma {:induction false} InsertAllValid<T>(nodes: seq<Node<T>>, s: seq<T>, pos: T -> Vec3)
    requires WellFormed(nodes) && Ordered(nodes, pos)
    ensures WellFormed(InsertAll(nodes, s, pos)) && Ordered(InsertAll(nodes, s, pos), pos)
    decreases |s|
  {
    if s != [] {
      var init := s[..|s| - 1];
      InsertAllValid(nodes, init, pos);
      InsertWellFormed(InsertAll(nodes, init, pos), s[|s| - 1], pos);
      InsertOrdered(InsertAll(nodes, init, pos), s[|s| - 1], pos);
    }
  }

  /**
   * A tree built from s under positions pos is well formed, ordered under
   * those positions, and enumerates exactly s.
   */
  lemma BuildValid<T>(s: seq<T>, pos: T -> Vec3)
    ensures WellFormed(Build(s, pos)) && Ordered(Build(s, pos), pos) && ItemsOf(Build(s, pos)) == s
  {
    InsertAllValid([], s, pos);
  }

  /** Rebuilding a freshly built tree under unchanged positions gives the same tree. */
  lemma RebuildIdempotent<T>(s: seq<T>, pos: T -> Vec3)
    ensures Build(ItemsOf(Build(s, pos)), pos) == Build(s, pos)
  {
    BuildValid(s, pos);
  }

  /** Adding one more item to a built tree is building from the longer sequence. */
  lemma BuildSnoc<T>(s: seq<T>, x: T, pos: T -> Vec3)
    ensures Build(s + [x], pos) == Insert(Build(s, pos), x, pos)
  {
    assert (s + [x])[..|s|] == s;
  }

  /** Adding a range is adding its items one after the other. */
  lemma {:induction false} InsertAllAppend<T>(nodes: seq<Node<T>>, s: seq<T>, t: seq<T>, pos: T -> Vec3)
    requires LinksForward(nodes)
    ensures InsertAll(nodes, s + t, pos) == InsertAll(InsertAll(nodes, s, pos), t, pos)
    decreases |t|
  {
    if t == [] {
      assert s + t == s;
    } else {
      var init := t[..|t| - 1];
      assert (s + t)[..|s + t| - 1] == s + init;
      InsertAllAppend(nodes, s, init, pos);
    }
  }

  /** The number of matching items is the length of the matching subsequence. */
  lemma {:induction false} CountIsFilterLength<T>(s: seq<T>, pred: T -> bool)
    ensures CountMatching(s, pred) == |Filter(s, pred)|
    decreases |s|
  {
    if s != [] {
      CountIsFilterLength(s[..|s| - 1], pred);
    }
  }

  /** A predicate and its negation split the items between them. */
  lemma {:induction false} FilterPartition<T>(s: seq<T>, pred: T -> bool)
    ensures |Filter(s, pred)| + |Filter(s, Not(pred))| == |s|
    decreases |s|
  {
    if s != [] {
      FilterPartition(s[..|s| - 1], pred);
    }
  }

  /** Filtering a longer sequence adds at most its last item. */
  lemma FilterSnoc<T>(s: seq<T>, x: T, pred: T -> bool)
    ensures Filter(s + [x], pred) == Filter(s, pred) + if pred(x) then [x] else []
  {
    assert (s + [x])[..|s|] == s;
  }

  lemma TakeSnoc<T>(s: seq<T>, i: int)
    requires 0 <= i < |s|
    ensures s[..i + 1] == s[..i] + [s[i]]
  {
  }

  /** Building from the matching items of one more element. */
  lemma BuildFilterStep<T>(s: seq<T>, i: int, pred: T -> bool, pos: T -> Vec3)
    requires 0 <= i < |s|
    ensures Build(Filter(s[..i + 1], pred), pos) ==
            if pred(s[i]) then Insert(Build(Filter(s[..i], pred), pos), s[i], pos)
            else Build(Filter(s[..i], pred), pos)
  {
    TakeSnoc(s, i);
    FilterSnoc(s[..i], s[i], pred);
    if pred(s[i]) {
      BuildSnoc(Filter(s[..i], pred), s[i], pos);
    }
  }

  /** The filtered items are exactly the items that satisfy the predicate. */
  lemma {:induction false} FilterMembers<T>(s: seq<T>, keep: T -> bool)
    ensures forall i :: 0 <= i < |Filter(s, keep)| ==> Filter(s, keep)[i] in s && keep(Filter(s, keep)[i])
    ensures forall i :: 0 <= i < |s| && keep(s[i]) ==> s[i] in Filter(s, keep)
    decreases |s|
  {
    if s != [] {
      FilterMembers(s[..|s| - 1], keep);
      assert s == s[..|s| - 1] + [s[|s| - 1]];
    }
  }
}

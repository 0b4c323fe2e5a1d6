/**
 * C# events as invocation lists: `+=` appends a handler and `-=` removes
 * its last occurrence. A list is modelled by the sequence of the objects a
 * handler was subscribed to, one entry per subscription.
 */
module Delegates {
  /** A delegate's `-=`: the last occurrence of `u` leaves the invocation list. */
  function RemoveLast<T(==)>(s: seq<T>, u: T): (r: seq<T>)
    ensures u !in s ==> r == s
    ensures u in s ==> |r| == |s| - 1
  {
    if s == [] then []
    else if s[|s| - 1] == u then s[..|s| - 1]
    else RemoveLast(s[..|s| - 1], u) + [s[|s| - 1]]
  }

  /** `-=` takes away exactly one subscription of `u`, when there is one. */
  lemma {:induction false} RemoveLastCounts<T>(s: seq<T>, u: T)
    ensures multiset(RemoveLast(s, u)) == multiset(s) - multiset{u}
  {
    if s != [] {
      var init := s[..|s| - 1];
      assert s == init + [s[|s| - 1]];
      if s[|s| - 1] != u {
        RemoveLastCounts(init, u);
      }
    }
  }

  /** `-=` once for each of `us`, in order. */
  function RemoveEach<T(==)>(s: seq<T>, us: seq<T>): (r: seq<T>)
  {
    if us == [] then s else RemoveLast(RemoveEach(s, us[..|us| - 1]), us[|us| - 1])
  }

  lemma SubtractTwice<T>(a: multiset<T>, b: multiset<T>, c: multiset<T>)
    ensures a - b - c == a - (b + c)
  {
    assert forall v :: (a - b - c)[v] == (a - (b + c))[v];
  }

  /** Unsubscribing once per member drops, with multiplicity, exactly one subscription per member. */
  lemma {:induction false} RemoveEachCounts<T>(s: seq<T>, us: seq<T>)
    ensures multiset(RemoveEach(s, us)) == multiset(s) - multiset(us)
  {
    if us != [] {
      var init := us[..|us| - 1];
      RemoveEachCounts(s, init);
      RemoveLastCounts(RemoveEach(s, init), us[|us| - 1]);
      assert us == init + [us[|us| - 1]];
      SubtractTwice(multiset(s), multiset(init), multiset{us[|us| - 1]});
    }
  }
}

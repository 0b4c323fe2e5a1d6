/**
 * ExIEnumerable.ForEach: run every action on every item, item by item,
 * skipping null items and null actions. An action call is recorded as the
 * pair (action index, item) so that the order of the calls can be stated.
 */
module Enumerables {
  import opened Wrappers

  datatype Call<T> = Call(action: nat, item: T)

  /** The calls made on one item: every non-null action, in listed order. */
  function ActionCalls<T>(item: T, actions: seq<bool>): (r: seq<Call<T>>)
    ensures |r| <= |actions|
    ensures forall k :: 0 <= k < |r| ==> r[k].item == item && r[k].action < |actions| && actions[r[k].action]
  {
    if actions == [] then []
    else ActionCalls(item, actions[..|actions| - 1])
         + (if actions[|actions| - 1] then [Call(|actions| - 1, item)] else [])
  }

  /** The calls made for a whole source: the items in order, each with all its actions. */
  function Calls<T>(items: seq<Option<T>>, actions: seq<bool>): seq<Call<T>> {
    if items == [] then []
    else Calls(items[..|items| - 1], actions)
         + (if items[|items| - 1].Some? then ActionCalls(items[|items| - 1].value, actions) else [])
  }

  /**
   * The extension method. `source` None is a null enumerable; `actions[i]`
   * is false where the i-th action is null.
   */
  method ForEach<T>(source: Option<seq<Option<T>>>, actions: seq<bool>) returns (r: Outcome, trace: seq<Call<T>>)
    ensures source.None? ==> r == Fail(NullReference) && trace == []
    ensures source.Some? ==> r == Done && trace == Calls(source.value, actions)
  {
    trace := [];
    if source.None? {
      return Fail(NullReference), trace;
    }
    var items := source.value;
    var k := 0;
    while k < |items|
      invariant 0 <= k <= |items|
      invariant trace == Calls(items[..k], actions)
    {
      var item := items[k];
      assert items[..k + 1][..k] == items[..k];
      k := k + 1;
      if item.None? {
        continue;
      }
      ghost var before := trace;
      var i := 0;
      while i < |actions|
        invariant 0 <= i <= |actions|
        invariant trace == before + ActionCalls(item.value, actions[..i])
      {
        assert actions[..i + 1][..i] == actions[..i];
        if actions[i] {
          trace := trace + [Call(i, item.value)];
        }
        i := i + 1;
      }
      assert actions[..i] == actions;
    }
    assert items[..k] == items;
    r := Done;
  }

  /** The number of non-null entries. */
  function CountSome<T>(s: seq<Option<T>>): (n: nat)
    ensures n <= |s|
  {
    if s == [] then 0 else CountSome(s[..|s| - 1]) + (if s[|s| - 1].Some? then 1 else 0)
  }

  function CountTrue(s: seq<bool>): (n: nat)
    ensures n <= |s|
  {
    if s == [] then 0 else CountTrue(s[..|s| - 1]) + (if s[|s| - 1] then 1 else 0)
  }

  lemma {:induction false} ActionCallsLength<T>(item: T, actions: seq<bool>)
    ensures |ActionCalls(item, actions)| == CountTrue(actions)
  {
    if actions != [] {
      ActionCallsLength(item, actions[..|actions| - 1]);
    }
  }

  /** Each non-null item receives each non-null action exactly once: the calls number items times actions. */
  lemma {:induction false} CallsLength<T>(items: seq<Option<T>>, actions: seq<bool>)
    ensures |Calls(items, actions)| == CountSome(items) * CountTrue(actions)
  {
    if items != [] {
      var init := items[..|items| - 1];
      CallsLength(init, actions);
      if items[|items| - 1].Some? {
        ActionCallsLength(items[|items| - 1].value, actions);
        assert CountSome(items) == CountSome(init) + 1;
        MulSucc(CountSome(init), CountTrue(actions));
      } else {
        assert CountSome(items) == CountSome(init);
      }
    }
  }

  lemma MulSucc(a: nat, b: nat)
    ensures (a + 1) * b == a * b + b
  {
  }

  /** Null items and null actions are skipped: every call pairs a non-null action with a non-null item of the source. */
  lemma {:induction false} CallsSkipNulls<T>(items: seq<Option<T>>, actions: seq<bool>)
    ensures forall c :: c in Calls(items, actions) ==> c.action < |actions| && actions[c.action] && Some(c.item) in items
  {
    if items != [] {
      var init := items[..|items| - 1];
      CallsSkipNulls(init, actions);
      forall c | c in Calls(items, actions)
        ensures c.action < |actions| && actions[c.action] && Some(c.item) in items
      {
        if c in Calls(init, actions) {
          assert Some(c.item) in init;
        } else {
          var k :| 0 <= k < |ActionCalls(items[|items| - 1].value, actions)|
                   && ActionCalls(items[|items| - 1].value, actions)[k] == c;
          assert items[|items| - 1] == Some(c.item);
        }
      }
    }
  }

  /** All calls of an earlier item come before every call of a later item. */
  lemma ItemByItem<T>(items: seq<Option<T>>, more: seq<Option<T>>, actions: seq<bool>)
    ensures Calls(items, actions) <= Calls(items + more, actions)
    decreases |more|
  {
    if more != [] {
      var init := more[..|more| - 1];
      assert (items + more)[..|items + more| - 1] == items + init;
      ItemByItem(items, init, actions);
    } else {
      assert items + more == items;
    }
  }
}

/**
 * UnitSquad: the units picked together by a box selection, shown and
 * commanded as one. The squad keeps its members as a set, listens to their
 * deaths and health changes, and reports the summed health of the members
 * still alive. Units are named by id; their live heal points and maxima are
 * given as the functions `hpOf` and `maxOf`, and what the squad asks of its
 * units (SetSelected) is recorded in `calls`.
 */
module Squads {
  import opened Wrappers
  import opened Targets
  import opened Health
  import opened Delegates

  /** What the squad raises. */
  datatype SquadEvent =
    | HealthChanged(args: ChangedHealthArgs) // OnHealthChanges
    | StopShowing                            // OnStopShowing
    | Died                                   // OnDie

  /** A call the squad makes on one of its units. */
  datatype UnitCall = Select(unit: UnitId, selected: bool)

  /** No id occurs twice. */
  predicate Distinct(s: seq<UnitId>) {
    forall i, j :: 0 <= i < j < |s| ==> s[i] != s[j]
  }

  /** The non-null entries of a source, in order. */
  function NonNull(items: seq<Option<UnitId>>): (r: seq<UnitId>)
    ensures |r| <= |items|
  {
    if items == [] then []
    else NonNull(items[..|items| - 1]) + (if items[|items| - 1].Some? then [items[|items| - 1].value] else [])
  }

  /** The set a HashSet ends up holding: each non-null entry once, in first-seen order. */
  function Members(items: seq<Option<UnitId>>): (r: seq<UnitId>)
    ensures Distinct(r)
  {
    if items == [] then []
    else
      var prefix := Members(items[..|items| - 1]);
      var last := items[|items| - 1];
      prefix + (if last.Some? && last.value !in prefix then [last.value] else [])
  }

  /** The squad holds exactly the units the source names, and every one of them is subscribed to. */
  lemma {:induction false} MembersAreTheNamedUnits(items: seq<Option<UnitId>>)
    ensures forall u :: u in Members(items) <==> Some(u) in items
    ensures forall u :: u in NonNull(items) <==> Some(u) in items
  {
    if items != [] {
      var prefix := items[..|items| - 1];
      MembersAreTheNamedUnits(prefix);
      assert items == prefix + [items[|items| - 1]];
    }
  }

  /** Removing an id from a sequence of distinct ids. */
  function Without(s: seq<UnitId>, u: UnitId): (r: seq<UnitId>)
    requires Distinct(s)
    ensures Distinct(r)
    ensures forall v :: v in r <==> v in s && v != u
    ensures u in s ==> |r| == |s| - 1
    ensures u !in s ==> r == s
  {
    if s == [] then []
    else if s[0] == u then s[1..]
    else
      assert s[0] !in s[1..];
      [s[0]] + Without(s[1..], u)
  }

  /** ΣHP over the members. */
  function HealthSum(s: seq<UnitId>, hpOf: UnitId -> int): int {
    if s == [] then 0 else HealthSum(s[..|s| - 1], hpOf) + hpOf(s[|s| - 1])
  }

  /** ΣHealPointsMax over the members. */
  function HealthMaxSum(s: seq<UnitId>, maxOf: UnitId -> int): int {
    if s == [] then 0 else HealthMaxSum(s[..|s| - 1], maxOf) + maxOf(s[|s| - 1])
  }

  /** The health event of the members: ΣHP, and its fullness against ΣHealPointsMax, through the validating constructor. */
  function HealthArgs(s: seq<UnitId>, hpOf: UnitId -> int, maxOf: UnitId -> int): Result<ChangedHealthArgs> {
    NewChangedHealthArgs(HealthSum(s, hpOf), Fullness(HealthSum(s, hpOf), HealthMaxSum(s, maxOf)), "")
  }

  /** The calls SetSelected(selected) on every member, in order. */
  function SelectAll(s: seq<UnitId>, selected: bool): (r: seq<UnitCall>)
    ensures |r| == |s|
    ensures forall k :: 0 <= k < |s| ==> r[k] == Select(s[k], selected)
  {
    if s == [] then [] else SelectAll(s[..|s| - 1], selected) + [Select(s[|s| - 1], selected)]
  }

  /** The squad's health never exceeds its maximum when no member's does. */
  lemma {:induction false} HealthWithinMax(s: seq<UnitId>, hpOf: UnitId -> int, maxOf: UnitId -> int)
    requires forall u :: u in s ==> hpOf(u) <= maxOf(u)
    ensures HealthSum(s, hpOf) <= HealthMaxSum(s, maxOf)
  {
    if s != [] {
      HealthWithinMax(s[..|s| - 1], hpOf, maxOf);
    }
  }

  /** A sum of non-negative terms is non-negative. */
  lemma {:induction false} HealthNonNegative(s: seq<UnitId>, hpOf: UnitId -> int)
    requires forall u :: u in s ==> hpOf(u) >= 0
    ensures HealthSum(s, hpOf) >= 0
  {
    if s != [] {
      HealthNonNegative(s[..|s| - 1], hpOf);
    }
  }

  /**
   * When every member's heal points lie in [0, max], the squad's health
   * event is one ChangedHealthArgs accepts: its fullness is within [0, 1].
   */
  lemma SquadArgsAccepted(s: seq<UnitId>, hpOf: UnitId -> int, maxOf: UnitId -> int)
    requires forall u :: u in s ==> 0 <= hpOf(u) <= maxOf(u)
    ensures HealthArgs(s, hpOf, maxOf).Ok?
  {
    HealthWithinMax(s, hpOf, maxOf);
    HealthNonNegative(s, hpOf);
    var health, max := HealthSum(s, hpOf), HealthMaxSum(s, maxOf);
    if health > 0 {
      FullnessAccepted(health, max, "");
    }
  }

  /** The constructor's ForEach: the set the units fill, and one subscription per non-null entry. */
  method CollectMembers(items: seq<Option<UnitId>>) returns (members: seq<UnitId>, subs: seq<UnitId>)
    ensures members == Members(items) && subs == NonNull(items)
  {
    members := [];
    subs := [];
    var k := 0;
    while k < |items|
      invariant 0 <= k <= |items|
      invariant members == Members(items[..k])
      invariant subs == NonNull(items[..k])
    {
      assert items[..k + 1][..k] == items[..k];
      var item := items[k];
      assert NonNull(items[..k + 1]) == NonNull(items[..k]) + (if item.Some? then [item.value] else []);
      assert Members(items[..k + 1]) == members + (if item.Some? && item.value !in members then [item.value] else []);
      if item.Some? {
        if item.value !in members {
          members := members + [item.value];
        }
        subs := subs + [item.value];
      }
      k := k + 1;
    }
    assert items[..k] == items;
  }

  class UnitSquad {
    /** The members (the HashSet), each once. */
    var units: seq<UnitId>
    /** The squad's handlers on its units' OnDie and OnHealthChanges: one entry per subscription, in order. */
    var dieSubs: seq<UnitId>
    var healthSubs: seq<UnitId>
    /** Everything the squad raised, in order. */
    var events: seq<SquadEvent>
    /** Everything the squad asked of its units, in order. */
    var calls: seq<UnitCall>

    predicate Valid()
      reads this
    {
      Distinct(units)
    }

    /** ControllableUnits: the members. */
    function ControllableUnits(): (r: seq<UnitId>)
      reads this
      requires Valid()
      ensures Distinct(r) && multiset(r) == multiset(units)
    {
      units
    }

    constructor Init(members: seq<UnitId>, subs: seq<UnitId>)
      requires Distinct(members)
      ensures Valid()
      ensures units == members && dieSubs == subs && healthSubs == subs && events == [] && calls == []
    {
      units := members;
      dieSubs := subs;
      healthSubs := subs;
      events := [];
      calls := [];
    }

    /**
     * The constructor: a null collection throws; otherwise every non-null
     * unit joins the set and the squad subscribes to its death and its
     * health changes. A unit listed twice is held once but subscribed twice.
     */
    static method Create(source: Option<seq<Option<UnitId>>>) returns (r: Outcome, squad: UnitSquad?)
      ensures r.Fail? <==> source.None?
      ensures r.Fail? ==> r.error == ArgumentNull && squad == null
      ensures r.Done? ==> squad != null && fresh(squad) && squad.Valid()
      ensures r.Done? ==> squad.units == Members(source.value)
                          && squad.dieSubs == NonNull(source.value)
                          && squad.healthSubs == NonNull(source.value)
                          && squad.events == [] && squad.calls == []
    {
      if source.None? {
        return Fail(ArgumentNull), null;
      }
      var members, subs := CollectMembers(source.value);
      squad := new UnitSquad.Init(members, subs);
      r := Done;
    }

    /**
     * GetChangedHealthArgs: the summed heal points and maxima of the
     * members, and the fullness ΣHP / ΣMax when ΣHP is positive and ΣMax is
     * not zero, 0 otherwise, through the validating constructor.
     */
    method GetChangedHealthArgs(hpOf: UnitId -> int, maxOf: UnitId -> int) returns (r: Result<ChangedHealthArgs>)
      ensures r == HealthArgs(units, hpOf, maxOf)
    {
      var health := 0;
      var healthMax := 0;
      var k := 0;
      while k < |units|
        invariant 0 <= k <= |units|
        invariant health == HealthSum(units[..k], hpOf)
        invariant healthMax == HealthMaxSum(units[..k], maxOf)
      {
        assert units[..k + 1][..k] == units[..k];
        health := health + hpOf(units[k]);
        healthMax := healthMax + maxOf(units[k]);
        k := k + 1;
      }
      assert units[..k] == units;
      var fullness := if health > 0 && healthMax != 0 then health as real / healthMax as real else 0.0;
      r := NewChangedHealthArgs(health, fullness, "");
    }

    /** OnUnitHealthChangesHandler: raise the squad's recomputed health. */
    method OnUnitHealthChanges(hpOf: UnitId -> int, maxOf: UnitId -> int) returns (r: Outcome)
      requires Valid()
      modifies this`events
      ensures Valid()
      ensures var args := HealthArgs(units, hpOf, maxOf);
              (args.Err? ==> r == Fail(args.error) && events == old(events))
              && (args.Ok? ==> r == Done && events == old(events) + [HealthChanged(args.value)])
    {
      var args := GetChangedHealthArgs(hpOf, maxOf);
      if args.Err? {
        return Fail(args.error);
      }
      events := events + [HealthChanged(args.value)];
      r := Done;
    }

    /**
     * OnUnitDieHandler: the squad stops listening to the dead unit and drops
     * it; while members remain it raises their recomputed health, and when
     * none remain it raises OnStopShowing and then OnDie.
     */
    method OnUnitDie(died: UnitId, hpOf: UnitId -> int, maxOf: UnitId -> int) returns (r: Outcome)
      requires Valid()
      modifies this
      ensures Valid()
      ensures units == Without(old(units), died) && calls == old(calls)
      ensures dieSubs == RemoveLast(old(dieSubs), died) && healthSubs == RemoveLast(old(healthSubs), died)
      ensures units == [] ==> r == Done && events == old(events) + [StopShowing, Died]
      ensures var args := HealthArgs(units, hpOf, maxOf);
              units != [] ==>
                (args.Err? ==> r == Fail(args.error) && events == old(events))
                && (args.Ok? ==> r == Done && events == old(events) + [HealthChanged(args.value)])
    {
      dieSubs := RemoveLast(dieSubs, died);
      healthSubs := RemoveLast(healthSubs, died);
      units := Without(units, died);
      if |units| > 0 {
        r := OnUnitHealthChanges(hpOf, maxOf);
      } else {
        events := events + [StopShowing, Died];
        r := Done;
      }
    }

    /** The ForEach over the members: each is told SetSelected(selected), in order. */
    method TellMembers(selected: bool)
      modifies this`calls
      ensures calls == old(calls) + SelectAll(units, selected)
    {
      var k := 0;
      while k < |units|
        invariant 0 <= k <= |units|
        invariant calls == old(calls) + SelectAll(units[..k], selected)
      {
        assert units[..k + 1][..k] == units[..k];
        calls := calls + [Select(units[k], selected)];
        k := k + 1;
      }
      assert units[..k] == units;
    }

    /** SetSelected as written: whatever the argument, every member is told to be selected. */
    method SetSelected(selected: bool)
      modifies this`calls
      ensures calls == old(calls) + SelectAll(units, true)
    {
      TellMembers(true);
    }

    /** SetSelected as evidently intended: every member is told the argument. */
    method SetSelectedCorrected(selected: bool)
      modifies this`calls
      ensures calls == old(calls) + SelectAll(units, selected)
    {
      TellMembers(selected);
    }

    /** Dispose: for every member, drop one death and one health subscription and deselect it. */
    method Dispose()
      modifies this`dieSubs, this`healthSubs, this`calls
      ensures dieSubs == RemoveEach(old(dieSubs), units) && healthSubs == RemoveEach(old(healthSubs), units)
      ensures calls == old(calls) + SelectAll(units, false)
    {
      var members, die, health, made := units, dieSubs, healthSubs, calls;
      var k := 0;
      while k < |members|
        invariant 0 <= k <= |members|
        invariant die == RemoveEach(dieSubs, members[..k])
        invariant health == RemoveEach(healthSubs, members[..k])
        invariant made == calls + SelectAll(members[..k], false)
      {
        assert members[..k + 1][..k] == members[..k];
        die := RemoveLast(die, members[k]);
        health := RemoveLast(health, members[k]);
        made := made + [Select(members[k], false)];
        k := k + 1;
      }
      assert members[..k] == members;
      dieSubs, healthSubs, calls := die, health, made;
    }
  }

  /**
   * As written, SetSelected(false) on a squad with a member tells that
   * member it is selected, where the corrected call deselects it.
   */
  lemma {:induction false} DeselectingSquadSelects(s: seq<UnitId>)
    requires s != []
    ensures SelectAll(s, true)[0] == Select(s[0], true)
    ensures SelectAll(s, false)[0] == Select(s[0], false)
    ensures SelectAll(s, true) != SelectAll(s, false)
  {
    assert SelectAll(s, true)[0] != SelectAll(s, false)[0];
  }

  /**
   * A squad built from a source that lists every unit once is left with no
   * subscription after Dispose; a unit listed twice keeps one.
   */
  lemma DisposeDropsAllSubscriptions(items: seq<Option<UnitId>>)
    requires Distinct(NonNull(items))
    ensures RemoveEach(NonNull(items), Members(items)) == []
  {
    DistinctSourceSubscribesOnce(items);
    RemoveEachCounts(NonNull(items), Members(items));
    assert multiset(RemoveEach(NonNull(items), Members(items))) == multiset{};
  }

  lemma DuplicateKeepsSubscription()
    ensures RemoveEach(NonNull([Some(7), Some(7)]), Members([Some(7), Some(7)])) == [7]
  {
    assert [Some(7), Some(7)][..1] == [Some(7)];
    assert NonNull([Some(7)]) == [7];
    assert Members([Some(7)]) == [7];
    assert NonNull([Some(7), Some(7)]) == [7, 7];
    assert Members([Some(7), Some(7)]) == [7];
  }

  /** A squad built from a source in which every unit is listed once holds its subscriptions once per member. */
  lemma {:induction false} DistinctSourceSubscribesOnce(items: seq<Option<UnitId>>)
    requires Distinct(NonNull(items))
    ensures multiset(NonNull(items)) == multiset(Members(items))
  {
    if items != [] {
      var prefix := items[..|items| - 1];
      assert Distinct(NonNull(prefix)) by {
        assert NonNull(items)[..|NonNull(prefix)|] == NonNull(prefix);
      }
      DistinctSourceSubscribesOnce(prefix);
      var last := items[|items| - 1];
      if last.Some? {
        var n := NonNull(prefix);
        assert NonNull(items) == n + [last.value];
        assert last.value !in n by {
          forall i | 0 <= i < |n|
            ensures n[i] != last.value
          {
            assert NonNull(items)[i] == n[i] && NonNull(items)[|n|] == last.value;
          }
        }
        MembersAreTheNamedUnits(prefix);
        assert last.value !in Members(prefix);
      }
    }
  }
}

/**
 * MouseSelector, the player's mouse: a state machine with two states,
 * SelectAndMove (pick one object by a click or several by dragging a box,
 * and order the selected units around with the right button) and
 * SelectTargetForSkill (pick the target of the selected hero's skill).
 * Exactly one state is installed once the selector is injected, and the
 * state it replaces is disposed first. The camera, the cursor, raycasts and
 * the clock are parameters; what the selector does to other objects (units,
 * squads, the cursor, the pool, its listeners) is recorded as a call log.
 */
module Selection {
  import opened Wrappers
  import opened Geometry
  import opened Targets
  import opened PointCheckers
  import opened KDTreeSpec
  import opened KDTrees
  import opened Keepers
  import opened Delegates
  import opened Combat
  import opened Skills
  import opened Squads

  /** SelectAndMoveState.DEFAULT_SINGLE_CLICK_DELAY: a release within 0.1 s of the press is a click. */
  const SingleClickDelay: real := 0.1

  /** A cursor position on the screen. */
  datatype ScreenPoint = ScreenPoint(x: real, y: real)

  /**
   * The ISelectable objects: units (a UnitFriendly is controllable and a
   * Hero is also skilled), squads made by a box pick (held by reference:
   * the squad object drops its dead members itself) and buildings.
   */
  datatype Selectable =
    | UnitSel(unit: UnitId, kind: UnitKind)
    | SquadSel(squad: UnitSquad)
    | BuildingSel(building: nat)

  /** IDying: units and squads. */
  predicate IsDying(s: Selectable) {
    !s.BuildingSel?
  }

  /** ISkilled: heroes. */
  predicate IsSkilled(s: Selectable) {
    s.UnitSel? && s.kind == HeroUnit
  }

  /**
   * What the selector keeps as its controllable units: a unit's own
   * one-element array, or the squad's live member set itself, so that a
   * member that dies and leaves the squad leaves the selection too.
   */
  datatype Controllable =
    | Units(units: seq<UnitId>)
    | SquadMembers(squad: UnitSquad)

  /** The objects a Controllable's members are read from. */
  function ControllableFrame(c: Controllable): set<object> {
    if c.SquadMembers? then {c.squad} else {}
  }

  /** IPlayerControllableUnits.ControllableUnits: a friendly unit itself, or a squad's members. */
  function ControllableOf(s: Selectable): (r: Option<Controllable>)
    ensures r.Some? <==> s.SquadSel? || (s.UnitSel? && s.kind != EnemyUnit)
    ensures s.UnitSel? && r.Some? ==> r.value == Units([s.unit])
    ensures s.SquadSel? ==> r.value.SquadMembers? && r.value.squad == s.squad
  {
    match s
    case UnitSel(u, kind) => if kind == EnemyUnit then None else Some(Units([u]))
    case SquadSel(squad) => Some(SquadMembers(squad))
    case BuildingSel(_) => None
  }

  /** The subscriptions SetLastSelected keeps: the selected object's OnDie and OnSelectingSkillTarget. */
  function DieSubsOf(sel: Option<Selectable>): seq<Selectable> {
    if sel.Some? && IsDying(sel.value) then [sel.value] else []
  }

  function SkillSubsOf(sel: Option<Selectable>): seq<Selectable> {
    if sel.Some? && IsSkilled(sel.value) then [sel.value] else []
  }

  /** What the selector does to other objects and to its listeners, in order. */
  datatype SelectorCall =
    | UnitSelected(unit: UnitId, selected: bool)          // Unit.SetSelected on a controllable unit
    | SelectableSelected(sel: Selectable, selected: bool) // ISelectable.SetSelected on the last selected
    | SquadCreated(sel: Selectable)                       // new UnitSquad
    | SquadDisposed(sel: Selectable)                      // UnitSquad.Dispose
    | OnSelect(selection: Option<Selectable>)
    | SelectionEnd                                        // OnSelectionEnd
    | SelectionDrawing(start: Vec3, end: ScreenPoint)     // OnSelectionDrawing
    | TargetSetManually(unit: UnitId, target: Option<Target>)
    | PositionMarker(point: Vec3)                         // a marker taken from the pool
    | CursorReset
    | CursorSetup(skill: nat)
    | AccessoryTaken(obj: nat)                            // ObjectsPool.GetOrCreate
    | AccessoryReturned(obj: nat)                         // DestroyAsPoolableObject
    | Highlight(highlighted: Target, on: bool)               // HighlightTarget
    | UseSkillOn(owner: UnitId, skill: nat, target: Option<Target>) // SetTargetForUsingSkill
    | CancelSelectingOf(owner: UnitId)                    // ISkilled.CancelSelecting

  /** Unit.SetSelected on each unit, in order. */
  function UnitCalls(units: seq<UnitId>, selected: bool): (r: seq<SelectorCall>)
    ensures |r| == |units| && forall i :: 0 <= i < |units| ==> r[i] == UnitSelected(units[i], selected)
  {
    seq(|units|, i requires 0 <= i < |units| => UnitSelected(units[i], selected))
  }

  /** SetTargetManually on each unit, in order. */
  function TargetCalls(units: seq<UnitId>, target: Option<Target>): (r: seq<SelectorCall>)
    ensures |r| == |units| && forall i :: 0 <= i < |units| ==> r[i] == TargetSetManually(units[i], target)
  {
    seq(|units|, i requires 0 <= i < |units| => TargetSetManually(units[i], target))
  }

  /** DestroyAsPoolableObject on each accessory, in order. */
  function ReturnCalls(objs: seq<nat>): (r: seq<SelectorCall>)
    ensures |r| == |objs| && forall i :: 0 <= i < |objs| ==> r[i] == AccessoryReturned(objs[i])
  {
    seq(|objs|, i requires 0 <= i < |objs| => AccessoryReturned(objs[i]))
  }

  /** SetLastSelected's calls on the object it deselects: SetSelected(false), then Dispose for a squad. */
  function DeselectCalls(last: Option<Selectable>): seq<SelectorCall> {
    if last.None? then []
    else [SelectableSelected(last.value, false)] + (if last.value.SquadSel? then [SquadDisposed(last.value)] else [])
  }

  /** SetLastSelected's call on the object it selects. */
  function SelectCalls(sel: Option<Selectable>): seq<SelectorCall> {
    if sel.None? then [] else [SelectableSelected(sel.value, true)]
  }

  /** SkillTargetArgs: a cancellation, or the owner, skill and targeting mode of a skill to aim. */
  datatype SkillTargetArgs =
    | Cancelation
    | Selecting(owner: Option<UnitId>, skill: Option<nat>, mode: TargetingMode)

  /** A SkillTargetingMode as the selector sees it: its kind and which optional assets it has. */
  datatype TargetingMode = TargetingMode(kind: TargetingKind, hasHelperPrefab: bool, hasCursorTexture: bool)

  class SelectAndMoveState {
    var lastClickTime: real
    var isSelectionStarted: bool
    var mouseStartInput: ScreenPoint
    var mouseStartWorldPosition: Vec3

    constructor ()
      ensures !isSelectionStarted
    {
      lastClickTime := 0.0;
      isSelectionStarted := false;
      mouseStartInput := ScreenPoint(0.0, 0.0);
      mouseStartWorldPosition := Vec3(0.0, 0.0, 0.0);
    }
  }

  class SelectTargetForSkillState {
    const skillOwner: UnitId
    const skill: nat
    const mode: TargetingKind
    /** accessoryObjects: the helpers taken from the pool for this state. */
    var accessoryObjects: seq<nat>
    var lastTargetUnderCursor: Option<Target>

    constructor (skillOwner: UnitId, skill: nat, mode: TargetingKind)
      ensures this.skillOwner == skillOwner && this.skill == skill && this.mode == mode
      ensures accessoryObjects == [] && lastTargetUnderCursor == None
    {
      this.skillOwner := skillOwner;
      this.skill := skill;
      this.mode := mode;
      accessoryObjects := [];
      lastTargetUnderCursor := None;
    }
  }

  class MouseSelector {
    /** The injected UnitsKeeper. */
    const keeper: UnitsKeeper
    /** Whether positionMarkerPrefab is set. */
    const hasMarkerPrefab: bool
    /** The installed state: at most one of the two is set. */
    var moveState: SelectAndMoveState?
    var skillState: SelectTargetForSkillState?
    /** updateAction: the state whose HighlightTargetsUnderCursor runs every frame, or null. */
    var updateAction: SelectTargetForSkillState?
    var isBlockedSelection: bool
    /** selectedControllableUnits: a reference to the selection's units, not a copy. */
    var controllable: Controllable
    var lastSelected: Option<Selectable>
    /** The objects whose OnDie, and whose OnSelectingSkillTarget, the selector listens to. */
    var dieSubs: seq<Selectable>
    var skillSubs: seq<Selectable>
    var accessoriesTaken: nat
    var calls: seq<SelectorCall>

    /**
     * The states are exclusive; the selector listens to exactly the
     * current selection's death and skill aiming; and a per-frame highlight
     * is always that of a state aiming at a unit, and none runs in
     * SelectAndMove. It need not be the installed state's: a later skill
     * state aimed elsewhere leaves it running.
     */
    ghost predicate Valid()
      reads this
    {
      ValidExceptHighlight()
      && (updateAction != null ==> moveState == null && updateAction.mode == UnitTargeting)
    }

    ghost predicate ValidExceptHighlight()
      reads this`moveState, this`skillState, this`dieSubs, this`skillSubs, this`lastSelected
    {
      (moveState == null || skillState == null)
      && dieSubs == DieSubsOf(lastSelected) && skillSubs == SkillSubsOf(lastSelected)
    }

    /** The units selectedControllableUnits enumerates now: for a squad, its current members. */
    function SelectedUnits(): (r: seq<UnitId>)
      reads this, ControllableFrame(controllable)
    {
      match controllable
      case Units(units) => units
      case SquadMembers(squad) => squad.units
    }

    /** Before OnInjected: no state, nothing selected. */
    constructor (keeper: UnitsKeeper, hasMarkerPrefab: bool)
      ensures Valid() && this.keeper == keeper && this.hasMarkerPrefab == hasMarkerPrefab
      ensures moveState == null && skillState == null && updateAction == null && !isBlockedSelection
      ensures controllable == Units([]) && lastSelected == None && calls == []
    {
      this.keeper := keeper;
      this.hasMarkerPrefab := hasMarkerPrefab;
      moveState := null;
      skillState := null;
      updateAction := null;
      isBlockedSelection := false;
      controllable := Units([]);
      lastSelected := None;
      dieSubs := [];
      skillSubs := [];
      accessoriesTaken := 0;
      calls := [];
    }

    /** OnSelectionBlockHandler. */
    method OnSelectionBlock(block: bool)
      requires Valid()
      modifies this`isBlockedSelection
      ensures Valid() && isBlockedSelection == block
    {
      isBlockedSelection := block;
    }

    // ------------------------------------------------------------ selection

    /** SetLastSelected: the previous selection is released (a squad disposed), then the new one taken. */
    method SetLastSelected(sel: Option<Selectable>)
      requires ValidExceptHighlight()
      modifies this`lastSelected, this`dieSubs, this`skillSubs, this`calls
      ensures ValidExceptHighlight() && lastSelected == sel
      ensures calls == old(calls) + DeselectCalls(old(lastSelected)) + SelectCalls(sel)
    {
      ReleaseLast();
      TakeSelected(sel);
    }

    /** The first half of SetLastSelected: the previous selection is deselected and unsubscribed, a squad disposed. */
    method ReleaseLast()
      requires ValidExceptHighlight()
      modifies this`dieSubs, this`skillSubs, this`calls
      ensures dieSubs == [] && skillSubs == []
      ensures calls == old(calls) + DeselectCalls(lastSelected)
    {
      if lastSelected.Some? {
        var last := lastSelected.value;
        calls := calls + [SelectableSelected(last, false)];
        if IsDying(last) {
          dieSubs := RemoveLast(dieSubs, last);
        }
        if IsSkilled(last) {
          skillSubs := RemoveLast(skillSubs, last);
        }
        if last.SquadSel? {
          calls := calls + [SquadDisposed(last)];
        }
      }
    }

    /** The second half of SetLastSelected: the new selection is selected and subscribed to. */
    method TakeSelected(sel: Option<Selectable>)
      requires dieSubs == [] && skillSubs == [] && (moveState == null || skillState == null)
      modifies this`lastSelected, this`dieSubs, this`skillSubs, this`calls
      ensures ValidExceptHighlight() && lastSelected == sel
      ensures calls == old(calls) + SelectCalls(sel)
    {
      lastSelected := sel;
      if sel.Some? {
        calls := calls + [SelectableSelected(sel.value, true)];
        if IsDying(sel.value) {
          dieSubs := dieSubs + [sel.value];
        }
        if IsSkilled(sel.value) {
          skillSubs := skillSubs + [sel.value];
        }
      }
    }

    /** The ForEach of ClearSelected: every controllable unit is told it is no longer selected. */
    method DeselectUnits(units: seq<UnitId>)
      modifies this`calls
      ensures calls == old(calls) + UnitCalls(units, false)
    {
      var log := calls;
      var i := 0;
      while i < |units|
        invariant 0 <= i <= |units|
        invariant log == old(calls) + UnitCalls(units[..i], false)
      {
        assert UnitCalls(units[..i + 1], false) == UnitCalls(units[..i], false) + [UnitSelected(units[i], false)];
        log := log + [UnitSelected(units[i], false)];
        i := i + 1;
      }
      assert units[..i] == units;
      calls := log;
    }

    /** ClearSelected: the units are deselected and forgotten, the selection released, OnSelect(null) raised. */
    method ClearSelected()
      requires Valid()
      modifies this`controllable, this`lastSelected, this`dieSubs, this`skillSubs, this`calls
      ensures Valid()
      ensures controllable == Units([]) && lastSelected == None && dieSubs == [] && skillSubs == []
      ensures calls == old(calls) + UnitCalls(old(SelectedUnits()), false)
                       + DeselectCalls(old(lastSelected)) + [OnSelect(None)]
    {
      DeselectUnits(SelectedUnits());
      controllable := Units([]);
      SetLastSelected(None);
      calls := calls + [OnSelect(None)];
    }

    /** Select: null throws; otherwise the object becomes the selection and, if it has units, they become controllable. */
    method Select(sel: Option<Selectable>) returns (r: Outcome)
      requires Valid()
      modifies this`controllable, this`lastSelected, this`dieSubs, this`skillSubs, this`calls
      ensures Valid()
      ensures r.Fail? <==> sel.None?
      ensures r.Fail? ==> r.error == ArgumentNull && unchanged(this)
      ensures r.Done? ==> lastSelected == sel
      ensures r.Done? ==>
                controllable ==
                  (if ControllableOf(sel.value).Some? then ControllableOf(sel.value).value else old(controllable))
      ensures r.Done? ==> calls == old(calls) + DeselectCalls(old(lastSelected)) + SelectCalls(sel) + [OnSelect(sel)]
    {
      if sel.None? {
        return Fail(ArgumentNull);
      }
      SetLastSelected(sel);
      var units := ControllableOf(sel.value);
      if units.Some? {
        controllable := units.value;
      }
      calls := calls + [OnSelect(sel)];
      r := Done;
    }

    /** OnDieSelected: null throws; the selection is cleared only when it is the object that died. */
    method OnDieSelected(died: Option<Selectable>) returns (r: Outcome)
      requires Valid()
      modifies this`controllable, this`lastSelected, this`dieSubs, this`skillSubs, this`calls
      ensures Valid()
      ensures r.Fail? <==> died.None?
      ensures r.Fail? ==> r.error == ArgumentNull
      ensures died.None? || old(lastSelected) != died ==> unchanged(this)
      ensures died.Some? && old(lastSelected) == died ==>
                lastSelected == None && controllable == Units([])
                && calls == old(calls) + UnitCalls(old(SelectedUnits()), false)
                            + DeselectCalls(died) + [OnSelect(None)]
    {
      if died.None? {
        return Fail(ArgumentNull);
      }
      if lastSelected == died {
        ClearSelected();
      }
      r := Done;
    }

    // ------------------------------------------------------------ states

    /** ResetLastTarget: the remembered target is un-highlighted and forgotten, unless it is the owner's own target. */
    method ResetLastTarget(s: SelectTargetForSkillState, targetOf: UnitId -> Option<Target>)
      modifies this`calls, s`lastTargetUnderCursor
      ensures old(s.lastTargetUnderCursor).None? || targetOf(s.skillOwner) == old(s.lastTargetUnderCursor) ==>
                calls == old(calls) && s.lastTargetUnderCursor == old(s.lastTargetUnderCursor)
      ensures old(s.lastTargetUnderCursor).Some? && targetOf(s.skillOwner) != old(s.lastTargetUnderCursor) ==>
                calls == old(calls) + [Highlight(old(s.lastTargetUnderCursor).value, false)]
                && s.lastTargetUnderCursor == None
    {
      if s.lastTargetUnderCursor.None? || targetOf(s.skillOwner) == s.lastTargetUnderCursor {
        return;
      }
      calls := calls + [Highlight(s.lastTargetUnderCursor.value, false)];
      s.lastTargetUnderCursor := None;
    }

    /** The ForEach of Dispose: every accessory goes back to the pool. */
    method ReturnAccessories(objs: seq<nat>)
      modifies this`calls
      ensures calls == old(calls) + ReturnCalls(objs)
    {
      var log := calls;
      var i := 0;
      while i < |objs|
        invariant 0 <= i <= |objs|
        invariant log == old(calls) + ReturnCalls(objs[..i])
      {
        assert ReturnCalls(objs[..i + 1]) == ReturnCalls(objs[..i]) + [AccessoryReturned(objs[i])];
        log := log + [AccessoryReturned(objs[i])];
        i := i + 1;
      }
      assert objs[..i] == objs;
      calls := log;
    }

    /** SelectTargetForSkillState.Dispose: reset the highlighted target, return the accessories. */
    method DisposeSkillState(s: SelectTargetForSkillState, targetOf: UnitId -> Option<Target>)
      modifies this`calls, s`lastTargetUnderCursor
      ensures old(s.lastTargetUnderCursor).None? || targetOf(s.skillOwner) == old(s.lastTargetUnderCursor) ==>
                calls == old(calls) + ReturnCalls(s.accessoryObjects)
                && s.lastTargetUnderCursor == old(s.lastTargetUnderCursor)
      ensures old(s.lastTargetUnderCursor).Some? && targetOf(s.skillOwner) != old(s.lastTargetUnderCursor) ==>
                calls == old(calls) + [Highlight(old(s.lastTargetUnderCursor).value, false)] + ReturnCalls(s.accessoryObjects)
                && s.lastTargetUnderCursor == None
    {
      ResetLastTarget(s, targetOf);
      ReturnAccessories(s.accessoryObjects);
    }

    /** SetState's first step: the installed state is disposed (SelectAndMoveState has nothing to release). */
    method DisposeState(targetOf: UnitId -> Option<Target>)
      modifies this`calls, skillState
      ensures skillState == null ==> calls == old(calls)
      ensures skillState != null ==> skillState.accessoryObjects == old(skillState.accessoryObjects)
      ensures skillState != null && (old(skillState.lastTargetUnderCursor).None?
                                     || targetOf(skillState.skillOwner) == old(skillState.lastTargetUnderCursor)) ==>
                calls == old(calls) + ReturnCalls(skillState.accessoryObjects)
      ensures skillState != null && old(skillState.lastTargetUnderCursor).Some?
              && targetOf(skillState.skillOwner) != old(skillState.lastTargetUnderCursor) ==>
                calls == old(calls) + [Highlight(old(skillState.lastTargetUnderCursor).value, false)]
                         + ReturnCalls(skillState.accessoryObjects)
    {
      if skillState != null {
        DisposeSkillState(skillState, targetOf);
      }
    }

    /**
     * ResetState: nothing when SelectAndMove is installed; otherwise the
     * skill state is disposed, a new SelectAndMove state installed, the
     * cursor reset and the per-frame action removed.
     */
    method ResetState(targetOf: UnitId -> Option<Target>)
      requires Valid()
      modifies this`moveState, this`skillState, this`updateAction, this`calls, skillState
      ensures Valid()
      ensures old(moveState) != null ==> unchanged(this)
      ensures old(moveState) == null ==>
                fresh(moveState) && !moveState.isSelectionStarted && skillState == null && updateAction == null
      ensures old(moveState) == null && old(skillState) == null ==> calls == old(calls) + [CursorReset]
      ensures old(moveState) == null && old(skillState) != null ==>
                old(calls) < calls && calls[|calls| - 1] == CursorReset
                && (old(skillState.lastTargetUnderCursor).None?
                    || targetOf(old(skillState).skillOwner) == old(skillState.lastTargetUnderCursor) ==>
                      calls == old(calls) + ReturnCalls(old(skillState).accessoryObjects) + [CursorReset])
    {
      if moveState != null {
        return;
      }
      var next := new SelectAndMoveState();
      DisposeState(targetOf);
      moveState := next;
      skillState := null;
      calls := calls + [CursorReset];
      updateAction := null;
    }

    /** OnInjected: the input subscriptions are not modelled; the selector enters SelectAndMove. */
    method OnInjected(targetOf: UnitId -> Option<Target>)
      requires Valid() && moveState == null && skillState == null
      modifies this`moveState, this`skillState, this`updateAction, this`calls
      ensures Valid() && fresh(moveState) && skillState == null && calls == old(calls) + [CursorReset]
    {
      ResetState(targetOf);
    }

    /** The calls of the SelectTargetForSkillState constructor's Handle for a mode. */
    static function HandleCalls(mode: TargetingMode, skill: nat, taken: nat): seq<SelectorCall> {
      match mode.kind
      case AreaTargeting => [CursorReset] + (if mode.hasHelperPrefab then [AccessoryTaken(taken)] else [])
      case UnitTargeting => (if mode.hasCursorTexture then [CursorSetup(skill)] else [])
                            + (if mode.hasHelperPrefab then [AccessoryTaken(taken)] else [])
      case SelfTargeting => []
    }

    /**
     * The Handle methods as intended: as HandleModeAsWritten, but only the
     * unit mode leaves a per-frame action; the others remove the one a
     * previous skill state installed.
     */
    method HandleMode(s: SelectTargetForSkillState, mode: TargetingMode)
      requires s.mode == mode.kind && s.accessoryObjects == []
      modifies this`calls, this`updateAction, this`accessoriesTaken, s`accessoryObjects
      ensures calls == old(calls) + HandleCalls(mode, s.skill, old(accessoriesTaken))
      ensures mode.hasHelperPrefab && mode.kind != SelfTargeting ==>
                s.accessoryObjects == [old(accessoriesTaken)] && accessoriesTaken == old(accessoriesTaken) + 1
      ensures !(mode.hasHelperPrefab && mode.kind != SelfTargeting) ==>
                s.accessoryObjects == [] && accessoriesTaken == old(accessoriesTaken)
      ensures updateAction == (if mode.kind == UnitTargeting then s else null)
    {
      updateAction := null;
      match mode.kind {
        case AreaTargeting =>
          calls := calls + [CursorReset];
          if mode.hasHelperPrefab {
            TakeAccessory(s);
          }
        case UnitTargeting =>
          if mode.hasCursorTexture {
            calls := calls + [CursorSetup(s.skill)];
          }
          if mode.hasHelperPrefab {
            TakeAccessory(s);
          }
          updateAction := s;
        case SelfTargeting =>
      }
    }

    /**
     * The Handle methods as written: the area mode resets the cursor and
     * takes the area indicator from the pool; the unit mode sets the
     * skill's cursor, takes the range indicator and installs its per-frame
     * highlighting. The area and self modes leave whatever per-frame action
     * was installed.
     */
    method HandleModeAsWritten(s: SelectTargetForSkillState, mode: TargetingMode)
      requires s.mode == mode.kind && s.accessoryObjects == []
      modifies this`calls, this`updateAction, this`accessoriesTaken, s`accessoryObjects
      ensures calls == old(calls) + HandleCalls(mode, s.skill, old(accessoriesTaken))
      ensures updateAction == (if mode.kind == UnitTargeting then s else old(updateAction))
    {
      match mode.kind {
        case AreaTargeting =>
          calls := calls + [CursorReset];
          if mode.hasHelperPrefab {
            TakeAccessory(s);
          }
        case UnitTargeting =>
          if mode.hasCursorTexture {
            calls := calls + [CursorSetup(s.skill)];
          }
          if mode.hasHelperPrefab {
            TakeAccessory(s);
          }
          updateAction := s;
        case SelfTargeting =>
      }
    }

    /** ObjectsPool.GetOrCreate of a helper, which the state keeps among its accessories. */
    method TakeAccessory(s: SelectTargetForSkillState)
      modifies this`calls, this`accessoriesTaken, s`accessoryObjects
      ensures calls == old(calls) + [AccessoryTaken(old(accessoriesTaken))]
      ensures s.accessoryObjects == old(s.accessoryObjects) + [old(accessoriesTaken)]
      ensures accessoriesTaken == old(accessoriesTaken) + 1
    {
      calls := calls + [AccessoryTaken(accessoriesTaken)];
      s.accessoryObjects := s.accessoryObjects + [accessoriesTaken];
      accessoriesTaken := accessoriesTaken + 1;
    }

    /** The SelectTargetForSkillState constructor: a missing owner or skill throws before anything happens. */
    method NewSkillState(owner: Option<UnitId>, skill: Option<nat>, mode: TargetingMode)
      returns (r: Result<SelectTargetForSkillState>)
      modifies this`calls, this`updateAction, this`accessoriesTaken
      ensures r.Err? <==> owner.None? || skill.None?
      ensures r.Err? ==> r.error == NullReference && unchanged(this)
      ensures r.Ok? ==> fresh(r.value) && r.value.skillOwner == owner.value && r.value.skill == skill.value
                        && r.value.mode == mode.kind && r.value.lastTargetUnderCursor == None
      ensures r.Ok? ==> calls == old(calls) + HandleCalls(mode, skill.value, old(accessoriesTaken))
      ensures r.Ok? ==> updateAction == (if mode.kind == UnitTargeting then r.value else old(updateAction))
    {
      if owner.None? || skill.None? {
        return Err(NullReference);
      }
      var s := new SelectTargetForSkillState(owner.value, skill.value, mode.kind);
      HandleModeAsWritten(s, mode);
      r := Ok(s);
    }

    /**
     * OnSelectingSkillTargetHandler: a null argument throws, a cancellation
     * resets the state, and a selection builds the skill state and installs
     * it, disposing the previous state. A new state not aimed at a unit
     * keeps the previous per-frame action.
     */
    method OnSelectingSkillTarget(args: Option<SkillTargetArgs>, targetOf: UnitId -> Option<Target>) returns (r: Outcome)
      requires Valid()
      modifies this`moveState, this`skillState, this`updateAction, this`calls, this`accessoriesTaken, skillState
      ensures Valid()
      ensures r.Fail? <==> args.None? || (args.value.Selecting? && (args.value.owner.None? || args.value.skill.None?))
      ensures r.Fail? ==> r.error == NullReference && unchanged(this)
      ensures args == Some(Cancelation) ==> moveState != null && skillState == null && updateAction == null
      ensures r.Done? && args.value.Selecting? ==>
                moveState == null && fresh(skillState) && skillState.skillOwner == args.value.owner.value
                && skillState.skill == args.value.skill.value && skillState.mode == args.value.mode.kind
                && old(calls) + HandleCalls(args.value.mode, args.value.skill.value, old(accessoriesTaken)) <= calls
                && updateAction == (if args.value.mode.kind == UnitTargeting then skillState else old(updateAction))
    {
      if args.None? {
        return Fail(NullReference);
      }
      if args.value.Cancelation? {
        ResetState(targetOf);
        return Done;
      }
      var made := NewSkillState(args.value.owner, args.value.skill, args.value.mode);
      if made.Err? {
        return Fail(made.error);
      }
      DisposeState(targetOf);
      moveState := null;
      skillState := made.value;
      r := Done;
    }

    /**
     * OnSelectingSkillTargetHandler as intended, for a selection: the new
     * state's corrected Handle leaves a per-frame action exactly when it
     * aims at a unit, and then it is the installed state's.
     */
    method SelectSkillTargetCorrected(owner: UnitId, skill: nat, mode: TargetingMode, targetOf: UnitId -> Option<Target>)
      requires Valid()
      modifies this`moveState, this`skillState, this`updateAction, this`calls, this`accessoriesTaken, skillState
      ensures Valid()
      ensures moveState == null && fresh(skillState) && skillState.mode == mode.kind
      ensures updateAction == (if mode.kind == UnitTargeting then skillState else null)
    {
      var s := new SelectTargetForSkillState(owner, skill, mode.kind);
      HandleMode(s, mode);
      DisposeState(targetOf);
      moveState := null;
      skillState := s;
    }

    // ------------------------------------------------------------ SelectAndMove

    /** StartSelection: the press time is always kept; a blocked selection starts nothing. */
    method StartSelection(now: real, cursor: ScreenPoint, toWorld: ScreenPoint -> Vec3)
      requires Valid() && moveState != null
      modifies moveState
      ensures moveState.lastClickTime == now
      ensures isBlockedSelection ==> moveState.isSelectionStarted == old(moveState.isSelectionStarted)
                                     && moveState.mouseStartWorldPosition == old(moveState.mouseStartWorldPosition)
      ensures !isBlockedSelection ==> moveState.isSelectionStarted && moveState.mouseStartInput == cursor
                                      && moveState.mouseStartWorldPosition == toWorld(cursor)
    {
      moveState.lastClickTime := now;
      if isBlockedSelection {
        return;
      }
      moveState.isSelectionStarted := true;
      moveState.mouseStartInput := cursor;
      moveState.mouseStartWorldPosition := toWorld(cursor);
    }

    /** DrawSelection: OnSelectionDrawing only while a selection is started. */
    method DrawSelection(cursor: ScreenPoint, toScreen: Vec3 -> Vec3)
      requires Valid() && moveState != null
      modifies this`calls
      ensures !moveState.isSelectionStarted ==> calls == old(calls)
      ensures moveState.isSelectionStarted ==>
                calls == old(calls) + [SelectionDrawing(toScreen(moveState.mouseStartWorldPosition), cursor)]
    {
      if !moveState.isSelectionStarted {
        return;
      }
      calls := calls + [SelectionDrawing(toScreen(moveState.mouseStartWorldPosition), cursor)];
    }

    /** SelectOne: the selection is cleared, then the object hit under the press point, if selectable, selected. */
    method SelectOne(hit: Option<Selectable>)
      requires Valid()
      modifies this`controllable, this`lastSelected, this`dieSubs, this`skillSubs, this`calls
      ensures Valid() && lastSelected == hit
      ensures hit.None? ==> controllable == Units([])
      ensures hit.Some? ==>
                controllable ==
                  (if ControllableOf(hit.value).Some? then ControllableOf(hit.value).value else Units([]))
    {
      ClearSelected();
      if hit.Some? {
        var r := Select(hit);
      }
    }

    /**
     * SelectMany: the selection is cleared and the Friends units in the box
     * spanned by the press and release points are looked up: none selects
     * nothing, one selects that unit, more make a new squad of them.
     */
    method SelectMany(end: Vec3, kindOf: UnitId -> UnitKind, pos: UnitId -> Vec3) returns (ghost found: seq<UnitId>)
      requires Valid() && moveState != null && keeper.Valid()
      modifies this`controllable, this`lastSelected, this`dieSubs, this`skillSubs, this`calls
      ensures Valid()
      ensures forall u :: u in found ==>
                u in keeper.friends.Items()
                && IsInArea(InRectangle(Min3(moveState.mouseStartWorldPosition, end),
                                        Max3(moveState.mouseStartWorldPosition, end)), pos(u))
      ensures var box := InRectangle(Min3(moveState.mouseStartWorldPosition, end), Max3(moveState.mouseStartWorldPosition, end));
              Ordered(keeper.friends.nodes, pos) ==>
                forall u :: u in keeper.friends.Items() && IsInArea(box, pos(u)) ==> u in found
      ensures found == [] ==> lastSelected == None && controllable == Units([])
      ensures |found| == 1 ==> lastSelected == Some(UnitSel(found[0], kindOf(found[0])))
                               && (kindOf(found[0]) != EnemyUnit ==> controllable == Units([found[0]]))
      ensures |found| > 1 ==> lastSelected.Some? && lastSelected.value.SquadSel?
                              && fresh(lastSelected.value.squad) && lastSelected.value.squad.Valid()
                              && controllable == SquadMembers(lastSelected.value.squad)
                              && SelectedUnits() == Members(Wrap(found))
    {
      ClearSelected();
      var start := moveState.mouseStartWorldPosition;
      var units := keeper.GetUnitsByRegion(Friends, Min3(start, end), Max3(start, end), pos);
      found := units;
      if |units| == 0 {
        return;
      }
      var sel;
      if |units| > 1 {
        var made, squad := UnitSquad.Create(Some(Wrap(units)));
        sel := SquadSel(squad);
        calls := calls + [SquadCreated(sel)];
      } else {
        sel := UnitSel(units[0], kindOf(units[0]));
      }
      var r := Select(Some(sel));
    }

    /**
     * StopSelection: a started selection ends in a single pick when the
     * button is released within SingleClickDelay of the press and in a box
     * pick otherwise; the selection then stops and OnSelectionEnd is raised
     * whether or not one was started.
     */
    method StopSelection(now: real, end: Vec3, hit: Option<Selectable>, kindOf: UnitId -> UnitKind, pos: UnitId -> Vec3)
      returns (ghost found: seq<UnitId>)
      requires Valid() && moveState != null && keeper.Valid()
      modifies this`controllable, this`lastSelected, this`dieSubs, this`skillSubs, this`calls,
               moveState
      ensures Valid() && !moveState.isSelectionStarted && |calls| > 0 && calls[|calls| - 1] == SelectionEnd
      ensures !old(moveState.isSelectionStarted) ==>
                calls == old(calls) + [SelectionEnd] && lastSelected == old(lastSelected)
      ensures old(moveState.isSelectionStarted) && now - moveState.lastClickTime <= SingleClickDelay ==>
                lastSelected == hit
      ensures !(old(moveState.isSelectionStarted) && now - moveState.lastClickTime > SingleClickDelay) ==> found == []
      ensures old(moveState.isSelectionStarted) && now - moveState.lastClickTime > SingleClickDelay ==>
                var box := InRectangle(Min3(old(moveState.mouseStartWorldPosition), end),
                                       Max3(old(moveState.mouseStartWorldPosition), end));
                (forall u :: u in found ==> u in keeper.friends.Items() && IsInArea(box, pos(u)))
                && (Ordered(keeper.friends.nodes, pos) ==>
                      forall u :: u in keeper.friends.Items() && IsInArea(box, pos(u)) ==> u in found)
                && (found == [] ==> lastSelected == None)
                && (|found| == 1 ==> lastSelected == Some(UnitSel(found[0], kindOf(found[0]))))
                && (|found| > 1 ==> lastSelected.Some? && lastSelected.value.SquadSel?
                                    && SelectedUnits() == Members(Wrap(found)))
    {
      found := [];
      if moveState.isSelectionStarted {
        if now - moveState.lastClickTime <= SingleClickDelay {
          SelectOne(hit);
        } else {
          found := SelectMany(end, kindOf, pos);
        }
      }
      moveState.isSelectionStarted := false;
      calls := calls + [SelectionEnd];
    }

    /** The ForEach of SetTargetForSelectedControllableUnits: the same target for every selected unit. */
    method SetTargetForUnits(units: seq<UnitId>, target: Option<Target>)
      modifies this`calls
      ensures calls == old(calls) + TargetCalls(units, target)
    {
      var log := calls;
      var i := 0;
      while i < |units|
        invariant 0 <= i <= |units|
        invariant log == old(calls) + TargetCalls(units[..i], target)
      {
        assert TargetCalls(units[..i + 1], target) == TargetCalls(units[..i], target) + [TargetSetManually(units[i], target)];
        log := log + [TargetSetManually(units[i], target)];
        i := i + 1;
      }
      assert units[..i] == units;
      calls := log;
    }

    /**
     * MakeTarget: with no controllable units selected, nothing; otherwise
     * the collider's ITarget under the cursor (possibly none) or, when the
     * ray hits nothing, a PointTarget at the cursor's ground point with a
     * position marker, goes to every selected unit. `hit` is the raycast:
     * None for a miss, Some(the hit collider's ITarget) otherwise.
     */
    method MakeTarget(hit: Option<Option<Target>>, cursorWorld: Vec3)
      requires Valid()
      modifies this`calls
      ensures Valid()
      ensures SelectedUnits() == [] ==> calls == old(calls)
      ensures SelectedUnits() != [] && hit.Some? ==>
                calls == old(calls) + TargetCalls(SelectedUnits(), hit.value)
      ensures SelectedUnits() != [] && hit.None? ==>
                calls == old(calls) + (if hasMarkerPrefab then [PositionMarker(cursorWorld)] else [])
                         + TargetCalls(SelectedUnits(), Some(PointTarget(cursorWorld)))
    {
      var units := SelectedUnits();
      if units == [] {
        return;
      }
      var target;
      if hit.Some? {
        target := hit.value;
      } else {
        target := Some(PointTarget(cursorWorld));
        if hasMarkerPrefab {
          calls := calls + [PositionMarker(cursorWorld)];
        }
      }
      SetTargetForUnits(units, target);
    }

    // ------------------------------------------------------------ SelectTargetForSkill

    /**
     * CancelSelecting: the owner cancels its aiming, and the cancellation it
     * raises comes back to this selector, which resets its state, when the
     * selector still listens to the owner.
     */
    method CancelSelecting(targetOf: UnitId -> Option<Target>)
      requires Valid() && skillState != null
      modifies this`moveState, this`skillState, this`updateAction, this`calls, skillState
      ensures Valid()
      ensures old(calls) + [CancelSelectingOf(old(skillState).skillOwner)] <= calls
      ensures UnitSel(old(skillState).skillOwner, HeroUnit) in skillSubs ==>
                moveState != null && skillState == null && updateAction == null
      ensures UnitSel(old(skillState).skillOwner, HeroUnit) !in skillSubs ==>
                calls == old(calls) + [CancelSelectingOf(old(skillState).skillOwner)] && skillState == old(skillState)
    {
      var owner := skillState.skillOwner;
      calls := calls + [CancelSelectingOf(owner)];
      if UnitSel(owner, HeroUnit) in skillSubs {
        ResetState(targetOf);
      }
    }

    /**
     * TryMakeTargetForSkill: nothing while selection is blocked; otherwise
     * the target the skill's mode makes at the cursor is used only if the
     * skill accepts it, and using it cancels the aiming first. `made` is
     * that target and `correct` the skill's IsTargetCorrect of it.
     */
    method TryMakeTargetForSkill(made: Option<Target>, correct: bool, targetOf: UnitId -> Option<Target>)
      requires Valid() && skillState != null
      modifies this`moveState, this`skillState, this`updateAction, this`calls, skillState
      ensures Valid()
      ensures isBlockedSelection || !correct ==> unchanged(this)
      ensures !isBlockedSelection && correct ==>
                old(calls) + [UseSkillOn(old(skillState).skillOwner, old(skillState).skill, made)] <= calls
      ensures !isBlockedSelection && correct && UnitSel(old(skillState).skillOwner, HeroUnit) in skillSubs ==>
                moveState != null && skillState == null
    {
      if isBlockedSelection || !correct {
        return;
      }
      var owner := skillState.skillOwner;
      calls := calls + [UseSkillOn(owner, skillState.skill, made)];
      if UnitSel(owner, HeroUnit) in skillSubs {
        ResetState(targetOf);
      }
    }

    /**
     * HighlightTargetsUnderCursor: the remembered target is reset when the
     * target under the cursor differs from it or is no longer correct; a
     * correct target is highlighted and remembered. `target` is the
     * ITargetAttackable under the cursor and `correct` the skill's verdict.
     */
    method HighlightTargetsUnderCursor(s: SelectTargetForSkillState, target: Option<Target>, correct: bool,
                                       targetOf: UnitId -> Option<Target>)
      modifies this`calls, s`lastTargetUnderCursor
      ensures correct ==> s.lastTargetUnderCursor == target
      ensures !correct ==> s.lastTargetUnderCursor in {old(s.lastTargetUnderCursor), None}
      ensures s.lastTargetUnderCursor == old(s.lastTargetUnderCursor) && s.lastTargetUnderCursor.Some? && !correct ==>
                targetOf(s.skillOwner) == s.lastTargetUnderCursor
      ensures correct && target.Some? ==> |calls| > 0 && calls[|calls| - 1] == Highlight(target.value, true)
      ensures forall k :: |old(calls)| <= k < |calls| && calls[k].Highlight? && !calls[k].on ==>
                Some(calls[k].highlighted) != targetOf(s.skillOwner)
      ensures old(calls) <= calls
    {
      if s.lastTargetUnderCursor != target || (s.lastTargetUnderCursor.Some? && !correct) {
        ResetLastTarget(s, targetOf);
      }
      if correct {
        if target.Some? {
          calls := calls + [Highlight(target.value, true)];
        }
        s.lastTargetUnderCursor := target;
      }
    }

    /** Update: the installed per-frame action, if any. */
    method Update(target: Option<Target>, correct: bool, targetOf: UnitId -> Option<Target>)
      requires Valid()
      modifies this`calls, updateAction
      ensures Valid()
      ensures updateAction == null ==> calls == old(calls)
      ensures updateAction != null && correct ==> updateAction.lastTargetUnderCursor == target
    {
      if updateAction != null {
        HighlightTargetsUnderCursor(updateAction, target, correct, targetOf);
      }
    }

    // ------------------------------------------------------------ input dispatch

    /** OnMouseLeftDownHandler: the installed state's MouseLeftDown; before injection there is none. */
    method MouseLeftDown(now: real, cursor: ScreenPoint, toWorld: ScreenPoint -> Vec3, made: Option<Target>, correct: bool,
                         targetOf: UnitId -> Option<Target>) returns (r: Outcome)
      requires Valid()
      modifies this`moveState, this`skillState, this`updateAction, this`calls, moveState, skillState
      ensures Valid()
      ensures r.Fail? <==> old(moveState) == null && old(skillState) == null
      ensures r.Fail? ==> r.error == NullReference && unchanged(this)
      ensures old(moveState) != null ==> moveState == old(moveState) && moveState.lastClickTime == now && calls == old(calls)
    {
      if moveState != null {
        StartSelection(now, cursor, toWorld);
      } else if skillState != null {
        TryMakeTargetForSkill(made, correct, targetOf);
      } else {
        return Fail(NullReference);
      }
      r := Done;
    }

    /** OnMouseLeftUpHandler: StopSelection in SelectAndMove, nothing in SelectTargetForSkill. */
    method MouseLeftUp(now: real, end: Vec3, hit: Option<Selectable>, kindOf: UnitId -> UnitKind, pos: UnitId -> Vec3)
      returns (r: Outcome)
      requires Valid() && keeper.Valid()
      modifies this`controllable, this`lastSelected, this`dieSubs, this`skillSubs, this`calls,
               moveState
      ensures Valid()
      ensures r.Fail? <==> moveState == null && skillState == null
      ensures r.Fail? ==> r.error == NullReference
      ensures moveState == null ==> unchanged(this)
      ensures moveState != null ==> !moveState.isSelectionStarted && |calls| > 0 && calls[|calls| - 1] == SelectionEnd
    {
      if moveState != null {
        ghost var found := StopSelection(now, end, hit, kindOf, pos);
      } else if skillState == null {
        return Fail(NullReference);
      }
      r := Done;
    }

    /** OnMouseLeftPressedHandler: DrawSelection in SelectAndMove, nothing in SelectTargetForSkill. */
    method MouseLeftPressed(cursor: ScreenPoint, toScreen: Vec3 -> Vec3) returns (r: Outcome)
      requires Valid()
      modifies this`calls
      ensures Valid()
      ensures r.Fail? <==> moveState == null && skillState == null
      ensures r.Fail? ==> r.error == NullReference
      ensures moveState == null ==> calls == old(calls)
    {
      if moveState != null {
        DrawSelection(cursor, toScreen);
      } else if skillState == null {
        return Fail(NullReference);
      }
      r := Done;
    }

    /** OnMouseRightDownHandler: MakeTarget in SelectAndMove, CancelSelecting in SelectTargetForSkill. */
    method MouseRightDown(hit: Option<Option<Target>>, cursorWorld: Vec3, targetOf: UnitId -> Option<Target>)
      returns (r: Outcome)
      requires Valid()
      modifies this`moveState, this`skillState, this`updateAction, this`calls, skillState
      ensures Valid()
      ensures r.Fail? <==> old(moveState) == null && old(skillState) == null
      ensures r.Fail? ==> r.error == NullReference && unchanged(this)
      ensures old(skillState) != null ==>
                old(calls) + [CancelSelectingOf(old(skillState).skillOwner)] <= calls
    {
      if moveState != null {
        MakeTarget(hit, cursorWorld);
      } else if skillState != null {
        CancelSelecting(targetOf);
      } else {
        return Fail(NullReference);
      }
      r := Done;
    }

    /** OnESCDownHandler: ClearSelected in SelectAndMove, CancelSelecting in SelectTargetForSkill. */
    method ESCDown(targetOf: UnitId -> Option<Target>) returns (r: Outcome)
      requires Valid()
      modifies this`moveState, this`skillState, this`updateAction, this`calls, this`controllable,
               this`lastSelected, this`dieSubs, this`skillSubs, skillState
      ensures Valid()
      ensures r.Fail? <==> old(moveState) == null && old(skillState) == null
      ensures r.Fail? ==> r.error == NullReference && unchanged(this)
      ensures old(moveState) != null ==> lastSelected == None && controllable == Units([])
      ensures old(skillState) != null ==>
                old(calls) + [CancelSelectingOf(old(skillState).skillOwner)] <= calls
    {
      if moveState != null {
        ClearSelected();
      } else if skillState != null {
        CancelSelecting(targetOf);
      } else {
        return Fail(NullReference);
      }
      r := Done;
    }
  }

  /** A region's units as the HashSet source a new UnitSquad is given. */
  function Wrap(units: seq<UnitId>): (r: seq<Option<UnitId>>)
    ensures |r| == |units| && forall i :: 0 <= i < |units| ==> r[i] == Some(units[i])
  {
    seq(|units|, i requires 0 <= i < |units| => Some(units[i]))
  }

  /**
   * As written, switching straight from a skill aimed at a unit to one
   * aimed at an area leaves the disposed state's highlighting running every
   * frame: the installed per-frame action is not the installed state's.
   */
  method StaleHighlightAfterSkillSwitch(keeper: UnitsKeeper, targetOf: UnitId -> Option<Target>)
    returns (selector: MouseSelector)
    ensures selector.Valid()
    ensures selector.updateAction != null && selector.updateAction != selector.skillState
    ensures selector.skillState != null && selector.skillState.mode == AreaTargeting
  {
    selector := new MouseSelector(keeper, false);
    selector.OnInjected(targetOf);
    var r := selector.OnSelectingSkillTarget(Some(Selecting(Some(1), Some(0), TargetingMode(UnitTargeting, false, false))), targetOf);
    r := selector.OnSelectingSkillTarget(Some(Selecting(Some(1), Some(1), TargetingMode(AreaTargeting, false, false))), targetOf);
  }

  /** With the corrected Handle, the same switch leaves no per-frame action. */
  method NoStaleHighlightAfterSkillSwitch(keeper: UnitsKeeper, targetOf: UnitId -> Option<Target>)
    returns (selector: MouseSelector)
    ensures selector.Valid() && selector.updateAction == null
    ensures selector.skillState != null && selector.skillState.mode == AreaTargeting
  {
    selector := new MouseSelector(keeper, false);
    selector.OnInjected(targetOf);
    var r := selector.OnSelectingSkillTarget(Some(Selecting(Some(1), Some(0), TargetingMode(UnitTargeting, false, false))), targetOf);
    selector.SelectSkillTargetCorrected(1, 1, TargetingMode(AreaTargeting, false, false), targetOf);
  }

  /**
   * The selection holds the squad's own member set: once a member of the
   * selected squad dies and the squad drops it, the next order reaches
   * only the survivor.
   */
  method OrderAfterMemberDeath(selector: MouseSelector, squad: UnitSquad, a: UnitId, b: UnitId, target: Target,
                               hpOf: UnitId -> int, maxOf: UnitId -> int)
    requires selector.Valid() && squad.Valid() && squad.units == [a, b]
    requires selector.controllable == SquadMembers(squad)
    modifies selector`calls, squad
    ensures selector.Valid() && selector.SelectedUnits() == [b]
    ensures selector.calls == old(selector.calls) + [TargetSetManually(b, Some(target))]
  {
    var outcome := squad.OnUnitDie(a, hpOf, maxOf);
    assert squad.units == [b];
    selector.MakeTarget(Some(Some(target)), Vec3(0.0, 0.0, 0.0));
  }

  /** A squad of a and b made and selected, as a box pick of the two does. */
  method SelectNewSquad(selector: MouseSelector, a: UnitId, b: UnitId) returns (squad: UnitSquad)
    requires selector.Valid() && selector.lastSelected == None && a != b
    modifies selector`controllable, selector`lastSelected, selector`dieSubs, selector`skillSubs, selector`calls
    ensures selector.Valid() && fresh(squad) && squad.Valid() && squad.units == [a, b]
    ensures selector.lastSelected == Some(SquadSel(squad)) && selector.controllable == SquadMembers(squad)
    ensures selector.calls == old(selector.calls) + [SelectableSelected(SquadSel(squad), true), OnSelect(Some(SquadSel(squad)))]
  {
    var made, created := UnitSquad.Create(Some([Some(a), Some(b)]));
    squad := created;
    assert [Some(a), Some(b)][..1] == [Some(a)];
    assert Members([Some(a)]) == [a];
    var r := selector.Select(Some(SquadSel(squad)));
  }

  /**
   * The same from a fresh selector: select the squad of a and b, let a die,
   * give an order and clear the selection. Only b is ordered and deselected.
   */
  method DeadMemberLeavesSelection(keeper: UnitsKeeper, a: UnitId, b: UnitId, target: Target,
                                   hpOf: UnitId -> int, maxOf: UnitId -> int)
    returns (selector: MouseSelector, squad: UnitSquad)
    requires a != b
    ensures selector.Valid() && squad.units == [b]
    ensures var sel := SquadSel(squad);
            selector.calls == [SelectableSelected(sel, true), OnSelect(Some(sel)),
                               TargetSetManually(b, Some(target)),
                               UnitSelected(b, false), SelectableSelected(sel, false), SquadDisposed(sel),
                               OnSelect(None)]
  {
    selector := new MouseSelector(keeper, false);
    squad := SelectNewSquad(selector, a, b);
    OrderAfterMemberDeath(selector, squad, a, b, target, hpOf, maxOf);
    selector.ClearSelected();
  }
}

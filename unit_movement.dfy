/**
 * Unit selection and movement orders. Every unit carries a UnitMovement;
 * the units share one list of selected units. Clicks, shift-clicks,
 * double clicks and drag rectangles edit the list and the units'
 * `isSelected` flags; a right click sends the selection to the clicked
 * point (one unit to the nearest free spot, several into a circular
 * formation); units walk towards their target a step per frame, and a
 * patrol walks back and forth between two points.
 *
 * Engine services become explicit inputs: the registry of all units
 * (`all`), the object under the mouse (`Hit`), the clock (`now`, `dt`),
 * the square root of a distance (`len`) and the cos/sin directions of
 * the formation and of the free-spot search (`dirs`).
 */
module UnitMove {
  import opened Geometry
  import opened Lists
  import Formation

  datatype Option<T> = None | Some(value: T)

  /** What the point query under the mouse returned. */
  datatype Hit = NoHit | HitUnit(unit: UnitMovement) | HitOther(tag: string)

  /** The tag of the hit object's game object. */
  function HitTag(hit: Hit): string
    requires hit != NoHit
  {
    match hit
    case HitUnit(u) => u.tag
    case HitOther(t) => t
  }

  /** A move is over once the unit is within 0.1 of its target. */
  const ArriveDistance: real := 0.1

  predicate FarFrom(p: Vec2, target: Vec2)
  {
    DistSq(p, target) > ArriveDistance * ArriveDistance
  }

  /**
   * The MoveToTarget coroutine between two frames. `lastPos` is the
   * position its loop test reads next, which is the position before the
   * last step. A finished coroutine still leaves its handle behind.
   */
  datatype MoveRoutine = Stepping(target: Vec2, lastPos: Vec2) | Finished

  /**
   * The PatrolCoroutine between two frames: walking a leg (towards the
   * patrol target or back to the origin), or waiting at its end.
   */
  datatype PatrolRoutine =
    | Leg(toTarget: bool, lastPos: Vec2)
    | Waiting(toTarget: bool, remaining: real)

  /**
   * The part of MoveToTarget that runs inside StartCoroutine: a target
   * already within reach is snapped to at once and the coroutine ends;
   * otherwise it is left walking.
   */
  function Launch(from: Vec2, target: Vec2): MoveRoutine
  {
    if FarFrom(from, target) then Stepping(target, from) else Finished
  }

  /** The list of selected units, shared by every unit. */
  class SelectionList {
    var units: seq<UnitMovement>

    predicate Valid()
      reads this
    {
      NoDuplicates(units)
    }

    constructor()
      ensures units == [] && Valid()
    {
      units := [];
    }

    /** OnEnable: forgets the selection, leaving every flag as it is. */
    method Clear()
      modifies this
      ensures units == [] && Valid()
    {
      units := [];
    }

    /** DeselectAllUnits: clears the flag of every listed unit, then the list. */
    method DeselectAllUnits()
      modifies this, (set u | u in units)`isSelected
      ensures units == [] && Valid()
      ensures forall u :: u in old(units) ==> !u.isSelected
    {
      for i := 0 to |units|
        invariant units == old(units)
        invariant forall k :: 0 <= k < i ==> !units[k].isSelected
      {
        units[i].isSelected := false;
      }
      units := [];
    }

    /**
     * The body of the drag-selection loop for one unit: inside the
     * rectangle it is flagged and appended unless already listed; outside
     * it loses its flag.
     */
    method DragSelectOne(unit: UnitMovement, rect: Rect, ghost listed: seq<UnitMovement>)
      requires Contains(rect, unit.pos) ==> (unit in units <==> unit in listed)
      modifies this, unit`isSelected
      ensures unit.isSelected == DragFlag(Contains(rect, unit.pos), unit in listed, old(unit.isSelected))
      ensures units == old(units) + (if Contains(rect, unit.pos) && unit !in listed then [unit] else [])
    {
      if Contains(rect, unit.pos) {
        if unit !in units {
          unit.isSelected := true;
          units := units + [unit];
        }
      } else {
        unit.isSelected := false;
      }
    }

    /** The loop of SelectUnitsInDragArea over the registry `all`. */
    method DragSelect(all: seq<UnitMovement>, rect: Rect)
      requires NoDuplicates(all)
      modifies this, (set u | u in all)`isSelected
      ensures units == old(units) + NewlyInside(all, rect, old(units))
      ensures forall u :: u in all ==>
        u.isSelected == DragFlag(Contains(rect, u.pos), u in old(units), old(u.isSelected))
    {
      ghost var listed := units;
      ghost var visited: set<UnitMovement> := {};
      for i := 0 to |all|
        invariant units == listed + NewlyInside(all[..i], rect, listed)
        invariant forall k :: 0 <= k < i ==> all[k] in visited
        invariant forall u :: u in all ==>
          u.isSelected == if u in visited
            then DragFlag(Contains(rect, u.pos), u in listed, old(u.isSelected))
            else old(u.isSelected)
      {
        var unit := all[i];
        ghost var added := if Contains(rect, unit.pos) && unit !in listed then [unit] else [];
        ghost var next := NewlyInside(all[..i + 1], rect, listed);
        assert next == NewlyInside(all[..i], rect, listed) + added && (unit in units <==> unit in listed) by {
          DragStep(all, i, rect, listed);
        }
        DragSelectOne(unit, rect, listed);
        assert units == listed + next;
        visited := visited + {unit};
      }
      assert all[..|all|] == all;
    }

    /**
     * SelectAllUnitsWithSameTag: deselects everything, then selects and
     * lists, in registry order, exactly the units carrying `tag`. Units
     * neither listed nor tagged keep their flags.
     */
    method SelectAllUnitsWithSameTag(all: seq<UnitMovement>, tag: string)
      requires NoDuplicates(all)
      modifies this, (set u | u in units)`isSelected, (set u | u in all)`isSelected
      ensures Valid() && units == WithTag(all, tag)
      ensures forall u :: u in all && u.tag == tag ==> u.isSelected
      ensures forall u :: u in old(units) && u.tag != tag ==> !u.isSelected
      ensures forall u :: u in old(units) && u !in all ==> !u.isSelected
      ensures forall u :: u in all && u.tag != tag && u !in old(units) ==>
        u.isSelected == old(u.isSelected)
    {
      DeselectAllUnits();
      AppendTagged(all, tag);
      WithTagDistinct(all, tag);
    }

    /** The selection loop of SelectAllUnitsWithSameTag, run on an empty list. */
    method AppendTagged(all: seq<UnitMovement>, tag: string)
      requires units == []
      modifies this, (set u | u in all)`isSelected
      ensures units == WithTag(all, tag)
      ensures forall u :: u in all ==> u.isSelected == (u.tag == tag || old(u.isSelected))
    {
      ghost var visited: set<UnitMovement> := {};
      for i := 0 to |all|
        invariant units == WithTag(all[..i], tag)
        invariant forall k :: 0 <= k < i ==> all[k] in visited
        invariant forall u :: u in all ==>
          u.isSelected == ((u in visited && u.tag == tag) || old(u.isSelected))
      {
        assert all[..i + 1][..i] == all[..i];
        if all[i].tag == tag {
          all[i].isSelected := true;
          units := units + [all[i]];
        }
        visited := visited + {all[i]};
      }
      assert all[..|all|] == all;
    }
  }

  /** The units of `units` whose tag is `tag`, in order. */
  function WithTag(units: seq<UnitMovement>, tag: string): (r: seq<UnitMovement>)
    ensures forall u :: u in r ==> u in units && u.tag == tag
    ensures forall u :: u in units && u.tag == tag ==> u in r
  {
    if |units| == 0 then []
    else
      var front, last := units[..|units| - 1], units[|units| - 1];
      assert units == front + [last];
      WithTag(front, tag) + (if last.tag == tag then [last] else [])
  }

  /** A prefix of a list without duplicates has none either. */
  lemma PrefixDistinct<T>(s: seq<T>, n: nat)
    requires NoDuplicates(s) && n <= |s|
    ensures NoDuplicates(s[..n])
  {
    forall i, j | 0 <= i < j < n
      ensures s[..n][i] != s[..n][j]
    {
      assert s[..n][i] == s[i] && s[..n][j] == s[j];
    }
  }

  /** Selecting by tag from a registry without duplicates lists nobody twice. */
  lemma {:induction false} WithTagDistinct(units: seq<UnitMovement>, tag: string)
    requires NoDuplicates(units)
    ensures NoDuplicates(WithTag(units, tag))
  {
    if |units| > 0 {
      var front, last := units[..|units| - 1], units[|units| - 1];
      PrefixDistinct(units, |units| - 1);
      WithTagDistinct(front, tag);
      assert last !in front;
      if last.tag == tag {
        AppendAbsent(WithTag(front, tag), last);
      }
    }
  }

  /**
   * The units of `units` inside `rect` that are not in `listed`, in order:
   * the ones a drag selection adds to the list.
   */
  function NewlyInside(units: seq<UnitMovement>, rect: Rect, listed: seq<UnitMovement>)
    : (r: seq<UnitMovement>)
    reads (set u | u in units)`pos
  {
    if |units| == 0 then []
    else
      var front, last := units[..|units| - 1], units[|units| - 1];
      assert units == front + [last];
      NewlyInside(front, rect, listed) +
        (if Contains(rect, last.pos) && last !in listed then [last] else [])
  }

  /** The positions of `units`, in order. */
  function Positions(units: seq<UnitMovement>): (ps: seq<Vec2>)
    reads (set u | u in units)`pos
    ensures |ps| == |units| && forall k :: 0 <= k < |units| ==> ps[k] == units[k].pos
  {
    if |units| == 0 then [] else [units[0].pos] + Positions(units[1..])
  }

  /** The slots CalculateCircularFormation produces for directions `dirs`. */
  function FormationSlots(center: Vec2, dirs: seq<Vec2>, radius: real): (slots: seq<Vec2>)
    ensures |slots| == |dirs|
    ensures forall i :: 0 <= i < |dirs| ==> slots[i] == Formation.Slot(center, dirs[i], radius)
  {
    seq(|dirs|, i requires 0 <= i < |dirs| => Formation.Slot(center, dirs[i], radius))
  }

  /**
   * The state OrderMoveTo leaves `unit` in when it stood at `from` and was
   * sent to `target`: a fresh move coroutine, no patrol, marked moving,
   * snapped onto the target when it was already within reach.
   */
  ghost predicate Ordered(unit: UnitMovement, from: Vec2, target: Vec2)
    reads unit
  {
    && unit.Valid()
    && unit.moveCoroutine == Some(Launch(from, target))
    && unit.patrolCoroutine == None && !unit.isPatrolling && unit.isMoving
    && unit.pos == (if FarFrom(from, target) then from else target)
  }

  /**
   * Each of `units`, standing at `before`, got the slot the greedy matching
   * gives it and was ordered there.
   */
  ghost predicate SentToGreedySlots(units: seq<UnitMovement>, before: seq<Vec2>, slots: seq<Vec2>)
    reads set u | u in units
  {
    var choices := Formation.Greedy(before, slots);
    && |before| == |units|
    && forall i :: 0 <= i < |units| ==>
      && 0 <= choices[i] < |slots|
      && Ordered(units[i], before[i], slots[choices[i]])
  }

  /** Units ordered to their slots are all in a valid state. */
  lemma OrderedValid(units: seq<UnitMovement>, starts: seq<Vec2>, slots: seq<Vec2>, choices: seq<int>)
    requires |starts| == |units| && |choices| == |units|
    requires forall k :: 0 <= k < |choices| ==> 0 <= choices[k] < |slots|
    requires forall k :: 0 <= k < |units| ==> Ordered(units[k], starts[k], slots[choices[k]])
    ensures forall u :: u in units ==> u.Valid()
  {
    forall u | u in units
      ensures u.Valid()
    {
      var k :| 0 <= k < |units| && units[k] == u;
      assert Ordered(units[k], starts[k], slots[choices[k]]);
    }
  }

  /** The index of the first `false` in `occ` from `c` on, or -1 when there is none. */
  function FirstFalse(occ: seq<bool>, c: nat): (k: int)
    requires c <= |occ|
    ensures k == -1 || c <= k < |occ|
    decreases |occ| - c
  {
    if c == |occ| then -1
    else if !occ[c] then c
    else FirstFalse(occ, c + 1)
  }

  /**
   * The scan from `c` stops at a free entry with every entry before it
   * (from `c` on) taken, or reports -1 when all of them are taken.
   */
  lemma {:induction false} FirstFalseIsFirst(occ: seq<bool>, c: nat)
    requires c <= |occ|
    ensures var k := FirstFalse(occ, c);
      && (k != -1 ==> !occ[k] && forall j :: c <= j < k ==> occ[j])
      && (k == -1 ==> forall j :: c <= j < |occ| ==> occ[j])
    decreases |occ| - c
  {
    if c < |occ| && occ[c] {
      FirstFalseIsFirst(occ, c + 1);
    }
  }

  /** Ring `ring` (1 to 8), sample `i` (0 to 7) is probe (ring - 1) * 8 + i. */
  lemma ProbeIndex(ring: int, i: int)
    requires 1 <= ring <= 8 && 0 <= i < 8
    ensures ((ring - 1) * 8 + i) / 8 == ring - 1 && ((ring - 1) * 8 + i) % 8 == i
  {
  }

  /** What one more step of the drag selection adds to the list. */
  lemma DragStep(all: seq<UnitMovement>, i: nat, rect: Rect, listed: seq<UnitMovement>)
    requires NoDuplicates(all) && i < |all|
    ensures all[..i + 1] == all[..i] + [all[i]]
    ensures all[i] in listed + NewlyInside(all[..i], rect, listed) <==> all[i] in listed
    ensures NewlyInside(all[..i + 1], rect, listed) ==
      NewlyInside(all[..i], rect, listed) +
      (if Contains(rect, all[i].pos) && all[i] !in listed then [all[i]] else [])
  {
    assert all[..i + 1] == all[..i] + [all[i]];
    DistinctNotInPrefix(all, i);
    NewlyInsideMembers(all[..i], rect, listed);
  }

  /**
   * A unit's flag after a drag selection: cleared outside the rectangle,
   * set inside it unless the unit was already listed, which leaves it as it was.
   */
  function DragFlag(inside: bool, listed: bool, was: bool): (selected: bool)
    ensures !inside ==> !selected
    ensures inside && !listed ==> selected
  {
    if !inside then false else if listed then was else true
  }

  /**
   * A release whose rectangle is still the one of a click without mouse
   * movement clears the flag of every registry unit, listed or not.
   */
  lemma StillClickClearsFlags(start: Vec2, p: Vec2, listed: bool, was: bool)
    ensures !DragFlag(Contains(DragRect(start, start), p), listed, was)
  {
    DegenerateDragRectIsEmpty(start, p);
  }

  /** The newly covered units are exactly the unlisted units of `units` inside `rect`. */
  lemma {:induction false} NewlyInsideMembers(units: seq<UnitMovement>, rect: Rect,
                                              listed: seq<UnitMovement>)
    ensures forall u :: u in NewlyInside(units, rect, listed) ==>
      u in units && Contains(rect, u.pos) && u !in listed
    ensures forall u :: u in units && Contains(rect, u.pos) && u !in listed ==>
      u in NewlyInside(units, rect, listed)
  {
    if |units| > 0 {
      var front, last := units[..|units| - 1], units[|units| - 1];
      assert units == front + [last];
      NewlyInsideMembers(front, rect, listed);
    }
  }

  /** Adding the newly covered units to a list without duplicates keeps it so. */
  lemma {:induction false} NewlyInsideDistinct(units: seq<UnitMovement>, rect: Rect,
                                               listed: seq<UnitMovement>)
    requires NoDuplicates(units) && NoDuplicates(listed)
    ensures NoDuplicates(listed + NewlyInside(units, rect, listed))
  {
    if |units| > 0 {
      var front, last := units[..|units| - 1], units[|units| - 1];
      PrefixDistinct(units, |units| - 1);
      NewlyInsideDistinct(front, rect, listed);
      NewlyInsideMembers(front, rect, listed);
      assert last !in front;
      if Contains(rect, last.pos) && last !in listed {
        var prev := listed + NewlyInside(front, rect, listed);
        assert last !in prev;
        AppendAbsent(prev, last);
        assert listed + NewlyInside(units, rect, listed) == prev + [last];
      } else {
        assert NewlyInside(units, rect, listed) == NewlyInside(front, rect, listed);
        assert listed + NewlyInside(units, rect, listed) == listed + NewlyInside(front, rect, listed);
      }
    }
  }

  class UnitMovement {
    /** The game object's tag, compared by double clicks. */
    const tag: string
    const speed: real
    const formationSpacing: real
    const unitRadius: real
    /** Radius of this unit's own collider, as seen by the overlap query. */
    const bodyRadius: real
    const doubleClickTimeThreshold: real
    const patrolWaitTime: real

    /** transform.position */
    var pos: Vec2
    var isSelected: bool
    var isMoving: bool
    var lastClickTime: real
    var moveCoroutine: Option<MoveRoutine>
    var originalPosition: Vec2
    var isPatrolling: bool
    var patrolCoroutine: Option<PatrolRoutine>
    var patrolTarget: Vec2
    var dragStartPos: Vec2
    var dragEndPos: Vec2
    var isDragging: bool
    var dragRect: Rect

    /**
     * At most one coroutine is held at a time, and `isPatrolling` says
     * whether it is the patrol.
     */
    predicate Valid()
      reads this
    {
      && !(moveCoroutine.Some? && patrolCoroutine.Some?)
      && (isPatrolling <==> patrolCoroutine.Some?)
    }

    /** A unit as placed in the scene, with C#'s default field values. */
    constructor(tag: string, pos: Vec2, speed: real, formationSpacing: real,
                unitRadius: real, bodyRadius: real, doubleClickTimeThreshold: real,
                patrolWaitTime: real)
      ensures Valid()
      ensures this.tag == tag && this.pos == pos && this.speed == speed
      ensures this.formationSpacing == formationSpacing && this.unitRadius == unitRadius
      ensures this.bodyRadius == bodyRadius
      ensures this.doubleClickTimeThreshold == doubleClickTimeThreshold
      ensures this.patrolWaitTime == patrolWaitTime
      ensures !isSelected && !isMoving && !isPatrolling && !isDragging
      ensures moveCoroutine == None && patrolCoroutine == None && lastClickTime == 0.0
    {
      this.tag := tag;
      this.pos := pos;
      this.speed := speed;
      this.formationSpacing := formationSpacing;
      this.unitRadius := unitRadius;
      this.bodyRadius := bodyRadius;
      this.doubleClickTimeThreshold := doubleClickTimeThreshold;
      this.patrolWaitTime := patrolWaitTime;
      isSelected := false;
      isMoving := false;
      lastClickTime := 0.0;
      moveCoroutine := None;
      originalPosition := Vec2(0.0, 0.0);
      isPatrolling := false;
      patrolCoroutine := None;
      patrolTarget := Vec2(0.0, 0.0);
      dragStartPos := Vec2(0.0, 0.0);
      dragEndPos := Vec2(0.0, 0.0);
      isDragging := false;
      dragRect := Rect(0.0, 0.0, 0.0, 0.0);
    }

    // ---------------------------------------------------------------
    // Selection
    // ---------------------------------------------------------------

    /**
     * HandleSingleClick. A click on this unit selects it; without shift it
     * first deselects everybody else, so it ends up the only listed unit;
     * it is appended only when not yet listed. A click elsewhere without
     * shift deselects this unit and removes it from the list, leaving the
     * other entries alone; with shift it changes nothing. (The flag is set
     * after the deselection; see HandleSingleClickAsWritten.)
     */
    method HandleSingleClick(sel: SelectionList, hit: Hit, shift: bool)
      requires sel.Valid()
      modifies this`isSelected, sel, (set u | u in sel.units)`isSelected
      ensures sel.Valid()
      ensures hit == HitUnit(this) && !shift ==>
        && sel.units == [this] && isSelected
        && forall u :: u in old(sel.units) && u != this ==> !u.isSelected
      ensures hit == HitUnit(this) && shift ==>
        && isSelected
        && sel.units == old(sel.units) + (if this in old(sel.units) then [] else [this])
      ensures hit != HitUnit(this) && !shift ==>
        !isSelected && sel.units == RemoveFirst(old(sel.units), this) && this !in sel.units
      ensures hit != HitUnit(this) && shift ==>
        isSelected == old(isSelected) && sel.units == old(sel.units)
      ensures hit != HitUnit(this) || shift ==>
        forall u :: u in old(sel.units) && u != this ==> u.isSelected == old(u.isSelected)
    {
      if hit == HitUnit(this) {
        if !shift {
          sel.DeselectAllUnits();
        }
        isSelected := true;
        if this !in sel.units {
          sel.units := sel.units + [this];
        }
      } else if !shift {
        isSelected := false;
        RemoveFromDistinct(sel.units, this);
        sel.units := RemoveFirst(sel.units, this);
      }
    }

    /**
     * HandleSingleClick in its original statement order: the flag is set
     * before DeselectAllUnits, which clears it again when this unit was
     * already listed. A plain click on a selected unit thus leaves it the
     * only listed unit while its flag says it is not selected.
     */
    method HandleSingleClickAsWritten(sel: SelectionList, hit: Hit, shift: bool)
      requires sel.Valid()
      modifies this`isSelected, sel, (set u | u in sel.units)`isSelected
      ensures sel.Valid()
      ensures hit == HitUnit(this) && !shift ==>
        sel.units == [this] && (isSelected <==> this !in old(sel.units))
      ensures hit == HitUnit(this) && !shift && this in old(sel.units) ==>
        this in sel.units && !isSelected
    {
      if hit == HitUnit(this) {
        isSelected := true;
        if !shift {
          sel.DeselectAllUnits();
        }
        if this !in sel.units {
          sel.units := sel.units + [this];
        }
      } else if !shift {
        isSelected := false;
        RemoveFromDistinct(sel.units, this);
        sel.units := RemoveFirst(sel.units, this);
      }
    }

    /** HandleDoubleClick: selects every unit with the hit object's tag. */
    method HandleDoubleClick(sel: SelectionList, all: seq<UnitMovement>, hit: Hit)
      requires hit != NoHit && NoDuplicates(all)
      modifies sel, (set u | u in sel.units)`isSelected, (set u | u in all)`isSelected
      ensures sel.Valid() && sel.units == WithTag(all, HitTag(hit))
      ensures forall u :: u in all && u.tag == HitTag(hit) ==> u.isSelected
      ensures forall u :: u in old(sel.units) && u.tag != HitTag(hit) ==> !u.isSelected
      ensures forall u :: u in old(sel.units) && u !in all ==> !u.isSelected
      ensures forall u :: u in all && u.tag != HitTag(hit) && u !in old(sel.units) ==>
        u.isSelected == old(u.isSelected)
    {
      sel.SelectAllUnitsWithSameTag(all, HitTag(hit));
    }

    /** A click counts as a double click when it hit something soon enough after the last. */
    predicate IsDoubleClick(hit: Hit, now: real)
      reads this
    {
      now - lastClickTime <= doubleClickTimeThreshold && hit != NoHit
    }

    /**
     * HandleUnitSelection, on a frame where the left button went down:
     * a double click selects by tag, any other click is a single click,
     * and either way the click time is remembered.
     */
    method HandleUnitSelection(sel: SelectionList, all: seq<UnitMovement>, hit: Hit,
                               shift: bool, now: real)
      requires sel.Valid() && NoDuplicates(all)
      modifies this`isSelected, this`lastClickTime, sel
      modifies (set u | u in sel.units)`isSelected, (set u | u in all)`isSelected
      ensures sel.Valid() && lastClickTime == now
      ensures old(IsDoubleClick(hit, now)) ==>
        && sel.units == WithTag(all, HitTag(hit))
        && (forall u :: u in all && u.tag == HitTag(hit) ==> u.isSelected)
        && (forall u :: u in old(sel.units) && u.tag != HitTag(hit) ==> !u.isSelected)
        && (forall u :: u in old(sel.units) && u !in all ==> !u.isSelected)
        && (forall u :: u in all && u.tag != HitTag(hit) && u !in old(sel.units) ==>
              u.isSelected == old(u.isSelected))
      ensures !old(IsDoubleClick(hit, now)) && hit == HitUnit(this) && !shift ==>
        && sel.units == [this] && isSelected
        && forall u :: u in old(sel.units) && u != this ==> !u.isSelected
      ensures !old(IsDoubleClick(hit, now)) && hit == HitUnit(this) && shift ==>
        isSelected && sel.units == old(sel.units) + (if this in old(sel.units) then [] else [this])
      ensures !old(IsDoubleClick(hit, now)) && hit != HitUnit(this) && !shift ==>
        !isSelected && sel.units == RemoveFirst(old(sel.units), this)
      ensures !old(IsDoubleClick(hit, now)) && hit != HitUnit(this) && shift ==>
        isSelected == old(isSelected) && sel.units == old(sel.units)
      ensures !old(IsDoubleClick(hit, now)) && (hit != HitUnit(this) || shift) ==>
        forall u :: u in old(sel.units) && u != this ==> u.isSelected == old(u.isSelected)
    {
      if IsDoubleClick(hit, now) {
        HandleDoubleClick(sel, all, hit);
      } else {
        HandleSingleClick(sel, hit, shift);
      }
      lastClickTime := now;
    }

    /**
     * SelectUnitsInDragArea: every registry unit inside the drag rectangle
     * ends up listed exactly once (newly covered ones appended in registry
     * order and flagged); every unit outside loses its flag but keeps its
     * place in the list.
     */
    method SelectUnitsInDragArea(sel: SelectionList, all: seq<UnitMovement>)
      requires sel.Valid() && NoDuplicates(all)
      modifies sel, (set u | u in all)`isSelected
      ensures sel.Valid()
      ensures sel.units == old(sel.units) + NewlyInside(all, dragRect, old(sel.units))
      ensures forall u :: u in all && Contains(dragRect, u.pos) ==> u in sel.units
      ensures forall u :: u in all ==>
        u.isSelected == DragFlag(Contains(dragRect, u.pos), u in old(sel.units), old(u.isSelected))
    {
      ghost var listed := sel.units;
      sel.DragSelect(all, dragRect);
      NewlyInsideDistinct(all, dragRect, listed);
      NewlyInsideMembers(all, dragRect, listed);
    }

    /**
     * HandleDragSelection for one frame: the press records the start
     * corner, holding the button stretches the rectangle to the mouse,
     * and the release ends the drag and selects what the rectangle covers.
     */
    method HandleDragSelection(sel: SelectionList, all: seq<UnitMovement>,
                               pressed: bool, held: bool, released: bool, mouse: Vec2)
      requires sel.Valid() && NoDuplicates(all)
      modifies this`dragStartPos, this`dragEndPos, this`isDragging, this`dragRect
      modifies sel, (set u | u in all)`isSelected
      ensures sel.Valid()
      ensures dragStartPos == (if pressed then mouse else old(dragStartPos))
      ensures (pressed || old(isDragging)) && held ==>
        dragEndPos == mouse && dragRect == DragRect(dragStartPos, mouse)
      ensures !((pressed || old(isDragging)) && held) ==> dragRect == old(dragRect)
      ensures isDragging == (if released then false else pressed || old(isDragging))
      ensures released ==> sel.units == old(sel.units) + NewlyInside(all, dragRect, old(sel.units))
      ensures !released ==> sel.units == old(sel.units)
      ensures released ==> forall u :: u in all ==>
        u.isSelected == DragFlag(Contains(dragRect, u.pos), u in old(sel.units), old(u.isSelected))
      ensures !released ==> forall u :: u in all ==> u.isSelected == old(u.isSelected)
    {
      if pressed {
        dragStartPos := mouse;
        isDragging := true;
      }
      if isDragging && held {
        dragEndPos := mouse;
        dragRect := DragRect(dragStartPos, dragEndPos);
      }
      if released {
        isDragging := false;
        SelectUnitsInDragArea(sel, all);
      }
    }

    // ---------------------------------------------------------------
    // Cancellation, move orders and patrols
    // ---------------------------------------------------------------

    /** StopPatrol */
    method StopPatrol()
      modifies this`patrolCoroutine, this`isPatrolling
      ensures patrolCoroutine == None && !isPatrolling
    {
      if patrolCoroutine.Some? {
        patrolCoroutine := None;
      }
      isPatrolling := false;
    }

    /** StopCurrentMovement: drops the move coroutine and ends any patrol. */
    method StopCurrentMovement()
      requires Valid()
      modifies this`moveCoroutine, this`patrolCoroutine, this`isPatrolling
      ensures Valid()
      ensures moveCoroutine == None && patrolCoroutine == None && !isPatrolling
    {
      if moveCoroutine.Some? {
        moveCoroutine := None;
      }
      if isPatrolling {
        StopPatrol();
      }
    }

    /**
     * A move order as HandleMovementCommand and AssignOptimalPositions give
     * it: cancel, start MoveToTarget (snapping at once when already within
     * reach), and mark the unit moving.
     */
    method OrderMoveTo(target: Vec2)
      requires Valid()
      modifies this`moveCoroutine, this`patrolCoroutine, this`isPatrolling, this`isMoving, this`pos
      ensures Valid()
      ensures moveCoroutine == Some(Launch(old(pos), target))
      ensures patrolCoroutine == None && !isPatrolling && isMoving
      ensures pos == (if FarFrom(old(pos), target) then old(pos) else target)
    {
      StopCurrentMovement();
      if FarFrom(pos, target) {
        moveCoroutine := Some(Stepping(target, pos));
      } else {
        pos := target;
        isMoving := false;
        moveCoroutine := Some(Finished);
      }
      isMoving := true;
    }

    /** The end of the current patrol leg. */
    function PatrolGoal(toTarget: bool): Vec2
      reads this
    {
      if toTarget then patrolTarget else originalPosition
    }

    /**
     * What the patrol loop does on reaching the top of its `while` with
     * `toTarget`: walk a leg if its end is out of reach, otherwise wait.
     */
    function BeginLeg(toTarget: bool): PatrolRoutine
      reads this
    {
      if FarFrom(pos, PatrolGoal(toTarget)) then Leg(toTarget, pos) else Waiting(toTarget, patrolWaitTime)
    }

    /**
     * StartPatrol: cancels any move or patrol, remembers the current
     * position as the origin and starts the first leg towards `target`.
     */
    method StartPatrol(target: Vec2)
      requires Valid()
      modifies this`moveCoroutine, this`patrolCoroutine, this`isPatrolling
      modifies this`originalPosition, this`patrolTarget
      ensures Valid()
      ensures moveCoroutine == None && isPatrolling
      ensures originalPosition == pos && patrolTarget == target
      ensures patrolCoroutine == Some(BeginLeg(true))
      ensures patrolCoroutine.value.toTarget
    {
      StopCurrentMovement();
      originalPosition := pos;
      patrolTarget := target;
      isPatrolling := true;
      patrolCoroutine := Some(BeginLeg(true));
    }

    /** No move, no patrol, not moving: the state StopMoving leaves a unit in. */
    predicate Idle()
      reads this
    {
      moveCoroutine == None && patrolCoroutine == None && !isPatrolling && !isMoving
    }

    /**
     * StopMoving: this unit and every listed unit drop their move and
     * patrol and stop counting as moving.
     */
    method StopMoving(sel: SelectionList)
      requires Valid() && forall u :: u in sel.units ==> u.Valid()
      modifies this`moveCoroutine, this`patrolCoroutine, this`isPatrolling, this`isMoving
      modifies (set u | u in sel.units)`moveCoroutine, (set u | u in sel.units)`patrolCoroutine
      modifies (set u | u in sel.units)`isPatrolling, (set u | u in sel.units)`isMoving
      ensures Valid() && Idle()
      ensures forall u :: u in sel.units ==> u.Valid() && u.Idle()
    {
      StopCurrentMovement();
      isMoving := false;
      ghost var stopped: set<UnitMovement> := {};
      for i := 0 to |sel.units|
        invariant Valid() && Idle()
        invariant forall k :: 0 <= k < i ==> sel.units[k] in stopped
        invariant forall u :: u in sel.units ==> u.Valid()
        invariant forall u :: u in stopped ==> u.Idle()
      {
        var unit := sel.units[i];
        unit.StopCurrentMovement();
        unit.isMoving := false;
        stopped := stopped + {unit};
      }
    }

    /** The patrol key: a selected unit starts patrolling towards the mouse. */
    method HandlePatrolKey(mouse: Vec2)
      requires Valid()
      modifies this`moveCoroutine, this`patrolCoroutine, this`isPatrolling
      modifies this`originalPosition, this`patrolTarget
      ensures Valid()
      ensures isSelected ==>
        && moveCoroutine == None && isPatrolling && patrolTarget == mouse
        && originalPosition == pos && patrolCoroutine == Some(BeginLeg(true))
      ensures !isSelected ==>
        && moveCoroutine == old(moveCoroutine) && patrolCoroutine == old(patrolCoroutine)
        && isPatrolling == old(isPatrolling)
        && originalPosition == old(originalPosition) && patrolTarget == old(patrolTarget)
    {
      if isSelected {
        StartPatrol(mouse);
      }
    }

    // ---------------------------------------------------------------
    // Free-spot search
    // ---------------------------------------------------------------

    /**
     * IsPositionOccupied as a property of the registry: a circle of this
     * unit's radius around `p` overlaps the collider of some other unit.
     */
    predicate Occupied(p: Vec2, all: seq<UnitMovement>)
      reads (set u | u in all)`pos
    {
      OverlapsOther(p, all, |all|)
    }

    /** Some unit among the first `n` other than this one overlaps the circle at `p`. */
    predicate OverlapsOther(p: Vec2, all: seq<UnitMovement>, n: nat)
      requires n <= |all|
      reads (set u | u in all)`pos
    {
      n > 0 &&
      ((all[n - 1] != this && DiscsOverlap(p, unitRadius, all[n - 1].pos, all[n - 1].bodyRadius)) ||
       OverlapsOther(p, all, n - 1))
    }

    /** IsPositionOccupied: scans the overlapping colliders for one that is not this unit's. */
    method IsPositionOccupied(p: Vec2, all: seq<UnitMovement>) returns (occupied: bool)
      ensures occupied <==> Occupied(p, all)
    {
      for k := 0 to |all|
        invariant !OverlapsOther(p, all, k)
      {
        if all[k] != this && DiscsOverlap(p, unitRadius, all[k].pos, all[k].bodyRadius) {
          OverlapsOtherMono(p, all, k + 1, |all|);
          return true;
        }
      }
      return false;
    }

    /** An overlap among the first `m` units is one among the first `n >= m`. */
    lemma OverlapsOtherMono(p: Vec2, all: seq<UnitMovement>, m: nat, n: nat)
      requires m <= n <= |all| && OverlapsOther(p, all, m)
      ensures OverlapsOther(p, all, n)
      decreases n - m
    {
      if m < n {
        OverlapsOtherMono(p, all, m, n - 1);
      }
    }

    /**
     * Sample point in direction `dir` (cos, sin) on ring `ring` of the
     * free-spot search, whose radius is the ring number times twice the
     * unit radius.
     */
    function RingPoint(target: Vec2, dir: Vec2, ring: int): Vec2
    {
      Add(target, Scale(dir, ring as real * (unitRadius * 2.0)))
    }

    /** Probe `c` (0 to 63) of the search: sample `c % 8` on ring `c / 8 + 1`. */
    function Probe(target: Vec2, dirs: seq<Vec2>, c: nat): Vec2
      requires |dirs| == 8 && c < 64
    {
      RingPoint(target, dirs[c % 8], c / 8 + 1)
    }

    /** Which of the first `n` probes around `target` are occupied, in search order. */
    function ProbeOccupancy(target: Vec2, all: seq<UnitMovement>, dirs: seq<Vec2>, n: nat): (occ: seq<bool>)
      requires |dirs| == 8 && n <= 64
      reads (set u | u in all)`pos
      ensures |occ| == n
      ensures forall c :: 0 <= c < n ==> occ[c] == Occupied(Probe(target, dirs, c), all)
    {
      if n == 0 then [] else ProbeOccupancy(target, all, dirs, n - 1) + [Occupied(Probe(target, dirs, n - 1), all)]
    }

    /** The spot FindNearestEmptyPosition settles on. */
    function NearestEmptyPosition(target: Vec2, all: seq<UnitMovement>, dirs: seq<Vec2>): Vec2
      requires |dirs| == 8
      reads (set u | u in all)`pos
    {
      if !Occupied(target, all) then target
      else
        var k := FirstFalse(ProbeOccupancy(target, all, dirs, 64), 0);
        if k == -1 then target else Probe(target, dirs, k)
    }

    /**
     * The free-spot search returns the target when it is free, otherwise
     * the first free probe (ring 1 to 8, sample 0 to 7), and the target
     * again when every probe is occupied; so what it returns is occupied
     * only when the target and all 64 probes are.
     */
    lemma NearestEmptyPositionIsFirstFree(target: Vec2, all: seq<UnitMovement>, dirs: seq<Vec2>)
      requires |dirs| == 8
      ensures !Occupied(target, all) ==> NearestEmptyPosition(target, all, dirs) == target
      ensures forall c :: 0 <= c < 64 ==>
        (Occupied(target, all) && !Occupied(Probe(target, dirs, c), all) &&
         (forall j :: 0 <= j < c ==> Occupied(Probe(target, dirs, j), all)))
        ==> NearestEmptyPosition(target, all, dirs) == Probe(target, dirs, c)
      ensures (forall j :: 0 <= j < 64 ==> Occupied(Probe(target, dirs, j), all)) ==>
        NearestEmptyPosition(target, all, dirs) == target
      ensures Occupied(NearestEmptyPosition(target, all, dirs), all) ==>
        && NearestEmptyPosition(target, all, dirs) == target
        && forall j :: 0 <= j < 64 ==> Occupied(Probe(target, dirs, j), all)
    {
      var occ := ProbeOccupancy(target, all, dirs, 64);
      FirstFalseIsFirst(occ, 0);
      var k := FirstFalse(occ, 0);
      forall c | 0 <= c < 64 && !occ[c] && (forall j :: 0 <= j < c ==> occ[j])
        ensures k == c
      {
      }
    }

    /** Sample `i` of ring `ring` is the probe numbered (ring - 1) * 8 + i. */
    lemma ProbeAt(target: Vec2, dirs: seq<Vec2>, ring: int, i: int)
      requires |dirs| == 8 && 1 <= ring <= 8 && 0 <= i < 8
      ensures Probe(target, dirs, (ring - 1) * 8 + i) == RingPoint(target, dirs[i], ring)
    {
      ProbeIndex(ring, i);
    }

    /** NearestEmptyPosition of an occupied target, read off the first free probe. */
    lemma NearestEmptyPositionIs(target: Vec2, all: seq<UnitMovement>, dirs: seq<Vec2>,
                                 occ: seq<bool>, first: int)
      requires |dirs| == 8 && Occupied(target, all)
      requires occ == ProbeOccupancy(target, all, dirs, 64) && first == FirstFalse(occ, 0)
      ensures NearestEmptyPosition(target, all, dirs) == if first == -1 then target else Probe(target, dirs, first)
    {
    }

    /**
     * FindNearestEmptyPosition: the target if free, else the rings of
     * probes in order with an early return at the first free one, else
     * the target.
     */
    method FindNearestEmptyPosition(target: Vec2, all: seq<UnitMovement>, dirs: seq<Vec2>)
      returns (r: Vec2)
      requires |dirs| == 8
      ensures r == NearestEmptyPosition(target, all, dirs)
    {
      var targetTaken := IsPositionOccupied(target, all);
      if !targetTaken {
        return target;
      }
      ghost var occ := ProbeOccupancy(target, all, dirs, 64);
      ghost var first := FirstFalse(occ, 0);
      for ring := 1 to 9
        invariant first == FirstFalse(occ, (ring - 1) * 8)
      {
        for i := 0 to 8
          invariant first == FirstFalse(occ, (ring - 1) * 8 + i)
        {
          var testPosition := RingPoint(target, dirs[i], ring);
          ProbeAt(target, dirs, ring, i);
          var occupied := IsPositionOccupied(testPosition, all);
          if !occupied {
            assert first == (ring - 1) * 8 + i by {
              assert !occ[(ring - 1) * 8 + i];
            }
            NearestEmptyPositionIs(target, all, dirs, occ, first);
            return testPosition;
          }
        }
      }
      NearestEmptyPositionIs(target, all, dirs, occ, first);
      return target;
    }

    // ---------------------------------------------------------------
    // Move commands
    // ---------------------------------------------------------------

    /**
     * The orders AssignOptimalPositions gives: listed unit `i`, standing
     * at `positions[i]` when the command came, walks to the slot the
     * greedy matching gives it. With one slot per unit every unit gets
     * one, and the loop over the units starts each move.
     */
    method AssignOptimalPositions(sel: SelectionList, slots: seq<Vec2>)
      requires sel.Valid() && |slots| == |sel.units|
      requires forall u :: u in sel.units ==> u.Valid()
      modifies (set u | u in sel.units)`moveCoroutine, (set u | u in sel.units)`patrolCoroutine
      modifies (set u | u in sel.units)`isPatrolling, (set u | u in sel.units)`isMoving
      modifies (set u | u in sel.units)`pos
      ensures forall u :: u in sel.units ==> u.Valid()
      ensures SentToGreedySlots(sel.units, old(Positions(sel.units)), slots)
    {
      var units := sel.units;
      var positions := Positions(units);
      assert positions == old(Positions(sel.units));
      var choices := Formation.AssignOptimalPositions(positions, slots);
      forall i | 0 <= i < |units|
        ensures 0 <= choices[i] < |slots|
      {
        Formation.GreedyComplete(positions, slots, i);
      }
      StartMoves(units, slots, choices, positions);
    }

    /** The loop of AssignOptimalPositions: unit `k` is sent to slot `choices[k]`. */
    method StartMoves(units: seq<UnitMovement>, slots: seq<Vec2>, choices: seq<int>,
                      ghost starts: seq<Vec2>)
      requires NoDuplicates(units) && |choices| == |units|
      requires forall k :: 0 <= k < |choices| ==> 0 <= choices[k] < |slots|
      requires forall u :: u in units ==> u.Valid()
      requires starts == Positions(units)
      modifies (set u | u in units)`moveCoroutine, (set u | u in units)`patrolCoroutine
      modifies (set u | u in units)`isPatrolling, (set u | u in units)`isMoving
      modifies (set u | u in units)`pos
      ensures forall k :: 0 <= k < |units| ==> Ordered(units[k], starts[k], slots[choices[k]])
      ensures forall u :: u in units ==> u.Valid()
    {
      for i := 0 to |units|
        invariant forall k :: 0 <= k < i ==> Ordered(units[k], starts[k], slots[choices[k]])
        invariant forall k :: i <= k < |units| ==> units[k].Valid() && units[k].pos == starts[k]
      {
        var unit, target := units[i], slots[choices[i]];
        unit.OrderMoveTo(target);
      }
      OrderedValid(units, starts, slots, choices);
    }

    /**
     * MoveSelectedUnits: with `n` listed units, lays out the circular
     * formation of `n` slots around `target` and assigns them. `radius` is
     * formationSpacing * sqrt(n) and `dirs` the n directions (cos, sin).
     */
    method MoveSelectedUnits(sel: SelectionList, target: Vec2, dirs: seq<Vec2>, radius: real)
      requires sel.Valid() && forall u :: u in sel.units ==> u.Valid()
      requires |dirs| == |sel.units|
      requires radius >= 0.0 && radius * radius == formationSpacing * formationSpacing * |sel.units| as real
      modifies (set u | u in sel.units)`moveCoroutine, (set u | u in sel.units)`patrolCoroutine
      modifies (set u | u in sel.units)`isPatrolling, (set u | u in sel.units)`isMoving
      modifies (set u | u in sel.units)`pos
      ensures forall u :: u in sel.units ==> u.Valid()
      ensures SentToGreedySlots(sel.units, old(Positions(sel.units)), FormationSlots(target, dirs, radius))
    {
      var unitCount := |sel.units|;
      if unitCount == 0 {
        return;
      }
      var formationPositions := Formation.CalculateCircularFormation(target, unitCount, formationSpacing, radius, dirs);
      assert formationPositions == FormationSlots(target, dirs, radius);
      AssignOptimalPositions(sel, formationPositions);
    }

    /**
     * HandleMovementCommand, on a frame where the right button went down:
     * a single listed unit is sent to the nearest free spot around the
     * mouse (searched by the unit running this code), several are sent
     * into formation, and an empty list does nothing.
     */
    method HandleMovementCommand(sel: SelectionList, all: seq<UnitMovement>, mouse: Vec2,
                                 ringDirs: seq<Vec2>, formationDirs: seq<Vec2>, radius: real)
      requires sel.Valid() && forall u :: u in sel.units ==> u.Valid()
      requires |ringDirs| == 8
      requires |sel.units| > 1 ==>
        && |formationDirs| == |sel.units|
        && radius >= 0.0 && radius * radius == formationSpacing * formationSpacing * |sel.units| as real
      modifies (set u | u in sel.units)`moveCoroutine, (set u | u in sel.units)`patrolCoroutine
      modifies (set u | u in sel.units)`isPatrolling, (set u | u in sel.units)`isMoving
      modifies (set u | u in sel.units)`pos
      ensures forall u :: u in sel.units ==> u.Valid()
      ensures |sel.units| == 1 ==>
        Ordered(sel.units[0], old(sel.units[0].pos), old(NearestEmptyPosition(mouse, all, ringDirs)))
      ensures |sel.units| > 1 ==>
        var slots := FormationSlots(mouse, formationDirs, radius);
        var choices := Formation.Greedy(old(Positions(sel.units)), slots);
        forall i :: 0 <= i < |sel.units| ==>
          && 0 <= choices[i] < |slots|
          && Ordered(sel.units[i], old(sel.units[i].pos), slots[choices[i]])
    {
      if |sel.units| == 1 {
        var unit := sel.units[0];
        var targetPos := FindNearestEmptyPosition(mouse, all, ringDirs);
        unit.OrderMoveTo(targetPos);
        return;
      }
      if |sel.units| > 1 {
        MoveSelectedUnits(sel, mouse, formationDirs, radius);
      }
    }

    /** Where the running coroutine walks this frame (the position itself when idle). */
    function Goal(): Vec2
      reads this
    {
      if moveCoroutine.Some? && moveCoroutine.value.Stepping? then moveCoroutine.value.target
      else if patrolCoroutine.Some? && patrolCoroutine.value.Leg? then
        PatrolGoal(patrolCoroutine.value.toTarget)
      else pos
    }

    /**
     * One frame of the running coroutine. A walking coroutine tests the
     * position it saw last frame; while that was farther than 0.1 it
     * steps by at most `speed * dt` (Vector2.MoveTowards); otherwise the
     * move snaps onto its target and ends, and the patrol starts waiting.
     * A finished wait turns the patrol around. `len` is the distance from
     * the position to the goal.
     */
    method Tick(dt: real, len: real)
      requires Valid() && IsLength(pos, Goal(), len)
      modifies this`pos, this`moveCoroutine, this`patrolCoroutine, this`isMoving
      ensures Valid()
      ensures old(moveCoroutine).Some? && old(moveCoroutine).value.Stepping? ==>
        var t, last := old(moveCoroutine).value.target, old(moveCoroutine).value.lastPos;
        && patrolCoroutine == old(patrolCoroutine)
        && (FarFrom(last, t) ==>
              && pos == MoveTowards(old(pos), t, speed * dt, len)
              && moveCoroutine == Some(Stepping(t, old(pos)))
              && isMoving == old(isMoving))
        && (!FarFrom(last, t) ==> pos == t && !isMoving && moveCoroutine == Some(Finished))
      ensures old(patrolCoroutine).Some? && old(patrolCoroutine).value.Leg? ==>
        var toTarget, last := old(patrolCoroutine).value.toTarget, old(patrolCoroutine).value.lastPos;
        var g := PatrolGoal(toTarget);
        && moveCoroutine == old(moveCoroutine) && isMoving == old(isMoving)
        && (FarFrom(last, g) ==>
              && pos == MoveTowards(old(pos), g, speed * dt, len)
              && patrolCoroutine == Some(Leg(toTarget, old(pos))))
        && (!FarFrom(last, g) ==>
              pos == old(pos) && patrolCoroutine == Some(Waiting(toTarget, patrolWaitTime)))
      ensures old(patrolCoroutine).Some? && old(patrolCoroutine).value.Waiting? ==>
        var toTarget, remaining := old(patrolCoroutine).value.toTarget, old(patrolCoroutine).value.remaining;
        && pos == old(pos) && moveCoroutine == old(moveCoroutine) && isMoving == old(isMoving)
        && (remaining - dt > 0.0 ==> patrolCoroutine == Some(Waiting(toTarget, remaining - dt)))
        && (remaining - dt <= 0.0 ==> patrolCoroutine == Some(BeginLeg(!toTarget)))
      ensures old(moveCoroutine) !in {None, Some(Finished)} || old(patrolCoroutine).Some? ||
        (pos == old(pos) && moveCoroutine == old(moveCoroutine) &&
         patrolCoroutine == old(patrolCoroutine) && isMoving == old(isMoving))
    {
      if moveCoroutine.Some? && moveCoroutine.value.Stepping? {
        var t, last := moveCoroutine.value.target, moveCoroutine.value.lastPos;
        if FarFrom(last, t) {
          var current := pos;
          pos := MoveTowards(current, t, speed * dt, len);
          moveCoroutine := Some(Stepping(t, current));
        } else {
          pos := t;
          isMoving := false;
          moveCoroutine := Some(Finished);
        }
      } else if patrolCoroutine.Some? {
        match patrolCoroutine.value {
          case Leg(toTarget, last) =>
            var g := PatrolGoal(toTarget);
            if FarFrom(last, g) {
              var current := pos;
              pos := MoveTowards(current, g, speed * dt, len);
              patrolCoroutine := Some(Leg(toTarget, current));
            } else {
              patrolCoroutine := Some(Waiting(toTarget, patrolWaitTime));
            }
          case Waiting(toTarget, remaining) =>
            if remaining - dt > 0.0 {
              patrolCoroutine := Some(Waiting(toTarget, remaining - dt));
            } else {
              patrolCoroutine := Some(BeginLeg(!toTarget));
            }
        }
      }
    }
  }
}

# RTS unit control, unit status and resources — a Dafny model

This project models the game logic of a small Unity real-time-strategy
prototype, in three parts.

- **Unit selection and movement orders** (`UnitMovement`). Every unit carries
  a `UnitMovement`, and all units share one list of selected units.
  - A click selects a unit, a shift-click adds it, and a click elsewhere
    deselects it.
  - A double click selects every unit with the clicked object's tag.
  - A drag rectangle selects what it covers.
  - A right click sends the selection to the clicked point:
    - a single unit goes to the nearest free spot on up to 8 rings of
      8 samples;
    - several units go into a circular formation, matched greedily to
      the nearest unclaimed slot.
  - Units walk a step per frame; a patrol walks back and forth with a pause
    at each end; the stop key cancels every selected unit's orders.
- **Unit status** (`UnitStatus`): health clamped to [0, maxHp] by the
  health setter; damage reduced by defence but never below one point;
  one-way death with its side effects; an attack cooldown; stat modifiers
  with lower floors.
- **Resources** (`ResourceManager`): a check-then-debit on the balance held
  by the cost slider, announcing the new whole-number balance.

Modules:
- `Geometry`: points, squared distance, `Vector2.MoveTowards`, the drag
  rectangle and `Rect.Contains`, and disc overlap.
- `Lists`: C# `List<T>` operations over `seq`.
- `Formation`: the formation slots and the greedy matching, as a reference
  function `Greedy` plus the array-based loops of the source.
- `UnitMove`: the `SelectionList` and `UnitMovement` classes.
- `Status`: the `UnitStatus` class.
- `Resources`: the `ResourceManager` class.

How engine services are represented:
- Engine services become inputs:
  - the registry of all units (`FindObjectsOfType`) is a `seq` without
    duplicates;
  - the object under the mouse is a `Hit`;
  - `Time.time` and `Time.deltaTime` are `now` and `dt`;
  - the square root inside `MoveTowards` is the length `len`;
  - the formation radius `formationSpacing * sqrt(n)` is `radius`;
  - the cos/sin directions of the formation and of the ring search are
    `dirs`.
- Physics overlap queries become predicates over the registry.
- Coroutines become explicit routine states advanced by `Tick`, one frame
  per call.

Three details of the code that the model keeps:
- `Rect.Contains` is closed at the minimum edges and open at the maximum
  edges (UnitMovement.cs:257).
- The patrol key starts a patrol on every unit whose own `isSelected` flag
  is set, however many units are selected (UnitMovement.cs:85-92).
- With an attack speed of zero, `CanAttack` divides by zero under IEEE
  rules: an infinite or NaN wait (UnitStatus.cs:100).

## Model

| member | source | states |
|---|---|---|
| Geometry.DragRect | Assets/Scripts/UnitMove/UnitMovement.cs:112-117 | the drag rectangle has non-negative extents, its minimum corner lies at or below both drag corners, and its far edges are the larger coordinates |
| Geometry.DragRectSymmetric | Assets/Scripts/UnitMove/UnitMovement.cs:112-117 | the rectangle is the same whichever corner the drag started from |
| Geometry.DragRectContains | Assets/Scripts/UnitMove/UnitMovement.cs:257 | a point is inside iff on each axis it lies between the two corners, closed towards the smaller and open towards the larger coordinate |
| Geometry.DegenerateDragRectIsEmpty | Assets/Scripts/UnitMove/UnitMovement.cs:112-117 | a drag that ends where it started covers no point |
| Geometry.MoveTowards | Assets/Scripts/UnitMove/UnitMovement.cs:304 | a step of at least the remaining distance lands exactly on the target; otherwise the result is the current point moved `maxDelta / len` of the way |
| Geometry.MoveTowardsOnSegment | Assets/Scripts/UnitMove/UnitMovement.cs:304 | a step of non-negative length never overshoots: it lands on the target or stays on the segment towards it, with the remaining way shrunk by a factor in (0, 1] |
| Lists.IndexOf | Assets/Scripts/UnitMove/UnitMovement.cs:194 | the index found holds the element and no earlier index does |
| Lists.RemoveFirst | Assets/Scripts/UnitMove/UnitMovement.cs:194 | `List.Remove` leaves a list without `x` unchanged and shortens one with `x` by exactly one |
| Lists.RemoveFirstSplices | Assets/Scripts/UnitMove/UnitMovement.cs:194 | `List.Remove` cuts out exactly the first occurrence and keeps the order of the rest |
| Lists.RemoveFromDistinct | Assets/Scripts/UnitMove/UnitMovement.cs:194 | on a list without duplicates, removal takes out exactly `x`, keeps every other element and keeps the list free of duplicates |
| Lists.AppendAbsent | Assets/Scripts/UnitMove/UnitMovement.cs:184-187 | appending only an absent unit keeps the selection free of duplicates |
| Formation.SlotOnCircle | Assets/Scripts/UnitMove/UnitMovement.cs:436-442 | along a unit direction a formation slot lies exactly `radius` from the centre |
| Formation.CalculateCircularFormation | Assets/Scripts/UnitMove/UnitMovement.cs:427-445 | one slot per unit, slot `i` at the centre plus `radius` times direction `i`, each at squared distance spacing² · n from the centre |
| Formation.NearestAmong | Assets/Scripts/UnitMove/UnitMovement.cs:388-408 | the scan returns an unclaimed index, and returns -1 iff every slot is claimed |
| Formation.NearestAmongIsNearest | Assets/Scripts/UnitMove/UnitMovement.cs:392-408 | the slot found is unclaimed, no unclaimed slot is nearer, and every earlier unclaimed slot is strictly farther (ties go to the lowest index) |
| Formation.Claimed | Assets/Scripts/UnitMove/UnitMovement.cs:411-413 | the claimed set is exactly the non-negative choices made so far |
| Formation.Greedy | Assets/Scripts/UnitMove/UnitMovement.cs:383-418 | one choice per unit, each a slot index or -1 |
| Formation.GreedyPrefix | Assets/Scripts/UnitMove/UnitMovement.cs:383-418 | the matching of the first `i` units is the first `i` choices of the whole matching |
| Formation.GreedyChoice | Assets/Scripts/UnitMove/UnitMovement.cs:385-408 | each unit's choice is the nearest slot left by the units before it |
| Formation.GreedyNearest | Assets/Scripts/UnitMove/UnitMovement.cs:385-417 | a unit that gets a slot gets an unclaimed one of minimal distance (lowest index among equals); it gets none iff all slots are taken |
| Formation.GreedyDistinct | Assets/Scripts/UnitMove/UnitMovement.cs:411-413 | no slot is given to two units |
| Formation.ClaimedBound | Assets/Scripts/UnitMove/UnitMovement.cs:411-413 | `n` choices claim at most `n` slots |
| Formation.GreedyComplete | Assets/Scripts/UnitMove/UnitMovement.cs:362-369 | with at least as many slots as units (the formation has exactly one per unit), every unit gets a slot |
| Formation.NearestFreeSlot | Assets/Scripts/UnitMove/UnitMovement.cs:388-408 | the inner loop over the `bool[]` of claimed slots computes the reference choice `NearestAmong` |
| Formation.Claim | Assets/Scripts/UnitMove/UnitMovement.cs:411-413 | marking the chosen slot keeps the `bool[]` equal to the claimed set |
| Formation.AssignOptimalPositions | Assets/Scripts/UnitMove/UnitMovement.cs:376-419 | the outer loop, with its `bool[]` mirroring the claimed set, computes exactly the greedy matching `Greedy` |
| UnitMove.WithTag | Assets/Scripts/UnitMove/UnitMovement.cs:324-332 | the units selected by tag are exactly the registry units carrying that tag |
| UnitMove.WithTagDistinct | Assets/Scripts/UnitMove/UnitMovement.cs:319-332 | selecting by tag from a registry without duplicates lists nobody twice |
| UnitMove.DragFlag | Assets/Scripts/UnitMove/UnitMovement.cs:257-269 | after a drag a unit outside the rectangle is deselected, and an unlisted unit inside is selected |
| UnitMove.NewlyInsideMembers | Assets/Scripts/UnitMove/UnitMovement.cs:255-265 | the units a drag appends are exactly the registry units inside the rectangle that were not listed |
| UnitMove.NewlyInsideDistinct | Assets/Scripts/UnitMove/UnitMovement.cs:255-265 | appending them keeps the selection free of duplicates |
| UnitMove.DragStep | Assets/Scripts/UnitMove/UnitMovement.cs:255-265 | one more iteration of the drag loop appends the unit iff it is inside and was not listed, and the list's `Contains` test gives the same answer for it as on the list before the drag |
| UnitMove.FirstFalseIsFirst | Assets/Scripts/UnitMove/UnitMovement.cs:523-543 | the ring scan stops at a free probe with every earlier probe occupied, or reports that all are occupied |
| UnitMove.SelectionList.constructor | Assets/Scripts/UnitMove/UnitMovement.cs:47 | the shared list starts empty |
| UnitMove.SelectionList.Clear | Assets/Scripts/UnitMove/UnitMovement.cs:63-66 | OnEnable empties the list and touches no flag |
| UnitMove.SelectionList.DeselectAllUnits | Assets/Scripts/UnitMove/UnitMovement.cs:343-353 | every unit that was listed is deselected, and the list is empty |
| UnitMove.SelectionList.DragSelectOne | Assets/Scripts/UnitMove/UnitMovement.cs:257-269 | one drag iteration: the unit's new flag is `DragFlag`, and it is appended iff inside and not yet listed |
| UnitMove.SelectionList.SelectAllUnitsWithSameTag | Assets/Scripts/UnitMove/UnitMovement.cs:317-338 | the list becomes exactly the tagged registry units in registry order, without duplicates; all of them are selected; previously listed units with another tag, or outside the registry, are deselected; registry units neither listed nor tagged keep their flags |
| UnitMove.SelectionList.AppendTagged | Assets/Scripts/UnitMove/UnitMovement.cs:324-332 | the loop over the registry appends the tagged units in order and sets their flags, leaving every other registry unit's flag as it was |
| UnitMove.SelectionList.DragSelect | Assets/Scripts/UnitMove/UnitMovement.cs:255-270 | the loop over the registry appends the newly covered units in registry order and gives every registry unit its `DragFlag` |
| UnitMove.UnitMovement.constructor | Assets/Scripts/UnitMove/UnitMovement.cs:12-44 | a unit starts unselected, idle, not patrolling and not dragging, with the configured settings |
| UnitMove.UnitMovement.HandleSingleClick | Assets/Scripts/UnitMove/UnitMovement.cs:169-196 | plain click on the unit: the list is exactly [this], it is selected, and everyone else listed is deselected; shift-click on it: it is selected and appended only if absent; plain click elsewhere: only this unit is removed and deselected; shift-click elsewhere: nothing changes |
| UnitMove.UnitMovement.HandleSingleClickAsWritten | Assets/Scripts/UnitMove/UnitMovement.cs:173-187 | in the source's statement order a plain click on an already listed unit leaves the list [this] with the flag false |
| UnitMove.UnitMovement.HandleDoubleClick | Assets/Scripts/UnitMove/UnitMovement.cs:158-163 | a double click selects and lists exactly the registry units with the hit object's tag; listed units without it are deselected; unlisted registry units without it keep their flags |
| UnitMove.UnitMovement.HandleUnitSelection | Assets/Scripts/UnitMove/UnitMovement.cs:132-152 | a click that hit something within the threshold after the last one is a double click, with the whole outcome of `HandleDoubleClick`; any other is a single click with the whole outcome of the corrected `HandleSingleClick` (see Findings), including the other listed units' flags; the click time is always recorded |
| UnitMove.UnitMovement.SelectUnitsInDragArea | Assets/Scripts/UnitMove/UnitMovement.cs:250-276 | every registry unit inside the rectangle ends up listed exactly once, with newly covered units appended in registry order; units outside are deselected but stay listed; already listed units inside keep their flag |
| UnitMove.UnitMovement.HandleDragSelection | Assets/Scripts/UnitMove/UnitMovement.cs:99-126 | the press records the start corner, holding stretches the rectangle to the mouse, and the release ends the drag, appends the newly covered units and gives every registry unit its `DragFlag`; without a release the list and every flag stay as they were |
| UnitMove.StillClickClearsFlags | Assets/Scripts/UnitMove/UnitMovement.cs:109-124 | when the button goes up with the rectangle of a click without mouse movement, every registry unit's flag is cleared, the unit just clicked included |
| UnitMove.UnitMovement.StopPatrol | Assets/Scripts/UnitMove/UnitMovement.cs:464-473 | no patrol coroutine remains and `isPatrolling` is false |
| UnitMove.UnitMovement.StopCurrentMovement | Assets/Scripts/UnitMove/UnitMovement.cs:233-245 | neither a move nor a patrol remains, and at most one coroutine is held |
| UnitMove.UnitMovement.OrderMoveTo | Assets/Scripts/UnitMove/UnitMovement.cs:214-217 | a move order cancels move and patrol and starts a move; a target already within 0.1 is snapped to at once |
| UnitMove.UnitMovement.StartPatrol | Assets/Scripts/UnitMove/UnitMovement.cs:451-459 | cancels any move or patrol, records the current position as the origin and the target, and starts the first leg towards the target |
| UnitMove.UnitMovement.StopMoving | Assets/Scripts/UnitMove/UnitMovement.cs:281-292 | this unit and every listed unit end with no move, no patrol and `isMoving` false |
| UnitMove.UnitMovement.HandlePatrolKey | Assets/Scripts/UnitMove/UnitMovement.cs:85-92 | a selected unit starts patrolling towards the mouse; an unselected one keeps its orders |
| UnitMove.UnitMovement.IsPositionOccupied | Assets/Scripts/UnitMove/UnitMovement.cs:555-574 | true iff some registry unit other than this one overlaps the circle of radius `unitRadius` around the point |
| UnitMove.UnitMovement.OverlapsOtherMono | Assets/Scripts/UnitMove/UnitMovement.cs:565-571 | an overlap found among the first units is an overlap among all of them |
| UnitMove.UnitMovement.ProbeAt | Assets/Scripts/UnitMove/UnitMovement.cs:523-536 | sample `i` of ring `ring` is probe number (ring - 1) · 8 + i, at radius ring · 2 · unitRadius |
| UnitMove.UnitMovement.NearestEmptyPositionIsFirstFree | Assets/Scripts/UnitMove/UnitMovement.cs:510-548 | a free target is returned unchanged; otherwise the first free probe in ring-then-sample order; with all 64 occupied, the target; an occupied result means the target and all probes are occupied |
| UnitMove.UnitMovement.FindNearestEmptyPosition | Assets/Scripts/UnitMove/UnitMovement.cs:510-548 | the nested ring loop with its early returns computes `NearestEmptyPosition`, whose meaning the lemma above states |
| UnitMove.UnitMovement.AssignOptimalPositions | Assets/Scripts/UnitMove/UnitMovement.cs:376-419 | every listed unit gets a slot, the one the greedy matching gives it from its position at the time of the order, and is sent there |
| UnitMove.UnitMovement.StartMoves | Assets/Scripts/UnitMove/UnitMovement.cs:410-417 | each listed unit in turn is given a move order to its own slot, starting from where it stood before the loop, and every unit stays valid |
| UnitMove.UnitMovement.MoveSelectedUnits | Assets/Scripts/UnitMove/UnitMovement.cs:360-370 | the units are matched greedily to the circular formation of one slot per unit around the target and sent to their slots |
| UnitMove.UnitMovement.HandleMovementCommand | Assets/Scripts/UnitMove/UnitMovement.cs:202-228 | one listed unit is sent to the nearest free spot around the mouse; several go into formation; an empty list changes nothing |
| UnitMove.UnitMovement.Tick | Assets/Scripts/UnitMove/UnitMovement.cs:298-311 | one frame of MoveToTarget or of PatrolCoroutine (lines 479-503): a walking move or patrol leg steps by `MoveTowards` while its last seen position was farther than 0.1; a move then snaps onto the target with `isMoving` false, a leg starts the wait, and a finished wait turns the patrol around |
| Status.Clamp | Assets/Scripts/UnitStatus/UnitStatus.cs:40 | with `lo <= hi` the result lies in [lo, hi], equals the value when that is in range, and is the nearer bound otherwise; with `hi < lo` it is one of the two bounds |
| Status.HealthRatio | Assets/Scripts/UnitStatus/UnitStatus.cs:41 | the announced ratio times maxHp gives back the health; for health in [0, maxHp] it lies in [0, 1]; full health is ratio 1; with maxHp 0 it is NaN |
| Status.Quotient | Assets/Scripts/UnitStatus/UnitStatus.cs:41 | the facts about `currentHp / maxHp` that the ratio rests on |
| Status.ActualDamage | Assets/Scripts/UnitStatus/UnitStatus.cs:81 | damage taken is at least 1 and at least damage minus defence, and exactly that when it is 1 or more |
| Status.CooldownMonotone | Assets/Scripts/UnitStatus/UnitStatus.cs:100 | once the attack cooldown is over it stays over as time advances |
| Status.UnitStatus.constructor | Assets/Scripts/UnitStatus/UnitStatus.cs:9-31 | a unit of any configured maximum health starts alive, not attacking, with its configured stats, fade time and components, which are not yet looked up |
| Status.UnitStatus.SetCurrentHealth | Assets/Scripts/UnitStatus/UnitStatus.cs:35-48 | the health becomes the clamped value (in [0, maxHp] when maxHp >= 0, at most 0 otherwise) and its ratio is announced; a unit with nothing left dies with all of Die's effects; a dead unit stays dead; the attack state and stats are untouched, and Die's fields change only when the unit dies |
| Status.UnitStatus.Start | Assets/Scripts/UnitStatus/UnitStatus.cs:54-63 | the last attack lies long ago and the components are looked up last; a positive maxHp gives full health announced as ratio 1 and changes nothing else; maxHp <= 0 leaves health 0 and the unit dead (ratio NaN for 0, 0 for a negative maxHp), and since Die runs before the lookup, the first Start only deactivates the object and leaves movement, collider, fade and health bar as they were |
| Status.UnitStatus.TakeDamage | Assets/Scripts/UnitStatus/UnitStatus.cs:77-84 | a dead unit takes 0 and nothing changes; a live one takes max(1, damage - defence) off its clamped health, announces the ratio, and dies with Die's effects iff none is left; a survivor's Die fields, attack state and stats are untouched |
| Status.UnitStatus.Heal | Assets/Scripts/UnitStatus/UnitStatus.cs:89-93 | a dead unit is unchanged; a live one gets the clamped sum, announces the ratio, and dies with Die's effects iff the clamped health is at most 0; a survivor's Die fields, attack state and stats are untouched |
| Status.UnitStatus.Die | Assets/Scripts/UnitStatus/UnitStatus.cs:150-205 | idempotent and one-way: the death event fires exactly once; movement and collider are disabled and the health bar hidden where Start found them; the unit keeps fading while active only with a sprite, the animation switch and a positive fade time, and is deactivated at once otherwise; nothing else changes |
| Status.UnitStatus.TryAttack | Assets/Scripts/UnitStatus/UnitStatus.cs:107-125 | succeeds iff the unit could attack; on failure nothing changes; on success it is attacking from `now` and cannot attack again at once; only `isAttacking` and `lastAttackTime` can change |
| Status.UnitStatus.EndAttack | Assets/Scripts/UnitStatus/UnitStatus.cs:142-145 | the attack ends, and the unit can attack again exactly when the cooldown since the last attack is over; only `isAttacking` changes |
| Status.UnitStatus.Update | Assets/Scripts/UnitStatus/UnitStatus.cs:217-224 | health at or below zero kills a live unit with all of Die's effects, and otherwise nothing changes |
| Status.UnitStatus.ModifyAttackDamage | Assets/Scripts/UnitStatus/UnitStatus.cs:211 | attack damage becomes max(0, old + amount), so never negative; no other field changes |
| Status.UnitStatus.ModifyDefense | Assets/Scripts/UnitStatus/UnitStatus.cs:212 | defence becomes max(0, old + amount), so never negative; no other field changes |
| Status.UnitStatus.ModifyAttackSpeed | Assets/Scripts/UnitStatus/UnitStatus.cs:213 | the data asset's attack speed becomes max(0.1, old · multiplier), no other field changes, and `CanAttack` is unaffected |
| Status.UnitStatus.ModifyAttackRange | Assets/Scripts/UnitStatus/UnitStatus.cs:214 | attack range becomes max(0.1, old + amount), so at least 0.1; no other field changes |
| Resources.Truncate | Assets/Scripts/Building/ResourceManager.cs:34 | C#'s `(int)` cast truncates toward zero: the result is within one of the value, on zero's side |
| Resources.TruncateTowardZero | Assets/Scripts/Building/ResourceManager.cs:40 | truncation keeps the sign and maps (-1, 1) to 0 |
| Resources.ResourceManager.constructor | Assets/Scripts/Building/ResourceManager.cs:6-9 | the manager starts with the given slider and balance and nothing announced |
| Resources.ResourceManager.CanSpendResources | Assets/Scripts/Building/ResourceManager.cs:24-27 | true iff a slider is attached and the balance covers the amount; changes nothing |
| Resources.ResourceManager.SpendResources | Assets/Scripts/Building/ResourceManager.cs:29-36 | succeeds iff affordable; on failure nothing changes; on success the balance drops by exactly the amount, the truncated new balance is announced once, and a non-negative amount leaves the balance non-negative |
| Resources.ResourceManager.GetCurrentResources | Assets/Scripts/Building/ResourceManager.cs:38-41 | zero without a slider, else the balance truncated toward zero |

## Left out

- Engine I/O: input polling, `ScreenToWorldPoint`, `Debug.Log`, gizmos, `Awake` component caching and the `Start` event set-up. Their results are inputs (`Hit`, mouse point, key states) or they have no effect on the modelled state.
- Trigonometry and square roots: the formation directions, the ring directions, the formation radius and the length for `MoveTowards` are inputs. Only their defining equations are required where the arithmetic needs them.
- Floating point: all quantities are exact reals. The formation scan starts from `float.MaxValue`, which is modelled as "no slot yet", and distances are compared squared, which orders slots the same way.
- `Update` of `UnitMovement` is modelled as its parts (`HandleDragSelection`, `HandleUnitSelection`, `HandleMovementCommand`, `StopMoving`, `HandlePatrolKey`). Their sequencing within a frame, and the repetition of all of them by every unit in the scene, are not modelled as a member.
- Coroutine scheduling: `StartCoroutine` runs a coroutine up to its first `yield` at once. The model starts a move at once only when no step is needed; otherwise the first step, like the step right after a patrol wait, is taken by the next `Tick`.
- UnitMove.UnitMovement.HandleUnitSelection: a single click goes to the corrected `HandleSingleClick` (see Findings), not to the source's statement order. A plain click on a unit that is already listed therefore leaves it selected, where the source leaves its flag false.
- UnitMove.UnitMovement.OrderMoveTo: like the source, it sets `isMoving` after starting the move, so an order whose target is already within reach leaves the unit marked moving.
- Null checks on selected units are not modelled, because no unit is ever destroyed in this repository.
- Colliders on the unit layer that belong to objects other than units are not modelled. The registry holds units only.
- Discs that merely touch count as not overlapping.
- Unit status: the `Invoke` delays between `StartAttack`, `ExecuteAttack` and `EndAttack`, the death fade-out animation, and the event listeners themselves are left out. Events are recorded as the sequence of values announced.
- Status.UnitStatus: each unit has its own health and stats. In the repository they live in a `BaseStatusData` asset (UnitStatus.cs:10). Units spawned from one prefab (BuildingSpawner.cs:109, SpawnUnit.cs:27) share that asset, so damage, healing and the `Modify*` calls on one unit would also change its siblings' `currentHp`, `defence`, `attackDamage`, `attackSpeed` and `attackRange`. That sharing is not modelled.
- Status.UnitStatus.constructor: it accepts any `maxHp`, and the model follows the code for it, including `Mathf.Clamp` with its bounds reversed, the IEEE ratio for `maxHp` = 0 (NaN), and a death in `Start` before the components are looked up. Infinities or NaN in stored fields are not modelled.
- Status.UnitStatus.Die: after the fade-out's first frame, the coroutine's later frames and its final `SetActive(false)` (UnitStatus.cs:193-205) are not modelled, so a unit that starts fading stays `active` in the model.
- Status.UnitStatus.ModifyAttackSpeed: it changes the data asset's attack speed, while `CanAttack` reads the component's own attack-speed field. The model proves the modifier has no effect on `CanAttack` instead of a link between the two.
- Resources: the slider's own value range, and the `int` width of amounts, are not modelled. `Start`'s search for a slider in the scene is replaced by the `hasSlider` input.

## Findings

| source | as written | input that shows it | evidently intended | confidence | as-written member | corrected member |
|---|---|---|---|---|---|---|
| Assets/Scripts/UnitMove/UnitMovement.cs:173-187 | `isSelected = true` runs before `DeselectAllUnits()`, which clears the flag of every listed unit, this one included | a plain (no shift) click on a unit that is already in the selection list | the clicked unit ends up the only selected unit with its flag set | not executed | UnitMove.UnitMovement.HandleSingleClickAsWritten | UnitMove.UnitMovement.HandleSingleClick |

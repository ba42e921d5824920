/**
 * Group move orders: the circular formation around the clicked point and
 * the greedy matching of selected units to its slots, where each unit in
 * list order takes the nearest slot no earlier unit has claimed.
 */
module Formation {
  import opened Geometry

  /**
   * Slot `i` of CalculateCircularFormation: the centre moved by `radius`
   * along the direction `dir`, which stands for (cos a, sin a) with
   * a = i * 360 / unitCount degrees.
   */
  function Slot(center: Vec2, dir: Vec2, radius: real): Vec2
  {
    Add(center, Scale(dir, radius))
  }

  /** Along a unit direction the slot lies exactly `radius` from the centre. */
  lemma SlotOnCircle(center: Vec2, dir: Vec2, radius: real)
    requires NormSq(dir) == 1.0
    ensures DistSq(Slot(center, dir, radius), center) == radius * radius
  {
    assert Sub(Slot(center, dir, radius), center) == Scale(dir, radius);
    NormSqScale(dir, radius);
  }

  /**
   * CalculateCircularFormation: one slot per unit on the circle of radius
   * `radius` = spacing * sqrt(unitCount) around `center`. The square root
   * and the directions `dirs` are inputs; the rest is the loop of the source.
   */
  method CalculateCircularFormation(center: Vec2, unitCount: nat, spacing: real,
                                    radius: real, dirs: seq<Vec2>)
    returns (positions: seq<Vec2>)
    requires |dirs| == unitCount
    requires radius >= 0.0 && radius * radius == spacing * spacing * unitCount as real
    ensures |positions| == unitCount
    ensures forall i :: 0 <= i < unitCount ==> positions[i] == Slot(center, dirs[i], radius)
    ensures forall i :: 0 <= i < unitCount && NormSq(dirs[i]) == 1.0 ==>
      DistSq(positions[i], center) == spacing * spacing * unitCount as real
  {
    positions := [];
    for i := 0 to unitCount
      invariant |positions| == i
      invariant forall k :: 0 <= k < i ==> positions[k] == Slot(center, dirs[k], radius)
      invariant forall k :: 0 <= k < i && NormSq(dirs[k]) == 1.0 ==>
        DistSq(positions[k], center) == radius * radius
    {
      var p := Vec2(center.x + radius * dirs[i].x, center.y + radius * dirs[i].y);
      assert p == Slot(center, dirs[i], radius);
      if NormSq(dirs[i]) == 1.0 {
        SlotOnCircle(center, dirs[i], radius);
      }
      positions := positions + [p];
    }
  }

  /**
   * The inner loop of AssignOptimalPositions over the first `n` slots: the
   * index of the nearest slot not in `claimed`, the earlier one on a tie
   * (the comparison is strict), or -1 when every slot is claimed.
   */
  function NearestAmong(p: Vec2, slots: seq<Vec2>, claimed: set<int>, n: nat): (k: int)
    requires n <= |slots|
    ensures -1 <= k < n
    ensures k != -1 ==> k !in claimed
    ensures k == -1 <==> forall j :: 0 <= j < n ==> j in claimed
  {
    if n == 0 then -1
    else
      var b := NearestAmong(p, slots, claimed, n - 1);
      if n - 1 in claimed then b
      else if b == -1 || DistSq(p, slots[n - 1]) < DistSq(p, slots[b]) then n - 1
      else b
  }

  /**
   * `k` is an unclaimed slot among the first `n` that no unclaimed slot
   * beats, and that every earlier unclaimed slot is strictly farther than.
   */
  predicate IsNearestUnclaimed(p: Vec2, slots: seq<Vec2>, claimed: set<int>, n: nat, k: int)
    requires n <= |slots|
  {
    && 0 <= k < n
    && k !in claimed
    && (forall j :: 0 <= j < n && j !in claimed ==> DistSq(p, slots[k]) <= DistSq(p, slots[j]))
    && (forall j :: 0 <= j < k && j !in claimed ==> DistSq(p, slots[k]) < DistSq(p, slots[j]))
  }

  /** The loop finds the nearest unclaimed slot, lowest index first among equals. */
  lemma {:induction false} NearestAmongIsNearest(p: Vec2, slots: seq<Vec2>, claimed: set<int>, n: nat)
    requires n <= |slots|
    ensures NearestAmong(p, slots, claimed, n) != -1 ==>
      IsNearestUnclaimed(p, slots, claimed, n, NearestAmong(p, slots, claimed, n))
  {
    if n > 0 {
      NearestAmongIsNearest(p, slots, claimed, n - 1);
    }
  }

  /** The slots taken by a sequence of choices, -1 meaning "none". */
  function Claimed(choices: seq<int>): (s: set<int>)
    ensures forall k :: k in s <==> k in choices && k >= 0
  {
    if |choices| == 0 then {}
    else
      var front, last := choices[..|choices| - 1], choices[|choices| - 1];
      assert choices == front + [last];
      Claimed(front) + (if last >= 0 then {last} else {})
  }

  /**
   * The greedy matching: unit `i` (at `positions[i]`) takes the nearest
   * slot not claimed by units `0..i-1`, or -1 when none is left.
   */
  function Greedy(positions: seq<Vec2>, slots: seq<Vec2>): (choices: seq<int>)
    ensures |choices| == |positions|
    ensures forall i :: 0 <= i < |choices| ==> -1 <= choices[i] < |slots|
  {
    if |positions| == 0 then []
    else
      var prev := Greedy(positions[..|positions| - 1], slots);
      prev + [NearestAmong(positions[|positions| - 1], slots, Claimed(prev), |slots|)]
  }

  /** One more unit extends the matching by that unit's choice. */
  lemma GreedyStep(positions: seq<Vec2>, slots: seq<Vec2>, i: nat)
    requires i < |positions|
    ensures Greedy(positions[..i + 1], slots) ==
      Greedy(positions[..i], slots)
        + [NearestAmong(positions[i], slots, Claimed(Greedy(positions[..i], slots)), |slots|)]
  {
    assert positions[..i + 1][..i] == positions[..i];
  }

  /** One more choice claims that slot, if it is one. */
  lemma ClaimedSnoc(choices: seq<int>, k: int)
    requires k >= -1
    ensures Claimed(choices + [k]) == Claimed(choices) + (if k != -1 then {k} else {})
  {
    assert (choices + [k])[..|choices|] == choices;
  }

  /** The matching of a prefix of the units is the prefix of the matching. */
  lemma {:induction false} GreedyPrefix(positions: seq<Vec2>, slots: seq<Vec2>, i: nat)
    requires i <= |positions|
    ensures Greedy(positions[..i], slots) == Greedy(positions, slots)[..i]
    decreases |positions|
  {
    if i < |positions| {
      var front := positions[..|positions| - 1];
      GreedyPrefix(front, slots, i);
      assert front[..i] == positions[..i];
    } else {
      assert positions[..i] == positions;
    }
  }

  /** Each unit's slot is the nearest one left by the units before it. */
  lemma GreedyChoice(positions: seq<Vec2>, slots: seq<Vec2>, i: nat)
    requires i < |positions|
    ensures var choices := Greedy(positions, slots);
      choices[i] == NearestAmong(positions[i], slots, Claimed(choices[..i]), |slots|)
  {
    GreedyPrefix(positions, slots, i + 1);
    GreedyPrefix(positions, slots, i);
    var pre := positions[..i + 1];
    assert pre[..|pre| - 1] == positions[..i];
  }

  /**
   * Every unit that gets a slot gets one no earlier unit claimed, of
   * minimal distance among the slots still free, the lowest index among
   * equally near ones; a unit gets none only when every slot is taken.
   */
  lemma GreedyNearest(positions: seq<Vec2>, slots: seq<Vec2>, i: nat)
    requires i < |positions|
    ensures var choices := Greedy(positions, slots);
      && (choices[i] != -1 ==>
            IsNearestUnclaimed(positions[i], slots, Claimed(choices[..i]), |slots|, choices[i]))
      && (choices[i] == -1 <==> forall j :: 0 <= j < |slots| ==> j in Claimed(choices[..i]))
  {
    var choices := Greedy(positions, slots);
    GreedyChoice(positions, slots, i);
    NearestAmongIsNearest(positions[i], slots, Claimed(choices[..i]), |slots|);
  }

  /** No slot is claimed twice. */
  lemma GreedyDistinct(positions: seq<Vec2>, slots: seq<Vec2>, i: nat, j: nat)
    requires i < j < |positions|
    requires Greedy(positions, slots)[i] != -1
    ensures Greedy(positions, slots)[i] != Greedy(positions, slots)[j]
  {
    var choices := Greedy(positions, slots);
    GreedyChoice(positions, slots, j);
    assert choices[..j][i] == choices[i];
    assert choices[i] in Claimed(choices[..j]);
  }

  /** A sequence of `n` choices claims at most `n` slots. */
  lemma {:induction false} ClaimedBound(choices: seq<int>)
    ensures |Claimed(choices)| <= |choices|
  {
    if |choices| > 0 {
      ClaimedBound(choices[..|choices| - 1]);
    }
  }

  /** The indices below `n`. */
  function Below(n: nat): (s: set<int>)
    ensures |s| == n
    ensures forall j :: j in s <==> 0 <= j < n
  {
    if n == 0 then {} else Below(n - 1) + {n - 1}
  }

  /** A set holding all indices below `n` has at least `n` elements. */
  lemma {:induction false} BelowCard(n: nat, t: set<int>)
    requires Below(n) <= t
    ensures n <= |t|
  {
    if n > 0 {
      assert n - 1 in t;
      BelowCard(n - 1, t - {n - 1});
    }
  }

  /** With at least as many slots as units, every unit gets a slot. */
  lemma GreedyComplete(positions: seq<Vec2>, slots: seq<Vec2>, i: nat)
    requires i < |positions| <= |slots|
    ensures Greedy(positions, slots)[i] != -1
  {
    var choices := Greedy(positions, slots);
    GreedyNearest(positions, slots, i);
    if choices[i] == -1 {
      var taken := Claimed(choices[..i]);
      ClaimedBound(choices[..i]);
      BelowCard(|slots|, taken);
      assert false;
    }
  }

  /**
   * The inner loop of AssignOptimalPositions: scans the slots in order,
   * skipping claimed ones, and keeps the first strictly nearer one.
   */
  method NearestFreeSlot(p: Vec2, slots: seq<Vec2>, assignedPositions: array<bool>,
                         ghost claimed: set<int>)
    returns (best: int)
    requires |slots| <= assignedPositions.Length
    requires forall j :: 0 <= j < |slots| ==> (assignedPositions[j] <==> j in claimed)
    ensures best == NearestAmong(p, slots, claimed, |slots|)
  {
    var shortest := 0.0;
    best := -1;
    for posIndex := 0 to |slots|
      invariant best == NearestAmong(p, slots, claimed, posIndex)
      invariant best != -1 ==> shortest == DistSq(p, slots[best])
    {
      if assignedPositions[posIndex] {
        continue;
      }
      var distance := DistSq(p, slots[posIndex]);
      if best == -1 || distance < shortest {
        shortest := distance;
        best := posIndex;
      }
    }
  }

  /** Marks the chosen slot, if any, as assigned. */
  method Claim(assignedPositions: array<bool>, best: int, ghost claimed: set<int>)
    requires -1 <= best < assignedPositions.Length
    requires forall j :: 0 <= j < assignedPositions.Length ==> (assignedPositions[j] <==> j in claimed)
    modifies assignedPositions
    ensures forall j :: 0 <= j < assignedPositions.Length ==>
      (assignedPositions[j] <==> j in claimed + (if best != -1 then {best} else {}))
  {
    if best != -1 {
      assignedPositions[best] := true;
    }
  }

  /**
   * The outer loop of AssignOptimalPositions with its `bool[]` of claimed
   * slots, one entry per unit. The source starts each unit's move inside
   * this loop; the choice only reads positions, so the moves are started
   * by the caller afterwards.
   */
  method AssignOptimalPositions(positions: seq<Vec2>, slots: seq<Vec2>) returns (choices: seq<int>)
    requires |slots| <= |positions|
    ensures choices == Greedy(positions, slots)
  {
    var n := |positions|;
    var assignedPositions := new bool[n](_ => false);
    choices := [];
    ghost var claimed: set<int> := {};
    for unitIndex := 0 to n
      invariant choices == Greedy(positions[..unitIndex], slots)
      invariant claimed == Claimed(choices)
      invariant forall j :: 0 <= j < n ==> (assignedPositions[j] <==> j in claimed)
    {
      var best := NearestFreeSlot(positions[unitIndex], slots, assignedPositions, claimed);
      Claim(assignedPositions, best, claimed);
      GreedyStep(positions, slots, unitIndex);
      ClaimedSnoc(choices, best);
      choices := choices + [best];
      claimed := claimed + (if best != -1 then {best} else {});
    }
    assert positions[..n] == positions;
  }
}

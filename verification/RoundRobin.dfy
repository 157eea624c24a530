/**
 What rotating a row of 64 slots, holes included, gives each queued task: how soon its turn comes
 and how large its share is.
 */
module RoundRobin {
  import opened Words
  import opened RunQueues

  function Rotations(slots: Slots, n: nat): (r: Slots)
    requires |slots| == MAX_TASKS
    ensures |r| == MAX_TASKS
  {
    if n == 0 then slots else Shifted(Rotations(slots, n - 1))
  }

  /** After n rotations slot i holds what slot i + n, counted cyclically, held. */
  lemma {:induction false} RotationsAt(slots: Slots, n: nat, i: nat)
    requires |slots| == MAX_TASKS && i < MAX_TASKS
    ensures Rotations(slots, n)[i] == slots[(i + n) % MAX_TASKS]
  {
    if n > 0 {
      var before := Rotations(slots, n - 1);
      assert Rotations(slots, n)[i] == before[(i + 1) % MAX_TASKS];
      RotationsAt(slots, n - 1, (i + 1) % MAX_TASKS);
      assert ((i + 1) % MAX_TASKS + (n - 1)) % MAX_TASKS == (i + n) % MAX_TASKS;
    }
  }

  /** Sixty-four rotations restore the row. */
  lemma FullTurn(slots: Slots)
    requires |slots| == MAX_TASKS
    ensures Rotations(slots, MAX_TASKS) == slots
  {
    forall i: nat | i < MAX_TASKS
      ensures Rotations(slots, MAX_TASKS)[i] == slots[i]
    {
      RotationsAt(slots, MAX_TASKS, i);
    }
  }

  /** One rotation keeps the head when slot 0 is a hole, and otherwise moves to its cyclic successor. */
  lemma KeepsOrAdvances(slots: Slots)
    requires |slots| == MAX_TASKS
    ensures First(Shifted(slots)) ==
            if slots[0].None? then First(slots)
            else if FirstOccupied(slots, 1) < MAX_TASKS then slots[FirstOccupied(slots, 1)]
            else slots[0]
  {
    var k := FirstOccupied(slots, 1);
    var slots' := Shifted(slots);
    if k < MAX_TASKS {
      assert slots'[k - 1] == slots[k];
      assert forall j :: 0 <= j < k - 1 ==> slots'[j] == slots[j + 1];
      assert FirstOccupied(slots', 0) == k - 1;
      assert slots[0].None? ==> FirstOccupied(slots, 0) == k;
    } else {
      assert forall j :: 0 <= j < MAX_TASKS - 1 ==> slots'[j] == slots[j + 1];
      assert slots'[MAX_TASKS - 1] == slots[0];
      assert slots[0].Some? ==> FirstOccupied(slots', 0) == MAX_TASKS - 1;
      assert slots[0].None? ==> FirstOccupied(slots, 0) == MAX_TASKS && FirstOccupied(slots', 0) == MAX_TASKS;
    }
  }

  // ---- Turns ----

  /** The slot d places before p, counted cyclically. */
  function Before(p: nat, d: nat): (i: nat)
    requires p < MAX_TASKS && d <= MAX_TASKS
    ensures i < MAX_TASKS
  {
    (p + MAX_TASKS - d) % MAX_TASKS
  }

  /** The cyclic distance to p from the previous occupied slot. */
  function Gap(slots: Slots, p: nat, d: nat): (g: nat)
    requires |slots| == MAX_TASKS && p < MAX_TASKS && 1 <= d <= MAX_TASKS && slots[p].Some?
    ensures d <= g <= MAX_TASKS
    ensures slots[Before(p, g)].Some?
    ensures forall e :: d <= e < g ==> slots[Before(p, e)].None?
    decreases MAX_TASKS - d
  {
    if slots[Before(p, d)].Some? then d else Gap(slots, p, d + 1)
  }

  lemma RotatedBefore(slots: Slots, p: nat, n: nat, d: nat, e: nat)
    requires |slots| == MAX_TASKS && p < MAX_TASKS && d < MAX_TASKS && (n + d) % MAX_TASKS == p && e <= d
    ensures Rotations(slots, n)[d - e] == slots[Before(p, e)]
  {
    hide Rotations;
    RotationsAt(slots, n, d - e);
    BeforeRotated(p, n, d, e);
  }

  lemma HeadAcrossHoles(slots: Slots, p: nat, n: nat, d: nat)
    requires |slots| == MAX_TASKS && p < MAX_TASKS && slots[p].Some?
    requires d < MAX_TASKS && (n + d) % MAX_TASKS == p && d < Gap(slots, p, 1)
    ensures First(Rotations(slots, n)) == slots[p]
  {
    hide Rotations, Before, Gap;
    var r := Rotations(slots, n);
    forall j | 0 <= j < d
      ensures r[j].None?
    {
      RotatedBefore(slots, p, n, d, d - j);
    }
    RotatedBefore(slots, p, n, d, 0);
    assert Before(p, 0) == p by { BeforeZero(p); }
    assert FirstOccupied(r, 0) == d;
  }

  lemma BeforeZero(p: nat)
    requires p < MAX_TASKS
    ensures Before(p, 0) == p
  {
  }

  lemma HeadBlocked(slots: Slots, p: nat, n: nat, d: nat)
    requires |slots| == MAX_TASKS && Distinct(slots) && p < MAX_TASKS && slots[p].Some?
    requires d < MAX_TASKS && (n + d) % MAX_TASKS == p && d >= Gap(slots, p, 1)
    ensures First(Rotations(slots, n)) != slots[p]
  {
    hide Rotations, Before, Gap, Distinct;
    var r := Rotations(slots, n);
    var g := Gap(slots, p, 1);
    RotatedBefore(slots, p, n, d, g);
    var k := FirstOccupied(r, 0);
    RotationsAt(slots, n, k);
    DistinctSlots(slots, (k + n) % MAX_TASKS, p, n, k, d);
  }

  /** d rotations before p reaches slot 0, the head is p's task exactly when the d slots in between are holes. */
  lemma HeadBefore(slots: Slots, p: nat, n: nat, d: nat)
    requires |slots| == MAX_TASKS && Distinct(slots) && p < MAX_TASKS && slots[p].Some?
    requires d < MAX_TASKS && (n + d) % MAX_TASKS == p
    ensures First(Rotations(slots, n)) == slots[p] <==> d < Gap(slots, p, 1)
  {
    hide Rotations, Gap, First, Distinct;
    if d < Gap(slots, p, 1) {
      HeadAcrossHoles(slots, p, n, d);
    } else {
      HeadBlocked(slots, p, n, d);
    }
  }

  lemma BeforeRotated(p: nat, n: nat, d: nat, e: nat)
    requires p < MAX_TASKS && d < MAX_TASKS && (n + d) % MAX_TASKS == p && e <= d
    ensures (d - e + n) % MAX_TASKS == Before(p, e)
  {
  }

  lemma DistinctSlots(slots: Slots, i: nat, p: nat, n: nat, k: nat, d: nat)
    requires |slots| == MAX_TASKS && Distinct(slots) && p < MAX_TASKS && slots[p].Some?
    requires k < d < MAX_TASKS && i == (k + n) % MAX_TASKS && p == (d + n) % MAX_TASKS
    ensures slots[i] != slots[p]
  {
    assert i != p;
  }

  /** The turn, between 1 and 64, that comes d rotations before p reaches slot 0. */
  function Turn(p: nat, d: nat): (n: nat)
    requires p < MAX_TASKS && d < MAX_TASKS
    ensures 1 <= n <= MAX_TASKS && (n + d) % MAX_TASKS == p
  {
    if p > d then p - d else p + MAX_TASKS - d
  }

  ghost function Turns(p: nat, g: nat): set<nat>
    requires p < MAX_TASKS && g <= MAX_TASKS
  {
    set d: nat | d < g :: Turn(p, d)
  }

  lemma {:induction false} TurnsSize(p: nat, g: nat)
    requires p < MAX_TASKS && g <= MAX_TASKS
    ensures |Turns(p, g)| == g
  {
    hide Turn;
    if g > 0 {
      TurnsSize(p, g - 1);
      assert Turns(p, g) == Turns(p, g - 1) + {Turn(p, g - 1)};
      assert Turn(p, g - 1) !in Turns(p, g - 1) by {
        forall d: nat | d < g - 1 ensures Turn(p, d) != Turn(p, g - 1) {
          if Turn(p, d) == Turn(p, g - 1) { SameTurn(p, d, g - 1); }
        }
      }
    }
  }

  /** The calls, out of 64 in a row, that select a task. */
  ghost function Selections(slots: Slots, id: TaskId): set<nat>
    requires |slots| == MAX_TASKS
  {
    set n: nat | 1 <= n <= MAX_TASKS && First(Rotations(slots, n)) == Some(id)
  }

  /**
   Out of 64 consecutive rotations, each queued task is selected exactly as often as the cyclic distance
   from the previous occupied slot to its own.
   */
  lemma ExactShare(slots: Slots, p: nat)
    requires |slots| == MAX_TASKS && Distinct(slots) && p < MAX_TASKS && slots[p].Some?
    ensures |Selections(slots, slots[p].value)| == Gap(slots, p, 1)
  {
    hide Rotations, Gap, First, Distinct, Turn;
    var g := Gap(slots, p, 1);
    forall n: nat | 1 <= n <= MAX_TASKS
      ensures n in Selections(slots, slots[p].value) <==> n in Turns(p, g)
    {
      ShareStep(slots, p, n, g);
    }
    assert forall n :: n in Turns(p, g) ==> 1 <= n <= MAX_TASKS;
    assert Selections(slots, slots[p].value) == Turns(p, g);
    TurnsSize(p, g);
  }

  lemma ShareStep(slots: Slots, p: nat, n: nat, g: nat)
    requires |slots| == MAX_TASKS && Distinct(slots) && p < MAX_TASKS && slots[p].Some?
    requires 1 <= n <= MAX_TASKS && g == Gap(slots, p, 1)
    ensures First(Rotations(slots, n)) == slots[p] <==> n in Turns(p, g)
  {
    hide Rotations, Gap, First, Distinct, Turn;
    var d := (p + MAX_TASKS - n % MAX_TASKS) % MAX_TASKS;
    TurnOf(p, n, d);
    HeadBefore(slots, p, n, d);
    if n in Turns(p, g) {
      var e: nat :| e < g && Turn(p, e) == n;
      SameTurn(p, d, e);
    }
  }

  lemma TurnOf(p: nat, n: nat, d: nat)
    requires p < MAX_TASKS && 1 <= n <= MAX_TASKS && d == (p + MAX_TASKS - n % MAX_TASKS) % MAX_TASKS
    ensures Turn(p, d) == n && (n + d) % MAX_TASKS == p
  {
  }

  lemma SameTurn(p: nat, d: nat, e: nat)
    requires p < MAX_TASKS && d < MAX_TASKS && e < MAX_TASKS && Turn(p, d) == Turn(p, e)
    ensures d == e
  {
  }

  /** Every queued task is selected at the rotation that brings it to slot 0, within 64. */
  lemma ReachesFront(slots: Slots, p: nat)
    requires |slots| == MAX_TASKS && p < MAX_TASKS && slots[p].Some?
    ensures First(Rotations(slots, Turn(p, 0))) == slots[p]
  {
    RotationsAt(slots, Turn(p, 0), 0);
    assert FirstOccupied(Rotations(slots, Turn(p, 0)), 0) == 0;
  }
}

/**
 * The one-shot animated counter used by the "About" and "Achievements"
 * sections. It idles until its element first comes into view; then a single
 * interval adds `value / steps` to an accumulator on every tick and shows the
 * floor of the accumulator, until the accumulator reaches the target: then it
 * shows exactly the target and clears the interval. A counter given a text
 * label instead of a number shows the label and never starts an interval.
 *
 * Time is modelled as discrete ticks of the interval, and the accumulator
 * `current` is an exact real.
 */
module Counter {
  import Decimal

  /** What a counter displays: a number to count up to, or a fixed label. */
  datatype CounterValue = Numeric(n: int) | Label(text: string)

  /** What one tick adds to the accumulator. */
  function Increment(target: int, steps: nat): real
    requires steps > 0
  {
    target as real / steps as real
  }

  /** The accumulator after `k` ticks: `k` additions of the increment to 0. */
  function Accumulated(target: int, steps: nat, k: nat): real
    requires steps > 0
  {
    if k == 0 then 0.0 else Accumulated(target, steps, k - 1) + Increment(target, steps)
  }

  lemma {:induction false} AccumulatedClosedForm(target: int, steps: nat, k: nat)
    requires steps > 0
    ensures Accumulated(target, steps, k) == k as real * Increment(target, steps)
  {
    if k > 0 {
      AccumulatedClosedForm(target, steps, k - 1);
    }
  }

  /** For a non-negative target, the accumulator never decreases from one tick to a later one. */
  lemma AccumulatedMonotone(target: int, steps: nat, j: nat, k: nat)
    requires steps > 0 && target >= 0 && j <= k
    ensures Accumulated(target, steps, j) <= Accumulated(target, steps, k)
  {
    AccumulatedClosedForm(target, steps, j);
    AccumulatedClosedForm(target, steps, k);
    var inc := Increment(target, steps);
    assert k as real * inc == j as real * inc + (k - j) as real * inc;
  }

  /**
   * The count shown after `k` ticks of an uninterrupted run: the target once
   * the accumulator has reached it, its floor before (0 before the first tick).
   */
  function DisplayAfter(target: int, steps: nat, k: nat): int
    requires steps > 0
  {
    var current := Accumulated(target, steps, k);
    if k > 0 && current >= target as real then target else current.Floor
  }

  /** The tick on which the count snaps to the target: the last of `steps` for a positive target, else the first. */
  function FinishTick(target: int, steps: nat): (t: nat)
    requires steps > 0
    ensures 1 <= t <= steps
  {
    if target > 0 then steps else 1
  }

  /**
   * With exact arithmetic the accumulator first reaches the target on tick
   * `FinishTick`: it is below the target on every earlier tick, and on tick
   * `steps` it equals a positive target exactly.
   */
  lemma FinishesAtFinishTick(target: int, steps: nat)
    requires steps > 0
    ensures Accumulated(target, steps, FinishTick(target, steps)) >= target as real
    ensures forall k :: 0 < k < FinishTick(target, steps) ==> Accumulated(target, steps, k) < target as real
    ensures target > 0 ==> Accumulated(target, steps, steps) == target as real
  {
    var inc := Increment(target, steps);
    AccumulatedClosedForm(target, steps, steps);
    assert steps as real * inc == target as real;
    if target > 0 {
      forall k | 0 < k < steps
        ensures Accumulated(target, steps, k) < target as real
      {
        AccumulatedClosedForm(target, steps, k);
        assert k as real * inc < steps as real * inc;
      }
    } else {
      AccumulatedClosedForm(target, steps, 1);
      assert inc <= 0.0;
      assert target as real - inc == inc * (steps as real - 1.0);
      assert inc * (steps as real - 1.0) <= 0.0;
    }
  }

  /** For a non-negative target the count shown stays between 0 and the target, and below it until the finish tick. */
  lemma DisplayBounds(target: int, steps: nat, k: nat)
    requires steps > 0 && target >= 0
    ensures 0 <= DisplayAfter(target, steps, k) <= target
    ensures 0 < k < FinishTick(target, steps) ==> DisplayAfter(target, steps, k) < target
  {
    AccumulatedMonotone(target, steps, 0, k);
    FinishesAtFinishTick(target, steps);
  }

  /** For a non-negative target, successive counts shown never decrease. */
  lemma DisplayMonotone(target: int, steps: nat, j: nat, k: nat)
    requires steps > 0 && target >= 0 && j <= k
    ensures DisplayAfter(target, steps, j) <= DisplayAfter(target, steps, k)
  {
    AccumulatedMonotone(target, steps, j, k);
    DisplayBounds(target, steps, j);
    DisplayBounds(target, steps, k);
  }

  /** From the finish tick on, a non-negative target is shown exactly: no undershoot, no overshoot. */
  lemma DisplayFinal(target: int, steps: nat, k: nat)
    requires steps > 0 && target >= 0 && k >= FinishTick(target, steps)
    ensures DisplayAfter(target, steps, k) == target
  {
    FinishesAtFinishTick(target, steps);
    AccumulatedMonotone(target, steps, FinishTick(target, steps), k);
  }

  /** The state of one mounted counter. */
  class AnimatedCounter {
    const value: CounterValue
    const steps: nat
    const suffix: string
    var count: int
    var current: real
    var isInView: bool
    var timerActive: bool
    var disposed: bool
    /** The number of ticks the interval has delivered. */
    ghost var ticks: nat

    /** The count has snapped to the target. */
    ghost predicate Completed()
      reads this
    {
      value.Numeric? && ticks > 0 && current >= value.n as real
    }

    ghost predicate Valid()
      reads this
    {
      steps > 0 &&
      // nothing happens before the element is first in view, or for a label
      ((!isInView || value.Label?) ==> ticks == 0 && current == 0.0 && count == 0 && !timerActive) &&
      // the accumulator and the count follow the tick schedule
      (value.Numeric? ==>
        current == Accumulated(value.n, steps, ticks) &&
        count == DisplayAfter(value.n, steps, ticks) &&
        ticks <= FinishTick(value.n, steps) &&
        (Completed() ==> ticks == FinishTick(value.n, steps))) &&
      // at most one live interval, and only while the count is below the target
      (timerActive ==> !disposed && !Completed()) &&
      (value.Numeric? && isInView && !disposed ==> timerActive || Completed())
    }

    constructor (value: CounterValue, steps: nat, suffix: string)
      requires steps > 0
      ensures Valid()
      ensures this.value == value && this.steps == steps && this.suffix == suffix
      ensures count == 0 && !isInView && !timerActive && !disposed
    {
      this.value := value;
      this.steps := steps;
      this.suffix := suffix;
      count := 0;
      current := 0.0;
      isInView := false;
      timerActive := false;
      disposed := false;
      ticks := 0;
    }

    /**
     * The element enters the viewport. The first time (and only while
     * mounted) this latches `isInView`; for a number it starts the interval
     * with the accumulator at 0, for a label it starts nothing.
     */
    method BecomeVisible()
      requires Valid()
      modifies this`isInView, this`timerActive, this`current
      ensures Valid()
      ensures !old(isInView) && !disposed ==> isInView && timerActive == value.Numeric? && current == 0.0
      ensures old(isInView) || disposed ==>
        isInView == old(isInView) && timerActive == old(timerActive) && current == old(current)
      ensures count == old(count)
    {
      if !isInView && !disposed {
        isInView := true;
        if value.Numeric? {
          current := 0.0;
          timerActive := true;
        }
      }
    }

    /**
     * One firing of the interval: add the increment; at or past the target
     * show exactly the target and clear the interval, otherwise show the floor.
     * Without a live interval nothing changes.
     */
    method Tick()
      requires Valid()
      modifies this`current, this`count, this`timerActive, this`ticks
      ensures Valid()
      ensures !old(timerActive) ==>
        count == old(count) && current == old(current) && !timerActive && ticks == old(ticks)
      ensures old(timerActive) ==>
        ticks == old(ticks) + 1 && current == old(current) + Increment(value.n, steps) &&
        (timerActive <==> current < value.n as real)
      ensures old(timerActive) && !timerActive ==> count == value.n && ticks == FinishTick(value.n, steps)
      ensures value.Numeric? && value.n >= 0 ==> old(count) <= count <= value.n
    {
      if timerActive {
        var target := value.n;
        FinishesAtFinishTick(target, steps);
        current := current + Increment(target, steps);
        ticks := ticks + 1;
        if current >= target as real {
          count := target;
          timerActive := false;
        } else {
          count := current.Floor;
        }
        if target >= 0 {
          DisplayMonotone(target, steps, ticks - 1, ticks);
          DisplayBounds(target, steps, ticks);
        }
      } else if value.Numeric? && value.n >= 0 {
        DisplayBounds(value.n, steps, ticks);
      }
    }

    /** Unmounting: the interval is cleared, so no later tick changes anything. */
    method Dispose()
      requires Valid()
      modifies this`timerActive, this`disposed
      ensures Valid()
      ensures disposed && !timerActive
      ensures count == old(count) && current == old(current)
    {
      timerActive := false;
      disposed := true;
    }

    /** The rendered text: a label verbatim, otherwise the count followed by the suffix. */
    function Render(): string
      reads this
    {
      match value
      case Label(t) => t
      case Numeric(_) => Decimal.FromInt(count) + suffix
    }
  }

  /**
   * What a counter shows: a label always verbatim; a number as "0" and the
   * suffix until the element is in view, as the target and the suffix once
   * the count has snapped, and as a number below the target in between.
   */
  lemma RenderedText(c: AnimatedCounter)
    requires c.Valid()
    ensures c.value.Label? ==> c.Render() == c.value.text
    ensures c.value.Numeric? && !c.isInView ==> c.Render() == "0" + c.suffix
    ensures c.Completed() ==> c.Render() == Decimal.FromInt(c.value.n) + c.suffix
    ensures c.value.Numeric? && c.value.n >= 0 && !c.Completed() && c.ticks > 0 ==>
      exists k: nat :: k < c.value.n && c.Render() == Decimal.FromNat(k) + c.suffix
  {
    if c.value.Numeric? && c.value.n >= 0 && !c.Completed() && c.ticks > 0 {
      DisplayBounds(c.value.n, c.steps, c.ticks);
      var k: nat := c.count;
      assert c.Render() == Decimal.FromNat(k) + c.suffix;
    }
  }

  /**
   * A counter's whole life for a number: mount, come into view, and let the
   * interval fire until it clears itself. Returns the count shown after each
   * tick and the final text.
   */
  method RunToCompletion(target: int, steps: nat, suffix: string) returns (shown: seq<int>, text: string)
    requires steps > 0
    ensures |shown| == FinishTick(target, steps)
    ensures shown[|shown| - 1] == target
    ensures forall i :: 0 <= i < |shown| - 1 ==> shown[i] < target
    ensures target >= 0 ==> forall i, j :: 0 <= i <= j < |shown| ==> 0 <= shown[i] <= shown[j]
    ensures text == Decimal.FromInt(target) + suffix
  {
    var c := new AnimatedCounter(Numeric(target), steps, suffix);
    c.BecomeVisible();
    shown := [];
    while c.timerActive
      invariant c.Valid() && c.value == Numeric(target) && c.steps == steps && c.suffix == suffix
      invariant c.isInView && !c.disposed
      invariant |shown| == c.ticks
      invariant forall i :: 0 <= i < |shown| ==> shown[i] == DisplayAfter(target, steps, i + 1)
      invariant c.timerActive ==> c.ticks < FinishTick(target, steps)
      decreases FinishTick(target, steps) - c.ticks
    {
      FinishesAtFinishTick(target, steps);
      c.Tick();
      shown := shown + [c.count];
    }
    FinishesAtFinishTick(target, steps);
    forall i | 0 <= i < |shown| - 1
      ensures shown[i] < target
    {
      assert Accumulated(target, steps, i + 1) < target as real;
    }
    if target >= 0 {
      forall i, j | 0 <= i <= j < |shown|
        ensures 0 <= shown[i] <= shown[j]
      {
        DisplayMonotone(target, steps, i + 1, j + 1);
        DisplayBounds(target, steps, i + 1);
      }
    }
    text := c.Render();
  }
}

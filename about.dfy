/**
 * The "About" section's statistics and the counter it animates them with:
 * 60 ticks per animation, a numeric value and an explicit suffix.
 */
module About {
  import opened Counter
  import Decimal

  /** Ticks per animation (the 2000 ms duration is spread over them). */
  const Steps: nat := 60

  datatype Stat = Stat(caption: string, value: int, suffix: string)

  const Stats: seq<Stat> := [
    Stat("Problems Solved", 500, "+"),
    Stat("Projects Completed", 15, "+"),
    Stat("Technologies", 20, "+"),
    Stat("Contest Participated", 50, "+")
  ]

  /** A freshly mounted counter for a numeric value: count 0, not in view, no interval. */
  method NewCounter(value: int, suffix: string) returns (c: AnimatedCounter)
    ensures fresh(c) && c.Valid()
    ensures c.value == Numeric(value) && c.steps == Steps && c.suffix == suffix
    ensures c.count == 0 && !c.isInView && !c.timerActive && !c.disposed
  {
    c := new AnimatedCounter(Numeric(value), Steps, suffix);
  }

  /**
   * Animating one statistic: for a positive value the count snaps to the
   * value on tick 60 and not before, and the final text is the value followed
   * by the suffix.
   */
  method AnimateStat(stat: Stat) returns (shown: seq<int>, text: string)
    ensures stat.value > 0 ==> |shown| == Steps
    ensures stat.value <= 0 ==> |shown| == 1
    ensures |shown| > 0 && shown[|shown| - 1] == stat.value
    ensures forall i :: 0 <= i < |shown| - 1 ==> shown[i] < stat.value
    ensures stat.value >= 0 ==> forall i, j :: 0 <= i <= j < |shown| ==> 0 <= shown[i] <= shown[j]
    ensures text == Decimal.FromInt(stat.value) + stat.suffix
  {
    shown, text := RunToCompletion(stat.value, Steps, stat.suffix);
  }

  /** Every statistic is positive, so each one snaps to its value on tick 60. */
  lemma StatsSnapOnLastTick()
    ensures forall i :: 0 <= i < |Stats| ==> FinishTick(Stats[i].value, Steps) == Steps
  {
  }

  /** The first statistic ends up rendered as "500+". */
  lemma ProblemsSolvedFinalText()
    ensures Decimal.FromInt(Stats[0].value) + Stats[0].suffix == "500+"
  {
  }
}

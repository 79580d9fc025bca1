/**
 * The "Achievements" section's platform statistics and its counter variant:
 * 40 ticks per animation, a value that is either a number or a text label,
 * and a suffix that defaults to the empty string.
 */
module Achievements {
  import opened Counter
  import Decimal

  /** Ticks per animation (the 1500 ms duration is spread over them). */
  const Steps: nat := 40

  datatype PlatformStat = PlatformStat(caption: string, value: CounterValue)

  const LeetCodeStats: seq<PlatformStat> := [
    PlatformStat("Problems", Numeric(300)),
    PlatformStat("Easy", Numeric(120)),
    PlatformStat("Medium", Numeric(150)),
    PlatformStat("Hard", Numeric(30))
  ]

  const GeeksforGeeksStats: seq<PlatformStat> := [
    PlatformStat("Problems", Numeric(200)),
    PlatformStat("Score", Numeric(500)),
    PlatformStat("Rank", Label("Top 10%"))
  ]

  /** A freshly mounted counter; the suffix is empty unless one is given. */
  method NewCounter(value: CounterValue, suffix: string := "") returns (c: AnimatedCounter)
    ensures fresh(c) && c.Valid()
    ensures c.value == value && c.steps == Steps && c.suffix == suffix
    ensures c.count == 0 && !c.isInView && !c.timerActive && !c.disposed
  {
    c := new AnimatedCounter(value, Steps, suffix);
  }

  /**
   * A label counter that comes into view: it starts no interval and renders
   * the label verbatim.
   */
  method ShowLabel(caption: string) returns (text: string, timerStarted: bool)
    ensures text == caption
    ensures !timerStarted
  {
    var c := NewCounter(Label(caption));
    c.BecomeVisible();
    text := c.Render();
    timerStarted := c.timerActive;
  }

  /** The GeeksforGeeks rank is shown as "Top 10%" and never animates. */
  method ShowRank() returns (text: string, timerStarted: bool)
    ensures text == "Top 10%"
    ensures !timerStarted
  {
    var rank := GeeksforGeeksStats[2].value;
    text, timerStarted := ShowLabel(rank.text);
  }

  /**
   * Animating a numeric platform statistic with the default suffix: the count
   * snaps to the value on tick 40 for a positive value, and the final text is
   * the bare number.
   */
  method AnimateNumber(value: int) returns (shown: seq<int>, text: string)
    ensures value > 0 ==> |shown| == Steps
    ensures value <= 0 ==> |shown| == 1
    ensures |shown| > 0 && shown[|shown| - 1] == value
    ensures forall i :: 0 <= i < |shown| - 1 ==> shown[i] < value
    ensures value >= 0 ==> forall i, j :: 0 <= i <= j < |shown| ==> 0 <= shown[i] <= shown[j]
    ensures text == Decimal.FromInt(value)
  {
    shown, text := RunToCompletion(value, Steps, "");
  }

  /** Every numeric platform statistic is positive, so each one snaps to its value on tick 40. */
  lemma NumericStatsSnapOnLastTick()
    ensures forall i :: 0 <= i < |LeetCodeStats| ==>
      LeetCodeStats[i].value.Numeric? && FinishTick(LeetCodeStats[i].value.n, Steps) == Steps
    ensures forall i :: 0 <= i < |GeeksforGeeksStats| && GeeksforGeeksStats[i].value.Numeric? ==>
      FinishTick(GeeksforGeeksStats[i].value.n, Steps) == Steps
  {
  }

  /** The LeetCode problem count ends up rendered as "300". */
  lemma LeetCodeProblemsFinalText()
    ensures LeetCodeStats[0].value.Numeric?
    ensures Decimal.FromInt(LeetCodeStats[0].value.n) == "300"
  {
  }
}

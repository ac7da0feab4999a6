/**
 * The performance analytics screen: scores coloured by the shared bands,
 * a trend icon by the sign of a change, and the month-on-month improvement
 * line with its sign prefix and colour.
 */
module PerformanceAnalytics {
  import opened ScoreBands

  /** What `getTrendIcon` draws: a rising arrow, a falling arrow, or an empty box of the same size. */
  datatype TrendIcon = Rising | Falling | Blank

  /** `getTrendIcon` */
  function TrendIconOf(trend: real): (icon: TrendIcon)
    ensures icon == Rising <==> trend > 0.0
    ensures icon == Falling <==> trend < 0.0
    ensures icon == Blank <==> trend == 0.0
  {
    if trend > 0.0 then Rising
    else if trend < 0.0 then Falling
    else Blank
  }

  /** The improvement line: a sign prefix before the number, and the colour of the line. */
  datatype ImprovementLine = ImprovementLine(prefix: string, hue: Hue)

  /** Green with a "+" for a positive change; red with no prefix otherwise, zero included. */
  function ImprovementLineOf(improvement: real): (l: ImprovementLine)
    ensures l.prefix == "+" <==> improvement > 0.0
    ensures l.prefix == "" <==> improvement <= 0.0
    ensures l.hue == Green <==> improvement > 0.0
    ensures l.hue == Red <==> improvement <= 0.0
  {
    if improvement > 0.0 then ImprovementLine("+", Green) else ImprovementLine("", Red)
  }

  /**
   * The line and the icon beside it agree on a rise and on a fall; a change
   * of exactly zero has no icon but is still shown in red, as a fall is.
   */
  lemma ImprovementMatchesTrend(improvement: real)
    ensures ImprovementLineOf(improvement).hue == Green <==> TrendIconOf(improvement) == Rising
    ensures TrendIconOf(improvement) == Falling ==> ImprovementLineOf(improvement) == ImprovementLine("", Red)
    ensures TrendIconOf(improvement) == Blank ==> ImprovementLineOf(improvement) == ImprovementLine("", Red)
  {
  }

  /** One row of the subject breakdown: the score's text colour, its bar colour and the trend icon. */
  datatype SubjectRow = SubjectRow(text: ColorClass, bar: ColorClass, trend: TrendIcon)

  /**
   * A subject row: both colours are in the band of the score (green from 80,
   * blue from 60, yellow from 40, red below), and the icon follows the sign
   * of the improvement.
   */
  function SubjectRowOf(score: real, improvement: real): (r: SubjectRow)
    ensures r.text.TextColor? && r.bar.BarColor?
    ensures r.text.hue == r.bar.hue
    ensures r.text.hue == Green <==> 80.0 <= score
    ensures r.text.hue == Blue <==> 60.0 <= score < 80.0
    ensures r.text.hue == Yellow <==> 40.0 <= score < 60.0
    ensures r.text.hue == Red <==> score < 40.0
    ensures r.trend == Rising <==> improvement > 0.0
    ensures r.trend == Falling <==> improvement < 0.0
    ensures r.trend == Blank <==> improvement == 0.0
  {
    SameBand(score);
    SubjectRow(ScoreColor(score), ProgressColor(score), TrendIconOf(improvement))
  }
}

/**
 * The colour bands of a percentage score. The results screen and the
 * performance analytics screen each define the same pair of helpers: one
 * picks the text colour of a score, the other the fill colour of its progress
 * bar. Both cut at 80, 60 and 40, inclusive at each boundary. Class strings
 * are modelled as tags: a hue together with where it is applied.
 */
module ScoreBands {

  datatype Hue = Green | Blue | Yellow | Red

  /** The order of the bands, lowest first. */
  function Rank(h: Hue): nat
  {
    match h
    case Red => 0
    case Yellow => 1
    case Blue => 2
    case Green => 3
  }

  /** A colour class: for text (`text-<hue>-600 …`) or for a bar fill (`bg-<hue>-600`). */
  datatype ColorClass = TextColor(hue: Hue) | BarColor(hue: Hue)

  /** `getScoreColor` */
  function ScoreColor(score: real): (c: ColorClass)
    ensures c.TextColor?
    ensures c.hue == Green <==> 80.0 <= score
    ensures c.hue == Blue <==> 60.0 <= score < 80.0
    ensures c.hue == Yellow <==> 40.0 <= score < 60.0
    ensures c.hue == Red <==> score < 40.0
  {
    if score >= 80.0 then TextColor(Green)
    else if score >= 60.0 then TextColor(Blue)
    else if score >= 40.0 then TextColor(Yellow)
    else TextColor(Red)
  }

  /** `getProgressColor` */
  function ProgressColor(score: real): (c: ColorClass)
    ensures c.BarColor?
    ensures c.hue == Green <==> 80.0 <= score
    ensures c.hue == Blue <==> 60.0 <= score < 80.0
    ensures c.hue == Yellow <==> 40.0 <= score < 60.0
    ensures c.hue == Red <==> score < 40.0
  {
    if score >= 80.0 then BarColor(Green)
    else if score >= 60.0 then BarColor(Blue)
    else if score >= 40.0 then BarColor(Yellow)
    else BarColor(Red)
  }

  /** The text and the bar of one score are always in the same band. */
  lemma SameBand(score: real)
    ensures ScoreColor(score).hue == ProgressColor(score).hue
  {
  }

  /** A higher score never gets a lower band. */
  lemma BandMonotone(s: real, t: real)
    requires s <= t
    ensures Rank(ScoreColor(s).hue) <= Rank(ScoreColor(t).hue)
    ensures Rank(ProgressColor(s).hue) <= Rank(ProgressColor(t).hue)
  {
  }
}

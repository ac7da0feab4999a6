/**
 * The quality indicator of a question: a quality badge from the rating, a
 * colour for the difficulty, and two optional badges for a verified and an
 * expert-reviewed question.
 */
module QuestionQuality {
  import opened Common

  /** The four quality badges, lowest first. */
  datatype QualityBadge = Standard | GoodQuality | HighQuality | ExcellentQuality

  function Label(b: QualityBadge): string
  {
    match b
    case ExcellentQuality => "Excellent Quality"
    case HighQuality => "High Quality"
    case GoodQuality => "Good Quality"
    case Standard => "Standard"
  }

  function Rank(b: QualityBadge): nat
  {
    match b
    case Standard => 0
    case GoodQuality => 1
    case HighQuality => 2
    case ExcellentQuality => 3
  }

  /** `getQualityBadge`: Excellent from 4.5, High from 4.0, Good from 3.5, Standard below. */
  function QualityBadgeOf(rating: real): (b: QualityBadge)
    ensures b == ExcellentQuality <==> 4.5 <= rating
    ensures b == HighQuality <==> 4.0 <= rating < 4.5
    ensures b == GoodQuality <==> 3.5 <= rating < 4.0
    ensures b == Standard <==> rating < 3.5
  {
    if rating >= 4.5 then ExcellentQuality
    else if rating >= 4.0 then HighQuality
    else if rating >= 3.5 then GoodQuality
    else Standard
  }

  /** A higher rating never gets a lower badge. */
  lemma QualityMonotone(r: real, s: real)
    requires r <= s
    ensures Rank(QualityBadgeOf(r)) <= Rank(QualityBadgeOf(s))
  {
  }

  /** The four labels are different words. */
  lemma LabelsDistinct(b: QualityBadge, c: QualityBadge)
    ensures Label(b) == Label(c) <==> b == c
  {
    if b != c {
      assert Label(b)[0] != Label(c)[0];
    }
  }

  /** `getDifficultyColor`: a text colour for each difficulty, the class list written as its two classes joined. */
  function DifficultyColor(d: Difficulty): (c: string)
    ensures |c| > 5 && c[..5] == "text-"
  {
    match d
    case Easy => "text-green-600 " + "dark:text-green-400"
    case Medium => "text-yellow-600 " + "dark:text-yellow-400"
    case Hard => "text-red-600 " + "dark:text-red-400"
  }

  /** Every difficulty has a colour, and no two difficulties share one. */
  lemma DifficultyColorsDistinct(d: Difficulty, e: Difficulty)
    ensures |DifficultyColor(d)| > 0
    ensures DifficultyColor(d) == DifficultyColor(e) <==> d == e
  {
    if d != e {
      assert DifficultyColor(d)[5] != DifficultyColor(e)[5];
    }
  }

  /** The badges of the indicator, left to right. */
  datatype Badge = Quality(badge: QualityBadge) | Verified | ExpertReviewed

  /**
   * The badge row: the quality badge, then "Verified" and "Expert Reviewed"
   * when their flags are set; an absent flag defaults to false.
   */
  function Badges(rating: real, isQualityVerified: Option<bool>, expertReviewed: Option<bool>): (bs: seq<Badge>)
    ensures |bs| >= 1 && bs[0] == Quality(QualityBadgeOf(rating))
    ensures Verified in bs <==> isQualityVerified == Some(true)
    ensures ExpertReviewed in bs <==> expertReviewed == Some(true)
    ensures |bs| == 1 + (if isQualityVerified == Some(true) then 1 else 0) + (if expertReviewed == Some(true) then 1 else 0)
  {
    var verified := if isQualityVerified.Some? then isQualityVerified.value else false;
    var expert := if expertReviewed.Some? then expertReviewed.value else false;
    [Quality(QualityBadgeOf(rating))]
      + (if verified then [Verified] else [])
      + (if expert then [ExpertReviewed] else [])
  }
}

/**
 * The results screen: how each reviewed question and each of its options is
 * marked, the "Correct" tab, and the accuracy and speed figures derived from
 * a `TestResults` value. Time is shown with `MockTestInterface.FormatTime`,
 * which is the same computation as this screen's own `formatTime`.
 */
module TestResultsView {
  import opened Common
  import opened MockTestInterface

  // ---------------------------------------------------------------------------
  // Question review
  // ---------------------------------------------------------------------------

  /** The round badge beside a reviewed question. */
  datatype ReviewIcon = CorrectIcon | SkippedIcon | IncorrectIcon

  /** Correct first; otherwise a null answer is "skipped"; otherwise incorrect. */
  function IconOf(a: AnsweredQuestion): (icon: ReviewIcon)
    ensures icon == CorrectIcon <==> a.isCorrect
    ensures icon == SkippedIcon <==> !a.isCorrect && a.userAnswer.None?
    ensures icon == IncorrectIcon <==> !a.isCorrect && a.userAnswer.Some?
  {
    if a.isCorrect then CorrectIcon
    else if a.userAnswer.None? then SkippedIcon
    else IncorrectIcon
  }

  function CountIcons(log: seq<AnsweredQuestion>, icon: ReviewIcon): nat
  {
    if log == [] then 0
    else CountIcons(log[..|log| - 1], icon) + (if IconOf(log[|log| - 1]) == icon then 1 else 0)
  }

  /**
   * On the results of a test, the badges agree with the summary counts:
   * as many check marks as correct answers, "S" badges as skipped questions
   * and crosses as incorrect answers.
   */
  lemma {:induction false} IconsMatchCounts(qs: seq<Question>, answers: seq<Option<int>>)
    requires |answers| == |qs|
    ensures CountIcons(AnswerLog(qs, answers), CorrectIcon) == CountCorrect(qs, answers)
    ensures CountIcons(AnswerLog(qs, answers), SkippedIcon) == CountSkipped(answers)
    ensures CountIcons(AnswerLog(qs, answers), IncorrectIcon) == CountIncorrect(qs, answers)
  {
    if qs != [] {
      var m := |qs| - 1;
      IconsMatchCounts(qs[..m], answers[..m]);
      var log := AnswerLog(qs, answers);
      assert log[..m] == AnswerLog(qs[..m], answers[..m]);
      assert answers[..m] == answers[..|answers| - 1];
    }
  }

  /** How an option is highlighted in the review. */
  datatype OptionMark = MarkedCorrect | MarkedWrong | Unmarked

  /** The correct option is highlighted green; otherwise the user's pick is red. */
  function MarkOption(optIndex: int, correctAnswer: int, userAnswer: Option<int>): (m: OptionMark)
    ensures optIndex == correctAnswer ==> m == MarkedCorrect
    ensures m == MarkedCorrect ==> optIndex == correctAnswer
    ensures m == MarkedWrong <==> userAnswer == Some(optIndex) && optIndex != correctAnswer
  {
    if optIndex == correctAnswer then MarkedCorrect
    else if userAnswer == Some(optIndex) then MarkedWrong
    else Unmarked
  }

  function OptionMarks(q: Question, userAnswer: Option<int>): (ms: seq<OptionMark>)
    ensures |ms| == |q.options|
  {
    seq(|q.options|, i requires 0 <= i < |q.options| => MarkOption(i, q.correctAnswer, userAnswer))
  }

  /**
   * Among a question's options at most one is marked correct and at most one
   * wrong; none is wrong when the answer was right or skipped; the correct
   * option, when it is one of the options, is marked correct.
   */
  lemma OptionMarksShape(q: Question, userAnswer: Option<int>)
    ensures var ms := OptionMarks(q, userAnswer);
      && (forall i, j :: 0 <= i < j < |ms| ==> !(ms[i] == MarkedCorrect && ms[j] == MarkedCorrect))
      && (forall i, j :: 0 <= i < j < |ms| ==> !(ms[i] == MarkedWrong && ms[j] == MarkedWrong))
      && (IsCorrect(q, userAnswer) || userAnswer.None? ==> forall i :: 0 <= i < |ms| ==> ms[i] != MarkedWrong)
      && (0 <= q.correctAnswer < |ms| ==> ms[q.correctAnswer] == MarkedCorrect)
  {
  }

  // ---------------------------------------------------------------------------
  // The "Correct" tab
  // ---------------------------------------------------------------------------

  /** The positions whose record says correct, in increasing order. */
  function CorrectPositions(log: seq<AnsweredQuestion>): (r: seq<nat>)
    ensures forall k :: 0 <= k < |r| ==> r[k] < |log| && log[r[k]].isCorrect
    ensures forall i :: 0 <= i < |log| && log[i].isCorrect ==> i in r
    ensures forall j, k :: 0 <= j < k < |r| ==> r[j] < r[k]
  {
    if log == [] then []
    else
      var r := CorrectPositions(log[..|log| - 1]);
      if log[|log| - 1].isCorrect then r + [|log| - 1] else r
  }

  /** The "Correct" tab: the questions whose record says correct, in question order. */
  function CorrectTab(qs: seq<Question>, log: seq<AnsweredQuestion>): (tab: seq<Question>)
    requires |log| == |qs|
    ensures forall q :: q in tab ==> exists i :: 0 <= i < |qs| && log[i].isCorrect && qs[i] == q
    ensures forall i :: 0 <= i < |qs| && log[i].isCorrect ==> qs[i] in tab
  {
    var r := CorrectPositions(log);
    var tab := seq(|r|, k requires 0 <= k < |r| => qs[r[k]]);
    assert forall i :: 0 <= i < |qs| && log[i].isCorrect ==> qs[i] in tab by {
      forall i | 0 <= i < |qs| && log[i].isCorrect ensures qs[i] in tab {
        var k :| 0 <= k < |r| && r[k] == i;
        assert tab[k] == qs[i];
      }
    }
    tab
  }

  /**
   * The tab lists exactly the questions recorded as correct, in their
   * original order: it embeds into the question list through positions that
   * are exactly those whose record is correct.
   */
  lemma CorrectTabSelects(qs: seq<Question>, log: seq<AnsweredQuestion>) returns (idx: seq<int>)
    requires |log| == |qs|
    ensures Embeds(idx, CorrectTab(qs, log), qs)
    ensures forall i :: 0 <= i < |qs| ==> (i in idx <==> log[i].isCorrect)
  {
    var r := CorrectPositions(log);
    idx := seq(|r|, k requires 0 <= k < |r| => r[k] as int);
    forall i | 0 <= i < |qs| ensures i in idx <==> log[i].isCorrect {
      if i in idx {
        var k :| 0 <= k < |idx| && idx[k] == i;
        assert r[k] == i;
      }
      if log[i].isCorrect {
        assert i in r;
        var k :| 0 <= k < |r| && r[k] == i;
        assert idx[k] == i;
      }
    }
  }

  function CountCorrectRecords(log: seq<AnsweredQuestion>): nat
  {
    if log == [] then 0
    else CountCorrectRecords(log[..|log| - 1]) + (if log[|log| - 1].isCorrect then 1 else 0)
  }

  lemma {:induction false} CorrectPositionsCount(log: seq<AnsweredQuestion>)
    ensures |CorrectPositions(log)| == CountCorrectRecords(log)
  {
    if log != [] {
      CorrectPositionsCount(log[..|log| - 1]);
    }
  }

  /** On the results of a test, the tab holds as many questions as its "Correct (n)" label says. */
  lemma {:induction false} CorrectTabLength(qs: seq<Question>, answers: seq<Option<int>>)
    requires |answers| == |qs|
    ensures |CorrectTab(qs, AnswerLog(qs, answers))| == CountCorrect(qs, answers)
  {
    CorrectPositionsCount(AnswerLog(qs, answers));
    IconsMatchCounts(qs, answers);
    RecordsAreIcons(AnswerLog(qs, answers));
  }

  lemma {:induction false} RecordsAreIcons(log: seq<AnsweredQuestion>)
    ensures CountCorrectRecords(log) == CountIcons(log, CorrectIcon)
  {
    if log != [] {
      RecordsAreIcons(log[..|log| - 1]);
    }
  }

  /** The position of the first question with the id; -1 when no question has it. */
  function FindIndexById(qs: seq<Question>, id: int): (i: int)
    ensures -1 <= i < |qs|
    ensures i >= 0 ==> qs[i].id == id && forall k :: 0 <= k < i ==> qs[k].id != id
    ensures i == -1 <==> forall k :: 0 <= k < |qs| ==> qs[k].id != id
  {
    if qs == [] then -1
    else if qs[0].id == id then 0
    else
      var j := FindIndexById(qs[1..], id);
      if j == -1 then -1 else j + 1
  }

  /**
   * The "Question n" label of the tab finds a question's position by its id:
   * that is its own position exactly when no earlier question has the same id.
   */
  lemma LabelPosition(qs: seq<Question>, i: int)
    requires 0 <= i < |qs|
    ensures 0 <= FindIndexById(qs, qs[i].id) <= i
    ensures FindIndexById(qs, qs[i].id) == i <==> forall k :: 0 <= k < i ==> qs[k].id != qs[i].id
  {
  }

  // ---------------------------------------------------------------------------
  // Figures
  // ---------------------------------------------------------------------------

  /**
   * The share of answered questions that are correct, as a percentage,
   * before rounding. The division is not guarded: with nothing answered its
   * divisor is zero, which gives NaN for 0 / 0 and Infinity for a positive
   * correct count; `None` stands for both. Only NaN can arise from the
   * scorer's results, where nothing answered means nothing correct.
   */
  function Accuracy(r: TestResults): (a: Option<real>)
    ensures a.Some? <==> r.totalQuestions != r.skippedQuestions
  {
    if r.totalQuestions == r.skippedQuestions then None
    else Some((r.correctAnswers as real) / ((r.totalQuestions - r.skippedQuestions) as real) * 100.0)
  }

  /**
   * On the results of a test with at least one answered question the
   * accuracy is a percentage, and it is 100 exactly when no answer was wrong.
   */
  lemma AccuracyBounds(testId: string, qs: seq<Question>, answers: seq<Option<int>>, timeTaken: int)
    requires |answers| == |qs| && |qs| > 0
    ensures var r := Results(testId, qs, answers, timeTaken);
      && (Accuracy(r).Some? <==> exists i :: 0 <= i < |answers| && answers[i].Some?)
      && (Accuracy(r).Some? ==> 0.0 <= Accuracy(r).value <= 100.0)
      && (Accuracy(r).Some? ==> (Accuracy(r).value == 100.0 <==> r.incorrectAnswers == 0))
  {
    var r := Results(testId, qs, answers, timeTaken);
    ResultsConservation(testId, qs, answers, timeTaken);
    SkippedBound(answers);
    if r.totalQuestions != r.skippedQuestions {
      var answered := r.totalQuestions - r.skippedQuestions;
      assert r.correctAnswers <= answered;
      PercentBounds(r.correctAnswers, answered);
      assert Accuracy(r).value == Percent(r.correctAnswers, answered);
    }
  }

  /** Seconds per question, before rounding. */
  function Speed(r: TestResults): (s: real)
    requires r.totalQuestions > 0
    ensures s * (r.totalQuestions as real) == r.timeTaken as real
  {
    (r.timeTaken as real) / (r.totalQuestions as real)
  }
}

/**
 * The mock-test session engine: one timed attempt at a fixed question set.
 * The session keeps a per-question answer (None = unanswered), a per-question
 * "marked for review" flag, the current question, a countdown in seconds and a
 * completion flag. Completing the test scores the answers and hands the
 * results to the host's `onComplete` callback, modelled here as the log
 * `emitted` of every value passed to it.
 */
module MockTestInterface {
  import opened Common

  datatype Question = Question(
    id: int,
    text: string,
    options: seq<string>,
    correctAnswer: int,
    explanation: string,
    subject: string)

  datatype SubjectStats = SubjectStats(total: nat, correct: nat, score: real)

  datatype AnsweredQuestion = AnsweredQuestion(questionId: int, userAnswer: Option<int>, isCorrect: bool)

  /**
   * The value handed to `onComplete`. `subjects` is the key order of the
   * `subjectPerformance` record (the order in which subjects were first met).
   */
  datatype TestResults = TestResults(
    testId: string,
    score: real,
    totalQuestions: nat,
    correctAnswers: nat,
    incorrectAnswers: int,
    skippedQuestions: nat,
    timeTaken: int,
    subjects: seq<string>,
    subjectPerformance: map<string, SubjectStats>,
    answeredQuestions: seq<AnsweredQuestion>)

  // ---------------------------------------------------------------------------
  // Specification of the scorer
  // ---------------------------------------------------------------------------

  /** `userAnswer === question.correctAnswer`: null never equals a number. */
  predicate IsCorrect(q: Question, answer: Option<int>)
  {
    answer == Some(q.correctAnswer)
  }

  function CountCorrect(qs: seq<Question>, answers: seq<Option<int>>): nat
    requires |answers| == |qs|
  {
    if qs == [] then 0
    else CountCorrect(qs[..|qs| - 1], answers[..|qs| - 1])
         + (if IsCorrect(qs[|qs| - 1], answers[|qs| - 1]) then 1 else 0)
  }

  /** Answered, but not with the correct option. */
  function CountIncorrect(qs: seq<Question>, answers: seq<Option<int>>): nat
    requires |answers| == |qs|
  {
    if qs == [] then 0
    else CountIncorrect(qs[..|qs| - 1], answers[..|qs| - 1])
         + (if answers[|qs| - 1].Some? && !IsCorrect(qs[|qs| - 1], answers[|qs| - 1]) then 1 else 0)
  }

  /** The number of questions left without an answer. */
  function CountSkipped(answers: seq<Option<int>>): nat
  {
    if answers == [] then 0
    else CountSkipped(answers[..|answers| - 1]) + (if answers[|answers| - 1].None? then 1 else 0)
  }

  function SubjectsOf(qs: seq<Question>): (r: seq<string>)
    ensures |r| == |qs| && forall i :: 0 <= i < |qs| ==> r[i] == qs[i].subject
  {
    if qs == [] then [] else SubjectsOf(qs[..|qs| - 1]) + [qs[|qs| - 1].subject]
  }

  /** How many questions carry subject `s`; positive exactly for the subjects present. */
  function SubjectTotal(qs: seq<Question>, s: string): (n: nat)
    ensures n > 0 <==> s in SubjectsOf(qs)
  {
    if qs == [] then 0
    else
      assert SubjectsOf(qs) == SubjectsOf(qs[..|qs| - 1]) + [qs[|qs| - 1].subject];
      SubjectTotal(qs[..|qs| - 1], s) + (if qs[|qs| - 1].subject == s then 1 else 0)
  }

  /** How many questions of subject `s` were answered correctly; never more than the total. */
  function SubjectCorrect(qs: seq<Question>, answers: seq<Option<int>>, s: string): (n: nat)
    requires |answers| == |qs|
    ensures n <= SubjectTotal(qs, s)
  {
    if qs == [] then 0
    else SubjectCorrect(qs[..|qs| - 1], answers[..|qs| - 1], s)
         + (if qs[|qs| - 1].subject == s && IsCorrect(qs[|qs| - 1], answers[|qs| - 1]) then 1 else 0)
  }

  function Stats(qs: seq<Question>, answers: seq<Option<int>>, s: string): SubjectStats
    requires |answers| == |qs| && s in SubjectsOf(qs)
  {
    SubjectStats(SubjectTotal(qs, s), SubjectCorrect(qs, answers, s),
                 Percent(SubjectCorrect(qs, answers, s), SubjectTotal(qs, s)))
  }

  function AnswerLog(qs: seq<Question>, answers: seq<Option<int>>): seq<AnsweredQuestion>
    requires |answers| == |qs|
  {
    seq(|qs|, i requires 0 <= i < |qs| => AnsweredQuestion(qs[i].id, answers[i], IsCorrect(qs[i], answers[i])))
  }

  /**
   * The results `handleTestCompletion` builds from the questions and answers:
   * the incorrect count, found by subtraction, is the number of questions
   * answered wrongly, and the score is a percentage.
   */
  function Results(testId: string, qs: seq<Question>, answers: seq<Option<int>>, timeTaken: int): (r: TestResults)
    requires |answers| == |qs| && |qs| > 0
    ensures r.testId == testId && r.timeTaken == timeTaken && r.totalQuestions == |qs|
    ensures r.incorrectAnswers == CountIncorrect(qs, answers)
    ensures 0.0 <= r.score <= 100.0
    ensures |r.answeredQuestions| == |qs|
  {
    CountsPartition(qs, answers);
    AllCorrectIff(qs, answers);
    PercentBounds(CountCorrect(qs, answers), |qs|);
    var correct := CountCorrect(qs, answers);
    var skipped := CountSkipped(answers);
    var subjects := Dedupe(SubjectsOf(qs));
    TestResults(
      testId, Percent(correct, |qs|), |qs|, correct, |qs| - correct - skipped, skipped, timeTaken,
      subjects, map s | s in subjects :: Stats(qs, answers, s), AnswerLog(qs, answers))
  }

  // ---------------------------------------------------------------------------
  // The scorer: the loop of handleTestCompletion
  // ---------------------------------------------------------------------------

  /**
   * The pass over the questions (`questions.map`): counts correct answers,
   * creates a subject's entry with zero counts the first time the subject is
   * met, then increments its total and, for a correct answer, its correct count.
   */
  method TallyQuestions(questions: seq<Question>, answers: seq<Option<int>>)
    returns (correctAnswers: nat, keys: seq<string>, perf: map<string, SubjectStats>, answered: seq<AnsweredQuestion>)
    requires |answers| == |questions|
    ensures correctAnswers == CountCorrect(questions, answers)
    ensures Tallied(questions, answers, keys, perf)
    ensures answered == AnswerLog(questions, answers)
  {
    correctAnswers, keys, perf, answered := 0, [], map[], [];
    var i := 0;
    while i < |questions|
      invariant 0 <= i <= |questions|
      invariant Scanned(questions, answers, i, correctAnswers, keys, perf, answered)
    {
      var question := questions[i];
      var userAnswer := answers[i];
      var isCorrect := userAnswer == Some(question.correctAnswer);
      ScanStep(questions, answers, i, correctAnswers, keys, perf, answered);
      if isCorrect {
        correctAnswers := correctAnswers + 1;
      }
      keys, perf := RecordAnswer(keys, perf, question.subject, isCorrect);
      answered := answered + [AnsweredQuestion(question.id, userAnswer, isCorrect)];
      i := i + 1;
    }
    assert questions[..i] == questions && answers[..i] == answers;
  }

  /** What the pass has built after the first `i` questions. */
  ghost predicate Scanned(qs: seq<Question>, answers: seq<Option<int>>, i: int, correct: nat,
                          keys: seq<string>, perf: map<string, SubjectStats>, answered: seq<AnsweredQuestion>)
    requires |answers| == |qs| && 0 <= i <= |qs|
  {
    && correct == CountCorrect(qs[..i], answers[..i])
    && Tallied(qs[..i], answers[..i], keys, perf)
    && answered == AnswerLog(qs[..i], answers[..i])
  }

  /** One iteration of the pass keeps `Scanned`. */
  lemma ScanStep(qs: seq<Question>, answers: seq<Option<int>>, i: int, correct: nat,
                 keys: seq<string>, perf: map<string, SubjectStats>, answered: seq<AnsweredQuestion>)
    requires |answers| == |qs| && 0 <= i < |qs|
    requires Scanned(qs, answers, i, correct, keys, perf, answered)
    ensures qs[i].subject in perf <==> qs[i].subject in keys
    ensures var ok := IsCorrect(qs[i], answers[i]);
      Scanned(qs, answers, i + 1, correct + (if ok then 1 else 0), AddKey(keys, qs[i].subject),
              Bump(perf, qs[i].subject, ok), answered + [AnsweredQuestion(qs[i].id, answers[i], ok)])
  {
    assert qs[..i + 1] == qs[..i] + [qs[i]];
    assert answers[..i + 1] == answers[..i] + [answers[i]];
    SnocStep(qs[..i], answers[..i], qs[i], answers[i]);
    TallyStep(qs[..i], answers[..i], qs[i], answers[i], keys, perf);
  }

  /**
   * The subject table after scanning `qs`: keys in first-occurrence order,
   * one entry per key, each holding the subject's question count and correct
   * count with the score not yet filled in.
   */
  ghost predicate Tallied(qs: seq<Question>, answers: seq<Option<int>>, keys: seq<string>, perf: map<string, SubjectStats>)
    requires |answers| == |qs|
  {
    && keys == Dedupe(SubjectsOf(qs))
    && (forall s :: s in perf <==> s in keys)
    && forall s :: s in perf ==> perf[s] == SubjectStats(SubjectTotal(qs, s), SubjectCorrect(qs, answers, s), 0.0)
  }

  /** The key order after meeting `subject`: appended the first time only. */
  function AddKey(keys: seq<string>, subject: string): seq<string>
  {
    if subject in keys then keys else keys + [subject]
  }

  /** The table after one question of `subject`: its entry (zero if new) counts one more question, and one more correct answer if `isCorrect`. */
  function Bump(perf: map<string, SubjectStats>, subject: string, isCorrect: bool): map<string, SubjectStats>
  {
    var e := if subject in perf then perf[subject] else SubjectStats(0, 0, 0.0);
    perf[subject := SubjectStats(e.total + 1, e.correct + (if isCorrect then 1 else 0), e.score)]
  }

  /** Recording one more question in the table of `qs` gives the table of `qs + [q]`. */
  lemma TallyStep(qs: seq<Question>, answers: seq<Option<int>>, q: Question, a: Option<int>,
                  keys: seq<string>, perf: map<string, SubjectStats>)
    requires |answers| == |qs| && Tallied(qs, answers, keys, perf)
    ensures Tallied(qs + [q], answers + [a], AddKey(keys, q.subject), Bump(perf, q.subject, IsCorrect(q, a)))
  {
    SnocStep(qs, answers, q, a);
    var perf' := Bump(perf, q.subject, IsCorrect(q, a));
    forall s | s in perf'
      ensures perf'[s] == SubjectStats(SubjectTotal(qs + [q], s), SubjectCorrect(qs + [q], answers + [a], s), 0.0)
    {
      if s == q.subject && s !in perf {
        assert s !in SubjectsOf(qs);
      }
    }
  }

  /**
   * One question's effect on the subject table: a first-seen subject gets an
   * entry with zero counts and a key at the end of the key order; then its
   * total goes up by one and, for a correct answer, its correct count too.
   */
  method RecordAnswer(keys0: seq<string>, perf0: map<string, SubjectStats>, subject: string, isCorrect: bool)
    returns (keys: seq<string>, perf: map<string, SubjectStats>)
    requires subject in perf0 <==> subject in keys0
    ensures keys == AddKey(keys0, subject) && perf == Bump(perf0, subject, isCorrect)
  {
    keys, perf := keys0, perf0;
    if subject !in perf {
      perf := perf[subject := SubjectStats(0, 0, 0.0)];
      keys := keys + [subject];
    }
    var st := perf[subject];
    perf := perf[subject := st.(total := st.total + 1)];
    if isCorrect {
      st := perf[subject];
      perf := perf[subject := st.(correct := st.correct + 1)];
    }
  }

  /** An entry with its score filled in as `(correct / total) * 100`. */
  function WithScore(e: SubjectStats): SubjectStats
    requires e.total > 0
  {
    e.(score := Percent(e.correct, e.total))
  }

  /** The pass over the subject keys (`Object.keys(...).forEach`): every entry gets its score, and only its score changes. */
  method FillSubjectScores(keys: seq<string>, perf0: map<string, SubjectStats>)
    returns (perf: map<string, SubjectStats>)
    requires forall s :: s in perf0 <==> s in keys
    requires forall s :: s in perf0 ==> perf0[s].total > 0
    ensures perf == map s | s in perf0 :: WithScore(perf0[s])
  {
    perf := perf0;
    var j := 0;
    while j < |keys|
      invariant 0 <= j <= |keys|
      invariant forall s :: s in perf <==> s in perf0
      invariant forall s :: s in perf ==> perf[s] == perf0[s] || perf[s] == WithScore(perf0[s])
      invariant forall k :: 0 <= k < j ==> perf[keys[k]] == WithScore(perf0[keys[k]])
    {
      var subject := keys[j];
      var st := perf[subject];
      perf := perf[subject := st.(score := (st.correct as real) / (st.total as real) * 100.0)];
      j := j + 1;
    }
    forall s | s in perf0 ensures perf[s] == WithScore(perf0[s]) {
      var k :| 0 <= k < |keys| && keys[k] == s;
    }
  }

  /** Scoring the table of the whole question set gives each subject's `Stats`. */
  lemma ScoredTable(qs: seq<Question>, answers: seq<Option<int>>, keys: seq<string>, perf: map<string, SubjectStats>)
    requires |answers| == |qs| && Tallied(qs, answers, keys, perf)
    ensures forall s :: s in perf ==> perf[s].total > 0
    ensures (map s | s in perf :: WithScore(perf[s])) == map s | s in keys :: Stats(qs, answers, s)
  {
  }

  /** `handleTestCompletion`'s computation of the results. */
  method Score(testId: string, questions: seq<Question>, answers: seq<Option<int>>, timeTaken: int)
    returns (r: TestResults)
    requires |answers| == |questions| && |questions| > 0
    ensures r == Results(testId, questions, answers, timeTaken)
  {
    var correctAnswers, keys, perf, answered := TallyQuestions(questions, answers);
    ScoredTable(questions, answers, keys, perf);
    perf := FillSubjectScores(keys, perf);
    var n := |questions|;
    var skipped := CountSkipped(answers);
    r := TestResults(testId, Percent(correctAnswers, n), n, correctAnswers, n - correctAnswers - skipped,
                     skipped, timeTaken, keys, perf, answered);
  }

  /** How each specification function changes when the scanned questions grow by one. */
  lemma SnocStep(qs: seq<Question>, answers: seq<Option<int>>, q: Question, a: Option<int>)
    requires |answers| == |qs|
    ensures CountCorrect(qs + [q], answers + [a]) == CountCorrect(qs, answers) + (if IsCorrect(q, a) then 1 else 0)
    ensures SubjectsOf(qs + [q]) == SubjectsOf(qs) + [q.subject]
    ensures Dedupe(SubjectsOf(qs + [q])) == AddKey(Dedupe(SubjectsOf(qs)), q.subject)
    ensures forall s :: SubjectTotal(qs + [q], s) == SubjectTotal(qs, s) + (if q.subject == s then 1 else 0)
    ensures forall s ::
      SubjectCorrect(qs + [q], answers + [a], s)
      == SubjectCorrect(qs, answers, s) + (if q.subject == s && IsCorrect(q, a) then 1 else 0)
    ensures AnswerLog(qs + [q], answers + [a]) == AnswerLog(qs, answers) + [AnsweredQuestion(q.id, a, IsCorrect(q, a))]
  {
    assert (qs + [q])[..|qs|] == qs;
    assert (answers + [a])[..|qs|] == answers;
    var xs := SubjectsOf(qs + [q]);
    assert xs[..|xs| - 1] == SubjectsOf(qs);
  }

  // ---------------------------------------------------------------------------
  // What the results promise
  // ---------------------------------------------------------------------------

  /** Every question is exactly one of correct, incorrect (answered) and skipped. */
  lemma {:induction false} CountsPartition(qs: seq<Question>, answers: seq<Option<int>>)
    requires |answers| == |qs|
    ensures CountCorrect(qs, answers) + CountIncorrect(qs, answers) + CountSkipped(answers) == |qs|
  {
    if qs != [] {
      CountsPartition(qs[..|qs| - 1], answers[..|qs| - 1]);
    }
  }

  /** Every question is correct exactly when the correct count reaches the total. */
  lemma {:induction false} AllCorrectIff(qs: seq<Question>, answers: seq<Option<int>>)
    requires |answers| == |qs|
    ensures CountCorrect(qs, answers) <= |qs|
    ensures CountCorrect(qs, answers) == |qs| <==> forall i :: 0 <= i < |qs| ==> IsCorrect(qs[i], answers[i])
  {
    if qs != [] {
      var m := |qs| - 1;
      AllCorrectIff(qs[..m], answers[..m]);
      if CountCorrect(qs, answers) == |qs| {
        forall i | 0 <= i < |qs| ensures IsCorrect(qs[i], answers[i]) {
          if i < m {
            assert qs[..m][i] == qs[i] && answers[..m][i] == answers[i];
          }
        }
      }
      if forall i :: 0 <= i < |qs| ==> IsCorrect(qs[i], answers[i]) {
        forall i | 0 <= i < m ensures IsCorrect(qs[..m][i], answers[..m][i]) {
          assert IsCorrect(qs[i], answers[i]);
        }
      }
    }
  }

  /**
   * The counts of a result add up to the question count, skipped is the
   * number of unanswered questions, an unanswered question is never correct,
   * and the score is a percentage that is 100 exactly when every answer is correct.
   */
  lemma ResultsConservation(testId: string, qs: seq<Question>, answers: seq<Option<int>>, timeTaken: int)
    requires |answers| == |qs| && |qs| > 0
    ensures var r := Results(testId, qs, answers, timeTaken);
      && r.correctAnswers + r.incorrectAnswers + r.skippedQuestions == r.totalQuestions == |qs|
      && r.incorrectAnswers == CountIncorrect(qs, answers) >= 0
      && r.skippedQuestions == CountSkipped(answers)
      && |r.answeredQuestions| == |qs|
      && (forall i :: 0 <= i < |qs| && answers[i].None? ==> !r.answeredQuestions[i].isCorrect)
      && 0.0 <= r.score <= 100.0
      && (r.score == 100.0 <==> forall i :: 0 <= i < |qs| ==> IsCorrect(qs[i], answers[i]))
  {
    CountsPartition(qs, answers);
    AllCorrectIff(qs, answers);
    PercentBounds(CountCorrect(qs, answers), |qs|);
  }

  // Sums over the subject table, in its key order.

  function TotalOver(keys: seq<string>, perf: map<string, SubjectStats>): nat
    requires forall s :: s in keys ==> s in perf
  {
    if keys == [] then 0 else TotalOver(keys[..|keys| - 1], perf) + perf[keys[|keys| - 1]].total
  }

  function CorrectOver(keys: seq<string>, perf: map<string, SubjectStats>): nat
    requires forall s :: s in keys ==> s in perf
  {
    if keys == [] then 0 else CorrectOver(keys[..|keys| - 1], perf) + perf[keys[|keys| - 1]].correct
  }

  function SumSubjectTotals(keys: seq<string>, qs: seq<Question>): nat
  {
    if keys == [] then 0 else SumSubjectTotals(keys[..|keys| - 1], qs) + SubjectTotal(qs, keys[|keys| - 1])
  }

  function SumSubjectCorrects(keys: seq<string>, qs: seq<Question>, answers: seq<Option<int>>): nat
    requires |answers| == |qs|
  {
    if keys == [] then 0
    else SumSubjectCorrects(keys[..|keys| - 1], qs, answers) + SubjectCorrect(qs, answers, keys[|keys| - 1])
  }

  /** How many times `x` occurs in `keys`. */
  function Occurrences(keys: seq<string>, x: string): nat
  {
    if keys == [] then 0 else Occurrences(keys[..|keys| - 1], x) + (if keys[|keys| - 1] == x then 1 else 0)
  }

  lemma {:induction false} OccursOnce(keys: seq<string>, x: string)
    requires NoDuplicates(keys)
    ensures Occurrences(keys, x) == if x in keys then 1 else 0
  {
    if keys != [] {
      var m := |keys| - 1;
      assert keys == keys[..m] + [keys[m]];
      OccursOnce(keys[..m], x);
      if keys[m] == x {
        assert x !in keys[..m];
      }
    }
  }

  lemma {:induction false} SumSubjectTotalsStep(keys: seq<string>, qs: seq<Question>)
    requires qs != []
    ensures SumSubjectTotals(keys, qs)
         == SumSubjectTotals(keys, qs[..|qs| - 1]) + Occurrences(keys, qs[|qs| - 1].subject)
  {
    if keys != [] {
      SumSubjectTotalsStep(keys[..|keys| - 1], qs);
    }
  }

  lemma {:induction false} SumSubjectCorrectsStep(keys: seq<string>, qs: seq<Question>, answers: seq<Option<int>>)
    requires |answers| == |qs| && qs != []
    ensures SumSubjectCorrects(keys, qs, answers)
         == SumSubjectCorrects(keys, qs[..|qs| - 1], answers[..|qs| - 1])
            + (if IsCorrect(qs[|qs| - 1], answers[|qs| - 1]) then Occurrences(keys, qs[|qs| - 1].subject) else 0)
  {
    if keys != [] {
      SumSubjectCorrectsStep(keys[..|keys| - 1], qs, answers);
    }
  }

  lemma {:induction false} NoQuestionsSumToZero(keys: seq<string>)
    ensures SumSubjectTotals(keys, []) == 0 && SumSubjectCorrects(keys, [], []) == 0
  {
    if keys != [] {
      NoQuestionsSumToZero(keys[..|keys| - 1]);
    }
  }

  /** Over a duplicate-free list covering every subject, the subject totals add up to the question count. */
  lemma {:induction false} SubjectTotalsPartition(keys: seq<string>, qs: seq<Question>, answers: seq<Option<int>>)
    requires |answers| == |qs|
    requires NoDuplicates(keys) && forall s :: s in SubjectsOf(qs) ==> s in keys
    ensures SumSubjectTotals(keys, qs) == |qs|
    ensures SumSubjectCorrects(keys, qs, answers) == CountCorrect(qs, answers)
  {
    if qs == [] {
      NoQuestionsSumToZero(keys);
    } else {
      var m := |qs| - 1;
      assert SubjectsOf(qs) == SubjectsOf(qs[..m]) + [qs[m].subject];
      SubjectTotalsPartition(keys, qs[..m], answers[..m]);
      SumSubjectTotalsStep(keys, qs);
      SumSubjectCorrectsStep(keys, qs, answers);
      assert SubjectsOf(qs)[m] == qs[m].subject;
      OccursOnce(keys, qs[m].subject);

    }
  }

  lemma {:induction false} TableSums(keys: seq<string>, perf: map<string, SubjectStats>,
                                     qs: seq<Question>, answers: seq<Option<int>>)
    requires |answers| == |qs|
    requires forall s :: s in keys ==> s in SubjectsOf(qs) && s in perf && perf[s] == Stats(qs, answers, s)
    ensures TotalOver(keys, perf) == SumSubjectTotals(keys, qs)
    ensures CorrectOver(keys, perf) == SumSubjectCorrects(keys, qs, answers)
  {
    if keys != [] {
      TableSums(keys[..|keys| - 1], perf, qs, answers);
    }
  }

  /**
   * The subject table partitions the questions: every question's subject has
   * an entry, the entries' totals add up to the question count and their
   * correct counts to the correct-answer count, and each entry's score is its
   * own percentage.
   */
  lemma SubjectPartition(testId: string, qs: seq<Question>, answers: seq<Option<int>>, timeTaken: int)
    requires |answers| == |qs| && |qs| > 0
    ensures var r := Results(testId, qs, answers, timeTaken);
      && NoDuplicates(r.subjects)
      && (forall s :: s in r.subjectPerformance <==> s in r.subjects)
      && (forall i :: 0 <= i < |qs| ==> qs[i].subject in r.subjectPerformance)
      && TotalOver(r.subjects, r.subjectPerformance) == r.totalQuestions
      && CorrectOver(r.subjects, r.subjectPerformance) == r.correctAnswers
      && (forall s :: s in r.subjectPerformance ==>
            var st := r.subjectPerformance[s];
            0 < st.total && st.correct <= st.total && st.score == Percent(st.correct, st.total))
  {
    var r := Results(testId, qs, answers, timeTaken);
    TableSums(r.subjects, r.subjectPerformance, qs, answers);
    SubjectTotalsPartition(r.subjects, qs, answers);
  }

  // ---------------------------------------------------------------------------
  // Time display
  // ---------------------------------------------------------------------------

  datatype Clock = Clock(hours: nat, minutes: nat, seconds: nat)

  /** The parts `formatTime` shows: whole hours, minutes within the hour, seconds within the minute. */
  function FormatTime(seconds: nat): (c: Clock)
    ensures c.hours * 3600 + c.minutes * 60 + c.seconds == seconds
    ensures c.minutes < 60 && c.seconds < 60
  {
    Clock(seconds / 3600, (seconds % 3600) / 60, seconds % 60)
  }

  function DigitChar(d: nat): (c: char)
    requires d < 10
    ensures '0' <= c <= '9' && c as int - '0' as int == d
  {
    ('0' as int + d) as char
  }

  /** The number a string of decimal digits spells, most significant digit first. */
  function DigitsValue(s: string): nat
    requires forall k :: 0 <= k < |s| ==> '0' <= s[k] <= '9'
  {
    if s == [] then 0 else DigitsValue(s[..|s| - 1]) * 10 + (s[|s| - 1] as int - '0' as int)
  }

  /**
   * The decimal digits of `n`, as a template literal prints them: they spell
   * `n`, and only zero itself starts with a zero.
   */
  function NatText(n: nat): (r: string)
    ensures |r| > 0 && forall k :: 0 <= k < |r| ==> '0' <= r[k] <= '9'
    ensures DigitsValue(r) == n
    ensures r[0] == '0' <==> n == 0
  {
    if n < 10 then [DigitChar(n)]
    else
      var r := NatText(n / 10) + [DigitChar(n % 10)];
      assert r[..|r| - 1] == NatText(n / 10);
      r
  }

  /**
   * The countdown text: hours with "h " only when there are any, then the
   * minutes within the hour with "m " and the seconds within the minute with
   * "s". Below an hour the minutes are all the whole minutes left.
   */
  function FormatTimeText(seconds: nat): (t: string)
    ensures seconds < 3600 ==> t == NatText(seconds / 60) + "m " + NatText(seconds % 60) + "s"
    ensures seconds >= 3600 ==>
      t == NatText(seconds / 3600) + "h " + NatText((seconds % 3600) / 60) + "m " + NatText(seconds % 60) + "s"
  {
    var c := FormatTime(seconds);
    var head := if c.hours > 0 then NatText(c.hours) + "h " else "";
    var tail := NatText(c.minutes) + "m " + NatText(c.seconds) + "s";
    assert seconds < 3600 ==> c.hours == 0 && c.minutes == seconds / 60 by {
      if seconds < 3600 {
        assert seconds % 3600 == seconds;
      }
    }
    assert (head + tail)[..|head|] == head;
    head + tail
  }

  /** The hours part is shown exactly when at least an hour is left. */
  lemma FormatTimeShowsHours(seconds: nat)
    ensures 'h' in FormatTimeText(seconds) <==> seconds >= 3600
  {
    var c := FormatTime(seconds);
    var tail := NatText(c.minutes) + "m " + NatText(c.seconds) + "s";
    assert 'h' !in tail by {
      var a, b := NatText(c.minutes), NatText(c.seconds);
      assert tail == a + "m " + b + "s";
      forall k | 0 <= k < |tail| ensures tail[k] != 'h' {
        if k < |a| {
          assert tail[k] == a[k];
        } else if k < |a| + 2 {
        } else if k < |a| + 2 + |b| {
          assert tail[k] == b[k - |a| - 2];
        }
      }
    }
    if c.hours > 0 {
      var h := NatText(c.hours) + "h ";
      assert FormatTimeText(seconds) == h + tail;
      assert (h + tail)[|NatText(c.hours)|] == 'h';
    } else {
      assert FormatTimeText(seconds) == tail;
    }
  }

  // ---------------------------------------------------------------------------
  // The session
  // ---------------------------------------------------------------------------

  /** Palette status of a question: the review flag takes precedence over an answer. */
  datatype QuestionStatus = Review | Answered | Unanswered

  /** What the results promise about themselves for a set of `n` questions and a `duration` in minutes. */
  ghost predicate ConsistentResults(r: TestResults, n: nat, duration: int)
  {
    && r.totalQuestions == n
    && r.correctAnswers + r.incorrectAnswers + r.skippedQuestions == n
    && r.incorrectAnswers >= 0
    && 0.0 <= r.score <= 100.0
    && 0 <= r.timeTaken
    && (duration >= 0 ==> r.timeTaken <= duration * 60)
  }

  class TestSession {
    const testId: string
    const duration: int  // minutes
    const questions: seq<Question>

    var currentQuestionIndex: int
    var answers: seq<Option<int>>
    var markedForReview: seq<bool>
    var timeLeft: int  // seconds
    var isSubmitDialogOpen: bool
    var isTestCompleted: bool
    /** Every value handed to `onComplete`, oldest first. */
    var emitted: seq<TestResults>

    ghost predicate Valid()
      reads this
    {
      && |questions| > 0
      && |answers| == |questions|
      && |markedForReview| == |questions|
      && 0 <= currentQuestionIndex < |questions|
      && timeLeft <= duration * 60
      && (timeLeft < 0 ==> timeLeft == duration * 60)
      && forall k :: 0 <= k < |emitted| ==> ConsistentResults(emitted[k], |questions|, duration)
    }

    /** Mounting the component: everything unanswered and unflagged, the full time left. */
    constructor (testId: string, duration: int, questions: seq<Question>)
      requires |questions| > 0
      ensures Valid()
      ensures this.testId == testId && this.duration == duration && this.questions == questions
      ensures currentQuestionIndex == 0
      ensures answers == seq(|questions|, _ => None)
      ensures markedForReview == seq(|questions|, _ => false)
      ensures timeLeft == duration * 60
      ensures !isSubmitDialogOpen && !isTestCompleted && emitted == []
    {
      this.testId := testId;
      this.duration := duration;
      this.questions := questions;
      currentQuestionIndex := 0;
      answers := seq(|questions|, _ => None);
      markedForReview := seq(|questions|, _ => false);
      timeLeft := duration * 60;
      isSubmitDialogOpen := false;
      isTestCompleted := false;
      emitted := [];
    }

    /** Selecting an option records it for the current question only; the last selection wins. */
    method AnswerSelect(optionIndex: int)
      requires Valid()
      modifies this
      ensures Valid()
      ensures answers == old(answers)[currentQuestionIndex := Some(optionIndex)]
      ensures markedForReview == old(markedForReview) && currentQuestionIndex == old(currentQuestionIndex)
      ensures timeLeft == old(timeLeft) && isSubmitDialogOpen == old(isSubmitDialogOpen)
      ensures isTestCompleted == old(isTestCompleted) && emitted == old(emitted)
    {
      answers := answers[currentQuestionIndex := Some(optionIndex)];
    }

    /** Flips the review flag of the current question only. */
    method ToggleMarkForReview()
      requires Valid()
      modifies this
      ensures Valid()
      ensures markedForReview == old(markedForReview)[currentQuestionIndex := !old(markedForReview)[currentQuestionIndex]]
      ensures answers == old(answers) && currentQuestionIndex == old(currentQuestionIndex)
      ensures timeLeft == old(timeLeft) && isSubmitDialogOpen == old(isSubmitDialogOpen)
      ensures isTestCompleted == old(isTestCompleted) && emitted == old(emitted)
    {
      markedForReview := markedForReview[currentQuestionIndex := !markedForReview[currentQuestionIndex]];
    }

    method GoToNextQuestion()
      requires Valid()
      modifies this
      ensures Valid()
      ensures currentQuestionIndex == if old(currentQuestionIndex) < |questions| - 1
                                      then old(currentQuestionIndex) + 1 else old(currentQuestionIndex)
      ensures answers == old(answers) && markedForReview == old(markedForReview)
      ensures timeLeft == old(timeLeft) && isSubmitDialogOpen == old(isSubmitDialogOpen)
      ensures isTestCompleted == old(isTestCompleted) && emitted == old(emitted)
    {
      if currentQuestionIndex < |questions| - 1 {
        currentQuestionIndex := currentQuestionIndex + 1;
      }
    }

    method GoToPreviousQuestion()
      requires Valid()
      modifies this
      ensures Valid()
      ensures currentQuestionIndex == if old(currentQuestionIndex) > 0
                                      then old(currentQuestionIndex) - 1 else old(currentQuestionIndex)
      ensures answers == old(answers) && markedForReview == old(markedForReview)
      ensures timeLeft == old(timeLeft) && isSubmitDialogOpen == old(isSubmitDialogOpen)
      ensures isTestCompleted == old(isTestCompleted) && emitted == old(emitted)
    {
      if currentQuestionIndex > 0 {
        currentQuestionIndex := currentQuestionIndex - 1;
      }
    }

    /** Palette navigation: any question can be reached whatever has been answered. */
    method GoToQuestion(index: int)
      requires Valid()
      requires 0 <= index < |questions|
      modifies this
      ensures Valid()
      ensures currentQuestionIndex == index
      ensures answers == old(answers) && markedForReview == old(markedForReview)
      ensures timeLeft == old(timeLeft) && isSubmitDialogOpen == old(isSubmitDialogOpen)
      ensures isTestCompleted == old(isTestCompleted) && emitted == old(emitted)
    {
      currentQuestionIndex := index;
    }

    /** "Submit Test" only opens the confirmation dialog. */
    method HandleSubmitTest()
      requires Valid()
      modifies this
      ensures Valid()
      ensures isSubmitDialogOpen
      ensures answers == old(answers) && markedForReview == old(markedForReview)
      ensures currentQuestionIndex == old(currentQuestionIndex) && timeLeft == old(timeLeft)
      ensures isTestCompleted == old(isTestCompleted) && emitted == old(emitted)
    {
      isSubmitDialogOpen := true;
    }

    /** "Cancel" closes the dialog through its open-change handler; nothing else changes. */
    method CancelSubmit()
      requires Valid()
      modifies this
      ensures Valid()
      ensures !isSubmitDialogOpen
      ensures answers == old(answers) && markedForReview == old(markedForReview)
      ensures currentQuestionIndex == old(currentQuestionIndex) && timeLeft == old(timeLeft)
      ensures isTestCompleted == old(isTestCompleted) && emitted == old(emitted)
    {
      isSubmitDialogOpen := false;
    }

    /**
     * Marks the test completed, scores the current answers with the time
     * used so far and hands the results to `onComplete`. Nothing stops it from
     * running again on a completed test: every run emits once more.
     */
    method HandleTestCompletion()
      requires Valid()
      modifies this
      ensures Valid()
      ensures isTestCompleted
      ensures emitted == old(emitted) + [Results(testId, questions, answers, duration * 60 - timeLeft)]
      ensures answers == old(answers) && markedForReview == old(markedForReview)
      ensures currentQuestionIndex == old(currentQuestionIndex) && timeLeft == old(timeLeft)
      ensures isSubmitDialogOpen == old(isSubmitDialogOpen)
    {
      isTestCompleted := true;
      var timeTaken := duration * 60 - timeLeft;
      var results := Score(testId, questions, answers, timeTaken);
      ResultsConservation(testId, questions, answers, timeTaken);
      emitted := emitted + [results];
    }

    /** "Submit" in the dialog: close it and complete the test. */
    method ConfirmSubmit()
      requires Valid()
      modifies this
      ensures Valid()
      ensures !isSubmitDialogOpen && isTestCompleted
      ensures emitted == old(emitted) + [Results(testId, questions, answers, duration * 60 - timeLeft)]
      ensures answers == old(answers) && markedForReview == old(markedForReview)
      ensures currentQuestionIndex == old(currentQuestionIndex) && timeLeft == old(timeLeft)
    {
      isSubmitDialogOpen := false;
      HandleTestCompletion();
    }

    /**
     * One firing of the one-second interval. The interval exists only while
     * the timer effect found time left and the test not completed.
     */
    method Tick()
      requires Valid()
      requires !isTestCompleted && timeLeft > 0
      modifies this
      ensures Valid()
      ensures timeLeft == old(timeLeft) - 1
      ensures answers == old(answers) && markedForReview == old(markedForReview)
      ensures currentQuestionIndex == old(currentQuestionIndex) && isSubmitDialogOpen == old(isSubmitDialogOpen)
      ensures isTestCompleted == old(isTestCompleted) && emitted == old(emitted)
    {
      timeLeft := timeLeft - 1;
    }

    /**
     * The timer effect, which the host runs on mount and after every change
     * of `timeLeft` or `isTestCompleted`: with no time left, or once the test
     * is completed, it runs the completion (again); otherwise it (re)arms the
     * interval, which changes no state.
     */
    method TimerEffect()
      requires Valid()
      modifies this
      ensures Valid()
      ensures isTestCompleted == (old(isTestCompleted) || old(timeLeft) <= 0)
      ensures emitted == old(emitted) + (if old(timeLeft) <= 0 || old(isTestCompleted)
                                         then [Results(testId, questions, answers, duration * 60 - timeLeft)]
                                         else [])
      ensures answers == old(answers) && markedForReview == old(markedForReview)
      ensures currentQuestionIndex == old(currentQuestionIndex) && timeLeft == old(timeLeft)
      ensures isSubmitDialogOpen == old(isSubmitDialogOpen)
    {
      if timeLeft <= 0 || isTestCompleted {
        HandleTestCompletion();
      }
    }

    /** Review flag first, then answered, else unanswered. */
    function GetQuestionStatus(index: int): (status: QuestionStatus)
      reads this
      requires Valid() && 0 <= index < |questions|
      ensures status == Review <==> markedForReview[index]
      ensures status == Answered <==> !markedForReview[index] && answers[index].Some?
      ensures status == Unanswered <==> !markedForReview[index] && answers[index].None?
    {
      if markedForReview[index] then Review
      else if answers[index].Some? then Answered
      else Unanswered
    }

    /** How far through the questions the current one is, as a percentage. */
    function Progress(): (p: real)
      reads this
      requires Valid()
      ensures 0.0 < p <= 100.0
      ensures p == 100.0 <==> currentQuestionIndex == |questions| - 1
    {
      PercentBounds(currentQuestionIndex + 1, |questions|);
      Percent(currentQuestionIndex + 1, |questions|)
    }

    /** The number the confirmation dialog warns about. */
    function UnansweredCount(): (n: nat)
      reads this
      requires Valid()
      ensures n <= |questions|
      ensures n == 0 <==> forall i :: 0 <= i < |answers| ==> answers[i].Some?
    {
      SkippedBound(answers);
      CountSkipped(answers)
    }
  }

  lemma {:induction false} SkippedBound(answers: seq<Option<int>>)
    ensures CountSkipped(answers) <= |answers|
    ensures CountSkipped(answers) == 0 <==> forall i :: 0 <= i < |answers| ==> answers[i].Some?
    ensures CountSkipped(answers) == |answers| <==> forall i :: 0 <= i < |answers| ==> answers[i].None?
  {
    if answers != [] {
      var m := |answers| - 1;
      SkippedBound(answers[..m]);
      assert forall i :: 0 <= i < m ==> answers[..m][i] == answers[i];
    }
  }

  // ---------------------------------------------------------------------------
  // Whole sessions
  // ---------------------------------------------------------------------------

  /**
   * A session left alone until its time runs out: the interval fires once a
   * second and the timer effect follows each firing; the last one completes
   * the test with every question skipped and the whole duration used. That
   * completion changes `isTestCompleted`, so the host runs the effect once
   * more, and it completes and emits a second time.
   */
  method RunOutTheClock(testId: string, duration: nat, questions: seq<Question>) returns (emissions: seq<TestResults>)
    requires |questions| > 0
    ensures |emissions| == 2 && emissions[0] == emissions[1]
    ensures emissions[0] == Results(testId, questions, seq(|questions|, _ => None), duration * 60)
    ensures emissions[0].skippedQuestions == |questions| && emissions[0].correctAnswers == 0
    ensures emissions[0].timeTaken == duration * 60
  {
    ghost var unanswered := seq(|questions|, _ => None);
    ghost var expected := Results(testId, questions, unanswered, duration * 60);
    var session := new TestSession(testId, duration, questions);
    session.TimerEffect();
    while session.timeLeft > 0
      invariant session.Valid()
      invariant session.questions == questions && session.duration == duration && session.testId == testId
      invariant session.answers == unanswered
      invariant session.timeLeft >= 0
      invariant !session.isTestCompleted <==> session.timeLeft > 0
      invariant session.emitted == if session.timeLeft > 0 then [] else [expected]
      decreases session.timeLeft
    {
      session.Tick();
      session.TimerEffect();
    }
    // the completion just set `isTestCompleted`, which re-runs the effect
    session.TimerEffect();
    emissions := session.emitted;
    AllSkipped(questions, unanswered);
  }

  lemma {:induction false} AllSkipped(qs: seq<Question>, answers: seq<Option<int>>)
    requires |answers| == |qs| && forall i :: 0 <= i < |answers| ==> answers[i].None?
    ensures CountSkipped(answers) == |qs| && CountCorrect(qs, answers) == 0
  {
    if qs != [] {
      var m := |qs| - 1;
      AllSkipped(qs[..m], answers[..m]);
    }
  }

  /**
   * Confirming the submission completes the test and emits the results; the
   * change of `isTestCompleted` makes the host run the timer effect, which
   * completes and emits again: `onComplete` receives the same results twice.
   */
  method SubmitEmitsTwice(testId: string, duration: nat, questions: seq<Question>) returns (emissions: seq<TestResults>)
    requires |questions| > 0 && duration > 0
    ensures |emissions| == 2 && emissions[0] == emissions[1]
    ensures emissions[0] == Results(testId, questions, seq(|questions|, _ => None), 0)
  {
    var session := new TestSession(testId, duration, questions);
    session.TimerEffect();
    session.HandleSubmitTest();
    session.ConfirmSubmit();
    session.TimerEffect();
    emissions := session.emitted;
  }
}

# A verified model of the SigmaEdify exam-preparation front end

This project is a Dafny model of the logic inside the SigmaEdify
exam-preparation web application (a React/TypeScript front end), with proofs
about that logic.

- **Mock test session** (`mock_test_interface.dfy`, module
  `MockTestInterface`). One timed attempt at a question set is a class
  `TestSession` whose fields are the component's state:
  - the current question;
  - the answer per question;
  - the review flags;
  - the countdown;
  - the dialog and completion flags;
  - the log of every result handed to `onComplete`.

  The handlers are methods. The scorer of `handleTestCompletion` is a
  method with the source's loop and its dictionary updates. It is proved
  equal to a specification function `Results`, and the properties of the
  scorer are proved about that function.
- **Results screen** (`test_results.dfy`, module `TestResultsView`). Covers:
  - the review icons and option highlights;
  - the "Correct" tab;
  - the label lookup by id;
  - accuracy and speed.
- **Score colour bands** (`score_bands.dfy`, module `ScoreBands`). These are
  shared by the results screen and the analytics screen, which define the
  same two helpers.
- **Course page** (`course_page.dfy`, module `CoursePage`). Covers:
  - the course table;
  - the lookup with its placeholder course;
  - the playlist cursor, as class `CoursePlayer`;
  - the completed-video set and the progress percentage.
- **Catalogue pages**:
  - `mock_test_list.dfy`, module `MockTestList`;
  - `notes_library.dfy`, module `NotesLibrary`;
  - `courses.dfy`, module `Courses`.

  These cover the search and filter predicates, the de-duplicated filter
  buttons, the previews, the tabs, starting a test and downloading a note.
- **Analytics and question quality**:
  - `performance_analytics.dfy`, module `PerformanceAnalytics`;
  - `question_quality.dfy`, module `QuestionQuality`.
- **Shared helpers** (`common.dfy`, module `Common`). These are the
  operations of the JavaScript library that the pages rely on:
  - order-preserving `filter`;
  - `Array.from(new Set(...))`;
  - ASCII `toLowerCase` and `includes`;
  - `slice(0, k)` with "+N more";
  - percentages.

Class-name strings are kept where they are compared. Elsewhere they are
modelled as tags: a hue and where it is applied. JavaScript numbers are
modelled as exact integers and reals.

## Model

| member | source | states |
|---|---|---|
| Common.Filter | src/components/mock-tests/MockTestList.tsx:220-233 | `Array.prototype.filter`: an element is in the result exactly when it is in the input and satisfies the predicate; the result is never longer |
| Common.FilterSelects | src/components/mock-tests/MockTestList.tsx:220 | the filtered list is the input with elements deleted and none reordered, through exactly the positions whose element satisfies the predicate |
| Common.FilterIsSubsequence | src/components/pages/NotesLibrary.tsx:233 | a filtered list is a subsequence of its input |
| Common.FilterKeepsAll | src/components/pages/Courses.tsx:232-236 | a predicate true of every element keeps the list unchanged |
| Common.FilterSplits | src/components/pages/NotesLibrary.tsx:347-352 | two complementary filters split a list: their lengths add up to its length and their multisets to its multiset |
| Common.Dedupe | src/components/mock-tests/MockTestList.tsx:215-217 | `Array.from(new Set(xs))` has no duplicates, is never longer than `xs`, and holds exactly the values of `xs` |
| Common.DedupeFirstOccurrenceOrder | src/components/mock-tests/MockTestList.tsx:215-217 | the distinct values come in the order of their first occurrence |
| Common.DistinctValues | src/components/pages/NotesLibrary.tsx:230-231 | `Array.from(new Set(xs.map(f)))` has no duplicates and holds exactly the values `f` takes on `xs` |
| Common.Project | src/components/pages/Courses.tsx:238-241 | `xs.map(f)` keeps the length and applies `f` at every position |
| Common.ToLower | src/components/mock-tests/MockTestList.tsx:222 | `toLowerCase` keeps the length and lowers each character on its own |
| Common.ToLowerIdempotent | src/components/mock-tests/MockTestList.tsx:222 | lowering twice is lowering once |
| Common.Includes | src/components/mock-tests/MockTestList.tsx:221-227 | `includes` holds exactly when some window of the text spells the needle |
| Common.IncludesEmpty | src/components/mock-tests/MockTestList.tsx:221-223 | the empty search string is found in every text |
| Common.MatchesEmptyQuery | src/components/pages/NotesLibrary.tsx:234-237 | with an empty search box every text matches, whatever its case |
| Common.Truncate | src/components/pages/Courses.tsx:363-373 | the preview shows `min(limit, n)` items, a prefix of the list, with a "+k more" count exactly when `n > limit`; shown plus k is n |
| Common.PercentBounds | src/components/mock-tests/MockTestInterface.tsx:186-190 | `(part / whole) * 100` for `part <= whole` lies in [0, 100] and is 100 exactly when `part == whole` |
| MockTestInterface.SubjectsOf | src/components/mock-tests/MockTestInterface.tsx:161-169 | the subject met at each step of the pass over the questions |
| MockTestInterface.SubjectTotal | src/components/mock-tests/MockTestInterface.tsx:168-178 | a subject's question count is positive exactly for subjects that occur |
| MockTestInterface.SubjectCorrect | src/components/mock-tests/MockTestInterface.tsx:177-178 | a subject's correct count never exceeds its question count |
| MockTestInterface.Results | src/components/mock-tests/MockTestInterface.tsx:150-205 | the results carry the test id, the time taken and the question count; the incorrect count, found by subtraction, is the number of questions answered wrongly; the score is in [0, 100]; there is one answer record per question |
| MockTestInterface.TallyQuestions | src/components/mock-tests/MockTestInterface.tsx:161-184 | the loop counts the correct answers; builds the subject table, with keys in first-met order and each entry holding its subject's total and correct counts; and builds one answer record per question |
| MockTestInterface.RecordAnswer | src/components/mock-tests/MockTestInterface.tsx:169-178 | one subject update: the entry is created with zero counts the first time, then its total (and for a correct answer its correct count) goes up by one |
| MockTestInterface.FillSubjectScores | src/components/mock-tests/MockTestInterface.tsx:186-190 | the pass over the keys sets every entry's score to its own percentage and changes nothing else |
| MockTestInterface.ScoredTable | src/components/mock-tests/MockTestInterface.tsx:186-190 | every entry of the tallied table has a positive total, and scoring it gives each subject's statistics |
| MockTestInterface.Score | src/components/mock-tests/MockTestInterface.tsx:150-205 | the results built by the completion handler are exactly `Results` of the questions, answers and time taken |
| MockTestInterface.CountsPartition | src/components/mock-tests/MockTestInterface.tsx:192-201 | every question is exactly one of correct, incorrect (answered wrongly) or skipped |
| MockTestInterface.AllCorrectIff | src/components/mock-tests/MockTestInterface.tsx:164-166 | the correct count is at most the question count, and equals it exactly when every answer is correct |
| MockTestInterface.ResultsConservation | src/components/mock-tests/MockTestInterface.tsx:192-205 | correct + incorrect + skipped = total = number of questions; incorrect is never negative; one record per question; a skipped question is never correct; the score is in [0, 100] and is 100 exactly when all answers are correct |
| MockTestInterface.SubjectTotalsPartition | src/components/mock-tests/MockTestInterface.tsx:168-178 | over a duplicate-free key list covering all subjects, subject totals add up to the question count and subject correct counts to the correct count |
| MockTestInterface.TableSums | src/components/mock-tests/MockTestInterface.tsx:168-178 | summing a table of subject statistics over its keys sums the per-subject counts |
| MockTestInterface.SubjectPartition | src/components/mock-tests/MockTestInterface.tsx:159-190 | the subject table has one key per subject, without duplicates and covering every question; its totals add up to the question count, its correct counts to the correct-answer count; each score is its subject's own percentage |
| MockTestInterface.SkippedBound | src/components/mock-tests/MockTestInterface.tsx:197-199 | the skipped count is at most the number of answers; it is 0 exactly when all are answered and equals the count exactly when none is |
| MockTestInterface.AllSkipped | src/components/mock-tests/MockTestInterface.tsx:197-199 | with no answer given, every question is skipped and none is correct |
| MockTestInterface.FormatTime | src/components/mock-tests/MockTestInterface.tsx:210-214 | hours, minutes and seconds recompose the input, with minutes and seconds below 60 |
| MockTestInterface.NatText | src/components/mock-tests/MockTestInterface.tsx:215 | a number is printed as a non-empty string of decimal digits whose value is the number, with a leading zero only for zero itself |
| MockTestInterface.FormatTimeText | src/components/mock-tests/MockTestInterface.tsx:210-215 | below an hour the text is the whole minutes with "m " and the remaining seconds with "s"; from an hour on it is the hours with "h ", the minutes within the hour with "m " and the seconds within the minute with "s" |
| MockTestInterface.FormatTimeShowsHours | src/components/mock-tests/MockTestInterface.tsx:215 | the "h" part appears in the clock text exactly when at least an hour is left |
| MockTestInterface.TestSession.constructor | src/components/mock-tests/MockTestInterface.tsx:87-96 | a new session is on question 0, every answer null, no flags, the full duration in seconds left, dialog closed, not completed, nothing emitted |
| MockTestInterface.TestSession.AnswerSelect | src/components/mock-tests/MockTestInterface.tsx:112-116 | the selection is recorded for the current question only; all other state is unchanged |
| MockTestInterface.TestSession.ToggleMarkForReview | src/components/mock-tests/MockTestInterface.tsx:118-123 | the review flag of the current question is flipped, nothing else changes |
| MockTestInterface.TestSession.GoToNextQuestion | src/components/mock-tests/MockTestInterface.tsx:125-129 | moves forward by one unless on the last question; nothing else changes |
| MockTestInterface.TestSession.GoToPreviousQuestion | src/components/mock-tests/MockTestInterface.tsx:131-135 | moves back by one unless on the first question; nothing else changes |
| MockTestInterface.TestSession.GoToQuestion | src/components/mock-tests/MockTestInterface.tsx:137-139 | jumps to any question regardless of answers; nothing else changes |
| MockTestInterface.TestSession.HandleSubmitTest | src/components/mock-tests/MockTestInterface.tsx:141-143 | submitting only opens the confirmation dialog |
| MockTestInterface.TestSession.CancelSubmit | src/components/mock-tests/MockTestInterface.tsx:141-148 | cancelling only closes the dialog |
| MockTestInterface.TestSession.HandleTestCompletion | src/components/mock-tests/MockTestInterface.tsx:150-208 | marks the test completed and hands `Results` with time taken `duration * 60 - timeLeft` to `onComplete`, appending it to the log, even when already completed; the session invariant (every emitted result consistent) is kept |
| MockTestInterface.TestSession.ConfirmSubmit | src/components/mock-tests/MockTestInterface.tsx:145-148 | closes the dialog and completes the test, emitting the results once |
| MockTestInterface.TestSession.Tick | src/components/mock-tests/MockTestInterface.tsx:105-107 | one interval firing takes one second off the clock and changes nothing else |
| MockTestInterface.TestSession.TimerEffect | src/components/mock-tests/MockTestInterface.tsx:99-110 | with no time left or the test completed, the effect completes the test and emits; otherwise it changes nothing |
| MockTestInterface.TestSession.GetQuestionStatus | src/components/mock-tests/MockTestInterface.tsx:218-222 | review when flagged; otherwise answered exactly when an answer is present; otherwise unanswered |
| MockTestInterface.TestSession.Progress | src/components/mock-tests/MockTestInterface.tsx:225 | the progress bar is in (0, 100] and full exactly on the last question |
| MockTestInterface.TestSession.UnansweredCount | src/components/mock-tests/MockTestInterface.tsx:197-199 | the count of null answers is at most the question count and 0 exactly when all are answered |
| MockTestInterface.RunOutTheClock | src/components/mock-tests/MockTestInterface.tsx:99-110 | letting the timer run down on an untouched session emits its results twice (the completion itself changes `isTestCompleted`, which re-runs the effect), both with every question skipped, none correct and the whole duration taken |
| MockTestInterface.SubmitEmitsTwice | src/components/mock-tests/MockTestInterface.tsx:99-103 | confirming a submission completes the test, and the effect that the completion flag re-triggers completes it again: `onComplete` receives the same results twice |
| ScoreBands.ScoreColor | src/components/mock-tests/TestResults.tsx:50-55 | `getScoreColor` yields a text colour: green from 80, blue in [60, 80), yellow in [40, 60), red below 40 |
| ScoreBands.ProgressColor | src/components/mock-tests/TestResults.tsx:57-62 | `getProgressColor` yields a bar colour with the same bands: green from 80, blue in [60, 80), yellow in [40, 60), red below 40 |
| ScoreBands.SameBand | src/components/mock-tests/PerformanceAnalytics.tsx:53-65 | a score's text colour and bar colour are always in the same band |
| ScoreBands.BandMonotone | src/components/mock-tests/PerformanceAnalytics.tsx:53-65 | a higher score never gets a lower band, for text or bar |
| TestResultsView.IconOf | src/components/mock-tests/TestResults.tsx:259-276 | the check mark exactly for a correct answer, "S" exactly for a null wrong one, the cross exactly for an answered wrong one |
| TestResultsView.IconsMatchCounts | src/components/mock-tests/TestResults.tsx:259-276 | on the results of a test, the numbers of check marks, "S" badges and crosses equal the correct, skipped and incorrect counts |
| TestResultsView.MarkOption | src/components/mock-tests/TestResults.tsx:289-304 | the correct option is marked correct, and only it; an option is marked wrong exactly when the user picked it and it is not the correct one |
| TestResultsView.OptionMarks | src/components/mock-tests/TestResults.tsx:286-288 | one mark per option |
| TestResultsView.OptionMarksShape | src/components/mock-tests/TestResults.tsx:286-304 | at most one option marked correct and at most one wrong; none wrong for a correct or skipped answer; the correct option, when in range, is marked correct |
| TestResultsView.CorrectPositions | src/components/mock-tests/TestResults.tsx:331-334 | the positions with a correct record, each once and in increasing order |
| TestResultsView.CorrectTab | src/components/mock-tests/TestResults.tsx:331-334 | the "Correct" tab holds only questions whose record is correct, and every such question |
| TestResultsView.CorrectTabSelects | src/components/mock-tests/TestResults.tsx:331-334 | the "Correct" tab is the question list with deletions only, through exactly the positions whose record is correct |
| TestResultsView.CorrectTabLength | src/components/mock-tests/TestResults.tsx:247 | on the results of a test the tab lists as many questions as its "Correct (n)" label says |
| TestResultsView.FindIndexById | src/components/mock-tests/TestResults.tsx:336-338 | `findIndex` gives the first position with the id, or -1 exactly when no question has it |
| TestResultsView.LabelPosition | src/components/mock-tests/TestResults.tsx:336-348 | a question's label position is at most its own, and equal to it exactly when no earlier question shares its id |
| TestResultsView.Accuracy | src/components/mock-tests/TestResults.tsx:183 | the accuracy is defined exactly when some question was answered (otherwise 0 / 0) |
| TestResultsView.AccuracyBounds | src/components/mock-tests/TestResults.tsx:183 | on test results, accuracy is defined exactly when some answer exists, lies in [0, 100], and is 100 exactly when no answer was wrong |
| TestResultsView.Speed | src/components/mock-tests/TestResults.tsx:192 | seconds per question times the question count is the time taken |
| CoursePage.Unlocked | src/components/pages/CoursePage.tsx:60-389 | the videos of the course table, one per id, all unlocked |
| CoursePage.DefaultCourseData | src/components/pages/CoursePage.tsx:392-420 | the placeholder course carries the requested id and one module with one unlocked video |
| CoursePage.LookupCourse | src/components/pages/CoursePage.tsx:426-428 | the course shown always has a non-empty playlist of non-empty modules, and carries the route id, or "default" when the id is missing or empty |
| CoursePage.TotalVideos | src/components/pages/CoursePage.tsx:438 | the video count is the length of the playlist read straight through |
| CoursePage.NextPos | src/components/pages/CoursePage.tsx:457-464 | on a playlist with no empty module the next position is valid, and it stays put exactly on the last video |
| CoursePage.PrevPos | src/components/pages/CoursePage.tsx:466-473 | on a playlist with no empty module the previous position is valid, and it stays put exactly on the first video |
| CoursePage.LookupCourseShape | src/components/pages/CoursePage.tsx:426-428 | the shown course always has a non-empty playlist of non-empty modules; it carries the route id, or "default" for a missing or empty one; an unknown id gets the placeholder |
| CoursePage.FlatIndexNamesVideo | src/components/pages/CoursePage.tsx:438 | a cursor position names the video at its place in the playlist read straight through, whose length is `totalVideos` |
| CoursePage.MovesStayValid | src/components/pages/CoursePage.tsx:457-473 | next and previous keep the cursor on a video |
| CoursePage.NoOpExactlyAtEnds | src/components/pages/CoursePage.tsx:475-477 | next stays put exactly on the last video, previous exactly on the first |
| CoursePage.MovesStepByOne | src/components/pages/CoursePage.tsx:457-473 | away from the ends, next and previous move one step along the playlist and undo each other |
| CoursePage.VideoIdsBound | src/components/pages/CoursePage.tsx:438-439 | there are never more distinct video ids than videos |
| CoursePage.CoursePlayer.constructor | src/components/pages/CoursePage.tsx:422-433 | the page opens on the looked-up course, its first video, with nothing completed |
| CoursePage.CoursePlayer.VideoSelect | src/components/pages/CoursePage.tsx:441-447 | picking a video moves there unless it is locked; completions are untouched |
| CoursePage.CoursePlayer.MarkComplete | src/components/pages/CoursePage.tsx:449-455 | the current video's id is added to the completed set, which stays within the course's ids |
| CoursePage.CoursePlayer.NextVideo | src/components/pages/CoursePage.tsx:457-464 | the cursor becomes `NextPos` of the old one |
| CoursePage.CoursePlayer.PreviousVideo | src/components/pages/CoursePage.tsx:466-473 | the cursor becomes `PrevPos` of the old one |
| CoursePage.CoursePlayer.IsFirstVideo | src/components/pages/CoursePage.tsx:475 | "Previous" is disabled exactly where it would not move |
| CoursePage.CoursePlayer.IsLastVideo | src/components/pages/CoursePage.tsx:476-477 | "Next" is disabled exactly where it would not move |
| CoursePage.CoursePlayer.ProgressPercentage | src/components/pages/CoursePage.tsx:439 | the progress is in [0, 100], and 100 only when every distinct video id is completed |
| MockTestList.FilteredTestsSelect | src/components/mock-tests/MockTestList.tsx:220-233 | tests keep their order, and a test is shown exactly when its title, category or one of its subjects contains the query (ignoring case), the category is unset or equal, and the difficulty is unset or equal |
| MockTestList.FilteredTests | src/components/mock-tests/MockTestList.tsx:220-233 | the grid holds exactly the catalogue tests the filters keep, as a subsequence of the catalogue |
| MockTestList.ResetFilters | src/components/mock-tests/MockTestList.tsx:511-517 | reset empties the search and clears both selections |
| MockTestList.ResetShowsAll | src/components/mock-tests/MockTestList.tsx:220-233 | after a reset every test is listed, in catalogue order |
| MockTestList.FeaturedTests | src/components/mock-tests/MockTestList.tsx:527-528 | the featured tab holds exactly the filtered tests that are featured, in the order of the filtered list |
| MockTestList.SubjectPreview | src/components/mock-tests/MockTestList.tsx:463-473 | the first three subjects, all when fewer, and "+k more" exactly when there are more, with k the rest |
| MockTestList.Categories | src/components/mock-tests/MockTestList.tsx:215-217 | the category buttons have no duplicates and name exactly the categories of the tests |
| MockTestList.CategoriesInFirstOccurrenceOrder | src/components/mock-tests/MockTestList.tsx:215-217 | the buttons follow the order in which categories first appear |
| MockTestList.DifficultyColor | src/components/mock-tests/MockTestList.tsx:181-192 | every difficulty gets a colour of its own arm, never the `text-primary` fallback |
| MockTestList.DifficultyBadgeClass | src/components/mock-tests/MockTestList.tsx:194-205 | every difficulty has a badge class, never the empty fallback |
| MockTestList.DifficultyClassesDistinct | src/components/mock-tests/MockTestList.tsx:181-205 | two difficulties share a colour, or a badge class, exactly when they are equal |
| MockTestList.StartTestPath | src/components/mock-tests/MockTestList.tsx:235-239 | the path opened starts with `/mock-test/` and the rest of it is the test id, unchanged |
| MockTestList.StartTestPathInjective | src/components/mock-tests/MockTestList.tsx:235-239 | two tests are opened on the same path exactly when their ids are equal |
| NotesLibrary.FilteredNotesSelect | src/components/pages/NotesLibrary.tsx:233-245 | notes keep their order, and a note is shown exactly when its title, description or subcategory contains the query (ignoring case), the category is unset or equal, and the format is unset or equal |
| NotesLibrary.FilteredNotes | src/components/pages/NotesLibrary.tsx:233-245 | the page holds exactly the library notes the filters keep, as a subsequence of the library |
| NotesLibrary.ResetFilters | src/components/pages/NotesLibrary.tsx:513-516 | reset empties the search and clears both selections |
| NotesLibrary.ResetShowsAll | src/components/pages/NotesLibrary.tsx:233-245 | after a reset every note is listed, in library order |
| NotesLibrary.FeaturedNotes | src/components/pages/NotesLibrary.tsx:347-352 | the featured grid holds exactly the filtered notes that are featured, in filtered order |
| NotesLibrary.OtherNotes | src/components/pages/NotesLibrary.tsx:347-352 | the rest of the "all" tab holds exactly the filtered notes that are not featured, in filtered order |
| NotesLibrary.FeaturedSplit | src/components/pages/NotesLibrary.tsx:347-352 | the featured section and the "all" tab split the filtered notes with nothing shared and nothing lost; the section is shown exactly when it is non-empty |
| NotesLibrary.TabNotes | src/components/pages/NotesLibrary.tsx:527-559 | an exam tab lists exactly the filtered notes in its categories, in the order of the filtered list |
| NotesLibrary.TabsDisjoint | src/components/pages/NotesLibrary.tsx:527-575 | no note appears on two exam tabs, and the banking tab lists none |
| NotesLibrary.Categories | src/components/pages/NotesLibrary.tsx:230 | the category buttons have no duplicates and name exactly the categories of the notes |
| NotesLibrary.Formats | src/components/pages/NotesLibrary.tsx:231 | the format buttons have no duplicates and name exactly the formats of the notes |
| NotesLibrary.FindNote | src/components/pages/NotesLibrary.tsx:248 | `find` gives the first note with the id, or nothing exactly when no note has it |
| NotesLibrary.HandleDownload | src/components/pages/NotesLibrary.tsx:247-254 | the first note with the id is opened at its link when that link is non-empty; otherwise, or with no such note, "not available" |
| Courses.FilteredCoursesSelect | src/components/pages/Courses.tsx:232-236 | courses keep their order, and a course is shown exactly when the category is unset, empty or equal, and the level is unset or equal |
| Courses.FilteredCourses | src/components/pages/Courses.tsx:232-236 | the grid holds exactly the catalogue courses the filters keep, as a subsequence of the catalogue |
| Courses.ResetFilters | src/components/pages/Courses.tsx:400-403 | reset clears both selections |
| Courses.ResetShowsAll | src/components/pages/Courses.tsx:232-236 | with both selections cleared every course is listed, in catalogue order |
| Courses.Categories | src/components/pages/Courses.tsx:238-240 | the category buttons have no duplicates and name exactly the courses' categories |
| Courses.Levels | src/components/pages/Courses.tsx:241 | the computed (but never rendered) level list has no duplicates and names exactly the courses' levels |
| Courses.ButtonsInFirstOccurrenceOrder | src/components/pages/Courses.tsx:238-241 | the category buttons, and the unrendered level list, follow first-occurrence order |
| Courses.FeaturePreview | src/components/pages/Courses.tsx:363-373 | the first three features, all when fewer, and "+k more" exactly when there are more, with k the rest |
| PerformanceAnalytics.TrendIconOf | src/components/mock-tests/PerformanceAnalytics.tsx:67-74 | rising exactly for a positive change, falling exactly for a negative one, blank exactly for zero |
| PerformanceAnalytics.ImprovementLineOf | src/components/mock-tests/PerformanceAnalytics.tsx:108-109 | "+" and green exactly for a positive improvement; no prefix and red for zero and below |
| PerformanceAnalytics.ImprovementMatchesTrend | src/components/mock-tests/PerformanceAnalytics.tsx:106-109 | the line is green exactly when the icon rises; a fall and a zero change are both shown red without prefix |
| PerformanceAnalytics.SubjectRowOf | src/components/mock-tests/PerformanceAnalytics.tsx:164-180 | a subject row's text and bar colours share one hue, which is green from 80, blue from 60, yellow from 40 and red below; the icon rises, falls or is blank with the sign of the improvement |
| QuestionQuality.QualityBadgeOf | src/components/mock-tests/QuestionQuality.tsx:43-53 | Excellent from 4.5, High in [4.0, 4.5), Good in [3.5, 4.0), Standard below 3.5 |
| QuestionQuality.QualityMonotone | src/components/mock-tests/QuestionQuality.tsx:43-53 | a higher rating never gets a lower badge |
| QuestionQuality.LabelsDistinct | src/components/mock-tests/QuestionQuality.tsx:44-52 | the four badge labels are different |
| QuestionQuality.DifficultyColor | src/components/mock-tests/QuestionQuality.tsx:32-41 | every difficulty gets a `text-` colour class |
| QuestionQuality.DifficultyColorsDistinct | src/components/mock-tests/QuestionQuality.tsx:32-41 | every difficulty has a non-empty colour and no two share one |
| QuestionQuality.Badges | src/components/mock-tests/QuestionQuality.tsx:29-30 | the quality badge comes first; "Verified" and "Expert Reviewed" appear exactly when their flags are true, an absent flag counting as false |

## Left out

- The rendering, animation, styling and layout of every page, along with these static pages: the home page, header, footer, routing, entry point, tutorial and performance dashboard.
- The static data arrays of the catalogue pages. They are parameters, so every property holds for any catalogue.
- Course table: only the ids, lock flags and module/video ids of the real table are included. Titles, descriptions, durations and links are omitted.
- Side effects are outside the model:
  - `navigate` is modelled as the path it would open;
  - `window.open` and `alert` are modelled as the action chosen;
  - `setInterval`/`clearInterval` are modelled by `Tick` and `TimerEffect`. The host runs the effect after each change of `timeLeft` or `isTestCompleted`; the model does not schedule this.
- The parent of the test session, which receives `onComplete`, is not part of this model. The double emission shown by `SubmitEmitsTwice` is what the session itself does.
- Floating point: `Math.round`, `toFixed(1)` and IEEE rounding are not modelled. Scores, accuracy, speed and progress are exact reals before rounding. In `Accuracy`, `None` stands for the unguarded division by zero: `NaN` for 0 / 0 and Infinity for a positive correct count over no answered question. Only the `NaN` case arises from the scorer's results.
- `toLowerCase` is modelled on ASCII letters only. Locale and Unicode case mappings are not.
- Placeholder figures on the results screen are fixed text and are not modelled: rank "42 / 1,245", percentile "96.5%" and trend "+12%". The empty "Incorrect" and "Skipped" tabs are not modelled either.
- Class strings are tags (a hue with its use) except where two classes are compared. In `MockTestList` and `QuestionQuality` the colour strings are kept. There, each long class list is written as its classes joined, which gives the same string. The quality badge's colour classes are not modelled.
- The `default:` arms of the difficulty switches cannot be reached with a typed difficulty. They appear only as the value the result is proved to differ from.
- The course lookup does not model keys inherited from the JavaScript object prototype, such as `coursesData["toString"]`.
- MockTestInterface.TallyQuestions: the subject table is a map with keys in first-met order. The source's table is a plain object (src/components/mock-tests/MockTestInterface.tsx:155-190). Two of its behaviours are not modelled. First, a subject named like an inherited property (`constructor`, `toString`, `__proto__`) finds a truthy inherited value, so it gets no entry of its own and `Object.keys` never lists it. For such inputs `Results`, `SubjectPartition` and `SubjectTotalsPartition` describe the intended table, not the object. Second, integer-like subject names such as `2024` come first in `Object.keys`, before the first-met order.
- MockTestList.StartTestPath: only the path is modelled, not the router that reads it (src/App.tsx:30-31). The static route `/mock-test/specific` takes precedence over `/mock-test/:testId`, so the catalogue's test `specific` opens a different page. A dynamic segment matches neither an empty id nor one containing `/`.
- Courses: the page renders no level buttons and only ever sets the level to `null` (src/components/pages/Courses.tsx:241, 400-403), so the level arm of the filter (line 234) is unreachable in the source. The model lets the level filter hold any level, and `Levels` is the list the page computes but never shows.
- `NotesLibrary` format selection: the selected format is a `FileFormat`. The source keeps it as a string that is only ever set from the list of formats.
- MockTestInterface.TestSession.constructor: requires at least one question. With none, the first render reads `.text` of the missing `questions[0]` (src/components/mock-tests/MockTestInterface.tsx:224, 287) and throws, so no effect and no scoring ever runs. That case is not modelled.
- MockTestInterface.TestSession.GoToQuestion: requires an index in range. The palette only offers such indices, and an index out of range would make the page read past the question list.
- MockTestInterface.FormatTime: takes a non-negative number of seconds. For a non-negative duration the countdown never goes below zero, because completion is triggered at zero. A negative duration shows its negative start value on the first render (src/components/mock-tests/MockTestInterface.tsx:94, 261), before the effect completes the test; `FormatTime(seconds: nat)` does not model that.
- CoursePage.CoursePlayer.VideoSelect: requires a valid playlist position, which is the only kind the playlist offers.

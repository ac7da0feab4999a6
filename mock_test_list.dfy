/**
 * The mock test catalogue: a text search over title, category and subjects,
 * narrowed by an optional category and an optional difficulty; the category
 * buttons; the difficulty colours; the featured tab; and the route a test is
 * started on.
 */
module MockTestList {
  import opened Common

  /** A catalogue entry (duration, counts, scores, tags and flags other than `featured` left out). */
  datatype MockTest = MockTest(
    id: string,
    title: string,
    category: string,
    difficulty: Difficulty,
    subjects: seq<string>,
    featured: bool)

  /** The three filter selections: the search box, a category button, a difficulty button. */
  datatype TestFilters = TestFilters(query: string, category: Option<string>, difficulty: Option<Difficulty>)

  // ---------------------------------------------------------------------------
  // Filtering
  // ---------------------------------------------------------------------------

  /** The search matches the title, the category or some subject, ignoring case. */
  predicate MatchesSearch(t: MockTest, query: string)
  {
    || MatchesQuery(t.title, query)
    || MatchesQuery(t.category, query)
    || exists s :: s in t.subjects && MatchesQuery(s, query)
  }

  /** The callback given to `mockTests.filter`. */
  predicate Keeps(f: TestFilters, t: MockTest)
  {
    && MatchesSearch(t, f.query)
    && (f.category.None? || t.category == f.category.value)
    && (f.difficulty.None? || t.difficulty == f.difficulty.value)
  }

  function KeepsFn(f: TestFilters): MockTest -> bool
  {
    t => Keeps(f, t)
  }

  /** The tests the grid shows: the catalogue entries the filters keep, in catalogue order. */
  function FilteredTests(tests: seq<MockTest>, f: TestFilters): (r: seq<MockTest>)
    ensures forall t :: t in r <==> t in tests && Keeps(f, t)
    ensures IsSubsequence(r, tests)
  {
    FilterIsSubsequence(tests, KeepsFn(f));
    Filter(tests, KeepsFn(f))
  }

  /**
   * The tests shown are the catalogue with some entries deleted and none
   * reordered, and a test is shown exactly when its title, category or one of
   * its subjects contains the query (ignoring case), the category button is
   * unset or names its category, and the difficulty button is unset or names
   * its difficulty.
   */
  lemma FilteredTestsSelect(tests: seq<MockTest>, f: TestFilters) returns (idx: seq<int>)
    ensures Embeds(idx, FilteredTests(tests, f), tests)
    ensures forall i :: 0 <= i < |tests| ==>
      (i in idx <==>
        && (|| MatchesQuery(tests[i].title, f.query)
            || MatchesQuery(tests[i].category, f.query)
            || exists s :: s in tests[i].subjects && MatchesQuery(s, f.query))
        && (f.category.None? || tests[i].category == f.category.value)
        && (f.difficulty.None? || tests[i].difficulty == f.difficulty.value))
  {
    idx := FilterSelects(tests, KeepsFn(f));
  }

  /** "Reset Filters": an empty search and no category or difficulty. */
  function ResetFilters(): (f: TestFilters)
    ensures f.query == [] && f.category.None? && f.difficulty.None?
  {
    TestFilters("", None, None)
  }

  /** After a reset every test is listed, in catalogue order. */
  lemma ResetShowsAll(tests: seq<MockTest>)
    ensures FilteredTests(tests, ResetFilters()) == tests
  {
    forall t | t in tests ensures KeepsFn(ResetFilters())(t) {
      MatchesEmptyQuery(t.title);
    }
    FilterKeepsAll(tests, KeepsFn(ResetFilters()));
  }

  /** The featured tab: the filtered tests that are featured. */
  function FeaturedTests(tests: seq<MockTest>, f: TestFilters): (r: seq<MockTest>)
    ensures forall t :: t in r <==> t in tests && Keeps(f, t) && t.featured
    ensures IsSubsequence(r, FilteredTests(tests, f))
  {
    FilterIsSubsequence(FilteredTests(tests, f), (t: MockTest) => t.featured);
    Filter(FilteredTests(tests, f), (t: MockTest) => t.featured)
  }

  /**
   * The subject chips of a card: the first three subjects (all of them when
   * there are fewer), and "+k more" exactly when there are more than three,
   * with k the number not shown.
   */
  function SubjectPreview(t: MockTest): (p: Preview<string>)
    ensures |t.subjects| <= 3 ==> p.shown == t.subjects && p.more.None?
    ensures |t.subjects| > 3 ==> p.shown == t.subjects[..3] && p.more == Some(|t.subjects| - 3)
  {
    Truncate(t.subjects, 3)
  }

  // ---------------------------------------------------------------------------
  // Category buttons
  // ---------------------------------------------------------------------------

  function CategoryOf(t: MockTest): string
  {
    t.category
  }

  /** The category buttons: each category of the catalogue once, in order of first appearance. */
  function Categories(tests: seq<MockTest>): (r: seq<string>)
    ensures NoDuplicates(r)
    ensures forall c :: c in r <==> exists t :: t in tests && t.category == c
  {
    DistinctValues(tests, CategoryOf)
  }

  /** The buttons come in the order in which their categories first appear in the catalogue. */
  lemma CategoriesInFirstOccurrenceOrder(tests: seq<MockTest>)
    ensures forall i, j :: 0 <= i < j < |Categories(tests)| ==>
      FirstIndex(Project(tests, CategoryOf), Categories(tests)[i]) <
      FirstIndex(Project(tests, CategoryOf), Categories(tests)[j])
  {
    DedupeFirstOccurrenceOrder(Project(tests, CategoryOf));
  }

  // ---------------------------------------------------------------------------
  // Difficulty colours
  // ---------------------------------------------------------------------------

  /** `getDifficultyColor`; its `default` arm cannot be reached with a typed difficulty. */
  function DifficultyColor(d: Difficulty): (c: string)
    ensures c != "text-primary"
  {
    match d
    case Easy => "text-green-500"
    case Medium => "text-yellow-500"
    case Hard => "text-red-500"
  }

  /**
   * `getDifficultyBadgeClass`, each class list written as its four classes
   * joined; its `default` arm (the empty class) cannot be reached either.
   */
  function DifficultyBadgeClass(d: Difficulty): (c: string)
    ensures c != ""
  {
    match d
    case Easy => "bg-green-100 " + "text-green-800 " + "dark:bg-green-900 " + "dark:text-green-100"
    case Medium => "bg-yellow-100 " + "text-yellow-800 " + "dark:bg-yellow-900 " + "dark:text-yellow-100"
    case Hard => "bg-red-100 " + "text-red-800 " + "dark:bg-red-900 " + "dark:text-red-100"
  }

  /** The badge class opens with `bg-` and the first letter of its colour name. */
  lemma BadgeInitial(d: Difficulty)
    ensures |DifficultyBadgeClass(d)| > 3
    ensures DifficultyBadgeClass(d)[3] == match d case Easy => 'g' case Medium => 'y' case Hard => 'r'
  {
  }

  /** Different difficulties never share a text colour or a badge class. */
  lemma DifficultyClassesDistinct(d: Difficulty, e: Difficulty)
    ensures DifficultyColor(d) == DifficultyColor(e) <==> d == e
    ensures DifficultyBadgeClass(d) == DifficultyBadgeClass(e) <==> d == e
  {
    BadgeInitial(d);
    BadgeInitial(e);
    if d != e {
      assert DifficultyColor(d)[5] != DifficultyColor(e)[5];
    }
  }

  // ---------------------------------------------------------------------------
  // Starting a test
  // ---------------------------------------------------------------------------

  const TestRoute: string := "/mock-test/"

  /**
   * `handleStartTest`: the path opened is the test route followed by the id,
   * unchanged.
   */
  function StartTestPath(testId: string): (path: string)
    ensures |path| == |TestRoute| + |testId|
    ensures path[..|TestRoute|] == TestRoute && path[|TestRoute|..] == testId
  {
    TestRoute + testId
  }

  /** Different tests are opened on different paths. */
  lemma StartTestPathInjective(a: string, b: string)
    ensures StartTestPath(a) == StartTestPath(b) <==> a == b
  {
    if StartTestPath(a) == StartTestPath(b) {
      assert a == StartTestPath(a)[|TestRoute|..];
    }
  }
}

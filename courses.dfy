/**
 * The course catalogue: an optional category and an optional level narrow
 * the list, buttons offer each category once, and each card previews the
 * first three features with a "+N more" line for the rest. The page computes
 * the distinct levels too but renders no level buttons, so the level filter
 * is only ever cleared; the model lets it hold any level.
 */
module Courses {
  import opened Common

  /** The `"Beginner" | "Intermediate" | "Advanced" | "All Levels"` union. */
  datatype Level = Beginner | Intermediate | Advanced | AllLevels

  /** A course card (texts, prices, counts and flags left out). */
  datatype Course = Course(id: string, title: string, category: string, level: Level, features: seq<string>)

  /** The two filter selections; every level name is non-empty, so a set level is always applied. */
  datatype CourseFilters = CourseFilters(category: Option<string>, level: Option<Level>)

  // ---------------------------------------------------------------------------
  // Filtering
  // ---------------------------------------------------------------------------

  /** A selected category is only applied when it is truthy: the empty name counts as none. */
  predicate CategoryApplies(selected: Option<string>)
  {
    selected.Some? && selected.value != ""
  }

  /** The callback given to `courses.filter`: each set filter that disagrees rejects the course. */
  predicate Keeps(f: CourseFilters, c: Course)
  {
    if CategoryApplies(f.category) && c.category != f.category.value then false
    else if f.level.Some? && c.level != f.level.value then false
    else true
  }

  function KeepsFn(f: CourseFilters): Course -> bool
  {
    c => Keeps(f, c)
  }

  /** The courses the grid shows: the catalogue entries the filters keep, in catalogue order. */
  function FilteredCourses(courses: seq<Course>, f: CourseFilters): (r: seq<Course>)
    ensures forall c :: c in r <==> c in courses && Keeps(f, c)
    ensures IsSubsequence(r, courses)
  {
    FilterIsSubsequence(courses, KeepsFn(f));
    Filter(courses, KeepsFn(f))
  }

  /**
   * The courses shown are the catalogue with some entries deleted and none
   * reordered, and a course is shown exactly when the category filter is
   * unset, empty or names its category, and the level filter is unset or
   * names its level.
   */
  lemma FilteredCoursesSelect(courses: seq<Course>, f: CourseFilters) returns (idx: seq<int>)
    ensures Embeds(idx, FilteredCourses(courses, f), courses)
    ensures forall i :: 0 <= i < |courses| ==>
      (i in idx <==>
        && (f.category.None? || f.category.value == "" || courses[i].category == f.category.value)
        && (f.level.None? || courses[i].level == f.level.value))
  {
    idx := FilterSelects(courses, KeepsFn(f));
  }

  /** "Reset Filters": both selections cleared. */
  function ResetFilters(): (f: CourseFilters)
    ensures f.category.None? && f.level.None?
  {
    CourseFilters(None, None)
  }

  /** With both selections cleared every course is listed, in catalogue order. */
  lemma ResetShowsAll(courses: seq<Course>)
    ensures FilteredCourses(courses, ResetFilters()) == courses
  {
    FilterKeepsAll(courses, KeepsFn(ResetFilters()));
  }

  // ---------------------------------------------------------------------------
  // Category buttons and the unused level list
  // ---------------------------------------------------------------------------

  function CategoryOf(c: Course): string
  {
    c.category
  }

  function LevelOf(c: Course): Level
  {
    c.level
  }

  /** The category buttons: each category of the catalogue once, in order of first appearance. */
  function Categories(courses: seq<Course>): (r: seq<string>)
    ensures NoDuplicates(r)
    ensures forall x :: x in r <==> exists c :: c in courses && c.category == x
  {
    DistinctValues(courses, CategoryOf)
  }

  /** Each level of the catalogue once, in order of first appearance; computed but never rendered. */
  function Levels(courses: seq<Course>): (r: seq<Level>)
    ensures NoDuplicates(r)
    ensures forall l :: l in r <==> exists c :: c in courses && c.level == l
  {
    DistinctValues(courses, LevelOf)
  }

  /**
   * The category buttons, and the level list, come in the order in which
   * their values first appear in the catalogue.
   */
  lemma ButtonsInFirstOccurrenceOrder(courses: seq<Course>)
    ensures forall i, j :: 0 <= i < j < |Categories(courses)| ==>
      FirstIndex(Project(courses, CategoryOf), Categories(courses)[i]) <
      FirstIndex(Project(courses, CategoryOf), Categories(courses)[j])
    ensures forall i, j :: 0 <= i < j < |Levels(courses)| ==>
      FirstIndex(Project(courses, LevelOf), Levels(courses)[i]) <
      FirstIndex(Project(courses, LevelOf), Levels(courses)[j])
  {
    DedupeFirstOccurrenceOrder(Project(courses, CategoryOf));
    DedupeFirstOccurrenceOrder(Project(courses, LevelOf));
  }

  // ---------------------------------------------------------------------------
  // Feature preview
  // ---------------------------------------------------------------------------

  /**
   * "What you'll learn": the first three features (all of them when there
   * are fewer), and "+k more" exactly when there are more than three, with k
   * the number not shown.
   */
  function FeaturePreview(c: Course): (p: Preview<string>)
    ensures |c.features| <= 3 ==> p.shown == c.features && p.more.None?
    ensures |c.features| > 3 ==> p.shown == c.features[..3] && p.more == Some(|c.features| - 3)
  {
    Truncate(c.features, 3)
  }
}

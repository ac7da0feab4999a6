/**
 * The study-notes library: a text search over title, description and
 * subcategory, narrowed by an optional category and an optional file format;
 * the category and format buttons; the featured section and the rest of the
 * "all" tab; the exam tabs; and the download action, which opens a note's
 * link or reports that there is none.
 */
module NotesLibrary {
  import opened Common

  datatype FileFormat = PDF | DOC | PPT

  /** A note (pages, counts, rating, date and size left out); an absent link is `None`. */
  datatype Note = Note(
    id: string,
    title: string,
    category: string,
    subcategory: string,
    description: string,
    format: FileFormat,
    featured: bool,
    driveLink: Option<string>)

  /** The three filter selections: the search box, a category button, a format button. */
  datatype NoteFilters = NoteFilters(query: string, category: Option<string>, format: Option<FileFormat>)

  // ---------------------------------------------------------------------------
  // Filtering
  // ---------------------------------------------------------------------------

  /** The callback given to `notes.filter`. */
  predicate Keeps(f: NoteFilters, n: Note)
  {
    && (|| MatchesQuery(n.title, f.query)
        || MatchesQuery(n.description, f.query)
        || MatchesQuery(n.subcategory, f.query))
    && (f.category.None? || n.category == f.category.value)
    && (f.format.None? || n.format == f.format.value)
  }

  function KeepsFn(f: NoteFilters): Note -> bool
  {
    n => Keeps(f, n)
  }

  /** The notes the page shows: the library entries the filters keep, in library order. */
  function FilteredNotes(notes: seq<Note>, f: NoteFilters): (r: seq<Note>)
    ensures forall n :: n in r <==> n in notes && Keeps(f, n)
    ensures IsSubsequence(r, notes)
  {
    FilterIsSubsequence(notes, KeepsFn(f));
    Filter(notes, KeepsFn(f))
  }

  /**
   * The notes shown are the library with some entries deleted and none
   * reordered, and a note is shown exactly when its title, description or
   * subcategory contains the query (ignoring case), the category button is
   * unset or names its category, and the format button is unset or names its
   * format.
   */
  lemma FilteredNotesSelect(notes: seq<Note>, f: NoteFilters) returns (idx: seq<int>)
    ensures Embeds(idx, FilteredNotes(notes, f), notes)
    ensures forall i :: 0 <= i < |notes| ==>
      (i in idx <==>
        && (|| MatchesQuery(notes[i].title, f.query)
            || MatchesQuery(notes[i].description, f.query)
            || MatchesQuery(notes[i].subcategory, f.query))
        && (f.category.None? || notes[i].category == f.category.value)
        && (f.format.None? || notes[i].format == f.format.value))
  {
    idx := FilterSelects(notes, KeepsFn(f));
  }

  /** "Reset Filters": an empty search and no category or format. */
  function ResetFilters(): (f: NoteFilters)
    ensures f.query == [] && f.category.None? && f.format.None?
  {
    NoteFilters("", None, None)
  }

  /** After a reset every note is listed, in library order. */
  lemma ResetShowsAll(notes: seq<Note>)
    ensures FilteredNotes(notes, ResetFilters()) == notes
  {
    forall n | n in notes ensures KeepsFn(ResetFilters())(n) {
      MatchesEmptyQuery(n.title);
    }
    FilterKeepsAll(notes, KeepsFn(ResetFilters()));
  }

  // ---------------------------------------------------------------------------
  // Featured section and the "all" tab
  // ---------------------------------------------------------------------------

  function IsFeatured(n: Note): bool
  {
    n.featured
  }

  function NotFeatured(n: Note): bool
  {
    !n.featured
  }

  /** The "Featured Notes" grid. */
  function FeaturedNotes(notes: seq<Note>, f: NoteFilters): (r: seq<Note>)
    ensures forall n :: n in r <==> n in notes && Keeps(f, n) && n.featured
    ensures IsSubsequence(r, FilteredNotes(notes, f))
  {
    FilterIsSubsequence(FilteredNotes(notes, f), IsFeatured);
    Filter(FilteredNotes(notes, f), IsFeatured)
  }

  /** The grid of the "all" tab, which leaves the featured notes to the section above. */
  function OtherNotes(notes: seq<Note>, f: NoteFilters): (r: seq<Note>)
    ensures forall n :: n in r <==> n in notes && Keeps(f, n) && !n.featured
    ensures IsSubsequence(r, FilteredNotes(notes, f))
  {
    FilterIsSubsequence(FilteredNotes(notes, f), NotFeatured);
    Filter(FilteredNotes(notes, f), NotFeatured)
  }

  /** The featured section is rendered only when some filtered note is featured. */
  predicate ShowsFeaturedSection(notes: seq<Note>, f: NoteFilters)
  {
    exists n :: n in FilteredNotes(notes, f) && n.featured
  }

  /**
   * The featured section and the "all" tab split the filtered notes between
   * them: every filtered note is in exactly one of the two, as many times as
   * it is filtered; the section is shown exactly when it has something in it.
   */
  lemma FeaturedSplit(notes: seq<Note>, f: NoteFilters)
    ensures |FeaturedNotes(notes, f)| + |OtherNotes(notes, f)| == |FilteredNotes(notes, f)|
    ensures multiset(FeaturedNotes(notes, f)) + multiset(OtherNotes(notes, f)) == multiset(FilteredNotes(notes, f))
    ensures forall n :: n in FeaturedNotes(notes, f) ==> n !in OtherNotes(notes, f)
    ensures ShowsFeaturedSection(notes, f) <==> FeaturedNotes(notes, f) != []
  {
    FilterSplits(FilteredNotes(notes, f), IsFeatured, NotFeatured);
    if ShowsFeaturedSection(notes, f) {
      var n :| n in FilteredNotes(notes, f) && n.featured;
      assert n in FeaturedNotes(notes, f);
    }
    if FeaturedNotes(notes, f) != [] {
      assert FeaturedNotes(notes, f)[0] in FeaturedNotes(notes, f);
    }
  }

  // ---------------------------------------------------------------------------
  // Exam tabs
  // ---------------------------------------------------------------------------

  /** The exam tabs; "banking" shows a notice instead of notes. */
  datatype ExamTab = UpscTab | SscTab | RailwayTab | BankingTab

  /** Which categories a tab lists. */
  predicate InTab(tab: ExamTab, category: string)
  {
    match tab
    case UpscTab => category == "UPSC"
    case SscTab => category in ["SSC CGL", "SSC CHSL", "SSC CPO"]
    case RailwayTab => category == "Railway"
    case BankingTab => false
  }

  /** The notes a tab lists: the filtered notes in its categories. */
  function TabNotes(notes: seq<Note>, f: NoteFilters, tab: ExamTab): (r: seq<Note>)
    ensures forall n :: n in r <==> n in notes && Keeps(f, n) && InTab(tab, n.category)
    ensures IsSubsequence(r, FilteredNotes(notes, f))
  {
    FilterIsSubsequence(FilteredNotes(notes, f), (n: Note) => InTab(tab, n.category));
    Filter(FilteredNotes(notes, f), (n: Note) => InTab(tab, n.category))
  }

  /** No note is listed by two different exam tabs, and the banking tab lists none. */
  lemma TabsDisjoint(notes: seq<Note>, f: NoteFilters, s: ExamTab, t: ExamTab)
    requires s != t
    ensures forall n :: n in TabNotes(notes, f, s) ==> n !in TabNotes(notes, f, t)
    ensures forall n :: n !in TabNotes(notes, f, BankingTab)
  {
  }

  // ---------------------------------------------------------------------------
  // Category and format buttons
  // ---------------------------------------------------------------------------

  function CategoryOf(n: Note): string
  {
    n.category
  }

  function FormatOf(n: Note): FileFormat
  {
    n.format
  }

  /** The category buttons: each category of the library once, in order of first appearance. */
  function Categories(notes: seq<Note>): (r: seq<string>)
    ensures NoDuplicates(r)
    ensures forall c :: c in r <==> exists n :: n in notes && n.category == c
  {
    DistinctValues(notes, CategoryOf)
  }

  /** The format buttons: each format of the library once, in order of first appearance. */
  function Formats(notes: seq<Note>): (r: seq<FileFormat>)
    ensures NoDuplicates(r)
    ensures forall x :: x in r <==> exists n :: n in notes && n.format == x
  {
    DistinctValues(notes, FormatOf)
  }

  // ---------------------------------------------------------------------------
  // Download
  // ---------------------------------------------------------------------------

  /** What the download button does: open the link in a new tab, or tell the user there is none. */
  datatype DownloadAction = OpenLink(url: string) | NotAvailable

  /** Position `i` holds the first note with the id. */
  predicate FirstWithId(notes: seq<Note>, noteId: string, i: int)
  {
    0 <= i < |notes| && notes[i].id == noteId && forall k :: 0 <= k < i ==> notes[k].id != noteId
  }

  /** The first note with the id, if any. */
  function FindNote(notes: seq<Note>, noteId: string): (r: Option<Note>)
    ensures r.None? <==> forall n :: n in notes ==> n.id != noteId
    ensures r.Some? ==> r.value in notes && r.value.id == noteId
    ensures forall i :: FirstWithId(notes, noteId, i) ==> r == Some(notes[i])
  {
    if notes == [] then None
    else if notes[0].id == noteId then Some(notes[0])
    else
      var r := FindNote(notes[1..], noteId);
      assert forall i :: FirstWithId(notes, noteId, i) ==> FirstWithId(notes[1..], noteId, i - 1);
      r
  }

  /** A link that is present and not empty (what `note?.driveLink` tests). */
  predicate HasLink(n: Note)
  {
    n.driveLink.Some? && n.driveLink.value != ""
  }

  /**
   * `handleDownload`: the first note with the id is opened at its link when it
   * has a non-empty one; with no such note, or no link, no link is available.
   */
  function HandleDownload(notes: seq<Note>, noteId: string): (a: DownloadAction)
    ensures (forall n :: n in notes ==> n.id != noteId) ==> a == NotAvailable
    ensures forall i :: FirstWithId(notes, noteId, i) ==>
      a == if HasLink(notes[i]) then OpenLink(notes[i].driveLink.value) else NotAvailable
    ensures a.OpenLink? ==> exists n :: n in notes && n.id == noteId && n.driveLink == Some(a.url) && a.url != ""
  {
    var note := FindNote(notes, noteId);
    if note.Some? && HasLink(note.value) then
      assert note.value in notes;
      OpenLink(note.value.driveLink.value)
    else NotAvailable
  }
}

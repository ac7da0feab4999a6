/**
 * The course page: a course looked up by id (with a placeholder course for
 * unknown ids), a playlist of modules each holding videos, a cursor
 * (module index, video index) moved by next/previous and by picking a video,
 * and the set of video ids marked complete.
 */
module CoursePage {
  import opened Common

  datatype Video = Video(id: string, isLocked: bool)
  datatype Module = Module(id: string, videos: seq<Video>)
  datatype CourseData = CourseData(id: string, title: string, category: string, modules: seq<Module>)

  // ---------------------------------------------------------------------------
  // The course table and the lookup
  // ---------------------------------------------------------------------------

  /** Unlocked videos with the given ids, in order. */
  function Unlocked(ids: seq<string>): (vs: seq<Video>)
    ensures |vs| == |ids| && forall i :: 0 <= i < |ids| ==> vs[i] == Video(ids[i], false)
  {
    seq(|ids|, i requires 0 <= i < |ids| => Video(ids[i], false))
  }

  /** `coursesData`: the detailed courses, by id (titles of modules and videos, links and texts left out). */
  function CoursesData(): map<string, CourseData>
  {
    map[
      "upsc-cse" := CourseData("upsc-cse", "UPSC Civil Services Complete Course", "UPSC", [
        Module("m1", Unlocked(["v1", "v2", "v3"])),
        Module("m2", Unlocked(["v4", "v5", "v6", "v7"])),
        Module("m3", Unlocked(["v8", "v9", "v10"])),
        Module("m4", Unlocked(["v11", "v12", "v13", "v14"]))]),
      "ssc-cgl" := CourseData("ssc-cgl", "SSC CGL Tier I & II Course", "SSC", [
        Module("m1", Unlocked(["v1", "v2", "v3"])),
        Module("m2", Unlocked(["v4", "v5"])),
        Module("m3", Unlocked(["v6", "v7"]))]),
      "bank-po" := CourseData("bank-po", "Bank PO & Clerk Complete Course", "Banking", [
        Module("m1", Unlocked(["v1", "v2"])),
        Module("m2", Unlocked(["v3", "v4"]))])
    ]
  }

  /** `getDefaultCourseData`: a placeholder course carrying the requested id. */
  function DefaultCourseData(courseId: string): (c: CourseData)
    ensures c.id == courseId
    ensures |c.modules| == 1 && |c.modules[0].videos| == 1 && !c.modules[0].videos[0].isLocked
  {
    CourseData(courseId, "Course Content Coming Soon", "General", [Module("m1", [Video("v1", false)])])
  }

  /** Every module has at least one video, and there is at least one module. */
  predicate WellFormed(c: CourseData)
  {
    |c.modules| > 0 && forall m :: 0 <= m < |c.modules| ==> |c.modules[m].videos| > 0
  }

  /**
   * The course shown for the route parameter: a non-empty id found in the
   * table gives that course; anything else the placeholder, carrying the id,
   * or "default" when the id is missing or empty.
   */
  function LookupCourse(courseId: Option<string>): (c: CourseData)
    ensures WellFormed(c)
    ensures c.id == if courseId.Some? && courseId.value != "" then courseId.value else "default"
  {
    TableShape();
    if courseId.Some? && courseId.value != "" && courseId.value in CoursesData() then CoursesData()[courseId.value]
    else DefaultCourseData(if courseId.Some? && courseId.value != "" then courseId.value else "default")
  }

  /**
   * Whatever the route says, the course has a well-formed playlist and
   * carries the requested id ("default" for a missing or empty one); an id
   * the table does not know gets the one-video placeholder.
   */
  lemma LookupCourseShape(courseId: Option<string>)
    ensures WellFormed(LookupCourse(courseId))
    ensures LookupCourse(courseId).id == if courseId.Some? && courseId.value != "" then courseId.value else "default"
    ensures !(courseId.Some? && courseId.value in CoursesData()) ==> LookupCourse(courseId) == DefaultCourseData(LookupCourse(courseId).id)
  {
  }

  /** Every course of the table is filed under its own id and has a well-formed playlist. */
  lemma TableShape()
    ensures forall k :: k in CoursesData() ==> CoursesData()[k].id == k && WellFormed(CoursesData()[k])
  {
    var table := CoursesData();
    forall k | k in table ensures table[k].id == k && WellFormed(table[k]) {
    }
  }

  // ---------------------------------------------------------------------------
  // The playlist
  // ---------------------------------------------------------------------------

  /** The number of videos over all modules: the length of the playlist read straight through. */
  function TotalVideos(mods: seq<Module>): (n: nat)
    ensures n == |AllVideos(mods)|
  {
    if mods == [] then 0 else TotalVideos(mods[..|mods| - 1]) + |mods[|mods| - 1].videos|
  }

  /** The playlist read straight through, module after module. */
  function AllVideos(mods: seq<Module>): seq<Video>
  {
    if mods == [] then [] else AllVideos(mods[..|mods| - 1]) + mods[|mods| - 1].videos
  }

  datatype Pos = Pos(moduleIndex: int, videoIndex: int)

  predicate ValidPos(mods: seq<Module>, p: Pos)
  {
    0 <= p.moduleIndex < |mods| && 0 <= p.videoIndex < |mods[p.moduleIndex].videos|
  }

  /** Where position `p` falls in the playlist read straight through. */
  function FlatIndex(mods: seq<Module>, p: Pos): int
    requires ValidPos(mods, p)
  {
    TotalVideos(mods[..p.moduleIndex]) + p.videoIndex
  }

  /** A position names the video at its flat index. */
  lemma {:induction false} FlatIndexNamesVideo(mods: seq<Module>, p: Pos)
    requires ValidPos(mods, p)
    ensures 0 <= FlatIndex(mods, p) < TotalVideos(mods) == |AllVideos(mods)|
    ensures AllVideos(mods)[FlatIndex(mods, p)] == mods[p.moduleIndex].videos[p.videoIndex]
  {
    var n := |mods|;
    if p.moduleIndex == n - 1 {
      assert mods[..n - 1] == mods[..p.moduleIndex];
    } else {
      assert mods[..n - 1][..p.moduleIndex] == mods[..p.moduleIndex];
      FlatIndexNamesVideo(mods[..n - 1], p);
    }
  }

  predicate IsFirst(p: Pos)
  {
    p.moduleIndex == 0 && p.videoIndex == 0
  }

  predicate IsLast(mods: seq<Module>, p: Pos)
    requires ValidPos(mods, p)
  {
    p.moduleIndex == |mods| - 1 && p.videoIndex == |mods[p.moduleIndex].videos| - 1
  }

  /** `handleNextVideo`: the next video of the module, else the first of the next module, else stay. */
  function NextPos(mods: seq<Module>, p: Pos): (q: Pos)
    requires ValidPos(mods, p)
    ensures (forall m :: 0 <= m < |mods| ==> |mods[m].videos| > 0) ==> ValidPos(mods, q)
    ensures q == p <==> IsLast(mods, p)
  {
    if p.videoIndex < |mods[p.moduleIndex].videos| - 1 then Pos(p.moduleIndex, p.videoIndex + 1)
    else if p.moduleIndex < |mods| - 1 then Pos(p.moduleIndex + 1, 0)
    else p
  }

  /** `handlePreviousVideo`: the previous video of the module, else the last of the previous module, else stay. */
  function PrevPos(mods: seq<Module>, p: Pos): (q: Pos)
    requires ValidPos(mods, p)
    ensures (forall m :: 0 <= m < |mods| ==> |mods[m].videos| > 0) ==> ValidPos(mods, q)
    ensures q == p <==> IsFirst(p)
  {
    if p.videoIndex > 0 then Pos(p.moduleIndex, p.videoIndex - 1)
    else if p.moduleIndex > 0 then Pos(p.moduleIndex - 1, |mods[p.moduleIndex - 1].videos| - 1)
    else p
  }

  /** Both moves keep the cursor on a video of a well-formed playlist. */
  lemma MovesStayValid(mods: seq<Module>, p: Pos)
    requires WellFormed(CourseData("", "", "", mods)) && ValidPos(mods, p)
    ensures ValidPos(mods, NextPos(mods, p)) && ValidPos(mods, PrevPos(mods, p))
  {
  }

  /** Next stays put exactly on the last video, previous exactly on the first. */
  lemma NoOpExactlyAtEnds(mods: seq<Module>, p: Pos)
    requires ValidPos(mods, p)
    ensures NextPos(mods, p) == p <==> IsLast(mods, p)
    ensures PrevPos(mods, p) == p <==> IsFirst(p)
  {
  }

  /**
   * Away from the ends, a move is exactly one step along the playlist read
   * straight through, so next and previous undo each other.
   */
  lemma {:induction false} MovesStepByOne(mods: seq<Module>, p: Pos)
    requires WellFormed(CourseData("", "", "", mods)) && ValidPos(mods, p)
    ensures !IsLast(mods, p) ==> FlatIndex(mods, NextPos(mods, p)) == FlatIndex(mods, p) + 1
    ensures !IsFirst(p) ==> FlatIndex(mods, PrevPos(mods, p)) == FlatIndex(mods, p) - 1
    ensures !IsLast(mods, p) ==> PrevPos(mods, NextPos(mods, p)) == p
    ensures !IsFirst(p) ==> NextPos(mods, PrevPos(mods, p)) == p
  {
    if !IsLast(mods, p) && p.videoIndex == |mods[p.moduleIndex].videos| - 1 {
      assert mods[..p.moduleIndex + 1][..p.moduleIndex] == mods[..p.moduleIndex];
    }
    if !IsFirst(p) && p.videoIndex == 0 {
      assert mods[..p.moduleIndex][..p.moduleIndex - 1] == mods[..p.moduleIndex - 1];
    }
  }

  /** The ids of all videos, in playlist order. */
  function VideoIds(mods: seq<Module>): (ids: set<string>)
  {
    set v | v in AllVideos(mods) :: v.id
  }

  lemma {:induction false} DistinctIdsBound(vs: seq<Video>)
    ensures |set v | v in vs :: v.id| <= |vs|
  {
    if vs != [] {
      var m := |vs| - 1;
      DistinctIdsBound(vs[..m]);
      assert (set v | v in vs :: v.id) == (set v | v in vs[..m] :: v.id) + {vs[m].id} by {
        assert vs == vs[..m] + [vs[m]];
      }
    }
  }

  /** There are never more distinct video ids than videos. */
  lemma VideoIdsBound(mods: seq<Module>)
    ensures |VideoIds(mods)| <= TotalVideos(mods)
  {
    DistinctIdsBound(AllVideos(mods));
  }

  // ---------------------------------------------------------------------------
  // The page state
  // ---------------------------------------------------------------------------

  class CoursePlayer {
    const course: CourseData
    var currentModuleIndex: int
    var currentVideoIndex: int
    var completedVideos: set<string>

    ghost predicate Valid()
      reads this
    {
      && WellFormed(course)
      && ValidPos(course.modules, Pos(currentModuleIndex, currentVideoIndex))
      && completedVideos <= VideoIds(course.modules)
    }

    function Cursor(): Pos
      reads this
    {
      Pos(currentModuleIndex, currentVideoIndex)
    }

    /** Opening the page: the looked-up course, its first video, nothing completed. */
    constructor (courseId: Option<string>)
      ensures Valid()
      ensures course == LookupCourse(courseId)
      ensures currentModuleIndex == 0 && currentVideoIndex == 0 && completedVideos == {}
    {
      LookupCourseShape(courseId);
      course := LookupCourse(courseId);
      currentModuleIndex := 0;
      currentVideoIndex := 0;
      completedVideos := {};
    }

    /** Picking a video from the playlist moves there unless it is locked. */
    method VideoSelect(moduleIndex: int, videoIndex: int)
      requires Valid() && ValidPos(course.modules, Pos(moduleIndex, videoIndex))
      modifies this
      ensures Valid()
      ensures Cursor() == if course.modules[moduleIndex].videos[videoIndex].isLocked
                          then old(Cursor()) else Pos(moduleIndex, videoIndex)
      ensures completedVideos == old(completedVideos)
    {
      var video := course.modules[moduleIndex].videos[videoIndex];
      if !video.isLocked {
        currentModuleIndex := moduleIndex;
        currentVideoIndex := videoIndex;
      }
    }

    /** Adds the current video's id to the completed set; repeating it changes nothing. */
    method MarkComplete()
      requires Valid()
      modifies this
      ensures Valid()
      ensures completedVideos == old(completedVideos) + {course.modules[currentModuleIndex].videos[currentVideoIndex].id}
      ensures Cursor() == old(Cursor())
    {
      var video := course.modules[currentModuleIndex].videos[currentVideoIndex];
      FlatIndexNamesVideo(course.modules, Cursor());
      assert video in AllVideos(course.modules);
      completedVideos := completedVideos + {video.id};
    }

    method NextVideo()
      requires Valid()
      modifies this
      ensures Valid()
      ensures Cursor() == NextPos(course.modules, old(Cursor()))
      ensures completedVideos == old(completedVideos)
    {
      if currentVideoIndex < |course.modules[currentModuleIndex].videos| - 1 {
        currentVideoIndex := currentVideoIndex + 1;
      } else if currentModuleIndex < |course.modules| - 1 {
        currentModuleIndex := currentModuleIndex + 1;
        currentVideoIndex := 0;
      }
    }

    method PreviousVideo()
      requires Valid()
      modifies this
      ensures Valid()
      ensures Cursor() == PrevPos(course.modules, old(Cursor()))
      ensures completedVideos == old(completedVideos)
    {
      if currentVideoIndex > 0 {
        currentVideoIndex := currentVideoIndex - 1;
      } else if currentModuleIndex > 0 {
        currentModuleIndex := currentModuleIndex - 1;
        currentVideoIndex := |course.modules[currentModuleIndex].videos| - 1;
      }
    }

    /** `isFirstVideo` disables "Previous" exactly where it would not move. */
    function IsFirstVideo(): (b: bool)
      reads this
      requires Valid()
      ensures b <==> PrevPos(course.modules, Cursor()) == Cursor()
    {
      NoOpExactlyAtEnds(course.modules, Cursor());
      currentModuleIndex == 0 && currentVideoIndex == 0
    }

    /** `isLastVideo` disables "Next" exactly where it would not move. */
    function IsLastVideo(): (b: bool)
      reads this
      requires Valid()
      ensures b <==> NextPos(course.modules, Cursor()) == Cursor()
    {
      NoOpExactlyAtEnds(course.modules, Cursor());
      currentModuleIndex == |course.modules| - 1
        && currentVideoIndex == |course.modules[currentModuleIndex].videos| - 1
    }

    /** The share of videos completed, as a percentage: 100 only when every distinct id is done. */
    function ProgressPercentage(): (p: real)
      reads this
      requires Valid()
      ensures 0.0 <= p <= 100.0
      ensures p == 100.0 ==> completedVideos == VideoIds(course.modules)
    {
      VideoIdsBound(course.modules);
      FlatIndexNamesVideo(course.modules, Cursor());
      SubsetSize(completedVideos, VideoIds(course.modules));
      var done, total := |completedVideos|, TotalVideos(course.modules);
      PercentBounds(done, total);
      Percent(done, total)
    }
  }

  /** A subset is no larger than its superset, and equal to it when as large. */
  lemma {:induction false} SubsetSize<T>(a: set<T>, b: set<T>)
    requires a <= b
    ensures |a| <= |b|
    ensures |a| == |b| ==> a == b
    decreases |b|
  {
    if b != {} {
      var x :| x in b;
      if x in a {
        SubsetSize(a - {x}, b - {x});
        assert a == (a - {x}) + {x} && b == (b - {x}) + {x};
      } else {
        SubsetSize(a, b - {x});
      }
    }
  }
}

/**
 * `dashboard_parser.py`: the list of courses on the Moodle dashboard. The
 * parsed page is abstracted to what the selectors find: the course-list
 * container under each of the two selectors, the boxes under each of the two
 * box selectors, and in each box the two candidate links.
 */
module DashboardParser {
  import opened Wrappers
  import opened Text

  /** An `<a>` element: its text (`get_text(strip=True)`) and its `href` attribute, when it has one. */
  datatype Link = Link(text: string, href: Option<string>)

  /** An `h3` or `h4` with class `coursename`, and the `a.aalink` inside it when there is one. */
  datatype Heading = Heading(aalink: Option<Link>)

  /**
   * One course box: its `h3`/`h4.coursename`, its `a.coursename`, and
   * whether processing it raises (the per-box `except` then skips it).
   */
  datatype Box = Box(heading: Option<Heading>, courseLink: Option<Link>, faulty: bool)

  /** A course-list container: its `div.coursebox` boxes and its `course-list-item` boxes. */
  datatype CourseList = CourseList(courseboxes: seq<Box>, listItems: seq<Box>)

  /**
   * The dashboard: the first `div.courses` / `div.frontpage-course-list-enrolled`
   * and the first `div[role=list][data-region=course-list]`, when present.
   */
  datatype Dashboard = Dashboard(enrolled: Option<CourseList>, regionList: Option<CourseList>)

  datatype Course = Course(name: string, url: string)

  // ---------------------------------------------------------------------
  // The year/semester suffix `\s*-\s*\d{4}\.?\d?\s*$`
  // ---------------------------------------------------------------------

  /**
   * From `j` to the end, `s` is four digits, an optional ".", an optional
   * digit and any whitespace. Each optional part is taken exactly when the
   * next character fits it, since nothing after it could match that character.
   */
  predicate YearTailAt(s: string, j: nat) {
    j + 4 <= |s| && IsDigit(s[j]) && IsDigit(s[j + 1]) && IsDigit(s[j + 2]) && IsDigit(s[j + 3])
    && var p := if j + 4 < |s| && s[j + 4] == '.' then j + 5 else j + 4;
       var q := if p < |s| && IsDigit(s[p]) then p + 1 else p;
       forall k :: q <= k < |s| ==> IsSpace(s[k])
  }

  /** A whole text that is a year tail, such as "2024.1". */
  predicate YearTail(t: string) { YearTailAt(t, 0) }

  /** The suffix pattern matches from `i` to the end: whitespace, "-", whitespace, then a year tail. */
  predicate SuffixAt(s: string, i: nat)
    requires i <= |s|
  {
    var d := SpaceRunEnd(s, i);
    d < |s| && s[d] == '-' && YearTailAt(s, SpaceRunEnd(s, d + 1))
  }

  /** The first position from `i` up to `hi` where `hit` holds. */
  function FirstHit(hit: nat -> bool, i: nat, hi: nat): (r: Option<nat>)
    ensures r.Some? ==> i <= r.value <= hi && hit(r.value)
    decreases hi + 1 - i
  {
    if i > hi then None
    else if hit(i) then Some(i)
    else FirstHit(hit, i + 1, hi)
  }

  /** `FirstHit` is the leftmost position where `hit` holds, and None means there is none. */
  lemma {:induction false} FirstHitIsLeftmost(hit: nat -> bool, i: nat, hi: nat)
    ensures FirstHit(hit, i, hi).Some? ==> forall k :: i <= k < FirstHit(hit, i, hi).value ==> !hit(k)
    ensures FirstHit(hit, i, hi).None? ==> forall k :: i <= k <= hi ==> !hit(k)
    decreases hi + 1 - i
  {
    if i <= hi && !hit(i) {
      FirstHitIsLeftmost(hit, i + 1, hi);
    }
  }

  /** The search from `i` stops at `n` when `hit` holds there and nowhere between. */
  lemma {:induction false} FirstHitAt(hit: nat -> bool, i: nat, hi: nat, n: nat)
    requires i <= n <= hi && hit(n)
    requires forall k :: i <= k < n ==> !hit(k)
    ensures FirstHit(hit, i, hi) == Some(n)
    decreases n - i
  {
    if i < n {
      FirstHitAt(hit, i + 1, hi, n);
    }
  }

  /** The positions of `s` where the suffix pattern matches. */
  function Hits(s: string): nat -> bool {
    (k: nat) => k <= |s| && SuffixAt(s, k)
  }

  /** Where `re.sub` finds the suffix: the leftmost position from `i` on where it matches. */
  function SuffixStart(s: string, i: nat): (r: Option<nat>)
    requires i <= |s|
    ensures r.Some? ==> i <= r.value <= |s| && SuffixAt(s, r.value)
    decreases |s| - i
  {
    if SuffixAt(s, i) then Some(i)
    else if i == |s| then None
    else SuffixStart(s, i + 1)
  }

  /** The suffix search is the generic search over the matching positions. */
  lemma {:induction false} SuffixStartIsFirstHit(s: string, i: nat)
    requires i <= |s|
    ensures SuffixStart(s, i) == FirstHit(Hits(s), i, |s|)
    decreases |s| - i
  {
    assert Hits(s)(i) == SuffixAt(s, i);
    if !SuffixAt(s, i) && i < |s| {
      SuffixStartIsFirstHit(s, i + 1);
    }
  }

  /** `SuffixStart` is the leftmost match, and None means there is none. */
  lemma SuffixStartIsLeftmost(s: string, i: nat)
    requires i <= |s|
    ensures SuffixStart(s, i).Some? ==> forall k :: i <= k < SuffixStart(s, i).value ==> !SuffixAt(s, k)
    ensures SuffixStart(s, i).None? ==> forall k :: i <= k <= |s| ==> !SuffixAt(s, k)
  {
    SuffixStartIsFirstHit(s, i);
    FirstHitIsLeftmost(Hits(s), i, |s|);
    assert forall k: nat :: k <= |s| ==> (Hits(s)(k) <==> SuffixAt(s, k));
  }

  /**
   * The course name: the suffix removed where it is found (it always runs
   * to the end of the text, so there is at most one), then stripped.
   */
  function CleanName(text: string): string {
    match SuffixStart(text, 0)
    case None => Strip(text)
    case Some(i) => Strip(text[..i])
  }

  /** A year tail holds no "-". */
  lemma YearTailHasNoDash(s: string, j: nat)
    ensures YearTailAt(s, j) ==> forall k :: j <= k < |s| ==> s[k] != '-'
  {
  }

  /** A year tail after any prefix is still a year tail, at the prefix's length. */
  lemma YearTailShift(pre: string, t: string)
    requires YearTail(t)
    ensures YearTailAt(pre + t, |pre|)
  {
    var s, j := pre + t, |pre|;
    assert forall k :: 0 <= k < |t| ==> s[j + k] == t[k];
    var p := if 4 < |t| && t[4] == '.' then 5 else 4;
    var q := if p < |t| && IsDigit(t[p]) then p + 1 else p;
    forall k | j + q <= k < |s| ensures IsSpace(s[k]) {
      assert s[k] == t[k - j];
    }
  }

  /** A name without a "-" has no suffix: it is only stripped. */
  lemma NoDashKeepsName(text: string)
    requires forall k :: 0 <= k < |text| ==> text[k] != '-'
    ensures CleanName(text) == Strip(text)
  {
  }

  /** The search from `i` finds `n` when the suffix matches there and nowhere between. */
  lemma SuffixStartFinds(s: string, i: nat, n: nat)
    requires i <= n <= |s| && SuffixAt(s, n)
    requires forall k :: i <= k < n ==> !SuffixAt(s, k)
    ensures SuffixStart(s, i) == Some(n)
  {
    assert forall k: nat :: k <= |s| ==> (Hits(s)(k) <==> SuffixAt(s, k));
    FirstHitAt(Hits(s), i, |s|, n);
    SuffixStartIsFirstHit(s, i);
  }

  /** Before a non-space that precedes a later "-", no suffix can start. */
  lemma NoSuffixBefore(s: string, n: nat, i: nat)
    requires i < n && n + 1 < |s| && s[n + 1] == '-' && !IsSpace(s[n - 1])
    ensures !SuffixAt(s, i)
  {
    var d := SpaceRunEnd(s, i);
    assert d < n;
    if s[d] == '-' {
      var f := SpaceRunEnd(s, d + 1);
      assert f <= n + 1;
      YearTailHasNoDash(s, f);
    }
  }

  /** The suffix matches at `n` when " - " and a year tail follow it. */
  lemma SuffixAtYear(s: string, n: nat)
    requires n + 3 <= |s| && s[n] == ' ' && s[n + 1] == '-' && s[n + 2] == ' '
    requires YearTailAt(s, n + 3)
    ensures SuffixAt(s, n)
  {
    SpaceRunEndAt(s, n, n + 1);
    SpaceRunEndAt(s, n + 2, n + 3);
  }

  /**
   * A text that ends in " - " and a year tail, after a non-space, loses
   * exactly that suffix, wherever else it has dashes.
   */
  lemma YearSuffixAt(s: string, n: nat)
    requires n + 3 <= |s| && s[n] == ' ' && s[n + 1] == '-' && s[n + 2] == ' '
    requires YearTailAt(s, n + 3)
    requires n == 0 || !IsSpace(s[n - 1])
    ensures CleanName(s) == Strip(s[..n])
  {
    SuffixAtYear(s, n);
    forall i | 0 <= i < n ensures !SuffixAt(s, i) {
      NoSuffixBefore(s, n, i);
    }
    SuffixStartFinds(s, 0, n);
  }

  /** "<base> - <year>" loses exactly the year suffix. */
  lemma YearSuffixRemoved(base: string, year: string)
    requires YearTail(year)
    requires base == [] || !IsSpace(base[|base| - 1])
    ensures CleanName(base + " - " + year) == Strip(base)
  {
    var pre := base + " - ";
    var s := pre + year;
    var n := |base|;
    YearTailShift(pre, year);
    assert s[n] == ' ' && s[n + 1] == '-' && s[n + 2] == ' ';
    assert n > 0 ==> s[n - 1] == base[n - 1];
    YearSuffixAt(s, n);
    assert s[..n] == base;
  }

  /** The suffix is removed once: a second year suffix before it stays. */
  lemma SuffixRemovedOnce()
    ensures CleanName("Algebra - 2023 - 2024.1") == "Algebra - 2023"
  {
    assert YearTail("2024.1");
    assert "Algebra - 2023" + " - " + "2024.1" == "Algebra - 2023 - 2024.1";
    YearSuffixRemoved("Algebra - 2023", "2024.1");
    assert TrimStart("Algebra - 2023") == "Algebra - 2023";
    assert TrimEnd("Algebra - 2023") == "Algebra - 2023";
  }

  // ---------------------------------------------------------------------
  // One box
  // ---------------------------------------------------------------------

  /** The link: the `a.aalink` of the heading when both exist, otherwise the box's `a.coursename`. */
  function LinkOf(b: Box): Option<Link> {
    var fromHeading := if b.heading.Some? then b.heading.value.aalink else None;
    if fromHeading.Some? then fromHeading else b.courseLink
  }

  /** The course a box yields: only a link with an `href` gives one, and only when processing does not raise. */
  function BoxCourse(b: Box): (r: Option<Course>)
    ensures r.Some? <==> !b.faulty && LinkOf(b).Some? && LinkOf(b).value.href.Some?
    ensures r.Some? ==> r.value == Course(CleanName(LinkOf(b).value.text), LinkOf(b).value.href.value)
  {
    if b.faulty then None
    else match LinkOf(b)
      case Some(Link(text, Some(href))) => Some(Course(CleanName(text), href))
      case _ => None
  }

  /** The heading's link wins; the direct link is used only when the heading or its `a.aalink` is missing. */
  lemma LinkChoice(b: Box)
    ensures b.heading.Some? && b.heading.value.aalink.Some? ==> LinkOf(b) == b.heading.value.aalink
    ensures b.heading.None? || b.heading.value.aalink.None? ==> LinkOf(b) == b.courseLink
  {
  }

  // ---------------------------------------------------------------------
  // All boxes
  // ---------------------------------------------------------------------

  /** The courses of the boxes, in box order. */
  function Courses(boxes: seq<Box>): (r: seq<Course>)
    ensures |r| <= |boxes|
  {
    if boxes == [] then []
    else
      var last := BoxCourse(boxes[|boxes| - 1]);
      Courses(boxes[..|boxes| - 1]) + (if last.Some? then [last.value] else [])
  }

  /** The courses of two runs of boxes are the courses of each, one after the other. */
  lemma {:induction false} CoursesConcat(a: seq<Box>, b: seq<Box>)
    ensures Courses(a + b) == Courses(a) + Courses(b)
    decreases |b|
  {
    if b != [] {
      var init := b[..|b| - 1];
      CoursesConcat(a, init);
      assert (a + b)[..|a + b| - 1] == a + init;
      assert (a + b)[|a + b| - 1] == b[|b| - 1];
    } else {
      assert a + b == a;
    }
  }

  /** A box whose processing raises is skipped, and only that box. */
  lemma FaultyBoxSkipped(a: seq<Box>, box: Box, b: seq<Box>)
    requires box.faulty
    ensures Courses(a + [box] + b) == Courses(a) + Courses(b)
  {
    assert Courses([box]) == [] by {
      assert [box][..0] == [];
    }
    CoursesConcat(a, [box]);
    CoursesConcat(a + [box], b);
  }

  /** The values of the options that are present, in order. */
  function Present<T>(xs: seq<Option<T>>): (r: seq<T>)
    ensures |r| <= |xs|
  {
    if xs == [] then []
    else Present(xs[..|xs| - 1]) + (if xs[|xs| - 1].Some? then [xs[|xs| - 1].value] else [])
  }

  /** The positions that hold a value, in order. */
  function Positions<T>(xs: seq<Option<T>>): (r: seq<nat>)
    ensures |r| == |Present(xs)|
  {
    if xs == [] then []
    else Positions(xs[..|xs| - 1]) + (if xs[|xs| - 1].Some? then [|xs| - 1] else [])
  }

  /** The `j`-th present value sits at the `j`-th position. */
  lemma {:induction false} PositionsHoldPresent<T>(xs: seq<Option<T>>)
    ensures forall j :: 0 <= j < |Positions(xs)| ==>
      Positions(xs)[j] < |xs| && xs[Positions(xs)[j]] == Some(Present(xs)[j])
    decreases |xs|
  {
    if xs != [] {
      var n := |xs| - 1;
      var init := xs[..n];
      PositionsHoldPresent(init);
      var ps, before, pos, prev := Present(xs), Present(init), Positions(xs), Positions(init);
      forall j | 0 <= j < |pos| ensures pos[j] < |xs| && xs[pos[j]] == Some(ps[j]) {
        if j < |prev| {
          assert pos[j] == prev[j] && ps[j] == before[j];
          assert xs[prev[j]] == init[prev[j]];
        } else {
          assert pos[j] == n && ps[j] == xs[n].value;
        }
      }
    }
  }

  /** The positions increase strictly. */
  lemma {:induction false} PositionsIncreasing<T>(xs: seq<Option<T>>)
    ensures forall j :: 0 <= j < |Positions(xs)| ==> Positions(xs)[j] < |xs|
    ensures forall j, l :: 0 <= j < l < |Positions(xs)| ==> Positions(xs)[j] < Positions(xs)[l]
    decreases |xs|
  {
    if xs != [] {
      var n := |xs| - 1;
      PositionsIncreasing(xs[..n]);
      var pos, prev := Positions(xs), Positions(xs[..n]);
      assert forall j :: 0 <= j < |prev| ==> pos[j] == prev[j];
    }
  }

  /** Every position that holds a value is among the positions. */
  lemma {:induction false} PositionsCover<T>(xs: seq<Option<T>>)
    ensures forall k :: 0 <= k < |xs| && xs[k].Some? ==> k in Positions(xs)
    decreases |xs|
  {
    if xs != [] {
      var n := |xs| - 1;
      var init := xs[..n];
      PositionsCover(init);
      forall k | 0 <= k < |xs| && xs[k].Some? ensures k in Positions(xs) {
        if k < n {
          assert init[k] == xs[k];
          assert k in Positions(init);
        }
      }
    }
  }

  /** What each box yields, box by box. */
  function BoxCourses(boxes: seq<Box>): (r: seq<Option<Course>>)
    ensures |r| == |boxes| && forall k :: 0 <= k < |boxes| ==> r[k] == BoxCourse(boxes[k])
  {
    seq(|boxes|, k requires 0 <= k < |boxes| => BoxCourse(boxes[k]))
  }

  lemma {:induction false} CoursesArePresent(boxes: seq<Box>)
    ensures Courses(boxes) == Present(BoxCourses(boxes))
    decreases |boxes|
  {
    if boxes != [] {
      var n := |boxes| - 1;
      CoursesArePresent(boxes[..n]);
      assert BoxCourses(boxes)[..n] == BoxCourses(boxes[..n]);
    }
  }

  /**
   * The courses are exactly the boxes that yield one, in box order: a
   * strictly increasing choice of boxes that skips none that yields a course.
   */
  lemma CoursesFromBoxes(boxes: seq<Box>) returns (idx: seq<nat>)
    ensures |idx| == |Courses(boxes)|
    ensures forall j :: 0 <= j < |idx| ==> idx[j] < |boxes| && BoxCourse(boxes[idx[j]]) == Some(Courses(boxes)[j])
    ensures forall j, l :: 0 <= j < l < |idx| ==> idx[j] < idx[l]
    ensures forall k :: 0 <= k < |boxes| && BoxCourse(boxes[k]).Some? ==> k in idx
  {
    CoursesArePresent(boxes);
    idx := Positions(BoxCourses(boxes));
    PositionsHoldPresent(BoxCourses(boxes));
    PositionsIncreasing(BoxCourses(boxes));
    PositionsCover(BoxCourses(boxes));
  }

  // ---------------------------------------------------------------------
  // The page
  // ---------------------------------------------------------------------

  /** The container: the enrolled-courses one, else the course-list region. */
  function ContainerOf(page: Dashboard): Option<CourseList> {
    if page.enrolled.Some? then page.enrolled else page.regionList
  }

  /** The boxes: the `coursebox` ones, else the `course-list-item` ones. */
  function BoxesOf(list: CourseList): seq<Box> {
    if list.courseboxes != [] then list.courseboxes else list.listItems
  }

  /**
   * What `extract_courses` returns: nothing when the page cannot be read or
   * no container or no box is found, otherwise the courses of the boxes.
   */
  function DashboardCourses(source: Option<Dashboard>): (r: seq<Course>)
    ensures source.None? ==> r == []
    ensures source.Some? && source.value.enrolled.None? && source.value.regionList.None? ==> r == []
    ensures source.Some? && ContainerOf(source.value).Some? ==>
      |r| <= |BoxesOf(ContainerOf(source.value).value)|
  {
    if source.None? then []
    else match ContainerOf(source.value)
      case None => []
      case Some(list) => Courses(BoxesOf(list))
  }

  /** A container without boxes under either selector gives no course. */
  lemma NoBoxesNoCourses(source: Dashboard)
    requires ContainerOf(source).Some?
    requires ContainerOf(source).value.courseboxes == [] && ContainerOf(source).value.listItems == []
    ensures DashboardCourses(Some(source)) == []
  {
  }

  /** `extract_courses`: walks the chosen boxes and appends the course of each box that yields one. */
  method ExtractCourses(source: Option<Dashboard>) returns (courses: seq<Course>)
    ensures courses == DashboardCourses(source)
  {
    courses := [];
    if source.None? {
      return;
    }
    var list := source.value.enrolled;
    if list.None? {
      list := source.value.regionList;
      if list.None? {
        return;
      }
    }
    var boxes := list.value.courseboxes;
    if boxes == [] {
      boxes := list.value.listItems;
      if boxes == [] {
        return;
      }
    }
    for i := 0 to |boxes|
      invariant courses == Courses(boxes[..i])
    {
      var box := boxes[i];
      assert boxes[..i + 1][..i] == boxes[..i];
      if !box.faulty {
        var link := if box.heading.Some? then box.heading.value.aalink else None;
        if link.None? {
          link := box.courseLink;
        }
        if link.Some? && link.value.href.Some? {
          courses := courses + [Course(CleanName(link.value.text), link.value.href.value)];
        }
      }
    }
    assert boxes[..|boxes|] == boxes;
  }
}

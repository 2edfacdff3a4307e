/**
 * The interactive course menu of `main.py`: the user types course numbers
 * (`"3, 1, 3"`), `all` or `q`, and confirms with `s`. Each call of `input()`
 * reads the next element of `lines`; running out of lines is Python's
 * `EOFError`, which the menu's broad exception handler turns into an empty
 * selection. Also the dashboard address the main routine tries after login.
 */
module CourseSelection {
  import opened Wrappers
  import opened Text
  import Config

  datatype Course = Course(name: string, url: string)

  /** What the menu returned and how many input lines it read. */
  datatype Session = Session(selected: seq<Course>, consumed: nat)

  predicate StrictlyIncreasing(s: seq<nat>) {
    forall i, j :: 0 <= i < j < |s| ==> s[i] < s[j]
  }

  /** An input line as the menu compares it: `line.strip().lower()`. */
  function Normalize(line: string): string {
    Lower(Strip(line))
  }

  /** One comma-separated token, already stripped: its 0-based course index, or None when it rejects the entry. */
  function TokenIndex(token: string, courseCount: nat): (r: Option<nat>)
    ensures r.Some? ==> r.value < courseCount
  {
    if IsDigits(token) && 1 <= DigitsValue(token) <= courseCount then Some(DigitsValue(token) - 1) else None
  }

  /** The indices of every token, in input order, or None as soon as one token is rejected. */
  function ParseIndices(parts: seq<string>, courseCount: nat): (r: Option<seq<nat>>)
    ensures r.Some? ==> |r.value| == |parts| && forall x :: x in r.value ==> x < courseCount
    decreases |parts|
  {
    if parts == [] then Some([])
    else match TokenIndex(Strip(parts[0]), courseCount)
      case None => None
      case Some(i) =>
        match ParseIndices(parts[1..], courseCount)
        case None => None
        case Some(rest) => Some([i] + rest)
  }

  /** An entry is accepted exactly when every stripped token is accepted, and then the indices are the tokens' own, in order. */
  lemma {:induction false} ParseIndicesMeaning(parts: seq<string>, courseCount: nat)
    ensures ParseIndices(parts, courseCount).Some? <==>
      forall k :: 0 <= k < |parts| ==> TokenIndex(Strip(parts[k]), courseCount).Some?
    ensures ParseIndices(parts, courseCount).Some? ==>
      forall k :: 0 <= k < |parts| ==> TokenIndex(Strip(parts[k]), courseCount) == Some(ParseIndices(parts, courseCount).value[k])
    decreases |parts|
  {
    if parts != [] {
      var tail := parts[1..];
      ParseIndicesMeaning(tail, courseCount);
      assert forall k :: 1 <= k < |parts| ==> parts[k] == tail[k - 1];
      var r := ParseIndices(parts, courseCount);
      if r.Some? {
        var xs := r.value;
        assert xs[1..] == ParseIndices(tail, courseCount).value;
      } else if TokenIndex(Strip(parts[0]), courseCount).Some? {
        var k :| 0 <= k < |tail| && TokenIndex(Strip(tail[k]), courseCount).None?;
        assert parts[k + 1] == tail[k];
      }
    }
  }

  /** A token naming course 0 or a course past the end rejects the entry; leading zeros are read as `int()` reads them. */
  lemma TokenExamples()
    ensures TokenIndex("0", 3) == None
    ensures TokenIndex("4", 3) == None
    ensures TokenIndex("03", 3) == Some(2)
    ensures TokenIndex("", 3) == None
  {
    assert DigitsValue("0") == 0;
    assert DigitsValue("4") == 4;
    assert "03"[..1] == "0";
    assert DigitsValue("03") == 3;
  }

  /** An empty token, as between the commas of `"1,,2"`, rejects the whole entry. */
  lemma DoubleCommaRejected(a: string, b: string, courseCount: nat)
    ensures ParseIndices(Split(a + ",," + b, ','), courseCount) == None
  {
    SplitDoubleSeparator(a, b, ',');
    var parts := Split(a + ",," + b, ',');
    var k :| 0 <= k < |parts[1..]| && parts[1..][k] == [];
    assert Strip(parts[k + 1]) == [];
    RejectedToken(parts, courseCount, k + 1);
  }

  /** A trailing comma leaves an empty last token, which rejects the whole entry. */
  lemma TrailingCommaRejected(a: string, courseCount: nat)
    ensures ParseIndices(Split(a + ",", ','), courseCount) == None
  {
    SplitTrailingSeparator(a, ',');
    var parts := Split(a + ",", ',');
    assert Strip(parts[|parts| - 1]) == [];
    RejectedToken(parts, courseCount, |parts| - 1);
  }

  /** The `for part in parts` loop: every token checked in order, the first bad one raising `ValueError`. */
  method CollectIndices(choice: string, courseCount: nat) returns (indices: Option<seq<nat>>)
    ensures indices == ParseIndices(Split(choice, ','), courseCount)
  {
    var parts := Split(choice, ',');
    var selected: seq<nat> := [];
    var k := 0;
    while k < |parts|
      invariant 0 <= k <= |parts| && |selected| == k
      invariant forall j :: 0 <= j < k ==> TokenIndex(Strip(parts[j]), courseCount) == Some(selected[j])
    {
      var numStr := Strip(parts[k]);
      if IsDigits(numStr) {
        var index := DigitsValue(numStr) - 1;
        if 0 <= index < courseCount {
          selected := selected + [index];
        } else {
          RejectedToken(parts, courseCount, k);
          return None;
        }
      } else {
        RejectedToken(parts, courseCount, k);
        return None;
      }
      k := k + 1;
    }
    AcceptedTokens(parts, courseCount, selected);
    indices := Some(selected);
  }

  lemma RejectedToken(parts: seq<string>, courseCount: nat, k: nat)
    requires k < |parts| && TokenIndex(Strip(parts[k]), courseCount).None?
    ensures ParseIndices(parts, courseCount) == None
  {
    ParseIndicesMeaning(parts, courseCount);
  }

  lemma AcceptedTokens(parts: seq<string>, courseCount: nat, xs: seq<nat>)
    requires |xs| == |parts|
    requires forall j :: 0 <= j < |parts| ==> TokenIndex(Strip(parts[j]), courseCount) == Some(xs[j])
    ensures ParseIndices(parts, courseCount) == Some(xs)
  {
    ParseIndicesMeaning(parts, courseCount);
    assert ParseIndices(parts, courseCount).value == xs;
  }

  /** Adds `x` to a strictly increasing list unless it is already there. */
  function Insert(x: nat, s: seq<nat>): (r: seq<nat>)
    requires StrictlyIncreasing(s)
    ensures StrictlyIncreasing(r)
    ensures forall y :: y in r <==> y == x || y in s
    decreases |s|
  {
    if s == [] then [x]
    else if x < s[0] then [x] + s
    else if x == s[0] then s
    else
      var t := Insert(x, s[1..]);
      assert forall i :: 0 <= i < |t| ==> t[i] in t;
      [s[0]] + t
  }

  /** `sorted(list(set(xs)))`: each index once, in ascending order. */
  function SortedDistinct(xs: seq<nat>): (r: seq<nat>)
    ensures StrictlyIncreasing(r)
    ensures forall y :: y in r <==> y in xs
    decreases |xs|
  {
    if xs == [] then []
    else
      var r := Insert(xs[|xs| - 1], SortedDistinct(xs[..|xs| - 1]));
      assert forall y :: y in xs <==> y == xs[|xs| - 1] || y in xs[..|xs| - 1] by {
        assert xs == xs[..|xs| - 1] + [xs[|xs| - 1]];
      }
      r
  }

  /** A strictly increasing list is determined by its elements: so `SortedDistinct` is the only possible value of `sorted(set(xs))`. */
  lemma {:induction false} StrictlyIncreasingUnique(a: seq<nat>, b: seq<nat>)
    requires StrictlyIncreasing(a) && StrictlyIncreasing(b)
    requires forall y :: y in a <==> y in b
    ensures a == b
    decreases |a|
  {
    if a != [] { assert a[0] in a; }
    if b != [] { assert b[0] in b; }
    if a != [] && b != [] {
      SameHeads(a, b);
      StrictlyIncreasingUnique(a[1..], b[1..]);
      assert a == [a[0]] + a[1..] && b == [b[0]] + b[1..];
    }
  }

  /** Two strictly increasing lists with the same elements start with the same least element, and their tails hold the same elements. */
  lemma SameHeads(a: seq<nat>, b: seq<nat>)
    requires a != [] && b != []
    requires StrictlyIncreasing(a) && StrictlyIncreasing(b)
    requires forall y :: y in a <==> y in b
    ensures a[0] == b[0]
    ensures StrictlyIncreasing(a[1..]) && StrictlyIncreasing(b[1..])
    ensures forall y :: y in a[1..] <==> y in b[1..]
  {
    assert a[0] in b;
    assert b[0] in a;
    var i :| 0 <= i < |b| && b[i] == a[0];
    var j :| 0 <= j < |a| && a[j] == b[0];
    assert a[0] <= a[j] == b[0] <= b[i] == a[0];
    forall y ensures y in a[1..] <==> y in b[1..] {
      if y in a[1..] {
        var p :| 1 <= p < |a| && a[p] == y;
        assert y in b;
        var q :| 0 <= q < |b| && b[q] == y;
        assert q != 0;
        assert b[1..][q - 1] == y;
      }
      if y in b[1..] {
        var q :| 1 <= q < |b| && b[q] == y;
        assert y in a;
        var p :| 0 <= p < |a| && a[p] == y;
        assert p != 0;
        assert a[1..][p - 1] == y;
      }
    }
  }

  /** `[available_courses[i] for i in indices]`. */
  function Pick(courses: seq<Course>, indices: seq<nat>): (r: seq<Course>)
    requires forall k :: 0 <= k < |indices| ==> indices[k] < |courses|
    ensures |r| == |indices|
  {
    seq(|indices|, k requires 0 <= k < |indices| => courses[indices[k]])
  }

  /** The selected courses, in dashboard order, each once: `[available_courses[i] for i in sorted(set(xs))]`. */
  function Selection(courses: seq<Course>, xs: seq<nat>): (r: seq<Course>)
    requires forall x :: x in xs ==> x < |courses|
  {
    var idx := SortedDistinct(xs);
    assert forall k :: 0 <= k < |idx| ==> idx[k] in idx;
    Pick(courses, idx)
  }

  /** The menu loop from input line `pos` on, as the source runs it. */
  function SessionFrom(courses: seq<Course>, lines: seq<string>, pos: nat): Session
    requires pos <= |lines|
    decreases |lines| - pos
  {
    if pos == |lines| then Session([], pos)
    else
      var choice := Normalize(lines[pos]);
      if choice == "q" then Session([], pos + 1)
      else if choice == "all" then Session(courses, pos + 1)
      else match ParseIndices(Split(choice, ','), |courses|)
        case None => SessionFrom(courses, lines, pos + 1)
        case Some(xs) =>
          if pos + 1 == |lines| then Session([], pos + 1)
          else if Normalize(lines[pos + 1]) == "s" then Session(Selection(courses, xs), pos + 2)
          else SessionFrom(courses, lines, pos + 2)
  }

  /** The whole menu: with no courses it returns at once, before any prompt. */
  function SessionResult(courses: seq<Course>, lines: seq<string>): Session {
    if courses == [] then Session([], 0) else SessionFrom(courses, lines, 0)
  }

  /** `get_user_course_selection`: the `while True` loop over prompts. */
  method GetUserCourseSelection(courses: seq<Course>, lines: seq<string>) returns (selected: seq<Course>, consumed: nat)
    ensures Session(selected, consumed) == SessionResult(courses, lines)
    ensures consumed <= |lines|
    ensures courses == [] ==> selected == [] && consumed == 0
    ensures courses != [] && |lines| > 0 && Normalize(lines[0]) == "q" ==> selected == [] && consumed == 1
    ensures courses != [] && |lines| > 0 && Normalize(lines[0]) == "all" ==> selected == courses && consumed == 1
    ensures courses != [] && |lines| >= 2 && Normalize(lines[0]) != "q" && Normalize(lines[0]) != "all"
      && ParseIndices(Split(Normalize(lines[0]), ','), |courses|).Some? && Normalize(lines[1]) == "s"
      ==> selected == Selection(courses, ParseIndices(Split(Normalize(lines[0]), ','), |courses|).value) && consumed == 2
    ensures courses != [] && |lines| > 0 && Normalize(lines[0]) != "q" && Normalize(lines[0]) != "all"
      && ParseIndices(Split(Normalize(lines[0]), ','), |courses|).None?
      ==> Session(selected, consumed) == SessionFrom(courses, lines, 1)
  {
    if courses == [] {
      return [], 0;
    }
    var pos := 0;
    while true
      invariant pos <= |lines|
      invariant SessionFrom(courses, lines, pos) == SessionFrom(courses, lines, 0)
      decreases |lines| - pos
    {
      if pos == |lines| {
        // input() raises EOFError; the broad handler returns an empty selection
        return [], pos;
      }
      var choice := Normalize(lines[pos]);
      pos := pos + 1;
      if choice == "q" {
        return [], pos;
      }
      if choice == "all" {
        return courses, pos;
      }
      var indices := CollectIndices(choice, |courses|);
      if indices.None? {
        continue;
      }
      if pos == |lines| {
        return [], pos;
      }
      var confirm := Normalize(lines[pos]);
      pos := pos + 1;
      if confirm == "s" {
        return Selection(courses, indices.value), pos;
      }
    }
  }

  /** Whatever the input, the menu returns courses in dashboard order and never the same course twice. */
  lemma {:induction false} SelectionIsOrderedSubset(courses: seq<Course>, lines: seq<string>, pos: nat)
    requires pos <= |lines|
    ensures exists idx: seq<nat> ::
      StrictlyIncreasing(idx) && (forall k :: 0 <= k < |idx| ==> idx[k] < |courses|) &&
      SessionFrom(courses, lines, pos).selected == Pick(courses, idx)
    decreases |lines| - pos
  {
    var empty: seq<nat> := [];
    if pos == |lines| {
      assert Pick(courses, empty) == [];
    } else {
      var choice := Normalize(lines[pos]);
      if choice == "q" {
        assert Pick(courses, empty) == [];
      } else if choice == "all" {
        var all := seq(|courses|, k requires 0 <= k < |courses| => k);
        assert Pick(courses, all) == courses;
      } else {
        match ParseIndices(Split(choice, ','), |courses|)
        case None => SelectionIsOrderedSubset(courses, lines, pos + 1);
        case Some(xs) =>
          if pos + 1 == |lines| {
            assert Pick(courses, empty) == [];
          } else if Normalize(lines[pos + 1]) == "s" {
            ParseIndicesMeaning(Split(choice, ','), |courses|);
            var idx := SortedDistinct(xs);
            forall k | 0 <= k < |idx| ensures idx[k] < |courses| {
              assert idx[k] in xs;
            }
          } else {
            SelectionIsOrderedSubset(courses, lines, pos + 2);
          }
      }
    }
  }

  /** Without a line reading `all`, a non-empty selection is returned only after a line reading `s`. */
  lemma {:induction false} SelectionNeedsConfirmation(courses: seq<Course>, lines: seq<string>, pos: nat)
    requires pos <= |lines|
    requires forall k :: pos <= k < |lines| ==> Normalize(lines[k]) != "all" && Normalize(lines[k]) != "s"
    ensures SessionFrom(courses, lines, pos).selected == []
    decreases |lines| - pos
  {
    if pos < |lines| {
      var choice := Normalize(lines[pos]);
      if choice != "q" {
        match ParseIndices(Split(choice, ','), |courses|)
        case None => SelectionNeedsConfirmation(courses, lines, pos + 1);
        case Some(xs) =>
          if pos + 1 < |lines| {
            SelectionNeedsConfirmation(courses, lines, pos + 2);
          }
      }
    }
  }

  /** The address tried when the credentials carry no `MOODLE_URL`. */
  const DefaultDashboard: string := "https://multi.unijaguaribe.com.br/"

  /** `if not url.endswith('/'): url += '/'`. */
  function WithTrailingSlash(u: string): (r: string)
    ensures |r| > 0 && r[|r| - 1] == '/'
    ensures r == u || r == u + "/"
    ensures |u| > 0 && u[|u| - 1] == '/' ==> r == u
  {
    if |u| > 0 && u[|u| - 1] == '/' then u else u + "/"
  }

  /** The dashboards tried in order: `<base>my/` first, then `<base>`, where the base is `MOODLE_URL` or the default with one `/` ensured. */
  function DashboardCandidates(credentials: map<string, string>): (urls: seq<string>)
    ensures |urls| == 2 && urls[0] == urls[1] + "my/"
    ensures urls[1] == WithTrailingSlash(if "MOODLE_URL" in credentials then credentials["MOODLE_URL"] else DefaultDashboard)
  {
    var base := WithTrailingSlash(if "MOODLE_URL" in credentials then credentials["MOODLE_URL"] else DefaultDashboard);
    [base + "my/", base]
  }

  /** The credentials `load_env_variables` returns never carry `MOODLE_URL`, so the default dashboards are the ones always tried. */
  lemma DashboardAlwaysDefault(env: map<string, string>)
    requires Config.Credentials(env).Some?
    ensures DashboardCandidates(Config.Credentials(env).value) == [DefaultDashboard + "my/", DefaultDashboard]
  {
    assert "MOODLE_URL" !in Config.Credentials(env).value;
  }
}

/**
 * `activity_navigator.py`: opening an activity. The link's `onclick` holds a
 * `window.open('<url>', …)` call; the browser is sent to that URL, the
 * "Exercícios" link is clicked, and the page either says the answers were
 * already sent or shows the questions. Each browser step is an observation:
 * whether it succeeded within its wait.
 */
module ActivityNavigator {
  import opened Wrappers
  import opened Text

  // ---------------------------------------------------------------------
  // The URL in `onclick`: `window\.open\('([^']+)'`
  // ---------------------------------------------------------------------

  const OpenCall: string := "window.open('"

  predicate IsQuote(c: char) { c == '\'' }

  /** The pattern tried at `p`: the call, then the non-empty run up to the next quote. */
  function UrlAt(s: string, p: nat): (r: Option<string>)
    requires p <= |s|
  {
    var start := p + |OpenCall|;
    if start <= |s| && s[p..start] == OpenCall then
      match FirstMatch(s, start, IsQuote)
      case None => None
      case Some(q) => if q > start then Some(s[start..q]) else None
    else None
  }

  /** `re.search`: the match at the leftmost position from `p` on where there is one. */
  function SearchUrl(s: string, p: nat): (r: Option<string>)
    requires p <= |s|
    decreases |s| - p
  {
    if p == |s| then None
    else match UrlAt(s, p)
      case Some(u) => Some(u)
      case None => SearchUrl(s, p + 1)
  }

  /** What a match at `p` means: the call, then `url` (non-empty, without quotes), then a quote. */
  predicate CallWith(s: string, p: nat, url: string) {
    var start := p + |OpenCall|;
    start + |url| < |s| && s[p..start] == OpenCall && s[start..start + |url|] == url
    && |url| > 0 && (forall k :: 0 <= k < |url| ==> url[k] != '\'') && s[start + |url|] == '\''
  }

  /** A match at `p` is exactly a call with a non-empty, quote-free argument closed by a quote. */
  lemma UrlAtMeaning(s: string, p: nat)
    requires p <= |s|
    ensures UrlAt(s, p).Some? ==> CallWith(s, p, UrlAt(s, p).value)
    ensures forall url :: CallWith(s, p, url) ==> UrlAt(s, p) == Some(url)
  {
    var start := p + |OpenCall|;
    if start <= |s| {
      FirstMatchIsLeftmost(s, start, IsQuote);
      if UrlAt(s, p).Some? {
        var q := FirstMatch(s, start, IsQuote).value;
        var url := s[start..q];
        assert forall k :: 0 <= k < |url| ==> url[k] == s[start + k];
      }
      forall url | CallWith(s, p, url) ensures UrlAt(s, p) == Some(url) {
        assert forall k :: 0 <= k < |url| ==> s[start + k] == url[k];
        FirstMatchAt(s, start, start + |url|);
      }
    }
  }

  /** The first quote from `i` on is at `q` when none comes before it. */
  lemma {:induction false} FirstMatchAt(s: string, i: nat, q: nat)
    requires i <= q < |s| && IsQuote(s[q])
    requires forall k :: i <= k < q ==> !IsQuote(s[k])
    ensures FirstMatch(s, i, IsQuote) == Some(q)
    decreases q - i
  {
    if i < q {
      FirstMatchAt(s, i + 1, q);
    }
  }

  /** The search finds the leftmost match, and None means there is none. */
  lemma {:induction false} SearchUrlIsLeftmost(s: string, p: nat)
    requires p <= |s|
    ensures SearchUrl(s, p).Some? ==>
      exists m :: p <= m < |s| && UrlAt(s, m) == SearchUrl(s, p) && forall k :: p <= k < m ==> UrlAt(s, k).None?
    ensures SearchUrl(s, p).None? ==> forall k :: p <= k < |s| ==> UrlAt(s, k).None?
    decreases |s| - p
  {
    if p < |s| && UrlAt(s, p).None? {
      SearchUrlIsLeftmost(s, p + 1);
      if SearchUrl(s, p + 1).Some? {
        var m :| p + 1 <= m < |s| && UrlAt(s, m) == SearchUrl(s, p + 1) && forall k :: p + 1 <= k < m ==> UrlAt(s, k).None?;
        assert forall k :: p <= k < m ==> UrlAt(s, k).None?;
      }
    }
  }

  /** The URL of the call: non-empty and free of quotes, as the pattern demands. */
  lemma ExtractedUrlShape(s: string)
    ensures SearchUrl(s, 0).Some? ==> |SearchUrl(s, 0).value| > 0
    ensures SearchUrl(s, 0).Some? ==> forall k :: 0 <= k < |SearchUrl(s, 0).value| ==> SearchUrl(s, 0).value[k] != '\''
  {
    SearchUrlIsLeftmost(s, 0);
    if SearchUrl(s, 0).Some? {
      var m :| 0 <= m < |s| && UrlAt(s, m) == SearchUrl(s, 0) && forall k :: 0 <= k < m ==> UrlAt(s, k).None?;
      UrlAtMeaning(s, m);
    }
  }

  /** The search is past `p` when no match can start before it. */
  lemma {:induction false} SearchSkips(s: string, p: nat, q: nat)
    requires p <= q <= |s|
    requires forall k :: p <= k < q ==> s[k] != 'w'
    ensures SearchUrl(s, p) == SearchUrl(s, q)
    decreases q - p
  {
    if p < q {
      if p + |OpenCall| <= |s| {
        assert s[p..p + |OpenCall|][0] == s[p];
      }
      SearchSkips(s, p + 1, q);
    }
  }

  /** An `onclick` whose first "w" opens the call `window.open('<url>'…` yields `url`. */
  lemma CallFound(pre: string, url: string, post: string)
    requires forall k :: 0 <= k < |pre| ==> pre[k] != 'w'
    requires |url| > 0 && forall k :: 0 <= k < |url| ==> url[k] != '\''
    ensures SearchUrl(pre + OpenCall + url + "'" + post, 0) == Some(url)
  {
    var s := pre + OpenCall + url + "'" + post;
    var p := |pre|;
    var start := p + |OpenCall|;
    forall k | 0 <= k < p ensures s[k] != 'w' {
      assert s[k] == pre[k];
    }
    SearchSkips(s, 0, p);
    assert s[p..start] == OpenCall;
    assert s[start..start + |url|] == url;
    assert s[start + |url|] == '\'';
    UrlAtMeaning(s, p);
    assert CallWith(s, p, url);
  }

  // ---------------------------------------------------------------------
  // The three-way outcome
  // ---------------------------------------------------------------------

  /** `True`, `"COMPLETED"` and `False`. */
  datatype Outcome = Opened | Completed | Failed

  /**
   * What the browser does at each step. `linkReadable`: the link's name and
   * `onclick` could be read; `landedUrl`: the URL reached within the wait
   * after `driver.get` (None when the navigation raised); the other flags say
   * whether the "Exercícios" link became clickable and was clicked, whether
   * "Respostas enviadas em:" appeared within the short wait, and whether
   * `div.question-content` became visible.
   */
  datatype Observations = Observations(
    linkReadable: bool,
    onclick: Option<string>,
    landedUrl: Option<string>,
    exercisesClicked: bool,
    completionShown: bool,
    questionVisible: bool)

  /** The host the activity page must be on. */
  const ActivityHost: string := "fvj.grupoa.education"

  predicate OccursAt(s: string, t: string, i: nat) {
    i + |t| <= |s| && s[i..i + |t|] == t
  }

  /** `t in s` for strings: `t` occurs in `s`. */
  predicate Contains(s: string, t: string) {
    exists i: nat :: i <= |s| && OccursAt(s, t, i)
  }

  /** The outcome, and the URL the browser was sent to, if it got that far. */
  datatype Navigation = Navigation(outcome: Outcome, visited: Option<string>)

  /** `navigate_to_activity_exercises`: the steps in order, each failure returning `False`. */
  function Navigate(obs: Observations): Navigation {
    if !obs.linkReadable || obs.onclick.None? || obs.onclick.value == "" then Navigation(Failed, None)
    else match SearchUrl(obs.onclick.value, 0)
      case None => Navigation(Failed, None)
      case Some(url) =>
        var visited := Some(url);
        if obs.landedUrl.None? || !Contains(obs.landedUrl.value, ActivityHost) then Navigation(Failed, visited)
        else if !obs.exercisesClicked then Navigation(Failed, visited)
        else if obs.completionShown then Navigation(Completed, visited)
        else if !obs.questionVisible then Navigation(Failed, visited)
        else Navigation(Opened, visited)
  }

  /** The steps that must all succeed before the completion message or the questions are looked for. */
  predicate ReachedExercises(obs: Observations) {
    obs.linkReadable && obs.onclick.Some? && obs.onclick.value != ""
    && SearchUrl(obs.onclick.value, 0).Some?
    && obs.landedUrl.Some? && Contains(obs.landedUrl.value, ActivityHost)
    && obs.exercisesClicked
  }

  /** Each outcome in terms of the observations, both ways. */
  lemma NavigateMeaning(obs: Observations)
    ensures Navigate(obs).outcome == Completed <==> ReachedExercises(obs) && obs.completionShown
    ensures Navigate(obs).outcome == Opened <==> ReachedExercises(obs) && !obs.completionShown && obs.questionVisible
    ensures Navigate(obs).outcome == Failed <==> !ReachedExercises(obs) || (!obs.completionShown && !obs.questionVisible)
  {
  }

  /** The browser is only ever sent to the URL of the `onclick` call. */
  lemma VisitedIsExtracted(obs: Observations)
    ensures Navigate(obs).visited.Some? ==>
      obs.onclick.Some? && Navigate(obs).visited == SearchUrl(obs.onclick.value, 0)
    ensures Navigate(obs).outcome != Failed ==> Navigate(obs).visited.Some?
  {
  }

  /** The completion message decides at once: whether the questions would show does not matter. */
  lemma CompletedWithoutQuestions(obs: Observations, visible: bool)
    requires Navigate(obs).outcome == Completed
    ensures Navigate(obs.(questionVisible := visible)) == Navigate(obs)
  {
  }

  /** A missing or empty `onclick`, or one without the call, fails before any navigation. */
  lemma NoCallNoNavigation(obs: Observations)
    requires obs.onclick.None? || obs.onclick.value == "" || SearchUrl(obs.onclick.value, 0).None?
    ensures Navigate(obs) == Navigation(Failed, None)
  {
  }
}

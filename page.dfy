/**
 * What the scraper sees of an activity page at one moment: the parsed HTML
 * (`BeautifulSoup(driver.page_source)`) and the live Selenium elements it
 * can click. Live elements are named by their position in `live`; radio
 * buttons by opaque numbers.
 */
module PageSnapshot {
  import opened Wrappers

  /** `div.question-text`: the stripped text of each `<p>`, and of the whole div. */
  datatype TextDiv = TextDiv(paragraphs: seq<string>, whole: string)

  /**
   * One `div.option`: the text of its `div.question-option` and of its
   * `label.option-label` when present, and the `id` of its radio input when
   * it has one with an `id` attribute.
   */
  datatype OptionDiv = OptionDiv(body: Option<string>, labelText: Option<string>, radioId: Option<string>)

  /**
   * One `div.question-content` in the parsed HTML. `body` is the text of its
   * `div.question-body`, present only on the question being shown; the four
   * flags are the result marks shown once the activity is corrected.
   */
  datatype Container = Container(
    body: Option<string>,
    textDiv: Option<TextDiv>,
    questionDiv: Option<string>,
    identifier: Option<string>,
    options: seq<OptionDiv>,
    rightMark: bool,       // a span reading "Você acertou!"
    wrongMark: bool,       // a span reading "Você não acertou!"
    rightWrapper: bool,    // a div.correctAnswer
    wrongWrapper: bool)    // a div.incorrectAnswer

  /**
   * One live `div.question-content`: whether it is displayed, its radio
   * inputs in order, the radios it finds by `id`, and the ids whose lookup
   * raises something other than `NoSuchElementException` (a stale element,
   * say).
   */
  datatype LiveDiv = LiveDiv(displayed: bool, radios: seq<nat>, ids: map<string, nat>, raising: set<string>)

  /** What a real container gives: every radio found by `id` is one of its `input[type='radio']` elements. */
  predicate Consistent(live: LiveDiv) {
    forall id :: id in live.ids ==> live.ids[id] in live.radios
  }

  /**
   * `.progress-count` as `get_total_questions` sees it: not present within
   * the wait (a timeout, which is ignored), present but reading it raised
   * something else (which only the outer handler catches), or its text.
   */
  datatype Counter = CounterAbsent | CounterRaised | CounterText(text: string)

  /**
   * A snapshot: whether `document.readyState` became "complete", the
   * `.progress-count` element and the text of its `<strong>`, the parsed
   * containers and the live ones.
   */
  datatype Page = Page(
    ready: bool,
    counter: Counter,
    progressStrong: Option<string>,
    containers: seq<Container>,
    live: seq<LiveDiv>)

  /** A page that never finishes loading and shows nothing. */
  const Blank: Page := Page(false, CounterAbsent, None, [], [])

  /** The `pos`-th snapshot; past the supplied ones the browser shows nothing. */
  function PageAt(pages: seq<Page>, pos: nat): Page {
    if pos < |pages| then pages[pos] else Blank
  }

  /** The first container from `from` on that has a question body. */
  function FirstBodied(cs: seq<Container>, from: nat): (r: Option<nat>)
    ensures r.Some? ==> from <= r.value < |cs| && cs[r.value].body.Some?
    decreases |cs| - from
  {
    if from >= |cs| then None
    else if cs[from].body.Some? then Some(from)
    else FirstBodied(cs, from + 1)
  }

  /** `FirstBodied` finds the leftmost container with a body, and None means there is none. */
  lemma {:induction false} FirstBodiedIsLeftmost(cs: seq<Container>, from: nat)
    ensures FirstBodied(cs, from).Some? ==> forall j :: from <= j < FirstBodied(cs, from).value ==> cs[j].body.None?
    ensures FirstBodied(cs, from).None? ==> forall j :: from <= j < |cs| ==> cs[j].body.None?
    decreases |cs| - from
  {
    if from < |cs| && cs[from].body.None? {
      FirstBodiedIsLeftmost(cs, from + 1);
    }
  }

  /** The last container before `k` that has a question body. */
  function LastBodiedBefore(cs: seq<Container>, k: nat): (r: Option<nat>)
    requires k <= |cs|
    ensures r.Some? ==> r.value < k && cs[r.value].body.Some?
  {
    if k == 0 then None
    else if cs[k - 1].body.Some? then Some(k - 1)
    else LastBodiedBefore(cs, k - 1)
  }

  /** `LastBodiedBefore` finds the rightmost container with a body, and None means there is none. */
  lemma {:induction false} LastBodiedIsRightmost(cs: seq<Container>, k: nat)
    requires k <= |cs|
    ensures LastBodiedBefore(cs, k).Some? ==> forall j :: LastBodiedBefore(cs, k).value < j < k ==> cs[j].body.None?
    ensures LastBodiedBefore(cs, k).None? ==> forall j :: 0 <= j < k ==> cs[j].body.None?
  {
    if k > 0 && cs[k - 1].body.None? {
      LastBodiedIsRightmost(cs, k - 1);
    }
  }

  /** `len([c for c in containers if c.find("div", class_="question-body")])`. */
  function BodiedCount(cs: seq<Container>): (n: nat)
    ensures n <= |cs|
  {
    if cs == [] then 0 else BodiedCount(cs[..|cs| - 1]) + (if cs[|cs| - 1].body.Some? then 1 else 0)
  }

  /** Some container has a body exactly when the count of containers with one is positive. */
  lemma {:induction false} BodiedCountPositive(cs: seq<Container>)
    ensures BodiedCount(cs) > 0 <==> FirstBodied(cs, 0).Some?
  {
    BodiedCountMatchesLast(cs, |cs|);
    assert cs[..|cs|] == cs;
    FirstBodiedIsLeftmost(cs, 0);
    LastBodiedIsRightmost(cs, |cs|);
    if LastBodiedBefore(cs, |cs|).Some? {
      assert FirstBodied(cs, 0).Some?;
    }
  }

  lemma {:induction false} BodiedCountMatchesLast(cs: seq<Container>, k: nat)
    requires k <= |cs|
    ensures BodiedCount(cs[..k]) > 0 <==> LastBodiedBefore(cs, k).Some?
  {
    if k > 0 {
      assert cs[..k][..k - 1] == cs[..k - 1];
      BodiedCountMatchesLast(cs, k - 1);
    }
  }

  /** The first displayed live container. */
  function FirstDisplayed(live: seq<LiveDiv>): (r: Option<nat>)
    ensures r.Some? ==> r.value < |live| && live[r.value].displayed
    ensures r.Some? ==> forall j :: 0 <= j < r.value ==> !live[j].displayed
    ensures r.None? ==> forall j :: 0 <= j < |live| ==> !live[j].displayed
  {
    if live == [] then None
    else if live[0].displayed then Some(0)
    else match FirstDisplayed(live[1..])
      case None => None
      case Some(j) => Some(j + 1)
  }
}

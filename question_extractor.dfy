/**
 * `question_extractor.py`: finds the question being shown, then reads its
 * number, its text and its options from a page snapshot. The options are a
 * dictionary from letter to text and clickable radio; it is modelled as the
 * list of its entries in insertion order.
 */
module QuestionExtractor {
  import opened Wrappers
  import opened Text
  import opened Letters
  import opened PageSnapshot

  // ---------------------------------------------------------------------
  // The active question
  // ---------------------------------------------------------------------

  /**
   * The parsed container and the live element `_find_active_question_elements`
   * returns: the first container with a body and its live twin at the same
   * position; failing a twin, the first displayed live container; failing
   * that too, the loop runs on and ends with the last container with a body
   * and no element.
   */
  function Active(cs: seq<Container>, live: seq<LiveDiv>): (r: (Option<nat>, Option<nat>))
    ensures r.0.Some? ==> r.0.value < |cs| && cs[r.0.value].body.Some?
    ensures r.1.Some? ==> r.1.value < |live| && r.0.Some?
  {
    match FirstBodied(cs, 0)
    case None => (None, None)
    case Some(i) =>
      if i < |live| then (Some(i), Some(i))
      else match FirstDisplayed(live)
        case Some(d) => (Some(i), Some(d))
        case None => (LastBodiedBefore(cs, |cs|), None)
  }

  /** The inner `for sel_div in ...: if sel_div.is_displayed(): ... break`. */
  method FirstDisplayedDiv(live: seq<LiveDiv>) returns (d: Option<nat>)
    ensures d == FirstDisplayed(live)
  {
    d := None;
    var j := 0;
    while j < |live|
      invariant 0 <= j <= |live|
      invariant forall t :: 0 <= t < j ==> !live[t].displayed
    {
      if live[j].displayed {
        d := Some(j);
        break;
      }
      j := j + 1;
    }
  }

  /** `_find_active_question_elements`: the loop over parsed containers. */
  method FindActiveQuestionElements(cs: seq<Container>, live: seq<LiveDiv>)
    returns (container: Option<nat>, element: Option<nat>)
    ensures (container, element) == Active(cs, live)
  {
    container, element := None, None;
    var k := 0;
    while k < |cs|
      invariant 0 <= k <= |cs| && element.None?
      invariant container == LastBodiedBefore(cs, k)
      invariant forall j :: 0 <= j < k && cs[j].body.Some? ==> |live| <= j && FirstDisplayed(live).None?
    {
      if cs[k].body.Some? {
        container := Some(k);
        if k < |live| {
          element := Some(k);
          FirstBodiedAt(cs, k);
          break;
        } else if |live| > 0 {
          element := FirstDisplayedDiv(live);
          if element.Some? {
            FirstBodiedAt(cs, k);
            break;
          }
        }
      }
      k := k + 1;
    }
    if element.None? {
      FirstBodiedIsLeftmost(cs, 0);
      LastBodiedIsRightmost(cs, |cs|);
    }
  }

  lemma FirstBodiedAt(cs: seq<Container>, k: nat)
    requires k < |cs| && cs[k].body.Some?
    requires forall j :: 0 <= j < k ==> cs[j].body.None?
    ensures FirstBodied(cs, 0) == Some(k)
  {
    FirstBodiedIsLeftmost(cs, 0);
  }

  /** When every parsed container has a live twin, the element is the twin of the first container with a body. */
  lemma ActiveAligned(cs: seq<Container>, live: seq<LiveDiv>, i: nat)
    requires |cs| <= |live| && i < |cs| && cs[i].body.Some?
    requires forall j :: 0 <= j < i ==> cs[j].body.None?
    ensures Active(cs, live) == (Some(i), Some(i))
  {
    FirstBodiedAt(cs, i);
  }

  /** An element is found exactly when some container has a body and either it has a twin or some live container is displayed. */
  lemma ActiveFound(cs: seq<Container>, live: seq<LiveDiv>)
    ensures Active(cs, live).1.Some? <==>
      exists i :: 0 <= i < |cs| && cs[i].body.Some? && (i < |live| || exists d :: 0 <= d < |live| && live[d].displayed)
  {
    FirstBodiedIsLeftmost(cs, 0);
    if Active(cs, live).1.None? && FirstBodied(cs, 0).Some? {
      var f := FirstBodied(cs, 0).value;
      assert |live| <= f;
      forall i | 0 <= i < |cs| && cs[i].body.Some? ensures |live| <= i {
        assert f <= i;
      }
    }
  }

  // ---------------------------------------------------------------------
  // Number and text
  // ---------------------------------------------------------------------

  /** The digits of the first run of digits in `s`, as `re.search(r'(\d+)', s)` finds it. */
  function FirstNumber(s: string): (r: Option<nat>) {
    match FirstMatch(s, 0, IsDigit)
    case None => None
    case Some(p) =>
      var e := DigitRunEnd(s, p);
      assert forall k :: 0 <= k < e - p ==> s[p..e][k] == s[p + k];
      Some(DigitsValue(s[p..e]))
  }

  /** The number of the first run of digits, whatever text surrounds it. */
  lemma FirstNumberOf(pre: string, digits: string, post: string)
    requires forall k :: 0 <= k < |pre| ==> !IsDigit(pre[k])
    requires IsDigits(digits)
    requires post == [] || !IsDigit(post[0])
    ensures FirstNumber(pre + digits + post) == Some(DigitsValue(digits))
  {
    var s := pre + digits + post;
    FirstMatchIsLeftmost(s, 0, IsDigit);
    assert s[|pre|] == digits[0];
    var p := FirstMatch(s, 0, IsDigit).value;
    assert p == |pre|;
    assert forall k :: |pre| <= k < |pre| + |digits| ==> s[k] == digits[k - |pre|];
    if post != [] {
      assert s[|pre| + |digits|] == post[0];
    }
    DigitRunEndAt(s, p, |pre| + |digits|);
    var e := DigitRunEnd(s, p);
    assert s[p..e] == digits;
  }

  /** `_extract_question_number`: the progress counter when the page has one (`int()` failing gives None), otherwise the first number in the question identifier. */
  function QuestionNumber(progressStrong: Option<string>, c: Container): Option<int> {
    match progressStrong
    case Some(t) => ParseInt(Strip(t))
    case None =>
      match c.identifier
      case None => None
      case Some(s) =>
        match FirstNumber(s)
        case None => None
        case Some(n) => Some(n)
  }

  /** A progress counter that `int()` cannot read gives no number, even when the identifier holds one. */
  lemma ProgressCounterShadowsIdentifier(t: string, c: Container)
    requires ParseInt(Strip(t)).None?
    ensures QuestionNumber(Some(t), c) == None
  {
  }

  /** Without a progress counter, the number is the first run of digits of the identifier. */
  lemma NumberFromIdentifier(c: Container, pre: string, digits: string, post: string)
    requires c.identifier == Some(pre + digits + post)
    requires forall k :: 0 <= k < |pre| ==> !IsDigit(pre[k])
    requires IsDigits(digits)
    requires post == [] || !IsDigit(post[0])
    ensures QuestionNumber(None, c) == Some(DigitsValue(digits))
  {
    FirstNumberOf(pre, digits, post);
  }

  /** `[p for p in paragraphs if p]`. */
  function NonEmpty(ps: seq<string>): seq<string>
    decreases |ps|
  {
    if ps == [] then [] else (if ps[0] != [] then [ps[0]] else []) + NonEmpty(ps[1..])
  }

  /** The filter keeps exactly the non-empty paragraphs, and leaves nothing only when every paragraph is empty. */
  lemma {:induction false} NonEmptyMeaning(ps: seq<string>)
    ensures forall x :: x in NonEmpty(ps) <==> x in ps && x != []
    ensures NonEmpty(ps) == [] <==> forall k :: 0 <= k < |ps| ==> ps[k] == []
    ensures NonEmpty(ps) != [] ==> NonEmpty(ps)[0] != []
    decreases |ps|
  {
    if ps != [] {
      NonEmptyMeaning(ps[1..]);
      assert forall k :: 1 <= k < |ps| ==> ps[k] == ps[1..][k - 1];
      assert forall x :: x in ps <==> x == ps[0] || x in ps[1..];
    }
  }

  /** A join of lines whose first line is non-empty is non-empty. */
  lemma JoinNonEmpty(ps: seq<string>, sep: string)
    requires ps != [] && ps[0] != []
    ensures Join(ps, sep) != []
  {
    if |ps| > 1 {
      assert Join(ps, sep) == ps[0] + sep + Join(ps[1..], sep);
    }
  }

  /** `_extract_question_text`: the non-empty paragraphs of `div.question-text`, else its whole text; else `div.question`; else the question body; else empty. */
  function QuestionText(c: Container): string {
    match c.textDiv
    case Some(td) =>
      var t := Join(NonEmpty(td.paragraphs), "\n");
      if t != [] then t else td.whole
    case None =>
      match c.questionDiv
      case Some(q) => q
      case None =>
        match c.body
        case Some(b) => b
        case None => ""
  }

  /** When a paragraph has text, the question text is the non-empty paragraphs on lines of their own, and it is not empty. */
  lemma QuestionTextFromParagraphs(c: Container, k: nat)
    requires c.textDiv.Some? && k < |c.textDiv.value.paragraphs| && c.textDiv.value.paragraphs[k] != []
    ensures QuestionText(c) == Join(NonEmpty(c.textDiv.value.paragraphs), "\n")
    ensures QuestionText(c) != []
  {
    NonEmptyMeaning(c.textDiv.value.paragraphs);
    JoinNonEmpty(NonEmpty(c.textDiv.value.paragraphs), "\n");
  }

  /** A `div.question-text` with no text hides the other sources: the question text is then empty. */
  lemma EmptyTextDivShadowsFallbacks(c: Container)
    requires c.textDiv.Some? && c.textDiv.value.whole == []
    requires forall k :: 0 <= k < |c.textDiv.value.paragraphs| ==> c.textDiv.value.paragraphs[k] == []
    ensures QuestionText(c) == []
  {
    NonEmptyMeaning(c.textDiv.value.paragraphs);
  }

  // ---------------------------------------------------------------------
  // Options
  // ---------------------------------------------------------------------

  /** Where `re.sub(r'^[A-Z][.,)]?\s*', '', t)` ends its match: 0 when `t` does not start with a capital. */
  function LabelPrefixEnd(t: string): (j: nat)
    ensures j <= |t|
  {
    if |t| > 0 && IsUpper(t[0]) then
      SpaceRunEnd(t, if |t| > 1 && (t[1] == '.' || t[1] == ',' || t[1] == ')') then 2 else 1)
    else 0
  }

  /** The label text without its leading letter marker: `re.sub(r'^[A-Z][.,)]?\s*', '', t).strip()`. */
  function StripLabelPrefix(t: string): string {
    Strip(t[LabelPrefixEnd(t)..])
  }

  /** A letter, a mark and spaces before the text are removed. */
  lemma LabelMarkerRemoved(letter: char, mark: char, spaces: string, text: string)
    requires IsUpper(letter) && (mark == '.' || mark == ',' || mark == ')')
    requires AllSpace(spaces) && text != [] && !IsSpace(text[0])
    ensures StripLabelPrefix([letter, mark] + spaces + text) == Strip(text)
  {
    var t := [letter, mark] + spaces + text;
    assert forall k :: 2 <= k < 2 + |spaces| ==> t[k] == spaces[k - 2];
    assert t[2 + |spaces|] == text[0];
    SpaceRunEndAt(t, 2, 2 + |spaces|);
    var j := SpaceRunEnd(t, 2);
    assert t[j..] == text;
  }

  /** Any label that starts with a capital loses it, even when the capital begins a word. */
  lemma LeadingCapitalRemoved(t: string)
    requires |t| > 1 && IsUpper(t[0]) && !IsSpace(t[1]) && t[1] != '.' && t[1] != ',' && t[1] != ')'
    ensures StripLabelPrefix(t) == Strip(t[1..])
  {
  }

  lemma LabelExamples()
    ensures StripLabelPrefix("Brasil") == Strip("rasil")
    ensures StripLabelPrefix("A) Brasil") == Strip("Brasil")
  {
    LeadingCapitalRemoved("Brasil");
    assert "Brasil"[1..] == "rasil";
    assert "A) Brasil" == ['A', ')'] + " " + "Brasil";
    LabelMarkerRemoved('A', ')', " ", "Brasil");
  }

  /** The text shown when an option has none: "Opção <letter> (sem texto)". */
  function Placeholder(letter: char): string {
    "Op\U{E7}\U{E3}o " + [letter] + " (sem texto)"
  }

  /** The text of one option: its body, else its label without the letter marker, else the placeholder. */
  function OptionText(d: OptionDiv, letter: char): (r: string)
    ensures r != []
    ensures d.body.Some? && d.body.value != [] ==> r == d.body.value
    ensures (d.body.None? || d.body.value == []) && d.labelText.Some? && StripLabelPrefix(d.labelText.value) != []
      ==> r == StripLabelPrefix(d.labelText.value)
    ensures (d.body.None? || d.body.value == []) && (d.labelText.None? || StripLabelPrefix(d.labelText.value) == [])
      ==> r == Placeholder(letter)
  {
    var fromBody := if d.body.Some? then d.body.value else "";
    var text := if fromBody == [] && d.labelText.Some? then StripLabelPrefix(d.labelText.value) else fromBody;
    if text != [] then text else Placeholder(letter)
  }

  /**
   * The clickable radio of the `i`-th option: by `id` in the live container,
   * else the live radio at the same position. A lookup by `id` that raises
   * anything but `NoSuchElementException` ends the search with no radio.
   */
  function RadioFor(d: OptionDiv, i: nat, live: LiveDiv): Option<nat> {
    if d.radioId.Some? && d.radioId.value in live.raising then None
    else if d.radioId.Some? && d.radioId.value in live.ids then Some(live.ids[d.radioId.value])
    else if i < |live.radios| then Some(live.radios[i])
    else None
  }

  /** One dictionary entry: `options_dict[key] = {'text': text, 'element': element}`. */
  datatype OptionEntry = OptionEntry(key: char, text: string, element: nat)

  /** The entry the `i`-th option div contributes: present only when a radio was found. */
  function EntryAt(divs: seq<OptionDiv>, live: LiveDiv, i: nat): (r: Option<OptionEntry>)
    requires i < |divs| <= MaxOptions
    ensures r.Some? ==> r.value.key == Letter(i)
  {
    match RadioFor(divs[i], i, live)
    case None => None
    case Some(e) => Some(OptionEntry(Letter(i), OptionText(divs[i], Letter(i)), e))
  }

  /** The entries from the first `n` option divs, in insertion order. */
  function Entries(divs: seq<OptionDiv>, live: LiveDiv, n: nat): (r: seq<OptionEntry>)
    requires n <= |divs| <= MaxOptions
    ensures |r| <= n
  {
    if n == 0 then []
    else Entries(divs, live, n - 1) + (match EntryAt(divs, live, n - 1) case None => [] case Some(e) => [e])
  }

  /** `key in options_dict` and `options_dict[key]`. */
  function Lookup(entries: seq<OptionEntry>, key: char): (r: Option<OptionEntry>)
    ensures r.Some? ==> r.value in entries && r.value.key == key
  {
    if entries == [] then None
    else if entries[0].key == key then Some(entries[0])
    else Lookup(entries[1..], key)
  }

  predicate KeysIncreasing(entries: seq<OptionEntry>) {
    forall a, b :: 0 <= a < b < |entries| ==> entries[a].key < entries[b].key
  }

  /** The keys are the letters of div positions below `n`, strictly increasing: `sorted(keys)` is the insertion order. */
  lemma {:induction false} EntriesKeys(divs: seq<OptionDiv>, live: LiveDiv, n: nat)
    requires n <= |divs| <= MaxOptions
    ensures KeysIncreasing(Entries(divs, live, n))
    ensures forall e :: e in Entries(divs, live, n) ==> 0 <= LetterIndex(e.key) < n
  {
    if n > 0 {
      EntriesKeys(divs, live, n - 1);
      var prev := Entries(divs, live, n - 1);
      var last := EntryAt(divs, live, n - 1);
      var extra := EntriesStep(divs, live, n);
      LetterMonotone(n - 1, n - 1);
      forall e: OptionEntry | e in prev + extra ensures 0 <= LetterIndex(e.key) < n {
        if e !in prev { assert e == last.value; }
      }
      forall a, b | 0 <= a < b < |prev + extra| ensures (prev + extra)[a].key < (prev + extra)[b].key {
        if b >= |prev| {
          assert (prev + extra)[b] == last.value;
          assert (prev + extra)[a] == prev[a] && prev[a] in prev;
          LetterMonotone(LetterIndex(prev[a].key) as nat, n - 1);
        } else {
          assert (prev + extra)[a] == prev[a] && (prev + extra)[b] == prev[b];
        }
      }
    }
  }

  /**
   * Looking up the letter of position `i` gives exactly the entry of the
   * `i`-th div, and any other character is not a key: the entries behave
   * as the dictionary the source builds.
   */
  lemma {:induction false} EntriesLookup(divs: seq<OptionDiv>, live: LiveDiv, n: nat)
    requires n <= |divs| <= MaxOptions
    ensures forall i :: 0 <= i < n ==> Lookup(Entries(divs, live, n), Letter(i)) == EntryAt(divs, live, i)
    ensures forall c: char :: !(0 <= LetterIndex(c) < n) ==> Lookup(Entries(divs, live, n), c) == None
  {
    forall i | 0 <= i < n ensures Lookup(Entries(divs, live, n), Letter(i)) == EntryAt(divs, live, i) {
      EntriesLookupAt(divs, live, n, i);
    }
    forall c: char | !(0 <= LetterIndex(c) < n) ensures Lookup(Entries(divs, live, n), c) == None {
      EntriesLookupMiss(divs, live, n, c);
    }
  }

  /** The lookup of the letter of one div position. */
  lemma {:induction false} EntriesLookupAt(divs: seq<OptionDiv>, live: LiveDiv, n: nat, i: nat)
    requires i < n <= |divs| <= MaxOptions
    ensures Lookup(Entries(divs, live, n), Letter(i)) == EntryAt(divs, live, i)
  {
    var prev := Entries(divs, live, n - 1);
    var last := EntryAt(divs, live, n - 1);
    var extra := EntriesStep(divs, live, n);
    LookupSnoc(prev, last, extra, Letter(i));
    LetterMonotone(i, n - 1);
    if i < n - 1 {
      EntriesLookupAt(divs, live, n - 1, i);
      assert last.Some? ==> last.value.key != Letter(i);
    } else {
      assert i == n - 1;
      EntriesLookupMiss(divs, live, n - 1, Letter(i));
      assert last == EntryAt(divs, live, i);
    }
  }

  /** A character that is not the letter of a position below `n` is not a key. */
  lemma EntriesLookupMiss(divs: seq<OptionDiv>, live: LiveDiv, n: nat, c: char)
    requires n <= |divs| <= MaxOptions
    requires !(0 <= LetterIndex(c) < n)
    ensures Lookup(Entries(divs, live, n), c) == None
  {
    EntriesKeys(divs, live, n);
    LookupAbsent(Entries(divs, live, n), c);
  }

  /** A key no entry carries finds nothing. */
  lemma {:induction false} LookupAbsent(entries: seq<OptionEntry>, c: char)
    requires forall e :: e in entries ==> e.key != c
    ensures Lookup(entries, c) == None
    decreases |entries|
  {
    if entries != [] {
      assert forall e :: e in entries[1..] ==> e in entries;
      LookupAbsent(entries[1..], c);
    }
  }

  /** What the `n`-th div adds to the entries of the ones before it. */
  lemma EntriesStep(divs: seq<OptionDiv>, live: LiveDiv, n: nat) returns (extra: seq<OptionEntry>)
    requires 0 < n <= |divs| <= MaxOptions
    ensures Entries(divs, live, n) == Entries(divs, live, n - 1) + extra
    ensures extra == if EntryAt(divs, live, n - 1).Some? then [EntryAt(divs, live, n - 1).value] else []
  {
    extra := match EntryAt(divs, live, n - 1) case None => [] case Some(e) => [e];
  }

  /** Looking a key up after appending at most one entry. */
  lemma LookupSnoc(prev: seq<OptionEntry>, last: Option<OptionEntry>, extra: seq<OptionEntry>, key: char)
    requires extra == if last.Some? then [last.value] else []
    ensures Lookup(prev + extra, key) ==
      if Lookup(prev, key).Some? then Lookup(prev, key)
      else if last.Some? && last.value.key == key then last
      else None
  {
    LookupAppend(prev, extra, key);
    if last.Some? {
      assert extra[1..] == [];
    }
  }

  lemma {:induction false} LookupAppend(a: seq<OptionEntry>, b: seq<OptionEntry>, key: char)
    ensures Lookup(a + b, key) == if Lookup(a, key).Some? then Lookup(a, key) else Lookup(b, key)
    decreases |a|
  {
    if a != [] {
      assert (a + b)[1..] == a[1..] + b;
      LookupAppend(a[1..], b, key);
    } else {
      assert a + b == b;
    }
  }

  /** Step 1 of the option loop: the option body, else the label without its letter, else the placeholder. */
  method ReadOptionText(d: OptionDiv, letter: char) returns (text: string)
    ensures text == OptionText(d, letter)
  {
    text := "";
    if d.body.Some? {
      text := d.body.value;
    }
    if text == [] && d.labelText.Some? {
      text := StripLabelPrefix(d.labelText.value);
    }
    if text == [] {
      text := Placeholder(letter);
    }
  }

  /** Step 2 of the option loop: the radio by `id`, falling back on the live radio at the same position. */
  method FindRadio(d: OptionDiv, i: nat, live: LiveDiv) returns (radio: Option<nat>)
    ensures radio == RadioFor(d, i, live)
  {
    radio := None;
    if d.radioId.Some? {
      if d.radioId.value in live.raising {
        return;   // caught by the handler around the whole step
      } else if d.radioId.value in live.ids {
        radio := Some(live.ids[d.radioId.value]);
      } else if i < |live.radios| {
        radio := Some(live.radios[i]);
      }
    } else if i < |live.radios| {
      radio := Some(live.radios[i]);
    }
  }

  /** `_extract_options`: one pass over the option divs, adding an entry only for those whose radio was found. */
  method ExtractOptions(divs: seq<OptionDiv>, live: LiveDiv) returns (entries: seq<OptionEntry>)
    requires |divs| <= MaxOptions
    ensures entries == Entries(divs, live, |divs|)
  {
    entries := [];
    if divs == [] {
      return;
    }
    var i := 0;
    while i < |divs|
      invariant 0 <= i <= |divs|
      invariant entries == Entries(divs, live, i)
    {
      var letter := Letter(i);
      var text := ReadOptionText(divs[i], letter);
      var radio := FindRadio(divs[i], i, live);
      if radio.Some? {
        entries := entries + [OptionEntry(letter, text, radio.value)];
      }
      i := i + 1;
    }
  }

  // ---------------------------------------------------------------------
  // The whole extraction
  // ---------------------------------------------------------------------

  /** Every container lists few enough options for `chr(65 + i)` to name them. */
  predicate WellSized(page: Page) {
    forall c :: c in page.containers ==> |c.options| <= MaxOptions
  }

  /** What `extract_question_data` returns when it does not return four Nones. */
  datatype QuestionData = QuestionData(number: Option<int>, text: string, options: seq<OptionEntry>, element: nat)

  /** `extract_question_data`, as a function of the snapshot. */
  function QuestionDataOf(page: Page): (r: Option<QuestionData>)
    requires WellSized(page)
    ensures r.Some? ==> page.ready && r.value.element < |page.live| && |r.value.options| <= MaxOptions
  {
    if !page.ready then None
    else
      var (c, e) := Active(page.containers, page.live);
      if c.None? || e.None? then None
      else
        var ct := page.containers[c.value];
        assert ct in page.containers;
        Some(QuestionData(QuestionNumber(page.progressStrong, ct), QuestionText(ct),
                          Entries(ct.options, page.live[e.value], |ct.options|), e.value))
  }

  /** `extract_question_data`: wait for the page, find the active question, read it. */
  method ExtractQuestionData(page: Page) returns (data: Option<QuestionData>)
    requires WellSized(page)
    ensures data == QuestionDataOf(page)
  {
    if !page.ready {
      return None;   // the readyState wait times out
    }
    var container, element := FindActiveQuestionElements(page.containers, page.live);
    if container.None? || element.None? {
      return None;
    }
    var ct := page.containers[container.value];
    assert ct in page.containers;
    var number := QuestionNumber(page.progressStrong, ct);
    var text := QuestionText(ct);
    var options := ExtractOptions(ct.options, page.live[element.value]);
    data := Some(QuestionData(number, text, options, element.value));
  }

  /**
   * Extracted data always come from the first container with a question
   * body, and the option letters are positions among that container's
   * option divs, in increasing order.
   */
  lemma QuestionDataShape(page: Page)
    requires WellSized(page)
    requires QuestionDataOf(page).Some?
    ensures FirstBodied(page.containers, 0).Some?
    ensures var c := page.containers[FirstBodied(page.containers, 0).value];
      var d := QuestionDataOf(page).value;
      |c.options| <= MaxOptions && KeysIncreasing(d.options) && d.text == QuestionText(c)
      && forall i :: 0 <= i < |c.options| ==> Lookup(d.options, Letter(i)) == EntryAt(c.options, page.live[d.element], i)
  {
    var c := page.containers[FirstBodied(page.containers, 0).value];
    assert c in page.containers;
    EntriesKeys(c.options, page.live[QuestionDataOf(page).value.element], |c.options|);
    EntriesLookup(c.options, page.live[QuestionDataOf(page).value.element], |c.options|);
  }
}

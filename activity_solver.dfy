/**
 * `activity_solver.py`: how many questions an activity has, the loop that
 * answers them one by one (extract, ask the model, click the option, press
 * "Próximo" or "Enviar respostas"), and the review of the corrected
 * activity. Every look at the browser is an observation supplied up front:
 * one `Attempt` per extraction attempt, one `ReviewStep` per reviewed
 * question; observations past the supplied ones fail.
 */
module ActivitySolver {
  import opened Wrappers
  import opened Text
  import opened Letters
  import opened PageSnapshot
  import opened QuestionExtractor
  import opened GeminiSolver

  // ---------------------------------------------------------------------
  // Number of questions
  // ---------------------------------------------------------------------

  /** The total used when neither the counter nor the containers tell it. */
  const DefaultTotal: nat := 5

  /** Where `(?:/|de)` ends when it is tried at `a`. */
  function SeparatorEnd(s: string, a: nat): (r: Option<nat>)
    ensures r.Some? ==> a < r.value <= |s|
  {
    if a < |s| && s[a] == '/' then Some(a + 1)
    else if a + 1 < |s| && s[a] == 'd' && s[a + 1] == 'e' then Some(a + 2)
    else None
  }

  /**
   * `(\d+)\s*(?:/|de)\s*(\d+)` tried at `p`: the value of the second group.
   * Every part is greedy and no shorter choice could let the rest match, so
   * the first choice of each part is the one the regular expression keeps.
   */
  function ProgressMatchAt(s: string, p: nat): Option<nat>
    requires p <= |s|
  {
    if p < |s| && IsDigit(s[p]) then
      var a := SpaceRunEnd(s, DigitRunEnd(s, p));
      match SeparatorEnd(s, a)
      case None => None
      case Some(b) =>
        var c := SpaceRunEnd(s, b);
        if c < |s| && IsDigit(s[c]) then
          var e := DigitRunEnd(s, c);
          assert forall k :: 0 <= k < e - c ==> s[c..e][k] == s[c + k];
          Some(DigitsValue(s[c..e]))
        else None
    else None
  }

  /** `re.search`: the match at the leftmost position from `p` on where there is one. */
  function SearchProgress(s: string, p: nat): Option<nat>
    requires p <= |s|
    decreases |s| - p
  {
    if p == |s| then None
    else match ProgressMatchAt(s, p)
      case Some(n) => Some(n)
      case None => SearchProgress(s, p + 1)
  }

  /** The search passes over text without digits. */
  lemma {:induction false} SearchSkipsText(s: string, p: nat, q: nat)
    requires p <= q <= |s|
    requires forall k :: p <= k < q ==> !IsDigit(s[k])
    ensures SearchProgress(s, p) == SearchProgress(s, q)
    decreases q - p
  {
    if p < q {
      SearchSkipsText(s, p + 1, q);
    }
  }

  /**
   * A counter whose text holds, from position `p` on, a run of digits (up to
   * `m`), any spaces (up to `a`), "/" or "de" (up to `b`), any spaces (up to
   * `c`) and a second run of digits (up to `e`), with no digit before `p`,
   * yields the number the second run spells.
   */
  lemma ProgressFraction(s: string, p: nat, m: nat, a: nat, b: nat, c: nat, e: nat)
    requires p < m <= a < b <= c < e <= |s|
    requires forall k :: 0 <= k < p ==> !IsDigit(s[k])
    requires forall k :: p <= k < m ==> IsDigit(s[k])
    requires forall k :: m <= k < a ==> IsSpace(s[k])
    requires (b == a + 1 && s[a] == '/') || (b == a + 2 && s[a] == 'd' && s[a + 1] == 'e')
    requires forall k :: b <= k < c ==> IsSpace(s[k])
    requires forall k :: c <= k < e ==> IsDigit(s[k])
    requires e == |s| || !IsDigit(s[e])
    ensures SearchProgress(s, 0) == Some(DigitsValue(s[c..e]))
  {
    SearchSkipsText(s, 0, p);
    FractionAt(s, p, m, a, b, c, e);
  }

  /** The same shape tried at `p` itself matches and keeps the second run. */
  lemma FractionAt(s: string, p: nat, m: nat, a: nat, b: nat, c: nat, e: nat)
    requires p < m <= a < b <= c < e <= |s|
    requires forall k :: p <= k < m ==> IsDigit(s[k])
    requires forall k :: m <= k < a ==> IsSpace(s[k])
    requires (b == a + 1 && s[a] == '/') || (b == a + 2 && s[a] == 'd' && s[a + 1] == 'e')
    requires forall k :: b <= k < c ==> IsSpace(s[k])
    requires forall k :: c <= k < e ==> IsDigit(s[k])
    requires e == |s| || !IsDigit(s[e])
    ensures ProgressMatchAt(s, p) == Some(DigitsValue(s[c..e]))
  {
    assert SpaceRunEnd(s, DigitRunEnd(s, p)) == a by {
      DigitRunEndAt(s, p, m);
      SpaceRunEndAt(s, m, a);
    }
    assert SeparatorEnd(s, a) == Some(b);
    assert SpaceRunEnd(s, b) == c by {
      SpaceRunEndAt(s, b, c);
    }
    assert DigitRunEnd(s, c) == e by {
      DigitRunEndAt(s, c, e);
    }
  }

  /**
   * `get_total_questions`: the counter's second number, else the number of
   * containers with a body, else 5; a failure reading the counter other than
   * its absence skips the containers and gives 5 at once.
   */
  function TotalQuestions(page: Page): nat {
    match page.counter
    case CounterRaised => DefaultTotal
    case CounterAbsent => ContainerTotal(page.containers)
    case CounterText(t) =>
      var counted := SearchProgress(Strip(t), 0);
      if counted.Some? then counted.value else ContainerTotal(page.containers)
  }

  /** The second step: the number of containers with a body, else the default. */
  function ContainerTotal(cs: seq<Container>): nat {
    if BodiedCount(cs) > 0 then BodiedCount(cs) else DefaultTotal
  }

  /** A counter that shows a fraction decides the total, whatever the containers say. */
  lemma TotalFromCounter(page: Page)
    requires page.counter.CounterText? && SearchProgress(Strip(page.counter.text), 0).Some?
    ensures TotalQuestions(page) == SearchProgress(Strip(page.counter.text), 0).value
  {
  }

  /** A counter that raised while being read gives the default, even when containers with a body are present. */
  lemma TotalWhenCounterRaised(page: Page)
    requires page.counter.CounterRaised?
    ensures TotalQuestions(page) == DefaultTotal
  {
  }

  /** Without a usable counter the total is positive: the containers with a body, or the default when there is none. */
  lemma TotalWithoutCounter(page: Page)
    requires page.counter.CounterAbsent? || (page.counter.CounterText? && SearchProgress(Strip(page.counter.text), 0).None?)
    ensures TotalQuestions(page) > 0
    ensures FirstBodied(page.containers, 0).None? ==> TotalQuestions(page) == DefaultTotal
    ensures FirstBodied(page.containers, 0).Some? ==> TotalQuestions(page) == BodiedCount(page.containers)
  {
    BodiedCountPositive(page.containers);
  }

  // ---------------------------------------------------------------------
  // Prompt options and the chosen entry
  // ---------------------------------------------------------------------

  /** Puts `e` before the first entry with a larger key. */
  function InsertByKey(e: OptionEntry, s: seq<OptionEntry>): (r: seq<OptionEntry>)
    ensures multiset(r) == multiset(s) + multiset{e}
    decreases |s|
  {
    if s == [] then [e]
    else if e.key <= s[0].key then [e] + s
    else
      assert s == [s[0]] + s[1..];
      [s[0]] + InsertByKey(e, s[1..])
  }

  /** The entries ordered by key: `sorted(options.keys())` paired with each key's entry. */
  function SortByKey(s: seq<OptionEntry>): (r: seq<OptionEntry>)
    ensures multiset(r) == multiset(s)
    decreases |s|
  {
    if s == [] then []
    else
      assert s == s[..|s| - 1] + [s[|s| - 1]];
      InsertByKey(s[|s| - 1], SortByKey(s[..|s| - 1]))
  }

  predicate KeysSorted(s: seq<OptionEntry>) {
    forall a, b :: 0 <= a < b < |s| ==> s[a].key <= s[b].key
  }

  lemma {:induction false} InsertKeepsSorted(e: OptionEntry, s: seq<OptionEntry>)
    requires KeysSorted(s)
    ensures KeysSorted(InsertByKey(e, s))
    decreases |s|
  {
    if s != [] && e.key > s[0].key {
      SortedTail(s);
      InsertKeepsSorted(e, s[1..]);
      var t := InsertByKey(e, s[1..]);
      // the head of `t` is `e` or `s[1]`, both keyed at least `s[0].key`
      assert t[0] == e || t[0] == s[1];
      SortedCons(s[0], t);
    }
  }

  lemma SortedTail(s: seq<OptionEntry>)
    requires s != [] && KeysSorted(s)
    ensures KeysSorted(s[1..])
  {
    forall a, b | 0 <= a < b < |s[1..]| ensures s[1..][a].key <= s[1..][b].key {
      assert s[1..][a] == s[a + 1] && s[1..][b] == s[b + 1];
    }
  }

  lemma SortedCons(h: OptionEntry, t: seq<OptionEntry>)
    requires KeysSorted(t) && (t != [] ==> h.key <= t[0].key)
    ensures KeysSorted([h] + t)
  {
    var r := [h] + t;
    forall a, b | 0 <= a < b < |r| ensures r[a].key <= r[b].key {
      assert r[b] == t[b - 1];
      if a > 0 {
        assert r[a] == t[a - 1];
      }
    }
  }

  /** `SortByKey` orders the keys and keeps every entry: it is a sort. */
  lemma {:induction false} SortByKeySorts(s: seq<OptionEntry>)
    ensures KeysSorted(SortByKey(s))
    ensures multiset(SortByKey(s)) == multiset(s)
    decreases |s|
  {
    if s != [] {
      SortByKeySorts(s[..|s| - 1]);
      InsertKeepsSorted(s[|s| - 1], SortByKey(s[..|s| - 1]));
    }
  }

  lemma {:induction false} InsertLargest(e: OptionEntry, s: seq<OptionEntry>)
    requires forall k :: 0 <= k < |s| ==> s[k].key < e.key
    ensures InsertByKey(e, s) == s + [e]
    decreases |s|
  {
    if s != [] {
      InsertLargest(e, s[1..]);
      assert s == [s[0]] + s[1..];
    }
  }

  /** Entries whose keys already increase are left in place. */
  lemma {:induction false} SortByKeyOfIncreasing(s: seq<OptionEntry>)
    requires KeysIncreasing(s)
    ensures SortByKey(s) == s
    decreases |s|
  {
    if s != [] {
      var init := s[..|s| - 1];
      SortByKeyOfIncreasing(init);
      InsertLargest(s[|s| - 1], init);
      assert init + [s[|s| - 1]] == s;
    }
  }

  function Texts(s: seq<OptionEntry>): (r: seq<string>)
    ensures |r| == |s|
  {
    seq(|s|, k requires 0 <= k < |s| => s[k].text)
  }

  /** The option texts sent to the model: `[q_options[key]["text"] for key in sorted(q_options.keys())]`. */
  function PromptOptions(options: seq<OptionEntry>): (r: seq<string>)
    ensures |r| == |options|
  {
    assert |multiset(SortByKey(options))| == |multiset(options)|;
    Texts(SortByKey(options))
  }

  /** The entry the model meant by `c`: the one whose text it was shown under that letter. */
  function ResolvePromptLetter(options: seq<OptionEntry>, c: char): (r: Option<OptionEntry>)
    ensures r.Some? ==> r.value in options
  {
    var sorted := SortByKey(options);
    if 0 <= LetterIndex(c) < |sorted| then
      assert sorted[LetterIndex(c)] in multiset(options);
      Some(sorted[LetterIndex(c)])
    else None
  }

  /** The corrected resolution clicks the very entry whose text was shown under the chosen letter. */
  lemma ResolveMatchesPrompt(options: seq<OptionEntry>, k: nat)
    requires k < |options| <= MaxOptions
    ensures ResolvePromptLetter(options, Letter(k)).Some?
    ensures ResolvePromptLetter(options, Letter(k)).value.text == PromptOptions(options)[k]
  {
    assert |multiset(SortByKey(options))| == |multiset(options)|;
  }

  /** One look at the question: the page, the model's replies, whether the option got selected and whether the button after it got clicked. */
  datatype Attempt = Attempt(page: Page, replies: seq<Reply>, selected: bool, clicked: bool)

  /** The `k`-th attempt; past the supplied ones nothing loads and every call fails. */
  function AttemptAt(attempts: seq<Attempt>, k: nat): Attempt {
    if k < |attempts| then attempts[k] else Attempt(Blank, [], false, false)
  }

  predicate AllWellSized(attempts: seq<Attempt>) {
    forall k :: 0 <= k < |attempts| ==> WellSized(attempts[k].page)
  }

  lemma AttemptWellSized(attempts: seq<Attempt>, k: nat)
    requires AllWellSized(attempts)
    ensures WellSized(AttemptAt(attempts, k).page)
  {
  }

  /** The outcome of every supplied attempt, in order, with the model's letter resolved as `how` says. */
  function Outcomes(how: Resolution, attempts: seq<Attempt>, apiKey: Option<string>): (r: seq<Option<OptionEntry>>)
    requires AllWellSized(attempts)
    ensures |r| == |attempts|
    decreases |attempts|
  {
    if attempts == [] then []
    else Outcomes(how, attempts[..|attempts| - 1], apiKey) + [AnswerOf(how, attempts[|attempts| - 1], apiKey)]
  }

  /** The `k`-th outcome; attempts past the supplied ones fail. */
  function OutcomeAt(outcomes: seq<Option<OptionEntry>>, k: nat): Option<OptionEntry> {
    if k < |outcomes| then outcomes[k] else None
  }

  /** The `k`-th outcome is what the `k`-th attempt gives, past the supplied ones too. */
  lemma {:induction false} OutcomeAtAttempt(how: Resolution, attempts: seq<Attempt>, apiKey: Option<string>, k: nat)
    requires AllWellSized(attempts)
    ensures WellSized(AttemptAt(attempts, k).page)
    ensures OutcomeAt(Outcomes(how, attempts, apiKey), k) == AnswerOf(how, AttemptAt(attempts, k), apiKey)
    decreases |attempts|
  {
    if k >= |attempts| {
      BlankAttemptFails(how, apiKey);
    } else if k < |attempts| - 1 {
      var init := attempts[..|attempts| - 1];
      OutcomeAtAttempt(how, init, apiKey, k);
      assert AttemptAt(init, k) == AttemptAt(attempts, k);
      OutcomesPrefix(how, attempts, apiKey, k);
    }
  }

  /** An earlier outcome does not depend on the last attempt. */
  lemma OutcomesPrefix(how: Resolution, attempts: seq<Attempt>, apiKey: Option<string>, k: nat)
    requires AllWellSized(attempts) && k < |attempts| - 1
    ensures OutcomeAt(Outcomes(how, attempts, apiKey), k) == OutcomeAt(Outcomes(how, attempts[..|attempts| - 1], apiKey), k)
  {
  }

  /** An attempt past the supplied ones loads nothing and so answers nothing. */
  lemma BlankAttemptFails(how: Resolution, apiKey: Option<string>)
    ensures WellSized(Blank)
    ensures AnswerOf(how, Attempt(Blank, [], false, false), apiKey) == None
  {
    assert QuestionDataOf(Blank) == None;
  }

  /** The extracted options and the model's letter, when the extraction gave text and options and the model answered. */
  function Consult(att: Attempt, apiKey: Option<string>): Option<(seq<OptionEntry>, char)>
    requires WellSized(att.page)
  {
    match QuestionDataOf(att.page)
    case None => None
    case Some(d) =>
      if d.text == [] || d.options == [] then None
      else match GeminiAnswer(apiKey, |PromptOptions(d.options)|, att.replies, DefaultRetries)
        case None => None
        case Some(c) => Some((d.options, c))
  }

  /**
   * How the model's letter names an entry: `ByKey` is the source's
   * `q_options[chosen_letter]`, guarded by `chosen_letter in q_options`;
   * `ByPrompt` takes the entry shown under that letter in the prompt.
   */
  datatype Resolution = ByKey | ByPrompt

  /** The entry the letter `c` names, or None for the "inválida" branch. */
  function Resolve(how: Resolution, options: seq<OptionEntry>, c: char): Option<OptionEntry> {
    match how
    case ByKey => Lookup(options, c)
    case ByPrompt => ResolvePromptLetter(options, c)
  }

  /** The entry one attempt selects: extraction and model succeed, the letter names an entry, and the click selects it. */
  function AnswerOf(how: Resolution, att: Attempt, apiKey: Option<string>): Option<OptionEntry>
    requires WellSized(att.page)
  {
    match Consult(att, apiKey)
    case None => None
    case Some((options, c)) =>
      match Resolve(how, options, c)
      case None => None
      case Some(e) => if att.selected then Some(e) else None
  }

  // ---------------------------------------------------------------------
  // The answering loop
  // ---------------------------------------------------------------------

  /** The inner `while retries < max_retries_per_question and not question_processed` loop, up to the selection of an option. */
  method AnswerQuestion(how: Resolution, attempts: seq<Attempt>, apiKey: Option<string>, from: nat, maxRetries: nat)
    returns (answer: Option<OptionEntry>, next: nat)
    requires AllWellSized(attempts)
    ensures from <= next <= from + maxRetries
    ensures answer.Some? ==> from < next && AnsweredFrom(Outcomes(how, attempts, apiKey), maxRetries, from, Answer(next - 1, answer.value))
    ensures answer.None? ==> next == from + maxRetries && AllFail(Outcomes(how, attempts, apiKey), from, next)
  {
    var outcomes := Outcomes(how, attempts, apiKey);
    answer := None;
    next := from;
    var retries := 0;
    while retries < maxRetries
      invariant retries <= maxRetries && next == from + retries && answer.None?
      invariant AllFail(outcomes, from, next)
    {
      var chosen := AttemptAnswer(how, attempts, apiKey, next);
      if chosen.Some? {
        answer := chosen;
        next := next + 1;
        break;
      }
      AllFailExtend(outcomes, from, next);
      next := next + 1;
      retries := retries + 1;
    }
  }

  /** The first half of the inner loop's body: extract the question and ask the model for a letter. */
  method ConsultModel(att: Attempt, apiKey: Option<string>) returns (consulted: Option<(seq<OptionEntry>, char)>)
    requires WellSized(att.page)
    ensures consulted == Consult(att, apiKey)
  {
    consulted := None;
    var data := ExtractQuestionData(att.page);
    if data.Some? && data.value.text != [] && data.value.options != [] {
      var letter, _, _ := SolveWithGemini(apiKey, data.value.text, PromptOptions(data.value.options), att.replies, DefaultRetries);
      if letter.Some? {
        consulted := Some((data.value.options, letter.value));
      }
    }
  }

  /** One pass of the inner loop's body: extract, consult the model, resolve its letter as `how` says and select the option. */
  method AttemptAnswer(how: Resolution, attempts: seq<Attempt>, apiKey: Option<string>, k: nat) returns (chosen: Option<OptionEntry>)
    requires AllWellSized(attempts)
    ensures chosen == OutcomeAt(Outcomes(how, attempts, apiKey), k)
  {
    var att := AttemptAt(attempts, k);
    OutcomeAtAttempt(how, attempts, apiKey, k);
    chosen := None;
    var consulted := ConsultModel(att, apiKey);
    if consulted.Some? {
      var entry := Resolve(how, consulted.value.0, consulted.value.1);
      if entry.Some? && att.selected {
        chosen := entry;
      }
    }
  }

  datatype Button = Next | Send

  /** The button pressed after the `j`-th answer (from 0): "Próximo" while questions remain, then "Enviar respostas". */
  function ButtonAfter(j: nat, total: nat): Button {
    if j + 1 < total then Next else Send
  }

  /** An answered question: the attempt that answered it and the entry clicked. */
  datatype Answer = Answer(attempt: nat, entry: OptionEntry)

  /** The first attempt available to the `j`-th question. */
  function StartOf(answers: seq<Answer>, j: nat): nat
    requires j <= |answers|
  {
    if j == 0 then 0 else answers[j - 1].attempt + 1
  }

  /** Every attempt in `[lo, hi)` came to nothing. */
  predicate AllFail(outcomes: seq<Option<OptionEntry>>, lo: nat, hi: nat) {
    forall k :: lo <= k < hi ==> OutcomeAt(outcomes, k).None?
  }

  lemma AllFailExtend(outcomes: seq<Option<OptionEntry>>, lo: nat, hi: nat)
    requires AllFail(outcomes, lo, hi) && OutcomeAt(outcomes, hi).None?
    ensures AllFail(outcomes, lo, hi + 1)
  {
  }

  /** `a` is the first successful attempt among the `maxRetries` from `start` on. */
  predicate AnsweredFrom(outcomes: seq<Option<OptionEntry>>, maxRetries: nat, start: nat, a: Answer) {
    start <= a.attempt < start + maxRetries
    && OutcomeAt(outcomes, a.attempt) == Some(a.entry)
    && AllFail(outcomes, start, a.attempt)
  }

  /**
   * Each question was answered by the first successful attempt among the
   * `maxRetries` that follow the attempt that answered the question before.
   */
  predicate Chronicle(outcomes: seq<Option<OptionEntry>>, maxRetries: nat, answers: seq<Answer>) {
    forall j {:trigger StartOf(answers, j)} :: 0 <= j < |answers| ==> AnsweredFrom(outcomes, maxRetries, StartOf(answers, j), answers[j])
  }

  /** Appending the answer to the next question keeps the chronicle. */
  lemma ChronicleExtend(outcomes: seq<Option<OptionEntry>>, maxRetries: nat, answers: seq<Answer>, a: Answer)
    requires Chronicle(outcomes, maxRetries, answers)
    requires AnsweredFrom(outcomes, maxRetries, StartOf(answers, |answers|), a)
    ensures Chronicle(outcomes, maxRetries, answers + [a])
  {
    var ext := answers + [a];
    forall j | 0 <= j < |ext|
      ensures AnsweredFrom(outcomes, maxRetries, StartOf(ext, j), ext[j])
    {
      if j < |answers| {
        assert ext[j] == answers[j];
        assert StartOf(ext, j) == StartOf(answers, j);
      } else {
        assert ext[j] == a;
        assert StartOf(ext, j) == StartOf(answers, j);
      }
    }
  }

  /** How the activity ends once every question is answered: the confirmation popup, the results, and the review. */
  datatype Finish = Finish(confirmed: bool, resultsShown: bool, review: seq<ReviewStep>)

  /** What `analyze_completed_activity` found. */
  datatype Analysis = Analysis(ok: bool, correct: nat, incorrect: nat, unknown: nat, visited: nat)

  /**
   * `solve_activity_questions`: answers the questions in order, pressing the
   * right button after each, and reviews the activity only when all were
   * answered and submitted. With `ByKey` it is the program as written; with
   * `ByPrompt`, the program with its letter resolution corrected.
   */
  method SolveActivityQuestions(how: Resolution, start: Page, apiKey: Option<string>, attempts: seq<Attempt>, maxRetries: nat, finish: Finish)
    returns (successful: bool, total: nat, answers: seq<Answer>, buttons: seq<Button>, analysis: Option<Analysis>)
    requires AllWellSized(attempts)
    ensures total == TotalQuestions(start)
    ensures |answers| <= total && |buttons| == |answers|
    ensures forall j :: 0 <= j < |buttons| ==> buttons[j] == ButtonAfter(j, total)
    ensures Chronicle(Outcomes(how, attempts, apiKey), maxRetries, answers)
    ensures forall j :: 0 <= j < |answers| - 1 ==> AttemptAt(attempts, answers[j].attempt).clicked
    ensures analysis.Some? <==>
      (|answers| == total && (total == 0 || AttemptAt(attempts, answers[total - 1].attempt).clicked)
       && finish.confirmed && finish.resultsShown)
    ensures analysis.Some? ==> successful == analysis.value.ok
    ensures analysis.Some? ==> analysis.value.correct == CountVerdict(finish.review, analysis.value.visited, Correct)
    ensures analysis.Some? ==> analysis.value.incorrect == CountVerdict(finish.review, analysis.value.visited, Incorrect)
    ensures analysis.Some? ==> analysis.value.unknown == CountVerdict(finish.review, analysis.value.visited, Unknown)
    ensures analysis.Some? ==> (analysis.value.ok <==> analysis.value.visited == total)
    ensures analysis.None? ==> !successful
    ensures |answers| < total && (|answers| == 0 || AttemptAt(attempts, answers[|answers| - 1].attempt).clicked) ==>
      AllFail(Outcomes(how, attempts, apiKey), StartOf(answers, |answers|), StartOf(answers, |answers|) + maxRetries)
  {
    total := TotalQuestions(start);
    successful, answers, buttons := AnswerAll(how, attempts, apiKey, total, maxRetries);
    analysis := None;
    if successful {
      successful, analysis := FinishActivity(total, start, finish);
    }
  }

  /** The outer `while answered_count < total_questions` loop; it stops at the first question left unanswered or whose button could not be clicked. */
  method AnswerAll(how: Resolution, attempts: seq<Attempt>, apiKey: Option<string>, total: nat, maxRetries: nat)
    returns (successful: bool, answers: seq<Answer>, buttons: seq<Button>)
    requires AllWellSized(attempts)
    ensures |answers| <= total && |buttons| == |answers|
    ensures forall j :: 0 <= j < |buttons| ==> buttons[j] == ButtonAfter(j, total)
    ensures Chronicle(Outcomes(how, attempts, apiKey), maxRetries, answers)
    ensures forall j :: 0 <= j < |answers| - 1 ==> AttemptAt(attempts, answers[j].attempt).clicked
    ensures successful <==> |answers| == total && (total == 0 || AttemptAt(attempts, answers[total - 1].attempt).clicked)
    ensures |answers| < total && (|answers| == 0 || AttemptAt(attempts, answers[|answers| - 1].attempt).clicked) ==>
      AllFail(Outcomes(how, attempts, apiKey), StartOf(answers, |answers|), StartOf(answers, |answers|) + maxRetries)
  {
    successful := true;
    answers, buttons := [], [];
    while |answers| < total
      invariant |answers| <= total && |buttons| == |answers| && successful
      invariant forall j :: 0 <= j < |buttons| ==> buttons[j] == ButtonAfter(j, total)
      invariant Chronicle(Outcomes(how, attempts, apiKey), maxRetries, answers)
      invariant forall j :: 0 <= j < |answers| ==> AttemptAt(attempts, answers[j].attempt).clicked
    {
      var a := AnswerNext(how, attempts, apiKey, maxRetries, answers);
      if a.None? {
        successful := false;
        break;
      }
      answers := answers + [a.value];
      buttons := buttons + [if |answers| < total then Next else Send];
      if !AttemptAt(attempts, a.value.attempt).clicked {
        successful := false;
        break;
      }
    }
  }

  /** One question of the outer loop: its answer extends the chronicle, or every attempt it had failed. */
  method AnswerNext(how: Resolution, attempts: seq<Attempt>, apiKey: Option<string>, maxRetries: nat, answers: seq<Answer>)
    returns (a: Option<Answer>)
    requires AllWellSized(attempts)
    requires Chronicle(Outcomes(how, attempts, apiKey), maxRetries, answers)
    ensures a.Some? ==> Chronicle(Outcomes(how, attempts, apiKey), maxRetries, answers + [a.value])
    ensures a.None? ==>
      AllFail(Outcomes(how, attempts, apiKey), StartOf(answers, |answers|), StartOf(answers, |answers|) + maxRetries)
  {
    var entry, next := AnswerQuestion(how, attempts, apiKey, StartOf(answers, |answers|), maxRetries);
    if entry.None? {
      return None;
    }
    ChronicleExtend(Outcomes(how, attempts, apiKey), maxRetries, answers, Answer(next - 1, entry.value));
    a := Some(Answer(next - 1, entry.value));
  }

  /** After the last answer: the confirmation popup, the results, then the review of all `total` questions. */
  method FinishActivity(total: nat, start: Page, finish: Finish) returns (successful: bool, analysis: Option<Analysis>)
    ensures analysis.Some? <==> finish.confirmed && finish.resultsShown
    ensures analysis.Some? ==> successful == analysis.value.ok
    ensures analysis.Some? ==> analysis.value.correct == CountVerdict(finish.review, analysis.value.visited, Correct)
    ensures analysis.Some? ==> analysis.value.incorrect == CountVerdict(finish.review, analysis.value.visited, Incorrect)
    ensures analysis.Some? ==> analysis.value.unknown == CountVerdict(finish.review, analysis.value.visited, Unknown)
    ensures analysis.Some? ==> (analysis.value.ok <==> analysis.value.visited == total)
    ensures analysis.None? ==> !successful
  {
    if !finish.confirmed || !finish.resultsShown {
      return false, None;
    }
    var ok, correct, incorrect, unknown, visited := AnalyzeCompletedActivity(Some(total), start, finish.review);
    analysis := Some(Analysis(ok, correct, incorrect, unknown, visited));
    successful := ok;
  }

  // ---------------------------------------------------------------------
  // Reviewing a corrected activity
  // ---------------------------------------------------------------------

  datatype Verdict = Correct | Incorrect | Unknown

  /** `analyze_single_completed_question`: the marks of the first container with a body; a right mark wins over a wrong one. */
  function Classify(page: Page): Verdict {
    match FirstBodied(page.containers, 0)
    case None => Unknown
    case Some(i) =>
      var c := page.containers[i];
      if c.rightMark || c.rightWrapper then Correct
      else if c.wrongMark || c.wrongWrapper then Incorrect
      else Unknown
  }

  /** A container is judged only when no earlier container has a body. */
  predicate JudgedAt(page: Page, i: nat) {
    i < |page.containers| && page.containers[i].body.Some?
    && forall j :: 0 <= j < i ==> page.containers[j].body.None?
  }

  /** The verdict in terms of the judged container's marks, both directions. */
  lemma ClassifyMeaning(page: Page)
    ensures Classify(page) == Correct <==>
      exists i: nat :: JudgedAt(page, i) && (page.containers[i].rightMark || page.containers[i].rightWrapper)
    ensures Classify(page) == Incorrect <==>
      exists i: nat :: JudgedAt(page, i) && !page.containers[i].rightMark && !page.containers[i].rightWrapper
                  && (page.containers[i].wrongMark || page.containers[i].wrongWrapper)
  {
    FirstBodiedIsLeftmost(page.containers, 0);
    forall i: nat | JudgedAt(page, i) ensures FirstBodied(page.containers, 0) == Some(i) {
      FirstBodiedAt(page.containers, i);
    }
  }

  /** One reviewed question: the page shown, and whether "Próximo" could be clicked after it. */
  datatype ReviewStep = ReviewStep(page: Page, nextOk: bool)

  function StepAt(steps: seq<ReviewStep>, i: nat): ReviewStep {
    if i < |steps| then steps[i] else ReviewStep(Blank, false)
  }

  /** How many of the first `n` reviewed questions got verdict `v`. */
  function CountVerdict(steps: seq<ReviewStep>, n: nat, v: Verdict): nat {
    if n == 0 then 0 else CountVerdict(steps, n - 1, v) + (if Classify(StepAt(steps, n - 1).page) == v then 1 else 0)
  }

  /** Every reviewed question is counted exactly once. */
  lemma {:induction false} CountPartition(steps: seq<ReviewStep>, n: nat)
    ensures CountVerdict(steps, n, Correct) + CountVerdict(steps, n, Incorrect) + CountVerdict(steps, n, Unknown) == n
  {
    if n > 0 {
      CountPartition(steps, n - 1);
    }
  }

  /**
   * `analyze_completed_activity`: classifies each question and clicks
   * "Próximo" after all but the last, stopping at the first click that
   * fails. Also returns how many questions were reviewed.
   */
  method AnalyzeCompletedActivity(totalGiven: Option<nat>, page: Page, steps: seq<ReviewStep>)
    returns (ok: bool, correct: nat, incorrect: nat, unknown: nat, visited: nat)
    ensures var total := if totalGiven.Some? then totalGiven.value else TotalQuestions(page);
      visited <= total && (ok <==> visited == total)
      && (forall j :: 0 <= j < visited - 1 ==> StepAt(steps, j).nextOk)
      && (!ok ==> visited > 0 && !StepAt(steps, visited - 1).nextOk)
    ensures correct == CountVerdict(steps, visited, Correct)
    ensures incorrect == CountVerdict(steps, visited, Incorrect)
    ensures unknown == CountVerdict(steps, visited, Unknown)
    ensures correct + incorrect + unknown == visited
  {
    var total := if totalGiven.Some? then totalGiven.value else TotalQuestions(page);
    ok, correct, incorrect, unknown, visited := ReviewAll(total, steps);
  }

  /** The review loop over `total` questions. */
  method ReviewAll(total: nat, steps: seq<ReviewStep>)
    returns (ok: bool, correct: nat, incorrect: nat, unknown: nat, visited: nat)
    ensures visited <= total && (ok <==> visited == total)
    ensures forall j :: 0 <= j < visited - 1 ==> StepAt(steps, j).nextOk
    ensures !ok ==> visited > 0 && !StepAt(steps, visited - 1).nextOk
    ensures correct == CountVerdict(steps, visited, Correct)
    ensures incorrect == CountVerdict(steps, visited, Incorrect)
    ensures unknown == CountVerdict(steps, visited, Unknown)
    ensures correct + incorrect + unknown == visited
  {
    correct, incorrect, unknown := 0, 0, 0;
    ok := true;
    visited := 0;
    for i := 0 to total
      invariant visited == i && ok
      invariant correct == CountVerdict(steps, i, Correct)
      invariant incorrect == CountVerdict(steps, i, Incorrect)
      invariant unknown == CountVerdict(steps, i, Unknown)
      invariant forall j :: 0 <= j < i ==> StepAt(steps, j).nextOk || j == total - 1
    {
      var step := StepAt(steps, i);
      var verdict := Classify(step.page);
      if verdict == Correct {
        correct := correct + 1;
      } else if verdict == Incorrect {
        incorrect := incorrect + 1;
      } else {
        unknown := unknown + 1;
      }
      visited := i + 1;
      if i < total - 1 && !step.nextOk {
        ok := false;
        break;
      }
    }
    CountPartition(steps, visited);
  }
}

/**
 * The option letters of two files meet in the answering loop. The scraper
 * keys each option by the position of its `div.option` among all of them,
 * dropping the options whose radio it cannot find, so the keys can skip
 * letters. The prompt re-letters the surviving options A, B, C… in key
 * order. The loop then looks the model's prompt letter up among the keys.
 * The two agree exactly when the keys run A, B, C… without a gap.
 */
module Relettering {
  import opened Wrappers
  import opened Letters
  import opened PageSnapshot
  import opened QuestionExtractor
  import opened ActivitySolver

  /** The keys run A, B, C… with no letter skipped. */
  predicate Contiguous(entries: seq<OptionEntry>)
    requires |entries| <= MaxOptions
  {
    forall j :: 0 <= j < |entries| ==> entries[j].key == Letter(j)
  }

  /** With distinct increasing keys, looking up the key of an entry finds that entry. */
  lemma {:induction false} LookupOwnKey(entries: seq<OptionEntry>, k: nat)
    requires KeysIncreasing(entries) && k < |entries|
    ensures Lookup(entries, entries[k].key) == Some(entries[k])
    decreases |entries|
  {
    if k > 0 {
      assert entries[0].key < entries[k].key;
      assert KeysIncreasing(entries[1..]) by {
        forall a, b | 0 <= a < b < |entries[1..]| ensures entries[1..][a].key < entries[1..][b].key {
          assert entries[1..][a] == entries[a + 1] && entries[1..][b] == entries[b + 1];
        }
      }
      LookupOwnKey(entries[1..], k - 1);
    }
  }

  /** Contiguous keys increase. */
  lemma ContiguousIncreasing(entries: seq<OptionEntry>)
    requires |entries| <= MaxOptions && Contiguous(entries)
    ensures KeysIncreasing(entries)
  {
    forall a, b | 0 <= a < b < |entries| ensures entries[a].key < entries[b].key {
      LetterMonotone(a, b);
    }
  }

  /** With contiguous keys, only the letters of the entries find anything. */
  lemma LookupInRange(entries: seq<OptionEntry>, c: char)
    requires |entries| <= MaxOptions && Contiguous(entries)
    ensures Lookup(entries, c).Some? ==> 0 <= LetterIndex(c) < |entries|
  {
    if Lookup(entries, c).Some? {
      var j :| 0 <= j < |entries| && entries[j] == Lookup(entries, c).value;
      LetterMonotone(j, j);
    }
  }

  /** With contiguous keys, one reply letter names the same entry both ways. */
  lemma ContiguousAgreesAt(entries: seq<OptionEntry>, c: char)
    requires |entries| <= MaxOptions && Contiguous(entries)
    requires KeysIncreasing(entries) && SortByKey(entries) == entries
    ensures Lookup(entries, c) == ResolvePromptLetter(entries, c)
  {
    LookupInRange(entries, c);
    var k := LetterIndex(c);
    if 0 <= k < |entries| {
      assert c == Letter(k);
      LookupOwnKey(entries, k);
    }
  }

  /** With contiguous keys, the letter the model sees names the entry the lookup finds, for every reply. */
  lemma ContiguousAgrees(entries: seq<OptionEntry>)
    requires |entries| <= MaxOptions && Contiguous(entries)
    ensures forall c: char :: Lookup(entries, c) == ResolvePromptLetter(entries, c)
  {
    ContiguousIncreasing(entries);
    SortByKeyOfIncreasing(entries);
    forall c: char ensures Lookup(entries, c) == ResolvePromptLetter(entries, c) {
      ContiguousAgreesAt(entries, c);
    }
  }

  /**
   * Agreement on the prompt letters forces contiguous keys: whenever a
   * letter is skipped, some letter the model may answer names a different
   * entry in the prompt than in the dictionary.
   */
  lemma AgreementNeedsContiguous(entries: seq<OptionEntry>)
    requires |entries| <= MaxOptions && KeysIncreasing(entries)
    requires forall k :: 0 <= k < |entries| ==> Lookup(entries, Letter(k)) == ResolvePromptLetter(entries, Letter(k))
    ensures Contiguous(entries)
  {
    SortByKeyOfIncreasing(entries);
    forall j | 0 <= j < |entries| ensures entries[j].key == Letter(j) {
      LetterMonotone(j, j);
      assert ResolvePromptLetter(entries, Letter(j)) == Some(entries[j]);
    }
  }

  /** Both directions: the dictionary lookup matches the prompt exactly when the keys have no gap. */
  lemma LetteringAgreement(entries: seq<OptionEntry>)
    requires |entries| <= MaxOptions && KeysIncreasing(entries)
    ensures Contiguous(entries) <==>
      forall k :: 0 <= k < |entries| ==> Lookup(entries, Letter(k)) == ResolvePromptLetter(entries, Letter(k))
  {
    if Contiguous(entries) {
      ContiguousAgrees(entries);
    } else if forall k :: 0 <= k < |entries| ==> Lookup(entries, Letter(k)) == ResolvePromptLetter(entries, Letter(k)) {
      AgreementNeedsContiguous(entries);
    }
  }

  /** When every option div has a radio, no letter is skipped. */
  lemma {:induction false} AllRadiosContiguous(divs: seq<OptionDiv>, live: LiveDiv, n: nat)
    requires n <= |divs| <= MaxOptions
    requires forall i :: 0 <= i < n ==> RadioFor(divs[i], i, live).Some?
    ensures |Entries(divs, live, n)| == n
    ensures Contiguous(Entries(divs, live, n))
  {
    if n > 0 {
      AllRadiosContiguous(divs, live, n - 1);
      var prev := Entries(divs, live, n - 1);
      var last := EntryAt(divs, live, n - 1);
      assert Entries(divs, live, n) == prev + [last.value];
    }
  }

  /** No option div's radio id is one whose lookup raises. */
  predicate NoLookupRaises(divs: seq<OptionDiv>, live: LiveDiv) {
    forall i :: 0 <= i < |divs| && divs[i].radioId.Some? ==> divs[i].radioId.value !in live.raising
  }

  /**
   * When no id lookup raises, enough live radios for every option div leave
   * no gap: a gap then needs fewer radios than option divs.
   */
  lemma EnoughRadiosContiguous(divs: seq<OptionDiv>, live: LiveDiv)
    requires |divs| <= |live.radios| && |divs| <= MaxOptions
    requires NoLookupRaises(divs, live)
    ensures Contiguous(Entries(divs, live, |divs|))
  {
    AllRadiosContiguous(divs, live, |divs|);
  }

  /** An id lookup that raises drops its option, however many live radios there are: its letter is skipped. */
  lemma RaisingLookupSkipsLetter(divs: seq<OptionDiv>, live: LiveDiv, i: nat)
    requires i < |divs| <= MaxOptions
    requires divs[i].radioId.Some? && divs[i].radioId.value in live.raising
    ensures EntryAt(divs, live, i) == None
    ensures Lookup(Entries(divs, live, |divs|), Letter(i)) == None
  {
    EntriesLookupAt(divs, live, |divs|, i);
  }

  /** The attempt's extracted options, when there are any, are keyed without a gap. */
  predicate ContiguousAttempt(att: Attempt)
    requires WellSized(att.page)
  {
    QuestionDataOf(att.page).Some? ==> Contiguous(QuestionDataOf(att.page).value.options)
  }

  /** With gap-free keys, one attempt selects the same entry whichever way its letter is resolved. */
  lemma AsWrittenAgreesWhenContiguous(att: Attempt, apiKey: Option<string>)
    requires WellSized(att.page) && ContiguousAttempt(att)
    ensures AnswerOf(ByKey, att, apiKey) == AnswerOf(ByPrompt, att, apiKey)
  {
    if QuestionDataOf(att.page).Some? {
      var options := QuestionDataOf(att.page).value.options;
      ContiguousAgrees(options);
      assert forall c :: Resolve(ByKey, options, c) == Resolve(ByPrompt, options, c);
    }
  }

  /** When every attempt's keys are gap-free, the loop as written and the corrected loop see the same outcomes. */
  lemma {:induction false} OutcomesAgreeWhenContiguous(attempts: seq<Attempt>, apiKey: Option<string>)
    requires AllWellSized(attempts)
    requires forall k :: 0 <= k < |attempts| ==> ContiguousAttempt(attempts[k])
    ensures Outcomes(ByKey, attempts, apiKey) == Outcomes(ByPrompt, attempts, apiKey)
    decreases |attempts|
  {
    if attempts != [] {
      var init := attempts[..|attempts| - 1];
      assert forall k :: 0 <= k < |init| ==> init[k] == attempts[k];
      OutcomesAgreeWhenContiguous(init, apiKey);
      AsWrittenAgreesWhenContiguous(attempts[|attempts| - 1], apiKey);
    }
  }

  /**
   * The answering loop's guarantees are stated over its outcomes, so with
   * gap-free keys throughout, whatever record of answers and failures one
   * resolution produces, the other produces as well.
   */
  lemma LoopsAgreeWhenContiguous(attempts: seq<Attempt>, apiKey: Option<string>, maxRetries: nat, answers: seq<Answer>, lo: nat, hi: nat)
    requires AllWellSized(attempts)
    requires forall k :: 0 <= k < |attempts| ==> ContiguousAttempt(attempts[k])
    ensures Chronicle(Outcomes(ByKey, attempts, apiKey), maxRetries, answers) <==>
            Chronicle(Outcomes(ByPrompt, attempts, apiKey), maxRetries, answers)
    ensures AllFail(Outcomes(ByKey, attempts, apiKey), lo, hi) <==> AllFail(Outcomes(ByPrompt, attempts, apiKey), lo, hi)
  {
    OutcomesAgreeWhenContiguous(attempts, apiKey);
  }

  /** Entries whose keys increase are shown in their own order, and prompt letter `k` names the `k`-th. */
  lemma IncreasingPrompt(entries: seq<OptionEntry>)
    requires |entries| <= MaxOptions && KeysIncreasing(entries)
    ensures PromptOptions(entries) == Texts(entries)
    ensures forall k :: 0 <= k < |entries| ==> ResolvePromptLetter(entries, Letter(k)) == Some(entries[k])
  {
    SortByKeyOfIncreasing(entries);
    forall k | 0 <= k < |entries| ensures ResolvePromptLetter(entries, Letter(k)) == Some(entries[k]) {
      LetterMonotone(k, k);
    }
  }

  /**
   * Five option divs; the first three have no radio input in the parsed
   * page, the last two have radios `r3` and `r4`.
   */
  const GapDivs: seq<OptionDiv> := [
    OptionDiv(Some("p"), None, None),
    OptionDiv(Some("q"), None, None),
    OptionDiv(Some("r"), None, None),
    OptionDiv(Some("s"), None, Some("r3")),
    OptionDiv(Some("t"), None, Some("r4"))]

  /** The live container holds exactly those two radios and finds each by its id. */
  const GapLive: LiveDiv := LiveDiv(true, [13, 14], map["r3" := 13, "r4" := 14], {})

  /**
   * What the scraper keeps: "p" and "q" take the two live radios by
   * position, "r" finds none, "s" and "t" find theirs by id. Keys A, B, D, E.
   */
  const GapEntries: seq<OptionEntry> := [
    OptionEntry('A', "p", 13), OptionEntry('B', "q", 14), OptionEntry('D', "s", 13), OptionEntry('E', "t", 14)]

  lemma GapEntriesExtracted()
    ensures Consistent(GapLive)
    ensures Entries(GapDivs, GapLive, 5) == GapEntries
  {
    assert EntryAt(GapDivs, GapLive, 0) == Some(GapEntries[0]);
    assert EntryAt(GapDivs, GapLive, 1) == Some(GapEntries[1]);
    assert EntryAt(GapDivs, GapLive, 2) == None;
    assert EntryAt(GapDivs, GapLive, 3) == Some(GapEntries[2]);
    assert EntryAt(GapDivs, GapLive, 4) == Some(GapEntries[3]);
  }

  /** The prompt shows the kept texts in key order, and its third and fourth letters name "s" and "t". */
  lemma GapPrompt()
    ensures PromptOptions(GapEntries) == ["p", "q", "s", "t"]
    ensures ResolvePromptLetter(GapEntries, 'C') == Some(OptionEntry('D', "s", 13))
    ensures ResolvePromptLetter(GapEntries, 'D') == Some(OptionEntry('E', "t", 14))
  {
    GapKeys();
    IncreasingPrompt(GapEntries);
    assert Letter(2) == 'C' && Letter(3) == 'D';
    GapTexts();
  }

  lemma GapKeys()
    ensures KeysIncreasing(GapEntries)
  {
    GapEntriesExtracted();
    EntriesKeys(GapDivs, GapLive, 5);
  }

  lemma GapTexts()
    ensures Texts(GapEntries) == ["p", "q", "s", "t"]
  {
    var t := Texts(GapEntries);
    assert t[0] == "p" && t[1] == "q" && t[2] == "s" && t[3] == "t";
  }

  /** The dictionary has no key C, and its key D is "s". */
  lemma GapLookups()
    ensures Lookup(GapEntries, 'C') == None
    ensures Lookup(GapEntries, 'D') == Some(OptionEntry('D', "s", 13))
  {
    GapEntriesExtracted();
    assert Letter(2) == 'C' && Letter(3) == 'D';
    EntriesLookupAt(GapDivs, GapLive, 5, 2);
    EntriesLookupAt(GapDivs, GapLive, 5, 3);
  }

  /**
   * On that consistent page the prompt shows "A. p", "B. q", "C. s" and
   * "D. t". A reply "C" for "s" finds no key and wastes the attempt; a
   * reply "D" for "t" makes the loop click "s".
   */
  lemma GapCounterexample()
    ensures Consistent(GapLive)
    ensures Entries(GapDivs, GapLive, 5) == GapEntries
    ensures PromptOptions(GapEntries) == ["p", "q", "s", "t"]
    ensures ResolvePromptLetter(GapEntries, 'C') == Some(OptionEntry('D', "s", 13))
    ensures Lookup(GapEntries, 'C') == None
    ensures ResolvePromptLetter(GapEntries, 'D') == Some(OptionEntry('E', "t", 14))
    ensures Lookup(GapEntries, 'D') == Some(OptionEntry('D', "s", 13))
  {
    GapEntriesExtracted();
    GapPrompt();
    GapLookups();
  }
}

# fckMultiversa in Dafny

fckMultiversa drives a browser through a Moodle site and the external
exercise platform behind it. It answers multiple-choice questions by asking
the Gemini language model. This project models the decision logic of that
program:

- the course-selection dialogue and the dashboard URL (`main.py`);
- reading the credentials from the environment (`config.py`);
- extracting the course list from the dashboard (`dashboard_parser.py`);
- opening an activity from its `onclick` link (`activity_navigator.py`);
- reading the visible question: active container, number, text and lettered
  options (`question_extractor.py`);
- building the prompt and reading the letter out of the model's reply
  (`gemini_solver.py`);
- the answering loop with its retries, the "Próximo"/"Enviar respostas"
  buttons, and the question-by-question analysis of the results
  (`activity_solver.py`).

The browser, the keyboard and the language model are not modelled; they
are oracles. A page is a snapshot datatype holding what BeautifulSoup and
Selenium would report (`PageSnapshot`). The user's typed lines are a
sequence of strings. The model's replies are a sequence of `Reply` values.
Each extraction attempt of the answering loop is an `Attempt` record. An
observation asked for past the end of its sequence reads as a blank page,
a raised call or a failed wait.

Modules, one per file: `Wrappers`/`Text` (text.dfy, the Python string
operations used), `Letters`, `PageSnapshot`, `Config`, `CourseSelection`,
`DashboardParser`, `ActivityNavigator`, `QuestionExtractor`, `GeminiSolver`,
`ActivitySolver`, and `Relettering` (how the letters of the last three
meet).

Loops in the source are methods with loop invariants: the selection dialogue,
the prompt builder, the retry loop, option extraction, course extraction,
the answering loop and the analysis loop. Each is proved equal to a
specification function, and the lemmas beside that function state what the
source promises.

The answering loop takes the way it turns the model's letter into an option
as a parameter: `ByKey` is the program as written (`q_options[chosen_letter]`),
`ByPrompt` the corrected resolution described under Findings. Both run the
same loop, and `Relettering` proves when the two agree.

## Model

| member | source | states |
|---|---|---|
| Config.Username | config.py:22-28 | the username is `FVJ_USERNAME` when set and non-empty, otherwise whatever `USUARIO` holds |
| Config.Password | config.py:23-30 | the password is `FVJ_PASSWORD` when set and non-empty, otherwise whatever `SENHA` holds |
| Config.ApiKey | config.py:24-32 | `GEMINI_API_KEY`, whose fallback reads the same variable again; Credentials proves no credentials are returned when it is missing or empty |
| Config.Credentials | config.py:34-50 | credentials exist exactly when username, password and API key are all non-empty; the dictionary has exactly the keys `usuario`, `senha`, `api_key`, with the resolved values |
| Config.LoadEnvVariables | config.py:9-50 | no `.env` file gives no credentials; otherwise each variable group is reported missing exactly when its value is empty or absent, in the fixed order user, password, key, and credentials exist exactly when nothing is missing |
| CourseSelection.TokenIndex | main.py:112-119 | a token accepted as a course number always names an existing course (0-based index below the course count) |
| CourseSelection.ParseIndices | main.py:109-122 | an accepted line yields one in-range index per comma-separated part |
| CourseSelection.ParseIndicesMeaning | main.py:109-122 | a line is accepted exactly when every part, stripped, is an in-range 1-based number, and then each index is that part's number minus one |
| CourseSelection.TokenExamples | main.py:113-115 | "0", an out-of-range number and the empty token are refused; "03" is accepted as course 3 |
| CourseSelection.DoubleCommaRejected | main.py:110-122 | an empty part between two commas makes the whole line invalid |
| CourseSelection.TrailingCommaRejected | main.py:110-122 | a trailing comma makes the whole line invalid |
| CourseSelection.RejectedToken | main.py:118-122 | one bad part rejects the whole line |
| CourseSelection.AcceptedTokens | main.py:111-116 | when every part is valid the indices are those of the parts, in input order |
| CourseSelection.CollectIndices | main.py:109-122 | the token loop, which raises at the first bad part, computes exactly the accepted index list |
| CourseSelection.Insert | main.py:125 | inserting into a strictly increasing list keeps it strictly increasing, with the element added |
| CourseSelection.SortedDistinct | main.py:125 | `sorted(set(...))` is strictly increasing and holds the same elements as its input |
| CourseSelection.StrictlyIncreasingUnique | main.py:125 | a duplicate-free sorted list is determined by its elements |
| CourseSelection.Pick | main.py:128 | one course is picked per index |
| CourseSelection.SessionFrom | main.py:89-144 | the dialogue over the typed lines; GetUserCourseSelection proves the loop equal to it, and SelectionNeedsConfirmation that nothing is selected without "all" or "s" |
| CourseSelection.GetUserCourseSelection | main.py:89-144 | the dialogue as a method over the typed lines: no courses gives [] without reading input; "q" gives []; "all" gives every course; a valid list confirmed with "s" gives those courses; an invalid list asks again |
| CourseSelection.Selection | main.py:125-128 | the courses at `sorted(set(indices))`; SelectionIsOrderedSubset proves the result is the courses at strictly increasing valid indices |
| CourseSelection.SelectionIsOrderedSubset | main.py:99-138 | whatever the dialogue returns is the courses at strictly increasing valid indices: an ordered subset without duplicates |
| CourseSelection.SelectionNeedsConfirmation | main.py:103-138 | without "all" or a confirming "s" among the remaining lines, nothing is selected |
| CourseSelection.WithTrailingSlash | main.py:172 | the dashboard URL ends in "/", differs from the input by at most that slash, and is unchanged when it already ends in one |
| CourseSelection.DashboardCandidates | main.py:171-174 | the candidates are the URL with "my/" appended, then the URL itself |
| CourseSelection.DashboardAlwaysDefault | main.py:171-174 | the credentials of `load_env_variables` never hold `MOODLE_URL`, so the default site is always used |
| DashboardParser.SuffixStart | dashboard_parser.py:62 | a suffix position found is one where the year pattern matches to the end of the name |
| DashboardParser.SuffixStartIsLeftmost | dashboard_parser.py:62 | the position found is the leftmost match, and none means no position matches |
| DashboardParser.YearTailHasNoDash | dashboard_parser.py:62 | the year part of the suffix holds no dash |
| DashboardParser.NoDashKeepsName | dashboard_parser.py:59-62 | a name without a dash is only stripped of surrounding whitespace |
| DashboardParser.SuffixStartFinds | dashboard_parser.py:62 | the search returns the first matching position |
| DashboardParser.FirstHitIsLeftmost | dashboard_parser.py:62 | a first hit in a range is a hit, and none comes before it; no hit means none in the range |
| DashboardParser.FirstHitAt | dashboard_parser.py:62 | a hit with none before it is the first hit |
| DashboardParser.SuffixStartIsFirstHit | dashboard_parser.py:62 | the suffix search is the first position where the suffix pattern matches |
| DashboardParser.NoSuffixBefore | dashboard_parser.py:62 | no match starts before a " - " that follows a non-space character |
| DashboardParser.SuffixAtYear | dashboard_parser.py:62 | " - " followed by a year tail matches the suffix pattern |
| DashboardParser.CleanName | dashboard_parser.py:59-62 | `re.sub(r'\s*-\s*\d{4}\.?\d?\s*$', '', name).strip()`; YearSuffixAt, NoDashKeepsName, YearSuffixRemoved and SuffixRemovedOnce state what it removes |
| DashboardParser.YearSuffixAt | dashboard_parser.py:62 | a year suffix after a non-space character is cut there, and the rest is stripped |
| DashboardParser.YearTailShift | dashboard_parser.py:62 | a year tail still matches after any prefix |
| DashboardParser.YearSuffixRemoved | dashboard_parser.py:59-62 | `name - 2024.1` is cleaned to `name` |
| DashboardParser.SuffixRemovedOnce | dashboard_parser.py:62 | only the final year suffix is removed: "Algebra - 2023 - 2024.1" becomes "Algebra - 2023" |
| DashboardParser.BoxCourse | dashboard_parser.py:45-69 | a box yields a course exactly when it is readable and its chosen link has an `href`; the course is the cleaned link text with that `href` |
| DashboardParser.LinkOf | dashboard_parser.py:50-56 | the course link of a box; LinkChoice proves the heading's `a.aalink` wins over `a.coursename` |
| DashboardParser.LinkChoice | dashboard_parser.py:50-56 | the `aalink` inside the heading wins; otherwise the `a.coursename` link is used |
| DashboardParser.Courses | dashboard_parser.py:45-69 | never more courses than boxes |
| DashboardParser.CoursesConcat | dashboard_parser.py:45-69 | boxes are processed independently: the courses of two runs of boxes concatenate |
| DashboardParser.PositionsHoldPresent | dashboard_parser.py:45-69 | the `j`-th value kept is the one at the `j`-th kept position |
| DashboardParser.PositionsIncreasing | dashboard_parser.py:45-69 | the kept positions are in range and strictly increasing |
| DashboardParser.PositionsCover | dashboard_parser.py:45-69 | every position that yields a value is kept |
| DashboardParser.CoursesArePresent | dashboard_parser.py:45-69 | the courses are the values the boxes yield, in box order |
| DashboardParser.FaultyBoxSkipped | dashboard_parser.py:67-69 | a box whose processing raises is skipped without affecting the others |
| DashboardParser.CoursesFromBoxes | dashboard_parser.py:45-69 | each course comes from a distinct box, in page order, and every box that yields a course contributes it |
| DashboardParser.ContainerOf | dashboard_parser.py:28-34 | the enrolled-courses container, else the course-list region; DashboardCourses proves no container gives no courses |
| DashboardParser.BoxesOf | dashboard_parser.py:37-43 | the `coursebox` divs, else the course-list items; NoBoxesNoCourses proves neither gives no courses |
| DashboardParser.DashboardCourses | dashboard_parser.py:22-43 | an unreadable page or a missing container gives no courses; otherwise at most one course per box of the container |
| DashboardParser.NoBoxesNoCourses | dashboard_parser.py:37-43 | a container with neither kind of box gives no courses |
| DashboardParser.ExtractCourses | dashboard_parser.py:19-81 | the loop over the boxes computes exactly the course list of the page |
| ActivityNavigator.SearchUrl | activity_navigator.py:33-37 | `re.search(r"window\.open\('([^']+)'", onclick)`; SearchUrlIsLeftmost and UrlAtMeaning prove it returns the URL of the leftmost call, non-empty and quote-free, and None only when no position matches |
| ActivityNavigator.UrlAtMeaning | activity_navigator.py:33-38 | a match at a position is exactly `window.open('`, then a non-empty, quote-free URL, then a quote; both directions |
| ActivityNavigator.FirstMatchAt | activity_navigator.py:33 | the URL ends at the first quote after the call |
| ActivityNavigator.SearchUrlIsLeftmost | activity_navigator.py:33 | `re.search` returns the leftmost match, and no result means no match anywhere |
| ActivityNavigator.ExtractedUrlShape | activity_navigator.py:33-38 | an extracted URL is non-empty and holds no quote |
| ActivityNavigator.SearchSkips | activity_navigator.py:33 | text before the first "w" cannot start a match |
| ActivityNavigator.CallFound | activity_navigator.py:33-38 | an `onclick` holding the call yields its URL |
| ActivityNavigator.Navigate | activity_navigator.py:14-85 | `navigate_to_activity_exercises`; NavigateMeaning proves its three outcomes as if-and-only-ifs over the step observations, and VisitedIsExtracted that `driver.get` only receives the extracted URL |
| ActivityNavigator.NavigateMeaning | activity_navigator.py:27-85 | "COMPLETED" exactly when every step up to the "Exercícios" click succeeded and the completion message appeared; `True` exactly when it did not appear and the questions became visible; `False` otherwise |
| ActivityNavigator.VisitedIsExtracted | activity_navigator.py:38-43 | the browser is only sent to the URL extracted from `onclick`, and any non-failure outcome visited it |
| ActivityNavigator.CompletedWithoutQuestions | activity_navigator.py:59-67 | once the completion message shows, the question section is not waited for |
| ActivityNavigator.NoCallNoNavigation | activity_navigator.py:28-36 | no `onclick`, or one without the call, fails before any navigation |
| PageSnapshot.FirstBodied | question_extractor.py:27-29 | the container found has a question body |
| PageSnapshot.FirstBodiedIsLeftmost | question_extractor.py:27-34 | it is the first such container, and none found means no container has a body |
| PageSnapshot.BodiedCount | activity_solver.py:89-90 | the count of containers with a body is at most the count of containers |
| PageSnapshot.BodiedCountPositive | activity_solver.py:90-93 | some container has a body exactly when the count is positive |
| PageSnapshot.FirstDisplayed | question_extractor.py:40-45 | the Selenium fallback picks the first displayed div, and none means none is displayed |
| QuestionExtractor.Active | question_extractor.py:21-50 | the container found has a body; an element is found only together with a container |
| QuestionExtractor.FirstDisplayedDiv | question_extractor.py:40-45 | the fallback loop computes the first displayed div |
| QuestionExtractor.FindActiveQuestionElements | question_extractor.py:21-50 | the search loop computes the active container and element |
| QuestionExtractor.FirstBodiedAt | question_extractor.py:27-30 | a container with a body after only empty ones is the one found |
| QuestionExtractor.ActiveAligned | question_extractor.py:29-34 | when the Selenium list is as long as the soup's, the element is the one at the container's index |
| QuestionExtractor.ActiveFound | question_extractor.py:21-50 | an element is found exactly when some container has a body and either its index exists among the Selenium divs or some div is displayed |
| QuestionExtractor.FirstNumberOf | question_extractor.py:63-65 | the first run of digits is read as the number |
| QuestionExtractor.QuestionNumber | question_extractor.py:52-68 | `_extract_question_number`; ProgressCounterShadowsIdentifier and NumberFromIdentifier state which source decides the number |
| QuestionExtractor.ProgressCounterShadowsIdentifier | question_extractor.py:56-58 | a progress counter whose text is not an integer gives no number; the identifier is not tried |
| QuestionExtractor.NumberFromIdentifier | question_extractor.py:59-65 | without a progress counter, the first number in the identifier is the question number |
| QuestionExtractor.NonEmptyMeaning | question_extractor.py:77 | the kept paragraphs are exactly the non-empty ones |
| QuestionExtractor.JoinNonEmpty | question_extractor.py:77-78 | joining paragraphs that start non-empty gives non-empty text |
| QuestionExtractor.QuestionText | question_extractor.py:70-91 | `_extract_question_text`; QuestionTextFromParagraphs and EmptyTextDivShadowsFallbacks state the paragraph join and the fallback order |
| QuestionExtractor.QuestionTextFromParagraphs | question_extractor.py:73-78 | with any non-empty paragraph the text is the non-empty paragraphs joined by newlines, and it is non-empty |
| QuestionExtractor.EmptyTextDivShadowsFallbacks | question_extractor.py:73-80 | an empty `question-text` div gives empty text; the other selectors are not tried |
| QuestionExtractor.LabelPrefixEnd | question_extractor.py:118 | the prefix removed lies within the label |
| QuestionExtractor.StripLabelPrefix | question_extractor.py:118 | `re.sub(r'^[A-Z][.,)]?\s*', '', label).strip()`; LabelMarkerRemoved, LeadingCapitalRemoved and LabelExamples state what it removes |
| QuestionExtractor.LabelMarkerRemoved | question_extractor.py:118 | "A. ", "B, " or "C) " before the text is removed |
| QuestionExtractor.LeadingCapitalRemoved | question_extractor.py:118 | a bare leading capital is removed too, even when it starts a word |
| QuestionExtractor.LabelExamples | question_extractor.py:118 | "Brasil" loses its "B", while "A) Brasil" becomes "Brasil" |
| QuestionExtractor.Placeholder | question_extractor.py:121 | the text "Opção <letter> (sem texto)"; OptionText proves it is used exactly when neither body nor label gives text |
| QuestionExtractor.OptionText | question_extractor.py:110-121 | the option text is never empty: the option body, else the label without its letter, else the placeholder |
| QuestionExtractor.EntryAt | question_extractor.py:105-156 | an entry is keyed by the letter of its div's position |
| QuestionExtractor.Entries | question_extractor.py:105-156 | there are never more entries than option divs |
| QuestionExtractor.Lookup | question_extractor.py:149-156 | a key lookup returns an entry stored under that key |
| QuestionExtractor.EntriesKeys | question_extractor.py:105-156 | the keys strictly increase and are letters of div positions |
| QuestionExtractor.EntriesLookup | question_extractor.py:105-156 | looking up the letter of div `i` gives that div's entry when its radio was found and nothing otherwise; letters past the divs find nothing |
| QuestionExtractor.EntriesLookupAt | question_extractor.py:105-156 | the letter of div `i` finds exactly that div's entry |
| QuestionExtractor.EntriesLookupMiss | question_extractor.py:105-156 | a character that is not the letter of an earlier div finds nothing |
| QuestionExtractor.LookupAbsent | activity_solver.py:131 | `chosen_letter in q_options` is false when no entry carries that key |
| QuestionExtractor.EntriesStep | question_extractor.py:105-156 | each div adds its entry, or nothing when its radio was not found |
| QuestionExtractor.LookupSnoc | question_extractor.py:149-156 | appending one entry changes only the lookups its key did not already answer |
| QuestionExtractor.LookupAppend | question_extractor.py:149-156 | a later insertion does not shadow an earlier key |
| QuestionExtractor.ExtractOptions | question_extractor.py:93-161 | the option loop computes exactly the entries of the divs |
| QuestionExtractor.ReadOptionText | question_extractor.py:110-121 | the text read for one option is the option body, else the label without its letter marker, else the "Opção X (sem texto)" placeholder, never empty |
| QuestionExtractor.RadioFor | question_extractor.py:123-147 | the radio search of one option; FindRadio proves the step equal to it, and EntriesLookup and RaisingLookupSkipsLetter state its effect on the dictionary |
| QuestionExtractor.FindRadio | question_extractor.py:123-147 | the radio of one option is the live one with the soup radio's `id`, else the live radio at the option's position, else none; an `id` lookup raising anything but `NoSuchElementException` gives none, with no positional fallback |
| QuestionExtractor.QuestionDataOf | question_extractor.py:163-197 | data is returned only for a ready page, with a live element and at most as many options as letters |
| QuestionExtractor.ExtractQuestionData | question_extractor.py:163-197 | the extraction method computes exactly the question data of the page |
| QuestionExtractor.QuestionDataShape | question_extractor.py:177-192 | returned data comes from the first container with a body; its options have increasing keys, and each letter finds the entry of its div |
| Letters.Letter | question_extractor.py:106 | the letter of position `i` is `chr(65 + i)` |
| Letters.OptionLetters | gemini_solver.py:44 | one letter per option |
| Letters.LettersRoundTrip | gemini_solver.py:44 | letter and position convert into each other, and a character is an option letter exactly when its position is in range |
| Letters.LetterMonotone | question_extractor.py:106 | later positions have larger letters |
| GeminiSolver.OptionLines | gemini_solver.py:60-61 | one prompt line per option |
| GeminiSolver.BuildPrompt | gemini_solver.py:47-64 | the appending loop builds exactly the joined prompt lines |
| GeminiSolver.JoinAround | gemini_solver.py:64 | a line between other lines is joined with a newline on each side |
| GeminiSolver.JoinFrame | gemini_solver.py:64 | joining a frame around a middle part puts the separator on each side |
| GeminiSolver.PromptFrame | gemini_solver.py:47-64 | the prompt starts with the instructions and the question and ends with the answer heading |
| GeminiSolver.OptionInPrompt | gemini_solver.py:60-64 | every option appears on a line of its own as "<letter>. <text>" |
| GeminiSolver.AttemptLetter | gemini_solver.py:89-121 | the letter one reply yields; AttemptLetterMeaning proves it is the first capital of the stripped reply exactly when that letter names an option |
| GeminiSolver.AttemptLetterMeaning | gemini_solver.py:92-118 | an attempt succeeds exactly when the reply has text whose first capital letter is an option letter, and then that letter is the answer |
| GeminiSolver.AttemptExamples | gemini_solver.py:108-116 | "B" is accepted; "Resposta: B" is refused because "R" comes first; a letter beyond the options or a lower-case one is refused |
| GeminiSolver.FirstAccepted | gemini_solver.py:87-134 | the first accepted letter among the attempts; AskModel proves the retry loop equal to it |
| GeminiSolver.GeminiAnswer | gemini_solver.py:25-134 | `solve_with_gemini`'s answer; SolveWithGemini proves no key means no call, at most `max_retries` calls, and the first accepted letter |
| GeminiSolver.SolveWithGemini | gemini_solver.py:25-134 | without a key no call is made; otherwise at most `max_retries` calls, stopping at the first valid letter; every earlier attempt failed; a returned letter names an option; None means every attempt failed |
| GeminiSolver.AskModel | gemini_solver.py:87-134 | the retry loop returns the letter of the first attempt that yields one, after failed attempts only, or None after `max_retries` failed attempts |
| ActivitySolver.SeparatorEnd | activity_solver.py:77 | a separator match consumes at least one character |
| ActivitySolver.SearchSkipsText | activity_solver.py:77 | text without digits cannot start a progress match |
| ActivitySolver.SearchProgress | activity_solver.py:77-81 | `re.search(r'(\d+)\s*(?:/|de)\s*(\d+)', text)` giving group 2; ProgressFraction proves a counter "N / M" or "N de M" yields M, and SearchSkipsText that text without digits yields nothing |
| ActivitySolver.FractionAt | activity_solver.py:77-79 | `N / M` or `N de M` at a position matches, and the second number is the total |
| ActivitySolver.ProgressFraction | activity_solver.py:76-81 | a counter "N / M" or "N de M" after non-digit text reports M as the total |
| ActivitySolver.TotalQuestions | activity_solver.py:66-102 | `get_total_questions`; TotalFromCounter, TotalWithoutCounter and TotalWhenCounterRaised state its value for each kind of counter |
| ActivitySolver.ContainerTotal | activity_solver.py:84-98 | the count of containers with a body, else 5; TotalWithoutCounter proves it positive and equal to BodiedCount exactly when some container has a body |
| ActivitySolver.TotalWithoutCounter | activity_solver.py:66-98 | when the counter is absent (its wait timed out) or shows no fraction, the total is the number of containers with a body when there is one, else the default 5; it is always positive |
| ActivitySolver.TotalFromCounter | activity_solver.py:73-81 | a counter showing a fraction decides the total, whatever the containers say |
| ActivitySolver.TotalWhenCounterRaised | activity_solver.py:72-102 | a failure reading the counter other than a timeout escapes to the outer handler, which returns 5 without counting containers |
| ActivitySolver.InsertByKey | activity_solver.py:128 | inserting by key adds exactly the one entry |
| ActivitySolver.SortByKey | activity_solver.py:128 | sorting by key keeps the same entries |
| ActivitySolver.InsertKeepsSorted | activity_solver.py:128 | insertion preserves key order |
| ActivitySolver.SortedTail | activity_solver.py:128 | the tail of a key-ordered list is key-ordered |
| ActivitySolver.SortedCons | activity_solver.py:128 | an entry keyed no higher than the head keeps the list ordered |
| ActivitySolver.SortByKeySorts | activity_solver.py:128 | `sorted(q_options.keys())` orders the options by key and is a permutation of them |
| ActivitySolver.InsertLargest | activity_solver.py:128 | an entry with a larger key than all others goes last |
| ActivitySolver.SortByKeyOfIncreasing | activity_solver.py:128 | options extracted in position order are already sorted, so the prompt lists them in page order |
| ActivitySolver.Texts | activity_solver.py:128 | one text per option |
| ActivitySolver.PromptOptions | activity_solver.py:128 | the prompt has one option per extracted entry |
| ActivitySolver.ResolvePromptLetter | activity_solver.py:128-134 | a resolved letter names one of the extracted entries |
| ActivitySolver.ResolveMatchesPrompt | activity_solver.py:128-134 | the prompt letter of the k-th prompt line resolves to the entry whose text is on that line |
| ActivitySolver.AttemptWellSized | activity_solver.py:124 | every attempt's page, including a blank one past the end, can be extracted from |
| ActivitySolver.Outcomes | activity_solver.py:122-170 | one outcome per extraction attempt; with `ByKey` a letter that is not a key of `q_options` is the "inválida" retry (:131-133, 162-164), with `ByPrompt` a letter outside the prompt is |
| ActivitySolver.OutcomeAtAttempt | activity_solver.py:122-170 | the outcome recorded for attempt `k` is what that attempt selects under the chosen resolution, past the supplied attempts too |
| ActivitySolver.OutcomesPrefix | activity_solver.py:122-170 | an attempt's outcome does not depend on later attempts |
| ActivitySolver.BlankAttemptFails | activity_solver.py:124-170 | an attempt past the supplied ones loads a blank page and selects nothing, under either resolution |
| ActivitySolver.Consult | activity_solver.py:124-130 | the options and the model's letter of one attempt; ConsultModel proves the extraction-then-model step equal to it |
| ActivitySolver.ConsultModel | activity_solver.py:124-130 | extracting the question and asking the model gives the options and the model's letter only when the page had text and options and the model answered |
| ActivitySolver.Resolve | activity_solver.py:131-134 | the entry a letter names: `q_options[chosen_letter]` when `chosen_letter in q_options` (`ByKey`), or the prompt's entry (`ByPrompt`); LetteringAgreement proves the two agree on every prompt letter exactly when the keys have no gap |
| ActivitySolver.AnswerOf | activity_solver.py:124-170 | the entry one attempt selects; OutcomeAtAttempt and AttemptAnswer tie it to the loop, and AsWrittenAgreesWhenContiguous compares the two resolutions |
| ActivitySolver.AttemptAnswer | activity_solver.py:123-167 | one pass of the retry loop's body: extract, ask the model, resolve the letter (as written: `chosen_letter in q_options` then `q_options[chosen_letter]`), select; it computes that attempt's outcome |
| ActivitySolver.AnswerQuestion | activity_solver.py:119-170 | under either resolution, the retry loop selects an option at the first attempt that succeeds, with every earlier attempt failed, or fails after exactly `max_retries_per_question` attempts |
| ActivitySolver.AllFailExtend | activity_solver.py:122-170 | one more failed attempt extends a run of failures |
| ActivitySolver.ChronicleExtend | activity_solver.py:116-177 | answering the next question from where the last one stopped keeps the record of answers consistent |
| ActivitySolver.SolveActivityQuestions | activity_solver.py:106-214 | under either resolution: the total is `get_total_questions`; each answer is the first success after the previous one; "Próximo" follows every answer but the last of all, which gets "Enviar respostas"; the analysis runs exactly when every question was answered, the last button clicked, the popup confirmed and the results shown; a question that exhausts its retries stops the run |
| ActivitySolver.AnswerAll | activity_solver.py:116-177 | under either resolution, the answering loop records each answer as the first success after the previous one, presses the right button after each, and stops at the first question that exhausts its retries or whose button fails |
| ActivitySolver.AnswerNext | activity_solver.py:119-177 | under either resolution, one question either extends the record of answers or fails on every attempt it had |
| ActivitySolver.FinishActivity | activity_solver.py:182-208 | the analysis runs exactly when the popup was confirmed and the results shown, and then the run succeeds exactly when every question was reviewed |
| ActivitySolver.Classify | activity_solver.py:218-238 | `analyze_single_completed_question`; ClassifyMeaning proves each verdict as an if-and-only-if over the judged container's marks |
| ActivitySolver.ClassifyMeaning | activity_solver.py:218-238 | "correct" exactly when the active container shows a right marker or wrapper; "incorrect" exactly when it shows no right one but a wrong one; "unknown" otherwise |
| ActivitySolver.CountPartition | activity_solver.py:253-273 | the three counts add up to the number of questions analysed |
| ActivitySolver.AnalyzeCompletedActivity | activity_solver.py:240-300 | the analysis succeeds exactly when every question was visited; a failure stops at a "Próximo" that could not be clicked; the counts are the verdicts of the visited questions and add up to their number |
| ActivitySolver.ReviewAll | activity_solver.py:253-290 | the review loop visits questions until a "Próximo" click fails, counting each visited question's verdict once |
| Relettering.LookupOwnKey | question_extractor.py:149-156 | with increasing keys, each entry is found under its own key |
| Relettering.ContiguousIncreasing | question_extractor.py:106 | keys A, B, C, … without gaps are increasing |
| Relettering.LookupInRange | activity_solver.py:132 | with gap-free keys only the letters of the entries find anything |
| Relettering.ContiguousAgreesAt | activity_solver.py:128-134 | with gap-free keys a reply letter names the same entry in the prompt and in the dictionary |
| Relettering.ContiguousAgrees | activity_solver.py:128-134 | with gap-free keys the dictionary lookup and the prompt letter name the same entry for every reply |
| Relettering.AgreementNeedsContiguous | activity_solver.py:128-134 | if the lookup agrees with the prompt on every prompt letter, the keys have no gap |
| Relettering.LetteringAgreement | activity_solver.py:128-134 | both directions: the as-written lookup matches the prompt exactly when no option was dropped before the last one |
| Relettering.AllRadiosContiguous | question_extractor.py:149-156 | when every option div has a radio, the keys run A, B, C, … without a gap |
| Relettering.EnoughRadiosContiguous | question_extractor.py:103-147 | when no `id` lookup raises, at least as many live radios as option divs leave the keys without a gap |
| Relettering.RaisingLookupSkipsLetter | question_extractor.py:128-156 | an `id` lookup that raises anything but `NoSuchElementException` drops its option, whatever the number of live radios, so its letter finds nothing |
| Relettering.GapEntriesExtracted | question_extractor.py:103-156 | on a consistent page (every radio found by id is one of the container's radios), five divs of which the first three have no radio input and the live container has two radios yield keys A, B, D and E |
| Relettering.IncreasingPrompt | activity_solver.py:128 | options with increasing keys are shown in their own order, and prompt letter `k` names the `k`-th |
| Relettering.GapPrompt | activity_solver.py:128 | on that page the prompt shows "p", "q", "s", "t", so its letters C and D name "s" and "t" |
| Relettering.GapLookups | question_extractor.py:149-156 | on that page the dictionary has no key C, and key D is the option "s" |
| Relettering.AsWrittenAgreesWhenContiguous | activity_solver.py:128-134 | for one attempt whose keys have no gap, the letter as written and the corrected letter select the same option |
| Relettering.OutcomesAgreeWhenContiguous | activity_solver.py:119-170 | when every attempt's keys have no gap, the loop as written and the corrected loop have the same outcome at every attempt |
| Relettering.LoopsAgreeWhenContiguous | activity_solver.py:116-177 | then every record of answers and every run of failed attempts that the answering loop guarantees under one resolution holds under the other |
| Relettering.GapCounterexample | activity_solver.py:128-134 | on that consistent page the prompt shows "A. p", "B. q", "C. s", "D. t"; the model answering "C" for "s" finds no key and wastes the attempt, and answering "D" for "t" makes the loop as written click "s" |

## Left out

- The browser itself: Selenium waits, sleeps, scrolling, `execute_script` and timeouts. Each step is an observation, true when it succeeded within its wait.
- The language model: `generate_content` is an oracle of replies. The model name and generation settings are not modelled.
- `configure_gemini` reads the key from the process environment. Here the key is a parameter, and the API's configuration errors are not modelled.
- `solve_activity_questions` accepts an `api_key` it never passes on. The model threads one key through instead.
- `.env` parsing by `load_dotenv` and the environment: the environment is a map, and the file's existence is a flag.
- Logging, colours and console output: the list of missing variables appears only in a log message. The model returns it as a value.
- `str.isdigit`, `int()` and `\d` accept non-ASCII digits in Python. The model reads ASCII digits only. `int()` also accepts underscores between digits. The model does not.
- Python's `\s` and `str.strip` use the Unicode whitespace set; the model uses a fixed list of whitespace characters.
- Text.Lower lowercases ASCII letters only, where `str.lower()` applies the full Unicode case mapping. No non-ASCII character lowers to a letter of "q", "all" or "s", or to a digit, so the selection dialogue accepts and refuses the same lines.
- Letters.Letter: only positions below `MaxOptions` (55231) are modelled, because a Dafny `char` excludes surrogates; pages never have that many options.
- BeautifulSoup's `get_text` is abstracted: the page snapshot already holds each element's text as `get_text(strip=True)` or `get_text(separator='\n', strip=True)` would give it.
- The dashboard's default name "Nome não encontrado" never reaches the result, because a course is only appended once the link was read.
- DashboardParser.DashboardCourses: an exception outside the box loop is modelled only as a page that cannot be read at all (no courses). A page that raises halfway would keep the courses found so far.
- ActivityNavigator.Navigate: the activity name is only used for logging, so only whether the link could be read matters. `NoSuchElementException` and other exceptions are all "the step failed".
- `submit_answer` and its single retry on a stale element are one flag per attempt: whether the option was selected. The "Próximo"/"Enviar respostas" click is another flag.
- The outer `except Exception` of `solve_activity_questions` returning `False` is not modelled apart from the failed waits already listed.
- `analyze_completed_activity` with `total_questions=None` calls `get_total_questions`, which never returns None, so the branch returning `False` there is unreachable and not modelled.
- `login.py`, `browser.py`, `course_processor.py` and the rest of `main.py` are not part of this model.

## Findings

| source | as written | input that shows it | evidently intended | confidence | as-written member | corrected member |
|---|---|---|---|---|---|---|
| activity_solver.py:128-134 | the prompt re-letters the surviving options A, B, C… (gemini_solver.py:44), but the reply letter is looked up among the dictionary keys, which are the letters of the div positions and skip the options dropped for lack of a radio (question_extractor.py:106, 133-156); the loop run with `ByKey` models this | five option divs "p", "q", "r", "s", "t"; the first three have no radio input, the last two have radios that the live container, holding just those two, finds by id. "p" and "q" take the two radios by position and "r" finds none, so the keys are A, B, D, E while the prompt shows "A. p", "B. q", "C. s", "D. t". A reply "C" finds no key and wastes the attempt; a reply "D" clicks "s" | the reply letter names the option on that line of the prompt | not executed | ActivitySolver.SolveActivityQuestions, Relettering.GapCounterexample | ActivitySolver.ResolveMatchesPrompt, Relettering.LetteringAgreement, Relettering.OutcomesAgreeWhenContiguous |

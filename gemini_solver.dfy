/**
 * `gemini_solver.py`: the question is put to the language model as a
 * prompt listing the options under the letters A, B, C, ...; the reply is
 * trusted only when its first capital letter names one of those options.
 * The model itself is an oracle: `replies[k]` is what the `k`-th call of
 * `generate_content` produced, and a call past the end of `replies` raises.
 */
module GeminiSolver {
  import opened Wrappers
  import opened Text
  import opened Letters

  /** `max_retries` when the caller gives none. */
  const DefaultRetries: nat := 3

  /** The fixed lines before the question text. */
  const Header: seq<string> := [
    "Contexto: Voc\U{EA} \U{E9} um assistente de IA altamente qualificado, especialista em diversas \U{E1}reas acad\U{EA}micas, incluindo",
    "Sistemas de Informa\U{E7}\U{E3}o, Ci\U{EA}ncia da Computa\U{E7}\U{E3}o, Administra\U{E7}\U{E3}o, Direito e \U{E1}reas correlatas.",
    "Sua tarefa \U{E9} analisar cuidadosamente a pergunta de m\U{FA}ltipla escolha e as op\U{E7}\U{F5}es fornecidas abaixo.",
    "\nInstru\U{E7}\U{F5}es de Resposta:",
    "1. Determine a \U{DA}NICA op\U{E7}\U{E3}o correta.",
    "2. Sua resposta deve consistir APENAS na LETRA MAI\U{DA}SCULA correspondente \U{E0} op\U{E7}\U{E3}o correta (ex: A, B, C, D, E).",
    "3. N\U{C3}O inclua nenhuma outra palavra, texto, explica\U{E7}\U{E3}o, pontua\U{E7}\U{E3}o ou formata\U{E7}\U{E3}o na sua resposta.",
    "\n--- PERGUNTA ---"
  ]

  const OptionsHeading: string := "\n--- OP\U{C7}\U{D5}ES ---"

  const Footer: string := "\n--- RESPOSTA (APENAS A LETRA MAI\U{DA}SCULA CORRETA) ---"

  /** `f"{letter}. {option_text}"`. */
  function OptionLine(letter: char, text: string): string {
    [letter] + ". " + text
  }

  /** The option lines, lettered in order. */
  function OptionLines(options: seq<string>): (r: seq<string>)
    requires |options| <= MaxOptions
    ensures |r| == |options|
  {
    seq(|options|, i requires 0 <= i < |options| => OptionLine(Letter(i), options[i]))
  }

  /** `prompt_parts` once complete. */
  function PromptParts(question: string, options: seq<string>): seq<string>
    requires |options| <= MaxOptions
  {
    Header + [question, OptionsHeading] + OptionLines(options) + [Footer]
  }

  /** The prompt: `prompt_parts` built by appending one line per option, then joined with newlines. */
  method BuildPrompt(question: string, options: seq<string>) returns (prompt: string)
    requires |options| <= MaxOptions
    ensures prompt == Join(PromptParts(question, options), "\n")
  {
    var parts := Header + [question, OptionsHeading];
    var letters := OptionLetters(|options|);
    var i := 0;
    while i < |options|
      invariant 0 <= i <= |options|
      invariant parts == Header + [question, OptionsHeading] + OptionLines(options)[..i]
    {
      parts := parts + [OptionLine(letters[i], options[i])];
      i := i + 1;
    }
    assert OptionLines(options)[..i] == OptionLines(options);
    parts := parts + [Footer];
    prompt := Join(parts, "\n");
  }

  /** A line with lines on both sides is joined in between two separators. */
  lemma JoinAround(pre: seq<string>, x: string, post: seq<string>, sep: string)
    requires pre != [] && post != []
    ensures Join(pre + [x] + post, sep) == Join(pre, sep) + sep + x + sep + Join(post, sep)
  {
    assert pre + [x] + post == pre + ([x] + post);
    JoinAppend(pre, [x] + post, sep);
    JoinAppend([x], post, sep);
  }

  /** Joining a frame: lines before, one line, lines after, and a closing line. */
  lemma JoinFrame(pre: seq<string>, x: string, y: string, rest: seq<string>, last: string, sep: string)
    requires pre != []
    ensures Join(pre + [x, y] + rest + [last], sep)
      == Join(pre, sep) + sep + x + sep + Join([y] + rest, sep) + sep + last
  {
    assert pre + [x, y] + rest + [last] == pre + [x] + (([y] + rest) + [last]);
    JoinAround(pre, x, ([y] + rest) + [last], sep);
    JoinAppend([y] + rest, [last], sep);
    var p, m := Join(pre, sep), Join([y] + rest, sep);
    assert p + sep + x + sep + (m + sep + last) == p + sep + x + sep + m + sep + last;
  }

  /** The prompt opens with the header and the question, and closes with the footer. */
  lemma PromptFrame(question: string, options: seq<string>)
    requires |options| <= MaxOptions
    ensures exists middle :: (Join(PromptParts(question, options), "\n")
      == Join(Header, "\n") + "\n" + question + "\n" + middle + "\n" + Footer)
  {
    JoinFrame(Header, question, OptionsHeading, OptionLines(options), Footer, "\n");
  }

  /** Every option, under its letter, sits on a line of its own. */
  lemma OptionInPrompt(question: string, options: seq<string>, i: nat)
    requires |options| <= MaxOptions && i < |options|
    ensures exists before, after :: (Join(PromptParts(question, options), "\n")
      == before + "\n" + OptionLine(Letter(i), options[i]) + "\n" + after)
  {
    var lines := OptionLines(options);
    var pre := Header + [question, OptionsHeading] + lines[..i];
    var post := lines[i + 1..] + [Footer];
    assert lines == lines[..i] + [lines[i]] + lines[i + 1..];
    assert PromptParts(question, options) == pre + [lines[i]] + post;
    JoinAround(pre, lines[i], post, "\n");
  }

  /** What one call of the model produced. */
  datatype Reply =
    | NoCandidates        // no response object, or one without candidates
    | Raised              // the call, or reading `response.text`, raised
    | Answered(text: string)

  /** The reply of the `k`-th call; calls past the supplied replies raise. */
  function ReplyAt(replies: seq<Reply>, k: nat): Reply {
    if k < |replies| then replies[k] else Raised
  }

  /** The letter one reply yields, or None when the attempt fails. */
  function AttemptLetter(reply: Reply, n: nat): Option<char>
    requires n <= MaxOptions
  {
    match reply
    case NoCandidates => None
    case Raised => None
    case Answered(text) =>
      var raw := Strip(text);
      if raw == [] then None
      else match FirstMatch(raw, 0, IsUpper)
        case None => None
        case Some(i) => if raw[i] in OptionLetters(n) then Some(raw[i]) else None
  }

  /**
   * An attempt succeeds exactly when the reply has text whose first capital
   * letter is one of the option letters, and then that letter is the answer.
   */
  lemma AttemptLetterMeaning(reply: Reply, n: nat)
    requires n <= MaxOptions
    ensures AttemptLetter(reply, n).Some? <==>
      reply.Answered? && FirstMatch(Strip(reply.text), 0, IsUpper).Some?
      && 0 <= LetterIndex(Strip(reply.text)[FirstMatch(Strip(reply.text), 0, IsUpper).value]) < n
    ensures AttemptLetter(reply, n).Some? ==>
      var raw := Strip(reply.text);
      AttemptLetter(reply, n).value == raw[FirstMatch(raw, 0, IsUpper).value]
      && (forall j :: 0 <= j < FirstMatch(raw, 0, IsUpper).value ==> !IsUpper(raw[j]))
  {
    LettersRoundTrip(n);
    if reply.Answered? {
      FirstMatchIsLeftmost(Strip(reply.text), 0, IsUpper);
    }
  }

  /** A bare letter is accepted; a sentence is judged by its first capital, so "Resposta: B" is refused. */
  lemma AttemptExamples()
    ensures AttemptLetter(Answered("B"), 4) == Some('B')
    ensures AttemptLetter(Answered("Resposta: B"), 4) == None
    ensures AttemptLetter(Answered("E"), 4) == None
    ensures AttemptLetter(Answered("b"), 4) == None
  {
    LettersRoundTrip(4);
    assert Strip("B") == "B";
    assert Strip("E") == "E";
    assert Strip("b") == "b";
    assert TrimStart("Resposta: B") == "Resposta: B";
    assert TrimEnd("Resposta: B") == "Resposta: B";
    assert FirstMatch("b", 0, IsUpper) == None by {
      assert FirstMatch("b", 1, IsUpper) == None;
    }
  }

  /** The retry loop from call `k` on: the letter of the first attempt that yields one. */
  function FirstAccepted(replies: seq<Reply>, n: nat, k: nat, maxRetries: nat): Option<char>
    requires n <= MaxOptions
    decreases maxRetries - k
  {
    if k >= maxRetries then None
    else match AttemptLetter(ReplyAt(replies, k), n)
      case Some(c) => Some(c)
      case None => FirstAccepted(replies, n, k + 1, maxRetries)
  }

  /** What `solve_with_gemini` returns, as a function of the key, the number of options and the replies. */
  function GeminiAnswer(apiKey: Option<string>, n: nat, replies: seq<Reply>, maxRetries: nat): Option<char>
    requires n <= MaxOptions
  {
    if apiKey.None? || apiKey.value == "" then None else FirstAccepted(replies, n, 0, maxRetries)
  }

  /**
   * `solve_with_gemini`: with no API key nothing is called; otherwise at most
   * `maxRetries` calls, stopping at the first reply that yields a valid letter.
   * Also returns the prompt sent and the number of calls made.
   */
  method SolveWithGemini(apiKey: Option<string>, question: string, options: seq<string>,
                         replies: seq<Reply>, maxRetries: nat)
    returns (answer: Option<char>, prompt: string, calls: nat)
    requires |options| <= MaxOptions
    ensures answer == GeminiAnswer(apiKey, |options|, replies, maxRetries)
    ensures (apiKey.None? || apiKey.value == "") ==> answer == None && calls == 0
    ensures apiKey.Some? && apiKey.value != "" ==> prompt == Join(PromptParts(question, options), "\n")
    ensures calls <= maxRetries
    ensures forall k :: 0 <= k < calls - 1 ==> AttemptLetter(ReplyAt(replies, k), |options|).None?
    ensures answer.Some? ==> calls >= 1 && answer == AttemptLetter(ReplyAt(replies, calls - 1), |options|)
    ensures answer.Some? ==> 0 <= LetterIndex(answer.value) < |options|
    ensures answer.None? && apiKey.Some? && apiKey.value != "" ==>
      calls == maxRetries && forall k :: 0 <= k < maxRetries ==> AttemptLetter(ReplyAt(replies, k), |options|).None?
  {
    answer, prompt, calls := None, "", 0;
    if apiKey.None? || apiKey.value == "" {
      return;
    }
    prompt := BuildPrompt(question, options);
    answer, calls := AskModel(|options|, replies, maxRetries);
  }

  /** The retry loop of `solve_with_gemini`: one call per attempt until a reply holds an offered letter. */
  method AskModel(n: nat, replies: seq<Reply>, maxRetries: nat) returns (answer: Option<char>, calls: nat)
    requires n <= MaxOptions
    ensures answer == FirstAccepted(replies, n, 0, maxRetries)
    ensures calls <= maxRetries
    ensures forall k :: 0 <= k < calls - 1 ==> AttemptLetter(ReplyAt(replies, k), n).None?
    ensures answer.Some? ==> calls >= 1 && answer == AttemptLetter(ReplyAt(replies, calls - 1), n)
    ensures answer.Some? ==> 0 <= LetterIndex(answer.value) < n
    ensures answer.None? ==> calls == maxRetries && forall k :: 0 <= k < maxRetries ==> AttemptLetter(ReplyAt(replies, k), n).None?
  {
    answer, calls := None, 0;
    var letters := OptionLetters(n);
    while calls < maxRetries
      invariant calls <= maxRetries && answer.None?
      invariant forall k :: 0 <= k < calls ==> AttemptLetter(ReplyAt(replies, k), n).None?
      invariant FirstAccepted(replies, n, calls, maxRetries) == FirstAccepted(replies, n, 0, maxRetries)
    {
      var reply := ReplyAt(replies, calls);
      calls := calls + 1;
      if reply.NoCandidates? || reply.Raised? {
        continue;
      }
      var raw := Strip(reply.text);
      if raw == [] {
        continue;
      }
      var m := FirstMatch(raw, 0, IsUpper);
      if m.Some? && raw[m.value] in letters {
        answer := Some(raw[m.value]);
        LettersRoundTrip(n);
        break;
      }
    }
  }

}

/**
 * Answer dispatch (`PDFLlamaAssistant.answer_question` and the reply
 * mapping of `query_ollama`). Two backends: a local Ollama service reached
 * over HTTP, and an in-process Hugging Face text-generation pipeline. The
 * HTTP exchange and the pipeline are foreign; the model takes what they
 * give back as inputs and states the string handling around them.
 */
module Answering {
  import opened PyText

  /** Characters of the document text embedded in the Ollama prompt. */
  const OllamaContextLimit: nat := 3000
  /** Characters of the document text embedded in the pipeline prompt. */
  const PipelineContextLimit: nat := 1000

  /** The token after which the pipeline's answer is taken. */
  const AnswerMarker := "Odpowiedź:"

  const NotLoadedMessage := "Model nie został załadowany poprawnie."
  const NoResponseText := "Brak odpowiedzi"
  const ApiErrorPrefix := "Błąd API: "
  const UnreachableMessage := "Nie można połączyć się z Ollama. Upewnij się, że Ollama jest uruchomiona."
  const ErrorPrefix := "Błąd: "

  /** The fixed parts of the Ollama prompt, an indented triple-quoted template. */
  const OllamaPromptHead := "\n            Na podstawie następującego tekstu odpowiedz na pytanie użytkownika.\n            \n            TEKST:\n            "
  const OllamaPromptMiddle := "  # Ograniczenie długości kontekstu\n            \n            PYTANIE: "
  const OllamaPromptTail := "\n            \n            ODPOWIEDŹ:\n            "

  /** What the HTTP exchange with the Ollama service gave. */
  datatype HttpOutcome =
    | Answered(status: nat, json: ResponseJson)  // a response arrived
    | ConnectionError                            // `requests.exceptions.ConnectionError`
    | OtherError(message: string)                // any other exception, as `str(e)`

  /**
   * The body of a response as `response.json()` reads it. A body that parses
   * to something other than an object makes `.get` raise, and the handler
   * reports that as it reports a parse error, so it is an `Unparsable` too.
   */
  datatype ResponseJson =
    | Fields(response: Option<string>)  // an object: `Some` holds its string `response` value, `None` means the key is absent
    | Unparsable(message: string)       // `response.json()` or `.get` raised, with `str(e)` as the message

  /** The Ollama service: the outcome of posting a prompt. */
  type Service = string -> HttpOutcome

  /** The loaded pipeline: the `generated_text` of its first sequence for a prompt, or an exception. */
  type Generator = string -> Outcome<string>

  /** The document text a backend sees: `context[:limit]`. */
  function ContextLimit(useOllama: bool): nat {
    if useOllama then OllamaContextLimit else PipelineContextLimit
  }

  /** The document text embedded in the prompt of the selected backend. */
  function Excerpt(useOllama: bool, context: string): string {
    Prefix(context, ContextLimit(useOllama))
  }

  /** The Ollama prompt: the fixed instruction first, then the excerpt and the question. */
  function OllamaPrompt(context: string, question: string): (r: string)
    ensures OllamaPromptHead <= r
  {
    OllamaPromptHead + Excerpt(true, context) + OllamaPromptMiddle + question + OllamaPromptTail
  }

  /** The pipeline prompt: the excerpt and the question, ending with the marker the answer follows. */
  function PipelinePrompt(context: string, question: string): (r: string)
    ensures |AnswerMarker| <= |r| && r[|r| - |AnswerMarker|..] == AnswerMarker
  {
    "Kontekst: " + Excerpt(false, context) + "\nPytanie: " + question + "\n" + AnswerMarker
  }

  /** The decimal digit for `d`. */
  function DigitChar(d: nat): (c: char)
    requires d < 10
    ensures '0' <= c <= '9' && c as int - '0' as int == d
  {
    ('0' as int + d) as char
  }

  /** `str(n)` for a non-negative integer: its decimal digits, no leading zero. */
  function Decimal(n: nat): (s: string)
    ensures s != [] && AllDigits(s)
    ensures |s| > 1 ==> s[0] != '0'
  {
    if n < 10 then [DigitChar(n)] else Decimal(n / 10) + [DigitChar(n % 10)]
  }

  predicate AllDigits(s: string) {
    forall i :: 0 <= i < |s| ==> '0' <= s[i] <= '9'
  }

  /** The number a string of decimal digits denotes. */
  function DecimalValue(s: string): nat
    requires AllDigits(s)
  {
    if s == [] then 0 else 10 * DecimalValue(s[..|s| - 1]) + (s[|s| - 1] as int - '0' as int)
  }

  /** Reading back the decimal form of `n` gives `n`. */
  lemma {:induction false} DecimalRoundTrip(n: nat)
    ensures DecimalValue(Decimal(n)) == n
  {
    if n >= 10 {
      DecimalRoundTrip(n / 10);
      var s := Decimal(n);
      assert s[..|s| - 1] == Decimal(n / 10);
    }
  }

  /** The reply `query_ollama` returns for an HTTP outcome; no outcome makes it raise. */
  function OllamaReply(outcome: HttpOutcome): (r: string)
    ensures outcome.Answered? && outcome.status != 200 ==>
              ApiErrorPrefix <= r && AllDigits(r[|ApiErrorPrefix|..])
    ensures outcome.OtherError? || (outcome.Answered? && outcome.status == 200 && outcome.json.Unparsable?) ==>
              ErrorPrefix <= r
  {
    match outcome
    case ConnectionError => UnreachableMessage
    case OtherError(message) => ErrorPrefix + message
    case Answered(status, json) =>
      if status != 200 then ApiErrorPrefix + Decimal(status)
      else
        match json
        case Unparsable(message) => ErrorPrefix + message
        case Fields(response) => if response.Some? then response.value else NoResponseText
  }

  /**
   * A response other than 200 is reported as `"Błąd API: "` followed by the
   * status code, from which the code can be read back.
   */
  lemma ApiErrorNamesStatus(status: nat, json: ResponseJson)
    requires status != 200
    ensures var r := OllamaReply(Answered(status, json));
            |ApiErrorPrefix| <= |r| && r[..|ApiErrorPrefix|] == ApiErrorPrefix &&
            AllDigits(r[|ApiErrorPrefix|..]) && DecimalValue(r[|ApiErrorPrefix|..]) == status
  {
    var r := OllamaReply(Answered(status, json));
    assert r[|ApiErrorPrefix|..] == Decimal(status);
    DecimalRoundTrip(status);
  }

  /** A 200 response yields its `response` field, or `"Brak odpowiedzi"` when the field is missing. */
  lemma SuccessYieldsResponseField(response: Option<string>)
    ensures OllamaReply(Answered(200, Fields(response))) ==
            (if response.Some? then response.value else NoResponseText)
  {
  }

  /**
   * A failed exchange is reported, not raised: an unreachable service gives
   * the fixed message, and any other exception, or a body that is not
   * JSON, gives `"Błąd: "` followed by the exception's text.
   */
  lemma FailuresBecomeMessages(outcome: HttpOutcome)
    requires outcome.ConnectionError? || outcome.OtherError? || (outcome.Answered? && outcome.status == 200 && outcome.json.Unparsable?)
    ensures var r := OllamaReply(outcome);
            var message := if outcome.OtherError? then outcome.message else if outcome.Answered? then outcome.json.message else "";
            if outcome.ConnectionError? then r == UnreachableMessage
            else |ErrorPrefix| <= |r| && r[..|ErrorPrefix|] == ErrorPrefix && r[|ErrorPrefix|..] == message
  {
  }

  /**
   * The answer taken from generated text: what follows the last occurrence
   * of the marker (all of it when there is none), stripped.
   */
  function PipelineAnswer(generated: string): (r: string)
    ensures Trimmed(r)
    ensures !Contains(r, AnswerMarker)
  {
    LastPieceMarkerFree(generated, AnswerMarker);
    StripKeepsAbsence(LastPiece(generated, AnswerMarker), AnswerMarker);
    Strip(LastPiece(generated, AnswerMarker))
  }

  /** Without the marker in the generated text, the answer is the whole text stripped. */
  lemma PipelineAnswerWithoutMarker(generated: string)
    requires !Contains(generated, AnswerMarker)
    ensures PipelineAnswer(generated) == Strip(generated)
  {
    LastPieceMarkerFree(generated, AnswerMarker);
  }

  /** With the marker present, the answer is the stripped text after an occurrence of it. */
  lemma PipelineAnswerAfterMarker(generated: string)
    requires Contains(generated, AnswerMarker)
    ensures exists k: nat | k + |AnswerMarker| <= |generated| ::
              OccursAt(generated, AnswerMarker, k) &&
              PipelineAnswer(generated) == Strip(generated[k + |AnswerMarker|..])
  {
    LastPieceFollowsSeparator(generated, AnswerMarker);
    var piece := LastPiece(generated, AnswerMarker);
    var k := |generated| - |piece| - |AnswerMarker|;
    assert generated[k + |AnswerMarker|..] == piece;
  }

  /**
   * `answer_question`: the Ollama path never raises; the pipeline path
   * answers with the fixed message when no pipeline is loaded, and
   * otherwise propagates an exception of the pipeline.
   */
  function Answer(useOllama: bool, pipeline: Option<Generator>, service: Service,
                  question: string, context: string): (r: Outcome<string>)
    ensures useOllama ==> r == Returned(OllamaReply(service(OllamaPrompt(context, question))))
    ensures !useOllama && pipeline.None? ==> r == Returned(NotLoadedMessage)
    ensures !useOllama && pipeline.Some? ==>
              match pipeline.value(PipelinePrompt(context, question))
              case Raised => r.Raised?
              case Returned(generated) => r == Returned(PipelineAnswer(generated))
    ensures !useOllama && pipeline.Some? && r.Returned? ==>
              Trimmed(r.value) && !Contains(r.value, AnswerMarker)
  {
    if useOllama then Returned(OllamaReply(service(OllamaPrompt(context, question))))
    else if pipeline.None? then Returned(NotLoadedMessage)
    else
      match pipeline.value(PipelinePrompt(context, question))
      case Raised => Raised
      case Returned(generated) => Returned(PipelineAnswer(generated))
  }

  /**
   * The embedded text is the document's first 3000 characters on the
   * Ollama path and its first 1000 on the pipeline path, or the whole
   * document when it is shorter.
   */
  lemma ExcerptIsBoundedPrefix(useOllama: bool, context: string)
    ensures var n := if useOllama then 3000 else 1000;
            var excerpt := Excerpt(useOllama, context);
            excerpt <= context && |excerpt| == (if |context| <= n then |context| else n)
  {
  }

  /** The Ollama prompt embeds the excerpt and the question verbatim. */
  lemma OllamaPromptEmbedsExcerptAndQuestion(context: string, question: string)
    ensures OccursAt(OllamaPrompt(context, question), Excerpt(true, context), |OllamaPromptHead|)
    ensures OccursAt(OllamaPrompt(context, question), question,
                     |OllamaPromptHead| + |Excerpt(true, context)| + |OllamaPromptMiddle|)
  {
    FiveParts(OllamaPromptHead, Excerpt(true, context), OllamaPromptMiddle, question, OllamaPromptTail);
  }

  /** The pipeline prompt embeds the excerpt and the question verbatim, and ends with the marker. */
  lemma PipelinePromptEmbedsExcerptAndQuestion(context: string, question: string)
    ensures OccursAt(PipelinePrompt(context, question), Excerpt(false, context), 10)
    ensures OccursAt(PipelinePrompt(context, question), question,
                     10 + |Excerpt(false, context)| + 10)
    ensures OccursAt(PipelinePrompt(context, question), AnswerMarker,
                     |PipelinePrompt(context, question)| - |AnswerMarker|)
  {
    var e := Excerpt(false, context);
    FiveParts("Kontekst: ", e, "\nPytanie: ", question, "\n" + AnswerMarker);
    var p := PipelinePrompt(context, question);
    assert p == ("Kontekst: " + e + "\nPytanie: " + question + "\n") + AnswerMarker + "";
    OccursBetween("Kontekst: " + e + "\nPytanie: " + question + "\n", AnswerMarker, "");
  }

  /** In `a + m + b + q + c`, `m` starts right after `a` and `q` right after `a + m + b`. */
  lemma FiveParts(a: string, m: string, b: string, q: string, c: string)
    ensures OccursAt(a + m + b + q + c, m, |a|)
    ensures OccursAt(a + m + b + q + c, q, |a| + |m| + |b|)
  {
    var s := a + m + b + q + c;
    assert s == a + m + (b + q + c);
    OccursBetween(a, m, b + q + c);
    assert s == (a + m + b) + q + c;
    OccursBetween(a + m + b, q, c);
  }

  lemma OccursBetween(a: string, b: string, c: string)
    ensures OccursAt(a + b + c, b, |a|)
  {
    assert (a + b + c)[|a|..|a| + |b|] == b;
  }

  /** Document text past the backend's limit has no influence on the answer. */
  lemma AnswerIgnoresTextBeyondLimit(useOllama: bool, pipeline: Option<Generator>, service: Service,
                                     question: string, context: string, extra: string)
    requires |context| >= ContextLimit(useOllama)
    ensures Answer(useOllama, pipeline, service, question, context + extra)
            == Answer(useOllama, pipeline, service, question, context)
  {
    var n := ContextLimit(useOllama);
    assert (context + extra)[..n] == context[..n];
    if useOllama {
      assert Excerpt(true, context + extra) == Excerpt(true, context);
    } else {
      assert Excerpt(false, context + extra) == Excerpt(false, context);
    }
  }
}

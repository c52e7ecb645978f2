/**
 * `PDFLlamaAssistant`: the object the application keeps for a session. Its
 * fields are updated in place; its methods are the loops and dispatches of
 * the source, each proved to compute the specification function of the
 * module that states its properties.
 */
module Assistant {
  import opened PyText
  import opened TextExtraction
  import opened Answering
  import opened Entities

  class PDFLlamaAssistant {
    /** The extracted document text the entity extractor reads (set by the application). */
    var pdfText: string
    var pdfName: string
    /** Which backend answers questions: the Ollama service, or the loaded pipeline. */
    var useOllama: bool
    /** The text-generation pipeline, once one has been loaded. */
    var qaPipeline: Option<Generator>

    constructor()
      ensures pdfText == "" && pdfName == "" && !useOllama && qaPipeline == None
    {
      pdfText := "";
      pdfName := "";
      useOllama := false;
      qaPipeline := None;
    }

    /**
     * `load_model`: `"local"` selects the Ollama service and keeps any
     * pipeline; any other choice creates a pipeline (`created`) and selects
     * it, and when creating it raises, reports failure and changes nothing.
     */
    method LoadModel(choice: string, created: Outcome<Generator>) returns (ok: bool)
      modifies this
      ensures choice == "local" ==> ok && useOllama && qaPipeline == old(qaPipeline)
      ensures choice != "local" && created.Raised? ==>
                !ok && useOllama == old(useOllama) && qaPipeline == old(qaPipeline)
      ensures choice != "local" && created.Returned? ==>
                ok && !useOllama && qaPipeline == Some(created.value)
      ensures pdfText == old(pdfText) && pdfName == old(pdfName)
    {
      if choice == "local" {
        useOllama := true;
      } else {
        match created
        case Raised =>
          return false;
        case Returned(pipeline) =>
          qaPipeline := Some(pipeline);
          useOllama := false;
      }
      return true;
    }

    /**
     * `extract_text_from_pdf`: the primary reader's pages, then, when they
     * gave only whitespace, the secondary reader's pages appended to the
     * same text; an exception anywhere ends the extraction with `""`.
     */
    method ExtractTextFromPdf(primary: PrimaryPdf, secondary: SecondaryPdf) returns (result: string)
      ensures result == ExtractedText(primary, secondary)
    {
      if primary.Raised? {
        return "";
      }
      var first := ReadPrimaryPages(primary.value);
      if first.Raised? {
        return "";
      }
      var text := first.value;
      if Strip(text) == "" {
        if secondary.Raised? {
          return "";
        }
        var appended := AppendSecondaryPages(text, secondary.value);
        if appended.Raised? {
          return "";
        }
        text := appended.value;
      }
      return Strip(text);
    }

    /** The primary reader's page loop: each truthy page text and a newline, or `Raised` when a page raises. */
    method ReadPrimaryPages(pages: seq<Outcome<Option<string>>>) returns (r: Outcome<string>)
      ensures r == PrimaryPass(Returned(pages))
    {
      var text := "";
      for k := 0 to |pages|
        invariant AllReturned(pages[..k])
        invariant text == Lines(PrimaryTexts(pages[..k]))
      {
        match pages[k]
        case Raised =>
          assert !AllReturned(pages);
          return Raised;
        case Returned(pageText) =>
          PrimaryStep(pages, k);
          if pageText.Some? && pageText.value != "" {
            text := text + pageText.value + "\n";
          }
      }
      assert pages[..|pages|] == pages;
      return Returned(text);
    }

    /** The secondary reader's page loop: every page text and a newline appended to `text`, or `Raised`. */
    method AppendSecondaryPages(text: string, pages: seq<Outcome<string>>) returns (r: Outcome<string>)
      ensures SecondaryPass(Returned(pages)).Raised? ==> r.Raised?
      ensures SecondaryPass(Returned(pages)).Returned? ==> r == Returned(text + SecondaryPass(Returned(pages)).value)
    {
      var acc := text;
      for k := 0 to |pages|
        invariant AllReturned(pages[..k])
        invariant acc == text + Lines(SecondaryTexts(pages[..k]))
      {
        match pages[k]
        case Raised =>
          assert !AllReturned(pages);
          return Raised;
        case Returned(pageText) =>
          SecondaryStep(pages, k);
          acc := acc + pageText + "\n";
      }
      assert pages[..|pages|] == pages;
      return Returned(acc);
    }

    /**
     * `answer_question`: the prompt for the selected backend, and the
     * backend's reply turned into the answer.
     */
    method AnswerQuestion(question: string, context: string, service: Service) returns (answer: Outcome<string>)
      ensures answer == Answer(useOllama, qaPipeline, service, question, context)
    {
      if useOllama {
        var prompt := OllamaPrompt(context, question);
        answer := Returned(OllamaReply(service(prompt)));
      } else {
        var prompt := PipelinePrompt(context, question);
        if qaPipeline.Some? {
          match qaPipeline.value(prompt)
          case Raised =>
            answer := Raised;
          case Returned(generated) =>
            answer := Returned(PipelineAnswer(generated));
        } else {
          answer := Returned(NotLoadedMessage);
        }
      }
    }

    /**
     * `extract_specific_info`: the findall results of the category's rules,
     * accumulated rule by rule, then deduplicated.
     */
    method ExtractSpecificInfo(infoType: string, x: Externals) returns (found: seq<string>)
      ensures NoDuplicates(found)
      ensures forall s :: s in found <==> s in CategoryFound(x, infoType, pdfText)
      ensures infoType !in Categories ==> found == []
    {
      var results: seq<string> := [];
      if infoType == "adresy_email" {
        results := FindAll(x, EmailRule, pdfText);
        assert [EmailRule][..0] == [];
        assert AllFound(x, [EmailRule], pdfText) == [] + results == results;
      } else {
        var rules: seq<Rule> := if RulesFor(infoType).Some? then RulesFor(infoType).value else [];
        for k := 0 to |rules|
          invariant results == AllFound(x, rules[..k], pdfText)
        {
          AllFoundStep(x, rules, k, pdfText);
          results := results + FindAll(x, rules[k], pdfText);
        }
        assert rules[..|rules|] == rules;
      }
      assert results == CategoryFound(x, infoType, pdfText);
      found := Distinct(results);
    }
  }

  lemma PrimaryStep(pages: seq<Outcome<Option<string>>>, k: nat)
    requires k < |pages| && AllReturned(pages[..k]) && pages[k].Returned?
    ensures AllReturned(pages[..k + 1])
    ensures var page := pages[k].value;
            Lines(PrimaryTexts(pages[..k + 1])) ==
            Lines(PrimaryTexts(pages[..k])) + (if page.Some? && page.value != "" then page.value + "\n" else "")
  {
    assert pages[..k + 1][..k] == pages[..k];
    var page := pages[k].value;
    if page.Some? && page.value != "" {
      assert PrimaryTexts(pages[..k + 1]) == PrimaryTexts(pages[..k]) + [page.value];
      LinesSnoc(PrimaryTexts(pages[..k]), page.value);
    } else {
      assert PrimaryTexts(pages[..k + 1]) == PrimaryTexts(pages[..k]) + [];
      assert PrimaryTexts(pages[..k]) + [] == PrimaryTexts(pages[..k]);
    }
  }

  lemma SecondaryStep(pages: seq<Outcome<string>>, k: nat)
    requires k < |pages| && AllReturned(pages[..k]) && pages[k].Returned?
    ensures AllReturned(pages[..k + 1])
    ensures Lines(SecondaryTexts(pages[..k + 1])) == Lines(SecondaryTexts(pages[..k])) + pages[k].value + "\n"
  {
    assert pages[..k + 1][..k] == pages[..k];
    LinesSnoc(SecondaryTexts(pages[..k]), pages[k].value);
  }

  lemma AllFoundStep(x: Externals, rules: seq<Rule>, k: nat, t: string)
    requires k < |rules|
    ensures AllFound(x, rules[..k + 1], t) == AllFound(x, rules[..k], t) + FindAll(x, rules[k], t)
  {
    assert rules[..k + 1][..k] == rules[..k];
  }

  lemma LinesSnoc(texts: seq<string>, s: string)
    ensures Lines(texts + [s]) == Lines(texts) + s + "\n"
  {
    assert (texts + [s])[..|texts|] == texts;
  }
}

# PDF LLaMA assistant — a verified model of its core

The application (`pdf_llama_app.py`) lets a user upload a PDF, ask
questions about it through a language model, and pull dates, numbers,
company names, e-mail addresses and phone numbers out of it. Everything it
does lives in one class, `PDFLlamaAssistant`. This project models the
deterministic logic of that class:

- **Text extraction with fallback** (`extract_text_from_pdf`).
  - pdfplumber runs first. Each non-empty page text is appended with a newline.
  - PyPDF2 runs only when the result is whitespace only. It appends to the same text, every page included.
  - Any exception gives `""`. The result is stripped.
- **Answer dispatch** (`answer_question`, and the reply mapping of `query_ollama`).
  - The document is cut to its first 3000 characters (Ollama) or 1000 (pipeline).
  - The pipeline's output is post-processed as `split("Odpowiedź:")[-1].strip()`.
  - Every HTTP outcome maps to a reply string.
- **Entity extraction** (`extract_specific_info`).
  - Each category has an ordered list of regular expressions.
  - Each expression contributes its `re.findall` results.
  - The results are concatenated and deduplicated with `list(set(...))`.
  - An unknown category gives `[]`.

Modules:

- `PyText` (`pytext.dfy`): the Python `str` operations the code relies on: `isspace`, `strip`, `s[:n]`, `split(sep)[-1]`.
- `TextExtraction` (`textextraction.dfy`): the two readers as page sequences, and the function the extraction computes.
- `Answering` (`answering.dfy`): prompts, truncation, the marker post-processing and the Ollama reply mapping.
- `Regex` (`regex.dfy`): the fragment of Python's `re` the hand-modelled rules use.
  - `MatchFrom` is a backtracking matcher, in `re`'s order.
  - `Accepts` is the declarative reading of a pattern.
  - The two are proved to agree, and what a capturing group reports is proved.
- `Entities` (`entities.dfy`): the rules of every category, the `re.findall` scan, accumulation and deduplication.
  - The scan is proved to be exactly the leftmost non-overlapping matches.
- `Assistant` (`assistant.dfy`): the class `PDFLlamaAssistant` with its fields.
  - Its methods are the source's loops and branches.
  - Each method is proved to compute the specification function of its module.

Two behaviours of the code shape the model's types:

- `answer_question` has no `try` around the pipeline call, so an exception raised by the loaded pipeline leaves the method. `Answering.Answer` and `AnswerQuestion` therefore return an `Outcome` that can be `Raised`.
- `extract_text_from_pdf` returns `""` when reading the PDF raises and also when the PDF holds no text. The model returns `""` in both cases too.

## Model

| member | source | states |
|---|---|---|
| PyText.Strip | pdf_llama_app.py:67 | `str.strip()`: the result neither starts nor ends with whitespace, and it is the slice of the input left after removing a whitespace-only prefix and suffix |
| PyText.StripUnique | pdf_llama_app.py:67 | for blank `a` and `c` and a trimmed `b`, stripping `a + b + c` gives exactly `b` |
| PyText.StripEmptyIffBlank | pdf_llama_app.py:57 | `not text.strip()` holds exactly when every character of `text` is whitespace |
| PyText.StripIdempotent | pdf_llama_app.py:67 | stripping a stripped string changes nothing |
| PyText.AsciiWhitespace | pdf_llama_app.py:57 | among ASCII characters, `str.isspace` holds exactly for space, `\t`, `\n`, `\v`, `\f`, `\r` and the separators `\x1c`-`\x1f` |
| PyText.StripBlankPrefix | pdf_llama_app.py:57-61 | a whitespace-only prefix does not change the result of `strip` |
| PyText.Prefix | pdf_llama_app.py:97 | `s[:n]` has length `min(len(s), n)` and is a prefix of `s` |
| PyText.FindFrom | pdf_llama_app.py:109 | a reported position is an occurrence of the separator at or after the search start |
| PyText.FindFromFirst | pdf_llama_app.py:109 | the search finds something whenever an occurrence exists, and no later than any occurrence |
| PyText.LastPiece | pdf_llama_app.py:109 | `s.split(m)[-1]` is a suffix of `s` |
| PyText.NothingAfterLastStart | pdf_llama_app.py:109 | no occurrence of the separator starts inside the last piece |
| PyText.LastPieceMarkerFree | pdf_llama_app.py:109 | the last piece contains no separator, and it is the whole string when the separator is absent |
| PyText.LastPieceFollowsSeparator | pdf_llama_app.py:109 | when the separator occurs, the last piece directly follows an occurrence of it |
| PyText.StripKeepsAbsence | pdf_llama_app.py:109 | stripping cannot create an occurrence of the marker |
| TextExtraction.PrimaryTexts | pdf_llama_app.py:51-53 | the texts pdfplumber contributes: at most one per page, and never an empty one |
| TextExtraction.SecondaryTexts | pdf_llama_app.py:60-61 | the texts PyPDF2 contributes: exactly one per page, each that page's text, in page order |
| TextExtraction.Lines | pdf_llama_app.py:54 | accumulating `text + "\n"` gives `""` exactly when there are no texts, and otherwise ends with a newline and has at least one character per text |
| TextExtraction.PrimaryPass | pdf_llama_app.py:50-54 | the pdfplumber pass raises exactly when opening the file raises or the extraction of some page raises |
| TextExtraction.SecondaryPass | pdf_llama_app.py:59-61 | the PyPDF2 pass raises exactly when creating the reader raises or the extraction of some page raises; otherwise its text has at least one character per page |
| TextExtraction.ExtractedText | pdf_llama_app.py:45-67 | the extraction result never starts or ends with whitespace, and it is `""` whenever opening or reading the first reader raises |
| TextExtraction.LinesAppend | pdf_llama_app.py:51-54 | accumulating `page + "\n"` over two runs of pages gives the two accumulations concatenated |
| TextExtraction.PrimaryBlankIffPagesBlank | pdf_llama_app.py:51-57 | the fallback is taken exactly when every page of the first reader that gave text gave whitespace only |
| TextExtraction.SecondaryIgnoredAfterVisiblePrimary | pdf_llama_app.py:56-61 | once the first reader yields a visible character, the second reader's behaviour does not affect the result |
| TextExtraction.FallbackResult | pdf_llama_app.py:57-67 | on fallback, the second reader's text is appended to the first's accumulator, and the result equals the stripped text of the second reader alone |
| TextExtraction.FallbackRaisedGivesEmpty | pdf_llama_app.py:57-65 | an exception in the second reader during a fallback makes the result `""` |
| TextExtraction.FallbackExample | pdf_llama_app.py:45-67 | a first reader whose one page has no text, and a second reader giving `"ok"`, give `"ok"` |
| Answering.OllamaPrompt | pdf_llama_app.py:93-102 | the Ollama prompt starts with the fixed instruction text |
| Answering.PipelinePrompt | pdf_llama_app.py:106 | the pipeline prompt ends with the marker `"Odpowiedź:"` |
| Answering.OllamaReply | pdf_llama_app.py:79-88 | a status other than 200 gives `"Błąd API: "` followed by decimal digits; another exception, or a 200 response whose body cannot be parsed, gives a message starting with `"Błąd: "` |
| Answering.Decimal | pdf_llama_app.py:83 | `str(code)`: non-empty decimal digits without a leading zero |
| Answering.DecimalRoundTrip | pdf_llama_app.py:83 | reading the decimal text of a number back gives the number |
| Answering.ApiErrorNamesStatus | pdf_llama_app.py:80-83 | a status other than 200 gives `"Błąd API: "` followed by digits that denote exactly that status |
| Answering.SuccessYieldsResponseField | pdf_llama_app.py:80-81 | status 200 gives the `response` field, or `"Brak odpowiedzi"` when the field is missing |
| Answering.FailuresBecomeMessages | pdf_llama_app.py:81-88 | no failure raises: an unreachable service gives the fixed "Nie można połączyć się z Ollama…" message, and another exception or an unparsable body gives `"Błąd: "` followed by the exception's text |
| Answering.PipelineAnswer | pdf_llama_app.py:109 | the pipeline's answer never starts or ends with whitespace and never contains `"Odpowiedź:"` |
| Answering.PipelineAnswerWithoutMarker | pdf_llama_app.py:109 | without the marker in the generated text, the answer is the whole text stripped |
| Answering.PipelineAnswerAfterMarker | pdf_llama_app.py:109 | with the marker present, the answer is the stripped text after an occurrence of the marker |
| Answering.Answer | pdf_llama_app.py:90-111 | the Ollama path returns the reply for the Ollama prompt and never raises. With no pipeline the answer is `"Model nie został załadowany poprawnie."`. With a pipeline, the pipeline runs on the pipeline prompt: if it raises, the answer raises; if it returns text, the answer is `PipelineAnswer` of that text, which is trimmed and marker-free |
| Answering.ExcerptIsBoundedPrefix | pdf_llama_app.py:97-106 | the embedded context is a prefix of the document of length `min(len, 3000)` on the Ollama path and `min(len, 1000)` on the pipeline path |
| Answering.OllamaPromptEmbedsExcerptAndQuestion | pdf_llama_app.py:93-102 | the Ollama prompt contains the excerpt and the question verbatim, at fixed places |
| Answering.PipelinePromptEmbedsExcerptAndQuestion | pdf_llama_app.py:106 | the pipeline prompt contains the excerpt and the question verbatim, and it ends with the marker |
| Answering.AnswerIgnoresTextBeyondLimit | pdf_llama_app.py:92-111 | document text past the backend's limit has no influence on the answer |
| Regex.FoldLetters | pdf_llama_app.py:126 | `re.IGNORECASE` folding keeps lower-case ASCII letters, maps each upper-case ASCII letter to its lower-case partner, and changes no other ASCII character |
| Regex.FoldIdempotent | pdf_llama_app.py:126 | folding a folded character changes nothing |
| Regex.Run | pdf_llama_app.py:121-158 | a greedy repetition takes characters of its class only, within its bound, and stops only at the bound, the end, or a character outside the class |
| Regex.MatchFrom | pdf_llama_app.py:121-158 | a match ends within the text, at least the pattern's minimum length past its start |
| Regex.AfterWord | pdf_llama_app.py:123 | a group alternative matches exactly when its word is at the position and the rest of the pattern matches after it; a capturing group captures text spelling that word |
| Regex.MatchFromCapture | pdf_llama_app.py:123-126 | a match captures text exactly when the pattern has a capturing group, and the capture spells one of that group's words |
| Regex.MatchFromSound | pdf_llama_app.py:121-158 | every match the matcher reports is accepted by the pattern's declarative reading |
| Regex.MatchFromComplete | pdf_llama_app.py:121-158 | whenever the pattern accepts some span at a position, the matcher finds a match there |
| Regex.MatchFromIffAccepts | pdf_llama_app.py:121-158 | the matcher succeeds at a position exactly when the pattern accepts some span starting there |
| Regex.RepStep | pdf_llama_app.py:121-158 | a match at a leading repetition continues after an admissible count of the class, and the repetition is greedy: after no longer admissible count does the rest of the pattern match |
| Regex.GroupStep | pdf_llama_app.py:123-158 | a match at a leading group continues after one of its words, the first in the written order after which the rest of the pattern matches |
| Regex.TrailingGroupWord | pdf_llama_app.py:143-144 | in a pattern ending in a group, a match ends right after a word of that group, and no earlier word of the group can be read where that word starts |
| Entities.RulesFor | pdf_llama_app.py:118-162 | the five category names, and only they, have rules; each has one to three rules; exactly the date rules ignore case |
| Entities.HitAt | pdf_llama_app.py:126-161 | a match `re.findall` uses is non-empty and ends within the text |
| Entities.PatternRulesMatchNonEmpty | pdf_llama_app.py:118-162 | every spelled-out rule needs at least one character, so dropping empty matches changes nothing for them |
| Entities.ScanFrom | pdf_llama_app.py:126 | the scan reports at most one match per remaining character, each starting at or after the scan position and ending, non-empty, within the text |
| Entities.FindAll | pdf_llama_app.py:126 | `re.findall` reports at most one string per character of the text |
| Entities.FirstFound | pdf_llama_app.py:126 | when a rule matches at the very start of the text, that match's report is among the strings `re.findall` returns |
| Entities.ScanIsLeftmost | pdf_llama_app.py:126 | the `re.findall` scan yields matches left to right, without overlap, each the match at its start, with no match starting in a gap |
| Entities.LeftmostMatchesAreTheScan | pdf_llama_app.py:126 | any list of matches with that description is the scan's list |
| Entities.FoundTextsComeFromMatches | pdf_llama_app.py:126-127 | every string `re.findall` reports is what the rule's match at some position reports |
| Entities.GroupedRuleReportsWords | pdf_llama_app.py:123-127 | a rule with a capturing group reports only text spelling one of the group's words |
| Entities.WordDateReportsMonths | pdf_llama_app.py:123-127 | the word-date rule as written reports month words (in the text's own case), never dates |
| Entities.WordDateDropsTheDate | pdf_llama_app.py:123-127 | the word-date rule as written matches `"1 maja 2023"` in full, yet no document makes it report that date |
| Entities.NumericDateSpan | pdf_llama_app.py:121-122 | a pattern made only of repetitions of digits and date separators accepts only text of digits and `.`, `/`, `-` |
| Entities.NumericRuleFound | pdf_llama_app.py:121-127 | such a rule, which has no capturing group, reports only non-empty strings of digits and date separators |
| Entities.DatesFoundAreNumericDatesOrMonths | pdf_llama_app.py:118-127 | every string the extractor reports for `"daty"` is either a month word (in the text's own case) or a non-empty string of digits and date separators |
| Entities.ExtractedDatesMissSampleDate | pdf_llama_app.py:118-127 | no document makes the extractor report `"1 maja 2023"` among its dates |
| Entities.SampleDateGivesMonthWord | pdf_llama_app.py:118-127 | on the document `"1 maja 2023"`, the extractor's dates include a month word |
| Entities.WholeWordDateReportsDates | pdf_llama_app.py:123-127 | with the group not capturing, every reported string is a whole match of the date rule in the text |
| Entities.WholeWordDateAcceptsSample | pdf_llama_app.py:123 | the corrected word-date rule matches `"1 maja 2023"` in full |
| Entities.WholeWordDateNeedsEleven | pdf_llama_app.py:123 | the corrected word-date pattern cannot match fewer than 11 characters |
| Entities.CorrectedDatesAreWholeMatches | pdf_llama_app.py:118-127 | with the corrected date rules, every reported date is a non-empty slice of the document |
| Entities.CorrectedRulesFindSampleDate | pdf_llama_app.py:118-127 | with the corrected date rules, the document `"1 maja 2023"` yields that whole date |
| Entities.PolishCompanyNeverEndsInFullForm | pdf_llama_app.py:143-148 | in no document does the Polish company rule as written report a name ending in ` z o.o.`: its second-to-last character is never `o` |
| Entities.ShadowedWordNeverEnds | pdf_llama_app.py:143-148 | when a rule's last group lists a word before a longer word it begins, a report never ends in the longer word's characters that no other word shares |
| Entities.PolishCompanyCutsSample | pdf_llama_app.py:143-148 | on the document `"Abc Sp. z o.o."` the rule as written reports `"Abc Sp."` and not the whole name |
| Entities.LongFormNotCut | pdf_llama_app.py:143 | when a pattern's last group lists `short + tail` before `short` and no other word can end in `short`, a match never stops after `short` with `tail` next in the text |
| Entities.CorrectedSuffixes | pdf_llama_app.py:143 | the rule with `Sp. z o.o.` listed first meets that condition, so its matches never stop at `Sp.` when ` z o.o.` follows |
| Entities.CorrectedCompanyFindsSample | pdf_llama_app.py:143-148 | with `Sp. z o.o.` listed first, the document `"Abc Sp. z o.o."` yields the whole name |
| Entities.UncapturedRuleReportsMatches | pdf_llama_app.py:131-162 | a rule without a capturing group reports, for each match, the whole matched text, which the pattern accepts |
| Entities.UngroupedRuleReportsPieces | pdf_llama_app.py:131-162 | every rule without a capturing group, the unmodelled ones included, reports non-empty pieces of the text |
| Entities.CategoryFound | pdf_llama_app.py:118-164 | an unknown category finds nothing |
| Entities.InAllFoundIffSomeRule | pdf_llama_app.py:125-162 | a string is accumulated in `results` exactly when some rule of the category finds it |
| Entities.Distinct | pdf_llama_app.py:164 | `list(set(results))` has no duplicates and has exactly the elements of `results` |
| Entities.SameElementsPermutation | pdf_llama_app.py:164 | two duplicate-free lists with the same elements are permutations of each other, so the order `set` picks affects nothing else |
| Assistant.PDFLlamaAssistant.constructor | pdf_llama_app.py:14-20 | a new assistant has no text, no name, no pipeline and the pipeline backend selected |
| Assistant.PDFLlamaAssistant.LoadModel | pdf_llama_app.py:22-43 | `"local"` selects Ollama and succeeds. Any other choice installs and selects the created pipeline; if creating it raises, the result is failure and nothing changes. The document fields are never touched |
| Assistant.PDFLlamaAssistant.ReadPrimaryPages | pdf_llama_app.py:50-54 | the first reader's loop accumulates `page + "\n"` over exactly the pages with non-empty text, in page order, or raises |
| Assistant.PDFLlamaAssistant.AppendSecondaryPages | pdf_llama_app.py:59-61 | the second reader's loop appends `page + "\n"` for every page to the existing text, or raises |
| Assistant.PDFLlamaAssistant.ExtractTextFromPdf | pdf_llama_app.py:45-67 | the method computes `TextExtraction.ExtractedText` of the two readers |
| Assistant.PDFLlamaAssistant.AnswerQuestion | pdf_llama_app.py:90-111 | the method computes `Answering.Answer` for the selected backend and the loaded pipeline |
| Assistant.PDFLlamaAssistant.ExtractSpecificInfo | pdf_llama_app.py:113-164 | the result has no duplicates. Its elements are exactly what the category's rules, as written, find in the document, so a second run gives the same set. An unknown category gives `[]` |

## Left out

- Streamlit and the whole user interface (`main`, `st.*`, pandas, CSV export) are not modelled. The `st.info`/`st.error` calls inside the modelled methods only render messages.
- PDF parsing is not modelled. pdfplumber and PyPDF2 are foreign libraries. Each reader is a parameter: the outcome of opening the file, and the outcome of `extract_text()` per page. `pdf_file.seek(0)` is not modelled.
- The HTTP request to Ollama (URL, JSON body, 30-second timeout) is not modelled. Its outcome is a parameter: a status with the parsed body, a connection error, or another exception.
- The generation pipeline is a parameter: a prompt gives `generated_text`, or an exception. `max_length` and `num_return_sequences` are not modelled.
- `load_model` does not model the pipeline's construction (model name, torch, CUDA device choice). Its result is a parameter. The `model` and `tokenizer` fields, which the code never sets, are omitted.
- Answering.ResponseJson: a `response` value that is not a string is not modelled. A JSON body that is not an object is folded into `Unparsable`, because `.get` raises on it and the handler at lines 87-88 reports that as `"Błąd: "` and the message, as it does a parse error.
- `query_ollama` is modelled as the function `Answering.OllamaReply` applied to the HTTP outcome, not as a separate method.
- Number rule 1 (line 132) is a parameter (`Entities.Externals.groupedNumber`) that gives where its match at a position ends. The rule repeats a group and makes another group optional, and the modelled fragment of `re` has no item for either. Every other rule is spelled out, the company rules (lines 143-144) and the e-mail rule (line 151) included. The e-mail rule's class `[A-Z|a-z]` admits `|` as well as letters, and the model keeps that.
- Regex.IsDigit and Regex.IsWordChar take Unicode `\d` and `\w` beyond ASCII from parameters (`Regex.UnicodeTables`), not from the Unicode database.
- Regex.Fold: case-insensitive matching folds only the characters the date rules can meet. These are ASCII letters, `Ś`/`ś` and `Ź`/`ź`, and the characters Python equates with `i`, `k` and `s`. Other case pairs are not folded.
- Entities.HitAt drops empty matches. `re.findall` would report them and step one character forward. None of the spelled-out rules can match empty (`Entities.PatternRulesMatchNonEmpty`). Number rule 1 needs a digit, so it cannot match empty either; the model drops an empty result of its parameter.
- Entities.Distinct keeps first occurrences in order. Python's `set` order is unspecified. Contracts state only the elements and the absence of duplicates, and `Entities.SameElementsPermutation` shows any such order is a permutation of this one.
- The lowercased copy at line 116 is never used, and it is not modelled.
- Assistant.PDFLlamaAssistant.ExtractTextFromPdf returns `""` for an unreadable PDF and for an empty one alike, as the code does. The two are not distinguished.

## Findings

| source | as written | input that shows it | evidently intended | confidence | as-written member | corrected member |
|---|---|---|---|---|---|---|
| pdf_llama_app.py:123 | the month alternatives sit in a capturing group `(stycznia\|...\|grudnia)`, so `re.findall` returns only the month word for every match | a document containing `1 maja 2023`: the rule matches it, but `"maja"` is added to the dates instead of the date | the whole date, as the other two date rules report: a non-capturing group `(?:stycznia\|...\|grudnia)` | not executed; high (the comments at lines 121-122 show whole dates as the expected output) | Entities.ExtractedDatesMissSampleDate | Entities.CorrectedRulesFindSampleDate |
| pdf_llama_app.py:143 | the group lists `Sp\.` before `Sp\. z o\.o\.` and nothing follows it, so `re` settles on `Sp.` wherever the long suffix stands | a document containing `Abc Sp. z o.o.`: the company names include `"Abc Sp."` and not the whole name | the whole name: the long suffix listed before its prefix `Sp.` | not executed; high (a group alternative that can never be reported has no purpose) | Entities.PolishCompanyCutsSample | Entities.CorrectedCompanyFindsSample |

The extractor uses the date rules as written (`Entities.DateRules`, whose
third rule is `Entities.WordDate`). `Entities.CorrectedDateRules` replaces
that rule by `Entities.WholeWordDate`, with the group made non-capturing.
The lemmas about it prove what the code evidently intended.

The company rules keep the rule as written (`Entities.PolishCompany`), and
`Entities.PolishCompanyNeverEndsInFullForm` proves the shortened names for
every document. `Entities.CorrectedPolishCompany` lists `Sp. z o.o.` first;
`Entities.LongFormNotCut` and `Entities.CorrectedSuffixes` prove that its
matches never stop at `Sp.` before ` z o.o.`.

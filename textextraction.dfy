/**
 * Text extraction with fallback (`PDFLlamaAssistant.extract_text_from_pdf`):
 * a layout-aware reader (pdfplumber) is tried first, and a simpler reader
 * (PyPDF2) only when the first yields whitespace alone. The two readers are
 * foreign libraries; here each is the outcome of opening the document and
 * the outcome of `extract_text()` on every page, any of which may raise.
 * The loops themselves are `PDFLlamaAssistant.ExtractTextFromPdf`; this
 * module states what they compute.
 */
module TextExtraction {
  import opened PyText

  /** pdfplumber: the document, or the exception `open` raised; per page, `extract_text()` gives a text or `None`. */
  type PrimaryPdf = Outcome<seq<Outcome<Option<string>>>>

  /** PyPDF2: the document, or the exception `PdfReader` raised; per page, `extract_text()` gives a text. */
  type SecondaryPdf = Outcome<seq<Outcome<string>>>

  /** Every call in `pages` returned. */
  predicate AllReturned<T>(pages: seq<Outcome<T>>) {
    forall i :: 0 <= i < |pages| ==> pages[i].Returned?
  }

  /** The texts of the primary pages that are truthy (neither `None` nor empty), in page order. */
  function PrimaryTexts(pages: seq<Outcome<Option<string>>>): (r: seq<string>)
    requires AllReturned(pages)
    ensures |r| <= |pages|
    ensures forall k :: 0 <= k < |r| ==> r[k] != ""
  {
    if pages == [] then []
    else
      var page := pages[|pages| - 1].value;
      PrimaryTexts(pages[..|pages| - 1]) + (if page.Some? && page.value != "" then [page.value] else [])
  }

  /** The texts of the secondary pages, every page included, in page order. */
  function SecondaryTexts(pages: seq<Outcome<string>>): (r: seq<string>)
    requires AllReturned(pages)
    ensures |r| == |pages| && forall k :: 0 <= k < |r| ==> r[k] == pages[k].value
  {
    if pages == [] then [] else SecondaryTexts(pages[..|pages| - 1]) + [pages[|pages| - 1].value]
  }

  /** Each text followed by a newline, concatenated: what `text += page_text + "\n"` accumulates. */
  function Lines(texts: seq<string>): (r: string)
    ensures |texts| <= |r|
    ensures r == "" <==> texts == []
    ensures texts != [] ==> r[|r| - 1] == '\n'
  {
    if texts == [] then "" else Lines(texts[..|texts| - 1]) + texts[|texts| - 1] + "\n"
  }

  /** The primary pass: the accumulated text, or `Raised` when opening or any page raised. */
  function PrimaryPass(pdf: PrimaryPdf): (r: Outcome<string>)
    ensures r.Raised? <==> pdf.Raised? || exists i :: 0 <= i < |pdf.value| && pdf.value[i].Raised?
  {
    if pdf.Returned? && AllReturned(pdf.value) then Returned(Lines(PrimaryTexts(pdf.value))) else Raised
  }

  /** The secondary pass: the text it appends, or `Raised` when opening or any page raised. */
  function SecondaryPass(pdf: SecondaryPdf): (r: Outcome<string>)
    ensures r.Raised? <==> pdf.Raised? || exists i :: 0 <= i < |pdf.value| && pdf.value[i].Raised?
    ensures r.Returned? ==> |pdf.value| <= |r.value|
  {
    if pdf.Returned? && AllReturned(pdf.value) then Returned(Lines(SecondaryTexts(pdf.value))) else Raised
  }

  /**
   * The result of `extract_text_from_pdf`: any exception gives `""`; the
   * secondary reader runs only after a whitespace-only primary pass and
   * appends to the primary accumulator; the result is stripped.
   */
  function ExtractedText(primary: PrimaryPdf, secondary: SecondaryPdf): (r: string)
    ensures Trimmed(r)
    ensures PrimaryPass(primary).Raised? ==> r == ""
  {
    match PrimaryPass(primary)
    case Raised => ""
    case Returned(acc) =>
      if Strip(acc) != "" then Strip(acc)
      else
        match SecondaryPass(secondary)
        case Raised => ""
        case Returned(more) => Strip(acc + more)
  }

  lemma {:induction false} LinesAppend(a: seq<string>, b: seq<string>)
    decreases |b|
    ensures Lines(a + b) == Lines(a) + Lines(b)
  {
    if b != [] {
      var b' := b[..|b| - 1];
      assert (a + b)[..|a + b| - 1] == a + b';
      LinesAppend(a, b');
    } else {
      assert a + b == a;
    }
  }

  /**
   * The primary pass is whitespace-only exactly when every page that gave
   * text gave whitespace only: a page with a visible character anywhere
   * prevents the fallback.
   */
  lemma {:induction false} PrimaryBlankIffPagesBlank(pages: seq<Outcome<Option<string>>>)
    requires AllReturned(pages)
    decreases |pages|
    ensures Blank(Lines(PrimaryTexts(pages))) <==>
            forall i :: 0 <= i < |pages| && pages[i].value.Some? ==> Blank(pages[i].value.value)
  {
    if pages != [] {
      var init := pages[..|pages| - 1];
      var page := pages[|pages| - 1].value;
      assert AllReturned(init);
      PrimaryBlankIffPagesBlank(init);
      var tail := if page.Some? && page.value != "" then [page.value] else [];
      LinesAppend(PrimaryTexts(init), tail);
      BlankConcatIff(Lines(PrimaryTexts(init)), Lines(tail));
      PageLinesBlank(page);
      PagesBlankSnoc(pages);
    }
  }

  /** The lines one primary page adds are whitespace-only exactly when its text is. */
  lemma PageLinesBlank(page: Option<string>)
    ensures Blank(Lines(if page.Some? && page.value != "" then [page.value] else [])) <==>
            (page.Some? ==> Blank(page.value))
  {
    if page.Some? && page.value != "" {
      var tail := [page.value];
      assert tail[..0] == [];
      assert Lines(tail) == page.value + "\n";
      assert IsSpace("\n"[0]);
      BlankConcatIff(page.value, "\n");
    }
  }

  lemma PagesBlankSnoc(pages: seq<Outcome<Option<string>>>)
    requires pages != [] && AllReturned(pages)
    ensures var init := pages[..|pages| - 1];
            var page := pages[|pages| - 1].value;
            (forall i :: 0 <= i < |pages| && pages[i].value.Some? ==> Blank(pages[i].value.value)) <==>
            (forall i :: 0 <= i < |init| && init[i].value.Some? ==> Blank(init[i].value.value)) &&
            (page.Some? ==> Blank(page.value))
  {
    var init := pages[..|pages| - 1];
    assert forall i :: 0 <= i < |init| ==> init[i] == pages[i];
  }

  lemma BlankConcatIff(x: string, y: string)
    ensures Blank(x + y) <==> Blank(x) && Blank(y)
  {
    if Blank(x + y) {
      forall i | 0 <= i < |y| ensures IsSpace(y[i]) { assert y[i] == (x + y)[|x| + i]; }
      forall i | 0 <= i < |x| ensures IsSpace(x[i]) { assert x[i] == (x + y)[i]; }
    }
    if Blank(x) && Blank(y) { BlankConcat(x, y); }
  }

  /** The secondary reader is never consulted once the primary pass has visible text. */
  lemma SecondaryIgnoredAfterVisiblePrimary(primary: PrimaryPdf, s1: SecondaryPdf, s2: SecondaryPdf)
    requires PrimaryPass(primary).Returned? && !Blank(PrimaryPass(primary).value)
    ensures ExtractedText(primary, s1) == ExtractedText(primary, s2) == Strip(PrimaryPass(primary).value)
  {
    StripEmptyIffBlank(PrimaryPass(primary).value);
  }

  /**
   * On fallback the secondary text is appended to the whitespace-only
   * primary accumulator; after stripping, that accumulator leaves no trace,
   * so the result is the stripped secondary text.
   */
  lemma FallbackResult(primary: PrimaryPdf, secondary: SecondaryPdf)
    requires PrimaryPass(primary).Returned? && Blank(PrimaryPass(primary).value)
    requires SecondaryPass(secondary).Returned?
    ensures ExtractedText(primary, secondary)
            == Strip(PrimaryPass(primary).value + SecondaryPass(secondary).value)
            == Strip(SecondaryPass(secondary).value)
  {
    StripEmptyIffBlank(PrimaryPass(primary).value);
    StripBlankPrefix(PrimaryPass(primary).value, SecondaryPass(secondary).value);
  }

  /** A secondary reader that raises during a fallback makes the whole extraction give `""`. */
  lemma FallbackRaisedGivesEmpty(primary: PrimaryPdf, secondary: SecondaryPdf)
    requires PrimaryPass(primary).Returned? && Blank(PrimaryPass(primary).value)
    requires !secondary.Returned? || !AllReturned(secondary.value)
    ensures ExtractedText(primary, secondary) == ""
  {
    StripEmptyIffBlank(PrimaryPass(primary).value);
  }

  /** A primary reader whose only page has no text, and a secondary reader giving `"ok"`, yield `"ok"`. */
  lemma FallbackExample()
    ensures ExtractedText(Returned([Returned(None)]), Returned([Returned("ok")])) == "ok"
  {
    var primary: PrimaryPdf := Returned([Returned(None)]);
    var secondary: SecondaryPdf := Returned([Returned("ok")]);
    assert PrimaryTexts(primary.value) == [] by {
      assert primary.value[..0] == [];
    }
    assert PrimaryPass(primary) == Returned("");
    SecondaryGivesOkLine();
    OkLineStrips();
    assert "" + "ok\n" == "ok\n";
  }

  lemma SecondaryGivesOkLine()
    ensures SecondaryPass(Returned([Returned("ok")])) == Returned("ok\n")
  {
    var pages: seq<Outcome<string>> := [Returned("ok")];
    assert AllReturned(pages);
    assert pages[..0] == [];
    assert SecondaryTexts(pages) == ["ok"];
    assert ["ok"][..0] == [];
    assert Lines(["ok"]) == "ok\n";
  }

  lemma OkLineStrips()
    ensures Strip("ok\n") == "ok"
  {
    assert Trimmed("ok") by { assert "ok"[1] == 'k'; }
    assert Blank("\n") by { assert "\n"[0] == '\n'; }
    StripUnique("", "ok", "\n");
    assert "" + "ok" + "\n" == "ok\n";
  }
}

/**
 * Pattern-based entity extraction (`PDFLlamaAssistant.extract_specific_info`):
 * each category owns an ordered list of rules, each rule contributes what
 * `re.findall` returns for it on the document text, and the contributions
 * are concatenated and deduplicated.
 *
 * Every rule but one is built from the items of `Regex` and modelled
 * exactly. The first number rule repeats a group and makes another one
 * optional, which that fragment has no item for; its matcher is a
 * parameter giving where its match at a position ends.
 */
module Entities {
  import opened PyText
  import opened Regex

  /** A rule's matcher at a position (`pattern.match(text, i)`): where the match ends, if there is one. */
  type Finder = (string, nat) -> Option<nat>

  /** What the model takes from outside: Unicode tables and the one rule it does not spell out. */
  datatype Externals = Externals(
    unicode: UnicodeTables,
    groupedNumber: Finder)   // `\b\d{1,3}(?:,\d{3})*(?:\.\d{2})?\b`

  datatype Rule =
    | Pattern(items: seq<Item>, ignoreCase: bool)
    | GroupedNumber  // the first number rule, matched by `Externals.groupedNumber`

  const Months: seq<string> := ["stycznia", "lutego", "marca", "kwietnia", "maja", "czerwca",
                                "lipca", "sierpnia", "września", "października", "listopada", "grudnia"]

  /** `\d{1,2}[./\-]\d{1,2}[./\-]\d{4}`, case-insensitive */
  const DayFirstDate := Pattern([Rep(Digit, 1, Upto(2)), Rep(DateSep, 1, Upto(1)), Rep(Digit, 1, Upto(2)),
                                 Rep(DateSep, 1, Upto(1)), Rep(Digit, 4, Upto(4))], true)
  /** `\d{4}[./\-]\d{1,2}[./\-]\d{1,2}`, case-insensitive */
  const YearFirstDate := Pattern([Rep(Digit, 4, Upto(4)), Rep(DateSep, 1, Upto(1)), Rep(Digit, 1, Upto(2)),
                                  Rep(DateSep, 1, Upto(1)), Rep(Digit, 1, Upto(2))], true)
  /** `\d{1,2}\s+(stycznia|...|grudnia)\s+\d{4}`, case-insensitive, as written: the group captures */
  const WordDate := Pattern([Rep(Digit, 1, Upto(2)), Rep(Space, 1, Unbounded), Group(Months, true),
                             Rep(Space, 1, Unbounded), Rep(Digit, 4, Upto(4))], true)
  /** `\d{1,2}\s+(?:stycznia|...|grudnia)\s+\d{4}`, case-insensitive: the same rule reporting the whole date */
  const WholeWordDate := Pattern([Rep(Digit, 1, Upto(2)), Rep(Space, 1, Unbounded), Group(Months, false),
                                  Rep(Space, 1, Unbounded), Rep(Digit, 4, Upto(4))], true)
  /** `\b\d+\.\d+\b` */
  const DecimalNumber := Pattern([Boundary, Rep(Digit, 1, Unbounded), Lit('.'), Rep(Digit, 1, Unbounded), Boundary], false)
  /** `\b\d+\b` */
  const WholeNumber := Pattern([Boundary, Rep(Digit, 1, Unbounded), Boundary], false)
  /** `\b[A-ZĄĆĘŁŃÓŚŹŻ][a-ząćęłńóśźż]*\s+(?:Sp\.|Ltd\.|Inc\.|LLC|S\.A\.|Sp\. z o\.o\.)` */
  const PolishCompany := Pattern([Boundary, Rep(PolishUpper, 1, Upto(1)), Rep(PolishLower, 0, Unbounded),
                                  Rep(Space, 1, Unbounded),
                                  Group(["Sp.", "Ltd.", "Inc.", "LLC", "S.A.", "Sp. z o.o."], false)], false)
  /** `\b[A-Z][a-z]*\s+[A-Z][a-z]*\s+(?:Company|Corporation|Corp\.)` */
  const EnglishCompany := Pattern([Boundary, Rep(Upper, 1, Upto(1)), Rep(Lower, 0, Unbounded), Rep(Space, 1, Unbounded),
                                   Rep(Upper, 1, Upto(1)), Rep(Lower, 0, Unbounded), Rep(Space, 1, Unbounded),
                                   Group(["Company", "Corporation", "Corp."], false)], false)
  /** `\b[A-Za-z0-9._%+-]+@[A-Za-z0-9.-]+\.[A-Z|a-z]{2,}\b` */
  const EmailAddress := Pattern([Boundary, Rep(MailLocal, 1, Unbounded), Lit('@'), Rep(MailDomain, 1, Unbounded),
                                 Lit('.'), Rep(MailTop, 2, Unbounded), Boundary], false)
  /** `\+\d{1,3}\s*\d{3}\s*\d{3}\s*\d{3}` */
  const InternationalPhone := Pattern([Lit('+'), Rep(Digit, 1, Upto(3)), Rep(Space, 0, Unbounded), Rep(Digit, 3, Upto(3)),
                                       Rep(Space, 0, Unbounded), Rep(Digit, 3, Upto(3)),
                                       Rep(Space, 0, Unbounded), Rep(Digit, 3, Upto(3))], false)
  /** `\d{3}[-.\s]?\d{3}[-.\s]?\d{3}` */
  const LocalPhone := Pattern([Rep(Digit, 3, Upto(3)), Rep(PhoneSep, 0, Upto(1)), Rep(Digit, 3, Upto(3)),
                               Rep(PhoneSep, 0, Upto(1)), Rep(Digit, 3, Upto(3))], false)
  /** `\(\d{3}\)\s*\d{3}[-.\s]?\d{4}` */
  const AreaCodePhone := Pattern([Lit('('), Rep(Digit, 3, Upto(3)), Lit(')'), Rep(Space, 0, Unbounded),
                                  Rep(Digit, 3, Upto(3)), Rep(PhoneSep, 0, Upto(1)), Rep(Digit, 4, Upto(4))], false)

  /** The date rules as written; the third reports month words (see `WordDateReportsMonths`). */
  const DateRules: seq<Rule> := [DayFirstDate, YearFirstDate, WordDate]
  /** The date rules with the third rule's group made non-capturing, so that every rule reports whole dates. */
  const CorrectedDateRules: seq<Rule> := [DayFirstDate, YearFirstDate, WholeWordDate]
  const NumberRules: seq<Rule> := [GroupedNumber, DecimalNumber, WholeNumber]
  const CompanyRules: seq<Rule> := [PolishCompany, EnglishCompany]
  const EmailRule: Rule := EmailAddress
  const PhoneRules: seq<Rule> := [InternationalPhone, LocalPhone, AreaCodePhone]

  const Categories: seq<string> := ["daty", "liczby", "nazwy_firm", "adresy_email", "numery_telefonu"]

  /**
   * The rules of a category, in the order they are applied; `None` for a
   * string that names no category. Only the date rules ignore case.
   */
  function RulesFor(category: string): (r: Option<seq<Rule>>)
    ensures r.Some? <==> category in Categories
    ensures r.Some? ==> 1 <= |r.value| <= 3
    ensures r.Some? ==> forall rule :: rule in r.value && rule.Pattern? ==> (rule.ignoreCase <==> category == "daty")
  {
    if category == "daty" then Some(DateRules)
    else if category == "liczby" then Some(NumberRules)
    else if category == "nazwy_firm" then Some(CompanyRules)
    else if category == "adresy_email" then Some([EmailRule])
    else if category == "numery_telefonu" then Some(PhoneRules)
    else None
  }

  /** Where a non-empty match of `rule` at `i` ends; an empty match is not one. */
  function HitAt(x: Externals, rule: Rule, t: string, i: nat): (r: Option<Hit>)
    requires i <= |t|
    ensures r.Some? ==> i < r.value.end <= |t|
  {
    var h :=
      match rule
      case Pattern(items, ignoreCase) => MatchFrom(x.unicode, ignoreCase, items, t, i)
      case GroupedNumber =>
        var found := x.groupedNumber(t, i);
        if found.Some? then Some(Hit(found.value, None)) else None;
    if h.Some? && i < h.value.end <= |t| then h else None
  }

  /**
   * Every spelled-out rule of a category needs at least one character, so
   * none of its matches is empty and `HitAt` keeps whatever the matcher finds.
   */
  lemma PatternRulesMatchNonEmpty(x: Externals, category: string, rule: Rule, t: string, i: nat)
    requires RulesFor(category).Some? && rule in RulesFor(category).value && rule.Pattern? && i <= |t|
    ensures HitAt(x, rule, t, i) == MatchFrom(x.unicode, rule.ignoreCase, rule.items, t, i)
  {
    var rules := RulesFor(category).value;
    var k :| 0 <= k < |rules| && rules[k] == rule;
    RuleNeedsCharacter(category, k);
  }

  lemma RuleNeedsCharacter(category: string, k: nat)
    requires RulesFor(category).Some? && k < |RulesFor(category).value| && RulesFor(category).value[k].Pattern?
    ensures 1 <= MinLength(RulesFor(category).value[k].items)
  {
    if category == "daty" {
      DateRuleNeedsCharacter(k);
    } else if category == "liczby" {
      NumberRuleNeedsCharacter(k);
    } else if category == "nazwy_firm" {
      CompanyRuleNeedsCharacter(k);
    } else if category == "adresy_email" {
      BoundaryThenCharacter(EmailRule.items);
    } else {
      PhoneRuleNeedsCharacter(k);
    }
  }

  lemma DateRuleNeedsCharacter(k: nat)
    requires k < |DateRules|
    ensures 1 <= MinLength(DateRules[k].items)
  {
    StartsWithCharacter(DateRules[k].items);
  }

  lemma NumberRuleNeedsCharacter(k: nat)
    requires k < |NumberRules| && NumberRules[k].Pattern?
    ensures 1 <= MinLength(NumberRules[k].items)
  {
    BoundaryThenCharacter(NumberRules[k].items);
  }

  lemma CompanyRuleNeedsCharacter(k: nat)
    requires k < |CompanyRules|
    ensures 1 <= MinLength(CompanyRules[k].items)
  {
    BoundaryThenCharacter(CompanyRules[k].items);
  }

  lemma PhoneRuleNeedsCharacter(k: nat)
    requires k < |PhoneRules|
    ensures 1 <= MinLength(PhoneRules[k].items)
  {
    StartsWithCharacter(PhoneRules[k].items);
  }

  lemma StartsWithCharacter(items: seq<Item>)
    requires items != [] && (items[0].Lit? || (items[0].Rep? && 1 <= items[0].lo))
    ensures 1 <= MinLength(items)
  {
  }

  lemma BoundaryThenCharacter(items: seq<Item>)
    requires |items| >= 2 && items[0].Boundary? && items[1].Rep? && 1 <= items[1].lo
    ensures 1 <= MinLength(items)
  {
    StartsWithCharacter(items[1..]);
  }

  /** What `re.findall` reports for a match: the group's text if the rule has a group, else the whole match. */
  function Reported(t: string, start: nat, h: Hit): string
    requires start <= h.end <= |t|
  {
    if h.capture.Some? then h.capture.value else t[start..h.end]
  }

  /** The match of `rule` at every position of `t`. */
  function Hits(x: Externals, rule: Rule, t: string): (hits: seq<Option<Hit>>)
    ensures |hits| == |t| && Spans(hits)
    ensures forall j :: 0 <= j < |t| ==> hits[j] == HitAt(x, rule, t, j)
  {
    seq(|t|, j requires 0 <= j < |t| => HitAt(x, rule, t, j))
  }

  /** Every hit is a non-empty span of the text that starts where it is recorded. */
  predicate Spans(hits: seq<Option<Hit>>) {
    forall j :: 0 <= j < |hits| && hits[j].Some? ==> j < hits[j].value.end <= |hits|
  }

  /** A match found by the scan: its span and what is reported for it. */
  datatype Match = Match(start: nat, end: nat, text: string)

  /**
   * The scan of `re.findall` from `pos`: the leftmost match, then the scan
   * resumed where it ended.
   */
  function ScanFrom(t: string, hits: seq<Option<Hit>>, pos: nat): (r: seq<Match>)
    requires |hits| == |t| && Spans(hits) && pos <= |t|
    decreases |t| - pos
    ensures |r| <= |t| - pos
    ensures forall k :: 0 <= k < |r| ==> pos <= r[k].start < r[k].end <= |t|
  {
    if pos == |t| then []
    else
      match hits[pos]
      case Some(h) => [Match(pos, h.end, Reported(t, pos, h))] + ScanFrom(t, hits, h.end)
      case None => ScanFrom(t, hits, pos + 1)
  }

  function Texts(ms: seq<Match>): (r: seq<string>)
    ensures |r| == |ms| && forall k :: 0 <= k < |ms| ==> r[k] == ms[k].text
  {
    if ms == [] then [] else [ms[0].text] + Texts(ms[1..])
  }

  /** `re.findall(pattern, t)` for one rule. */
  function FindAll(x: Externals, rule: Rule, t: string): (r: seq<string>)
    ensures |r| <= |t|
  {
    Texts(ScanFrom(t, Hits(x, rule, t), 0))
  }

  /** No match starts in `[a, b)`. */
  ghost predicate NoHitIn(hits: seq<Option<Hit>>, a: nat, b: nat)
    requires b <= |hits|
  {
    forall j :: a <= j < b ==> hits[j].None?
  }

  /**
   * What `re.findall` promises, stated without the scan: the matches are
   * left to right and do not overlap, each is the match at its start, and
   * no match starts in a gap between them (or after the last one).
   */
  ghost predicate LeftmostMatches(t: string, hits: seq<Option<Hit>>, pos: nat, ms: seq<Match>)
    requires |hits| == |t| && Spans(hits)
    decreases |ms|
  {
    pos <= |t| &&
    if ms == [] then NoHitIn(hits, pos, |t|)
    else
      var m := ms[0];
      pos <= m.start < |t| && NoHitIn(hits, pos, m.start) &&
      hits[m.start].Some? && hits[m.start].value.end == m.end &&
      m.text == Reported(t, m.start, hits[m.start].value) &&
      LeftmostMatches(t, hits, m.end, ms[1..])
  }

  /** The scan finds the leftmost non-overlapping matches. */
  lemma {:induction false} ScanIsLeftmost(t: string, hits: seq<Option<Hit>>, pos: nat)
    requires |hits| == |t| && Spans(hits) && pos <= |t|
    decreases |t| - pos
    ensures LeftmostMatches(t, hits, pos, ScanFrom(t, hits, pos))
  {
    if pos < |t| {
      match hits[pos]
      case Some(h) =>
        ScanIsLeftmost(t, hits, h.end);
        assert ScanFrom(t, hits, pos)[1..] == ScanFrom(t, hits, h.end);
      case None =>
        ScanIsLeftmost(t, hits, pos + 1);
        var ms := ScanFrom(t, hits, pos + 1);
        if ms == [] {
          assert NoHitIn(hits, pos, |t|);
        } else {
          assert NoHitIn(hits, pos, ms[0].start);
        }
    }
  }

  /** Only the scan's list of matches has that description. */
  lemma {:induction false} LeftmostMatchesAreTheScan(t: string, hits: seq<Option<Hit>>, pos: nat, ms: seq<Match>)
    requires |hits| == |t| && Spans(hits) && LeftmostMatches(t, hits, pos, ms)
    decreases |t| - pos
    ensures ms == ScanFrom(t, hits, pos)
  {
    if pos < |t| {
      if ms != [] && ms[0].start == pos {
        LeftmostMatchesAreTheScan(t, hits, ms[0].end, ms[1..]);
      } else {
        assert hits[pos].None?;
        assert LeftmostMatches(t, hits, pos + 1, ms);
        LeftmostMatchesAreTheScan(t, hits, pos + 1, ms);
      }
    }
  }

  /** Every string the scan reports is what some hit reports. */
  lemma {:induction false} FoundTextsComeFromHits(t: string, hits: seq<Option<Hit>>, pos: nat, s: string)
    requires |hits| == |t| && Spans(hits) && pos <= |t|
    requires s in Texts(ScanFrom(t, hits, pos))
    decreases |t| - pos
    ensures exists i :: pos <= i < |t| && hits[i].Some? && s == Reported(t, i, hits[i].value)
  {
    if pos < |t| {
      match hits[pos]
      case Some(h) =>
        if s != Reported(t, pos, h) {
          assert Texts(ScanFrom(t, hits, pos)) == [Reported(t, pos, h)] + Texts(ScanFrom(t, hits, h.end));
          FoundTextsComeFromHits(t, hits, h.end, s);
        }
      case None =>
        FoundTextsComeFromHits(t, hits, pos + 1, s);
    }
  }

  /** Every string `re.findall` reports for a rule is what the rule's match at some position reports. */
  lemma FoundTextsComeFromMatches(x: Externals, rule: Rule, t: string, s: string)
    requires s in FindAll(x, rule, t)
    ensures exists i: nat :: i < |t| && HitAt(x, rule, t, i).Some? &&
                             s == Reported(t, i, HitAt(x, rule, t, i).value)
  {
    var hits := Hits(x, rule, t);
    FoundTextsComeFromHits(t, hits, 0, s);
    var i :| 0 <= i < |t| && hits[i].Some? && s == Reported(t, i, hits[i].value);
    assert hits[i] == HitAt(x, rule, t, i);
  }

  /** A rule with a capturing group reports, for every match, text spelling one of the group's words. */
  lemma GroupedRuleReportsWords(x: Externals, rule: Rule, t: string, s: string)
    requires rule.Pattern? && HasCapture(rule.items)
    requires s in FindAll(x, rule, t)
    ensures exists w :: w in CapturedWords(rule.items) && Spells(rule.ignoreCase, s, w)
  {
    FoundTextsComeFromMatches(x, rule, t, s);
    var i: nat :| i < |t| && HitAt(x, rule, t, i).Some? && s == Reported(t, i, HitAt(x, rule, t, i).value);
    MatchFromCapture(x.unicode, rule.ignoreCase, rule.items, t, i);
  }

  /**
   * The word-date rule as written captures its month group, so
   * `re.findall` reports the month word as it is written in the text, not
   * the date.
   */
  lemma WordDateReportsMonths(x: Externals, t: string, s: string)
    requires s in FindAll(x, WordDate, t)
    ensures exists w :: w in Months && Spells(true, s, w)
  {
    WordDateGroup();
    GroupedRuleReportsWords(x, WordDate, t, s);
  }

  lemma WordDateGroup()
    ensures HasCapture(WordDate.items) && CapturedWords(WordDate.items) == Months
  {
    var items := WordDate.items;
    assert items[2].Group? && items[2].capturing;
    var year: seq<Item> := [Rep(Digit, 4, Upto(4))];
    assert CapturedWords(year) == [] by { assert year[1..] == []; }
    var tail: seq<Item> := [Rep(Space, 1, Unbounded)] + year;
    assert CapturedWords(tail) == [] by { assert tail[1..] == year; }
    assert CapturedWords([Group(Months, true)] + tail) == Months by { assert ([Group(Months, true)] + tail)[1..] == tail; }
    assert items[1..] == [Rep(Space, 1, Unbounded), Group(Months, true)] + tail;
    assert items[1..][1..] == [Group(Months, true)] + tail;
  }

  /** A date written with a month word, which the word-date rule matches in full. */
  const SampleDate := "1 maja 2023"

  /**
   * The word-date rule as written matches all of `SampleDate`, yet no
   * document makes `re.findall` report that date: only month words are
   * reported, and no month word has its length.
   */
  lemma WordDateDropsTheDate(x: Externals, t: string)
    ensures Accepts(x.unicode, true, WordDate.items, SampleDate, 0, |SampleDate|)
    ensures SampleDate !in FindAll(x, WordDate, t)
  {
    assert "maja" == Months[4];
    SampleDateAccepted(x.unicode, WordDate.items);
    NoMonthHasSampleLength();
    if SampleDate in FindAll(x, WordDate, t) {
      WordDateReportsMonths(x, t, SampleDate);
      assert false;
    }
  }

  lemma NoMonthHasSampleLength()
    ensures forall w :: w in Months ==> |w| != |SampleDate|
  {
  }

  /** The month-word date pattern, with its group capturing or not, accepts `SampleDate` from start to end. */
  lemma SampleDateAccepted(u: UnicodeTables, items: seq<Item>)
    requires |items| == 5 && items[0] == Rep(Digit, 1, Upto(2)) && items[1] == Rep(Space, 1, Unbounded)
    requires items[2].Group? && "maja" in items[2].words
    requires items[3] == Rep(Space, 1, Unbounded) && items[4] == Rep(Digit, 4, Upto(4))
    ensures Accepts(u, true, items, SampleDate, 0, 11)
  {
    var t := SampleDate;
    SampleDateCharacters(u);
    assert items[4..][1..] == [] && Accepts(u, true, [], t, 11, 11);
    RepAccepts(u, true, items[4..], t, 7, 4, 11);
    assert items[3..][1..] == items[4..];
    RepAccepts(u, true, items[3..], t, 6, 1, 11);
    assert items[2..][1..] == items[3..];
    GroupAccepts(u, true, items[2..], t, 2, "maja", 11);
    assert items[1..][1..] == items[2..];
    RepAccepts(u, true, items[1..], t, 1, 1, 11);
    RepAccepts(u, true, items, t, 0, 1, 11);
  }

  /** Where the digits, the spaces and the month word of `SampleDate` are. */
  lemma SampleDateCharacters(u: UnicodeTables)
    ensures AllIn(u, Digit, SampleDate, 0, 1) && AllIn(u, Digit, SampleDate, 7, 11)
    ensures AllIn(u, Space, SampleDate, 1, 2) && AllIn(u, Space, SampleDate, 6, 7)
    ensures WordAt(true, SampleDate, 2, "maja")
  {
    var t := SampleDate;
    assert t[0] == '1' && t[7] == '2' && t[8] == '0' && t[9] == '2' && t[10] == '3';
    assert t[1] == ' ' && t[6] == ' ';
    assert t[2..6] == "maja";
  }

  /**
   * With the group not capturing, every string the word-date rule reports
   * is a whole match of the rule: a complete date in the text.
   */
  lemma WholeWordDateReportsDates(x: Externals, t: string, s: string)
    requires s in FindAll(x, WholeWordDate, t)
    ensures exists i: nat, e: nat :: i < e <= |t| && s == t[i..e] && Accepts(x.unicode, true, WholeWordDate.items, t, i, e)
  {
    WholeWordDateCapturesNothing();
    var i, e := UncapturedRuleReportsMatches(x, WholeWordDate, t, s);
  }

  /** A rule without a capturing group reports a whole match, one the pattern accepts, for each match. */
  lemma UncapturedRuleReportsMatches(x: Externals, rule: Rule, t: string, s: string) returns (i: nat, e: nat)
    requires rule.Pattern? && !HasCapture(rule.items)
    requires s in FindAll(x, rule, t)
    ensures i < e <= |t| && s == t[i..e] && Accepts(x.unicode, rule.ignoreCase, rule.items, t, i, e)
  {
    FoundTextsComeFromMatches(x, rule, t, s);
    i :| i < |t| && HitAt(x, rule, t, i).Some? && s == Reported(t, i, HitAt(x, rule, t, i).value);
    var h := MatchFrom(x.unicode, rule.ignoreCase, rule.items, t, i);
    assert HitAt(x, rule, t, i) == h;
    MatchFromCapture(x.unicode, rule.ignoreCase, rule.items, t, i);
    MatchFromSound(x.unicode, rule.ignoreCase, rule.items, t, i);
    e := h.value.end;
  }

  /** The same date that the rule as written drops is matched in full by the corrected rule. */
  lemma WholeWordDateAcceptsSample(x: Externals)
    ensures Accepts(x.unicode, true, WholeWordDate.items, SampleDate, 0, |SampleDate|)
  {
    assert "maja" == Months[4];
    SampleDateAccepted(x.unicode, WholeWordDate.items);
  }

  lemma WholeWordDateCapturesNothing()
    ensures !HasCapture(WholeWordDate.items)
  {
    var items := WholeWordDate.items;
    forall j | 0 <= j < |items| ensures !(items[j].Group? && items[j].capturing) {
      assert j == 0 || j == 1 || j == 2 || j == 3 || j == 4;
    }
  }

  /** A pattern made only of repetitions of digits and date separators. */
  predicate NumericDateItems(items: seq<Item>) {
    forall k :: 0 <= k < |items| ==> items[k].Rep? && (items[k].cls == Digit || items[k].cls == DateSep)
  }

  /** Text such a pattern accepts consists of digits and date separators only. */
  lemma {:induction false} NumericDateSpan(u: UnicodeTables, ignoreCase: bool, items: seq<Item>, t: string, i: nat, e: nat)
    requires NumericDateItems(items) && Accepts(u, ignoreCase, items, t, i, e)
    decreases |items|
    ensures i <= e <= |t|
    ensures forall j :: i <= j < e ==> InClass(u, Digit, t[j]) || InClass(u, DateSep, t[j])
  {
    if items != [] {
      var cls := items[0].cls;
      var k: nat :| items[0].lo <= k && Within(k, items[0].hi) && i + k <= |t| && AllIn(u, cls, t, i, i + k) &&
                    Accepts(u, ignoreCase, items[1..], t, i + k, e);
      assert NumericDateItems(items[1..]) by {
        forall j | 0 <= j < |items[1..]| ensures items[1..][j] == items[j + 1] { }
      }
      NumericDateSpan(u, ignoreCase, items[1..], t, i + k, e);
    }
  }

  /** The first two date rules are numeric, and so capture nothing. */
  lemma NumericDateRule(k: nat)
    requires k < 2
    ensures NumericDateItems(DateRules[k].items) && !HasCapture(DateRules[k].items)
  {
    var items := DateRules[k].items;
    forall j | 0 <= j < |items| ensures items[j].Rep? && (items[j].cls == Digit || items[j].cls == DateSep) {
      assert j == 0 || j == 1 || j == 2 || j == 3 || j == 4;
    }
  }

  /**
   * What the extractor reports for `"daty"`: numeric dates made of digits
   * and separators (the first two rules), or month words (the third rule,
   * whose group captures) — never a date written with a month word.
   */
  lemma DatesFoundAreNumericDatesOrMonths(x: Externals, t: string, s: string)
    requires s in CategoryFound(x, "daty", t)
    ensures (exists w :: w in Months && Spells(true, s, w)) ||
            (s != [] && forall j :: 0 <= j < |s| ==> InClass(x.unicode, Digit, s[j]) || InClass(x.unicode, DateSep, s[j]))
  {
    DateCategory(x, t);
    var k := FoundByIndex(x, DateRules, t, s);
    if k == 2 {
      assert DateRules[2] == WordDate;
      WordDateReportsMonths(x, t, s);
    } else {
      NumericDateFound(x, t, s, k);
    }
  }

  lemma DateCategory(x: Externals, t: string)
    ensures CategoryFound(x, "daty", t) == AllFound(x, DateRules, t)
  {
  }

  /** Whatever `AllFound` reports was reported by one of the rules, found here by its position. */
  lemma FoundByIndex(x: Externals, rules: seq<Rule>, t: string, s: string) returns (k: nat)
    requires s in AllFound(x, rules, t)
    ensures k < |rules| && s in FindAll(x, rules[k], t)
  {
    InAllFoundIffSomeRule(x, rules, t, s);
    var rule :| rule in rules && s in FindAll(x, rule, t);
    k :| k < |rules| && rules[k] == rule;
  }

  lemma NumericDateFound(x: Externals, t: string, s: string, k: nat)
    requires k < 2 && s in FindAll(x, DateRules[k], t)
    ensures s != [] && forall j :: 0 <= j < |s| ==> InClass(x.unicode, Digit, s[j]) || InClass(x.unicode, DateSep, s[j])
  {
    NumericDateRule(k);
    NumericRuleFound(x, DateRules[k], t, s);
  }

  /** A rule of digits and separators alone reports non-empty text of digits and separators. */
  lemma NumericRuleFound(x: Externals, rule: Rule, t: string, s: string)
    requires rule.Pattern? && NumericDateItems(rule.items) && !HasCapture(rule.items)
    requires s in FindAll(x, rule, t)
    ensures s != [] && forall j :: 0 <= j < |s| ==> InClass(x.unicode, Digit, s[j]) || InClass(x.unicode, DateSep, s[j])
  {
    var i, e := UncapturedRuleReportsMatches(x, rule, t, s);
    NumericDateSpan(x.unicode, rule.ignoreCase, rule.items, t, i, e);
    forall j | 0 <= j < |s| ensures InClass(x.unicode, Digit, s[j]) || InClass(x.unicode, DateSep, s[j]) {
      assert s[j] == t[i + j];
    }
  }

  /** Whatever the document, the extractor never reports `SampleDate` among its dates. */
  lemma ExtractedDatesMissSampleDate(x: Externals, t: string)
    ensures SampleDate !in CategoryFound(x, "daty", t)
  {
    NoMonthHasSampleLength();
    SampleDateHasSpace(x.unicode);
    if SampleDate in CategoryFound(x, "daty", t) {
      DatesFoundAreNumericDatesOrMonths(x, t, SampleDate);
      assert false;
    }
  }

  lemma SampleDateHasSpace(u: UnicodeTables)
    ensures !InClass(u, Digit, SampleDate[1]) && !InClass(u, DateSep, SampleDate[1])
  {
    assert SampleDate[1] == ' ';
  }

  /** On the document `SampleDate` the extractor's dates include a month word, reported by the third rule. */
  lemma SampleDateGivesMonthWord(x: Externals)
    ensures exists s, w :: s in CategoryFound(x, "daty", SampleDate) && w in Months && Spells(true, s, w)
  {
    var t := SampleDate;
    assert "maja" == Months[4];
    SampleDateAccepted(x.unicode, WordDate.items);
    MatchFromComplete(x.unicode, true, WordDate.items, t, 0, 11);
    assert DateRules[2] == WordDate;
    PatternRulesMatchNonEmpty(x, "daty", WordDate, t, 0);
    var s := FirstFound(x, WordDate, t);
    WordDateReportsMonths(x, t, s);
    var w :| w in Months && Spells(true, s, w);
    InAllFoundIffSomeRule(x, DateRules, t, s);
    assert CategoryFound(x, "daty", t) == AllFound(x, DateRules, t);
  }

  /** When a rule matches at the very start, `re.findall` reports that match first. */
  lemma FirstFound(x: Externals, rule: Rule, t: string) returns (s: string)
    requires t != [] && HitAt(x, rule, t, 0).Some?
    ensures s in FindAll(x, rule, t) && s == Reported(t, 0, HitAt(x, rule, t, 0).value)
  {
    var hits := Hits(x, rule, t);
    var h := HitAt(x, rule, t, 0).value;
    assert hits[0] == Some(h);
    assert ScanFrom(t, hits, 0) == [Match(0, h.end, Reported(t, 0, h))] + ScanFrom(t, hits, h.end);
    s := Reported(t, 0, h);
    assert FindAll(x, rule, t)[0] == s;
  }

  /** With the corrected rules, every date reported is a whole match in the document. */
  lemma CorrectedDatesAreWholeMatches(x: Externals, t: string, s: string)
    requires s in AllFound(x, CorrectedDateRules, t)
    ensures exists i: nat, e: nat :: i < e <= |t| && s == t[i..e]
  {
    var k := FoundByIndex(x, CorrectedDateRules, t, s);
    var rule := CorrectedDateRules[k];
    if k == 2 {
      assert rule == WholeWordDate;
      WholeWordDateCapturesNothing();
    } else {
      NumericDateRule(k);
      assert rule == DateRules[k];
    }
    var i, e := UncapturedRuleReportsMatches(x, rule, t, s);
  }

  /** With the corrected rules, the document `SampleDate` yields that date. */
  lemma CorrectedRulesFindSampleDate(x: Externals)
    ensures SampleDate in AllFound(x, CorrectedDateRules, SampleDate)
  {
    var t := SampleDate;
    var items := WholeWordDate.items;
    WholeWordDateAcceptsSample(x);
    MatchFromComplete(x.unicode, true, items, t, 0, 11);
    var m := MatchFrom(x.unicode, true, items, t, 0).value;
    WholeWordDateNeedsEleven();
    assert m.end == 11;
    WholeWordDateCapturesNothing();
    MatchFromCapture(x.unicode, true, items, t, 0);
    assert HitAt(x, WholeWordDate, t, 0) == Some(m);
    var s := FirstFound(x, WholeWordDate, t);
    assert s == t[0..11] == t;
    assert CorrectedDateRules[2] == WholeWordDate;
    InAllFoundIffSomeRule(x, CorrectedDateRules, t, s);
  }

  lemma WholeWordDateNeedsEleven()
    ensures MinLength(WholeWordDate.items) >= 11
  {
    var items := WholeWordDate.items;
    assert items[2].words == Months;
    MonthsHaveFourLetters();
    DatePatternLength(items);
  }

  lemma MonthsHaveFourLetters()
    ensures forall w :: w in Months ==> 4 <= |w|
  {
  }

  /** The month-word date pattern needs a digit, a space, a word of the group, a space and four digits. */
  lemma DatePatternLength(items: seq<Item>)
    requires |items| == 5 && items[0].Rep? && items[0].lo == 1 && items[1].Rep? && items[1].lo == 1
    requires items[2].Group? && items[2].words != [] && forall w :: w in items[2].words ==> 4 <= |w|
    requires items[3].Rep? && items[3].lo == 1 && items[4].Rep? && items[4].lo == 4
    ensures MinLength(items) >= 11
  {
    ShortestWordAtLeast(items[2].words, 4);
    assert MinLength(items[4..]) == 4 by { assert items[4..][1..] == []; }
    assert MinLength(items[3..]) == 5 by { assert items[3..][1..] == items[4..]; }
    assert MinLength(items[2..]) >= 9 by { assert items[2..][1..] == items[3..]; }
    assert MinLength(items[1..]) >= 10 by { assert items[1..][1..] == items[2..]; }
  }

  lemma {:induction false} ShortestWordAtLeast(words: seq<string>, n: nat)
    requires words != [] && forall w :: w in words ==> n <= |w|
    decreases |words|
    ensures n <= ShortestWord(words)
  {
    if |words| > 1 {
      assert forall w :: w in words[1..] ==> w in words;
      ShortestWordAtLeast(words[1..], n);
    }
  }

  // The Polish company rule as written lists `Sp.` before `Sp. z o.o.` in its
  // group, and nothing follows the group, so `re` settles on `Sp.` wherever
  // the longer suffix stands: the alternative `Sp. z o.o.` is never reported.

  /** A company name with the long suffix. */
  const CompanySample := "Abc Sp. z o.o."

  /** The short suffix `Sp.`, and what follows it in the long one, `Sp. z o.o.`. */
  const ShortForm := "Sp."
  const LongFormRest := " z o.o."

  /** The Polish company rule with the long suffix tried before its prefix `Sp.`. */
  const CorrectedPolishCompany := Pattern([Boundary, Rep(PolishUpper, 1, Upto(1)), Rep(PolishLower, 0, Unbounded),
                                           Rep(Space, 1, Unbounded),
                                           Group(["Sp. z o.o.", "Sp.", "Ltd.", "Inc.", "LLC", "S.A."], false)], false)

  /** No name the Polish company rule reports ends in ` z o.o.`, whatever the document. */
  lemma PolishCompanyNeverEndsInFullForm(x: Externals, rule: Rule, t: string, s: string)
    requires rule == PolishCompany && s in FindAll(x, rule, t)
    ensures |s| >= 2 && s[|s| - 2] != 'o'
    ensures !(|s| >= 7 && s[|s| - 7..] == " z o.o.")
  {
    CompanyPatternCapturesNothing(rule.items);
    PolishSuffixes();
    ShadowedWordNeverEnds(x, rule, t, s, 5, 'o');
    assert " z o.o."[5] == 'o';
  }

  /**
   * When the first word of a rule's last group begins the word `words[p]`,
   * and no other word has `c` as its second-to-last character, no report of
   * the rule has `c` there: `words[p]` is never the word a match settles on.
   */
  lemma ShadowedWordNeverEnds(x: Externals, rule: Rule, t: string, s: string, p: nat, c: char)
    requires rule.Pattern? && !rule.ignoreCase && !HasCapture(rule.items)
    requires rule.items != [] && rule.items[|rule.items| - 1].Group?
    requires var words := rule.items[|rule.items| - 1].words;
             0 < p < |words| && |words[0]| <= |words[p]| && words[p][..|words[0]|] == words[0] &&
             forall m :: 0 <= m < |words| && m != p ==> |words[m]| >= 2 && words[m][|words[m]| - 2] != c
    requires s in FindAll(x, rule, t)
    ensures |s| >= 2 && s[|s| - 2] != c
  {
    var words := rule.items[|rule.items| - 1].words;
    var i := UncapturedReportIsMatch(x, rule, t, s);
    var j, n := TrailingGroupWord(x.unicode, false, rule.items, t, i);
    ShorterWordFirst(t, j, words, p);
    var w := words[n];
    assert s == t[i..j + |w|];
    ReportEndsInWord(t, i, j, s, w, 2);
    assert s[|s| - 2] == s[|s| - 2..][0];
  }

  /** A report running from `i` to the end of a word read at `j` ends in that word's last `k` characters. */
  lemma ReportEndsInWord(t: string, i: nat, j: nat, s: string, w: string, k: nat)
    requires i <= j && WordAt(false, t, j, w) && s == t[i..j + |w|] && k <= |w|
    ensures |s| >= |w| && s[|s| - k..] == w[|w| - k..]
  {
    WordEndsLikeSlice(t, j, w, k);
    assert s[|s| - k..] == t[j + |w| - k..j + |w|];
  }

  /** The suffixes of the rule as written: `Sp.` begins `Sp. z o.o.`, and the others do not end in `o.`. */
  lemma PolishSuffixes()
    ensures var words := PolishCompany.items[4].words;
            |words| == 6 && |words[0]| <= |words[5]| && words[5][..|words[0]|] == words[0] &&
            forall m :: 0 <= m < 6 && m != 5 ==> |words[m]| >= 2 && words[m][|words[m]| - 2] != 'o'
  {
  }

  /** When the first word of a group begins `words[p]`, `words[p]` is never the first readable word. */
  lemma ShorterWordFirst(t: string, j: nat, words: seq<string>, p: nat)
    requires 0 < p < |words| && |words[0]| <= |words[p]| && words[p][..|words[0]|] == words[0]
    ensures WordAt(false, t, j, words[p]) ==> WordAt(false, t, j, words[0])
  {
    WordAtIsSlice(t, j, words[p]);
    WordAtIsSlice(t, j, words[0]);
    var k := |words[0]|;
    if j + |words[p]| <= |t| {
      assert t[j..j + k] == t[j..j + |words[p]|][..k];
    }
  }

  /** A rule without a capturing group reports the whole text of its match at some position. */
  lemma UncapturedReportIsMatch(x: Externals, rule: Rule, t: string, s: string) returns (i: nat)
    requires rule.Pattern? && !HasCapture(rule.items)
    requires s in FindAll(x, rule, t)
    ensures i <= |t| && MatchFrom(x.unicode, rule.ignoreCase, rule.items, t, i).Some?
    ensures s == t[i..MatchFrom(x.unicode, rule.ignoreCase, rule.items, t, i).value.end]
  {
    FoundTextsComeFromMatches(x, rule, t, s);
    i :| i < |t| && HitAt(x, rule, t, i).Some? && s == Reported(t, i, HitAt(x, rule, t, i).value);
    assert HitAt(x, rule, t, i) == MatchFrom(x.unicode, rule.ignoreCase, rule.items, t, i);
    MatchFromCapture(x.unicode, rule.ignoreCase, rule.items, t, i);
  }

  /** Case-sensitively, a word is read at `j` exactly when it is the slice of the text there. */
  lemma WordAtIsSlice(t: string, j: nat, w: string)
    ensures WordAt(false, t, j, w) <==> j + |w| <= |t| && t[j..j + |w|] == w
  {
    if j + |w| <= |t| && t[j..j + |w|] == w {
      assert forall p :: 0 <= p < |w| ==> w[p] == t[j + p];
    }
  }

  /**
   * When the first word of a pattern's last group is its second word `short`
   * followed by `tail`, and no other word can end in `short`, a match never
   * ends in `short` with `tail` right after it.
   */
  lemma LongFormNotCut(u: UnicodeTables, items: seq<Item>, t: string, i: nat, short: string, tail: string)
    requires i <= |t| && items != [] && items[|items| - 1].Group?
    requires LongFormFirst(items[|items| - 1].words, short, tail)
    requires MatchFrom(u, false, items, t, i).Some?
    ensures var e := MatchFrom(u, false, items, t, i).value.end;
            !(|short| <= e && WordAt(false, t, e - |short|, short) && WordAt(false, t, e, tail))
  {
    var words := items[|items| - 1].words;
    var j, n := TrailingGroupFirst(u, items, t, i);
    var w := words[n];
    assert n != 1 ==> |w| >= |short| && w[|w| - |short|] != short[0];
    SettledWordNotCut(t, j, w, n == 1, words[0], short, tail, MatchFrom(u, false, items, t, i).value.end);
  }

  /**
   * The group's first word is its second word `short` followed by `tail`,
   * and every other word differs from `short` in the character where `short`
   * would begin at the word's end, so it cannot end in `short`.
   */
  predicate LongFormFirst(words: seq<string>, short: string, tail: string) {
    short != [] && |words| >= 2 && words[0] == words[1] + tail && words[1] == short &&
    forall m :: 0 <= m < |words| && m != 1 ==> |words[m]| >= |short| && words[m][|words[m]| - |short|] != short[0]
  }

  /** `TrailingGroupWord` for a case-sensitive pattern, with only the first word's failure kept. */
  lemma TrailingGroupFirst(u: UnicodeTables, items: seq<Item>, t: string, i: nat) returns (j: nat, n: nat)
    requires i <= |t| && items != [] && items[|items| - 1].Group? && MatchFrom(u, false, items, t, i).Some?
    ensures var words := items[|items| - 1].words;
            n < |words| && WordAt(false, t, j, words[n]) &&
            MatchFrom(u, false, items, t, i).value.end == j + |words[n]| &&
            (n > 0 ==> !WordAt(false, t, j, words[0]))
  {
    j, n := TrailingGroupWord(u, false, items, t, i);
  }

  /**
   * After a word `w` read at `j` and ending at `e`: when `w` is `short` and
   * the word `first = short + tail` cannot be read at `j`, `tail` does not
   * follow; otherwise `w` does not end in `short`.
   */
  lemma SettledWordNotCut(t: string, j: nat, w: string, isShort: bool, first: string, short: string, tail: string, e: nat)
    requires short != [] && first == short + tail && WordAt(false, t, j, w) && e == j + |w|
    requires isShort ==> w == short && !WordAt(false, t, j, first)
    requires !isShort ==> |w| >= |short| && w[|w| - |short|] != short[0]
    ensures !(|short| <= e && WordAt(false, t, e - |short|, short) && WordAt(false, t, e, tail))
  {
    if isShort {
      WordsJoin(t, j, w, tail);
    } else {
      var k := |w| - |short|;
      assert t[j + k] == w[k] != short[0];
    }
  }

  /** `v` read at `j` and `w` right after it is `v + w` read at `j`. */
  lemma WordsJoin(t: string, j: nat, v: string, w: string)
    ensures WordAt(false, t, j, v) && WordAt(false, t, j + |v|, w) ==> WordAt(false, t, j, v + w)
  {
    if WordAt(false, t, j, v) && WordAt(false, t, j + |v|, w) {
      forall p | 0 <= p < |v + w|
        ensures CharMatches(false, t[j + p], (v + w)[p])
      {
        if p >= |v| {
          assert t[j + p] == t[(j + |v|) + (p - |v|)];
        }
      }
    }
  }

  /**
   * The corrected rule meets `LongFormNotCut`'s condition: its first suffix
   * `Sp. z o.o.` is `Sp.` and ` z o.o.`, and no other suffix ends in `Sp.`,
   * so a match of it never stops at `Sp.` when ` z o.o.` follows.
   */
  lemma CorrectedSuffixes()
    ensures var items := CorrectedPolishCompany.items;
            items != [] && items[|items| - 1].Group? &&
            LongFormFirst(items[|items| - 1].words, ShortForm, LongFormRest)
  {
  }

  /** The last `k` characters of a word read at `j` are the text's just before `j + |w|`. */
  lemma WordEndsLikeSlice(t: string, j: nat, w: string, k: nat)
    requires WordAt(false, t, j, w) && k <= |w|
    ensures t[j + |w| - k..j + |w|] == w[|w| - k..]
  {
    WordAtIsSlice(t, j, w);
    assert t[j + |w| - k..j + |w|] == t[j..j + |w|][|w| - k..];
  }

  lemma CompanyPatternCapturesNothing(items: seq<Item>)
    requires |items| == 5 && forall j :: 0 <= j < 4 ==> !items[j].Group?
    requires items[4].Group? && !items[4].capturing
    ensures !HasCapture(items)
  {
  }

  /** On `CompanySample` the rule as written reports `Abc Sp.`, never the whole name. */
  lemma PolishCompanyCutsSample(x: Externals)
    ensures "Abc Sp." in FindAll(x, PolishCompany, CompanySample)
    ensures CompanySample !in FindAll(x, PolishCompany, CompanySample)
  {
    var t := CompanySample;
    var items := PolishCompany.items;
    CompanySampleStart(t);
    WordAtIsSlice(t, 4, items[4].words[0]);
    CompanySampleMatch(x.unicode, items, t, 7);
    assert HitAt(x, PolishCompany, t, 0) == Some(Hit(7, None));
    var s := FirstFound(x, PolishCompany, t);
    assert s == t[0..7] == "Abc Sp.";
    if t in FindAll(x, PolishCompany, t) {
      PolishCompanyNeverEndsInFullForm(x, PolishCompany, t, t);
      assert false;
    }
  }

  /** On `CompanySample` the corrected rule reports the whole name. */
  lemma CorrectedCompanyFindsSample(x: Externals)
    ensures CompanySample in FindAll(x, CorrectedPolishCompany, CompanySample)
  {
    var t := CompanySample;
    var items := CorrectedPolishCompany.items;
    CompanySampleStart(t);
    WordAtIsSlice(t, 4, items[4].words[0]);
    CompanySampleMatch(x.unicode, items, t, 14);
    assert HitAt(x, CorrectedPolishCompany, t, 0) == Some(Hit(14, None));
    var s := FirstFound(x, CorrectedPolishCompany, t);
    assert s == t[0..14] == t;
  }

  lemma CompanySampleStart(t: string)
    requires t == CompanySample
    ensures |t| == 14 && t[0] == 'A' && t[1] == 'b' && t[2] == 'c' && t[3] == ' ' && t[4] == 'S' && t[12] == 'o'
    ensures t[4..7] == "Sp." && t[4..14] == "Sp. z o.o."
  {
  }

  /**
   * A company pattern matches from 0 in a text that begins `Abc S`, when its
   * first suffix stands at 4, up to that suffix's end.
   */
  lemma CompanySampleMatch(u: UnicodeTables, items: seq<Item>, t: string, e: nat)
    requires |items| == 5 && items[0] == Boundary && items[1] == Rep(PolishUpper, 1, Upto(1))
    requires items[2] == Rep(PolishLower, 0, Unbounded) && items[3] == Rep(Space, 1, Unbounded)
    requires items[4].Group? && !items[4].capturing && items[4].words != []
    requires |t| >= 5 && t[0] == 'A' && t[1] == 'b' && t[2] == 'c' && t[3] == ' ' && t[4] == 'S'
    requires e == 4 + |items[4].words[0]| && WordAt(false, t, 4, items[4].words[0])
    ensures MatchFrom(u, false, items, t, 0) == Some(Hit(e, None))
  {
    CompanySampleRuns(u, t);
    var g := MatchFrom(u, false, items[4..], t, 4);
    assert items[4..][1..] == [];
    assert AfterWord(u, false, [], t, 4, items[4].words[0], false) == Some(Hit(e, None));
    assert g == TryWords(u, false, [], t, 4, items[4].words, false) == Some(Hit(e, None));
    assert items[3..][1..] == items[4..];
    assert MatchFrom(u, false, items[3..], t, 3) == TryCounts(u, false, items[4..], t, 3, 1, 1) == g;
    assert items[2..][1..] == items[3..];
    assert MatchFrom(u, false, items[2..], t, 1) == TryCounts(u, false, items[3..], t, 1, 2, 0) == g;
    assert items[1..][1..] == items[2..];
    assert MatchFrom(u, false, items[1..], t, 0) == TryCounts(u, false, items[2..], t, 0, 1, 1) == g;
  }

  /** The runs of a capital, small letters and spaces at the start of a text that begins `Abc S`. */
  lemma CompanySampleRuns(u: UnicodeTables, t: string)
    requires |t| >= 5 && t[0] == 'A' && t[1] == 'b' && t[2] == 'c' && t[3] == ' ' && t[4] == 'S'
    ensures Run(u, PolishUpper, t, 0, Upto(1)) == 1
    ensures Run(u, PolishLower, t, 1, Unbounded) == 2
    ensures Run(u, Space, t, 3, Unbounded) == 1
  {
    assert Run(u, PolishUpper, t, 1, Upto(0)) == 0;
    assert Run(u, PolishLower, t, 3, Unbounded) == 0;
    assert Run(u, PolishLower, t, 2, Unbounded) == 1;
    assert Run(u, Space, t, 4, Unbounded) == 0;
  }

  /** A rule without a capturing group reports whole matches: non-empty pieces of the text. */
  lemma UngroupedRuleReportsPieces(x: Externals, rule: Rule, t: string, s: string)
    requires rule.Pattern? ==> !HasCapture(rule.items)
    requires s in FindAll(x, rule, t)
    ensures exists i: nat, j: nat :: i < j <= |t| && s == t[i..j]
  {
    FoundTextsComeFromMatches(x, rule, t, s);
    var i: nat :| i < |t| && HitAt(x, rule, t, i).Some? && s == Reported(t, i, HitAt(x, rule, t, i).value);
    if rule.Pattern? {
      MatchFromCapture(x.unicode, rule.ignoreCase, rule.items, t, i);
    }
    assert s == t[i..HitAt(x, rule, t, i).value.end];
  }

  /** The matches of every rule of a list, rule after rule: what `results.extend` accumulates. */
  function AllFound(x: Externals, rules: seq<Rule>, t: string): seq<string> {
    if rules == [] then [] else AllFound(x, rules[..|rules| - 1], t) + FindAll(x, rules[|rules| - 1], t)
  }

  /** A string is accumulated exactly when some rule of the list finds it. */
  lemma {:induction false} InAllFoundIffSomeRule(x: Externals, rules: seq<Rule>, t: string, s: string)
    decreases |rules|
    ensures s in AllFound(x, rules, t) <==> exists rule :: rule in rules && s in FindAll(x, rule, t)
  {
    if rules != [] {
      var init, last := rules[..|rules| - 1], rules[|rules| - 1];
      assert rules == init + [last];
      InAllFoundIffSomeRule(x, init, t, s);
      assert AllFound(x, rules, t) == AllFound(x, init, t) + FindAll(x, last, t);
      assert s in AllFound(x, rules, t) <==> s in AllFound(x, init, t) || s in FindAll(x, last, t);
    }
  }

  /** Everything the rules of a category find; nothing for an unknown category. */
  function CategoryFound(x: Externals, category: string, t: string): (r: seq<string>)
    ensures category !in Categories ==> r == []
  {
    match RulesFor(category)
    case None => []
    case Some(rules) => AllFound(x, rules, t)
  }

  predicate NoDuplicates(xs: seq<string>) {
    forall a, b :: 0 <= a < b < |xs| ==> xs[a] != xs[b]
  }

  /** `list(set(xs))`: the same elements, each once (kept here in order of first occurrence). */
  function Distinct(xs: seq<string>): (r: seq<string>)
    ensures NoDuplicates(r)
    ensures forall e :: e in r <==> e in xs
  {
    if xs == [] then []
    else
      var r := Distinct(xs[..|xs| - 1]);
      assert forall e :: e in xs <==> e in xs[..|xs| - 1] || e == xs[|xs| - 1] by {
        assert xs == xs[..|xs| - 1] + [xs[|xs| - 1]];
      }
      if xs[|xs| - 1] in r then r else r + [xs[|xs| - 1]]
  }

  /**
   * Lists without duplicates holding the same elements are permutations of
   * each other: whatever order `list(set(...))` picks, the result is the
   * same multiset of strings.
   */
  lemma {:induction false} SameElementsPermutation(a: seq<string>, b: seq<string>)
    requires NoDuplicates(a) && NoDuplicates(b)
    requires forall e :: e in a <==> e in b
    decreases |a|
    ensures multiset(a) == multiset(b)
  {
    if a == [] {
      NothingInIsEmpty(b);
    } else {
      var e := a[|a| - 1];
      var a' := a[..|a| - 1];
      LastRemoved(a);
      assert e in b;
      var j :| 0 <= j < |b| && b[j] == e;
      var b' := b[..j] + b[j + 1..];
      OneRemoved(b, j);
      assert forall f :: f in a' <==> f in b' by {
        forall f ensures f in a' <==> f in b' {
          assert f in a' <==> f in a && f != e;
          assert f in b' <==> f in b && f != e;
        }
      }
      SameElementsPermutation(a', b');
    }
  }

  lemma NothingInIsEmpty(b: seq<string>)
    requires forall e :: e !in b
    ensures b == []
  {
    if b != [] {
      ElementIsIn(b, 0);
    }
  }

  lemma ElementIsIn(b: seq<string>, k: nat)
    requires k < |b|
    ensures b[k] in b
  {
  }

  lemma LastRemoved(a: seq<string>)
    requires a != [] && NoDuplicates(a)
    ensures var a' := a[..|a| - 1];
            NoDuplicates(a') && multiset(a) == multiset(a') + multiset{a[|a| - 1]} &&
            forall f :: f in a' <==> f in a && f != a[|a| - 1]
  {
    var e := a[|a| - 1];
    var a' := a[..|a| - 1];
    assert a == a' + [e];
  }

  lemma OneRemoved(b: seq<string>, j: nat)
    requires j < |b| && NoDuplicates(b)
    ensures var b' := b[..j] + b[j + 1..];
            NoDuplicates(b') && multiset(b) == multiset(b') + multiset{b[j]} &&
            forall f :: f in b' <==> f in b && f != b[j]
  {
    var e := b[j];
    var b' := b[..j] + b[j + 1..];
    assert b == b[..j] + [e] + b[j + 1..];
    assert forall p :: 0 <= p < |b'| ==> b'[p] == b[if p < j then p else p + 1];
    assert forall f :: f in b' <==> f in b && f != e by {
      forall f ensures f in b' <==> f in b && f != e {
        if f in b && f != e {
          var p :| 0 <= p < |b| && b[p] == f;
          if p < j { assert b'[p] == f; } else { assert b'[p - 1] == f; }
        }
      }
    }
  }
}

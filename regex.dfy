/**
 * The fragment of Python's `re` that the hand-modelled extraction rules use:
 * a pattern is a sequence of items — a literal, a greedy bounded repetition
 * of a character class, a word boundary `\b`, or one group of alternative
 * words, capturing or not — matched at a position by backtracking in the order
 * `re` tries alternatives. `MatchFrom` is that matcher; `Accepts` is the
 * declarative reading of a pattern, and the two are proved to agree on
 * whether a match exists at a position.
 *
 * `\d` and `\w` are Unicode classes in Python; beyond ASCII the model takes
 * them from the Unicode database as the parameters of a `UnicodeTables`.
 * `\s` is the whitespace set of `str.isspace`.
 */
module Regex {
  import opened PyText

  /** Unicode `\d` and `\w` membership for characters beyond ASCII. */
  datatype UnicodeTables = UnicodeTables(decimal: char -> bool, alphanumeric: char -> bool)

  predicate IsDigit(u: UnicodeTables, c: char) {
    ('0' <= c <= '9') || (c > '\U{7f}' && u.decimal(c))
  }

  predicate IsWordChar(u: UnicodeTables, c: char) {
    IsDigit(u, c) || ('a' <= c <= 'z') || ('A' <= c <= 'Z') || c == '_' || (c > '\U{7f}' && u.alphanumeric(c))
  }

  /** The character classes the rules use. */
  datatype CharClass =
    | Digit        // `\d`
    | Space        // `\s`
    | DateSep      // `[./\-]`
    | PhoneSep     // `[-.\s]`
    | Upper        // `[A-Z]`
    | Lower        // `[a-z]`
    | PolishUpper  // `[A-ZĄĆĘŁŃÓŚŹŻ]`
    | PolishLower  // `[a-ząćęłńóśźż]`
    | MailLocal    // `[A-Za-z0-9._%+-]`
    | MailDomain   // `[A-Za-z0-9.-]`
    | MailTop      // `[A-Z|a-z]`: the `|` is a member of the class, not an alternation

  predicate IsAsciiLetter(c: char) {
    ('A' <= c <= 'Z') || ('a' <= c <= 'z')
  }

  predicate InClass(u: UnicodeTables, cls: CharClass, c: char) {
    match cls
    case Digit => IsDigit(u, c)
    case Space => IsSpace(c)
    case DateSep => c == '.' || c == '/' || c == '-'
    case PhoneSep => c == '-' || c == '.' || IsSpace(c)
    case Upper => 'A' <= c <= 'Z'
    case Lower => 'a' <= c <= 'z'
    case PolishUpper => ('A' <= c <= 'Z') || c in "ĄĆĘŁŃÓŚŹŻ"
    case PolishLower => ('a' <= c <= 'z') || c in "ąćęłńóśźż"
    case MailLocal => IsAsciiLetter(c) || ('0' <= c <= '9') || c in "._%+-"
    case MailDomain => IsAsciiLetter(c) || ('0' <= c <= '9') || c in ".-"
    case MailTop => IsAsciiLetter(c) || c == '|'
  }

  /** The upper bound of a repetition: `{m,n}` or unbounded (`*`, `+`). */
  datatype Bound = Upto(n: nat) | Unbounded

  predicate Within(k: nat, hi: Bound) {
    hi.Unbounded? || k <= hi.n
  }

  function Less(hi: Bound): Bound {
    if hi.Upto? && hi.n > 0 then Upto(hi.n - 1) else hi
  }

  datatype Item =
    | Lit(c: char)                               // a literal character
    | Rep(cls: CharClass, lo: nat, hi: Bound)   // `cls{lo,hi}`, greedy
    | Boundary                                   // `\b`
    | Group(words: seq<string>, capturing: bool) // `(w1|w2|...)`, or `(?:w1|w2|...)` when not capturing

  /**
   * Case-insensitive comparison as `re.IGNORECASE` performs it on the
   * characters the rules contain: ASCII letters, the Polish `ś` and `ź`,
   * and the non-ASCII characters Python equates with `i`, `k` and `s`
   * (`İ`, `ı`, the Kelvin sign and the long `ſ`).
   */
  function Fold(c: char): char {
    if 'A' <= c <= 'Z' then (c as int - 'A' as int + 'a' as int) as char
    else if c == 'Ś' then 'ś'
    else if c == 'Ź' then 'ź'
    else if c == 'K' then 'k'
    else if c == 'İ' || c == 'ı' then 'i'
    else if c == 'ſ' then 's'
    else c
  }

  /**
   * Folding keeps lower-case ASCII letters, maps each upper-case one to
   * its lower-case partner, and changes no other ASCII character.
   */
  lemma FoldLetters(c: char)
    ensures 'a' <= c <= 'z' ==> Fold(c) == c
    ensures 'A' <= c <= 'Z' ==> 'a' <= Fold(c) <= 'z' && Fold(c) as int - 'a' as int == c as int - 'A' as int
    ensures Fold(c) != c ==> c > '\U{7f}' || 'A' <= c <= 'Z'
  {
  }

  /** Folding twice folds no further. */
  lemma FoldIdempotent(c: char)
    ensures Fold(Fold(c)) == Fold(c)
  {
  }

  predicate CharMatches(ignoreCase: bool, c: char, lit: char) {
    if ignoreCase then Fold(c) == Fold(lit) else c == lit
  }

  /** `w` occurs at `i` in `t`, letter for letter up to case when `ignoreCase`. */
  predicate WordAt(ignoreCase: bool, t: string, i: nat, w: string) {
    i + |w| <= |t| && forall j :: 0 <= j < |w| ==> CharMatches(ignoreCase, t[i + j], w[j])
  }

  /** `s` spells `w`, letter for letter up to case when `ignoreCase`. */
  predicate Spells(ignoreCase: bool, s: string, w: string) {
    |s| == |w| && forall j :: 0 <= j < |w| ==> CharMatches(ignoreCase, s[j], w[j])
  }

  /** `\b`: a word character on exactly one side of position `i`. */
  predicate AtBoundary(u: UnicodeTables, t: string, i: nat)
    requires i <= |t|
  {
    (i > 0 && IsWordChar(u, t[i - 1])) != (i < |t| && IsWordChar(u, t[i]))
  }

  /** The characters `t[a..b]` are all in `cls`. */
  predicate AllIn(u: UnicodeTables, cls: CharClass, t: string, a: nat, b: nat)
    requires a <= b <= |t|
  {
    forall j :: a <= j < b ==> InClass(u, cls, t[j])
  }

  /** The longest run of `cls` characters from `i`, cut at `hi`. */
  function Run(u: UnicodeTables, cls: CharClass, t: string, i: nat, hi: Bound): (n: nat)
    requires i <= |t|
    decreases |t| - i
    ensures i + n <= |t| && Within(n, hi) && AllIn(u, cls, t, i, i + n)
    ensures i + n < |t| && (hi.Unbounded? || n < hi.n) ==> !InClass(u, cls, t[i + n])
  {
    if i == |t| || hi == Upto(0) || !InClass(u, cls, t[i]) then 0
    else 1 + Run(u, cls, t, i + 1, Less(hi))
  }

  /** The shortest text a pattern can match. */
  function MinLength(items: seq<Item>): nat {
    if items == [] then 0
    else
      (match items[0]
       case Lit(_) => 1
       case Rep(_, lo, _) => lo
       case Boundary => 0
       case Group(words, _) => ShortestWord(words)) + MinLength(items[1..])
  }

  function ShortestWord(words: seq<string>): (n: nat)
    ensures forall w :: w in words ==> n <= |w|
  {
    if words == [] then 0
    else
      var m := ShortestWord(words[1..]);
      if |words| == 1 || |words[0]| <= m then |words[0]| else m
  }

  /** The pattern has a capturing group, which makes `re.findall` report the group's text. */
  predicate HasCapture(items: seq<Item>) {
    exists j :: 0 <= j < |items| && items[j].Group? && items[j].capturing
  }

  /** The alternatives of every capturing group in the pattern. */
  function CapturedWords(items: seq<Item>): seq<string> {
    if items == [] then []
    else (if items[0].Group? && items[0].capturing then items[0].words else []) + CapturedWords(items[1..])
  }

  /** A match: where it ends, and what the group captured. */
  datatype Hit = Hit(end: nat, capture: Option<string>)

  /**
   * The first match at `i` in `re`'s backtracking order: a repetition takes
   * as many characters as it can and gives them back one at a time, a
   * group tries its words in order.
   */
  function MatchFrom(u: UnicodeTables, ignoreCase: bool, items: seq<Item>, t: string, i: nat): (r: Option<Hit>)
    requires i <= |t|
    decreases |items|, 0, 0
    ensures r.Some? ==> i + MinLength(items) <= r.value.end <= |t|
  {
    if items == [] then Some(Hit(i, None))
    else
      var rest := items[1..];
      match items[0]
      case Lit(c) =>
        if i < |t| && CharMatches(ignoreCase, t[i], c) then MatchFrom(u, ignoreCase, rest, t, i + 1) else None
      case Boundary =>
        if AtBoundary(u, t, i) then MatchFrom(u, ignoreCase, rest, t, i) else None
      case Rep(cls, lo, hi) =>
        var n := Run(u, cls, t, i, hi);
        if n < lo then None else TryCounts(u, ignoreCase, rest, t, i, n, lo)
      case Group(words, capturing) =>
        TryWords(u, ignoreCase, rest, t, i, words, capturing)
  }

  /** The rest of the pattern after a repetition of `k`, `k - 1`, ..., `lo` characters. */
  function TryCounts(u: UnicodeTables, ignoreCase: bool, rest: seq<Item>, t: string, i: nat, k: nat, lo: nat): (r: Option<Hit>)
    requires lo <= k && i + k <= |t|
    decreases |rest|, 1, k
    ensures r.Some? ==> i + lo + MinLength(rest) <= r.value.end <= |t|
  {
    var m := MatchFrom(u, ignoreCase, rest, t, i + k);
    if m.Some? then m
    else if k == lo then None
    else TryCounts(u, ignoreCase, rest, t, i, k - 1, lo)
  }

  /** The rest of the pattern after each word of a group in turn, the first success winning. */
  function TryWords(u: UnicodeTables, ignoreCase: bool, rest: seq<Item>, t: string, i: nat, words: seq<string>,
                    capturing: bool): (r: Option<Hit>)
    requires i <= |t|
    decreases |rest|, 1, |words|
    ensures r.Some? ==> i + ShortestWord(words) + MinLength(rest) <= r.value.end <= |t|
  {
    if words == [] then None
    else
      var h := AfterWord(u, ignoreCase, rest, t, i, words[0], capturing);
      if h.Some? then h else TryWords(u, ignoreCase, rest, t, i, words[1..], capturing)
  }

  /**
   * The rest of the pattern after the group's word `w`; a capturing group
   * captures the text `w` matched, a non-capturing one leaves the capture
   * to the rest of the pattern.
   */
  function AfterWord(u: UnicodeTables, ignoreCase: bool, rest: seq<Item>, t: string, i: nat, w: string,
                     capturing: bool): (r: Option<Hit>)
    requires i <= |t|
    decreases |rest|, 1, 0
    ensures r.Some? <==> WordAt(ignoreCase, t, i, w) && MatchFrom(u, ignoreCase, rest, t, i + |w|).Some?
    ensures r.Some? ==> r.value.end == MatchFrom(u, ignoreCase, rest, t, i + |w|).value.end
    ensures r.Some? && capturing ==> r.value.capture.Some? && Spells(ignoreCase, r.value.capture.value, w)
    ensures r.Some? && !capturing ==> r.value.capture == MatchFrom(u, ignoreCase, rest, t, i + |w|).value.capture
  {
    if WordAt(ignoreCase, t, i, w) then
      match MatchFrom(u, ignoreCase, rest, t, i + |w|)
      case Some(h) =>
        if capturing then
          assert Spells(ignoreCase, t[i..i + |w|], w);
          Some(Hit(h.end, Some(t[i..i + |w|])))
        else Some(h)
      case None => None
    else None
  }

  /**
   * A match captures exactly when the pattern has a capturing group, and
   * then it captures text spelling one of the group's words.
   */
  lemma {:induction false} MatchFromCapture(u: UnicodeTables, ignoreCase: bool, items: seq<Item>, t: string, i: nat)
    requires i <= |t| && MatchFrom(u, ignoreCase, items, t, i).Some?
    decreases |items|, 2
    ensures var h := MatchFrom(u, ignoreCase, items, t, i).value;
            (h.capture.Some? <==> HasCapture(items)) &&
            (h.capture.Some? ==> exists w :: w in CapturedWords(items) && Spells(ignoreCase, h.capture.value, w))
  {
    if items == [] {
      assert !HasCapture(items);
    } else {
      var rest := items[1..];
      match items[0]
      case Lit(c) =>
        HasCaptureFirstOrRest(items);
        MatchFromCapture(u, ignoreCase, rest, t, i + 1);
      case Boundary =>
        HasCaptureFirstOrRest(items);
        MatchFromCapture(u, ignoreCase, rest, t, i);
      case Rep(cls, lo, hi) =>
        RepCapture(u, ignoreCase, items, t, i);
      case Group(_, _) =>
        GroupCapture(u, ignoreCase, items, t, i);
    }
  }

  lemma {:induction false} RepCapture(u: UnicodeTables, ignoreCase: bool, items: seq<Item>, t: string, i: nat)
    requires i <= |t| && items != [] && items[0].Rep? && MatchFrom(u, ignoreCase, items, t, i).Some?
    decreases |items|, 1
    ensures var h := MatchFrom(u, ignoreCase, items, t, i).value;
            (h.capture.Some? <==> HasCapture(items)) &&
            (h.capture.Some? ==> exists w :: w in CapturedWords(items) && Spells(ignoreCase, h.capture.value, w))
  {
    var k := RepStep(u, ignoreCase, items, t, i);
    RestCapture(u, ignoreCase, items, t, i + k);
  }

  /** When the first item captures nothing, what the rest captures at `j` fits the whole pattern. */
  lemma {:induction false} RestCapture(u: UnicodeTables, ignoreCase: bool, items: seq<Item>, t: string, j: nat)
    requires j <= |t| && items != [] && !(items[0].Group? && items[0].capturing)
    requires MatchFrom(u, ignoreCase, items[1..], t, j).Some?
    decreases |items|, 0
    ensures var h := MatchFrom(u, ignoreCase, items[1..], t, j).value;
            (h.capture.Some? <==> HasCapture(items)) &&
            (h.capture.Some? ==> exists w :: w in CapturedWords(items) && Spells(ignoreCase, h.capture.value, w))
  {
    MatchFromCapture(u, ignoreCase, items[1..], t, j);
    CaptureCarriesOver(ignoreCase, items, MatchFrom(u, ignoreCase, items[1..], t, j).value);
  }

  /** An item that captures nothing leaves what the rest of the pattern captures as the whole pattern's. */
  lemma CaptureCarriesOver(ignoreCase: bool, items: seq<Item>, h: Hit)
    requires items != [] && !(items[0].Group? && items[0].capturing)
    requires h.capture.Some? <==> HasCapture(items[1..])
    requires h.capture.Some? ==> exists w :: w in CapturedWords(items[1..]) && Spells(ignoreCase, h.capture.value, w)
    ensures h.capture.Some? <==> HasCapture(items)
    ensures h.capture.Some? ==> exists w :: w in CapturedWords(items) && Spells(ignoreCase, h.capture.value, w)
  {
    HasCaptureFirstOrRest(items);
    assert CapturedWords(items) == CapturedWords(items[1..]);
  }

  lemma {:induction false} GroupCapture(u: UnicodeTables, ignoreCase: bool, items: seq<Item>, t: string, i: nat)
    requires i <= |t| && items != [] && items[0].Group? && MatchFrom(u, ignoreCase, items, t, i).Some?
    decreases |items|, 1
    ensures var h := MatchFrom(u, ignoreCase, items, t, i).value;
            (h.capture.Some? <==> HasCapture(items)) &&
            (h.capture.Some? ==> exists w :: w in CapturedWords(items) && Spells(ignoreCase, h.capture.value, w))
  {
    var _, w := GroupStep(u, ignoreCase, items, t, i);
    var h := MatchFrom(u, ignoreCase, items, t, i).value;
    if items[0].capturing {
      CapturingGroupFits(ignoreCase, items, h, w);
    } else {
      RestCapture(u, ignoreCase, items, t, i + |w|);
    }
  }

  /** A capture spelling a word of a leading capturing group fits the whole pattern. */
  lemma CapturingGroupFits(ignoreCase: bool, items: seq<Item>, h: Hit, w: string)
    requires items != [] && items[0].Group? && items[0].capturing && w in items[0].words
    requires h.capture.Some? && Spells(ignoreCase, h.capture.value, w)
    ensures h.capture.Some? <==> HasCapture(items)
    ensures h.capture.Some? ==> exists w :: w in CapturedWords(items) && Spells(ignoreCase, h.capture.value, w)
  {
    HasCaptureFirstOrRest(items);
    assert CapturedWords(items) == items[0].words + CapturedWords(items[1..]);
  }

  /** One step of the matcher at a leading repetition. */
  lemma RepUnfold(u: UnicodeTables, ignoreCase: bool, items: seq<Item>, t: string, i: nat)
    requires i <= |t| && items != [] && items[0].Rep?
    ensures var n := Run(u, items[0].cls, t, i, items[0].hi);
            MatchFrom(u, ignoreCase, items, t, i) ==
            if n < items[0].lo then None else TryCounts(u, ignoreCase, items[1..], t, i, n, items[0].lo)
  {
  }

  /** One step of the matcher at a leading group. */
  lemma GroupUnfold(u: UnicodeTables, ignoreCase: bool, items: seq<Item>, t: string, i: nat)
    requires i <= |t| && items != [] && items[0].Group?
    ensures MatchFrom(u, ignoreCase, items, t, i) ==
            TryWords(u, ignoreCase, items[1..], t, i, items[0].words, items[0].capturing)
  {
  }

  lemma HasCaptureFirstOrRest(items: seq<Item>)
    requires items != []
    ensures HasCapture(items) <==> (items[0].Group? && items[0].capturing) || HasCapture(items[1..])
  {
    if HasCapture(items[1..]) {
      var j :| 0 <= j < |items[1..]| && items[1..][j].Group? && items[1..][j].capturing;
      assert items[j + 1].Group? && items[j + 1].capturing;
    }
    if items[0].Group? && items[0].capturing {
      assert 0 < |items| && items[0].Group? && items[0].capturing;
    }
  }

  /** The declarative reading of a pattern: `items` can match exactly `t[i..end]`. */
  ghost predicate Accepts(u: UnicodeTables, ignoreCase: bool, items: seq<Item>, t: string, i: nat, end: nat)
    decreases |items|
  {
    i <= |t| &&
    if items == [] then end == i
    else
      var rest := items[1..];
      match items[0]
      case Lit(c) =>
        i < |t| && CharMatches(ignoreCase, t[i], c) && Accepts(u, ignoreCase, rest, t, i + 1, end)
      case Boundary =>
        AtBoundary(u, t, i) && Accepts(u, ignoreCase, rest, t, i, end)
      case Rep(cls, lo, hi) =>
        exists k: nat :: lo <= k && Within(k, hi) && i + k <= |t| && AllIn(u, cls, t, i, i + k) &&
                         Accepts(u, ignoreCase, rest, t, i + k, end)
      case Group(words, _) =>
        exists w :: w in words && WordAt(ignoreCase, t, i, w) && Accepts(u, ignoreCase, rest, t, i + |w|, end)
  }

  /** The matcher finds a match at `i` exactly when the pattern can match some text starting there. */
  lemma MatchFromIffAccepts(u: UnicodeTables, ignoreCase: bool, items: seq<Item>, t: string, i: nat)
    requires i <= |t|
    ensures MatchFrom(u, ignoreCase, items, t, i).Some? <==> exists e :: Accepts(u, ignoreCase, items, t, i, e)
  {
    if MatchFrom(u, ignoreCase, items, t, i).Some? {
      MatchFromSound(u, ignoreCase, items, t, i);
      var e := MatchFrom(u, ignoreCase, items, t, i).value.end;
      assert Accepts(u, ignoreCase, items, t, i, e);
    } else if exists e :: Accepts(u, ignoreCase, items, t, i, e) {
      var e :| Accepts(u, ignoreCase, items, t, i, e);
      MatchFromComplete(u, ignoreCase, items, t, i, e);
    }
  }

  /** The match the matcher reports is one the pattern allows. */
  lemma {:induction false} MatchFromSound(u: UnicodeTables, ignoreCase: bool, items: seq<Item>, t: string, i: nat)
    requires i <= |t| && MatchFrom(u, ignoreCase, items, t, i).Some?
    decreases |items|, 1
    ensures Accepts(u, ignoreCase, items, t, i, MatchFrom(u, ignoreCase, items, t, i).value.end)
  {
    if items != [] {
      var rest := items[1..];
      match items[0]
      case Lit(c) =>
        MatchFromSound(u, ignoreCase, rest, t, i + 1);
      case Boundary =>
        MatchFromSound(u, ignoreCase, rest, t, i);
      case Rep(cls, lo, hi) =>
        RepSound(u, ignoreCase, items, t, i);
      case Group(_, _) =>
        GroupSound(u, ignoreCase, items, t, i);
    }
  }

  lemma {:induction false} RepSound(u: UnicodeTables, ignoreCase: bool, items: seq<Item>, t: string, i: nat)
    requires i <= |t| && items != [] && items[0].Rep? && MatchFrom(u, ignoreCase, items, t, i).Some?
    decreases |items|, 0
    ensures Accepts(u, ignoreCase, items, t, i, MatchFrom(u, ignoreCase, items, t, i).value.end)
  {
    var k := RepStep(u, ignoreCase, items, t, i);
    MatchFromSound(u, ignoreCase, items[1..], t, i + k);
    RepAccepts(u, ignoreCase, items, t, i, k, MatchFrom(u, ignoreCase, items[1..], t, i + k).value.end);
  }

  /**
   * A match at a leading repetition is the rest's match after some admissible
   * count of the class, and the repetition is greedy: after no longer
   * admissible count does the rest of the pattern match.
   */
  lemma RepStep(u: UnicodeTables, ignoreCase: bool, items: seq<Item>, t: string, i: nat) returns (k: nat)
    requires i <= |t| && items != [] && items[0].Rep? && MatchFrom(u, ignoreCase, items, t, i).Some?
    ensures items[0].lo <= k && Within(k, items[0].hi) && i + k <= |t| && AllIn(u, items[0].cls, t, i, i + k)
    ensures MatchFrom(u, ignoreCase, items, t, i) == MatchFrom(u, ignoreCase, items[1..], t, i + k)
    ensures forall j :: i + k < j <= |t| && Within(j - i, items[0].hi) && AllIn(u, items[0].cls, t, i, j) ==>
                        MatchFrom(u, ignoreCase, items[1..], t, j).None?
  {
    var rest, cls, lo, hi := items[1..], items[0].cls, items[0].lo, items[0].hi;
    var n := Run(u, cls, t, i, hi);
    RepUnfold(u, ignoreCase, items, t, i);
    k := CountsChoice(u, ignoreCase, rest, t, i, n, lo);
    RunPrefix(u, cls, t, i, n, k);
    forall j | i + k < j <= |t| && Within(j - i, hi) && AllIn(u, cls, t, i, j)
      ensures MatchFrom(u, ignoreCase, rest, t, j).None?
    {
      RunIsLongest(u, cls, t, i, hi, j);
    }
  }

  /**
   * In a pattern that ends in a group, a match ends right after a word of that
   * group read at some `j`, and it is the first of the group's words that can
   * be read at `j`: nothing follows the group to make an earlier word fail.
   */
  lemma {:induction false} TrailingGroupWord(u: UnicodeTables, ignoreCase: bool, items: seq<Item>, t: string, i: nat)
    returns (j: nat, n: nat)
    requires i <= |t| && items != [] && items[|items| - 1].Group? && MatchFrom(u, ignoreCase, items, t, i).Some?
    decreases |items|
    ensures var words := items[|items| - 1].words;
            i <= j && n < |words| && WordAt(ignoreCase, t, j, words[n]) &&
            MatchFrom(u, ignoreCase, items, t, i).value.end == j + |words[n]| &&
            forall m :: 0 <= m < n ==> !WordAt(ignoreCase, t, j, words[m])
  {
    if |items| == 1 {
      j := i;
      n := LastGroupWord(u, ignoreCase, items, t, i);
    } else {
      var rest := items[1..];
      assert rest[|rest| - 1] == items[|items| - 1];
      var i' := ItemStep(u, ignoreCase, items, t, i);
      j, n := TrailingGroupWord(u, ignoreCase, rest, t, i');
    }
  }

  /** A pattern that is a single group matches the first of its words that can be read at `i`. */
  lemma LastGroupWord(u: UnicodeTables, ignoreCase: bool, items: seq<Item>, t: string, i: nat) returns (n: nat)
    requires i <= |t| && |items| == 1 && items[0].Group? && MatchFrom(u, ignoreCase, items, t, i).Some?
    ensures var words := items[0].words;
            n < |words| && WordAt(ignoreCase, t, i, words[n]) &&
            MatchFrom(u, ignoreCase, items, t, i).value.end == i + |words[n]| &&
            forall m :: 0 <= m < n ==> !WordAt(ignoreCase, t, i, words[m])
  {
    var w;
    n, w := GroupStep(u, ignoreCase, items, t, i);
    assert items[1..] == [];
  }

  /** A match of a pattern is the rest's match from where its first item stops reading. */
  lemma ItemStep(u: UnicodeTables, ignoreCase: bool, items: seq<Item>, t: string, i: nat) returns (i': nat)
    requires i <= |t| && items != [] && MatchFrom(u, ignoreCase, items, t, i).Some?
    ensures i <= i' <= |t| && MatchFrom(u, ignoreCase, items[1..], t, i').Some?
    ensures MatchFrom(u, ignoreCase, items, t, i).value.end == MatchFrom(u, ignoreCase, items[1..], t, i').value.end
  {
    if items[0].Rep? {
      var k := RepStep(u, ignoreCase, items, t, i);
      i' := i + k;
    } else if items[0].Group? {
      var _, w := GroupStep(u, ignoreCase, items, t, i);
      i' := i + |w|;
    } else {
      i' := PlainStep(u, ignoreCase, items, t, i);
    }
  }

  /** A literal reads one character and a word boundary none. */
  lemma PlainStep(u: UnicodeTables, ignoreCase: bool, items: seq<Item>, t: string, i: nat) returns (i': nat)
    requires i <= |t| && items != [] && (items[0].Lit? || items[0].Boundary?)
    requires MatchFrom(u, ignoreCase, items, t, i).Some?
    ensures i' == (if items[0].Lit? then i + 1 else i) && i' <= |t|
    ensures MatchFrom(u, ignoreCase, items, t, i) == MatchFrom(u, ignoreCase, items[1..], t, i')
  {
    i' := if items[0].Lit? then i + 1 else i;
  }

  /** No admissible run of the class from `i` is longer than `Run`. */
  lemma RunIsLongest(u: UnicodeTables, cls: CharClass, t: string, i: nat, hi: Bound, j: nat)
    requires i <= j <= |t| && Within(j - i, hi) && AllIn(u, cls, t, i, j)
    ensures j <= i + Run(u, cls, t, i, hi)
  {
  }

  lemma RepAccepts(u: UnicodeTables, ignoreCase: bool, items: seq<Item>, t: string, i: nat, k: nat, e: nat)
    requires items != [] && items[0].Rep? && i <= |t|
    requires items[0].lo <= k && Within(k, items[0].hi) && i + k <= |t| && AllIn(u, items[0].cls, t, i, i + k)
    requires Accepts(u, ignoreCase, items[1..], t, i + k, e)
    ensures Accepts(u, ignoreCase, items, t, i, e)
  {
  }

  lemma GroupAccepts(u: UnicodeTables, ignoreCase: bool, items: seq<Item>, t: string, i: nat, w: string, e: nat)
    requires items != [] && items[0].Group? && i <= |t|
    requires w in items[0].words && WordAt(ignoreCase, t, i, w) && Accepts(u, ignoreCase, items[1..], t, i + |w|, e)
    ensures Accepts(u, ignoreCase, items, t, i, e)
  {
  }

  lemma {:induction false} GroupSound(u: UnicodeTables, ignoreCase: bool, items: seq<Item>, t: string, i: nat)
    requires i <= |t| && items != [] && items[0].Group? && MatchFrom(u, ignoreCase, items, t, i).Some?
    decreases |items|, 0
    ensures Accepts(u, ignoreCase, items, t, i, MatchFrom(u, ignoreCase, items, t, i).value.end)
  {
    var _, w := GroupStep(u, ignoreCase, items, t, i);
    MatchFromSound(u, ignoreCase, items[1..], t, i + |w|);
    GroupAccepts(u, ignoreCase, items, t, i, w, MatchFrom(u, ignoreCase, items[1..], t, i + |w|).value.end);
  }

  /**
   * A match at a leading group is the rest's match after one of the group's
   * words, the first word after which the rest of the pattern matches.
   */
  lemma GroupStep(u: UnicodeTables, ignoreCase: bool, items: seq<Item>, t: string, i: nat) returns (n: nat, w: string)
    requires i <= |t| && items != [] && items[0].Group? && MatchFrom(u, ignoreCase, items, t, i).Some?
    ensures n < |items[0].words| && w == items[0].words[n]
    ensures forall m :: 0 <= m < n ==>
              !(WordAt(ignoreCase, t, i, items[0].words[m]) &&
                MatchFrom(u, ignoreCase, items[1..], t, i + |items[0].words[m]|).Some?)
    ensures w in items[0].words && WordAt(ignoreCase, t, i, w) && MatchFrom(u, ignoreCase, items[1..], t, i + |w|).Some?
    ensures MatchFrom(u, ignoreCase, items, t, i).value.end == MatchFrom(u, ignoreCase, items[1..], t, i + |w|).value.end
    ensures items[0].capturing ==> MatchFrom(u, ignoreCase, items, t, i).value.capture.Some? &&
                                   Spells(ignoreCase, MatchFrom(u, ignoreCase, items, t, i).value.capture.value, w)
    ensures !items[0].capturing ==> MatchFrom(u, ignoreCase, items, t, i).value.capture ==
                                    MatchFrom(u, ignoreCase, items[1..], t, i + |w|).value.capture
  {
    GroupUnfold(u, ignoreCase, items, t, i);
    n, w := WordsChoice(u, ignoreCase, items[1..], t, i, items[0].words, items[0].capturing);
  }

  lemma RunPrefix(u: UnicodeTables, cls: CharClass, t: string, i: nat, n: nat, k: nat)
    requires k <= n && i + n <= |t| && AllIn(u, cls, t, i, i + n)
    ensures AllIn(u, cls, t, i, i + k)
  {
  }

  /** The count a successful `TryCounts` settled on. */
  lemma {:induction false} CountsChoice(u: UnicodeTables, ignoreCase: bool, rest: seq<Item>, t: string, i: nat, k: nat, lo: nat)
    returns (c: nat)
    requires lo <= k && i + k <= |t| && TryCounts(u, ignoreCase, rest, t, i, k, lo).Some?
    decreases k
    ensures lo <= c <= k && MatchFrom(u, ignoreCase, rest, t, i + c) == TryCounts(u, ignoreCase, rest, t, i, k, lo)
    ensures forall j :: i + c < j <= i + k ==> MatchFrom(u, ignoreCase, rest, t, j).None?
  {
    if MatchFrom(u, ignoreCase, rest, t, i + k).Some? {
      c := k;
    } else {
      assert k != lo && TryCounts(u, ignoreCase, rest, t, i, k, lo) == TryCounts(u, ignoreCase, rest, t, i, k - 1, lo);
      c := CountsChoice(u, ignoreCase, rest, t, i, k - 1, lo);
    }
  }

  /** The word a successful `TryWords` settled on. */
  lemma {:induction false} WordsChoice(u: UnicodeTables, ignoreCase: bool, rest: seq<Item>, t: string, i: nat,
                                       words: seq<string>, capturing: bool)
    returns (n: nat, w: string)
    requires i <= |t| && TryWords(u, ignoreCase, rest, t, i, words, capturing).Some?
    decreases |words|
    ensures n < |words| && w == words[n] && w in words
    ensures AfterWord(u, ignoreCase, rest, t, i, w, capturing) == TryWords(u, ignoreCase, rest, t, i, words, capturing)
    ensures forall m :: 0 <= m < n ==> AfterWord(u, ignoreCase, rest, t, i, words[m], capturing).None?
  {
    if AfterWord(u, ignoreCase, rest, t, i, words[0], capturing).Some? {
      n, w := 0, words[0];
    } else {
      var n', _ := WordsChoice(u, ignoreCase, rest, t, i, words[1..], capturing);
      n, w := n' + 1, words[n' + 1];
      forall m | 1 <= m < n
        ensures AfterWord(u, ignoreCase, rest, t, i, words[m], capturing).None?
      {
        assert words[m] == words[1..][m - 1];
      }
    }
  }

  /** Any match the pattern allows at `i` makes the matcher succeed there. */
  lemma {:induction false} MatchFromComplete(u: UnicodeTables, ignoreCase: bool, items: seq<Item>, t: string, i: nat, end: nat)
    requires Accepts(u, ignoreCase, items, t, i, end)
    decreases |items|, 1
    ensures MatchFrom(u, ignoreCase, items, t, i).Some?
  {
    if items != [] {
      var rest := items[1..];
      match items[0]
      case Lit(c) =>
        MatchFromComplete(u, ignoreCase, rest, t, i + 1, end);
      case Boundary =>
        MatchFromComplete(u, ignoreCase, rest, t, i, end);
      case Rep(cls, lo, hi) =>
        RepComplete(u, ignoreCase, items, t, i, end);
      case Group(_, _) =>
        GroupComplete(u, ignoreCase, items, t, i, end);
    }
  }

  lemma {:induction false} RepComplete(u: UnicodeTables, ignoreCase: bool, items: seq<Item>, t: string, i: nat, end: nat)
    requires items != [] && items[0].Rep? && Accepts(u, ignoreCase, items, t, i, end)
    decreases |items|, 0
    ensures MatchFrom(u, ignoreCase, items, t, i).Some?
  {
    var rest, cls, lo, hi := items[1..], items[0].cls, items[0].lo, items[0].hi;
    var k := RepAccepted(u, ignoreCase, items, t, i, end);
    MatchFromComplete(u, ignoreCase, rest, t, i + k, end);
    var n := Run(u, cls, t, i, hi);
    assert k <= n;
    CountsFind(u, ignoreCase, rest, t, i, n, lo, k);
    RepUnfold(u, ignoreCase, items, t, i);
  }

  lemma {:induction false} GroupComplete(u: UnicodeTables, ignoreCase: bool, items: seq<Item>, t: string, i: nat, end: nat)
    requires items != [] && items[0].Group? && Accepts(u, ignoreCase, items, t, i, end)
    decreases |items|, 0
    ensures MatchFrom(u, ignoreCase, items, t, i).Some?
  {
    var rest, words, capturing := items[1..], items[0].words, items[0].capturing;
    var w := GroupAccepted(u, ignoreCase, items, t, i, end);
    MatchFromComplete(u, ignoreCase, rest, t, i + |w|, end);
    WordsFind(u, ignoreCase, rest, t, i, words, capturing, w);
    GroupUnfold(u, ignoreCase, items, t, i);
  }

  /** What `Accepts` says of a leading repetition: some admissible count, then the rest. */
  lemma RepAccepted(u: UnicodeTables, ignoreCase: bool, items: seq<Item>, t: string, i: nat, end: nat) returns (k: nat)
    requires items != [] && items[0].Rep? && Accepts(u, ignoreCase, items, t, i, end)
    ensures items[0].lo <= k && Within(k, items[0].hi) && i + k <= |t| && AllIn(u, items[0].cls, t, i, i + k)
    ensures Accepts(u, ignoreCase, items[1..], t, i + k, end)
  {
    k :| items[0].lo <= k && Within(k, items[0].hi) && i + k <= |t| && AllIn(u, items[0].cls, t, i, i + k) &&
         Accepts(u, ignoreCase, items[1..], t, i + k, end);
  }

  /** What `Accepts` says of a leading group: one of its words, then the rest. */
  lemma GroupAccepted(u: UnicodeTables, ignoreCase: bool, items: seq<Item>, t: string, i: nat, end: nat) returns (w: string)
    requires items != [] && items[0].Group? && Accepts(u, ignoreCase, items, t, i, end)
    ensures w in items[0].words && WordAt(ignoreCase, t, i, w) && Accepts(u, ignoreCase, items[1..], t, i + |w|, end)
  {
    w :| w in items[0].words && WordAt(ignoreCase, t, i, w) && Accepts(u, ignoreCase, items[1..], t, i + |w|, end);
  }

  lemma {:induction false} CountsFind(u: UnicodeTables, ignoreCase: bool, rest: seq<Item>, t: string, i: nat, top: nat, lo: nat, k: nat)
    requires lo <= k <= top && i + top <= |t| && MatchFrom(u, ignoreCase, rest, t, i + k).Some?
    decreases top
    ensures TryCounts(u, ignoreCase, rest, t, i, top, lo).Some?
  {
    if top != k && MatchFrom(u, ignoreCase, rest, t, i + top).None? {
      CountsFind(u, ignoreCase, rest, t, i, top - 1, lo, k);
    }
  }

  lemma {:induction false} WordsFind(u: UnicodeTables, ignoreCase: bool, rest: seq<Item>, t: string, i: nat,
                                     words: seq<string>, capturing: bool, w: string)
    requires i <= |t| && w in words && WordAt(ignoreCase, t, i, w)
    requires MatchFrom(u, ignoreCase, rest, t, i + |w|).Some?
    decreases |words|
    ensures TryWords(u, ignoreCase, rest, t, i, words, capturing).Some?
  {
    if AfterWord(u, ignoreCase, rest, t, i, words[0], capturing).None? {
      assert w in words[1..];
      WordsFind(u, ignoreCase, rest, t, i, words[1..], capturing, w);
    }
  }
}

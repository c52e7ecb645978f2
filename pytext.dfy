/**
 * The handful of Python `str` operations the assistant relies on, stated over
 * `seq<char>` (one `char` per Unicode code point, as a Python `str` indexes):
 * `isspace`, `strip`, `s[:n]` and `s.split(sep)[-1]`.
 */
module PyText {

  datatype Option<+T> = None | Some(value: T)

  /** What a call into a library gives back: a value, or the exception it raised. */
  datatype Outcome<+T> = Returned(value: T) | Raised

  /** `c.isspace()`: the characters CPython classifies as whitespace. */
  predicate IsSpace(c: char)
  {
    ('\t' <= c <= '\r') || ('\U{1C}' <= c <= '\U{1F}') || c == ' ' ||
    c == '\U{85}' || c == '\U{A0}' || c == '\U{1680}' ||
    ('\U{2000}' <= c <= '\U{200A}') || c == '\U{2028}' || c == '\U{2029}' ||
    c == '\U{202F}' || c == '\U{205F}' || c == '\U{3000}'
  }

  /**
   * Among ASCII characters, `isspace` holds for the space, `\t`, `\n`,
   * `\v`, `\f`, `\r` and also the four separators `\x1c` to `\x1f`.
   */
  lemma AsciiWhitespace(c: char)
    requires c <= '\U{7f}'
    ensures IsSpace(c) <==> c == ' ' || c == '\t' || c == '\n' || c == '\U{0B}' || c == '\U{0C}' ||
                            c == '\r' || '\U{1C}' <= c <= '\U{1F}'
  {
  }

  /** Every character of `s` is whitespace (`not s.strip()` in Python). */
  predicate Blank(s: string) {
    forall i :: 0 <= i < |s| ==> IsSpace(s[i])
  }

  /** `s` neither starts nor ends with whitespace. */
  predicate Trimmed(s: string) {
    s == [] || (!IsSpace(s[0]) && !IsSpace(s[|s| - 1]))
  }

  /** Number of leading whitespace characters of `s`. */
  function LeadingSpaces(s: string): (n: nat)
    ensures n <= |s|
    ensures Blank(s[..n])
    ensures n < |s| ==> !IsSpace(s[n])
  {
    if s == [] || !IsSpace(s[0]) then 0 else 1 + LeadingSpaces(s[1..])
  }

  /** Number of trailing whitespace characters of `s`. */
  function TrailingSpaces(s: string): (n: nat)
    ensures n <= |s|
    ensures Blank(s[|s| - n..])
    ensures n < |s| ==> !IsSpace(s[|s| - 1 - n])
  {
    if s == [] || !IsSpace(s[|s| - 1]) then 0 else 1 + TrailingSpaces(s[..|s| - 1])
  }

  /** `s.strip()`: `s` without its leading and trailing whitespace. */
  function Strip(s: string): (r: string)
    ensures Trimmed(r)
    ensures LeadingSpaces(s) + |r| <= |s|
    ensures r == s[LeadingSpaces(s)..LeadingSpaces(s) + |r|]
    ensures Blank(s[..LeadingSpaces(s)]) && Blank(s[LeadingSpaces(s) + |r|..])
  {
    var a := LeadingSpaces(s);
    if a == |s| then [] else s[a..|s| - TrailingSpaces(s)]
  }

  lemma {:induction false} LeadingSpacesAppend(w: string, x: string)
    requires Blank(w)
    ensures LeadingSpaces(w + x) == |w| + LeadingSpaces(x)
  {
    if w != [] {
      assert (w + x)[1..] == w[1..] + x;
      LeadingSpacesAppend(w[1..], x);
    } else {
      assert w + x == x;
    }
  }

  lemma {:induction false} TrailingSpacesAppend(x: string, w: string)
    requires Blank(w)
    ensures TrailingSpaces(x + w) == TrailingSpaces(x) + |w|
  {
    if w != [] {
      var w' := w[..|w| - 1];
      assert (x + w)[..|x + w| - 1] == x + w';
      TrailingSpacesAppend(x, w');
    } else {
      assert x + w == x;
    }
  }

  /**
   * `strip` is characterised by what it keeps: whenever `s` is a trimmed
   * core between two whitespace runs, `strip` returns exactly that core.
   */
  lemma StripUnique(w1: string, r: string, w2: string)
    requires Blank(w1) && Blank(w2) && Trimmed(r)
    ensures Strip(w1 + r + w2) == r
  {
    LeadingSpacesAppend(w1, r + w2);
    assert w1 + r + w2 == w1 + (r + w2);
    if r == [] {
      assert r + w2 == w2;
    } else {
      StripUniqueCore(w1, r, w2);
    }
  }

  lemma StripUniqueCore(w1: string, r: string, w2: string)
    requires Blank(w1) && Blank(w2) && Trimmed(r) && r != []
    requires LeadingSpaces(w1 + r + w2) == |w1| + LeadingSpaces(r + w2)
    ensures Strip(w1 + r + w2) == r
  {
    var s := w1 + r + w2;
    assert (r + w2)[0] == r[0];
    TrailingSpacesAppend(w1 + r, w2);
    assert (w1 + r)[|w1 + r| - 1] == r[|r| - 1];
    assert s[|w1|..|s| - |w2|] == r;
  }

  /** `s.strip()` is empty exactly when `s` is whitespace only. */
  lemma StripEmptyIffBlank(s: string)
    ensures Strip(s) == [] <==> Blank(s)
  {
    var a := LeadingSpaces(s);
    if Strip(s) == [] {
      assert s == s[..a] + s[a..];
      forall i | 0 <= i < |s| ensures IsSpace(s[i]) {
        assert s[i] == s[..a][i];
      }
    }
  }

  /** Stripping twice is stripping once. */
  lemma StripIdempotent(s: string)
    ensures Strip(Strip(s)) == Strip(s)
  {
    StripUnique([], Strip(s), []);
    assert [] + Strip(s) + [] == Strip(s);
  }

  lemma SplitThree(s: string, a: nat, b: nat)
    requires a <= b <= |s|
    ensures s == s[..a] + s[a..b] + s[b..]
  {
  }

  lemma ConcatAssoc(a: string, b: string, c: string, d: string)
    ensures a + (b + c + d) == (a + b) + c + d
  {
  }

  lemma BlankConcat(x: string, y: string)
    requires Blank(x) && Blank(y)
    ensures Blank(x + y)
  {
    forall i | 0 <= i < |x + y| ensures IsSpace((x + y)[i]) {
      if i >= |x| { assert (x + y)[i] == y[i - |x|]; }
    }
  }

  /** Leading whitespace never changes the stripped result. */
  lemma StripBlankPrefix(w: string, s: string)
    requires Blank(w)
    ensures Strip(w + s) == Strip(s)
  {
    var a := LeadingSpaces(s);
    var r := Strip(s);
    var w0, w2 := s[..a], s[a + |r|..];
    assert Blank(w0) && Blank(w2) && Trimmed(r);
    SplitThree(s, a, a + |r|);
    assert s == w0 + r + w2;
    BlankConcat(w, w0);
    ConcatAssoc(w, w0, r, w2);
    StripUnique(w + w0, r, w2);
  }

  /** `s[:n]` for a non-negative `n`: the first `n` characters, or all of `s`. */
  function Prefix(s: string, n: nat): (r: string)
    ensures |r| == if |s| <= n then |s| else n
    ensures r <= s
  {
    if |s| <= n then s else s[..n]
  }

  /** `m` occurs in `s` starting at index `i`. */
  predicate OccursAt(s: string, m: string, i: nat) {
    i + |m| <= |s| && s[i..i + |m|] == m
  }

  /** `m in s`. */
  predicate Contains(s: string, m: string) {
    exists i: nat | i <= |s| :: OccursAt(s, m, i)
  }

  /** `s.find(m, from)`, as an option: the first occurrence at or after `from`. */
  function FindFrom(s: string, m: string, from: nat): (r: Option<nat>)
    decreases |s| - from
    ensures r.Some? ==> from <= r.value && OccursAt(s, m, r.value)
  {
    if from + |m| > |s| then None
    else if OccursAt(s, m, from) then Some(from)
    else FindFrom(s, m, from + 1)
  }

  /** `find` reports the first occurrence, and reports none only when there is none. */
  lemma {:induction false} FindFromFirst(s: string, m: string, from: nat, i: nat)
    requires from <= i && OccursAt(s, m, i)
    decreases |s| - from
    ensures FindFrom(s, m, from).Some? && FindFrom(s, m, from).value <= i
  {
    if from + |m| <= |s| && !OccursAt(s, m, from) {
      FindFromFirst(s, m, from + 1, i);
    }
  }

  /**
   * Where the last piece of `s.split(m)` starts when the scan resumes at
   * `from`: Python looks for the next occurrence at or after `from` and,
   * after each one it finds, resumes just past it.
   */
  function LastPieceStart(s: string, m: string, from: nat): (r: nat)
    requires m != [] && from <= |s|
    decreases |s| - from
    ensures from <= r <= |s|
  {
    match FindFrom(s, m, from)
    case None => from
    case Some(i) => LastPieceStart(s, m, i + |m|)
  }

  /** `s.split(m)[-1]`: the last piece of `s` split at non-overlapping occurrences of `m`. */
  function LastPiece(s: string, m: string): (r: string)
    requires m != []
    ensures |r| <= |s| && r == s[|s| - |r|..]
  {
    s[LastPieceStart(s, m, 0)..]
  }

  /** No occurrence of `m` starts at or after where the last piece starts. */
  lemma {:induction false} NothingAfterLastStart(s: string, m: string, from: nat, k: nat)
    requires m != [] && from <= |s|
    requires LastPieceStart(s, m, from) <= k
    decreases |s| - from
    ensures !OccursAt(s, m, k)
  {
    if FindFrom(s, m, from).None? {
      LastPieceStartStops(s, m, from);
      if OccursAt(s, m, k) { FindFromFirst(s, m, from, k); }
    } else {
      var i := FindFrom(s, m, from).value;
      LastPieceStartSkips(s, m, from, i);
      var next: nat := i + |m|;
      assert next <= |s|;
      NothingAfterLastStart(s, m, next, k);
    }
  }

  /** Once an occurrence is found, the last piece starts right after some occurrence. */
  lemma {:induction false} LastStartFollowsOccurrence(s: string, m: string, from: nat) returns (j: nat)
    requires m != [] && from <= |s| && FindFrom(s, m, from).Some?
    decreases |s| - from
    ensures from <= j && j + |m| == LastPieceStart(s, m, from) && OccursAt(s, m, j)
  {
    var i := FindFrom(s, m, from).value;
    LastPieceStartSkips(s, m, from, i);
    var next: nat := i + |m|;
    assert next <= |s|;
    if FindFrom(s, m, next).Some? {
      j := LastStartFollowsOccurrence(s, m, next);
    } else {
      LastPieceStartStops(s, m, next);
      j := i;
    }
  }

  lemma LastPieceStartSkips(s: string, m: string, from: nat, i: nat)
    requires m != [] && from <= |s| && FindFrom(s, m, from) == Some(i)
    ensures OccursAt(s, m, i)
    ensures LastPieceStart(s, m, from) == LastPieceStart(s, m, i + |m|)
  {
  }

  lemma LastPieceStartStops(s: string, m: string, from: nat)
    requires m != [] && from <= |s| && FindFrom(s, m, from).None?
    ensures LastPieceStart(s, m, from) == from
  {
  }

  /**
   * The last piece holds no occurrence of the separator, and it is all of
   * `s` when the separator is absent.
   */
  lemma LastPieceMarkerFree(s: string, m: string)
    requires m != []
    ensures !Contains(LastPiece(s, m), m)
    ensures !Contains(s, m) ==> LastPiece(s, m) == s
  {
    var a := LastPieceStart(s, m, 0);
    if Contains(s[a..], m) {
      var k: nat :| k <= |s| - a && OccursAt(s[a..], m, k);
      OccursShift(s, m, a, k);
      NothingAfterLastStart(s, m, 0, a + k);
    }
    if FindFrom(s, m, 0).Some? {
      assert OccursAt(s, m, FindFrom(s, m, 0).value);
    }
  }

  /** When the separator occurs, the last piece directly follows an occurrence of it. */
  lemma LastPieceFollowsSeparator(s: string, m: string)
    requires m != [] && Contains(s, m)
    ensures var r := LastPiece(s, m);
            |m| <= |s| - |r| && OccursAt(s, m, |s| - |r| - |m|)
  {
    var k: nat :| k <= |s| && OccursAt(s, m, k);
    FindFromFirst(s, m, 0, k);
    var j := LastStartFollowsOccurrence(s, m, 0);
  }

  /** An occurrence in a suffix of `s` is an occurrence in `s`, shifted. */
  lemma OccursShift(s: string, m: string, d: nat, k: nat)
    requires d <= |s| && OccursAt(s[d..], m, k)
    ensures OccursAt(s, m, d + k)
  {
    assert s[d + k..d + k + |m|] == s[d..][k..k + |m|];
  }

  /** A piece of a string that avoids `m` contains no occurrence of `m` anywhere. */
  lemma NoOccurrenceInSlice(s: string, m: string, a: nat, b: nat)
    requires a <= b <= |s| && !Contains(s, m)
    ensures !Contains(s[a..b], m)
  {
    if Contains(s[a..b], m) {
      var i: nat :| i <= b - a && OccursAt(s[a..b], m, i);
      assert i + |m| <= b - a;
      forall k | 0 <= k < |m| ensures s[a + i + k] == m[k] {
        assert s[a..b][i..i + |m|][k] == m[k];
      }
      assert s[a + i..a + i + |m|] == m;
      assert OccursAt(s, m, a + i);
      assert false;
    }
  }

  /** Stripping cannot create an occurrence of `m`. */
  lemma StripKeepsAbsence(s: string, m: string)
    requires !Contains(s, m)
    ensures !Contains(Strip(s), m)
  {
    NoOccurrenceInSlice(s, m, LeadingSpaces(s), LeadingSpaces(s) + |Strip(s)|);
  }
}

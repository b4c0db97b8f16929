/**
 * `extract_emails`: every match of the pattern
 *   [a-zA-Z0-9._%+-]+ @ [a-zA-Z0-9.-]+ \. [a-zA-Z]{2,}
 * found by a left-to-right, non-overlapping search (Python's `re.findall`),
 * collected into a set.
 */
module Extraction {
  import opened Wrappers
  import opened Strings

  /** `[a-zA-Z0-9._%+-]`, the class of the part before `@`. */
  predicate IsLocalChar(c: char) {
    IsAlnum(c) || c == '.' || c == '_' || c == '%' || c == '+' || c == '-'
  }

  /** `[a-zA-Z0-9.-]`, the class of the domain before the last dot. */
  predicate IsDomainChar(c: char) {
    IsAlnum(c) || c == '.' || c == '-'
  }

  /** `x` splits as local part `x[..a]`, `@`, domain `x[a+1..d]`, `.`, and two or more letters. */
  ghost predicate SplitsAt(x: string, a: int, d: int) {
    && 0 < a && a + 1 < d && d + 2 < |x|
    && AllChars(x[..a], IsLocalChar)
    && x[a] == '@'
    && AllChars(x[a + 1..d], IsDomainChar)
    && x[d] == '.'
    && AllChars(x[d + 1..], IsAsciiLetter)
  }

  /** `x` as a whole matches the pattern. */
  ghost predicate IsEmailMatch(x: string) {
    exists a, d :: SplitsAt(x, a, d)
  }

  /** A `.` at `k` followed by two letters: where `\.[a-zA-Z]{2,}` can start. */
  predicate TldAt(s: string, k: nat) {
    k + 2 < |s| && s[k] == '.' && IsAsciiLetter(s[k + 1]) && IsAsciiLetter(s[k + 2])
  }

  /**
   * The largest `k` in `[lo, hi)` where the top-level domain can start: the
   * greedy domain class gives characters back from the right until `\.` and
   * two letters follow.
   */
  function LastTldDot(s: string, lo: nat, hi: nat): (r: Option<nat>)
    requires hi <= |s|
    ensures r.Some? ==> lo <= r.value < hi && TldAt(s, r.value)
    ensures r.Some? ==> forall k :: r.value < k < hi ==> !TldAt(s, k)
    ensures r.None? ==> forall k :: lo <= k < hi ==> !TldAt(s, k)
    decreases hi
  {
    if hi <= lo then None
    else if TldAt(s, hi - 1) then Some(hi - 1)
    else LastTldDot(s, lo, hi - 1)
  }

  /**
   * The end of the match that starts at `i`, if one does. The local class
   * has no `@`, so the local part is the whole run of local characters.
   */
  function MatchAt(s: string, i: nat): (r: Option<nat>)
    requires i <= |s|
    ensures r.Some? ==> i < r.value <= |s| && IsEmailMatch(s[i..r.value])
  {
    var l := SpanEnd(s, i, IsLocalChar);
    if l == i || l == |s| || s[l] != '@' then None
    else
      var e := SpanEnd(s, l + 1, IsDomainChar);
      match LastTldDot(s, l + 2, e)
      case None => None
      case Some(k) =>
        var m := SpanEnd(s, k + 1, IsAsciiLetter);
        var x := s[i..m];
        assert x[..l - i] == s[i..l];
        assert x[l - i] == s[l];
        assert x[l - i + 1..k - i] == s[l + 1..k];
        assert x[k - i] == s[k];
        assert x[k - i + 1..] == s[k + 1..m];
        assert SplitsAt(x, l - i, k - i);
        Some(m)
  }

  /** The matches `re.findall` reports, in order, scanning from `i`. */
  function Scan(s: string, i: nat): seq<string>
    requires i <= |s|
    decreases |s| - i
  {
    if i == |s| then []
    else
      match MatchAt(s, i)
      case Some(m) => [s[i..m]] + Scan(s, m)
      case None => Scan(s, i + 1)
  }

  /** `extract_emails(text)`: the distinct matches (Python's `list(set(...))` has no order). */
  function ExtractEmails(text: string): set<string> {
    Elements(Scan(text, 0))
  }

  /** Every match is an occurrence, at or after `i`, of a string of the pattern's shape. */
  lemma {:induction false} ScanSound(s: string, i: nat, x: string)
    requires i <= |s| && x in Scan(s, i)
    ensures IsEmailMatch(x)
    ensures exists j :: i <= j && OccursAt(s, x, j)
    decreases |s| - i
  {
    match MatchAt(s, i)
    case Some(m) =>
      if x == s[i..m] {
        assert OccursAt(s, x, i);
      } else {
        ScanSound(s, m, x);
      }
    case None =>
      ScanSound(s, i + 1, x);
  }

  /** A string of the pattern's shape has exactly one `@`, at the end of the local part. */
  lemma OneAt(x: string, a: int, d: int)
    requires SplitsAt(x, a, d)
    ensures forall k :: 0 <= k < |x| && x[k] == '@' ==> k == a
  {
    forall k | 0 <= k < |x| && k != a ensures x[k] != '@' {
      if k < a {
        assert x[..a][k] == x[k];
      } else if a < k < d {
        assert x[a + 1..d][k - a - 1] == x[k];
      } else if k > d {
        assert x[d + 1..][k - d - 1] == x[k];
      }
    }
  }

  /**
   * What `extract_emails` promises of each item: a substring of the text,
   * with exactly one `@`, ending in `.` and at least two ASCII letters.
   */
  lemma ExtractedShape(text: string, x: string)
    requires x in ExtractEmails(text)
    ensures IsEmailMatch(x)
    ensures exists j :: OccursAt(text, x, j)
    ensures exists a :: 0 <= a < |x| && x[a] == '@' && forall k :: 0 <= k < |x| && x[k] == '@' ==> k == a
    ensures exists d :: 0 <= d && d + 2 < |x| && x[d] == '.' && AllChars(x[d + 1..], IsAsciiLetter)
  {
    ScanSound(text, 0, x);
    var a, d :| SplitsAt(x, a, d);
    OneAt(x, a, d);
  }

  /** A match holds no comma and no space, and holds an `@`. */
  lemma MatchHasNoSeparator(x: string)
    requires IsEmailMatch(x)
    ensures ',' !in x && ' ' !in x && '@' in x
  {
    var a, d :| SplitsAt(x, a, d);
    forall k | 0 <= k < |x| ensures x[k] != ',' && x[k] != ' ' {
      if k < a {
        assert x[..a][k] == x[k];
      } else if a < k < d {
        assert x[a + 1..d][k - a - 1] == x[k];
      } else if k > d {
        assert x[d + 1..][k - d - 1] == x[k];
      }
    }
  }

  /** Extracted items contain no comma and no space: the enrichment's `", "` join can be split back. */
  lemma ExtractedHasNoSeparator(text: string, x: string)
    requires x in ExtractEmails(text)
    ensures ',' !in x && ' ' !in x && '@' in x
  {
    ScanSound(text, 0, x);
    MatchHasNoSeparator(x);
  }

  /** A character of an occurrence is a character of the text. */
  lemma OccurrenceChar(text: string, x: string, j: int, a: int)
    requires OccursAt(text, x, j) && 0 <= a < |x|
    ensures text[j + a] == x[a]
  {
    assert text[j..j + |x|][a] == text[j + a];
  }

  /** An extracted address brings its `@` from the text. */
  lemma ExtractedAtFromText(text: string, x: string)
    requires x in ExtractEmails(text)
    ensures '@' in text
  {
    ScanSound(text, 0, x);
    var a, d :| SplitsAt(x, a, d);
    var j :| 0 <= j && OccursAt(text, x, j);
    OccurrenceChar(text, x, j, a);
  }

  /** Text without `@` yields no address. */
  lemma NoAtNoEmails(text: string)
    ensures '@' !in text ==> ExtractEmails(text) == {}
  {
    forall x | x in ExtractEmails(text) ensures '@' in text {
      ExtractedAtFromText(text, x);
    }
  }

  /** A page holding only `x@y.com` yields exactly that address. */
  lemma ExtractSingle()
    ensures ExtractEmails("x@y.com") == {"x@y.com"}
  {
    var s := "x@y.com";
    assert SpanEnd(s, 0, IsLocalChar) == 1;
    assert SpanEnd(s, 2, IsDomainChar) == 7;
    assert TldAt(s, 3) && !TldAt(s, 4) && !TldAt(s, 5) && !TldAt(s, 6);
    assert LastTldDot(s, 3, 7) == Some(3);
    assert SpanEnd(s, 4, IsAsciiLetter) == 7;
    assert MatchAt(s, 0) == Some(7);
    assert s[0..7] == s;
    assert Scan(s, 7) == [];
    assert Scan(s, 0) == [s];
  }
}

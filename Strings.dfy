/**
 * The parts of Python's `str` that the lead pipeline relies on: ASCII
 * classes, lower-casing, `strip`, `startswith`/`endswith`, `in`,
 * `split(sep)` and `sep.join(xs)`, over `string` (a `seq<char>`).
 */
module Strings {
  import opened Wrappers

  predicate IsAsciiLetter(c: char) { 'a' <= c <= 'z' || 'A' <= c <= 'Z' }

  predicate IsDigit(c: char) { '0' <= c <= '9' }

  predicate IsAlnum(c: char) { IsAsciiLetter(c) || IsDigit(c) }

  /** The characters for which Python's `str.isspace()` holds, i.e. what `str.strip()` removes. */
  predicate IsSpace(c: char) {
    || c == ' '
    || '\t' <= c <= '\r'
    || '\U{1C}' <= c <= '\U{1F}'
    || c == '\U{85}' || c == '\U{A0}' || c == '\U{1680}'
    || '\U{2000}' <= c <= '\U{200A}'
    || c == '\U{2028}' || c == '\U{2029}' || c == '\U{202F}' || c == '\U{205F}' || c == '\U{3000}'
  }

  /** Every character of `s` satisfies `p`. */
  predicate AllChars(s: string, p: char -> bool) {
    forall k :: 0 <= k < |s| ==> p(s[k])
  }

  function LowerChar(c: char): (d: char)
    ensures IsAsciiLetter(c) ==> IsAsciiLetter(d) && 'a' <= d <= 'z'
    ensures !('A' <= c <= 'Z') ==> d == c
  {
    if 'A' <= c <= 'Z' then (c as int + 32) as char else c
  }

  /** `s.lower()` restricted to ASCII letters. */
  function Lower(s: string): (r: string)
    ensures |r| == |s|
    ensures forall k :: 0 <= k < |s| ==> r[k] == LowerChar(s[k])
  {
    if s == [] then [] else [LowerChar(s[0])] + Lower(s[1..])
  }

  predicate StartsWith(s: string, p: string) {
    |p| <= |s| && s[..|p|] == p
  }

  predicate EndsWith(s: string, p: string) {
    |p| <= |s| && s[|s| - |p|..] == p
  }

  /** `x` occurs in `s` starting at index `i`. */
  ghost predicate OccursAt(s: string, x: string, i: int) {
    0 <= i && i + |x| <= |s| && s[i..i + |x|] == x
  }

  /** Python's `p in s`. */
  predicate Contains(s: string, p: string)
    decreases |s|
  {
    StartsWith(s, p) || (|s| > 0 && Contains(s[1..], p))
  }

  /** `Contains` finds exactly the occurrences of `p`. */
  lemma {:induction false} ContainsIff(s: string, p: string)
    ensures Contains(s, p) <==> exists i :: OccursAt(s, p, i)
    decreases |s|
  {
    if StartsWith(s, p) {
      assert OccursAt(s, p, 0);
    } else if |s| > 0 {
      ContainsIff(s[1..], p);
      if Contains(s[1..], p) {
        var i :| OccursAt(s[1..], p, i);
        assert s[i + 1..i + 1 + |p|] == s[1..][i..i + |p|];
        assert OccursAt(s, p, i + 1);
      } else {
        forall i | OccursAt(s, p, i) ensures false {
          assert i != 0;
          assert s[1..][i - 1..i - 1 + |p|] == s[i..i + |p|];
          assert OccursAt(s[1..], p, i - 1);
        }
      }
    } else {
      forall i | OccursAt(s, p, i) ensures false { }
    }
  }

  /** The end of the longest run of characters satisfying `p` that starts at `i`. */
  function SpanEnd(s: string, i: nat, p: char -> bool): (r: nat)
    requires i <= |s|
    ensures i <= r <= |s|
    ensures forall k :: i <= k < r ==> p(s[k])
    ensures r == |s| || !p(s[r])
    decreases |s| - i
  {
    if i < |s| && p(s[i]) then SpanEnd(s, i + 1, p) else i
  }

  /** Drops the leading characters satisfying `drop`. */
  function TrimLeft(s: string, drop: char -> bool): string
    decreases |s|
  {
    if |s| > 0 && drop(s[0]) then TrimLeft(s[1..], drop) else s
  }

  /** Drops the trailing characters satisfying `drop`. */
  function TrimRight(s: string, drop: char -> bool): string
    decreases |s|
  {
    if |s| > 0 && drop(s[|s| - 1]) then TrimRight(s[..|s| - 1], drop) else s
  }

  /** `TrimLeft` removes exactly the longest prefix of dropped characters. */
  lemma {:induction false} TrimLeftShape(s: string, drop: char -> bool)
    ensures var r := TrimLeft(s, drop);
      && |r| <= |s| && r == s[|s| - |r|..]
      && (r == [] || !drop(r[0]))
      && forall k :: 0 <= k < |s| - |r| ==> drop(s[k])
    decreases |s|
  {
    if |s| > 0 && drop(s[0]) {
      TrimLeftShape(s[1..], drop);
      var r := TrimLeft(s[1..], drop);
      assert s[1..][|s| - 1 - |r|..] == s[|s| - |r|..];
      forall k | 0 <= k < |s| - |r| ensures drop(s[k]) {
        if k > 0 {
          assert s[k] == s[1..][k - 1];
        }
      }
    }
  }

  /** `TrimRight` removes exactly the longest suffix of dropped characters. */
  lemma {:induction false} TrimRightShape(s: string, drop: char -> bool)
    ensures var r := TrimRight(s, drop);
      && |r| <= |s| && r == s[..|r|]
      && (r == [] || !drop(r[|r| - 1]))
      && forall k :: |r| <= k < |s| ==> drop(s[k])
    decreases |s|
  {
    if |s| > 0 && drop(s[|s| - 1]) {
      TrimRightShape(s[..|s| - 1], drop);
      var r := TrimRight(s[..|s| - 1], drop);
      assert s[..|s| - 1][..|r|] == s[..|r|];
      forall k | |r| <= k < |s| ensures drop(s[k]) {
        if k < |s| - 1 {
          assert s[k] == s[..|s| - 1][k];
        }
      }
    }
  }

  /** `s.strip()`. */
  function Strip(s: string): string {
    TrimRight(TrimLeft(s, IsSpace), IsSpace)
  }

  /** `s.strip(c)` for a one-character argument. */
  function StripChar(s: string, c: char): string {
    TrimRight(TrimLeft(s, IsChar(c)), IsChar(c))
  }

  /** The test for one character, as `strip` takes it. */
  function IsChar(c: char): char -> bool {
    d => d == c
  }

  lemma StripEnds(s: string)
    ensures Strip(s) == [] || (!IsSpace(Strip(s)[0]) && !IsSpace(Strip(s)[|Strip(s)| - 1]))
  {
    var t := TrimLeft(s, IsSpace);
    var r := TrimRight(t, IsSpace);
    TrimLeftShape(s, IsSpace);
    TrimRightShape(t, IsSpace);
    if r != [] {
      assert r[0] == t[0];
    }
  }

  /** The first index at which `sep` occurs in `s`. */
  function IndexOf(s: string, sep: string): (r: Option<nat>)
    requires |sep| > 0
    ensures r.Some? ==> r.value + |sep| <= |s|
    decreases |s|
  {
    if StartsWith(s, sep) then Some(0)
    else if |s| == 0 then None
    else
      match IndexOf(s[1..], sep)
      case None => None
      case Some(k) => Some(k + 1)
  }

  /** `IndexOf` finds an occurrence, and no earlier one; `None` means there is none. */
  lemma {:induction false} IndexOfFirst(s: string, sep: string)
    requires |sep| > 0
    ensures IndexOf(s, sep).Some? ==>
              var i := IndexOf(s, sep).value;
              s[i..i + |sep|] == sep && forall k :: 0 <= k < i ==> !StartsWith(s[k..], sep)
    ensures IndexOf(s, sep).None? ==> forall k :: 0 <= k <= |s| ==> !StartsWith(s[k..], sep)
    decreases |s|
  {
    if !StartsWith(s, sep) && |s| > 0 {
      var t := s[1..];
      IndexOfFirst(t, sep);
      assert forall k :: 1 <= k <= |s| ==> s[k..] == t[k - 1..];
      if IndexOf(t, sep).Some? {
        var k := IndexOf(t, sep).value;
        assert s[k + 1..k + 1 + |sep|] == t[k..k + |sep|];
      }
    }
  }

  /** Python's `s.split(sep)` for a non-empty separator. */
  function Split(s: string, sep: string): (r: seq<string>)
    requires |sep| > 0
    ensures |r| >= 1
    decreases |s|
  {
    match IndexOf(s, sep)
    case None => [s]
    case Some(k) => [s[..k]] + Split(s[k + |sep|..], sep)
  }

  /** Python's `sep.join(xs)`. */
  function Join(xs: seq<string>, sep: string): string
  {
    if |xs| == 0 then ""
    else if |xs| == 1 then xs[0]
    else xs[0] + sep + Join(xs[1..], sep)
  }

  /** Python's `xs[-1]`. */
  function Last<T>(xs: seq<T>): T
    requires |xs| > 0
  {
    xs[|xs| - 1]
  }

  function Elements<T>(xs: seq<T>): set<T> {
    set x | x in xs
  }

  lemma ElementsSnoc<T>(xs: seq<T>, x: T)
    ensures Elements(xs + [x]) == Elements(xs) + {x}
  {
  }

  predicate NoDup<T(==)>(xs: seq<T>) {
    forall i, j :: 0 <= i < j < |xs| ==> xs[i] != xs[j]
  }

  /** `xs` lists the elements of `s`, each once: one iteration order of a Python set. */
  ghost predicate Enumerates<T>(xs: seq<T>, s: set<T>) {
    NoDup(xs) && Elements(xs) == s
  }

  lemma {:induction false} NoIndexWithoutFirstChar(s: string, sep: string)
    requires |sep| > 0 && sep[0] !in s
    ensures IndexOf(s, sep) == None
    decreases |s|
  {
    if |s| > 0 {
      assert s[0] != sep[0];
      NoIndexWithoutFirstChar(s[1..], sep);
    }
  }

  lemma {:induction false} IndexAfterWord(w: string, sep: string, rest: string)
    requires |sep| > 0 && sep[0] !in w
    ensures IndexOf(w + sep + rest, sep) == Some(|w|)
    decreases |w|
  {
    var s := w + sep + rest;
    if |w| == 0 {
      assert s[..|sep|] == sep;
    } else {
      assert s[0] == w[0] != sep[0];
      assert s[1..] == w[1..] + sep + rest;
      IndexAfterWord(w[1..], sep, rest);
    }
  }

  /**
   * Splitting a joined list on its separator gives the list back, when no
   * item holds the separator's first character.
   */
  lemma {:induction false} SplitJoin(xs: seq<string>, sep: string)
    requires |sep| > 0 && |xs| > 0
    requires forall i :: 0 <= i < |xs| ==> sep[0] !in xs[i]
    ensures Split(Join(xs, sep), sep) == xs
    decreases |xs|
  {
    if |xs| == 1 {
      NoIndexWithoutFirstChar(xs[0], sep);
    } else {
      var rest := Join(xs[1..], sep);
      var s := xs[0] + sep + rest;
      IndexAfterWord(xs[0], sep, rest);
      assert s[..|xs[0]|] == xs[0];
      assert s[|xs[0]| + |sep|..] == rest;
      SplitJoin(xs[1..], sep);
    }
  }

  /** A string without the separator's first character holds no occurrence of it. */
  lemma NoOccurrenceWithoutFirstChar(s: string, sep: string)
    requires |sep| > 0 && sep[0] !in s
    ensures !Contains(s, sep)
  {
    ContainsIff(s, sep);
  }

  /** A string that does not contain the separator has no index of it. */
  lemma NoIndexWithoutOccurrence(s: string, sep: string)
    requires |sep| > 0 && !Contains(s, sep)
    ensures IndexOf(s, sep) == None
  {
    IndexOfFirst(s, sep);
    ContainsIff(s, sep);
    if IndexOf(s, sep).Some? {
      assert OccursAt(s, sep, IndexOf(s, sep).value);
    }
  }

  /**
   * A two-character separator with distinct characters is found first right
   * after an item that does not contain it: no occurrence straddles the seam.
   */
  lemma {:induction false} IndexAfterItem(w: string, sep: string, rest: string)
    requires |sep| == 2 && sep[0] != sep[1] && !Contains(w, sep)
    ensures IndexOf(w + sep + rest, sep) == Some(|w|)
    decreases |w|
  {
    var s := w + sep + rest;
    if |w| == 0 {
      assert s[..|sep|] == sep;
    } else {
      assert !StartsWith(s, sep) by {
        if |w| == 1 {
          assert s[1] == sep[0];
        } else {
          assert s[..2] == w[..2];
        }
      }
      assert s[1..] == w[1..] + sep + rest;
      IndexAfterItem(w[1..], sep, rest);
    }
  }

  /**
   * Splitting a join on a two-character separator with distinct characters
   * gives the list back when no item contains the separator.
   */
  lemma {:induction false} SplitJoinPair(xs: seq<string>, sep: string)
    requires |sep| == 2 && sep[0] != sep[1] && |xs| > 0
    requires forall i :: 0 <= i < |xs| ==> !Contains(xs[i], sep)
    ensures Split(Join(xs, sep), sep) == xs
    decreases |xs|
  {
    if |xs| == 1 {
      NoIndexWithoutOccurrence(xs[0], sep);
    } else {
      var rest := Join(xs[1..], sep);
      var s := xs[0] + sep + rest;
      IndexAfterItem(xs[0], sep, rest);
      assert s[..|xs[0]|] == xs[0];
      assert s[|xs[0]| + |sep|..] == rest;
      SplitJoinPair(xs[1..], sep);
    }
  }

  /** A character of an item is a character of the joined string. */
  lemma {:induction false} JoinKeepsChars(xs: seq<string>, sep: string, i: nat, c: char)
    requires i < |xs| && c in xs[i]
    ensures c in Join(xs, sep)
    decreases |xs|
  {
    if |xs| > 1 && i > 0 {
      JoinKeepsChars(xs[1..], sep, i - 1, c);
    }
  }

  /** A sequence without duplicates has as many elements as its set. */
  lemma {:induction false} NoDupCard<T>(xs: seq<T>)
    requires NoDup(xs)
    ensures |Elements(xs)| == |xs|
    decreases |xs|
  {
    if xs != [] {
      var tail := xs[1..];
      assert NoDup(tail);
      NoDupCard(tail);
      assert Elements(xs) == {xs[0]} + Elements(tail);
      forall j | 0 <= j < |tail| ensures tail[j] != xs[0] {
        assert tail[j] == xs[j + 1];
      }
      assert xs[0] !in Elements(tail);
    }
  }

  /** For a sequence without duplicates, its multiset is its set. */
  lemma {:induction false} NoDupMultiset<T>(xs: seq<T>)
    requires NoDup(xs)
    ensures multiset(xs) == multiset(Elements(xs))
    decreases |xs|
  {
    if xs != [] {
      var tail := xs[1..];
      assert xs == [xs[0]] + tail;
      assert NoDup(tail);
      NoDupMultiset(tail);
      forall j | 0 <= j < |tail| ensures tail[j] != xs[0] {
        assert tail[j] == xs[j + 1];
      }
      assert Elements(xs) == {xs[0]} + Elements(tail);
      assert xs[0] !in Elements(tail);
      assert multiset(Elements(xs)) == multiset{xs[0]} + multiset(Elements(tail));
    }
  }

  /** A string with a non-whitespace character does not strip to nothing. */
  lemma StripKeeps(s: string, k: int)
    requires 0 <= k < |s| && !IsSpace(s[k])
    ensures Strip(s) != []
  {
    var t := TrimLeft(s, IsSpace);
    TrimLeftShape(s, IsSpace);
    TrimRightShape(t, IsSpace);
    assert |s| - |t| <= k;
    assert |t| > 0 && !IsSpace(t[0]);
  }

  /** Lower-casing leaves a string without upper-case ASCII letters unchanged. */
  lemma LowerKeepsLowerCase(s: string)
    requires forall k :: 0 <= k < |s| ==> !('A' <= s[k] <= 'Z')
    ensures Lower(s) == s
  {
  }

  lemma LowerIdempotent(s: string)
    ensures Lower(Lower(s)) == Lower(s)
  {
    var l := Lower(s);
    forall k | 0 <= k < |l| ensures Lower(l)[k] == l[k] {
      assert l[k] == LowerChar(s[k]);
    }
  }
}

/**
 * The engagement agent: `is_valid_email` (an image-suffix blacklist and the
 * anchored pattern `^[a-zA-Z0-9_.+-]+@[a-zA-Z0-9-]+\.[a-zA-Z0-9-.]+$`) and
 * `engage_leads`, which sends one message per distinct valid address of the
 * rows scoring at least `min_score`. Sending is an oracle; the model keeps
 * the log of attempted sends.
 */
module Engagement {
  import opened Wrappers
  import opened Strings
  import opened Folds

  /** `[a-zA-Z0-9_.+-]`, the local part. */
  predicate IsLocalChar(c: char) {
    IsAlnum(c) || c == '_' || c == '.' || c == '+' || c == '-'
  }

  /** `[a-zA-Z0-9-]`, the first domain label. */
  predicate IsLabelChar(c: char) {
    IsAlnum(c) || c == '-'
  }

  /** `[a-zA-Z0-9-.]`, the rest of the domain. */
  predicate IsTailChar(c: char) {
    IsAlnum(c) || c == '-' || c == '.'
  }

  const ImageSuffixes: seq<string> := [".png", ".jpg", ".jpeg", ".gif", ".svg", ".webp"]

  /** `email.lower().endswith((".png", ...))`. */
  predicate HasImageSuffix(s: string) {
    exists i | 0 <= i < |ImageSuffixes| :: EndsWith(Lower(s), ImageSuffixes[i])
  }

  /** `s` splits as local part `s[..a]`, `@`, label `s[a+1..d]`, `.`, and a non-empty tail. */
  ghost predicate ShapeSplit(s: string, a: int, d: int) {
    && 0 < a && a + 1 < d && d + 1 < |s|
    && AllChars(s[..a], IsLocalChar)
    && s[a] == '@'
    && AllChars(s[a + 1..d], IsLabelChar)
    && s[d] == '.'
    && AllChars(s[d + 1..], IsTailChar)
  }

  /** The whole of `s` matches the pattern (without the trailing-newline allowance of `$`). */
  ghost predicate MatchesPattern(s: string) {
    exists a, d :: ShapeSplit(s, a, d)
  }

  /**
   * The pattern, decided character by character: the local part is the run
   * of local characters (it cannot hold `@`), the label is the run of label
   * characters (it cannot hold `.`), and the tail runs to the end.
   */
  predicate AddressShape(s: string) {
    var a := SpanEnd(s, 0, IsLocalChar);
    && 0 < a < |s| && s[a] == '@'
    && var d := SpanEnd(s, a + 1, IsLabelChar);
       && a + 1 < d < |s| && s[d] == '.' && d + 1 < |s|
       && SpanEnd(s, d + 1, IsTailChar) == |s|
  }

  /** `re.match(pattern, s)`: Python's `$` also matches just before a final newline. */
  predicate RegexMatches(s: string) {
    AddressShape(s) || (|s| > 0 && s[|s| - 1] == '\n' && AddressShape(s[..|s| - 1]))
  }

  /** `is_valid_email(s)`. */
  predicate IsValidEmail(s: string) {
    !HasImageSuffix(s) && RegexMatches(s)
  }

  /** A run that stops where `p` fails is the run `SpanEnd` finds. */
  lemma SpanEndAt(s: string, i: nat, j: nat, p: char -> bool)
    requires i <= j <= |s|
    requires forall k :: i <= k < j ==> p(s[k])
    requires j == |s| || !p(s[j])
    ensures SpanEnd(s, i, p) == j
  {
  }

  /** The character-level decision agrees with the pattern, in both directions. */
  lemma AddressShapeIff(s: string)
    ensures AddressShape(s) <==> MatchesPattern(s)
  {
    if AddressShape(s) {
      var a := SpanEnd(s, 0, IsLocalChar);
      var d := SpanEnd(s, a + 1, IsLabelChar);
      assert ShapeSplit(s, a, d);
    }
    if MatchesPattern(s) {
      var a, d :| ShapeSplit(s, a, d);
      forall k | 0 <= k < a ensures IsLocalChar(s[k]) {
        assert s[..a][k] == s[k];
      }
      SpanEndAt(s, 0, a, IsLocalChar);
      forall k | a + 1 <= k < d ensures IsLabelChar(s[k]) {
        assert s[a + 1..d][k - a - 1] == s[k];
      }
      SpanEndAt(s, a + 1, d, IsLabelChar);
      forall k | d + 1 <= k < |s| ensures IsTailChar(s[k]) {
        assert s[d + 1..][k - d - 1] == s[k];
      }
      SpanEndAt(s, d + 1, |s|, IsTailChar);
    }
  }

  /** A string with an image suffix is never valid, whatever its shape. */
  lemma ImageSuffixInvalid(s: string, i: nat)
    requires i < |ImageSuffixes| && EndsWith(Lower(s), ImageSuffixes[i])
    ensures !IsValidEmail(s)
  {
  }

  /** A pattern-shaped string has one `@`, at the end of the local part. */
  lemma ShapeOneAt(s: string)
    requires AddressShape(s)
    ensures forall k :: 0 <= k < |s| && s[k] == '@' ==> k == SpanEnd(s, 0, IsLocalChar)
  {
    var a := SpanEnd(s, 0, IsLocalChar);
    var d := SpanEnd(s, a + 1, IsLabelChar);
    forall k | 0 <= k < |s| && k != a ensures s[k] != '@' {
      if k < a {
        assert IsLocalChar(s[k]);
      } else if k < d {
        assert IsLabelChar(s[k]);
      } else if k > d {
        assert IsTailChar(s[k]);
      }
    }
  }

  /** Every valid address holds exactly one `@`. */
  lemma ValidHasOneAt(s: string)
    requires IsValidEmail(s)
    ensures exists a :: 0 <= a < |s| && s[a] == '@' && forall k :: 0 <= k < |s| && s[k] == '@' ==> k == a
  {
    if AddressShape(s) {
      ShapeOneAt(s);
      assert s[SpanEnd(s, 0, IsLocalChar)] == '@';
    } else {
      var t := s[..|s| - 1];
      ShapeOneAt(t);
      var a := SpanEnd(t, 0, IsLocalChar);
      assert s[a] == t[a] == '@';
      forall k | 0 <= k < |s| && s[k] == '@' ensures k == a {
        if k < |t| {
          assert t[k] == s[k];
        }
      }
    }
  }

  /** A stripped string that is valid matches the pattern exactly: the newline allowance never applies. */
  lemma ValidStrippedMatches(t: string)
    requires IsValidEmail(Strip(t))
    ensures AddressShape(Strip(t)) && MatchesPattern(Strip(t))
  {
    var s := Strip(t);
    StripEnds(t);
    assert IsSpace('\n');
    assert s != [] ==> s[|s| - 1] != '\n';
    AddressShapeIff(s);
  }

  // ---- engage_leads ----

  /** What one `send_email` call does: skip without credentials, else deliver or fail with a reason. */
  datatype SendOutcome = Sent | SkippedNoCredentials | SendFailed(reason: string)

  /** The `EMAIL_ADDRESS` and `EMAIL_PASSWORD` settings; `None` when unset. */
  datatype Credentials = Credentials(address: Option<string>, password: Option<string>)

  /** One attempted send, in the order the calls were made. */
  datatype OutreachEvent = OutreachEvent(address: string, outcome: SendOutcome)

  /** A row of `leads_scored.csv`: `None` for a missing score column or a NaN emails cell. */
  datatype ScoredRow = ScoredRow(score: Option<int>, emails: Option<string>)

  /** Both settings are present and non-empty. */
  predicate HasCredentials(c: Credentials) {
    c.address.Some? && c.address.value != "" && c.password.Some? && c.password.value != ""
  }

  /** `send_email(to, ...)`; `smtp` is the SMTP session's result: `None` on success or the error text. */
  function SendEmail(to: string, creds: Credentials, smtp: string -> Option<string>): SendOutcome {
    if !HasCredentials(creds) then SkippedNoCredentials
    else
      match smtp(to)
      case None => Sent
      case Some(err) => SendFailed(err)
  }

  /** The comma-separated entries of a row that qualifies, before stripping; else none. */
  function RowEntries(row: ScoredRow, minScore: int): seq<string> {
    if row.score.GetOr(0) >= minScore && row.emails.Some? then Split(row.emails.value, ",") else []
  }

  /** All raw entries, in row order and then in-row order. */
  function Candidates(rows: seq<ScoredRow>, minScore: int): seq<string> {
    if rows == [] then []
    else Candidates(rows[..|rows| - 1], minScore) + RowEntries(Last(rows), minScore)
  }

  /** The addresses a pass over the raw entries sends to: each stripped entry that is valid, the first time it appears. */
  function Outreach(entries: seq<string>): seq<string> {
    OutreachFrom([], entries)
  }

  /** The addresses sent to, starting from `sent`, after the raw entries `entries`. */
  function OutreachFrom(sent: seq<string>, entries: seq<string>): seq<string> {
    if entries == [] then sent else OutreachStep(OutreachFrom(sent, entries[..|entries| - 1]), Last(entries))
  }

  /** Outreach over `a + b` is outreach over `b` continued from where `a` left off. */
  lemma OutreachFromConcat(sent: seq<string>, a: seq<string>, b: seq<string>)
    ensures OutreachFrom(sent, a + b) == OutreachFrom(OutreachFrom(sent, a), b)
  {
    OutreachFromIsFold(sent, a + b);
    OutreachFromIsFold(sent, a);
    OutreachFromIsFold(OutreachFrom(sent, a), b);
    FoldConcat(OutreachStep, sent, a, b);
  }

  lemma {:induction false} OutreachFromIsFold(sent: seq<string>, es: seq<string>)
    ensures OutreachFrom(sent, es) == FoldLeft(OutreachStep, sent, es)
    decreases |es|
  {
    if es != [] {
      OutreachFromIsFold(sent, es[..|es| - 1]);
    }
  }

  lemma OutreachFromSnoc(sent: seq<string>, parts: seq<string>, j: nat)
    requires j < |parts|
    ensures OutreachFrom(sent, parts[..j + 1]) == OutreachStep(OutreachFrom(sent, parts[..j]), parts[j])
  {
    assert parts[..j + 1][..j] == parts[..j];
  }

  /** One raw entry considered after the addresses `sent`. */
  function OutreachStep(sent: seq<string>, entry: string): seq<string> {
    var c := Strip(entry);
    if IsValidEmail(c) && c !in sent then sent + [c] else sent
  }

  /** The log of sends to `addrs`, in that order, each with what `send_email` returned for it. */
  function Log(addrs: seq<string>, creds: Credentials, smtp: string -> Option<string>): (r: seq<OutreachEvent>)
    ensures |r| == |addrs|
  {
    seq(|addrs|, i requires 0 <= i < |addrs| => OutreachEvent(addrs[i], SendEmail(addrs[i], creds, smtp)))
  }

  /** Sending to one more address logs one more event. */
  lemma LogSnoc(addrs: seq<string>, x: string, creds: Credentials, smtp: string -> Option<string>)
    ensures Log(addrs + [x], creds, smtp) == Log(addrs, creds, smtp) + [OutreachEvent(x, SendEmail(x, creds, smtp))]
  {
    var l := Log(addrs + [x], creds, smtp);
    assert forall i :: 0 <= i < |addrs| ==> l[i] == Log(addrs, creds, smtp)[i];
  }

  lemma CandidatesSnoc(rows: seq<ScoredRow>, i: nat, minScore: int)
    requires i < |rows|
    ensures Candidates(rows[..i + 1], minScore) == Candidates(rows[..i], minScore) + RowEntries(rows[i], minScore)
  {
    assert rows[..i + 1][..i] == rows[..i];
  }

  /** One iteration of the inner loop of `engage_leads`: strip the entry and send when it is valid and new. */
  method ConsiderEntry(entry: string, ghost acc: seq<string>, events0: seq<OutreachEvent>, sent0: set<string>,
                       creds: Credentials, smtp: string -> Option<string>)
    returns (events: seq<OutreachEvent>, sentEmails: set<string>)
    requires events0 == Log(acc, creds, smtp) && sent0 == Elements(acc)
    ensures events == Log(OutreachStep(acc, entry), creds, smtp) && sentEmails == Elements(OutreachStep(acc, entry))
  {
    events, sentEmails := events0, sent0;
    var cleanEmail := Strip(entry);
    if IsValidEmail(cleanEmail) && cleanEmail !in sentEmails {
      var outcome := SendEmail(cleanEmail, creds, smtp);
      LogSnoc(acc, cleanEmail, creds, smtp);
      ElementsSnoc(acc, cleanEmail);
      events := events + [OutreachEvent(cleanEmail, outcome)];
      sentEmails := sentEmails + {cleanEmail};
    }
  }

  /**
   * The inner loop of `engage_leads` over one row's entries: strip each, and send to it when it is
   * valid and not yet in `sent_emails`.
   */
  method EngageEntries(parts: seq<string>, ghost acc: seq<string>, events0: seq<OutreachEvent>, sent0: set<string>,
                       creds: Credentials, smtp: string -> Option<string>)
    returns (events: seq<OutreachEvent>, sentEmails: set<string>)
    requires events0 == Log(acc, creds, smtp) && sent0 == Elements(acc)
    ensures events == Log(OutreachFrom(acc, parts), creds, smtp) && sentEmails == Elements(OutreachFrom(acc, parts))
  {
    events, sentEmails := events0, sent0;
    var j := 0;
    while j < |parts|
      invariant 0 <= j <= |parts|
      invariant events == Log(OutreachFrom(acc, parts[..j]), creds, smtp)
      invariant sentEmails == Elements(OutreachFrom(acc, parts[..j]))
    {
      OutreachFromSnoc(acc, parts, j);
      events, sentEmails := ConsiderEntry(parts[j], OutreachFrom(acc, parts[..j]), events, sentEmails, creds, smtp);
      j := j + 1;
    }
    assert parts[..|parts|] == parts;
  }

  /** `engage_leads(min_score)`: the sends attempted, in order, with their outcomes. */
  method EngageLeads(rows: seq<ScoredRow>, minScore: int, creds: Credentials, smtp: string -> Option<string>)
    returns (events: seq<OutreachEvent>)
    ensures events == Log(Outreach(Candidates(rows, minScore)), creds, smtp)
  {
    var sentEmails: set<string> := {};
    events := [];
    var i := 0;
    while i < |rows|
      invariant 0 <= i <= |rows|
      invariant events == Log(Outreach(Candidates(rows[..i], minScore)), creds, smtp)
      invariant sentEmails == Elements(Outreach(Candidates(rows[..i], minScore)))
    {
      var row := rows[i];
      ghost var before := Candidates(rows[..i], minScore);
      CandidatesSnoc(rows, i, minScore);
      if row.score.GetOr(0) >= minScore && row.emails.Some? {
        var parts := Split(row.emails.value, ",");
        OutreachFromConcat([], before, parts);
        events, sentEmails := EngageEntries(parts, Outreach(before), events, sentEmails, creds, smtp);
      } else {
        assert before + RowEntries(row, minScore) == before;
      }
      i := i + 1;
    }
    assert rows[..|rows|] == rows;
  }

  // ---- what the outreach log promises ----

  /** No address is sent to twice. */
  lemma {:induction false} OutreachNoDup(entries: seq<string>)
    ensures NoDup(Outreach(entries))
    decreases |entries|
  {
    if entries != [] {
      OutreachNoDup(entries[..|entries| - 1]);
    }
  }

  /** Every address sent to is valid and is the stripped form of some entry. */
  lemma {:induction false} OutreachSound(entries: seq<string>, x: string)
    requires x in Outreach(entries)
    ensures IsValidEmail(x)
    ensures exists i :: 0 <= i < |entries| && x == Strip(entries[i])
    decreases |entries|
  {
    var init := entries[..|entries| - 1];
    if x in Outreach(init) {
      OutreachSound(init, x);
      var i :| 0 <= i < |init| && x == Strip(init[i]);
      assert entries[i] == init[i];
    } else {
      assert x == Strip(entries[|entries| - 1]);
    }
  }

  /** The sends for a prefix of the entries are a prefix of the sends for all of them. */
  lemma {:induction false} OutreachPrefix(entries: seq<string>, k: nat)
    requires k <= |entries|
    ensures Outreach(entries[..k]) <= Outreach(entries)
    decreases |entries| - k
  {
    if k < |entries| {
      var init := entries[..|entries| - 1];
      OutreachPrefix(init, k);
      assert init[..k] == entries[..k];
    } else {
      assert entries[..k] == entries;
    }
  }

  /** Every entry whose stripped form is valid is sent to (once, by `OutreachNoDup`). */
  lemma {:induction false} OutreachComplete(entries: seq<string>, i: nat)
    requires i < |entries| && IsValidEmail(Strip(entries[i]))
    ensures Strip(entries[i]) in Outreach(entries)
  {
    var pre := entries[..i + 1];
    assert pre[..|pre| - 1] == entries[..i];
    assert Last(pre) == entries[i];
    assert Strip(entries[i]) in Outreach(pre);
    OutreachPrefix(entries, i + 1);
  }

  /** An address sent to matches the pattern outright and holds exactly one `@`. */
  lemma SentShape(entries: seq<string>, x: string)
    requires x in Outreach(entries)
    ensures MatchesPattern(x) && !HasImageSuffix(x)
    ensures exists a :: 0 <= a < |x| && x[a] == '@' && forall k :: 0 <= k < |x| && x[k] == '@' ==> k == a
  {
    OutreachSound(entries, x);
    var i :| 0 <= i < |entries| && x == Strip(entries[i]);
    ValidStrippedMatches(entries[i]);
    ValidHasOneAt(x);
  }
}

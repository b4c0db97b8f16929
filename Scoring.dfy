/**
 * The lead scorer: a heuristic sum over the `", "`-separated addresses of
 * a row, capped at 10, and the table sorted by score, highest first.
 */
module Scoring {
  import opened Wrappers
  import opened Strings
  import Enrichment

  const Cap: int := 10
  const EntrySeparator: string := ", "

  /** What one address adds: free-mail 1, a role mailbox 2, anything else 3; the free-mail test wins. */
  function EntryScore(e: string): (r: int)
    ensures 1 <= r <= 3
  {
    var l := Lower(e);
    if Contains(l, "@gmail.com") || Contains(l, "@outlook.com") then 1
    else if Contains(l, "info@") || Contains(l, "admin@") then 2
    else 3
  }

  /** The uncapped sum over the entries. */
  function SumScores(es: seq<string>): int
  {
    if es == [] then 0 else SumScores(es[..|es| - 1]) + EntryScore(Last(es))
  }

  /** NaN, empty, whitespace-only and `"N/A"` cells score 0 without being split. */
  predicate IsBlank(cell: Option<string>) {
    cell.None? || Strip(cell.value) == "" || cell.value == Enrichment.NotAvailable
  }

  /** `score_email(cell)`. */
  function EmailScore(cell: Option<string>): int {
    if IsBlank(cell) then 0
    else
      var sum := SumScores(Split(cell.value, EntrySeparator));
      if sum < Cap then sum else Cap
  }

  /** `score_email`: the per-entry loop, then `min(score, 10)`. */
  method ScoreEmail(cell: Option<string>) returns (score: int)
    ensures score == EmailScore(cell)
  {
    if cell.None? || Strip(cell.value) == "" || cell.value == Enrichment.NotAvailable {
      return 0;
    }
    var emails := Split(cell.value, EntrySeparator);
    score := 0;
    for i := 0 to |emails|
      invariant score == SumScores(emails[..i])
    {
      var email := Lower(emails[i]);
      if Contains(email, "@gmail.com") || Contains(email, "@outlook.com") {
        score := score + 1;
      } else if Contains(email, "info@") || Contains(email, "admin@") {
        score := score + 2;
      } else {
        score := score + 3;
      }
      assert emails[..i + 1][..i] == emails[..i];
    }
    assert emails[..|emails|] == emails;
    score := if score < Cap then score else Cap;
  }

  lemma {:induction false} SumScoresBounds(es: seq<string>)
    ensures |es| <= SumScores(es) <= 3 * |es|
    decreases |es|
  {
    if es != [] {
      SumScoresBounds(es[..|es| - 1]);
    }
  }

  /** Scores lie in 0..10, and a non-blank cell scores at least 1. */
  lemma ScoreRange(cell: Option<string>)
    ensures 0 <= EmailScore(cell) <= Cap
    ensures !IsBlank(cell) ==> EmailScore(cell) >= 1
  {
    if !IsBlank(cell) {
      SumScoresBounds(Split(cell.value, EntrySeparator));
    }
  }

  lemma {:induction false} SumScoresAppend(a: seq<string>, b: seq<string>)
    ensures SumScores(a + b) == SumScores(a) + SumScores(b)
    decreases |b|
  {
    if b == [] {
      assert a + b == a;
    } else {
      var b' := b[..|b| - 1];
      assert (a + b)[..|a + b| - 1] == a + b';
      SumScoresAppend(a, b');
    }
  }

  /** The sum does not depend on the order of the entries. */
  lemma {:induction false} SumScoresPermutation(a: seq<string>, b: seq<string>)
    requires multiset(a) == multiset(b)
    ensures SumScores(a) == SumScores(b)
    decreases |a|
  {
    if a != [] {
      var x := Last(a);
      var a' := a[..|a| - 1];
      assert a == a' + [x];
      assert x in multiset(b);
      var k :| 0 <= k < |b| && b[k] == x;
      var b' := b[..k] + b[k + 1..];
      assert b == b[..k] + [x] + b[k + 1..];
      assert multiset(a) == multiset(a') + multiset{x};
      assert multiset(b) == multiset(b[..k]) + multiset{x} + multiset(b[k + 1..]);
      assert multiset(b') == multiset(b[..k]) + multiset(b[k + 1..]);
      assert multiset(a') == multiset(a) - multiset{x};
      assert multiset(b') == multiset(b) - multiset{x};
      SumScoresPermutation(a', b');
      SumScoresAppend(b[..k] + [x], b[k + 1..]);
      SumScoresAppend(b[..k], [x]);
      SumScoresAppend(b[..k], b[k + 1..]);
      assert SumScores([x]) == EntryScore(x) by {
        assert [x][..0] == [];
      }
    } else {
      assert b == [];
    }
  }

  /**
   * Reordering the entries of a cell leaves its score unchanged, as long as
   * no entry contains the separator `", "` (which the split would cut).
   */
  lemma ScoreOrderInvariant(xs: seq<string>, ys: seq<string>)
    requires multiset(xs) == multiset(ys)
    requires forall i :: 0 <= i < |xs| ==> !Contains(xs[i], EntrySeparator)
    ensures EmailScore(Some(Join(xs, EntrySeparator))) == EmailScore(Some(Join(ys, EntrySeparator)))
  {
    forall i | 0 <= i < |ys| ensures !Contains(ys[i], EntrySeparator) {
      assert ys[i] in multiset(xs);
    }
    assert |xs| == |ys| by {
      assert |multiset(xs)| == |multiset(ys)|;
    }
    if |xs| == 1 {
      assert ys[0] in multiset(xs);
      assert ys == xs;
    } else if |xs| >= 2 {
      JoinNotBlank(xs);
      JoinNotBlank(ys);
      SplitJoinPair(xs, EntrySeparator);
      SplitJoinPair(ys, EntrySeparator);
      SumScoresPermutation(xs, ys);
    }
  }

  /** A join of two or more entries holds a comma, so it is never a blank cell. */
  lemma JoinNotBlank(xs: seq<string>)
    requires |xs| >= 2
    ensures !IsBlank(Some(Join(xs, EntrySeparator)))
  {
    var s := Join(xs, EntrySeparator);
    assert s == xs[0] + EntrySeparator + Join(xs[1..], EntrySeparator);
    assert s[|xs[0]|] == ',';
    assert ',' !in Enrichment.NotAvailable;
    StripKeeps(s, |xs[0]|);
  }

  /**
   * Every serialisation of the same address set gets the same score: the
   * set iteration order `enrich_url` happens to use does not matter.
   */
  lemma SerializedScoreIsOrderFree(f1: string, f2: string, found: set<string>)
    requires Enrichment.Serializes(f1, found) && Enrichment.Serializes(f2, found)
    requires forall x :: x in found ==> ',' !in x
    ensures EmailScore(Some(f1)) == EmailScore(Some(f2))
  {
    if found != {} {
      var xs :| Enumerates(xs, found) && f1 == Join(xs, Enrichment.Separator);
      var ys :| Enumerates(ys, found) && f2 == Join(ys, Enrichment.Separator);
      NoDupMultiset(xs);
      NoDupMultiset(ys);
      forall i | 0 <= i < |xs| ensures !Contains(xs[i], EntrySeparator) {
        assert xs[i] in found;
        NoOccurrenceWithoutFirstChar(xs[i], EntrySeparator);
      }
      ScoreOrderInvariant(xs, ys);
    }
  }

  /** The free-mail test takes precedence over the role-mailbox test. */
  lemma FreeMailWins()
    ensures EntryScore("info@gmail.com") == 1
  {
    LowerKeepsLowerCase("info@gmail.com");
    FreeMailFound();
  }

  lemma FreeMailFound()
    ensures Contains("info@gmail.com", "@gmail.com")
  {
    assert OccursAt("info@gmail.com", "@gmail.com", 4);
    ContainsIff("info@gmail.com", "@gmail.com");
  }

  /** An entry scores as its lower-cased form does: case does not matter. */
  lemma EntryScoreIgnoresCase(e: string)
    ensures EntryScore(e) == EntryScore(Lower(e))
  {
    LowerIdempotent(e);
  }

  // ---- score_leads ----

  /** A row of `leads_enriched.csv`: `emails` is `None` where pandas reads NaN. */
  datatype LeadRow = LeadRow(url: string, emails: Option<string>)

  /** A row of `leads_scored.csv`. */
  datatype ScoredLead = ScoredLead(url: string, emails: string, score: int)

  /** `fillna("")` on the emails column, then the score column. */
  function ScoreRow(row: LeadRow): ScoredLead {
    var e := row.emails.GetOr("");
    ScoredLead(row.url, e, EmailScore(Some(e)))
  }

  function ScoreRows(rows: seq<LeadRow>): (r: seq<ScoredLead>)
    ensures |r| == |rows| && forall i :: 0 <= i < |rows| ==> r[i] == ScoreRow(rows[i])
  {
    seq(|rows|, i requires 0 <= i < |rows| => ScoreRow(rows[i]))
  }

  predicate SortedByScore(rs: seq<ScoredLead>) {
    forall i, j :: 0 <= i < j < |rs| ==> rs[i].score >= rs[j].score
  }

  function Insert(x: ScoredLead, rs: seq<ScoredLead>): (r: seq<ScoredLead>)
    requires SortedByScore(rs)
    ensures SortedByScore(r)
    ensures multiset(r) == multiset(rs) + multiset{x}
    ensures |r| == |rs| + 1 && (r[0] == x || (|rs| > 0 && r[0] == rs[0]))
  {
    if rs == [] then [x]
    else if x.score >= rs[0].score then
      ConsSorted(x, rs);
      [x] + rs
    else
      var tail := Insert(x, rs[1..]);
      assert rs == [rs[0]] + rs[1..];
      assert rs[0].score >= tail[0].score;
      ConsSorted(rs[0], tail);
      [rs[0]] + tail
  }

  /** A score no lower than the head's keeps a sorted table sorted. */
  lemma ConsSorted(h: ScoredLead, t: seq<ScoredLead>)
    requires SortedByScore(t) && (t == [] || h.score >= t[0].score)
    ensures SortedByScore([h] + t)
  {
    var r := [h] + t;
    forall i, j | 0 <= i < j < |r| ensures r[i].score >= r[j].score {
      if i == 0 && j > 1 {
        assert r[j] == t[j - 1];
      }
    }
  }

  /** `sort_values(by="score", ascending=False)`: one ordering among those the sort may produce. */
  function SortByScore(rs: seq<ScoredLead>): (r: seq<ScoredLead>)
    ensures SortedByScore(r)
    ensures multiset(r) == multiset(rs)
  {
    if rs == [] then []
    else
      assert rs == [rs[0]] + rs[1..];
      Insert(rs[0], SortByScore(rs[1..]))
  }

  /** `score_leads`: every row scored and kept, highest score first. */
  function ScoreLeads(rows: seq<LeadRow>): (out: seq<ScoredLead>)
    ensures SortedByScore(out)
    ensures multiset(out) == multiset(ScoreRows(rows))
  {
    SortByScore(ScoreRows(rows))
  }

  /** Every row is kept once; a NaN cell becomes `""` with score 0; all scores lie in 0..10. */
  lemma ScoreLeadsRows(rows: seq<LeadRow>)
    ensures |ScoreLeads(rows)| == |rows|
    ensures forall i :: 0 <= i < |rows| ==> ScoreRow(rows[i]) in ScoreLeads(rows)
    ensures forall r :: r in ScoreLeads(rows) ==> 0 <= r.score <= Cap && r.score == EmailScore(Some(r.emails))
    ensures forall i :: 0 <= i < |rows| && rows[i].emails.None? ==> ScoreRow(rows[i]).emails == "" && ScoreRow(rows[i]).score == 0
  {
    var out := ScoreLeads(rows);
    var scored := ScoreRows(rows);
    assert |out| == |multiset(out)| == |multiset(scored)| == |scored|;
    forall i | 0 <= i < |rows| ensures ScoreRow(rows[i]) in out {
      assert scored[i] in multiset(scored);
    }
    forall r | r in out ensures 0 <= r.score <= Cap && r.score == EmailScore(Some(r.emails)) {
      assert r in multiset(scored);
      var i :| 0 <= i < |scored| && scored[i] == r;
      ScoreRange(Some(r.emails));
    }
    forall i | 0 <= i < |rows| && rows[i].emails.None?
      ensures ScoreRow(rows[i]).emails == "" && ScoreRow(rows[i]).score == 0
    {
      assert Strip("") == "";
    }
  }
}

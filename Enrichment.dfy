/**
 * The enrichment agent: for each lead URL, fetch the base page and, only if
 * it gave no address, the `contact` page; serialise the addresses found.
 * Page fetches are an oracle `fetch` (a response or a failure) and
 * `urljoin` is the opaque function `join`.
 */
module Enrichment {
  import opened Wrappers
  import opened Strings
  import opened Extraction

  /** What `requests.get` gives: a response, or an exception (timeout, connection error, ...). */
  datatype FetchResult = Response(status: int, body: string) | FetchFailed

  /** One output row: the base URL and its serialised address set. */
  datatype Enriched = Enriched(url: string, emails: string)

  /** A cell of the raw leads table: missing column, a string, or another value (NaN, a number) with its Python truth value. */
  datatype Cell = Absent | Text(s: string) | Other(truthy: bool)

  /** A row of the raw leads table, as far as enrichment reads it. */
  datatype RawLead = RawLead(url: Cell, link: Cell)

  const NotAvailable: string := "N/A"
  const Separator: string := ", "
  /** The fallback paths tried after the base page, in order. */
  const FallbackPaths: seq<string> := ["contact"]

  /** The addresses a fetch contributes: only a status-200 body counts. */
  function PageEmails(r: FetchResult): set<string> {
    if r.Response? && r.status == 200 then ExtractEmails(r.body) else {}
  }

  /**
   * The fallback loop run from the set `found`: the final set and the URLs
   * it fetched. It stops as soon as the set is non-empty.
   */
  function Probe(found: set<string>, base: string, paths: seq<string>,
                 fetch: string -> FetchResult, join: (string, string) -> string): (set<string>, seq<string>)
    decreases |paths|
  {
    if paths == [] || |found| > 0 then (found, [])
    else
      var u := join(base, paths[0]);
      var rest := Probe(found + PageEmails(fetch(u)), base, paths[1..], fetch, join);
      (rest.0, [u] + rest.1)
  }

  /** The addresses `enrich_url(base)` collects. */
  function FoundEmails(base: string, fetch: string -> FetchResult, join: (string, string) -> string): set<string> {
    Probe(PageEmails(fetch(base)), base, FallbackPaths, fetch, join).0
  }

  /** The URLs `enrich_url(base)` requests, in order. */
  function FetchedUrls(base: string, fetch: string -> FetchResult, join: (string, string) -> string): seq<string> {
    [base] + Probe(PageEmails(fetch(base)), base, FallbackPaths, fetch, join).1
  }

  /** `field` is `", ".join(emails)` for some iteration order of the set, or `"N/A"` for the empty set. */
  ghost predicate Serializes(field: string, emails: set<string>) {
    if emails == {} then field == NotAvailable
    else exists xs :: Enumerates(xs, emails) && field == Join(xs, Separator)
  }

  /** `", ".join(emails) if emails else "N/A"`, iterating the set in an arbitrary order. */
  method SerializeEmails(emails: set<string>) returns (field: string)
    ensures Serializes(field, emails)
  {
    if emails == {} {
      return NotAvailable;
    }
    var order: seq<string> := [];
    var rest := emails;
    while rest != {}
      invariant NoDup(order)
      invariant Elements(order) + rest == emails
      invariant Elements(order) !! rest
      decreases |rest|
    {
      var x :| x in rest;
      order := order + [x];
      rest := rest - {x};
    }
    field := Join(order, Separator);
    assert Enumerates(order, emails);
  }

  /** One `requests.get(url)` inside `try`: the addresses of a status-200 body, else none. */
  method FetchEmails(url: string, fetch: string -> FetchResult) returns (page: set<string>)
    ensures page == PageEmails(fetch(url))
  {
    var res := fetch(url);
    if res.Response? && res.status == 200 {
      page := ExtractEmails(res.body);
    } else {
      page := {};
    }
  }

  /** `enrich_url`: the row built for `baseUrl`, and the URLs it fetched. */
  method EnrichUrl(baseUrl: string, fetch: string -> FetchResult, join: (string, string) -> string)
    returns (r: Enriched, fetched: seq<string>)
    ensures r.url == baseUrl
    ensures fetched == FetchedUrls(baseUrl, fetch, join)
    ensures Serializes(r.emails, FoundEmails(baseUrl, fetch, join))
  {
    var emails: set<string> := {};
    fetched := [baseUrl];
    var page := FetchEmails(baseUrl, fetch);
    emails := emails + page;
    assert emails == page;
    assert FallbackPaths[0..] == FallbackPaths;
    var i := 0;
    while i < |FallbackPaths|
      invariant 0 <= i <= |FallbackPaths|
      invariant FoundEmails(baseUrl, fetch, join) == Probe(emails, baseUrl, FallbackPaths[i..], fetch, join).0
      invariant FetchedUrls(baseUrl, fetch, join) == fetched + Probe(emails, baseUrl, FallbackPaths[i..], fetch, join).1
    {
      if |emails| > 0 {
        break;
      }
      var u := join(baseUrl, FallbackPaths[i]);
      fetched := fetched + [u];
      page := FetchEmails(u, fetch);
      emails := emails + page;
      assert FallbackPaths[i..][1..] == FallbackPaths[i + 1..];
      i := i + 1;
    }
    var field := SerializeEmails(emails);
    r := Enriched(baseUrl, field);
  }

  /** Python's `a or b`: the first operand if it is truthy, else the second. */
  function FirstTruthy(a: Cell, b: Cell): Cell {
    if Truthy(a) then a else b
  }

  predicate Truthy(c: Cell) {
    match c
    case Absent => false
    case Text(s) => s != ""
    case Other(t) => t
  }

  /** The URL `enrich_all` submits for a row, if any. */
  function DispatchUrl(row: RawLead): Option<string> {
    match FirstTruthy(row.url, row.link)
    case Text(s) => if StartsWith(s, "http") then Some(s) else None
    case _ => None
  }

  /** The URLs submitted for `rows`, in row order. */
  function DispatchedUrls(rows: seq<RawLead>): seq<string> {
    if rows == [] then []
    else
      DispatchedUrls(rows[..|rows| - 1]) +
      match DispatchUrl(Last(rows)) case Some(u) => [u] case None => []
  }

  function Urls(rs: seq<Enriched>): (us: seq<string>)
    ensures |us| == |rs| && forall i :: 0 <= i < |rs| ==> us[i] == rs[i].url
  {
    seq(|rs|, i requires 0 <= i < |rs| => rs[i].url)
  }

  /** The order in which the worker pool's futures complete: any permutation of the submissions. */
  method CompletionOrder(submitted: seq<string>) returns (order: seq<string>)
    ensures multiset(order) == multiset(submitted)
  {
    order := [];
    var pending := submitted;
    while pending != []
      invariant multiset(order) + multiset(pending) == multiset(submitted)
      decreases |pending|
    {
      var k :| 0 <= k < |pending|;
      assert pending == pending[..k] + [pending[k]] + pending[k + 1..];
      order := order + [pending[k]];
      pending := pending[..k] + pending[k + 1..];
    }
  }

  /** The submission loop of `enrich_all`: the `http` URL of each row, in row order. */
  method SubmitRows(rows: seq<RawLead>) returns (submitted: seq<string>)
    ensures submitted == DispatchedUrls(rows)
  {
    submitted := [];
    var i := 0;
    while i < |rows|
      invariant 0 <= i <= |rows|
      invariant submitted == DispatchedUrls(rows[..i])
    {
      var url := FirstTruthy(rows[i].url, rows[i].link);
      if url.Text? && StartsWith(url.s, "http") {
        submitted := submitted + [url.s];
      }
      assert rows[..i + 1][..i] == rows[..i];
      i := i + 1;
    }
    assert rows[..|rows|] == rows;
  }

  /** The collection loop of `enrich_all`: one `enrich_url` row per completed URL, in that order. */
  method CollectRows(order: seq<string>, fetch: string -> FetchResult, join: (string, string) -> string)
    returns (out: seq<Enriched>)
    ensures Urls(out) == order
    ensures forall i :: 0 <= i < |out| ==> Serializes(out[i].emails, FoundEmails(out[i].url, fetch, join))
  {
    out := [];
    var j := 0;
    while j < |order|
      invariant 0 <= j <= |order|
      invariant |out| == j
      invariant forall k :: 0 <= k < j ==> out[k].url == order[k]
      invariant forall k :: 0 <= k < j ==> Serializes(out[k].emails, FoundEmails(out[k].url, fetch, join))
    {
      var rec, _ := EnrichUrl(order[j], fetch, join);
      out := out + [rec];
      j := j + 1;
    }
    assert Urls(out) == order;
  }

  /**
   * `enrich_all`: one row per submitted URL, in completion order; rows
   * without an `http` URL are not submitted and leave no row.
   */
  method EnrichAll(rows: seq<RawLead>, fetch: string -> FetchResult, join: (string, string) -> string)
    returns (out: seq<Enriched>)
    ensures multiset(Urls(out)) == multiset(DispatchedUrls(rows))
    ensures forall i :: 0 <= i < |out| ==> Serializes(out[i].emails, FoundEmails(out[i].url, fetch, join))
  {
    var submitted := SubmitRows(rows);
    var order := CompletionOrder(submitted);
    out := CollectRows(order, fetch, join);
  }

  /** The `contact` page is fetched only when the base page gave nothing, and then once. */
  lemma FallbackOnlyWhenBaseEmpty(base: string, fetch: string -> FetchResult, join: (string, string) -> string)
    ensures PageEmails(fetch(base)) != {} ==>
      FetchedUrls(base, fetch, join) == [base] && FoundEmails(base, fetch, join) == PageEmails(fetch(base))
    ensures PageEmails(fetch(base)) == {} ==>
      FetchedUrls(base, fetch, join) == [base, join(base, "contact")] &&
      FoundEmails(base, fetch, join) == PageEmails(fetch(join(base, "contact")))
  {
    var first := PageEmails(fetch(base));
    if first == {} {
      var u := join(base, "contact");
      assert FallbackPaths[0] == "contact" && FallbackPaths[1..] == [];
      var next := first + PageEmails(fetch(u));
      var rest := Probe(next, base, FallbackPaths[1..], fetch, join);
      assert rest == (next, []);
      assert [u] + rest.1 == [u];
      assert Probe(first, base, FallbackPaths, fetch, join) == (next, [u]);
    }
  }

  /** Every address found comes from the status-200 body of a URL that was fetched. */
  lemma FoundFromOkPages(base: string, fetch: string -> FetchResult, join: (string, string) -> string, x: string)
    requires x in FoundEmails(base, fetch, join)
    ensures exists u :: u in FetchedUrls(base, fetch, join) && fetch(u).Response? && fetch(u).status == 200 &&
                        x in ExtractEmails(fetch(u).body)
  {
    FallbackOnlyWhenBaseEmpty(base, fetch, join);
    if PageEmails(fetch(base)) != {} {
      assert base in FetchedUrls(base, fetch, join);
    } else {
      assert join(base, "contact") in FetchedUrls(base, fetch, join);
    }
  }

  /** Found addresses have the extraction pattern's shape, so they hold an `@` and no comma or space. */
  lemma FoundEmailsShape(base: string, fetch: string -> FetchResult, join: (string, string) -> string, x: string)
    requires x in FoundEmails(base, fetch, join)
    ensures IsEmailMatch(x) && '@' in x && ',' !in x && ' ' !in x
  {
    FoundFromOkPages(base, fetch, join, x);
    var u :| u in FetchedUrls(base, fetch, join) && fetch(u).Response? && fetch(u).status == 200 &&
             x in ExtractEmails(fetch(u).body);
    ExtractedShape(fetch(u).body, x);
    ExtractedHasNoSeparator(fetch(u).body, x);
  }

  /** The `emails` field is `"N/A"` exactly when no address was found. */
  lemma NotAvailableIffNoneFound(field: string, base: string, fetch: string -> FetchResult, join: (string, string) -> string)
    requires Serializes(field, FoundEmails(base, fetch, join))
    ensures field == NotAvailable <==> FoundEmails(base, fetch, join) == {}
  {
    var found := FoundEmails(base, fetch, join);
    if found != {} {
      var xs :| Enumerates(xs, found) && field == Join(xs, Separator);
      assert xs[0] in found;
      FoundEmailsShape(base, fetch, join, xs[0]);
      JoinKeepsChars(xs, Separator, 0, '@');
      assert '@' !in NotAvailable;
    }
  }

  /**
   * Splitting a serialised field on `", "` (as the scorer does) gives the
   * address set back, each address once.
   */
  lemma DecodeSerialized(field: string, emails: set<string>)
    requires Serializes(field, emails) && emails != {}
    requires forall x :: x in emails ==> ',' !in x
    ensures NoDup(Split(field, Separator)) && Elements(Split(field, Separator)) == emails
  {
    var xs :| Enumerates(xs, emails) && field == Join(xs, Separator);
    assert xs[0] in emails;
    forall i | 0 <= i < |xs| ensures Separator[0] !in xs[i] {
      assert xs[i] in emails;
    }
    SplitJoin(xs, Separator);
  }

  /** A base page without an address and a `contact` page holding `x@y.com` give the field `x@y.com`. */
  lemma ContactFallbackScenario(base: string, fetch: string -> FetchResult, join: (string, string) -> string, field: string)
    requires PageEmails(fetch(base)) == {}
    requires fetch(join(base, "contact")) == Response(200, "x@y.com")
    requires Serializes(field, FoundEmails(base, fetch, join))
    ensures FoundEmails(base, fetch, join) == {"x@y.com"}
    ensures field == "x@y.com"
  {
    FallbackOnlyWhenBaseEmpty(base, fetch, join);
    ExtractSingle();
    var xs :| Enumerates(xs, {"x@y.com"}) && field == Join(xs, Separator);
    SingletonEnumeration(xs, "x@y.com");
  }

  /** The only iteration order of a one-element set. */
  lemma SingletonEnumeration(xs: seq<string>, x: string)
    requires Enumerates(xs, {x})
    ensures xs == [x]
  {
    NoDupCard(xs);
    assert |xs| == 1;
    assert xs[0] in Elements(xs);
  }

  /** A URL is submitted exactly when some row yields it. */
  lemma {:induction false} DispatchedIff(rows: seq<RawLead>, u: string)
    ensures u in DispatchedUrls(rows) <==> exists i :: 0 <= i < |rows| && DispatchUrl(rows[i]) == Some(u)
    decreases |rows|
  {
    if rows != [] {
      var init := rows[..|rows| - 1];
      DispatchedIff(init, u);
      assert forall i :: 0 <= i < |init| ==> init[i] == rows[i];
      if u in DispatchedUrls(init) {
        var i :| 0 <= i < |init| && DispatchUrl(init[i]) == Some(u);
        assert DispatchUrl(rows[i]) == Some(u);
      }
    }
  }

  /** Every submitted URL starts with `http`. */
  lemma DispatchedAreHttp(rows: seq<RawLead>, u: string)
    requires u in DispatchedUrls(rows)
    ensures StartsWith(u, "http")
  {
    DispatchedIff(rows, u);
  }

  /** A NaN `url` is truthy, so `url or link` keeps it and the row is dropped even with a usable `link`. */
  lemma NanUrlHidesLink(link: string)
    ensures DispatchUrl(RawLead(Other(true), Text(link))) == None
    ensures StartsWith(link, "http") ==> DispatchUrl(RawLead(Absent, Text(link))) == Some(link)
  {
  }
}

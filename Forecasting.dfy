/**
 * The sales forecasting agent: `categorize_lead` asks a remote classifier
 * about a lead's reply (an oracle here), with a fixed answer when there is
 * no reply and when the call fails; `forecast_sales` builds the
 * sender-to-reply map and one forecast row per usable lead.
 */
module Forecasting {
  import opened Wrappers
  import opened Strings

  /** What the Groq call gives: the parsed `category` and `reason`, or the text of the exception raised. */
  datatype ClassifierReply = Classified(category: string, reason: string) | ClassifierError(detail: string)

  /** A row of `replies.csv`: `None` stands for a NaN cell. */
  datatype ReplyRow = ReplyRow(from: Option<string>, body: Option<string>)

  /** A row of `leads_enriched.csv`, as far as forecasting reads it: `None` for a NaN `emails` cell. */
  datatype LeadRow = LeadRow(emails: Option<string>)

  /** One row of `leads_forecasted.csv`. */
  datatype ForecastRow = ForecastRow(email: string, category: string, reason: string)

  const Cold: string := "cold"
  const Unknown: string := "unknown"
  const NoReplyReason: string := "No reply received yet."
  const ErrorPrefix: string := "Error: "

  /**
   * `categorize_lead(email, reply_text)`: a NaN or empty reply is cold without
   * a call; otherwise the classifier's answer, or `unknown` with the error text.
   */
  function Categorize(email: string, reply: Option<string>, classify: (string, string) -> ClassifierReply): (r: (string, string))
    ensures (reply.None? || reply.value == "") ==> r == (Cold, NoReplyReason)
    ensures reply.Some? && reply.value != "" && classify(email, reply.value).ClassifierError? ==>
              r.0 == Unknown && StartsWith(r.1, ErrorPrefix)
    ensures reply.Some? && reply.value != "" && classify(email, reply.value).Classified? ==>
              r == (classify(email, reply.value).category, classify(email, reply.value).reason)
  {
    if reply.None? || reply.value == "" then (Cold, NoReplyReason)
    else
      match classify(email, reply.value)
      case Classified(c, why) => (c, why)
      case ClassifierError(detail) =>
        assert (ErrorPrefix + detail)[..|ErrorPrefix|] == ErrorPrefix;
        (Unknown, ErrorPrefix + detail)
  }

  /** Without a reply the classifier is never consulted: any two classifiers agree. */
  lemma NoReplyIgnoresClassifier(email: string, reply: Option<string>,
                                 c1: (string, string) -> ClassifierReply, c2: (string, string) -> ClassifierReply)
    ensures (reply.None? || reply.value == "") ==> Categorize(email, reply, c1) == Categorize(email, reply, c2)
  {
  }

  // ---- the reply map ----

  /** `str(row.get("from", ""))`, where `str` of NaN is `"nan"`. */
  function FromText(from: Option<string>): string {
    match from
    case None => "nan"
    case Some(f) => f
  }

  /** `str(from).split("<")[-1].strip(">").lower()`. */
  function SenderKey(from: Option<string>): string {
    Lower(StripChar(Last(Split(FromText(from), "<")), '>'))
  }

  /** `sender and "@" in sender`. */
  predicate KeptSender(key: string) {
    key != "" && '@' in key
  }

  /** `replies_dict` after the rows `rows`, in order: a later reply from the same sender overwrites. */
  function ReplyMap(rows: seq<ReplyRow>): map<string, Option<string>> {
    if rows == [] then map[]
    else
      var m := ReplyMap(rows[..|rows| - 1]);
      var key := SenderKey(Last(rows).from);
      if KeptSender(key) then m[key := Last(rows).body] else m
  }

  /** The key of every reply row, kept or not, in row order. */
  function Senders(rows: seq<ReplyRow>): (ks: seq<string>)
    ensures |ks| == |rows| && forall i :: 0 <= i < |rows| ==> ks[i] == SenderKey(rows[i].from)
  {
    seq(|rows|, i requires 0 <= i < |rows| => SenderKey(rows[i].from))
  }

  /** A sender is in the map exactly when some row has it as a kept key. */
  lemma {:induction false} ReplyMapKeys(rows: seq<ReplyRow>, key: string)
    ensures key in ReplyMap(rows) <==> KeptSender(key) && key in Senders(rows)
    decreases |rows|
  {
    if rows != [] {
      var init := rows[..|rows| - 1];
      ReplyMapKeys(init, key);
      assert Senders(rows) == Senders(init) + [SenderKey(Last(rows).from)];
    }
  }

  /** The reply kept for a sender is the body of that sender's last row. */
  lemma {:induction false} ReplyMapLastWriter(rows: seq<ReplyRow>, j: nat)
    requires j < |rows| && KeptSender(SenderKey(rows[j].from))
    requires forall k :: j < k < |rows| ==> SenderKey(rows[k].from) != SenderKey(rows[j].from)
    ensures SenderKey(rows[j].from) in ReplyMap(rows)
    ensures ReplyMap(rows)[SenderKey(rows[j].from)] == rows[j].body
    decreases |rows|
  {
    var init := rows[..|rows| - 1];
    if j < |rows| - 1 {
      assert init[j] == rows[j];
      forall k | j < k < |init| ensures SenderKey(init[k].from) != SenderKey(init[j].from) {
        assert init[k] == rows[k];
      }
      ReplyMapLastWriter(init, j);
    }
  }

  /** `Name <addr>` senders: the key is the lower-cased address between the angle brackets. */
  lemma SenderKeyOfHeader(name: string, addr: string)
    requires '<' !in name && '<' !in addr
    requires addr != [] && addr[0] != '>' && addr[|addr| - 1] != '>'
    ensures SenderKey(Some(name + "<" + addr + ">")) == Lower(addr)
  {
    var tail := addr + ">";
    assert name + "<" + addr + ">" == name + "<" + tail;
    LastPieceAfterAngle(name, tail);
    StripCharDropsOneRight(addr, '>');
  }

  /** A sender that starts with `<` and has no other `<` keeps everything after it, name included, in its key. */
  lemma SenderKeyAngleFirst(tail: string)
    requires '<' !in tail && tail != [] && tail[0] != '>' && tail[|tail| - 1] != '>'
    ensures SenderKey(Some("<" + tail)) == Lower(tail)
  {
    var s := "<" + tail;
    assert s[..1] == "<";
    assert IndexOf(s, "<") == Some(0);
    assert s[1..] == tail;
    NoIndexWithoutFirstChar(tail, "<");
    assert Split(s, "<") == [[]] + [tail];
    StripCharKeeps(tail, '>');
  }

  /** The piece after the only `<`. */
  lemma LastPieceAfterAngle(name: string, tail: string)
    requires '<' !in name && '<' !in tail
    ensures Last(Split(name + "<" + tail, "<")) == tail
  {
    var s := name + "<" + tail;
    IndexAfterWord(name, "<", tail);
    assert s[|name| + 1..] == tail;
    NoIndexWithoutFirstChar(tail, "<");
  }

  lemma StripCharKeeps(s: string, c: char)
    requires s != [] && s[0] != c && s[|s| - 1] != c
    ensures StripChar(s, c) == s
  {
  }

  lemma StripCharDropsOneRight(s: string, c: char)
    requires s != [] && s[0] != c && s[|s| - 1] != c
    ensures StripChar(s + [c], c) == s
  {
    var t := s + [c];
    assert t[0] == s[0];
    assert TrimLeft(t, IsChar(c)) == t;
    assert t[..|t| - 1] == s;
    assert TrimRight(t, IsChar(c)) == TrimRight(s, IsChar(c));
  }

  // ---- per-lead results ----

  /** `replies_dict.get(email, "")`. */
  function Lookup(m: map<string, Option<string>>, key: string): Option<string> {
    if key in m then m[key] else Some("")
  }

  /**
   * The address a lead row is forecast under, if any: NaN cells and cells
   * without `@` are skipped, else the first comma-separated entry, stripped
   * and lower-cased, which must itself hold `@`.
   */
  function LeadEmail(row: LeadRow): (r: Option<string>)
    ensures (row.emails.None? || '@' !in row.emails.value) ==> r.None?
    ensures r.Some? ==> '@' in r.value && r.value == Lower(Strip(Split(row.emails.value, ",")[0]))
    ensures r.Some? ==> forall k :: 0 <= k < |r.value| ==> !('A' <= r.value[k] <= 'Z')
  {
    match row.emails
    case None => None
    case Some(raw) =>
      if '@' !in raw then None
      else
        var email := Lower(Strip(Split(raw, ",")[0]));
        if '@' in email then Some(email) else None
  }

  /** The addresses of the usable leads, in row order. */
  function KeptEmails(leads: seq<LeadRow>): seq<string> {
    if leads == [] then []
    else
      KeptEmails(leads[..|leads| - 1]) +
      match LeadEmail(Last(leads)) case Some(e) => [e] case None => []
  }

  /** The result row for one usable lead. */
  function ResultFor(email: string, m: map<string, Option<string>>, classify: (string, string) -> ClassifierReply): ForecastRow {
    var verdict := Categorize(email, Lookup(m, email), classify);
    ForecastRow(email, verdict.0, verdict.1)
  }

  /** `results` after the leads `leads`, in order. */
  function Forecasts(leads: seq<LeadRow>, m: map<string, Option<string>>, classify: (string, string) -> ClassifierReply): seq<ForecastRow> {
    if leads == [] then []
    else
      Forecasts(leads[..|leads| - 1], m, classify) +
      match LeadEmail(Last(leads)) case Some(e) => [ResultFor(e, m, classify)] case None => []
  }

  /** The first loop of `forecast_sales`: `replies_dict`, filled row by row. */
  method BuildReplies(replyRows: seq<ReplyRow>) returns (repliesDict: map<string, Option<string>>)
    ensures repliesDict == ReplyMap(replyRows)
  {
    repliesDict := map[];
    var i := 0;
    while i < |replyRows|
      invariant 0 <= i <= |replyRows|
      invariant repliesDict == ReplyMap(replyRows[..i])
    {
      var sender := Lower(StripChar(Last(Split(FromText(replyRows[i].from), "<")), '>'));
      if sender != [] && '@' in sender {
        repliesDict := repliesDict[sender := replyRows[i].body];
      }
      assert replyRows[..i + 1][..i] == replyRows[..i];
      i := i + 1;
    }
    assert replyRows[..|replyRows|] == replyRows;
  }

  /** The second loop of `forecast_sales`: `results`, one row appended per usable lead. */
  method ForecastLeads(rows: seq<LeadRow>, repliesDict: map<string, Option<string>>,
                       classify: (string, string) -> ClassifierReply)
    returns (results: seq<ForecastRow>)
    ensures results == Forecasts(rows, repliesDict, classify)
  {
    results := [];
    var j := 0;
    while j < |rows|
      invariant 0 <= j <= |rows|
      invariant results == Forecasts(rows[..j], repliesDict, classify)
    {
      assert rows[..j + 1][..j] == rows[..j];
      var emailRaw := rows[j].emails;
      if emailRaw.Some? && '@' in emailRaw.value {
        var email := Lower(Strip(Split(emailRaw.value, ",")[0]));
        if '@' in email {
          var reply := if email in repliesDict then repliesDict[email] else Some("");
          var verdict := Categorize(email, reply, classify);
          results := results + [ForecastRow(email, verdict.0, verdict.1)];
        }
      }
      j := j + 1;
    }
    assert rows[..|rows|] == rows;
  }

  /**
   * `forecast_sales`: `None` when the leads file is missing; a missing
   * replies file gives an empty reply map.
   */
  method ForecastSales(leads: Option<seq<LeadRow>>, replies: Option<seq<ReplyRow>>,
                       classify: (string, string) -> ClassifierReply)
    returns (out: Option<seq<ForecastRow>>)
    ensures leads.None? ==> out.None?
    ensures leads.Some? ==> out == Some(Forecasts(leads.value, ReplyMap(replies.GetOr([])), classify))
  {
    if leads.None? {
      return None;
    }
    var replyRows := if replies.Some? then replies.value else [];
    var repliesDict := BuildReplies(replyRows);
    var results := ForecastLeads(leads.value, repliesDict, classify);
    return Some(results);
  }

  // ---- what the results promise ----

  /** One result per usable lead, in lead order, each categorised with that address's reply. */
  lemma {:induction false} ForecastsPerLead(leads: seq<LeadRow>, m: map<string, Option<string>>,
                                            classify: (string, string) -> ClassifierReply)
    ensures |Forecasts(leads, m, classify)| == |KeptEmails(leads)|
    ensures forall i :: 0 <= i < |KeptEmails(leads)| ==>
              Forecasts(leads, m, classify)[i] == ResultFor(KeptEmails(leads)[i], m, classify)
    decreases |leads|
  {
    if leads != [] {
      ForecastsPerLead(leads[..|leads| - 1], m, classify);
    }
  }

  /** What each lead row yields, kept or not, in row order. */
  function LeadEmails(leads: seq<LeadRow>): (r: seq<Option<string>>)
    ensures |r| == |leads| && forall j :: 0 <= j < |leads| ==> r[j] == LeadEmail(leads[j])
  {
    seq(|leads|, j requires 0 <= j < |leads| => LeadEmail(leads[j]))
  }

  /** An address is forecast exactly when some lead row yields it. */
  lemma {:induction false} KeptEmailsIff(leads: seq<LeadRow>, e: string)
    ensures e in KeptEmails(leads) <==> Some(e) in LeadEmails(leads)
    decreases |leads|
  {
    if leads != [] {
      var init := leads[..|leads| - 1];
      KeptEmailsIff(init, e);
      assert LeadEmails(leads) == LeadEmails(init) + [LeadEmail(Last(leads))];
    }
  }

  /** With no replies file every result is cold with the no-reply reason. */
  lemma {:induction false} NoRepliesAllCold(leads: seq<LeadRow>, classify: (string, string) -> ClassifierReply)
    ensures forall i :: 0 <= i < |Forecasts(leads, ReplyMap([]), classify)| ==>
              Forecasts(leads, ReplyMap([]), classify)[i].category == Cold &&
              Forecasts(leads, ReplyMap([]), classify)[i].reason == NoReplyReason
    decreases |leads|
  {
    if leads != [] {
      NoRepliesAllCold(leads[..|leads| - 1], classify);
    }
  }

  /**
   * A reply whose sender puts the address before the name (`<addr> Name`) is
   * filed under a key that keeps the name, so the lead `addr` finds no reply.
   */
  lemma {:induction false} AddressFirstSenderNotCorrelated(addr: string, rest: string, body: Option<string>)
    requires '<' !in addr + rest
    requires addr != [] && addr[0] != '>' && rest != [] && rest[|rest| - 1] != '>'
    ensures Lookup(ReplyMap([ReplyRow(Some("<" + addr + rest), body)]), Lower(addr)) == Some("")
  {
    var tail := addr + rest;
    assert tail[0] == addr[0] && tail[|tail| - 1] == rest[|rest| - 1];
    assert "<" + addr + rest == "<" + tail;
    SenderKeyAngleFirst(tail);
    assert |Lower(tail)| == |tail| > |addr| == |Lower(addr)|;
    OtherKeyNotFound(ReplyRow(Some("<" + tail), body), Lower(addr));
  }

  /** Such a lead is forecast cold whatever the reply says. */
  lemma AddressFirstStaysCold(addr: string, rest: string, body: Option<string>,
                              classify: (string, string) -> ClassifierReply)
    requires '<' !in addr + rest
    requires addr != [] && addr[0] != '>' && rest != [] && rest[|rest| - 1] != '>'
    requires forall k :: 0 <= k < |addr| ==> !('A' <= addr[k] <= 'Z')
    ensures ResultFor(addr, ReplyMap([ReplyRow(Some("<" + addr + rest), body)]), classify) == ForecastRow(addr, Cold, NoReplyReason)
  {
    LowerKeepsLowerCase(addr);
    AddressFirstSenderNotCorrelated(addr, rest, body);
  }

  /** The case `<p@x.com> Name` with the reply `Interested`. */
  lemma AddressFirstScenario(classify: (string, string) -> ClassifierReply)
    ensures ResultFor("p@x.com", ReplyMap([ReplyRow(Some("<p@x.com> Name"), Some("Interested"))]), classify)
            == ForecastRow("p@x.com", Cold, NoReplyReason)
  {
    assert "<p@x.com> Name" == "<" + "p@x.com" + "> Name";
    AddressFirstStaysCold("p@x.com", "> Name", Some("Interested"), classify);
  }

  lemma OtherKeyNotFound(row: ReplyRow, other: string)
    requires SenderKey(row.from) != other
    ensures Lookup(ReplyMap([row]), other) == Some("")
  {
    SingleReplyMap(row);
  }

  lemma SingleReplyMap(row: ReplyRow)
    ensures ReplyMap([row]) == if KeptSender(SenderKey(row.from)) then map[SenderKey(row.from) := row.body] else map[]
  {
    assert [row][..0] == [];
  }
}

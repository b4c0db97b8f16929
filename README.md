# Lead-generation pipeline backend, modelled in Dafny

This project models the decision logic of a lead-generation backend. The
backend is a FastAPI server that runs six stages in order: search for
leads, enrich them with contact addresses, score them, email them, collect
replies and forecast the leads. The model covers these parts:

- **The pipeline status record and its state machine** (`Pipeline`).
  - The record is `{status, message, steps_completed}`.
  - `run_pipeline` refuses a run while the status is `running`.
  - `execute_pipeline_task` resets the record, shows each stage's message, and advances the step count after each stage returns.
  - It freezes the record at `error` on the first exception.
  - The class `PipelineState` keeps the three fields and a ghost log, `history`, of every record a run passes through.
  - The specification function `Trace` describes that log, and the lemmas state how a run ends and how the count climbs.
  - The stages are inputs: each one either returns or raises with a text, and stage 1 also gives the lead count.
- **Contact enrichment** (`Enrichment`).
  - `enrich_url` fetches the base page. It fetches the `contact` page only when the base page gave no address.
  - Only status-200 bodies count, and fetch errors are swallowed.
  - The address set is serialised as a `", "`-joined list, or `"N/A"` when it is empty.
  - `enrich_all` dispatches only the rows whose `url or link` is a string starting with `http`, and collects one row per dispatched URL.
  - Page fetches are an oracle `fetch` (a response or a failure), and `urljoin` is an opaque function `join`.
  - The worker pool's completion order is an arbitrary permutation, chosen by `CompletionOrder`.
- **The email scorer** (`Scoring`).
  - `score_email` is a loop over the `", "`-separated entries: free-mail 1, role mailbox 2, other 3, capped at 10.
  - `score_leads` fills NaN emails with `""`, scores every row and sorts by score, highest first.
- **Email validation and de-duplicated outreach** (`Engagement`).
  - `is_valid_email` is the image-suffix blacklist plus the anchored pattern, decided character by character and proved equal to the pattern's existential reading.
  - `engage_leads` is the nested loop with the `sent_emails` set. Sending is an oracle, and the model returns the log of attempted sends with their outcomes.
- **Reply correlation and classification** (`Forecasting`).
  - `categorize_lead` answers cold without a call when there is no reply, and `unknown` when the classifier call fails. The classifier is an oracle.
  - `forecast_sales` builds the sender-to-reply map (last writer wins) and one result per usable lead.
- **Email extraction** (`Extraction`). `extract_emails` is a left-to-right scanner that reproduces `re.findall` for its pattern, and the result is a set.

`Strings` models the parts of Python's `str` that this code relies on. `Folds` holds a generic left fold used to prove a concatenation law. `Wrappers` holds `Option`.

A reply whose sender is written `<p@x.com> Name` is filed under
`p@x.com> name`: `split("<")[-1].strip(">")` takes the text after the last
`<` and strips `>` only at its ends
(backend/agents/sales_forecasting_agent.py:72). The lead `p@x.com`
therefore finds no reply and is forecast cold
(`Forecasting.AddressFirstSenderNotCorrelated`,
`Forecasting.AddressFirstScenario`).

## Model

| member | source | states |
|---|---|---|
| Pipeline.PipelineState.constructor | backend/app.py:34-38 | The record starts as `{idle, "Ready", 0}`, and its log holds just that record. |
| Pipeline.PipelineState.GetStatus | backend/app.py:91-93 | Returns the current record unchanged, with its status as the reported string (`Status.Name`). |
| Pipeline.Status.Name | backend/app.py:35-81 | The status strings the API reports: `idle`, `running`, `completed`, `error`. |
| Pipeline.NamesDistinct | backend/app.py:85 | The four status strings are distinct, so the string comparison with `"running"` tests exactly for the running status. |
| Pipeline.StageMessage | backend/app.py:46-73 | The message shown while stage k runs: `"Searching for: " + query`, then the five fixed stage messages. |
| Pipeline.FirstOutcome | backend/app.py:47-49 | Stage 1 fails with the exception's text when lead generation raises, with the no-leads message when it finds 0 leads, and returns otherwise. |
| Pipeline.Outcomes | backend/app.py:47-75 | The outcomes of the six stages: stage 1's from the lead count, then the five later stages. |
| Pipeline.StageSnapshots | backend/app.py:45-81 | Stage k leaves two records: its message with count k, then count k+1 if it returned, or `error` with the exception text and count k. |
| Pipeline.StagesFrom | backend/app.py:45-81 | The records from stage k on: each stage's records up to and including the first failure, and the completed record when none fails. |
| Pipeline.Trace | backend/app.py:43-81 | A run's records: the reset record `{running, "Starting lead generation...", 0}`, then `StagesFrom(0)`. |
| Pipeline.Climbs | backend/app.py:50-75 | Consecutive records keep the step count or raise it by one. |
| Pipeline.PipelineState.RunPipeline | backend/app.py:83-89 | Rejects with 400 "Pipeline is already running" exactly when the status is `running`, else answers started. It has no `modifies`, so the record is untouched. |
| Pipeline.PipelineState.RunStage | backend/app.py:45-50 | Stage k first shows its message with the count still k. On return the count becomes k+1; on an exception the status becomes `error` with the exception text and count k. The log grows by those two records and stays on `Trace`. |
| Pipeline.PipelineState.ExecuteTask | backend/app.py:40-81 | The log of the run is exactly `Trace(query, outcomes)`: reset to `{running, "Starting lead generation...", 0}`, then the stages in order up to the first failure, then completed. The final record is the log's last entry. |
| Pipeline.FirstFailure | backend/app.py:79-81 | The first failing stage at or after k: every stage before it returned, and it failed (or none did). |
| Pipeline.Advance | backend/app.py:50-75 | A stage that returns continues the trace with the next stage; a stage that fails ends it. |
| Pipeline.StagesFromEnd | backend/app.py:75-81 | From stage k on, the records end in `completed` with 6 steps when no stage fails, else in `error` with the first failure's text and its index as the count; and how many records there are. |
| Pipeline.RunEnd | backend/app.py:77-81 | A run ends at `{completed, "Pipeline finished successfully", 6}` when no stage fails, else at `{error, text, k-1}` for the first failing stage k. The record count shows that no later stage ran. |
| Pipeline.NoLeadsAborts | backend/app.py:47-49 | A search that finds no lead gives exactly the records reset, "Searching for: q" with count 0, and the no-leads error with count 0. |
| Pipeline.StagesFromRecords | backend/app.py:45-75 | Counting from stage j, stage k's first record is its message with count k, and its second is count k+1 when it returned. |
| Pipeline.StageRecords | backend/app.py:46-75 | In the run's trace, each stage that runs shows its message before its count changes, and the count rises by one only after the stage returned. |
| Pipeline.StagesFromClimbs | backend/app.py:50-75 | From stage k on, consecutive records keep the count or raise it by one, starting at k. |
| Pipeline.StepsNeverDecrease | backend/app.py:43-81 | The count starts at 0, climbs by at most one per record, and never decreases over the whole run. |
| Pipeline.ClimbsMonotone | backend/app.py:50-75 | In a log that climbs step by step, a later record never has a smaller count. |
| Enrichment.PageEmails | backend/agents/enrichment_agent.py:26-27 | A fetch contributes the extracted addresses of its body only when it is a response with status 200. |
| Enrichment.Probe | backend/agents/enrichment_agent.py:34-42 | The fallback loop: stops as soon as an address is known, else fetches the next path joined to the base and adds its addresses; gives the set and the URLs fetched. |
| Enrichment.FoundEmails | backend/agents/enrichment_agent.py:18-42 | The addresses `enrich_url` collects: the base page's, then the fallback loop's. |
| Enrichment.FetchedUrls | backend/agents/enrichment_agent.py:25-38 | The URLs `enrich_url` requests: the base URL, then the fallback URLs the loop reaches. |
| Enrichment.Serializes | backend/agents/enrichment_agent.py:44 | The field is `"N/A"` for no address, else `", "`-join of some order listing each address once. |
| Enrichment.FirstTruthy | backend/agents/enrichment_agent.py:57 | Python's `url or link`: the first cell if it is truthy, else the second. |
| Enrichment.Truthy | backend/agents/enrichment_agent.py:57 | A missing cell and `""` are falsy; NaN is truthy. |
| Enrichment.DispatchUrl | backend/agents/enrichment_agent.py:57-58 | A row's URL is submitted when `url or link` is a string starting with `http`. |
| Enrichment.DispatchedUrls | backend/agents/enrichment_agent.py:56-60 | The submitted URLs, in row order. |
| Enrichment.FetchEmails | backend/agents/enrichment_agent.py:23-29 | One fetch inside `try`: the extracted addresses of a status-200 body, else none. |
| Enrichment.SerializeEmails | backend/agents/enrichment_agent.py:44 | The field is `"N/A"` for the empty set, else `", "`-joined over some order that lists each address once. |
| Enrichment.EnrichUrl | backend/agents/enrichment_agent.py:18-45 | The row's url is the base URL. The URLs fetched are those `FetchedUrls` names, in order. The field serialises the addresses `FoundEmails` collects. |
| Enrichment.FallbackOnlyWhenBaseEmpty | backend/agents/enrichment_agent.py:34-42 | When the base page gives addresses, only it is fetched and they are the result. Otherwise `contact` is fetched exactly once, and its addresses are the result. |
| Enrichment.FoundFromOkPages | backend/agents/enrichment_agent.py:26-42 | Every address found comes from the status-200 body of a fetched URL. Failures and other statuses add nothing. |
| Enrichment.FoundEmailsShape | backend/agents/enrichment_agent.py:27-40 | Found addresses have the extraction pattern's shape, so they hold `@` and no comma or space. |
| Enrichment.NotAvailableIffNoneFound | backend/agents/enrichment_agent.py:44 | The field is `"N/A"` exactly when no address was found. |
| Enrichment.DecodeSerialized | backend/agents/enrichment_agent.py:44 | Splitting a serialised field on `", "` gives back the address set, without duplicates. |
| Enrichment.ContactFallbackScenario | backend/agents/enrichment_agent.py:34-44 | A base page without an address and a contact page `x@y.com` give the field `x@y.com`. |
| Enrichment.SingletonEnumeration | backend/agents/enrichment_agent.py:44 | A one-element set is listed in only one order. |
| Enrichment.SubmitRows | backend/agents/enrichment_agent.py:56-60 | The submission loop yields `DispatchedUrls(rows)`: the `http` URL of each row, in row order. |
| Enrichment.CompletionOrder | backend/agents/enrichment_agent.py:62 | The completion order is a permutation of the submissions. |
| Enrichment.CollectRows | backend/agents/enrichment_agent.py:62-66 | One row per completed URL, in that order, each serialising that URL's found addresses. |
| Enrichment.EnrichAll | backend/agents/enrichment_agent.py:47-66 | The output's URLs are, as a multiset, exactly the dispatched URLs (one row per dispatch, in any order). Each row serialises the addresses its URL yields. |
| Enrichment.DispatchedIff | backend/agents/enrichment_agent.py:56-60 | A URL is dispatched exactly when some row yields it. Rows that yield no `http` URL leave no row. |
| Enrichment.DispatchedAreHttp | backend/agents/enrichment_agent.py:58 | Every dispatched URL starts with `http`. |
| Enrichment.NanUrlHidesLink | backend/agents/enrichment_agent.py:57 | `url` falls back to `link` only when it is falsy. A NaN `url` is truthy and not a string, so the row is dropped even with a usable link. |
| Scoring.IsBlank | backend/agents/lead_scorer.py:7 | A cell is blank when it is NaN, strips to `""` or is `"N/A"`. |
| Scoring.SumScores | backend/agents/lead_scorer.py:10-18 | The loop's uncapped total: the entry scores added in order. |
| Scoring.EmailScore | backend/agents/lead_scorer.py:6-19 | `score_email`: 0 for a blank cell, else the `", "`-split entries' total, capped at 10. |
| Scoring.ScoreRow | backend/agents/lead_scorer.py:23-24 | A row with NaN emails becomes `""`, and its score is that cell's score. |
| Scoring.SortedByScore | backend/agents/lead_scorer.py:25 | Scores are non-increasing down the table. |
| Scoring.EntryScore | backend/agents/lead_scorer.py:12-18 | One entry adds between 1 and 3. |
| Scoring.ScoreEmail | backend/agents/lead_scorer.py:6-19 | The loop computes `EmailScore`: 0 for NaN, blank or `"N/A"`; else the sum over the `", "` entries, capped at 10. |
| Scoring.SumScoresBounds | backend/agents/lead_scorer.py:10-18 | The uncapped sum of n entries lies between n and 3n. |
| Scoring.ScoreRange | backend/agents/lead_scorer.py:7-19 | Every score lies in 0..10, and a non-blank cell scores at least 1. |
| Scoring.SumScoresAppend | backend/agents/lead_scorer.py:11-18 | The sum over a concatenation is the sum of the sums. |
| Scoring.SumScoresPermutation | backend/agents/lead_scorer.py:10-19 | Entries with the same multiset have the same sum. |
| Scoring.ScoreOrderInvariant | backend/agents/lead_scorer.py:9-19 | Reordering a cell's entries leaves its score unchanged, whenever no entry contains `", "`. |
| Scoring.JoinNotBlank | backend/agents/lead_scorer.py:7 | A `", "`-join of two or more entries is never blank, so it is split and scored. |
| Scoring.SerializedScoreIsOrderFree | backend/agents/lead_scorer.py:9-19 | Every serialisation of the same found set scores the same, whatever order the set was joined in, when no address holds a comma. |
| Scoring.FreeMailWins | backend/agents/lead_scorer.py:13-16 | `info@gmail.com` scores 1: the free-mail test takes precedence. |
| Scoring.FreeMailFound | backend/agents/lead_scorer.py:13 | `"@gmail.com" in "info@gmail.com"` holds. |
| Scoring.EntryScoreIgnoresCase | backend/agents/lead_scorer.py:12 | An entry scores the same as its lower-cased form. |
| Scoring.ScoreRows | backend/agents/lead_scorer.py:23-24 | Each row keeps its place and gets `fillna("")` plus its score. |
| Scoring.Insert | backend/agents/lead_scorer.py:25 | Inserting into a table sorted by descending score keeps it sorted, adds exactly that row, and heads it with the new row or the old head. |
| Scoring.ConsSorted | backend/agents/lead_scorer.py:25 | A row scoring no less than a sorted table's head heads a sorted table. |
| Scoring.SortByScore | backend/agents/lead_scorer.py:25 | The result is ordered non-increasing by score and is a permutation of the input. |
| Scoring.ScoreLeads | backend/agents/lead_scorer.py:21-26 | The output is sorted by descending score and is a permutation of the scored rows. |
| Scoring.ScoreLeadsRows | backend/agents/lead_scorer.py:22-25 | Every row is kept. Every score lies in 0..10 and is the score of the row's cell. A NaN cell becomes `""` with score 0. |
| Engagement.HasImageSuffix | backend/agents/engagement_agent.py:32 | The lower-cased string ends in one of `.png`, `.jpg`, `.jpeg`, `.gif`, `.svg`, `.webp`. |
| Engagement.AddressShape | backend/agents/engagement_agent.py:36-37 | The pattern read character by character: the local run, `@`, the label run (non-empty), `.`, and a non-empty tail run to the end. |
| Engagement.RegexMatches | backend/agents/engagement_agent.py:36-37 | `re.match` of the anchored pattern: the shape, or the shape followed by one final newline, which `$` allows. |
| Engagement.IsValidEmail | backend/agents/engagement_agent.py:30-37 | No image suffix, and the pattern matches. |
| Engagement.SendEmail | backend/agents/engagement_agent.py:39-55 | Skipped when either credential is unset or empty; else sent, or failed with the SMTP error. |
| Engagement.RowEntries | backend/agents/engagement_agent.py:62-63 | A row with score (0 when missing) at least `min_score` and a non-NaN emails cell gives its `","`-split entries; any other row gives none. |
| Engagement.Candidates | backend/agents/engagement_agent.py:61-63 | All raw entries, in row order, then in-row order. |
| Engagement.OutreachStep | backend/agents/engagement_agent.py:64-67 | One entry: strip it, and add it to the sends when it is valid and not yet sent. |
| Engagement.OutreachFrom | backend/agents/engagement_agent.py:61-67 | The sends after the entries, starting from the sends so far. |
| Engagement.Outreach | backend/agents/engagement_agent.py:59-67 | The sends of the nested loop, from an empty `sent_emails`. |
| Engagement.SpanEndAt | backend/agents/engagement_agent.py:36 | A run of characters that stops where the class fails is the run the scanner finds. |
| Engagement.AddressShapeIff | backend/agents/engagement_agent.py:36-37 | The character-level decision holds exactly when the string splits as local part, `@`, label, `.`, tail over the pattern's classes. |
| Engagement.ImageSuffixInvalid | backend/agents/engagement_agent.py:32-33 | A string ending, case-insensitively, in any of the six image suffixes is invalid. |
| Engagement.ShapeOneAt | backend/agents/engagement_agent.py:36 | A pattern-shaped string has its only `@` at the end of the local part. |
| Engagement.ValidHasOneAt | backend/agents/engagement_agent.py:36-37 | Every valid address holds exactly one `@`, including under `$`'s final-newline allowance. |
| Engagement.ValidStrippedMatches | backend/agents/engagement_agent.py:64-65 | A stripped string that is valid matches the pattern outright: the newline allowance never applies. |
| Engagement.Log | backend/agents/engagement_agent.py:66 | One logged send per address, in order. |
| Engagement.LogSnoc | backend/agents/engagement_agent.py:66-67 | Sending to one more address appends one event with `send_email`'s outcome. |
| Engagement.CandidatesSnoc | backend/agents/engagement_agent.py:61-63 | One more row appends that row's entries when it scores at least `min_score` and has emails, else nothing. |
| Engagement.OutreachFromSnoc | backend/agents/engagement_agent.py:63-67 | One more entry is one more step. |
| Engagement.OutreachFromIsFold | backend/agents/engagement_agent.py:61-67 | The send sequence is the left fold of the per-entry step. |
| Folds.FoldAppend | backend/agents/engagement_agent.py:63-67 | Folding over one more element applies one more step. |
| Folds.FoldConcat | backend/agents/engagement_agent.py:61-67 | Folding over `a + b` continues from the fold over `a`. |
| Engagement.OutreachFromConcat | backend/agents/engagement_agent.py:61-67 | The sends after rows then a new row continue from where the earlier rows left off. |
| Engagement.ConsiderEntry | backend/agents/engagement_agent.py:64-67 | One inner iteration: strip, and send and record the address exactly when it is valid and not yet in `sent_emails`. |
| Engagement.EngageEntries | backend/agents/engagement_agent.py:63-67 | The inner loop over one row sends what `OutreachFrom` prescribes, continuing the log and the sent set. |
| Engagement.EngageLeads | backend/agents/engagement_agent.py:57-67 | The sends attempted, in order and with their outcomes, are `Log(Outreach(Candidates(rows, min_score)))`. A skip or a failure does not stop the loop, and the address still counts as sent. |
| Engagement.OutreachNoDup | backend/agents/engagement_agent.py:59-67 | No address is sent to twice, even when rows share addresses. |
| Engagement.OutreachSound | backend/agents/engagement_agent.py:63-65 | Every address sent to is valid and is the stripped form of some qualifying entry. |
| Engagement.OutreachPrefix | backend/agents/engagement_agent.py:61-67 | The sends for earlier entries are a prefix of all sends: row order, then in-row order. |
| Engagement.OutreachComplete | backend/agents/engagement_agent.py:63-67 | Every qualifying entry whose stripped form is valid is sent to. |
| Engagement.SentShape | backend/agents/engagement_agent.py:36-37 | Every address sent to matches the pattern, has no image suffix, and holds exactly one `@`. |
| Forecasting.FromText | backend/agents/sales_forecasting_agent.py:72 | `str` of the `from` cell; a NaN cell is `"nan"`. |
| Forecasting.SenderKey | backend/agents/sales_forecasting_agent.py:72 | The text after the last `<`, with `>` stripped at both ends, lower-cased. |
| Forecasting.KeptSender | backend/agents/sales_forecasting_agent.py:74 | A key is kept when it is non-empty and holds `@`. |
| Forecasting.ReplyMap | backend/agents/sales_forecasting_agent.py:69-75 | The reply map after the rows in order: each kept key set to its row's body, later rows overwriting. |
| Forecasting.Lookup | backend/agents/sales_forecasting_agent.py:88 | `replies_dict.get(email, "")`. |
| Forecasting.KeptEmails | backend/agents/sales_forecasting_agent.py:79-86 | The addresses of the usable leads, in row order. |
| Forecasting.ResultFor | backend/agents/sales_forecasting_agent.py:88-90 | One result row: the address with the category and reason for its looked-up reply. |
| Forecasting.Forecasts | backend/agents/sales_forecasting_agent.py:77-90 | The results: one row per usable lead, in row order. |
| Forecasting.Categorize | backend/agents/sales_forecasting_agent.py:16-55 | NaN or empty reply: `("cold", "No reply received yet.")`. Classifier error: `"unknown"` with a reason starting `"Error: "`. Else the classifier's category and reason. |
| Forecasting.NoReplyIgnoresClassifier | backend/agents/sales_forecasting_agent.py:17-18 | Without a reply the answer is the same for every classifier: no remote call matters. |
| Forecasting.ReplyMapKeys | backend/agents/sales_forecasting_agent.py:71-75 | A key is in the reply map exactly when some reply row has it as its sender key and it is non-empty and holds `@`. |
| Forecasting.ReplyMapLastWriter | backend/agents/sales_forecasting_agent.py:75 | A sender's entry is the body of its last row: later replies overwrite. |
| Forecasting.SingleReplyMap | backend/agents/sales_forecasting_agent.py:71-75 | One reply row gives a map with its kept key, or an empty map. |
| Forecasting.SenderKeyOfHeader | backend/agents/sales_forecasting_agent.py:72 | For `Name <addr>` the key is the lower-cased address. |
| Forecasting.SenderKeyAngleFirst | backend/agents/sales_forecasting_agent.py:72 | For `<tail>` with no other `<`, the key is the lower-cased whole tail. |
| Forecasting.LastPieceAfterAngle | backend/agents/sales_forecasting_agent.py:72 | The last piece of a split on `<` is the text after the only `<`. |
| Forecasting.StripCharKeeps | backend/agents/sales_forecasting_agent.py:72 | `strip(">")` keeps a string that neither starts nor ends with `>`. |
| Forecasting.StripCharDropsOneRight | backend/agents/sales_forecasting_agent.py:72 | `strip(">")` drops exactly one trailing `>`. |
| Forecasting.AddressFirstSenderNotCorrelated | backend/agents/sales_forecasting_agent.py:72-75 | A sender `<addr> Name` is filed under a key that keeps the name, so looking up `addr` gives `""`. |
| Forecasting.OtherKeyNotFound | backend/agents/sales_forecasting_agent.py:88 | Looking up a key other than the only row's sender gives the default `""`. |
| Forecasting.AddressFirstStaysCold | backend/agents/sales_forecasting_agent.py:84-90 | Such a lead is forecast cold with the no-reply reason, whatever the reply says. |
| Forecasting.AddressFirstScenario | backend/agents/sales_forecasting_agent.py:71-90 | `<p@x.com> Name` replying `Interested` leaves lead `p@x.com` cold. |
| Forecasting.LeadEmail | backend/agents/sales_forecasting_agent.py:80-86 | NaN cells and cells without `@` (such as `"N/A"`) are skipped. A kept lead's address is its first comma entry, stripped and lower-cased, which holds `@` and no upper-case letter. |
| Forecasting.BuildReplies | backend/agents/sales_forecasting_agent.py:69-75 | The first loop builds exactly `ReplyMap(rows)`. |
| Forecasting.ForecastLeads | backend/agents/sales_forecasting_agent.py:77-90 | The second loop builds exactly `Forecasts(rows, map)`. |
| Forecasting.ForecastSales | backend/agents/sales_forecasting_agent.py:57-90 | A missing leads file gives no output. A missing replies file gives the empty reply map. Otherwise the output is `Forecasts(leads, ReplyMap(replies))`. |
| Forecasting.ForecastsPerLead | backend/agents/sales_forecasting_agent.py:79-90 | One result per kept lead, in lead order, each categorised with that address's looked-up reply. |
| Forecasting.KeptEmailsIff | backend/agents/sales_forecasting_agent.py:80-86 | An address is forecast exactly when some lead row yields it. |
| Forecasting.NoRepliesAllCold | backend/agents/sales_forecasting_agent.py:64-67 | With no replies every result is cold with the no-reply reason. |
| Extraction.IsEmailMatch | backend/core/utils.py:5 | The whole string matches the pattern: local run, `@`, non-empty domain, `.`, two or more ASCII letters. |
| Extraction.Scan | backend/core/utils.py:5 | `re.findall`: take the match at i and go on from its end, else go on from i+1. |
| Extraction.ExtractEmails | backend/core/utils.py:4-5 | The set of the scan's matches. |
| Extraction.LastTldDot | backend/core/utils.py:5 | Finds the last place in range where `\.[a-zA-Z]{2}` starts, as the greedy domain class backtracks, or reports that there is none. |
| Extraction.MatchAt | backend/core/utils.py:5 | A match found at i ends inside the text and matches the whole pattern. |
| Extraction.ScanSound | backend/core/utils.py:5 | Every item the scan reports matches the pattern and occurs in the text. |
| Extraction.OneAt | backend/core/utils.py:5 | A pattern match has its only `@` after the local part. |
| Extraction.ExtractedShape | backend/core/utils.py:4-5 | Every item is a substring of the text. It has exactly one `@` and ends with `.` and two or more ASCII letters. |
| Extraction.MatchHasNoSeparator | backend/core/utils.py:5 | A match holds `@` and no comma or space. |
| Extraction.ExtractedHasNoSeparator | backend/core/utils.py:5 | Extracted items hold no comma or space, so a `", "` join of them splits back. |
| Extraction.OccurrenceChar | backend/core/utils.py:5 | A character of an occurrence is a character of the text. |
| Extraction.ExtractedAtFromText | backend/core/utils.py:5 | An item's `@` comes from the text. |
| Extraction.NoAtNoEmails | backend/core/utils.py:5 | Text without `@` yields no address. |
| Extraction.ExtractSingle | backend/core/utils.py:5 | The text `x@y.com` yields exactly `{x@y.com}`. |
| Strings.IsSpace | backend/agents/engagement_agent.py:64 | The characters for which `str.isspace()` holds. |
| Strings.TrimLeft | backend/agents/engagement_agent.py:64 | Drops the leading characters of a class. |
| Strings.TrimRight | backend/agents/engagement_agent.py:64 | Drops the trailing characters of a class. |
| Strings.Strip | backend/agents/engagement_agent.py:64 | `str.strip()`: the whitespace trimmed at both ends. |
| Strings.StripChar | backend/agents/sales_forecasting_agent.py:72 | `str.strip(c)` for one character. |
| Strings.Contains | backend/agents/lead_scorer.py:13-15 | Python's `p in s`. |
| Strings.Join | backend/agents/enrichment_agent.py:44 | `sep.join(xs)`. |
| Strings.Elements | backend/agents/engagement_agent.py:59 | The set of a sequence's items. |
| Strings.NoDup | backend/agents/enrichment_agent.py:44 | No item occurs twice. |
| Strings.Enumerates | backend/agents/enrichment_agent.py:44 | One iteration order of a Python set: every element once. |
| Strings.LowerChar | backend/agents/lead_scorer.py:12 | An upper-case ASCII letter becomes lower case; every other character is kept. |
| Strings.Lower | backend/agents/lead_scorer.py:12 | `lower()` keeps the length and maps each character on its own. |
| Strings.ContainsIff | backend/agents/lead_scorer.py:13-15 | `p in s` holds exactly when `p` occurs at some index. |
| Strings.SpanEnd | backend/agents/engagement_agent.py:36 | The run of a character class from i: all in the class, stopping at the end or at a character outside it. |
| Strings.TrimLeftShape | backend/agents/engagement_agent.py:64 | Left trimming removes exactly the longest prefix of dropped characters. |
| Strings.TrimRightShape | backend/agents/engagement_agent.py:64 | Right trimming removes exactly the longest suffix of dropped characters. |
| Strings.StripEnds | backend/agents/engagement_agent.py:64 | A stripped string is empty or neither starts nor ends with whitespace. |
| Strings.StripKeeps | backend/agents/lead_scorer.py:7 | A string with a non-whitespace character does not strip to `""`. |
| Strings.IndexOf | backend/agents/lead_scorer.py:9 | A found separator lies inside the string. |
| Strings.IndexOfFirst | backend/agents/lead_scorer.py:9 | The search finds the first occurrence of the separator, and `None` means there is none. |
| Strings.Split | backend/agents/lead_scorer.py:9 | `split(sep)` gives at least one piece. |
| Strings.NoIndexWithoutFirstChar | backend/agents/sales_forecasting_agent.py:72 | A string without the separator's first character has no occurrence of it. |
| Strings.IndexAfterWord | backend/agents/sales_forecasting_agent.py:72 | After a word without the separator's first character, the separator is found at the word's end. |
| Strings.NoOccurrenceWithoutFirstChar | backend/agents/lead_scorer.py:9 | A string without the separator's first character does not contain the separator. |
| Strings.NoIndexWithoutOccurrence | backend/agents/lead_scorer.py:9 | A string that does not contain the separator has no index of it, so `split` keeps it whole. |
| Strings.IndexAfterItem | backend/agents/lead_scorer.py:9 | For a two-character separator with distinct characters, after an item not containing it the separator is first found at the item's end. |
| Strings.SplitJoinPair | backend/agents/lead_scorer.py:9 | Splitting a `", "`-style join gives the items back when no item contains the separator. |
| Strings.SplitJoin | backend/agents/lead_scorer.py:9 | Splitting a `sep`-join gives the list back when no item holds the separator's first character. |
| Strings.JoinKeepsChars | backend/agents/enrichment_agent.py:44 | A character of an item is a character of the join. |
| Strings.ElementsSnoc | backend/agents/engagement_agent.py:67 | Adding an address to the log adds it to the sent set. |
| Strings.NoDupCard | backend/agents/enrichment_agent.py:44 | A listing without duplicates has as many items as its set. |
| Strings.NoDupMultiset | backend/agents/enrichment_agent.py:44 | A listing without duplicates has its set as its multiset. |
| Strings.LowerKeepsLowerCase | backend/agents/sales_forecasting_agent.py:84 | Lower-casing leaves a string without upper-case letters unchanged. |
| Strings.LowerIdempotent | backend/agents/lead_scorer.py:12 | Lower-casing twice is lower-casing once. |

## Left out

- HTTP, SMTP, IMAP and the Groq API are oracles:
  - `fetch`, the page fetch of `requests.get`, is a function of the URL;
  - `smtp` gives the session's result for an address;
  - `classify` gives the parsed classifier answer;
  - timeouts, headers, the prompt and the JSON parsing are inside these oracles.
- Enrichment.EnrichAll: the `ThreadPoolExecutor` fan-out is not modelled. The URLs are enriched one after another in an arbitrary permutation of the submission order, which stands for the completion order.
- Enrichment.EnrichUrl: `urljoin` is the opaque function `join`. Text decoding of response bodies and BeautifulSoup are not modelled.
- Pipeline.PipelineState.RunPipeline: it does not enqueue the background task; the caller runs `ExecuteTask` afterwards. The code does not guarantee one run at a time: the status becomes `running` only inside the task, so two requests can both pass the check. That race is concurrency and is not modelled.
- Pipeline.PipelineState.ExecuteTask: the stages are inputs (`Done` or `Failed(text)`, plus the lead count). The stage functions are modelled separately, and this model does not connect them to the stage outcomes.
- The `print` logging, CORS, the `/api/data/*` CSV endpoints and the root endpoint are not modelled.
- CSV files are sequences of records, and the read/write round trip is not modelled:
  - pandas `read_csv`/`to_csv` and `save_leads_to_csv` are left out;
  - the `""` that `score_leads` writes reads back as NaN, so `engage_leads` takes an optional emails cell.
- Strings.Lower: only ASCII letters are lower-cased; Python's full Unicode case mapping is not modelled.
- Whitespace for `strip()`: `Strings.IsSpace` lists explicitly the characters for which `str.isspace()` holds.
- Scored rows in `Engagement`: a missing `score` column is `None` (read as 0). A NaN or fractional score is not modelled; scores are integers.
- Engagement.EngageLeads, Scoring.ScoreEmail and Forecasting.LeadEmail: `str(...)` of a non-string, non-NaN cell (such as a number) is not modelled; cells are strings or NaN.
- Reply rows in `Forecasting`: a missing `from` or `body` column is treated like NaN. Both are dropped or give a cold lead in the code, so the results are the same.
- Scoring.ScoreLeads: `sort_values` does not fix the order of rows with equal scores. The model produces one such order (an insertion sort), and its contract states only what the sort promises: non-increasing scores and a permutation.
- Lead search (`collect_leads`, `search.py`), the reply collector (`email_reply_collector.py`), the test script and the React frontend are not part of this model.

# CityScope ingestion pipeline — a Dafny model

CityScope collects the published documents of the London (Ontario) council
meeting portal, turns each PDF into text, asks Gemini for a resident-facing
summary, and stores the summary in the Supabase table `meeting_summaries`.
This project models that ingestion path and proves what it promises:

- **Fetch** (`fetch.dfy`): `scrapePage` picks the `FileStream.ashx` links out
  of the meeting page's anchors and makes them absolute.
- **Parser** (`parser.dfy`): page texts are joined by a blank line; the
  filename is read from the `Content-Disposition` header with the source's
  regular expression, falling back to `doc_<id>.pdf`; `cleanText` collapses
  newline and space runs, removes `Page N of M` footers and strips;
  `prepareTextForLLM` truncates at `max_chars` with a marker; and
  `parseMultiplePdfs` sorts the ids into parsed documents and failures.
- **Summarizer** (`summarizer.dfy`): `summarizeDocument` shapes the result
  dictionary from the model reply. `summarizeMultipleDocuments` sorts the
  results into summaries and failures and pauses between calls.
- **Store** (`store.dfy`): the table is a class. Rows are keyed by
  `document_id` and kept in creation order. Writes are an upsert on that
  column.
- **Database** (`database.dfy`, `services_database.dfy`): the two variants of
  the persistence code. They build a record, upsert it, save a batch with a
  metadata or full-document lookup, and read rows back.
- **Orchestrator** (`orchestrator.dfy`): `runCompletePipeline` covers the
  newest-first sort by numeric id, the cut at `max_documents` or 30, the
  early returns, and the gating of the summarise and save stages.

Everything outside the process is an oracle passed in as a parameter:
- the portal's answer for one DocumentId (the downloaded bytes, PyMuPDF's
  page texts and metadata, and the `Content-Disposition` header);
- the model's reply to call number k;
- whether store call number k fails;
- the list that discovery returns.

Python's `str.strip`, `str.split`, `str.join`, slicing with a possibly
negative bound, `in`, `int()` and `isspace` are modelled in `strings.dfy`.

`cleanText` is not idempotent: removing a footer can leave two spaces side
by side (`Parser.CleanTextNotIdempotent`). The orchestrator imports `saveMultipleSummaries` from
`flask-backend/database.py`, so the pipeline uses the `Database` module; the
`services/database.py` variant is modelled separately as `ServicesDatabase`.

## Model

| member | source | states |
|---|---|---|
| Strings.LStrip | flask-backend/scraper/parsers/parser.py:181 | the left strip is a suffix of the input, everything dropped is whitespace, and it starts with a non-space |
| Strings.RStrip | flask-backend/scraper/parsers/parser.py:181 | the right strip is a prefix of the input, everything dropped is whitespace, and it ends with a non-space |
| Strings.Strip | flask-backend/scraper/parsers/parser.py:181 | `strip()` returns a string that is trimmed at both ends and no longer than its input |
| Strings.StripDropsOnlySpace | flask-backend/scraper/parsers/parser.py:181 | the stripped string occurs in the input at some offset i, and everything before i and after its end is whitespace |
| Strings.StripOfTrimmed | flask-backend/scraper/parsers/parser.py:87 | stripping an already trimmed string changes nothing |
| Strings.TokenLen | flask-backend/scraper/parsers/parser.py:124 | the token length is that of the longest whitespace-free prefix |
| Strings.SplitGivesWords | flask-backend/scraper/parsers/parser.py:124 | every piece `split()` returns is non-empty and holds no whitespace |
| Strings.SplitCountsWordStarts | flask-backend/scraper/parsers/parser.py:124 | `len(text.split())` equals an independent count of word starts |
| Strings.JoinHoldsPart | flask-backend/scraper/parsers/parser.py:53 | each part appears in the join at its offset |
| Strings.JoinSeparates | flask-backend/scraper/parsers/parser.py:53 | exactly the separator sits between consecutive parts |
| Strings.JoinEmptyIff | flask-backend/scraper/parsers/parser.py:53 | with a non-empty separator the join is empty iff there are no parts or one empty part |
| Strings.PyPrefix | flask-backend/scraper/orchestrator.py:28 | `s[:n]` has length min(n, len) for n >= 0 and len + n (at least 0) for negative n, and is a prefix |
| Strings.ContainsIff | flask-backend/scraper/fetchers/fetch.py:17 | `sub in s` holds iff `sub` occurs at some index of `s` |
| Fetch.Absolute | flask-backend/scraper/fetchers/fetch.py:19-23 | an href starting with https:// is recorded as is; any other href gets the portal base URL in front |
| Fetch.AbsoluteIdempotent | flask-backend/scraper/fetchers/fetch.py:19-23 | resolving twice is resolving once, and an https href is kept as is |
| Fetch.Matching | flask-backend/scraper/fetchers/fetch.py:17 | the kept hrefs are hrefs of the page and all contain `FileStream.ashx` |
| Fetch.MatchingSelects | flask-backend/scraper/fetchers/fetch.py:17 | an href of the page is kept if and only if it contains `FileStream.ashx` |
| Fetch.PdfLinks | flask-backend/scraper/fetchers/fetch.py:15-23 | link k is the absolute form of matching href k |
| Fetch.PdfLinksAreFileStreamUrls | flask-backend/scraper/fetchers/fetch.py:15-23 | every collected link is an https FileStream address |
| Fetch.PdfLinksKeepOrder | flask-backend/scraper/fetchers/fetch.py:15-23 | links keep page order: the links of a + b are those of a then those of b |
| Fetch.PdfLinksOfOne | flask-backend/scraper/fetchers/fetch.py:15-23 | one anchor gives its absolute URL when it contains `FileStream.ashx` and nothing otherwise |
| Fetch.ScrapePage | flask-backend/scraper/fetchers/fetch.py:7-24 | the loop collects exactly the PdfLinks of the anchors |
| Parser.ExtractTextFromPdfBytes | flask-backend/scraper/parsers/parser.py:33-57 | None exactly when PyMuPDF fails, otherwise the pages joined by a blank line |
| Parser.ExtractedTextKeepsPageOrder | flask-backend/scraper/parsers/parser.py:45-53 | page k sits at its offset and consecutive pages are separated by "\n\n" |
| Parser.NonQuoteLen | flask-backend/scraper/parsers/parser.py:85 | the `[^"]+` run is quote-free and stops at a quote or the end |
| Parser.FilenameMatchAt | flask-backend/scraper/parsers/parser.py:85 | the pattern matches at the start exactly when the text starts with `filename=` followed by a non-quote or by a quote and a non-quote; the group is then the maximal quote-free run starting at offset 9, or 10 after a quote |
| Parser.SearchFilenameLeftmost | flask-backend/scraper/parsers/parser.py:85 | `re.search` finds nothing exactly when the pattern matches at no offset, and otherwise returns the match at the leftmost offset where it matches |
| Parser.RemoveQuotes | flask-backend/scraper/parsers/parser.py:87 | the result holds no quote |
| Parser.RemoveQuotesOfNoQuote | flask-backend/scraper/parsers/parser.py:87 | removing quotes from a quote-free name changes nothing |
| Parser.StripKeepsNoQuote | flask-backend/scraper/parsers/parser.py:87 | stripping keeps a name quote-free |
| Parser.HeaderFilename | flask-backend/scraper/parsers/parser.py:84-87 | a name is read exactly when the regex search succeeds, and it is the stripped group; it is trimmed and quote-free |
| Parser.GetFilenameFromResponse | flask-backend/scraper/parsers/parser.py:73-91 | when the regex search on the header finds a group, the result is that group stripped; when the HEAD request raised, the header lacks `filename=`, or the search finds nothing, it is `doc_<id>.pdf`; a name read from the header is trimmed and quote-free |
| Parser.SearchFilenameFindsOccurrence | flask-backend/scraper/parsers/parser.py:84-86 | whenever the regex matches, `filename=` is in the header, so the `in` guard hides no match |
| Parser.SearchFilenameSkips | flask-backend/scraper/parsers/parser.py:85 | a prefix without `f` does not change the search result |
| Parser.FilenameMatchOfQuoted | flask-backend/scraper/parsers/parser.py:85 | at `filename="<name>"` the group is the name |
| Parser.QuotedFilenameRoundTrip | flask-backend/scraper/parsers/parser.py:84-87 | a trimmed quote-free name written as `attachment; filename="<name>"` reads back unchanged |
| Parser.AttachmentFilename | flask-backend/scraper/parsers/parser.py:73-91 | with such a header the response's filename is the quoted name, whatever the id |
| Parser.RunLen | flask-backend/scraper/parsers/parser.py:173-176 | the run length is that of the maximal leading run of the character |
| Parser.CollapseSplits | flask-backend/scraper/parsers/parser.py:173-176 | the rewrite works piece by piece: cut where no run of the character crosses the cut, the text is rewritten as its two parts are |
| Parser.CollapsePieces | flask-backend/scraper/parsers/parser.py:173-176 | a maximal run of n copies becomes the replacement when n is at least k and stays otherwise; any other character stays |
| Parser.CollapseWithoutRuns | flask-backend/scraper/parsers/parser.py:173-176 | text without a long run is left unchanged |
| Parser.CollapseLeavesNoRun | flask-backend/scraper/parsers/parser.py:173-176 | after the rewrite no run of k or more remains |
| Parser.DigitRun | flask-backend/scraper/parsers/parser.py:179 | `\d+` takes the maximal run of ASCII digits |
| Parser.FooterLenMatchesPattern | flask-backend/scraper/parsers/parser.py:179 | a footer match is `Page `, digits, ` of `, digits with the second run maximal, and every text starting with that shape is matched |
| Parser.FirstRunForced | flask-backend/scraper/parsers/parser.py:179 | in a text starting with a footer the first digit run is exactly the footer's, ` of ` follows, and the second run is at least as long |
| Parser.RemoveFootersKeepsPrefix | flask-backend/scraper/parsers/parser.py:179 | text without the letter P is copied through and the scan continues after it |
| Parser.RemoveFootersDeletesFooter | flask-backend/scraper/parsers/parser.py:179 | a footer after text without P is deleted whole, and the scan resumes right after it |
| Parser.RemoveFootersWithoutFooter | flask-backend/scraper/parsers/parser.py:179 | text without a footer is left unchanged |
| Parser.RemoveFootersSkipsNonFooter | flask-backend/scraper/parsers/parser.py:179 | where no footer starts, the character is copied through and the scan resumes one character later |
| Parser.RemoveFootersKeepsNonP | flask-backend/scraper/parsers/parser.py:179 | a position not holding `P` is copied through |
| Parser.NoFooterOfAbsent | flask-backend/scraper/parsers/parser.py:179 | text without `P` holds no footer |
| Parser.CleanText | flask-backend/scraper/parsers/parser.py:162-181 | a missing or empty text gives "", the result is never longer than the input, and it is trimmed |
| Parser.CleanTextOfPlainText | flask-backend/scraper/parsers/parser.py:162-181 | text with nothing to rewrite is only stripped |
| Parser.CleanTextRewritesCollapse | flask-backend/scraper/parsers/parser.py:173-176 | after the two collapses no newline run of 3 and no space run of 2 remains |
| Parser.CleanTextCollapsesBlankLines | flask-backend/scraper/parsers/parser.py:173 | `"a\n\n\n\nb"` cleans to `"a\n\nb"` |
| Parser.FooterLeavesDoubleSpace | flask-backend/scraper/parsers/parser.py:179 | removing the footer from `"a Page 1 of 2 b"` leaves `"a  b"` |
| Parser.CleanTextNotIdempotent | flask-backend/scraper/parsers/parser.py:162-181 | `"a Page 1 of 2 b"` cleans to `"a  b"`, which cleans again to `"a b"` |
| Parser.PrepareTextForLLM | flask-backend/scraper/parsers/parser.py:183-198 | id, filename and metadata are copied; the text is the cleaned text, cut at max_chars and marked only when max_chars is truthy and exceeded |
| Parser.PreparedTextBounds | flask-backend/scraper/parsers/parser.py:189-191 | with a positive limit m the text keeps the first m cleaned characters and is at most m plus the marker long; without a limit it is the cleaned text |
| Parser.ParsePdfFromDocumentId | flask-backend/scraper/parsers/parser.py:93-125 | None iff the download is missing or empty or the extracted text is empty or missing; otherwise the record with its id, text, length, word count, filename and metadata |
| Parser.ParseFailsExactly | flask-backend/scraper/parsers/parser.py:98-110 | parsing fails exactly when there is no download, PyMuPDF raises, or there are no pages or one empty page; the metadata never decides it |
| Parser.ProcessedIdsCount | flask-backend/scraper/parsers/parser.py:132-133 | a positive max_docs keeps the first min(max_docs, n) ids; a falsy one keeps all |
| Parser.ParseWithKeepsId | flask-backend/scraper/parsers/parser.py:118-119 | a parsed document carries the id it was asked for |
| Parser.ParsedOfFromIds | flask-backend/scraper/parsers/parser.py:146-148 | every parsed document is the parse of one of the batch's ids |
| Parser.FailedOf | flask-backend/scraper/parsers/parser.py:149-151 | every failed id is one whose parse returned None |
| Parser.ParsedFailedPartition | flask-backend/scraper/parsers/parser.py:141-151 | each processed id lands in exactly one of the two lists (counts and multisets) |
| Parser.ParsedFailedKeepOrder | flask-backend/scraper/parsers/parser.py:141-151 | both lists keep input order |
| Parser.UpToIsOf | flask-backend/scraper/parsers/parser.py:141-151 | sorting the ids one at a time gives the two lists of the whole prefix |
| Parser.ParseMultiplePdfs | flask-backend/scraper/parsers/parser.py:127-160 | the loop returns exactly the parsed documents and the failed ids of the processed ids |
| Summarizer.SummarizeDocument | flask-backend/scraper/summarizer.py:19-79 | a result is a summary iff the model returned text; the summary is the trimmed reply, with its lengths and ratio; otherwise the error message |
| Summarizer.SummaryIsStrippedReply | flask-backend/scraper/summarizer.py:59 | the summary is the stripped reply, and summarising it again gives it back |
| Summarizer.BlankReplyFails | flask-backend/scraper/summarizer.py:59-113 | a whitespace-only reply yields an empty summary, which goes to the failures |
| Summarizer.ResultsAt | flask-backend/scraper/summarizer.py:99-106 | result k is the summary of document k from call k + 1 |
| Summarizer.Accepted | flask-backend/scraper/summarizer.py:108-109 | every accepted result has a non-empty summary |
| Summarizer.Rejected | flask-backend/scraper/summarizer.py:111-112 | no rejected result has a non-empty summary |
| Summarizer.AcceptedRejectedPartition | flask-backend/scraper/summarizer.py:99-117 | every result lands in exactly one list (counts and multisets) |
| Summarizer.AcceptedRejectedKeepOrder | flask-backend/scraper/summarizer.py:99-117 | both lists keep input order |
| Summarizer.UpToIsSorted | flask-backend/scraper/summarizer.py:99-117 | gathering one document at a time sorts the results of the whole prefix |
| Summarizer.DelayBetweenCalls | flask-backend/scraper/summarizer.py:116-117 | n documents cause n - 1 pauses, none for an empty batch |
| Summarizer.EndsWithCall | flask-backend/scraper/summarizer.py:116-117 | the batch ends with its last call, not a pause |
| Summarizer.SummarizeMultipleDocuments | flask-backend/scraper/summarizer.py:81-125 | the loop returns the accepted and rejected results in order, and its trace alternates calls and pauses |
| SummaryStore.OriginalUrl | flask-backend/database.py:34 | the URL is the FileStream address followed by the id |
| SummaryStore.OriginalUrlInjective | flask-backend/database.py:34 | two ids never share an original_url |
| SummaryStore.Merge | flask-backend/database.py:46-49 | the sent columns overwrite, the other stored columns are kept |
| SummaryStore.UpsertKeepsIndexed | flask-backend/database.py:46-49 | an upsert never creates a second row for an id |
| SummaryStore.UpsertIdempotent | flask-backend/database.py:46-49 | upserting the same record twice is upserting it once |
| SummaryStore.UpsertTouchesOneRow | flask-backend/database.py:46-49 | only the record's own row changes, and it holds the sent columns |
| SummaryStore.Selected | flask-backend/database.py:113 | `.eq('document_id', v)` returns at most as many rows as stored |
| SummaryStore.SelectedOfIndexed | flask-backend/database.py:113 | in the table the filter finds exactly the row stored under the id |
| SummaryStore.NewestFirst | flask-backend/database.py:98 | row k of the listing is the k-th newest created row |
| SummaryStore.LaterEntryWins | flask-backend/database.py:76-78 | the dict comprehension keeps the last entry of each id |
| SummaryStore.LastByIdKeys | flask-backend/database.py:76-78 | the lookup holds exactly the listed ids |
| SummaryStore.UpsertAllKeepsIndexed | flask-backend/database.py:80-86 | a batch of upserts keeps the table indexed and stores every saved id |
| SummaryStore.StateAfterIsUpsertAll | flask-backend/database.py:80-86 | applying results one by one is upserting the saved records in order |
| SummaryStore.SavedAreTheSuccesses | flask-backend/database.py:80-86 | a failure does not stop the batch: every success is saved |
| SummaryStore.SavedCountsSuccesses | flask-backend/database.py:85-86 | the number saved is the number of calls that returned a record |
| SummaryStore.SummaryTable.Upsert | flask-backend/database.py:46-49 | a failed request changes nothing; otherwise the table becomes the upserted state and stays indexed |
| Database.Digits | flask-backend/database.py:41 | the zero-padded rendering has w digits |
| Database.DigitsRoundTrip | flask-backend/database.py:41 | reading the digits back gives the number |
| Database.FormatDate | flask-backend/database.py:41 | `strftime('%Y-%m-%d')` gives ten characters with dashes at 4 and 7 and digits elsewhere |
| Database.FormatDateRoundTrip | flask-backend/database.py:41 | the stored date text parses back to the meeting date |
| Database.RecordFor | flask-backend/database.py:29-43 | None iff document_id or summary is missing; otherwise the record's columns, title fallback and optional date |
| Database.RecordReadsBack | flask-backend/database.py:34-41 | the stored URL gives back the id and the stored date gives back the meeting date |
| Database.SaveSummaryToDatabase | flask-backend/database.py:18-56 | the record on success, None on a missing key or a store failure; the table changes only on success |
| Database.MetadataLaterEntryWins | flask-backend/database.py:76-78 | for a repeated id the later metadata entry is used |
| Database.SaveOne | flask-backend/database.py:81-84 | a save returns a record iff the call succeeds and the summary is present, keyed by the summary's id |
| Database.SaveResultsAt | flask-backend/database.py:80-84 | result k is what saving summary k returns |
| Database.SaveNext | flask-backend/database.py:80-86 | one loop pass reports success and applies exactly that save to the table |
| Database.SaveMultipleSummaries | flask-backend/database.py:58-93 | the count is the number of successes and the table is the old one with the saved records upserted in order |
| Database.GetAllSummaries | flask-backend/database.py:95-108 | newest first, cut at a positive limit, all rows for a falsy limit, [] on failure |
| Database.GetSummaryByDocumentId | flask-backend/database.py:110-118 | the first row with that id, None when there is none or the query fails |
| Database.GetSummaryFindsStoredRow | flask-backend/database.py:110-118 | in the table the lookup returns exactly the row stored under the id |
| ServicesDatabase.RecordFor | flask-backend/services/database.py:29-43 | None iff document_id, filename or summary is missing; otherwise the columns, raw_text with a document, and meeting_title with non-empty metadata |
| ServicesDatabase.SaveWithoutDocumentKeepsText | flask-backend/services/database.py:39-49 | a later save without the document keeps the stored raw_text |
| ServicesDatabase.SaveSummaryToDatabase | flask-backend/services/database.py:18-56 | the record on success, None on a missing key or a store failure; the table changes only on success |
| ServicesDatabase.DocumentLaterEntryWins | flask-backend/services/database.py:76-78 | for a repeated id the later full document is used |
| ServicesDatabase.SaveOne | flask-backend/services/database.py:81-84 | a save returns a record iff the call succeeds and filename and summary are present |
| ServicesDatabase.SaveResultsAt | flask-backend/services/database.py:80-84 | result k is what saving summary k returns |
| ServicesDatabase.SaveNext | flask-backend/services/database.py:80-86 | one loop pass reports success and applies exactly that save |
| ServicesDatabase.SaveMultipleSummaries | flask-backend/services/database.py:58-93 | the count is the number of successes and the table is the old one with the saved records upserted in order |
| ServicesDatabase.CheckIfDocumentExists | flask-backend/services/database.py:130-139 | true iff the query succeeds and some row has the id |
| ServicesDatabase.CheckFindsStoredRow | flask-backend/services/database.py:130-139 | in the table a document exists iff a row is stored under its id |
| Orchestrator.InsertPermutes | flask-backend/scraper/orchestrator.py:27 | inserting loses and adds nothing |
| Orchestrator.InsertSorted | flask-backend/scraper/orchestrator.py:27 | inserting into a sorted list keeps it sorted |
| Orchestrator.SortByIdDescSortsAndPermutes | flask-backend/scraper/orchestrator.py:27 | the sort orders by integer id, largest first, and is a permutation |
| Orchestrator.SelectRecentTakesNewest | flask-backend/scraper/orchestrator.py:27-28 | the selection is a sorted prefix of min(n, max_documents) documents, or min(n, 30) without a limit |
| Orchestrator.DocumentIdsOf | flask-backend/scraper/orchestrator.py:29 | id k is the id of document k |
| Orchestrator.PreparedAll | flask-backend/scraper/orchestrator.py:47-50 | document k is prepared from parsed document k without a limit |
| Orchestrator.PreparedKeepsDocuments | flask-backend/scraper/orchestrator.py:47-50 | preparing keeps id, filename and metadata and cleans the text |
| Orchestrator.SummariesAreOfParsedDocuments | flask-backend/scraper/orchestrator.py:54-59 | every returned summary is about a parsed document |
| Orchestrator.SummaryDataKeyed | flask-backend/scraper/orchestrator.py:66 | the summaries handed to the save step all carry a document_id |
| Orchestrator.PreparedUpToIsAll | flask-backend/scraper/orchestrator.py:47-50 | preparing one document at a time prepares all of them in order |
| Orchestrator.PrepareAllForLlm | flask-backend/scraper/orchestrator.py:47-51 | the loop returns every parsed document prepared, in order |
| Orchestrator.RunCompletePipeline | flask-backend/scraper/orchestrator.py:12-74 | the early returns for nothing discovered or parsed; otherwise prepared documents, summaries only when summarize is set, and the store changed only when saving is on and there are summaries |

## Left out

- Network, PDF and model calls are oracles. `requests`, PyMuPDF (`fitz`) and the Gemini client are not modelled. Their results are parameters: a portal response per DocumentId, a model reply per call, a failure flag per store call. `fetchPdfFromUrl` and `extractMetadataFromPdfBytes` are therefore only the `body` and `metadata` fields of that response.
- Console output (`print`) is not modelled.
- `time.sleep(delay)` is modelled as a `Pause` event in a trace. The duration of the delay is not modelled.
- The wording of the Gemini prompt is not modelled. The reply to a call is an oracle.
- Summarizer.SummarizeDocument: `compression_ratio` is kept as the two lengths it is computed from, because the rounded float quotient is floating point.
- `customPromptSummary`, `testGeminiConnection` and `listAvailableModels` in summarizer.py are not modelled. They are diagnostics outside the pipeline.
- `getRecentSummaries` (both variants) and `testDatabaseConnection` are not modelled. The first needs a clock and SQL interval arithmetic; the second is a diagnostic.
- `getAllSummaries` and `getSummaryByDocumentId` in services/database.py are not modelled separately. Their code is identical to the database.py versions, which are modelled.
- `created_at` is set by the database. The model keeps only the order in which rows were created.
- Database.GetAllSummaries: a negative limit, which the service refuses, is modelled as an empty result.
- Database.FormatDate: years below 1000 are rendered with four zero-padded digits. Python's `strftime('%Y')` may render them without padding on some platforms.
- Parser.DigitRun: `\d` is modelled as the ASCII digits 0-9. Python's `\d` on a str pattern matches every Unicode decimal digit, so the source removes a footer such as "Page ٣ of ٤" that the model keeps.
- Orchestrator.Key: `int(document_id)` is modelled for ids of ASCII decimal digits only, and the model requires such ids. `int()` also accepts ids the model excludes: surrounding whitespace (" 12"), a sign ("+12", "-3"), underscores between digits ("1_2") and Unicode decimal digits. An id `int()` rejects makes it raise, and the pipeline does not catch that.
- `scrapeMultiplePages` is imported by orchestrator.py but not defined in `fetch.py`. The list it returns is a parameter of Orchestrator.RunCompletePipeline.
- Fetch.ScrapePage: the source function returns None and only prints the links. The model returns the collected list. Downloading and parsing the HTML page is left out: the input is the href of every anchor that has one.
- The `save_to_file` argument of `runCompletePipeline` is accepted and unused, as in the source.
- The `__main__` blocks and `flask-backend/server.py` are not part of this model.
- Orchestrator.SortByIdDesc: it is proved sorted and a permutation. Stability (equal ids keep their discovery order) is not proved.
- Database.SaveMultipleSummaries: a summary without `document_id` makes line 81 (`summary['document_id']`, outside the `try`) raise `KeyError`, which aborts the whole batch. The model requires every summary to carry an id instead; the pipeline's own call meets this (Orchestrator.SummaryDataKeyed). The comprehension at line 78 fails the same way for a metadata record without `document_id`; the model's MeetingRecord always has one.
- ServicesDatabase.SaveMultipleSummaries: the same `KeyError` at line 81 of services/database.py is excluded by the same precondition, and the lookup at line 78 is built from ParsedDocument values, which always carry an id.
- SummaryStore.SummaryTable.Upsert: a failed request is assumed to change nothing. A request that the server commits but whose response then fails would have written the row; that case is not modelled.
- Parser.CleanText: idempotence is not claimed, because the code does not have it (see Parser.CleanTextNotIdempotent).

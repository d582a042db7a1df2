# Supabase Notifier: a verified model of its core

Supabase Notifier is a small Flask dashboard over a Supabase `contacts` table.
- A daily job e-mails the number of contact messages submitted in the last 24 hours.
- A browser page lists the contacts as an infinitely scrolling, searchable, sortable table.

This project models the parts of the system that carry logic, and proves the
properties they are meant to have.

**Browser script** (`static/script.js`):
- `escapeHtml`, `highlightMatch` and `truncateMessage` are modelled as functions on strings (modules `HtmlEscape`, `Highlight`, `Truncate`).
- The defaults `getFilters` applies are modelled in `ClientFilters`.
- The pagination state machine is modelled in `Pagination`. The module-level `currentPage`, `isLoading` and `hasMore` and the table body are the fields of the class `ContactList`.
  - `resetAndLoad` is a method of that class.
  - `loadContacts` is split at its `await` into two methods. `BeginLoad` covers the guard, claiming the loader and the request. `FinishLoad` covers the response and `finally`. It builds the rows with `BuildRows`, the `forEach` loop.
  - The fetch result is an input of `FinishLoad`.
  - Pure functions `Started`, `Finished` and `Reset` specify the three transitions. The lemmas are stated over them.

**Server** (`app.py`):
- `get_contacts` turns its query-string arguments into a description of the Supabase query (module `ContactsQuery`). The query covers:
  - the table;
  - the `or_`, `gte` and `lte` filters;
  - the order;
  - the inclusive row range.

  It also turns them into the error the endpoint answers with when `int()` fails. The method `BuildQuery` makes the successive `query = query...` updates.
- `send_email`'s choice of subject and body, and `check_new_entries`' `count > 0` decision, are in `Notifier`.
- The `CONFIG` dictionary is modelled as a list of entries in `Config`. It is built from an environment record, and `int()` can fail. The start-up check loops over the entries (`ValidateConfig`).

**Shared parts:**
- `Text` has the string helpers both sides use:
  - ASCII trimming, as `trim()` and `strip()` do it;
  - ASCII case folding;
  - decimal printing;
  - Python's `int()` on strings, with surrounding whitespace, an optional sign and `_` digit separators.
- `Wrappers` has `Option` and `Result`.
  - JavaScript `null`/`undefined` and a missing query argument or environment variable are `None`.
  - A value is falsy when it is `None` or `Some("")`.

To state what the user *sees*, `Highlight.Render` models how a browser displays markup in this vocabulary:
- tags are not shown;
- the five entities, each written out in full with its `;`, are shown as their characters;
- every other character is shown as itself. This includes `&` when it does not begin a complete entity.

## Model

| member | source | states |
|---|---|---|
| Text.Trim | static/script.js:102 | the result neither starts nor ends with whitespace, and it is empty exactly when the input is all whitespace |
| Text.TrimIsInfix | app.py:131 | a non-empty trimmed string is the contiguous part of the input that starts after the leading whitespace |
| Text.TrimRemovesSpaces | app.py:131 | everything removed before and after the trimmed string is whitespace |
| Text.TrimUnpadded | app.py:131 | trimming a string that does not begin or end with whitespace leaves it unchanged, so trimming twice is trimming once |
| Text.TrimEmpty | app.py:131 | the trimmed string is empty exactly when the input is all whitespace |
| Text.GetOr | app.py:138-139 | `get(key, default)`: the stored value whenever the key is present, even when it is empty, and the default only when it is absent |
| Text.FoldEqIsLowerEq | static/script.js:80 | comparing ignoring case (the `i` flag) is the same as comparing the lower-cased strings |
| Text.NatToStringValue | app.py:81 | the decimal numeral of `n` has value `n` |
| Text.IntRoundTrip | app.py:132 | `int()` applied to the numeral `URLSearchParams` writes for a number gives that number back |
| Text.IntToStringInjective | app.py:81-82 | different counts are written as different numerals |
| HtmlEscape.EscapeHtml | static/script.js:89-97 | `null`/`undefined` give `''`; any string is escaped character by character |
| HtmlEscape.ChainIsCharwise | static/script.js:91-96 | the chain of five `replace` calls, `&` first, equals escaping each character on its own |
| HtmlEscape.EscapeStringAppend | static/script.js:91-96 | escaping a concatenation is the concatenation of the escapings |
| HtmlEscape.EscapeHasNoMarkup | static/script.js:89-97 | the output never contains `<`, `>`, `"` or `'` |
| HtmlEscape.EscapeAmpersandsBeginEntities | static/script.js:92-96 | every `&` in the output begins `&amp;`, `&lt;`, `&gt;`, `&quot;` or `&#039;` |
| HtmlEscape.EscapeRoundTrip | static/script.js:91-96 | decoding the five entities in `escapeHtml(t)` gives back `t` |
| HtmlEscape.EscapeInjective | static/script.js:91-96 | different strings escape to different strings |
| HtmlEscape.AmpersandLastBreaksRoundTrip | static/script.js:92 | with `&` replaced last instead of first, `<` would become `&amp;lt;`, which decodes to `&lt;` and not to `<` |
| HtmlEscape.UnescapeDoubleEscaped | static/script.js:92 | the doubly escaped `&amp;lt;` decodes to `&lt;` |
| Highlight.HighlightFalsyArguments | static/script.js:75 | an empty or missing query gives `escapeHtml(text)`; an empty or missing text gives `''` |
| Highlight.StripHighlight | static/script.js:74-86 | deleting every `<mark>` and `</mark>` from `highlightMatch(text, q)` yields exactly `escapeHtml(text)` |
| Highlight.HighlightSpans | static/script.js:78-81 | the marked and unmarked pieces spell the escaped text; every marked span equals the escaped query up to case; some span is marked exactly when the escaped query occurs in the escaped text; no occurrence begins where an unmarked character stands, so every leftmost non-overlapping occurrence is marked (the `g` flag) |
| Highlight.ScanCovers | static/script.js:81 | the global replace leaves the text between matches as it is: the pieces concatenate to the scanned string |
| Highlight.ScanHitsMatch | static/script.js:80-81 | every marked piece equals the query ignoring ASCII case |
| Highlight.ScanFindsOccurrence | static/script.js:80-81 | the scan marks something exactly when the query occurs in the string ignoring case |
| Highlight.ScanMissesNothing | static/script.js:80-81 | the global replace skips no occurrence: the query does not occur at the position of any unmarked character |
| Highlight.StripEmit | static/script.js:81 | removing the tags from the emitted pieces gives back their text when that text holds no `<` |
| Highlight.HighlightSplitsEntity | static/script.js:78-81 | as written: for the text `x<y` and the query `lt` the output is `x&<mark>lt</mark>;y`, which displays as `x&lt;y` and not as the text |
| Highlight.HighlightFixedShowsText | static/script.js:74-86 | as intended: the corrected highlighter displays exactly the text, strips to `escapeHtml(text)`, and marks only spans equal to the query up to case |
| Highlight.RenderEmitEscaped | static/script.js:81 | pieces escaped one by one and tagged display as their text |
| Highlight.StripEmitEscaped | static/script.js:81 | pieces escaped one by one and tagged, with tags deleted, are the escaped text |
| Truncate.TruncateMessage | static/script.js:204-207 | falsy gives `''`; a message of at most `length` characters is returned unchanged; a longer one becomes its first `length` characters followed by `...`; the result never exceeds `length + 3` |
| Truncate.TruncateKeepsPrefix | static/script.js:206 | what is shown before the ellipsis is a prefix of the message |
| Truncate.TruncateIdempotent | static/script.js:204-207 | truncating a truncated message changes nothing |
| Truncate.TruncateDistinguishes | static/script.js:206 | two messages truncate alike exactly when both fit and are equal, or both are too long and share the first `length` characters |
| ClientFilters.OrElse | static/script.js:103-106 | `v \|\| fallback`: the value when it is truthy, the fallback otherwise |
| ClientFilters.SearchIsTrimmed | static/script.js:102 | the search term is empty exactly when the box is missing or holds only whitespace, and otherwise neither starts nor ends with whitespace |
| ClientFilters.SortNeverEmpty | static/script.js:105-106 | the sort column and order are the control values when truthy, otherwise `submitted_at` and `desc`, so never empty |
| ClientFilters.NoControlsDefaults | static/script.js:100-108 | with no controls on the page the filters are `''`, `''`, `''`, `submitted_at`, `desc` |
| ContactsQuery.IntArg | app.py:132-133 | a missing argument gives the default; a present one is `int()` of it; when `int()` fails, the error carries the rejected text |
| ContactsQuery.ClampPage | app.py:132 | the normalised page is at least 1 and equals the argument when that is at least 1 |
| ContactsQuery.ClampLimit | app.py:133 | the normalised limit lies in 1..50, equals the argument inside that range, and is 1 below it and 50 above it |
| ContactsQuery.Offset | app.py:134 | the offset is never negative |
| ContactsQuery.OffsetIsWholePages | app.py:134 | the offset is a multiple of the limit: exactly `page - 1` whole pages |
| ContactsQuery.RowRange | app.py:160 | the inclusive range starts at the offset and spans exactly `limit` rows |
| ContactsQuery.ConsecutiveRangesAdjoin | app.py:160 | the next page's range starts right after this page's range ends |
| ContactsQuery.RowInExactlyOnePage | app.py:160 | row `i` lies in the range of page `p` exactly when `p = i / limit + 1` |
| ContactsQuery.PagesAreDisjoint | app.py:160 | no row lies in the ranges of two different pages |
| ContactsQuery.SearchFilterIffTerm | app.py:131-148 | the `or_` filter is present exactly when the stripped search term is non-empty, and then it is built from that term |
| ContactsQuery.StartDateBound | app.py:151-152 | a lower bound `dT00:00:00Z` on `submitted_at` is present exactly when a start date `d` is given, and there is no other |
| ContactsQuery.EndDateBound | app.py:153-154 | an upper bound `dT23:59:59Z` on `submitted_at` is present exactly when an end date `d` is given, and there is no other |
| ContactsQuery.SortOrderIsDescendingIff | app.py:138-157 | the order is descending exactly when the lower-cased sort order is `desc`; with neither argument it is `submitted_at` descending |
| ContactsQuery.ErrorsAreBadIntegers | app.py:132-166 | the request fails exactly when `page` or `limit` is given and is not an integer; a bad `page` is reported first |
| ContactsQuery.RangeIsOnePage | app.py:132-160 | a successful query asks for between 1 and 50 rows, starting at a non-negative multiple of that count |
| ContactsQuery.BuildQuery | app.py:142-160 | the successive builder updates produce the query `QueryFor` specifies (its range is one page by RangeIsOnePage); it succeeds exactly when both integers parse |
| ContactsQuery.QueryRange | app.py:132-160 | for a page `p >= 1` and a limit `l` in 1..50 the range is `[(p-1)*l, (p-1)*l + l - 1]` |
| Notifier.EmailContent | app.py:77-82 | a test mail has the fixed test subject and body; otherwise subject and body are the notification texts for `count` |
| Notifier.TestIgnoresCount | app.py:77-79 | the test mail is the same whatever the count |
| Notifier.NotificationSubjectInjective | app.py:82 | the subject determines the count |
| Notifier.NotificationBodyInjective | app.py:81 | the body determines the count |
| Notifier.NotificationIsNotTest | app.py:77-82 | a notification never carries the test subject |
| Notifier.DailyCheck | app.py:66-70 | a mail is sent exactly when the count is positive, and it is the notification for that count |
| Notifier.TestEmailRequest | app.py:117 | the test endpoint sends the fixed test mail |
| Config.IntSetting | app.py:32-34 | an unset variable gives the default; a set one is `int()` of it; a value `int()` rejects stops start-up with an error carrying that text |
| Config.Entries | app.py:24-35 | `CONFIG` has ten entries whose keys are `SUPABASE_URL` … `PAGE_SIZE`, in the order the literal lists them |
| Config.LoadConfig | app.py:24-35 | building `CONFIG` succeeds exactly when `SMTP_PORT`, `DAILY_REPORT_HOUR` and `PAGE_SIZE` are absent or parse as integers |
| Config.ValidateConfig | app.py:38-40 | the loop reports nothing exactly when no entry is refused, and otherwise it reports the key of the first refused entry |
| Config.FirstRejected | app.py:38-40 | there is no refused key exactly when no entry is falsy outside the three exempt keys |
| Config.FirstRejectedAfter | app.py:38-40 | the key reported is the first falsy non-exempt one |
| Config.Startup | app.py:24-40 | start-up fails on a bad integer, then on the first missing variable, and otherwise yields `CONFIG` |
| Config.RejectedIffRequiredMissing | app.py:37-40 | validation fails exactly when one of the five required variables is unset or empty or the page size is 0; the SMTP settings and report hour never make it fail |
| Config.PageSizeZeroIsRejected | app.py:34-40 | with every required variable set, `PAGE_SIZE=0` is refused, naming `PAGE_SIZE` |
| Pagination.DataOf | static/script.js:149 | a missing or `null` `data` reads as no contacts |
| Pagination.RowsFor | static/script.js:169-181 | one row per contact, in the order received |
| Pagination.RowShowsContact | static/script.js:172-179 | with the marks removed, the name, e-mail and message cells of the row as written are their escaped fields (the message truncated), and the tooltip is the whole escaped message |
| Pagination.CorrectedRowShowsContact | static/script.js:172-179 | as intended: a row built with the corrected highlighter displays exactly the name, the e-mail and the truncated message, and keeps the stripped-marks and tooltip facts |
| Pagination.RequestFor | static/script.js:120-140 | a request is sent exactly when no load runs and more rows may exist, and it asks for the current page with `limit = 10` and the current filters |
| Pagination.ContactList.constructor | static/script.js:1-4 | the state starts at page 1, not loading, more expected, table empty |
| Pagination.ContactList.BeginLoad | static/script.js:119-142 | the guard and the claim of the loader: the new state and the request are those the transition specifies; the requested page is at least 1, so the server's `max(1, page)` leaves it unchanged |
| Pagination.BuildRows | static/script.js:166-181 | the loop builds one row per contact, in order, equal to `RowsFor` |
| Pagination.ContactList.FinishLoad | static/script.js:148-200 | the new state is the one `Finished` specifies for the outcome, the appended rows coming from the loop |
| Pagination.ContactList.ResetAndLoad | static/script.js:111-117 | page 1, more expected, table emptied, then a guarded load |
| Pagination.GuardedLoad | static/script.js:120-122 | a refused load sends nothing and changes nothing; an accepted one only sets `isLoading`, so a second load is refused until it finishes |
| Pagination.FinishClearsLoading | static/script.js:196-197 | after every outcome `isLoading` is false again, so the next load is refused only when the list has ended |
| Pagination.NonEmptyPageAppends | static/script.js:166-185 | a non-empty page keeps the old rows, appends one row per contact in order, advances the page, and leaves more expected exactly when the page was full |
| Pagination.EmptyPageEndsList | static/script.js:154-164 | an empty page ends the list without moving the page; it replaces the table by the "no results" row on page 1 only |
| Pagination.FailureKeepsCursor | static/script.js:187-195 | a failure keeps the page and `hasMore`, leaves only the error row, and the next load retries the same page |
| Pagination.NoTableKeepsCursor | static/script.js:152 | without the table element a response changes nothing but `isLoading` |
| Pagination.ResetRequestsFirstPage | static/script.js:111-117 | after a reset the table is empty and page 1 is requested, unless a load is still in flight |
| Pagination.EndedStaysEnded | static/script.js:120 | once the list has ended, any number of further loads change nothing |
| Pagination.InitialShowsNothing | static/script.js:1-4 | initially the table shows exactly the (no) contacts loaded |
| Pagination.StepKeepsShows | static/script.js:119-201 | a successful load of at most 10 contacts keeps the table equal to the rows of all contacts loaded so far |
| Pagination.RowsForAppend | static/script.js:169-183 | the rows of two batches are the rows of the first batch followed by the rows of the second |
| Pagination.BrowsingShowsLoaded | static/script.js:119-201 | over any sequence of successful loads the table shows exactly the concatenation of the pages received, in order |
| Pagination.NextRequestContinues | static/script.js:132-140 | while more rows may exist, the next request makes the server ask for the rows starting right after those shown, one page of them |
| Pagination.SearchReachesServer | static/script.js:102 | the server's search filter is built from the client's term unchanged, because stripping an already trimmed term keeps it |

## Left out

- DOM work is not modelled: `innerHTML`, the document fragment, the loader, the page label, the theme toggle, `localStorage` and the clock. The table is an abstract sequence of rows. A contact row keeps its cell strings and leaves the time stamp unformatted.
- `formatDateTime` and `toLocaleString` are not modelled, because their output depends on the locale and the host.
- `fetch`, `response.json()` and the test-mail button are network I/O. The outcome of a load is an input. Any thrown error before the rows are built is the one outcome `Failed`.
- A `null` element inside `data`, or a `data` that is not an array, is not modelled. In the browser it would throw inside the `forEach` and end in the error row.
- `debounce`, the scroll throttle, and the interleaving of a second load with a response from before a reset are not modelled. They depend on timers and on the event loop.
- The `RegExp` built by `highlightMatch` and its `catch` are not modelled. Matching is leftmost, non-overlapping and ignores ASCII case. That is what the metacharacter-escaped pattern with the `gi` flags does on these strings.
- Trimming, case folding and `int()` are ASCII-only here. `trim()`, `strip()`, `lower()` and `int()` also accept other Unicode whitespace, letters and digits. Python's `strip()` also removes `\x1c`-`\x1f`.
- Dafny strings count characters. JavaScript's `length` and `substring` count UTF-16 code units.
- Truncate.TruncateMessage: `length` is a natural number. The script only uses the default 100, and a negative `length` is not modelled.
- The Supabase client, `smtplib`, the `BackgroundScheduler` job, `datetime.utcnow()`, Flask routing and `jsonify` are foreign services.
  - The database is not modelled. The query is a description of the filters.
  - The count of new entries is an input of `DailyCheck`.
  - The e-mail's `From`/`To` headers and the SMTP login are not modelled.
- The wire format is not modelled. The server answers a bare list, while the script reads `result.data`. The model does not connect the two JSON shapes. `NextRequestContinues` relates only the query string the script sends to the range the server computes.
- Highlight.Render decodes an entity only when it is complete with its `;`. Browsers also decode the legacy references `&lt`, `&gt`, `&amp` and `&quot`, and a numeric reference like `&#039`, without the `;`. For such markup, `Render` shows what it leaves undecoded. The example under Findings contains none of these.
- ContactsQuery.IntArg: the error keeps only the rejected text. The endpoint answers status 500 with `{"error": str(e)}`, and neither the status nor Python's message wording is modelled.
- Config.IntSetting: the `ValueError` message wording is abstracted to the rejected text.
- Logging is not modelled: the `console.error` calls of the script and the `logger` calls of the server. They write to the log and change nothing else.
- Load failure follows the code, not the stated design. The design says the error row replaces the table only on the first page. The code replaces it on every page, whenever the table exists (static/script.js:189-195).

## Findings

| source | as written | input that shows it | evidently intended | confidence | as-written member | corrected member |
|---|---|---|---|---|---|---|
| static/script.js:78-81 | the query is escaped and matched inside the already escaped text, so a match can fall inside an entity that escaping produced | text `x<y`, query `lt`: the output is `x&<mark>lt</mark>;y`, which the browser displays as `x&lt;y` | highlight occurrences of the query in the text the user sees, then escape; the displayed text is unchanged | not executed | Highlight.HighlightSplitsEntity | Highlight.HighlightFixedShowsText |

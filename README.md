# Invoice parts matcher: client state controller

This project models the state controller of the part-matching web page in
`src/App.jsx`. The page lists uploaded PDF documents. For a chosen document it
asks the backend to batch-match the document's line items to parts, then shows
the results under two sub-tabs, Matched and Unmatched. It also has a free-text
search that matches one description to one part. The backend does all the
real work. The client keeps a handful of state fields, runs four request
flows, shows a notification, and derives what is enabled and what is shown.

The model has six modules:

- `Types` (types.dfy): the values in the state. These are documents,
  batch-match and single-match replies, the snackbar, the reply of a backend
  call (`Reply<T> = Ok(data) | Failed`) and the requests the client issues.
- `Text` (text.dfy): JavaScript's `trim`, which decides whether a query is blank.
- `Results` (results.dfy): the sub-tab filter, the label counts, sub-tab
  enablement and the sub-tab chosen for new results.
- `Search` (search.dfy): the 0.6 confidence threshold, the search card and
  the enablement of the search button.
- `Documents` (documents.dfy): the per-row busy spinner.
- `Controller` (app.dfy): class `App`. It holds the component's state fields.
  Each handler is a method that may change only the fields its `modifies`
  clause names. Its `ensures` give the new value of every one of those fields.

Each flow that awaits the backend is one atomic step. The step marks the flow
as loading, records the request in the ghost field `sent`, takes the settled
reply as a parameter, and applies it. `loading` is reset at the end, as the
source's `finally` blocks do. A successful upload starts a document refresh
without awaiting it. `HandleFileUpload` models that refresh as one following
`FetchDocuments` step, whose reply is a second parameter.

The mount effect (src/App.jsx:150-152) is a `FetchDocuments` call made right
after the constructor.

`App.Valid()` is the object invariant. The constructor establishes it and every handler preserves it. It says the
active top-level tab is an enabled one. It also says the active result sub-tab
is an enabled one whenever the results are non-empty.

Choosing a file in the upload control is `ChooseFile`. It is the browser's
update of the control (src/App.jsx:195-200), which then fires
`HandleFileUpload`.

`SelectTab` and `SelectSubTab` model the inline `onChange` handlers of the two
tab strips. Each requires its target to be enabled. The tab component never
reports a change to a disabled tab, so callers always meet this requirement.

The model follows the code as written, including these points:

- A failed batch match leaves `selectedDocument` set to the document. It is
  set before the request and is never reset.
- A new notification replaces the old one (src/App.jsx:132-134).
- The batch-match handler does not check that the id belongs to a listed
  document.
- Upload with no file returns before the `try`. So it also leaves the file
  control as it was.

## Model

| member | source | states |
|---|---|---|
| `Text.IsBlank` | src/App.jsx:111 | `!searchQuery.trim()`: the query is blank when trimming leaves the empty string; `Text.BlankIffAllWhitespace` proves this holds exactly when every character is whitespace |
| `Text.TrimStart` | src/App.jsx:111 | the result is no longer than the input; it is empty or starts with a non-whitespace character; everything it dropped is whitespace |
| `Text.TrimEnd` | src/App.jsx:111 | the result is no longer than the input; it is empty or ends with a non-whitespace character; everything it dropped is whitespace |
| `Text.Trim` | src/App.jsx:111 | `trim` returns a contiguous slice of the query, with whitespace only outside it and at neither end of it |
| `Text.BlankIffAllWhitespace` | src/App.jsx:111 | `!q.trim()` holds exactly when every character of the query is JavaScript whitespace |
| `Results.Filter` | src/App.jsx:292-297 | the filtered list is no longer than the results, holds only results with the wanted flag, and holds nothing the results lack (a sub-multiset) |
| `Results.SubTabsPartition` | src/App.jsx:313-314 | as multisets, the Matched rows plus the Unmatched rows equal the results; the two label counts add up to the number of results |
| `Results.SubTabsDisjoint` | src/App.jsx:313-314 | a result is listed under Matched exactly when it is a result with `matched` true, and under Unmatched exactly when it is one with `matched` false |
| `Results.RowsKeepOrder` | src/App.jsx:313-314 | each sub-tab's rows are a subsequence of the results, in the backend's order |
| `Results.EnabledIffCountPositive` | src/App.jsx:291-298 | a sub-tab is enabled (`some`) exactly when the count in its label (`filter(...).length`) is positive |
| `Results.DefaultSubTabIsEnabled` | src/App.jsx:142-147 | the chosen sub-tab is Matched exactly when some result is matched, Unmatched otherwise; with at least one result it is always enabled; with none, no sub-tab is enabled |
| `Search.PartText` | src/App.jsx:401 | the placeholder text appears exactly when the part description is absent or empty (or is itself the placeholder); any other text shown is the reply's description |
| `Search.FoundIffConfident` | src/App.jsx:375-487 | a reply is shown as MATCH FOUND exactly when `Matched` is "Yes" and the score is at least 0.6; otherwise it shows the no-match notice, and any reply shows a card |
| `Search.ThresholdMonotone` | src/App.jsx:375 | raising the score of a confident match keeps it confident; lowering the score of a rejected reply keeps it rejected |
| `Search.ThresholdExamples` | src/App.jsx:375-401 | "Yes" with 0.55 shows no match; "Yes" with 0.82 and "Widget A" shows MATCH FOUND with "Widget A"; "No" with 0.99 shows no match |
| `Search.SearchButtonEnabledIff` | src/App.jsx:351 | the search button is enabled exactly when nothing is loading and the query has a non-whitespace character |
| `Documents.BusyRowIsTheSelectedOne` | src/App.jsx:248 | with no loading no row spins; while loading, a row spins exactly when its id is the selected document; with distinct ids at most one row spins |
| `Results.RowsFor` | src/App.jsx:313-314 | the rows listed under a sub-tab: matched rows under sub-tab 0, unmatched rows under any other; `Results.SubTabsPartition`, `Results.SubTabsDisjoint` and `Results.RowsKeepOrder` carry its properties |
| `Results.MatchedCount` | src/App.jsx:292 | the count in the "Matched (n)" label; `Results.SubTabsPartition` and `Results.EnabledIffCountPositive` carry its properties |
| `Results.UnmatchedCount` | src/App.jsx:296 | the count in the "Unmatched (n)" label; `Results.SubTabsPartition` and `Results.EnabledIffCountPositive` carry its properties |
| `Results.AnyWith` | src/App.jsx:145 | `matches.some(...)` on the matched flag; `Results.EnabledIffCountPositive` ties it to the label counts |
| `Results.SubTabEnabled` | src/App.jsx:293-297 | the disabled flags of the two sub-tabs; `Results.EnabledIffCountPositive` and `Results.DefaultSubTabIsEnabled` carry its properties |
| `Results.DefaultSubTab` | src/App.jsx:145 | the sub-tab the effect selects for new results; `Results.DefaultSubTabIsEnabled` carries its properties |
| `Search.IsConfidentMatch` | src/App.jsx:375 | the confidence test; `Search.FoundIffConfident` and `Search.ThresholdMonotone` carry its properties |
| `Search.SearchedForText` | src/App.jsx:371 | the placeholder text appears exactly when the invoice description is absent or empty (or is itself the placeholder); any other text shown is the reply's description |
| `Search.PanelFor` | src/App.jsx:358-487 | the search card for the stored reply; `Search.FoundIffConfident` and `Search.ThresholdExamples` carry its properties |
| `Search.SearchButtonEnabled` | src/App.jsx:351 | the search button's enablement; `Search.SearchButtonEnabledIff` carries its properties |
| `Documents.RowBusy` | src/App.jsx:248 | whether a row's button shows the spinner; `Documents.BusyRowIsTheSelectedOne` carries its properties |
| `Documents.BusyRows` | src/App.jsx:234-256 | the set of rows that show the spinner; `Documents.BusyRowIsTheSelectedOne` carries its properties |
| `Controller.TabEnabled` | src/App.jsx:213-215 | only the results tab can be disabled, and it is disabled exactly while there are no results; `Controller.App.Valid` keeps the active tab an enabled one |
| `Controller.App.Valid` | src/App.jsx:208-299 | the active tab is enabled, the sub-tab is 0 or 1, and it is an enabled one whenever there is at least one result; the constructor establishes it and every handler keeps it |
| `Controller.App.ChooseFile` | src/App.jsx:195-200 | the upload control now holds the chosen file; nothing else changes |
| `Controller.App.constructor` | src/App.jsx:41-49 | the initial state: Documents tab, Matched sub-tab, no documents, selection, results or search result, not loading, empty query, closed info snackbar, nothing sent |
| `Controller.App.ShowSnackbar` | src/App.jsx:132-134 | the snackbar becomes open with the given message and severity (info by default); nothing else changes |
| `Controller.App.HandleCloseSnackbar` | src/App.jsx:137-139 | the snackbar closes and keeps its message and severity, so a second close changes nothing; nothing else changes |
| `Controller.App.FetchDocuments` | src/App.jsx:55-63 | one GET is sent; a reply replaces the document list verbatim and leaves the snackbar alone; a failure keeps the list and shows "Error fetching documents" as an error |
| `Controller.App.HandleFileUpload` | src/App.jsx:66-90 | with no file nothing changes. Otherwise loading ends false and the control is cleared. Success sends the upload, then exactly one GET, replaces the list and shows success; if the refresh fails, its error notice wins. Failure sends only the upload, keeps the list and shows "Error uploading file" |
| `Controller.App.ResultsChanged` | src/App.jsx:142-147 | with results, the sub-tab becomes Matched if some result is matched and Unmatched otherwise; without results nothing changes; the invariant holds afterwards |
| `Controller.App.HandleBatchMatch` | src/App.jsx:93-107 | one POST for the id is sent; loading ends false and the document stays selected. A reply is stored verbatim, opens the results tab, selects Matched if any result is matched (else Unmatched) and shows "Matching completed!". A failure keeps the results, tab and sub-tab and shows the error; documents and the search result never change |
| `Controller.App.HandleSearch` | src/App.jsx:110-129 | a blank query sends nothing, keeps the result and `loading`, and shows the warning. Otherwise the untrimmed query is sent once and loading ends false; a reply replaces the result, and a failure keeps it and shows "Error searching for part" |
| `Controller.App.SetSearchQuery` | src/App.jsx:344-345 | the query becomes the field's new text; nothing else changes |
| `Controller.App.SelectTab` | src/App.jsx:208-216 | the active tab becomes the chosen enabled tab, so the results tab opens only once results exist; nothing else changes |
| `Controller.App.SelectSubTab` | src/App.jsx:286-299 | the active sub-tab becomes the chosen enabled sub-tab; nothing else changes |

## Left out

- Page layout, theme, icons and footer (src/App.jsx:154-519): presentation only, with no state.
- The backend calls and the base URL: each reply is a `Reply` parameter, and `sent` records which requests went out. The multipart form encoding of the upload is not modelled; the request records the file.
- Concurrency: the async interleaving of flows and the state batching of the UI framework. Flows run one at a time, so the in-flight state (`loading` true with a document selected) is never seen between two method calls. The busy spinner is therefore stated as a predicate over any state (`Documents.RowBusy`), not as a property reached by the class.
- A second flow started while one is in flight is not modelled. This includes pressing Enter in the search field (src/App.jsx:346), which calls the search handler even while the button is disabled. A blank query is still rejected by `HandleSearch` itself.
- Malformed replies: the model assumes every reply has the documented shape, with a non-null payload. In the source, a `null` document list makes the table's `documents.map` throw (src/App.jsx:234). Results with no `matches` list make the effect and the labels throw (src/App.jsx:145, 292).
- A `null` batch-match payload does not throw. It sets the results to null (src/App.jsx:98) and the tab to 1 (src/App.jsx:99). The effect skips it (src/App.jsx:143) and the results panel renders nothing (src/App.jsx:270), while tab 1 is disabled (src/App.jsx:214). `Reply` cannot carry such a payload, so the model never reaches this state, which `App.Valid()` rules out.
- A `null` search payload stores null and hides the search card (src/App.jsx:358). The model cannot store it either.
- Scores are exact `real`s, but the source compares IEEE doubles (src/App.jsx:375). The two can differ only for a score that rounds to the double 0.6. For example, a score written 0.59999999999999998 parses to that double, so the source counts it as confident and the model does not.
- Percent formatting, rounding and the confidence bar width (src/App.jsx:282, 324, 395, 454, 459): floating-point text formatting. The match summary counts (src/App.jsx:281) are stored and shown as the backend sends them; nothing recomputes them.
- Date rendering (src/App.jsx:238) and the year in the footer: they depend on the locale and the clock.
- The table cell texts of a result row (src/App.jsx:317-324) and the optional search-card fields (src/App.jsx:405-441): fixed placeholders. The only fallbacks modelled are the part description (`Search.PartText`) and the searched-for line (`Search.SearchedForText`).
- The snackbar's 6-second auto-hide timer (src/App.jsx:505): it is driven by a timer. Only the explicit close is modelled. A click-away close calls the same handler.
- Console logging: output only.
- `SelectTab` and `SelectSubTab` require an enabled target. The inline handlers accept any index, but the tab component never reports a disabled tab.

# Indian IT research dashboard — a Dafny model of its core

The dashboard takes a comma-separated list of Indian IT companies. It asks a
search-grounded language model for a research report, shows the report in two
tables, and lets the user copy either table as tab-separated text or download
the whole report as JSON. This project models the deterministic logic of that
dashboard:

- **App**: the controller.
  - It parses the company list: split on commas, trim each segment, drop the empty ones.
  - It keeps a four-field search state (`input`, `loading`, `result`, `error`). Its transitions are submit, success and failure, and a blank list never starts a request.
  - It guards the audit download and builds the download's file name.
- **ResearchClient**: post-processing of one model reply.
  - It cuts out the text from the first `{` to the last `}`. JavaScript's `substring` swaps reversed bounds, and the model keeps that behaviour.
  - It collects the non-empty grounding URIs and removes duplicates. A URI that an earlier chunk provides comes before one first provided later.
  - It replaces absent top-level fields with empty defaults.
  - It passes errors through: an upstream error unchanged, an extraction error as "Invalid JSON response", and a parse error as it is.
- **CompanyTable**:
  - Attribution of a shown value to the first field source whose name contains the column keyword, ignoring case.
  - The missing-value test, and the rule that a source link appears only beside a present value.
  - The 24-column clipboard export.
- **BenchmarkTable**: the 5-column clipboard export and its warning for an empty table.
- **Text**, **Sequences**, **Tsv**: the JavaScript string and array primitives the core relies on, and a reader for tab-separated text.
  - The primitives are `trim`, `split`, `join`, `indexOf`, `lastIndexOf`, `substring`, `toLowerCase`, `includes`, `filter` and `Array.from(new Set(..))`.
  - The reader splits text into lines on LF and into cells on TAB. It makes the exported text's round trip a provable statement.

The remote model call, `JSON.parse`, the clipboard, `alert`, the DOM and the
clock are outside the model:

- The reply arrives as a `Result` value.
- The parser is a function parameter.
- Copy operations return the text they would write, or the warning they would show.
- The current time is passed in as its ISO string.

## Model

| member | source | states |
|---|---|---|
| App.ParseCompaniesEmptyIff | App.tsx:17-20 | no company is found (so no request is made) exactly when the input is made only of commas and whitespace, the empty input included |
| App.ParseCompanies | App.tsx:19 | there is at most one name per comma-separated segment (its exact contents are stated by App.ParseCompaniesNonBlank) |
| App.ParseCompaniesNonBlank | App.tsx:19-20 | the names are the trimmed non-blank segments, in order, so their number is the number of segments that are not all whitespace |
| App.FilterTrimAll | App.tsx:19 | trimming every segment and then dropping the empty results is the same as dropping the blank segments and then trimming |
| App.ParsedNamesBare | App.tsx:19 | every parsed name is non-empty, contains no comma, has no whitespace at either end, and is unchanged by a further trim |
| App.ParseCompaniesConcat | App.tsx:19 | parsing is compositional: the names of `x,y` are the names of `x` followed by the names of `y` |
| App.ParseCompaniesNoBlankSegment | App.tsx:19 | when no comma-separated segment is blank there is exactly one name per segment, namely the trimmed segment |
| App.BlankSegmentsIff | App.tsx:19 | every comma-separated segment is blank exactly when the text consists of commas and whitespace only |
| App.ParseCompaniesSingle | App.tsx:19 | an already trimmed name without commas parses to the one-element list holding it |
| App.ParseCompaniesSpaced | App.tsx:19 | a name typed after a space, as in `TCS, Infosys`, parses to the name without the space |
| App.ParseCompaniesLeadingEmpty | App.tsx:19 | an empty segment in front of the list adds no name |
| App.ParseCompaniesSkipsEmpty | App.tsx:19 | input shaped like `TCS, Infosys,, Wipro` gives exactly the three names: the empty segment between the double comma is dropped and the spaces are trimmed |
| App.ParseCompaniesJoin | App.tsx:19 | joining a non-empty list of such names with commas and parsing the result gives the list back |
| App.Submit | App.tsx:16-24 | no request is issued, and the state is untouched, exactly when the input holds only commas and whitespace; otherwise the request carries the parsed non-empty list and the state is loading with result and error cleared |
| App.Succeed | App.tsx:27-28 | a resolved request shows the result and ends loading; the input and error are kept |
| App.Fail | App.tsx:29-32 | a failed request shows a non-empty error (the message, or the fixed fallback when the message is empty) and ends loading; the result is kept |
| App.Settle | App.tsx:26-33 | settling a request always ends loading and keeps the input; a success shows its result and keeps the error; a failure keeps the result and shows the error message, or the fixed fallback when the message is empty; after a fresh submit exactly one of result and error is shown |
| App.Step | App.tsx:16-34 | while loading, editing and searching change nothing (App.tsx:83 and 87 disable the input and button); a resolution shows its result and ends loading keeping the error, and a rejection ends loading with the message or the fixed fallback as the error. When idle, a settlement changes nothing and an edit replaces only the input. An idle search on commas and whitespace changes nothing; any other idle search starts loading with result and error cleared and the input kept |
| App.Run | App.tsx:16-34 | a sequence of events without an edit leaves the input as it was |
| App.RunSingle | App.tsx:16-34 | running a one-event sequence is taking that one step |
| App.RunConcat | App.tsx:16-34 | running two event sequences in turn is running their concatenation, so a run is the step-by-step fold of its events |
| App.StepKeepsExclusive | App.tsx:16-34 | one event never leads to a state that is loading with a result or error shown, or that shows both a result and an error |
| App.RunKeepsExclusive | App.tsx:16-34 | any sequence of events keeps that exclusivity |
| App.ReachableStatesExclusive | App.tsx:11-34 | every state reachable from the initial empty state is exclusive |
| App.BracelessReplyFails | App.tsx:26-32 | a search whose reply has no `{` or no `}` ends not loading, with no result and with the error "Invalid JSON response" |
| App.DownloadName | App.tsx:36-42 | no download without a result; otherwise the name is `IT_Research_Audit_` + date + `.json`, where the date is the part of the ISO timestamp before its first `T` |
| ResearchClient.ExtractJson | services/geminiService.ts:136-140 | extraction fails, with "Invalid JSON response", exactly when the reply (an absent reply counting as empty) lacks a `{` or a `}` |
| ResearchClient.ExtractOrdered | services/geminiService.ts:137-140 | when a `{` comes at or before a `}`, the extract opens with `{`, closes with `}`, and is a slice of the reply with no `{` before it and no `}` after it |
| ResearchClient.ExtractReversed | services/geminiService.ts:137-140 | when every `}` precedes every `{`, the last `}` lies before the first `{` and extraction still succeeds: `substring` swaps its bounds, so the extract is exactly the text strictly between that `}` and that `{`, and it holds no brace |
| ResearchClient.ExtractReversedExample | services/geminiService.ts:137-140 | the reply `}x{` extracts to `x` |
| ResearchClient.ExtractIdempotent | services/geminiService.ts:136-140 | extracting again from an ordered extract gives the same extract |
| ResearchClient.CollectUris | services/geminiService.ts:143-144 | the collected URIs are non-empty, and a string is among them exactly when some chunk carries it as its `web.uri` |
| ResearchClient.CollectUrisConcat | services/geminiService.ts:143-144 | `map` then `filter` keeps chunk order: the URIs of two chunk lists put together are the URIs of the first list followed by those of the second |
| ResearchClient.GroundingUrls | services/geminiService.ts:143-150 | the grounding URLs have no duplicates and are exactly the non-empty URIs of the chunks; missing metadata gives none |
| ResearchClient.GroundingUrlsOrder | services/geminiService.ts:143-150 | if some prefix of the chunks provides URI `u` but not URI `v`, then `u` comes before `v` in the grounding URLs: the de-duplicated list follows first provision order |
| ResearchClient.Normalise | services/geminiService.ts:146-154 | every absent list field becomes the empty list and every absent number becomes 0; present fields are kept |
| ResearchClient.NormaliseComplete | services/geminiService.ts:146-154 | normalising a result in which every field is present changes nothing |
| ResearchClient.PerformResearch | services/geminiService.ts:136-158 | an upstream failure is re-raised unchanged; a missing brace gives "Invalid JSON response"; a parse failure is re-raised; when the reply, the extraction and the parse all succeed the call succeeds, and a success is always the normalised parse of the extract with the de-duplicated grounding URLs |
| ResearchClient.ResearchGroundingUrls | services/geminiService.ts:143-150 | every successful result's grounding URLs are duplicate-free and are exactly the chunks' non-empty URIs |
| CompanyTable.FirstMatch | components/CompanyTable.tsx:30 | the position found matches the key and no earlier source does; none is found only when no source matches |
| CompanyTable.SourceForField | components/CompanyTable.tsx:29-31 | the source is the first whose lowercased field contains the lowercased key; none when the row has no sources or none matches |
| CompanyTable.AttributionIgnoresKeyCase | components/CompanyTable.tsx:30 | keys equal up to case find the same source |
| CompanyTable.AttributionIgnoresFieldCase | components/CompanyTable.tsx:30 | source lists whose field names agree up to case give the same match |
| CompanyTable.MissingIgnoresCase | components/CompanyTable.tsx:35 | a value is missing exactly when its lowercase form is |
| CompanyTable.IsMissing | components/CompanyTable.tsx:35 | a value is missing exactly when it is absent, empty or `-`, or its lowercase form has "no data" or "n/a" at some position |
| CompanyTable.MissingIff | components/CompanyTable.tsx:35 | an absent value is missing, and a present value is missing exactly when it is empty, is `-`, or its lowercase form has "no data" or "n/a" at some position |
| CompanyTable.RenderValue | components/CompanyTable.tsx:33-60 | the placeholder is shown exactly when the value is missing, and a link is shown exactly when the value is present and a matching source exists |
| CompanyTable.NoDataNeverLinked | components/CompanyTable.tsx:35-46 | the value "No data" never gets a source link |
| CompanyTable.RenderRow | components/CompanyTable.tsx:33-60 | over the 21 value columns (CompanyTable.tsx:101-121), each cell shows the placeholder exactly when its value is missing and otherwise shows the value itself; it has a link exactly when the value is present and a source matches the column's keyword, and a shown link always matches that keyword |
| CompanyTable.RevenueColumnsShareSource | components/CompanyTable.tsx:103-104 | both revenue columns, when linked, link the same source |
| CompanyTable.ExportCell | components/CompanyTable.tsx:74 | an absent or empty value exports as "N/A"; a present non-empty one keeps its length, turns each TAB and LF into a space and keeps every other character; no cell holds a TAB or LF |
| CompanyTable.ExportRow | components/CompanyTable.tsx:64-74 | a row exports to exactly 24 clean cells, each the export of the value in the matching header position |
| CompanyTable.Values | components/CompanyTable.tsx:66-73 | the 24 exported values are the company, the verification status, the 21 shown column values in display order (CompanyTable.tsx:95-121), and the audit trail |
| CompanyTable.AuditTrail | components/CompanyTable.tsx:65 | a row's audit trail is the trail of its field sources, an absent list counting as none: empty exactly when there are no sources, a lone source's `[field: url]` entry, and otherwise opening with `[` |
| CompanyTable.Trail | components/CompanyTable.tsx:65 | the trail of a source list is empty exactly when the list is, is the lone entry for one source, and opens with `[` otherwise |
| CompanyTable.TrailConcat | components/CompanyTable.tsx:65 | the trail of two non-empty source lists in sequence is the first trail, then the separator (a vertical bar between two spaces), then the second: every source's entry appears, in order, one separator between neighbours |
| CompanyTable.ExportRows | components/CompanyTable.tsx:64-75 | one exported row per company, in order, each 24 clean cells |
| CompanyTable.AuditColumn | components/CompanyTable.tsx:65-74 | each exported row's last cell is the export of its audit trail, and "N/A" for a row without sources |
| CompanyTable.HeadersClean | components/CompanyTable.tsx:12-27 | there are 24 headers and none holds a TAB or LF |
| CompanyTable.CopyText | components/CompanyTable.tsx:62-76 | nothing is copied exactly when the table is empty; otherwise the text reads back, on LF and TAB, as the header line followed by each row's exported cells |
| CompanyTable.CopyTextShape | components/CompanyTable.tsx:62-76 | the copied text has one line more than the table has rows, 24 clean cells per line, and each row's last cell is its audit trail, or "N/A" for a row without sources |
| BenchmarkTable.ExportCell | components/BenchmarkTable.tsx:29 | an absent value exports as "No data"; a present one keeps its length, with TAB and LF turned into spaces and every other character kept |
| BenchmarkTable.EmptyValueStaysEmpty | components/BenchmarkTable.tsx:29 | an empty string exports as the empty cell, not as "No data" |
| BenchmarkTable.ExportRow | components/BenchmarkTable.tsx:21-29 | a row exports to exactly five clean cells in header order |
| BenchmarkTable.Values | components/BenchmarkTable.tsx:22-28 | a row gives five values: role, experience band, median CTC, typical range and sources, in that order |
| BenchmarkTable.ExportRows | components/BenchmarkTable.tsx:21-30 | one exported row per benchmark row, in order, each five clean cells |
| BenchmarkTable.AbsentBand | components/BenchmarkTable.tsx:24-29 | a row with no experience band exports "No data" in the second column |
| BenchmarkTable.SourceUrlNotExported | components/BenchmarkTable.tsx:22-28 | a row's `sourceUrl` has no effect on its exported line |
| BenchmarkTable.HeadersClean | components/BenchmarkTable.tsx:12 | there are five headers and none holds a TAB or LF |
| BenchmarkTable.HandleCopy | components/BenchmarkTable.tsx:14-32 | an empty table only warns "No data available to copy."; otherwise the text reads back as the header line followed by each row's five exported cells |
| BenchmarkTable.HandleCopyShape | components/BenchmarkTable.tsx:14-32 | the copied text has one line more than the table has rows and five clean cells per line; an absent experience band reads back as "No data" |
| Tsv.ReplaceSeparators | components/CompanyTable.tsx:74 | the result has the input's length, holds no TAB or LF, turns each TAB or LF into a space and keeps every other character |
| Tsv.ReplaceSeparatorsKeepsClean | components/BenchmarkTable.tsx:29 | text without TAB or LF is exported unchanged |
| Tsv.EncodeDecode | components/BenchmarkTable.tsx:29-32 | text built by joining clean cells with TAB and lines with LF reads back as exactly the header and rows it was built from |
| Tsv.Encode | components/BenchmarkTable.tsx:32 | the text opens with the TAB-joined header line, and with no rows it is that line alone |
| Tsv.TableClean | components/CompanyTable.tsx:76 | a clean header of `n` cells followed by clean rows of `n` cells makes a table of one more line than rows, every line `n` clean cells |
| Text.Trim | App.tsx:19 | a trimmed string is empty or begins and ends with a non-whitespace character |
| Text.TrimPads | App.tsx:19 | trimming removes only whitespace, from the two ends: the result sits inside the input with blank margins |
| Text.TrimBlankIff | App.tsx:17 | a string trims to empty exactly when it is all whitespace |
| Text.TrimIdempotent | App.tsx:19 | trimming twice is trimming once |
| Text.TrimLeadingSpace | App.tsx:19 | a space before an already trimmed string is removed by trimming |
| Text.IndexOf | services/geminiService.ts:137 | -1 exactly when the character is absent; otherwise the position of its first occurrence |
| Text.LastIndexOf | services/geminiService.ts:138 | -1 exactly when the character is absent; otherwise the position of its last occurrence |
| Text.JsSubstring | services/geminiService.ts:140 | `substring` with bounds inside the text is the slice between them, whichever order they come in; bounds covering the whole text give it unchanged; the result is never longer than the text |
| Text.JsSubstringSymmetric | services/geminiService.ts:140 | swapping the two bounds of `substring` gives the same result |
| Text.Lower | components/CompanyTable.tsx:30 | lowercasing keeps the length, turns each ASCII capital into its small letter, and changes no other character |
| Text.Contains | components/CompanyTable.tsx:35 | `includes` can hold only when the needle is no longer than the text |
| Text.ContainsIff | components/CompanyTable.tsx:30 | `includes` holds exactly when the needle occurs at some position of the text |
| Text.Split | App.tsx:19 | a split yields at least one part, no part holds the separator, and the first part is the text before the first separator |
| Text.SplitJoin | components/CompanyTable.tsx:74-76 | splitting a join of separator-free parts gives the parts back |
| Text.Join | components/CompanyTable.tsx:65 | joining nothing gives the empty string; otherwise the result starts with the first part |
| Text.JoinConcat | components/CompanyTable.tsx:65 | joining two non-empty lists in sequence is the first join, the separator, then the second join |
| Text.JoinSplit | App.tsx:19 | joining the parts of a split gives the original text back |
| Text.SplitConcat | App.tsx:19 | splitting `x + sep + y` gives the parts of `x` followed by the parts of `y` |
| Sequences.Filter | App.tsx:19 | the kept elements come from the input and satisfy the test |
| Sequences.FilterEmptyIff | App.tsx:19-20 | a filter keeps nothing exactly when no element passes the test |
| Sequences.FilterKeepsAll | App.tsx:19 | a filter whose test every element passes keeps the whole sequence |
| Sequences.FilterConcat | App.tsx:19 | filtering distributes over concatenation |
| Sequences.Distinct | services/geminiService.ts:150 | the result has no duplicates and holds exactly the input's elements |
| Sequences.DistinctFirstOccurrenceOrder | services/geminiService.ts:150 | elements appear in the order of their first occurrence in the input |
| Sequences.Dedupe | services/geminiService.ts:150 | the loop with a seen-set computes the same list as the set-insertion fold |

## Left out

- The remote model call, its prompt and its response schema (services/geminiService.ts:5-134) are not modelled. The reply is an input `Result<Response, string>`.
- `JSON.parse` is not modelled; it is a function parameter. A parsed field of the wrong JSON type is not modelled either, since every field is typed.
- `JSON.stringify`, `Blob`, object URLs and the anchor click in the download are DOM effects and are not modelled. Only the guard and the file name are.
- `openExternalAudit` (App.tsx:49-58) is not modelled. It only builds search-engine URLs and opens a window.
- The clipboard write, `alert`, `console.error`, and BenchmarkTable's `try`/`catch` and clipboard-rejection branches (components/BenchmarkTable.tsx:34-43) are side effects. The model returns the text or the warning instead.
- SourceSection, VerificationPanel and TableWrapper are presentation only and are not part of this model. So are the JSX markup and CSS classes.
- Asynchrony: `handleSearch` is modelled as `Submit` followed later by `Settle`. `Step` ignores `Resolve` and `Reject` when nothing is loading, because such events cannot arise. It ignores `Edit` and `Search` while loading, because their controls are disabled then.
- Text.Trim: the whitespace set is the six ASCII characters, not the full Unicode whitespace set of `String.prototype.trim`.
- Text.Lower: only ASCII letters are lowercased, not the full Unicode case mapping of `toLowerCase`.
- ResearchClient.ExtractIdempotent: holds only when a `{` comes at or before a `}`. With reversed braces the extract holds no braces, and extracting again fails.
- ResearchClient.Normalise: a present value of 0 and an absent value both give 0, as `x || 0` does. A present empty list is kept, since arrays are truthy.
- Field sources are taken to always have string `field`, `url`, `sourceName` and `asOf`. The rendering of the link title is not modelled.
- CompanyTable.ExportCell: values are taken to be strings. The `String(..)` conversion of non-string values is not modelled.

# PatCat-Search core, modelled in Dafny

PatCat-Search is a browser interface for a patent search service. The user
types a query. The page sends it to the service and shows the returned
records as cards, six per page, with the query's keywords highlighted. It
also offers an analytics dashboard of grouped counts and a spreadsheet
download of the results.

This project models the parts of that interface that compute something:

- `Tally`: the count maps the dashboard builds. Each is a `reduce` into an
  object, read back in key-insertion order and sorted by count with a
  stable sort. The technology series is then cut to its top 10 entries,
  the sub-technology series to 12 and the country series to 15; the domain
  series is not cut.
- `Dashboard`: the five groupings.
  - domain and technology labels: asterisks stripped, trimmed, `"Unknown"`
    as the fallback;
  - sub-technology pieces, split on `,` and `;`;
  - trimmed keywords;
  - a two-letter country code taken from the patent number, `"OTH"` as the
    fallback.

  It also models the four chart series and the rendering condition.
- `Pagination`: the page selector.
  - the page list with its ellipses, both as the loop the code runs and as a
    closed form;
  - the clamped Previous and Next buttons.
- `Paging`: the six-record pages of the result list, with JavaScript
  `slice` semantics.
- `Records`: how a service record becomes the interface's record.
  - the spaced key is preferred, with the underscored key as fallback;
  - keywords are split at `", "`, trimmed and lower-cased.
- `Export`: the spreadsheet rows, the column widths and the download's file
  name.
- `Session`: the page state through one search. This covers the reset before
  the request, the success and failure paths, the blank-input guard of the
  search box, and the status line the page shows afterwards.
- `Card`: the text helpers of a result card.
  - `splitValues`;
  - abstract truncation and the Show-more condition;
  - the cyclic badge palette;
  - keyword-badge emphasis;
  - the segmentation `highlightText` performs.
- `Text`: the JavaScript string operations the above rely on: `trim`, ASCII
  case mapping, `split` on a literal or on `[,;]`, and `join`.
- `Wrappers`: the `Option` type, for fields that may be absent.

The sub-technology chart draws its frequency axis over `[0, 1]`
(components/analytics-dashboard.tsx:198), so the code expects a frequency
of at most 1. It divides a count of pieces by the number of records,
though, and one record can name a piece twice, so the frequency can exceed
1 (`Dashboard.SubTechnologyFrequencyCanExceedOne`). The model follows the
computation.

## Model

| member | source | states |
|---|---|---|
| Tally.TallyCounts | components/analytics-dashboard.tsx:36-51 | every label gets as many votes as it occurs, all counts are positive, and the counts sum to the number of labels |
| Tally.TallyDistinct | components/analytics-dashboard.tsx:36-42 | the count object has one key per distinct label and no other key |
| Tally.Vote | components/analytics-dashboard.tsx:40 | one vote adds at most one key |
| Tally.TallyOf | components/analytics-dashboard.tsx:36-42 | the count object has no more keys than there are labels, and at least one once any label was counted |
| Tally.TallyFirstSeen | components/analytics-dashboard.tsx:79-97 | `Object.entries` lists the keys in the order in which their labels first occur |
| Tally.SortDesc | components/analytics-dashboard.tsx:79-97 | sorting by descending count gives a permutation of the entries, non-increasing in count, with the same total count |
| Tally.SortDescStable | components/analytics-dashboard.tsx:79-97 | the sort is stable: the entries of any one count appear in the same relative order before and after sorting |
| Tally.Top | components/analytics-dashboard.tsx:79-97 | `slice(0, k)` keeps a prefix of at most `k` entries, and every kept count is at least every dropped count |
| Tally.TallySize | components/analytics-dashboard.tsx:36-42 | the count object has exactly as many keys as there are different labels |
| Tally.TopSize | components/analytics-dashboard.tsx:79-97 | sorting and `slice(0, k)` keep `min(k, number of different labels)` entries |
| Tally.TopIsMostFrequent | components/analytics-dashboard.tsx:79-97 | after the sort and the cut, each kept entry carries its label's number of occurrences, and no label left out occurs more often than a kept one |
| Dashboard.Divisor | components/analytics-dashboard.tsx:33 | `results.length \|\| 1` is never zero, and it equals the number of results when there are some |
| Dashboard.RemoveAsterisks | components/analytics-dashboard.tsx:37 | no asterisk is left, the text never grows, and text without asterisks is returned unchanged |
| Dashboard.RemoveAsterisksAppend | components/analytics-dashboard.tsx:37 | removing asterisks works piece by piece: the result for a concatenation is the concatenation of the results |
| Dashboard.RemoveAsterisksChar | components/analytics-dashboard.tsx:37 | a single asterisk disappears and any other single character stays |
| Dashboard.OrElse | components/analytics-dashboard.tsx:36 | `field \|\| "Unknown"`: the field when present and non-empty, otherwise the fallback |
| Dashboard.CleanLabel | components/analytics-dashboard.tsx:36-38 | a domain or technology label is non-empty, trimmed, and free of `*` |
| Dashboard.CleanLabelFallback | components/analytics-dashboard.tsx:36-38 | the label is the field with asterisks removed and then trimmed, and `"Unknown"` exactly when that leaves nothing (a missing or empty field included) |
| Dashboard.CleanLabelIdempotent | components/analytics-dashboard.tsx:36-38 | cleaning a cleaned label changes nothing |
| Dashboard.CountryCode | components/analytics-dashboard.tsx:71-74 | the code is the number's first two characters upper-cased when both are ASCII letters, and `"OTH"` in every other case |
| Dashboard.CountryCodeExamples | components/analytics-dashboard.tsx:72-74 | `"US1023456"` and `"us12"` give `"US"`; `"9876543"`, `"E"` and a missing number give `"OTH"` |
| Dashboard.SubTechnologyLabels | components/analytics-dashboard.tsx:53-55 | every sub-technology vote is a non-empty, trimmed piece without `,` or `;`, and each result's split values are among the votes as often as that result names them |
| Dashboard.SubTechnologyLabelsAppend | components/analytics-dashboard.tsx:53-55 | `flatMap` works result by result: the votes of two lists of results are the votes of the first followed by those of the second |
| Dashboard.SubTechnologyLabelsSingle | components/analytics-dashboard.tsx:53-55 | one result's votes are exactly the values `splitValues` gives for its sub-technology |
| Dashboard.KeywordLabels | components/analytics-dashboard.tsx:63-67 | every keyword that is not blank after trimming is kept, trimmed; nothing kept is blank |
| Dashboard.DomainCount | components/analytics-dashboard.tsx:36-42 | each result casts exactly one domain vote: the counts are the label occurrences and sum to the number of results |
| Dashboard.TechnologyCount | components/analytics-dashboard.tsx:45-51 | each result casts exactly one technology vote: the counts are the label occurrences and sum to the number of results |
| Dashboard.SubTechnologyCount | components/analytics-dashboard.tsx:53-59 | each value's count is its number of occurrences among the split values of all results, and the counts sum to the number of such values |
| Dashboard.KeywordCount | components/analytics-dashboard.tsx:63-68 | each key's count is its number of occurrences among the trimmed, non-blank keywords of all results; the empty key is never counted and every key is trimmed |
| Dashboard.CountryCount | components/analytics-dashboard.tsx:71-77 | each result casts exactly one country vote: the counts sum to the number of results |
| Dashboard.Percent | components/analytics-dashboard.tsx:86 | the percentage is the integer nearest to `100 * value / total`, with halves rounded up (`Math.round`) |
| Dashboard.DomainData | components/analytics-dashboard.tsx:85-87 | the domain series is ordered by non-increasing count, and each slice's percentage is that of its count |
| Dashboard.DomainDataCounts | components/analytics-dashboard.tsx:85-87 | every domain that occurs has a slice (the domain series is not truncated), and each slice carries its number of results |
| Dashboard.DomainDataCoversResults | components/analytics-dashboard.tsx:85-87 | the domain slices' counts add up to the number of results |
| Dashboard.DomainPercentagesNearHundred | components/analytics-dashboard.tsx:86 | with `n` domains the rounded percentages add up to more than `100 - n/2` and at most `100 + n/2` |
| Dashboard.TechnologyData | components/analytics-dashboard.tsx:89-92 | the technology series has `min(10, number of different technologies)` entries, ordered by non-increasing count |
| Dashboard.TechnologyDataMostFrequent | components/analytics-dashboard.tsx:89-92 | the technology bars are the most frequent technologies, each with its count |
| Dashboard.SubTechnologyData | components/analytics-dashboard.tsx:94-97 | the sub-technology series has `min(12, number of different values)` entries, ordered by count, each value a count over the same divisor |
| Dashboard.SubTechnologyDataMostFrequent | components/analytics-dashboard.tsx:94-97 | the sub-technology bars are the most frequent pieces, each with its number of occurrences |
| Dashboard.SubTechnologyFrequencyCanExceedOne | components/analytics-dashboard.tsx:54-60 | one record whose sub-technology is `v; v` gives `v` the frequency 2/1 |
| Dashboard.CountryData | components/analytics-dashboard.tsx:79-82 | the country series has `min(15, number of different codes)` entries, ordered by count, each named by two upper-case letters or `"OTH"` |
| Dashboard.CountryDataMostFrequent | components/analytics-dashboard.tsx:79-82 | the country bars are the most frequent codes, each with its count |
| Dashboard.Render | components/analytics-dashboard.tsx:101 | the dashboard draws nothing exactly when there are no results |
| Pagination.GetPageNumbers | components/pagination.tsx:13-47 | the loop with its `includes` checks builds exactly the closed-form page list, and the `includes` checks never skip a page |
| Pagination.PageListEnds | components/pagination.tsx:17-43 | up to 5 pages the list is exactly pages 1 to `total`; beyond that it starts with page 1 and ends with page `total` |
| Pagination.LeadingEllipsis | components/pagination.tsx:24-26 | for more than 5 pages, the second entry is an ellipsis exactly when the current page is past 3 |
| Pagination.TrailingEllipsis | components/pagination.tsx:37-39 | for more than 5 pages, the second-to-last entry is an ellipsis exactly when the current page is before `total - 2` |
| Pagination.PageListShape | components/pagination.tsx:28-43 | for a current page within range, the page numbers strictly increase and lie in `[1, total]`; neighbouring buttons are consecutive pages; every ellipsis sits between two buttons and skips at least one page; the list has at most 7 entries |
| Pagination.PageListHasCurrent | components/pagination.tsx:28-43 | the current page, page 1 and page `total` always have a button |
| Pagination.PageListMembers | components/pagination.tsx:17-43 | a page has a button exactly when it is in range and either there are at most 5 pages or it is page 1, page `total` or within one of the current page |
| Pagination.PageListExample | components/pagination.tsx:13-47 | 10 pages with current page 5 give `1 … 4 5 6 … 10` |
| Pagination.PreviousPage | components/pagination.tsx:60 | Previous asks for one page back and never below 1 |
| Pagination.NextPage | components/pagination.tsx:96 | Next asks for one page forward and never beyond `total` |
| Pagination.StepButtons | components/pagination.tsx:57-97 | within range, each of Previous and Next is disabled exactly when clicking it would not change the page, and both land within `[1, total]` |
| Pagination.StepStaysInRange | components/pagination.tsx:57-97 | Previous, Next or a page button keeps the current page within `[1, total]` |
| Pagination.WalkStaysInRange | components/pagination.tsx:57-97 | any sequence of clicks keeps the current page within `[1, total]` |
| Pagination.PageList | components/pagination.tsx:13-47 | the list never has more than 7 entries; up to 5 pages it lists pages 1 to `total` in order; beyond that it begins with page 1 and ends with page `total` |
| Pagination.PushAll | components/pagination.tsx:17-20 | the short-list loop pushes pages 1 to `total` in order |
| Pagination.PushLong | components/pagination.tsx:21-44 | the long-list branch gives page 1, an ellipsis when the current page is past 3, the window around the current page, an ellipsis when it is before `total - 2`, and page `total` |
| Pagination.Step | components/pagination.tsx:57-97 | within range, Previous and Next move at most one page; a page button leads to a page that is listed, and an ellipsis leaves the page alone |
| Pagination.Walk | components/pagination.tsx:57-97 | no clicks change nothing; `n` Previous clicks land on `max(1, current - n)` and `n` Next clicks on `min(total, current + n)` |
| Paging.TotalPages | components/results-display.tsx:24-29 | the page count is `ceil(n / 6)`: six records per page hold all `n`, and one page fewer would not |
| Paging.TotalPagesIsLeast | components/results-display.tsx:29 | no smaller page count holds all the records |
| Paging.JsSlice | components/results-display.tsx:32 | `slice` never gives more than the list; with indices in order and in range it is exactly that stretch, and with crossed non-negative indices it is empty |
| Paging.PageSlice | components/results-display.tsx:30-32 | a page shows at most 6 records, and for page 1 or later they are consecutive records starting at `(page - 1) * 6` |
| Paging.SliceIndex | components/results-display.tsx:32 | a `slice` index resolves into `[0, len]`: in-range indices unchanged, too-large ones clamped to `len` |
| Paging.PageSliceBounds | components/results-display.tsx:30-32 | a page within range shows records `(C-1)*6` up to `min(C*6, n)`, between one and six of them |
| Paging.PageBeyondLastIsEmpty | components/results-display.tsx:32 | a page past the last one shows no records and raises no error |
| Paging.FirstPagesArePrefix | components/results-display.tsx:30-32 | pages 1 to `k` together are the first `6k` records, or all of them |
| Paging.AllPagesAreResults | components/results-display.tsx:30-32 | reading all pages in order gives back the result list, with nothing lost or repeated |
| Paging.PaginationShownIffMoreThanAPage | components/results-display.tsx:57 | the page selector is shown exactly when there are more than 6 records |
| Paging.FourteenRecords | components/results-display.tsx:24-32 | 14 records make 3 pages, and page 3 holds records 12 and 13 |
| Paging.ClicksShowRecords | components/results-display.tsx:27-37 | starting on page 1, after any clicks in the selector the page shown exists and holds at least one record |
| Records.Pick | app/page.tsx:45-51 | `a \|\| b` is `a` when it is present and non-empty, and `b` otherwise |
| Records.Field | app/page.tsx:45-51 | a field's value is the record's value under the spaced key or under the underscored key; it is absent exactly when the spaced key gives nothing non-empty and the underscored key is missing |
| Records.FieldPrefersSpacedKey | app/page.tsx:45-51 | a field takes the spaced key's text when it is non-empty, and the underscored key's value otherwise |
| Records.SpellingsAgree | app/page.tsx:45-51 | a record that spells a key with underscores normalises like one that spells it with spaces, for any non-empty value |
| Records.EmptyValueIsFalsy | app/page.tsx:45-51 | an empty value under the spaced key falls through to the underscored key |
| Records.Normalize | app/page.tsx:44-53 | a normalised record's `id` and `number` are always equal |
| Records.NormalizeAll | app/page.tsx:44 | normalisation maps the raw records one to one, in order |
| Records.KeywordsOf | app/page.tsx:52 | a missing keyword field gives no keywords, and a present one gives at least one; every keyword is trimmed and has no upper-case letter |
| Records.CleanKeyword | app/page.tsx:52 | a keyword is trimmed and has no upper-case letter |
| Records.KeywordsArePieces | app/page.tsx:52 | the keywords come from pieces that join back, with `", "`, into the field's text; no piece holds `", "`, and each gives one keyword, in order |
| Records.EmptyKeywordField | app/page.tsx:52 | an empty keyword field gives one empty keyword, not none |
| Records.CleanKeywordsKeepClean | app/page.tsx:52 | a field of trimmed lower-case keywords joined by `", "` gives exactly those keywords back |
| Records.CleanKeywordIdempotent | app/page.tsx:52 | cleaning a cleaned keyword changes nothing |
| Export.Row | app/page.tsx:66-75 | a row has one cell per column; its first cell is its position plus one; the number, title, domain, technology, sub-technology and abstract cells hold the record's own fields, in that order, and an absent field leaves its cell empty; the last cell is the keywords joined with `", "`, which is `""` when there are none |
| Export.Rows | app/page.tsx:66 | there is one row per result, in result order |
| Export.RowsShape | app/page.tsx:66-89 | there are 8 columns and 8 widths; every row has 8 cells, and `S.No` runs 1, 2, … in record order |
| Export.KeywordsCell | app/page.tsx:74 | `keywords?.join(", ") \|\| ""`: no keywords give `""`, one keyword gives itself, and the first keyword begins the cell |
| Export.KeywordsCellRoundTrip | app/page.tsx:74 | for a record whose keyword field was present, the exported keyword cell split at `", "` gives exactly the record's keywords |
| Export.SafeChar | app/page.tsx:95 | a character outside `[A-Za-z0-9]` becomes `_`, and the others are kept |
| Export.Sanitize | app/page.tsx:95 | sanitising keeps the length and replaces each character independently |
| Export.SanitizeIdempotent | app/page.tsx:95 | sanitising twice is the same as sanitising once |
| Export.SanitizeFixpoint | app/page.tsx:95 | a string is left unchanged exactly when it uses only ASCII letters, digits and `_` |
| Export.SanitizeExample | app/page.tsx:95 | `"3D imaging!"` becomes `"3D_imaging_"` |
| Export.FileName | app/page.tsx:94-96 | with a query the name is the sanitised query plus `_patents.xlsx`; without one it starts with `patent_results_`; it always ends in `.xlsx` |
| Export.FileNameIsSafe | app/page.tsx:94-95 | with a query, the name is the query's length in letters, digits and `_`, then `_patents.xlsx`, and it holds no path separator |
| Session.CompleteSearch | app/page.tsx:31-61 | loading always ends and the query, has-searched flag and analytics are left alone; a failure empties the results and keeps keywords and total; a received body sets keywords and total, and its records, when a list, become the results one to one, each normalised |
| Session.HandleSearch | app/page.tsx:23-61 | after a search, loading has ended, the query is the one searched, the page counts as searched and the analytics are closed; a failure leaves no results and no keywords and keeps the old total; a received body sets keywords and total |
| Session.Submit | components/search-input.tsx:18-23 | blank input after trimming leaves the page as it was; other input is searched exactly as typed |
| Session.BannerOf | app/page.tsx:162-173 | "Found N" shows exactly when a search has finished with a positive total, with that total; "No patents found" shows exactly when it has finished with total 0, with the keywords joined by `", "` |
| Session.BeginSearch | app/page.tsx:23-29 | starting a search sets the query, loading and has-searched; clears the results and keywords; closes the analytics; and leaves the total unchanged |
| Session.SearchOutcome | app/page.tsx:23-61 | every search ends with loading cleared; a failure empties the results and keywords but keeps the old total; a received body sets keywords and total, and its records become the results one to one, or none if the mapping throws |
| Session.NothingShownWhileLoading | app/page.tsx:140-179 | while the request is out, no status line, keyword line, result list or analytics is shown |
| Session.SubmitNeedsText | components/search-input.tsx:18-23 | input that is blank after trimming triggers no search; any other input is searched as typed, untrimmed |
| Session.NoMatchesShowsKeywords | app/page.tsx:156-173 | a search answered with total 0 shows its keywords and "No patents found", with an empty result list |
| Session.StaleCountAfterFailure | app/page.tsx:56-60 | as written: after a search with a positive total, a failing search shows no results under "Found N matching patents" for the old N |
| Session.BannerDependsOnHistory | app/page.tsx:162-173 | as written: the same failing request shows "Found 42" or "No patents found" depending on the search before it |
| Session.BeginSearchFixed | app/page.tsx:23-29 | corrected reset: the as-written reset plus clearing the total |
| Session.BannerReflectsResponse | app/page.tsx:23-60 | with the corrected reset, the status line and the results depend on the response alone, and a failure never shows a count |
| Session.FixKeepsSuccess | app/page.tsx:40-55 | the correction changes nothing when a body was received |
| Card.TrimNonEmpty | components/patent-card.tsx:60 | `.map(trim).filter(Boolean)` keeps only non-empty trimmed pieces, never more than it was given, and keeps the trimmed text of every piece that is not blank |
| Card.TrimNonEmptySingle | components/patent-card.tsx:60 | one piece gives its trimmed text, or nothing when it is blank |
| Card.TrimNonEmptyAppend | components/patent-card.tsx:60 | `map` and `filter` work piece by piece and keep the order: two lists of pieces give the results of each, concatenated |
| Card.SplitValues | components/patent-card.tsx:59-61 | every value is non-empty, trimmed and free of `,` and `;`; there is at most one more value than there are delimiters; every piece between delimiters that is not blank appears, trimmed |
| Card.SplitValuesAfterPiece | components/patent-card.tsx:59-61 | the text up to the first `,` or `;` gives its trimmed self (or nothing when blank), followed by the values of the rest |
| Card.SplitValuesLastPiece | components/patent-card.tsx:59-61 | text without a delimiter gives its trimmed self, or nothing when blank |
| Card.SplitValuesLeadingDelimiter | components/patent-card.tsx:59-61 | a leading `,` or `;` cuts off an empty piece, which gives no value |
| Card.SplitValuesSemicolon | components/patent-card.tsx:59-61 | `"A;B"` gives `A` and `B`: a semicolon cuts like a comma |
| Card.SplitValuesBlanks | components/patent-card.tsx:59-61 | `" A ,, B "` gives `A` and `B`: pieces are trimmed and the empty piece between the commas vanishes |
| Card.SplitValuesJoin | components/patent-card.tsx:59-61 | values written back as `"A, B, C"` split into exactly the same values |
| Card.SplitValuesIdempotent | components/patent-card.tsx:59-61 | splitting the re-joined values again changes nothing |
| Card.TruncateAbstract | components/patent-card.tsx:55-57 | an abstract of at most 250 characters is kept; a longer one becomes its first 250 characters plus `...`; the result never exceeds 253 characters |
| Card.CollapsedAbstract | components/patent-card.tsx:112-141 | without the Show-more toggle (250 characters or fewer) nothing is cut; with it the collapsed view is the first 250 characters and `...`, shorter than the abstract once it exceeds 253 characters; the collapsed view always begins with the abstract's first `min(length, 250)` characters |
| Card.BadgeColor | components/patent-card.tsx:43-53 | a badge colour is always one of the six palette entries |
| Card.BadgeColorCycle | components/patent-card.tsx:43-53 | badge `i` and badge `i + 6` share a colour, and six consecutive badges all differ |
| Card.KeywordBadge | components/patent-card.tsx:126-130 | a keyword badge is emphasised exactly when it equals some search keyword ignoring case; otherwise it takes palette colour `index + 5` |
| Card.KeywordBadgeIgnoresCase | components/patent-card.tsx:126-130 | two keywords that differ only in case get the same badge |
| Card.MatchAtSound | components/patent-card.tsx:28-32 | a match the alternation reports at a position is some keyword, ignoring case |
| Card.MatchAtComplete | components/patent-card.tsx:28-32 | wherever any keyword occurs, ignoring case, the alternation reports a match |
| Card.SplitFromAlternates | components/patent-card.tsx:32 | `split` with the capturing group gives an odd number of pieces; the pieces concatenate to the text; a piece is a keyword match exactly at odd positions |
| Card.Highlight | components/patent-card.tsx:26-40 | the text is returned unchanged exactly when it is empty or there are no keywords; otherwise the parts spell the text, matched and unmatched parts alternate, and a part is emphasised exactly when it equals a keyword ignoring case; no keyword match starts at any position inside a plain part, and each emphasised part is the match the alternation reports where that part starts |
| Card.SplitFromLeftmost | components/patent-card.tsx:28-32 | the global `split` scans left to right: every position of an unmatched piece has no keyword match, and each captured piece is the first alternative that matches at its position |
| Card.PlainHoldsNoKeyword | components/patent-card.tsx:28-33 | no occurrence of any keyword, in any letter case, starts inside a plain part of the highlighted text |
| Card.MatchAt | components/patent-card.tsx:28-32 | a match found at a position has positive length and lies within the text |
| Card.SplitFrom | components/patent-card.tsx:32 | the scan gives an odd number of pieces, and the first piece is the text from where the scan began, at least up to the current position |
| Text.Trim | components/patent-card.tsx:60 | `trim` leaves no whitespace at either end, and leaves an already trimmed string alone |
| Text.TrimIsInfix | components/patent-card.tsx:60 | `trim` removes only whitespace, and only at the two ends |
| Text.TrimUnique | components/patent-card.tsx:60 | a trimmed string surrounded by whitespace on both sides trims back to itself, so the result of `trim` is the only trimmed infix that whitespace alone surrounds |
| Text.TrimSkipsLeadingWhitespace | components/patent-card.tsx:60 | one more leading whitespace character does not change what `trim` returns |
| Pagination.PushWindow | components/pagination.tsx:31-35 | the window loop appends pages `startPage` to `endPage` in order to what is already listed, and its `includes` check never skips a page |
| Text.SplitOn | app/page.tsx:52 | `split` with a literal separator gives at least one piece, and the first piece is a prefix of the text |
| Text.Join | app/page.tsx:74 | `join` of no pieces is `""`, of one piece is that piece, and the first piece always begins the result |
| Text.Lower | app/page.tsx:52 | `toLowerCase` keeps the length and maps each character on its own, leaving no upper-case ASCII letter |
| Text.JoinSplitOn | app/page.tsx:52 | joining the pieces of `split(", ")` with `", "` gives the original text back |
| Text.SplitOnJoin | app/page.tsx:74 | splitting a `", "`-joined list whose pieces hold no `", "` gives the list back |
| Text.SplitOnDelimiters | components/patent-card.tsx:60 | `split(/[,;]/)` gives one more piece than there are delimiters, and no piece holds a delimiter |

## Left out

- The service call is left out: the `fetch`, JSON parsing and the `console.error` log. A response is an input to `Session.HandleSearch`. A body whose `results` is not a list is modelled as a mapping that throws after keywords and total were stored. Non-string JSON values and a non-list `keywords` are not modelled.
- The spreadsheet library calls (`json_to_sheet`, `book_new`, `book_append_sheet`, `writeFile`) are left out. Only the rows, the widths and the file name are modelled.
- The clock is left out. `Export.FileName` takes the ISO time string as a parameter.
- `window.scrollTo`, the analytics modal's body-scroll locking, and all animation, chart and styling markup are left out.
- Overlapping searches are left out. The model is sequential, one search at a time.
- Dashboard.Percent: the percentage is the exact rational rounded half up. A JavaScript float can round differently when `100 * value / total` lands on a `.5` boundary.
- Dashboard.SubTechnologyData: the value `count / total` is kept as an exact fraction, not a float. The series is sorted by count, which gives the same order because the divisor is shared and positive.
- Dashboard.Percent: the tooltip at components/analytics-dashboard.tsx:147 recomputes the same percentage. It is not modelled separately.
- Tally.TallyCounts: the count objects are plain `{}` literals, so labels that name `Object.prototype` members behave differently in JavaScript. For `"__proto__"`, `acc[k] || 0` reads the prototype object, and the assignment of the resulting string is ignored. That label therefore gets no entry, and the counts sum to less than the number of labels. For `"constructor"`, `"toString"`, `"valueOf"` and the like, the inherited function is truthy, so the stored count becomes a string and the chart value becomes NaN. The model counts these labels like any other. Domain, technology, sub-technology and keyword labels can hit this; the two-letter country codes and `"OTH"` cannot.
- Tally.TallyDistinct: for the same reason, a `"__proto__"` label gets no key in JavaScript, so "one key per different label" holds only for labels that do not name `Object.prototype` members. The same gap makes the key counts one too high in JavaScript whenever `"__proto__"` is among the labels. This affects Tally.TallySize and Tally.TopSize, and the exact series lengths ensured by Dashboard.TechnologyData and Dashboard.SubTechnologyData. Dashboard.CountryData shares the statement but cannot hit the gap: its labels are two letters or `"OTH"`.
- Tally.TallyFirstSeen: JavaScript lists integer-like keys (such as a sub-technology named `"5"`) first, in ascending numeric order. The first-seen order holds only for other keys, and the model does not distinguish the two.
- Text.Lower: only ASCII letters change case. This applies to `toLowerCase`, to `toUpperCase` in the country code, and to the regular expression's `i` flag. Other letters are left as they are.
- Export.Sanitize: the model replaces each Unicode code point. The regular expression has no `u` flag, so JavaScript replaces each UTF-16 code unit instead, and a character outside the Basic Multilingual Plane (an emoji, say) becomes `"__"` there but `"_"` in the model. The name's length then differs by one per such character.
- Card.TruncateAbstract: lengths count Unicode code points, not UTF-16 code units. An abstract with characters outside the Basic Multilingual Plane is cut elsewhere in JavaScript. The same applies to the ten-character date in `Export.FileName`.
- Card.Highlight: the search keywords must be non-empty. An empty keyword makes the JavaScript alternation match the empty string, and that case is not modelled. Keywords are matched literally, which is what the code's escaping of regular-expression characters achieves.
- Dashboard.SubTechnologyLabels: `subTechnology` is taken to be a string. A record without one makes `split` throw in the code.
- Card.Highlight: the model's text is always a string. In the code, an absent title, domain or technology reaches `highlightText` as `undefined`. That value is falsy, so `highlightText` returns it as it is and the heading or badge renders empty; this is not modelled.
- Card.TruncateAbstract: an absent abstract is not modelled. The code does not fall back for it (app/page.tsx:48), so the card throws on `undefined.length`: in `truncateAbstract` (components/patent-card.tsx:56, called at :114) and in the Show-more test at components/patent-card.tsx:141. The model's abstract is always a string.
- Card.SplitValues: an absent sub-technology is not modelled. The card calls `splitValues` on it (components/patent-card.tsx:98), and `split` on `undefined` throws at components/patent-card.tsx:60. The model's input is always a string.
- The `keywordCount` map is modelled (`Dashboard.KeywordCount`), but the dashboard never displays it.
- The card's badge positions are not modelled as a view of their own: domain colour 0, technology 1, sub-technologies from 2. Only the palette (`Card.BadgeColor`) is.
- Results display: the current page is not reset by any code. The list unmounts while a new search has cleared the results and starts again on page 1 (`Paging.FirstPage`). The remount itself is not modelled.
- Session.Submit uses the as-written `Session.HandleSearch`. The corrected handler below is used only for the finding.
- The analytics modal, search header, footer and the search box's focus styling have no computation and are not modelled.

## Findings

| source | as written | input that shows it | evidently intended | confidence | as-written member | corrected member |
|---|---|---|---|---|---|---|
| app/page.tsx:23-29 | the search reset clears results and keywords but not `totalResults`, and the failure path (lines 56-60) leaves it as well, so a failed search shows "Found N matching patents" above an empty list | a search answered with total 42, then a search whose request fails | a failed search shows no count: the total is cleared along with the rest of the previous outcome | not executed; high — follows directly from the state updates | Session.StaleCountAfterFailure | Session.BannerReflectsResponse |

/**
 * The search page's state and the one transition that changes it: a
 * search clears the previous outcome, waits for the service, and records
 * what came back, or empties the results if anything failed.
 */
module Session {
  import opened Wrappers
  import opened Text
  import opened Records

  datatype State = State(
    query: string,
    loading: bool,
    results: seq<NormalizedRecord>,
    keywords: seq<string>,
    totalResults: int,
    hasSearched: bool,
    showAnalytics: bool)

  const Initial: State := State("", false, [], [], 0, false, false)

  /**
   * What the service call ends in: a failure (the request throws or the
   * status is not OK), or a body whose `results` is a list or, when it is
   * not, makes the mapping throw after keywords and total were stored.
   */
  datatype Response =
    | Failed
    | Received(keywords: seq<string>, total: int, results: Option<seq<RawRecord>>)

  /** Lines 24-29: everything the previous search showed is cleared before the request. */
  function BeginSearch(s: State, query: string): (t: State)
    ensures t.query == query && t.loading && t.hasSearched
    ensures t.results == [] && t.keywords == [] && !t.showAnalytics
    ensures t.totalResults == s.totalResults
  {
    s.(query := query, loading := true, hasSearched := true, results := [], keywords := [], showAnalytics := false)
  }

  /** The `try`/`catch`/`finally` after the request. */
  function CompleteSearch(s: State, response: Response): (t: State)
    ensures !t.loading
    ensures t.query == s.query && t.hasSearched == s.hasSearched && t.showAnalytics == s.showAnalytics
    ensures response.Failed? ==> t.results == [] && t.keywords == s.keywords && t.totalResults == s.totalResults
    ensures response.Received? ==> t.keywords == response.keywords && t.totalResults == response.total
    ensures response.Received? && response.results.None? ==> t.results == []
    ensures response.Received? && response.results.Some? ==>
      |t.results| == |response.results.value|
      && forall i :: 0 <= i < |t.results| ==> t.results[i] == Normalize(response.results.value[i])
  {
    match response
    case Failed => s.(results := [], loading := false)
    case Received(keywords, total, None) =>
      s.(keywords := keywords, totalResults := total, results := [], loading := false)
    case Received(keywords, total, Some(raws)) =>
      s.(keywords := keywords, totalResults := total, results := NormalizeAll(raws), loading := false)
  }

  /** `handleSearch` as written. */
  function HandleSearch(s: State, query: string, response: Response): (t: State)
    ensures !t.loading && t.hasSearched && t.query == query && !t.showAnalytics
    ensures response.Failed? ==> t.results == [] && t.keywords == [] && t.totalResults == s.totalResults
    ensures response.Received? ==> t.keywords == response.keywords && t.totalResults == response.total
  {
    CompleteSearch(BeginSearch(s, query), response)
  }

  /** The search box: a submission whose text is blank after trimming does nothing. */
  function Submit(s: State, input: string, response: Response): (t: State)
    ensures Trim(input) == "" ==> t == s
    ensures Trim(input) != "" ==> t.query == input && t.hasSearched && !t.loading
  {
    if Trim(input) != "" then HandleSearch(s, input, response) else s
  }

  // ---------------------------------------------------------------------------
  // What the page shows
  // ---------------------------------------------------------------------------

  /** The status line under the search box. */
  datatype Banner = Found(count: int) | NoneFound(keywords: string) | NoBanner

  function BannerOf(s: State): (b: Banner)
    ensures b.Found? <==> s.hasSearched && !s.loading && s.totalResults > 0
    ensures b.NoneFound? <==> s.hasSearched && !s.loading && s.totalResults == 0
    ensures b.Found? ==> b.count == s.totalResults
    ensures b.NoneFound? ==> b.keywords == Join(s.keywords, KeywordSeparator)
  {
    if !s.hasSearched || s.loading then NoBanner
    else if s.totalResults > 0 then Found(s.totalResults)
    else if s.totalResults == 0 then NoneFound(Join(s.keywords, KeywordSeparator))
    else NoBanner
  }

  /** "Showing results for: …" */
  predicate ShowsKeywords(s: State) {
    s.hasSearched && |s.keywords| > 0 && !s.loading
  }

  /** The result list, the download button and the analytics button. */
  predicate ShowsResults(s: State) {
    |s.results| > 0
  }

  // ---------------------------------------------------------------------------
  // Properties
  // ---------------------------------------------------------------------------

  /**
   * Every search ends with loading cleared and the analytics closed; a
   * failure empties the results; a well-formed body replaces keywords,
   * total and results with the normalised records, one per raw record.
   */
  lemma SearchOutcome(s: State, query: string, response: Response)
    ensures var t := HandleSearch(s, query, response);
      && !t.loading && t.hasSearched && t.query == query && !t.showAnalytics
      && (response.Failed? ==> t.results == [] && t.keywords == [] && t.totalResults == s.totalResults)
      && (response.Received? ==> t.keywords == response.keywords && t.totalResults == response.total)
      && (response.Received? && response.results.None? ==> t.results == [])
      && (response.Received? && response.results.Some? ==>
            |t.results| == |response.results.value| && t.results == NormalizeAll(response.results.value))
  {
  }

  /** While a request is out, no banner, keyword line or result list is shown. */
  lemma NothingShownWhileLoading(s: State, query: string)
    ensures var t := BeginSearch(s, query);
      BannerOf(t) == NoBanner && !ShowsKeywords(t) && !ShowsResults(t) && !t.showAnalytics
  {
  }

  /** Blank input leaves the page as it was; other input is searched as typed. */
  lemma SubmitNeedsText(s: State, input: string, response: Response)
    ensures Trim(input) == "" ==> Submit(s, input, response) == s
    ensures Trim(input) != "" ==> Submit(s, input, response).query == input && Submit(s, input, response).hasSearched
  {
  }

  /**
   * A search that finds nothing keeps its keywords on screen with a
   * "No patents found" line and an empty result list.
   */
  lemma NoMatchesShowsKeywords(s: State, query: string, keywords: seq<string>)
    requires |keywords| > 0
    ensures var t := HandleSearch(s, query, Received(keywords, 0, Some([])));
      && ShowsKeywords(t) && !ShowsResults(t)
      && BannerOf(t) == NoneFound(Join(keywords, KeywordSeparator))
  {
  }

  // ---------------------------------------------------------------------------
  // The count left over from the previous search
  // ---------------------------------------------------------------------------

  /**
   * As written, a failed search keeps the previous total: after a search
   * that found matches, a failing one shows no results under a
   * "Found N matching patents" line for the old N.
   */
  lemma StaleCountAfterFailure(s: State, query: string)
    requires s.totalResults > 0
    ensures var t := HandleSearch(s, query, Failed);
      !ShowsResults(t) && BannerOf(t) == Found(s.totalResults)
  {
  }

  /** The same failing request reads differently depending on the search before it. */
  lemma BannerDependsOnHistory()
    ensures BannerOf(HandleSearch(Initial.(totalResults := 42), "x", Failed)) == Found(42)
    ensures BannerOf(HandleSearch(Initial, "x", Failed)) == NoneFound("")
  {
  }

  /** The search reset with the total cleared along with the results and keywords. */
  function BeginSearchFixed(s: State, query: string): (t: State)
    ensures t == BeginSearch(s, query).(totalResults := 0)
  {
    s.(query := query, loading := true, hasSearched := true, results := [], keywords := [],
       totalResults := 0, showAnalytics := false)
  }

  function HandleSearchFixed(s: State, query: string, response: Response): State
  {
    CompleteSearch(BeginSearchFixed(s, query), response)
  }

  /**
   * With the total cleared, what the page shows after a search depends on
   * that search's response alone, and a failure never shows a count.
   */
  lemma BannerReflectsResponse(s1: State, s2: State, query: string, response: Response)
    ensures BannerOf(HandleSearchFixed(s1, query, response)) == BannerOf(HandleSearchFixed(s2, query, response))
    ensures HandleSearchFixed(s1, query, response).results == HandleSearchFixed(s2, query, response).results
    ensures response.Failed? ==> !BannerOf(HandleSearchFixed(s1, query, response)).Found?
  {
  }

  /** Apart from the failure path, the correction changes nothing. */
  lemma FixKeepsSuccess(s: State, query: string, response: Response)
    requires response.Received?
    ensures HandleSearchFixed(s, query, response) == HandleSearch(s, query, response)
  {
  }
}

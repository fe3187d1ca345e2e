/**
 * The analytics dashboard's data: grouped counts over the full result list
 * (domain, technology, sub-technology, keyword, country), each sorted by
 * count, largest first, and cut to a fixed number of chart entries.
 */
module Dashboard {
  import opened Wrappers
  import opened Text
  import opened Tally
  import Card

  /** The fields of a result the dashboard reads (its own `Patent` interface). */
  datatype Patent = Patent(
    domain: Option<string>,
    technology: Option<string>,
    subTechnology: string,
    keywords: seq<string>,
    number: Option<string>)

  const Unknown: string := "Unknown"
  const Other: string := "OTH"
  const TechnologyLimit: nat := 10
  const SubTechnologyLimit: nat := 12
  const CountryLimit: nat := 15

  /** `results.length || 1`: the divisor for percentages and frequencies. */
  function Divisor(results: seq<Patent>): (t: nat)
    ensures t >= 1
    ensures |results| > 0 ==> t == |results|
  {
    if |results| == 0 then 1 else |results|
  }

  // ---------------------------------------------------------------------------
  // Labels
  // ---------------------------------------------------------------------------

  /**
   * `s.replace(/\*+/g, "")`: every asterisk dropped, every other character
   * kept in order, so text without asterisks comes back unchanged.
   */
  function RemoveAsterisks(s: string): (r: string)
    ensures '*' !in r
    ensures |r| <= |s|
    ensures '*' !in s ==> r == s
  {
    if |s| == 0 then ""
    else
      assert '*' !in s ==> '*' !in s[1..] by {
        assert forall c :: c in s[1..] ==> c in s;
      }
      var r := (if s[0] == '*' then "" else [s[0]]) + RemoveAsterisks(s[1..]);
      assert '*' !in s ==> r == [s[0]] + s[1..];
      r
  }

  /** Removing asterisks works piece by piece: no run of them spans the cut differently. */
  lemma {:induction false} RemoveAsterisksAppend(a: string, b: string)
    ensures RemoveAsterisks(a + b) == RemoveAsterisks(a) + RemoveAsterisks(b)
    decreases |a|
  {
    if |a| > 0 {
      assert (a + b)[0] == a[0];
      assert (a + b)[1..] == a[1..] + b;
      RemoveAsterisksAppend(a[1..], b);
    } else {
      assert a + b == b;
    }
  }

  /** One character: an asterisk disappears, anything else stays. */
  lemma RemoveAsterisksChar(c: char)
    ensures RemoveAsterisks([c]) == if c == '*' then "" else [c]
  {
    assert [c][1..] == "";
  }

  /** The field when it is truthy, otherwise `fallback`: `field || fallback`. */
  function OrElse(field: Option<string>, fallback: string): (r: string)
    ensures Truthy(field) ==> r == field.value
    ensures !Truthy(field) ==> r == fallback
  {
    if Truthy(field) then field.value else fallback
  }

  /**
   * The cleaned category label: `field || "Unknown"`, all asterisks
   * removed, trimmed, and `"Unknown"` again if nothing is left.
   */
  function CleanLabel(field: Option<string>): (r: string)
    ensures r != "" && '*' !in r && IsTrimmed(r)
  {
    var raw := RemoveAsterisks(OrElse(field, Unknown));
    TrimKeepsNoAsterisk(raw);
    var d := Trim(raw);
    UnknownIsLabel();
    if d == "" then Unknown else d
  }

  lemma UnknownIsLabel()
    ensures Unknown != "" && '*' !in Unknown && IsTrimmed(Unknown)
  {
  }

  lemma TrimKeepsNoAsterisk(s: string)
    requires '*' !in s
    ensures '*' !in Trim(s)
  {
    TrimIsInfix(s);
    var t := Trim(s);
    var a := LeadingSpace(s);
    forall k | 0 <= k < |t|
      ensures t[k] != '*'
    {
      assert t[k] == s[a + k];
    }
  }

  /**
   * The label of a present field is its own text with asterisks and
   * surrounding whitespace removed, and `"Unknown"` stands exactly for the
   * fields that have nothing else to show.
   */
  lemma CleanLabelFallback(field: Option<string>)
    ensures var cleaned := Trim(RemoveAsterisks(field.GetOr("")));
      CleanLabel(field) == (if cleaned == "" then Unknown else cleaned)
  {
    var raw := OrElse(field, Unknown);
    if !Truthy(field) {
      assert field.GetOr("") == "";
      assert RemoveAsterisks("") == [];
      assert Trim([]) == [] by { assert IsTrimmed([]); }
      UnknownIsClean();
      assert raw == Unknown;
    } else {
      assert raw == field.GetOr("");
    }
  }

  lemma UnknownIsClean()
    ensures RemoveAsterisks(Unknown) == Unknown && Trim(Unknown) == Unknown
  {
    UnknownHasNoAsterisk();
    UnknownIsTrimmed();
  }

  lemma UnknownHasNoAsterisk()
    ensures RemoveAsterisks(Unknown) == Unknown
  {
    assert '*' !in Unknown;
  }

  lemma UnknownIsTrimmed()
    ensures Trim(Unknown) == Unknown
  {
    assert IsTrimmed(Unknown);
  }

  /** Cleaning a cleaned label changes nothing. */
  lemma CleanLabelIdempotent(field: Option<string>)
    ensures CleanLabel(Some(CleanLabel(field))) == CleanLabel(field)
  {
    var l := CleanLabel(field);
    assert Truthy(Some(l));
    assert Trim(l) == l;
  }

  // ---------------------------------------------------------------------------
  // Country code
  // ---------------------------------------------------------------------------

  /**
   * `/^([A-Z]{2})/i` on `number || ""`: the first two characters upper-cased
   * when both are ASCII letters, `"OTH"` otherwise.
   */
  function CountryCode(number: Option<string>): (r: string)
    ensures var n := number.GetOr("");
      (|n| >= 2 && IsAsciiLetter(n[0]) && IsAsciiLetter(n[1])) <==> r != Other
    ensures var n := number.GetOr("");
      r != Other ==> |r| == 2 && IsAsciiUpper(r[0]) && IsAsciiUpper(r[1]) && FoldEq(r, n[..2])
  {
    var n := number.GetOr("");
    if |n| >= 2 && IsAsciiLetter(n[0]) && IsAsciiLetter(n[1]) then
      var r := [UpperChar(n[0]), UpperChar(n[1])];
      assert Lower(r) == Lower(n[..2]);
      r
    else Other
  }

  /** Two upper-case ASCII letters, or `"OTH"`. */
  predicate IsCountryLabel(s: string) {
    s == Other || (|s| == 2 && IsAsciiUpper(s[0]) && IsAsciiUpper(s[1]))
  }

  lemma CountryCodeExamples()
    ensures CountryCode(Some("US1023456")) == "US"
    ensures CountryCode(Some("us12")) == "US"
    ensures CountryCode(Some("9876543")) == Other
    ensures CountryCode(Some("E")) == Other
    ensures CountryCode(None) == Other
  {
  }

  // ---------------------------------------------------------------------------
  // Vote lists
  // ---------------------------------------------------------------------------

  function DomainLabels(results: seq<Patent>): (r: seq<string>)
    ensures |r| == |results| && forall i :: 0 <= i < |r| ==> r[i] == CleanLabel(results[i].domain)
  {
    seq(|results|, i requires 0 <= i < |results| => CleanLabel(results[i].domain))
  }

  function TechnologyLabels(results: seq<Patent>): (r: seq<string>)
    ensures |r| == |results| && forall i :: 0 <= i < |r| ==> r[i] == CleanLabel(results[i].technology)
  {
    seq(|results|, i requires 0 <= i < |results| => CleanLabel(results[i].technology))
  }

  function CountryLabels(results: seq<Patent>): (r: seq<string>)
    ensures |r| == |results| && forall i :: 0 <= i < |r| ==> r[i] == CountryCode(results[i].number)
  {
    seq(|results|, i requires 0 <= i < |results| => CountryCode(results[i].number))
  }

  /**
   * `results.flatMap(p => splitValues(p.subTechnology))`: every value of
   * every record is a vote, each as often as its record names it.
   */
  function SubTechnologyLabels(results: seq<Patent>): (r: seq<string>)
    ensures forall i :: 0 <= i < |r| ==> Card.IsValue(r[i])
    ensures VotesCover(results, r)
    decreases |results|
  {
    if |results| == 0 then []
    else
      var head := Card.SplitValues(results[0].subTechnology);
      var tail := SubTechnologyLabels(results[1..]);
      VotesCoverStep(results, head, tail);
      head + tail
  }

  /** Each result's values are among the votes, as often as it names them. */
  ghost predicate VotesCover(results: seq<Patent>, votes: seq<string>) {
    forall i :: 0 <= i < |results| ==> multiset(Card.SplitValues(results[i].subTechnology)) <= multiset(votes)
  }

  lemma VotesCoverStep(results: seq<Patent>, head: seq<string>, tail: seq<string>)
    requires |results| > 0 && head == Card.SplitValues(results[0].subTechnology)
    requires VotesCover(results[1..], tail)
    ensures VotesCover(results, head + tail)
  {
    forall i | 0 <= i < |results|
      ensures multiset(Card.SplitValues(results[i].subTechnology)) <= multiset(head + tail)
    {
      if i == 0 {
        CoveredByAppend(multiset(head), head, tail);
      } else {
        var m := multiset(Card.SplitValues(results[i].subTechnology));
        assert m <= multiset(tail) by {
          assert results[i] == results[1..][i - 1];
        }
        CoveredByAppend(m, head, tail);
      }
    }
  }

  lemma CoveredByAppend(m: multiset<string>, head: seq<string>, tail: seq<string>)
    requires m <= multiset(head) || m <= multiset(tail)
    ensures m <= multiset(head + tail)
  {
    assert multiset(head + tail) == multiset(head) + multiset(tail);
  }

  /** The votes of two lists of results are the votes of each, in order. */
  lemma {:induction false} SubTechnologyLabelsAppend(a: seq<Patent>, b: seq<Patent>)
    ensures SubTechnologyLabels(a + b) == SubTechnologyLabels(a) + SubTechnologyLabels(b)
    decreases |a|
  {
    if |a| == 0 {
      assert a + b == b;
    } else {
      assert (a + b)[0] == a[0];
      assert (a + b)[1..] == a[1..] + b;
      SubTechnologyLabelsAppend(a[1..], b);
    }
  }

  /** One result's votes are exactly its split values. */
  lemma SubTechnologyLabelsSingle(p: Patent)
    ensures SubTechnologyLabels([p]) == Card.SplitValues(p.subTechnology)
  {
    assert [p][1..] == [];
  }

  /** `results.flatMap(p => p.keywords || [])`. */
  function AllKeywords(results: seq<Patent>): seq<string>
  {
    if |results| == 0 then [] else results[0].keywords + AllKeywords(results[1..])
  }

  /** The keywords trimmed, empty ones skipped; every keyword not blank is kept, trimmed. */
  function KeywordLabels(keywords: seq<string>): (r: seq<string>)
    ensures |r| <= |keywords|
    ensures forall i :: 0 <= i < |r| ==> r[i] != "" && IsTrimmed(r[i])
    ensures forall j :: 0 <= j < |keywords| && Trim(keywords[j]) != "" ==> Trim(keywords[j]) in r
  {
    Card.TrimNonEmpty(keywords)
  }

  // ---------------------------------------------------------------------------
  // Count maps
  // ---------------------------------------------------------------------------

  /** `domainCount`: every result casts exactly one domain vote. */
  function DomainCount(results: seq<Patent>): (r: seq<Entry>)
    ensures Total(r) == |results|
    ensures forall k :: CountOf(r, k) == multiset(DomainLabels(results))[k]
  {
    TallyCounts(DomainLabels(results));
    TallyOf(DomainLabels(results))
  }

  /** `techCount`: every result casts exactly one technology vote. */
  function TechnologyCount(results: seq<Patent>): (r: seq<Entry>)
    ensures Total(r) == |results|
    ensures forall k :: CountOf(r, k) == multiset(TechnologyLabels(results))[k]
  {
    TallyCounts(TechnologyLabels(results));
    TallyOf(TechnologyLabels(results))
  }

  /** `subtechCount`: one vote per non-empty trimmed piece. */
  function SubTechnologyCount(results: seq<Patent>): (r: seq<Entry>)
    ensures Total(r) == |SubTechnologyLabels(results)|
    ensures forall k :: CountOf(r, k) == multiset(SubTechnologyLabels(results))[k]
  {
    TallyCounts(SubTechnologyLabels(results));
    TallyOf(SubTechnologyLabels(results))
  }

  /** `keywordCount`: keyed by the trimmed keyword; blank keywords never counted. */
  function KeywordCount(results: seq<Patent>): (r: seq<Entry>)
    ensures CountOf(r, "") == 0
    ensures forall i :: 0 <= i < |r| ==> r[i].name != "" && IsTrimmed(r[i].name)
    ensures forall k :: CountOf(r, k) == multiset(KeywordLabels(AllKeywords(results)))[k]
  {
    var labels := KeywordLabels(AllKeywords(results));
    TallyCounts(labels);
    TallyDistinct(labels);
    var r := TallyOf(labels);
    forall i | 0 <= i < |r|
      ensures r[i].name != "" && IsTrimmed(r[i].name)
    {
      assert Names(r)[i] == r[i].name;
      assert r[i].name in Names(r);
      var j :| 0 <= j < |labels| && labels[j] == r[i].name;
    }
    assert "" !in labels;
    r
  }

  /** `countryCount`: every result casts exactly one country vote. */
  function CountryCount(results: seq<Patent>): (r: seq<Entry>)
    ensures Total(r) == |results|
    ensures forall k :: CountOf(r, k) == multiset(CountryLabels(results))[k]
  {
    TallyCounts(CountryLabels(results));
    TallyOf(CountryLabels(results))
  }

  // ---------------------------------------------------------------------------
  // Chart data
  // ---------------------------------------------------------------------------

  /**
   * `Math.round(value / total * 100)` on exact rationals: the integer
   * nearest to `100 * value / total`, halves rounded up.
   */
  function Percent(value: nat, total: nat): (p: nat)
    requires total >= 1
    ensures 2 * total * p <= 200 * value + total < 2 * total * (p + 1)
  {
    (200 * value + total) / (2 * total)
  }

  datatype DomainSlice = DomainSlice(name: string, value: nat, percentage: nat)

  function WithPercentages(es: seq<Entry>, total: nat): (r: seq<DomainSlice>)
    requires total >= 1
    ensures |r| == |es|
    ensures forall i :: 0 <= i < |r| ==>
      r[i].name == es[i].name && r[i].value == es[i].value && r[i].percentage == Percent(es[i].value, total)
  {
    seq(|es|, i requires 0 <= i < |es| => DomainSlice(es[i].name, es[i].value, Percent(es[i].value, total)))
  }

  /** `domainData`: every domain, largest first, with its rounded percentage. */
  function DomainData(results: seq<Patent>): (r: seq<DomainSlice>)
    ensures forall i, j :: 0 <= i < j < |r| ==> r[i].value >= r[j].value
    ensures forall i :: 0 <= i < |r| ==> r[i].percentage == Percent(r[i].value, Divisor(results))
  {
    WithPercentages(SortDesc(DomainCount(results)), Divisor(results))
  }

  /** `techData`: the ten most frequent technologies, or every technology when there are fewer. */
  function TechnologyData(results: seq<Patent>): (r: seq<Entry>)
    ensures var n := |DistinctLabels(TechnologyLabels(results))|;
      |r| == if n <= TechnologyLimit then n else TechnologyLimit
    ensures SortedDesc(r)
  {
    TopSize(TechnologyLabels(results), TechnologyLimit);
    Top(SortDesc(TechnologyCount(results)), TechnologyLimit)
  }

  /** The technology chart's bars are the most frequent technologies with their counts. */
  lemma TechnologyDataMostFrequent(results: seq<Patent>)
    ensures MostFrequent(TechnologyData(results), TechnologyLabels(results))
  {
    TopIsMostFrequent(TechnologyLabels(results), TechnologyLimit);
  }

  /** A sub-technology's frequency `count / total`, kept as an exact fraction. */
  datatype Share = Share(name: string, count: nat, outOf: nat)

  function AsShares(es: seq<Entry>, total: nat): (r: seq<Share>)
    ensures |r| == |es|
    ensures forall i :: 0 <= i < |r| ==> r[i] == Share(es[i].name, es[i].value, total)
  {
    seq(|es|, i requires 0 <= i < |es| => Share(es[i].name, es[i].value, total))
  }

  /**
   * `subtechData`: the twelve most frequent sub-technologies. Sorting by
   * `count / total` is sorting by count, the divisor being one positive
   * number for all of them.
   */
  function SubTechnologyData(results: seq<Patent>): (r: seq<Share>)
    ensures var n := |DistinctLabels(SubTechnologyLabels(results))|;
      |r| == if n <= SubTechnologyLimit then n else SubTechnologyLimit
    ensures forall i :: 0 <= i < |r| ==> r[i].outOf == Divisor(results)
    ensures forall i, j :: 0 <= i < j < |r| ==> r[i].count >= r[j].count
  {
    AsShares(SubTechnologyTop(results), Divisor(results))
  }

  /** The twelve largest sub-technology counts, before they become frequencies. */
  function SubTechnologyTop(results: seq<Patent>): (r: seq<Entry>)
    ensures var n := |DistinctLabels(SubTechnologyLabels(results))|;
      |r| == if n <= SubTechnologyLimit then n else SubTechnologyLimit
    ensures SortedDesc(r)
  {
    var labels := SubTechnologyLabels(results);
    assert SubTechnologyCount(results) == TallyOf(labels);
    TopSize(labels, SubTechnologyLimit);
    Top(SortDesc(TallyOf(labels)), SubTechnologyLimit)
  }

  /** `countryData`: the fifteen most frequent country codes, or every code when there are fewer. */
  function CountryData(results: seq<Patent>): (r: seq<Entry>)
    ensures var n := |DistinctLabels(CountryLabels(results))|;
      |r| == if n <= CountryLimit then n else CountryLimit
    ensures SortedDesc(r)
    ensures forall i :: 0 <= i < |r| ==> IsCountryLabel(r[i].name)
  {
    var all := SortDesc(CountryCount(results));
    CountryNames(results, all);
    TopSize(CountryLabels(results), CountryLimit);
    Top(all, CountryLimit)
  }

  lemma CountryNames(results: seq<Patent>, all: seq<Entry>)
    requires all == SortDesc(CountryCount(results))
    ensures forall i :: 0 <= i < |all| ==> IsCountryLabel(all[i].name)
  {
    var labels := CountryLabels(results);
    SortedTallyNames(labels);
    forall i | 0 <= i < |all|
      ensures IsCountryLabel(all[i].name)
    {
      var j :| 0 <= j < |labels| && labels[j] == all[i].name;
    }
  }

  /** The country chart's bars are the most frequent country codes with their counts. */
  lemma CountryDataMostFrequent(results: seq<Patent>)
    ensures MostFrequent(CountryData(results), CountryLabels(results))
  {
    TopIsMostFrequent(CountryLabels(results), CountryLimit);
  }

  function ShareNames(r: seq<Share>): (ns: seq<string>)
    ensures |ns| == |r| && forall i :: 0 <= i < |r| ==> ns[i] == r[i].name
  {
    seq(|r|, i requires 0 <= i < |r| => r[i].name)
  }

  /** `MostFrequent` for frequencies: each share counts its label, and no label left out occurs more often. */
  ghost predicate SharesMostFrequent(r: seq<Share>, labels: seq<string>) {
    && (forall i :: 0 <= i < |r| ==> r[i].count == multiset(labels)[r[i].name])
    && (forall i, x :: 0 <= i < |r| && x !in ShareNames(r) ==> r[i].count >= multiset(labels)[x])
  }

  /**
   * The sub-technology chart's bars are the most frequent pieces, each with
   * its number of occurrences over all results.
   */
  lemma SubTechnologyDataMostFrequent(results: seq<Patent>)
    ensures SharesMostFrequent(SubTechnologyData(results), SubTechnologyLabels(results))
  {
    var labels := SubTechnologyLabels(results);
    var top := Top(SortDesc(TallyOf(labels)), SubTechnologyLimit);
    TopIsMostFrequent(labels, SubTechnologyLimit);
    SharesOfLabels(results, labels);
    SharesKeepMostFrequent(top, Divisor(results), labels);
  }

  lemma SharesKeepMostFrequent(es: seq<Entry>, total: nat, labels: seq<string>)
    requires MostFrequent(es, labels)
    ensures SharesMostFrequent(AsShares(es, total), labels)
  {
    assert ShareNames(AsShares(es, total)) == Names(es);
  }

  /** Every domain is in the pie with its number of results, and no domain is missing. */
  lemma DomainDataCounts(results: seq<Patent>)
    ensures var r := DomainData(results); var labels := DomainLabels(results);
      (forall i :: 0 <= i < |r| ==> r[i].value == multiset(labels)[r[i].name])
      && (forall x :: x in labels ==> exists i :: 0 <= i < |r| && r[i].name == x)
  {
    var labels := DomainLabels(results);
    var sorted := SortDesc(TallyOf(labels));
    SortedTallyCounts(labels);
    SlicesOfCounts(labels, sorted, Divisor(results), DomainData(results));
  }

  lemma SlicesOfCounts(labels: seq<string>, es: seq<Entry>, t: nat, r: seq<DomainSlice>)
    requires t >= 1 && r == WithPercentages(es, t)
    requires forall i :: 0 <= i < |es| ==> es[i].value == multiset(labels)[es[i].name]
    requires forall x :: x in labels ==> x in Names(es)
    ensures forall i :: 0 <= i < |r| ==> r[i].value == multiset(labels)[r[i].name]
    ensures forall x :: x in labels ==> exists i :: 0 <= i < |r| && r[i].name == x
  {
    forall x | x in labels
      ensures exists i :: 0 <= i < |r| && r[i].name == x
    {
      var i :| 0 <= i < |es| && Names(es)[i] == x;
      assert r[i].name == x;
    }
  }

  /** The charts the dashboard draws; with no results it draws nothing. */
  datatype Charts = Charts(
    domains: seq<DomainSlice>,
    technologies: seq<Entry>,
    subTechnologies: seq<Share>,
    countries: seq<Entry>)

  function Render(results: seq<Patent>): (r: Option<Charts>)
    ensures r.None? <==> |results| == 0
  {
    if |results| == 0 then None
    else Some(Charts(DomainData(results), TechnologyData(results), SubTechnologyData(results), CountryData(results)))
  }

  // ---------------------------------------------------------------------------
  // Properties over whole result lists
  // ---------------------------------------------------------------------------

  function SliceTotal(ds: seq<DomainSlice>): nat
  {
    if |ds| == 0 then 0 else ds[0].value + SliceTotal(ds[1..])
  }

  function PercentTotal(ds: seq<DomainSlice>): nat
  {
    if |ds| == 0 then 0 else ds[0].percentage + PercentTotal(ds[1..])
  }

  /** The domain pie counts every result exactly once. */
  lemma DomainDataCoversResults(results: seq<Patent>)
    ensures SliceTotal(DomainData(results)) == |results|
  {
    var sorted := SortDesc(DomainCount(results));
    SliceTotalMatches(sorted, Divisor(results));
  }

  lemma {:induction false} SliceTotalMatches(es: seq<Entry>, total: nat)
    requires total >= 1
    ensures SliceTotal(WithPercentages(es, total)) == Total(es)
    decreases |es|
  {
    if |es| > 0 {
      SliceTotalMatches(es[1..], total);
      assert WithPercentages(es, total)[1..] == WithPercentages(es[1..], total);
    }
  }

  /**
   * Rounded percentages stay close to 100: with `n` domains the sum is
   * within `n / 2` points of 100 (more than `100 - n/2`, at most `100 + n/2`).
   */
  lemma DomainPercentagesNearHundred(results: seq<Patent>)
    requires |results| > 0
    ensures var ds := DomainData(results);
      200 - |ds| < 2 * PercentTotal(ds) <= 200 + |ds|
  {
    var ds := DomainData(results);
    DomainDataCoversResults(results);
    PercentSumNearHundred(ds, |results|);
  }

  /** Slices whose values add up to `t`, each with its percentage of `t`. */
  lemma PercentSumNearHundred(ds: seq<DomainSlice>, t: nat)
    requires t >= 1 && SliceTotal(ds) == t && |ds| > 0
    requires forall i :: 0 <= i < |ds| ==> ds[i].percentage == Percent(ds[i].value, t)
    ensures 200 - |ds| < 2 * PercentTotal(ds) <= 200 + |ds|
  {
    PercentBounds(ds, t);
    Unscale(t, PercentTotal(ds), |ds|);
  }

  /** Dividing the summed bounds by the positive total `t`. */
  lemma Unscale(t: int, p: int, n: int)
    requires t >= 1
    requires 2 * t * p <= 200 * t + n * t
    requires 200 * t < 2 * t * p + n * t
    ensures 200 - n < 2 * p <= 200 + n
  {
    assert t * (2 * p) == 2 * t * p;
    assert t * (200 + n) == 200 * t + n * t;
    assert t * (200 - n) == 200 * t - n * t;
    ScaleBack(t, 200 - n, 2 * p);
    ScaleBackWeak(t, 2 * p, 200 + n);
  }

  lemma ScaleBackWeak(t: int, a: int, b: int)
    requires t > 0 && t * a <= t * b
    ensures a <= b
  {
    assert t * (b - a) == t * b - t * a;
    assert t * (b - a) >= 0;
  }

  lemma ScaleBack(t: int, a: int, b: int)
    requires t > 0 && t * a < t * b
    ensures a < b
  {
    assert t * (b - a) == t * b - t * a;
    assert t * (b - a) > 0;
  }

  /** Summing each slice's rounding bound `200 v - t < 2 t p <= 200 v + t`. */
  lemma {:induction false} PercentBounds(ds: seq<DomainSlice>, t: nat)
    requires t >= 1
    requires forall i :: 0 <= i < |ds| ==> ds[i].percentage == Percent(ds[i].value, t)
    ensures 2 * t * PercentTotal(ds) <= 200 * SliceTotal(ds) + |ds| * t
    ensures 200 * SliceTotal(ds) <= 2 * t * PercentTotal(ds) + |ds| * t
    ensures |ds| > 0 ==> 200 * SliceTotal(ds) < 2 * t * PercentTotal(ds) + |ds| * t
    decreases |ds|
  {
    if |ds| > 0 {
      var rest := ds[1..];
      PercentBounds(rest, t);
      AddBound(t, ds[0].value, ds[0].percentage, SliceTotal(rest), PercentTotal(rest), |rest|);
      assert |ds| == |rest| + 1;
    }
  }

  /** One slice's rounding bound added to the bound for the slices after it. */
  lemma AddBound(t: int, v: int, p: int, sRest: int, pRest: int, nRest: int)
    requires t >= 1
    requires 2 * t * p <= 200 * v + t < 2 * t * (p + 1)
    requires 2 * t * pRest <= 200 * sRest + nRest * t
    requires 200 * sRest <= 2 * t * pRest + nRest * t
    ensures 2 * t * (p + pRest) <= 200 * (v + sRest) + (nRest + 1) * t
    ensures 200 * (v + sRest) < 2 * t * (p + pRest) + (nRest + 1) * t
  {
    assert 2 * t * (p + 1) == 2 * t * p + 2 * t;
    assert 2 * t * (p + pRest) == 2 * t * p + 2 * t * pRest;
    assert (nRest + 1) * t == nRest * t + t;
  }

  /**
   * A sub-technology's frequency is not bounded by 1: one result that names
   * the same sub-technology twice, as in `"A; A"`, gives it frequency 2.
   */
  lemma SubTechnologyFrequencyCanExceedOne(p: Patent, v: string)
    requires Card.IsValue(v) && p.subTechnology == v + "; " + v
    ensures SubTechnologyData([p]) == [Share(v, 2, 1)]
  {
    var results := [p];
    RepeatedPieceSplits(v);
    assert SubTechnologyLabels(results) == [v, v] by {
      assert SubTechnologyLabels(results[1..]) == [];
    }
    SharesOfLabels(results, [v, v]);
    TwoVotes(v);
    assert Top([Entry(v, 2)], SubTechnologyLimit) == [Entry(v, 2)];
    var r := AsShares([Entry(v, 2)], 1);
    assert |r| == 1 && r[0] == Share(v, 2, 1);
  }

  lemma SharesOfLabels(results: seq<Patent>, labels: seq<string>)
    requires SubTechnologyLabels(results) == labels
    ensures SubTechnologyData(results) == AsShares(Top(SortDesc(TallyOf(labels)), SubTechnologyLimit), Divisor(results))
  {
  }

  lemma RepeatedPieceSplits(v: string)
    requires Card.IsValue(v)
    ensures Card.SplitValues(v + "; " + v) == [v, v]
  {
    RepeatedPieceDelimits(v);
    PaddedPieceTrims(v);
    assert Card.TrimNonEmpty([v, " " + v]) == [v] + Card.TrimNonEmpty([" " + v]);
    assert Card.TrimNonEmpty([" " + v]) == [v] + Card.TrimNonEmpty([]);
  }

  lemma RepeatedPieceDelimits(v: string)
    requires HasNoDelimiter(v)
    ensures SplitOnDelimiters(v + "; " + v) == [v, " " + v]
  {
    assert v + "; " + v == v + [';'] + (" " + v);
    assert HasNoDelimiter(" " + v) by {
      assert forall k :: 1 <= k < |" " + v| ==> (" " + v)[k] == v[k - 1];
    }
    SplitOnDelimitersAfterPiece(v, ';', " " + v);
    SplitOnDelimitersSinglePiece(" " + v);
  }

  lemma PaddedPieceTrims(v: string)
    requires IsTrimmed(v)
    ensures Trim(v) == v && Trim(" " + v) == v
  {
    TrimSkipsLeadingWhitespace(' ', v);
    assert [' '] + v == " " + v;
  }

  lemma TwoVotes(v: string)
    ensures SortDesc(TallyOf([v, v])) == [Entry(v, 2)]
  {
    assert [v, v][..1] == [v];
    assert [v][..0] == [];
    assert TallyOf([v]) == [Entry(v, 1)];
    assert TallyOf([v, v]) == Vote([Entry(v, 1)], v);
    assert SortDesc([Entry(v, 2)]) == Insert(Entry(v, 2), SortDesc([]));
  }
}

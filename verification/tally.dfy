/**
 * Grouped counts as the dashboard builds them: a `reduce` into a plain
 * object (`acc[k] = (acc[k] || 0) + 1`), read back with `Object.entries`,
 * then `sort((a, b) => b.value - a.value)` and `slice(0, k)`.
 *
 * The object is modelled as its entry list in key-insertion order, which is
 * what `Object.entries` returns for keys that are not array indices.
 */
module Tally {

  datatype Entry = Entry(name: string, value: nat)

  function Names(es: seq<Entry>): (r: seq<string>)
    ensures |r| == |es| && forall i :: 0 <= i < |es| ==> r[i] == es[i].name
  {
    seq(|es|, i requires 0 <= i < |es| => es[i].name)
  }

  /** Sum of all values. */
  function Total(es: seq<Entry>): nat
  {
    if |es| == 0 then 0 else es[0].value + Total(es[1..])
  }

  /** The value recorded for `k`: the sum over the entries named `k` (0 if none). */
  function CountOf(es: seq<Entry>, k: string): nat
  {
    if |es| == 0 then 0 else (if es[0].name == k then es[0].value else 0) + CountOf(es[1..], k)
  }

  predicate DistinctNames(es: seq<Entry>) {
    forall i, j :: 0 <= i < j < |es| ==> es[i].name != es[j].name
  }

  predicate Positive(es: seq<Entry>) {
    forall i :: 0 <= i < |es| ==> es[i].value >= 1
  }

  /** Position of the first occurrence of `k` in `labels`. */
  function FirstIndex(labels: seq<string>, k: string): (i: nat)
    requires k in labels
    ensures i < |labels| && labels[i] == k
    ensures forall j :: 0 <= j < i ==> labels[j] != k
  {
    if labels[0] == k then 0 else 1 + FirstIndex(labels[1..], k)
  }

  lemma FirstIndexOfPrefix(labels: seq<string>, x: string, k: string)
    requires k in labels
    ensures k in labels + [x] && FirstIndex(labels + [x], k) == FirstIndex(labels, k)
  {
    var i := FirstIndex(labels, k);
    var j := FirstIndex(labels + [x], k);
    assert (labels + [x])[i] == k;
    assert j <= i;
    assert labels[j] == (labels + [x])[j];
  }

  /** One vote for `k`: `acc[k] = (acc[k] || 0) + 1`. */
  function Vote(es: seq<Entry>, k: string): (r: seq<Entry>)
    ensures |es| <= |r| <= |es| + 1
  {
    if |es| == 0 then [Entry(k, 1)]
    else if es[0].name == k then [Entry(k, es[0].value + 1)] + es[1..]
    else [es[0]] + Vote(es[1..], k)
  }

  /** A vote adds one to `k`'s count and to the total, and leaves every other count alone. */
  lemma {:induction false} VoteCounts(es: seq<Entry>, k: string)
    ensures CountOf(Vote(es, k), k) == CountOf(es, k) + 1
    ensures forall k' :: k' != k ==> CountOf(Vote(es, k), k') == CountOf(es, k')
    ensures Total(Vote(es, k)) == Total(es) + 1
    ensures Positive(es) ==> Positive(Vote(es, k))
    decreases |es|
  {
    var r := Vote(es, k);
    if |es| == 0 {
    } else if es[0].name == k {
      assert r[1..] == es[1..];
    } else {
      VoteCounts(es[1..], k);
      assert r[1..] == Vote(es[1..], k);
    }
  }

  /** A vote for a known name keeps the names; a new name is appended. */
  lemma {:induction false} VoteNames(es: seq<Entry>, k: string)
    ensures k in Names(es) ==> Names(Vote(es, k)) == Names(es)
    ensures k !in Names(es) ==> Names(Vote(es, k)) == Names(es) + [k]
    decreases |es|
  {
    if |es| > 0 {
      NamesCons(es[0], es[1..]);
      assert [es[0]] + es[1..] == es;
      if es[0].name == k {
        NamesCons(Entry(k, es[0].value + 1), es[1..]);
      } else {
        VoteNames(es[1..], k);
        NamesCons(es[0], Vote(es[1..], k));
        if k !in Names(es) {
          assert [es[0].name] + (Names(es[1..]) + [k]) == ([es[0].name] + Names(es[1..])) + [k];
        }
      }
    }
  }

  lemma NamesCons(e: Entry, es: seq<Entry>)
    ensures Names([e] + es) == [e.name] + Names(es)
  {
  }

  lemma VoteKeepsDistinct(es: seq<Entry>, k: string)
    requires DistinctNames(es)
    ensures DistinctNames(Vote(es, k))
  {
    var r := Vote(es, k);
    VoteNames(es, k);
    var ns := Names(r);
    forall i, j | 0 <= i < j < |r|
      ensures r[i].name != r[j].name
    {
      if j < |es| {
        assert ns[i] == Names(es)[i] && ns[j] == Names(es)[j];
      } else {
        assert k !in Names(es) && ns[j] == k;
        assert ns[i] == Names(es)[i];
      }
    }
  }

  /**
   * The object a `reduce` over `labels` builds, one vote per label in
   * order.
   */
  function TallyOf(labels: seq<string>): (r: seq<Entry>)
    ensures |r| <= |labels|
    ensures |labels| > 0 ==> |r| > 0
  {
    if |labels| == 0 then [] else Vote(TallyOf(labels[..|labels| - 1]), labels[|labels| - 1])
  }

  /** Each label's count is its number of occurrences, so the counts sum to the number of labels. */
  lemma {:induction false} TallyCounts(labels: seq<string>)
    ensures Total(TallyOf(labels)) == |labels|
    ensures forall k :: CountOf(TallyOf(labels), k) == multiset(labels)[k]
    ensures Positive(TallyOf(labels))
    decreases |labels|
  {
    if |labels| > 0 {
      var init := labels[..|labels| - 1];
      var x := labels[|labels| - 1];
      assert labels == init + [x];
      TallyCounts(init);
      VoteCounts(TallyOf(init), x);
    }
  }

  /** One entry per distinct label. */
  lemma {:induction false} TallyDistinct(labels: seq<string>)
    ensures DistinctNames(TallyOf(labels))
    ensures forall k :: k in Names(TallyOf(labels)) <==> k in labels
    decreases |labels|
  {
    if |labels| > 0 {
      var init := labels[..|labels| - 1];
      var x := labels[|labels| - 1];
      assert labels == init + [x];
      TallyDistinct(init);
      var prev := TallyOf(init);
      VoteNames(prev, x);
      VoteKeepsDistinct(prev, x);
    }
  }

  /** The different labels of a list. */
  ghost function DistinctLabels(labels: seq<string>): set<string>
  {
    set x | x in labels
  }

  /** The count object has exactly as many keys as there are different labels. */
  lemma {:induction false} TallySize(labels: seq<string>)
    ensures |TallyOf(labels)| == |DistinctLabels(labels)|
    decreases |labels|
  {
    if |labels| > 0 {
      var init := labels[..|labels| - 1];
      var x := labels[|labels| - 1];
      assert labels == init + [x];
      TallySize(init);
      TallyDistinct(init);
      var prev := TallyOf(init);
      VoteNames(prev, x);
      if x in init {
        assert DistinctLabels(labels) == DistinctLabels(init);
      } else {
        assert DistinctLabels(labels) == DistinctLabels(init) + {x};
      }
    }
  }

  /**
   * The cut series keeps `k` entries, or one per different label when
   * there are fewer: `min(k, number of different labels)`.
   */
  lemma TopSize(labels: seq<string>, k: nat)
    ensures var n := |DistinctLabels(labels)|;
      |Top(SortDesc(TallyOf(labels)), k)| == if n <= k then n else k
  {
    TallySize(labels);
    var es := TallyOf(labels);
    assert |multiset(SortDesc(es))| == |multiset(es)|;
  }

  /** Entries appear in the order in which their labels first appear. */
  lemma {:induction false} TallyFirstSeen(labels: seq<string>)
    ensures forall i, j :: 0 <= i < j < |TallyOf(labels)| ==> FirstSeenBefore(labels, TallyOf(labels)[i].name, TallyOf(labels)[j].name)
    decreases |labels|
  {
    if |labels| > 0 {
      var init := labels[..|labels| - 1];
      var x := labels[|labels| - 1];
      TallyFirstSeen(init);
      TallyDistinct(init);
      var prev := TallyOf(init);
      VoteNames(prev, x);
      TallyOrder(labels, init, x, prev, Vote(prev, x));
    }
  }

  /** `a` and `b` both occur in `labels`, and `a` first occurs earlier. */
  predicate FirstSeenBefore(labels: seq<string>, a: string, b: string) {
    a in labels && b in labels && FirstIndex(labels, a) < FirstIndex(labels, b)
  }

  lemma TallyOrder(labels: seq<string>, init: seq<string>, x: string, prev: seq<Entry>, r: seq<Entry>)
    requires labels == init + [x]
    requires forall k :: k in Names(prev) <==> k in init
    requires forall i, j :: 0 <= i < j < |prev| ==> FirstSeenBefore(init, prev[i].name, prev[j].name)
    requires x in Names(prev) ==> Names(r) == Names(prev)
    requires x !in Names(prev) ==> Names(r) == Names(prev) + [x]
    ensures forall i, j :: 0 <= i < j < |r| ==> FirstSeenBefore(labels, r[i].name, r[j].name)
  {
    assert |Names(r)| == |r|;
    forall i, j | 0 <= i < j < |r|
      ensures FirstSeenBefore(labels, r[i].name, r[j].name)
    {
      assert Names(r)[i] == r[i].name && Names(r)[j] == r[j].name;
      if j < |prev| {
        assert Names(prev)[i] == r[i].name && Names(prev)[j] == r[j].name;
        assert FirstSeenBefore(init, prev[i].name, prev[j].name);
        FirstIndexOfPrefix(init, x, r[i].name);
        FirstIndexOfPrefix(init, x, r[j].name);
      } else {
        assert Names(prev)[i] == r[i].name;
        assert r[i].name in init;
        assert r[j].name == x && x !in init;
        FirstIndexOfPrefix(init, x, r[i].name);
        assert labels[|init|] == x;
      }
    }
  }

  // ---------------------------------------------------------------------------
  // Stable sort by value, largest first
  // ---------------------------------------------------------------------------

  predicate SortedDesc(es: seq<Entry>) {
    forall i, j :: 0 <= i < j < |es| ==> es[i].value >= es[j].value
  }

  /** The entries whose value is `v`, in their order in `es`. */
  function WithValue(es: seq<Entry>, v: nat): seq<Entry>
  {
    if |es| == 0 then []
    else (if es[0].value == v then [es[0]] else []) + WithValue(es[1..], v)
  }

  /** Puts `e` ahead of the first entry whose value does not exceed its own. */
  function Insert(e: Entry, s: seq<Entry>): (r: seq<Entry>)
    requires SortedDesc(s)
    ensures SortedDesc(r)
    ensures multiset(r) == multiset(s) + multiset{e}
  {
    if |s| == 0 || s[0].value <= e.value then
      ConsSorted(e, s);
      [e] + s
    else
      var tail := Insert(e, s[1..]);
      ConsSorted(s[0], tail);
      assert s == [s[0]] + s[1..];
      [s[0]] + tail
  }

  /** A sorted list stays sorted with an entry in front whose value is at least its head's. */
  lemma ConsSorted(x: Entry, tail: seq<Entry>)
    requires SortedDesc(tail)
    requires |tail| > 0 ==> tail[0].value <= x.value
    ensures SortedDesc([x] + tail)
  {
    var r := [x] + tail;
    forall i, j | 0 <= i < j < |r|
      ensures r[i].value >= r[j].value
    {
      if i == 0 {
        assert r[j] == tail[j - 1];
        assert tail[0].value >= tail[j - 1].value;
      } else {
        assert r[i] == tail[i - 1] && r[j] == tail[j - 1];
      }
    }
  }

  /** Inserting moves `e` only past entries of larger value, so entries of equal value keep their order. */
  lemma {:induction false} InsertKeepsOrder(e: Entry, s: seq<Entry>, v: nat)
    requires SortedDesc(s)
    ensures WithValue(Insert(e, s), v) == WithValue([e] + s, v)
    decreases |s|
  {
    if !(|s| == 0 || s[0].value <= e.value) {
      var t := s[1..];
      var x := if s[0].value == v then [s[0]] else [];
      var y := if e.value == v then [e] else [];
      calc {
        WithValue(Insert(e, s), v);
        WithValue([s[0]] + Insert(e, t), v);
        { WithValueCons(s[0], Insert(e, t), v); }
        x + WithValue(Insert(e, t), v);
        { InsertKeepsOrder(e, t, v); }
        x + WithValue([e] + t, v);
        { WithValueCons(e, t, v); }
        x + (y + WithValue(t, v));
        { assert x == [] || y == []; }
        y + (x + WithValue(t, v));
        { WithValueCons(s[0], t, v); assert [s[0]] + t == s; }
        y + WithValue(s, v);
        { WithValueCons(e, s, v); }
        WithValue([e] + s, v);
      }
    }
  }

  lemma WithValueCons(x: Entry, es: seq<Entry>, v: nat)
    ensures WithValue([x] + es, v) == (if x.value == v then [x] else []) + WithValue(es, v)
  {
    assert ([x] + es)[1..] == es;
  }

  lemma {:induction false} InsertTotal(e: Entry, s: seq<Entry>)
    requires SortedDesc(s)
    ensures Total(Insert(e, s)) == Total(s) + e.value
    decreases |s|
  {
    if !(|s| == 0 || s[0].value <= e.value) {
      InsertTotal(e, s[1..]);
      var r := Insert(e, s);
      assert r == [s[0]] + Insert(e, s[1..]);
      assert r[1..] == Insert(e, s[1..]);
    }
  }

  /**
   * `Array.prototype.sort` with comparator `b.value - a.value`: values
   * non-increasing, the same entries, and the same total.
   */
  function SortDesc(es: seq<Entry>): (r: seq<Entry>)
    ensures SortedDesc(r)
    ensures multiset(r) == multiset(es)
    ensures Total(r) == Total(es)
  {
    if |es| == 0 then []
    else
      InsertTotal(es[0], SortDesc(es[1..]));
      assert es == [es[0]] + es[1..];
      Insert(es[0], SortDesc(es[1..]))
  }

  /** The sort is stable: entries of equal value keep their original relative order. */
  lemma {:induction false} SortDescStable(es: seq<Entry>, v: nat)
    ensures WithValue(SortDesc(es), v) == WithValue(es, v)
    decreases |es|
  {
    if |es| > 0 {
      var sorted := SortDesc(es[1..]);
      SortDescStable(es[1..], v);
      InsertKeepsOrder(es[0], sorted, v);
      assert ([es[0]] + sorted)[1..] == sorted;
    }
  }

  /**
   * `slice(0, k)` of a sorted list: at most `k` entries, a prefix, and every
   * kept entry's value at least every dropped entry's value.
   */
  function Top(es: seq<Entry>, k: nat): (r: seq<Entry>)
    ensures |r| == if |es| <= k then |es| else k
    ensures r == es[..|r|]
    ensures SortedDesc(es) ==> SortedDesc(r)
    ensures SortedDesc(es) ==> forall i, j :: 0 <= i < |r| <= j < |es| ==> r[i].value >= es[j].value
  {
    if |es| <= k then es else es[..k]
  }

  /** Every entry of the sorted tally is named after one of the labels. */
  lemma SortedTallyNames(labels: seq<string>)
    ensures forall i :: 0 <= i < |SortDesc(TallyOf(labels))| ==> SortDesc(TallyOf(labels))[i].name in labels
  {
    var counts := TallyOf(labels);
    var sorted := SortDesc(counts);
    TallyDistinct(labels);
    forall i | 0 <= i < |sorted|
      ensures sorted[i].name in labels
    {
      assert sorted[i] in multiset(sorted);
      assert sorted[i] in counts;
      var m :| 0 <= m < |counts| && counts[m] == sorted[i];
      assert Names(counts)[m] == sorted[i].name;
    }
  }

  lemma {:induction false} CountOfAbsent(es: seq<Entry>, k: string)
    requires forall i :: 0 <= i < |es| ==> es[i].name != k
    ensures CountOf(es, k) == 0
    decreases |es|
  {
    if |es| > 0 {
      CountOfAbsent(es[1..], k);
    }
  }

  /** With distinct names, an entry's value is the count recorded for its name. */
  lemma {:induction false} CountOfDistinct(es: seq<Entry>, m: nat)
    requires DistinctNames(es) && m < |es|
    ensures CountOf(es, es[m].name) == es[m].value
    decreases |es|
  {
    if m == 0 {
      CountOfAbsent(es[1..], es[0].name);
    } else {
      CountOfDistinct(es[1..], m - 1);
    }
  }

  /**
   * The first `k` entries of the sorted tally are the most frequent labels:
   * each kept entry holds its label's number of occurrences, and no label
   * left out occurs more often than any kept one.
   */
  lemma TopIsMostFrequent(labels: seq<string>, k: nat)
    ensures MostFrequent(Top(SortDesc(TallyOf(labels)), k), labels)
  {
    var counts := TallyOf(labels);
    var sorted := SortDesc(counts);
    TallyCounts(labels);
    TallyDistinct(labels);
    PermutedCounts(labels, counts, sorted);
    TopOfCounts(labels, sorted, Top(sorted, k));
  }

  /**
   * `es` counts occurrences in `labels`, and no label without an entry
   * occurs more often than any label with one.
   */
  ghost predicate MostFrequent(es: seq<Entry>, labels: seq<string>) {
    && (forall i :: 0 <= i < |es| ==> es[i].value == multiset(labels)[es[i].name])
    && (forall i, x :: 0 <= i < |es| && x !in Names(es) ==> es[i].value >= multiset(labels)[x])
  }

  /** Every entry of the sorted tally holds its label's number of occurrences, and every label has an entry. */
  lemma SortedTallyCounts(labels: seq<string>)
    ensures forall i :: 0 <= i < |SortDesc(TallyOf(labels))| ==>
      SortDesc(TallyOf(labels))[i].value == multiset(labels)[SortDesc(TallyOf(labels))[i].name]
    ensures forall x :: x in labels ==> x in Names(SortDesc(TallyOf(labels)))
  {
    var counts := TallyOf(labels);
    TallyCounts(labels);
    TallyDistinct(labels);
    PermutedCounts(labels, counts, SortDesc(counts));
  }

  /** Reordering a tally keeps each entry's count and every label's entry. */
  lemma PermutedCounts(labels: seq<string>, counts: seq<Entry>, sorted: seq<Entry>)
    requires DistinctNames(counts)
    requires multiset(sorted) == multiset(counts)
    requires forall x :: CountOf(counts, x) == multiset(labels)[x]
    requires forall x :: x in Names(counts) <==> x in labels
    ensures forall i :: 0 <= i < |sorted| ==> sorted[i].value == multiset(labels)[sorted[i].name]
    ensures forall x :: x in labels ==> x in Names(sorted)
  {
    forall i | 0 <= i < |sorted|
      ensures sorted[i].value == multiset(labels)[sorted[i].name]
    {
      assert sorted[i] in multiset(sorted);
      var m :| 0 <= m < |counts| && counts[m] == sorted[i];
      CountOfDistinct(counts, m);
    }
    forall x | x in labels
      ensures x in Names(sorted)
    {
      var m :| 0 <= m < |counts| && Names(counts)[m] == x;
      assert counts[m] in multiset(sorted);
      var j :| 0 <= j < |sorted| && sorted[j] == counts[m];
      assert Names(sorted)[j] == x;
    }
  }

  lemma TopOfCounts(labels: seq<string>, sorted: seq<Entry>, r: seq<Entry>)
    requires |r| <= |sorted| && r == sorted[..|r|]
    requires forall i, j :: 0 <= i < |r| <= j < |sorted| ==> r[i].value >= sorted[j].value
    requires forall i :: 0 <= i < |sorted| ==> sorted[i].value == multiset(labels)[sorted[i].name]
    requires forall x :: x in labels ==> x in Names(sorted)
    ensures MostFrequent(r, labels)
  {
    forall i | 0 <= i < |r|
      ensures r[i].value == multiset(labels)[r[i].name]
    {
      assert r[i] == sorted[i];
    }
    forall i, x | 0 <= i < |r| && x !in Names(r)
      ensures r[i].value >= multiset(labels)[x]
    {
      if x in labels {
        var j :| 0 <= j < |sorted| && Names(sorted)[j] == x;
        assert forall m :: 0 <= m < |r| ==> Names(r)[m] == Names(sorted)[m];
      }
    }
  }

  lemma {:induction false} TotalAppend(a: seq<Entry>, b: seq<Entry>)
    ensures Total(a + b) == Total(a) + Total(b)
    decreases |a|
  {
    if |a| > 0 {
      TotalAppend(a[1..], b);
      assert (a + b)[0] == a[0];
      assert (a + b)[1..] == a[1..] + b;
    } else {
      assert a + b == b;
    }
  }
}

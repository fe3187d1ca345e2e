/**
 * The text helpers of one result card: value splitting, abstract truncation,
 * the cyclic badge palette and keyword highlighting.
 */
module Card {
  import opened Wrappers
  import opened Text

  // ---------------------------------------------------------------------------
  // splitValues
  // ---------------------------------------------------------------------------

  /**
   * `.map(s => s.trim()).filter(s => s)`: trimmed pieces, empty ones
   * dropped; every piece that is not blank is kept, trimmed.
   */
  function TrimNonEmpty(ps: seq<string>): (r: seq<string>)
    ensures |r| <= |ps|
    ensures forall i :: 0 <= i < |r| ==> r[i] != "" && IsTrimmed(r[i])
    ensures forall j :: 0 <= j < |ps| && Trim(ps[j]) != "" ==> Trim(ps[j]) in r
    decreases |ps|
  {
    if |ps| == 0 then []
    else
      var t := Trim(ps[0]);
      var tail := TrimNonEmpty(ps[1..]);
      var r := (if t == "" then [] else [t]) + tail;
      assert forall j :: 1 <= j < |ps| ==> ps[j] == ps[1..][j - 1];
      r
  }

  /** A single piece: kept trimmed, or dropped when it is blank. */
  lemma TrimNonEmptySingle(p: string)
    ensures TrimNonEmpty([p]) == if Trim(p) == "" then [] else [Trim(p)]
  {
    assert [p][1..] == [];
  }

  /** Trimming and filtering works piece by piece, keeping the order. */
  lemma {:induction false} TrimNonEmptyAppend(a: seq<string>, b: seq<string>)
    ensures TrimNonEmpty(a + b) == TrimNonEmpty(a) + TrimNonEmpty(b)
    decreases |a|
  {
    if |a| == 0 {
      assert a + b == b;
    } else {
      assert (a + b)[0] == a[0];
      assert (a + b)[1..] == a[1..] + b;
      TrimNonEmptyAppend(a[1..], b);
    }
  }

  /**
   * `splitValues`: the pieces of `s` between `,` and `;` delimiters, trimmed,
   * empty pieces dropped, in order.
   */
  function SplitValues(s: string): (r: seq<string>)
    ensures |r| <= CountDelimiters(s) + 1
    ensures forall i :: 0 <= i < |r| ==> r[i] != "" && IsTrimmed(r[i]) && HasNoDelimiter(r[i])
    ensures forall j :: 0 <= j < |SplitOnDelimiters(s)| && Trim(SplitOnDelimiters(s)[j]) != "" ==>
      Trim(SplitOnDelimiters(s)[j]) in r
  {
    var ps := SplitOnDelimiters(s);
    TrimNonEmptyKeepsNoDelimiter(ps);
    TrimNonEmpty(ps)
  }

  /**
   * The first piece up to a `,` or `;` gives at most one value, its trimmed
   * text, and the values of the rest follow.
   */
  lemma SplitValuesAfterPiece(p: string, d: char, t: string)
    requires HasNoDelimiter(p) && IsValueDelimiter(d)
    ensures SplitValues(p + [d] + t) == TrimNonEmpty([p]) + SplitValues(t)
  {
    SplitOnDelimitersAfterPiece(p, d, t);
    TrimNonEmptyAppend([p], SplitOnDelimiters(t));
  }

  /** Text without a delimiter gives its trimmed self, or nothing when blank. */
  lemma SplitValuesLastPiece(p: string)
    requires HasNoDelimiter(p)
    ensures SplitValues(p) == TrimNonEmpty([p])
  {
    SplitOnDelimitersSinglePiece(p);
  }

  /** `"A;B"`, for any two letters: a semicolon cuts like a comma. */
  lemma SplitValuesSemicolon(x: char, y: char)
    requires !IsWhitespace(x) && !IsValueDelimiter(x) && !IsWhitespace(y) && !IsValueDelimiter(y)
    ensures SplitValues([x, ';', y]) == [[x], [y]]
  {
    assert [x, ';', y] == [x] + [';'] + [y];
    SplitValuesAfterPiece([x], ';', [y]);
    SplitValuesLastPiece([y]);
    KeptAsIs([x]);
    KeptAsIs([y]);
  }

  /** `" A ,, B "`, for any two letters: pieces are trimmed and the empty one vanishes. */
  lemma SplitValuesBlanks(x: char, y: char)
    requires !IsWhitespace(x) && !IsValueDelimiter(x) && !IsWhitespace(y) && !IsValueDelimiter(y)
    ensures SplitValues([' ', x, ' ', ',', ',', ' ', y, ' ']) == [[x], [y]]
  {
    var rest := [','] + [' ', y, ' '];
    assert [' ', x, ' ', ',', ',', ' ', y, ' '] == [' ', x, ' '] + [','] + rest;
    SplitValuesAfterPiece([' ', x, ' '], ',', rest);
    Padded(x);
    EmptyPieceThenPadded(y);
  }

  lemma EmptyPieceThenPadded(y: char)
    requires !IsWhitespace(y) && !IsValueDelimiter(y)
    ensures SplitValues([','] + [' ', y, ' ']) == [[y]]
  {
    SplitValuesLeadingDelimiter(',', [' ', y, ' ']);
    SplitValuesLastPiece([' ', y, ' ']);
    Padded(y);
  }

  /** A delimiter at the start cuts off an empty piece, which gives no value. */
  lemma SplitValuesLeadingDelimiter(d: char, t: string)
    requires IsValueDelimiter(d)
    ensures SplitValues([d] + t) == SplitValues(t)
  {
    assert [d] + t == "" + [d] + t;
    SplitValuesAfterPiece("", d, t);
    BlankPieceDropped();
  }

  lemma BlankPieceDropped()
    ensures TrimNonEmpty([""]) == []
  {
    assert IsTrimmed("");
    TrimNonEmptySingle("");
  }

  lemma KeptAsIs(p: string)
    requires IsTrimmed(p) && p != ""
    ensures TrimNonEmpty([p]) == [p]
  {
    TrimNonEmptySingle(p);
  }

  lemma Padded(c: char)
    requires !IsWhitespace(c)
    ensures TrimNonEmpty([[' ', c, ' ']]) == [[c]]
  {
    assert AllWhitespace(" ") && IsTrimmed([c]);
    TrimUnique(" ", [c], " ");
    assert " " + [c] + " " == [' ', c, ' '];
    TrimNonEmptySingle([' ', c, ' ']);
  }

  /** No string of `ps` holds a `,` or `;`. */
  ghost predicate NoneHasDelimiter(ps: seq<string>) {
    forall i :: 0 <= i < |ps| ==> HasNoDelimiter(ps[i])
  }

  lemma {:induction false} TrimNonEmptyKeepsNoDelimiter(ps: seq<string>)
    requires NoneHasDelimiter(ps)
    ensures NoneHasDelimiter(TrimNonEmpty(ps))
    decreases |ps|
  {
    if |ps| > 0 {
      assert NoneHasDelimiter(ps[1..]) by {
        assert forall i :: 1 <= i < |ps| ==> ps[1..][i - 1] == ps[i];
      }
      TrimNonEmptyKeepsNoDelimiter(ps[1..]);
      TrimNonEmptyHead(ps);
      TrimKeepsNoDelimiter(ps[0]);
      TrimNonEmptySingle(ps[0]);
      NoneHasDelimiterAppend(TrimNonEmpty([ps[0]]), TrimNonEmpty(ps[1..]));
    }
  }

  lemma TrimNonEmptyHead(ps: seq<string>)
    requires |ps| > 0
    ensures TrimNonEmpty(ps) == TrimNonEmpty([ps[0]]) + TrimNonEmpty(ps[1..])
  {
    TrimNonEmptySingle(ps[0]);
  }

  lemma NoneHasDelimiterAppend(a: seq<string>, b: seq<string>)
    requires NoneHasDelimiter(a) && NoneHasDelimiter(b)
    ensures NoneHasDelimiter(a + b)
  {
    assert forall i :: |a| <= i < |a + b| ==> (a + b)[i] == b[i - |a|];
  }

  lemma TrimKeepsNoDelimiter(s: string)
    requires HasNoDelimiter(s)
    ensures HasNoDelimiter(Trim(s))
  {
    TrimIsInfix(s);
    var t := Trim(s);
    var a := LeadingSpace(s);
    forall k | 0 <= k < |t|
      ensures !IsValueDelimiter(t[k])
    {
      assert t[k] == s[a + k];
    }
  }

  /** A value as `splitValues` returns it: non-empty, trimmed, free of delimiters. */
  predicate IsValue(p: string) {
    p != "" && IsTrimmed(p) && HasNoDelimiter(p)
  }

  /**
   * Writing values back as `"A, B, C"` and splitting again gives the same
   * values: `splitValues` recovers exactly what a `", "` join stored.
   */
  lemma {:induction false} SplitValuesJoin(ps: seq<string>)
    requires forall i :: 0 <= i < |ps| ==> IsValue(ps[i])
    ensures SplitValues(Join(ps, KeywordSeparator)) == ps
    decreases |ps|
  {
    if |ps| == 0 {
      assert SplitOnDelimiters("") == [""];
    } else if |ps| == 1 {
      SplitValuesSingle(ps[0]);
    } else {
      var rest := Join(ps[1..], KeywordSeparator);
      assert Join(ps, KeywordSeparator) == ps[0] + KeywordSeparator + rest;
      assert forall i :: 0 <= i < |ps[1..]| ==> ps[1..][i] == ps[i + 1];
      SplitValuesJoin(ps[1..]);
      SplitValuesJoinStep(ps[0], rest);
      assert [ps[0]] + ps[1..] == ps;
    }
  }

  lemma SplitValuesSingle(p: string)
    requires IsValue(p)
    ensures SplitValues(p) == [p]
  {
    SplitOnDelimitersSinglePiece(p);
    assert TrimNonEmpty([p]) == [p] + TrimNonEmpty([]);
  }

  /** One step of the round trip: a value, the separator, and the rest. */
  lemma SplitValuesJoinStep(p: string, rest: string)
    requires IsValue(p)
    ensures SplitValues(p + KeywordSeparator + rest) == [p] + SplitValues(rest)
  {
    var s := p + KeywordSeparator + rest;
    assert s == p + [','] + ([' '] + rest);
    SplitOnDelimitersAfterPiece(p, ',', [' '] + rest);
    var tail := SplitOnDelimiters(rest);
    SplitOnDelimitersCons(' ', rest);
    var spaced := [[' '] + tail[0]] + tail[1..];
    assert SplitOnDelimiters(s) == [p] + spaced;
    TrimSkipsLeadingWhitespace(' ', tail[0]);
    TrimNonEmptyFirst(spaced, tail);
    assert TrimNonEmpty([p] + spaced) == [p] + TrimNonEmpty(spaced) by {
      assert ([p] + spaced)[1..] == spaced;
    }
  }

  lemma TrimNonEmptyFirst(a: seq<string>, b: seq<string>)
    requires |a| >= 1 && |a| == |b| && a[1..] == b[1..] && Trim(a[0]) == Trim(b[0])
    ensures TrimNonEmpty(a) == TrimNonEmpty(b)
  {
  }

  /** Splitting the stored values twice changes nothing further. */
  lemma SplitValuesIdempotent(s: string)
    ensures SplitValues(Join(SplitValues(s), KeywordSeparator)) == SplitValues(s)
  {
    SplitValuesJoin(SplitValues(s));
  }

  // ---------------------------------------------------------------------------
  // Abstract truncation and the Show-more toggle
  // ---------------------------------------------------------------------------

  const AbstractLimit: nat := 250
  const Ellipsis: string := "..."

  /** `truncateAbstract(text)` with its default length of 250. */
  function TruncateAbstract(t: string): (r: string)
    ensures |r| <= AbstractLimit + |Ellipsis|
    ensures |t| <= AbstractLimit ==> r == t
    ensures |t| > AbstractLimit ==> |r| == AbstractLimit + |Ellipsis|
    ensures |t| > AbstractLimit ==> r[..AbstractLimit] == t[..AbstractLimit] && r[AbstractLimit..] == Ellipsis
  {
    if |t| > AbstractLimit then t[..AbstractLimit] + Ellipsis else t
  }

  /** The Show-more button is rendered. */
  predicate ShowMore(summary: string) {
    |summary| > AbstractLimit
  }

  /**
   * Nothing is hidden without a toggle: when no Show-more button appears the
   * collapsed view is the whole abstract; when it appears, the collapsed
   * view is the first 250 characters and the ellipsis, strictly shorter
   * than expanding it would show once the abstract has more than 253
   * characters. Either way the collapsed view begins with the abstract's
   * first `min(|t|, 250)` characters.
   */
  lemma CollapsedAbstract(t: string)
    ensures !ShowMore(t) ==> TruncateAbstract(t) == t
    ensures ShowMore(t) ==> TruncateAbstract(t) == t[..AbstractLimit] + Ellipsis
    ensures ShowMore(t) && |t| > AbstractLimit + |Ellipsis| ==> |TruncateAbstract(t)| < |t|
    ensures var k := if |t| < AbstractLimit then |t| else AbstractLimit;
      |TruncateAbstract(t)| >= k && TruncateAbstract(t)[..k] == t[..k]
  {
  }

  // ---------------------------------------------------------------------------
  // Badge palette
  // ---------------------------------------------------------------------------

  const BadgeColors: seq<string> := [
    "bg-blue-500/20 text-blue-300 border-blue-500/40",
    "bg-indigo-500/20 text-indigo-300 border-indigo-500/40",
    "bg-cyan-500/20 text-cyan-300 border-cyan-500/40",
    "bg-violet-500/20 text-violet-300 border-violet-500/40",
    "bg-pink-500/20 text-pink-300 border-pink-500/40",
    "bg-green-500/20 text-green-300 border-green-500/40"
  ]

  /** `getBadgeColor(index)`: the palette entry at `index` modulo its length. */
  function BadgeColor(index: nat): (r: string)
    ensures r in BadgeColors
  {
    BadgeColors[index % |BadgeColors|]
  }

  /** The palette repeats every six badges, and six consecutive badges all differ. */
  lemma BadgeColorCycle(i: nat, j: nat)
    ensures BadgeColor(i) == BadgeColor(i + |BadgeColors|)
    ensures i < j < i + |BadgeColors| ==> BadgeColor(i) != BadgeColor(j)
  {
    var n := |BadgeColors|;
    assert (i + n) % n == i % n;
    if i < j < i + n {
      assert i % n != j % n;
      assert BadgeColors[0] != BadgeColors[1] && BadgeColors[0] != BadgeColors[2];
    }
  }

  // ---------------------------------------------------------------------------
  // Keyword emphasis
  // ---------------------------------------------------------------------------

  /** `keywords.some(k => k.toLowerCase() === part.toLowerCase())`. */
  predicate MatchesAny(keywords: seq<string>, part: string) {
    exists j :: 0 <= j < |keywords| && FoldEq(keywords[j], part)
  }

  /** A keyword badge is drawn emphasised rather than with `getBadgeColor(index + 5)`. */
  datatype BadgeStyle = Emphasised | Colored(color: string)

  function KeywordBadge(keyword: string, index: nat, searchKeywords: seq<string>): (r: BadgeStyle)
    ensures r.Emphasised? <==> exists j :: 0 <= j < |searchKeywords| && Lower(searchKeywords[j]) == Lower(keyword)
    ensures r.Colored? ==> r.color == BadgeColor(index + 5)
  {
    if MatchesAny(searchKeywords, keyword) then Emphasised else Colored(BadgeColor(index + 5))
  }

  /** Emphasis does not depend on the letter case of the badge. */
  lemma KeywordBadgeIgnoresCase(a: string, b: string, index: nat, searchKeywords: seq<string>)
    requires FoldEq(a, b)
    ensures KeywordBadge(a, index, searchKeywords) == KeywordBadge(b, index, searchKeywords)
  {
  }

  // ---------------------------------------------------------------------------
  // highlightText
  // ---------------------------------------------------------------------------

  predicate NonEmptyKeywords(keywords: seq<string>) {
    forall i :: 0 <= i < |keywords| ==> keywords[i] != ""
  }

  /**
   * The case-insensitive alternation `(k1|k2|...)` tried at position `q`:
   * the length of the first keyword, in list order, that matches there.
   */
  function MatchAt(text: string, keywords: seq<string>, q: nat): (r: Option<nat>)
    requires NonEmptyKeywords(keywords)
    ensures r.Some? ==> 0 < r.value && q + r.value <= |text|
  {
    if |keywords| == 0 then None
    else if q + |keywords[0]| <= |text| && FoldEq(text[q..q + |keywords[0]|], keywords[0]) then
      Some(|keywords[0]|)
    else
      MatchAt(text, keywords[1..], q)
  }

  /** A reported match is one of the keywords, case-insensitively. */
  lemma {:induction false} MatchAtSound(text: string, keywords: seq<string>, q: nat)
    requires NonEmptyKeywords(keywords)
    ensures MatchAt(text, keywords, q).Some? ==>
      var n := MatchAt(text, keywords, q).value; MatchesAny(keywords, text[q..q + n])
    decreases |keywords|
  {
    if |keywords| > 0 {
      if q + |keywords[0]| <= |text| && FoldEq(text[q..q + |keywords[0]|], keywords[0]) {
        assert FoldEq(keywords[0], text[q..q + |keywords[0]|]);
      } else {
        MatchAtSound(text, keywords[1..], q);
        var r := MatchAt(text, keywords[1..], q);
        if r.Some? {
          var j :| 0 <= j < |keywords[1..]| && FoldEq(keywords[1..][j], text[q..q + r.value]);
          assert keywords[j + 1] == keywords[1..][j];
        }
      }
    }
  }

  /** Some keyword is reported wherever any keyword matches. */
  lemma {:induction false} MatchAtComplete(text: string, keywords: seq<string>, q: nat, j: nat)
    requires NonEmptyKeywords(keywords)
    requires j < |keywords| && q + |keywords[j]| <= |text|
    requires FoldEq(text[q..q + |keywords[j]|], keywords[j])
    ensures MatchAt(text, keywords, q).Some?
    decreases j
  {
    if j > 0 && !(q + |keywords[0]| <= |text| && FoldEq(text[q..q + |keywords[0]|], keywords[0])) {
      assert keywords[1..][j - 1] == keywords[j];
      MatchAtComplete(text, keywords[1..], q, j - 1);
    }
  }

  function Concat(parts: seq<string>): string
  {
    if |parts| == 0 then "" else parts[0] + Concat(parts[1..])
  }

  /**
   * `text.split(regex)` with a capturing group, from the last cut `p` and the
   * scan position `q`: each unmatched stretch followed by the matched
   * substring, and the rest after the last match.
   */
  function SplitFrom(text: string, keywords: seq<string>, p: nat, q: nat): (r: seq<string>)
    requires p <= q <= |text|
    requires NonEmptyKeywords(keywords)
    ensures |r| % 2 == 1
    ensures q - p <= |r[0]| <= |text| - p && r[0] == text[p..p + |r[0]|]
    decreases |text| - q
  {
    if q == |text| then [text[p..]]
    else
      match MatchAt(text, keywords, q)
      case None => SplitFrom(text, keywords, p, q + 1)
      case Some(n) => [text[p..q], text[q..q + n]] + SplitFrom(text, keywords, q + n, q + n)
  }

  /** Pieces at odd positions are keyword matches and the others are not; the count is odd. */
  predicate Alternates(keywords: seq<string>, r: seq<string>) {
    |r| % 2 == 1 && forall i :: 0 <= i < |r| ==> (i % 2 == 1 <==> MatchesAny(keywords, r[i]))
  }

  /**
   * Unmatched stretches and matches alternate, starting and ending with an
   * unmatched stretch, and together they spell the text.
   */
  lemma {:induction false} SplitFromAlternates(text: string, keywords: seq<string>, p: nat, q: nat)
    requires p <= q <= |text|
    requires NonEmptyKeywords(keywords)
    requires forall i :: p <= i < q ==> MatchAt(text, keywords, i).None?
    ensures Alternates(keywords, SplitFrom(text, keywords, p, q))
    ensures Concat(SplitFrom(text, keywords, p, q)) == text[p..]
    decreases |text| - q
  {
    if q == |text| {
      SplitFromLast(text, keywords, p);
    } else {
      match MatchAt(text, keywords, q)
      case None =>
        SplitFromAlternates(text, keywords, p, q + 1);
      case Some(n) =>
        SplitFromAlternates(text, keywords, q + n, q + n);
        SplitFromMatch(text, keywords, p, q, n);
    }
  }

  /** The rest after the last match is one unmatched stretch. */
  lemma SplitFromLast(text: string, keywords: seq<string>, p: nat)
    requires p <= |text|
    requires NonEmptyKeywords(keywords)
    requires forall i :: p <= i < |text| ==> MatchAt(text, keywords, i).None?
    ensures Alternates(keywords, SplitFrom(text, keywords, p, |text|))
    ensures Concat(SplitFrom(text, keywords, p, |text|)) == text[p..]
  {
    NoMatchInStretch(text, keywords, p, |text|);
    assert SplitFrom(text, keywords, p, |text|) == [text[p..]];
    assert Concat([text[p..]]) == text[p..] + Concat([]);
  }

  /** A match at `q` adds an unmatched stretch and the match in front of the split of the rest. */
  lemma SplitFromMatch(text: string, keywords: seq<string>, p: nat, q: nat, n: nat)
    requires p <= q < |text|
    requires NonEmptyKeywords(keywords)
    requires forall i :: p <= i < q ==> MatchAt(text, keywords, i).None?
    requires MatchAt(text, keywords, q) == Some(n)
    requires Alternates(keywords, SplitFrom(text, keywords, q + n, q + n))
    requires Concat(SplitFrom(text, keywords, q + n, q + n)) == text[q + n..]
    ensures Alternates(keywords, SplitFrom(text, keywords, p, q))
    ensures Concat(SplitFrom(text, keywords, p, q)) == text[p..]
  {
    SplitFromStep(text, keywords, p, q, n);
    MatchPieces(text, keywords, p, q, n, SplitFrom(text, keywords, q + n, q + n));
  }

  /** An unmatched stretch, then a match, then an alternation of the rest of the text. */
  lemma MatchPieces(text: string, keywords: seq<string>, p: nat, q: nat, n: nat, rest: seq<string>)
    requires p <= q < |text|
    requires NonEmptyKeywords(keywords)
    requires forall i :: p <= i < q ==> MatchAt(text, keywords, i).None?
    requires MatchAt(text, keywords, q) == Some(n)
    requires Alternates(keywords, rest) && Concat(rest) == text[q + n..]
    ensures Alternates(keywords, [text[p..q], text[q..q + n]] + rest)
    ensures Concat([text[p..q], text[q..q + n]] + rest) == text[p..]
  {
    NoMatchInStretch(text, keywords, p, q);
    MatchAtSound(text, keywords, q);
    AlternationStep(text[p..q], text[q..q + n], rest, keywords);
    SliceInThree(text, p, q, q + n);
  }

  lemma SplitFromStep(text: string, keywords: seq<string>, p: nat, q: nat, n: nat)
    requires p <= q < |text|
    requires NonEmptyKeywords(keywords)
    requires MatchAt(text, keywords, q) == Some(n)
    ensures SplitFrom(text, keywords, p, q) == [text[p..q], text[q..q + n]] + SplitFrom(text, keywords, q + n, q + n)
  {
  }

  lemma SliceInThree<T>(s: seq<T>, p: nat, q: nat, r: nat)
    requires p <= q <= r <= |s|
    ensures s[p..] == s[p..q] + s[q..r] + s[r..]
  {
  }

  /** Prefixing an alternation with one unmatched stretch and one match keeps it an alternation. */
  lemma AlternationStep(a: string, b: string, rest: seq<string>, keywords: seq<string>)
    requires !MatchesAny(keywords, a) && MatchesAny(keywords, b)
    requires Alternates(keywords, rest)
    ensures Alternates(keywords, [a, b] + rest)
    ensures Concat([a, b] + rest) == a + b + Concat(rest)
  {
    var r := [a, b] + rest;
    assert r[1..][1..] == rest;
    forall i | 2 <= i < |r|
      ensures i % 2 == 1 <==> MatchesAny(keywords, r[i])
    {
      assert r[i] == rest[i - 2];
    }
  }

  /** A stretch in which no keyword starts is not itself a keyword. */
  lemma NoMatchInStretch(text: string, keywords: seq<string>, p: nat, q: nat)
    requires p <= q <= |text|
    requires NonEmptyKeywords(keywords)
    requires forall i :: p <= i < q ==> MatchAt(text, keywords, i).None?
    ensures !MatchesAny(keywords, text[p..q])
  {
    forall j | 0 <= j < |keywords|
      ensures !FoldEq(keywords[j], text[p..q])
    {
      if |keywords[j]| == q - p {
        assert p < q;
        assert text[p..p + |keywords[j]|] == text[p..q];
        if FoldEq(keywords[j], text[p..q]) {
          MatchAtComplete(text, keywords, p, j);
        }
      } else {
        assert |Lower(keywords[j])| != |Lower(text[p..q])|;
      }
    }
  }

  /** Where piece `i` starts: the combined length of the pieces before it. */
  function Start(pieces: seq<string>, i: nat): nat
    requires i <= |pieces|
  {
    |Concat(pieces[..i])|
  }

  /**
   * Piece `i`, placed at `off + Start(pieces, i)` in the text, is where the
   * scan put it: no keyword matches at any position of an even (unmatched)
   * piece, and an odd piece is the match the alternation reports at its start.
   */
  ghost predicate Placed(text: string, keywords: seq<string>, pieces: seq<string>, off: nat, i: nat)
    requires NonEmptyKeywords(keywords) && i < |pieces|
  {
    var s := off + Start(pieces, i);
    && (i % 2 == 0 ==> forall pos :: s <= pos < s + |pieces[i]| ==> MatchAt(text, keywords, pos).None?)
    && (i % 2 == 1 ==> MatchAt(text, keywords, s) == Some(|pieces[i]|))
  }

  /** Every piece is placed as the left-to-right scan finds it. */
  ghost predicate Leftmost(text: string, keywords: seq<string>, pieces: seq<string>, off: nat)
    requires NonEmptyKeywords(keywords)
  {
    forall i :: 0 <= i < |pieces| ==> Placed(text, keywords, pieces, off, i)
  }

  /**
   * The split misses no match: inside an unmatched stretch no keyword
   * starts, and each captured piece is the match found at its position.
   */
  lemma {:induction false} SplitFromLeftmost(text: string, keywords: seq<string>, p: nat, q: nat)
    requires p <= q <= |text|
    requires NonEmptyKeywords(keywords)
    requires forall i :: p <= i < q ==> MatchAt(text, keywords, i).None?
    ensures Leftmost(text, keywords, SplitFrom(text, keywords, p, q), p)
    decreases |text| - q
  {
    if q == |text| {
      var pieces := SplitFrom(text, keywords, p, q);
      assert pieces == [text[p..]];
      assert Start(pieces, 0) == 0 by {
        assert pieces[..0] == [];
      }
      assert Placed(text, keywords, pieces, p, 0);
    } else {
      match MatchAt(text, keywords, q)
      case None =>
        SplitFromLeftmost(text, keywords, p, q + 1);
      case Some(n) =>
        SplitFromLeftmost(text, keywords, q + n, q + n);
        SplitFromStep(text, keywords, p, q, n);
        LeftmostStep(text, keywords, text[p..q], text[q..q + n], SplitFrom(text, keywords, q + n, q + n), p, q, n);
    }
  }

  /** An unmatched stretch and a match in front of a well-placed rest keep every piece well placed. */
  lemma LeftmostStep(text: string, keywords: seq<string>, a: string, b: string, rest: seq<string>, p: nat, q: nat, n: nat)
    requires NonEmptyKeywords(keywords)
    requires q == p + |a| && n == |b|
    requires forall i :: p <= i < q ==> MatchAt(text, keywords, i).None?
    requires MatchAt(text, keywords, q) == Some(n)
    requires Leftmost(text, keywords, rest, q + n)
    ensures Leftmost(text, keywords, [a, b] + rest, p)
  {
    var pieces := [a, b] + rest;
    forall i | 0 <= i < |pieces|
      ensures Placed(text, keywords, pieces, p, i)
    {
      if i == 0 {
        PlacedFirst(text, keywords, a, b, rest, p, q);
      } else if i == 1 {
        PlacedSecond(text, keywords, a, b, rest, p, q, n);
      } else {
        PlacedLater(text, keywords, a, b, rest, p, q + n, i - 2);
      }
    }
  }

  lemma PlacedFirst(text: string, keywords: seq<string>, a: string, b: string, rest: seq<string>, p: nat, q: nat)
    requires NonEmptyKeywords(keywords)
    requires q == p + |a|
    requires forall i :: p <= i < q ==> MatchAt(text, keywords, i).None?
    ensures Placed(text, keywords, [a, b] + rest, p, 0)
  {
    assert ([a, b] + rest)[..0] == [];
  }

  lemma PlacedSecond(text: string, keywords: seq<string>, a: string, b: string, rest: seq<string>, p: nat, q: nat, n: nat)
    requires NonEmptyKeywords(keywords)
    requires q == p + |a| && n == |b|
    requires MatchAt(text, keywords, q) == Some(n)
    ensures Placed(text, keywords, [a, b] + rest, p, 1)
  {
    assert ([a, b] + rest)[..1] == [a];
    assert Concat([a]) == a + Concat([]);
  }

  lemma PlacedLater(text: string, keywords: seq<string>, a: string, b: string, rest: seq<string>, p: nat, off: nat, k: nat)
    requires NonEmptyKeywords(keywords)
    requires off == p + |a| + |b| && k < |rest|
    requires Leftmost(text, keywords, rest, off)
    ensures Placed(text, keywords, [a, b] + rest, p, k + 2)
  {
    StartShift(a, b, rest, k);
    assert ([a, b] + rest)[k + 2] == rest[k];
    assert Placed(text, keywords, rest, off, k);
  }

  lemma StartShift(a: string, b: string, rest: seq<string>, k: nat)
    requires k <= |rest|
    ensures Start([a, b] + rest, k + 2) == |a| + |b| + Start(rest, k)
  {
    var pieces := [a, b] + rest;
    var tail := rest[..k];
    assert pieces[..k + 2] == [a, b] + tail;
    assert ([a, b] + tail)[1..] == [b] + tail;
    assert ([b] + tail)[1..] == tail;
    assert Concat([b] + tail) == b + Concat(tail);
    assert Concat([a, b] + tail) == a + Concat([b] + tail);
  }

  /**
   * No occurrence of any keyword, in any letter case, starts inside a plain
   * piece: whatever the text holds of a keyword is emphasised.
   */
  lemma PlainHoldsNoKeyword(text: string, keywords: seq<string>, pieces: seq<string>, i: nat, pos: nat, j: nat)
    requires NonEmptyKeywords(keywords) && Leftmost(text, keywords, pieces, 0)
    requires i < |pieces| && i % 2 == 0 && Start(pieces, i) <= pos < Start(pieces, i) + |pieces[i]|
    requires j < |keywords| && pos + |keywords[j]| <= |text|
    ensures !FoldEq(text[pos..pos + |keywords[j]|], keywords[j])
  {
    assert Placed(text, keywords, pieces, 0, i);
    if FoldEq(text[pos..pos + |keywords[j]|], keywords[j]) {
      MatchAtComplete(text, keywords, pos, j);
    }
  }

  /** One emphasised or plain piece of highlighted text. */
  datatype Fragment = Plain(text: string) | Marked(text: string)

  /** What `highlightText` returns: the text itself, or a list of pieces. */
  datatype Highlighted = Unchanged(text: string) | Fragments(parts: seq<Fragment>)

  function Texts(fs: seq<Fragment>): (r: seq<string>)
    ensures |r| == |fs| && forall i :: 0 <= i < |fs| ==> r[i] == fs[i].text
  {
    seq(|fs|, i requires 0 <= i < |fs| => fs[i].text)
  }

  /**
   * `highlightText(text, keywords)`: unchanged for empty text or no
   * keywords; otherwise the split pieces, each emphasised when it equals a
   * keyword case-insensitively.
   */
  function Highlight(text: string, keywords: seq<string>): (r: Highlighted)
    requires NonEmptyKeywords(keywords)
    ensures r.Unchanged? <==> text == "" || keywords == []
    ensures r.Unchanged? ==> r.text == text
    ensures r.Fragments? ==> Concat(Texts(r.parts)) == text
    ensures r.Fragments? ==> |r.parts| % 2 == 1 && forall i :: 0 <= i < |r.parts| ==> (r.parts[i].Marked? <==> i % 2 == 1)
    ensures r.Fragments? ==> forall i :: 0 <= i < |r.parts| ==> (r.parts[i].Marked? <==> MatchesAny(keywords, r.parts[i].text))
    ensures r.Fragments? ==> Leftmost(text, keywords, Texts(r.parts), 0)
  {
    if text == "" || |keywords| == 0 then Unchanged(text)
    else
      var pieces := SplitFrom(text, keywords, 0, 0);
      SplitFromAlternates(text, keywords, 0, 0);
      SplitFromLeftmost(text, keywords, 0, 0);
      var parts := seq(|pieces|, i requires 0 <= i < |pieces| =>
        if MatchesAny(keywords, pieces[i]) then Marked(pieces[i]) else Plain(pieces[i]));
      assert Texts(parts) == pieces;
      Fragments(parts)
  }
}

/**
 * The JavaScript string operations the interface relies on, over strings as
 * sequences of characters: `trim`, ASCII `toLowerCase`/`toUpperCase`,
 * `split` on a literal separator or on the character class `[,;]`, and
 * `join`.
 */
module Text {

  // ---------------------------------------------------------------------------
  // Whitespace and trim
  // ---------------------------------------------------------------------------

  /** The characters `String.prototype.trim` removes: WhiteSpace and LineTerminator. */
  predicate IsWhitespace(c: char) {
    || c == ' ' || c == '\t' || c == '\n' || c == '\r'
    || c == '\U{000B}' || c == '\U{000C}' || c == '\U{00A0}' || c == '\U{1680}'
    || ('\U{2000}' <= c <= '\U{200A}')
    || c == '\U{2028}' || c == '\U{2029}' || c == '\U{202F}' || c == '\U{205F}'
    || c == '\U{3000}' || c == '\U{FEFF}'
  }

  predicate AllWhitespace(s: string) {
    forall k :: 0 <= k < |s| ==> IsWhitespace(s[k])
  }

  /** Neither end of `s` is whitespace. */
  predicate IsTrimmed(s: string) {
    |s| == 0 || (!IsWhitespace(s[0]) && !IsWhitespace(s[|s| - 1]))
  }

  /** The number of whitespace characters `s` starts with. */
  function LeadingSpace(s: string): (n: nat)
    ensures n <= |s|
    ensures forall k :: 0 <= k < n ==> IsWhitespace(s[k])
    ensures n < |s| ==> !IsWhitespace(s[n])
  {
    if |s| > 0 && IsWhitespace(s[0]) then
      var n := 1 + LeadingSpace(s[1..]);
      assert forall k :: 1 <= k < n ==> s[k] == s[1..][k - 1];
      n
    else 0
  }

  /** The length of `s` without the whitespace it ends with. */
  function ContentEnd(s: string): (m: nat)
    ensures m <= |s|
    ensures forall k :: m <= k < |s| ==> IsWhitespace(s[k])
    ensures 0 < m ==> !IsWhitespace(s[m - 1])
  {
    if |s| > 0 && IsWhitespace(s[|s| - 1]) then
      var m := ContentEnd(s[..|s| - 1]);
      assert forall k :: m <= k < |s| - 1 ==> s[k] == s[..|s| - 1][k];
      m
    else |s|
  }

  /**
   * `String.prototype.trim`: `s` without the whitespace at either end; a
   * trimmed string is a fixed point.
   */
  function Trim(s: string): (r: string)
    ensures IsTrimmed(r)
    ensures IsTrimmed(s) ==> r == s
  {
    var a := LeadingSpace(s);
    var b := ContentEnd(s);
    if a < b then s[a..b] else ""
  }

  /** Trimming removes only whitespace, and only at the two ends. */
  lemma TrimIsInfix(s: string)
    ensures var a := LeadingSpace(s); var r := Trim(s);
      a + |r| <= |s| && r == s[a..a + |r|] && AllWhitespace(s[..a]) && AllWhitespace(s[a + |r|..])
  {
    var a := LeadingSpace(s);
    var b := ContentEnd(s);
    var r := Trim(s);
    if a < b {
      assert forall k :: 0 <= k < |s| - b ==> s[b..][k] == s[b + k];
    }
  }

  /** The trim of `p + r + q` is `r` when `p` and `q` are whitespace and `r` is trimmed. */
  lemma TrimUnique(p: string, r: string, q: string)
    requires AllWhitespace(p) && AllWhitespace(q) && IsTrimmed(r)
    ensures Trim(p + r + q) == r
  {
    var s := p + r + q;
    var n := |p| + |r|;
    assert forall k :: 0 <= k < |p| ==> s[k] == p[k];
    assert forall k :: n <= k < |s| ==> s[k] == q[k - n];
    if |r| > 0 {
      assert s[|p|] == r[0] && s[n - 1] == r[|r| - 1];
      LeadingSpaceIs(s, |p|);
      ContentEndIs(s, n);
      assert s[|p|..n] == r;
    } else {
      LeadingSpaceIs(s, |s|);
    }
  }

  lemma LeadingSpaceIs(s: string, n: nat)
    requires n <= |s|
    requires forall k :: 0 <= k < n ==> IsWhitespace(s[k])
    requires n < |s| ==> !IsWhitespace(s[n])
    ensures LeadingSpace(s) == n
  {
  }

  lemma ContentEndIs(s: string, m: nat)
    requires m <= |s|
    requires forall k :: m <= k < |s| ==> IsWhitespace(s[k])
    requires 0 < m ==> !IsWhitespace(s[m - 1])
    ensures ContentEnd(s) == m
  {
  }

  /** Leading whitespace never survives trimming. */
  lemma TrimSkipsLeadingWhitespace(c: char, s: string)
    requires IsWhitespace(c)
    ensures Trim([c] + s) == Trim(s)
  {
    var a := LeadingSpace(s);
    var b := ContentEnd(s);
    var t := [c] + s;
    LeadingSpaceCons(c, s);
    if a < b {
      ContentEndCons(c, s);
      ConsSlice(c, s, a, b);
      TrimBetween(t, a + 1, b + 1);
      TrimBetween(s, a, b);
    } else {
      NoContent(s);
      assert LeadingSpace(t) == |t|;
      assert Trim(t) == "";
    }
  }

  lemma TrimBetween(s: string, a: nat, b: nat)
    requires LeadingSpace(s) == a < b == ContentEnd(s)
    ensures Trim(s) == s[a..b]
  {
  }

  /** When the leading whitespace reaches the content end, the string is all whitespace. */
  lemma NoContent(s: string)
    requires LeadingSpace(s) >= ContentEnd(s)
    ensures LeadingSpace(s) == |s| && Trim(s) == ""
  {
  }

  lemma LeadingSpaceCons(c: char, s: string)
    requires IsWhitespace(c)
    ensures LeadingSpace([c] + s) == LeadingSpace(s) + 1
  {
    var t := [c] + s;
    var a := LeadingSpace(s);
    forall k | 0 <= k < a + 1
      ensures IsWhitespace(t[k])
    {
      if k > 0 {
        assert t[k] == s[k - 1];
      }
    }
    if a + 1 < |t| {
      assert t[a + 1] == s[a];
    }
    LeadingSpaceIs(t, a + 1);
  }

  lemma ContentEndCons(c: char, s: string)
    requires 0 < ContentEnd(s)
    ensures ContentEnd([c] + s) == ContentEnd(s) + 1
  {
    var t := [c] + s;
    var b := ContentEnd(s);
    assert forall k :: b + 1 <= k < |t| ==> IsWhitespace(t[k]) by {
      forall k | b + 1 <= k < |t|
        ensures IsWhitespace(t[k])
      {
        assert t[k] == s[k - 1];
      }
    }
    assert t[b] == s[b - 1];
    ContentEndIs(t, b + 1);
  }

  lemma ConsSlice<T>(x: T, s: seq<T>, i: nat, j: nat)
    requires i <= j <= |s|
    ensures ([x] + s)[i + 1..j + 1] == s[i..j]
  {
  }

  // ---------------------------------------------------------------------------
  // ASCII case mapping
  // ---------------------------------------------------------------------------

  predicate IsAsciiUpper(c: char) { 'A' <= c <= 'Z' }
  predicate IsAsciiLower(c: char) { 'a' <= c <= 'z' }
  predicate IsAsciiLetter(c: char) { IsAsciiUpper(c) || IsAsciiLower(c) }
  predicate IsAsciiDigit(c: char) { '0' <= c <= '9' }
  predicate IsAsciiAlphanumeric(c: char) { IsAsciiLetter(c) || IsAsciiDigit(c) }

  function LowerChar(c: char): (r: char)
    ensures !IsAsciiUpper(r)
    ensures IsWhitespace(r) <==> IsWhitespace(c)
    ensures r == ',' <==> c == ','
    ensures r == ' ' <==> c == ' '
  {
    if IsAsciiUpper(c) then (c as int + 32) as char else c
  }

  function UpperChar(c: char): (r: char)
    ensures !IsAsciiLower(r)
    ensures IsAsciiLetter(c) ==> IsAsciiUpper(r) && LowerChar(r) == LowerChar(c)
  {
    if IsAsciiLower(c) then (c as int - 32) as char else c
  }

  /** `toLowerCase`, restricted to ASCII letters. */
  function Lower(s: string): (r: string)
    ensures |r| == |s|
    ensures forall k :: 0 <= k < |s| ==> r[k] == LowerChar(s[k])
  {
    seq(|s|, k requires 0 <= k < |s| => LowerChar(s[k]))
  }

  predicate HasNoUpper(s: string) {
    forall k :: 0 <= k < |s| ==> !IsAsciiUpper(s[k])
  }

  /** Case-insensitive equality, as `a.toLowerCase() === b.toLowerCase()`. */
  predicate FoldEq(a: string, b: string) {
    Lower(a) == Lower(b)
  }

  lemma LowerKeepsTrimmed(s: string)
    requires IsTrimmed(s)
    ensures IsTrimmed(Lower(s)) && HasNoUpper(Lower(s))
  {
  }

  // ---------------------------------------------------------------------------
  // Split on a literal separator, and join
  // ---------------------------------------------------------------------------

  /**
   * `s.split(sep)` for a non-empty literal separator: the pieces between the
   * occurrences of `sep` found scanning left to right.
   */
  function SplitOn(s: string, sep: string): (r: seq<string>)
    requires |sep| > 0
    ensures |r| >= 1
    ensures |r[0]| <= |s| && r[0] == s[..|r[0]|]
    decreases |s|
  {
    if |s| < |sep| then [s]
    else if s[..|sep|] == sep then [""] + SplitOn(s[|sep|..], sep)
    else
      var rest := SplitOn(s[1..], sep);
      [[s[0]] + rest[0]] + rest[1..]
  }

  /** `ps.join(sep)`. */
  function Join(ps: seq<string>, sep: string): (r: string)
    ensures |ps| == 0 ==> r == ""
    ensures |ps| == 1 ==> r == ps[0]
    ensures |ps| >= 1 ==> |ps[0]| <= |r| && r[..|ps[0]|] == ps[0]
  {
    if |ps| == 0 then ""
    else if |ps| == 1 then ps[0]
    else ps[0] + sep + Join(ps[1..], sep)
  }

  /** Joining the pieces of a split with the same separator gives the string back. */
  lemma {:induction false} JoinSplitOn(s: string, sep: string)
    requires |sep| > 0
    ensures Join(SplitOn(s, sep), sep) == s
    decreases |s|
  {
    if |s| < |sep| {
    } else if s[..|sep|] == sep {
      var rest := SplitOn(s[|sep|..], sep);
      JoinSplitOn(s[|sep|..], sep);
      assert SplitOn(s, sep) == [""] + rest;
      JoinCons("", rest, sep);
      assert s == sep + s[|sep|..];
    } else {
      var rest := SplitOn(s[1..], sep);
      JoinSplitOn(s[1..], sep);
      assert SplitOn(s, sep) == [[s[0]] + rest[0]] + rest[1..];
      JoinExtendFirst(s[0], rest, sep);
      assert [s[0]] + s[1..] == s;
    }
  }

  lemma JoinCons(p: string, ps: seq<string>, sep: string)
    requires |ps| >= 1
    ensures Join([p] + ps, sep) == p + sep + Join(ps, sep)
  {
    assert ([p] + ps)[1..] == ps;
  }

  /** Prefixing the first piece with `c` prefixes the joined string with `c`. */
  lemma JoinExtendFirst(c: char, ps: seq<string>, sep: string)
    requires |ps| >= 1
    ensures Join([[c] + ps[0]] + ps[1..], sep) == [c] + Join(ps, sep)
  {
    var qs := [[c] + ps[0]] + ps[1..];
    if |ps| > 1 {
      assert qs[1..] == ps[1..];
    }
  }

  /** The separator the interface uses for keyword lists. */
  const KeywordSeparator: string := ", "

  /** `s` contains the keyword separator `", "`. */
  predicate HasKeywordSeparator(s: string) {
    exists k :: 0 <= k < |s| - 1 && s[k] == ',' && s[k + 1] == ' '
  }

  lemma {:induction false} SplitOnPiecesHaveNoSeparator(s: string)
    ensures forall i :: 0 <= i < |SplitOn(s, KeywordSeparator)| ==> !HasKeywordSeparator(SplitOn(s, KeywordSeparator)[i])
    decreases |s|
  {
    var sep := KeywordSeparator;
    if |s| < |sep| {
    } else if s[..|sep|] == sep {
      SplitOnPiecesHaveNoSeparator(s[|sep|..]);
    } else {
      var rest := SplitOn(s[1..], sep);
      SplitOnPiecesHaveNoSeparator(s[1..]);
      var head := [s[0]] + rest[0];
      forall k | 0 <= k < |head| - 1
        ensures !(head[k] == ',' && head[k + 1] == ' ')
      {
        if k == 0 {
          assert head[1] == rest[0][0] == s[1];
          assert s[..2] == [s[0], s[1]];
        } else {
          assert head[k] == rest[0][k - 1] && head[k + 1] == rest[0][k];
        }
      }
      var r := [head] + rest[1..];
      forall i | 0 <= i < |r|
        ensures !HasKeywordSeparator(r[i])
      {
        if i > 0 {
          assert r[i] == rest[i];
        }
      }
    }
  }

  /** Splitting `p + ", " + t` cuts exactly after `p` when `p` holds no separator. */
  lemma {:induction false} SplitOnAfterPiece(p: string, t: string)
    requires !HasKeywordSeparator(p)
    ensures SplitOn(p + KeywordSeparator + t, KeywordSeparator) == [p] + SplitOn(t, KeywordSeparator)
    decreases |p|
  {
    var sep := KeywordSeparator;
    var s := p + sep + t;
    if |p| == 0 {
      assert s == sep + t;
      assert s[..2] == sep && s[2..] == t;
    } else {
      assert s[0] == p[0];
      if |p| == 1 {
        assert s[1] == ',';
      } else {
        assert s[1] == p[1];
        assert !(p[0] == ',' && p[1] == ' ');
      }
      assert s[..|sep|] != sep;
      var p' := p[1..];
      assert !HasKeywordSeparator(p') by {
        forall k | 0 <= k < |p'| - 1
          ensures !(p'[k] == ',' && p'[k + 1] == ' ')
        {
          assert p'[k] == p[k + 1] && p'[k + 1] == p[k + 2];
        }
      }
      assert s[1..] == p' + sep + t;
      SplitOnAfterPiece(p', t);
      assert [s[0]] + p' == p;
    }
  }

  lemma {:induction false} SplitOnSinglePiece(p: string)
    requires !HasKeywordSeparator(p)
    ensures SplitOn(p, KeywordSeparator) == [p]
    decreases |p|
  {
    var sep := KeywordSeparator;
    if |p| >= |sep| {
      assert !(p[0] == ',' && p[1] == ' ');
      assert p[..|sep|] != sep;
      var p' := p[1..];
      assert !HasKeywordSeparator(p') by {
        forall k | 0 <= k < |p'| - 1
          ensures !(p'[k] == ',' && p'[k + 1] == ' ')
        {
          assert p'[k] == p[k + 1] && p'[k + 1] == p[k + 2];
        }
      }
      SplitOnSinglePiece(p');
      assert [p[0]] + p' == p;
    }
  }

  /**
   * Splitting a non-empty `", "`-joined list whose pieces hold no `", "`
   * gives the list back.
   */
  lemma {:induction false} SplitOnJoin(ps: seq<string>)
    requires |ps| >= 1
    requires forall i :: 0 <= i < |ps| ==> !HasKeywordSeparator(ps[i])
    ensures SplitOn(Join(ps, KeywordSeparator), KeywordSeparator) == ps
    decreases |ps|
  {
    if |ps| == 1 {
      SplitOnSinglePiece(ps[0]);
    } else {
      SplitOnJoin(ps[1..]);
      SplitOnAfterPiece(ps[0], Join(ps[1..], KeywordSeparator));
      assert [ps[0]] + ps[1..] == ps;
    }
  }

  /** A piece of a string without `", "` has none either. */
  lemma InfixHasNoSeparator(s: string, a: nat, b: nat)
    requires a <= b <= |s|
    requires !HasKeywordSeparator(s)
    ensures !HasKeywordSeparator(s[a..b])
  {
    var t := s[a..b];
    forall k | 0 <= k < |t| - 1
      ensures !(t[k] == ',' && t[k + 1] == ' ')
    {
      assert t[k] == s[a + k] && t[k + 1] == s[a + k + 1];
    }
  }

  lemma TrimLowerHasNoSeparator(s: string)
    requires !HasKeywordSeparator(s)
    ensures !HasKeywordSeparator(Lower(Trim(s)))
  {
    var t := Trim(s);
    var a := LeadingSpace(s);
    TrimIsInfix(s);
    InfixHasNoSeparator(s, a, a + |t|);
    var l := Lower(t);
    forall k | 0 <= k < |l| - 1
      ensures !(l[k] == ',' && l[k + 1] == ' ')
    {
      assert l[k] == LowerChar(t[k]) && l[k + 1] == LowerChar(t[k + 1]);
    }
  }

  // ---------------------------------------------------------------------------
  // Split on the character class [,;]
  // ---------------------------------------------------------------------------

  /** The characters of the regular expression class `[,;]`. */
  predicate IsValueDelimiter(c: char) { c == ',' || c == ';' }

  predicate HasNoDelimiter(s: string) {
    forall k :: 0 <= k < |s| ==> !IsValueDelimiter(s[k])
  }

  function CountDelimiters(s: string): nat
  {
    if |s| == 0 then 0
    else (if IsValueDelimiter(s[0]) then 1 else 0) + CountDelimiters(s[1..])
  }

  /**
   * `s.split(/[,;]/)`: one more piece than there are delimiters, no piece
   * holding a delimiter.
   */
  function SplitOnDelimiters(s: string): (r: seq<string>)
    ensures |r| == CountDelimiters(s) + 1
    ensures forall i :: 0 <= i < |r| ==> HasNoDelimiter(r[i])
    ensures |r[0]| <= |s| && r[0] == s[..|r[0]|]
  {
    if |s| == 0 then [""]
    else if IsValueDelimiter(s[0]) then [""] + SplitOnDelimiters(s[1..])
    else
      var rest := SplitOnDelimiters(s[1..]);
      var r := [[s[0]] + rest[0]] + rest[1..];
      assert forall i :: 1 <= i < |r| ==> r[i] == rest[i];
      r
  }

  /** Splitting `p + d + t` at a delimiter `d` cuts exactly after a delimiter-free `p`. */
  lemma {:induction false} SplitOnDelimitersAfterPiece(p: string, d: char, t: string)
    requires HasNoDelimiter(p) && IsValueDelimiter(d)
    ensures SplitOnDelimiters(p + [d] + t) == [p] + SplitOnDelimiters(t)
    decreases |p|
  {
    var s := p + [d] + t;
    if |p| == 0 {
      assert s[1..] == t;
    } else {
      assert s[0] == p[0];
      assert s[1..] == p[1..] + [d] + t;
      SplitOnDelimitersAfterPiece(p[1..], d, t);
      assert [p[0]] + p[1..] == p;
    }
  }

  /** A character that is no delimiter joins the first piece. */
  lemma SplitOnDelimitersCons(c: char, t: string)
    requires !IsValueDelimiter(c)
    ensures var rest := SplitOnDelimiters(t);
      SplitOnDelimiters([c] + t) == [[c] + rest[0]] + rest[1..]
  {
    assert ([c] + t)[1..] == t;
  }

  lemma {:induction false} SplitOnDelimitersSinglePiece(p: string)
    requires HasNoDelimiter(p)
    ensures SplitOnDelimiters(p) == [p]
    decreases |p|
  {
    if |p| > 0 {
      SplitOnDelimitersSinglePiece(p[1..]);
      assert [p[0]] + p[1..] == p;
    }
  }
}

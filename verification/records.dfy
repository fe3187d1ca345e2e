/**
 * Turning the search service's records into the interface's own record
 * shape: each field under its spaced key or, failing that, its underscored
 * key, and the keyword text split into lower-cased keywords.
 */
module Records {
  import opened Wrappers
  import opened Text

  /** A record as the service sends it: field name to text. */
  type RawRecord = map<string, string>

  function Lookup(raw: RawRecord, key: string): (r: Option<string>)
    ensures r.Some? <==> key in raw
    ensures r.Some? ==> r.value == raw[key]
  {
    if key in raw then Some(raw[key]) else None
  }

  /** `a || b` on two text fields. */
  function Pick(a: Option<string>, b: Option<string>): (r: Option<string>)
    ensures Truthy(a) ==> r == a
    ensures !Truthy(a) ==> r == b
  {
    if Truthy(a) then a else b
  }

  /** The record after normalisation; absent fields stay absent. */
  datatype NormalizedRecord = NormalizedRecord(
    id: Option<string>,
    number: Option<string>,
    title: Option<string>,
    summary: Option<string>,
    domain: Option<string>,
    technology: Option<string>,
    subTechnology: Option<string>,
    keywords: seq<string>)

  /** `p[key] || p[alternate]`. */
  function Field(raw: RawRecord, key: string, alternate: string): (r: Option<string>)
    ensures r.Some? ==> (key in raw && r.value == raw[key]) || (alternate in raw && r.value == raw[alternate])
    ensures r.None? <==> !(key in raw && raw[key] != "") && alternate !in raw
  {
    Pick(Lookup(raw, key), Lookup(raw, alternate))
  }

  /** One keyword: the piece trimmed and lower-cased. */
  function CleanKeyword(piece: string): (k: string)
    ensures IsTrimmed(k) && HasNoUpper(k)
  {
    LowerKeepsTrimmed(Trim(piece));
    Lower(Trim(piece))
  }

  function CleanKeywords(pieces: seq<string>): (ks: seq<string>)
    ensures |ks| == |pieces|
    ensures forall i :: 0 <= i < |ks| ==> ks[i] == CleanKeyword(pieces[i])
  {
    seq(|pieces|, i requires 0 <= i < |pieces| => CleanKeyword(pieces[i]))
  }

  /**
   * `p["Keywords"]?.split(", ").map(k => k.trim().toLowerCase()) || []`:
   * no keywords without the field, otherwise one per piece.
   */
  function KeywordsOf(field: Option<string>): (ks: seq<string>)
    ensures field.None? ==> ks == []
    ensures field.Some? ==> |ks| >= 1
    ensures forall i :: 0 <= i < |ks| ==> IsTrimmed(ks[i]) && HasNoUpper(ks[i])
  {
    match field
    case None => []
    case Some(s) => CleanKeywords(SplitOn(s, KeywordSeparator))
  }

  /** The `formatted` record built from one raw record. */
  function Normalize(raw: RawRecord): (r: NormalizedRecord)
    ensures r.id == r.number
  {
    var number := Field(raw, "Patent Number", "Patent_Number");
    NormalizedRecord(
      number,
      number,
      Lookup(raw, "Title"),
      Lookup(raw, "Abstract"),
      Field(raw, "Industry Domain", "Industry_Domain"),
      Field(raw, "Technology Area", "Technology_Area"),
      Field(raw, "Sub-Technology Area", "Sub_Technology_Area"),
      KeywordsOf(Lookup(raw, "Keywords")))
  }

  /** `data.results.map(...)`: one normalised record per raw record, in order. */
  function NormalizeAll(raws: seq<RawRecord>): (rs: seq<NormalizedRecord>)
    ensures |rs| == |raws|
    ensures forall i :: 0 <= i < |rs| ==> rs[i] == Normalize(raws[i])
  {
    seq(|raws|, i requires 0 <= i < |raws| => Normalize(raws[i]))
  }

  // ---------------------------------------------------------------------------
  // Properties
  // ---------------------------------------------------------------------------

  /**
   * The spaced key wins whenever it holds text; an empty or missing spaced
   * key falls back to the underscored one.
   */
  lemma FieldPrefersSpacedKey(raw: RawRecord, key: string, alternate: string)
    ensures key in raw && raw[key] != "" ==> Field(raw, key, alternate) == Some(raw[key])
    ensures !(key in raw && raw[key] != "") ==> Field(raw, key, alternate) == Lookup(raw, alternate)
  {
  }

  /**
   * A record spelling its fields with underscores normalises like one
   * spelling them with spaces, as long as the value is not empty.
   */
  lemma SpellingsAgree(key: string, alternate: string, v: string)
    requires key != alternate && v != ""
    ensures Field(map[alternate := v], key, alternate) == Field(map[key := v], key, alternate) == Some(v)
  {
  }

  /** An empty value is falsy under either spelling: the field comes out empty or absent. */
  lemma EmptyValueIsFalsy(key: string, alternate: string)
    requires key != alternate
    ensures Field(map[key := ""], key, alternate) == None
    ensures Field(map[alternate := ""], key, alternate) == Some("")
  {
  }

  /**
   * The keywords come from cutting the field's text at each `", "`: there
   * are pieces that join back to the text, hold no separator, and give one
   * keyword each.
   */
  lemma KeywordsArePieces(s: string)
    ensures var ks := KeywordsOf(Some(s));
      exists pieces: seq<string> ::
        && Join(pieces, KeywordSeparator) == s
        && |pieces| == |ks|
        && (forall i :: 0 <= i < |pieces| ==> !HasKeywordSeparator(pieces[i]) && ks[i] == CleanKeyword(pieces[i]))
  {
    var pieces := SplitOn(s, KeywordSeparator);
    JoinSplitOn(s, KeywordSeparator);
    SplitOnPiecesHaveNoSeparator(s);
  }

  /** An empty keyword field gives one empty keyword, not none. */
  lemma EmptyKeywordField()
    ensures KeywordsOf(Some("")) == [""]
  {
    assert SplitOn("", KeywordSeparator) == [""];
    assert Lower(Trim("")) == "" by {
      assert IsTrimmed("");
    }
  }

  /** Keywords written lower-case, one `", "` apart, come out as written. */
  lemma {:induction false} CleanKeywordsKeepClean(ks: seq<string>)
    requires |ks| >= 1
    requires forall i :: 0 <= i < |ks| ==> IsTrimmed(ks[i]) && HasNoUpper(ks[i]) && !HasKeywordSeparator(ks[i])
    ensures KeywordsOf(Some(Join(ks, KeywordSeparator))) == ks
  {
    SplitOnJoin(ks);
    var r := KeywordsOf(Some(Join(ks, KeywordSeparator)));
    forall i | 0 <= i < |ks|
      ensures r[i] == ks[i]
    {
      LowerOfLower(ks[i]);
    }
  }

  lemma LowerOfLower(s: string)
    requires IsTrimmed(s) && HasNoUpper(s)
    ensures CleanKeyword(s) == s
  {
    assert Trim(s) == s;
  }

  /** Keywords are cleaned once: cleaning a cleaned keyword changes nothing. */
  lemma CleanKeywordIdempotent(piece: string)
    ensures CleanKeyword(CleanKeyword(piece)) == CleanKeyword(piece)
  {
    LowerOfLower(CleanKeyword(piece));
  }
}

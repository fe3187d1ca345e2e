/**
 * The spreadsheet download: one numbered row per result in a fixed column
 * order, a width per column, and a file name derived from the query.
 */
module Export {
  import opened Wrappers
  import opened Text
  import opened Records

  /** One spreadsheet cell; an absent field leaves its cell empty. */
  datatype Cell = Number(n: int) | Str(s: string) | Blank

  const Header: seq<string> := [
    "S.No", "Patent Number", "Title", "Domain",
    "Technology Area", "Sub-Technology", "Abstract", "Keywords"
  ]

  /** Column widths in characters, in the column order of `Header`. */
  const Widths: seq<nat> := [6, 16, 60, 22, 28, 35, 90, 50]

  function FieldCell(field: Option<string>): (c: Cell)
    ensures field.None? <==> c == Blank
    ensures field.Some? ==> c == Str(field.value)
  {
    match field
    case None => Blank
    case Some(s) => Str(s)
  }

  /**
   * `patent.keywords?.join(", ") || ""`: a normalised record always has a
   * keyword list, and joining an empty list already gives `""`.
   */
  function KeywordsCell(keywords: seq<string>): (c: string)
    ensures keywords == [] ==> c == ""
    ensures |keywords| == 1 ==> c == keywords[0]
    ensures |keywords| >= 1 ==> |keywords[0]| <= |c| && c[..|keywords[0]|] == keywords[0]
  {
    Join(keywords, KeywordSeparator)
  }

  /**
   * The row for the record at `index`, numbered from 1: the cells carry the
   * record's own fields, column by column, and an absent field leaves its
   * cell blank.
   */
  function Row(index: nat, rec: NormalizedRecord): (row: seq<Cell>)
    ensures |row| == |Header|
    ensures row[0] == Number(index + 1)
    ensures (rec.number.Some? ==> row[1] == Str(rec.number.value)) && (rec.number.None? ==> row[1] == Blank)
    ensures (rec.title.Some? ==> row[2] == Str(rec.title.value)) && (rec.title.None? ==> row[2] == Blank)
    ensures (rec.domain.Some? ==> row[3] == Str(rec.domain.value)) && (rec.domain.None? ==> row[3] == Blank)
    ensures (rec.technology.Some? ==> row[4] == Str(rec.technology.value)) && (rec.technology.None? ==> row[4] == Blank)
    ensures (rec.subTechnology.Some? ==> row[5] == Str(rec.subTechnology.value)) && (rec.subTechnology.None? ==> row[5] == Blank)
    ensures (rec.summary.Some? ==> row[6] == Str(rec.summary.value)) && (rec.summary.None? ==> row[6] == Blank)
    ensures row[7] == Str(Join(rec.keywords, KeywordSeparator))
    ensures rec.keywords == [] ==> row[7] == Str("")
  {
    [ Number(index + 1),
      FieldCell(rec.number),
      FieldCell(rec.title),
      FieldCell(rec.domain),
      FieldCell(rec.technology),
      FieldCell(rec.subTechnology),
      FieldCell(rec.summary),
      Str(KeywordsCell(rec.keywords)) ]
  }

  /** `results.map((patent, index) => ...)`. */
  function Rows(records: seq<NormalizedRecord>): (rows: seq<seq<Cell>>)
    ensures |rows| == |records|
    ensures forall i :: 0 <= i < |rows| ==> rows[i] == Row(i, records[i])
  {
    seq(|records|, i requires 0 <= i < |records| => Row(i, records[i]))
  }

  /**
   * Every row has one cell per column, the serial numbers run 1, 2, … in
   * record order, and there is one width per column.
   */
  lemma RowsShape(records: seq<NormalizedRecord>)
    ensures |Widths| == |Header| == 8
    ensures forall i :: 0 <= i < |Rows(records)| ==>
      |Rows(records)[i]| == |Header| && Rows(records)[i][0] == Number(i + 1)
  {
  }

  /**
   * The keyword cell of a record whose keyword field was present splits
   * back, at `", "`, into exactly the record's keywords.
   */
  lemma KeywordsCellRoundTrip(raw: RawRecord)
    requires "Keywords" in raw
    ensures var ks := Normalize(raw).keywords;
      SplitOn(KeywordsCell(ks), KeywordSeparator) == ks
  {
    var s := raw["Keywords"];
    var pieces := SplitOn(s, KeywordSeparator);
    var ks := Normalize(raw).keywords;
    assert ks == CleanKeywords(pieces);
    SplitOnPiecesHaveNoSeparator(s);
    forall i | 0 <= i < |ks|
      ensures !HasKeywordSeparator(ks[i])
    {
      TrimLowerHasNoSeparator(pieces[i]);
    }
    SplitOnJoin(ks);
  }

  // ---------------------------------------------------------------------------
  // File name
  // ---------------------------------------------------------------------------

  /** `replace(/[^a-zA-Z0-9]/g, "_")` on one character. */
  function SafeChar(c: char): (r: char)
    ensures IsAsciiAlphanumeric(r) || r == '_'
    ensures IsAsciiAlphanumeric(c) ==> r == c
    ensures !IsAsciiAlphanumeric(c) ==> r == '_'
  {
    if IsAsciiAlphanumeric(c) then c else '_'
  }

  /** Every character outside `[A-Za-z0-9]` replaced by `_`. */
  function Sanitize(s: string): (r: string)
    ensures |r| == |s|
    ensures forall k :: 0 <= k < |s| ==> r[k] == SafeChar(s[k])
  {
    seq(|s|, k requires 0 <= k < |s| => SafeChar(s[k]))
  }

  predicate IsSafeName(s: string) {
    forall k :: 0 <= k < |s| ==> IsAsciiAlphanumeric(s[k]) || s[k] == '_'
  }

  /** Sanitising twice is sanitising once. */
  lemma SanitizeIdempotent(s: string)
    ensures Sanitize(Sanitize(s)) == Sanitize(s)
  {
  }

  /** A string is left alone exactly when it already uses only letters, digits and `_`. */
  lemma SanitizeFixpoint(s: string)
    ensures Sanitize(s) == s <==> IsSafeName(s)
  {
    if Sanitize(s) == s {
      forall k | 0 <= k < |s|
        ensures IsAsciiAlphanumeric(s[k]) || s[k] == '_'
      {
        assert s[k] == Sanitize(s)[k];
      }
    }
  }

  lemma SanitizeExample()
    ensures Sanitize("3D imaging!") == "3D_imaging_"
  {
  }

  const Suffix: string := "_patents.xlsx"
  const FallbackPrefix: string := "patent_results_"

  /**
   * The download's file name: the sanitised query when there is one,
   * otherwise the date part (first ten characters) of the clock's ISO time.
   */
  function FileName(query: string, isoNow: string): (name: string)
    ensures query != "" ==> name == Sanitize(query) + Suffix
    ensures query == "" ==> |name| >= |FallbackPrefix| && name[..|FallbackPrefix|] == FallbackPrefix
    ensures |name| > 5 && name[|name| - 5..] == ".xlsx"
  {
    if query != "" then Sanitize(query) + Suffix
    else FallbackPrefix + isoNow[..if |isoNow| < 10 then |isoNow| else 10] + ".xlsx"
  }

  /**
   * For a non-empty query the name is the query, character for character,
   * with unsafe characters replaced, then `_patents.xlsx`; it never holds a
   * path separator.
   */
  lemma FileNameIsSafe(query: string, isoNow: string)
    requires query != ""
    ensures var name := FileName(query, isoNow);
      |name| == |query| + |Suffix| && IsSafeName(name[..|query|]) && name[|query|..] == Suffix
    ensures '/' !in FileName(query, isoNow) && '\\' !in FileName(query, isoNow)
  {
    var name := FileName(query, isoNow);
    assert name[..|query|] == Sanitize(query);
    assert name[|query|..] == Suffix;
    forall k | 0 <= k < |name|
      ensures name[k] != '/' && name[k] != '\\'
    {
      if k < |query| {
        assert name[k] == Sanitize(query)[k];
      } else {
        assert name[k] == Suffix[k - |query|];
      }
    }
  }
}

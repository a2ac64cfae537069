/** The column resolver of the report analyser (`find_column_indices` in
    krm.py): maps semantic field names to header-column indices by substring
    matching. A field matches a header cell when ANY one of its patterns
    occurs in the normalised cell text. */
module Columns {
  import opened Text
  import opened Numbers

  /** `str(cell)`: a missing cell prints as "None". */
  function CellText(c: Cell): string
  {
    match c
    case None => "None"
    case Some(s) => s
  }

  /** A header cell as the resolver compares it: newlines become spaces, then
      the text is lowercased and stripped. */
  function NormalizeHeader(c: Cell): (r: string)
    ensures r == [] || (!IsSpace(r[0]) && !IsSpace(r[|r| - 1]))
  {
    Strip(Lower(ReplaceAll(CellText(c), "\n", " ")))
  }

  /** `any(pattern in col_str for pattern in patterns)`, tried in order. */
  predicate AnyPatternIn(text: string, patterns: seq<string>)
    decreases |patterns|
  {
    patterns != [] && (Contains(text, patterns[0]) || AnyPatternIn(text, patterns[1..]))
  }

  /** Some pattern matches exactly when one of the patterns occurs in the text. */
  lemma {:induction false} AnyPatternInIff(text: string, patterns: seq<string>)
    ensures AnyPatternIn(text, patterns) <==> exists p :: p in patterns && Contains(text, p)
    decreases |patterns|
  {
    if patterns != [] {
      var rest := patterns[1..];
      AnyPatternInIff(text, rest);
      if AnyPatternIn(text, rest) {
        var p :| p in rest && Contains(text, p);
        assert p in patterns;
      }
      if p :| p in patterns && Contains(text, p) {
        if p != patterns[0] {
          assert p in rest;
        }
      }
    }
  }

  /** Header cell `c` matches a field with the given patterns. */
  predicate CellMatches(c: Cell, patterns: seq<string>)
  {
    AnyPatternIn(NormalizeHeader(c), patterns)
  }

  /** The text the resolver compares for each header cell, in order. */
  function HeaderTexts(header: seq<Cell>): (texts: seq<string>)
    ensures |texts| == |header|
  {
    if header == [] then [] else [NormalizeHeader(header[0])] + HeaderTexts(header[1..])
  }

  /** The `i`-th compared text is the normalised `i`-th cell. */
  lemma {:induction false} HeaderTextAt(header: seq<Cell>, i: nat)
    requires i < |header|
    ensures HeaderTexts(header)[i] == NormalizeHeader(header[i])
  {
    if i > 0 {
      HeaderTextAt(header[1..], i - 1);
    }
  }

  /** The leftmost text at or after `from` that contains one of `patterns`. */
  function LeftmostMatch(texts: seq<string>, patterns: seq<string>, from: nat): (r: Option<nat>)
    requires from <= |texts|
    ensures r.Some? ==> from <= r.value < |texts| && AnyPatternIn(texts[r.value], patterns)
    ensures r.Some? ==> forall j :: from <= j < r.value ==> !AnyPatternIn(texts[j], patterns)
    ensures r.None? ==> forall j :: from <= j < |texts| ==> !AnyPatternIn(texts[j], patterns)
    decreases |texts| - from
  {
    if from == |texts| then None
    else if AnyPatternIn(texts[from], patterns) then Some(from)
    else LeftmostMatch(texts, patterns, from + 1)
  }

  /** The field-to-patterns table of a caller, in the dict's order. */
  type ColumnMapping = seq<(string, seq<string>)>

  /** What `find_column_indices` returns: each field of the mapping, in order,
      is entered with its leftmost matching column; unmatched fields are absent. */
  function ResolveColumns(header: seq<Cell>, mapping: ColumnMapping): (r: map<string, nat>)
    ensures forall key :: key in r ==> r[key] < |header|
  {
    if mapping == [] then map[]
    else
      var earlier := ResolveColumns(header, mapping[..|mapping| - 1]);
      var (key, patterns) := mapping[|mapping| - 1];
      match LeftmostMatch(HeaderTexts(header), patterns, 0)
      case Some(i) => earlier[key := i]
      case None => earlier
  }

  /** Dict keys are distinct. */
  predicate DistinctKeys(mapping: ColumnMapping)
  {
    forall i, j :: 0 <= i < j < |mapping| ==> mapping[i].0 != mapping[j].0
  }

  /** `find_column_indices`: for each field, scan the header left to right and
      stop at the first cell that matches. */
  method FindColumnIndices(header: seq<Cell>, mapping: ColumnMapping) returns (indices: map<string, nat>)
    ensures indices == ResolveColumns(header, mapping)
    ensures forall key :: key in indices ==> indices[key] < |header|
  {
    indices := map[];
    for m := 0 to |mapping|
      invariant indices == ResolveColumns(header, mapping[..m])
    {
      assert mapping[..m + 1][..m] == mapping[..m];
      var (key, patterns) := mapping[m];
      ghost var texts := HeaderTexts(header);
      var i := 0;
      while i < |header|
        invariant 0 <= i <= |header|
        invariant LeftmostMatch(texts, patterns, i) == LeftmostMatch(texts, patterns, 0)
        invariant indices == ResolveColumns(header, mapping[..m])
      {
        HeaderTextAt(header, i);
        if AnyPatternIn(NormalizeHeader(header[i]), patterns) {
          indices := indices[key := i];
          break;
        }
        i := i + 1;
      }
    }
    assert mapping[..|mapping|] == mapping;
  }

  /** The resolver's contract: a field of the mapping gets an index exactly
      when the normalised text of some header cell contains one of its
      patterns, and that index is the leftmost such cell. */
  lemma {:induction false} ResolvedColumnIsLeftmostMatch(header: seq<Cell>, mapping: ColumnMapping, e: nat)
    requires DistinctKeys(mapping) && e < |mapping|
    ensures LeftmostEntry(ResolveColumns(header, mapping), mapping[e].0, HeaderTexts(header), mapping[e].1)
  {
    var n := |mapping|;
    var earlier := mapping[..n - 1];
    var (key, patterns) := mapping[e];
    if e < n - 1 {
      assert DistinctKeys(earlier);
      assert earlier[e] == mapping[e];
      ResolvedColumnIsLeftmostMatch(header, earlier, e);
      assert mapping[n - 1].0 != key;
      OtherKeyUnchanged(header, mapping, key);
      LeftmostEntryKept(ResolveColumns(header, earlier), ResolveColumns(header, mapping), key,
                        HeaderTexts(header), patterns);
    } else {
      assert key !in ResolveColumns(header, earlier) by {
        ResolvedKeysComeFromMapping(header, earlier);
      }
      LastKeyResolved(header, mapping);
    }
  }

  /** `r` maps `key` to the leftmost of `texts` containing one of `patterns`,
      and lacks `key` exactly when no text does. */
  ghost predicate LeftmostEntry(r: map<string, nat>, key: string, texts: seq<string>, patterns: seq<string>)
  {
    (key in r <==> exists i :: 0 <= i < |texts| && AnyPatternIn(texts[i], patterns)) &&
    (key in r ==> r[key] < |texts| && AnyPatternIn(texts[r[key]], patterns) &&
                  forall j :: 0 <= j < r[key] ==> !AnyPatternIn(texts[j], patterns))
  }

  lemma LeftmostEntryKept(r0: map<string, nat>, r: map<string, nat>, key: string,
                          texts: seq<string>, patterns: seq<string>)
    requires LeftmostEntry(r0, key, texts, patterns)
    requires (key in r <==> key in r0) && (key in r0 ==> r[key] == r0[key])
    ensures LeftmostEntry(r, key, texts, patterns)
  {
  }

  /** Resolving the last field leaves every other field's entry as it was. */
  lemma OtherKeyUnchanged(header: seq<Cell>, mapping: ColumnMapping, key: string)
    requires mapping != [] && mapping[|mapping| - 1].0 != key
    ensures var r, r0 := ResolveColumns(header, mapping), ResolveColumns(header, mapping[..|mapping| - 1]);
            (key in r <==> key in r0) && (key in r0 ==> r[key] == r0[key])
  {
  }

  /** The last field, not resolved before, gets its leftmost matching column. */
  lemma LastKeyResolved(header: seq<Cell>, mapping: ColumnMapping)
    requires mapping != [] && mapping[|mapping| - 1].0 !in ResolveColumns(header, mapping[..|mapping| - 1])
    ensures LeftmostEntry(ResolveColumns(header, mapping), mapping[|mapping| - 1].0, HeaderTexts(header),
                          mapping[|mapping| - 1].1)
  {
    var (key, patterns) := mapping[|mapping| - 1];
    var texts := HeaderTexts(header);
    var r := LeftmostMatch(texts, patterns, 0);
    if r.None? {
      assert forall i :: 0 <= i < |texts| ==> !AnyPatternIn(texts[i], patterns);
    }
  }

  /** Only fields of the mapping get an index. */
  lemma {:induction false} ResolvedKeysComeFromMapping(header: seq<Cell>, mapping: ColumnMapping)
    ensures forall key :: key in ResolveColumns(header, mapping) ==>
              exists e :: 0 <= e < |mapping| && mapping[e].0 == key
  {
    if mapping != [] {
      var earlier := mapping[..|mapping| - 1];
      ResolvedKeysComeFromMapping(header, earlier);
      forall key | key in ResolveColumns(header, mapping)
        ensures exists e :: 0 <= e < |mapping| && mapping[e].0 == key
      {
        if key != mapping[|mapping| - 1].0 {
          assert key in ResolveColumns(header, earlier);
          var e :| 0 <= e < |earlier| && earlier[e].0 == key;
          assert mapping[e].0 == key;
        }
      }
    }
  }

  lemma GrupHeader(c: Cell)
    requires c == Some("Grup Limit")
    ensures NormalizeHeader(c) == "grup limit"
  {
    var g := c.value;
    assert '\n' !in g && forall k :: 0 <= k < |g| ==> g[k] < '\U{80}';
    assert forall k :: 0 <= k < |g| ==>
      "grup limit"[k] == (if IsAsciiUpper(g[k]) then (g[k] as int + 32) as char else g[k]);
    NormalizePlainHeader(g, "grup limit");
  }

  lemma NakdiHeader(c: Cell)
    requires c == Some("Nakdi Limit")
    ensures NormalizeHeader(c) == "nakdi limit"
  {
    var n := c.value;
    assert '\n' !in n && forall k :: 0 <= k < |n| ==> n[k] < '\U{80}';
    assert forall k :: 0 <= k < |n| ==>
      "nakdi limit"[k] == (if IsAsciiUpper(n[k]) then (n[k] as int + 32) as char else n[k]);
    NormalizePlainHeader(n, "nakdi limit");
  }

  /** A header without newlines or surrounding blanks only gets lowercased. */
  lemma NormalizePlainHeader(s: string, lower: string)
    requires '\n' !in s && forall k :: 0 <= k < |s| ==> s[k] < '\U{80}'
    requires |lower| == |s|
    requires forall k :: 0 <= k < |s| ==>
               lower[k] == (if IsAsciiUpper(s[k]) then (s[k] as int + 32) as char else s[k])
    requires lower == [] || (!IsSpace(lower[0]) && !IsSpace(lower[|lower| - 1]))
    ensures NormalizeHeader(Some(s)) == lower
  {
    MissingCharNotContained(s, "\n", '\n');
    ReplaceAbsent(s, "\n", " ");
    LowerAscii(s);
    assert Lower(s) == lower;
    StripUntrimmed(lower, None);
  }

  /** Which cells of the documented example match which pattern. */
  lemma GrupCellMatches(c: Cell, patterns: seq<string>)
    requires c == Some("Grup Limit") && patterns == ["grup limit"]
    ensures CellMatches(c, patterns)
  {
    GrupHeader(c);
    ContainsItself(patterns[0]);
  }

  lemma GrupCellIsNotNakdi(c: Cell, patterns: seq<string>)
    requires c == Some("Grup Limit") && patterns == ["nakdi limit"]
    ensures !CellMatches(c, patterns)
  {
    GrupHeader(c);
    GrupLacksN(NormalizeHeader(c));
    NakdiPatternsHaveN(patterns);
    NoPatternWithout(NormalizeHeader(c), patterns, 'n');
  }

  lemma GrupLacksN(text: string)
    requires text == "grup limit"
    ensures 'n' !in text
  {
  }

  lemma NakdiPatternsHaveN(patterns: seq<string>)
    requires patterns == ["nakdi limit"]
    ensures forall p :: p in patterns ==> 'n' in p
  {
    assert patterns[0][0] == 'n';
  }

  /** A text lacking a character that every pattern has matches none of them. */
  lemma NoPatternWithout(text: string, patterns: seq<string>, ch: char)
    requires ch !in text
    requires forall p :: p in patterns ==> ch in p
    ensures !AnyPatternIn(text, patterns)
  {
    forall p | p in patterns
      ensures !Contains(text, p)
    {
      MissingCharNotContained(text, p, ch);
    }
    AnyPatternInIff(text, patterns);
  }

  /** A field one of whose patterns occurs in the first header cell
      resolves to column 0. */
  lemma PatternInFirstCell(header: seq<Cell>, mapping: ColumnMapping, e: nat, p: string)
    requires DistinctKeys(mapping) && e < |mapping| && p in mapping[e].1
    requires |header| > 0 && Contains(NormalizeHeader(header[0]), p)
    ensures mapping[e].0 in ResolveColumns(header, mapping)
    ensures ResolveColumns(header, mapping)[mapping[e].0] == 0
  {
    AnyPatternInIff(NormalizeHeader(header[0]), mapping[e].1);
    HeaderTextAt(header, 0);
    ResolvedColumnIsLeftmostMatch(header, mapping, e);
  }

  lemma NakdiCellMatches(c: Cell, patterns: seq<string>)
    requires c == Some("Nakdi Limit") && patterns == ["nakdi limit"]
    ensures CellMatches(c, patterns)
  {
    var text := NormalizeHeader(c);
    assert text == "nakdi limit" by { NakdiHeader(c); }
    assert OccursAt(text, patterns[0], 0);
    ContainsIffOccurs(text, patterns[0]);
  }

  /** The example of the resolver's documentation: the header
      ["Grup Limit", "Nakdi Limit", "Gayrinakdi Limit"] with the patterns
      grup: ["grup limit"] and nakdi: ["nakdi limit"] resolves to grup 0, nakdi 1. */
  lemma DocumentedExample(header: seq<Cell>, mapping: ColumnMapping)
    requires header == [Some("Grup Limit"), Some("Nakdi Limit"), Some("Gayrinakdi Limit")]
    requires mapping == [("grup", ["grup limit"]), ("nakdi", ["nakdi limit"])]
    ensures ResolveColumns(header, mapping) == map["grup" := 0, "nakdi" := 1]
  {
    var texts := HeaderTexts(header);
    HeaderTextAt(header, 0);
    HeaderTextAt(header, 1);
    GrupCellMatches(header[0], mapping[0].1);
    GrupCellIsNotNakdi(header[0], mapping[1].1);
    NakdiCellMatches(header[1], mapping[1].1);
    assert LeftmostMatch(texts, mapping[0].1, 0) == Some(0);
    assert LeftmostMatch(texts, mapping[1].1, 1) == Some(1);
    assert LeftmostMatch(texts, mapping[1].1, 0) == Some(1);
    assert mapping[..1][..0] == [];
    assert ResolveColumns(header, mapping[..1]) == map["grup" := 0];
  }
}

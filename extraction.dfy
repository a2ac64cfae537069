/** The table extractor of the report analyser (`parse_tables` in krm.py).
    The PDF is abstracted to its extracted grid: a document is a sequence of
    pages, a page a sequence of tables, a table a sequence of rows of
    optional cell strings. Limit and risk tables are recognised by their
    title cell, their columns are resolved from the second row, and every
    `KAYNAK-` row from the third row on becomes a keyed record. */
module Extraction {
  import opened Text
  import opened Numbers
  import opened Columns

  type Row = seq<Cell>
  type Table = seq<Row>
  type Page = seq<Table>

  /** One source's line of the limit table. Amounts are exact reals. */
  datatype LimitRecord = LimitRecord(
    grup: real, nakdi: real, gayrinakdi: real, toplam: real,
    revizeTarihi: Option<Date>,   // the later of the two revision dates
    revizeGecmis: bool)           // the revision date is before the cutoff

  /** One source's line of the risk table; `gecikme` is the delay in days. */
  datatype RiskRecord = RiskRecord(nakdi: real, gayrinakdi: real, toplam: real, gecikme: int)

  /** The two dictionaries `parse_tables` returns, keyed by source name. */
  datatype Extracted = Extracted(limits: map<string, LimitRecord>, risks: map<string, RiskRecord>)

  const NoRecords := Extracted(map[], map[])

  /** "LİMİT BİLGİLERİ", "RİSK" and "RİSK BİLGİLERİ" (dotted capital I). */
  const LimitTitle := "L\U{130}M\U{130}T B\U{130}LG\U{130}LER\U{130}"
  const RiskWord := "R\U{130}SK"
  const RiskTitle := "R\U{130}SK B\U{130}LG\U{130}LER\U{130}"

  /** The marker every data row's first cell carries. */
  const SourceMarker := "KAYNAK-"

  const LimitColumns: ColumnMapping := [
    ("grup", ["grup limit"]),
    ("nakdi", ["nakdi limit"]),
    ("gayrinakdi", ["gayrinakdi", "limit"]),
    ("toplam", ["toplam limit"]),
    ("revize_vade", ["genel revize", "revize vadesi"]),
    ("son_revize", ["son revize"])]

  const RiskColumns: ColumnMapping := [
    ("nakdi", ["nakdi risk"]),
    ("gayrinakdi", ["gayrinakdi", "risk"]),
    ("toplam", ["toplam risk"]),
    ("gecikme", ["max gecikme", "gecikme gün"])]

  // ---------------------------------------------------------------------
  // Tables and rows

  datatype TableKind = LimitTable | RiskTable | OtherTable

  /** `str(table[0][0])`, or "" when the first row is empty. */
  function TitleText(table: Table): string
    requires table != []
  {
    if table[0] == [] then "" else CellText(table[0][0])
  }

  /** A limit table's title names the limit section and not risk; otherwise
      a title naming the risk section makes a risk table. */
  function Classify(title: string): (k: TableKind)
    ensures k == LimitTable <==> Contains(title, LimitTitle) && !Contains(title, RiskWord)
    ensures k == RiskTable <==> Contains(title, RiskTitle)
  {
    assert Contains(title, RiskTitle) ==> Contains(title, RiskWord) by {
      if Contains(title, RiskTitle) {
        assert RiskTitle[..|RiskWord|] == RiskWord;
        ContainsPrefix(title, RiskTitle, RiskWord);
      }
    }
    if Contains(title, LimitTitle) && !Contains(title, RiskWord) then LimitTable
    else if Contains(title, RiskTitle) then RiskTable
    else OtherTable
  }

  /** A data row: non-empty, with a non-empty first cell holding the marker. */
  predicate AcceptedRow(row: Row)
    ensures |row| > 0 && row[0].Some? ==> (AcceptedRow(row) <==> Contains(row[0].value, SourceMarker))
  {
    |row| > 0 && row[0].Some? && row[0].value != "" && Contains(row[0].value, SourceMarker)
  }

  /** Row `row` is a data row whose source name is `k`. */
  predicate KeyedRow(row: Row, k: string)
  {
    AcceptedRow(row) && RowKey(row) == k
  }

  /** The source name of an accepted row: its stripped first cell. */
  function RowKey(row: Row): (k: string)
    requires AcceptedRow(row)
    ensures |k| <= |row[0].value|
    ensures k == [] || (!IsSpace(k[0]) && !IsSpace(k[|k| - 1]))
  {
    Strip(row[0].value)
  }

  /** Table `table` is a limit table with a data row for source `k`. */
  predicate LimitSourceIn(table: Table, k: string)
  {
    |table| >= 3 && Classify(TitleText(table)) == LimitTable &&
    exists r :: 2 <= r < |table| && KeyedRow(table[r], k)
  }

  /** Table `table` is a risk table with a data row for source `k`. */
  predicate RiskSourceIn(table: Table, k: string)
  {
    |table| >= 3 && Classify(TitleText(table)) == RiskTable &&
    exists r :: 2 <= r < |table| && KeyedRow(table[r], k)
  }

  /** The cell of a field's column in `row`, when the column was resolved
      and the row is long enough. */
  function FieldCell(row: Row, columns: map<string, nat>, field: string): (r: Option<Cell>)
    ensures r.Some? <==> field in columns && columns[field] < |row|
    ensures r.Some? ==> r.value == row[columns[field]]
  {
    if field in columns && columns[field] < |row| then Some(row[columns[field]]) else None
  }

  /** An amount field: 0 when its cell is missing. */
  function Amount(cell: Option<Cell>): (r: real)
    ensures cell.None? ==> r == 0.0
  {
    match cell
    case None => 0.0
    case Some(c) => CleanNumber(c)
  }

  /** A date field: None when its cell is missing or does not parse. */
  function DateField(cell: Option<Cell>): (r: Option<Date>)
    ensures r.Some? ==> cell.Some? && ValidDate(r.value)
  {
    match cell
    case None => None
    case Some(c) => ParseDate(c)
  }

  /** The later of two optional revision dates, else whichever is present. */
  function LatestRevision(a: Option<Date>, b: Option<Date>): (r: Option<Date>)
    ensures r.None? <==> a.None? && b.None?
    ensures r.Some? ==> r == a || r == b
    ensures r.Some? && a.Some? ==> !DateBefore(r.value, a.value)
    ensures r.Some? && b.Some? ==> !DateBefore(r.value, b.value)
  {
    match (a, b)
    case (Some(x), Some(y)) => Some(LaterDate(x, y))
    case (Some(_), None) => a
    case (None, _) => b
  }

  /** `int(x)` of a float: truncation toward zero. */
  function Truncate(x: real): (n: int)
    ensures 0.0 <= x ==> n as real <= x < n as real + 1.0
    ensures x < 0.0 ==> n as real - 1.0 < x <= n as real
  {
    if x >= 0.0 then x.Floor else -((-x).Floor)
  }

  /** The record of a limit-table row. */
  function BuildLimit(row: Row, columns: map<string, nat>, cutoff: DateTime): (r: LimitRecord)
    ensures r.revizeTarihi == LatestRevision(DateField(FieldCell(row, columns, "revize_vade")),
                                             DateField(FieldCell(row, columns, "son_revize")))
    ensures r.revizeTarihi.Some? ==> ValidDate(r.revizeTarihi.value)
    ensures r.revizeGecmis <==> r.revizeTarihi.Some? && Before(Midnight(r.revizeTarihi.value), cutoff)
    ensures FieldCell(row, columns, "grup").None? ==> r.grup == 0.0
    ensures FieldCell(row, columns, "nakdi").None? ==> r.nakdi == 0.0
    ensures FieldCell(row, columns, "gayrinakdi").None? ==> r.gayrinakdi == 0.0
    ensures FieldCell(row, columns, "toplam").None? ==> r.toplam == 0.0
  {
    var latest := LatestRevision(DateField(FieldCell(row, columns, "revize_vade")),
                                 DateField(FieldCell(row, columns, "son_revize")));
    LimitRecord(
      Amount(FieldCell(row, columns, "grup")),
      Amount(FieldCell(row, columns, "nakdi")),
      Amount(FieldCell(row, columns, "gayrinakdi")),
      Amount(FieldCell(row, columns, "toplam")),
      latest,
      latest.Some? && Before(Midnight(latest.value), cutoff))
  }

  /** The record of a risk-table row; the delay is the truncated amount. */
  function BuildRisk(row: Row, columns: map<string, nat>): (r: RiskRecord)
    ensures FieldCell(row, columns, "nakdi").None? ==> r.nakdi == 0.0
    ensures FieldCell(row, columns, "gayrinakdi").None? ==> r.gayrinakdi == 0.0
    ensures FieldCell(row, columns, "toplam").None? ==> r.toplam == 0.0
    ensures FieldCell(row, columns, "gecikme").None? ==> r.gecikme == 0
    ensures var d := Amount(FieldCell(row, columns, "gecikme"));
      (0.0 <= d ==> r.gecikme as real <= d < r.gecikme as real + 1.0) &&
      (d < 0.0 ==> r.gecikme as real - 1.0 < d <= r.gecikme as real)
  {
    RiskRecord(
      Amount(FieldCell(row, columns, "nakdi")),
      Amount(FieldCell(row, columns, "gayrinakdi")),
      Amount(FieldCell(row, columns, "toplam")),
      Truncate(Amount(FieldCell(row, columns, "gecikme"))))
  }

  // ---------------------------------------------------------------------
  // The extraction as a fold

  /** Data rows of a limit table, in order; a later row overwrites an
      earlier one with the same key. */
  function LimitRows(limits: map<string, LimitRecord>, rows: seq<Row>, columns: map<string, nat>,
                     cutoff: DateTime): map<string, LimitRecord>
  {
    if rows == [] then limits
    else
      var before := LimitRows(limits, rows[..|rows| - 1], columns, cutoff);
      var row := rows[|rows| - 1];
      if AcceptedRow(row) then before[RowKey(row) := BuildLimit(row, columns, cutoff)] else before
  }

  /** Data rows of a risk table, in order. */
  function RiskRows(risks: map<string, RiskRecord>, rows: seq<Row>, columns: map<string, nat>): map<string, RiskRecord>
  {
    if rows == [] then risks
    else
      var before := RiskRows(risks, rows[..|rows| - 1], columns);
      var row := rows[|rows| - 1];
      if AcceptedRow(row) then before[RowKey(row) := BuildRisk(row, columns)] else before
  }

  /** One table's contribution: tables of fewer than three rows and tables
      of neither kind change nothing. */
  function AddTable(st: Extracted, table: Table, cutoff: DateTime): (r: Extracted)
    ensures |table| < 3 ==> r == st
  {
    if |table| < 3 then st
    else match Classify(TitleText(table))
      case LimitTable =>
        st.(limits := LimitRows(st.limits, table[2..], ResolveColumns(table[1], LimitColumns), cutoff))
      case RiskTable =>
        st.(risks := RiskRows(st.risks, table[2..], ResolveColumns(table[1], RiskColumns)))
      case OtherTable => st
  }

  /** A table is read as a limit table or as a risk table, never as both:
      one of the two dictionaries comes out unchanged. */
  lemma AddTableTouchesOneKind(st: Extracted, table: Table, cutoff: DateTime)
    ensures AddTable(st, table, cutoff).limits == st.limits || AddTable(st, table, cutoff).risks == st.risks
  {
  }

  function AddTables(st: Extracted, tables: seq<Table>, cutoff: DateTime): Extracted
  {
    if tables == [] then st
    else AddTable(AddTables(st, tables[..|tables| - 1], cutoff), tables[|tables| - 1], cutoff)
  }

  /** The tables of pages 1 to `upTo` (0-based page numbers) that exist;
      page 0 is never read. */
  function TablesRead(doc: seq<Page>, upTo: nat): seq<Table>
  {
    if upTo == 0 then []
    else TablesRead(doc, upTo - 1) + (if upTo < |doc| then doc[upTo] else [])
  }

  /** What `parse_tables` returns for a document: the second and third
      pages' tables, folded in order. */
  function ExtractDocument(doc: seq<Page>, cutoff: DateTime): (r: Extracted)
    ensures |doc| <= 1 ==> r == NoRecords
  {
    assert |doc| <= 1 ==> TablesRead(doc, 1) == [] && TablesRead(doc, 2) == [];
    AddTables(NoRecords, TablesRead(doc, 2), cutoff)
  }

  // ---------------------------------------------------------------------
  // The extractor

  /** `parse_tables`: loops over pages 1 and 2 and their tables; a missing
      page is skipped. */
  method ParseTables(doc: seq<Page>, cutoff: DateTime)
    returns (limits: map<string, LimitRecord>, risks: map<string, RiskRecord>)
    ensures Extracted(limits, risks) == ExtractDocument(doc, cutoff)
  {
    limits, risks := map[], map[];
    for pageNum := 1 to 3
      invariant Extracted(limits, risks) == AddTables(NoRecords, TablesRead(doc, pageNum - 1), cutoff)
    {
      ghost var earlier := TablesRead(doc, pageNum - 1);
      if pageNum < |doc| {
        var tables := doc[pageNum];
        assert earlier + tables[..0] == earlier;
        for t := 0 to |tables|
          invariant Extracted(limits, risks) == AddTables(NoRecords, earlier + tables[..t], cutoff)
        {
          OneMoreTable(earlier, tables, t, cutoff);
          limits, risks := ReadTable(limits, risks, tables[t], cutoff);
        }
        assert tables[..|tables|] == tables;
      } else {
        assert earlier + [] == earlier;
      }
      NextPage(doc, pageNum);
    }
  }

  /** Reading one more page appends its tables, or nothing when it is missing. */
  lemma NextPage(doc: seq<Page>, pageNum: nat)
    requires pageNum >= 1
    ensures TablesRead(doc, pageNum) ==
            TablesRead(doc, pageNum - 1) + (if pageNum < |doc| then doc[pageNum] else [])
  {
  }

  /** Folding one more table of a page. */
  lemma OneMoreTable(earlier: seq<Table>, tables: seq<Table>, t: nat, cutoff: DateTime)
    requires t < |tables|
    ensures AddTables(NoRecords, earlier + tables[..t + 1], cutoff) ==
            AddTable(AddTables(NoRecords, earlier + tables[..t], cutoff), tables[t], cutoff)
  {
    var s := earlier + tables[..t + 1];
    assert s[..|s| - 1] == earlier + tables[..t];
  }

  /** The body of the table loop: classify the table by its title, resolve
      its columns and read its data rows. */
  method ReadTable(limits0: map<string, LimitRecord>, risks0: map<string, RiskRecord>, table: Table, cutoff: DateTime)
    returns (limits: map<string, LimitRecord>, risks: map<string, RiskRecord>)
    ensures Extracted(limits, risks) == AddTable(Extracted(limits0, risks0), table, cutoff)
  {
    limits, risks := limits0, risks0;
    if |table| < 2 {
      return;
    }
    var title := if table[0] == [] then "" else CellText(table[0][0]);
    if Contains(title, LimitTitle) && !Contains(title, RiskWord) {
      if |table| < 3 {
        return;
      }
      var columns := FindColumnIndices(table[1], LimitColumns);
      limits := ReadLimitRows(limits, table, columns, cutoff);
    } else if Contains(title, RiskTitle) {
      if |table| < 3 {
        return;
      }
      var columns := FindColumnIndices(table[1], RiskColumns);
      risks := ReadRiskRows(risks, table, columns);
    }
  }

  /** The row loop of a limit table: rows from the third on. */
  method ReadLimitRows(limits0: map<string, LimitRecord>, table: Table, columns: map<string, nat>, cutoff: DateTime)
    returns (limits: map<string, LimitRecord>)
    requires |table| >= 2
    ensures limits == LimitRows(limits0, table[2..], columns, cutoff)
  {
    limits := limits0;
    for r := 2 to |table|
      invariant limits == LimitRows(limits0, table[2..r], columns, cutoff)
    {
      LimitRowsStep(limits0, table, r, columns, cutoff);
      var row := table[r];
      if AcceptedRow(row) {
        limits := limits[RowKey(row) := BuildLimit(row, columns, cutoff)];
      }
    }
    assert table[2..|table|] == table[2..];
  }

  /** The row loop of a risk table. */
  method ReadRiskRows(risks0: map<string, RiskRecord>, table: Table, columns: map<string, nat>)
    returns (risks: map<string, RiskRecord>)
    requires |table| >= 2
    ensures risks == RiskRows(risks0, table[2..], columns)
  {
    risks := risks0;
    for r := 2 to |table|
      invariant risks == RiskRows(risks0, table[2..r], columns)
    {
      RiskRowsStep(risks0, table, r, columns);
      var row := table[r];
      if AcceptedRow(row) {
        risks := risks[RowKey(row) := BuildRisk(row, columns)];
      }
    }
    assert table[2..|table|] == table[2..];
  }

  /** One more row of a limit table. */
  lemma LimitRowsStep(limits0: map<string, LimitRecord>, table: Table, r: nat, columns: map<string, nat>,
                      cutoff: DateTime)
    requires 2 <= r < |table|
    ensures var before := LimitRows(limits0, table[2..r], columns, cutoff);
            LimitRows(limits0, table[2..r + 1], columns, cutoff) ==
            if AcceptedRow(table[r]) then before[RowKey(table[r]) := BuildLimit(table[r], columns, cutoff)]
            else before
  {
    assert table[2..r + 1][..r - 2] == table[2..r];
  }

  /** One more row of a risk table. */
  lemma RiskRowsStep(risks0: map<string, RiskRecord>, table: Table, r: nat, columns: map<string, nat>)
    requires 2 <= r < |table|
    ensures var before := RiskRows(risks0, table[2..r], columns);
            RiskRows(risks0, table[2..r + 1], columns) ==
            if AcceptedRow(table[r]) then before[RowKey(table[r]) := BuildRisk(table[r], columns)]
            else before
  {
    assert table[2..r + 1][..r - 2] == table[2..r];
  }

  // ---------------------------------------------------------------------
  // Properties of the extraction

  /** A title naming both sections is a risk table: "RİSK BİLGİLERİ"
      contains "RİSK", which rules out the limit branch. */
  lemma BothTitlesMakeRiskTable(title: string)
    requires Contains(title, LimitTitle) && Contains(title, RiskTitle)
    ensures Classify(title) == RiskTable
  {
    assert RiskTitle[..|RiskWord|] == RiskWord;
    ContainsPrefix(title, RiskTitle, RiskWord);
  }

  /** The source name of a data row carries the marker and is already
      stripped. */
  lemma RowKeyIsSourceName(row: Row)
    requires AcceptedRow(row)
    ensures Contains(RowKey(row), SourceMarker)
    ensures Strip(RowKey(row)) == RowKey(row)
  {
    assert SourceMarker[0] == 'K' && SourceMarker[|SourceMarker| - 1] == '-';
    StripKeepsInfix(row[0].value, SourceMarker);
    StripUntrimmed(RowKey(row), None);
  }

  /** The limit rows enter exactly the keys of their data rows. */
  lemma {:induction false} LimitRowsKeys(acc: map<string, LimitRecord>, rows: seq<Row>,
                                         columns: map<string, nat>, cutoff: DateTime, k: string)
    ensures k in LimitRows(acc, rows, columns, cutoff) <==>
            k in acc || exists r :: 0 <= r < |rows| && KeyedRow(rows[r], k)
  {
    if rows != [] {
      var init := rows[..|rows| - 1];
      LimitRowsKeys(acc, init, columns, cutoff, k);
      var before := LimitRows(acc, init, columns, cutoff);
      assert k in LimitRows(acc, rows, columns, cutoff) <==> k in before || KeyedRow(rows[|rows| - 1], k);
      KeyedRowInInit(rows, k);
    }
  }

  /** The risk rows enter exactly the keys of their data rows. */
  lemma {:induction false} RiskRowsKeys(acc: map<string, RiskRecord>, rows: seq<Row>,
                                        columns: map<string, nat>, k: string)
    ensures k in RiskRows(acc, rows, columns) <==>
            k in acc || exists r :: 0 <= r < |rows| && KeyedRow(rows[r], k)
  {
    if rows != [] {
      var init := rows[..|rows| - 1];
      RiskRowsKeys(acc, init, columns, k);
      var before := RiskRows(acc, init, columns);
      assert k in RiskRows(acc, rows, columns) <==> k in before || KeyedRow(rows[|rows| - 1], k);
      KeyedRowInInit(rows, k);
    }
  }

  /** A row of `rows` keyed `k` is one of its initial rows or its last one. */
  lemma KeyedRowInInit(rows: seq<Row>, k: string)
    requires rows != []
    ensures var init := rows[..|rows| - 1];
            (exists r :: 0 <= r < |rows| && KeyedRow(rows[r], k)) <==>
            (exists r :: 0 <= r < |init| && KeyedRow(init[r], k)) || KeyedRow(rows[|rows| - 1], k)
  {
    var init := rows[..|rows| - 1];
    if r :| 0 <= r < |init| && KeyedRow(init[r], k) {
      assert rows[r] == init[r];
    }
    if r :| 0 <= r < |rows| && KeyedRow(rows[r], k) {
      if r < |init| {
        assert init[r] == rows[r];
      }
    }
  }

  /** A later limit row with the same key overwrites the earlier record:
      the record kept is the one of the last data row for that key. */
  lemma {:induction false} LastLimitRowWins(acc: map<string, LimitRecord>, rows: seq<Row>,
                                            columns: map<string, nat>, cutoff: DateTime, r: nat)
    requires r < |rows| && AcceptedRow(rows[r])
    requires forall q :: r < q < |rows| ==> !KeyedRow(rows[q], RowKey(rows[r]))
    ensures RowKey(rows[r]) in LimitRows(acc, rows, columns, cutoff)
    ensures LimitRows(acc, rows, columns, cutoff)[RowKey(rows[r])] == BuildLimit(rows[r], columns, cutoff)
  {
    var init := rows[..|rows| - 1];
    if r < |rows| - 1 {
      assert init[r] == rows[r];
      forall q | r < q < |init|
        ensures !KeyedRow(init[q], RowKey(init[r]))
      {
        assert init[q] == rows[q];
      }
      LastLimitRowWins(acc, init, columns, cutoff, r);
      assert !KeyedRow(rows[|rows| - 1], RowKey(rows[r]));
    }
  }

  /** A later risk row with the same key overwrites the earlier record. */
  lemma {:induction false} LastRiskRowWins(acc: map<string, RiskRecord>, rows: seq<Row>,
                                           columns: map<string, nat>, r: nat)
    requires r < |rows| && AcceptedRow(rows[r])
    requires forall q :: r < q < |rows| ==> !KeyedRow(rows[q], RowKey(rows[r]))
    ensures RowKey(rows[r]) in RiskRows(acc, rows, columns)
    ensures RiskRows(acc, rows, columns)[RowKey(rows[r])] == BuildRisk(rows[r], columns)
  {
    var init := rows[..|rows| - 1];
    if r < |rows| - 1 {
      assert init[r] == rows[r];
      forall q | r < q < |init|
        ensures !KeyedRow(init[q], RowKey(init[r]))
      {
        assert init[q] == rows[q];
      }
      LastRiskRowWins(acc, init, columns, r);
      assert !KeyedRow(rows[|rows| - 1], RowKey(rows[r]));
    }
  }

  /** Data rows of a table, counted from its third row. */
  lemma DataRowsOfTable(table: Table, k: string)
    requires |table| >= 2
    ensures (exists r :: 0 <= r < |table[2..]| && KeyedRow(table[2..][r], k)) <==>
            (exists r :: 2 <= r < |table| && KeyedRow(table[r], k))
  {
    if r :| 0 <= r < |table[2..]| && KeyedRow(table[2..][r], k) {
      assert table[r + 2] == table[2..][r];
    }
    if r :| 2 <= r < |table| && KeyedRow(table[r], k) {
      assert table[2..][r - 2] == table[r];
    }
  }

  /** One table adds a limit key exactly when it is a limit table with a data
      row for it, and a risk key likewise. */
  lemma TableKeys(st: Extracted, table: Table, cutoff: DateTime, k: string)
    ensures k in AddTable(st, table, cutoff).limits <==> k in st.limits || LimitSourceIn(table, k)
    ensures k in AddTable(st, table, cutoff).risks <==> k in st.risks || RiskSourceIn(table, k)
  {
    if |table| >= 3 {
      DataRowsOfTable(table, k);
      match Classify(TitleText(table))
      case LimitTable =>
        LimitRowsKeys(st.limits, table[2..], ResolveColumns(table[1], LimitColumns), cutoff, k);
      case RiskTable =>
        RiskRowsKeys(st.risks, table[2..], ResolveColumns(table[1], RiskColumns), k);
      case OtherTable =>
    }
  }

  /** The keys after a run of tables. */
  lemma TablesKeys(st: Extracted, tables: seq<Table>, cutoff: DateTime, k: string)
    ensures k in AddTables(st, tables, cutoff).limits <==>
            k in st.limits || exists t :: t in tables && LimitSourceIn(t, k)
    ensures k in AddTables(st, tables, cutoff).risks <==>
            k in st.risks || exists t :: t in tables && RiskSourceIn(t, k)
  {
    TablesLimitKeys(st, tables, cutoff, k);
    TablesRiskKeys(st, tables, cutoff, k);
  }

  lemma {:induction false} TablesLimitKeys(st: Extracted, tables: seq<Table>, cutoff: DateTime, k: string)
    ensures k in AddTables(st, tables, cutoff).limits <==>
            k in st.limits || exists t :: t in tables && LimitSourceIn(t, k)
  {
    if tables != [] {
      var init, last := tables[..|tables| - 1], tables[|tables| - 1];
      TablesLimitKeys(st, init, cutoff, k);
      TableKeys(AddTables(st, init, cutoff), last, cutoff, k);
      assert tables == init + [last];
      if t :| t in tables && LimitSourceIn(t, k) {
        if t != last {
          assert t in init;
        }
      }
      if t :| t in init && LimitSourceIn(t, k) {
        assert t in tables;
      }
    }
  }

  lemma {:induction false} TablesRiskKeys(st: Extracted, tables: seq<Table>, cutoff: DateTime, k: string)
    ensures k in AddTables(st, tables, cutoff).risks <==>
            k in st.risks || exists t :: t in tables && RiskSourceIn(t, k)
  {
    if tables != [] {
      var init, last := tables[..|tables| - 1], tables[|tables| - 1];
      TablesRiskKeys(st, init, cutoff, k);
      TableKeys(AddTables(st, init, cutoff), last, cutoff, k);
      assert tables == init + [last];
      if t :| t in tables && RiskSourceIn(t, k) {
        if t != last {
          assert t in init;
        }
      }
      if t :| t in init && RiskSourceIn(t, k) {
        assert t in tables;
      }
    }
  }

  /** Only the second and third pages are read, and a missing page is
      skipped. */
  lemma TablesReadArePages1And2(doc: seq<Page>)
    ensures forall t :: t in TablesRead(doc, 2) <==>
              (|doc| > 1 && t in doc[1]) || (|doc| > 2 && t in doc[2])
  {
    assert TablesRead(doc, 0) == [];
    assert TablesRead(doc, 1) == [] + (if 1 < |doc| then doc[1] else []);
  }

  /** Every key of the result is the stripped first cell of a data row of a
      limit (resp. risk) table on page 1 or 2, and every such row's key is
      in the result. */
  lemma DocumentKeys(doc: seq<Page>, cutoff: DateTime, k: string)
    ensures k in ExtractDocument(doc, cutoff).limits <==>
            exists t :: ((|doc| > 1 && t in doc[1]) || (|doc| > 2 && t in doc[2])) && LimitSourceIn(t, k)
    ensures k in ExtractDocument(doc, cutoff).risks <==>
            exists t :: ((|doc| > 1 && t in doc[1]) || (|doc| > 2 && t in doc[2])) && RiskSourceIn(t, k)
  {
    TablesKeys(NoRecords, TablesRead(doc, 2), cutoff, k);
    TablesReadArePages1And2(doc);
  }

  /** Every key of the result carries the marker and has no surrounding
      whitespace. */
  lemma DocumentKeysAreSourceNames(doc: seq<Page>, cutoff: DateTime, k: string)
    requires k in ExtractDocument(doc, cutoff).limits || k in ExtractDocument(doc, cutoff).risks
    ensures Contains(k, SourceMarker) && Strip(k) == k
  {
    DocumentKeys(doc, cutoff, k);
    var t :| ((|doc| > 1 && t in doc[1]) || (|doc| > 2 && t in doc[2])) && (LimitSourceIn(t, k) || RiskSourceIn(t, k));
    var r :| 2 <= r < |t| && KeyedRow(t[r], k);
    RowKeyIsSourceName(t[r]);
  }

  /** The overdue flag of every limit record agrees with its revision date
      and the cutoff. */
  predicate ConsistentLimits(limits: map<string, LimitRecord>, cutoff: DateTime)
  {
    forall k :: k in limits ==>
      (limits[k].revizeTarihi.Some? ==> ValidDate(limits[k].revizeTarihi.value)) &&
      (limits[k].revizeGecmis <==>
         limits[k].revizeTarihi.Some? && Before(Midnight(limits[k].revizeTarihi.value), cutoff))
  }

  lemma {:induction false} LimitRowsConsistent(acc: map<string, LimitRecord>, rows: seq<Row>,
                                               columns: map<string, nat>, cutoff: DateTime)
    requires ConsistentLimits(acc, cutoff)
    ensures ConsistentLimits(LimitRows(acc, rows, columns, cutoff), cutoff)
  {
    if rows != [] {
      LimitRowsConsistent(acc, rows[..|rows| - 1], columns, cutoff);
    }
  }

  lemma {:induction false} TablesConsistent(st: Extracted, tables: seq<Table>, cutoff: DateTime)
    requires ConsistentLimits(st.limits, cutoff)
    ensures ConsistentLimits(AddTables(st, tables, cutoff).limits, cutoff)
  {
    if tables != [] {
      var init := tables[..|tables| - 1];
      var table := tables[|tables| - 1];
      TablesConsistent(st, init, cutoff);
      if |table| >= 3 && Classify(TitleText(table)) == LimitTable {
        var before := AddTables(st, init, cutoff);
        LimitRowsConsistent(before.limits, table[2..], ResolveColumns(table[1], LimitColumns), cutoff);
      }
    }
  }

  /** Every limit record of a document is overdue exactly when its latest
      revision date is strictly before the cutoff. */
  lemma DocumentLimitsConsistent(doc: seq<Page>, cutoff: DateTime)
    ensures ConsistentLimits(ExtractDocument(doc, cutoff).limits, cutoff)
  {
    TablesConsistent(NoRecords, TablesRead(doc, 2), cutoff);
  }

  lemma LimitColumnKeysDistinct()
    ensures DistinctKeys(LimitColumns)
    ensures LimitColumns[2] == ("gayrinakdi", ["gayrinakdi", "limit"])
  {
  }

  /** Any-of matching: when the first header cell mentions "limit" at all,
      the non-cash limit column resolves to that first column. */
  lemma NonCashLimitTakesFirstLimitColumn(header: seq<Cell>)
    requires |header| > 0 && Contains(NormalizeHeader(header[0]), "limit")
    ensures "gayrinakdi" in ResolveColumns(header, LimitColumns)
    ensures ResolveColumns(header, LimitColumns)["gayrinakdi"] == 0
  {
    LimitColumnKeysDistinct();
    PatternInFirstCell(header, LimitColumns, 2, "limit");
  }
}

/** The record a crawler builds for one paper, the dictionary form in which it
    hands records on, and the column projection the improved crawler applies
    before writing a spreadsheet. */
module Records {
  import opened Cascade
  import opened Lists

  /** The six fields of a paper, every one a (possibly empty) string. */
  datatype Paper = Paper(title: string, authors: string, journal: string, date: string, citations: string, downloads: string)

  /** The dictionary keys, in the column order the improved crawler imposes:
      title, authors, journal, publication date, citation count, download count. */
  const ColumnOrder: seq<string> := ["标题", "作者", "期刊", "发表日期", "被引次数", "下载次数"]

  /** A record as a dictionary from column name to value. */
  type Record = map<string, string>

  /** The dictionary literal both crawlers return for a paper. */
  function AsRecord(p: Paper): (r: Record)
    ensures r.Keys == set c | c in ColumnOrder
    ensures r[ColumnOrder[0]] == p.title && r[ColumnOrder[1]] == p.authors && r[ColumnOrder[2]] == p.journal
    ensures r[ColumnOrder[3]] == p.date && r[ColumnOrder[4]] == p.citations && r[ColumnOrder[5]] == p.downloads
  {
    map["标题" := p.title, "作者" := p.authors, "期刊" := p.journal,
        "发表日期" := p.date, "被引次数" := p.citations, "下载次数" := p.downloads]
  }

  function AsRecords(papers: seq<Paper>): (rs: seq<Record>)
    ensures |rs| == |papers| && forall i :: 0 <= i < |papers| ==> rs[i] == AsRecord(papers[i])
  {
    seq(|papers|, i requires 0 <= i < |papers| => AsRecord(papers[i]))
  }

  /** Column `c` of the data frame built from `records` exists: some record has the key. */
  predicate HasColumn(records: seq<Record>, c: string) {
    exists i | 0 <= i < |records| :: c in records[i]
  }

  /** `[col for col in cols if col in df.columns]`. */
  function SelectColumns(cols: seq<string>, records: seq<Record>): (r: seq<string>)
    ensures forall c :: c in r <==> c in cols && HasColumn(records, c)
    ensures IsSubsequence(r, cols)
  {
    if cols == [] then []
    else
      var rest := SelectColumns(cols[1..], records);
      if HasColumn(records, cols[0]) then [cols[0]] + rest else rest
  }

  /** A spreadsheet: a header row and one row of cells per record.  A cell is
      `None` where the record lacks the column (pandas fills in NaN, written as
      an empty cell). */
  datatype Sheet = Sheet(header: seq<string>, rows: seq<seq<Option<string>>>)

  /** The cell of record `r` in column `c`. */
  function Cell(r: Record, c: string): Option<string> {
    if c in r then Some(r[c]) else None
  }

  /** The improved `save_to_excel`: nothing is written for an empty list;
      otherwise the data frame of the records, restricted to the known
      columns present, in the fixed column order. */
  function SaveToExcel(records: seq<Record>): (sheet: Option<Sheet>)
    ensures sheet.None? <==> records == []
    ensures sheet.Some? ==> forall c :: c in sheet.value.header <==> c in ColumnOrder && HasColumn(records, c)
    ensures sheet.Some? ==> IsSubsequence(sheet.value.header, ColumnOrder)
    ensures sheet.Some? ==> |sheet.value.rows| == |records|
    ensures sheet.Some? ==> forall i :: 0 <= i < |records| ==> |sheet.value.rows[i]| == |sheet.value.header|
    ensures sheet.Some? ==> forall i, j :: 0 <= i < |records| && 0 <= j < |sheet.value.header| ==>
              sheet.value.rows[i][j] == Cell(records[i], sheet.value.header[j])
  {
    if records == [] then None
    else
      var header := SelectColumns(ColumnOrder, records);
      Some(Sheet(header, seq(|records|, i requires 0 <= i < |records| =>
        seq(|header|, j requires 0 <= j < |header| => Cell(records[i], header[j])))))
  }

  /** When every column exists, the projection keeps all of them, in order. */
  lemma {:induction false} SelectAll(cols: seq<string>, records: seq<Record>)
    requires forall c :: c in cols ==> HasColumn(records, c)
    ensures SelectColumns(cols, records) == cols
  {
    if cols != [] {
      SelectAll(cols[1..], records);
    }
  }

  /** The paper a spreadsheet row holds, when it has the six cells. */
  function ReadRow(row: seq<Option<string>>): Option<Paper> {
    if |row| == 6 && row[0].Some? && row[1].Some? && row[2].Some? && row[3].Some? && row[4].Some? && row[5].Some? then
      Some(Paper(row[0].value, row[1].value, row[2].value, row[3].value, row[4].value, row[5].value))
    else None
  }

  /** A row holding the six columns of a paper's record reads back as that paper. */
  lemma RowReadsBack(p: Paper, row: seq<Option<string>>)
    requires |row| == |ColumnOrder|
    requires forall j :: 0 <= j < |ColumnOrder| ==> row[j] == Cell(AsRecord(p), ColumnOrder[j])
    ensures ReadRow(row) == Some(p)
  {
    var r := AsRecord(p);
    assert row[0] == Some(p.title) && row[1] == Some(p.authors) && row[2] == Some(p.journal);
    assert row[3] == Some(p.date) && row[4] == Some(p.citations) && row[5] == Some(p.downloads);
  }

  /** Every column exists in a non-empty list of paper records. */
  lemma PaperColumnsPresent(papers: seq<Paper>)
    requires papers != []
    ensures forall c :: c in ColumnOrder ==> HasColumn(AsRecords(papers), c)
  {
    var r := AsRecords(papers)[0];
    assert r.Keys == set c | c in ColumnOrder;
    forall c | c in ColumnOrder ensures HasColumn(AsRecords(papers), c) {
      assert c in r;
    }
  }

  /** Saving crawled papers writes all six columns in the fixed order, and
      every row reads back as the paper it came from. */
  lemma SavedPapersReadBack(papers: seq<Paper>)
    requires papers != []
    ensures SaveToExcel(AsRecords(papers)).Some?
    ensures SaveToExcel(AsRecords(papers)).value.header == ColumnOrder
    ensures forall i :: 0 <= i < |papers| ==> ReadRow(SaveToExcel(AsRecords(papers)).value.rows[i]) == Some(papers[i])
  {
    var records := AsRecords(papers);
    PaperColumnsPresent(papers);
    SelectAll(ColumnOrder, records);
    var sheet := SaveToExcel(records).value;
    assert sheet.header == ColumnOrder;
    forall i | 0 <= i < |papers| ensures ReadRow(sheet.rows[i]) == Some(papers[i]) {
      assert records[i] == AsRecord(papers[i]);
      RowReadsBack(papers[i], sheet.rows[i]);
    }
  }
}

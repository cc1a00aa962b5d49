/**
 * `readSheetRows`: the spreadsheet range (header row first) becomes one map
 * per data row, keyed by the trimmed header texts. Cells are trimmed, a row
 * shorter than the header reads "" for the missing columns, and a blank
 * `Project` or `Status` cell takes the most recent non-blank value above it.
 * db/main.go and db/bootstrap.go hold the same function; this module models both.
 */
module Sheet {
  import opened Wrappers
  import opened Text

  const ProjectHdr: string := "Project"
  const StatusHdr: string := "Status"

  /** What the Sheets API returned for the range: a failure, or the grid of cells, each already printed as text. */
  datatype Fetch = FetchFailed | Fetched(values: seq<seq<string>>)

  datatype SheetError = RetrieveFailed | EmptyWorksheet

  type Row = map<string, string>

  /** The trimmed cell in column `c` of row `r`, or "" where the row is too short. */
  function Cell(r: seq<string>, c: int): string
  {
    if 0 <= c < |r| then TrimSpace(r[c]) else ""
  }

  function Headers(first: seq<string>): seq<string>
  {
    seq(|first|, c requires 0 <= c < |first| => Cell(first, c))
  }

  /** The last column headed `h`, or -1: later columns overwrite earlier ones under the same key. */
  function LastCol(hs: seq<string>, h: string): (c: int)
    ensures -1 <= c < |hs|
    ensures c >= 0 ==> hs[c] == h && forall d :: c < d < |hs| ==> hs[d] != h
    ensures c == -1 <==> h !in hs
  {
    if |hs| == 0 then -1
    else if hs[|hs| - 1] == h then |hs| - 1
    else LastCol(hs[..|hs| - 1], h)
  }

  /** The most recent non-blank cell of column `c` in `rows`, or "" when there is none. */
  function LastNonBlank(rows: seq<seq<string>>, c: int): string
  {
    if |rows| == 0 then ""
    else if Cell(rows[|rows| - 1], c) != "" then Cell(rows[|rows| - 1], c)
    else LastNonBlank(rows[..|rows| - 1], c)
  }

  /** What data row `k` holds under header `h`. */
  function Expected(hs: seq<string>, data: seq<seq<string>>, k: nat, h: string): string
    requires k < |data|
  {
    if h == ProjectHdr || h == StatusHdr then LastNonBlank(data[..k + 1], LastCol(hs, h))
    else Cell(data[k], LastCol(hs, h))
  }

  function ExpectedRow(hs: seq<string>, data: seq<seq<string>>, k: nat): Row
    requires k < |data|
  {
    map h | h in hs :: Expected(hs, data, k, h)
  }

  /** The normalised sheet, stated column by column rather than by a running scan. */
  function SheetRows(fetch: Fetch): Result<seq<Row>, SheetError>
  {
    match fetch
    case FetchFailed => Err(RetrieveFailed)
    case Fetched(values) =>
      if |values| == 0 then Err(EmptyWorksheet)
      else
        var hs, data := Headers(values[0]), values[1..];
        Ok(seq(|data|, k requires 0 <= k < |data| => ExpectedRow(hs, data, k)))
  }

  lemma LastColStep(hs: seq<string>, j: nat, h: string)
    requires j < |hs|
    ensures LastCol(hs[..j + 1], h) == if hs[j] == h then j else LastCol(hs[..j], h)
  {
    assert hs[..j + 1][..j] == hs[..j];
  }

  lemma LastNonBlankStep(data: seq<seq<string>>, k: nat, c: int)
    requires k < |data|
    ensures LastNonBlank(data[..k + 1], c)
         == if Cell(data[k], c) != "" then Cell(data[k], c) else LastNonBlank(data[..k], c)
  {
    assert data[..k + 1][..k] == data[..k];
  }

  /** The running Project/Status value after a row: its own cell when non-blank, the previous value otherwise. */
  function Carry(last: string, row: seq<string>, c: int): string
  {
    if Cell(row, c) != "" then Cell(row, c) else last
  }

  method ReadSheetRows(fetch: Fetch) returns (r: Result<seq<Row>, SheetError>)
    ensures r == SheetRows(fetch)
  {
    if fetch.FetchFailed? {
      return Err(RetrieveFailed);
    }
    var values := fetch.values;
    if |values| == 0 {
      return Err(EmptyWorksheet);
    }
    var hs := TrimHeaders(values[0]);
    var projIdx, statIdx := FindColumns(hs);

    // The remaining rows.
    var data := values[1..];
    var rows: seq<Row> := [];
    var lastProject, lastStatus := "", "";
    var k := 0;
    while k < |data|
      invariant 0 <= k <= |data|
      invariant |rows| == k
      invariant forall m :: 0 <= m < k ==> rows[m] == ExpectedRow(hs, data, m)
      invariant lastProject == LastNonBlank(data[..k], projIdx)
      invariant lastStatus == LastNonBlank(data[..k], statIdx)
    {
      LastNonBlankStep(data, k, projIdx);
      LastNonBlankStep(data, k, statIdx);
      var rowMap;
      rowMap, lastProject, lastStatus := RowToMap(hs, data[k], projIdx, statIdx, lastProject, lastStatus);
      RowComplete(hs, data, k, projIdx, statIdx, lastProject, lastStatus);
      RowsStep(hs, data, rows, rowMap, k);
      rows := rows + [rowMap];
      k := k + 1;
    }
    ghost var want := seq(|data|, m requires 0 <= m < |data| => ExpectedRow(hs, data, m));
    assert SheetRows(fetch) == Ok(want);
    assert rows == want;
    r := Ok(rows);
  }

  lemma RowsStep(hs: seq<string>, data: seq<seq<string>>, rows: seq<Row>, rowMap: Row, k: nat)
    requires k < |data| && |rows| == k
    requires forall m :: 0 <= m < k ==> rows[m] == ExpectedRow(hs, data, m)
    requires rowMap == ExpectedRow(hs, data, k)
    ensures forall m :: 0 <= m < k + 1 ==> (rows + [rowMap])[m] == ExpectedRow(hs, data, m)
  {
    forall m | 0 <= m < k + 1
      ensures (rows + [rowMap])[m] == ExpectedRow(hs, data, m)
    {
      if m < k {
        assert (rows + [rowMap])[m] == rows[m];
      }
    }
  }

  /** The header row, every cell trimmed. */
  method TrimHeaders(first: seq<string>) returns (hs: seq<string>)
    ensures hs == Headers(first)
  {
    var headers := new string[|first|];
    var c := 0;
    while c < |first|
      invariant 0 <= c <= |first|
      invariant forall d :: 0 <= d < c ==> headers[d] == Cell(first, d)
    {
      headers[c] := TrimSpace(first[c]);
      c := c + 1;
    }
    hs := headers[..];
  }

  /** The columns headed Project and Status (the last such column of each), or -1. */
  method FindColumns(hs: seq<string>) returns (projIdx: int, statIdx: int)
    ensures projIdx == LastCol(hs, ProjectHdr)
    ensures statIdx == LastCol(hs, StatusHdr)
  {
    projIdx, statIdx := -1, -1;
    var c := 0;
    while c < |hs|
      invariant 0 <= c <= |hs|
      invariant projIdx == LastCol(hs[..c], ProjectHdr)
      invariant statIdx == LastCol(hs[..c], StatusHdr)
    {
      LastColStep(hs, c, ProjectHdr);
      LastColStep(hs, c, StatusHdr);
      if hs[c] == ProjectHdr {
        projIdx := c;
      } else if hs[c] == StatusHdr {
        statIdx := c;
      }
      c := c + 1;
    }
    assert hs[..|hs|] == hs;
  }

  /** One data row: every header gets its column's value, Project and Status carried forward. */
  method RowToMap(hs: seq<string>, row: seq<string>, projIdx: int, statIdx: int, lastProject: string, lastStatus: string)
    returns (rowMap: Row, project: string, status: string)
    requires projIdx < |hs| && statIdx < |hs| && (projIdx < 0 || projIdx != statIdx)
    ensures project == Carry(lastProject, row, projIdx)
    ensures status == Carry(lastStatus, row, statIdx)
    ensures rowMap == ColumnsRow(hs, |hs|, row, projIdx, statIdx, project, status)
  {
    ghost var newProject := Carry(lastProject, row, projIdx);
    ghost var newStatus := Carry(lastStatus, row, statIdx);
    project, status := lastProject, lastStatus;
    rowMap := map[];
    var c := 0;
    while c < |hs|
      invariant 0 <= c <= |hs|
      invariant rowMap == ColumnsRow(hs, c, row, projIdx, statIdx, newProject, newStatus)
      invariant project == if 0 <= projIdx < c then newProject else lastProject
      invariant status == if 0 <= statIdx < c then newStatus else lastStatus
    {
      // read the raw cell if present
      var cellVal := "";
      if c < |row| {
        cellVal := TrimSpace(row[c]);
      }
      assert cellVal == Cell(row, c);
      var value;
      if c == projIdx {
        if cellVal != "" {
          project := cellVal;
        }
        value := project;
      } else if c == statIdx {
        if cellVal != "" {
          status := cellVal;
        }
        value := status;
      } else {
        value := cellVal;
      }
      assert value == ColumnValue(row, c, projIdx, statIdx, newProject, newStatus);
      rowMap := rowMap[hs[c] := value];
      c := c + 1;
    }
  }

  /** The map after the first `n` columns have been written, each in turn. */
  function ColumnsRow(hs: seq<string>, n: nat, row: seq<string>, projIdx: int, statIdx: int,
                      project: string, status: string): Row
    requires n <= |hs|
  {
    if n == 0 then map[]
    else ColumnsRow(hs, n - 1, row, projIdx, statIdx, project, status)[hs[n - 1] := ColumnValue(row, n - 1, projIdx, statIdx, project, status)]
  }

  /** Writing the columns in order leaves every header as a key, holding the value of its last column. */
  lemma {:induction false} ColumnsRowMeaning(hs: seq<string>, n: nat, row: seq<string>, projIdx: int, statIdx: int,
                                             project: string, status: string, h: string)
    requires n <= |hs|
    ensures h in ColumnsRow(hs, n, row, projIdx, statIdx, project, status) <==> h in hs[..n]
    ensures h in hs[..n] ==>
      ColumnsRow(hs, n, row, projIdx, statIdx, project, status)[h]
        == ColumnValue(row, LastCol(hs[..n], h), projIdx, statIdx, project, status)
  {
    if n > 0 {
      ColumnsRowMeaning(hs, n - 1, row, projIdx, statIdx, project, status, h);
      LastColStep(hs, n - 1, h);
      assert hs[..n] == hs[..n - 1] + [hs[n - 1]];
    }
  }

  /** The value a column contributes to its row once the running Project/Status values are updated. */
  function ColumnValue(row: seq<string>, c: int, projIdx: int, statIdx: int, project: string, status: string): string
  {
    if c == projIdx then project else if c == statIdx then status else Cell(row, c)
  }

  lemma RowComplete(hs: seq<string>, data: seq<seq<string>>, k: nat, projIdx: int, statIdx: int, project: string, status: string)
    requires k < |data|
    requires projIdx == LastCol(hs, ProjectHdr) && statIdx == LastCol(hs, StatusHdr)
    requires project == LastNonBlank(data[..k + 1], projIdx)
    requires status == LastNonBlank(data[..k + 1], statIdx)
    ensures ColumnsRow(hs, |hs|, data[k], projIdx, statIdx, project, status) == ExpectedRow(hs, data, k)
  {
    var got := ColumnsRow(hs, |hs|, data[k], projIdx, statIdx, project, status);
    var want := ExpectedRow(hs, data, k);
    assert hs[..|hs|] == hs;
    forall h
      ensures h in got <==> h in want
      ensures h in got ==> got[h] == want[h]
    {
      ColumnsRowMeaning(hs, |hs|, data[k], projIdx, statIdx, project, status, h);
      if h in got {
        var c := LastCol(hs, h);
        assert c >= 0 && hs[c] == h;
        if h == ProjectHdr {
          assert c == projIdx;
        } else if h == StatusHdr {
          assert c == statIdx;
          assert c != projIdx;
        } else {
          assert c != projIdx && c != statIdx;
        }
      }
    }
  }

  /** A failed fetch and an empty range are errors; otherwise one map per data row, keyed by the trimmed headers. */
  lemma SheetRowsShape(fetch: Fetch)
    ensures fetch.FetchFailed? ==> SheetRows(fetch) == Err(RetrieveFailed)
    ensures fetch.Fetched? && |fetch.values| == 0 ==> SheetRows(fetch) == Err(EmptyWorksheet)
    ensures fetch.Fetched? && |fetch.values| > 0 ==>
      && SheetRows(fetch).Ok?
      && |SheetRows(fetch).value| == |fetch.values| - 1
      && forall k, h :: 0 <= k < |SheetRows(fetch).value| ==>
           (h in SheetRows(fetch).value[k] <==> exists c :: 0 <= c < |fetch.values[0]| && h == TrimSpace(fetch.values[0][c]))
  {
    if fetch.Fetched? && |fetch.values| > 0 {
      var hs := Headers(fetch.values[0]);
      forall h
        ensures h in hs <==> exists c :: 0 <= c < |fetch.values[0]| && h == TrimSpace(fetch.values[0][c])
      {
        if h in hs {
          var c :| 0 <= c < |hs| && hs[c] == h;
          assert h == TrimSpace(fetch.values[0][c]);
        }
        if exists c :: 0 <= c < |fetch.values[0]| && h == TrimSpace(fetch.values[0][c]) {
          var c :| 0 <= c < |fetch.values[0]| && h == TrimSpace(fetch.values[0][c]);
          assert hs[c] == h;
        }
      }
    }
  }

  /**
   * Every column other than Project and Status is copied from its own row:
   * the trimmed cell, or "" past the end of a short row. Nothing is carried.
   */
  lemma OtherColumnsCopied(values: seq<seq<string>>, k: nat, h: string)
    requires |values| > 0 && k < |values| - 1
    requires h in Headers(values[0]) && h != ProjectHdr && h != StatusHdr
    ensures var c := LastCol(Headers(values[0]), h);
      && 0 <= c < |values[0]| && TrimSpace(values[0][c]) == h
      && SheetRows(Fetched(values)).value[k][h]
           == if c < |values[k + 1]| then TrimSpace(values[k + 1][c]) else ""
  {
  }

  /** LastNonBlank is blank only over a column that is blank throughout. */
  lemma {:induction false} LastNonBlankBlank(rows: seq<seq<string>>, c: int)
    requires LastNonBlank(rows, c) == ""
    ensures forall m :: 0 <= m < |rows| ==> Cell(rows[m], c) == ""
  {
    if |rows| > 0 {
      var n := |rows| - 1;
      var earlier := rows[..n];
      LastNonBlankBlank(earlier, c);
      assert forall m :: 0 <= m < n ==> earlier[m] == rows[m];
    }
  }

  /** A non-blank LastNonBlank is the cell of some row with only blank cells after it. */
  lemma {:induction false} LastNonBlankLatest(rows: seq<seq<string>>, c: int) returns (m: nat)
    requires LastNonBlank(rows, c) != ""
    ensures m < |rows| && LastNonBlank(rows, c) == Cell(rows[m], c)
    ensures forall m' :: m < m' < |rows| ==> Cell(rows[m'], c) == ""
  {
    var n := |rows| - 1;
    if Cell(rows[n], c) != "" {
      m := n;
    } else {
      var earlier := rows[..n];
      m := LastNonBlankLatest(earlier, c);
      assert earlier[m] == rows[m];
    }
  }

  /**
   * Project and Status are forward-filled: row `k` holds the most recent
   * non-blank cell of that column in rows 0..k, or "" while there is none.
   */
  lemma ForwardFill(values: seq<seq<string>>, k: nat, h: string)
    requires |values| > 0 && k < |values| - 1
    requires h in Headers(values[0]) && (h == ProjectHdr || h == StatusHdr)
    ensures var c, data, v := LastCol(Headers(values[0]), h), values[1..], SheetRows(Fetched(values)).value[k][h];
      && (v == "" ==> forall m :: 0 <= m <= k ==> Cell(data[m], c) == "")
      && (v != "" ==> exists m :: 0 <= m <= k && v == Cell(data[m], c)
                        && forall m' :: m < m' <= k ==> Cell(data[m'], c) == "")
  {
    var data := values[1..];
    var c := LastCol(Headers(values[0]), h);
    var v := LastNonBlank(data[..k + 1], c);
    assert forall m :: 0 <= m <= k ==> data[..k + 1][m] == data[m];
    if v == "" {
      LastNonBlankBlank(data[..k + 1], c);
    } else {
      var m := LastNonBlankLatest(data[..k + 1], c);
    }
  }

  /** Every value in the output is already trimmed: carrying forward never brings back white space. */
  lemma ValuesAreTrimmed(values: seq<seq<string>>, k: nat, h: string)
    requires |values| > 0 && k < |values| - 1
    requires h in SheetRows(Fetched(values)).value[k]
    ensures TrimSpace(SheetRows(Fetched(values)).value[k][h]) == SheetRows(Fetched(values)).value[k][h]
  {
    var data := values[1..];
    var hs := Headers(values[0]);
    var c := LastCol(hs, h);
    var v := SheetRows(Fetched(values)).value[k][h];
    if h == ProjectHdr || h == StatusHdr {
      if v != "" {
        var m := LastNonBlankLatest(data[..k + 1], c);
        assert data[..k + 1][m] == data[m];
        TrimSpaceIdempotent(data[m][c]);
      }
    } else if c < |data[k]| {
      TrimSpaceIdempotent(data[k][c]);
    }
  }

  /** The sheet of the repository's own unit test for readSheetRows. */
  const ExampleSheet: seq<seq<string>> := [
    ["Project", "Status", "Other"],
    ["P1", "S1", "X1"],
    ["", "S2", "X2"],
    ["", "", "X3"],
    ["P2", "", "X4"]]

  lemma ExampleCells()
    ensures Headers(ExampleSheet[0]) == ["Project", "Status", "Other"]
    ensures var data := ExampleSheet[1..];
      && Cell(data[0], 0) == "P1" && Cell(data[0], 1) == "S1" && Cell(data[0], 2) == "X1"
      && Cell(data[1], 0) == "" && Cell(data[1], 1) == "S2" && Cell(data[1], 2) == "X2"
      && Cell(data[2], 0) == "" && Cell(data[2], 1) == "" && Cell(data[2], 2) == "X3"
      && Cell(data[3], 0) == "P2" && Cell(data[3], 1) == "" && Cell(data[3], 2) == "X4"
  {
    assert Headers(ExampleSheet[0])[0] == "Project";
    assert Headers(ExampleSheet[0])[1] == "Status";
    assert Headers(ExampleSheet[0])[2] == "Other";
  }

  lemma ExampleCarried()
    ensures var data := ExampleSheet[1..];
      && LastNonBlank(data[..1], 0) == "P1" && LastNonBlank(data[..1], 1) == "S1"
      && LastNonBlank(data[..2], 0) == "P1" && LastNonBlank(data[..2], 1) == "S2"
      && LastNonBlank(data[..3], 0) == "P1" && LastNonBlank(data[..3], 1) == "S2"
      && LastNonBlank(data[..4], 0) == "P2" && LastNonBlank(data[..4], 1) == "S2"
  {
    var data := ExampleSheet[1..];
    ExampleCells();
    assert data[..1][..0] == [];
    assert data[..2][..1] == data[..1];
    assert data[..3][..2] == data[..2];
    assert data[..4][..3] == data[..3];
  }

  /** A row under the headers Project, Status and Other is the map of its three values. */
  lemma ThreeColumnRow(hs: seq<string>, data: seq<seq<string>>, k: nat, project: string, status: string, other: string)
    requires hs == ["Project", "Status", "Other"] && k < |data|
    requires Expected(hs, data, k, "Project") == project && Expected(hs, data, k, "Status") == status
    requires Expected(hs, data, k, "Other") == other
    ensures ExpectedRow(hs, data, k) == map["Project" := project, "Status" := status, "Other" := other]
  {
    var got := ExpectedRow(hs, data, k);
    var want := map["Project" := project, "Status" := status, "Other" := other];
    assert got.Keys == want.Keys;
  }

  lemma ExampleRows()
    ensures var hs, data := Headers(ExampleSheet[0]), ExampleSheet[1..];
      && ExpectedRow(hs, data, 0) == map["Project" := "P1", "Status" := "S1", "Other" := "X1"]
      && ExpectedRow(hs, data, 1) == map["Project" := "P1", "Status" := "S2", "Other" := "X2"]
      && ExpectedRow(hs, data, 2) == map["Project" := "P1", "Status" := "S2", "Other" := "X3"]
      && ExpectedRow(hs, data, 3) == map["Project" := "P2", "Status" := "S2", "Other" := "X4"]
  {
    ExampleCells();
    ExampleCarried();
    var hs := Headers(ExampleSheet[0]);
    assert LastCol(hs, ProjectHdr) == 0 && LastCol(hs, StatusHdr) == 1 && LastCol(hs, "Other") == 2;
    var data := ExampleSheet[1..];
    ThreeColumnRow(hs, data, 0, "P1", "S1", "X1");
    ThreeColumnRow(hs, data, 1, "P1", "S2", "X2");
    ThreeColumnRow(hs, data, 2, "P1", "S2", "X3");
    ThreeColumnRow(hs, data, 3, "P2", "S2", "X4");
  }

  lemma FourDataRows(values: seq<seq<string>>)
    requires |values| == 5
    ensures var hs, data := Headers(values[0]), values[1..];
      SheetRows(Fetched(values))
        == Ok([ExpectedRow(hs, data, 0), ExpectedRow(hs, data, 1), ExpectedRow(hs, data, 2), ExpectedRow(hs, data, 3)])
  {
    var hs, data := Headers(values[0]), values[1..];
    var rows := SheetRows(Fetched(values)).value;
    SeqOfFour(rows);
  }

  lemma SeqOfFour<T>(s: seq<T>)
    requires |s| == 4
    ensures s == [s[0], s[1], s[2], s[3]]
  {
  }

  /** The rows the repository's unit test expects: Project P1, P1, P1, P2 and Status S1, S2, S2, S2. */
  lemma PropagateProjectStatusExample()
    ensures SheetRows(Fetched(ExampleSheet))
      == Ok([
      map["Project" := "P1", "Status" := "S1", "Other" := "X1"],
      map["Project" := "P1", "Status" := "S2", "Other" := "X2"],
      map["Project" := "P1", "Status" := "S2", "Other" := "X3"],
      map["Project" := "P2", "Status" := "S2", "Other" := "X4"]])
  {
    FourDataRows(ExampleSheet);
    ExampleRows();
  }
}

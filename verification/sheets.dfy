/** The worksheet helpers, over an abstract worksheet: a title, the grid
    `get_all_values` returns, and the records table `get_all_records`
    yields. Cell writes are collected in a log instead of being sent. */
module Sheets {

  import opened Wrappers
  import Frame

  datatype Worksheet = Worksheet(title: string, grid: seq<seq<string>>, records: Frame.Table)

  /** One `update_cell(row, col, value)` call, 1-based as in the sheet. */
  datatype CellWrite = CellWrite(row: int, col: int, value: string)

  /** Position of the first worksheet, in sheet order, titled `name`. */
  function FindWorksheet(sheets: seq<Worksheet>, name: string, from: nat := 0): (r: Option<nat>)
    requires from <= |sheets|
    ensures r.Some? ==> from <= r.value < |sheets| && sheets[r.value].title == name
    ensures r.Some? ==> forall j :: from <= j < r.value ==> sheets[j].title != name
    ensures r.None? <==> forall j :: from <= j < |sheets| ==> sheets[j].title != name
    decreases |sheets| - from
  {
    if from == |sheets| then None
    else if sheets[from].title == name then Some(from)
    else FindWorksheet(sheets, name, from + 1)
  }

  /** `get_worksheet_by_name`: the first worksheet whose title equals
      `name` exactly, or None. */
  function GetWorksheetByName(sheets: seq<Worksheet>, name: string): (r: Option<Worksheet>)
    ensures r.Some? ==> r.value.title == name && r.value in sheets
    ensures r.Some? ==> exists i :: 0 <= i < |sheets| && sheets[i] == r.value
                          && forall j :: 0 <= j < i ==> sheets[j].title != name
    ensures r.None? <==> forall j :: 0 <= j < |sheets| ==> sheets[j].title != name
  {
    match FindWorksheet(sheets, name)
    case Some(i) => Some(sheets[i])
    case None => None
  }

  const AnalysisHeader: string := "Analysis Report"

  datatype Update = Update(ok: bool, writes: seq<CellWrite>)

  /** The writes of the reports themselves: analysis `i` to row `i + 2`. */
  function AnalysisWrites(analyses: seq<string>, col: nat): (ws: seq<CellWrite>)
    ensures |ws| == |analyses|
    ensures forall i :: 0 <= i < |ws| ==> ws[i] == CellWrite(i + 2, col + 1, analyses[i])
  {
    seq(|analyses|, i requires 0 <= i < |analyses| => CellWrite(i + 2, col + 1, analyses[i]))
  }

  /** `update_analysis_column`: analysis `i` goes to sheet row `i + 2`
      (1-based, below the header) in column `col + 1`; the header cell is
      written first when the header row is too short to reach that
      column. A sheet with no rows fails on `all_values[0]`. The
      `row.append("")` of the source changes only a local copy. */
  function UpdateAnalysisColumn(ws: Worksheet, analyses: seq<string>, col: nat): (u: Update)
    ensures |ws.grid| == 0 <==> !u.ok
    ensures !u.ok ==> u.writes == []
    ensures forall w :: w in u.writes ==> w.col == col + 1
    ensures u.ok ==> |u.writes| == |analyses| + (if |ws.grid[0]| <= col then 1 else 0)
    ensures u.ok && |ws.grid[0]| <= col ==> u.writes[0] == CellWrite(1, col + 1, AnalysisHeader)
    ensures u.ok ==> forall i :: 0 <= i < |analyses| ==>
              u.writes[|u.writes| - |analyses| + i] == CellWrite(i + 2, col + 1, analyses[i])
    ensures (exists w :: w in u.writes && w.row == 1) <==> u.ok && |ws.grid[0]| <= col
  {
    if |ws.grid| == 0 then Update(false, [])
    else
      var header := if |ws.grid[0]| <= col then [CellWrite(1, col + 1, AnalysisHeader)] else [];
      var body := AnalysisWrites(analyses, col);
      assert forall w :: w in body ==> w.row >= 2;
      Update(true, header + body)
  }

  /** The sheet's cells, 1-based, as a map; an absent key is an empty cell. */
  type Cells = map<(int, int), string>

  /** Cell `(row, col)` holds `v`. */
  predicate Holds(cells: Cells, row: int, col: int, v: string) {
    (row, col) in cells && cells[(row, col)] == v
  }

  /** The sheet after the logged writes, in order. */
  function Apply(cells: Cells, writes: seq<CellWrite>): Cells
    decreases |writes|
  {
    if |writes| == 0 then cells
    else Apply(cells[(writes[0].row, writes[0].col) := writes[0].value], writes[1..])
  }

  /** Writes that all land in column `c` leave every other column alone. */
  lemma {:induction false} ApplyOtherColumns(cells: Cells, writes: seq<CellWrite>, c: int, key: (int, int))
    requires forall w :: w in writes ==> w.col == c
    requires key.1 != c
    ensures key in Apply(cells, writes) <==> key in cells
    ensures key in cells ==> Apply(cells, writes)[key] == cells[key]
    decreases |writes|
  {
    if |writes| > 0 {
      assert writes[0] in writes;
      ApplyOtherColumns(cells[(writes[0].row, writes[0].col) := writes[0].value], writes[1..], c, key);
    }
  }

  /** The last write to a cell decides its content. */
  lemma {:induction false} ApplyLastWrite(cells: Cells, writes: seq<CellWrite>, k: nat)
    requires k < |writes|
    requires forall j :: k < j < |writes| ==> (writes[j].row, writes[j].col) != (writes[k].row, writes[k].col)
    ensures (writes[k].row, writes[k].col) in Apply(cells, writes)
    ensures Apply(cells, writes)[(writes[k].row, writes[k].col)] == writes[k].value
    decreases |writes|
  {
    var c0 := cells[(writes[0].row, writes[0].col) := writes[0].value];
    if k == 0 {
      ApplyUntouched(c0, writes[1..], (writes[0].row, writes[0].col));
    } else {
      ApplyLastWrite(c0, writes[1..], k - 1);
    }
  }

  lemma {:induction false} ApplyUntouched(cells: Cells, writes: seq<CellWrite>, key: (int, int))
    requires key in cells
    requires forall j :: 0 <= j < |writes| ==> (writes[j].row, writes[j].col) != key
    ensures key in Apply(cells, writes) && Apply(cells, writes)[key] == cells[key]
    decreases |writes|
  {
    if |writes| > 0 {
      ApplyUntouched(cells[(writes[0].row, writes[0].col) := writes[0].value], writes[1..], key);
    }
  }

  lemma {:induction false} ApplyAppend(cells: Cells, a: seq<CellWrite>, b: seq<CellWrite>)
    ensures Apply(cells, a + b) == Apply(Apply(cells, a), b)
    decreases |a|
  {
    if |a| > 0 {
      assert (a + b)[1..] == a[1..] + b;
      ApplyAppend(cells[(a[0].row, a[0].col) := a[0].value], a[1..], b);
    } else {
      assert a + b == b;
    }
  }

  /** Each analysis lands in its own row: the rows written are distinct. */
  lemma AnalysisWritesEffect(cells: Cells, analyses: seq<string>, col: nat)
    ensures forall i :: 0 <= i < |analyses| ==> Holds(Apply(cells, AnalysisWrites(analyses, col)), i + 2, col + 1, analyses[i])
  {
    var ws := AnalysisWrites(analyses, col);
    forall i | 0 <= i < |analyses|
      ensures Holds(Apply(cells, ws), i + 2, col + 1, analyses[i])
    {
      assert ws[i] == CellWrite(i + 2, col + 1, analyses[i]);
      assert forall j :: i < j < |ws| ==> ws[j].row != ws[i].row;
      ApplyLastWrite(cells, ws, i);
      assert (ws[i].row, ws[i].col) == (i + 2, col + 1);
    }
  }

  /** After `update_analysis_column` succeeds, row `i + 2` of column
      `col + 1` holds analysis `i`, the header cell holds "Analysis Report"
      when it was written, and no other column changes. */
  lemma UpdateAnalysisColumnEffect(ws: Worksheet, analyses: seq<string>, col: nat, cells: Cells)
    requires |ws.grid| > 0
    ensures var after := Apply(cells, UpdateAnalysisColumn(ws, analyses, col).writes);
      && (forall i :: 0 <= i < |analyses| ==> Holds(after, i + 2, col + 1, analyses[i]))
      && (|ws.grid[0]| <= col ==> Holds(after, 1, col + 1, AnalysisHeader))
      && (forall key: (int, int) :: key.1 != col + 1 ==> (key in after <==> key in cells))
      && (forall key: (int, int) :: key.1 != col + 1 && key in cells ==> after[key] == cells[key])
  {
    var u := UpdateAnalysisColumn(ws, analyses, col);
    var header := if |ws.grid[0]| <= col then [CellWrite(1, col + 1, AnalysisHeader)] else [];
    var body := AnalysisWrites(analyses, col);
    assert u.writes == header + body;
    ApplyAppend(cells, header, body);
    var mid := Apply(cells, header);
    AnalysisWritesEffect(mid, analyses, col);
    if |ws.grid[0]| <= col {
      assert mid == cells[(1, col + 1) := AnalysisHeader];
      ApplyUntouched(mid, body, (1, col + 1));
    }
    forall key: (int, int) | key.1 != col + 1
      ensures key in Apply(cells, u.writes) <==> key in cells
      ensures key in cells ==> Apply(cells, u.writes)[key] == cells[key]
    {
      ApplyOtherColumns(cells, u.writes, col + 1, key);
    }
  }
}

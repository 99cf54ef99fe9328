/** The video analyzer: cleaning of the sheet's table, the five ratio
    columns, the per-row dictionary handed to the prompt, row selection,
    and the write-back of reports into the sheet. The spreadsheet and the
    completion service are inputs; the analysis of each row is
    `Prompt.GenerateAnalysis`. */
module Analyzer {

  import opened Wrappers
  import opened Values
  import opened Frame
  import opened Columns
  import Strings
  import Utils
  import Sheets
  import Prompt

  const NumericColumns: seq<string> := [ViewsDay, Likes, Comments, Saves]
  const TextColumns: seq<string> := [TitleHook, Caption, Hashtags, NotesTopic]
  const RequiredColumns: seq<string> := [TitleHook, Caption, ViewsDay, Likes, Comments, Saves]

  // ---------------------------------------------------------------------
  // _preprocess_data

  function CleanCell(col: string, v: Value): Value {
    if col in NumericColumns then CoerceCount(v)
    else if col in TextColumns then FillNA(v, Str(""))
    else v
  }

  /** One row of `_preprocess_data`: count columns become numbers (missing
      or unparsable ones 0), missing text becomes "", other cells stay, and
      no column is added. */
  function PreprocessRow(r: Row): (c: Row)
    ensures c.Keys == r.Keys
    ensures forall k :: k in r && k in NumericColumns ==>
      IsCount(c[k]) && (IsCount(r[k]) ==> c[k] == r[k]) && (IsNA(r[k]) ==> c[k] == Num(0.0))
    ensures forall k :: k in r && k in TextColumns ==>
      !IsNA(c[k]) && (IsNA(r[k]) ==> c[k] == Str("")) && (!IsNA(r[k]) ==> c[k] == r[k])
    ensures forall k :: k in r && k !in NumericColumns && k !in TextColumns ==> c[k] == r[k]
  {
    map k | k in r :: CleanCell(k, r[k])
  }

  /** `_preprocess_data`: works on a copy, row by row; the column list is
      unchanged. */
  function Preprocess(t: Table): (p: Table)
    ensures p.columns == t.columns
    ensures |p.rows| == |t.rows|
    ensures forall i :: 0 <= i < |t.rows| ==> p.rows[i].Keys == t.rows[i].Keys
    ensures forall i :: 0 <= i < |t.rows| ==> p.rows[i] == PreprocessRow(t.rows[i])
    ensures WellFormed(t) ==> WellFormed(p)
  {
    Table(t.columns, seq(|t.rows|, i requires 0 <= i < |t.rows| => PreprocessRow(t.rows[i])))
  }

  /** Cleaning a clean row changes nothing. */
  lemma PreprocessRowIdempotent(r: Row)
    ensures PreprocessRow(PreprocessRow(r)) == PreprocessRow(r)
  {
    var c := PreprocessRow(r);
    var cc := PreprocessRow(c);
    forall k | k in c ensures cc[k] == c[k] {
      if k in NumericColumns {
      } else if k in TextColumns {
      }
    }
  }

  lemma PreprocessIdempotent(t: Table)
    ensures Preprocess(Preprocess(t)) == Preprocess(t)
  {
    var p := Preprocess(t);
    forall i | 0 <= i < |t.rows| ensures PreprocessRow(p.rows[i]) == p.rows[i] {
      PreprocessRowIdempotent(t.rows[i]);
    }
  }

  // ---------------------------------------------------------------------
  // _calculate_missing_ratios

  /** The views column: "Views (24h)" when present, otherwise "Views". */
  function ViewColumn(columns: seq<string>): (vc: string)
    ensures vc == ViewsDay <==> ViewsDay in columns
    ensures vc == ViewsDay || vc == Views
  {
    if ViewsDay in columns then ViewsDay else Views
  }

  /** The four counts the ratios need are all present. */
  predicate HasCountColumns(columns: seq<string>) {
    ViewColumn(columns) in columns && Likes in columns && Comments in columns && Saves in columns
  }

  function Coerced(r: Row, col: string): (v: Value)
    ensures IsCount(v)
  {
    CoerceCount(Get(r, col, Missing))
  }

  predicate IsCountColumn(k: string, vc: string) {
    k == vc || k == Likes || k == Comments || k == Saves
  }

  /** One of the five ratio columns. */
  predicate IsRatioColumn(k: string) {
    k == ViewsToLike || k == ViewsToComment || k == ViewsToSave || k == LikeToComment || k == LikeToSave
  }

  /** The columns the ratio computation writes: the four counts and the
      five ratios. */
  function AddedKeys(vc: string): set<string> {
    {vc, Likes, Comments, Saves, ViewsToLike, ViewsToComment, ViewsToSave, LikeToComment, LikeToSave}
  }

  lemma AddedKeysSplit(vc: string)
    ensures AddedKeys(vc) == {vc, Likes, Comments, Saves} + set k | k in RatioColumns
  {
    assert forall k :: k in RatioColumns <==> IsRatioColumn(k);
  }

  /** The columns a ratio row has: its own and the ones written. */
  function RatioRowKeys(r: Row, vc: string): set<string> {
    r.Keys + AddedKeys(vc)
  }

  /** A cell after `_calculate_missing_ratios`: the four counts coerced in
      place; the views-based ratios with no zero guard; the likes-based
      ones with +inf and NaN replaced by 0; everything else as it was. */
  function RatioCell(r: Row, vc: string, k: string): Value
    requires k in RatioRowKeys(r, vc)
  {
    if IsCountColumn(k, vc) then Coerced(r, k)
    else if k == ViewsToLike then Percent(Coerced(r, Likes), Coerced(r, vc))
    else if k == ViewsToComment then Percent(Coerced(r, Comments), Coerced(r, vc))
    else if k == ViewsToSave then Percent(Coerced(r, Saves), Coerced(r, vc))
    else if k == LikeToComment then ZeroInfNaN(Percent(Coerced(r, Comments), Coerced(r, Likes)))
    else if k == LikeToSave then ZeroInfNaN(Percent(Coerced(r, Saves), Coerced(r, Likes)))
    else r[k]
  }

  /** One row of `_calculate_missing_ratios`. */
  function RatioRow(r: Row, vc: string): (c: Row)
    requires vc == ViewsDay || vc == Views
    ensures c.Keys == RatioRowKeys(r, vc)
    ensures c[vc] == Coerced(r, vc) && c[Likes] == Coerced(r, Likes)
    ensures c[Comments] == Coerced(r, Comments) && c[Saves] == Coerced(r, Saves)
    ensures forall k :: k in r && !IsRatioColumn(k) && !IsCountColumn(k, vc) ==> c[k] == r[k]
  {
    map k | k in RatioRowKeys(r, vc) :: RatioCell(r, vc, k)
  }

  /** The views-based ratios are the likes, comments and saves over the
      coerced views, as rounded percentages, with no zero guard. */
  lemma RatioRowViewsRatios(r: Row, vc: string)
    requires vc == ViewsDay || vc == Views
    ensures var c := RatioRow(r, vc);
      && c[ViewsToLike] == Percent(c[Likes], c[vc])
      && c[ViewsToComment] == Percent(c[Comments], c[vc])
      && c[ViewsToSave] == Percent(c[Saves], c[vc])
  {
    var c := RatioRow(r, vc);
    assert c[ViewsToLike] == RatioCell(r, vc, ViewsToLike);
    assert c[ViewsToComment] == RatioCell(r, vc, ViewsToComment);
    assert c[ViewsToSave] == RatioCell(r, vc, ViewsToSave);
  }

  /** The likes-based ratios are the comments and saves over the coerced
      likes, with +inf and NaN replaced by 0. */
  lemma RatioRowLikesRatios(r: Row, vc: string)
    requires vc == ViewsDay || vc == Views
    ensures var c := RatioRow(r, vc);
      && c[LikeToComment] == ZeroInfNaN(Percent(c[Comments], c[Likes]))
      && c[LikeToSave] == ZeroInfNaN(Percent(c[Saves], c[Likes]))
  {
    var c := RatioRow(r, vc);
    assert c[LikeToComment] == RatioCell(r, vc, LikeToComment);
    assert c[LikeToSave] == RatioCell(r, vc, LikeToSave);
  }

  /** `_calculate_missing_ratios`: unchanged when a count column is absent;
      otherwise every row gets all five ratio columns, appended to the
      column list when new. */
  function CalculateMissingRatios(t: Table): (r: Table)
    ensures !HasCountColumns(t.columns) ==> r == t
    ensures HasCountColumns(t.columns) ==>
      && t.columns <= r.columns
      && (forall k :: k in r.columns <==> k in t.columns || k in RatioColumns)
      && |r.rows| == |t.rows|
      && forall i :: 0 <= i < |t.rows| ==> r.rows[i] == RatioRow(t.rows[i], ViewColumn(t.columns))
  {
    if !HasCountColumns(t.columns) then t
    else
      var vc := ViewColumn(t.columns);
      Table(WithColumns(t.columns, RatioColumns),
            seq(|t.rows|, i requires 0 <= i < |t.rows| => RatioRow(t.rows[i], vc)))
  }

  /** A row with exactly the columns `cs` gets exactly the columns of the
      extended list. */
  lemma RatioRowKeysMatchColumns(r: Row, cs: seq<string>)
    requires HasCountColumns(cs)
    requires r.Keys == set c | c in cs
    ensures RatioRow(r, ViewColumn(cs)).Keys == set c | c in WithColumns(cs, RatioColumns)
  {
    var vc := ViewColumn(cs);
    AddedKeysSplit(vc);
    WithColumnsKeys(cs, RatioColumns, r.Keys, {vc, Likes, Comments, Saves});
  }

  /** The ratio computation keeps the table well formed: every row gains
      exactly the columns the column list gains. */
  lemma CalculateMissingRatiosWellFormed(t: Table)
    requires WellFormed(t)
    ensures WellFormed(CalculateMissingRatios(t))
  {
    if HasCountColumns(t.columns) {
      var r := CalculateMissingRatios(t);
      forall i | 0 <= i < |r.rows|
        ensures r.rows[i].Keys == set c | c in r.columns
      {
        RatioRowKeysMatchColumns(t.rows[i], t.columns);
      }
    }
  }

  /** Recomputing a ratio row leaves its counts: they are already counts. */
  lemma RatioRowFixedOnCounts(r: Row, vc: string, k: string)
    requires vc == ViewsDay || vc == Views
    requires k in RatioRow(r, vc) && IsCountColumn(k, vc)
    ensures k in RatioRowKeys(RatioRow(r, vc), vc)
    ensures RatioCell(RatioRow(r, vc), vc, k) == RatioRow(r, vc)[k]
  {
  }

  /** Recomputing a ratio row leaves its ratios: they are the ratios of its
      counts. */
  lemma RatioRowFixedOnRatios(r: Row, vc: string, k: string)
    requires vc == ViewsDay || vc == Views
    requires IsRatioColumn(k)
    ensures k in RatioRowKeys(RatioRow(r, vc), vc)
    ensures RatioCell(RatioRow(r, vc), vc, k) == RatioRow(r, vc)[k]
  {
    var c := RatioRow(r, vc);
    if k == ViewsToLike || k == ViewsToComment || k == ViewsToSave {
      RatioRowViewsRatios(r, vc);
    } else {
      RatioRowLikesRatios(r, vc);
    }
  }

  lemma UnionTwice<T>(a: set<T>, b: set<T>)
    ensures a + b + b == a + b
  {
  }

  /** A ratio row is a fixed point: its counts are already coerced and its
      ratios are those of its counts. */
  lemma RatioRowIdempotent(r: Row, vc: string)
    requires vc == ViewsDay || vc == Views
    ensures RatioRow(RatioRow(r, vc), vc) == RatioRow(r, vc)
  {
    var c := RatioRow(r, vc);
    UnionTwice(r.Keys, AddedKeys(vc));
    forall k | k in c.Keys ensures RatioCell(c, vc, k) == c[k] {
      if IsCountColumn(k, vc) {
        RatioRowFixedOnCounts(r, vc, k);
      } else if IsRatioColumn(k) {
        RatioRowFixedOnRatios(r, vc, k);
      }
    }
  }

  /** Adding the ratio columns keeps the views column and the counts, and
      adding them a second time changes nothing. */
  lemma RatioColumnsStable(cs: seq<string>)
    requires HasCountColumns(cs)
    ensures var cs2 := WithColumns(cs, RatioColumns);
      ViewColumn(cs2) == ViewColumn(cs) && HasCountColumns(cs2) && WithColumns(cs2, RatioColumns) == cs2
  {
    assert ViewsDay !in RatioColumns;
  }

  /** Every row of a table with ratios is a fixed point of the row
      computation. */
  lemma RatioRowsFixed(t: Table)
    requires HasCountColumns(t.columns)
    ensures var r := CalculateMissingRatios(t);
      forall i :: 0 <= i < |r.rows| ==> RatioRow(r.rows[i], ViewColumn(t.columns)) == r.rows[i]
  {
    var vc := ViewColumn(t.columns);
    forall i | 0 <= i < |t.rows| ensures RatioRow(RatioRow(t.rows[i], vc), vc) == RatioRow(t.rows[i], vc) {
      RatioRowIdempotent(t.rows[i], vc);
    }
  }

  /** Applying the ratio computation twice gives the same table: the ratios
      depend only on the counts, which the first pass already coerced. */
  lemma CalculateMissingRatiosIdempotent(t: Table)
    ensures CalculateMissingRatios(CalculateMissingRatios(t)) == CalculateMissingRatios(t)
  {
    if HasCountColumns(t.columns) {
      var r := CalculateMissingRatios(t);
      RatioColumnsStable(t.columns);
      RatioRowsFixed(t);
      var r2 := CalculateMissingRatios(r);
      assert r2.columns == r.columns;
      assert r2.rows == r.rows;
    }
  }

  // ---------------------------------------------------------------------
  // _prepare_video_data

  const BaseKeys: set<string> := {"Title", "Hook", "Caption", "Hashtags", "Views", "Likes", "Comments", "Saves", "Notes"}

  /** The dictionary keys `_prepare_video_data` fills for a row. */
  function VideoKeys(r: Row): set<string> {
    BaseKeys + set c | c in RatioColumns && c in r
  }

  /** One entry of the dictionary: title and hook both from "Title/Hook",
      texts defaulting to "", counts from the sheet's columns defaulting
      to 0 (views from "Views (24h)"), ratios copied from the row. */
  function VideoField(r: Row, k: string): Value
    requires k in VideoKeys(r)
  {
    if k == "Title" || k == "Hook" then Get(r, TitleHook, Str(""))
    else if k == "Caption" then Get(r, Caption, Str(""))
    else if k == "Hashtags" then Get(r, Hashtags, Str(""))
    else if k == "Notes" then Get(r, NotesTopic, Str(""))
    else if k == "Views" then Get(r, ViewsDay, Num(0.0))
    else if k == "Likes" then Get(r, Likes, Num(0.0))
    else if k == "Comments" then Get(r, Comments, Num(0.0))
    else if k == "Saves" then Get(r, Saves, Num(0.0))
    else r[k]
  }

  /** `_prepare_video_data`: the prompt's field names filled from the sheet's
      columns (with the source's defaults), plus each ratio column the row
      has. */
  function PrepareVideoData(r: Row): (d: Prompt.Data)
    ensures d.Keys == BaseKeys + set c | c in RatioColumns && c in r
    ensures forall c :: c in RatioColumns && c in r ==> d[c] == r[c]
  {
    map k | k in VideoKeys(r) :: VideoField(r, k)
  }

  /** Title and hook are both the sheet's "Title/Hook", "" when absent. */
  lemma VideoDataTitle(r: Row)
    ensures var d := PrepareVideoData(r);
      d["Title"] == d["Hook"] == Get(r, TitleHook, Str(""))
  {
  }

  /** Views come from "Views (24h)" and likes from "Likes", each 0 when
      absent. */
  lemma VideoDataViewsLikes(r: Row)
    ensures var d := PrepareVideoData(r);
      d["Views"] == Get(r, ViewsDay, Num(0.0)) && d["Likes"] == Get(r, Likes, Num(0.0))
  {
    assert "Views" in BaseKeys && "Likes" in BaseKeys;
    var d := PrepareVideoData(r);
    assert d["Views"] == VideoField(r, "Views");
    assert d["Likes"] == VideoField(r, "Likes");
  }

  /** Comments and saves come from their columns, each 0 when absent. */
  lemma VideoDataCommentsSaves(r: Row)
    ensures var d := PrepareVideoData(r);
      d["Comments"] == Get(r, Comments, Num(0.0)) && d["Saves"] == Get(r, Saves, Num(0.0))
  {
    assert "Comments" in BaseKeys && "Saves" in BaseKeys;
    var d := PrepareVideoData(r);
    assert d["Comments"] == VideoField(r, "Comments");
    assert d["Saves"] == VideoField(r, "Saves");
  }

  /** A row that went through the ratio computation shows all five ratios
      in the prompt under their current names, never "N/A". */
  lemma ProcessedRowShowsRatios(r: Row, vc: string)
    requires vc == ViewsDay || vc == Views
    ensures var c := RatioRow(r, vc);
      forall i :: 0 <= i < 5 ==>
        Prompt.PromptFields(PrepareVideoData(c))[8 + i].1 == Prompt.Given(c[RatioColumns[i]])
  {
    var c := RatioRow(r, vc);
    var d := PrepareVideoData(c);
    forall i | 0 <= i < 5 ensures Prompt.PromptFields(d)[8 + i].1 == Prompt.Given(c[RatioColumns[i]]) {
      assert RatioColumns[i] in c;
      assert d[RatioColumns[i]] == c[RatioColumns[i]];
    }
  }

  // ---------------------------------------------------------------------
  // Row selection and write-back in analyze_videos

  /** `[i for i in selected if 0 <= i < n]`. */
  function FilterIndices(selected: seq<int>, n: nat): (v: seq<int>)
    ensures forall j :: 0 <= j < |v| ==> 0 <= v[j] < n
    ensures forall k :: 0 <= k < n ==> multiset(v)[k] == multiset(selected)[k]
    ensures Utils.Subsequence(v, selected)
    ensures |v| <= |selected|
  {
    if |selected| == 0 then []
    else
      var rest := FilterIndices(selected[1..], n);
      assert selected == [selected[0]] + selected[1..];
      if 0 <= selected[0] < n then [selected[0]] + rest
      else
        assert |rest| > 0 ==> rest[0] != selected[0];
        rest
  }

  function AllIndices(n: nat): (v: seq<int>)
    ensures |v| == n && forall j :: 0 <= j < n ==> v[j] == j
  {
    seq(n, j requires 0 <= j < n => j)
  }

  /** No index of `selected` addresses one of `n` rows. */
  predicate NoneInRange(selected: seq<int>, n: nat) {
    forall j :: 0 <= j < |selected| ==> selected[j] < 0 || selected[j] >= n
  }

  /** The rows to analyse: every row when the selection is None or empty,
      otherwise the in-range selected indices, or None when none is. */
  function SelectRows(n: nat, selected: Option<seq<int>>): (r: Option<seq<int>>)
    ensures selected.None? || |selected.value| == 0 ==> r == Some(AllIndices(n))
    ensures selected.Some? && |selected.value| > 0 ==>
      (r.None? <==> NoneInRange(selected.value, n))
    ensures selected.Some? && |selected.value| > 0 && r.Some? ==> r.value == FilterIndices(selected.value, n)
    ensures r.Some? ==> forall j :: 0 <= j < |r.value| ==> 0 <= r.value[j] < n
  {
    if selected.None? || |selected.value| == 0 then Some(AllIndices(n))
    else
      var valid := FilterIndices(selected.value, n);
      assert forall j :: 0 <= j < |selected.value| ==> selected.value[j] in multiset(selected.value);
      if |valid| == 0 then None
      else
        assert valid[0] in multiset(valid);
        Some(valid)
  }

  /** The write-back loop over `enumerate(rows)`: report `i` to row
      `rows[i] + 2`, column `col + 1`, while `i` is below the number of
      reports. */
  function WriteBack(rows: seq<int>, reports: seq<string>, col: nat): (ws: seq<Sheets.CellWrite>)
    ensures |ws| == if |rows| < |reports| then |rows| else |reports|
    ensures forall i :: 0 <= i < |ws| ==> ws[i] == Sheets.CellWrite(rows[i] + 2, col + 1, reports[i])
  {
    var m := if |rows| < |reports| then |rows| else |reports|;
    seq(m, i requires 0 <= i < m => Sheets.CellWrite(rows[i] + 2, col + 1, reports[i]))
  }

  // ---------------------------------------------------------------------
  // analyze_videos

  datatype Outcome = Outcome(ok: bool, message: string, reports: seq<string>, writes: seq<Sheets.CellWrite>)

  function Fail(message: string): Outcome {
    Outcome(false, message, [], [])
  }

  /** The table after `_preprocess_data` and `_calculate_missing_ratios`. */
  function Processed(t: Table): Table {
    CalculateMissingRatios(Preprocess(t))
  }

  /** One report per analysed row, in row order. */
  function Reports(t: Table, rows: seq<int>, showNum: real -> string, complete: string -> Prompt.Completion): (rs: seq<string>)
    requires forall j :: 0 <= j < |rows| ==> 0 <= rows[j] < |t.rows|
    ensures |rs| == |rows|
    ensures forall j :: 0 <= j < |rows| ==>
      rs[j] == Prompt.GenerateAnalysis(PrepareVideoData(t.rows[rows[j]]), showNum, complete)
  {
    seq(|rows|, j requires 0 <= j < |rows| =>
      Prompt.GenerateAnalysis(PrepareVideoData(t.rows[rows[j]]), showNum, complete))
  }

  function SuccessMessage(count: nat): string {
    "Successfully analyzed " + Strings.NatToString(count) + " videos"
  }

  /** The part of `analyze_videos` after the table is processed: the rows
      to analyse are selected, one report is generated per row, in order,
      and the reports are written back when an analysis column is given —
      with a selection, report `i` to the sheet row of the `i`-th selected
      index, in range or not (`WriteBack`); without one, through
      `update_analysis_column`, whose failure changes only the message. */
  function AnalyzeProcessed(ws: Sheets.Worksheet, p: Table, analysisCol: Option<nat>, selected: Option<seq<int>>,
                            showNum: real -> string, complete: string -> Prompt.Completion): (r: Outcome)
    ensures SelectRows(|p.rows|, selected).None? ==> r == Fail("No valid row indices provided")
    ensures SelectRows(|p.rows|, selected).Some? ==>
      var rows := SelectRows(|p.rows|, selected).value;
      && r.ok
      && |r.reports| == |rows|
      && (forall j :: 0 <= j < |rows| ==>
            r.reports[j] == Prompt.GenerateAnalysis(PrepareVideoData(p.rows[rows[j]]), showNum, complete))
      && (analysisCol.None? ==> r.writes == [])
      && (analysisCol.Some? && selected.Some? ==>
            r.writes == WriteBack(selected.value, r.reports, analysisCol.value))
      && (analysisCol.Some? && selected.None? ==>
            r.writes == Sheets.UpdateAnalysisColumn(ws, r.reports, analysisCol.value).writes)
      && (r.message == SuccessMessage(|rows|) <==>
            !(analysisCol.Some? && selected.None? && !Sheets.UpdateAnalysisColumn(ws, r.reports, analysisCol.value).ok))
    ensures forall w :: w in r.writes ==> analysisCol.Some? && w.col == analysisCol.value + 1
  {
    match SelectRows(|p.rows|, selected)
    case None => Fail("No valid row indices provided")
    case Some(rows) =>
      var reports := Reports(p, rows, showNum, complete);
      if analysisCol.None? then Outcome(true, SuccessMessage(|reports|), reports, [])
      else if selected.Some? then
        Outcome(true, SuccessMessage(|reports|), reports, WriteBack(selected.value, reports, analysisCol.value))
      else
        var u := Sheets.UpdateAnalysisColumn(ws, reports, analysisCol.value);
        if !u.ok then
          assert "Analysis complete but failed to update sheet"[0] != SuccessMessage(|reports|)[0];
          Outcome(true, "Analysis complete but failed to update sheet", reports, u.writes)
        else Outcome(true, SuccessMessage(|reports|), reports, u.writes)
  }

  /** The checks `analyze_videos` makes on the worksheet's table, in order:
      an empty table, then missing required columns, reported by name in
      required order; a table that passes is processed and analysed. */
  function AnalyzeWorksheet(ws: Sheets.Worksheet, analysisCol: Option<nat>, selected: Option<seq<int>>,
                            showNum: real -> string, complete: string -> Prompt.Completion): (r: Outcome)
    ensures IsEmpty(ws.records) ==> r == Fail("No data found in worksheet")
    ensures !IsEmpty(ws.records) && (exists c :: c in RequiredColumns && c !in ws.records.columns) ==>
      r == Fail("Missing required columns: " + Strings.Join(Utils.MissingColumns(ws.records.columns, RequiredColumns), ", "))
    ensures !IsEmpty(ws.records) && (forall c :: c in RequiredColumns ==> c in ws.records.columns) ==>
      r == AnalyzeProcessed(ws, Processed(ws.records), analysisCol, selected, showNum, complete)
  {
    var df := ws.records;
    if IsEmpty(df) then Fail("No data found in worksheet")
    else
      var missing := Utils.MissingColumns(df.columns, RequiredColumns);
      assert |missing| > 0 <==> exists c :: c in RequiredColumns && c !in df.columns by {
        if |missing| > 0 {
          assert missing[0] in missing;
        }
        if exists c :: c in RequiredColumns && c !in df.columns {
          var c :| c in RequiredColumns && c !in df.columns;
          assert c in missing;
        }
      }
      if |missing| > 0 then Fail("Missing required columns: " + Strings.Join(missing, ", "))
      else AnalyzeProcessed(ws, Processed(df), analysisCol, selected, showNum, complete)
  }

  /** `analyze_videos`, with the opened spreadsheet (None when opening
      failed) as its list of worksheets, and the completion service as a
      parameter. A failed run reports nothing and writes nothing, and every
      write goes to the analysis column. */
  function AnalyzeVideos(sheet: Option<seq<Sheets.Worksheet>>, worksheetName: string,
                         analysisCol: Option<nat>, selected: Option<seq<int>>,
                         showNum: real -> string, complete: string -> Prompt.Completion): (r: Outcome)
    ensures sheet.None? ==> r == Fail("Failed to open Google Sheet")
    ensures sheet.Some? && Sheets.GetWorksheetByName(sheet.value, worksheetName).None? ==>
      r == Fail("Failed to open worksheet")
    ensures sheet.Some? && Sheets.GetWorksheetByName(sheet.value, worksheetName).Some? ==>
      r == AnalyzeWorksheet(Sheets.GetWorksheetByName(sheet.value, worksheetName).value,
                            analysisCol, selected, showNum, complete)
    ensures !r.ok ==> r.reports == [] && r.writes == []
    ensures forall w :: w in r.writes ==> analysisCol.Some? && w.col == analysisCol.value + 1
  {
    if sheet.None? then Fail("Failed to open Google Sheet")
    else match Sheets.GetWorksheetByName(sheet.value, worksheetName)
    case None => Fail("Failed to open worksheet")
    case Some(ws) => AnalyzeWorksheet(ws, analysisCol, selected, showNum, complete)
  }

  /** A selection with no index in range is refused whatever else it
      holds; an empty or absent selection analyses every row, in order. */
  lemma SelectionOutcomes(ws: Sheets.Worksheet, p: Table, analysisCol: Option<nat>, selected: Option<seq<int>>,
                          showNum: real -> string, complete: string -> Prompt.Completion)
    ensures var r := AnalyzeProcessed(ws, p, analysisCol, selected, showNum, complete);
      && (selected.Some? && |selected.value| > 0 && NoneInRange(selected.value, |p.rows|) ==>
            r == Fail("No valid row indices provided"))
      && (selected.None? || |selected.value| == 0 ==>
            r.ok && |r.reports| == |p.rows|
            && forall i :: 0 <= i < |p.rows| ==>
                 r.reports[i] == Prompt.GenerateAnalysis(PrepareVideoData(p.rows[i]), showNum, complete))
  {
  }

  /** An empty selection analyses every row but, with an analysis column,
      writes nothing: the write-back loop runs over the empty selection. */
  lemma EmptySelectionWritesNothing(ws: Sheets.Worksheet, p: Table, col: nat,
                                    showNum: real -> string, complete: string -> Prompt.Completion)
    ensures var r := AnalyzeProcessed(ws, p, Some(col), Some([]), showNum, complete);
      r.ok && |r.reports| == |p.rows| && r.writes == []
  {
  }

  // ---------------------------------------------------------------------
  // Finding: the write-back pairs reports with `selected`, not with the
  // in-range indices the reports were generated from.

  /** As written: with one data row, the selection [5, 0] drops index 5
      and analyses row 0 (sheet row 2), yet the loop writes the report to
      sheet row 7; the selection [-1, 0] writes it over the header row. */
  lemma WriteBackMisplacesReport(report: string, col: nat)
    ensures FilterIndices([5, 0], 1) == [0] && FilterIndices([-1, 0], 1) == [0]
    ensures WriteBack([5, 0], [report], col) == [Sheets.CellWrite(7, col + 1, report)]
    ensures WriteBack([-1, 0], [report], col) == [Sheets.CellWrite(1, col + 1, report)]
  {
    assert FilterIndices([0], 1) == [0];
  }

  /** As written, in the analysis: with a non-empty selection and an
      analysis column, report `i` goes to the sheet row of the `i`-th
      selected index, for as many reports as there are, whether or not
      that index was analysed. */
  lemma AnalyzeProcessedWritesSelectedRows(ws: Sheets.Worksheet, p: Table, col: nat, selected: seq<int>,
                                           showNum: real -> string, complete: string -> Prompt.Completion)
    requires |selected| > 0 && SelectRows(|p.rows|, Some(selected)).Some?
    ensures var r := AnalyzeProcessed(ws, p, Some(col), Some(selected), showNum, complete);
      var rows := SelectRows(|p.rows|, Some(selected)).value;
      && |r.writes| == |rows| <= |selected|
      && forall i :: 0 <= i < |r.writes| ==>
           r.writes[i].row == selected[i] + 2 && r.writes[i].value == r.reports[i]
  {
  }

  /** Corrected: pairing the reports with the in-range indices writes every
      report to the sheet row of the data row it was generated from. */
  function CorrectedWriteBack(selected: seq<int>, n: nat, reports: seq<string>, col: nat): seq<Sheets.CellWrite> {
    WriteBack(FilterIndices(selected, n), reports, col)
  }

  /** With one report per analysed row, the corrected write-back puts
      report `i` on the sheet row of analysed row `i`, inside the table. */
  lemma CorrectedWriteBackLandsOnSourceRow(selected: seq<int>, n: nat, reports: seq<string>, col: nat)
    requires |reports| == |FilterIndices(selected, n)|
    ensures var rows := FilterIndices(selected, n);
      var ws := CorrectedWriteBack(selected, n, reports, col);
      && |ws| == |reports|
      && forall i :: 0 <= i < |ws| ==>
           ws[i] == Sheets.CellWrite(rows[i] + 2, col + 1, reports[i]) && 2 <= ws[i].row < n + 2
  {
  }

  /** Corrected: the analysis with the write-back of a selection paired
      with the analysed rows. Everything else is the analysis as written. */
  function AnalyzeProcessedFixed(ws: Sheets.Worksheet, p: Table, analysisCol: Option<nat>, selected: Option<seq<int>>,
                                 showNum: real -> string, complete: string -> Prompt.Completion): (r: Outcome)
    ensures var a := AnalyzeProcessed(ws, p, analysisCol, selected, showNum, complete);
      r.ok == a.ok && r.message == a.message && r.reports == a.reports
    ensures !(analysisCol.Some? && selected.Some?) ==> r == AnalyzeProcessed(ws, p, analysisCol, selected, showNum, complete)
  {
    var a := AnalyzeProcessed(ws, p, analysisCol, selected, showNum, complete);
    if a.ok && analysisCol.Some? && selected.Some? then
      a.(writes := CorrectedWriteBack(selected.value, |p.rows|, a.reports, analysisCol.value))
    else a
  }

  /** Corrected, in the analysis: with a non-empty selection and an
      analysis column, report `i` is written to the sheet row of the `i`-th
      analysed row, the row it was generated from. */
  lemma AnalyzeProcessedFixedWritesOwnRows(ws: Sheets.Worksheet, p: Table, col: nat, selected: seq<int>,
                                           showNum: real -> string, complete: string -> Prompt.Completion)
    requires |selected| > 0 && SelectRows(|p.rows|, Some(selected)).Some?
    ensures var r := AnalyzeProcessedFixed(ws, p, Some(col), Some(selected), showNum, complete);
      var rows := SelectRows(|p.rows|, Some(selected)).value;
      && |r.writes| == |rows|
      && forall i :: 0 <= i < |r.writes| ==>
           r.writes[i].row == rows[i] + 2 && 2 <= r.writes[i].row < |p.rows| + 2
           && r.writes[i].value == r.reports[i]
  {
    var r := AnalyzeProcessed(ws, p, Some(col), Some(selected), showNum, complete);
    CorrectedWriteBackLandsOnSourceRow(selected, |p.rows|, r.reports, col);
  }

  /** When every selected index is in range, the code as written and the
      corrected write-back agree. */
  lemma WriteBackAgreesWhenAllInRange(selected: seq<int>, n: nat, reports: seq<string>, col: nat)
    requires forall j :: 0 <= j < |selected| ==> 0 <= selected[j] < n
    ensures CorrectedWriteBack(selected, n, reports, col) == WriteBack(selected, reports, col)
  {
    FilterKeepsInRange(selected, n);
  }

  lemma {:induction false} FilterKeepsInRange(selected: seq<int>, n: nat)
    requires forall j :: 0 <= j < |selected| ==> 0 <= selected[j] < n
    ensures FilterIndices(selected, n) == selected
  {
    if |selected| > 0 {
      FilterKeepsInRange(selected[1..], n);
      assert selected == [selected[0]] + selected[1..];
    }
  }
}

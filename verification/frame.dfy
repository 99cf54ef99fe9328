/** A pandas DataFrame as the analyzer uses it: an ordered list of column
    names and a list of rows, each row a map from column name to cell. */
module Frame {

  import opened Values

  type Row = map<string, Value>

  datatype Table = Table(columns: seq<string>, rows: seq<Row>)

  predicate Distinct(cs: seq<string>) {
    forall i, j :: 0 <= i < j < |cs| ==> cs[i] != cs[j]
  }

  /** Every row has exactly the table's columns, each named once. */
  predicate WellFormed(t: Table) {
    && Distinct(t.columns)
    && forall i :: 0 <= i < |t.rows| ==> t.rows[i].Keys == set c | c in t.columns
  }

  /** `df.empty`: no rows or no columns. */
  predicate IsEmpty(t: Table) {
    |t.rows| == 0 || |t.columns| == 0
  }

  /** `row.get(k, d)`. */
  function Get(r: Row, k: string, d: Value): Value {
    if k in r then r[k] else d
  }

  /** The column list after `df[c] = ...`: an existing column keeps its
      place, a new one is appended. */
  function WithColumn(cs: seq<string>, c: string): (r: seq<string>)
    ensures cs <= r
    ensures c in r
    ensures forall d :: d in r ==> d in cs || d == c
    ensures Distinct(cs) ==> Distinct(r)
  {
    if c in cs then cs else cs + [c]
  }

  /** The column list after assigning each of `news` in turn. */
  function WithColumns(cs: seq<string>, news: seq<string>): (r: seq<string>)
    ensures cs <= r
    ensures forall c :: c in news ==> c in r
    ensures forall d :: d in r ==> d in cs || d in news
    ensures Distinct(cs) ==> Distinct(r)
    ensures (forall c :: c in news ==> c in cs) ==> r == cs
    decreases |news|
  {
    if |news| == 0 then cs else WithColumns(WithColumn(cs, news[0]), news[1..])
  }

  /** A row whose keys are the old columns, extended by some of them and by
      the new columns, has exactly the columns of the extended list. */
  lemma WithColumnsKeys(cs: seq<string>, news: seq<string>, keys: set<string>, extra: set<string>)
    requires keys == set c | c in cs
    requires extra <= keys
    ensures keys + extra + (set k | k in news) == set c | c in WithColumns(cs, news)
  {
  }
}

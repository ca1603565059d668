/** The load-time normalisation of the volcano table (`load_data`): clean the
    column names, turn the sentinel eruption texts into missing values, and
    derive the `year erupted` column from the eruption text. */
module Loader {
  import opened Base
  import opened Strings

  /** One cell of the table: missing, text, or a number. */
  datatype Cell = Null | Text(text: string) | Number(value: real)

  /** A table as read from the spreadsheet: column names and rows of cells. */
  datatype Table = Table(columns: seq<string>, rows: seq<seq<Cell>>)

  /** Every row has one cell per column, as in any data frame. */
  predicate Rectangular(t: Table) {
    forall row :: row in t.rows ==> |row| == |t.columns|
  }

  /** Why loading fails: the eruption column is absent (a `KeyError`), or
      appears more than once (selecting it then yields a frame, which has no
      `.str` accessor). */
  datatype LoadError = MissingColumn(name: string) | DuplicateColumn(name: string)

  const EruptionColumn: string := "last known eruption"
  const YearColumn: string := "year erupted"

  /** The eruption texts that stand for "not known". */
  predicate IsSentinel(s: string) {
    s == "Unknown" || s == "?" || s == "No data" || s == ""
  }

  /** One cell of `.replace(["Unknown", "?", "No data", ""], pd.NA)`. */
  function ReplaceSentinel(c: Cell): (r: Cell)
    ensures r == Null <==> c == Null || (c.Text? && IsSentinel(c.text))
    ensures r != Null ==> r == c
  {
    if c.Text? && IsSentinel(c.text) then Null else c
  }

  /** One cell of `pd.to_numeric(col.str.extract(r'(\d{4})')[0], errors='coerce')`:
      the value of the first four-digit run of a text cell, missing otherwise. */
  function YearCell(c: Cell): (r: Cell)
    ensures r == Null || r.Number?
    ensures r != Null <==> c.Text? && exists j :: RunAt(c.text, j)
    ensures r.Number? ==> 0.0 <= r.value <= 9999.0 && r.value == r.value.Floor as real
  {
    match c
    case Text(s) => (match ExtractYear(s) case Some(y) => Number(y as real) case None => Null)
    case _ => Null
  }

  /** The derived year is the value of the leftmost four-digit run of the text. */
  lemma YearCellValue(c: Cell, i: nat)
    requires c.Text? && RunAt(c.text, i)
    requires forall j :: 0 <= j < i ==> !RunAt(c.text, j)
    ensures YearCell(c) == Number(RunValue(c.text, i) as real)
  {
    ExtractYearLeftmost(c.text, i);
  }

  /** No sentinel text contains a four-digit run. */
  lemma SentinelHasNoYear(s: string)
    requires IsSentinel(s)
    ensures ExtractYear(s) == None
  {
    ExtractYearNoRun(s);
  }

  /** Replacing sentinels first never changes the derived year. */
  lemma YearIgnoresSentinels(c: Cell)
    ensures YearCell(ReplaceSentinel(c)) == YearCell(c)
  {
    if c.Text? && IsSentinel(c.text) {
      SentinelHasNoYear(c.text);
    }
  }

  /** A cleaned eruption cell is missing exactly when it was missing or a
      sentinel; any other cell is kept as it was; the derived year of a sentinel
      is missing. */
  lemma SentinelRule(c: Cell)
    ensures (ReplaceSentinel(c) == Null && c != Null) <==> (c.Text? && IsSentinel(c.text))
    ensures c.Text? && IsSentinel(c.text) ==> YearCell(ReplaceSentinel(c)) == Null
    ensures !(c.Text? && IsSentinel(c.text)) ==> ReplaceSentinel(c) == c
  {
  }

  // ---------------------------------------------------------------------
  // The three steps of load_data

  /** The first step of `load_data`: `df.columns = df.columns.str.strip().str.lower()`. */
  function CleanColumns(t: Table): (r: Table)
    ensures r.rows == t.rows && |r.columns| == |t.columns|
    ensures r.columns == CleanNames(t.columns)
    ensures CleanNames(r.columns) == r.columns
  {
    CleanNamesIdempotent(t.columns);
    Table(CleanNames(t.columns), t.rows)
  }

  /** One row of the sentinel step of `load_data`: the sentinel rule on every column named like the eruption column. */
  function ReplaceInRow(columns: seq<string>, row: seq<Cell>): (r: seq<Cell>)
    requires |row| == |columns|
    ensures |r| == |row|
    ensures forall j :: 0 <= j < |r| && columns[j] == EruptionColumn ==> r[j] == ReplaceSentinel(row[j])
    ensures forall j :: 0 <= j < |r| && columns[j] == EruptionColumn ==> !(r[j].Text? && IsSentinel(r[j].text))
    ensures forall j :: 0 <= j < |r| && columns[j] != EruptionColumn ==> r[j] == row[j]
  {
    seq(|row|, j requires 0 <= j < |row| =>
      if columns[j] == EruptionColumn then ReplaceSentinel(row[j]) else row[j])
  }

  /** The sentinel step of `load_data` on the whole table. */
  function ReplaceSentinels(t: Table): (r: Table)
    requires Rectangular(t)
    ensures r.columns == t.columns && |r.rows| == |t.rows| && Rectangular(r)
  {
    Table(t.columns, seq(|t.rows|, i requires 0 <= i < |t.rows| => ReplaceInRow(t.columns, t.rows[i])))
  }

  /** After the sentinel step each eruption cell is its sentinel-replaced
      original, so no sentinel remains and any other text is kept, and every
      other cell is as it was. */
  lemma ReplaceSentinelsCells(t: Table, i: nat, j: nat)
    requires Rectangular(t) && i < |t.rows| && j < |t.columns|
    ensures var r := ReplaceSentinels(t);
            && (t.columns[j] == EruptionColumn ==> r.rows[i][j] == ReplaceSentinel(t.rows[i][j]))
            && (t.columns[j] == EruptionColumn ==> !(r.rows[i][j].Text? && IsSentinel(r.rows[i][j].text)))
            && (t.columns[j] != EruptionColumn ==> r.rows[i][j] == t.rows[i][j])
  {
    assert ReplaceSentinels(t).rows[i] == ReplaceInRow(t.columns, t.rows[i]);
  }

  /** A header as it may appear in the spreadsheet cleans to the eruption column. */
  lemma HeaderExample()
    ensures CleanName(" Last Known Eruption\t") == EruptionColumn
  {
    HeaderStrip();
    HeaderLower();
  }

  lemma HeaderStrip()
    ensures Strip(" Last Known Eruption\t") == "Last Known Eruption"
  {
    var h := " Last Known Eruption\t";
    var u := "Last Known Eruption\t";
    var t := "Last Known Eruption";
    assert h[1..] == u && u[..|u| - 1] == t;
    assert LeadingSpaces(u) == 0 by {
      assert !IsSpace(u[0]);
    }
    assert LeadingSpaces(h) == 1;
    assert TrailingSpaces(t) == 0 by {
      assert !IsSpace(t[|t| - 1]);
    }
    assert TrailingSpaces(u) == 1;
  }

  lemma HeaderLower()
    ensures Lower("Last Known Eruption") == EruptionColumn
  {
    var c := Lower("Last Known Eruption");
    assert |c| == |EruptionColumn|;
    forall k | 0 <= k < |c|
      ensures c[k] == EruptionColumn[k]
    {
    }
  }

  /** The first position of `name` in `columns`. */
  function IndexOf(columns: seq<string>, name: string): (r: nat)
    requires name in columns
    ensures r < |columns| && columns[r] == name
    ensures forall j :: 0 <= j < r ==> columns[j] != name
  {
    if columns[0] == name then 0 else 1 + IndexOf(columns[1..], name)
  }

  /** The column names after the year step of `load_data`: `year erupted` is appended unless present. */
  function WithYearColumn(columns: seq<string>): (r: seq<string>)
    ensures YearColumn in r
    ensures |columns| <= |r| && r[..|columns|] == columns
    ensures YearColumn in columns ==> r == columns
    ensures YearColumn !in columns ==> |r| == |columns| + 1
  {
    if YearColumn in columns then columns else columns + [YearColumn]
  }

  /** One row of the year step of `load_data`: every `year erupted` cell, or a new last cell, holds
      the year derived from the eruption cell at position `e`. */
  function AddYearToRow(columns: seq<string>, e: nat, row: seq<Cell>): (r: seq<Cell>)
    requires |row| == |columns| && e < |row|
    ensures |r| == |WithYearColumn(columns)|
    ensures forall j :: 0 <= j < |r| && WithYearColumn(columns)[j] == YearColumn ==> r[j] == YearCell(row[e])
    ensures forall j :: 0 <= j < |row| && columns[j] != YearColumn ==> r[j] == row[j]
  {
    var year := YearCell(row[e]);
    var updated := seq(|row|, j requires 0 <= j < |row| =>
      if columns[j] == YearColumn then year else row[j]);
    if YearColumn in columns then updated else updated + [year]
  }

  /** The year step of `load_data` on the whole table, which needs exactly one eruption column. */
  function AddYear(t: Table): (r: Table)
    requires Rectangular(t) && multiset(t.columns)[EruptionColumn] == 1
    ensures r.columns == WithYearColumn(t.columns) && |r.rows| == |t.rows| && Rectangular(r)
  {
    var e := IndexOf(t.columns, EruptionColumn);
    Table(WithYearColumn(t.columns),
          seq(|t.rows|, i requires 0 <= i < |t.rows| => AddYearToRow(t.columns, e, t.rows[i])))
  }

  /** After the year step every `year erupted` cell holds the year of its row's
      eruption cell, and every other cell is as it was. */
  lemma AddYearCells(t: Table, i: nat, j: nat)
    requires Rectangular(t) && multiset(t.columns)[EruptionColumn] == 1
    requires i < |t.rows| && j < |WithYearColumn(t.columns)|
    ensures var r := AddYear(t);
            var e := IndexOf(t.columns, EruptionColumn);
            && (r.columns[j] == YearColumn ==> r.rows[i][j] == YearCell(t.rows[i][e]))
            && (j < |t.columns| && t.columns[j] != YearColumn ==> r.rows[i][j] == t.rows[i][j])
  {
    var e := IndexOf(t.columns, EruptionColumn);
    assert AddYear(t).rows[i] == AddYearToRow(t.columns, e, t.rows[i]);
  }

  /** `load_data` after the spreadsheet has been read: the three steps in order. */
  function Load(t: Table): (r: Result<Table, LoadError>)
    requires Rectangular(t)
    ensures r.Ok? <==> multiset(CleanNames(t.columns))[EruptionColumn] == 1
    ensures r.Err? && multiset(CleanNames(t.columns))[EruptionColumn] == 0 ==>
              r.error == MissingColumn(EruptionColumn)
    ensures r.Err? && multiset(CleanNames(t.columns))[EruptionColumn] > 1 ==>
              r.error == DuplicateColumn(EruptionColumn)
    ensures r.Ok? ==> Rectangular(r.value) && |r.value.rows| == |t.rows|
                      && r.value.columns == WithYearColumn(CleanNames(t.columns))
  {
    var cleaned := CleanColumns(t);
    var n := multiset(cleaned.columns)[EruptionColumn];
    if n == 0 then Err(MissingColumn(EruptionColumn))
    else
      var replaced := ReplaceSentinels(cleaned);
      if n > 1 then Err(DuplicateColumn(EruptionColumn))
      else Ok(AddYear(replaced))
  }

  // ---------------------------------------------------------------------
  // What loading does to each cell

  lemma YearColumnClean()
    ensures CleanName(YearColumn) == YearColumn
    ensures YearColumn != EruptionColumn
  {
    StripTrimmed(YearColumn);
    LowerFixed(YearColumn);
  }

  /** A name that occurs once occurs at one position only. */
  lemma OnlyOnce(s: seq<string>, x: string, e: nat)
    requires multiset(s)[x] == 1 && e < |s| && s[e] == x
    ensures forall j :: 0 <= j < |s| && s[j] == x ==> j == e
  {
    assert s == s[..e] + [s[e]] + s[e + 1..];
    assert multiset(s) == multiset(s[..e]) + multiset{s[e]} + multiset(s[e + 1..]);
    assert x !in s[..e] && x !in s[e + 1..];
    forall j | 0 <= j < |s| && j != e
      ensures s[j] != x
    {
      if j < e {
        assert s[j] == s[..e][j];
      } else {
        assert s[j] == s[e + 1..][j - e - 1];
      }
    }
  }

  /** The row `i` of a successful load, in terms of the row-level steps. */
  lemma LoadRow(t: Table, i: nat)
    requires Rectangular(t) && Load(t).Ok? && i < |t.rows|
    ensures var cols := CleanNames(t.columns);
            |t.rows[i]| == |cols| &&
            Load(t).value.rows[i]
              == AddYearToRow(cols, IndexOf(cols, EruptionColumn), ReplaceInRow(cols, t.rows[i]))
  {
    assert t.rows[i] in t.rows;
  }

  /** The cells of one row after the two row-level steps. */
  lemma CleanRowCell(cols: seq<string>, e: nat, row: seq<Cell>, j: nat)
    requires |row| == |cols| && e < |cols| && cols[e] == EruptionColumn
    requires multiset(cols)[EruptionColumn] == 1
    requires j < |WithYearColumn(cols)|
    ensures var cell := AddYearToRow(cols, e, ReplaceInRow(cols, row))[j];
            && (j < |cols| && cols[j] == EruptionColumn ==> j == e && cell == ReplaceSentinel(row[j]))
            && (j < |cols| && cols[j] == YearColumn ==> cell == YearCell(row[e]))
            && (j < |cols| && cols[j] != EruptionColumn && cols[j] != YearColumn ==> cell == row[j])
            && (j == |cols| ==> YearColumn !in cols && cell == YearCell(row[e]))
  {
    YearColumnClean();
    YearIgnoresSentinels(row[e]);
    OnlyOnce(cols, EruptionColumn, e);
  }

  /** Cell by cell, a successful load changes only the eruption column (by the
      sentinel rule) and the `year erupted` column (the year derived from the
      original eruption text); every other cell keeps its value, and a new last
      column holds the year when the table had no `year erupted` column. */
  lemma LoadCells(t: Table, i: nat, j: nat)
    requires Rectangular(t) && Load(t).Ok? && i < |t.rows| && j < |Load(t).value.columns|
    ensures var cols := CleanNames(t.columns);
            var row := t.rows[i];
            var e := IndexOf(cols, EruptionColumn);
            var cell := Load(t).value.rows[i][j];
            && |row| == |cols| && j <= |cols|
            && (j < |cols| && cols[j] == EruptionColumn ==> j == e && cell == ReplaceSentinel(row[j]))
            && (j < |cols| && cols[j] == YearColumn ==> cell == YearCell(row[e]))
            && (j < |cols| && cols[j] != EruptionColumn && cols[j] != YearColumn ==> cell == row[j])
            && (j == |cols| ==> YearColumn !in cols && cell == YearCell(row[e]))
  {
    var cols := CleanNames(t.columns);
    LoadRow(t, i);
    CleanRowCell(cols, IndexOf(cols, EruptionColumn), t.rows[i], j);
  }

  // ---------------------------------------------------------------------
  // Loading twice

  /** The eruption cell of a cleaned row is already clean. */
  lemma ReplaceTwice(cols: seq<string>, e: nat, row: seq<Cell>)
    requires |row| == |cols| && e < |cols| && cols[e] == EruptionColumn
    requires multiset(cols)[EruptionColumn] == 1
    ensures var once := AddYearToRow(cols, e, ReplaceInRow(cols, row));
            var cols1 := WithYearColumn(cols);
            |once| == |cols1| && ReplaceInRow(cols1, once) == once
  {
    YearColumnClean();
    var once := AddYearToRow(cols, e, ReplaceInRow(cols, row));
    var cols1 := WithYearColumn(cols);
    var again := ReplaceInRow(cols1, once);
    forall j | 0 <= j < |once|
      ensures again[j] == once[j]
    {
      if j < |cols| {
        assert cols1[j] == cols[j];
        CleanRowCell(cols, e, row, j);
      }
    }
  }

  /** Deriving the year again from a cleaned row puts the same year back. */
  lemma AddYearTwice(cols: seq<string>, e: nat, row: seq<Cell>)
    requires |row| == |cols| && e < |cols| && cols[e] == EruptionColumn
    requires multiset(cols)[EruptionColumn] == 1
    ensures var once := AddYearToRow(cols, e, ReplaceInRow(cols, row));
            var cols1 := WithYearColumn(cols);
            |once| == |cols1| && e < |cols1| && AddYearToRow(cols1, e, once) == once
  {
    YearColumnClean();
    var once := AddYearToRow(cols, e, ReplaceInRow(cols, row));
    var cols1 := WithYearColumn(cols);
    assert WithYearColumn(cols1) == cols1;
    var twice := AddYearToRow(cols1, e, once);
    CleanRowCell(cols, e, row, e);
    assert once[e] == ReplaceSentinel(row[e]);
    YearIgnoresSentinels(row[e]);
    forall j | 0 <= j < |once|
      ensures twice[j] == once[j]
    {
      CleanRowCell(cols, e, row, j);
      if j < |cols| {
        assert cols1[j] == cols[j];
      }
    }
  }

  /** Appending a clean name to a clean list keeps it clean. */
  lemma CleanNamesAppend(cols: seq<string>, x: string)
    requires CleanNames(cols) == cols && CleanName(x) == x
    ensures CleanNames(cols + [x]) == cols + [x]
  {
    var r := CleanNames(cols + [x]);
    forall k | 0 <= k < |cols|
      ensures r[k] == cols[k]
    {
      assert (cols + [x])[k] == cols[k];
      assert CleanNames(cols)[k] == CleanName(cols[k]);
    }
    assert r[|cols|] == x;
  }

  /** The columns after loading clean to themselves and still hold the
      eruption column once, at the same place. */
  lemma LoadedColumns(cols: seq<string>)
    requires CleanNames(cols) == cols && multiset(cols)[EruptionColumn] == 1
    ensures var cols1 := WithYearColumn(cols);
            && CleanNames(cols1) == cols1
            && multiset(cols1)[EruptionColumn] == 1
            && IndexOf(cols1, EruptionColumn) == IndexOf(cols, EruptionColumn)
  {
    YearColumnClean();
    var cols1 := WithYearColumn(cols);
    var e := IndexOf(cols, EruptionColumn);
    if YearColumn !in cols {
      CleanNamesAppend(cols, YearColumn);
      assert multiset(cols1) == multiset(cols) + multiset{YearColumn};
    }
    assert cols1[e] == EruptionColumn;
    OnlyOnce(cols1, EruptionColumn, e);
  }

  /** The columns of a loaded table are those of a table that loads. */
  lemma LoadedTableColumns(t: Table)
    requires Rectangular(t) && Load(t).Ok?
    ensures var t1 := Load(t).value;
            var cols := CleanNames(t.columns);
            && CleanNames(t1.columns) == t1.columns
            && multiset(t1.columns)[EruptionColumn] == 1
            && IndexOf(t1.columns, EruptionColumn) == IndexOf(cols, EruptionColumn)
            && Load(t1).Ok? && Load(t1).value.columns == t1.columns
  {
    CleanNamesIdempotent(t.columns);
    LoadedColumns(CleanNames(t.columns));
  }

  /** Row `i` of a loaded table is left alone by loading it again. */
  lemma LoadTwiceRow(t: Table, i: nat)
    requires Rectangular(t) && Load(t).Ok? && i < |t.rows|
    ensures Load(Load(t).value).Ok?
    ensures Load(Load(t).value).value.rows[i] == Load(t).value.rows[i]
  {
    var cols := CleanNames(t.columns);
    var e := IndexOf(cols, EruptionColumn);
    var t1 := Load(t).value;
    LoadedTableColumns(t);
    LoadRow(t, i);
    LoadRow(t1, i);
    ReplaceTwice(cols, e, t.rows[i]);
    AddYearTwice(cols, e, t.rows[i]);
  }

  /** The rows of a loaded table are left alone by loading it again. */
  lemma LoadTwiceRows(t: Table)
    requires Rectangular(t) && Load(t).Ok?
    ensures Load(Load(t).value).Ok?
    ensures Load(Load(t).value).value.rows == Load(t).value.rows
  {
    var t1 := Load(t).value;
    assert Load(t1).Ok? by {
      LoadedTableColumns(t);
    }
    var t2 := Load(t1).value;
    assert |t2.rows| == |t1.rows|;
    forall i | 0 <= i < |t1.rows|
      ensures t2.rows[i] == t1.rows[i]
    {
      LoadTwiceRow(t, i);
    }
  }

  /** Loading an already-loaded table changes nothing. */
  lemma LoadIdempotent(t: Table)
    requires Rectangular(t) && Load(t).Ok?
    ensures Load(Load(t).value) == Load(t)
  {
    LoadedTableColumns(t);
    LoadTwiceRows(t);
  }

  // ---------------------------------------------------------------------
  // Examples of the year rule

  lemma YearExamples()
    ensures YearCell(Text("1991 (Pinatubo)")) == Number(1991.0)
    ensures YearCell(Text("12345")) == Number(1234.0)
    ensures YearCell(ReplaceSentinel(Text("Unknown"))) == Null
    ensures YearCell(ReplaceSentinel(Text(""))) == Null
    ensures YearCell(Text("Unknown")) == Null
    ensures YearCell(Text("1200 BCE")) == Number(1200.0)
  {
    assert RunAt("1991 (Pinatubo)", 0);
    ExtractYearLeftmost("1991 (Pinatubo)", 0);
    assert RunAt("12345", 0);
    ExtractYearLeftmost("12345", 0);
    assert RunAt("1200 BCE", 0);
    ExtractYearLeftmost("1200 BCE", 0);
    SentinelHasNoYear("Unknown");
  }

  // ---------------------------------------------------------------------
  // The data frame that load_data updates in place

  /** The frame `df` of `load_data`, whose column index and columns are
      reassigned in place. */
  class Frame {
    var columns: seq<string>
    var rows: seq<seq<Cell>>

    /** The frame `pd.read_excel` returned. */
    constructor (t: Table)
      ensures columns == t.columns && rows == t.rows
    {
      columns := t.columns;
      rows := t.rows;
    }

    function Value(): Table
      reads this
    {
      Table(columns, rows)
    }

    /** The three steps of `load_data`, one assignment each; on an error the
        steps already taken stay done, as they do on the Python object. */
    method Normalize() returns (error: Option<LoadError>)
      requires Rectangular(Value())
      modifies this
      ensures error.None? <==> Load(old(Value())).Ok?
      ensures error.None? ==> Value() == Load(old(Value())).value
      ensures error.Some? ==> Load(old(Value())) == Err(error.value)
      ensures error == Some(MissingColumn(EruptionColumn)) ==> Value() == CleanColumns(old(Value()))
      ensures error == Some(DuplicateColumn(EruptionColumn)) ==>
                Value() == ReplaceSentinels(CleanColumns(old(Value())))
    {
      columns := CleanNames(columns);
      var n := multiset(columns)[EruptionColumn];
      if n == 0 {
        return Some(MissingColumn(EruptionColumn));
      }
      rows := ReplaceSentinels(Value()).rows;
      if n > 1 {
        return Some(DuplicateColumn(EruptionColumn));
      }
      var added := AddYear(Value());
      columns, rows := added.columns, added.rows;
      error := None;
    }
  }
}

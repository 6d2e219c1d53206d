/** Loading the tools table (`load_dataset` and the start-up fallback in
    app.py): trim the header names, coerce `release_year` to integers, coerce
    the two flag columns to integers, and fall back to an empty table when
    anything fails. */
module Loader {
  import opened Wrappers
  import opened Text
  import opened Table

  /** The CSV file as the tokenizer split it: the header cells and, per data
      row, its cells as text. */
  datatype RawTable = RawTable(header: seq<string>, rows: seq<seq<string>>)

  /** Why a load fails: a data row with more cells than the header (the
      tokenizer rejects it), a year that is infinite (`astype(int)` cannot
      cast it), or a flag cell `int(...)` cannot read. */
  datatype LoadError = TooManyFields(row: nat) | NotFinite(row: nat) | NotAnInteger(column: string, row: nat)

  /** The two columns coerced with `int(v)`, in the order they are processed. */
  const FlagColumns: seq<string> := [OpenSource, ApiAvailable]

  /** Header names with surrounding whitespace stripped (`c.strip()`). */
  function TrimmedHeader(raw: RawTable): seq<string>
  {
    seq(|raw.header|, j requires 0 <= j < |raw.header| => Trim(raw.header[j], PyWhitespace))
  }

  function Columns(raw: RawTable): set<string>
  {
    set c | c in TrimmedHeader(raw)
  }

  /** Position of the first header cell named `c`. */
  function FirstIndex(names: seq<string>, c: string): (j: nat)
    requires c in names
    ensures j < |names| && names[j] == c
    ensures forall k :: 0 <= k < j ==> names[k] != c
  {
    if names[0] == c then 0 else 1 + FirstIndex(names[1..], c)
  }

  /** The cell of column `c` in data row `i` as read: its text, or missing
      when the row is shorter than the header. */
  function RawCell(raw: RawTable, i: nat, c: string): Cell
    requires i < |raw.rows| && c in Columns(raw)
  {
    var j := FirstIndex(TrimmedHeader(raw), c);
    if j < |raw.rows[i]| then Str(raw.rows[i][j]) else Null
  }

  /** Data row `i` keyed by the trimmed column names. */
  function RawRow(raw: RawTable, i: nat): Row
    requires i < |raw.rows|
  {
    map c | c in Columns(raw) :: RawCell(raw, i, c)
  }

  /** `pd.to_numeric(..., errors="coerce").fillna(0).astype(int)` on one cell:
      text spelling an integer (ASCII whitespace around it allowed) gives that
      integer, text that is exactly a spelling of infinity cannot be cast to
      an integer (`None`), and any other text or a missing cell becomes 0. */
  function CoerceYear(cell: Cell): (r: Option<Cell>)
    ensures r.Some? ==> r.value.Int?
    ensures cell.Str? && ParseInt(cell.text, AsciiWhitespace).Some? ==> r == Some(Int(ParseInt(cell.text, AsciiWhitespace).value))
    ensures cell.Str? ==> (r.None? <==> IsInfinity(cell.text))
    ensures cell.Str? && ParseInt(cell.text, AsciiWhitespace).None? && !IsInfinity(cell.text) ==> r == Some(Int(0))
    ensures cell.Int? ==> r == Some(cell)
    ensures cell.Null? ==> r == Some(Int(0))
  {
    match cell
    case Str(s) =>
      if IsInfinity(s) then InfinityNotInteger(s); None
      else (match ParseInt(s, AsciiWhitespace) case Some(n) => Some(Int(n)) case None => Some(Int(0)))
    case Int(n) => Some(Int(n))
    case Null => Some(Int(0))
  }

  /** `int(v) if str(v).strip() != "" else 0` on one cell: blank text gives 0,
      other text must read as an integer, and a missing cell (whose text form
      is "nan") cannot be read. `None` stands for the ValueError. */
  function CoerceFlag(cell: Cell): (r: Option<Cell>)
    ensures r.Some? ==> r.value.Int?
    ensures cell.Str? && AllIn(cell.text, PyWhitespace) ==> r == Some(Int(0))
    ensures cell.Str? && !AllIn(cell.text, PyWhitespace) ==> r == (match ParseInt(cell.text, PyWhitespace) case Some(n) => Some(Int(n)) case None => None)
    ensures cell.Int? ==> r == Some(cell)
    ensures cell.Null? ==> r.None?
  {
    match cell
    case Str(s) =>
      TrimEmptyIff(s, PyWhitespace);
      if Trim(s, PyWhitespace) == "" then Some(Int(0))
      else (match ParseInt(s, PyWhitespace) case Some(n) => Some(Int(n)) case None => None)
    case Int(n) => Some(Int(n))
    case Null => None
  }

  /** What loading does to a cell of column `c`; `None` means the load fails. */
  function Normalise(c: string, cell: Cell): Option<Cell>
  {
    if c == ReleaseYear then CoerceYear(cell)
    else if c in FlagColumns then CoerceFlag(cell)
    else Some(cell)
  }

  /** Some data row is wider than the header. */
  ghost predicate Ragged(raw: RawTable)
  {
    exists i | 0 <= i < |raw.rows| :: |raw.rows[i]| > |raw.header|
  }

  /** Column `c` is present and some cell of it cannot be normalised. */
  ghost predicate BadCell(raw: RawTable, c: string)
  {
    c in Columns(raw) && exists i | 0 <= i < |raw.rows| :: Normalise(c, RawCell(raw, i, c)).None?
  }

  /** Some year is infinite. */
  ghost predicate BadYear(raw: RawTable)
  {
    BadCell(raw, ReleaseYear)
  }

  /** Some cell of a present flag column cannot be read as an integer. */
  ghost predicate BadFlag(raw: RawTable)
  {
    exists c | c in FlagColumns :: BadCell(raw, c)
  }

  ghost predicate LoadFails(raw: RawTable)
  {
    Ragged(raw) || BadYear(raw) || BadFlag(raw)
  }

  /** `d` is what a successful load of `raw` produces: the trimmed column
      names, one row per data row in the same order, and every cell the
      normalised form of the cell read. */
  ghost predicate LoadedFrom(raw: RawTable, d: Dataset)
  {
    && d.columns == Columns(raw)
    && |d.rows| == |raw.rows|
    && (forall i | 0 <= i < |d.rows| :: d.rows[i].Keys == d.columns)
    && (forall i, c | 0 <= i < |d.rows| && c in d.rows[i] && c in Columns(raw) ::
          Normalise(c, RawCell(raw, i, c)) == Some(d.rows[i][c]))
  }

  /** The rows after the columns in `done` have been coerced and the others not yet. */
  ghost predicate Converted(raw: RawTable, rows: seq<Row>, done: set<string>)
  {
    && |rows| == |raw.rows|
    && (forall i | 0 <= i < |rows| :: rows[i].Keys == Columns(raw))
    && (forall i, c | 0 <= i < |rows| && c in rows[i] && c in Columns(raw) ::
          if c in done then Normalise(c, RawCell(raw, i, c)) == Some(rows[i][c])
          else rows[i][c] == RawCell(raw, i, c))
  }

  // ---------------------------------------------------------------------------
  // The load, step by step as `load_dataset` rewrites its frame

  /** `df[c] = ...` for the year column or a flag column: rewrite the cell of
      column `c` in every row, stopping at the first cell that cannot be
      coerced (its row index is the error). */
  method CoerceColumn(rows: seq<Row>, c: string) returns (r: Result<seq<Row>, nat>)
    requires forall i :: 0 <= i < |rows| ==> c in rows[i]
    ensures r.Ok? <==> forall i :: 0 <= i < |rows| ==> Normalise(c, rows[i][c]).Some?
    ensures r.Err? ==> r.error < |rows| && Normalise(c, rows[r.error][c]).None?
    ensures r.Err? ==> forall k :: 0 <= k < r.error ==> Normalise(c, rows[k][c]).Some?
    ensures r.Ok? ==> |r.value| == |rows|
    ensures r.Ok? ==> forall i :: 0 <= i < |rows| ==> r.value[i] == rows[i][c := Normalise(c, rows[i][c]).value]
  {
    var out := rows;
    var i := 0;
    while i < |out|
      invariant 0 <= i <= |out| == |rows|
      invariant forall k :: 0 <= k < i ==> Normalise(c, rows[k][c]).Some? && out[k] == rows[k][c := Normalise(c, rows[k][c]).value]
      invariant forall k :: i <= k < |out| ==> out[k] == rows[k]
    {
      var v := Normalise(c, out[i][c]);
      if v.None? {
        return Err(i);
      }
      out := out[i := out[i][c := v.value]];
      i := i + 1;
    }
    r := Ok(out);
  }

  lemma ColumnStep(raw: RawTable, before: seq<Row>, after: seq<Row>, c: string, done: set<string>)
    requires Converted(raw, before, done) && c !in done && c in Columns(raw)
    requires |after| == |before|
    requires forall i :: 0 <= i < |before| ==> Normalise(c, before[i][c]).Some? && after[i] == before[i][c := Normalise(c, before[i][c]).value]
    ensures Converted(raw, after, done + {c})
    ensures !BadCell(raw, c)
  {
    forall i, e | 0 <= i < |after| && e in after[i] && e in Columns(raw)
      ensures if e in done + {c} then Normalise(e, RawCell(raw, i, e)) == Some(after[i][e])
              else after[i][e] == RawCell(raw, i, e)
    {
      assert e in before[i];
    }
    forall i | 0 <= i < |raw.rows| ensures Normalise(c, RawCell(raw, i, c)).Some? {
      assert c in before[i];
    }
  }

  lemma ColumnFailure(raw: RawTable, rows: seq<Row>, c: string, done: set<string>, i: nat)
    requires Converted(raw, rows, done) && c !in done && c in Columns(raw)
    requires i < |rows| && Normalise(c, rows[i][c]).None?
    requires forall k :: 0 <= k < i ==> Normalise(c, rows[k][c]).Some?
    ensures Normalise(c, RawCell(raw, i, c)).None?
    ensures forall k :: 0 <= k < i ==> Normalise(c, RawCell(raw, k, c)).Some?
    ensures BadCell(raw, c)
  {
    assert rows[i][c] == RawCell(raw, i, c);
    forall k | 0 <= k < i ensures Normalise(c, RawCell(raw, k, c)).Some? {
      assert rows[k][c] == RawCell(raw, k, c);
    }
  }

  lemma AbsentStep(raw: RawTable, rows: seq<Row>, c: string, done: set<string>)
    requires Converted(raw, rows, done) && c !in Columns(raw)
    ensures Converted(raw, rows, done + {c})
    ensures !BadCell(raw, c)
  {
  }

  /** The year column could not be coerced at row `i`: the load fails there. */
  lemma YearFailure(raw: RawTable, rows: seq<Row>, i: nat)
    requires Converted(raw, rows, {}) && ReleaseYear in Columns(raw)
    requires i < |rows| && Normalise(ReleaseYear, rows[i][ReleaseYear]).None?
    requires forall k :: 0 <= k < i ==> Normalise(ReleaseYear, rows[k][ReleaseYear]).Some?
    ensures LoadFails(raw)
    ensures i < |raw.rows| && CoerceYear(RawCell(raw, i, ReleaseYear)).None?
    ensures forall k :: 0 <= k < i ==> CoerceYear(RawCell(raw, k, ReleaseYear)).Some?
  {
    ColumnFailure(raw, rows, ReleaseYear, {}, i);
  }

  /** Flag column `c` could not be coerced at row `i`, after the year column
      and the flag columns in `done` were: the load fails there. */
  lemma FlagFailure(raw: RawTable, rows: seq<Row>, c: string, done: set<string>, i: nat)
    requires Converted(raw, rows, done) && c !in done && c in Columns(raw) && c in FlagColumns
    requires ReleaseYear in done && forall e :: e in done ==> !BadCell(raw, e)
    requires c == ApiAvailable ==> OpenSource in done
    requires i < |rows| && Normalise(c, rows[i][c]).None?
    requires forall k :: 0 <= k < i ==> Normalise(c, rows[k][c]).Some?
    ensures LoadFails(raw) && !BadYear(raw)
    ensures i < |raw.rows| && CoerceFlag(RawCell(raw, i, c)).None?
    ensures forall k :: 0 <= k < i ==> CoerceFlag(RawCell(raw, k, c)).Some?
    ensures c == ApiAvailable ==> !BadCell(raw, OpenSource)
  {
    ColumnFailure(raw, rows, c, done, i);
    assert c != ReleaseYear;
  }

  /** Every column has been coerced without failure: the load succeeds with
      the rows as they now stand. */
  lemma Finished(raw: RawTable, rows: seq<Row>, done: set<string>)
    requires !Ragged(raw) && Converted(raw, rows, done) && NormalisedColumns <= done
    requires forall e :: e in done ==> !BadCell(raw, e)
    ensures !LoadFails(raw)
    ensures LoadedFrom(raw, Dataset(Columns(raw), rows))
  {
    assert ReleaseYear in done && OpenSource in done && ApiAvailable in done;
    forall i, c | 0 <= i < |rows| && c in Columns(raw)
      ensures Normalise(c, RawCell(raw, i, c)) == Some(rows[i][c])
    {
      assert c in rows[i];
    }
  }

  /** `pd.read_csv` rejects a data row wider than the header: the first such
      row, if any. */
  method FirstWideRow(raw: RawTable) returns (w: Option<nat>)
    ensures w.None? <==> !Ragged(raw)
    ensures w.Some? ==> w.value < |raw.rows| && |raw.rows[w.value]| > |raw.header|
    ensures w.Some? ==> forall k :: 0 <= k < w.value ==> |raw.rows[k]| <= |raw.header|
  {
    for i := 0 to |raw.rows|
      invariant forall k :: 0 <= k < i ==> |raw.rows[k]| <= |raw.header|
    {
      if |raw.rows[i]| > |raw.header| {
        return Some(i);
      }
    }
    return None;
  }

  /** `load_dataset`: read the table, trim the column names, then rewrite the
      year column and each flag column in turn. The load fails exactly when a
      row is too wide, a year is infinite or a flag cell cannot be read, and
      reports the first of these it meets; otherwise the result is the
      normalised table. */
  method LoadDataset(raw: RawTable) returns (r: Result<Dataset, LoadError>)
    ensures r.Err? <==> LoadFails(raw)
    ensures r.Ok? ==> LoadedFrom(raw, r.value)
    ensures r.Err? && r.error.TooManyFields? ==>
      r.error.row < |raw.rows| && |raw.rows[r.error.row]| > |raw.header| &&
      forall k :: 0 <= k < r.error.row ==> |raw.rows[k]| <= |raw.header|
    ensures r.Err? && r.error.NotFinite? ==>
      !Ragged(raw) && ReleaseYear in Columns(raw) && r.error.row < |raw.rows| &&
      CoerceYear(RawCell(raw, r.error.row, ReleaseYear)).None? &&
      forall k :: 0 <= k < r.error.row ==> CoerceYear(RawCell(raw, k, ReleaseYear)).Some?
    ensures r.Err? && r.error.NotAnInteger? ==>
      !Ragged(raw) && !BadYear(raw) &&
      r.error.row < |raw.rows| && r.error.column in FlagColumns && r.error.column in Columns(raw) &&
      CoerceFlag(RawCell(raw, r.error.row, r.error.column)).None? &&
      (forall k :: 0 <= k < r.error.row ==> CoerceFlag(RawCell(raw, k, r.error.column)).Some?) &&
      (r.error.column == ApiAvailable ==> !BadCell(raw, OpenSource))
  {
    var wide := FirstWideRow(raw);
    if wide.Some? {
      return Err(TooManyFields(wide.value));
    }
    // df.columns = [c.strip() for c in df.columns]
    var columns := Columns(raw);
    var rows := seq(|raw.rows|, i requires 0 <= i < |raw.rows| => RawRow(raw, i));
    assert Converted(raw, rows, {});
    if ReleaseYear in columns {
      var res := CoerceColumn(rows, ReleaseYear);
      if res.Err? {
        YearFailure(raw, rows, res.error);
        return Err(NotFinite(res.error));
      }
      ColumnStep(raw, rows, res.value, ReleaseYear, {});
      rows := res.value;
    } else {
      AbsentStep(raw, rows, ReleaseYear, {});
    }
    ghost var done: set<string> := {ReleaseYear};
    for k := 0 to |FlagColumns|
      invariant forall c :: c in done <==> c == ReleaseYear || c in FlagColumns[..k]
      invariant Converted(raw, rows, done)
      invariant forall c :: c in done ==> !BadCell(raw, c)
    {
      var c := FlagColumns[k];
      assert c !in done by {
        assert FlagColumns[0] != FlagColumns[1];
      }
      if c in columns {
        var res := CoerceColumn(rows, c);
        if res.Err? {
          FlagFailure(raw, rows, c, done, res.error);
          return Err(NotAnInteger(c, res.error));
        }
        ColumnStep(raw, rows, res.value, c, done);
        rows := res.value;
      } else {
        AbsentStep(raw, rows, c, done);
      }
      done := done + {c};
    }
    assert FlagColumns[..|FlagColumns|] == FlagColumns;
    Finished(raw, rows, done);
    r := Ok(Dataset(columns, rows));
  }

  /** Module start-up: load the configured file, and keep an empty table when
      the file cannot be read (`source` is None) or the load fails. */
  method Startup(source: Option<RawTable>) returns (d: Dataset)
    ensures source.None? ==> d == Empty
    ensures source.Some? && LoadFails(source.value) ==> d == Empty
    ensures source.Some? && !LoadFails(source.value) ==> LoadedFrom(source.value, d)
  {
    if source.None? {
      return Empty;
    }
    var r := LoadDataset(source.value);
    match r
    case Ok(loaded) => d := loaded;
    case Err(_) => d := Empty;
  }

  // ---------------------------------------------------------------------------
  // Properties of the loaded table

  /** A loaded table is well formed, and its year and flag cells are integers. */
  lemma LoadedIsNormalised(raw: RawTable, d: Dataset)
    requires LoadedFrom(raw, d)
    ensures WellFormed(d) && Normalised(d)
  {
    forall i, c | 0 <= i < |d.rows| && c in NormalisedColumns && c in d.columns
      ensures CellOf(d.rows[i], c).Int?
    {
      assert c in d.rows[i];
      NormalisedInt(c, RawCell(raw, i, c));
    }
  }

  /** Coercing a year or flag cell, when it succeeds, gives an integer. */
  lemma NormalisedInt(c: string, cell: Cell)
    requires c in NormalisedColumns && Normalise(c, cell).Some?
    ensures Normalise(c, cell).value.Int?
  {
  }

  /** The load is deterministic: a raw table describes at most one loaded table. */
  lemma LoadedUnique(raw: RawTable, d1: Dataset, d2: Dataset)
    requires LoadedFrom(raw, d1) && LoadedFrom(raw, d2)
    ensures d1 == d2
  {
    forall i | 0 <= i < |d1.rows| ensures d1.rows[i] == d2.rows[i] {
      LoadedRowUnique(raw, d1, d2, i);
    }
  }

  lemma LoadedRowUnique(raw: RawTable, d1: Dataset, d2: Dataset, i: nat)
    requires LoadedFrom(raw, d1) && LoadedFrom(raw, d2) && i < |d1.rows|
    ensures d1.rows[i] == d2.rows[i]
  {
    var r1, r2 := d1.rows[i], d2.rows[i];
    assert r1.Keys == r2.Keys == Columns(raw);
    forall c | c in r1 ensures r1[c] == r2[c] {
      assert Normalise(c, RawCell(raw, i, c)) == Some(r1[c]);
      assert Normalise(c, RawCell(raw, i, c)) == Some(r2[c]);
    }
  }

  /** Trimming: every column of the loaded table is a header name stripped of
      its surrounding whitespace, and every header name gives a column. */
  lemma LoadedColumnsTrimmed(raw: RawTable, d: Dataset)
    requires LoadedFrom(raw, d)
    ensures forall c :: c in d.columns ==> c == [] || (c[0] !in PyWhitespace && c[|c| - 1] !in PyWhitespace)
    ensures forall j :: 0 <= j < |raw.header| ==> Trim(raw.header[j], PyWhitespace) in d.columns
  {
    forall j | 0 <= j < |raw.header| ensures Trim(raw.header[j], PyWhitespace) in d.columns {
      assert TrimmedHeader(raw)[j] == Trim(raw.header[j], PyWhitespace);
    }
  }

  /** A year written as a decimal integer is read back as that year, a
      spelling of infinity cannot be read, and any other text becomes 0
      rather than failing the load. */
  lemma YearCoercion(n: int, s: string)
    ensures CoerceYear(Str(IntToString(n))) == Some(Int(n))
    ensures IsInfinity(s) ==> CoerceYear(Str(s)).None?
    ensures ParseInt(s, AsciiWhitespace).None? && !IsInfinity(s) ==> CoerceYear(Str(s)) == Some(Int(0))
  {
    YearRoundTrip(n);
  }

  lemma YearRoundTrip(n: int)
    ensures CoerceYear(Str(IntToString(n))) == Some(Int(n))
  {
    assert forall ch :: ch in AsciiWhitespace ==> !IsDigit(ch) && ch != '-';
    ParseIntRoundTrip(n, AsciiWhitespace);
  }

  /** Worked example: an infinity padded with a space is not an infinity to
      the number parser, so it reads as NaN and becomes year 0. */
  lemma PaddedInfinityYear(s: string)
    requires s == " inf"
    ensures CoerceYear(Str(s)) == Some(Int(0))
  {
    assert Lower(s)[0] == ' ';
    assert forall l :: l in InfinitySpellings ==> l[0] != ' ';
    NoDigitNoInteger(s, AsciiWhitespace);
  }

  /** Worked example: a year after a no-break space is not a number to the
      number parser, which skips ASCII whitespace only, so it becomes 0. */
  lemma NoBreakSpaceYear(s: string)
    requires s == "\U{A0}2023"
    ensures CoerceYear(Str(s)) == Some(Int(0))
  {
    assert s[0] == '\U{A0}';
    LeadingNotInfinity(s);
    LeadingNotInteger(s);
  }

  /** Text beginning with a character no spelling of infinity begins with,
      whatever its case, is not an infinity. */
  lemma LeadingNotInfinity(s: string)
    requires s != [] && s[0] !in {'i', 'I', '+', '-'}
    ensures !IsInfinity(s)
  {
    if IsInfinity(s) {
      InfinitySpellingEnds(Lower(s));
    }
  }

  /** Text beginning with a character that is neither a digit, a sign nor
      ASCII whitespace, and ending in a digit, is not integer text to the
      number parser. */
  lemma LeadingNotInteger(s: string)
    requires s != [] && s[0] !in AsciiWhitespace && !IsDigit(s[0]) && s[0] != '+' && s[0] != '-'
    requires IsDigit(s[|s| - 1])
    ensures ParseInt(s, AsciiWhitespace).None?
  {
    assert s[|s| - 1] !in AsciiWhitespace;
    TrimUnpadded(s, AsciiWhitespace);
  }

  /** A flag written as a decimal integer is read back as that integer. */
  lemma FlagCoercion(n: int)
    ensures CoerceFlag(Str(IntToString(n))) == Some(Int(n))
  {
    var s := IntToString(n);
    ParseIntRoundTrip(n, PyWhitespace);
    IntToStringUnpadded(n);
    assert !AllIn(s, PyWhitespace);
  }

  lemma InfinityText(year: string)
    requires year == "Infinity"
    ensures IsInfinity(year)
  {
    assert Lower(year) == "infinity";
  }

  lemma YearHeader(raw: RawTable)
    requires |raw.header| == 1 && raw.header[0] == ReleaseYear
    ensures Columns(raw) == {ReleaseYear}
    ensures forall i :: 0 <= i < |raw.rows| && |raw.rows[i]| == 1 ==> RawCell(raw, i, ReleaseYear) == Str(raw.rows[i][0])
  {
    assert ReleaseYear[0] == 'r' && ReleaseYear[|ReleaseYear| - 1] == 'r';
    TrimUnpadded(ReleaseYear, PyWhitespace);
    assert TrimmedHeader(raw) == [ReleaseYear];
  }

  /** Worked example: a table whose only year reads "Infinity" fails to load,
      so start-up keeps the empty table. */
  lemma InfiniteYearFailsLoad(raw: RawTable, year: string)
    requires year == "Infinity"
    requires raw == RawTable([ReleaseYear], [[year]])
    ensures LoadFails(raw)
  {
    YearHeader(raw);
    InfinityText(year);
    assert Normalise(ReleaseYear, RawCell(raw, 0, ReleaseYear)).None?;
  }
}

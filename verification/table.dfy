/** The in-memory table the analytics work on: cells, rows keyed by column
    name, the dataset, and the per-value occurrence counts that pandas'
    `value_counts()` produces for a column. */
module Table {

  /** A cell is a string, an integer, or missing (pandas' NaN). */
  datatype Cell = Str(text: string) | Int(n: int) | Null

  /** A row maps each column name to its cell. */
  type Row = map<string, Cell>

  /** The set of columns present and the rows in file order. */
  datatype Dataset = Dataset(columns: set<string>, rows: seq<Row>)

  /** `pd.DataFrame()`: no columns, no rows. */
  const Empty: Dataset := Dataset({}, [])

  // Column names the analytics look up.
  const ReleaseYear := "release_year"
  const OpenSource := "open_source"
  const ApiAvailable := "api_available"
  const Category := "category_canonical"
  const Modality := "modality_canonical"

  /** Every row carries exactly the present columns. */
  ghost predicate WellFormed(d: Dataset)
  {
    forall i :: 0 <= i < |d.rows| ==> d.rows[i].Keys == d.columns
  }

  /** The columns the load rewrites to integers. */
  const NormalisedColumns: set<string> := {ReleaseYear, OpenSource, ApiAvailable}

  /** The year and flag cells of every row are integers. */
  ghost predicate Normalised(d: Dataset)
  {
    forall i, c | 0 <= i < |d.rows| && c in NormalisedColumns && c in d.columns :: CellOf(d.rows[i], c).Int?
  }

  /** The cell of column `c` in row `r`; a column the row lacks reads as missing. */
  function CellOf(r: Row, c: string): Cell
  {
    if c in r then r[c] else Null
  }

  /** The column `c` of `rows`, top to bottom (`df[c]`). */
  function Cells(rows: seq<Row>, c: string): seq<Cell>
  {
    seq(|rows|, i requires 0 <= i < |rows| => CellOf(rows[i], c))
  }

  // ---------------------------------------------------------------------------
  // Occurrence counts

  /** Number of cells equal to `v`. */
  function Count(cells: seq<Cell>, v: Cell): nat
  {
    if cells == [] then 0
    else Count(cells[..|cells| - 1], v) + (if cells[|cells| - 1] == v then 1 else 0)
  }

  lemma {:induction false} CountBounds(cells: seq<Cell>, v: Cell)
    ensures Count(cells, v) <= |cells|
    ensures Count(cells, v) > 0 <==> v in cells
  {
    if cells != [] {
      var init := cells[..|cells| - 1];
      CountBounds(init, v);
      assert cells == init + [cells[|cells| - 1]];
    }
  }

  /** One (value, number of occurrences) pair of `value_counts()`. */
  datatype Entry = Entry(value: Cell, count: nat)

  /** The count recorded for `v`, or 0 when `v` is not a key. */
  function CountOf(t: seq<Entry>, v: Cell): nat
  {
    if t == [] then 0 else if t[0].value == v then t[0].count else CountOf(t[1..], v)
  }

  /** The sum of all recorded counts. */
  function Total(t: seq<Entry>): nat
  {
    if t == [] then 0 else t[0].count + Total(t[1..])
  }

  function Values(t: seq<Entry>): set<Cell>
  {
    set e | e in t :: e.value
  }

  /** No value is recorded twice. */
  predicate Distinct(t: seq<Entry>)
  {
    forall i, j :: 0 <= i < j < |t| ==> t[i].value != t[j].value
  }

  /** Every key is a value that occurs, and occurs at least once. */
  predicate Proper(t: seq<Entry>)
  {
    forall i :: 0 <= i < |t| ==> t[i].value != Null && t[i].count >= 1
  }

  /** Record one more occurrence of `v`, keeping first-seen order. */
  function Bump(t: seq<Entry>, v: Cell): seq<Entry>
  {
    if t == [] then [Entry(v, 1)]
    else if t[0].value == v then [Entry(v, t[0].count + 1)] + t[1..]
    else [t[0]] + Bump(t[1..], v)
  }

  /** `value_counts()` of a column: every non-missing value with its number
      of occurrences. Keys are kept in order of first appearance; pandas
      orders them by decreasing count, an order this model does not claim. */
  function ValueCounts(cells: seq<Cell>): seq<Entry>
  {
    if cells == [] then []
    else
      var t := ValueCounts(cells[..|cells| - 1]);
      var v := cells[|cells| - 1];
      if v == Null then t else Bump(t, v)
  }

  lemma ValuesCons(t: seq<Entry>)
    requires t != []
    ensures Values(t) == {t[0].value} + Values(t[1..])
  {
    assert forall e :: e in t ==> e == t[0] || e in t[1..];
    assert forall e :: e in t[1..] ==> e in t;
  }

  lemma {:induction false} BumpValues(t: seq<Entry>, v: Cell)
    ensures Values(Bump(t, v)) == Values(t) + {v}
    ensures |Bump(t, v)| >= 1
  {
    if t == [] {
    } else if t[0].value == v {
      ValuesCons(t);
      ValuesCons(Bump(t, v));
      assert Bump(t, v)[1..] == t[1..];
    } else {
      BumpValues(t[1..], v);
      ValuesCons(t);
      ValuesCons(Bump(t, v));
      assert Bump(t, v)[1..] == Bump(t[1..], v);
    }
  }

  lemma {:induction false} BumpCounts(t: seq<Entry>, v: Cell)
    ensures forall w :: CountOf(Bump(t, v), w) == CountOf(t, w) + (if w == v then 1 else 0)
    ensures Total(Bump(t, v)) == Total(t) + 1
  {
    if t == [] {
    } else if t[0].value == v {
      assert Bump(t, v)[1..] == t[1..];
    } else {
      BumpCounts(t[1..], v);
      assert Bump(t, v)[1..] == Bump(t[1..], v);
    }
  }

  lemma {:induction false} BumpShape(t: seq<Entry>, v: Cell)
    requires Distinct(t) && Proper(t) && v != Null
    ensures Distinct(Bump(t, v)) && Proper(Bump(t, v))
  {
    if t == [] {
    } else if t[0].value == v {
      assert Bump(t, v)[1..] == t[1..];
    } else {
      var rest := Bump(t[1..], v);
      BumpShape(t[1..], v);
      BumpValues(t[1..], v);
      HeadNotInTail(t);
      assert Bump(t, v) == [t[0]] + rest;
      PrependDistinct(t[0], rest);
    }
  }

  lemma HeadNotInTail(t: seq<Entry>)
    requires Distinct(t) && t != []
    ensures t[0].value !in Values(t[1..])
  {
    forall e | e in t[1..] ensures e.value != t[0].value {
      var k :| 0 <= k < |t[1..]| && t[1..][k] == e;
      assert t[k + 1] == e;
    }
  }

  lemma PrependDistinct(e: Entry, rest: seq<Entry>)
    requires Distinct(rest) && e.value !in Values(rest)
    ensures Distinct([e] + rest)
  {
    var b := [e] + rest;
    forall i, j | 0 <= i < j < |b| ensures b[i].value != b[j].value {
      if i == 0 {
        assert b[j] == rest[j - 1];
        assert rest[j - 1] in rest;
      } else {
        assert b[i] == rest[i - 1] && b[j] == rest[j - 1];
      }
    }
  }

  lemma {:induction false} CountOfEntry(t: seq<Entry>, i: nat)
    requires Distinct(t) && i < |t|
    ensures CountOf(t, t[i].value) == t[i].count
  {
    if i > 0 {
      assert Distinct(t[1..]);
      CountOfEntry(t[1..], i - 1);
    }
  }

  lemma {:induction false} CountOfAbsent(t: seq<Entry>, v: Cell)
    requires v !in Values(t)
    ensures CountOf(t, v) == 0
  {
    if t != [] {
      assert t[0] in t;
      assert Values(t[1..]) <= Values(t) by {
        assert forall e :: e in t[1..] ==> e in t;
      }
      CountOfAbsent(t[1..], v);
    }
  }

  /** `value_counts()` records each non-missing value once, with exactly its
      number of occurrences (so at least one), records nothing else, and its
      counts add up to the number of non-missing cells. */
  lemma {:induction false} ValueCountsSpec(cells: seq<Cell>)
    ensures Distinct(ValueCounts(cells)) && Proper(ValueCounts(cells))
    ensures Values(ValueCounts(cells)) == set v | v in cells && v != Null
    ensures forall v :: v != Null ==> CountOf(ValueCounts(cells), v) == Count(cells, v)
    ensures Total(ValueCounts(cells)) == |cells| - Count(cells, Null)
  {
    if cells != [] {
      var init := cells[..|cells| - 1];
      var v := cells[|cells| - 1];
      assert cells == init + [v];
      ValueCountsSpec(init);
      CountBounds(init, Null);
      if v != Null {
        BumpShape(ValueCounts(init), v);
        BumpValues(ValueCounts(init), v);
        BumpCounts(ValueCounts(init), v);
      }
      assert (set w | w in cells && w != Null) == (set w | w in init && w != Null) + (if v == Null then {} else {v});
    }
  }

  /** Each recorded count is the number of occurrences of its value. */
  lemma ValueCountsEntry(cells: seq<Cell>, i: nat)
    requires i < |ValueCounts(cells)|
    ensures ValueCounts(cells)[i].count == Count(cells, ValueCounts(cells)[i].value) >= 1
    ensures ValueCounts(cells)[i].value in cells
  {
    var t := ValueCounts(cells);
    ValueCountsSpec(cells);
    CountOfEntry(t, i);
    assert t[i] in t;
    assert t[i].value in Values(t);
  }

  /** The counts of `value_counts()` add up to at most the number of rows. */
  lemma ValueCountsTotal(cells: seq<Cell>)
    ensures Total(ValueCounts(cells)) <= |cells|
  {
    ValueCountsSpec(cells);
  }
}

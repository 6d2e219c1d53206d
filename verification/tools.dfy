/** The record listing behind `/api/tools` in app.py: optional filters
    narrow a copy of the table one after another, and the answer is the
    number of matching rows with the first 500 of them. */
module Tools {
  import opened Wrappers
  import opened Text
  import opened Table

  /** At most this many matching rows are returned. */
  const RowLimit: nat := 500

  /** The query parameters, already parsed: `year_min` and `year_max` are
      None when absent or not an integer. */
  datatype Params = Params(
    category: Option<string>,
    modality: Option<string>,
    open: Option<string>,
    yearMin: Option<int>,
    yearMax: Option<int>)

  const NoParams: Params := Params(None, None, None, None, None)

  /** One filter that is in force. */
  datatype Criterion =
    | CategoryIs(category: string)
    | ModalityIs(modality: string)
    | OpenIs(flag: int)
    | YearFrom(from: int)
    | YearUntil(until: int)

  datatype Listing = Listing(count: nat, rows: seq<Row>)

  /** A filter named a column the table does not have (pandas' KeyError). */
  datatype QueryError = MissingColumn(column: string)

  /** The column a filter reads. */
  function ColumnOf(c: Criterion): string
  {
    match c
    case CategoryIs(_) => Category
    case ModalityIs(_) => Modality
    case OpenIs(_) => OpenSource
    case YearFrom(_) => ReleaseYear
    case YearUntil(_) => ReleaseYear
  }

  /** `s.str.lower() == q.lower()` on one cell: only text cells can match. */
  predicate TextMatches(cell: Cell, q: string)
  {
    cell.Str? && Lower(cell.text) == Lower(q)
  }

  /** Whether row `r` passes filter `c`. */
  predicate Holds(c: Criterion, r: Row)
  {
    match c
    case CategoryIs(q) => TextMatches(CellOf(r, Category), q)
    case ModalityIs(q) => TextMatches(CellOf(r, Modality), q)
    case OpenIs(n) => CellOf(r, OpenSource) == Int(n)
    case YearFrom(y) => CellOf(r, ReleaseYear).Int? && CellOf(r, ReleaseYear).n >= y
    case YearUntil(y) => CellOf(r, ReleaseYear).Int? && CellOf(r, ReleaseYear).n <= y
  }

  predicate AllHold(cs: seq<Criterion>, r: Row)
  {
    forall k | 0 <= k < |cs| :: Holds(cs[k], r)
  }

  // The filter each parameter puts in force, in the order they are applied.
  // Text filters need a non-empty value, `open` must be "1" or "0", and the
  // year bounds must be non-zero (Python's truthiness).

  function CategoryFilter(p: Params): seq<Criterion>
  {
    if p.category.Some? && p.category.value != "" then [CategoryIs(p.category.value)] else []
  }

  function ModalityFilter(p: Params): seq<Criterion>
  {
    if p.modality.Some? && p.modality.value != "" then [ModalityIs(p.modality.value)] else []
  }

  function OpenFilter(p: Params): seq<Criterion>
  {
    if p.open == Some("1") then [OpenIs(1)] else if p.open == Some("0") then [OpenIs(0)] else []
  }

  function YearFromFilter(p: Params): seq<Criterion>
  {
    if p.yearMin.Some? && p.yearMin.value != 0 then [YearFrom(p.yearMin.value)] else []
  }

  function YearUntilFilter(p: Params): seq<Criterion>
  {
    if p.yearMax.Some? && p.yearMax.value != 0 then [YearUntil(p.yearMax.value)] else []
  }

  /** The filters in force, in the order the handler applies them. */
  function Criteria(p: Params): seq<Criterion>
  {
    CategoryFilter(p) + ModalityFilter(p) + OpenFilter(p) + YearFromFilter(p) + YearUntilFilter(p)
  }

  /** The rows passing every filter of `cs`, in their original order. */
  function Filter(rows: seq<Row>, cs: seq<Criterion>): seq<Row>
  {
    if rows == [] then []
    else
      var last := rows[|rows| - 1];
      Filter(rows[..|rows| - 1], cs) + (if AllHold(cs, last) then [last] else [])
  }

  /** The column of the first filter whose column is absent, if any. */
  function FirstMissing(cs: seq<Criterion>, columns: set<string>): Option<string>
  {
    if cs == [] then None
    else if ColumnOf(cs[0]) !in columns then Some(ColumnOf(cs[0]))
    else FirstMissing(cs[1..], columns)
  }

  function Min(a: nat, b: nat): nat { if a <= b then a else b }

  /** What `/api/tools` answers: an error for the first filter naming an
      absent column; otherwise the number of rows passing all filters and
      the first `RowLimit` of them. */
  function Query(d: Dataset, p: Params): Result<Listing, QueryError>
  {
    match FirstMissing(Criteria(p), d.columns)
    case Some(c) => Err(MissingColumn(c))
    case None =>
      var matching := Filter(d.rows, Criteria(p));
      Ok(Listing(|matching|, matching[..Min(RowLimit, |matching|)]))
  }

  // ---------------------------------------------------------------------------
  // The handler, narrowing its copy of the table filter by filter

  /** `df[mask]` for one filter: keep the rows that pass it, in order. */
  method Select(rows: seq<Row>, c: Criterion) returns (kept: seq<Row>)
    ensures kept == Filter(rows, [c])
  {
    kept := [];
    for i := 0 to |rows|
      invariant kept == Filter(rows[..i], [c])
    {
      assert rows[..i + 1][..i] == rows[..i];
      assert AllHold([c], rows[i]) <==> Holds(c, rows[i]) by { assert [c][0] == c; }
      kept := kept + (if Holds(c, rows[i]) then [rows[i]] else []);
    }
    assert rows[..|rows|] == rows;
  }

  /** Apply one more filter to the rows kept so far, failing when its column
      is absent. */
  method Narrow(d: Dataset, rows: seq<Row>, ghost applied: seq<Criterion>, c: Criterion)
    returns (r: Result<seq<Row>, QueryError>)
    requires rows == Filter(d.rows, applied)
    ensures r.Err? <==> ColumnOf(c) !in d.columns
    ensures r.Err? ==> r.error == MissingColumn(ColumnOf(c))
    ensures r.Ok? ==> r.value == Filter(d.rows, applied + [c])
  {
    if ColumnOf(c) !in d.columns {
      return Err(MissingColumn(ColumnOf(c)));
    }
    var kept := Select(rows, c);
    FilterThen(d.rows, applied, c);
    r := Ok(kept);
  }

  /** Starting from a copy of the table, each filter of `filters` in turn
      narrows the rows kept so far; a filter whose column is absent ends
      the run with an error. */
  method NarrowAll(d: Dataset, filters: seq<Criterion>) returns (r: Result<seq<Row>, QueryError>)
    ensures r.Err? <==> FirstMissing(filters, d.columns).Some?
    ensures r.Err? ==> r.error == MissingColumn(FirstMissing(filters, d.columns).value)
    ensures r.Ok? ==> r.value == Filter(d.rows, filters)
  {
    var rows := d.rows;
    FilterNothing(d.rows);
    for k := 0 to |filters|
      invariant rows == Filter(d.rows, filters[..k])
      invariant FirstMissing(filters[..k], d.columns).None?
    {
      var step := Narrow(d, rows, filters[..k], filters[k]);
      assert filters[..k + 1] == filters[..k] + [filters[k]];
      if step.Err? {
        assert filters == filters[..k] + [filters[k]] + filters[k + 1..];
        StopsAt(filters[..k], filters[k], filters[k + 1..], d.columns);
        return Err(step.error);
      }
      PassesAll(filters[..k], filters[k], d.columns);
      rows := step.value;
    }
    assert filters[..|filters|] == filters;
    r := Ok(rows);
  }

  /** The `api_tools` handler: the filters in force, in parameter order,
      narrow a copy of the table; the answer is the number of rows left and
      the first `RowLimit` of them. */
  method ApiTools(d: Dataset, p: Params) returns (r: Result<Listing, QueryError>)
    ensures r == Query(d, p)
  {
    var res := NarrowAll(d, Criteria(p));
    match res
    case Err(e) => r := Err(e);
    case Ok(rows) =>
      // len(df) and df.head(500)
      r := Ok(Listing(|rows|, rows[..Min(RowLimit, |rows|)]));
  }

  // ---------------------------------------------------------------------------
  // Lemmas behind the handler

  lemma {:induction false} FilterNothing(rows: seq<Row>)
    ensures Filter(rows, []) == rows
  {
    if rows != [] {
      FilterNothing(rows[..|rows| - 1]);
    }
  }

  /** Filtering distributes over concatenation, so it keeps the original order. */
  lemma {:induction false} FilterAppend(a: seq<Row>, b: seq<Row>, cs: seq<Criterion>)
    ensures Filter(a + b, cs) == Filter(a, cs) + Filter(b, cs)
  {
    if b == [] {
      assert a + b == a;
    } else {
      var init := b[..|b| - 1];
      assert (a + b)[..|a + b| - 1] == a + init;
      FilterAppend(a, init, cs);
    }
  }

  lemma AllHoldThen(cs: seq<Criterion>, c: Criterion, r: Row)
    ensures AllHold(cs + [c], r) <==> AllHold(cs, r) && Holds(c, r)
  {
    if AllHold(cs, r) && Holds(c, r) {
      forall k | 0 <= k < |cs| + 1 ensures Holds((cs + [c])[k], r) {
        if k < |cs| { assert (cs + [c])[k] == cs[k]; }
      }
    }
    if AllHold(cs + [c], r) {
      forall k | 0 <= k < |cs| ensures Holds(cs[k], r) {
        assert (cs + [c])[k] == cs[k];
      }
      assert (cs + [c])[|cs|] == c;
    }
  }

  /** Applying one more filter to a filtered table filters by both. */
  lemma {:induction false} FilterThen(rows: seq<Row>, cs: seq<Criterion>, c: Criterion)
    ensures Filter(Filter(rows, cs), [c]) == Filter(rows, cs + [c])
  {
    if rows != [] {
      var init := rows[..|rows| - 1];
      var last := rows[|rows| - 1];
      FilterThen(init, cs, c);
      var tail := if AllHold(cs, last) then [last] else [];
      FilterAppend(Filter(init, cs), tail, [c]);
      AllHoldThen(cs, c, last);
      assert AllHold([c], last) <==> Holds(c, last) by {
        assert [c][0] == c;
      }
      if AllHold(cs, last) {
        assert tail[..0] == [];
      }
    }
  }

  lemma {:induction false} FirstMissingAppend(a: seq<Criterion>, b: seq<Criterion>, columns: set<string>)
    ensures FirstMissing(a + b, columns) == if FirstMissing(a, columns).Some? then FirstMissing(a, columns) else FirstMissing(b, columns)
  {
    if a != [] {
      assert (a + b)[1..] == a[1..] + b;
      FirstMissingAppend(a[1..], b, columns);
    } else {
      assert a + b == b;
    }
  }

  /** The handler stops at filter `c` exactly as `Query` reports. */
  lemma StopsAt(applied: seq<Criterion>, c: Criterion, rest: seq<Criterion>, columns: set<string>)
    requires FirstMissing(applied, columns).None? && ColumnOf(c) !in columns
    ensures FirstMissing(applied + [c] + rest, columns) == Some(ColumnOf(c))
  {
    assert applied + [c] + rest == applied + ([c] + rest);
    FirstMissingAppend(applied, [c] + rest, columns);
  }

  lemma PassesAll(applied: seq<Criterion>, c: Criterion, columns: set<string>)
    requires FirstMissing(applied, columns).None? && ColumnOf(c) in columns
    ensures FirstMissing(applied + [c], columns).None?
  {
    FirstMissingAppend(applied, [c], columns);
  }

  // ---------------------------------------------------------------------------
  // Properties of the listing

  /** The filters in force: a category or modality filter for each
      non-empty value, an open-source filter only for "1" or "0", and year
      bounds only when non-zero, so 0 means no bound. */
  lemma CriteriaSpec(p: Params)
    ensures forall q :: CategoryIs(q) in Criteria(p) <==> p.category == Some(q) && q != ""
    ensures forall q :: ModalityIs(q) in Criteria(p) <==> p.modality == Some(q) && q != ""
    ensures forall n :: OpenIs(n) in Criteria(p) <==> (p.open == Some("1") && n == 1) || (p.open == Some("0") && n == 0)
    ensures forall y :: YearFrom(y) in Criteria(p) <==> p.yearMin == Some(y) && y != 0
    ensures forall y :: YearUntil(y) in Criteria(p) <==> p.yearMax == Some(y) && y != 0
  {
    var a, b, c, e, f := CategoryFilter(p), ModalityFilter(p), OpenFilter(p), YearFromFilter(p), YearUntilFilter(p);
    assert forall x :: x in Criteria(p) <==> x in a || x in b || x in c || x in e || x in f;
  }

  /** A row is kept iff it passes every filter; the kept rows are no more
      than the input rows. */
  lemma {:induction false} FilterSpec(rows: seq<Row>, cs: seq<Criterion>)
    ensures |Filter(rows, cs)| <= |rows|
    ensures forall x :: x in Filter(rows, cs) <==> x in rows && AllHold(cs, x)
  {
    if rows != [] {
      var init := rows[..|rows| - 1];
      FilterSpec(init, cs);
      assert rows == init + [rows[|rows| - 1]];
    }
  }

  /** The first filter reported missing names an absent column some filter
      reads, and none is reported exactly when every such column is present. */
  lemma {:induction false} FirstMissingSpec(cs: seq<Criterion>, columns: set<string>)
    ensures FirstMissing(cs, columns).None? <==> forall k :: 0 <= k < |cs| ==> ColumnOf(cs[k]) in columns
    ensures FirstMissing(cs, columns).Some? ==>
      FirstMissing(cs, columns).value !in columns &&
      exists k :: 0 <= k < |cs| && ColumnOf(cs[k]) == FirstMissing(cs, columns).value
  {
    if cs != [] {
      FirstMissingSpec(cs[1..], columns);
      assert forall k :: 1 <= k < |cs| ==> cs[k] == cs[1..][k - 1];
      if FirstMissing(cs, columns).Some? && ColumnOf(cs[0]) in columns {
        var k :| 0 <= k < |cs[1..]| && ColumnOf(cs[1..][k]) == FirstMissing(cs, columns).value;
        assert cs[k + 1] == cs[1..][k];
      }
    }
  }

  /** The answer to a query: an error exactly when a filter in force reads an
      absent column, naming such a column; otherwise `count` is the number of
      matching rows (at most the table's), and `rows` is the first
      min(500, count) of the matches in table order, each a row of the table
      that passes every filter. */
  lemma QuerySpec(d: Dataset, p: Params)
    ensures Query(d, p).Err? <==> exists k :: 0 <= k < |Criteria(p)| && ColumnOf(Criteria(p)[k]) !in d.columns
    ensures Query(d, p).Err? ==>
      Query(d, p).error.column !in d.columns &&
      exists k :: 0 <= k < |Criteria(p)| && ColumnOf(Criteria(p)[k]) == Query(d, p).error.column
    ensures Query(d, p).Ok? ==>
      var l := Query(d, p).value;
      var matching := Filter(d.rows, Criteria(p));
      l.count == |matching| <= |d.rows| &&
      |l.rows| == Min(RowLimit, l.count) &&
      l.rows == matching[..|l.rows|] &&
      forall x :: x in l.rows ==> x in d.rows && AllHold(Criteria(p), x)
  {
    var cs := Criteria(p);
    FirstMissingSpec(cs, d.columns);
    var matching := Filter(d.rows, cs);
    FilterSpec(d.rows, cs);
    if Query(d, p).Ok? {
      var l := Query(d, p).value;
      forall x | x in l.rows ensures x in matching {
        var k :| 0 <= k < |l.rows| && l.rows[k] == x;
        assert matching[k] == x;
      }
    }
  }

  /** With no parameters every row matches: `count` is the table's row count
      and `rows` its first 500 rows. */
  lemma NoParamsQuery(d: Dataset)
    ensures Query(d, NoParams) == Ok(Listing(|d.rows|, d.rows[..Min(RowLimit, |d.rows|)]))
  {
    assert Criteria(NoParams) == [];
    FilterNothing(d.rows);
  }

  /** Filtering by a set of filters and then by a larger one is filtering by
      the larger one alone. */
  lemma {:induction false} FilterNarrows(rows: seq<Row>, cs: seq<Criterion>, more: seq<Criterion>)
    requires forall k :: 0 <= k < |cs| ==> cs[k] in more
    ensures Filter(Filter(rows, cs), more) == Filter(rows, more)
  {
    if rows != [] {
      var init := rows[..|rows| - 1];
      var last := rows[|rows| - 1];
      FilterNarrows(init, cs, more);
      var tail := if AllHold(cs, last) then [last] else [];
      FilterAppend(Filter(init, cs), tail, more);
      if AllHold(more, last) {
        forall k | 0 <= k < |cs| ensures Holds(cs[k], last) {
          var j :| 0 <= j < |more| && more[j] == cs[k];
        }
      }
      assert tail != [] ==> tail[..0] == [] && tail[0] == last;
    }
  }

  /** `q` keeps every filter `p` supplies, and may supply more. */
  predicate Extends(q: Params, p: Params)
  {
    (p.category.Some? && p.category.value != "" ==> q.category == p.category) &&
    (p.modality.Some? && p.modality.value != "" ==> q.modality == p.modality) &&
    (p.open == Some("1") || p.open == Some("0") ==> q.open == p.open) &&
    (p.yearMin.Some? && p.yearMin.value != 0 ==> q.yearMin == p.yearMin) &&
    (p.yearMax.Some? && p.yearMax.value != 0 ==> q.yearMax == p.yearMax)
  }

  /** Supplying more filters only narrows the answer: its matches are the
      earlier matches filtered further, so the count does not grow. */
  lemma MoreFiltersNarrow(d: Dataset, p: Params, q: Params)
    requires Extends(q, p)
    ensures Filter(d.rows, Criteria(q)) == Filter(Filter(d.rows, Criteria(p)), Criteria(q))
    ensures Query(d, p).Ok? && Query(d, q).Ok? ==> Query(d, q).value.count <= Query(d, p).value.count
  {
    var cs, more := Criteria(p), Criteria(q);
    forall k | 0 <= k < |cs| ensures cs[k] in more {
      CriterionKept(p, q, cs[k]);
    }
    FilterNarrows(d.rows, cs, more);
    FilterSpec(Filter(d.rows, cs), more);
  }

  /** A filter `p` puts in force, `q` puts in force too. */
  lemma CriterionKept(p: Params, q: Params, c: Criterion)
    requires Extends(q, p) && c in Criteria(p)
    ensures c in Criteria(q)
  {
    CriteriaSpec(p);
    CriteriaSpec(q);
    match c
    case CategoryIs(v) =>
    case ModalityIs(v) =>
    case OpenIs(n) =>
    case YearFrom(y) =>
    case YearUntil(y) =>
  }
}

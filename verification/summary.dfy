/** `summary_stats` in app.py: the row count, the per-value counts of the
    category and modality columns, the share of open-source tools and of
    tools with an API, and the latest release year. Each facet degrades to
    `None` or an empty count when its column is absent. */
module Summary {
  import opened Wrappers
  import opened Table

  datatype Stats = Stats(
    total: nat,
    byCategory: seq<Entry>,
    modalities: seq<Entry>,
    openSourcePct: Option<int>,
    apisPct: Option<int>,
    latestYear: Option<int>)

  /** `int(x)` of a quotient: the quotient truncated toward zero. */
  function TruncDiv(a: int, b: nat): (q: int)
    requires b > 0
    ensures a >= 0 ==> 0 <= q * b <= a < q * b + b
    ensures a < 0 ==> q * b - b < a <= q * b <= 0
  {
    if a >= 0 then DivBounds(a, b); a / b
    else DivBounds(-a, b); -((-a) / b)
  }

  lemma DivBounds(a: nat, b: nat)
    requires b > 0
    ensures 0 <= (a / b) * b <= a < (a / b) * b + b
  {
    var q, r := a / b, a % b;
    assert a == q * b + r && 0 <= r < b;
    assert q >= 0;
    MulMono(0, q, b);
  }

  lemma {:induction false} MulMono(x: int, y: int, n: nat)
    requires x <= y
    ensures x * n <= y * n
  {
    if n > 0 {
      MulMono(x, y, n - 1);
      assert x * n == x * (n - 1) + x;
      assert y * n == y * (n - 1) + y;
    }
  }

  /** `df[c].sum()`: the integer cells added up, missing cells skipped. */
  function SumInts(cells: seq<Cell>): int
  {
    if cells == [] then 0
    else SumInts(cells[..|cells| - 1]) + (match cells[|cells| - 1] case Int(n) => n case _ => 0)
  }

  /** `df[c].max()`: the largest integer cell, or None when there is none. */
  function MaxInt(cells: seq<Cell>): Option<int>
  {
    if cells == [] then None
    else
      var m := MaxInt(cells[..|cells| - 1]);
      var c := cells[|cells| - 1];
      if !c.Int? then m
      else if m.None? || m.value < c.n then Some(c.n)
      else m
  }

  /** `value_counts().to_dict()` of column `c`, or `{}` when it is absent. */
  function FacetCounts(d: Dataset, c: string): seq<Entry>
  {
    if c in d.columns then ValueCounts(Cells(d.rows, c)) else []
  }

  /** `int(df[c].sum() / total * 100)` when the column is present and there
      are rows, else None. */
  function FacetPercent(d: Dataset, c: string): Option<int>
  {
    if c in d.columns && |d.rows| > 0 then Some(TruncDiv(SumInts(Cells(d.rows, c)) * 100, |d.rows|))
    else None
  }

  /** The latest release year, or None when the column is absent or holds no value. */
  function LatestYear(d: Dataset): Option<int>
  {
    if ReleaseYear in d.columns then MaxInt(Cells(d.rows, ReleaseYear)) else None
  }

  /** `summary_stats(df)`. */
  function SummaryStats(d: Dataset): (s: Stats)
    ensures s.total == |d.rows|
    ensures s.openSourcePct.None? <==> OpenSource !in d.columns || |d.rows| == 0
    ensures s.apisPct.None? <==> ApiAvailable !in d.columns || |d.rows| == 0
    ensures Category !in d.columns ==> s.byCategory == []
    ensures Modality !in d.columns ==> s.modalities == []
    ensures ReleaseYear !in d.columns || |d.rows| == 0 ==> s.latestYear.None?
  {
    Stats(
      |d.rows|,
      FacetCounts(d, Category),
      FacetCounts(d, Modality),
      FacetPercent(d, OpenSource),
      FacetPercent(d, ApiAvailable),
      LatestYear(d))
  }

  // ---------------------------------------------------------------------------
  // Properties

  lemma {:induction false} SumIntsBounds(cells: seq<Cell>)
    requires forall i :: 0 <= i < |cells| ==> cells[i] == Int(0) || cells[i] == Int(1)
    ensures 0 <= SumInts(cells) <= |cells|
  {
    if cells != [] {
      SumIntsBounds(cells[..|cells| - 1]);
    }
  }

  lemma {:induction false} MaxIntSpec(cells: seq<Cell>)
    ensures MaxInt(cells).None? <==> forall i :: 0 <= i < |cells| ==> !cells[i].Int?
    ensures MaxInt(cells).Some? ==>
      (forall i :: 0 <= i < |cells| && cells[i].Int? ==> cells[i].n <= MaxInt(cells).value) &&
      (exists i :: 0 <= i < |cells| && cells[i] == Int(MaxInt(cells).value))
  {
    if cells != [] {
      var init := cells[..|cells| - 1];
      MaxIntSpec(init);
      assert forall i :: 0 <= i < |init| ==> cells[i] == init[i];
      var m := MaxInt(cells);
      if m.Some? && MaxInt(init).Some? && m == MaxInt(init) {
        var j :| 0 <= j < |init| && init[j] == Int(m.value);
        assert cells[j] == Int(m.value);
      }
    }
  }

  /** The percentages lie in 0..100 whenever every flag is 0 or 1, and are
      then the floor of the flag sum times 100 over the row count. */
  lemma PercentInRange(d: Dataset, c: string)
    requires forall i :: 0 <= i < |d.rows| ==> CellOf(d.rows[i], c) == Int(0) || CellOf(d.rows[i], c) == Int(1)
    ensures FacetPercent(d, c).Some? ==> 0 <= FacetPercent(d, c).value <= 100
    ensures FacetPercent(d, c).Some? ==>
      FacetPercent(d, c).value == SumInts(Cells(d.rows, c)) * 100 / |d.rows|
  {
    var cells := Cells(d.rows, c);
    SumIntsBounds(cells);
    if FacetPercent(d, c).Some? {
      var n := |d.rows|;
      var s := SumInts(cells);
      var q := FacetPercent(d, c).value;
      assert q * n <= s * 100 <= n * 100;
      if q > 100 {
        MulMono(101, q, n);
      }
    }
  }

  /** On a loaded table the latest year is None exactly when the year column
      is absent or there are no rows; otherwise it is the largest year of any
      row, and 0 when every year was unknown. */
  lemma LatestYearSpec(d: Dataset)
    requires Normalised(d)
    ensures LatestYear(d).None? <==> ReleaseYear !in d.columns || |d.rows| == 0
    ensures LatestYear(d).Some? ==>
      (forall i :: 0 <= i < |d.rows| ==> CellOf(d.rows[i], ReleaseYear).n <= LatestYear(d).value) &&
      (exists i :: 0 <= i < |d.rows| && CellOf(d.rows[i], ReleaseYear).n == LatestYear(d).value)
    ensures LatestYear(d).Some? && (forall i :: 0 <= i < |d.rows| ==> CellOf(d.rows[i], ReleaseYear) == Int(0)) ==>
      LatestYear(d) == Some(0)
  {
    if ReleaseYear in d.columns {
      var cells := Cells(d.rows, ReleaseYear);
      MaxIntSpec(cells);
      assert forall i :: 0 <= i < |d.rows| ==> cells[i] == CellOf(d.rows[i], ReleaseYear) && cells[i].Int?;
      if |d.rows| > 0 {
        assert cells[0].Int?;
      }
    }
  }

  /** Each per-value count is the number of rows holding that value (so at
      least 1), every value present in the column is counted exactly once,
      missing cells are not counted, and the counts add up to at most the row
      count. An absent column gives no counts. */
  lemma FacetCountsSpec(d: Dataset, c: string)
    ensures c !in d.columns ==> FacetCounts(d, c) == []
    ensures Distinct(FacetCounts(d, c))
    ensures forall i :: 0 <= i < |FacetCounts(d, c)| ==>
      FacetCounts(d, c)[i].value != Null &&
      FacetCounts(d, c)[i].count == Count(Cells(d.rows, c), FacetCounts(d, c)[i].value) >= 1
    ensures c in d.columns ==> forall i :: 0 <= i < |d.rows| && CellOf(d.rows[i], c) != Null ==>
      CellOf(d.rows[i], c) in Values(FacetCounts(d, c))
    ensures Total(FacetCounts(d, c)) <= |d.rows|
  {
    if c in d.columns {
      var cells := Cells(d.rows, c);
      ValueCountsSpec(cells);
      forall i | 0 <= i < |FacetCounts(d, c)|
        ensures FacetCounts(d, c)[i].count == Count(cells, FacetCounts(d, c)[i].value) >= 1
      {
        ValueCountsEntry(cells, i);
      }
      forall i | 0 <= i < |d.rows| && CellOf(d.rows[i], c) != Null
        ensures CellOf(d.rows[i], c) in Values(FacetCounts(d, c))
      {
        assert cells[i] == CellOf(d.rows[i], c);
        assert cells[i] in cells;
      }
    }
  }

  /** Worked example: categories Chat, Chat, Image are counted as Chat 2, Image 1. */
  lemma CategoryCountsExample()
    ensures var d := Dataset({Category}, [map[Category := Str("Chat")], map[Category := Str("Chat")], map[Category := Str("Image")]]);
      SummaryStats(d).byCategory == [Entry(Str("Chat"), 2), Entry(Str("Image"), 1)]
  {
    var d := Dataset({Category}, [map[Category := Str("Chat")], map[Category := Str("Chat")], map[Category := Str("Image")]]);
    var cells := Cells(d.rows, Category);
    assert cells == [Str("Chat"), Str("Chat"), Str("Image")];
    assert cells[..2] == [Str("Chat"), Str("Chat")];
    assert cells[..2][..1] == [Str("Chat")];
    assert [Str("Chat")][..0] == [];
    assert ValueCounts([Str("Chat")]) == [Entry(Str("Chat"), 1)];
    assert ValueCounts(cells[..2]) == [Entry(Str("Chat"), 2)];
    assert Str("Chat") != Str("Image");
    assert Bump([Entry(Str("Chat"), 2)], Str("Image")) == [Entry(Str("Chat"), 2)] + Bump([], Str("Image"));
  }

  /** Worked example: open-source flags 1, 0, 0 give 33 percent. */
  lemma OpenSourceExample()
    ensures var d := Dataset({OpenSource}, [map[OpenSource := Int(1)], map[OpenSource := Int(0)], map[OpenSource := Int(0)]]);
      SummaryStats(d).openSourcePct == Some(33)
  {
    var d := Dataset({OpenSource}, [map[OpenSource := Int(1)], map[OpenSource := Int(0)], map[OpenSource := Int(0)]]);
    var cells := Cells(d.rows, OpenSource);
    assert cells == [Int(1), Int(0), Int(0)];
    assert cells[..2] == [Int(1), Int(0)];
    assert cells[..2][..1] == [Int(1)];
    assert [Int(1)][..0] == [];
    assert SumInts([Int(1)]) == 1;
    assert SumInts(cells[..2]) == 1;
    assert SumInts(cells) == 1;
    assert FacetPercent(d, OpenSource) == Some(TruncDiv(100, 3));
  }
}

/** `find_white_space` in app.py: keyword flags over the text columns, the
    categories with few tools, and a choice between two fixed
    recommendations. */
module WhiteSpace {
  import opened Text
  import opened Table
  import opened Summary

  /** The free-text columns searched for keywords, in the order joined. */
  const TextColumns: seq<string> := ["company", "tool_name", "website", "source_domain"]

  const BuildMessage: string :=
    "Build AI tools for Bitcoin DeFi: AMM modeling, on-chain risk engine, Clarity contract interpreter, governance copilot"
  const PresenceMessage: string :=
    "There is some DeFi/Bitcoin presence; focus on deep integration and risk engines."

  datatype Gaps = Gaps(
    hasDefi: bool,
    hasBitcoin: bool,
    lowCountCategories: seq<Cell>,
    recommendation: string)

  /** The names of `names` that are columns of `cols`. */
  function Present(names: seq<string>, cols: set<string>): (r: seq<string>)
    ensures forall c :: c in r <==> c in names && c in cols
  {
    if names == [] then []
    else (if names[0] in cols then [names[0]] else []) + Present(names[1..], cols)
  }

  /** `astype(str)` of a cell: its text, the decimal form of an integer, and
      "nan" for a missing cell. */
  function CellText(c: Cell): string
  {
    match c
    case Str(s) => s
    case Int(n) => IntToString(n)
    case Null => "nan"
  }

  /** The lower-cased cell of column `col` contains `kw`. */
  predicate CellMentions(r: Row, col: string, kw: string)
  {
    Contains(Lower(CellText(CellOf(r, col))), kw)
  }

  /** `df[col].astype(str).str.lower().str.cat(sep=" ")`. */
  function ColumnText(d: Dataset, col: string): string
  {
    Join(" ", seq(|d.rows|, i requires 0 <= i < |d.rows| => Lower(CellText(CellOf(d.rows[i], col)))))
  }

  /** The space-joined text of the columns `cols`. */
  function JoinedText(d: Dataset, cols: seq<string>): string
  {
    if cols == [] then ""
    else Join(" ", seq(|cols|, k requires 0 <= k < |cols| => ColumnText(d, cols[k])))
  }

  /** The space-joined text of every present text column. */
  function TextBlob(d: Dataset): string
  {
    JoinedText(d, Present(TextColumns, d.columns))
  }

  /** `[k for k, v in categories.items() if v <= 2]`. */
  function LowCounts(t: seq<Entry>): seq<Cell>
  {
    if t == [] then []
    else (if t[0].count <= 2 then [t[0].value] else []) + LowCounts(t[1..])
  }

  /** `find_white_space(df)`. */
  function FindWhiteSpace(d: Dataset): (g: Gaps)
    ensures g.recommendation == BuildMessage <==> !g.hasDefi && !g.hasBitcoin
    ensures g.recommendation == PresenceMessage <==> g.hasDefi || g.hasBitcoin
  {
    var blob := TextBlob(d);
    var hasDefi := Contains(blob, "defi");
    var hasBitcoin := Contains(blob, "bitcoin") || Contains(blob, "sbtc") || Contains(blob, "stacks");
    assert |BuildMessage| != |PresenceMessage|;
    Gaps(
      hasDefi,
      hasBitcoin,
      LowCounts(FacetCounts(d, Category)),
      if !(hasDefi || hasBitcoin) then BuildMessage else PresenceMessage)
  }

  // ---------------------------------------------------------------------------
  // Properties

  /** Some row's lower-cased cell of column `col` contains `kw`. */
  predicate AnyCellMentions(d: Dataset, col: string, kw: string)
  {
    exists i | 0 <= i < |d.rows| :: CellMentions(d.rows[i], col, kw)
  }

  /** A space-free keyword occurs in the joined text of one column exactly
      when it occurs in one of that column's lower-cased cells. */
  lemma ColumnMentions(d: Dataset, col: string, kw: string)
    requires |kw| > 0 && ' ' !in kw
    ensures Contains(ColumnText(d, col), kw) <==> AnyCellMentions(d, col, kw)
  {
    var texts := seq(|d.rows|, i requires 0 <= i < |d.rows| => Lower(CellText(CellOf(d.rows[i], col))));
    ContainsInJoin(texts, kw);
    assert forall i :: 0 <= i < |d.rows| ==> texts[i] == Lower(CellText(CellOf(d.rows[i], col)));
  }

  /** A space-free keyword occurs in the joined text of several columns
      exactly when it occurs in a lower-cased cell of one of them. */
  lemma JoinedMentions(d: Dataset, cols: seq<string>, kw: string)
    requires |kw| > 0 && ' ' !in kw
    ensures Contains(JoinedText(d, cols), kw) <==> exists col | col in cols :: AnyCellMentions(d, col, kw)
  {
    var parts := seq(|cols|, k requires 0 <= k < |cols| => ColumnText(d, cols[k]));
    ContainsInJoin(parts, kw);
    if cols == [] {
      assert !OccursAt("", kw, 0);
    }
    forall k | 0 <= k < |cols|
      ensures Contains(parts[k], kw) <==> AnyCellMentions(d, cols[k], kw)
    {
      ColumnMentions(d, cols[k], kw);
    }
    if exists col | col in cols :: AnyCellMentions(d, col, kw) {
      var col :| col in cols && AnyCellMentions(d, col, kw);
      var k :| 0 <= k < |cols| && cols[k] == col;
      assert Contains(parts[k], kw);
    }
  }

  /** A space-free keyword occurs in the text blob exactly when it occurs in
      a single lower-cased cell of a present text column. */
  lemma BlobMentions(d: Dataset, kw: string)
    requires |kw| > 0 && ' ' !in kw
    ensures Contains(TextBlob(d), kw) <==>
      exists col | col in TextColumns && col in d.columns :: AnyCellMentions(d, col, kw)
  {
    var cols := Present(TextColumns, d.columns);
    JoinedMentions(d, cols, kw);
  }

  /** `has_defi` holds exactly when some present text cell mentions "defi",
      ignoring case. */
  lemma HasDefiSpec(d: Dataset)
    ensures FindWhiteSpace(d).hasDefi <==>
      exists col | col in TextColumns && col in d.columns :: AnyCellMentions(d, col, "defi")
  {
    BlobMentions(d, "defi");
  }

  /** `has_bitcoin` holds exactly when some present text cell mentions
      "bitcoin", "sbtc" or "stacks", ignoring case. */
  lemma HasBitcoinSpec(d: Dataset)
    ensures FindWhiteSpace(d).hasBitcoin <==>
      exists col | col in TextColumns && col in d.columns ::
        AnyCellMentions(d, col, "bitcoin") || AnyCellMentions(d, col, "sbtc") || AnyCellMentions(d, col, "stacks")
  {
    BlobMentions(d, "bitcoin");
    BlobMentions(d, "sbtc");
    BlobMentions(d, "stacks");
  }

  /** With no text column present neither flag is raised, and the build
      recommendation is chosen. */
  lemma NoTextColumns(d: Dataset)
    requires forall col :: col in TextColumns ==> col !in d.columns
    ensures !FindWhiteSpace(d).hasDefi && !FindWhiteSpace(d).hasBitcoin
    ensures FindWhiteSpace(d).recommendation == BuildMessage
  {
    HasDefiSpec(d);
    HasBitcoinSpec(d);
  }

  lemma {:induction false} LowCountsMembers(t: seq<Entry>)
    ensures forall v :: v in LowCounts(t) <==> exists i :: 0 <= i < |t| && t[i].value == v && t[i].count <= 2
  {
    if t != [] {
      LowCountsMembers(t[1..]);
      forall v ensures v in LowCounts(t) <==> exists i :: 0 <= i < |t| && t[i].value == v && t[i].count <= 2 {
        if exists i :: 0 <= i < |t| && t[i].value == v && t[i].count <= 2 {
          var i :| 0 <= i < |t| && t[i].value == v && t[i].count <= 2;
          if i > 0 {
            assert t[1..][i - 1] == t[i];
          }
        }
        if v in LowCounts(t[1..]) {
          var i :| 0 <= i < |t[1..]| && t[1..][i].value == v && t[1..][i].count <= 2;
          assert t[i + 1] == t[1..][i];
        }
      }
    }
  }

  lemma {:induction false} LowCountsDistinct(t: seq<Entry>)
    requires Distinct(t)
    ensures forall i, j :: 0 <= i < j < |LowCounts(t)| ==> LowCounts(t)[i] != LowCounts(t)[j]
  {
    if t != [] {
      assert Distinct(t[1..]);
      LowCountsDistinct(t[1..]);
      LowCountsMembers(t[1..]);
      if t[0].count <= 2 {
        var rest := LowCounts(t[1..]);
        assert LowCounts(t) == [t[0].value] + rest;
        forall j | 0 <= j < |rest| ensures rest[j] != t[0].value {
          assert rest[j] in rest;
          var k :| 0 <= k < |t[1..]| && t[1..][k].value == rest[j] && t[1..][k].count <= 2;
          assert t[k + 1] == t[1..][k];
        }
      }
    }
  }

  /** `low_count_categories` lists exactly the categories held by one or two
      rows, each once; with no category column it is empty. */
  lemma LowCountSpec(d: Dataset)
    ensures forall v :: v in FindWhiteSpace(d).lowCountCategories <==>
      Category in d.columns && v != Null && 1 <= Count(Cells(d.rows, Category), v) <= 2
    ensures var low := FindWhiteSpace(d).lowCountCategories;
      forall i, j :: 0 <= i < j < |low| ==> low[i] != low[j]
  {
    var t := FacetCounts(d, Category);
    var cells := Cells(d.rows, Category);
    LowCountsMembers(t);
    FacetCountsSpec(d, Category);
    LowCountsDistinct(t);
    if Category in d.columns {
      ValueCountsSpec(cells);
      forall v | v != Null && 1 <= Count(cells, v) <= 2
        ensures v in LowCounts(t)
      {
        CountBounds(cells, v);
        assert v in Values(t);
        var e :| e in t && e.value == v;
        var i :| 0 <= i < |t| && t[i] == e;
        assert t[i].count == Count(cells, v);
      }
    }
  }

  /** An occurrence of `needle` needs each of its characters in `s`. */
  lemma ContainsChar(s: string, needle: string, ch: char)
    requires Contains(s, needle) && ch in needle
    ensures ch in s
  {
    var i :| 0 <= i <= |s| - |needle| && OccursAt(s, needle, i);
    var k :| 0 <= k < |needle| && needle[k] == ch;
    assert s[i + k] == s[i..i + |needle|][k];
  }

  lemma StacksText(s: string)
    requires s == "Stacks Chat Tool"
    ensures OccursAt(Lower(s), "stacks", 0)
    ensures 'f' !in Lower(s)
  {
    var t := Lower(s);
    assert forall i :: 0 <= i < |s| ==> s[i] != 'f' && s[i] != 'F';
    assert forall i :: 0 <= i < |t| ==> t[i] != 'f';
    assert t[0] == 's' && t[1] == 't' && t[2] == 'a' && t[3] == 'c' && t[4] == 'k' && t[5] == 's';
    assert t[0..6] == "stacks";
  }

  /** Worked example: a single tool named "Stacks Chat Tool" counts as a
      Bitcoin presence but not a DeFi one, so the presence message is chosen. */
  lemma StacksExample(name: string, d: Dataset)
    requires name == "Stacks Chat Tool"
    requires d == Dataset({"tool_name"}, [map["tool_name" := Str(name)]])
    ensures FindWhiteSpace(d).hasBitcoin && !FindWhiteSpace(d).hasDefi
    ensures FindWhiteSpace(d).recommendation == PresenceMessage
  {
    StacksText(name);
    assert CellOf(d.rows[0], "tool_name") == Str(name);
    assert AnyCellMentions(d, "tool_name", "stacks") by {
      assert CellMentions(d.rows[0], "tool_name", "stacks");
    }
    assert !AnyCellMentions(d, "tool_name", "defi") by {
      if CellMentions(d.rows[0], "tool_name", "defi") {
        ContainsChar(Lower(name), "defi", 'f');
      }
    }
    HasBitcoinSpec(d);
    HasDefiSpec(d);
  }

  /** Worked example: categories Chat, Chat, Image leave both among the
      low-count categories, since a count of two is still low. */
  lemma LowCountExample()
    ensures var d := Dataset({Category}, [map[Category := Str("Chat")], map[Category := Str("Chat")], map[Category := Str("Image")]]);
      var low := FindWhiteSpace(d).lowCountCategories;
      Str("Chat") in low && Str("Image") in low && |low| == 2
  {
    var d := Dataset({Category}, [map[Category := Str("Chat")], map[Category := Str("Chat")], map[Category := Str("Image")]]);
    CategoryCountsExample();
    var t := [Entry(Str("Chat"), 2), Entry(Str("Image"), 1)];
    assert FacetCounts(d, Category) == SummaryStats(d).byCategory == t;
    assert t[1..][1..] == [];
    assert LowCounts(t) == [Str("Chat"), Str("Image")];
  }
}

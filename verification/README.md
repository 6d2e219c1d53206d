# Generative-AI tools dashboard: analytics core

A model of the analytics behind a small dashboard backend. The backend loads
a table of generative-AI tools and platforms once at start-up and answers
three kinds of query over it:

- summary statistics;
- a "white-space" heuristic that looks for DeFi/Bitcoin tools and thinly
  populated categories;
- a filtered record listing.

The page also carries a prototype "copilot" that answers a prompt with one
of four fixed texts. The model is written in Dafny and covers:

- **Loading** (`Loader`). A raw table, meaning the header cells and the
  text cells of each data row, becomes a `Table.Dataset`:
  - column names are stripped of whitespace;
  - `release_year` is coerced to an integer, with 0 for anything non-numeric,
    and a cell that is exactly a spelling of infinity fails the load
    (`astype(int)` cannot cast it);
  - `open_source` and `api_available` are coerced with `int(...)`, and a
    blank cell becomes 0.

  `LoadDataset` rewrites the rows column by column, as the source rewrites
  its frame. A load that fails (a row wider than the header, an infinite
  year, or a flag cell that is not an integer) leaves the process with the
  empty table (`Startup`).
- **Summary statistics** (`Summary`). These are:
  - the row count;
  - per-value counts of the category and modality columns (`value_counts`,
    modelled in `Table`);
  - the integer percentage of open-source tools and of tools with an API;
  - the latest release year.

  Each facet is `None` or empty when its column is absent.
- **White space** (`WhiteSpace`). The keywords are searched for in a
  lower-cased, space-joined blob of up to four text columns. Categories with
  at most two tools are selected, and one of two recommendation texts is
  chosen.
- **Record listing** (`Tools`). The `/api/tools` handler works like this:
  - optional category, modality, open-source and year-range filters narrow
    a copy of the table one after another;
  - the answer is the number of matches and the first 500 of them;
  - a filter on an absent column is an error.
- **Copilot** (`Copilot`). The page trims the prompt and ignores an empty
  one. The rest is lower-cased and answered by the first matching rule of
  an ordered keyword chain.

`Text` holds the string machinery these share:
- ASCII lower-casing;
- stripping under Python's and JavaScript's whitespace sets, and under
  `AsciiWhitespace`, the set pandas' number parser skips around a year;
- substring search and joining;
- decimal integer parsing and printing.

`Wrappers` holds `Option` and `Result`.

## Model

| member | source | states |
|---|---|---|
| Loader.LoadDataset | app.py:13-24 | The load fails exactly when some data row is wider than the header, some year is exactly a spelling of infinity (any letter case, nothing around it), or some cell of a present flag column cannot be read by `int(...)`. The error is the first of these in processing order: the first too-wide row; else the first infinite year; else the first unreadable cell of `open_source`, then of `api_available`. Otherwise the result has the trimmed column names, one row per data row in order, and every cell in its normalised form. |
| Loader.Startup | app.py:26-31 | With no file, or a file whose load fails, the table is empty (no columns, no rows); otherwise it is the loaded table. |
| Loader.FirstWideRow | app.py:14 | No row is reported exactly when no data row is wider than the header. A reported row is the first one that is too wide. |
| Loader.CoerceColumn | app.py:18-23 | Rewriting the year column or a flag column fails exactly when some cell cannot be coerced, and then reports the first such row. Otherwise every row's cell of that column is replaced by its coerced value, and nothing else changes. |
| Loader.CoerceYear | app.py:19 | Text spelling an integer, with only ASCII whitespace around it, becomes that integer. Text that is exactly a spelling of infinity, in any letter case, cannot be cast, and exactly such text fails. Any other text becomes 0, including an infinity with whitespace around it and an integer after non-ASCII whitespace. A missing cell becomes 0. An integer stays as it is. |
| Loader.CoerceFlag | app.py:23 | Text that is blank after stripping gives 0. Other text gives the integer it spells, or fails. A missing cell fails, because `str(NaN)` is "nan". |
| Loader.YearCoercion | app.py:19 | The decimal form of any integer reads back as that integer. Text that is exactly a spelling of infinity cannot be read. Other text that is not integer text to the number parser reads as 0. |
| Loader.PaddedInfinityYear | app.py:19 | " inf" is not an infinity to the number parser, so the year becomes 0 and the load goes on. |
| Loader.NoBreakSpaceYear | app.py:19 | "2023" after a no-break space is not a number to the number parser, which skips ASCII whitespace only, so the year becomes 0. |
| Loader.InfiniteYearFailsLoad | app.py:19 | A table whose only year reads "Infinity" fails to load. |
| Loader.FlagCoercion | app.py:23 | The decimal form of any integer reads back as that integer flag. |
| Loader.LoadedIsNormalised | app.py:18-23 | A loaded table is well formed (every row has exactly the table's columns), and its year and flag cells are all integers. |
| Loader.LoadedUnique | app.py:13-24 | A raw table determines its loaded table uniquely. |
| Loader.LoadedColumnsTrimmed | app.py:16 | Every header name, stripped, is a column. No column begins or ends with whitespace. |
| Text.Lower | app.py:62 | Lower-casing keeps the length and lower-cases each character in place. |
| Text.LowerIdempotent | main.js:142 | Lower-casing a lower-cased string changes nothing. |
| Text.Trim | app.py:16 | The stripped string is a slice of the input with only whitespace outside it, and it neither begins nor ends with whitespace. |
| Text.TrimEmptyIff | app.py:23 | A string strips to the empty string exactly when it is all whitespace. |
| Text.TrimPadded | main.js:124 | Stripping a string padded with whitespace on both sides gives back the unpadded string. |
| Text.ContainsAcrossSpace | app.py:62-64 | A keyword without a space occurs in `a + " " + b` exactly when it occurs in `a` or in `b`. |
| Text.ContainsInJoin | app.py:62 | A keyword without a space occurs in the space-joined parts exactly when it occurs in one part. |
| Text.ParseIntRoundTrip | app.py:19-23 | Parsing the decimal form of an integer gives that integer, under `int`'s whitespace set and under the number parser's. |
| Text.InfinityNotInteger | app.py:19 | No spelling of infinity is integer text to the number parser. |
| Table.ValueCountsSpec | app.py:36 | `value_counts` records each non-missing value exactly once, with its exact number of occurrences, and nothing else. Its counts add up to the number of non-missing cells. |
| Table.ValueCountsEntry | app.py:36-37 | Each recorded count is the number of occurrences of its value in the column, and is at least 1. |
| Table.ValueCountsTotal | app.py:36-37 | The recorded counts add up to at most the number of rows. |
| Summary.SummaryStats | app.py:34-52 | `total` is the row count. Each percentage is None exactly when its column is absent or there are no rows. An absent category or modality column gives no counts. An absent year column, or no rows, gives no latest year. |
| Summary.TruncDiv | app.py:40 | `int()` of a quotient truncates toward zero: the result times the divisor is within one divisor of the dividend, on the dividend's side of zero. |
| Summary.PercentInRange | app.py:38-43 | When every flag is 0 or 1, a percentage lies in 0..100 and equals floor(sum·100/total). |
| Summary.LatestYearSpec | app.py:44 | On a loaded table, `latest_year` is None exactly when the year column is absent or there are no rows. Otherwise it is the largest year of any row, attained by some row, and it is 0 when every year was unknown. |
| Summary.FacetCountsSpec | app.py:36-37 | Per-value counts: an absent column gives none. No value is repeated. Each count is the number of rows holding that non-missing value, and is at least 1. Every value present is counted. The counts sum to at most `total`. |
| Summary.MaxIntSpec | app.py:44 | The maximum of a column is None exactly when it holds no integer. Otherwise it bounds every integer cell and is attained by one. |
| Summary.SumIntsBounds | app.py:40 | The sum of a 0/1 column lies between 0 and its length. |
| Summary.CategoryCountsExample | app.py:36 | Categories Chat, Chat, Image are counted as Chat 2, Image 1. |
| Summary.OpenSourceExample | app.py:38-40 | Open-source flags 1, 0, 0 give 33 percent. |
| WhiteSpace.Present | app.py:58-61 | The text columns searched are exactly the four named ones that are present. |
| WhiteSpace.FindWhiteSpace | app.py:54-75 | The Bitcoin-DeFi build message is chosen exactly when neither flag holds, and the presence message exactly when either holds. |
| WhiteSpace.ColumnMentions | app.py:62 | A keyword without a space occurs in a column's joined text exactly when it occurs in one of its lower-cased cells. |
| WhiteSpace.JoinedMentions | app.py:62 | A keyword without a space occurs in the joined text of several columns exactly when some cell of one of them contains it. |
| WhiteSpace.BlobMentions | app.py:58-63 | A keyword without a space occurs in the text blob exactly when some cell of a present text column, lower-cased, contains it. |
| WhiteSpace.HasDefiSpec | app.py:63 | `has_defi` holds exactly when some cell of a present text column, lower-cased, contains "defi". |
| WhiteSpace.HasBitcoinSpec | app.py:64 | `has_bitcoin` holds exactly when some cell of a present text column, lower-cased, contains "bitcoin", "sbtc" or "stacks". |
| WhiteSpace.NoTextColumns | app.py:62-73 | With no text column present, neither flag is raised and the build message is chosen. |
| WhiteSpace.LowCountsMembers | app.py:66 | A value is selected exactly when it has an entry with count at most 2. |
| WhiteSpace.LowCountsDistinct | app.py:66 | Selection from entries without repeats yields no repeats. |
| WhiteSpace.LowCountSpec | app.py:56-66 | `low_count_categories` holds exactly the non-missing categories held by one or two rows, each once; an absent category column gives none. |
| WhiteSpace.StacksExample | app.py:64-73 | A single tool named "Stacks Chat Tool" raises `has_bitcoin` but not `has_defi`, and selects the presence message. |
| WhiteSpace.LowCountExample | app.py:66 | With categories Chat, Chat, Image, both Chat (count 2) and Image are selected. |
| Tools.ApiTools | app.py:120-138 | The handler, narrowing its copy filter by filter, answers exactly `Query`. That is: the first filter in force whose column is absent gives an error. Otherwise it gives the number of rows passing every filter, and the first min(500, count) of them. |
| Tools.NarrowAll | app.py:120-135 | Running the filters in order over a copy of the table fails exactly when some filter's column is absent, and then names the first such column. Otherwise it leaves exactly the rows passing every filter. |
| Tools.Narrow | app.py:126-135 | One filter step fails exactly when the filter's column is absent. Otherwise the rows kept so far are filtered by all the filters applied so far plus this one. |
| Tools.Select | app.py:126-127 | A mask keeps exactly the rows passing the filter, in order. |
| Tools.CriteriaSpec | app.py:126-135 | The filters in force are a category or modality filter for each non-empty value, an open-source filter only for "1" or "0", and year bounds only when present and non-zero, so 0 means no bound. |
| Tools.FilterSpec | app.py:126-135 | A row is kept exactly when it is a row of the table passing every filter, and no more rows are kept than given. |
| Tools.FilterAppend | app.py:126-135 | Filtering distributes over concatenation, so matches keep the table's order. |
| Tools.FilterThen | app.py:126-135 | Filtering the filtered rows by one more filter equals filtering by all of them at once. |
| Tools.FirstMissingSpec | app.py:127 | No missing column is reported exactly when every filter's column is present. A reported one is absent and is read by some filter. |
| Tools.QuerySpec | app.py:120-138 | An error occurs exactly when a filter in force reads an absent column, and names such a column. Otherwise `count` is the number of matches (at most the table's rows), `rows` is the first min(500, count) matches in table order, and each returned row is a table row passing every filter. |
| Tools.NoParamsQuery | app.py:120-138 | With no parameters, `count` is the table's row count and `rows` its first 500 rows. |
| Tools.FilterNarrows | app.py:126-135 | Filtering by some filters and then by a superset of them equals filtering by the superset. |
| Tools.MoreFiltersNarrow | app.py:126-135 | A query supplying the same filters and more gets the earlier matches filtered further, so its count is no larger. |
| Copilot.CannedCopilot | main.js:141-153 | The answer is always one of the four fixed texts. |
| Copilot.Send | main.js:123-138 | A prompt that is all whitespace is ignored. Any other prompt is answered after stripping, so the copilot never sees an empty prompt. |
| Copilot.AnswersDistinct | main.js:143-152 | The four answers are different texts. |
| Copilot.RulePriority | main.js:143-152 | The impermanent-loss answer comes exactly when its rule matches the lower-cased prompt. Staking comes exactly when that rule fails and the staking rule matches. Build comes exactly when both fail and the build rule matches. The prototype message comes exactly when none matches. |
| Copilot.CaseInsensitive | main.js:142 | Lower-casing the prompt first never changes the answer. |
| Copilot.ImpermanentLossRedundant | main.js:143 | Every prompt the "impermanent loss" test matches is already matched by the "impermanent" test, so the first rule is "impermanent" or "il". |
| Copilot.IlInsideWord | main.js:143-148 | "Will staking pay?" mentions staking, yet gets the impermanent-loss answer, because "il" occurs inside "will". |
| Copilot.SendIgnoresPadding | main.js:124-125 | A prompt padded with whitespace gets the same answer as the bare prompt. |

### Behaviour worth knowing

- **Low-count categories.** A category with exactly two tools counts as low, because the test is `<= 2`. `WhiteSpace.LowCountExample` shows this for "Chat".
- **Latest year when every year is unknown.** An unknown year becomes 0 at load time, so `latest_year` is 0, not None (`Summary.LatestYearSpec`).
- **Flag values.** A flag cell that `int(...)` rejects fails the whole load, and the table is then empty. Flag values other than 0/1 are kept as written, and so are negative years.
- **Infinite years.** A year that is exactly a spelling of infinity ("inf", "-Infinity" and so on) also fails the whole load, because `astype(int)` cannot cast it. The same text with whitespace around it is not a number at all, so it becomes 0.
- **Missing filter columns.** A filter on an absent column raises KeyError. This is modelled as `Tools.QueryError`.

## Left out

- HTTP routing, JSON serialisation, templates, the port and environment configuration, and the whitepaper download. These are I/O around the core. The filter parameters arrive already parsed as `Tools.Params`.
- `build_recommendations` (app.py:77-101). It returns static data with nothing to compute.
- All of main.js except `cannedCopilot` and the trimming in its two send handlers: fetch, the DOM, charts and the modal.
- CSV tokenising. The model starts from header and row cells as text.
  - A blank field stays blank text. pandas would read it as a missing value, which for a flag column makes `int(NaN)` raise ValueError. A blank category or modality cell is counted here as the value "" in `by_category` and `modalities`, and it is listed in `low_count_categories` when one or two rows hold it. pandas counts it nowhere.
  - A row shorter than the header reads as missing cells.
  - A row wider than the header fails the load. pandas decides this from the first data row instead: when that row is wider than the header, its extra leading fields become index columns. A later row wider than the first data row is still an error.
  - pandas' default missing-value markers ("NA", "N/A", "null", "None", "nan" and others) are read as missing values. The model keeps them as text, so a category "N/A" is counted by `value_counts` and matched by a filter, where the source neither counts nor matches it.
  - Column types inferred by the tokenizer are not modelled. A flag column of True/False is read as booleans and `int(True)` is 1, so the source loads it; Loader.CoerceFlag rejects that text. A flag column holding "1.0"/"0.0" is read as floats and `int(1.0)` is 1, so the source loads it; Loader.CoerceFlag rejects that text too.
- Loader.CoerceYear: only integer text (optional sign, decimal digits, ASCII whitespace around them) is read as a year, and text that is exactly a spelling of infinity fails. `pd.to_numeric` also accepts decimal and exponent forms such as "2023.5", which `astype(int)` truncates to 2023. The model reads them as 0.
- Loader.CoerceYear, and with it Loader.YearCoercion: integers are unbounded here. In pandas, `astype(int)` casts to int64. Year text from 2^63 upward is inferred as uint64 and wraps when cast. Text beyond the uint64 range goes through float64, and the cast gives an unspecified value. A year column that also holds a missing value is float64, so a year above 2^53 loses precision before the cast. The model reads every such year as the exact integer it spells.
- Summary.SumInts: the sum is exact. The source's `df[c].sum()` adds in int64 and wraps past 2^63.
- Loader.CoerceFlag: Python's `int` also accepts underscores between digits and non-ASCII decimal digits. Neither is modelled.
- Text.ParseInt: ASCII decimal digits only. Python's `int` also accepts other Unicode decimal digits.
- Duplicate header names after stripping. The first column of that name is read. pandas would keep both columns.
- Columns whose cells mix text and numbers. Every raw cell is text, and after loading only the year and flag columns hold integers.
- Table.ValueCounts: keys are kept in order of first appearance. pandas orders them by decreasing count, and no order is claimed for `by_category`, `modalities` or `low_count_categories`.
- Summary.FacetPercent: computed as exact integer truncation of sum·100/total. The source divides in floating point, which can truncate one lower for some totals.
- Text.Lower: lower-cases ASCII letters only. Python's and JavaScript's Unicode case mapping is not modelled.
- The error pandas raises when a category or modality column holds no text at all (the `.str` accessor) is not modelled. Non-text cells simply do not match.
- The failure message printed when loading fails is not modelled.

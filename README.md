# Stock ticker reference list and drop-down options

A Dafny model of the two pieces of symbol-list logic in the stock-ticker
dashboard scripts:

- `stock_tickers.dfy`, module `StockTickers` (get_stock_tickers.py): the
  distinct union of the DOW, NASDAQ, S&P 500 and "other" listings; spelling
  consolidation of those symbols against the reference table (first `$` to
  `-`, then `-` to `.`, each respelling taken exactly when the reference table
  knows it), returning the symbols still missing; and appending one
  placeholder row per missing symbol, dated today in `YYYY-MM-DD` form.
  These are pure list operations and are modelled as functions with lemmas.
- `ticker_options.dfy`, module `TickerOptions` (ticker_options.py): the loop
  that turns the rows of the stored reference table into `{label, value}`
  drop-down options. The label is the display name, the display name followed
  by `" [CRYPTO]"` for a crypto-currency, or the symbol when the name is
  missing; a row whose label is `nan` is skipped. The loop is modelled as a
  method with a `for` loop and `continue`, proved equal to the specification
  function `OptionsOf`.

The reference table is represented by the set of its symbols (for the
consolidation) and by a sequence of `TickerRecord(symbol, name, date,
assetType)` rows (for appending and for the drop-down). A missing cell is the
text `"nan"`, which is how the scripts print a missing value. The current
date is a parameter.

## Model

| member | source | states |
|---|---|---|
| `StockTickers.Distinct` | get_stock_tickers.py:22 | the result has no duplicates and holds exactly the symbols of the input |
| `StockTickers.NoDuplicatesCardinality` | get_stock_tickers.py:22-23 | a duplicate-free list has as many entries as it has distinct symbols |
| `StockTickers.DistinctCardinality` | get_stock_tickers.py:22-23 | the length of the de-duplicated list is the number of distinct input symbols |
| `StockTickers.GetTickers` | get_stock_tickers.py:17-29 | the consolidated list is duplicate-free, holds exactly the symbols of at least one of the four listings, and its reported length is the number of distinct symbols |
| `StockTickers.Replace` | get_stock_tickers.py:56-57 | every occurrence of the character is replaced and nothing else changes; a string without it is unchanged; none remains afterwards |
| `StockTickers.ReplaceLeavesPlainSymbol` | get_stock_tickers.py:56-57 | a symbol with neither `$` nor `-` is unchanged by both respellings |
| `StockTickers.Respell` | get_stock_tickers.py:55-57 | after a pass a symbol is in the reference set iff it or its respelling was; the respelling is taken whenever the set knows it; otherwise the symbol is unchanged |
| `StockTickers.RespellAll` | get_stock_tickers.py:56-57 | a pass keeps the list's length and respells entry by entry as `Respell` does: an entry becomes its respelling exactly when the reference set knows the respelling, and is otherwise kept; so it ends in the set iff it or its respelling was |
| `StockTickers.Consolidate` | get_stock_tickers.py:56-57 | after both passes a symbol is in the reference set iff the symbol, its `$`→`-` form or its `-`→`.` form is; a symbol still absent is the unchanged original |
| `StockTickers.Absent` | get_stock_tickers.py:53 | the filtered list holds exactly the input symbols not in the reference set, and is no longer than the input |
| `StockTickers.AbsentKeepsDuplicates` | get_stock_tickers.py:53 | every entry absent from the reference set is kept, duplicates included, and no other, so the length of `Absent` is the `seemingly_missing` count |
| `StockTickers.Unmatched` | get_stock_tickers.py:53-59 | independent definition of the result: the input symbols none of whose three spellings is in the reference set |
| `StockTickers.UnmatchedKeepsDuplicates` | get_stock_tickers.py:59 | every occurrence of an unmatched symbol is returned, none of any other |
| `StockTickers.AbsentAfterConsolidation` | get_stock_tickers.py:56-59 | filtering the respelled list for absent symbols equals filtering the original list with the three-spelling test |
| `StockTickers.RespellNeverLosesMatches` | get_stock_tickers.py:53-61 | a rewrite pass never increases the number of symbols absent from the reference set |
| `StockTickers.CheckAlternateSpelling` | get_stock_tickers.py:46-63 | the missing symbols are exactly the unmatched ones in input order, none is in the reference set, each is an original input symbol, and there are no more of them than seemingly missing ones |
| `StockTickers.Respelled` | get_stock_tickers.py:53-61 | the entries absent under their listed spelling whose `$`→`-` or `-`→`.` form is in the reference set |
| `StockTickers.AbsentSplits` | get_stock_tickers.py:53-61 | every seemingly missing entry is either still missing or respelled, so the two counts add up to `seemingly_missing` |
| `StockTickers.ConsolidatedCount` | get_stock_tickers.py:53-61 | the printed number of consolidated symbols is the number of entries found under an alternate spelling, between zero and `seemingly_missing` |
| `StockTickers.PadDigits` | get_stock_tickers.py:71 | a zero-padded number has exactly the requested width and only decimal digits |
| `StockTickers.PadDigitsValue` | get_stock_tickers.py:71 | the padded digits read back as the number when it fits the width |
| `StockTickers.FormatIso` | get_stock_tickers.py:71 | the formatted date is ten characters with `-` at positions 4 and 7 |
| `StockTickers.FormatIsoDecodes` | get_stock_tickers.py:71 | the year, month and day fields of the formatted date are digits that read back as the date's year, month and day |
| `StockTickers.Placeholder` | get_stock_tickers.py:71 | the added row has the given symbol, a missing name and type, and a date of ten characters whose year, month and day fields read back as today's |
| `StockTickers.AddMissingTickers` | get_stock_tickers.py:65-77 | the result has one row per original row plus one per symbol to add; the original rows come first unchanged; each added row carries its symbol, a missing name and type, and today's formatted date |
| `TickerOptions.Label` | ticker_options.py:20-22 | the three-way label rule, and that the label is `nan` iff both name and symbol are `nan` |
| `TickerOptions.Skipped` | ticker_options.py:24-25 | a row is skipped exactly when its label is `nan` |
| `TickerOptions.OptionFor` | ticker_options.py:27-29 | the option's label is the row's `Label` (display name, crypto-marked name, or symbol) and its value the row's symbol; the label is `nan` exactly when the row is skipped |
| `TickerOptions.OptionsOf` | ticker_options.py:16-30 | there are at most as many options as rows |
| `TickerOptions.RowOptionOffered` | ticker_options.py:24-30 | every row that is not skipped has its option, with its label and its symbol as value, offered |
| `TickerOptions.OfferedOptionRow` | ticker_options.py:24-30 | every offered option comes from a row that is not skipped, carrying that row's label and its symbol as value |
| `TickerOptions.OptionsOfAppend` | ticker_options.py:18-30 | options follow row order: the options of concatenated rows are the concatenated options |
| `TickerOptions.OptionsOfNoneSkipped` | ticker_options.py:24-30 | when no row is skipped there is one option per row |
| `TickerOptions.PlaceholderOption` | ticker_options.py:20-25 | a placeholder row added for a missing symbol is offered with the symbol as both label and value, or skipped when the symbol is `nan` |
| `TickerOptions.BuildTickerOptions` | ticker_options.py:8-32 | the loop with its `continue` yields exactly `OptionsOf(records)`: the options of the non-skipped rows in row order (see the `OptionsOf` lemmas) |

## Left out

- Network retrieval of the exchange listings and of the reference table (get_stock_tickers.py:17-20, 38-43): foreign calls with no visible contract; their results are parameters.
- The pandas operations `json_normalize`, `drop`, `concat`, `read_csv` and `to_csv`: tables are plain sequences of rows and the reference table's symbol column is a set.
- Reading the table back from disk in ticker_options.py:11: pandas turns cells such as `NA` or `null` into missing values on reading; the model receives rows already read, with missing cells as `"nan"`.
- All printed output, and the `__main__` drivers of both scripts.
- The clock read at get_stock_tickers.py:7: `today` is a parameter, a valid calendar date.
- StockTickers.GetTickers: the order of `list(set(...))` is unspecified in the source; the model keeps first occurrences in order and its contract speaks only of membership, distinctness and count.
- StockTickers.FormatIso: the year is always written with four digits; for years below 1000 the platform's `strftime` may not pad.
- stock_ticker.py (layout of the dashboard, no logic) and get_day_gainers.py (one remote call and a print): nothing to model.

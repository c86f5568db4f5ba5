# TradeRecorder analyzers, modelled in Dafny

Backtrader's TradeRecorder analyzer listens to trade notifications during a
backtest. It keeps the latest notification for each `tradeid` in a private
dict. When the run stops, it turns the stored trades into rows of open and
closed trades and, depending on its `mode` parameter, into an equity curve:
the closed trades' `(exit_date, pnlcomm)` pairs sorted by exit date, with a
cumulative sum of `pnlcomm`. Then it tears the dict down. The repository
keeps two versions:

- `backtrader/analyzers/traderecorder.py`, the current one, with modes
  `'trades'`, `'equity'` and `'trades+equity'` (the default);
- `backtrader/analyzers/traderecorderOLD.py`, the earlier one, which has no
  mode and produces plain row dictionaries.

The project has four modules:

- `TradeBook` (`trade_book.dfy`) holds the trade fields both analyzers read
  and the `_tradeDict` store. The store is a key sequence in first-insertion
  order (a Python dict's iteration order) plus a key-to-trade map. It also
  proves last-write-wins and insertion order over any notification
  sequence.
- `EquityCurves` (`equity_curves.dfy`) holds the date sort, the cumulative
  sum, its inverse and the specification `IsEquityCurveOf`: dates ascend,
  and the curve is the running sum of some rearrangement of the amounts.
- `Recorder` (`recorder.dfy`) models the current analyzer. The class
  `TradeRecorder` has the analyzer's state as fields, and `Stop` keeps the
  loop of `stop` with its invariant. The pure functions `ScanTrades` and
  `StopSucceeds` specify that loop, and the lemmas beside them state what
  each mode does.
- `RecorderOld` (`recorder_old.dfy`) models the earlier analyzer in the same
  way.

The two classes follow the code as written. The behaviour the comments and
docstrings describe is stated next to it as separate definitions: the flag
`separateOpen` of `Recorder.ScanTrades`, `Recorder.IntendedEquityCurve`, and
the flag `equityLine` of `RecorderOld.ScanTrades`. The "## Findings" table
pairs each as-written definition with its intended one.

Python exceptions become an `Error` value that a member returns:

- `ConfigurationError` is the plain `Exception` raised for a bad mode;
- `AttributeError` is a trade without exit data;
- `TypeError` is an operation on `None`, or a number called as a function.

An absent `exit_price` or `close_datetime()` is an empty `Option` on the
trade. Prices and amounts are `real` and dates are `int`.

Where the analyzer's own docstring (traderecorder.py:36-94) and its code
part ways, the model follows the code:

- The docstring spells the modes `"trade"` and `"trade+equity"` and gives
  `trade+equity` as the default (lines 37, 50, 65). The code accepts only
  `'trades'`, `'equity'` and `'trades+equity'` (line 131). Its test at line
  179 still uses `'trade'`, so mode `'trades'` files every trade, open or
  not, as closed instead of giving separate open and closed lists.
- The docstring promises an equity curve in equity mode (lines 49-53). The
  code builds it from `o.closedTrades` after setting that to `None`. So
  `stop` raises a `TypeError` in mode `'equity'` always, and in mode
  `'trades+equity'` when no trade has closed.
- The docstring names no order for trades closing on the same date.
  `sort_values` uses pandas' default sort, which is not stable, so the
  model leaves the order of equal exit dates open.
- Exit price and exit date need a patched Trade class (lines 21-33, 76-77).
  A trade without them makes `stop` print a diagnostic and re-raise the
  `AttributeError` (lines 197-208).
- After `stop`, the store is `None` (line 248). A later `notify_trade` or
  `stop` raises a `TypeError`.

`Recorder.ReclosedTradeScenario` is a client of the class contracts and is
not a model of any one source line. A trade is notified open, then notified
closed under the same id, and then `Stop` runs. It proves that no open row
remains, that one closed row carries the exit columns, and that the equity
curve is the single point (exit date, pnlcomm).

## Model

| member | source | states |
|---|---|---|
| TradeBook.Put | backtrader/analyzers/traderecorder.py:142 | storing a trade maps its id to it, keeps every other id's trade, and appends a new id to the iteration order while a known id keeps its place |
| TradeBook.StoredTrades | backtrader/analyzers/traderecorder.py:147-149 | iterating the dict yields one trade per key, in key order, each the trade stored under its own id |
| TradeBook.OpenClosedCount | backtrader/analyzers/traderecorder.py:179 | every trade is either open or closed: the two filters together have as many trades as the input |
| TradeBook.ReplayKeys | backtrader/analyzers/traderecorder.py:137-142 | after any sequence of notifications the dict's keys are exactly the notified ids |
| TradeBook.ReplayLastWriteWins | backtrader/analyzers/traderecorder.py:137-142 | a reopened or re-notified id maps to the last trade notified with it |
| TradeBook.ReplayFirstInsertionOrder | backtrader/analyzers/traderecorder.py:147 | the loop visits ids in the order they were first notified, whatever was overwritten later |
| TradeBook.ReplayCount | backtrader/analyzers/traderecorder.py:147 | the loop visits one trade per distinct id notified |
| EquityCurves.SortByDate | backtrader/analyzers/traderecorder.py:235 | the result ascends by exit date and is a permutation of the input |
| EquityCurves.RunningSum | backtrader/analyzers/traderecorder.py:237 | point i keeps the date of amount i and carries the total of amounts 0..i |
| EquityCurves.IncrementsOfRunningSum | backtrader/analyzers/traderecorder.py:237 | taking differences undoes the cumulative sum |
| EquityCurves.RunningSumOfIncrements | backtrader/analyzers/traderecorder.py:237 | the cumulative sum of a curve's differences is the curve |
| EquityCurves.DeriveCurve | backtrader/analyzers/traderecorder.py:234-238 | sorting then summing the (exit date, pnlcomm) pairs gives a valid equity curve for them |
| EquityCurves.TotalPermutation | backtrader/analyzers/traderecorder.py:235-237 | the total of the amounts does not depend on their order |
| EquityCurves.CurveIsRunningSumOfSortedAmounts | backtrader/analyzers/traderecorder.py:230-238 | any valid curve is the running sum of a date-sorted rearrangement of the amounts |
| EquityCurves.CurveLengthAndFinalEquity | backtrader/analyzers/traderecorder.py:234-238 | a valid curve has one point per closed trade and ends at the total pnlcomm, whatever the tie order |
| EquityCurves.SortedRearrangementUnique | backtrader/analyzers/traderecorder.py:235 | two date-sorted rearrangements of the same amounts with strictly ascending dates are equal |
| EquityCurves.CurveUniqueWithoutTies | backtrader/analyzers/traderecorder.py:235-237 | without equal exit dates the valid curve is unique |
| EquityCurves.OutOfOrderCloses | backtrader/analyzers/traderecorder.py:230-238 | trades closing out of notification order (exit 3 with +5, then exit 2 with -2) give the curve (2, -2), (3, 3) |
| Recorder.ParseMode | backtrader/analyzers/traderecorder.py:131-134 | a mode is accepted exactly when it is one of the three names; any other value raises an error that names it |
| Recorder.ParseModeName | backtrader/analyzers/traderecorder.py:131 | every mode's name is accepted as that mode |
| Recorder.SeparatesOpenOnlyWithEquity | backtrader/analyzers/traderecorder.py:179 | the `'trade'` test keeps open trades apart only in mode `'trades+equity'`; trades are recorded unless the mode is `'equity'`, and equity unless it is `'trades'` |
| Recorder.TradeRow | backtrader/analyzers/traderecorder.py:159-176 | a row copies the trade's entry price, entry date, pnl, pnlcomm, direction and id, has no exit columns, and has `R_stop` equal to the trade's `R` exactly when the trade has one |
| Recorder.ClosedPointsArePnlcomm | backtrader/analyzers/traderecorder.py:178-210 | with open trades kept apart, a loop that does not raise leaves closed rows whose (exit date, pnlcomm) pairs are exactly those of the closed trades, in store order |
| Recorder.AddExit | backtrader/analyzers/traderecorder.py:197-208 | the exit columns are added exactly when the trade has its exit data, leaving the other columns alone; otherwise the trade's `AttributeError` is raised |
| Recorder.ScanTrades | backtrader/analyzers/traderecorder.py:147-210 | every closed row built by the loop carries exit columns |
| Recorder.ScanFailureSticks | backtrader/analyzers/traderecorder.py:208 | once the loop has raised, later trades change nothing |
| Recorder.ScanFailsOnMissingExit | backtrader/analyzers/traderecorder.py:193-208 | the loop raises exactly when a trade bound for the closed rows lacks exit data, and the error names such a trade |
| Recorder.ScanSplitsByStatus | backtrader/analyzers/traderecorder.py:178-210 | with open trades kept apart, open trades' rows form the open list, closed trades' rows with exit columns form the closed list, both in store order, one row per trade |
| Recorder.RowsPerDistinctId | backtrader/analyzers/traderecorder.py:137-210 | in mode `'trades+equity'`, a `stop` that does not raise builds one row per distinct trade id notified |
| Recorder.TradesModeFilesAllAsClosed | backtrader/analyzers/traderecorder.py:179-210 | in mode `'trades'` no open row is built, and every trade, open or not, becomes a closed row with exit columns |
| Recorder.EquityModeBuildsNoRows | backtrader/analyzers/traderecorder.py:179-193 | in mode `'equity'` the loop builds no row and never raises |
| Recorder.OpenTradeFiledAsClosed | backtrader/analyzers/traderecorder.py:179 | in mode `'trades'` a single open trade ends up among the closed rows |
| Recorder.TradesOut | backtrader/analyzers/traderecorder.py:216-222 | a trade list is published only when trades are recorded and the list is non-empty, and `None` otherwise |
| Recorder.Points | backtrader/analyzers/traderecorder.py:234 | one (exit date, pnlcomm) pair per closed row, in row order |
| Recorder.EquityModeStopAlwaysFails | backtrader/analyzers/traderecorder.py:221-234 | in mode `'equity'` `stop` never returns normally |
| Recorder.TradesAndEquityStopSucceeds | backtrader/analyzers/traderecorder.py:216-239 | in mode `'trades+equity'` `stop` returns normally exactly when every closed trade has exit data and at least one trade has closed |
| Recorder.TradesModeStopSucceeds | backtrader/analyzers/traderecorder.py:193-222 | in mode `'trades'` `stop` returns normally exactly when every stored trade, open ones included, has exit data |
| Recorder.IntendedEquityCurve | backtrader/analyzers/traderecorder.py:230-239 | the curve the comments describe exists whenever equity is requested and no exit data is missing; it is a valid curve of the closed trades' own (exit date, pnlcomm) pairs, with one point per closed trade |
| Recorder.TradeRecorder.constructor | backtrader/analyzers/traderecorder.py:117-128 | a fresh analyzer has an empty store, no accumulator and empty output lists |
| Recorder.TradeRecorder.NotifyTrade | backtrader/analyzers/traderecorder.py:137-142 | the trade is stored under its id; after teardown the assignment raises `TypeError` |
| Recorder.TradeRecorder.Stop | backtrader/analyzers/traderecorder.py:145-249 | the new state is the one the scan of the stored trades determines: the row lists or `None`, a valid equity curve when requested, and the teardown; it returns normally exactly when `StopSucceeds`, and on an exception the store stays and the lists are as far as the loop got |
| Recorder.TradeRecorder.CalcEquity | backtrader/analyzers/traderecorder.py:282-298 | the accumulator and the returned points are those of one bracketing step |
| Recorder.BracketingIsZeroThenRunningSum | backtrader/analyzers/traderecorder.py:252-298 | calling `calc_equity` on each trade yields a zero point at the first entry date followed by the running sum of (exit date, pnlcomm), and the accumulator ends at the total |
| Recorder.ExitPoints | backtrader/analyzers/traderecorder.py:288-295 | one (exit date, pnlcomm) pair per trade, in order |
| Recorder.CreateAnalysis | backtrader/analyzers/traderecorder.py:117-134 | an analyzer is created exactly for the three mode names, in the named mode and with an empty store; any other name is a configuration error naming it |
| RecorderOld.OpenRow | backtrader/analyzers/traderecorderOLD.py:80-90 | an open row copies the trade's entry price, entry date, pnl, pnlcomm and id, has no exit fields, and has `R` equal to the trade's `R` exactly when the trade has one |
| RecorderOld.ClosedRow | backtrader/analyzers/traderecorderOLD.py:92-104 | a closed row is the open row plus the exit fields when the trade has its exit data; otherwise the trade's `AttributeError` |
| RecorderOld.ScanTrades | backtrader/analyzers/traderecorderOLD.py:70-106 | the loop builds at most one row per stored trade |
| RecorderOld.OpenRows | backtrader/analyzers/traderecorderOLD.py:80-90 | one open row per trade, in order |
| RecorderOld.ScanFailureSticks | backtrader/analyzers/traderecorderOLD.py:70-106 | once the loop has raised, later trades change nothing |
| RecorderOld.ClosedTradeAbortsStop | backtrader/analyzers/traderecorderOLD.py:92-106 | as written, `stop` gets through the loop exactly when no stored trade is closed, and then every trade is an open row |
| RecorderOld.OneClosedTradeRaises | backtrader/analyzers/traderecorderOLD.py:104-106 | a single closed trade with exit data has its row appended and then makes `stop` raise |
| RecorderOld.IntendedStopSplitsByStatus | backtrader/analyzers/traderecorderOLD.py:70-104 | without the equity line, `stop` raises exactly when a closed trade lacks exit data; otherwise open trades become open rows and closed trades closed rows with exit fields, in store order, one row per trade |
| RecorderOld.IntendedRowsPerDistinctId | backtrader/analyzers/traderecorderOLD.py:55-104 | without the equity line, a `stop` that does not raise builds one row per distinct trade id notified |
| RecorderOld.AllOpenAgrees | backtrader/analyzers/traderecorderOLD.py:80-106 | with only open trades, the code as written and the intended code give the same rows |
| RecorderOld.TradeRecorder.constructor | backtrader/analyzers/traderecorderOLD.py:42-52 | a fresh analyzer has an empty store and empty row lists |
| RecorderOld.TradeRecorder.NotifyTrade | backtrader/analyzers/traderecorderOLD.py:55-62 | the trade is stored under its id; after teardown the assignment raises `TypeError` |
| RecorderOld.TradeRecorder.AppendRow | backtrader/analyzers/traderecorderOLD.py:80-106 | one turn of the loop: the lists grow exactly as one scan step says, and the turn's exception is returned |
| RecorderOld.TradeRecorder.Stop | backtrader/analyzers/traderecorderOLD.py:66-111 | the row lists become those the scan of the stored trades determines; the store is torn down only when the scan does not raise, and otherwise `stop` fails with the scan's error |

## Left out

- pandas: the one-row DataFrames, `concat`, `reset_index`, `copy` and the column renames are modelled as sequences of rows and points. Column order and index labels are not modelled.
- `print`: both analyzers override it to report list lengths. This is console output. In traderecorder.py (lines 307-308) the override would itself fail on `len(None)` once `stop` has left `None` lists.
- The `print` diagnostic before re-raising the `AttributeError` is output only. The re-raise is modelled.
- The framework: the `Analyzer` base class, `AutoOrderedDict`, `self.rets._close()`, the `super().stop` attribute access that calls nothing, and the unused imports of the current file are not part of this model. The `mode` parameter's default `'trades+equity'` is left to the caller of `Recorder.CreateAnalysis`.
- Trade objects: only the fields the analyzers read are modelled. `open_datetime()`/`close_datetime()` become integer dates, and a missing `exit_price` or `close_datetime` becomes an empty `Option`. `hasattr(trade, 'R')` is an optional `R`.
- Floating point: amounts and prices are reals, so rounding in `cumsum` is not modelled.
- The current analyzer's commented-out per-trade equity calls are not modelled. `calc_equity`, which nothing calls, is modelled on its own.
- A second `stop` after a `stop` that raised part-way is not modelled. `Stop` requires that the lists still be the empty ones set up by `create_analysis` while the store is alive, because re-running the loop would append to half-filled lists.
- Recorder.TradeRecorder.Stop: the curve is promised only up to the order of trades with equal exit dates (`IsEquityCurveOf`). pandas' default sort does not fix that order, and `CurveUniqueWithoutTies` shows it is the only freedom.

## Findings

| source | as written | input that shows it | evidently intended | confidence | as-written member | corrected member |
|---|---|---|---|---|---|---|
| backtrader/analyzers/traderecorder.py:179 | open trades are kept apart only when the mode is in `['trade','trades+equity']`; `'trade'` is no valid mode | mode `'trades'` with one open trade that has exit data: it is filed as a closed row with exit columns, and one without exit data makes `stop` raise | `['trades','trades+equity']`: open trades go to the open rows whenever trades are recorded | high, not executed | Recorder.OpenTradeFiledAsClosed | Recorder.ScanSplitsByStatus |
| backtrader/analyzers/traderecorder.py:216-234 | the curve is read from `o.closedTrades`, which is `None` in mode `'equity'` and when no trade has closed | mode `'equity'` with any trades, or mode `'trades+equity'` with only open trades: `stop` raises `TypeError` | derive the curve from the closed trades whenever equity is requested, empty when none has closed | high, not executed | Recorder.EquityModeStopAlwaysFails | Recorder.IntendedEquityCurve |
| backtrader/analyzers/traderecorderOLD.py:105-106 | after each closed row, it calls the number `trade.pnlcomm` as a function, inside an append to an `equityCurve` list that `create_analysis` never sets up | one closed trade with exit data: its row is appended, then `stop` raises and the store is never torn down | no equity line: every trade becomes one row and `stop` completes | high, not executed | RecorderOld.OneClosedTradeRaises | RecorderOld.IntendedStopSplitsByStatus |

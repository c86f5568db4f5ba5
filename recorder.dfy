/** The current TradeRecorder analyzer (backtrader/analyzers/traderecorder.py):
    it records the last notification per trade id and, when the run stops,
    splits the trades into open and closed rows and derives the equity curve,
    as the code is written, including the places where it departs from what
    its documentation promises. */
module Recorder {
  import opened TradeBook
  import opened EquityCurves

  datatype Mode = Trades | Equity | TradesAndEquity

  /** The values `mode` may take. */
  const ModeNames: seq<string> := ["trades", "equity", "trades+equity"]

  function ModeName(m: Mode): string {
    match m
    case Trades => "trades"
    case Equity => "equity"
    case TradesAndEquity => "trades+equity"
  }

  /** The check of `create_analysis`: one of the three names is accepted, any
      other value is a configuration error that names it. */
  function ParseMode(s: string): (r: Result<Mode>)
    ensures r.Ok? <==> s in ModeNames
    ensures r.Ok? ==> ModeName(r.value) == s
    ensures r.Err? ==> r.error == ConfigurationError(s)
  {
    if s == "trades" then Ok(Trades)
    else if s == "equity" then Ok(Equity)
    else if s == "trades+equity" then Ok(TradesAndEquity)
    else Err(ConfigurationError(s))
  }

  lemma ParseModeName(m: Mode)
    ensures ParseMode(ModeName(m)) == Ok(m)
  {
  }

  /** `mode in names`, the membership tests the code makes. */
  predicate InModes(m: Mode, names: seq<string>) {
    ModeName(m) in names
  }

  /** The test that keeps open trades apart, spelt with `'trade'` as written. */
  predicate SeparatesOpen(m: Mode) {
    InModes(m, ["trade", "trades+equity"])
  }

  predicate RecordsTrades(m: Mode) {
    InModes(m, ["trades", "trades+equity"])
  }

  predicate RecordsEquity(m: Mode) {
    InModes(m, ["equity", "trades+equity"])
  }

  /** Because no mode is named `'trade'`, open trades are kept apart only in
      mode `'trades+equity'`. */
  lemma SeparatesOpenOnlyWithEquity(m: Mode)
    ensures SeparatesOpen(m) <==> m == TradesAndEquity
    ensures RecordsTrades(m) <==> m != Equity
    ensures RecordsEquity(m) <==> m != Trades
  {
    assert "trade" != "trades" by {
      assert |"trade"| != |"trades"|;
    }
  }

  /** One row of `openTrades` or `closedTrades`; `rStop` is the `R_stop`
      column and `exit` the `exit_date` and `exit_price` columns. */
  datatype Row = Row(
    entryPrice: real,
    entryDate: int,
    pnl: real,
    pnlcomm: real,
    isLong: bool,
    rStop: Option<real>,
    tradeid: int,
    exit: Option<Exit>)

  /** The columns every trade gets; `R_stop` only when the trade carries `R`. */
  function TradeRow(t: Trade): (row: Row)
    ensures row.tradeid == t.tradeid && row.exit.None?
    ensures row.entryPrice == t.entryPrice && row.entryDate == t.entryDate
    ensures row.pnl == t.pnl && row.pnlcomm == t.pnlcomm && row.isLong == t.long
    ensures row.rStop == t.r
  {
    Row(t.entryPrice, t.entryDate, t.pnl, t.pnlcomm, t.long, t.r, t.tradeid, None)
  }

  function TradeRows(ts: seq<Trade>): (rows: seq<Row>)
    ensures |rows| == |ts|
    ensures forall i :: 0 <= i < |ts| ==> rows[i] == TradeRow(ts[i])
  {
    seq(|ts|, i requires 0 <= i < |ts| => TradeRow(ts[i]))
  }

  /** Adding the exit columns: a trade without an exit price or date raises
      `AttributeError`, which is re-raised after the diagnostic. */
  function AddExit(row: Row, t: Trade): (r: Result<Row>)
    ensures r.Ok? <==> HasExit(t)
    ensures r.Ok? ==> r.value.exit == Some(ExitOf(t)) && r.value.(exit := None) == row.(exit := None)
    ensures r.Err? ==> r.error == AttributeError(t.tradeid)
  {
    if HasExit(t) then Ok(row.(exit := Some(ExitOf(t)))) else Err(AttributeError(t.tradeid))
  }

  /** The rows built so far by the loop of `stop`, and the exception that
      ended it, if any. */
  datatype Scan = Scan(open: seq<Row>, closed: seq<Row>, failure: Option<Error>)

  /** One turn of the loop. `separateOpen` is the value of the test that
      keeps an open trade apart. */
  function ScanStep(separateOpen: bool, m: Mode, sc: Scan, t: Trade): Scan {
    var row := TradeRow(t);
    if t.isopen && separateOpen then sc.(open := sc.open + [row])
    else if RecordsTrades(m) then
      match AddExit(row, t)
      case Ok(r) => sc.(closed := sc.closed + [r])
      case Err(e) => sc.(failure := Some(e))
    else sc
  }

  /** The loop of `stop` over the stored trades, stopping at the first
      exception. */
  function ScanTrades(separateOpen: bool, m: Mode, ts: seq<Trade>): (sc: Scan)
    ensures forall i :: 0 <= i < |sc.closed| ==> sc.closed[i].exit.Some?
  {
    if ts == [] then Scan([], [], None)
    else
      var sc := ScanTrades(separateOpen, m, ts[..|ts| - 1]);
      if sc.failure.Some? then sc else ScanStep(separateOpen, m, sc, ts[|ts| - 1])
  }

  /** Whether the loop sends the trade to the closed rows. */
  predicate GoesToClosed(separateOpen: bool, m: Mode, t: Trade) {
    RecordsTrades(m) && !(t.isopen && separateOpen)
  }

  /** One more trade extends the scan of a prefix that has not raised. */
  lemma ScanPrefixStep(separateOpen: bool, m: Mode, ts: seq<Trade>, i: int)
    requires 0 <= i < |ts|
    requires ScanTrades(separateOpen, m, ts[..i]).failure.None?
    ensures ScanTrades(separateOpen, m, ts[..i + 1]) == ScanStep(separateOpen, m, ScanTrades(separateOpen, m, ts[..i]), ts[i])
  {
    assert ts[..i + 1][..i] == ts[..i];
  }

  /** Once the loop has raised, later trades change nothing. */
  lemma {:induction false} ScanFailureSticks(separateOpen: bool, m: Mode, ts: seq<Trade>, k: int)
    requires 0 <= k <= |ts|
    requires ScanTrades(separateOpen, m, ts[..k]).failure.Some?
    ensures ScanTrades(separateOpen, m, ts) == ScanTrades(separateOpen, m, ts[..k])
  {
    if k < |ts| {
      assert ts[..|ts| - 1][..k] == ts[..k];
      ScanFailureSticks(separateOpen, m, ts[..|ts| - 1], k);
    } else {
      assert ts[..k] == ts;
    }
  }

  /** The loop raises exactly when a trade bound for the closed rows lacks
      its exit data, and the error is that trade's `AttributeError`. */
  lemma {:induction false} ScanFailsOnMissingExit(separateOpen: bool, m: Mode, ts: seq<Trade>)
    ensures ScanTrades(separateOpen, m, ts).failure.None? <==>
      forall i :: 0 <= i < |ts| && GoesToClosed(separateOpen, m, ts[i]) ==> HasExit(ts[i])
    ensures ScanTrades(separateOpen, m, ts).failure.Some? ==>
      exists i :: 0 <= i < |ts| && GoesToClosed(separateOpen, m, ts[i]) && !HasExit(ts[i])
        && ScanTrades(separateOpen, m, ts).failure == Some(AttributeError(ts[i].tradeid))
  {
    if ts != [] {
      var p := ts[..|ts| - 1];
      ScanFailsOnMissingExit(separateOpen, m, p);
      assert forall i :: 0 <= i < |p| ==> p[i] == ts[i];
    }
  }

  /** With open trades kept apart and trades recorded, every trade lands in
      exactly one list: open trades' rows in `open`, closed trades' rows,
      with exit columns, in `closed`, each in store order. */
  lemma {:induction false} ScanSplitsByStatus(m: Mode, ts: seq<Trade>)
    requires RecordsTrades(m)
    ensures var sc := ScanTrades(true, m, ts);
      sc.failure.None? ==>
        && sc.open == TradeRows(OpenOnes(ts))
        && |sc.closed| == |ClosedOnes(ts)|
        && (forall i :: 0 <= i < |sc.closed| ==>
              AddExit(TradeRow(ClosedOnes(ts)[i]), ClosedOnes(ts)[i]) == Ok(sc.closed[i]))
        && |sc.open| + |sc.closed| == |ts|
  {
    OpenClosedCount(ts);
    if ts != [] {
      var p := ts[..|ts| - 1];
      var t := ts[|ts| - 1];
      ScanSplitsByStatus(m, p);
      var sc := ScanTrades(true, m, ts);
      if sc.failure.None? {
        var sc0 := ScanTrades(true, m, p);
        assert sc0.failure.None?;
        if t.isopen {
          assert TradeRows(OpenOnes(ts)) == TradeRows(OpenOnes(p)) + [TradeRow(t)];
        } else {
          assert ClosedOnes(ts) == ClosedOnes(p) + [t];
        }
      }
    }
  }

  /** With open trades kept apart, the (exit date, pnlcomm) pairs of the
      closed rows are those of the closed trades themselves, in store order:
      the curve is summed over the trades' own `pnlcomm`. */
  lemma ClosedPointsArePnlcomm(m: Mode, ts: seq<Trade>)
    requires RecordsTrades(m)
    ensures var sc := ScanTrades(true, m, ts);
      sc.failure.None? ==>
        && (forall i :: 0 <= i < |ClosedOnes(ts)| ==> HasExit(ClosedOnes(ts)[i]))
        && Points(sc.closed) == ExitPoints(ClosedOnes(ts))
  {
    var sc := ScanTrades(true, m, ts);
    if sc.failure.None? {
      ScanSplitsByStatus(m, ts);
      var cs := ClosedOnes(ts);
      forall i | 0 <= i < |cs|
        ensures HasExit(cs[i]) && Points(sc.closed)[i] == Point(cs[i].exitDate.value, cs[i].pnlcomm)
      {
        var r := AddExit(TradeRow(cs[i]), cs[i]);
        assert r == Ok(sc.closed[i]);
        assert sc.closed[i].pnlcomm == r.value.(exit := None).pnlcomm == TradeRow(cs[i]).pnlcomm;
      }
    }
  }

  /** After any sequence of notifications, `stop` in mode `'trades+equity'`
      produces one row per distinct trade id, open and closed together. */
  lemma RowsPerDistinctId(ns: seq<Trade>)
    ensures var sc := ScanTrades(SeparatesOpen(TradesAndEquity), TradesAndEquity, StoredTrades(Replay(ns)));
      sc.failure.None? ==> |sc.open| + |sc.closed| == |Ids(ns)|
  {
    SeparatesOpenOnlyWithEquity(TradesAndEquity);
    ScanSplitsByStatus(TradesAndEquity, StoredTrades(Replay(ns)));
    ReplayCount(ns);
  }

  /** In mode `'trades'` the `'trade'` spelling sends every trade, open or
      not, to the closed rows with exit columns, and `open` stays empty. */
  lemma {:induction false} TradesModeFilesAllAsClosed(ts: seq<Trade>)
    ensures var sc := ScanTrades(SeparatesOpen(Trades), Trades, ts);
      && sc.open == []
      && (sc.failure.None? ==>
            && |sc.closed| == |ts|
            && forall i :: 0 <= i < |ts| ==> AddExit(TradeRow(ts[i]), ts[i]) == Ok(sc.closed[i]))
  {
    SeparatesOpenOnlyWithEquity(Trades);
    if ts != [] {
      TradesModeFilesAllAsClosed(ts[..|ts| - 1]);
    }
  }

  /** In mode `'equity'` no row is built at all. */
  lemma {:induction false} EquityModeBuildsNoRows(ts: seq<Trade>)
    ensures ScanTrades(SeparatesOpen(Equity), Equity, ts) == Scan([], [], None)
  {
    SeparatesOpenOnlyWithEquity(Equity);
    if ts != [] {
      EquityModeBuildsNoRows(ts[..|ts| - 1]);
    }
  }

  /** A counterexample to the documented behaviour of mode `'trades'`: a
      single open trade ends up among the closed rows. */
  lemma OpenTradeFiledAsClosed(t: Trade)
    requires t.isopen && HasExit(t)
    ensures ScanTrades(SeparatesOpen(Trades), Trades, [t]).open == []
    ensures ScanTrades(SeparatesOpen(Trades), Trades, [t]).closed == [TradeRow(t).(exit := Some(ExitOf(t)))]
  {
    SeparatesOpenOnlyWithEquity(Trades);
    assert [t][..0] == [];
  }

  /** `o.closedTrades` / `o.openTrades` after `stop`: the rows when trades are
      recorded and there is at least one, `None` otherwise. */
  function TradesOut(m: Mode, rows: seq<Row>): (r: Option<seq<Row>>)
    ensures r.Some? <==> RecordsTrades(m) && rows != []
    ensures r.Some? ==> r.value == rows
  {
    if RecordsTrades(m) && rows != [] then Some(rows) else None
  }

  /** The (exit_date, pnlcomm) columns of closed rows. */
  function Points(rows: seq<Row>): (pts: seq<Point>)
    requires forall i :: 0 <= i < |rows| ==> rows[i].exit.Some?
    ensures |pts| == |rows|
    ensures forall i :: 0 <= i < |rows| ==> pts[i] == Point(rows[i].exit.value.date, rows[i].pnlcomm)
  {
    seq(|rows| , i requires 0 <= i < |rows| => Point(rows[i].exit.value.date, rows[i].pnlcomm))
  }

  /** Whether `stop` returns normally: the loop must not raise, and when the
      equity curve is asked for, `o.closedTrades` must not be `None`. */
  predicate StopSucceeds(m: Mode, ts: seq<Trade>) {
    var sc := ScanTrades(SeparatesOpen(m), m, ts);
    sc.failure.None? && (RecordsEquity(m) ==> TradesOut(m, sc.closed).Some?)
  }

  /** In mode `'equity'` the closed rows are discarded before the curve is
      derived from them, so `stop` always raises. */
  lemma EquityModeStopAlwaysFails(ts: seq<Trade>)
    ensures !StopSucceeds(Equity, ts)
  {
    SeparatesOpenOnlyWithEquity(Equity);
  }

  /** In mode `'trades+equity'` `stop` returns normally exactly when every
      closed trade has its exit data and there is at least one. */
  lemma TradesAndEquityStopSucceeds(ts: seq<Trade>)
    ensures StopSucceeds(TradesAndEquity, ts) <==>
      (forall i :: 0 <= i < |ts| && !ts[i].isopen ==> HasExit(ts[i])) && ClosedOnes(ts) != []
  {
    SeparatesOpenOnlyWithEquity(TradesAndEquity);
    ScanFailsOnMissingExit(true, TradesAndEquity, ts);
    ScanSplitsByStatus(TradesAndEquity, ts);
    var sc := ScanTrades(true, TradesAndEquity, ts);
    if (forall i :: 0 <= i < |ts| && !ts[i].isopen ==> HasExit(ts[i])) {
      assert sc.failure.None?;
      assert |sc.closed| == |ClosedOnes(ts)|;
    }
  }

  /** In mode `'trades'` `stop` returns normally exactly when every trade,
      open ones included, has its exit data. */
  lemma TradesModeStopSucceeds(ts: seq<Trade>)
    ensures StopSucceeds(Trades, ts) <==> forall i :: 0 <= i < |ts| ==> HasExit(ts[i])
  {
    SeparatesOpenOnlyWithEquity(Trades);
    ScanFailsOnMissingExit(false, Trades, ts);
  }

  /** The behaviour the documentation describes: the curve is derived from
      the closed trades whenever it is asked for, also in mode `'equity'`
      and also when no trade has closed. */
  function IntendedEquityCurve(m: Mode, ts: seq<Trade>): (c: Option<seq<Point>>)
    ensures var sc := ScanTrades(true, TradesAndEquity, ts);
      && (c.Some? <==> RecordsEquity(m) && sc.failure.None?)
      && (c.Some? ==> IsEquityCurveOf(c.value, Points(sc.closed)) && |c.value| == |ClosedOnes(ts)|)
      && (c.Some? ==>
            && (forall i :: 0 <= i < |ClosedOnes(ts)| ==> HasExit(ClosedOnes(ts)[i]))
            && IsEquityCurveOf(c.value, ExitPoints(ClosedOnes(ts))))
  {
    var sc := ScanTrades(true, TradesAndEquity, ts);
    SeparatesOpenOnlyWithEquity(TradesAndEquity);
    ScanSplitsByStatus(TradesAndEquity, ts);
    ClosedPointsArePnlcomm(TradesAndEquity, ts);
    if RecordsEquity(m) && sc.failure.None? then
      var c := DeriveCurve(Points(sc.closed));
      CurveLengthAndFinalEquity(c, Points(sc.closed));
      Some(c)
    else None
  }

  /** The analyzer. `tradeDict` is `_tradeDict` (`None` once torn down);
      `openTrades`, `closedTrades` and `equityCurve` are the entries of
      `rets` (`None` where the code sets them to `None`). */
  class TradeRecorder {
    const mode: Mode
    var tradeDict: Option<Store>
    var cumulativeEquity: Option<real>
    var openTrades: Option<seq<Row>>
    var closedTrades: Option<seq<Row>>
    var equityCurve: Option<seq<Point>>

    ghost predicate Valid()
      reads this
    {
      tradeDict.Some? ==> ValidStore(tradeDict.value)
    }

    /** Still collecting: the output lists are the empty lists set up by
        `create_analysis`. */
    ghost predicate Collecting()
      reads this
    {
      tradeDict.Some? ==> openTrades == Some([]) && closedTrades == Some([]) && equityCurve == Some([])
    }

    constructor (m: Mode)
      ensures mode == m && Valid() && Collecting()
      ensures tradeDict == Some(EmptyStore) && cumulativeEquity == None
      ensures openTrades == Some([]) && closedTrades == Some([]) && equityCurve == Some([])
    {
      mode := m;
      tradeDict := Some(EmptyStore);
      cumulativeEquity := None;
      openTrades, closedTrades, equityCurve := Some([]), Some([]), Some([]);
    }

    /** `notify_trade`: the trade replaces any earlier one with its id. After
        `stop` the store is `None` and the assignment raises. */
    method NotifyTrade(t: Trade) returns (out: Outcome)
      requires Valid()
      modifies this`tradeDict
      ensures Valid()
      ensures old(Collecting()) ==> Collecting()
      ensures old(tradeDict).None? ==> out == Fail(TypeError) && tradeDict == None
      ensures old(tradeDict).Some? ==> out == Pass && tradeDict == Some(Put(old(tradeDict).value, t))
    {
      if tradeDict.None? {
        return Fail(TypeError);
      }
      tradeDict := Some(Put(tradeDict.value, t));
      return Pass;
    }

    /** `stop`: the loop over the stored trades, the conversion of the row
        lists (`None` when empty or not requested), the equity curve when
        requested, and the teardown of the store. An exception leaves the
        store in place and the lists as far as they got. */
    method Stop() returns (out: Outcome)
      requires Valid() && Collecting()
      modifies this
      ensures Valid()
      ensures cumulativeEquity == old(cumulativeEquity)
      ensures old(tradeDict).None? ==>
        out == Fail(TypeError) && tradeDict == None
        && openTrades == old(openTrades) && closedTrades == old(closedTrades) && equityCurve == old(equityCurve)
      ensures old(tradeDict).Some? ==>
        var ts := StoredTrades(old(tradeDict).value);
        var sc := ScanTrades(SeparatesOpen(mode), mode, ts);
        && (out.Pass? <==> StopSucceeds(mode, ts))
        && (out.Fail? ==> tradeDict == old(tradeDict))
        && (out.Pass? ==> tradeDict == None)
        && (sc.failure.Some? ==>
              out == Fail(sc.failure.value) && openTrades == Some(sc.open) && closedTrades == Some(sc.closed)
              && equityCurve == old(equityCurve))
        && (sc.failure.None? ==>
              && openTrades == TradesOut(mode, sc.open)
              && closedTrades == TradesOut(mode, sc.closed)
              && (!RecordsEquity(mode) ==> equityCurve == None)
              && (RecordsEquity(mode) && closedTrades.None? ==> out == Fail(TypeError) && equityCurve == old(equityCurve))
              && (RecordsEquity(mode) && closedTrades.Some? ==>
                    equityCurve.Some? && IsEquityCurveOf(equityCurve.value, Points(sc.closed))))
    {
      if tradeDict.None? {
        return Fail(TypeError);
      }
      var store := tradeDict.value;
      ghost var ts := StoredTrades(store);
      var separate := SeparatesOpen(mode);
      var i := 0;
      while i < |store.ids|
        invariant 0 <= i <= |store.ids|
        invariant tradeDict == old(tradeDict) && equityCurve == old(equityCurve)
        invariant cumulativeEquity == old(cumulativeEquity)
        invariant openTrades.Some? && closedTrades.Some?
        invariant ScanTrades(separate, mode, ts[..i]) == Scan(openTrades.value, closedTrades.value, None)
      {
        var t := store.byId[store.ids[i]];
        assert t == ts[i];
        ScanPrefixStep(separate, mode, ts, i);
        var row := TradeRow(t);
        if t.isopen && separate {
          openTrades := Some(openTrades.value + [row]);
        } else if RecordsTrades(mode) {
          var withExit := AddExit(row, t);
          if withExit.Err? {
            ScanFailureSticks(separate, mode, ts, i + 1);
            return Fail(withExit.error);
          }
          closedTrades := Some(closedTrades.value + [withExit.value]);
        }
        i := i + 1;
      }
      assert ts[..i] == ts;
      if RecordsTrades(mode) {
        closedTrades := if closedTrades.value != [] then closedTrades else None;
        openTrades := if openTrades.value != [] then openTrades else None;
      } else {
        closedTrades, openTrades := None, None;
      }
      if RecordsEquity(mode) {
        if closedTrades.None? {
          return Fail(TypeError);
        }
        equityCurve := Some(DeriveCurve(Points(closedTrades.value)));
      } else {
        equityCurve := None;
      }
      tradeDict := None;
      return Pass;
    }

    /** `calc_equity`, which nothing calls: the first call seeds the
        accumulator and yields a zero point at the entry date and a point at
        the exit date; later calls add to it and yield one point. The
        accumulator is updated before the exit date is read. */
    method CalcEquity(t: Trade) returns (r: Result<seq<Point>>)
      modifies this`cumulativeEquity
      ensures (cumulativeEquity, r) == EquityStep(old(cumulativeEquity), t)
    {
      if cumulativeEquity.None? {
        cumulativeEquity := Some(t.pnlcomm);
        if t.exitDate.None? {
          return Err(AttributeError(t.tradeid));
        }
        r := Ok([Point(t.entryDate, 0.0), Point(t.exitDate.value, cumulativeEquity.value)]);
      } else {
        cumulativeEquity := Some(cumulativeEquity.value + t.pnlcomm);
        if t.exitDate.None? {
          return Err(AttributeError(t.tradeid));
        }
        r := Ok([Point(t.exitDate.value, cumulativeEquity.value)]);
      }
    }
  }

  /** The accumulator after one `calc_equity` call and the points it yields. */
  function EquityStep(acc: Option<real>, t: Trade): (Option<real>, Result<seq<Point>>) {
    var total := if acc.None? then t.pnlcomm else acc.value + t.pnlcomm;
    var exitPoints :=
      if t.exitDate.None? then Err(AttributeError(t.tradeid))
      else if acc.None? then Ok([Point(t.entryDate, 0.0), Point(t.exitDate.value, total)])
      else Ok([Point(t.exitDate.value, total)]);
    (Some(total), exitPoints)
  }

  /** The (exit date, pnlcomm) pairs of trades that all have an exit date. */
  function ExitPoints(ts: seq<Trade>): (pts: seq<Point>)
    requires forall i :: 0 <= i < |ts| ==> ts[i].exitDate.Some?
    ensures |pts| == |ts|
    ensures forall i :: 0 <= i < |ts| ==> pts[i] == Point(ts[i].exitDate.value, ts[i].pnlcomm)
  {
    seq(|ts|, i requires 0 <= i < |ts| => Point(ts[i].exitDate.value, ts[i].pnlcomm))
  }

  /** The accumulator and all points after calling `calc_equity` on each
      trade in turn, starting from a fresh analyzer. */
  function CalcEquityRun(ts: seq<Trade>): (Option<real>, seq<Point>)
    requires forall i :: 0 <= i < |ts| ==> ts[i].exitDate.Some?
  {
    if ts == [] then (None, [])
    else
      var (acc, pts) := CalcEquityRun(ts[..|ts| - 1]);
      var (acc', step) := EquityStep(acc, ts[|ts| - 1]);
      (acc', pts + step.value)
  }

  /** The bracketing algorithm is the running sum with an explicit zero point
      at the first trade's entry date: fed the closed trades in exit order,
      it yields that zero point followed by the primary equity curve, and
      its accumulator ends at the total pnlcomm. */
  lemma {:induction false} BracketingIsZeroThenRunningSum(ts: seq<Trade>)
    requires |ts| > 0
    requires forall i :: 0 <= i < |ts| ==> ts[i].exitDate.Some?
    ensures CalcEquityRun(ts).1 == [Point(ts[0].entryDate, 0.0)] + RunningSum(ExitPoints(ts))
    ensures CalcEquityRun(ts).0 == Some(Total(ExitPoints(ts)))
  {
    var p := ts[..|ts| - 1];
    var t := ts[|ts| - 1];
    var pts := ExitPoints(ts);
    assert ExitPoints(p) == pts[..|ts| - 1];
    if |p| == 0 {
      assert pts[..0] == [];
      assert RunningSum(pts) == [Point(t.exitDate.value, Total(pts))];
    } else {
      BracketingIsZeroThenRunningSum(p);
      assert p[0] == ts[0];
      var c0 := RunningSum(pts[..|ts| - 1]);
      var c := RunningSum(pts);
      assert c == c0 + [Point(t.exitDate.value, Total(pts))];
    }
  }

  /** A trade notified open and then closed under the same id leaves no open
      row, one closed row and the one-point curve (exit date, pnlcomm). */
  method ReclosedTradeScenario(entry: int, exit: int)
  {
    var first := Trade(1, true, true, 100.0, entry, None, None, 0.0, 0.0, None);
    var closed := Trade(1, false, true, 100.0, entry, Some(110.0), Some(exit), 10.0, 10.0, None);
    var rec := new TradeRecorder(TradesAndEquity);
    var o1 := rec.NotifyTrade(first);
    assert rec.tradeDict == Some(Store([1], map[1 := first]));
    var o2 := rec.NotifyTrade(closed);
    assert map[1 := first][1 := closed] == map[1 := closed];
    assert rec.tradeDict == Some(Store([1], map[1 := closed]));
    assert StoredTrades(rec.tradeDict.value) == [closed];
    SeparatesOpenOnlyWithEquity(TradesAndEquity);
    var row := TradeRow(closed).(exit := Some(Exit(exit, 110.0)));
    assert [closed][..0] == [];
    assert ScanTrades(true, TradesAndEquity, [closed]) == Scan([], [row], None);
    var out := rec.Stop();
    assert out == Pass && rec.tradeDict == None;
    assert rec.openTrades == None && rec.closedTrades == Some([row]);
    var pt := Point(exit, 10.0);
    assert Points([row]) == [pt];
    assert IsEquityCurveOf([pt], [pt]) by {
      assert Increments([pt]) == [pt];
    }
    CurveUniqueWithoutTies([pt], rec.equityCurve.value, [pt]);
    assert rec.equityCurve == Some([pt]);
  }

  /** `create_analysis`: a recorder for a valid mode, the configuration error
      otherwise. */
  method CreateAnalysis(mode: string) returns (r: Result<TradeRecorder>)
    ensures r.Ok? <==> mode in ModeNames
    ensures r.Err? ==> r.error == ConfigurationError(mode)
    ensures r.Ok? ==>
      && fresh(r.value) && ModeName(r.value.mode) == mode
      && r.value.Valid() && r.value.Collecting()
      && r.value.tradeDict == Some(EmptyStore) && r.value.cumulativeEquity == None
  {
    var parsed := ParseMode(mode);
    if parsed.Err? {
      return Err(parsed.error);
    }
    var rec := new TradeRecorder(parsed.value);
    return Ok(rec);
  }
}

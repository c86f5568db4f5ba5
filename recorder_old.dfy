/** The earlier TradeRecorder analyzer (backtrader/analyzers/traderecorderOLD.py):
    the same last-write-wins store, and a `stop` that turns each stored
    trade into a row of named fields in `openTrades` or `closedTrades`.
    As written, the line after a closed trade's row appends to an
    equity list that `create_analysis` never set up and calls `pnlcomm`,
    a number, as a function; the model takes that line as raising. */
module RecorderOld {
  import opened TradeBook

  /** One row of `openTrades` or `closedTrades`. Open rows have no exit
      fields; `r` is the `R` key, present only when the trade has `R`. */
  datatype Row = Row(
    entryPrice: real,
    entryDate: int,
    exit: Option<Exit>,
    pnl: real,
    pnlcomm: real,
    tradeid: int,
    r: Option<real>)

  /** The row of an open trade: entry fields, pnl, pnlcomm, tradeid, and `R`
      if the trade has it. */
  function OpenRow(t: Trade): (row: Row)
    ensures row.exit.None? && row.tradeid == t.tradeid
    ensures row.entryPrice == t.entryPrice && row.entryDate == t.entryDate
    ensures row.pnl == t.pnl && row.pnlcomm == t.pnlcomm
    ensures row.r == t.r
  {
    Row(t.entryPrice, t.entryDate, None, t.pnl, t.pnlcomm, t.tradeid, t.r)
  }

  /** The row of a closed trade: the open row's fields plus exit price and
      date; a trade lacking either raises `AttributeError`. */
  function ClosedRow(t: Trade): (r: Result<Row>)
    ensures r.Ok? <==> HasExit(t)
    ensures r.Ok? ==> r.value == OpenRow(t).(exit := Some(ExitOf(t)))
    ensures r.Err? ==> r.error == AttributeError(t.tradeid)
  {
    if HasExit(t) then Ok(Row(t.entryPrice, t.entryDate, Some(ExitOf(t)), t.pnl, t.pnlcomm, t.tradeid, t.r))
    else Err(AttributeError(t.tradeid))
  }

  datatype Scan = Scan(open: seq<Row>, closed: seq<Row>, failure: Option<Error>)

  /** One turn of the loop of `stop`. `equityLine` says whether the equity
      append after a closed row is executed (it is, as written, and raises). */
  function ScanStep(equityLine: bool, sc: Scan, t: Trade): Scan {
    if t.isopen then sc.(open := sc.open + [OpenRow(t)])
    else
      match ClosedRow(t)
      case Err(e) => sc.(failure := Some(e))
      case Ok(row) => sc.(closed := sc.closed + [row], failure := if equityLine then Some(TypeError) else None)
  }

  /** The loop of `stop` over the stored trades, stopping at the first
      exception. */
  function ScanTrades(equityLine: bool, ts: seq<Trade>): (sc: Scan)
    ensures |sc.open| + |sc.closed| <= |ts|
  {
    if ts == [] then Scan([], [], None)
    else
      var sc := ScanTrades(equityLine, ts[..|ts| - 1]);
      if sc.failure.Some? then sc else ScanStep(equityLine, sc, ts[|ts| - 1])
  }

  function OpenRows(ts: seq<Trade>): (rows: seq<Row>)
    ensures |rows| == |ts|
    ensures forall i :: 0 <= i < |ts| ==> rows[i] == OpenRow(ts[i])
  {
    seq(|ts|, i requires 0 <= i < |ts| => OpenRow(ts[i]))
  }

  /** One more trade extends the scan of a prefix that has not raised. */
  lemma ScanPrefixStep(equityLine: bool, ts: seq<Trade>, i: int)
    requires 0 <= i < |ts|
    requires ScanTrades(equityLine, ts[..i]).failure.None?
    ensures ScanTrades(equityLine, ts[..i + 1]) == ScanStep(equityLine, ScanTrades(equityLine, ts[..i]), ts[i])
  {
    assert ts[..i + 1][..i] == ts[..i];
  }

  lemma {:induction false} ScanFailureSticks(equityLine: bool, ts: seq<Trade>, k: int)
    requires 0 <= k <= |ts|
    requires ScanTrades(equityLine, ts[..k]).failure.Some?
    ensures ScanTrades(equityLine, ts) == ScanTrades(equityLine, ts[..k])
  {
    if k < |ts| {
      assert ts[..|ts| - 1][..k] == ts[..k];
      ScanFailureSticks(equityLine, ts[..|ts| - 1], k);
    } else {
      assert ts[..k] == ts;
    }
  }

  /** As written, `stop` gets through its loop only when no trade is closed:
      the first closed trade either lacks its exit data or has its row
      appended and then raises at the equity line. */
  lemma {:induction false} ClosedTradeAbortsStop(ts: seq<Trade>)
    ensures ScanTrades(true, ts).failure.None? <==> forall i :: 0 <= i < |ts| ==> ts[i].isopen
    ensures ScanTrades(true, ts).failure.None? ==>
      ScanTrades(true, ts) == Scan(OpenRows(ts), [], None)
  {
    if ts != [] {
      var p := ts[..|ts| - 1];
      ClosedTradeAbortsStop(p);
      assert forall i :: 0 <= i < |p| ==> p[i] == ts[i];
      var sc := ScanTrades(true, ts);
      if sc.failure.None? {
        assert OpenRows(ts) == OpenRows(p) + [OpenRow(ts[|ts| - 1])];
      }
    }
  }

  /** A counterexample: one closed trade with its exit data makes `stop`
      raise, after its row has been appended. */
  lemma OneClosedTradeRaises(t: Trade)
    requires !t.isopen && HasExit(t)
    ensures ScanTrades(true, [t]) == Scan([], [OpenRow(t).(exit := Some(ExitOf(t)))], Some(TypeError))
  {
    assert [t][..0] == [];
  }

  /** Without the equity line, `stop` splits the trades as its comments
      describe: each stored trade yields exactly one row, open trades in
      `open` and closed trades, with their exit fields, in `closed`, in store
      order; it raises only for a closed trade that lacks its exit data. */
  lemma {:induction false} IntendedStopSplitsByStatus(ts: seq<Trade>)
    ensures ScanTrades(false, ts).failure.None? <==>
      forall i :: 0 <= i < |ts| && !ts[i].isopen ==> HasExit(ts[i])
    ensures var sc := ScanTrades(false, ts);
      sc.failure.None? ==>
        && sc.open == OpenRows(OpenOnes(ts))
        && |sc.closed| == |ClosedOnes(ts)|
        && (forall i :: 0 <= i < |sc.closed| ==> ClosedRow(ClosedOnes(ts)[i]) == Ok(sc.closed[i]))
        && |sc.open| + |sc.closed| == |ts|
  {
    OpenClosedCount(ts);
    if ts != [] {
      var p := ts[..|ts| - 1];
      var t := ts[|ts| - 1];
      IntendedStopSplitsByStatus(p);
      assert forall i :: 0 <= i < |p| ==> p[i] == ts[i];
      var sc := ScanTrades(false, ts);
      if sc.failure.None? {
        if t.isopen {
          assert OpenRows(OpenOnes(ts)) == OpenRows(OpenOnes(p)) + [OpenRow(t)];
        } else {
          assert ClosedOnes(ts) == ClosedOnes(p) + [t];
        }
      }
    }
  }

  /** Without the equity line, `stop` yields one row per distinct trade id
      notified. */
  lemma IntendedRowsPerDistinctId(ns: seq<Trade>)
    ensures var sc := ScanTrades(false, StoredTrades(Replay(ns)));
      sc.failure.None? ==> |sc.open| + |sc.closed| == |Ids(ns)|
  {
    IntendedStopSplitsByStatus(StoredTrades(Replay(ns)));
    ReplayCount(ns);
  }

  /** With only open trades, the code as written and the intended one agree. */
  lemma {:induction false} AllOpenAgrees(ts: seq<Trade>)
    requires forall i :: 0 <= i < |ts| ==> ts[i].isopen
    ensures ScanTrades(true, ts) == ScanTrades(false, ts)
  {
    if ts != [] {
      AllOpenAgrees(ts[..|ts| - 1]);
    }
  }

  /** The analyzer. `tradeDict` is `_tradeDict` (`None` once torn down);
      `openTrades` and `closedTrades` are the lists in `rets`. */
  class TradeRecorder {
    var tradeDict: Option<Store>
    var openTrades: seq<Row>
    var closedTrades: seq<Row>

    ghost predicate Valid()
      reads this
    {
      tradeDict.Some? ==> ValidStore(tradeDict.value)
    }

    /** Still collecting: the row lists are the empty lists set up by
        `create_analysis`. */
    ghost predicate Collecting()
      reads this
    {
      tradeDict.Some? ==> openTrades == [] && closedTrades == []
    }

    /** `create_analysis`. */
    constructor ()
      ensures Valid() && Collecting()
      ensures tradeDict == Some(EmptyStore) && openTrades == [] && closedTrades == []
    {
      tradeDict := Some(EmptyStore);
      openTrades, closedTrades := [], [];
    }

    /** `notify_trade`: the trade replaces any earlier one with its id. After
        `stop` the store is `None` and the assignment raises. */
    method NotifyTrade(t: Trade) returns (out: Outcome)
      requires Valid()
      modifies this`tradeDict
      ensures Valid()
      ensures old(Collecting()) ==> Collecting()
      ensures old(tradeDict).None? ==> out == Fail(TypeError) && tradeDict == None
      ensures old(tradeDict).Some? ==> out == Pass && tradeDict == Some(Put(old(tradeDict).value, t))
    {
      if tradeDict.None? {
        return Fail(TypeError);
      }
      tradeDict := Some(Put(tradeDict.value, t));
      return Pass;
    }

    /** One turn of the loop of `stop`: the trade's row goes to its list,
        and an exception, if any, is returned. */
    method AppendRow(t: Trade) returns (failure: Option<Error>)
      modifies this`openTrades, this`closedTrades
      ensures Scan(openTrades, closedTrades, failure) == ScanStep(true, Scan(old(openTrades), old(closedTrades), None), t)
    {
      if t.isopen {
        openTrades := openTrades + [OpenRow(t)];
        return None;
      }
      var row := ClosedRow(t);
      if row.Err? {
        return Some(row.error);
      }
      closedTrades := closedTrades + [row.value];
      return Some(TypeError);
    }

    /** `stop`: one row per stored trade, in store order, then the store is
        torn down. An exception leaves the store in place and the lists as
        far as they got; the teardown itself leaves the lists alone. */
    method Stop() returns (out: Outcome)
      requires Valid() && Collecting()
      modifies this
      ensures Valid()
      ensures old(tradeDict).None? ==>
        out == Fail(TypeError) && tradeDict == None
        && openTrades == old(openTrades) && closedTrades == old(closedTrades)
      ensures old(tradeDict).Some? ==>
        var sc := ScanTrades(true, StoredTrades(old(tradeDict).value));
        && openTrades == sc.open && closedTrades == sc.closed
        && (sc.failure.None? ==> out == Pass && tradeDict == None)
        && (sc.failure.Some? ==> out == Fail(sc.failure.value) && tradeDict == old(tradeDict))
    {
      if tradeDict.None? {
        return Fail(TypeError);
      }
      var store := tradeDict.value;
      ghost var ts := StoredTrades(store);
      var i := 0;
      while i < |store.ids|
        invariant 0 <= i <= |store.ids|
        invariant tradeDict == old(tradeDict)
        invariant ScanTrades(true, ts[..i]) == Scan(openTrades, closedTrades, None)
      {
        var t := store.byId[store.ids[i]];
        assert t == ts[i];
        ScanPrefixStep(true, ts, i);
        var failure := AppendRow(t);
        if failure.Some? {
          ScanFailureSticks(true, ts, i + 1);
          return Fail(failure.value);
        }
        i := i + 1;
      }
      assert ts[..i] == ts;
      tradeDict := None;
      return Pass;
    }
  }
}

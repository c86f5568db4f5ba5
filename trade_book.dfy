/** Trades as both TradeRecorder analyzers receive them, and the `_tradeDict`
    store in which both keep the latest notification per `tradeid`. */
module TradeBook {

  datatype Option<+T> = None | Some(value: T)

  /** The exceptions the analyzers let escape to their caller. */
  datatype Error =
    | ConfigurationError(given: string)  // `mode` is not one of the allowed names
    | AttributeError(tradeid: int)       // a trade lacks its exit price or exit date
    | TypeError                          // an operation on `None`, or a number called as a function

  datatype Outcome = Pass | Fail(error: Error)

  datatype Result<+T> = Ok(value: T) | Err(error: Error)

  /** The fields of a backtrader trade that the analyzers read. An absent
      exit price or exit date stands for an attribute the trade object lacks
      (the public Trade class has no `exit_price`). */
  datatype Trade = Trade(
    tradeid: int,
    isopen: bool,
    long: bool,
    entryPrice: real,
    entryDate: int,
    exitPrice: Option<real>,
    exitDate: Option<int>,
    pnl: real,
    pnlcomm: real,
    r: Option<real>)

  datatype Exit = Exit(date: int, price: real)

  predicate HasExit(t: Trade) {
    t.exitPrice.Some? && t.exitDate.Some?
  }

  function ExitOf(t: Trade): Exit
    requires HasExit(t)
  {
    Exit(t.exitDate.value, t.exitPrice.value)
  }

  /** The trades still open, in their original order. */
  function OpenOnes(ts: seq<Trade>): (r: seq<Trade>)
    ensures forall i :: 0 <= i < |r| ==> r[i].isopen
  {
    if ts == [] then []
    else OpenOnes(ts[..|ts| - 1]) + (if ts[|ts| - 1].isopen then [ts[|ts| - 1]] else [])
  }

  /** The trades already closed, in their original order. */
  function ClosedOnes(ts: seq<Trade>): (r: seq<Trade>)
    ensures forall i :: 0 <= i < |r| ==> !r[i].isopen
  {
    if ts == [] then []
    else ClosedOnes(ts[..|ts| - 1]) + (if ts[|ts| - 1].isopen then [] else [ts[|ts| - 1]])
  }

  /** Every trade is either open or closed, never both. */
  lemma {:induction false} OpenClosedCount(ts: seq<Trade>)
    ensures |OpenOnes(ts)| + |ClosedOnes(ts)| == |ts|
  {
    if ts != [] {
      OpenClosedCount(ts[..|ts| - 1]);
    }
  }

  predicate Distinct(ids: seq<int>) {
    forall i, j :: 0 <= i < j < |ids| ==> ids[i] != ids[j]
  }

  /** A Python dict keyed by `tradeid`: the keys in the order of their first
      insertion (the dict's iteration order) and the key-to-trade mapping. */
  datatype Store = Store(ids: seq<int>, byId: map<int, Trade>)

  ghost predicate ValidStore(s: Store) {
    && Distinct(s.ids)
    && (forall k :: k in s.byId <==> k in s.ids)
    && (forall k :: k in s.byId ==> s.byId[k].tradeid == k)
  }

  const EmptyStore: Store := Store([], map[])

  /** `_tradeDict[trade.tradeid] = trade`: the id now maps to the new trade,
      every other id keeps its trade, and a new id goes to the end of the
      iteration order while a known id keeps its place. */
  function Put(s: Store, t: Trade): (s': Store)
    requires ValidStore(s)
    ensures ValidStore(s')
    ensures t.tradeid in s'.byId && s'.byId[t.tradeid] == t
    ensures forall k :: k != t.tradeid ==> (k in s'.byId <==> k in s.byId)
    ensures forall k :: k in s.byId && k != t.tradeid ==> s'.byId[k] == s.byId[k]
    ensures |s'.ids| == if t.tradeid in s.byId then |s.ids| else |s.ids| + 1
    ensures s'.ids[..|s.ids|] == s.ids
  {
    Store(if t.tradeid in s.byId then s.ids else s.ids + [t.tradeid], s.byId[t.tradeid := t])
  }

  /** The stored trades in iteration order (`for n in self._tradeDict`). */
  function StoredTrades(s: Store): (ts: seq<Trade>)
    requires ValidStore(s)
    ensures |ts| == |s.ids| == |s.byId|
    ensures forall i :: 0 <= i < |ts| ==> ts[i].tradeid == s.ids[i] && ts[i] == s.byId[s.ids[i]]
  {
    DistinctSetSize(s.ids);
    assert forall k :: k in s.byId.Keys <==> k in (set k | k in s.ids);
    assert s.byId.Keys == set k | k in s.ids;
    seq(|s.ids|, i requires 0 <= i < |s.ids| => s.byId[s.ids[i]])
  }

  lemma {:induction false} DistinctSetSize(ids: seq<int>)
    requires Distinct(ids)
    ensures |set k | k in ids| == |ids|
  {
    if ids != [] {
      var p := ids[..|ids| - 1];
      DistinctSetSize(p);
      assert (set k | k in ids) == (set k | k in p) + {ids[|ids| - 1]};
      assert ids[|ids| - 1] !in p;
    }
  }

  /** The store after notifying the trades `ns` in order, starting empty. */
  function Replay(ns: seq<Trade>): (s: Store)
    ensures ValidStore(s)
  {
    if ns == [] then EmptyStore else Put(Replay(ns[..|ns| - 1]), ns[|ns| - 1])
  }

  /** The distinct ids among the notifications. */
  function Ids(ns: seq<Trade>): set<int> {
    set t | t in ns :: t.tradeid
  }

  /** Where the id `k` was first notified. */
  function FirstIndex(ns: seq<Trade>, k: int): (j: nat)
    requires k in Ids(ns)
    ensures j < |ns| && ns[j].tradeid == k
    ensures forall i :: 0 <= i < j ==> ns[i].tradeid != k
  {
    var p := ns[..|ns| - 1];
    if k in Ids(p) then FirstIndex(p, k)
    else
      assert forall i :: 0 <= i < |p| ==> p[i] in p;
      |ns| - 1
  }

  /** The store holds exactly the ids that were notified. */
  lemma {:induction false} ReplayKeys(ns: seq<Trade>)
    ensures Replay(ns).byId.Keys == Ids(ns)
  {
    if ns != [] {
      var p := ns[..|ns| - 1];
      var t := ns[|ns| - 1];
      ReplayKeys(p);
      IdsSnoc(p, t);
      assert ns == p + [t];
      var s0 := Replay(p);
      assert Replay(ns) == Put(s0, t);
      assert s0.byId[t.tradeid := t].Keys == s0.byId.Keys + {t.tradeid};
    }
  }

  lemma IdsSnoc(p: seq<Trade>, t: Trade)
    ensures Ids(p + [t]) == Ids(p) + {t.tradeid}
  {
    assert forall u :: u in p + [t] <==> u in p || u == t;
  }

  /** Last write wins: each id maps to the last trade notified with that id. */
  lemma {:induction false} ReplayLastWriteWins(ns: seq<Trade>, j: int)
    requires 0 <= j < |ns|
    requires forall i :: j < i < |ns| ==> ns[i].tradeid != ns[j].tradeid
    ensures ns[j].tradeid in Replay(ns).byId && Replay(ns).byId[ns[j].tradeid] == ns[j]
  {
    if j < |ns| - 1 {
      ReplayLastWriteWins(ns[..|ns| - 1], j);
    }
  }

  /** The iteration order is the order of first notification, whatever was
      overwritten later. */
  lemma {:induction false} ReplayFirstInsertionOrder(ns: seq<Trade>, p: int, q: int)
    requires 0 <= p < q < |Replay(ns).ids|
    ensures Replay(ns).ids[p] in Ids(ns) && Replay(ns).ids[q] in Ids(ns)
    ensures FirstIndex(ns, Replay(ns).ids[p]) < FirstIndex(ns, Replay(ns).ids[q])
  {
    ReplayKeys(ns);
    var pre := ns[..|ns| - 1];
    var s, s0 := Replay(ns), Replay(pre);
    ReplayKeys(pre);
    assert s.ids[p] in s.byId && s.ids[q] in s.byId;
    if q < |s0.ids| {
      assert s.ids[p] == s0.ids[p] && s.ids[q] == s0.ids[q];
      assert s0.ids[p] in s0.byId && s0.ids[q] in s0.byId;
      ReplayFirstInsertionOrder(pre, p, q);
    } else {
      assert s.ids[q] == ns[|ns| - 1].tradeid && ns[|ns| - 1].tradeid !in Ids(pre);
      assert s.ids[p] == s0.ids[p] && s0.ids[p] in s0.byId;
      assert FirstIndex(ns, s.ids[p]) == FirstIndex(pre, s.ids[p]) < |pre|;
    }
  }

  /** One stored trade per distinct id notified. */
  lemma ReplayCount(ns: seq<Trade>)
    ensures |StoredTrades(Replay(ns))| == |Ids(ns)|
  {
    ReplayKeys(ns);
  }
}

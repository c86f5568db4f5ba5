/** The equity curve of traderecorder.py: closed trades' (exit date, pnlcomm)
    pairs sorted by exit date, then a running sum of pnlcomm, so the curve
    starts implicitly from zero. */
module EquityCurves {

  /** A dated amount: (exit_date, pnlcomm) before the running sum and
      (date, equity) after it. */
  datatype Point = Point(date: int, value: real)

  /** The sum of the amounts. */
  function Total(s: seq<Point>): real {
    if s == [] then 0.0 else Total(s[..|s| - 1]) + s[|s| - 1].value
  }

  predicate SortedByDate(s: seq<Point>) {
    forall i, j :: 0 <= i < j < |s| ==> s[i].date <= s[j].date
  }

  predicate StrictlyByDate(s: seq<Point>) {
    forall i, j :: 0 <= i < j < |s| ==> s[i].date < s[j].date
  }

  function InsertByDate(s: seq<Point>, p: Point): (r: seq<Point>)
    requires SortedByDate(s)
    ensures SortedByDate(r)
    ensures multiset(r) == multiset(s) + multiset{p}
  {
    if s == [] then [p]
    else if s[0].date <= p.date then
      var rest := InsertByDate(s[1..], p);
      assert s == [s[0]] + s[1..];
      InsertAfterFirst(s[0], s[1..], p, rest);
      [s[0]] + rest
    else [p] + s
  }

  lemma InsertAfterFirst(x: Point, s: seq<Point>, p: Point, rest: seq<Point>)
    requires SortedByDate([x] + s) && x.date <= p.date
    requires SortedByDate(rest) && multiset(rest) == multiset(s) + multiset{p}
    ensures SortedByDate([x] + rest)
  {
    forall i | 0 <= i < |rest| ensures x.date <= rest[i].date {
      assert rest[i] in multiset(rest);
      if rest[i] != p {
        assert rest[i] in multiset(s);
        var j :| 0 <= j < |s| && s[j] == rest[i];
        var xs := [x] + s;
        assert xs[0] == x && xs[j + 1] == s[j];
        assert xs[0].date <= xs[j + 1].date;
      }
    }
    var r := [x] + rest;
    forall i, j | 0 <= i < j < |r| ensures r[i].date <= r[j].date {
      if i > 0 {
        assert r[i] == rest[i - 1] && r[j] == rest[j - 1];
      } else {
        assert r[j] == rest[j - 1];
      }
    }
  }

  /** The sort of `sort_values(['exit_date'], ascending=True)`; pandas makes
      no promise about the order of equal dates, and neither does anything
      that uses this function beyond its contract. */
  function SortByDate(s: seq<Point>): (r: seq<Point>)
    ensures SortedByDate(r)
    ensures multiset(r) == multiset(s)
  {
    if s == [] then []
    else
      assert s == s[..|s| - 1] + [s[|s| - 1]];
      InsertByDate(SortByDate(s[..|s| - 1]), s[|s| - 1])
  }

  /** `cumsum`: point i carries the date of s[i] and the total of s[..i+1]. */
  function RunningSum(s: seq<Point>): (c: seq<Point>)
    ensures |c| == |s|
    ensures forall i {:trigger c[i]} :: 0 <= i < |s| ==> c[i].date == s[i].date && c[i].value == Total(s[..i + 1])
  {
    if s == [] then []
    else
      var p := s[..|s| - 1];
      var c := RunningSum(p) + [Point(s[|s| - 1].date, Total(s))];
      assert forall i :: 0 <= i < |p| ==> c[i] == RunningSum(p)[i] && p[..i + 1] == s[..i + 1];
      assert s[..|s|] == s;
      c
  }

  /** The inverse of the running sum: each point's value minus the previous
      point's value (zero before the first). */
  function Increments(c: seq<Point>): (d: seq<Point>)
    ensures |d| == |c|
    ensures forall i {:trigger d[i]} :: 0 <= i < |c| ==> d[i].date == c[i].date
  {
    seq(|c|, i requires 0 <= i < |c| => Point(c[i].date, c[i].value - (if i == 0 then 0.0 else c[i - 1].value)))
  }

  /** `c` is a valid equity curve for the amounts `pts`: its dates ascend and
      it is the running sum of some rearrangement of `pts`. Equal dates may
      come in any order. */
  ghost predicate IsEquityCurveOf(c: seq<Point>, pts: seq<Point>) {
    SortedByDate(c) && multiset(Increments(c)) == multiset(pts)
  }

  lemma TotalStep(s: seq<Point>, i: int)
    requires 0 <= i < |s|
    ensures Total(s[..i + 1]) == Total(s[..i]) + s[i].value
  {
    assert s[..i + 1][..i] == s[..i];
  }

  lemma {:induction false} IncrementsOfRunningSum(s: seq<Point>)
    ensures Increments(RunningSum(s)) == s
  {
    var c := RunningSum(s);
    var d := Increments(c);
    forall i | 0 <= i < |s| ensures d[i].value == s[i].value {
      TotalStep(s, i);
      if i == 0 {
        assert s[..0] == [];
      }
    }
    assert forall i :: 0 <= i < |s| ==> d[i] == Point(s[i].date, s[i].value);
    assert d == s;
  }

  lemma {:induction false} TotalOfIncrements(c: seq<Point>, i: int)
    requires 0 <= i < |c|
    ensures Total(Increments(c)[..i + 1]) == c[i].value
  {
    var d := Increments(c);
    assert d[..i + 1][..i] == d[..i];
    if i > 0 {
      TotalOfIncrements(c, i - 1);
    }
  }

  lemma RunningSumOfIncrements(c: seq<Point>)
    ensures RunningSum(Increments(c)) == c
  {
    forall i | 0 <= i < |c| ensures RunningSum(Increments(c))[i] == c[i] {
      TotalOfIncrements(c, i);
    }
  }

  /** The curve built as the source builds it, by sorting and summing, is a
      valid equity curve. */
  function DeriveCurve(pts: seq<Point>): (c: seq<Point>)
    ensures IsEquityCurveOf(c, pts)
  {
    IncrementsOfRunningSum(SortByDate(pts));
    RunningSum(SortByDate(pts))
  }

  lemma {:induction false} TotalRemove(b: seq<Point>, j: int)
    requires 0 <= j < |b|
    ensures Total(b) == Total(b[..j] + b[j + 1..]) + b[j].value
  {
    var last := |b| - 1;
    if j < last {
      var p := b[..last];
      TotalRemove(p, j);
      assert b[..j] + b[j + 1..] == (p[..j] + p[j + 1..]) + [b[last]];
      assert ((p[..j] + p[j + 1..]) + [b[last]])[..last - 1] == p[..j] + p[j + 1..];
    } else {
      assert b[..j] + b[j + 1..] == b[..last];
    }
  }

  /** The total does not depend on the order of the amounts. */
  lemma {:induction false} TotalPermutation(a: seq<Point>, b: seq<Point>)
    requires multiset(a) == multiset(b)
    ensures Total(a) == Total(b)
  {
    if a != [] {
      var x := a[|a| - 1];
      assert a == a[..|a| - 1] + [x];
      assert x in multiset(b);
      var j :| 0 <= j < |b| && b[j] == x;
      assert b == b[..j] + [x] + b[j + 1..];
      var rest := b[..j] + b[j + 1..];
      assert multiset(b) == multiset(rest) + multiset{x} by {
        assert multiset(b) == multiset(b[..j]) + multiset{x} + multiset(b[j + 1..]);
      }
      assert multiset(a) == multiset(a[..|a| - 1]) + multiset{x};
      assert multiset(a[..|a| - 1]) == multiset(a) - multiset{x} == multiset(rest);
      TotalPermutation(a[..|a| - 1], b[..j] + b[j + 1..]);
      TotalRemove(b, j);
    } else {
      assert |b| == |multiset(b)| == 0;
    }
  }

  lemma LastIsTotalOfIncrements(c: seq<Point>)
    requires |c| > 0
    ensures c[|c| - 1].value == Total(Increments(c))
  {
    TotalOfIncrements(c, |c| - 1);
    assert Increments(c)[..|c|] == Increments(c);
  }

  lemma SameLength(a: seq<Point>, b: seq<Point>)
    requires multiset(a) == multiset(b)
    ensures |a| == |b|
  {
    assert |a| == |multiset(a)| && |b| == |multiset(b)|;
  }

  /** A curve is the running sum of the rearrangement of the amounts that
      its own increments give: point i holds the total of the first i+1
      amounts in ascending date order. */
  lemma CurveIsRunningSumOfSortedAmounts(c: seq<Point>, pts: seq<Point>)
    requires IsEquityCurveOf(c, pts)
    ensures SortedByDate(Increments(c)) && multiset(Increments(c)) == multiset(pts)
    ensures c == RunningSum(Increments(c))
    ensures forall i {:trigger c[i]} :: 0 <= i < |c| ==> c[i].value == Total(Increments(c)[..i + 1])
  {
    RunningSumOfIncrements(c);
  }

  /** One point per amount, and the last point's equity is the sum of all
      amounts, whatever order equal dates were put in. */
  lemma CurveLengthAndFinalEquity(c: seq<Point>, pts: seq<Point>)
    requires IsEquityCurveOf(c, pts)
    ensures |c| == |pts|
    ensures |c| > 0 ==> c[|c| - 1].value == Total(pts)
  {
    SameLength(Increments(c), pts);
    if |c| > 0 {
      LastIsTotalOfIncrements(c);
      TotalPermutation(Increments(c), pts);
    }
  }

  lemma LastElementsAgree(a: seq<Point>, b: seq<Point>)
    requires StrictlyByDate(a) && SortedByDate(b)
    requires multiset(a) == multiset(b) && |a| == |b| > 0
    ensures a[|a| - 1] == b[|b| - 1]
  {
    var n := |a| - 1;
    var x, y := a[n], b[n];
    assert y in multiset(a) && x in multiset(b);
    var k :| 0 <= k < |a| && a[k] == y;
    var m :| 0 <= m < |b| && b[m] == x;
    assert x.date <= y.date by {
      if m < n {
        assert b[m].date <= b[n].date;
      }
    }
    assert k == n;
  }

  /** Equal multisets with the same last element stay equal without it. */
  lemma DropLastAgreeing(a: seq<Point>, b: seq<Point>)
    requires multiset(a) == multiset(b) && |a| == |b| > 0
    requires a[|a| - 1] == b[|b| - 1]
    ensures multiset(a[..|a| - 1]) == multiset(b[..|b| - 1])
  {
    var n := |a| - 1;
    var x := a[n];
    assert a == a[..n] + [x] && b == b[..n] + [x];
    assert multiset(a) == multiset(a[..n]) + multiset{x};
    assert multiset(b) == multiset(b[..n]) + multiset{x};
    assert multiset(a[..n]) == multiset(a) - multiset{x};
  }

  /** Two date-sorted rearrangements of the same amounts are equal when the
      first has no two equal dates. */
  lemma {:induction false} SortedRearrangementUnique(a: seq<Point>, b: seq<Point>)
    requires StrictlyByDate(a) && SortedByDate(b)
    requires multiset(a) == multiset(b)
    ensures a == b
  {
    assert |a| == |multiset(a)| == |multiset(b)| == |b|;
    if a != [] {
      var n := |a| - 1;
      LastElementsAgree(a, b);
      DropLastAgreeing(a, b);
      SortedRearrangementUnique(a[..n], b[..n]);
      assert a == a[..n] + [a[n]] && b == b[..n] + [b[n]];
    }
  }

  /** Ties in exit dates are the only freedom: when one curve for the
      amounts has strictly ascending dates, it is the only one. */
  lemma CurveUniqueWithoutTies(c1: seq<Point>, c2: seq<Point>, pts: seq<Point>)
    requires IsEquityCurveOf(c1, pts) && IsEquityCurveOf(c2, pts)
    requires StrictlyByDate(c1)
    ensures c1 == c2
  {
    SortedRearrangementUnique(Increments(c1), Increments(c2));
    RunningSumOfIncrements(c1);
    RunningSumOfIncrements(c2);
  }

  /** Trades closing out of notification order: B (exit 3, pnlcomm 5) then
      C (exit 2, pnlcomm -2) give the curve (2, -2), (3, 3). */
  lemma OutOfOrderCloses(c: seq<Point>)
    requires IsEquityCurveOf(c, [Point(3, 5.0), Point(2, -2.0)])
    ensures c == [Point(2, -2.0), Point(3, 3.0)]
  {
    var expected := [Point(2, -2.0), Point(3, 3.0)];
    assert Increments(expected) == [Point(2, -2.0), Point(3, 5.0)];
    assert multiset(Increments(expected)) == multiset([Point(3, 5.0), Point(2, -2.0)]);
    CurveUniqueWithoutTies(expected, c, [Point(3, 5.0), Point(2, -2.0)]);
  }
}

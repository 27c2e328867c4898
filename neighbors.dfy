/**
 * Neighbour queries by time: `find_adjacent` (binary search of one stream's times
 * in another's), `closest_event` and `next_event` (argmin over time gaps).
 */
module Neighbors {
  import opened Wrappers
  import opened Events

  predicate Sorted(s: seq<int>)
  {
    forall i, j :: 0 <= i < j < |s| ==> s[i] <= s[j]
  }

  /** Python indexing, where a negative index counts from the end. */
  function PyAt(s: seq<int>, i: int): int
    requires -|s| <= i < |s|
  {
    if i < 0 then s[|s| + i] else s[i]
  }

  /**
   * `numpy.searchsorted(s, t, side='right')`: the insertion point after every
   * element that is at most t.
   */
  method SearchSortedRight(s: seq<int>, t: int) returns (n: nat)
    requires Sorted(s)
    ensures n <= |s|
    ensures forall i :: 0 <= i < n ==> s[i] <= t
    ensures forall i :: n <= i < |s| ==> t < s[i]
  {
    var lo, hi := 0, |s|;
    while lo < hi
      invariant 0 <= lo <= hi <= |s|
      invariant forall i :: 0 <= i < lo ==> s[i] <= t
      invariant forall i :: hi <= i < |s| ==> t < s[i]
    {
      var mid := (lo + hi) / 2;
      if s[mid] <= t {
        lo := mid + 1;
      } else {
        hi := mid;
      }
    }
    n := lo;
  }

  /**
   * One row of `find_adjacent`'s result: previous and next time in b and their
   * indices; `None` stands for the NaN the source writes when there is none.
   */
  datatype Adjacent = Adjacent(
    prevTime: Option<int>,
    nextTime: Option<int>,
    prevIndex: Option<int>,
    nextIndex: Option<int>)

  /**
   * What `find_adjacent` promises of one result row for a time t against the
   * sorted, non-empty times bt: the times bracket t, each is absent exactly when
   * t lies before the first or at/after the last time, and the indices point at
   * the bracketing entries, except that past the end the previous index reads -1.
   */
  ghost predicate Brackets(bt: seq<int>, t: int, r: Adjacent)
    requires |bt| > 0
  {
    var last := |bt| - 1;
    (r.prevTime.None? <==> t < bt[0]) &&
    (r.nextTime.None? <==> t >= bt[last]) &&
    (r.prevIndex.None? <==> r.prevTime.None?) &&
    (r.nextIndex.None? <==> r.nextTime.None?) &&
    (r.prevTime.Some? ==> r.prevTime.value <= t) &&
    (r.nextTime.Some? ==> t < r.nextTime.value) &&
    (r.nextIndex.Some? ==>
       0 <= r.nextIndex.value < |bt| && r.nextTime.value == bt[r.nextIndex.value] &&
       (r.nextIndex.value == 0 || bt[r.nextIndex.value - 1] <= t)) &&
    (r.prevIndex.Some? && r.nextIndex.Some? ==>
       r.prevIndex.value == r.nextIndex.value - 1 && r.prevTime.value == bt[r.prevIndex.value]) &&
    (r.prevIndex.Some? && r.nextIndex.None? ==>
       r.prevIndex.value == -1 && r.prevTime.value == bt[last])
  }

  /**
   * One row of `find_adjacent`: the insertion point of t in bt, then the
   * bracketing times and indices, with the missing side set to None; `neither`
   * is the mask entry, set when both sides are missing.
   */
  method AdjacentTo(bt: seq<int>, t: int) returns (row: Adjacent, neither: bool)
    requires |bt| > 0 && Sorted(bt)
    ensures Brackets(bt, t, row)
    ensures neither <==> Neither(row)
    ensures !neither
  {
    var nb := |bt|;
    var ninds := SearchSortedRight(bt, t);
    var pmask, nmask := ninds == 0, ninds == nb;
    var k: int := if pmask || nmask then 0 else ninds;
    row := Adjacent(Some(PyAt(bt, k - 1)), Some(bt[k]), Some(k - 1), Some(k));
    if pmask {
      row := row.(prevTime := None, prevIndex := None);
    }
    if nmask {
      row := row.(nextTime := None, nextIndex := None);
    }
    neither := pmask && nmask;
  }

  /** Neither a previous nor a next row was found. */
  predicate Neither(r: Adjacent)
  {
    r.prevTime.None? && r.nextTime.None?
  }

  /** `find_adjacent`'s result array and its mask. */
  datatype AdjacentTable = AdjacentTable(rows: seq<Adjacent>, neither: seq<bool>)

  /**
   * `find_adjacent(a, b, return_mask=True)`: for every row of a, the previous and
   * next row of b by time, written into a result array; `neither` is the
   * returned mask of rows with neither. Rows of a against an empty b fail, as
   * reading the last time of b does.
   */
  method FindAdjacent(a: seq<Row>, b: seq<Row>) returns (res: Result<AdjacentTable, Error>)
    requires Sorted(Times(b))
    ensures res.Err? <==> |b| == 0 && |a| > 0
    ensures res.Err? ==> res.error == NoEvents
    ensures res.Ok? ==> |res.value.rows| == |a| && |res.value.neither| == |a|
    ensures res.Ok? && |b| > 0 ==> forall i :: 0 <= i < |a| ==> Brackets(Times(b), a[i].time, res.value.rows[i])
    ensures res.Ok? ==> forall i :: 0 <= i < |a| ==> (res.value.neither[i] <==> Neither(res.value.rows[i]))
    ensures res.Ok? ==> forall i :: 0 <= i < |a| ==> !res.value.neither[i]
  {
    var bt := Times(b);
    var nb := |bt|;
    if nb == 0 {
      return if |a| == 0 then Ok(AdjacentTable([], [])) else Err(NoEvents);
    }
    var out := new Adjacent[|a|](_ => Adjacent(None, None, None, None));
    var mask := new bool[|a|](_ => false);
    for i := 0 to |a|
      invariant forall k :: 0 <= k < i ==> Brackets(bt, a[k].time, out[k]) && !mask[k] && !Neither(out[k])
    {
      var row, neither := AdjacentTo(bt, a[i].time);
      out[i], mask[i] := row, neither;
    }
    res := Ok(AdjacentTable(out[..], mask[..]));
  }

  function Abs(x: int): nat
  {
    if x < 0 then -x else x
  }

  /** `argmin`: the first index holding the least value. */
  function ArgMin(s: seq<int>): (i: nat)
    requires |s| > 0
    ensures i < |s|
    ensures forall j :: 0 <= j < |s| ==> s[i] <= s[j]
    ensures forall j :: 0 <= j < i ==> s[i] < s[j]
  {
    if |s| == 1 then 0
    else
      var k := ArgMin(s[1..]);
      if s[0] <= s[1 + k] then 0 else 1 + k
  }

  /** The distance of each row's time from t. */
  function Distances(evs: seq<Row>, t: int): (d: seq<int>)
    ensures |d| == |evs| && forall i :: 0 <= i < |evs| ==> d[i] == Abs(evs[i].time - t)
  {
    seq(|evs|, i requires 0 <= i < |evs| => Abs(evs[i].time - t))
  }

  /**
   * `closest_event(evs, t, max_dt)`: the first row whose time is nearest to t,
   * or `None` when max_dt is given and even that row is farther than max_dt; an
   * empty table fails, since it has no least distance.
   */
  function ClosestEvent(evs: seq<Row>, t: int, maxDt: Option<int>): (r: Result<Option<Row>, Error>)
    ensures r.Err? <==> |evs| == 0
    ensures r.Err? ==> r.error == NoEvents
    ensures r.Ok? ==>
      (r.value.None? <==> maxDt.Some? && forall j :: 0 <= j < |evs| ==> Abs(evs[j].time - t) > maxDt.value)
    ensures r.Ok? && r.value.Some? ==> exists i :: (0 <= i < |evs| && r.value.value == evs[i] &&
      (forall j :: 0 <= j < |evs| ==> Abs(evs[i].time - t) <= Abs(evs[j].time - t)) &&
      (forall j :: 0 <= j < i ==> Abs(evs[i].time - t) < Abs(evs[j].time - t)))
  {
    if |evs| == 0 then Err(NoEvents)
    else
      var dts := Distances(evs, t);
      var i := ArgMin(dts);
      if maxDt.Some? && dts[i] > maxDt.value then Ok(None) else Ok(Some(evs[i]))
  }

  /** The largest value of a non-empty sequence. */
  function Max(s: seq<int>): (m: int)
    requires |s| > 0
    ensures m in s && forall j :: 0 <= j < |s| ==> s[j] <= m
  {
    if |s| == 1 then s[0]
    else
      var m' := Max(s[1..]);
      assert s[1..][0] == s[1];
      if s[0] >= m' then s[0] else m'
  }

  /** The signed gap from t to each row's time. */
  function Gaps(evs: seq<Row>, t: int): (d: seq<int>)
    ensures |d| == |evs| && forall i :: 0 <= i < |evs| ==> d[i] == evs[i].time - t
  {
    seq(|evs|, i requires 0 <= i < |evs| => evs[i].time - t)
  }

  /** `dts[dts < 0] = dts.max()`: every negative gap replaced by the largest gap. */
  function NextGaps(evs: seq<Row>, t: int): (d: seq<int>)
    requires |evs| > 0
    ensures |d| == |evs|
    ensures forall i :: 0 <= i < |evs| ==> d[i] == (if evs[i].time < t then Max(Gaps(evs, t)) else evs[i].time - t)
  {
    var g := Gaps(evs, t);
    var m := Max(g);
    seq(|g|, i requires 0 <= i < |g| => if g[i] < 0 then m else g[i])
  }

  /** The index `next_event` picks: the argmin of the replaced gaps. */
  function NextIndex(evs: seq<Row>, t: int): (i: nat)
    requires |evs| > 0
    ensures i < |evs|
  {
    ArgMin(NextGaps(evs, t))
  }

  /**
   * `next_event(evs, t, max_dt)`: the row at the least replaced gap, or `None`
   * when max_dt is given and that gap exceeds it; an empty table fails.
   */
  function NextEvent(evs: seq<Row>, t: int, maxDt: Option<int>): (r: Result<Option<Row>, Error>)
    ensures r.Err? <==> |evs| == 0
    ensures r.Err? ==> r.error == NoEvents
    ensures |evs| > 0 ==>
      (r.value.None? <==> maxDt.Some? && NextGaps(evs, t)[NextIndex(evs, t)] > maxDt.value) &&
      (r.value.Some? ==> r.value.value == evs[NextIndex(evs, t)])
  {
    if |evs| == 0 then Err(NoEvents)
    else
      var i := NextIndex(evs, t);
      if maxDt.Some? && NextGaps(evs, t)[i] > maxDt.value then Ok(None) else Ok(Some(evs[i]))
  }

  /**
   * When some row lies at or after t, `next_event` picks a row whose replaced gap
   * is no larger than the gap to any row at or after t. That row lies at or after
   * t, except in the tie the replacement creates: it may precede t only when every
   * row at or after t lies exactly at the latest time and comes later in order.
   */
  lemma NextEventChoice(evs: seq<Row>, t: int)
    requires |evs| > 0
    requires exists j :: 0 <= j < |evs| && evs[j].time >= t
    ensures var i := NextIndex(evs, t);
      (forall j :: 0 <= j < |evs| && evs[j].time >= t ==> NextGaps(evs, t)[i] <= evs[j].time - t) &&
      (evs[i].time >= t ==> NextGaps(evs, t)[i] == evs[i].time - t) &&
      (evs[i].time < t ==> forall j :: 0 <= j < |evs| && evs[j].time >= t ==>
                             i < j && evs[j].time - t == Max(Gaps(evs, t)))
  {
    var g, d, i := Gaps(evs, t), NextGaps(evs, t), NextIndex(evs, t);
    var m := Max(g);
    var j0 :| 0 <= j0 < |evs| && evs[j0].time >= t;
    assert g[j0] >= 0 && m >= g[j0];
    forall j | 0 <= j < |evs| && evs[j].time >= t ensures d[i] <= evs[j].time - t {
      assert d[j] == g[j];
    }
    if evs[i].time < t {
      forall j | 0 <= j < |evs| && evs[j].time >= t
        ensures i < j && evs[j].time - t == m
      {
        assert d[j] == g[j] <= m;
        assert d[i] == m;
      }
    }
  }

  /** When every row precedes t, all gaps become the same and the first row is picked. */
  lemma NextEventAllBefore(evs: seq<Row>, t: int)
    requires |evs| > 0
    requires forall j :: 0 <= j < |evs| ==> evs[j].time < t
    ensures NextIndex(evs, t) == 0
    ensures NextEvent(evs, t, None) == Ok(Some(evs[0]))
  {
    var d := NextGaps(evs, t);
    var m := Max(Gaps(evs, t));
    assert forall j :: 0 <= j < |evs| ==> d[j] == m;
  }

  /**
   * The evidently intended choice among the first n rows: the first row at or
   * after t with the least gap, or `None` when every one of them precedes t.
   */
  function FirstNext(evs: seq<Row>, t: int, n: nat): (r: Option<nat>)
    requires n <= |evs|
    ensures r.None? <==> forall j :: 0 <= j < n ==> evs[j].time < t
    ensures r.Some? ==> r.value < n && evs[r.value].time >= t
    ensures r.Some? ==> forall j :: 0 <= j < n && evs[j].time >= t ==> evs[r.value].time <= evs[j].time
    ensures r.Some? ==> forall j :: 0 <= j < r.value && evs[j].time >= t ==> evs[r.value].time < evs[j].time
  {
    if n == 0 then None
    else
      var b := FirstNext(evs, t, n - 1);
      if evs[n - 1].time >= t && (b.None? || evs[n - 1].time < evs[b.value].time) then Some(n - 1) else b
  }

  /**
   * `next_event` as evidently intended: the first row at or after t with the
   * least gap, `None` when no row is at or after t or when max_dt is given and
   * that gap exceeds it; an empty table fails.
   */
  function NextEventCorrected(evs: seq<Row>, t: int, maxDt: Option<int>): (r: Result<Option<Row>, Error>)
    ensures r.Err? <==> |evs| == 0
    ensures r.Ok? && r.value.Some? ==> exists i :: (0 <= i < |evs| && r.value.value == evs[i] && evs[i].time >= t &&
      (forall j :: 0 <= j < |evs| && evs[j].time >= t ==> evs[i].time <= evs[j].time) &&
      (maxDt.Some? ==> evs[i].time - t <= maxDt.value))
    ensures r.Ok? && r.value.None? ==>
      forall j :: 0 <= j < |evs| && evs[j].time >= t ==> maxDt.Some? && evs[j].time - t > maxDt.value
  {
    if |evs| == 0 then Err(NoEvents)
    else
      match FirstNext(evs, t, |evs|)
      case None => Ok(None)
      case Some(i) => if maxDt.Some? && evs[i].time - t > maxDt.value then Ok(None) else Ok(Some(evs[i]))
  }

  /**
   * The tie: times [0, 10] and t = 5 give the row at time 0, not the one at 10,
   * because the replaced gap of the past row equals the gap of the future one;
   * the corrected choice gives the row at 10.
   */
  lemma NextEventTie(r0: Row, r1: Row)
    requires r0.time == 0 && r1.time == 10
    ensures NextEvent([r0, r1], 5, None) == Ok(Some(r0))
    ensures NextEventCorrected([r0, r1], 5, None) == Ok(Some(r1))
  {
    var evs := [r0, r1];
    var g := Gaps(evs, 5);
    assert g == [-5, 5];
    assert Max(g) == 5;
    assert NextGaps(evs, 5) == [5, 5];
    assert FirstNext(evs, 5, 2) == Some(1);
  }
}

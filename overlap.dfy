/**
 * Overlap indexing: for each interval of one channel, the ascending indices of
 * the intervals of another channel that meet it, widened by a margin; and the
 * map of all six directed channel pairs.
 */
module Overlap {
  import opened Wrappers
  import opened Events

  /** How far an interval is widened before the test: `[start - before, end + after]`. */
  datatype Margin = Margin(before: int, after: int)

  const NoMargin := Margin(0, 0)

  /** A missing margin means `[0, 0]`. */
  function MarginOr(margin: Option<Margin>): Margin
  {
    if margin.Some? then margin.value else NoMargin
  }

  /** y is not disjoint from [st, et]: `not (y.start > et or y.end < st)`. */
  predicate Touches(y: Interval, st: int, et: int)
  {
    !(y.start > et || y.end < st)
  }

  /** y is not disjoint from x widened by m (both ends inclusive). */
  predicate Meets(x: Interval, y: Interval, m: Margin)
  {
    Touches(y, x.start - m.before, x.end + m.after)
  }

  predicate Ascending(s: seq<nat>)
  {
    forall p, q :: 0 <= p < q < |s| ==> s[p] < s[q]
  }

  /** The `numpy.where` scan of b from index k on: the b intervals touching [st, et]. */
  function TouchingFrom(b: seq<Interval>, st: int, et: int, k: nat): (r: seq<nat>)
    requires k <= |b|
    ensures forall j :: j in r <==> k <= j < |b| && Touches(b[j], st, et)
    ensures Ascending(r)
    decreases |b| - k
  {
    if k == |b| then []
    else
      var rest := TouchingFrom(b, st, et, k + 1);
      if Touches(b[k], st, et) then
        AscendingCons(k, rest);
        [k] + rest
      else
        rest
  }

  lemma AscendingCons(x: nat, s: seq<nat>)
    requires Ascending(s) && forall j :: j in s ==> x < j
    ensures Ascending([x] + s)
  {
    assert forall q :: 0 <= q < |s| ==> s[q] in s;
  }

  /** One list per interval of a: the indices of the b intervals meeting it. */
  function OverlapLists(a: seq<Interval>, b: seq<Interval>, m: Margin): (r: seq<seq<nat>>)
    ensures |r| == |a|
    ensures forall i, j :: 0 <= i < |a| ==> (j in r[i] <==> 0 <= j < |b| && Meets(a[i], b[j], m))
    ensures forall i :: 0 <= i < |a| ==> Ascending(r[i])
  {
    seq(|a|, i requires 0 <= i < |a| => TouchingFrom(b, a[i].start - m.before, a[i].end + m.after, 0))
  }

  /**
   * `find_overlapping_durations(a, b, margin)`: for each interval of a, in order,
   * append the ascending list of indices j with
   * `b[j].start <= a[i].end + margin[1]` and `b[j].end >= a[i].start - margin[0]`.
   */
  method FindOverlappingDurations(a: seq<Interval>, b: seq<Interval>, margin: Option<Margin>)
    returns (inds: seq<seq<nat>>)
    ensures inds == OverlapLists(a, b, MarginOr(margin))
    ensures |inds| == |a|
    ensures var m := MarginOr(margin);
      forall i, j :: 0 <= i < |a| ==>
        (j in inds[i] <==> 0 <= j < |b| && b[j].start <= a[i].end + m.after && b[j].end >= a[i].start - m.before)
    ensures forall i :: 0 <= i < |a| ==> Ascending(inds[i])
  {
    var m := MarginOr(margin);
    inds := [];
    for ai := 0 to |a|
      invariant inds == OverlapLists(a[..ai], b, m)
    {
      var st := a[ai].start - m.before;
      var et := a[ai].end + m.after;
      var i := TouchingFrom(b, st, et, 0);
      inds := inds + [i];
    }
    assert a[..|a|] == a;
  }

  /** With equal margins on both sides, j is listed for a[i] iff i is listed for b[j]. */
  lemma OverlapSymmetric(a: seq<Interval>, b: seq<Interval>, m: Margin)
    requires m.before == m.after
    ensures forall i, j :: 0 <= i < |a| && 0 <= j < |b| ==>
      (j in OverlapLists(a, b, m)[i] <==> i in OverlapLists(b, a, m)[j])
  {
  }

  // ---------------------------------------------------------------------------
  // The overlap map over the three channels

  /** The three channels: left beam, right beam and RFID (keys 'l', 'r', 'i'). */
  datatype Channel = Left | Right | Rfid

  /** One value per channel, as the source's `{'l': …, 'r': …, 'i': …}` dictionaries. */
  datatype PerChannel<T> = PerChannel(left: T, right: T, rfid: T)
  {
    function Get(c: Channel): T
    {
      match c
      case Left => left
      case Right => right
      case Rfid => rfid
    }

    function Set(c: Channel, v: T): (r: PerChannel<T>)
      ensures r.Get(c) == v && forall d :: d != c ==> r.Get(d) == Get(d)
    {
      match c
      case Left => this.(left := v)
      case Right => this.(right := v)
      case Rfid => this.(rfid := v)
    }
  }

  /** The six directed overlap lists `omap[from][to]`. */
  datatype OverlapMap = OverlapMap(
    lr: seq<seq<nat>>, li: seq<seq<nat>>,
    rl: seq<seq<nat>>, ri: seq<seq<nat>>,
    il: seq<seq<nat>>, ir: seq<seq<nat>>)
  {
    function Lists(from: Channel, to: Channel): seq<seq<nat>>
      requires from != to
    {
      match (from, to)
      case (Left, Right) => lr
      case (Left, Rfid) => li
      case (Right, Left) => rl
      case (Right, Rfid) => ri
      case (Rfid, Left) => il
      case (Rfid, Right) => ir
    }
  }

  /** Beam-to-beam pairs use no margin; every pair involving RFID uses the given one. */
  function MarginFor(from: Channel, to: Channel, margin: Option<Margin>): Margin
  {
    if from == Rfid || to == Rfid then MarginOr(margin) else NoMargin
  }

  /**
   * `generate_overlap_map(le, re, ie, margin)`: the overlap lists of every
   * ordered pair of distinct channels, each with the margin that pair uses.
   */
  function GenerateOverlapMap(ed: PerChannel<seq<Interval>>, margin: Option<Margin>): (omap: OverlapMap)
    ensures forall c, d :: c != d ==> omap.Lists(c, d) == OverlapLists(ed.Get(c), ed.Get(d), MarginFor(c, d, margin))
  {
    OverlapMap(
      OverlapLists(ed.left, ed.right, NoMargin), OverlapLists(ed.left, ed.rfid, MarginOr(margin)),
      OverlapLists(ed.right, ed.left, NoMargin), OverlapLists(ed.right, ed.rfid, MarginOr(margin)),
      OverlapLists(ed.rfid, ed.left, MarginOr(margin)), OverlapLists(ed.rfid, ed.right, MarginOr(margin)))
  }

  /**
   * In the map, interval i of channel c lists exactly the intervals j of channel
   * d that meet it, in ascending order: beam pairs without margin, pairs
   * involving RFID with the given margin.
   */
  lemma OverlapMapMeets(ed: PerChannel<seq<Interval>>, margin: Option<Margin>)
    ensures var omap := GenerateOverlapMap(ed, margin);
      forall c, d :: c != d ==> |omap.Lists(c, d)| == |ed.Get(c)|
    ensures var omap := GenerateOverlapMap(ed, margin);
      forall c, d, i, j :: c != d && 0 <= i < |ed.Get(c)| ==>
        (j in omap.Lists(c, d)[i] <==>
          0 <= j < |ed.Get(d)| && Meets(ed.Get(c)[i], ed.Get(d)[j], MarginFor(c, d, margin)))
    ensures var omap := GenerateOverlapMap(ed, margin);
      forall c, d, i :: c != d && 0 <= i < |ed.Get(c)| ==> Ascending(omap.Lists(c, d)[i])
  {
    var omap := GenerateOverlapMap(ed, margin);
    forall c, d | c != d
      ensures |omap.Lists(c, d)| == |ed.Get(c)|
      ensures forall i, j :: 0 <= i < |ed.Get(c)| ==>
        (j in omap.Lists(c, d)[i] <==>
          0 <= j < |ed.Get(d)| && Meets(ed.Get(c)[i], ed.Get(d)[j], MarginFor(c, d, margin)))
      ensures forall i :: 0 <= i < |ed.Get(c)| ==> Ascending(omap.Lists(c, d)[i])
    {
      assert omap.Lists(c, d) == OverlapLists(ed.Get(c), ed.Get(d), MarginFor(c, d, margin));
    }
  }

  /** The margin is the same on both sides (or absent). */
  predicate SymmetricMargin(margin: Option<Margin>)
  {
    margin.None? || margin.value.before == margin.value.after
  }

  /** With a symmetric margin the overlap map is symmetric: j is in [c][d][i] iff i is in [d][c][j]. */
  lemma OverlapMapSymmetric(ed: PerChannel<seq<Interval>>, margin: Option<Margin>)
    requires SymmetricMargin(margin)
    ensures var omap := GenerateOverlapMap(ed, margin);
      forall c, d, i, j :: c != d && 0 <= i < |ed.Get(c)| && 0 <= j < |ed.Get(d)| ==>
        (j in omap.Lists(c, d)[i] <==> i in omap.Lists(d, c)[j])
  {
    var omap := GenerateOverlapMap(ed, margin);
    OverlapMapMeets(ed, margin);
    forall c, d, i, j | c != d && 0 <= i < |ed.Get(c)| && 0 <= j < |ed.Get(d)|
      ensures j in omap.Lists(c, d)[i] <==> i in omap.Lists(d, c)[j]
    {
      assert MarginFor(c, d, margin) == MarginFor(d, c, margin);
    }
  }
}

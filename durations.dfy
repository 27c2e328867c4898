/**
 * Turning one channel's edge-triggered rows into intervals: the falling-edge
 * selector, and the beam and RFID extractors that trim a stream to a whole
 * frame and pair (beam) or group in threes (RFID) its rows.
 */
module Durations {
  import opened Wrappers
  import opened Events

  // ---------------------------------------------------------------------------
  // select_events_by_duration

  const DefaultMinT := 100
  const DefaultMaxT := 5000

  /** Row k is followed by a falling edge: data1 drops by exactly one to row k + 1. */
  predicate FallsAfter(bd: seq<Row>, k: int)
    requires 0 <= k && k + 1 < |bd|
  {
    bd[k + 1].data1 - bd[k].data1 == -1
  }

  /** The time from row k to row k + 1. */
  function Delta(bd: seq<Row>, k: int): int
    requires 0 <= k && k + 1 < |bd|
  {
    bd[k + 1].time - bd[k].time
  }

  /** Row k is kept: a falling edge follows it after strictly between minT and maxT. */
  predicate KeptEdge(bd: seq<Row>, k: int, minT: int, maxT: int)
    requires 0 <= k && k + 1 < |bd|
  {
    FallsAfter(bd, k) && minT < Delta(bd, k) < maxT
  }

  /** Row k with its last column replaced by the time delta to row k + 1. */
  function EdgeRow(bd: seq<Row>, k: int): Row
    requires 0 <= k && k + 1 < |bd|
  {
    bd[k].(data1 := Delta(bd, k))
  }

  /** `select_events_by_duration(bd, min_t=100, max_t=5000)`. */
  function SelectEventsByDuration(bd: seq<Row>, minT: int := DefaultMinT, maxT: int := DefaultMaxT): (r: seq<Row>)
    ensures |bd| < 2 ==> r == []
    ensures |bd| >= 2 ==> |r| < |bd|
    decreases |bd|
  {
    if |bd| < 2 then []
    else
      (if KeptEdge(bd, 0, minT, maxT) then [EdgeRow(bd, 0)] else []) +
      SelectEventsByDuration(bd[1..], minT, maxT)
  }

  /**
   * The selected rows are exactly the rows followed by a falling edge whose delta
   * lies strictly between minT and maxT, each carrying that delta.
   */
  lemma {:induction false} SelectEventsByDurationExact(bd: seq<Row>, minT: int, maxT: int)
    ensures forall x :: x in SelectEventsByDuration(bd, minT, maxT) <==>
      exists k :: 0 <= k && k + 1 < |bd| && KeptEdge(bd, k, minT, maxT) && x == EdgeRow(bd, k)
    decreases |bd|
  {
    if |bd| >= 2 {
      var tl := bd[1..];
      SelectEventsByDurationExact(tl, minT, maxT);
      forall k | 0 <= k && k + 1 < |tl|
        ensures KeptEdge(tl, k, minT, maxT) == KeptEdge(bd, k + 1, minT, maxT)
        ensures EdgeRow(tl, k) == EdgeRow(bd, k + 1)
      {
      }
      forall x | x in SelectEventsByDuration(bd, minT, maxT)
        ensures exists k :: 0 <= k && k + 1 < |bd| && KeptEdge(bd, k, minT, maxT) && x == EdgeRow(bd, k)
      {
        if x !in SelectEventsByDuration(tl, minT, maxT) {
          assert KeptEdge(bd, 0, minT, maxT) && x == EdgeRow(bd, 0);
        } else {
          var k :| 0 <= k && k + 1 < |tl| && KeptEdge(tl, k, minT, maxT) && x == EdgeRow(tl, k);
          assert KeptEdge(bd, k + 1, minT, maxT) && x == EdgeRow(bd, k + 1);
        }
      }
      forall k | 0 <= k && k + 1 < |bd| && KeptEdge(bd, k, minT, maxT)
        ensures EdgeRow(bd, k) in SelectEventsByDuration(bd, minT, maxT)
      {
        if k > 0 {
          assert KeptEdge(tl, k - 1, minT, maxT) && EdgeRow(bd, k) == EdgeRow(tl, k - 1);
        }
      }
    }
  }

  /**
   * The indices k >= from whose row `select_events_by_duration` keeps, in
   * ascending order: those followed by a falling edge within the bounds.
   */
  function KeptFrom(bd: seq<Row>, minT: int, maxT: int, from: nat): (ks: seq<nat>)
    requires from <= |bd|
    ensures forall p :: 0 <= p < |ks| ==> from <= ks[p] && ks[p] + 1 < |bd|
    ensures forall j :: j in ks <==> from <= j && j + 1 < |bd| && KeptEdge(bd, j, minT, maxT)
    ensures forall p, q :: 0 <= p < q < |ks| ==> ks[p] < ks[q]
    decreases |bd| - from
  {
    if from + 1 >= |bd| then []
    else
      var rest := KeptFrom(bd, minT, maxT, from + 1);
      if KeptEdge(bd, from, minT, maxT) then [from] + rest else rest
  }

  /**
   * The output holds one row per kept falling edge, in row order: row p is the
   * p-th kept row, carrying its delta.
   */
  lemma {:induction false} SelectEventsByDurationInOrder(bd: seq<Row>, minT: int, maxT: int, from: nat)
    requires from <= |bd|
    ensures var r, ks := SelectEventsByDuration(bd[from..], minT, maxT), KeptFrom(bd, minT, maxT, from);
      |r| == |ks| && forall p :: 0 <= p < |r| ==> r[p] == EdgeRow(bd, ks[p])
    decreases |bd| - from
  {
    var tl := bd[from..];
    if |tl| >= 2 {
      SelectEventsByDurationInOrder(bd, minT, maxT, from + 1);
      assert tl[1..] == bd[from + 1..];
      assert KeptEdge(tl, 0, minT, maxT) == KeptEdge(bd, from, minT, maxT);
      assert EdgeRow(tl, 0) == EdgeRow(bd, from);
    }
  }

  /**
   * With the default bounds both ends are exclusive: a falling edge after
   * exactly 100 or 5000 time units is dropped, one after 101 is kept.
   */
  lemma SelectEventsByDurationDefaults(a: Row)
    requires a.data1 == 1
    ensures SelectEventsByDuration([a, a.(time := a.time + 100, data1 := 0)]) == []
    ensures SelectEventsByDuration([a, a.(time := a.time + 5000, data1 := 0)]) == []
    ensures SelectEventsByDuration([a, a.(time := a.time + 101, data1 := 0)]) == [a.(data1 := 101)]
  {
    var bd := [a, a.(time := a.time + 101, data1 := 0)];
    assert KeptEdge(bd, 0, DefaultMinT, DefaultMaxT);
    assert SelectEventsByDuration(bd[1..]) == [];
  }

  // ---------------------------------------------------------------------------
  // Trimming a stream to a whole frame

  /** The row kinds that open and close a frame. */
  datatype Mark = Rising | Falling | Entry | Exit

  /** Rising and falling beam edges; RFID entry (data0 = 1) and exit (data0 = 0) reports. */
  predicate Is(m: Mark, r: Row)
  {
    match m
    case Rising => r.data1 == 1
    case Falling => r.data1 == 0
    case Entry => r.data1 == 1 && r.data0 == 1
    case Exit => r.data1 == 1 && r.data0 == 0
  }

  /** Drop leading rows until the first is an m row; empty when there is none. */
  function SkipTo(s: seq<Row>, m: Mark): (r: seq<Row>)
    ensures |r| <= |s| && r == s[|s| - |r|..]
    ensures r != [] ==> Is(m, r[0])
    ensures forall i :: 0 <= i < |s| - |r| ==> !Is(m, s[i])
    decreases |s|
  {
    if s == [] || Is(m, s[0]) then s else SkipTo(s[1..], m)
  }

  /** Drop trailing rows until the last is an m row; empty when there is none. */
  function TrimBackTo(s: seq<Row>, m: Mark): (r: seq<Row>)
    ensures |r| <= |s| && r == s[..|r|]
    ensures r != [] ==> Is(m, r[|r| - 1])
    ensures forall i :: |r| <= i < |s| ==> !Is(m, s[i])
    decreases |s|
  {
    if s == [] || Is(m, s[|s| - 1]) then s else TrimBackTo(s[..|s| - 1], m)
  }

  /**
   * The two trimming loops: drop rows from the front until one is a `first` row,
   * then from the back until one is a `last` row. Running off the end is the
   * index error the source raises.
   */
  function Frame(s: seq<Row>, first: Mark, last: Mark): (r: Result<seq<Row>, Error>)
    ensures r.Err? ==> r.error == NoFrame
    ensures r.Ok? ==> r.value != [] && Is(first, r.value[0]) && Is(last, r.value[|r.value| - 1])
  {
    var f := SkipTo(s, first);
    if f == [] then Err(NoFrame)
    else
      var g := TrimBackTo(f, last);
      if g == [] then Err(NoFrame) else Ok(g)
  }

  /** Some `first` row comes at or before some `last` row. */
  ghost predicate OpensBeforeCloses(s: seq<Row>, first: Mark, last: Mark)
  {
    exists i, j :: 0 <= i <= j < |s| && Is(first, s[i]) && Is(last, s[j])
  }

  /** A frame exists iff some `first` row comes at or before some `last` row. */
  lemma FrameExact(s: seq<Row>, first: Mark, last: Mark)
    ensures Frame(s, first, last).Ok? <==> OpensBeforeCloses(s, first, last)
  {
    var f := SkipTo(s, first);
    var i := |s| - |f|;
    if f == [] {
      assert !OpensBeforeCloses(s, first, last);
    } else {
      var g := TrimBackTo(f, last);
      if g == [] {
        forall i', j | 0 <= i' <= j < |s| && Is(first, s[i']) ensures !Is(last, s[j]) {
          assert f[j - i] == s[j];
        }
      } else {
        assert f[|g| - 1] == s[i + |g| - 1];
        assert Is(first, s[i]) && Is(last, s[i + |g| - 1]);
      }
    }
  }

  /** No m row among the first i rows. */
  ghost predicate NoneBefore(s: seq<Row>, m: Mark, i: int)
  {
    forall k :: 0 <= k < i && k < |s| ==> !Is(m, s[k])
  }

  /** No m row from index j on. */
  ghost predicate NoneFrom(s: seq<Row>, m: Mark, j: int)
  {
    forall k :: 0 <= j <= k < |s| ==> !Is(m, s[k])
  }

  /**
   * The frame is the slice from the earliest `first` row to the latest `last` row:
   * no `first` row precedes it and no `last` row follows it.
   */
  lemma FrameSlice(s: seq<Row>, first: Mark, last: Mark)
    ensures Frame(s, first, last).Ok? ==> exists i, j :: (0 <= i < j <= |s| && Frame(s, first, last).value == s[i..j] &&
      NoneBefore(s, first, i) && NoneFrom(s, last, j))
  {
    var f := SkipTo(s, first);
    var i := |s| - |f|;
    if f != [] {
      var g := TrimBackTo(f, last);
      if g != [] {
        var j := i + |g|;
        assert g == s[i..j];
        assert NoneBefore(s, first, i);
        assert NoneFrom(s, last, j) by {
          forall k | j <= k < |s| ensures !Is(last, s[k]) {
            assert f[k - i] == s[k];
          }
        }
      }
    }
  }

  // ---------------------------------------------------------------------------
  // Strided columns and numpy's broadcasting assignment

  /** `s[off::2]`. */
  function EveryOther(s: seq<int>, off: nat): (r: seq<int>)
    requires off <= 1
    ensures |r| == (|s| + 1 - off) / 2
    ensures forall k :: 0 <= k < |r| ==> r[k] == s[off + 2 * k]
  {
    seq((|s| + 1 - off) / 2, k requires 0 <= k < (|s| + 1 - off) / 2 => s[off + 2 * k])
  }

  /** `s[off::3]`. */
  function EveryThird(s: seq<int>, off: nat): (r: seq<int>)
    requires off <= 2
    ensures |r| == (|s| + 2 - off) / 3
    ensures forall k :: 0 <= k < |r| ==> r[k] == s[off + 3 * k]
  {
    seq((|s| + 2 - off) / 3, k requires 0 <= k < (|s| + 2 - off) / 3 => s[off + 3 * k])
  }

  /**
   * Assigning v to a column of an n-row array: a value of length n is copied,
   * a single value is repeated, any other length is a shape error.
   */
  function Broadcast(v: seq<int>, n: nat): (r: Result<seq<int>, Error>)
    ensures r.Ok? <==> |v| == n || |v| == 1
    ensures r.Err? ==> r.error == ShapeMismatch
    ensures r.Ok? ==> |r.value| == n && forall k :: 0 <= k < n ==> r.value[k] == if |v| == n then v[k] else v[0]
  {
    if |v| == n then Ok(v)
    else if |v| == 1 then Ok(seq(n, _ => v[0]))
    else Err(ShapeMismatch)
  }

  // ---------------------------------------------------------------------------
  // Pairing and grouping a frame

  /** `d = be[::2]; d[:,1] = be[1::2, time]; d[:,2] = d[:,1] - d[:,0]`. */
  function PairBeams(f: seq<Row>): (r: Result<seq<Interval>, Error>)
    ensures r.Err? ==> r.error == ShapeMismatch
    ensures r.Ok? ==> |r.value| == (|f| + 1) / 2 && forall k :: 0 <= k < |r.value| ==>
      r.value[k].BeamInterval? && r.value[k].start == f[2 * k].time &&
      r.value[k].duration == r.value[k].end - r.value[k].start
  {
    var starts := EveryOther(Times(f), 0);
    match Broadcast(EveryOther(Times(f), 1), |starts|)
    case Err(e) => Err(e)
    case Ok(ends) =>
      Ok(seq(|starts|, k requires 0 <= k < |starts| => BeamInterval(starts[k], ends[k], ends[k] - starts[k])))
  }

  /** `d = re[::3]; d[:,1] = re[2::3, time]; d[:,2] = d[:,1] - d[:,0]; d[:,3] = re[1::3, data0]`. */
  function GroupRfid(f: seq<Row>): (r: Result<seq<Interval>, Error>)
    ensures r.Err? ==> r.error == ShapeMismatch
    ensures r.Ok? ==> |r.value| == (|f| + 2) / 3 && forall k :: 0 <= k < |r.value| ==>
      r.value[k].RfidInterval? && r.value[k].start == f[3 * k].time &&
      r.value[k].duration == r.value[k].end - r.value[k].start
  {
    var starts := EveryThird(Times(f), 0);
    match Broadcast(EveryThird(Times(f), 2), |starts|)
    case Err(e) => Err(e)
    case Ok(ends) =>
      match Broadcast(EveryThird(Data0s(f), 1), |starts|)
      case Err(e) => Err(e)
      case Ok(tags) =>
        Ok(seq(|starts|, k requires 0 <= k < |starts| =>
          RfidInterval(starts[k], ends[k], ends[k] - starts[k], tags[k])))
  }

  /** Row k of an even-length frame pairs rows 2k and 2k+1. */
  lemma PairBeamsEven(f: seq<Row>)
    requires |f| % 2 == 0
    ensures PairBeams(f).Ok?
    ensures var d := PairBeams(f).value;
      |d| == |f| / 2 &&
      forall k :: 0 <= k < |d| ==>
        d[k] == BeamInterval(f[2 * k].time, f[2 * k + 1].time, f[2 * k + 1].time - f[2 * k].time)
  {
  }

  /**
   * An odd-length frame fails to pair, except a frame of three rows, whose one
   * end time is broadcast onto both output rows.
   */
  lemma PairBeamsOdd(f: seq<Row>)
    requires |f| % 2 == 1
    ensures PairBeams(f).Ok? <==> |f| == 3
    ensures PairBeams(f).Err? ==> PairBeams(f).error == ShapeMismatch
    ensures |f| == 3 ==> PairBeams(f) == Ok([
      BeamInterval(f[0].time, f[1].time, f[1].time - f[0].time),
      BeamInterval(f[2].time, f[1].time, f[1].time - f[2].time)])
  {
    if |f| == 3 {
      var starts := EveryOther(Times(f), 0);
      assert starts == [f[0].time, f[2].time];
      assert EveryOther(Times(f), 1) == [f[1].time];
      var ends := Broadcast(EveryOther(Times(f), 1), 2).value;
      assert ends == [f[1].time, f[1].time];
      var d := PairBeams(f).value;
      assert |d| == 2 && d[0] == BeamInterval(f[0].time, f[1].time, f[1].time - f[0].time);
      assert d[1] == BeamInterval(f[2].time, f[1].time, f[1].time - f[2].time);
      assert d == [d[0], d[1]];
    }
  }

  /** Row k of a frame whose length is a multiple of three groups rows 3k, 3k+1, 3k+2. */
  lemma GroupRfidTriplets(f: seq<Row>)
    requires |f| % 3 == 0
    ensures GroupRfid(f).Ok?
    ensures var d := GroupRfid(f).value;
      |d| == |f| / 3 &&
      forall k :: 0 <= k < |d| ==>
        d[k] == RfidInterval(f[3 * k].time, f[3 * k + 2].time, f[3 * k + 2].time - f[3 * k].time, f[3 * k + 1].data0)
  {
  }

  /**
   * Grouping succeeds exactly for lengths that are a multiple of three, and for
   * lengths four and five, where a lone end time (and, for four, a lone tag) is
   * broadcast onto both output rows.
   */
  lemma GroupRfidShape(f: seq<Row>)
    ensures GroupRfid(f).Ok? <==> |f| % 3 == 0 || |f| == 4 || |f| == 5
    ensures GroupRfid(f).Err? ==> GroupRfid(f).error == ShapeMismatch
  {
  }

  // ---------------------------------------------------------------------------
  // The minimum-duration filter

  /** `d[d[:,2] >= min_duration]`, or d itself when no minimum is given. */
  function KeepAtLeast(ds: seq<Interval>, m: Option<int>): (r: seq<Interval>)
    ensures |r| <= |ds|
    ensures m.None? ==> r == ds
    ensures m.Some? ==> forall k :: 0 <= k < |r| ==> r[k].duration >= m.value
    ensures forall x :: x in r ==> x in ds
    decreases |ds|
  {
    if m.None? || ds == [] then ds
    else (if ds[0].duration >= m.value then [ds[0]] else []) + KeepAtLeast(ds[1..], m)
  }

  /** The filter keeps exactly the intervals whose duration reaches the minimum (inclusive). */
  lemma {:induction false} KeepAtLeastExact(ds: seq<Interval>, m: Option<int>)
    ensures forall x :: x in KeepAtLeast(ds, m) <==> x in ds && (m.Some? ==> x.duration >= m.value)
    decreases |ds|
  {
    if m.Some? && ds != [] {
      KeepAtLeastExact(ds[1..], m);
      assert ds == [ds[0]] + ds[1..];
    }
  }

  /** The filter keeps order: it distributes over concatenation. */
  lemma {:induction false} KeepAtLeastOrder(a: seq<Interval>, b: seq<Interval>, m: Option<int>)
    ensures KeepAtLeast(a + b, m) == KeepAtLeast(a, m) + KeepAtLeast(b, m)
    decreases |a|
  {
    if a == [] {
      assert a + b == b;
    } else if m.Some? {
      assert (a + b)[0] == a[0];
      assert (a + b)[1..] == a[1..] + b;
      KeepAtLeastOrder(a[1..], b, m);
    }
  }

  // ---------------------------------------------------------------------------
  // beam_events_to_duration and rfid_events_to_duration

  /** What `beam_events_to_duration` computes, step by step. */
  function BeamDurations(be: seq<Row>, minDuration: Option<int>): Result<seq<Interval>, Error>
  {
    if |Distinct(Data0s(be))| != 1 then Err(NotSplitBySide)
    else
      match Frame(be, Rising, Falling)
      case Err(e) => Err(e)
      case Ok(f) =>
        match PairBeams(f)
        case Err(e) => Err(e)
        case Ok(d) => Ok(KeepAtLeast(d, minDuration))
  }

  /** What `rfid_events_to_duration` computes, step by step. */
  function RfidDurations(re: seq<Row>, minDuration: Option<int>): Result<seq<Interval>, Error>
  {
    match Frame(re, Entry, Exit)
    case Err(e) => Err(e)
    case Ok(f) =>
      match GroupRfid(f)
      case Err(e) => Err(e)
      case Ok(d) => Ok(KeepAtLeast(d, minDuration))
  }

  /** `while not first(s[0]): s = s[1:]`, stopping at the empty stream. */
  method ShrinkFront(s0: seq<Row>, m: Mark) returns (s: seq<Row>)
    ensures s == SkipTo(s0, m)
  {
    s := s0;
    while s != [] && !Is(m, s[0])
      invariant SkipTo(s, m) == SkipTo(s0, m)
      decreases |s|
    {
      s := s[1..];
    }
  }

  /** `while not last(s[-1]): s = s[:-1]`, stopping at the empty stream. */
  method ShrinkBack(s0: seq<Row>, m: Mark) returns (s: seq<Row>)
    ensures s == TrimBackTo(s0, m)
  {
    s := s0;
    while s != [] && !Is(m, s[|s| - 1])
      invariant TrimBackTo(s, m) == TrimBackTo(s0, m)
      decreases |s|
    {
      s := s[..|s| - 1];
    }
  }

  /**
   * `beam_events_to_duration(be, min_duration)`: check the side, shrink `be` from
   * the front and from the back, then pair and filter.
   */
  method BeamEventsToDuration(be: seq<Row>, minDuration: Option<int>) returns (res: Result<seq<Interval>, Error>)
    ensures res == BeamDurations(be, minDuration)
  {
    if |Distinct(Data0s(be))| != 1 {
      return Err(NotSplitBySide);
    }
    var s := ShrinkFront(be, Rising);
    if s == [] {
      return Err(NoFrame);
    }
    s := ShrinkBack(s, Falling);
    if s == [] {
      return Err(NoFrame);
    }
    var d := PairBeams(s);
    res := if d.Ok? then Ok(KeepAtLeast(d.value, minDuration)) else d;
  }

  /**
   * `rfid_events_to_duration(re, min_duration)`: shrink `re` to an entry ... exit
   * frame, then group in threes and filter.
   */
  method RfidEventsToDuration(re: seq<Row>, minDuration: Option<int>) returns (res: Result<seq<Interval>, Error>)
    ensures res == RfidDurations(re, minDuration)
  {
    var s := ShrinkFront(re, Entry);
    if s == [] {
      return Err(NoFrame);
    }
    s := ShrinkBack(s, Exit);
    if s == [] {
      return Err(NoFrame);
    }
    var d := GroupRfid(s);
    res := if d.Ok? then Ok(KeepAtLeast(d.value, minDuration)) else d;
  }

  // ---------------------------------------------------------------------------
  // Properties of the two extractors

  /**
   * The side check: the extractor raises its side error exactly when the
   * stream is empty or its data0 column holds more than one value.
   */
  lemma BeamSideCheck(be: seq<Row>, minDuration: Option<int>)
    ensures BeamDurations(be, minDuration) == Err(NotSplitBySide) <==>
      !(|be| > 0 && forall i :: 0 <= i < |be| ==> be[i].data0 == be[0].data0)
  {
    OneDistinct(Data0s(be));
  }

  /**
   * For a single-side stream whose frame has even length, output row k spans
   * from frame row 2k to frame row 2k+1; a minimum duration keeps exactly the
   * rows whose duration reaches it, in order.
   */
  lemma BeamDurationsPairs(be: seq<Row>, f: seq<Row>, m: int)
    requires |be| > 0 && forall i :: 0 <= i < |be| ==> be[i].data0 == be[0].data0
    requires Frame(be, Rising, Falling) == Ok(f) && |f| % 2 == 0
    ensures BeamDurations(be, None).Ok? && BeamDurations(be, Some(m)).Ok?
    ensures var d := BeamDurations(be, None).value;
      |d| == |f| / 2 &&
      (forall k :: 0 <= k < |d| ==>
        d[k] == BeamInterval(f[2 * k].time, f[2 * k + 1].time, f[2 * k + 1].time - f[2 * k].time)) &&
      BeamDurations(be, Some(m)).value == KeepAtLeast(d, Some(m))
  {
    OneDistinct(Data0s(be));
    PairBeamsEven(f);
  }

  /** The rising and falling edge rows that produce the given beam intervals. */
  function BeamEdges(ds: seq<Interval>, side: Row): (rows: seq<Row>)
    ensures |rows| == 2 * |ds|
  {
    if ds == [] then []
    else [side.(time := ds[0].start, data1 := 1), side.(time := ds[0].end, data1 := 0)] + BeamEdges(ds[1..], side)
  }

  lemma {:induction false} BeamEdgesAt(ds: seq<Interval>, side: Row, k: int)
    requires 0 <= k < |ds|
    ensures BeamEdges(ds, side)[2 * k] == side.(time := ds[k].start, data1 := 1)
    ensures BeamEdges(ds, side)[2 * k + 1] == side.(time := ds[k].end, data1 := 0)
    decreases k
  {
    if k > 0 {
      BeamEdgesAt(ds[1..], side, k - 1);
    }
  }

  lemma {:induction false} BeamEdgesSide(ds: seq<Interval>, side: Row)
    ensures forall i :: 0 <= i < |BeamEdges(ds, side)| ==> BeamEdges(ds, side)[i].data0 == side.data0
    decreases |ds|
  {
    if ds != [] {
      BeamEdgesSide(ds[1..], side);
      var rows := BeamEdges(ds, side);
      forall i | 2 <= i < |rows| ensures rows[i].data0 == side.data0 {
        assert rows[i] == BeamEdges(ds[1..], side)[i - 2];
      }
    }
  }

  lemma BeamEdgesFrame(ds: seq<Interval>, side: Row)
    requires |ds| > 0
    ensures Frame(BeamEdges(ds, side), Rising, Falling) == Ok(BeamEdges(ds, side))
  {
    var rows := BeamEdges(ds, side);
    BeamEdgesAt(ds, side, 0);
    BeamEdgesAt(ds, side, |ds| - 1);
    assert SkipTo(rows, Rising) == rows;
    assert TrimBackTo(rows, Falling) == rows;
  }

  lemma BeamEdgesPair(ds: seq<Interval>, side: Row)
    requires forall k :: 0 <= k < |ds| ==> ds[k] == BeamInterval(ds[k].start, ds[k].end, ds[k].end - ds[k].start)
    ensures PairBeams(BeamEdges(ds, side)) == Ok(ds)
  {
    var rows := BeamEdges(ds, side);
    PairBeamsEven(rows);
    var d := PairBeams(rows).value;
    forall k | 0 <= k < |ds| ensures d[k] == ds[k] {
      BeamEdgesAt(ds, side, k);
    }
    assert d == ds;
  }

  /**
   * Round trip: rebuilding the rising/falling edges of well-formed beam
   * intervals and extracting again gives back the same intervals.
   */
  lemma BeamRoundTrip(ds: seq<Interval>, side: Row)
    requires |ds| > 0
    requires forall k :: 0 <= k < |ds| ==> ds[k] == BeamInterval(ds[k].start, ds[k].end, ds[k].end - ds[k].start)
    ensures BeamDurations(BeamEdges(ds, side), None) == Ok(ds)
  {
    var rows := BeamEdges(ds, side);
    BeamEdgesSide(ds, side);
    OneDistinct(Data0s(rows));
    BeamEdgesFrame(ds, side);
    BeamEdgesPair(ds, side);
  }

  /**
   * For a stream whose entry ... exit frame has a length divisible by three,
   * output row k runs from the entry of triplet k to its exit and carries the
   * tag of its middle row; a minimum duration keeps exactly the rows whose
   * duration reaches it, in order.
   */
  lemma RfidDurationsTriplets(re: seq<Row>, f: seq<Row>, m: int)
    requires Frame(re, Entry, Exit) == Ok(f) && |f| % 3 == 0
    ensures RfidDurations(re, None).Ok? && RfidDurations(re, Some(m)).Ok?
    ensures var d := RfidDurations(re, None).value;
      |d| == |f| / 3 &&
      (forall k :: 0 <= k < |d| ==>
        d[k] == RfidInterval(f[3 * k].time, f[3 * k + 2].time, f[3 * k + 2].time - f[3 * k].time, f[3 * k + 1].data0)) &&
      RfidDurations(re, Some(m)).value == KeepAtLeast(d, Some(m))
  {
    GroupRfidTriplets(f);
  }
}

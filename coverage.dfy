/**
 * `sum_range`: the time covered by start-sorted intervals, with overlaps
 * corrected only between consecutive intervals.
 */
module Coverage {
  import opened Events

  /** Interval i's share: up to the next start when they overlap, else its own span. */
  function Contribution(a: seq<Interval>, i: int): int
    requires 0 <= i && i + 1 < |a|
  {
    if a[i].end > a[i + 1].start then a[i + 1].start - a[i].start else a[i].end - a[i].start
  }

  /** The shares of the first n intervals. */
  function Shares(a: seq<Interval>, n: int): int
    requires 0 <= n && n + 1 <= |a|
    decreases n
  {
    if n == 0 then 0 else Shares(a, n - 1) + Contribution(a, n - 1)
  }

  function Span(x: Interval): int
  {
    x.end - x.start
  }

  /** The sum of the spans of the first n intervals. */
  function TotalSpan(a: seq<Interval>, n: int): int
    requires 0 <= n <= |a|
    decreases n
  {
    if n == 0 then 0 else TotalSpan(a, n - 1) + Span(a[n - 1])
  }

  /**
   * The value `sum_range` computes: 0 for no intervals, otherwise the shares of
   * all intervals but the last, plus the last interval's full span.
   */
  function SumRangeSpec(a: seq<Interval>): int
  {
    if |a| == 0 then 0 else Shares(a, |a| - 1) + Span(a[|a| - 1])
  }

  /** `sum_range(a)`: accumulate the shares in a loop, then add the last span. */
  method SumRange(a: seq<Interval>) returns (s: int)
    ensures s == SumRangeSpec(a)
    ensures |a| == 0 ==> s == 0
  {
    s := 0;
    if |a| == 0 {
      return s;
    }
    for i := 0 to |a| - 1
      invariant s == Shares(a, i)
    {
      if a[i].end > a[i + 1].start {
        s := s + (a[i + 1].start - a[i].start);
      } else {
        s := s + (a[i].end - a[i].start);
      }
    }
    s := s + (a[|a| - 1].end - a[|a| - 1].start);
  }

  predicate StartSorted(a: seq<Interval>)
  {
    forall i :: 0 <= i && i + 1 < |a| ==> a[i].start <= a[i + 1].start
  }

  predicate WellFormed(a: seq<Interval>)
  {
    forall i :: 0 <= i < |a| ==> a[i].start <= a[i].end
  }

  lemma {:induction false} SharesBounds(a: seq<Interval>, n: int)
    requires 0 <= n && n + 1 <= |a|
    requires StartSorted(a) && WellFormed(a)
    ensures 0 <= Shares(a, n) <= TotalSpan(a, n)
    decreases n
  {
    if n > 0 {
      SharesBounds(a, n - 1);
    }
  }

  /**
   * For start-sorted intervals with start <= end the result is never negative
   * and never more than the sum of all spans.
   */
  lemma SumRangeBounds(a: seq<Interval>)
    requires StartSorted(a) && WellFormed(a)
    ensures 0 <= SumRangeSpec(a) <= TotalSpan(a, |a|)
  {
    if |a| > 0 {
      SharesBounds(a, |a| - 1);
    }
  }

  lemma {:induction false} SharesNoOverlap(a: seq<Interval>, n: int)
    requires 0 <= n && n + 1 <= |a|
    requires forall i :: 0 <= i && i + 1 < |a| ==> a[i].end <= a[i + 1].start
    ensures Shares(a, n) == TotalSpan(a, n)
    decreases n
  {
    if n > 0 {
      SharesNoOverlap(a, n - 1);
    }
  }

  /** When no interval runs past the next one's start, the result is the sum of spans. */
  lemma SumRangeNoOverlap(a: seq<Interval>)
    requires forall i :: 0 <= i && i + 1 < |a| ==> a[i].end <= a[i + 1].start
    ensures SumRangeSpec(a) == TotalSpan(a, |a|)
  {
    if |a| > 0 {
      SharesNoOverlap(a, |a| - 1);
    }
  }

  /** [0,10],[20,30] covers 20; [0,10],[5,15] covers 15, not 20. */
  lemma SumRangeExamples(x: Interval, y: Interval, z: Interval)
    requires x.start == 0 && x.end == 10
    requires y.start == 20 && y.end == 30
    requires z.start == 5 && z.end == 15
    ensures SumRangeSpec([x, y]) == 20
    ensures SumRangeSpec([x, z]) == 15
  {
    assert Shares([x, y], 1) == Contribution([x, y], 0) == 10;
    assert Shares([x, z], 1) == Contribution([x, z], 0) == 5;
  }

  // ---------------------------------------------------------------------------
  // The covered time, with overlaps merged across any number of intervals

  /** A merged stretch of covered time [lo, hi). */
  datatype Piece = Piece(lo: int, hi: int)

  /** Time t lies inside one of the intervals. */
  ghost predicate Covered(a: seq<Interval>, t: int)
  {
    exists i :: 0 <= i < |a| && a[i].start <= t < a[i].end
  }

  /** Time t lies inside one of the pieces. */
  ghost predicate InPieces(m: seq<Piece>, t: int)
  {
    exists k :: 0 <= k < |m| && m[k].lo <= t < m[k].hi
  }

  /** Pieces in increasing order with a gap between each two. */
  predicate Separated(m: seq<Piece>)
  {
    (forall k :: 0 <= k < |m| ==> m[k].lo <= m[k].hi) &&
    (forall k :: 0 <= k && k + 1 < |m| ==> m[k].hi < m[k + 1].lo)
  }

  /** Add an interval to the pieces: widen the last piece when the interval starts inside it or at its end. */
  function AddPiece(m: seq<Piece>, x: Interval): seq<Piece>
  {
    if m != [] && x.start <= m[|m| - 1].hi then
      var l := m[|m| - 1];
      m[..|m| - 1] + [Piece(l.lo, if x.end > l.hi then x.end else l.hi)]
    else m + [Piece(x.start, x.end)]
  }

  /** The intervals, in order, merged into pieces. */
  function MergeAll(a: seq<Interval>): seq<Piece>
    decreases |a|
  {
    if a == [] then [] else AddPiece(MergeAll(a[..|a| - 1]), a[|a| - 1])
  }

  /** The summed length of the pieces. */
  function PieceTotal(m: seq<Piece>): int
    decreases |m|
  {
    if m == [] then 0 else PieceTotal(m[..|m| - 1]) + (m[|m| - 1].hi - m[|m| - 1].lo)
  }

  lemma InPiecesSnoc(m: seq<Piece>, q: Piece, t: int)
    ensures InPieces(m + [q], t) <==> InPieces(m, t) || q.lo <= t < q.hi
  {
    if InPieces(m + [q], t) && !(q.lo <= t < q.hi) {
      var k :| 0 <= k < |m| + 1 && (m + [q])[k].lo <= t < (m + [q])[k].hi;
      assert k < |m| && m[k] == (m + [q])[k];
    }
    if InPieces(m, t) {
      var k :| 0 <= k < |m| && m[k].lo <= t < m[k].hi;
      assert (m + [q])[k] == m[k];
    }
    if q.lo <= t < q.hi {
      assert (m + [q])[|m|] == q;
    }
  }

  lemma CoveredSnoc(a: seq<Interval>, t: int)
    requires |a| > 0
    ensures Covered(a, t) <==> Covered(a[..|a| - 1], t) || a[|a| - 1].start <= t < a[|a| - 1].end
  {
    var p := a[..|a| - 1];
    if Covered(a, t) && !(a[|a| - 1].start <= t < a[|a| - 1].end) {
      var i :| 0 <= i < |a| && a[i].start <= t < a[i].end;
      assert i < |p| && p[i] == a[i];
    }
    if Covered(p, t) {
      var i :| 0 <= i < |p| && p[i].start <= t < p[i].end;
      assert a[i] == p[i];
    }
  }

  /** Adding an interval that starts no earlier than the last piece keeps the pieces separated. */
  lemma AddPieceSeparated(m: seq<Piece>, x: Interval)
    requires Separated(m) && x.start <= x.end
    requires m != [] ==> m[|m| - 1].lo <= x.start
    ensures Separated(AddPiece(m, x))
    ensures AddPiece(m, x) != [] && AddPiece(m, x)[|AddPiece(m, x)| - 1].lo <= x.start
  {
    var r := AddPiece(m, x);
    forall k | 0 <= k && k + 1 < |r| ensures r[k].hi < r[k + 1].lo {
      assert r[k] == m[k];
      if k + 1 < |m| - 1 || (k + 1 == |m| - 1 && !(x.start <= m[|m| - 1].hi)) {
        assert r[k + 1] == m[k + 1];
      }
    }
  }

  /** The pieces after adding x cover what they covered before, plus x. */
  lemma AddPieceCovers(m: seq<Piece>, x: Interval, t: int)
    requires Separated(m) && x.start <= x.end
    requires m != [] ==> m[|m| - 1].lo <= x.start
    ensures InPieces(AddPiece(m, x), t) <==> InPieces(m, t) || x.start <= t < x.end
  {
    if m != [] && x.start <= m[|m| - 1].hi {
      var l := m[|m| - 1];
      var front := m[..|m| - 1];
      var q := Piece(l.lo, if x.end > l.hi then x.end else l.hi);
      assert m == front + [l];
      InPiecesSnoc(front, q, t);
      InPiecesSnoc(front, l, t);
    } else {
      InPiecesSnoc(m, Piece(x.start, x.end), t);
    }
  }

  /**
   * For start-sorted intervals with start <= end, the merged pieces are separated
   * and cover exactly the times the intervals cover; the last piece starts no
   * later than the last interval.
   */
  lemma {:induction false} MergeAllCovers(a: seq<Interval>)
    requires StartSorted(a) && WellFormed(a)
    ensures Separated(MergeAll(a))
    ensures forall t :: InPieces(MergeAll(a), t) <==> Covered(a, t)
    ensures a != [] ==> MergeAll(a) != [] && MergeAll(a)[|MergeAll(a)| - 1].lo <= a[|a| - 1].start
    decreases |a|
  {
    if a == [] {
      return;
    }
    var p, x := a[..|a| - 1], a[|a| - 1];
    MergeAllCovers(p);
    var m := MergeAll(p);
    assert p != [] ==> p[|p| - 1].start <= x.start;
    AddPieceSeparated(m, x);
    forall t ensures InPieces(MergeAll(a), t) <==> Covered(a, t) {
      CoveredSnoc(a, t);
      AddPieceCovers(m, x, t);
    }
  }

  /**
   * The coverage sweep: keep the piece being built, widen it while the next
   * interval starts inside it, otherwise add its length and start a new one.
   */
  method SumRangeMerged(a: seq<Interval>) returns (s: int)
    ensures s == PieceTotal(MergeAll(a))
  {
    s := 0;
    if |a| == 0 {
      return s;
    }
    var lo, hi := a[0].start, a[0].end;
    ghost var done: seq<Piece> := [];
    assert a[..1] == [a[0]];
    for i := 1 to |a|
      invariant MergeAll(a[..i]) == done + [Piece(lo, hi)] && s == PieceTotal(done)
    {
      assert a[..i + 1][..i] == a[..i];
      if a[i].start <= hi {
        if a[i].end > hi {
          hi := a[i].end;
        }
      } else {
        s := s + (hi - lo);
        done := done + [Piece(lo, hi)];
        lo, hi := a[i].start, a[i].end;
      }
    }
    assert a[..|a|] == a;
    s := s + (hi - lo);
  }

  /**
   * The correction is pairwise only: [0,100],[10,20],[30,40] gives 30, though
   * the three intervals merge into the single piece [0,100), 100 long.
   */
  lemma SumRangePairwiseOnly(x: Interval, y: Interval, z: Interval)
    requires x.start == 0 && x.end == 100
    requires y.start == 10 && y.end == 20
    requires z.start == 30 && z.end == 40
    ensures SumRangeSpec([x, y, z]) == 30
    ensures MergeAll([x, y, z]) == [Piece(0, 100)] && PieceTotal(MergeAll([x, y, z])) == 100
  {
    var a := [x, y, z];
    assert Shares(a, 1) == Contribution(a, 0) == 10;
    assert Shares(a, 2) == 10 + Contribution(a, 1) == 20;
    assert a[..1] == [x] && a[..2] == [x, y] && a[..2][..1] == [x];
    assert MergeAll([x]) == [Piece(0, 100)];
    assert MergeAll([x, y]) == [Piece(0, 100)];
    assert PieceTotal([Piece(0, 100)]) == 100;
  }
}

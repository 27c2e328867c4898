/**
 * The row filter `sel`: a boolean mask over the table, narrowed by one equality
 * test per given column and by an open time range, then used to pick rows.
 */
module Selector {
  import opened Wrappers
  import opened Events

  /** Bounds of the time-range filter; both bounds are exclusive. */
  datatype TimeRange = TimeRange(lo: int, hi: int)

  /** The filters of `sel`, already resolved to numeric codes; `None` filters nothing. */
  datatype Filter = Filter(
    board: Option<int>,
    event: Option<int>,
    data0: Option<int>,
    data1: Option<int>,
    timerange: Option<TimeRange>)

  const NoFilter := Filter(None, None, None, None, None)

  /** A row passes every filter that is set. */
  predicate Keeps(f: Filter, r: Row)
  {
    (f.board.Some? ==> r.board == f.board.value) &&
    (f.event.Some? ==> r.event == f.event.value) &&
    (f.data0.Some? ==> r.data0 == f.data0.value) &&
    (f.data1.Some? ==> r.data1 == f.data1.value) &&
    (f.timerange.Some? ==> f.timerange.value.lo < r.time < f.timerange.value.hi)
  }

  /** `m &= c`: elementwise conjunction of two masks. */
  function Narrow(m: seq<bool>, c: seq<bool>): (r: seq<bool>)
    requires |m| == |c|
    ensures |r| == |m| && forall i :: 0 <= i < |m| ==> (r[i] <==> m[i] && c[i])
  {
    seq(|m|, i requires 0 <= i < |m| => m[i] && c[i])
  }

  /** The mask `sel` ends with: entry i is true exactly when row i passes every set filter. */
  function Mask(vs: seq<Row>, f: Filter): (m: seq<bool>)
    ensures |m| == |vs|
  {
    seq(|vs|, i requires 0 <= i < |vs| => Keeps(f, vs[i]))
  }

  /** `vs[m]`: the rows whose mask entry is true, in their original order. */
  function Compress(vs: seq<Row>, m: seq<bool>): (r: seq<Row>)
    requires |m| == |vs|
    ensures |r| <= |vs|
    decreases |vs|
  {
    if vs == [] then []
    else (if m[0] then [vs[0]] else []) + Compress(vs[1..], m[1..])
  }

  /** `sel(vs, board, event, data0, data1, timerange)`. */
  function Sel(vs: seq<Row>, f: Filter): (r: seq<Row>)
    ensures |r| <= |vs|
  {
    Compress(vs, Mask(vs, f))
  }

  /** `xs == v`, elementwise. */
  function EqualTo(xs: seq<int>, v: int): (c: seq<bool>)
    ensures |c| == |xs| && forall i :: 0 <= i < |xs| ==> (c[i] <==> xs[i] == v)
  {
    seq(|xs|, i requires 0 <= i < |xs| => xs[i] == v)
  }

  /** `xs < hi`, elementwise. */
  function Below(xs: seq<int>, hi: int): (c: seq<bool>)
    ensures |c| == |xs| && forall i :: 0 <= i < |xs| ==> (c[i] <==> xs[i] < hi)
  {
    seq(|xs|, i requires 0 <= i < |xs| => xs[i] < hi)
  }

  /** `xs > lo`, elementwise. */
  function Above(xs: seq<int>, lo: int): (c: seq<bool>)
    ensures |c| == |xs| && forall i :: 0 <= i < |xs| ==> (c[i] <==> xs[i] > lo)
  {
    seq(|xs|, i requires 0 <= i < |xs| => xs[i] > lo)
  }

  /**
   * `sel` as the source runs it: an all-true mask narrowed with `&=` by each set
   * filter in turn, the time range as two strict bounds; then the rows it keeps.
   */
  method SelectRows(vs: seq<Row>, f: Filter) returns (r: seq<Row>)
    ensures r == Sel(vs, f)
  {
    var m := seq(|vs|, _ => true);
    if f.board.Some? {
      m := Narrow(m, EqualTo(Boards(vs), f.board.value));
    }
    if f.event.Some? {
      m := Narrow(m, EqualTo(EventCodes(vs), f.event.value));
    }
    if f.data0.Some? {
      m := Narrow(m, EqualTo(Data0s(vs), f.data0.value));
    }
    if f.data1.Some? {
      m := Narrow(m, EqualTo(Data1s(vs), f.data1.value));
    }
    if f.timerange.Some? {
      m := Narrow(m, Below(Times(vs), f.timerange.value.hi));
      m := Narrow(m, Above(Times(vs), f.timerange.value.lo));
    }
    assert m == Mask(vs, f) by {
      forall i | 0 <= i < |vs| ensures m[i] == Keeps(f, vs[i]) {
      }
    }
    r := Compress(vs, m);
  }

  /** Unfolding `sel` by one row. */
  lemma SelCons(vs: seq<Row>, f: Filter)
    requires vs != []
    ensures Sel(vs, f) == (if Keeps(f, vs[0]) then [vs[0]] else []) + Sel(vs[1..], f)
  {
    var m, m' := Mask(vs, f), Mask(vs[1..], f);
    assert m[1..] == m' by {
      forall i | 0 <= i < |m'| ensures m[1..][i] == m'[i] {
        assert vs[1..][i] == vs[i + 1];
      }
    }
  }

  /** Every returned row passes every set filter and is a row of the input. */
  lemma {:induction false} SelSound(vs: seq<Row>, f: Filter)
    ensures forall r :: r in Sel(vs, f) ==> Keeps(f, r) && r in vs
    decreases |vs|
  {
    if vs != [] {
      SelSound(vs[1..], f);
      SelCons(vs, f);
    }
  }

  /** Every input row that passes every set filter is returned. */
  lemma {:induction false} SelComplete(vs: seq<Row>, f: Filter)
    ensures forall i :: 0 <= i < |vs| && Keeps(f, vs[i]) ==> vs[i] in Sel(vs, f)
    decreases |vs|
  {
    if vs != [] {
      SelComplete(vs[1..], f);
      SelCons(vs, f);
      forall i | 0 < i < |vs| && Keeps(f, vs[i]) ensures vs[i] in Sel(vs, f) {
        assert vs[1..][i - 1] == vs[i];
      }
    }
  }

  /** A single row is kept exactly when it passes every set filter. */
  lemma SelSingle(x: Row, f: Filter)
    ensures Sel([x], f) == if Keeps(f, x) then [x] else []
  {
    SelCons([x], f);
  }

  /** Picking rows by mask distributes over concatenation of the rows and the masks. */
  lemma {:induction false} CompressAppend(a: seq<Row>, ma: seq<bool>, b: seq<Row>, mb: seq<bool>)
    requires |ma| == |a| && |mb| == |b|
    ensures Compress(a + b, ma + mb) == Compress(a, ma) + Compress(b, mb)
    decreases |a|
  {
    if a == [] {
      assert a + b == b && ma + mb == mb;
    } else {
      var h := if ma[0] then [a[0]] else [];
      assert (a + b)[0] == a[0] && (ma + mb)[0] == ma[0];
      assert (a + b)[1..] == a[1..] + b && (ma + mb)[1..] == ma[1..] + mb;
      assert Compress(a + b, ma + mb) == h + Compress(a[1..] + b, ma[1..] + mb);
      CompressAppend(a[1..], ma[1..], b, mb);
      assert Compress(a, ma) == h + Compress(a[1..], ma[1..]);
    }
  }

  /**
   * `sel` preserves order: filtering a concatenation is the concatenation of the
   * filtered parts (with SelSingle, this pins the result down as an order-keeping filter).
   */
  lemma SelOrder(a: seq<Row>, b: seq<Row>, f: Filter)
    ensures Sel(a + b, f) == Sel(a, f) + Sel(b, f)
  {
    assert Mask(a + b, f) == Mask(a, f) + Mask(b, f);
    CompressAppend(a, Mask(a, f), b, Mask(b, f));
  }

  /** Unset filters remove nothing. */
  lemma {:induction false} SelNoFilter(vs: seq<Row>)
    ensures Sel(vs, NoFilter) == vs
    decreases |vs|
  {
    if vs != [] {
      SelNoFilter(vs[1..]);
      SelCons(vs, NoFilter);
    }
  }
}

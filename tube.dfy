/**
 * `find_tube_events`: extract left-beam, right-beam and RFID intervals from one
 * board's rows, link the intervals that overlap, and merge each connected group
 * found from a right-beam interval into one tube event spanning its members.
 */
module Tube {
  import opened Wrappers
  import opened Events
  import opened Selector
  import opened Durations
  import opened Overlap
  import opened Components

  /**
   * One merged tube visit: the envelope of its members, their indices per
   * channel (the right list ends with the seed), and the member intervals.
   */
  datatype TubeEvent = TubeEvent(start: int, end: int, indices: Lists, intervals: PerChannel<seq<Interval>>)

  /** `[xs[i] for i in ks]`. */
  function Pick(xs: seq<Interval>, ks: seq<nat>): (r: seq<Interval>)
    requires forall p :: 0 <= p < |ks| ==> ks[p] < |xs|
    ensures |r| == |ks| && forall p :: 0 <= p < |ks| ==> r[p] == xs[ks[p]]
  {
    seq(|ks|, p requires 0 <= p < |ks| => xs[ks[p]])
  }

  /** The right-beam interval the event was grown from: the last of its right indices. */
  function Seed(e: TubeEvent): nat
  {
    if e.indices.right == [] then 0 else e.indices.right[|e.indices.right| - 1]
  }

  /** The member index sets of an event. */
  function MemberSets(e: TubeEvent): (r: Marks)
    ensures forall c :: r.Get(c) == Elements(e.indices.Get(c))
  {
    PerChannel(Elements(e.indices.left), Elements(e.indices.right), Elements(e.indices.rfid))
  }

  /** Every listed index names an interval of its channel. */
  ghost predicate IndicesIn(ed: PerChannel<seq<Interval>>, inds: Lists)
  {
    forall c, p :: 0 <= p < |inds.Get(c)| ==> inds.Get(c)[p] < |ed.Get(c)|
  }

  /** [st, et] holds every listed interval of one channel. */
  predicate Holds(xs: seq<Interval>, ks: seq<nat>, st: int, et: int)
    requires forall p :: 0 <= p < |ks| ==> ks[p] < |xs|
  {
    forall p :: 0 <= p < |ks| ==> st <= xs[ks[p]].start && xs[ks[p]].end <= et
  }

  /** [st, et] is the envelope of the listed intervals: it holds each, and both ends are attained. */
  ghost predicate Spans(ed: PerChannel<seq<Interval>>, inds: Lists, st: int, et: int)
    requires IndicesIn(ed, inds)
  {
    (forall c :: Holds(ed.Get(c), inds.Get(c), st, et)) &&
    (exists c, p :: 0 <= p < |inds.Get(c)| && st == ed.Get(c)[inds.Get(c)[p]].start) &&
    (exists c, p :: 0 <= p < |inds.Get(c)| && et == ed.Get(c)[inds.Get(c)[p]].end)
  }

  /**
   * e is the tube event grown from its seed: duplicate-free index lists that name
   * exactly the seed's component in the overlap map (closed, and inside every
   * closed set holding the seed), the member intervals, and their envelope.
   */
  ghost predicate IsTubeEvent(ed: PerChannel<seq<Interval>>, omap: OverlapMap, e: TubeEvent)
  {
    e.indices.right != [] &&
    IndicesIn(ed, e.indices) &&
    (forall c :: NoDup(e.indices.Get(c)) && e.intervals.Get(c) == Pick(ed.Get(c), e.indices.Get(c))) &&
    Closed(omap, MemberSets(e)) &&
    (forall t: Marks :: Closed(omap, t) && In(t, Node(Right, Seed(e))) ==> Sub(MemberSets(e), t)) &&
    Spans(ed, e.indices, e.start, e.end)
  }

  /**
   * What `find_tube_events` returns for the intervals ed: one event per
   * right-beam interval not already merged, in order of their seeds, covering
   * every right-beam interval; with a symmetric margin, no interval of any
   * channel belongs to two events.
   */
  ghost predicate TubeEventsOf(ed: PerChannel<seq<Interval>>, margin: Option<Margin>, events: seq<TubeEvent>)
  {
    var omap := GenerateOverlapMap(ed, margin);
    (forall k :: 0 <= k < |events| ==> IsTubeEvent(ed, omap, events[k])) &&
    (forall k, k' :: 0 <= k < k' < |events| ==> Seed(events[k]) < Seed(events[k'])) &&
    Seeds(events) &&
    (forall r :: 0 <= r < |ed.right| ==> Covered(events, r)) &&
    (SymmetricMargin(margin) ==> Disjoint(events))
  }

  /** Some event lists right-beam interval r. */
  ghost predicate Covered(events: seq<TubeEvent>, r: nat)
  {
    exists k :: 0 <= k < |events| && r in events[k].indices.right
  }

  /**
   * s is the first right-beam interval the earlier events leave unmerged: none
   * of them lists s, and they list every interval below s.
   */
  ghost predicate FreshSeed(earlier: seq<TubeEvent>, s: nat)
  {
    !Covered(earlier, s) && forall r :: 0 <= r < s ==> Covered(earlier, r)
  }

  /** Each event is seeded by the first right-beam interval its predecessors leave unmerged. */
  ghost predicate Seeds(events: seq<TubeEvent>)
  {
    forall k :: 0 <= k < |events| ==> FreshSeed(events[..k], Seed(events[k]))
  }

  // ---------------------------------------------------------------------------
  // The overlap map as a graph

  /** The generated map is well formed, and its sizes are the channels' interval counts. */
  lemma MapWellFormed(ed: PerChannel<seq<Interval>>, margin: Option<Margin>)
    ensures WellFormed(GenerateOverlapMap(ed, margin))
    ensures forall c :: Size(GenerateOverlapMap(ed, margin), c) == |ed.Get(c)|
  {
    var omap := GenerateOverlapMap(ed, margin);
    OverlapMapMeets(ed, margin);
    forall c ensures Size(omap, c) == |ed.Get(c)| {
      assert c != (if c == Left then Right else Left);
    }
  }

  /** Every edge of the map runs both ways. */
  ghost predicate Symmetric(omap: OverlapMap)
  {
    forall u, v :: Edge(omap, u, v) ==> Edge(omap, v, u)
  }

  /** With a symmetric margin the overlap graph is undirected. */
  lemma MapSymmetric(ed: PerChannel<seq<Interval>>, margin: Option<Margin>)
    requires SymmetricMargin(margin)
    ensures Symmetric(GenerateOverlapMap(ed, margin))
  {
    var omap := GenerateOverlapMap(ed, margin);
    MapWellFormed(ed, margin);
    OverlapMapMeets(ed, margin);
    OverlapMapSymmetric(ed, margin);
    forall u, v | Edge(omap, u, v) ensures Edge(omap, v, u) {
      assert v.idx < |ed.Get(v.ch)|;
    }
  }

  /** The indices below n that are not in s. */
  function Outside(n: nat, s: set<nat>): set<nat>
  {
    set k: nat | k < n && k !in s
  }

  /** The nodes of the map outside s. */
  ghost function Complement(omap: OverlapMap, s: Marks): (r: Marks)
    ensures forall c :: r.Get(c) == Outside(Size(omap, c), s.Get(c))
  {
    PerChannel(Outside(Size(omap, Left), s.left), Outside(Size(omap, Right), s.right), Outside(Size(omap, Rfid), s.rfid))
  }

  /** In an undirected graph the nodes outside a closed set form a closed set. */
  lemma ComplementClosed(omap: OverlapMap, s: Marks)
    requires WellFormed(omap) && Symmetric(omap) && Closed(omap, s)
    ensures Closed(omap, Complement(omap, s))
  {
    var t := Complement(omap, s);
    forall u, v | In(t, u) && Edge(omap, u, v) ensures In(t, v) {
      assert Edge(omap, v, u);
      assert v.idx < Size(omap, v.ch);
    }
  }

  /** The union of two marked sets. */
  function Union(s: Marks, t: Marks): (r: Marks)
    ensures forall c :: r.Get(c) == s.Get(c) + t.Get(c)
  {
    PerChannel(s.left + t.left, s.right + t.right, s.rfid + t.rfid)
  }

  /**
   * With a symmetric map, the component of a seed outside a closed set lies
   * wholly outside it.
   */
  lemma {:induction false} FreshComponent(ed: PerChannel<seq<Interval>>, omap: OverlapMap, claimed: Marks, e: TubeEvent)
    requires WellFormed(omap) && Symmetric(omap) && Closed(omap, claimed)
    requires IsTubeEvent(ed, omap, e) && Seed(e) < Size(omap, Right) && Seed(e) !in claimed.right
    ensures forall c :: MemberSets(e).Get(c) !! claimed.Get(c)
  {
    ComplementClosed(omap, claimed);
    var t := Complement(omap, claimed);
    assert In(t, Node(Right, Seed(e)));
    assert Sub(MemberSets(e), t);
  }

  // ---------------------------------------------------------------------------
  // Building one event

  /** The inner envelope loop over one channel's listed intervals. */
  method Widen(xs: seq<Interval>, ks: seq<nat>, st0: int, et0: int) returns (st: int, et: int, ghost sp: int, ghost ep: int)
    requires forall p :: 0 <= p < |ks| ==> ks[p] < |xs|
    ensures st <= st0 && et0 <= et && Holds(xs, ks, st, et)
    ensures (sp == -1 && st == st0) || (0 <= sp < |ks| && st == xs[ks[sp]].start)
    ensures (ep == -1 && et == et0) || (0 <= ep < |ks| && et == xs[ks[ep]].end)
  {
    st, et, sp, ep := st0, et0, -1, -1;
    for p := 0 to |ks|
      invariant st <= st0 && et0 <= et
      invariant forall p' :: 0 <= p' < p ==> st <= xs[ks[p']].start && xs[ks[p']].end <= et
      invariant (sp == -1 && st == st0) || (0 <= sp < |ks| && st == xs[ks[sp]].start)
      invariant (ep == -1 && et == et0) || (0 <= ep < |ks| && et == xs[ks[ep]].end)
    {
      var d := xs[ks[p]];
      if d.start < st {
        st, sp := d.start, p;
      }
      if d.end > et {
        et, ep := d.end, p;
      }
    }
  }

  lemma HoldsWider(xs: seq<Interval>, ks: seq<nat>, st: int, et: int, st': int, et': int)
    requires forall p :: 0 <= p < |ks| ==> ks[p] < |xs|
    requires Holds(xs, ks, st, et) && st' <= st && et <= et'
    ensures Holds(xs, ks, st', et')
  {
  }

  /**
   * The envelope loop: start from the seed's interval, then take the least start
   * and greatest end over every listed interval.
   */
  method Envelope(ed: PerChannel<seq<Interval>>, inds: Lists, ri: nat) returns (st: int, et: int)
    requires IndicesIn(ed, inds) && |inds.Get(Right)| > 0 && inds.Get(Right)[|inds.Get(Right)| - 1] == ri
    ensures Spans(ed, inds, st, et)
  {
    st, et := ed.Get(Right)[ri].start, ed.Get(Right)[ri].end;
    ghost var sc, sp, ec, ep := Right, |inds.Get(Right)| - 1, Right, |inds.Get(Right)| - 1;
    var keys := [Left, Right, Rfid];
    for q := 0 to |keys|
      invariant forall q' :: 0 <= q' < q ==> Holds(ed.Get(keys[q']), inds.Get(keys[q']), st, et)
      invariant 0 <= sp < |inds.Get(sc)| && st == ed.Get(sc)[inds.Get(sc)[sp]].start
      invariant 0 <= ep < |inds.Get(ec)| && et == ed.Get(ec)[inds.Get(ec)[ep]].end
    {
      var k := keys[q];
      ghost var st0, et0 := st, et;
      ghost var sp', ep';
      st, et, sp', ep' := Widen(ed.Get(k), inds.Get(k), st, et);
      forall q' | 0 <= q' < q ensures Holds(ed.Get(keys[q']), inds.Get(keys[q']), st, et) {
        HoldsWider(ed.Get(keys[q']), inds.Get(keys[q']), st0, et0, st, et);
      }
      if sp' != -1 {
        sc, sp := k, sp';
      }
      if ep' != -1 {
        ec, ep := k, ep';
      }
    }
    forall c ensures Holds(ed.Get(c), inds.Get(c), st, et) {
      assert c == keys[0] || c == keys[1] || c == keys[2];
    }
  }

  /** The event built from its index lists and envelope. */
  function EventOf(ed: PerChannel<seq<Interval>>, inds: Lists, st: int, et: int): (e: TubeEvent)
    requires IndicesIn(ed, inds)
    ensures e.indices == inds && forall c :: e.intervals.Get(c) == Pick(ed.Get(c), inds.Get(c))
  {
    TubeEvent(st, et, inds, PerChannel(Pick(ed.Get(Left), inds.Get(Left)), Pick(ed.Get(Right), inds.Get(Right)), Pick(ed.Get(Rfid), inds.Get(Rfid))))
  }

  /** Appending the seed to the right list of a search's result yields the seed's component. */
  lemma SeedAppended(ed: PerChannel<seq<Interval>>, omap: OverlapMap, found: Lists, ri: nat)
    requires forall c :: Size(omap, c) == |ed.Get(c)|
    requires forall c :: NoDup(found.Get(c))
    requires ri !in found.Get(Right) && InRange(omap, Members(found, Right, ri))
    ensures var inds := found.Set(Right, found.right + [ri]);
      (forall c :: NoDup(inds.Get(c)) && Elements(inds.Get(c)) == Members(found, Right, ri).Get(c)) &&
      IndicesIn(ed, inds)
  {
    var inds := found.Set(Right, found.right + [ri]);
    assert Elements(inds.right) == Elements(found.right) + {ri};
    assert NoDup(inds.right) by {
      assert forall p :: 0 <= p < |found.right| ==> found.right[p] != ri;
    }
    forall c ensures Elements(inds.Get(c)) == Members(found, Right, ri).Get(c) {
    }
    forall c, p | 0 <= p < |inds.Get(c)| ensures inds.Get(c)[p] < |ed.Get(c)| {
      assert inds.Get(c)[p] in Members(found, Right, ri).Get(c);
    }
  }

  /**
   * One pass of the merge loop for an unmerged right-beam interval ri: search
   * its neighbours, append ri to the right list, take the envelope and pick the
   * member intervals.
   */
  method GrowEvent(ed: PerChannel<seq<Interval>>, omap: OverlapMap, ri: nat) returns (te: TubeEvent)
    requires WellFormed(omap) && forall c :: Size(omap, c) == |ed.Get(c)|
    requires ri < |ed.right|
    ensures IsTubeEvent(ed, omap, te) && Seed(te) == ri
  {
    var found := FindNeighborsFrom(ri, Right, omap);
    var inds := found.Set(Right, found.right + [ri]);
    SeedAppended(ed, omap, found, ri);
    var st, et := Envelope(ed, inds, ri);
    te := EventOf(ed, inds, st, et);
    assert MemberSets(te) == Members(found, Right, ri) by {
      assert forall c :: MemberSets(te).Get(c) == Members(found, Right, ri).Get(c);
    }
  }

  // ---------------------------------------------------------------------------
  // The merge loop

  /** The events so far: each grown from its seed, seeds ascending and below ri. */
  ghost predicate Grown(ed: PerChannel<seq<Interval>>, omap: OverlapMap, events: seq<TubeEvent>, ri: nat)
  {
    (forall k :: 0 <= k < |events| ==> IsTubeEvent(ed, omap, events[k]) && Seed(events[k]) < ri) &&
    (forall k, k' :: 0 <= k < k' < |events| ==> Seed(events[k]) < Seed(events[k']))
  }

  /** Every right-beam interval below ri is visited, and every visited one is covered. */
  ghost predicate Visits(events: seq<TubeEvent>, visited: set<nat>, ri: nat)
  {
    (forall r :: 0 <= r < ri ==> r in visited) &&
    (forall r :: r in visited ==> Covered(events, r))
  }

  /** claimed holds every event's members, is closed, and its right part is the visited set. */
  ghost predicate Claims(omap: OverlapMap, events: seq<TubeEvent>, visited: set<nat>, claimed: Marks)
  {
    visited == claimed.right && Closed(omap, claimed) &&
    (forall k, c :: 0 <= k < |events| ==> MemberSets(events[k]).Get(c) <= claimed.Get(c))
  }

  /** No interval of any channel belongs to two events. */
  ghost predicate Disjoint(events: seq<TubeEvent>)
  {
    forall k, k', c :: 0 <= k < k' < |events| ==> MemberSets(events[k]).Get(c) !! MemberSets(events[k']).Get(c)
  }

  /**
   * The merge loop's invariant once the right-beam intervals below ri have been
   * handled; with an undirected map (sym) the events are pairwise disjoint.
   */
  ghost predicate Merged(ed: PerChannel<seq<Interval>>, omap: OverlapMap, sym: bool, events: seq<TubeEvent>,
                         visited: set<nat>, claimed: Marks, ri: nat)
  {
    Grown(ed, omap, events, ri) && Seeds(events) && Visits(events, visited, ri) &&
    Claims(omap, events, visited, claimed) && (sym ==> Disjoint(events))
  }

  /** A right-beam interval already visited is skipped. */
  lemma MergeSkip(ed: PerChannel<seq<Interval>>, omap: OverlapMap, sym: bool, events: seq<TubeEvent>,
                  visited: set<nat>, claimed: Marks, ri: nat)
    requires Merged(ed, omap, sym, events, visited, claimed, ri) && ri in visited
    ensures Merged(ed, omap, sym, events, visited, claimed, ri + 1)
  {
  }

  lemma GrownStep(ed: PerChannel<seq<Interval>>, omap: OverlapMap, events: seq<TubeEvent>, ri: nat, te: TubeEvent)
    requires Grown(ed, omap, events, ri) && IsTubeEvent(ed, omap, te) && Seed(te) == ri
    ensures Grown(ed, omap, events + [te], ri + 1)
  {
  }

  lemma VisitsStep(events: seq<TubeEvent>, visited: set<nat>, ri: nat, te: TubeEvent)
    requires Visits(events, visited, ri) && te.indices.right != [] && Seed(te) == ri
    ensures Visits(events + [te], visited + Elements(te.indices.right), ri + 1)
  {
    var events' := events + [te];
    forall r | r in visited + Elements(te.indices.right) ensures Covered(events', r) {
      if r in visited {
        var k :| 0 <= k < |events| && r in events[k].indices.right;
        assert events'[k] == events[k];
      } else {
        assert r in events'[|events|].indices.right;
      }
    }
    assert ri in Elements(te.indices.right);
  }

  /** An interval below ri that no event lists is the next seed. */
  lemma SeedsStep(omap: OverlapMap, events: seq<TubeEvent>, visited: set<nat>, claimed: Marks, ri: nat, te: TubeEvent)
    requires Seeds(events) && Visits(events, visited, ri) && Claims(omap, events, visited, claimed)
    requires ri !in visited && Seed(te) == ri
    ensures Seeds(events + [te])
  {
    var events' := events + [te];
    forall k | 0 <= k < |events'| ensures FreshSeed(events'[..k], Seed(events'[k])) {
      if k < |events| {
        assert events'[..k] == events[..k] && events'[k] == events[k];
      } else {
        assert events'[..k] == events;
        assert !Covered(events, ri) by {
          forall j | 0 <= j < |events| ensures ri !in events[j].indices.right {
            assert MemberSets(events[j]).Get(Right) <= claimed.Get(Right);
            assert Elements(events[j].indices.right) == MemberSets(events[j]).Get(Right);
          }
        }
        forall r | 0 <= r < ri ensures Covered(events, r) {
          assert r in visited;
        }
      }
    }
  }

  lemma ClaimsStep(ed: PerChannel<seq<Interval>>, omap: OverlapMap, events: seq<TubeEvent>, visited: set<nat>,
                   claimed: Marks, te: TubeEvent)
    requires Claims(omap, events, visited, claimed) && IsTubeEvent(ed, omap, te)
    ensures Claims(omap, events + [te], visited + Elements(te.indices.right), Union(claimed, MemberSets(te)))
  {
  }

  lemma DisjointStep(ed: PerChannel<seq<Interval>>, omap: OverlapMap, events: seq<TubeEvent>, visited: set<nat>,
                     claimed: Marks, te: TubeEvent)
    requires WellFormed(omap) && Symmetric(omap) && Seed(te) < Size(omap, Right) && Seed(te) !in visited
    requires Claims(omap, events, visited, claimed) && Disjoint(events) && IsTubeEvent(ed, omap, te)
    ensures Disjoint(events + [te])
  {
    FreshComponent(ed, omap, claimed, te);
    var events' := events + [te];
    forall k, k', c | 0 <= k < k' < |events'|
      ensures MemberSets(events'[k]).Get(c) !! MemberSets(events'[k']).Get(c)
    {
      if k' == |events| {
        assert MemberSets(events[k]).Get(c) <= claimed.Get(c);
      } else {
        assert events'[k] == events[k] && events'[k'] == events[k'];
      }
    }
  }

  /** An unvisited right-beam interval grows a new event, disjoint from the others when sym. */
  lemma MergeStep(ed: PerChannel<seq<Interval>>, omap: OverlapMap, sym: bool, events: seq<TubeEvent>,
                  visited: set<nat>, claimed: Marks, ri: nat, te: TubeEvent)
    requires WellFormed(omap) && (sym ==> Symmetric(omap)) && ri < Size(omap, Right)
    requires Merged(ed, omap, sym, events, visited, claimed, ri) && ri !in visited
    requires IsTubeEvent(ed, omap, te) && Seed(te) == ri
    ensures Merged(ed, omap, sym, events + [te], visited + Elements(te.indices.right), Union(claimed, MemberSets(te)), ri + 1)
  {
    GrownStep(ed, omap, events, ri, te);
    SeedsStep(omap, events, visited, claimed, ri, te);
    VisitsStep(events, visited, ri, te);
    ClaimsStep(ed, omap, events, visited, claimed, te);
    if sym {
      DisjointStep(ed, omap, events, visited, claimed, te);
    }
  }

  /**
   * The merge loop of `find_tube_events`: for each right-beam interval in
   * order, unless an earlier event already holds it, grow an event from it and
   * mark that event's right-beam intervals as visited.
   */
  method MergeTubeEvents(ed: PerChannel<seq<Interval>>, margin: Option<Margin>) returns (events: seq<TubeEvent>)
    ensures TubeEventsOf(ed, margin, events)
  {
    var omap := GenerateOverlapMap(ed, margin);
    ghost var sym := SymmetricMargin(margin);
    MapWellFormed(ed, margin);
    if sym {
      MapSymmetric(ed, margin);
    }
    events := [];
    var visited: set<nat> := {};
    ghost var claimed: Marks := NoMarks;
    for ri := 0 to |ed.right|
      invariant Merged(ed, omap, sym, events, visited, claimed, ri)
    {
      if ri in visited {
        MergeSkip(ed, omap, sym, events, visited, claimed, ri);
        continue;
      }
      var te := GrowEvent(ed, omap, ri);
      MergeStep(ed, omap, sym, events, visited, claimed, ri, te);
      events := events + [te];
      visited := visited + Elements(te.indices.right);
      claimed := Union(claimed, MemberSets(te));
    }
  }

  // ---------------------------------------------------------------------------
  // find_tube_events

  /** Rows of one event code and, when given, one data0 value. */
  function EventFilter(event: int, data0: Option<int>): Filter
  {
    Filter(None, Some(event), data0, None, None)
  }

  /**
   * The three interval lists `find_tube_events` extracts: left and right beams
   * with the minimum duration, RFID reads without one; the first error wins.
   */
  function Channels(be: seq<Row>, codes: Codes, minDuration: Option<int>): (r: Result<PerChannel<seq<Interval>>, Error>)
    ensures var lbe := BeamDurations(Sel(be, EventFilter(codes.beam, Some(codes.beamLeft))), minDuration);
      var rbe := BeamDurations(Sel(be, EventFilter(codes.beam, Some(codes.beamRight))), minDuration);
      var ie := RfidDurations(Sel(be, EventFilter(codes.rfid, None)), None);
      (r.Ok? <==> lbe.Ok? && rbe.Ok? && ie.Ok?) &&
      (r.Ok? ==> r.value == PerChannel(lbe.value, rbe.value, ie.value)) &&
      (lbe.Err? ==> r == Err(lbe.error)) &&
      (lbe.Ok? && rbe.Err? ==> r == Err(rbe.error)) &&
      (lbe.Ok? && rbe.Ok? && ie.Err? ==> r == Err(ie.error))
  {
    var lbe := BeamDurations(Sel(be, EventFilter(codes.beam, Some(codes.beamLeft))), minDuration);
    var rbe := BeamDurations(Sel(be, EventFilter(codes.beam, Some(codes.beamRight))), minDuration);
    var ie := RfidDurations(Sel(be, EventFilter(codes.rfid, None)), None);
    if lbe.Err? then Err(lbe.error)
    else if rbe.Err? then Err(rbe.error)
    else if ie.Err? then Err(ie.error)
    else Ok(PerChannel(lbe.value, rbe.value, ie.value))
  }

  /** All rows come from one board. */
  predicate OneBoard(be: seq<Row>)
  {
    |be| > 0 && forall i :: 0 <= i < |be| ==> be[i].board == be[0].board
  }

  /**
   * `find_tube_events(board_events, margin, min_duration)`: fail unless the
   * rows come from exactly one board, extract the three channels (failing as
   * the extractors do), generate the overlap map and merge.
   */
  method FindTubeEvents(be: seq<Row>, codes: Codes, margin: Option<Margin>, minDuration: Option<int>)
    returns (res: Result<seq<TubeEvent>, Error>)
    ensures !OneBoard(be) ==> res == Err(NotOneBoard)
    ensures OneBoard(be) && Channels(be, codes, minDuration).Err? ==> res == Err(Channels(be, codes, minDuration).error)
    ensures OneBoard(be) && Channels(be, codes, minDuration).Ok? ==>
      res.Ok? && TubeEventsOf(Channels(be, codes, minDuration).value, margin, res.value)
  {
    OneDistinct(Boards(be));
    if |Distinct(Boards(be))| != 1 {
      return Err(NotOneBoard);
    }
    var lrows := SelectRows(be, EventFilter(codes.beam, Some(codes.beamLeft)));
    var lbe := BeamEventsToDuration(lrows, minDuration);
    if lbe.Err? {
      return Err(lbe.error);
    }
    var rrows := SelectRows(be, EventFilter(codes.beam, Some(codes.beamRight)));
    var rbe := BeamEventsToDuration(rrows, minDuration);
    if rbe.Err? {
      return Err(rbe.error);
    }
    var irows := SelectRows(be, EventFilter(codes.rfid, None));
    var ie := RfidEventsToDuration(irows, None);
    if ie.Err? {
      return Err(ie.error);
    }
    var events := MergeTubeEvents(PerChannel(lbe.value, rbe.value, ie.value), margin);
    res := Ok(events);
  }

  /** An event's seed is listed by no event with a smaller seed. */
  lemma SeedUnlisted(events: seq<TubeEvent>, k: nat)
    requires forall k, k' :: 0 <= k < k' < |events| ==> Seed(events[k]) < Seed(events[k'])
    requires Seeds(events) && k < |events|
    ensures forall k' :: 0 <= k' < |events| && Seed(events[k']) < Seed(events[k]) ==> Seed(events[k]) !in events[k'].indices.right
  {
    var r := Seed(events[k]);
    assert FreshSeed(events[..k], r);
    forall k' | 0 <= k' < |events| && Seed(events[k']) < r ensures r !in events[k'].indices.right {
      assert events[..k][k'] == events[k'];
    }
  }

  /** A listed right-beam interval that no event with a smaller seed lists is a seed. */
  lemma UnlistedIsSeed(events: seq<TubeEvent>, r: nat)
    requires forall k, k' :: 0 <= k < k' < |events| ==> Seed(events[k]) < Seed(events[k'])
    requires Seeds(events) && Covered(events, r)
    requires forall k :: 0 <= k < |events| && Seed(events[k]) < r ==> r !in events[k].indices.right
    ensures exists k :: 0 <= k < |events| && Seed(events[k]) == r
  {
    var k0 :| 0 <= k0 < |events| && r in events[k0].indices.right;
    var j := 0;
    while j < |events| && Seed(events[j]) < r
      invariant j <= k0
      invariant forall j' :: 0 <= j' < j ==> Seed(events[j']) < r
    {
      j := j + 1;
    }
    assert !Covered(events[..j], r) by {
      forall k' | 0 <= k' < j ensures r !in events[..j][k'].indices.right {
        assert events[..j][k'] == events[k'];
      }
    }
    assert FreshSeed(events[..j], Seed(events[j]));
    assert Seed(events[j]) == r;
  }

  /**
   * The seeds are fixed by the events' contents: in events with ascending seeds
   * that satisfy Seeds (as TubeEventsOf requires, with every right-beam interval
   * covered), a listed right-beam interval seeds an event exactly when no event
   * with a smaller seed lists it.
   */
  lemma SeedsDetermined(events: seq<TubeEvent>, r: nat)
    requires forall k, k' :: 0 <= k < k' < |events| ==> Seed(events[k]) < Seed(events[k'])
    requires Seeds(events) && Covered(events, r)
    ensures (exists k :: 0 <= k < |events| && Seed(events[k]) == r) <==>
            (forall k :: 0 <= k < |events| && Seed(events[k]) < r ==> r !in events[k].indices.right)
  {
    if exists k :: 0 <= k < |events| && Seed(events[k]) == r {
      var k :| 0 <= k < |events| && Seed(events[k]) == r;
      SeedUnlisted(events, k);
    } else if forall k :: 0 <= k < |events| && Seed(events[k]) < r ==> r !in events[k].indices.right {
      UnlistedIsSeed(events, r);
    }
  }

  /**
   * With a symmetric margin, every right-beam interval belongs to exactly one
   * tube event.
   */
  lemma {:induction false} RightOnce(ed: PerChannel<seq<Interval>>, margin: Option<Margin>, events: seq<TubeEvent>, r: nat)
    requires TubeEventsOf(ed, margin, events) && SymmetricMargin(margin) && r < |ed.right|
    ensures exists k ::
      0 <= k < |events| && r in events[k].indices.right &&
      (forall k' :: 0 <= k' < |events| && k' != k ==> r !in events[k'].indices.right)
  {
    assert Covered(events, r);
    var k :| 0 <= k < |events| && r in events[k].indices.right;
    assert r in MemberSets(events[k]).Get(Right);
    forall k' | 0 <= k' < |events| && k' != k ensures r !in events[k'].indices.right {
      if k < k' {
        assert MemberSets(events[k]).Get(Right) !! MemberSets(events[k']).Get(Right);
      } else {
        assert MemberSets(events[k']).Get(Right) !! MemberSets(events[k]).Get(Right);
      }
      assert r !in MemberSets(events[k']).Get(Right);
    }
  }
}

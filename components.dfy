/**
 * `find_neighbors`: depth-first search of the three-part overlap graph from one
 * interval, with per-channel visited sets and per-channel lists of the indices
 * it discovers, both shared by every recursive call.
 */
module Components {
  import opened Wrappers
  import opened Overlap

  /** An interval of one channel, named by its channel and index. */
  datatype Node = Node(ch: Channel, idx: nat)

  /** Sets of indices per channel: the visited sets, or any set of nodes. */
  type Marks = PerChannel<set<nat>>

  /** Lists of indices per channel: the `inds` dictionary. */
  type Lists = PerChannel<seq<nat>>

  const NoMarks: Marks := PerChannel({}, {}, {})
  const NoLists: Lists := PerChannel([], [], [])

  /** The number of intervals of channel c, read off the map. */
  function Size(omap: OverlapMap, c: Channel): nat
  {
    |omap.Lists(c, if c == Left then Right else Left)|
  }

  /** Every list of the map has one entry per interval and names intervals of the other channel. */
  ghost predicate WellFormed(omap: OverlapMap)
  {
    forall c, d :: c != d ==>
      |omap.Lists(c, d)| == Size(omap, c) &&
      forall i, j :: 0 <= i < |omap.Lists(c, d)| && j in omap.Lists(c, d)[i] ==> j < Size(omap, d)
  }

  /** An edge of the overlap graph: u's list for v's channel names v. */
  ghost predicate Edge(omap: OverlapMap, u: Node, v: Node)
  {
    u.ch != v.ch && u.idx < |omap.Lists(u.ch, v.ch)| && v.idx in omap.Lists(u.ch, v.ch)[u.idx]
  }

  ghost predicate In(s: Marks, n: Node)
  {
    n.idx in s.Get(n.ch)
  }

  /** s is closed under the overlap map: every neighbour of a member is a member. */
  ghost predicate Closed(omap: OverlapMap, s: Marks)
  {
    forall u, v {:trigger Edge(omap, u, v)} :: In(s, u) && Edge(omap, u, v) ==> In(s, v)
  }

  ghost predicate Sub(s: Marks, t: Marks)
  {
    forall c :: s.Get(c) <= t.Get(c)
  }

  ghost predicate InRange(omap: OverlapMap, s: Marks)
  {
    forall c, k :: k in s.Get(c) ==> k < Size(omap, c)
  }

  /** The nodes not yet visited: the search's termination measure. */
  ghost function Unvisited(omap: OverlapMap, s: Marks): set<Node>
  {
    set c: Channel, k: nat | c in {Left, Right, Rfid} && k < Size(omap, c) && k !in s.Get(c) :: Node(c, k)
  }

  lemma UnvisitedShrinks(omap: OverlapMap, s: Marks, t: Marks, n: Node)
    requires Sub(s, t) && In(t, n) && !In(s, n) && n.idx < Size(omap, n.ch)
    ensures Unvisited(omap, t) < Unvisited(omap, s)
  {
    assert n in Unvisited(omap, s);
    assert n !in Unvisited(omap, t);
  }

  /** The other two channels, in the order the source visits them. */
  function OtherKeys(key: Channel): (r: seq<Channel>)
    ensures |r| == 2 && r[0] != key && r[1] != key && r[0] != r[1]
  {
    match key
    case Right => [Left, Rfid]
    case Left => [Right, Rfid]
    case Rfid => [Left, Right]
  }

  function Elements(s: seq<nat>): set<nat>
  {
    set x | x in s
  }

  predicate NoDup(s: seq<nat>)
  {
    forall p, q :: 0 <= p < q < |s| ==> s[p] != s[q]
  }

  /** The seed of a search, as a set of indices of channel c. */
  function SeedSet(seedKey: Channel, seed: nat, c: Channel): set<nat>
  {
    if c == seedKey then {seed} else {}
  }

  /**
   * The lists and the visited sets agree: each list is duplicate-free and holds
   * exactly the visited indices of its channel other than the seed, and the seed
   * is not in its own channel's list.
   */
  ghost predicate Synced(inds: Lists, visited: Marks, seedKey: Channel, seed: nat)
  {
    (forall c :: NoDup(inds.Get(c)) && Elements(inds.Get(c)) + SeedSet(seedKey, seed, c) == visited.Get(c)) &&
    seed !in inds.Get(seedKey)
  }

  /** As Synced, except that (key, index) may already be listed but not yet visited. */
  ghost predicate Expects(inds: Lists, visited: Marks, seedKey: Channel, seed: nat, key: Channel, index: nat)
  {
    (forall c :: NoDup(inds.Get(c)) &&
      Elements(inds.Get(c)) + SeedSet(seedKey, seed, c) == visited.Get(c) + SeedSet(key, index, c)) &&
    seed !in inds.Get(seedKey)
  }

  lemma VisitSyncs(inds: Lists, visited: Marks, seedKey: Channel, seed: nat, key: Channel, index: nat)
    requires Expects(inds, visited, seedKey, seed, key, index)
    ensures Synced(inds, visited.Set(key, visited.Get(key) + {index}), seedKey, seed)
  {
    var v := visited.Set(key, visited.Get(key) + {index});
    forall c ensures Elements(inds.Get(c)) + SeedSet(seedKey, seed, c) == v.Get(c) {
      assert visited.Get(c) + SeedSet(key, index, c) == v.Get(c);
    }
  }

  lemma AppendExpects(inds: Lists, visited: Marks, seedKey: Channel, seed: nat, okey: Channel, oi: nat)
    requires Synced(inds, visited, seedKey, seed)
    requires oi !in visited.Get(okey)
    ensures Expects(inds.Set(okey, inds.Get(okey) + [oi]), visited, seedKey, seed, okey, oi)
  {
    var l := inds.Get(okey) + [oi];
    var inds' := inds.Set(okey, l);
    assert Elements(l) == Elements(inds.Get(okey)) + {oi};
    assert oi !in inds.Get(okey) by {
      assert Elements(inds.Get(okey)) <= visited.Get(okey);
    }
    assert NoDup(l);
    forall c
      ensures NoDup(inds'.Get(c))
      ensures Elements(inds'.Get(c)) + SeedSet(seedKey, seed, c) == visited.Get(c) + SeedSet(okey, oi, c)
    {
    }
    assert seed in visited.Get(seedKey);
  }

  lemma UnvisitedMono(omap: OverlapMap, s: Marks, t: Marks)
    requires Sub(s, t)
    ensures Unvisited(omap, t) <= Unvisited(omap, s)
  {
    forall n | n in Unvisited(omap, t) ensures n in Unvisited(omap, s) {
    }
  }

  /**
   * Every node visited in after but not in before, other than those pending,
   * has all its neighbours visited in after.
   */
  ghost predicate ClosedSince(omap: OverlapMap, before: Marks, after: Marks, pending: set<Node>)
  {
    forall u, v {:trigger Edge(omap, u, v)} :: In(after, u) && !In(before, u) && u !in pending && Edge(omap, u, v) ==> In(after, v)
  }

  /** after stays inside every closed set that holds before and n. */
  ghost predicate LeastFrom(omap: OverlapMap, before: Marks, after: Marks, n: Node)
  {
    forall t: Marks {:trigger Closed(omap, t)} :: Closed(omap, t) && Sub(before, t) && In(t, n) ==> Sub(after, t)
  }

  /** Every index that here's list for channel okey names is visited. */
  ghost predicate ListDone(omap: OverlapMap, here: Node, okey: Channel, visited: Marks)
  {
    here.ch != okey && here.idx < |omap.Lists(here.ch, okey)| &&
    forall j :: j in omap.Lists(here.ch, okey)[here.idx] ==> j in visited.Get(okey)
  }

  lemma ClosedSinceTrans(omap: OverlapMap, a: Marks, b: Marks, c: Marks, pending: set<Node>)
    requires Sub(a, b) && Sub(b, c)
    requires ClosedSince(omap, a, b, pending) && ClosedSince(omap, b, c, {})
    ensures ClosedSince(omap, a, c, pending)
  {
    forall u, v | In(c, u) && !In(a, u) && u !in pending && Edge(omap, u, v) ensures In(c, v) {
      if In(b, u) {
        assert In(b, v);
      }
    }
  }

  /** A search from a neighbour of here (or from here) stays inside every closed set holding here. */
  lemma LeastStep(omap: OverlapMap, a: Marks, b: Marks, c: Marks, here: Node, next: Node)
    requires LeastFrom(omap, a, b, here) && LeastFrom(omap, b, c, next)
    requires next == here || Edge(omap, here, next)
    ensures LeastFrom(omap, a, c, here)
  {
    forall t: Marks | Closed(omap, t) && Sub(a, t) && In(t, here) ensures Sub(c, t) {
      assert Sub(b, t);
      assert In(t, next);
    }
  }

  lemma ListDoneMono(omap: OverlapMap, here: Node, okey: Channel, a: Marks, b: Marks)
    requires ListDone(omap, here, okey, a) && Sub(a, b)
    ensures ListDone(omap, here, okey, b)
  {
    forall j | j in omap.Lists(here.ch, okey)[here.idx] ensures j in b.Get(okey) {
      assert j in a.Get(okey);
    }
  }

  lemma ListsDoneMono(omap: OverlapMap, here: Node, okeys: seq<Channel>, q: nat, a: Marks, b: Marks)
    requires q < |okeys| && Sub(a, b) && ListDone(omap, here, okeys[q], b)
    requires forall q' :: 0 <= q' < q ==> ListDone(omap, here, okeys[q'], a)
    ensures forall q' :: 0 <= q' <= q ==> ListDone(omap, here, okeys[q'], b)
  {
    forall q' | 0 <= q' < q ensures ListDone(omap, here, okeys[q'], b) {
      ListDoneMono(omap, here, okeys[q'], a, b);
    }
  }

  /** Once here's lists for both other channels are done, here is closed too. */
  lemma CloseHere(omap: OverlapMap, before: Marks, after: Marks, here: Node)
    requires In(after, here) && ClosedSince(omap, before, after, {here})
    requires forall q :: 0 <= q < 2 ==> ListDone(omap, here, OtherKeys(here.ch)[q], after)
    ensures ClosedSince(omap, before, after, {})
  {
    var okeys := OtherKeys(here.ch);
    assert ListDone(omap, here, okeys[0], after) && ListDone(omap, here, okeys[1], after);
    forall v | Edge(omap, here, v) ensures In(after, v) {
      assert v.ch == okeys[0] || v.ch == okeys[1];
    }
  }

  /**
   * The state of a search from node n that began with visited sets start and
   * has reached lists inds and visited sets now: n is visited, the lists agree
   * with the visited sets, every newly visited node outside pending has all its
   * neighbours visited, and now stays inside every closed set holding start and n.
   */
  ghost predicate Searching(omap: OverlapMap, start: Marks, inds: Lists, now: Marks,
                            seedKey: Channel, seed: nat, n: Node, pending: set<Node>)
  {
    InRange(omap, now) && Sub(start, now) && In(now, n) &&
    Synced(inds, now, seedKey, seed) &&
    ClosedSince(omap, start, now, pending) && LeastFrom(omap, start, now, n)
  }

  /** A search from here followed by a complete search from here or a neighbour of here. */
  lemma SearchingTrans(omap: OverlapMap, a: Marks, b: Marks, inds: Lists, c: Marks,
                       seedKey: Channel, seed: nat, here: Node, next: Node, pending: set<Node>)
    requires exists i :: Searching(omap, a, i, b, seedKey, seed, here, pending)
    requires Searching(omap, b, inds, c, seedKey, seed, next, {})
    requires next == here || Edge(omap, here, next)
    ensures Searching(omap, a, inds, c, seedKey, seed, here, pending)
  {
    ClosedSinceTrans(omap, a, b, c, pending);
    LeastStep(omap, a, b, c, here, next);
  }

  /** Marking an expected node visited starts a search from it. */
  lemma SearchStart(omap: OverlapMap, inds: Lists, visited: Marks, seedKey: Channel, seed: nat, here: Node)
    requires InRange(omap, visited) && here.idx < Size(omap, here.ch) && !In(visited, here)
    requires Expects(inds, visited, seedKey, seed, here.ch, here.idx)
    ensures Searching(omap, visited, inds, visited.Set(here.ch, visited.Get(here.ch) + {here.idx}),
                      seedKey, seed, here, {here})
  {
    var now := visited.Set(here.ch, visited.Get(here.ch) + {here.idx});
    VisitSyncs(inds, visited, seedKey, seed, here.ch, here.idx);
    assert forall c :: now.Get(c) == visited.Get(c) + SeedSet(here.ch, here.idx, c);
  }

  /**
   * `find_neighbors(index, key, omap, inds, visited)`: if (key, index) is new,
   * mark it visited; then, for each other channel, visit the indices its list
   * there names. The ghost seed names the search's first call. Returns the
   * updated lists and visited sets: every newly visited node has all its
   * neighbours visited, and the visited sets stay inside every closed set that
   * holds them and (key, index).
   */
  method FindNeighbors(index: nat, key: Channel, omap: OverlapMap, inds: Lists, visited: Marks,
                       ghost seedKey: Channel, ghost seed: nat)
    returns (inds': Lists, visited': Marks)
    requires WellFormed(omap) && index < Size(omap, key) && InRange(omap, visited)
    requires Expects(inds, visited, seedKey, seed, key, index)
    ensures Searching(omap, visited, inds', visited', seedKey, seed, Node(key, index), {})
    decreases Unvisited(omap, visited), 1
  {
    var here := Node(key, index);
    if index in visited.Get(key) {
      assert Synced(inds, visited, seedKey, seed);
      return inds, visited;
    }
    visited' := visited.Set(key, visited.Get(key) + {index});
    inds' := inds;
    SearchStart(omap, inds, visited, seedKey, seed, here);
    var okeys := OtherKeys(key);
    for q := 0 to |okeys|
      invariant Searching(omap, visited, inds', visited', seedKey, seed, here, {here})
      invariant forall q' :: 0 <= q' < q ==> ListDone(omap, here, okeys[q'], visited')
    {
      ghost var before := visited';
      UnvisitedShrinks(omap, visited, visited', here);
      inds', visited' := VisitList(here, okeys[q], omap, inds', visited', seedKey, seed, Unvisited(omap, visited));
      SearchingTrans(omap, visited, before, inds', visited', seedKey, seed, here, here, {here});
      ListsDoneMono(omap, here, okeys, q, before, visited');
    }
    CloseHere(omap, visited, visited', here);
  }

  /**
   * The inner loop of `find_neighbors`: for each index j that here's list for
   * channel okey names, if j is not yet visited, append it to okey's list and
   * search from it.
   */
  method VisitList(here: Node, okey: Channel, omap: OverlapMap, inds: Lists, visited: Marks,
                   ghost seedKey: Channel, ghost seed: nat, ghost bound: set<Node>)
    returns (inds': Lists, visited': Marks)
    requires WellFormed(omap) && here.ch != okey && here.idx < Size(omap, here.ch)
    requires InRange(omap, visited) && In(visited, here) && Synced(inds, visited, seedKey, seed)
    requires Unvisited(omap, visited) < bound
    ensures Searching(omap, visited, inds', visited', seedKey, seed, here, {})
    ensures ListDone(omap, here, okey, visited')
    decreases bound, 0
  {
    var lst := omap.Lists(here.ch, okey)[here.idx];
    inds', visited' := inds, visited;
    for p := 0 to |lst|
      invariant Searching(omap, visited, inds', visited', seedKey, seed, here, {})
      invariant forall p' :: 0 <= p' < p ==> lst[p'] in visited'.Get(okey)
    {
      var oi := lst[p];
      if oi in visited'.Get(okey) {
        continue;
      }
      var next := Node(okey, oi);
      assert Edge(omap, here, next);
      ghost var before := visited';
      AppendExpects(inds', visited', seedKey, seed, okey, oi);
      UnvisitedMono(omap, visited, visited');
      inds', visited' := FindNeighbors(oi, okey, omap, inds'.Set(okey, inds'.Get(okey) + [oi]), visited', seedKey, seed);
      SearchingTrans(omap, visited, before, inds', visited', seedKey, seed, here, next, {});
    }
  }

  /** The component a search found: its lists plus its seed. */
  function Members(inds: Lists, key: Channel, index: nat): Marks
  {
    PerChannel(
      Elements(inds.left) + SeedSet(key, index, Left),
      Elements(inds.right) + SeedSet(key, index, Right),
      Elements(inds.rfid) + SeedSet(key, index, Rfid))
  }

  /**
   * `find_neighbors(index, key, omap)` as first called, with empty lists and
   * visited sets. Each list is duplicate-free, the seed is not in its own
   * channel's list, and the seed with the listed indices is the smallest set
   * that holds the seed and is closed under the map: the seed's component.
   */
  method FindNeighborsFrom(index: nat, key: Channel, omap: OverlapMap) returns (inds: Lists)
    requires WellFormed(omap) && index < Size(omap, key)
    ensures forall c :: NoDup(inds.Get(c))
    ensures index !in inds.Get(key)
    ensures InRange(omap, Members(inds, key, index))
    ensures Closed(omap, Members(inds, key, index))
    ensures forall t: Marks :: Closed(omap, t) && In(t, Node(key, index)) ==> Sub(Members(inds, key, index), t)
  {
    assert Expects(NoLists, NoMarks, key, index, key, index) by {
      forall c ensures Elements(NoLists.Get(c)) == {} {
      }
    }
    var visited;
    inds, visited := FindNeighbors(index, key, omap, NoLists, NoMarks, key, index);
    assert Members(inds, key, index) == visited by {
      assert forall c :: Members(inds, key, index).Get(c) == visited.Get(c);
    }
  }
}

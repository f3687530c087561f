/**
 What the table of a node is, said without the steps that compute it: when there is one, which port it
 gives to an address when several are equally close, and that it has as few entries as any table can have.
 */
module AddrMapNodeTable {
  import opened Common
  import opened AddrMapGraph
  import opened AddrMapTable
  import opened AddrMapDelivery

  // ---------- When there is a table ----------

  /** Some base of `l`, which `n` reaches, has `addr` in its range. */
  ghost predicate Owner(g: Graph, n: nat, l: nat, b: nat, addr: int)
    requires Closed(g) && n < |g|
  {
    Reaches(g, n, l) && Owns(g, l, b, addr)
  }

  ghost predicate Owned(g: Graph, n: nat, addr: int)
    requires Closed(g) && n < |g|
  {
    exists l: nat, b: nat :: Owner(g, n, l, b, addr)
  }

  /** No address has two owners that differ in leaf or base address. */
  ghost predicate Unambiguous(g: Graph, n: nat)
    requires Closed(g) && n < |g|
  {
    forall l: nat, b: nat, l': nat, b': nat, addr ::
      Owner(g, n, l, b, addr) && Owner(g, n, l', b', addr) ==> l == l' && g[l].bases[b] == g[l'].bases[b']
  }

  /** The path to a leaf base, and the route it stands for. */
  lemma OwnerPath(g: Graph, n: nat, l: nat, b: nat, addr: int) returns (p: Path)
    requires Closed(g) && n < |g| && Owner(g, n, l, b, addr)
    ensures PathTo(g, n, l, p) && p[|p| - 1] == b && RouteAlong(g, n, p).Covers(addr)
  {
    var p0 :| PathTo(g, n, l, p0);
    p := Rebase(g, n, p0, b);
  }

  lemma PathOwner(g: Graph, n: nat, p: Path, addr: int)
    requires Closed(g) && n < |g| && IsPath(g, n, p) && RouteAlong(g, n, p).Covers(addr)
    ensures Owner(g, n, Last(g, n, p), p[|p| - 1], addr)
  {
    assert PathTo(g, n, Last(g, n, p), p);
  }

  lemma ClashFreeIsUnambiguous(g: Graph, n: nat)
    requires Closed(g) && n < |g| && ClashFree(g, n)
    ensures Unambiguous(g, n)
  {
    forall l: nat, b: nat, l': nat, b': nat, addr | Owner(g, n, l, b, addr) && Owner(g, n, l', b', addr)
      ensures l == l' && g[l].bases[b] == g[l'].bases[b'] {
      var p := OwnerPath(g, n, l, b, addr);
      var q := OwnerPath(g, n, l', b', addr);
      assert !Clash(g, n, p, q);
    }
  }

  lemma UnambiguousIsClashFree(g: Graph, n: nat)
    requires Closed(g) && n < |g| && PositiveBelow(g, n) && Unambiguous(g, n)
    ensures ClashFree(g, n)
  {
    forall p, q ensures !Clash(g, n, p, q) {
      if Clash(g, n, p, q) {
        var a, b := RouteAlong(g, n, p), RouteAlong(g, n, q);
        assert PathTo(g, n, Last(g, n, p), p) && PathTo(g, n, Last(g, n, q), q);
        var addr := if a.lo <= b.lo then b.lo else a.lo;
        PathOwner(g, n, p, addr);
        PathOwner(g, n, q, addr);
      }
    }
  }

  lemma NoRoutesExactly(g: Graph, n: nat)
    requires IsNode(g, n)
    ensures GetRoutes(g, n) == Err(NoRoutes) <==> !ReachesBase(g, n)
  {
    hide NodeRoutes, ReachesBase, Collapse, StableSort;
    NoRoutesNoBase(g, n);
    if NodeRoutes(g, n) != [] {
      CollapseSound(StableSort(NodeRoutes(g, n)));
    }
  }

  /** A node has a table if and only if it reaches some leaf base and no address has two owners. */
  lemma TableIffUnambiguous(g: Graph, n: nat)
    requires IsNode(g, n) && PositiveBelow(g, n)
    ensures GetRoutes(g, n).Ok? <==> (exists l: nat :: Reaches(g, n, l)) && Unambiguous(g, n)
    ensures GetRoutes(g, n) == Err(NoRoutes) <==> !exists l: nat :: Reaches(g, n, l)
  {
    NoRoutesExactly(g, n);
    hide GetRoutes, PositiveBelow, Unambiguous, ClashFree;
    GetRoutesSucceeds(g, n);
    if p :| IsPath(g, n, p) {
      assert PathTo(g, n, Last(g, n, p), p);
      assert Reaches(g, n, Last(g, n, p));
    }
    if l: nat :| Reaches(g, n, l) {
      var p :| PathTo(g, n, l, p);
      assert ReachesBase(g, n);
    }
    if ClashFree(g, n) {
      ClashFreeIsUnambiguous(g, n);
    }
    if Unambiguous(g, n) {
      UnambiguousIsClashFree(g, n);
    }
  }

  // ---------- The collapsed routes of a node ----------

  /** The routes that the compression starts from. */
  lemma DoneFacts(g: Graph, n: nat) returns (done: seq<Route>)
    requires IsNode(g, n) && PositiveBelow(g, n) && GetRoutes(g, n).Ok?
    ensures NodeRoutes(g, n) != [] && Collapse(StableSort(NodeRoutes(g, n))) == Ok(done)
    ensures done != [] && GetRoutes(g, n) == Ok(Compress(done))
    ensures Ordered(done) && NonEmptyRanges(done) && KeepsBest(StableSort(NodeRoutes(g, n)), done)
    ensures forall i :: 0 <= i < |done| ==> done[i] in NodeRoutes(g, n)
  {
    hide StableSort, Collapse, Compress, NodeRoutes, PositiveBelow, KeepsBest, Ordered;
    var rs := StableSort(NodeRoutes(g, n));
    done := Collapse(rs).value;
    SortedRoutes(g, n);
    NonEmptyRoutes(g, n);
    CollapseOrdered(rs);
    CollapseKeepsBest(rs);
    CollapseSound(rs);
  }

  /** What a kept route covers has an owner, and the table sends it to that route's port. */
  lemma DoneServes(g: Graph, n: nat, done: seq<Route>, i: nat, addr: int) returns (l: nat, b: nat)
    requires IsNode(g, n) && done != [] && GetRoutes(g, n) == Ok(Compress(done))
    requires Ordered(done) && NonEmptyRanges(done)
    requires i < |done| && done[i] in NodeRoutes(g, n) && done[i].Covers(addr)
    ensures Owner(g, n, l, b, addr) && NextHop(g, n, addr) == done[i].port
  {
    hide GetRoutes, NodeRoutes, Compress, Ordered;
    var p := RouteToPath(g, n, done[i]);
    l, b := Last(g, n, p), p[|p| - 1];
    PathOwner(g, n, p, addr);
    CompressPreservesLookup(done, i, addr);
  }

  // ---------- The table is compressed ----------

  /** Entries that do not overlap and send every owned address to the port that the table gives. */
  ghost predicate Serves(other: seq<Route>, g: Graph, n: nat)
    requires IsNode(g, n)
  {
    && (forall i, j :: 0 <= i < j < |other| ==> !other[i].Overlaps(other[j]))
    && (forall l: nat, b: nat, addr :: Owner(g, n, l, b, addr) ==>
          exists k :: 0 <= k < |other| && other[k].Covers(addr) && other[k].port == NextHop(g, n, addr))
  }

  /** No table that serves the same addresses has fewer entries. */
  lemma TableIsShortest(g: Graph, n: nat, other: seq<Route>)
    requires IsNode(g, n) && PositiveBelow(g, n) && GetRoutes(g, n).Ok? && Serves(other, g, n)
    ensures |GetRoutes(g, n).value| <= |other|
  {
    var done := DoneFacts(g, n);
    hide GetRoutes, NodeRoutes, Compress, NextHop, KeepsBest, PositiveBelow, Owner, Collapse;
    forall i, addr | 0 <= i < |done| && done[i].Covers(addr)
      ensures exists k :: 0 <= k < |other| && other[k].Covers(addr) && other[k].port == done[i].port {
      var l, b := DoneServes(g, n, done, i, addr);
    }
    CompressOptimal(done, other);
  }

  /**
   The entries of a table are ordered and disjoint, each begins and ends with an owned address that it sends to its
   own port, and neighbours have different ports.
   */
  lemma TableIsCompressed(g: Graph, n: nat, k: nat)
    requires IsNode(g, n) && PositiveBelow(g, n) && GetRoutes(g, n).Ok? && k < |GetRoutes(g, n).value|
    ensures var table := GetRoutes(g, n).value;
            && Ordered(table) && table[k].lo < table[k].hi
            && (k + 1 < |table| ==> table[k].port != table[k + 1].port)
            && Owned(g, n, table[k].lo) && Owned(g, n, table[k].hi - 1)
            && NextHop(g, n, table[k].lo) == NextHop(g, n, table[k].hi - 1) == table[k].port
  {
    hide GetRoutes, NodeRoutes, Compress, NextHop, KeepsBest, PositiveBelow, Collapse, StableSort;
    hide Ordered, NonEmptyRanges, Owner;
    var done := DoneFacts(g, n);
    var first, last := EntryEnds(done, k);
    CompressOrdered(done);
    var l, b := DoneServes(g, n, done, first, done[first].lo);
    var l', b' := DoneServes(g, n, done, last, done[last].hi - 1);
  }

  /** The collapsed routes that a table entry begins and ends with. */
  lemma EntryEnds(done: seq<Route>, k: nat) returns (first: nat, last: nat)
    requires done != [] && Ordered(done) && NonEmptyRanges(done) && k < |Compress(done)|
    ensures first < |done| && last < |done|
    ensures var table := Compress(done);
            && table[k].lo == done[first].lo < done[first].hi && done[last].lo < done[last].hi == table[k].hi
            && table[k].lo < table[k].hi
            && done[first].port == done[last].port == table[k].port
            && (k + 1 < |table| ==> table[k].port != table[k + 1].port)
  {
    hide Compress;
    var cuts := CompressGroups(done);
    CompressOrdered(done);
    assert Spans(Compress(done)[k], done, cuts[k], cuts[k + 1]);
    first, last := cuts[k], cuts[k + 1] - 1;
  }

  // ---------- Ties ----------

  /** A shortest path visits no node twice. */
  lemma {:induction false} ShortestIsSimple(g: Graph, e: nat, l: nat, p: Path)
    requires Closed(g) && e < |g| && PathTo(g, e, l, p) && |p| - 1 == Distance(g, e, l)
    ensures Simple(g, e, p, {})
    decreases |p|
  {
    if g[e].Node? {
      var c := g[e].entries[p[0]];
      TailIsShortest(g, e, l, p);
      assert PathTo(g, c, l, p[1..]);
      ShortestIsSimple(g, c, l, p[1..]);
      NotRevisited(g, e, l, p);
      assert Nodes(g, e, p) == [e] + Nodes(g, c, p[1..]);
    }
  }

  lemma NotRevisited(g: Graph, e: nat, l: nat, p: Path)
    requires Closed(g) && e < |g| && g[e].Node? && PathTo(g, e, l, p) && |p| - 1 == Distance(g, e, l)
    ensures IsPath(g, g[e].entries[p[0]], p[1..]) && e !in Nodes(g, g[e].entries[p[0]], p[1..])
  {
    var c, q := g[e].entries[p[0]], p[1..];
    assert IsPath(g, c, q) && Last(g, c, q) == l;
    hide IsPath, Last, Nodes, Reaches, IsDistance;
    if e in Nodes(g, c, q) {
      var k :| 0 <= k < |Nodes(g, c, q)| && Nodes(g, c, q)[k] == e;
      Suffix(g, c, q, k);
      DistanceBound(g, e, l, q[k..]);
    }
  }

  lemma DistanceBound(g: Graph, e: nat, l: nat, p: Path)
    requires Closed(g) && e < |g| && PathTo(g, e, l, p)
    ensures Reaches(g, e, l) && Distance(g, e, l) <= |p| - 1
  {
  }

  /** A port that is on a shortest path to a leaf contributes a route of least depth to each of its bases. */
  lemma ShortestPortRoute(g: Graph, n: nat, j: nat, l: nat, b: nat, addr: int) returns (r: Route)
    requires IsNode(g, n) && j < |g[n].entries| && Owner(g, n, l, b, addr)
    requires Reaches(g, g[n].entries[j], l) && Distance(g, g[n].entries[j], l) == Distance(g, n, l) - 1
    ensures r in WithPorts(Ranges(g, g[n].entries[j], {n}), g[n].entries[j])
    ensures r.depth == Distance(g, n, l) - 1 && r.target == One(l)
    ensures r.lo == g[l].bases[b] && r.hi == g[l].bases[b] + g[l].size
  {
    hide Ranges;
    var h, d := g[n].entries[j], Distance(g, n, l);
    var q0 :| PathTo(g, h, l, q0) && |q0| - 1 == d - 1;
    var q := Rebase(g, h, q0, b);
    StepPath(g, n, j, q);
    var p := [j] + q;
    assert p[1..] == q;
    ShortestIsSimple(g, n, l, p);
    SimpleStep(g, n, p, {});
    assert {} + {n} == {n};
    var s := RouteAlong(g, h, q);
    RangesMembership(g, h, {n}, s);
    r := s.WithPort(h);
    WithPortsMember(Ranges(g, h, {n}), h, r);
  }

  /** The best route of a list whose routes all have one port. */
  lemma BestThroughPort(rs: seq<Route>, port: nat, key: Route)
    ensures Best(WithPorts(rs, port), key).Some? ==> Best(WithPorts(rs, port), key).value.port == Some(port)
  {
    var k := BestIsFirstLeast(WithPorts(rs, port), key);
  }

  /** A member with the key bounds the best one. */
  lemma BestBound(rs: seq<Route>, key: Route, r: Route)
    requires r in rs && r.SameKey(key)
    ensures Best(rs, key).Some? && Best(rs, key).value in rs && Best(rs, key).value.depth <= r.depth
  {
    var k := BestIsFirstLeast(rs, key);
    var j :| 0 <= j < |rs| && rs[j] == r;
  }

  /** If port `j` has a route of least depth, the best route goes through a port no later than `j`. */
  lemma {:induction false} BestPort(g: Graph, n: nat, ports: seq<nat>, j: nat, key: Route, r: Route)
    requires Closed(g) && j < |ports| && forall i :: 0 <= i < |ports| ==> ports[i] < |g|
    requires r in WithPorts(Ranges(g, ports[j], {n}), ports[j]) && r.SameKey(key)
    requires forall x :: x in RoutesVia(g, n, ports) && x.SameKey(key) ==> r.depth <= x.depth
    ensures Best(RoutesVia(g, n, ports), key).Some?
    ensures Best(RoutesVia(g, n, ports), key).value.depth == r.depth
    ensures exists i :: 0 <= i <= j && Best(RoutesVia(g, n, ports), key).value.port == Some(ports[i])
    decreases |ports|
  {
    hide *;
    var k := |ports| - 1;
    var front, back := RoutesVia(g, n, ports[..k]), WithPorts(Ranges(g, ports[k], {n}), ports[k]);
    RoutesViaSnoc(g, n, ports);
    BestConcat(front, back, key);
    if j < k {
      assert ports[..k][j] == ports[j];
      BestPort(g, n, ports[..k], j, key, r);
      var i :| 0 <= i <= j && Best(front, key).value.port == Some(ports[..k][i]);
      BestIsLeast(front, back, key, r.depth);
      BetterIsFirst(Best(front, key), Best(back, key));
      assert ports[..k][i] == ports[i];
    } else {
      BestBound(back, key, r);
      LastPort(g, n, ports, key, r, front, back);
    }
  }

  lemma RoutesViaSnoc(g: Graph, n: nat, ports: seq<nat>)
    requires Closed(g) && ports != [] && forall i :: 0 <= i < |ports| ==> ports[i] < |g|
    ensures var k := |ports| - 1;
            RoutesVia(g, n, ports) == RoutesVia(g, n, ports[..k]) + WithPorts(Ranges(g, ports[k], {n}), ports[k])
  {
    hide Ranges;
  }

  lemma BetterIsFirst(a: Option<Route>, b: Option<Route>)
    requires a.Some? && (b.Some? ==> a.value.depth <= b.value.depth)
    ensures Better(a, b) == a
  {
  }

  lemma BestIsLeast(front: seq<Route>, back: seq<Route>, key: Route, d: nat)
    requires forall x :: x in front + back && x.SameKey(key) ==> d <= x.depth
    ensures Best(back, key).Some? ==> d <= Best(back, key).value.depth
    ensures Best(front, key).Some? ==> d <= Best(front, key).value.depth
  {
    var k := BestIsFirstLeast(back, key);
    var k' := BestIsFirstLeast(front, key);
    assert Best(back, key).Some? ==> back[k] in front + back;
    assert Best(front, key).Some? ==> front[k'] in front + back;
  }

  lemma LastPort(g: Graph, n: nat, ports: seq<nat>, key: Route, r: Route, front: seq<Route>, back: seq<Route>)
    requires Closed(g) && ports != [] && forall i :: 0 <= i < |ports| ==> ports[i] < |g|
    requires front == RoutesVia(g, n, ports[..|ports| - 1])
    requires back == WithPorts(Ranges(g, ports[|ports| - 1], {n}), ports[|ports| - 1])
    requires Best(back, key).Some? && Best(back, key).value.depth <= r.depth
    requires forall x :: x in front + back && x.SameKey(key) ==> r.depth <= x.depth
    ensures var best := Better(Best(front, key), Best(back, key));
            && best.Some? && best.value.depth == r.depth
            && exists i :: 0 <= i < |ports| && best.value.port == Some(ports[i])
  {
    hide RoutesVia, Ranges, Best;
    var m := |ports| - 1;
    BestIsLeast(front, back, key, r.depth);
    BestThroughPort(Ranges(g, ports[m], {n}), ports[m], key);
    assert Best(back, key).value.port == Some(ports[m]);
    if Best(front, key).Some? {
      var k := BestIsFirstLeast(front, key);
      ViaMember(g, n, ports[..m], front[k]);
      var i :| 0 <= i < m && FromPort(g, n, ports[..m][i], front[k]);
      assert Best(front, key).value.port == Some(ports[i]);
    }
  }

  /** Routes of `n` to a leaf are no less deep than the leaf is far. */
  lemma RoutesNoCloser(g: Graph, n: nat, l: nat, x: Route)
    requires IsNode(g, n) && Reaches(g, n, l) && x in NodeRoutes(g, n) && x.target == One(l)
    ensures Distance(g, n, l) - 1 <= x.depth
  {
    hide NodeRoutes;
    var p := RouteToPath(g, n, x);
    assert PathTo(g, n, l, p);
  }

  /** The best route for a base of leaf `l` goes through a port no later than any port on a shortest path. */
  lemma BestRoutePort(g: Graph, n: nat, l: nat, b: nat, addr: int, j: nat, key: Route)
    requires IsNode(g, n) && j < |g[n].entries| && Owner(g, n, l, b, addr)
    requires Reaches(g, g[n].entries[j], l) && Distance(g, g[n].entries[j], l) == Distance(g, n, l) - 1
    requires key.lo == g[l].bases[b] && key.hi == g[l].bases[b] + g[l].size && key.target == One(l)
    requires Best(NodeRoutes(g, n), key).Some?
    ensures exists i :: 0 <= i <= j && Best(NodeRoutes(g, n), key).value.port == Some(g[n].entries[i])
  {
    var r := ShortestPortRoute(g, n, j, l, b, addr);
    forall x | x in NodeRoutes(g, n) && x.SameKey(key) ensures r.depth <= x.depth {
      RoutesNoCloser(g, n, l, x);
    }
    hide RoutesVia, Best, Ranges, Reaches, IsDistance;
    BestPort(g, n, g[n].entries, j, key, r);
  }

  /** The kept route of an owned address is the best one among all routes of the node. */
  lemma KeptIsBest(g: Graph, n: nat, l: nat, b: nat, addr: int) returns (r: Route)
    requires IsNode(g, n) && PositiveBelow(g, n) && GetRoutes(g, n).Ok? && Owner(g, n, l, b, addr)
    ensures r.lo == g[l].bases[b] && r.hi == g[l].bases[b] + g[l].size && r.target == One(l)
    ensures Best(NodeRoutes(g, n), r) == Some(r) && NextHop(g, n, addr) == r.port
  {
    hide GetRoutes, NodeRoutes, Compress, NextHop, Collapse, StableSort, PositiveBelow, Best, KeepsShortest;
    var done := DoneFacts(g, n);
    var raw := NodeRoutes(g, n);
    var rs := StableSort(raw);
    var x := OwnerRoute(g, n, l, b, addr);
    hide Owner, Ordered, NonEmptyRanges;
    SortedRoutes(g, n);
    CollapseSound(rs);
    var i := KeptIndex(rs, done, x);
    r := done[i];
    var _, _ := DoneServes(g, n, done, i, addr);
    SortKeepsBest(raw, r);
  }

  lemma OwnerRoute(g: Graph, n: nat, l: nat, b: nat, addr: int) returns (r: Route)
    requires IsNode(g, n) && Owner(g, n, l, b, addr)
    ensures r in NodeRoutes(g, n) && r.Covers(addr)
    ensures r.lo == g[l].bases[b] && r.hi == g[l].bases[b] + g[l].size && r.target == One(l)
  {
    hide NodeRoutes;
    var p := OwnerPath(g, n, l, b, addr);
    r := PathToRoute(g, n, p);
  }

  /** The stable sort does not change which route is the best one. */
  lemma SortKeepsBest(rs: seq<Route>, key: Route)
    ensures Best(StableSort(rs), key) == Best(rs, key)
  {
    hide StableSort, Best, WithLo;
    StableSortCorrect(rs, key.lo);
    BestWithLo(StableSort(rs), key);
    BestWithLo(rs, key);
  }

  lemma KeptIndex(rs: seq<Route>, done: seq<Route>, x: Route) returns (i: nat)
    requires KeepsShortest(rs, done) && x in rs
    ensures i < |done| && done[i].SameKey(x)
  {
    var k :| 0 <= k < |rs| && rs[k] == x;
    assert Kept(done, rs[k]);
    i :| 0 <= i < |done| && done[i].SameKey(rs[k]) && done[i].depth <= rs[k].depth;
  }

  /**
   Ties: among the attached entries that are one node closer to the owner of an address, the table sends the
   address to the one that was attached first.
   */
  lemma HopIsFirstShortest(g: Graph, n: nat, l: nat, b: nat, addr: int, j: nat)
    requires IsNode(g, n) && PositiveBelow(g, n) && GetRoutes(g, n).Ok? && Owner(g, n, l, b, addr)
    requires j < |g[n].entries| && Reaches(g, g[n].entries[j], l)
    requires Distance(g, g[n].entries[j], l) == Distance(g, n, l) - 1
    ensures exists i :: 0 <= i <= j && NextHop(g, n, addr) == Some(g[n].entries[i])
  {
    hide GetRoutes, NodeRoutes, NextHop, PositiveBelow, Best, Reaches, IsDistance;
    var r := KeptIsBest(g, n, l, b, addr);
    BestRoutePort(g, n, l, b, addr, j, r);
  }
}

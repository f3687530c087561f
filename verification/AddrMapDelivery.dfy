/**
 The table of a node, and what following tables hop by hop achieves: an address inside a
 reachable leaf arrives at that leaf along a shortest path, on any graph, cyclic or not.
 */
module AddrMapDelivery {
  import opened Common
  import opened AddrMapGraph
  import opened AddrMapTable

  function WithPorts(rs: seq<Route>, port: nat): (r: seq<Route>)
    ensures |r| == |rs| && forall i :: 0 <= i < |r| ==> r[i] == rs[i].WithPort(port)
  {
    seq(|rs|, i requires 0 <= i < |rs| => rs[i].WithPort(port))
  }

  /** The routes of node `n` through the given ports; each search starts with only `n` seen. */
  function RoutesVia(g: Graph, n: nat, ports: seq<nat>): seq<Route>
    requires Closed(g) && forall i :: 0 <= i < |ports| ==> ports[i] < |g|
    decreases |ports|
  {
    if ports == [] then []
    else
      var k := |ports| - 1;
      RoutesVia(g, n, ports[..k]) + WithPorts(Ranges(g, ports[k], {n}), ports[k])
  }

  function NodeRoutes(g: Graph, n: nat): seq<Route>
    requires Closed(g) && n < |g| && g[n].Node?
  {
    RoutesVia(g, n, g[n].entries)
  }

  function GetRoutes(g: Graph, n: nat): Result<seq<Route>, RouteError>
    requires Closed(g) && n < |g| && g[n].Node?
  {
    var rs := NodeRoutes(g, n);
    if rs == [] then Err(NoRoutes)
    else
      match Collapse(StableSort(rs))
      case Err(e) => Err(e)
      case Ok(done) => Ok(Compress(done))
  }

  // ---------- Routes of a node are its simple paths ----------

  /** `r` is one of the routes that the search through `port` finds. */
  ghost predicate FromPort(g: Graph, n: nat, port: nat, r: Route)
    requires Closed(g) && port < |g|
  {
    exists s :: s in Ranges(g, port, {n}) && r == s.WithPort(port)
  }

  lemma WithPortsMember(rs: seq<Route>, port: nat, r: Route)
    ensures r in WithPorts(rs, port) <==> exists s :: s in rs && r == s.WithPort(port)
  {
    var ws := WithPorts(rs, port);
    if r in ws {
      var j :| 0 <= j < |ws| && ws[j] == r;
      assert rs[j] in rs;
    }
    if s :| s in rs && r == s.WithPort(port) {
      var j :| 0 <= j < |rs| && rs[j] == s;
      assert ws[j] == r;
    }
  }

  ghost predicate FromSomePort(g: Graph, n: nat, ports: seq<nat>, r: Route)
    requires Closed(g) && forall i :: 0 <= i < |ports| ==> ports[i] < |g|
  {
    exists i :: 0 <= i < |ports| && FromPort(g, n, ports[i], r)
  }

  lemma FromSomePortSnoc(g: Graph, n: nat, ports: seq<nat>, r: Route)
    requires Closed(g) && ports != [] && forall i :: 0 <= i < |ports| ==> ports[i] < |g|
    ensures FromSomePort(g, n, ports, r) <==>
            FromSomePort(g, n, ports[..|ports| - 1], r) || FromPort(g, n, ports[|ports| - 1], r)
  {
    hide FromPort;
    var front := ports[..|ports| - 1];
    if i :| 0 <= i < |front| && FromPort(g, n, front[i], r) {
      assert FromPort(g, n, ports[i], r);
    }
    if i :| 0 <= i < |ports| && FromPort(g, n, ports[i], r) {
      assert i < |front| ==> FromPort(g, n, front[i], r);
    }
  }

  lemma {:induction false} ViaMember(g: Graph, n: nat, ports: seq<nat>, r: Route)
    requires Closed(g) && forall i :: 0 <= i < |ports| ==> ports[i] < |g|
    ensures r in RoutesVia(g, n, ports) <==> FromSomePort(g, n, ports, r)
    decreases |ports|
  {
    if ports != [] {
      var k := |ports| - 1;
      ViaMember(g, n, ports[..k], r);
      WithPortsMember(Ranges(g, ports[k], {n}), ports[k], r);
      assert RoutesVia(g, n, ports) == RoutesVia(g, n, ports[..k]) + WithPorts(Ranges(g, ports[k], {n}), ports[k]);
      FromSomePortSnoc(g, n, ports, r);
      hide FromSomePort;
    }
  }

  /** A route of `n` is a simple path from `n` that starts through the route's port. */
  lemma RouteToPath(g: Graph, n: nat, r: Route) returns (p: Path)
    requires Closed(g) && n < |g| && g[n].Node? && r in NodeRoutes(g, n)
    ensures Simple(g, n, p, {}) && r.port == Some(g[n].entries[p[0]])
    ensures r.IncDepth().(port := None) == RouteAlong(g, n, p)
  {
    ViaMember(g, n, g[n].entries, r);
    var i :| 0 <= i < |g[n].entries| && FromPort(g, n, g[n].entries[i], r);
    p := PortRouteToPath(g, n, i, r);
  }

  lemma PortRouteToPath(g: Graph, n: nat, i: nat, r: Route) returns (p: Path)
    requires Closed(g) && n < |g| && g[n].Node? && i < |g[n].entries| && FromPort(g, n, g[n].entries[i], r)
    ensures Simple(g, n, p, {}) && p[0] == i && r.port == Some(g[n].entries[i])
    ensures r.IncDepth().(port := None) == RouteAlong(g, n, p)
  {
    hide Ranges;
    var port := g[n].entries[i];
    var s :| s in Ranges(g, port, {n}) && r == s.WithPort(port);
    RangesMembership(g, port, {n}, s);
    var q :| Simple(g, port, q, {n}) && s == RouteAlong(g, port, q);
    p := [i] + q;
    assert p[1..] == q && {n} == {} + {n};
    SimpleStep(g, n, p, {});
  }

  /** Any path from `n` is matched by a route of `n` that is no deeper. */
  lemma PathToRoute(g: Graph, n: nat, p: Path) returns (r: Route)
    requires Closed(g) && n < |g| && g[n].Node? && IsPath(g, n, p)
    ensures r in NodeRoutes(g, n) && r.SameKey(RouteAlong(g, n, p)) && r.depth <= |p| - 2
  {
    hide Ranges, RoutesVia;
    var q := Shorten(g, n, p);
    SimpleStep(g, n, q, {});
    assert {n} == {} + {n};
    var port := g[n].entries[q[0]];
    var s := RouteAlong(g, port, q[1..]);
    RangesMembership(g, port, {n}, s);
    r := s.WithPort(port);
    assert FromPort(g, n, g[n].entries[q[0]], r);
    ViaMember(g, n, g[n].entries, r);
  }

  // ---------- The assumptions and what they give ----------

  /** Every leaf that `n` reaches covers at least one address. */
  ghost predicate PositiveBelow(g: Graph, n: nat)
    requires Closed(g) && n < |g|
  {
    forall l: nat :: l < |g| && g[l].Leaf? && Reaches(g, n, l) ==> g[l].size > 0
  }

  lemma SortedRoutes(g: Graph, n: nat)
    requires Closed(g) && n < |g| && g[n].Node?
    ensures var rs := StableSort(NodeRoutes(g, n));
            SortedByLo(rs) && forall r :: r in rs <==> r in NodeRoutes(g, n)
  {
    hide StableSort, NodeRoutes, SortedByLo;
    var raw := NodeRoutes(g, n);
    var rs := StableSort(raw);
    StableSortCorrect(raw, 0);
    forall r ensures r in rs <==> r in raw {
      assert r in rs <==> r in multiset(rs);
      assert r in raw <==> r in multiset(raw);
    }
  }

  lemma NonEmptyRoutes(g: Graph, n: nat)
    requires Closed(g) && n < |g| && g[n].Node? && PositiveBelow(g, n)
    ensures NonEmptyRanges(StableSort(NodeRoutes(g, n)))
  {
    hide StableSort, NodeRoutes;
    var rs := StableSort(NodeRoutes(g, n));
    SortedRoutes(g, n);
    forall i | 0 <= i < |rs| ensures rs[i].lo < rs[i].hi {
      assert rs[i] in rs;
      var p := RouteToPath(g, n, rs[i]);
      assert PathTo(g, n, Last(g, n, p), p);
    }
  }

  /** Two paths from `n` whose address ranges overlap without being the same route. */
  ghost predicate Clash(g: Graph, n: nat, p: Path, q: Path)
    requires Closed(g) && n < |g|
  {
    IsPath(g, n, p) && IsPath(g, n, q) && Conflicting(RouteAlong(g, n, p), RouteAlong(g, n, q))
  }

  ghost predicate ClashFree(g: Graph, n: nat)
    requires Closed(g) && n < |g|
  {
    forall p, q :: !Clash(g, n, p, q)
  }

  ghost predicate ReachesBase(g: Graph, n: nat)
    requires Closed(g) && n < |g|
  {
    exists p :: IsPath(g, n, p)
  }

  lemma NoRoutesNoBase(g: Graph, n: nat)
    requires Closed(g) && n < |g| && g[n].Node?
    ensures NodeRoutes(g, n) != [] <==> ReachesBase(g, n)
  {
    if NodeRoutes(g, n) != [] {
      var p := RouteToPath(g, n, NodeRoutes(g, n)[0]);
    }
    if p :| IsPath(g, n, p) {
      var r := PathToRoute(g, n, p);
    }
  }

  lemma ClashGivesConflict(g: Graph, n: nat, p: Path, q: Path)
    requires Closed(g) && n < |g| && g[n].Node? && Clash(g, n, p, q)
    ensures HasConflict(StableSort(NodeRoutes(g, n)))
  {
    SortedRoutes(g, n);
    var rs := StableSort(NodeRoutes(g, n));
    var a := PathToRoute(g, n, p);
    var b := PathToRoute(g, n, q);
    assert a in rs && b in rs;
    var i :| 0 <= i < |rs| && rs[i] == a;
    var j :| 0 <= j < |rs| && rs[j] == b;
    assert Conflicting(rs[i], rs[j]);
  }

  lemma ConflictGivesClash(g: Graph, n: nat)
    requires Closed(g) && n < |g| && g[n].Node?
    requires HasConflict(StableSort(NodeRoutes(g, n)))
    ensures !ClashFree(g, n)
  {
    SortedRoutes(g, n);
    var rs := StableSort(NodeRoutes(g, n));
    var i, j :| 0 <= i < |rs| && 0 <= j < |rs| && Conflicting(rs[i], rs[j]);
    assert rs[i] in rs && rs[j] in rs;
    var p := RouteToPath(g, n, rs[i]);
    var q := RouteToPath(g, n, rs[j]);
    assert Clash(g, n, p, q);
  }

  /** Whatever the sizes, a node that reaches a leaf base has a table if no two of its paths clash. */
  lemma TableIfClashFree(g: Graph, n: nat)
    requires Closed(g) && n < |g| && g[n].Node? && ReachesBase(g, n) && ClashFree(g, n)
    ensures GetRoutes(g, n).Ok?
  {
    NoRoutesNoBase(g, n);
    var rs := StableSort(NodeRoutes(g, n));
    if Collapse(rs).Err? {
      CollisionIsReal(rs);
      ConflictGivesClash(g, n);
    }
  }

  /** A node's table exists if and only if it reaches a leaf base and no two of its paths clash. */
  lemma GetRoutesSucceeds(g: Graph, n: nat)
    requires Closed(g) && n < |g| && g[n].Node? && PositiveBelow(g, n)
    ensures GetRoutes(g, n).Ok? <==> ReachesBase(g, n) && ClashFree(g, n)
  {
    if GetRoutes(g, n).Ok? {
      NoRoutesNoBase(g, n);
      SortedRoutes(g, n);
      NonEmptyRoutes(g, n);
      CollisionCheckExact(StableSort(NodeRoutes(g, n)));
      forall p, q ensures !Clash(g, n, p, q) {
        if Clash(g, n, p, q) {
          ClashGivesConflict(g, n, p, q);
        }
      }
    } else if ReachesBase(g, n) && ClashFree(g, n) {
      TableIfClashFree(g, n);
    }
  }

  // ---------- Reachable nodes ----------

  /** Following attachment positions `w` from `e` leads to `f`. */
  ghost predicate Walk(g: Graph, e: nat, w: seq<nat>, f: nat)
    requires Closed(g) && e < |g|
    decreases |w|
  {
    if w == [] then e == f
    else g[e].Node? && w[0] < |g[e].entries| && Walk(g, g[e].entries[w[0]], w[1..], f)
  }

  ghost predicate Connected(g: Graph, e: nat, f: nat)
    requires Closed(g) && e < |g|
  {
    exists w :: Walk(g, e, w, f)
  }

  lemma {:induction false} WalkThenPath(g: Graph, e: nat, w: seq<nat>, f: nat, p: Path)
    requires Closed(g) && e < |g| && f < |g| && Walk(g, e, w, f) && IsPath(g, f, p)
    ensures IsPath(g, e, w + p) && Last(g, e, w + p) == Last(g, f, p)
    decreases |w|
  {
    if w == [] {
      assert w + p == p;
    } else {
      WalkThenPath(g, g[e].entries[w[0]], w[1..], f, p);
      assert (w + p)[1..] == w[1..] + p;
    }
  }

  lemma ClashLifts(g: Graph, n: nat, w: seq<nat>, m: nat, p: Path, q: Path)
    requires Closed(g) && n < |g| && m < |g| && Walk(g, n, w, m) && Clash(g, m, p, q)
    ensures Clash(g, n, w + p, w + q)
  {
    WalkThenPath(g, n, w, m, p);
    WalkThenPath(g, n, w, m, q);
  }

  lemma ClashFreeInherited(g: Graph, n: nat, m: nat)
    requires Closed(g) && n < |g| && m < |g| && Connected(g, n, m) && ClashFree(g, n)
    ensures ClashFree(g, m)
  {
    var w :| Walk(g, n, w, m);
    forall p, q ensures !Clash(g, m, p, q) {
      if Clash(g, m, p, q) {
        ClashLifts(g, n, w, m, p, q);
      }
    }
  }

  lemma PositiveBelowInherited(g: Graph, n: nat, m: nat)
    requires Closed(g) && n < |g| && m < |g| && Connected(g, n, m) && PositiveBelow(g, n)
    ensures PositiveBelow(g, m)
  {
    var w :| Walk(g, n, w, m);
    forall l: nat | l < |g| && g[l].Leaf? && Reaches(g, m, l) ensures g[l].size > 0 {
      var p :| PathTo(g, m, l, p);
      WalkThenPath(g, n, w, m, p);
      assert PathTo(g, n, l, w + p);
    }
  }

  /** If the table of `n` exists, so does that of every node reachable from `n` that reaches a leaf base. */
  lemma SuccessIsInherited(g: Graph, n: nat, m: nat)
    requires Closed(g) && n < |g| && g[n].Node? && PositiveBelow(g, n) && m < |g| && g[m].Node?
    requires GetRoutes(g, n).Ok? && Connected(g, n, m) && ReachesBase(g, m)
    ensures GetRoutes(g, m).Ok?
  {
    GetRoutesSucceeds(g, n);
    ClashFreeInherited(g, n, m);
    TableIfClashFree(g, m);
  }

  // ---------- Delivery ----------

  /** The port that node `n`'s own table gives for an address. */
  function NextHop(g: Graph, n: nat, addr: int): Option<nat>
    requires Closed(g) && n < |g| && g[n].Node?
  {
    match GetRoutes(g, n)
    case Err(_) => None
    case Ok(table) => Lookup(table, addr)
  }

  /** `addr` lies in the range of base `b` of leaf `l`. */
  ghost predicate Owns(g: Graph, l: nat, b: nat, addr: int) {
    l < |g| && g[l].Leaf? && b < |g[l].bases| && g[l].bases[b] <= addr < g[l].bases[b] + g[l].size
  }

  /** A path to a leaf can end in any of its bases. */
  lemma {:induction false} Rebase(g: Graph, e: nat, p: Path, b: nat) returns (q: Path)
    requires Closed(g) && e < |g| && IsPath(g, e, p) && b < |g[Last(g, e, p)].bases|
    ensures PathTo(g, e, Last(g, e, p), q) && |q| == |p| && q[|q| - 1] == b
    decreases |p|
  {
    if g[e].Leaf? {
      q := [b];
    } else {
      var r := Rebase(g, g[e].entries[p[0]], p[1..], b);
      q := [p[0]] + r;
      assert q[1..] == r;
    }
  }

  /** The collapsed route that serves an address of a reachable leaf is on a shortest path. */
  lemma ServingRoute(g: Graph, n: nat, l: nat, b: nat, addr: int, done: seq<Route>) returns (i: nat, p: Path)
    requires Closed(g) && n < |g| && g[n].Node?
    requires NodeRoutes(g, n) != [] && Collapse(StableSort(NodeRoutes(g, n))) == Ok(done)
    requires Reaches(g, n, l) && Owns(g, l, b, addr)
    ensures i < |done| && done[i].Covers(addr)
    ensures PathTo(g, n, l, p) && |p| - 1 == Distance(g, n, l) && done[i].port == Some(g[n].entries[p[0]])
  {
    var d := Distance(g, n, l);
    var p0 :| PathTo(g, n, l, p0) && |p0| - 1 == d;
    var p1 := Rebase(g, n, p0, b);
    var r := PathToRoute(g, n, p1);
    var rs := StableSort(NodeRoutes(g, n));
    SortedRoutes(g, n);
    CollapseSound(rs);
    var k :| 0 <= k < |rs| && rs[k] == r;
    assert Kept(done, rs[k]);
    i :| 0 <= i < |done| && done[i].SameKey(r) && done[i].depth <= r.depth;
    assert done[i] in rs;
    p := RouteToPath(g, n, done[i]);
  }

  /** The rest of a shortest path is a shortest path. */
  lemma TailIsShortest(g: Graph, n: nat, l: nat, p: Path)
    requires Closed(g) && n < |g| && g[n].Node? && PathTo(g, n, l, p) && |p| - 1 == Distance(g, n, l)
    ensures var h := g[n].entries[p[0]];
            Reaches(g, h, l) && Distance(g, h, l) == Distance(g, n, l) - 1
  {
    var h := g[n].entries[p[0]];
    assert PathTo(g, h, l, p[1..]);
    var q :| PathTo(g, h, l, q) && |q| - 1 == Distance(g, h, l);
    assert PathTo(g, h, l, q);
    StepPath(g, n, p[0], q);
    assert PathTo(g, n, l, [p[0]] + q);
  }

  lemma StepConnects(g: Graph, n: nat, i: nat)
    requires Closed(g) && n < |g| && g[n].Node? && i < |g[n].entries|
    ensures Connected(g, n, g[n].entries[i])
  {
    assert Walk(g, g[n].entries[i], [], g[n].entries[i]) && [i][1..] == [];
    assert Walk(g, n, [i], g[n].entries[i]);
  }

  /** The next hop has a table again, or is the leaf itself. */
  lemma HopHasTable(g: Graph, n: nat, l: nat, p: Path)
    requires Closed(g) && n < |g| && g[n].Node? && PositiveBelow(g, n) && GetRoutes(g, n).Ok?
    requires PathTo(g, n, l, p)
    ensures var h := g[n].entries[p[0]];
            (g[h].Leaf? ==> h == l) && (g[h].Node? ==> GetRoutes(g, h).Ok?)
  {
    var h := g[n].entries[p[0]];
    assert IsPath(g, h, p[1..]) && Last(g, h, p[1..]) == l;
    if g[h].Node? {
      StepConnects(g, n, p[0]);
      SuccessIsInherited(g, n, h);
    }
  }

  /** The table sends the address along a shortest path. */
  lemma HopOnShortestPath(g: Graph, n: nat, l: nat, b: nat, addr: int) returns (p: Path)
    requires Closed(g) && n < |g| && g[n].Node? && PositiveBelow(g, n) && GetRoutes(g, n).Ok?
    requires Reaches(g, n, l) && Owns(g, l, b, addr)
    ensures PathTo(g, n, l, p) && |p| - 1 == Distance(g, n, l)
    ensures NextHop(g, n, addr) == Some(g[n].entries[p[0]])
  {
    var rs := StableSort(NodeRoutes(g, n));
    var done := Collapse(rs).value;
    var i: nat;
    i, p := ServingRoute(g, n, l, b, addr, done);
    SortedRoutes(g, n);
    NonEmptyRoutes(g, n);
    CollapseOrdered(rs);
    CompressPreservesLookup(done, i, addr);
  }

  /** One hop: to an attached entry, exactly one node closer, with a table again unless it is the leaf. */
  lemma HopIsCloser(g: Graph, n: nat, l: nat, b: nat, addr: int)
    requires Closed(g) && n < |g| && g[n].Node? && PositiveBelow(g, n) && GetRoutes(g, n).Ok?
    requires Reaches(g, n, l) && Owns(g, l, b, addr)
    ensures var hop := NextHop(g, n, addr);
            && hop.Some? && hop.value in g[n].entries && hop.value < |g|
            && Reaches(g, hop.value, l)
            && Distance(g, hop.value, l) == Distance(g, n, l) - 1
            && (g[hop.value].Leaf? ==> hop.value == l)
            && (g[hop.value].Node? ==> GetRoutes(g, hop.value).Ok?)
            && PositiveBelow(g, hop.value)
  {
    hide GetRoutes, NextHop, Reaches, IsDistance, PositiveBelow, Owns;
    var p := HopOnShortestPath(g, n, l, b, addr);
    TailIsShortest(g, n, l, p);
    HopHasTable(g, n, l, p);
    StepConnects(g, n, p[0]);
    PositiveBelowInherited(g, n, g[n].entries[p[0]]);
  }

  /** Where an address sent from entry `e` is after `k` hops. */
  function Forward(g: Graph, e: nat, addr: int, k: nat): Option<nat>
    requires Closed(g) && e < |g|
    decreases k
  {
    if k == 0 then Some(e)
    else if g[e].Leaf? then None
    else
      var hop := NextHop(g, e, addr);
      if hop.Some? && hop.value < |g| then Forward(g, hop.value, addr, k - 1) else None
  }

  lemma ZeroDistance(g: Graph, e: nat, l: nat)
    requires Closed(g) && e < |g| && Reaches(g, e, l)
    ensures Distance(g, e, l) == 0 <==> e == l
    ensures g[e].Leaf? ==> e == l
  {
    var p :| PathTo(g, e, l, p) && |p| - 1 == Distance(g, e, l);
    assert g[e].Node? ==> IsPath(g, g[e].entries[p[0]], p[1..]);
  }

  /**
   Delivery: from a node with a table, an address owned by a reachable leaf is, after k hops through
   independently computed tables, at an entry whose distance to that leaf is exactly k less; so it
   never loops, and after `Distance` hops it is at the leaf.
   */
  lemma {:induction false} Delivery(g: Graph, n: nat, l: nat, b: nat, addr: int, k: nat)
    requires Closed(g) && n < |g| && PositiveBelow(g, n) && (g[n].Node? ==> GetRoutes(g, n).Ok?)
    requires Reaches(g, n, l) && Owns(g, l, b, addr) && k <= Distance(g, n, l)
    ensures var at := Forward(g, n, addr, k);
            && at.Some? && at.value < |g| && Reaches(g, at.value, l)
            && Distance(g, at.value, l) == Distance(g, n, l) - k
    ensures k == Distance(g, n, l) ==> Forward(g, n, addr, k) == Some(l)
    decreases k
  {
    hide NextHop, Reaches, GetRoutes, IsDistance, PositiveBelow;
    ZeroDistance(g, n, l);
    if k > 0 {
      HopIsCloser(g, n, l, b, addr);
      Delivery(g, NextHop(g, n, addr).value, l, b, addr, k - 1);
    }
  }

  /** The leaves listed in a table are exactly the leaves that the node reaches. */
  lemma TableTargets(g: Graph, n: nat, l: nat)
    requires Closed(g) && n < |g| && g[n].Node? && GetRoutes(g, n).Ok?
    ensures l in Targets(GetRoutes(g, n).value) <==> Reaches(g, n, l)
  {
    var done := Collapse(StableSort(NodeRoutes(g, n))).value;
    DoneTargets(g, n, done, l);
    CompressKeepsTargets(done);
  }

  lemma DoneTargets(g: Graph, n: nat, done: seq<Route>, l: nat)
    requires Closed(g) && n < |g| && g[n].Node? && NodeRoutes(g, n) != []
    requires Collapse(StableSort(NodeRoutes(g, n))) == Ok(done)
    ensures l in Targets(done) <==> Reaches(g, n, l)
  {
    hide Targets, Collapse, NodeRoutes, Reaches;
    var rs := StableSort(NodeRoutes(g, n));
    SortedRoutes(g, n);
    CollapseSound(rs);
    hide StableSort, SortedByLo;
    forall i | 0 <= i < |done| ensures done[i].target.One? && Reaches(g, n, done[i].target.leaf) {
      DoneReaches(g, n, done[i]);
    }
    TargetsMember(done, l);
    if Reaches(g, n, l) {
      var r := ReachedRoute(g, n, l);
      KeptTarget(rs, done, r, l);
    }
  }

  lemma KeptTarget(rs: seq<Route>, done: seq<Route>, r: Route, l: nat)
    requires KeepsShortest(rs, done) && r in rs && r.target == One(l)
    ensures exists i :: 0 <= i < |done| && done[i].target == One(l)
  {
    var k :| 0 <= k < |rs| && rs[k] == r;
    assert Kept(done, rs[k]);
  }

  lemma ReachedRoute(g: Graph, n: nat, l: nat) returns (r: Route)
    requires Closed(g) && n < |g| && g[n].Node? && Reaches(g, n, l)
    ensures r in NodeRoutes(g, n) && r.target == One(l)
  {
    hide NodeRoutes;
    var p :| PathTo(g, n, l, p);
    r := PathToRoute(g, n, p);
  }

  lemma DoneReaches(g: Graph, n: nat, r: Route)
    requires Closed(g) && n < |g| && g[n].Node? && r in NodeRoutes(g, n)
    ensures r.target.One? && Reaches(g, n, r.target.leaf)
  {
    hide NodeRoutes;
    var p := RouteToPath(g, n, r);
    assert PathTo(g, n, r.target.leaf, p);
  }

  // ---------- What a table depends on ----------

  /** The two graphs have the same entries wherever attachments lead from `e`. */
  ghost predicate SameBelow(g: Graph, h: Graph, e: nat)
    requires Closed(g) && e < |g|
  {
    forall f: nat :: Connected(g, e, f) ==> f < |g| && f < |h| && g[f] == h[f]
  }

  lemma SameBelowChild(g: Graph, h: Graph, e: nat, i: nat)
    requires Closed(g) && e < |g| && SameBelow(g, h, e) && g[e].Node? && i < |g[e].entries|
    ensures SameBelow(g, h, g[e].entries[i])
  {
    forall f: nat | Connected(g, g[e].entries[i], f) ensures Connected(g, e, f) {
      var w :| Walk(g, g[e].entries[i], w, f);
      assert ([i] + w)[1..] == w;
      assert Walk(g, e, [i] + w, f);
    }
  }

  lemma SameHere(g: Graph, h: Graph, e: nat)
    requires Closed(g) && e < |g| && SameBelow(g, h, e)
    ensures e < |h| && g[e] == h[e]
  {
    assert Walk(g, e, [], e);
    assert Connected(g, e, e);
  }

  lemma {:induction false} RangesDepend(g: Graph, h: Graph, e: nat, seen: set<nat>)
    requires Closed(g) && Closed(h) && e < |g| && e < |h| && SameBelow(g, h, e)
    ensures Ranges(h, e, seen) == Ranges(g, e, seen)
    decreases Unseen(g, seen), 0
  {
    SameHere(g, h, e);
    if g[e].Node? && e !in seen {
      UnseenShrinks(g, seen, e);
      forall i | 0 <= i < |g[e].entries| ensures SameBelow(g, h, g[e].entries[i]) {
        SameBelowChild(g, h, e, i);
      }
      RangesOfAllDepend(g, h, g[e].entries, seen + {e});
    }
  }

  lemma {:induction false} RangesOfAllDepend(g: Graph, h: Graph, es: seq<nat>, seen: set<nat>)
    requires Closed(g) && Closed(h)
    requires forall i :: 0 <= i < |es| ==> es[i] < |g| && es[i] < |h| && SameBelow(g, h, es[i])
    ensures RangesOfAll(h, es, seen) == RangesOfAll(g, es, seen)
    decreases Unseen(g, seen), |es|
  {
    if es != [] {
      RangesOfAllDepend(g, h, es[..|es| - 1], seen);
      RangesDepend(g, h, es[|es| - 1], seen);
    }
  }

  lemma {:induction false} RoutesViaDepend(g: Graph, h: Graph, n: nat, ports: seq<nat>)
    requires Closed(g) && Closed(h)
    requires forall i :: 0 <= i < |ports| ==> ports[i] < |g| && ports[i] < |h| && SameBelow(g, h, ports[i])
    ensures RoutesVia(h, n, ports) == RoutesVia(g, n, ports)
    decreases |ports|
  {
    if ports != [] {
      RoutesViaDepend(g, h, n, ports[..|ports| - 1]);
      RangesDepend(g, h, ports[|ports| - 1], {n});
    }
  }

  /** The table of a node is a function of the entries its attachments lead to. */
  lemma TableDependsOnlyOnReachable(g: Graph, h: Graph, n: nat)
    requires Closed(g) && Closed(h) && n < |g| && g[n].Node? && SameBelow(g, h, n)
    ensures n < |h| && h[n].Node? && GetRoutes(h, n) == GetRoutes(g, n)
  {
    SameHere(g, h, n);
    forall i | 0 <= i < |g[n].entries| ensures SameBelow(g, h, g[n].entries[i]) {
      SameBelowChild(g, h, n, i);
    }
    RoutesViaDepend(g, h, n, g[n].entries);
  }

  /** Node `m` after attaching `es` to it. */
  function Attached(g: Graph, m: nat, es: seq<nat>): Graph
    requires m < |g| && g[m].Node?
  {
    g[m := Node(g[m].entries + es)]
  }

  lemma {:induction false} ConnectedBounded(g: Graph, e: nat, w: seq<nat>, f: nat)
    requires Closed(g) && e < |g| && Walk(g, e, w, f)
    ensures f < |g|
    decreases |w|
  {
    if w != [] {
      ConnectedBounded(g, g[e].entries[w[0]], w[1..], f);
    }
  }

  /** Attaching to a node that `n` does not lead to keeps the table of `n`. */
  lemma UnreachedAttachKeepsTable(g: Graph, m: nat, es: seq<nat>, n: nat)
    requires Closed(g) && m < |g| && g[m].Node? && Closed(Attached(g, m, es))
    requires n < |g| && g[n].Node? && !Connected(g, n, m)
    ensures Attached(g, m, es)[n].Node? && GetRoutes(Attached(g, m, es), n) == GetRoutes(g, n)
  {
    forall f: nat | Connected(g, n, f) ensures f < |g| && g[f] == Attached(g, m, es)[f] {
      var w :| Walk(g, n, w, f);
      ConnectedBounded(g, n, w, f);
    }
    TableDependsOnlyOnReachable(g, Attached(g, m, es), n);
  }

  /** Adding an entry keeps every table. */
  lemma NewEntryKeepsTable(g: Graph, e: Entry, n: nat)
    requires Closed(g) && Closed(g + [e]) && n < |g| && g[n].Node?
    ensures GetRoutes(g + [e], n) == GetRoutes(g, n)
  {
    forall f: nat | Connected(g, n, f) ensures f < |g| {
      var w :| Walk(g, n, w, f);
      ConnectedBounded(g, n, w, f);
    }
    TableDependsOnlyOnReachable(g, g + [e], n);
  }

  /** A change that makes a new leaf reachable from `n` always changes the table of `n`. */
  lemma NewLeafChangesTable(g: Graph, h: Graph, n: nat, l: nat)
    requires Closed(g) && n < |g| && g[n].Node? && GetRoutes(g, n).Ok?
    requires Closed(h) && n < |h| && h[n].Node?
    requires !Reaches(g, n, l) && Reaches(h, n, l)
    ensures GetRoutes(h, n) != GetRoutes(g, n)
  {
    TableTargets(g, n, l);
    if GetRoutes(h, n).Ok? {
      TableTargets(h, n, l);
    }
  }

  // ---------- When attaching keeps a table ----------

  /** The graph with a new leaf of one base, attached to node `m`. */
  function WithLeaf(g: Graph, m: nat, size: int, base: int): (h: Graph)
    requires Closed(g) && m < |g| && g[m].Node?
    ensures Closed(h) && |h| == |g| + 1
  {
    Attached(g + [Leaf(size, [base])], m, [|g|])
  }

  /** Walks survive: attaching only appends to the list of a node. */
  lemma {:induction false} WalkWithLeaf(g: Graph, m: nat, size: int, base: int, e: nat, w: seq<nat>, f: nat)
    requires Closed(g) && m < |g| && g[m].Node? && e < |g| && Walk(g, e, w, f)
    ensures Walk(WithLeaf(g, m, size, base), e, w, f)
    decreases |w|
  {
    if w != [] {
      WalkWithLeaf(g, m, size, base, g[e].entries[w[0]], w[1..], f);
    }
  }

  /** Attaching a new leaf to any node that `n` leads to makes a table cached for `n` out of date. */
  lemma ReachedAttachChangesTable(g: Graph, n: nat, m: nat, size: int, base: int)
    requires Closed(g) && n < |g| && g[n].Node? && m < |g| && g[m].Node? && GetRoutes(g, n).Ok?
    requires Connected(g, n, m)
    ensures GetRoutes(WithLeaf(g, m, size, base), n) != GetRoutes(g, n)
  {
    hide GetRoutes;
    var h, l := WithLeaf(g, m, size, base), |g|;
    var w: seq<nat> :| Walk(g, n, w, m);
    WalkWithLeaf(g, m, size, base, n, w, m);
    assert IsPath(h, l, [0]);
    StepPath(h, m, |g[m].entries|, [0]);
    WalkThenPath(h, n, w, m, [|g[m].entries|] + [0]);
    assert PathTo(h, n, l, w + ([|g[m].entries|] + [0]));
    assert !Reaches(g, n, l);
    NewLeafChangesTable(g, h, n, l);
  }

  lemma UnreachedLeafKeepsTable(g: Graph, n: nat, m: nat, size: int, base: int)
    requires Closed(g) && n < |g| && g[n].Node? && m < |g| && g[m].Node? && !Connected(g, n, m)
    ensures GetRoutes(WithLeaf(g, m, size, base), n) == GetRoutes(g, n)
  {
    hide GetRoutes;
    var h := WithLeaf(g, m, size, base);
    forall f: nat | Connected(g, n, f) ensures f < |g| && g[f] == h[f] {
      var w :| Walk(g, n, w, f);
      ConnectedBounded(g, n, w, f);
    }
    TableDependsOnlyOnReachable(g, h, n);
  }

  /**
   A cached table survives attaching a new leaf to `m`, whatever its size and base, if and only
   if `n` does not lead to `m`.
   */
  lemma CacheSafeIffUnreached(g: Graph, n: nat, m: nat)
    requires Closed(g) && n < |g| && g[n].Node? && m < |g| && g[m].Node? && GetRoutes(g, n).Ok?
    ensures !Connected(g, n, m) <==>
            forall size, base | size > 0 :: GetRoutes(WithLeaf(g, m, size, base), n) == GetRoutes(g, n)
  {
    hide GetRoutes;
    if Connected(g, n, m) {
      ReachedAttachChangesTable(g, n, m, 1, 0);
    } else {
      forall size, base | size > 0 ensures GetRoutes(WithLeaf(g, m, size, base), n) == GetRoutes(g, n) {
        UnreachedLeafKeepsTable(g, n, m, size, base);
      }
    }
  }

  // ---------- What leaf sizes must be ----------

  /** Every leaf covers at least one address or has size `s`. */
  ghost predicate SizesPositiveOr(g: Graph, s: int) {
    forall e :: 0 <= e < |g| && g[e].Leaf? ==> g[e].size > 0 || g[e].size == s
  }

  /** `n` is a node of a graph that can be built. */
  ghost predicate IsNode(g: Graph, n: nat) {
    Closed(g) && n < |g| && g[n].Node?
  }

  ghost predicate CheckExactAt(g: Graph, n: nat) {
    IsNode(g, n) ==> (GetRoutes(g, n).Ok? <==> ReachesBase(g, n) && ClashFree(g, n))
  }

  ghost predicate SuccessInheritedAt(g: Graph, n: nat, m: nat) {
    IsNode(g, n) && IsNode(g, m) && GetRoutes(g, n).Ok? && Connected(g, n, m) && ReachesBase(g, m) ==>
      GetRoutes(g, m).Ok?
  }

  ghost predicate DeliveredAt(g: Graph, n: nat, l: nat, b: nat, addr: int) {
    IsNode(g, n) && GetRoutes(g, n).Ok? && Reaches(g, n, l) && Owns(g, l, b, addr) ==>
      Forward(g, n, addr, Distance(g, n, l)) == Some(l)
  }

  lemma PositiveEverywhere(g: Graph, s: int, n: nat)
    requires s > 0 && SizesPositiveOr(g, s) && IsNode(g, n)
    ensures PositiveBelow(g, n)
  {
  }

  /** Two leaves that clash below node 1, and a leaf of size `s` beside that node. */
  function Hidden(s: int): Graph {
    [Node([1, 2]), Node([3, 4]), Leaf(s, [0]), Leaf(10, [0]), Leaf(2, [5])]
  }

  lemma RoutesViaTwo(g: Graph, n: nat, a: nat, b: nat)
    requires Closed(g) && a < |g| && b < |g|
    ensures RoutesVia(g, n, [a, b]) == WithPorts(Ranges(g, a, {n}), a) + WithPorts(Ranges(g, b, {n}), b)
  {
    hide Ranges;
    assert [a, b][..1] == [a] && [a][..0] == [];
    assert RoutesVia(g, n, []) == [];
    assert RoutesVia(g, n, [a]) == [] + WithPorts(Ranges(g, a, {n}), a);
  }

  lemma RangesOfTwo(g: Graph, a: nat, b: nat, seen: set<nat>)
    requires Closed(g) && a < |g| && b < |g|
    ensures RangesOfAll(g, [a, b], seen) == IncDepths(Ranges(g, a, seen)) + IncDepths(Ranges(g, b, seen))
  {
    hide Ranges;
    assert [a, b][..1] == [a] && [a][..0] == [];
    assert RangesOfAll(g, [], seen) == [];
    assert RangesOfAll(g, [a], seen) == [] + IncDepths(Ranges(g, a, seen));
  }

  lemma RangesOfLeaf(g: Graph, e: nat, seen: set<nat>)
    requires Closed(g) && e < |g| && g[e].Leaf?
    ensures Ranges(g, e, seen) == LeafRanges(e, g[e].size, g[e].bases)
  {
  }

  lemma HiddenInner(s: int)
    ensures IsNode(Hidden(s), 1)
    ensures NodeRoutes(Hidden(s), 1) == [Route(0, 10, Some(3), One(3), 0), Route(5, 7, Some(4), One(4), 0)]
  {
    hide Ranges, RoutesVia;
    var g := Hidden(s);
    RoutesViaTwo(g, 1, 3, 4);
    RangesOfLeaf(g, 3, {1});
    RangesOfLeaf(g, 4, {1});
  }

  lemma HiddenSearch(s: int)
    ensures IsNode(Hidden(s), 1)
    ensures Ranges(Hidden(s), 1, {0}) == [Route(0, 10, None, One(3), 1), Route(5, 7, None, One(4), 1)]
  {
    var g := Hidden(s);
    assert Ranges(g, 1, {0}) == RangesOfAll(g, [3, 4], {0} + {1});
    hide Ranges;
    RangesOfTwo(g, 3, 4, {0} + {1});
    RangesOfLeaf(g, 3, {0} + {1});
    RangesOfLeaf(g, 4, {0} + {1});
  }

  lemma HiddenOuter(s: int)
    ensures IsNode(Hidden(s), 0)
    ensures NodeRoutes(Hidden(s), 0) == [Route(0, 10, Some(1), One(3), 1), Route(5, 7, Some(1), One(4), 1),
                                         Route(0, s, Some(2), One(2), 0)]
  {
    hide Ranges, RoutesVia;
    var g := Hidden(s);
    RoutesViaTwo(g, 0, 1, 2);
    HiddenSearch(s);
    RangesOfLeaf(g, 2, {0});
  }

  lemma HiddenSorted(a: Route, c: Route, b: Route)
    requires a.lo == b.lo == 0 && c.lo == 5
    ensures StableSort([a, c, b]) == [a, b, c]
  {
    assert [a, c, b][..2] == [a, c] && [a, c][..1] == [a] && [a][..0] == [];
    assert StableSort([]) == [];
    assert StableSort([a]) == [a];
    assert StableSort([a, c]) == [a, c];
    assert [a, c][..1] == [a] && Insert([a], b) == [a, b];
    assert Insert([a, c], b) == [a, b] + [c];
  }

  lemma HiddenTable(s: int)
    requires s <= 0
    ensures GetRoutes(Hidden(s), 0).Ok? && NextHop(Hidden(s), 0, 5) == Some(1)
  {
    var a, b, c := Route(0, 10, Some(1), One(3), 1), Route(0, s, Some(2), One(2), 0), Route(5, 7, Some(1), One(4), 1);
    HiddenOuter(s);
    HiddenSorted(a, c, b);
    EmptyRangeHidesCollision(s, a, b, c);
    CompressThree(a, b, c);
    hide NodeRoutes, StableSort, Collapse, Compress;
  }

  lemma CompressThree(a: Route, b: Route, c: Route)
    requires a.port != b.port && b.port != c.port
    ensures Compress([a, b, c]) == [a, b, c]
  {
    assert [a, b, c][..2] == [a, b] && [a, b][..1] == [a];
    assert Compress([a, b]) == CompressStep([a], b) == [a] + [b];
    assert Compress([a, b, c]) == CompressStep([a, b], c) == [a, b] + [c];
  }

  lemma HiddenCollision(s: int)
    ensures GetRoutes(Hidden(s), 1).Err?
  {
    var a, b := Route(0, 10, Some(3), One(3), 0), Route(5, 7, Some(4), One(4), 0);
    HiddenInner(s);
    assert [a, b][..1] == [a] && [a][..0] == [];
    assert StableSort([]) == [] && StableSort([a]) == [a] && StableSort([a, b]) == [a, b];
    assert Collapse([a]) == Ok([a]);
  }

  lemma HiddenPaths(s: int)
    ensures var g := Hidden(s);
            && IsNode(g, 0) && Connected(g, 0, 1) && ReachesBase(g, 1)
            && !ClashFree(g, 0) && Reaches(g, 0, 4) && Owns(g, 4, 0, 5)
  {
    var g := Hidden(s);
    StepConnects(g, 0, 0);
    HiddenPath(s, 3);
    HiddenPath(s, 4);
    hide IsPath, Last, Connected, Closed;
    assert Clash(g, 0, [0, 0, 0], [0, 1, 0]);
    assert PathTo(g, 0, 4, [0, 1, 0]);
  }

  lemma HiddenPath(s: int, l: nat)
    requires l == 3 || l == 4
    ensures var g := Hidden(s);
            && Closed(g) && IsPath(g, 1, [l - 3, 0])
            && IsPath(g, 0, [0, l - 3, 0]) && Last(g, 0, [0, l - 3, 0]) == l
  {
    var g := Hidden(s);
    assert IsPath(g, l, [0]) && Last(g, l, [0]) == l;
    StepPath(g, 1, l - 3, [0]);
    assert [l - 3] + [0] == [l - 3, 0];
    hide IsPath, Last;
    StepPath(g, 0, 0, [l - 3, 0]);
    assert [0] + [l - 3, 0] == [0, l - 3, 0];
  }

  /** Forwarding ends at a node that has no next hop. */
  lemma ForwardStops(g: Graph, e: nat, h: nat, addr: int, k: nat)
    requires IsNode(g, e) && IsNode(g, h) && NextHop(g, e, addr) == Some(h) && NextHop(g, h, addr) == None
    ensures Forward(g, e, addr, k) in {Some(e), Some(h), None}
  {
    hide NextHop;
    if k > 1 {
      assert Forward(g, h, addr, k - 1) == None;
    }
  }

  /** An address that node 0 accepts gets stuck at node 1, which has no table. */
  lemma HiddenStuck(s: int, k: nat)
    requires s <= 0
    ensures IsNode(Hidden(s), 0) && Forward(Hidden(s), 0, 5, k) != Some(4)
  {
    var g := Hidden(s);
    assert IsNode(g, 0) && IsNode(g, 1);
    HiddenTable(s);
    HiddenCollision(s);
    hide GetRoutes, Hidden, IsNode;
    ForwardStops(g, 0, 1, 5, k);
  }

  lemma HiddenFails(s: int)
    requires s <= 0
    ensures SizesPositiveOr(Hidden(s), s)
    ensures !CheckExactAt(Hidden(s), 0)
    ensures !SuccessInheritedAt(Hidden(s), 0, 1)
    ensures !DeliveredAt(Hidden(s), 0, 4, 0, 5)
  {
    var g := Hidden(s);
    assert SizesPositiveOr(g, s) && IsNode(g, 0) && IsNode(g, 1);
    HiddenTable(s);
    HiddenCollision(s);
    HiddenPaths(s);
    hide Hidden, IsNode, GetRoutes, Forward, Reaches, ClashFree, ReachesBase, Connected, IsDistance, NextHop, Closed;
    hide NodeRoutes, Owns, SizesPositiveOr;
    HiddenStuck(s, Distance(g, 0, 4));
  }

  /**
   Leaf sizes are not checked on creation.  The sizes with which a table exists exactly for
   clash-free nodes, with which tables are inherited, and with which addresses are delivered,
   are exactly the positive ones.
   */
  lemma SizesMustBePositive(s: int)
    ensures s > 0 <==> forall g, n: nat :: SizesPositiveOr(g, s) ==> CheckExactAt(g, n)
    ensures s > 0 <==> forall g, n: nat, m: nat :: SizesPositiveOr(g, s) ==> SuccessInheritedAt(g, n, m)
    ensures s > 0 <==>
            forall g, n: nat, l: nat, b: nat, addr :: SizesPositiveOr(g, s) ==> DeliveredAt(g, n, l, b, addr)
  {
    if s > 0 {
      PositiveSizesSuffice(s);
    } else {
      hide *;
      var g := Hidden(s);
      HiddenFails(s);
      assert SizesPositiveOr(g, s) && !CheckExactAt(g, 0);
      assert SizesPositiveOr(g, s) && !SuccessInheritedAt(g, 0, 1);
      assert SizesPositiveOr(g, s) && !DeliveredAt(g, 0, 4, 0, 5);
    }
  }

  lemma PositiveSizesSuffice(s: int)
    requires s > 0
    ensures forall g, n: nat :: SizesPositiveOr(g, s) ==> CheckExactAt(g, n)
    ensures forall g, n: nat, m: nat :: SizesPositiveOr(g, s) ==> SuccessInheritedAt(g, n, m)
    ensures forall g, n: nat, l: nat, b: nat, addr :: SizesPositiveOr(g, s) ==> DeliveredAt(g, n, l, b, addr)
  {
    hide GetRoutes, Forward, Reaches, ClashFree, ReachesBase, Connected, SizesPositiveOr, PositiveBelow;
    forall g, n: nat | SizesPositiveOr(g, s) && IsNode(g, n) ensures CheckExactAt(g, n) {
      PositiveEverywhere(g, s, n);
      GetRoutesSucceeds(g, n);
    }
    forall g, n: nat, m: nat | SizesPositiveOr(g, s) && IsNode(g, n) ensures SuccessInheritedAt(g, n, m) {
      PositiveEverywhere(g, s, n);
      if IsNode(g, m) && GetRoutes(g, n).Ok? && Connected(g, n, m) && ReachesBase(g, m) {
        SuccessIsInherited(g, n, m);
      }
    }
    forall g, n: nat, l: nat, b: nat, addr | SizesPositiveOr(g, s) && IsNode(g, n)
      ensures DeliveredAt(g, n, l, b, addr)
    {
      PositiveEverywhere(g, s, n);
      if GetRoutes(g, n).Ok? && Reaches(g, n, l) && Owns(g, l, b, addr) {
        Delivery(g, n, l, b, addr, Distance(g, n, l));
      }
    }
  }
}

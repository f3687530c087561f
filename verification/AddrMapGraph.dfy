/**
 The address-map graph of `util/solder/solder.py` and the recursive search that
 collects the address ranges reachable through an entry.

 Entries live in one sequence and are named by their index, which plays the part
 of the `id` every entry gets on creation.  A node lists the entries attached to it;
 attachments may form cycles.
 */
module AddrMapGraph {
  import opened Common

  datatype Entry =
    | Leaf(size: int, bases: seq<int>)
    | Node(entries: seq<nat>)

  type Graph = seq<Entry>

  /** Every attachment names an existing entry. */
  ghost predicate Closed(g: Graph) {
    forall n, i :: 0 <= n < |g| && g[n].Node? && 0 <= i < |g[n].entries| ==> g[n].entries[i] < |g|
  }

  /** A route ends in one leaf; unified routes list the leaves they cover. */
  datatype Target = One(leaf: nat) | Many(leaves: seq<nat>) {
    function AsList(): (ids: seq<nat>) {
      match this
      case One(leaf) => [leaf]
      case Many(leaves) => leaves
    }
  }

  datatype Route = Route(lo: int, hi: int, port: Option<nat>, target: Target, depth: nat) {
    function IncDepth(): Route {
      this.(depth := depth + 1)
    }

    function WithPort(p: nat): Route {
      this.(port := Some(p))
    }

    function UnifiedWith(other: Route): Route {
      this.(lo := if lo <= other.lo then lo else other.lo,
            hi := if hi >= other.hi then hi else other.hi,
            target := Many(target.AsList() + other.target.AsList()),
            depth := 0)
    }

    /** Same address range and same target: the test under which two routes are redundant. */
    predicate SameKey(other: Route) {
      lo == other.lo && hi == other.hi && target == other.target
    }

    predicate Overlaps(other: Route) {
      lo < other.hi && other.lo < hi
    }

    predicate Covers(addr: int) {
      lo <= addr < hi
    }
  }

  function IncDepths(rs: seq<Route>): (r: seq<Route>)
    ensures |r| == |rs| && forall i :: 0 <= i < |r| ==> r[i] == rs[i].IncDepth()
  {
    seq(|rs|, i requires 0 <= i < |rs| => rs[i].IncDepth())
  }

  function LeafRanges(e: nat, size: int, bases: seq<int>): (r: seq<Route>)
    ensures |r| == |bases|
    ensures forall i :: 0 <= i < |r| ==> r[i] == Route(bases[i], bases[i] + size, None, One(e), 0)
  {
    seq(|bases|, i requires 0 <= i < |bases| => Route(bases[i], bases[i] + size, None, One(e), 0))
  }

  // ---------- The search ----------

  function Ids(n: nat): (ids: set<nat>)
    ensures forall i: nat :: i in ids <==> i < n
  {
    if n == 0 then {} else Ids(n - 1) + {n - 1}
  }

  /** How many entries are still unexplored: the measure that stops the search on cyclic graphs. */
  function Unseen(g: Graph, seen: set<nat>): nat {
    |Ids(|g|) - seen|
  }

  lemma UnseenShrinks(g: Graph, seen: set<nat>, e: nat)
    requires e < |g| && e !in seen
    ensures Unseen(g, seen + {e}) < Unseen(g, seen)
  {
    assert Ids(|g|) - (seen + {e}) == (Ids(|g|) - seen) - {e};
  }

  /** The routes found from entry `e` when the nodes in `seen` may not be re-entered. */
  function Ranges(g: Graph, e: nat, seen: set<nat>): seq<Route>
    requires Closed(g) && e < |g|
    decreases Unseen(g, seen), 0
  {
    match g[e]
    case Leaf(size, bases) => LeafRanges(e, size, bases)
    case Node(entries) =>
      if e in seen then [] else
        UnseenShrinks(g, seen, e);
        RangesOfAll(g, entries, seen + {e})
  }

  function RangesOfAll(g: Graph, es: seq<nat>, seen: set<nat>): seq<Route>
    requires Closed(g) && forall i :: 0 <= i < |es| ==> es[i] < |g|
    decreases Unseen(g, seen), |es|
  {
    if es == [] then []
    else
      var k := |es| - 1;
      RangesOfAll(g, es[..k], seen) + IncDepths(Ranges(g, es[k], seen))
  }

  // ---------- Paths ----------

  /** A path is the list of attachment positions followed, then the position of a base address. */
  type Path = seq<nat>

  ghost predicate IsPath(g: Graph, e: nat, p: Path)
    requires Closed(g) && e < |g|
    decreases |p|
  {
    && |p| >= 1
    && match g[e]
       case Leaf(_, bases) => |p| == 1 && p[0] < |bases|
       case Node(entries) => p[0] < |entries| && IsPath(g, entries[p[0]], p[1..])
  }

  /** The interconnect nodes visited along a path, in order. */
  ghost function Nodes(g: Graph, e: nat, p: Path): (ns: seq<nat>)
    requires Closed(g) && e < |g| && IsPath(g, e, p)
    ensures |ns| == |p| - 1
    ensures g[e].Node? ==> |ns| > 0 && ns[0] == e
    decreases |p|
  {
    if g[e].Leaf? then [] else [e] + Nodes(g, g[e].entries[p[0]], p[1..])
  }

  /** The leaf a path ends in. */
  ghost function Last(g: Graph, e: nat, p: Path): (l: nat)
    requires Closed(g) && e < |g| && IsPath(g, e, p)
    ensures l < |g| && g[l].Leaf? && p[|p| - 1] < |g[l].bases|
    decreases |p|
  {
    if g[e].Leaf? then e else Last(g, g[e].entries[p[0]], p[1..])
  }

  ghost predicate Distinct(s: seq<nat>) {
    forall i, j :: 0 <= i < j < |s| ==> s[i] != s[j]
  }

  ghost predicate Avoids(s: seq<nat>, seen: set<nat>) {
    forall i :: 0 <= i < |s| ==> s[i] !in seen
  }

  ghost predicate Simple(g: Graph, e: nat, p: Path, seen: set<nat>)
    requires Closed(g) && e < |g|
  {
    IsPath(g, e, p) && Distinct(Nodes(g, e, p)) && Avoids(Nodes(g, e, p), seen)
  }

  /** The route a path stands for: the range of its base address, and as depth the nodes on it. */
  ghost function RouteAlong(g: Graph, e: nat, p: Path): Route
    requires Closed(g) && e < |g| && IsPath(g, e, p)
  {
    var l := Last(g, e, p);
    var base := g[l].bases[p[|p| - 1]];
    Route(base, base + g[l].size, None, One(l), |Nodes(g, e, p)|)
  }

  /** `rs` has exactly one route for each path in `ps`, in the same order. */
  ghost predicate RoutesOf(g: Graph, e: nat, ps: seq<Path>, rs: seq<Route>)
    requires Closed(g) && e < |g|
  {
    && |ps| == |rs|
    && forall i :: 0 <= i < |ps| ==> IsPath(g, e, ps[i]) && rs[i] == RouteAlong(g, e, ps[i])
  }

  /** `p` branches off from `q` to an earlier attachment or base. */
  ghost predicate Before(p: Path, q: Path)
    decreases |p|
  {
    p != [] && q != [] && (p[0] < q[0] || (p[0] == q[0] && Before(p[1..], q[1..])))
  }

  /** The paths come in the order of attachment, and none twice. */
  ghost predicate InOrder(ps: seq<Path>) {
    forall i, j :: 0 <= i < j < |ps| ==> Before(ps[i], ps[j]) && ps[i] != ps[j]
  }

  ghost function Prefixed(k: nat, ps: seq<Path>): (r: seq<Path>)
    ensures |r| == |ps| && forall i :: 0 <= i < |r| ==> r[i] == [k] + ps[i]
  {
    seq(|ps|, i requires 0 <= i < |ps| => [k] + ps[i])
  }

  /** The paths the search follows, in the order in which it follows them. */
  ghost function Paths(g: Graph, e: nat, seen: set<nat>): seq<Path>
    requires Closed(g) && e < |g|
    decreases Unseen(g, seen), 0
  {
    match g[e]
    case Leaf(_, bases) => seq(|bases|, i requires 0 <= i < |bases| => [i])
    case Node(entries) =>
      if e in seen then [] else
        UnseenShrinks(g, seen, e);
        PathsOfAll(g, entries, seen + {e})
  }

  ghost function PathsOfAll(g: Graph, es: seq<nat>, seen: set<nat>): seq<Path>
    requires Closed(g) && forall i :: 0 <= i < |es| ==> es[i] < |g|
    decreases Unseen(g, seen), |es|
  {
    if es == [] then []
    else
      var k := |es| - 1;
      PathsOfAll(g, es[..k], seen) + Prefixed(k, Paths(g, es[k], seen))
  }

  /** A step through node `e` extends simple paths by simple paths. */
  lemma SimpleStep(g: Graph, e: nat, p: Path, seen: set<nat>)
    requires Closed(g) && e < |g| && g[e].Node?
    ensures Simple(g, e, p, seen) <==>
            && e !in seen && |p| >= 1 && p[0] < |g[e].entries|
            && Simple(g, g[e].entries[p[0]], p[1..], seen + {e})
  {
    if IsPath(g, e, p) {
      var c := g[e].entries[p[0]];
      var ns, ms := Nodes(g, e, p), Nodes(g, c, p[1..]);
      assert ns == [e] + ms;
      if Simple(g, e, p, seen) {
        assert forall i :: 0 <= i < |ms| ==> ms[i] == ns[i + 1];
        assert Avoids(ms, seen + {e});
      }
    }
  }

  lemma PrefixedMember(k: nat, ps: seq<Path>, p: Path)
    ensures p in Prefixed(k, ps) <==> |p| >= 1 && p[0] == k && p[1..] in ps
  {
    var qs := Prefixed(k, ps);
    if p in qs {
      var i :| 0 <= i < |qs| && qs[i] == p;
      assert p[1..] == ps[i];
    }
    if |p| >= 1 && p[0] == k && p[1..] in ps {
      var i :| 0 <= i < |ps| && ps[i] == p[1..];
      assert qs[i] == p;
    }
  }

  /** The search follows a path exactly if it is simple and avoids `seen`. */
  lemma {:induction false} PathMember(g: Graph, e: nat, seen: set<nat>, p: Path)
    requires Closed(g) && e < |g|
    ensures p in Paths(g, e, seen) <==> Simple(g, e, p, seen)
    decreases Unseen(g, seen), 0
  {
    if g[e].Leaf? {
      if Simple(g, e, p, seen) {
        assert p == [p[0]] == Paths(g, e, seen)[p[0]];
      }
    } else {
      SimpleStep(g, e, p, seen);
      if e !in seen {
        UnseenShrinks(g, seen, e);
        PathOfAllMember(g, g[e].entries, seen + {e}, p);
      }
    }
  }

  lemma {:induction false} PathOfAllMember(g: Graph, es: seq<nat>, seen: set<nat>, p: Path)
    requires Closed(g) && forall i :: 0 <= i < |es| ==> es[i] < |g|
    ensures p in PathsOfAll(g, es, seen) <==>
            |p| >= 1 && p[0] < |es| && Simple(g, es[p[0]], p[1..], seen)
    decreases Unseen(g, seen), |es|
  {
    if es != [] {
      var k := |es| - 1;
      PathOfAllMember(g, es[..k], seen, p);
      PrefixedMember(k, Paths(g, es[k], seen), p);
      if |p| >= 1 {
        PathMember(g, es[k], seen, p[1..]);
      }
    }
  }

  lemma InOrderPrefixed(k: nat, ps: seq<Path>)
    requires InOrder(ps)
    ensures InOrder(Prefixed(k, ps))
  {
    var qs := Prefixed(k, ps);
    forall i, j | 0 <= i < j < |qs| ensures Before(qs[i], qs[j]) && qs[i] != qs[j] {
      assert qs[i][1..] == ps[i] && qs[j][1..] == ps[j];
    }
  }

  lemma {:induction false} PathsInOrder(g: Graph, e: nat, seen: set<nat>)
    requires Closed(g) && e < |g|
    ensures InOrder(Paths(g, e, seen))
    decreases Unseen(g, seen), 0
  {
    if g[e].Node? && e !in seen {
      UnseenShrinks(g, seen, e);
      PathsOfAllInOrder(g, g[e].entries, seen + {e});
    }
  }

  lemma {:induction false} PathsOfAllInOrder(g: Graph, es: seq<nat>, seen: set<nat>)
    requires Closed(g) && forall i :: 0 <= i < |es| ==> es[i] < |g|
    ensures InOrder(PathsOfAll(g, es, seen))
    decreases Unseen(g, seen), |es|
  {
    if es != [] {
      var k := |es| - 1;
      PathsOfAllInOrder(g, es[..k], seen);
      PathsInOrder(g, es[k], seen);
      InOrderPrefixed(k, Paths(g, es[k], seen));
      var front, back := PathsOfAll(g, es[..k], seen), Prefixed(k, Paths(g, es[k], seen));
      forall i | 0 <= i < |front| ensures |front[i]| >= 1 && front[i][0] < k {
        PathOfAllMember(g, es[..k], seen, front[i]);
      }
      assert PathsOfAll(g, es, seen) == front + back;
      hide PathsOfAll, Paths;
      InOrderConcat(front, back, k);
    }
  }

  lemma InOrderConcat(front: seq<Path>, back: seq<Path>, k: nat)
    requires InOrder(front) && InOrder(back)
    requires forall i :: 0 <= i < |front| ==> |front[i]| >= 1 && front[i][0] < k
    requires forall i :: 0 <= i < |back| ==> |back[i]| >= 1 && back[i][0] == k
    ensures InOrder(front + back)
  {
    var all := front + back;
    forall i, j | 0 <= i < j < |all| ensures Before(all[i], all[j]) && all[i] != all[j] {
      assert i < |front| || all[i] == back[i - |front|];
    }
  }

  /** The i-th route found is the one the i-th path stands for. */
  lemma {:induction false} PathsGiveRoutes(g: Graph, e: nat, seen: set<nat>)
    requires Closed(g) && e < |g|
    ensures RoutesOf(g, e, Paths(g, e, seen), Ranges(g, e, seen))
    decreases Unseen(g, seen), 0
  {
    if g[e].Node? && e !in seen {
      UnseenShrinks(g, seen, e);
      PathsOfAllGiveRoutes(g, g[e].entries, seen + {e});
    }
  }

  /** `rs[i]` is the route of the i-th path once that path enters the entry it names first. */
  ghost predicate RoutesThrough(g: Graph, es: seq<nat>, ps: seq<Path>, rs: seq<Route>)
    requires Closed(g) && forall i :: 0 <= i < |es| ==> es[i] < |g|
  {
    && |ps| == |rs|
    && (forall i :: 0 <= i < |ps| ==>
          && |ps[i]| >= 1 && ps[i][0] < |es|
          && IsPath(g, es[ps[i][0]], ps[i][1..])
          && rs[i] == RouteAlong(g, es[ps[i][0]], ps[i][1..]).IncDepth())
  }

  lemma {:induction false} PathsOfAllGiveRoutes(g: Graph, es: seq<nat>, seen: set<nat>)
    requires Closed(g) && forall i :: 0 <= i < |es| ==> es[i] < |g|
    ensures RoutesThrough(g, es, PathsOfAll(g, es, seen), RangesOfAll(g, es, seen))
    decreases Unseen(g, seen), |es|
  {
    if es != [] {
      var k := |es| - 1;
      PathsOfAllGiveRoutes(g, es[..k], seen);
      PathsGiveRoutes(g, es[k], seen);
      var inner := Paths(g, es[k], seen);
      var back := Prefixed(k, inner);
      forall i | 0 <= i < |back| ensures back[i][0] == k && back[i][1..] == inner[i] {}
    }
  }

  /**
   Path enumeration: the search returns exactly one route per simple path from the entry to a
   leaf base that avoids `seen`, in the order of attachment, and the depth of that route is the
   number of nodes on its path.
   */
  lemma RangesEnumerateSimplePaths(g: Graph, e: nat, seen: set<nat>)
    requires Closed(g) && e < |g|
    ensures exists ps ::
              && RoutesOf(g, e, ps, Ranges(g, e, seen))
              && InOrder(ps)
              && forall p :: p in ps <==> Simple(g, e, p, seen)
  {
    hide Paths, Ranges, RoutesOf, Simple, InOrder;
    PathsGiveRoutes(g, e, seen);
    PathsInOrder(g, e, seen);
    forall p ensures p in Paths(g, e, seen) <==> Simple(g, e, p, seen) {
      PathMember(g, e, seen, p);
    }
  }

  /** Membership form of the enumeration. */
  lemma RangesMembership(g: Graph, e: nat, seen: set<nat>, r: Route)
    requires Closed(g) && e < |g|
    ensures r in Ranges(g, e, seen) <==> exists p :: Simple(g, e, p, seen) && r == RouteAlong(g, e, p)
  {
    hide Paths, Ranges, RouteAlong, IsPath;
    PathsGiveRoutes(g, e, seen);
    var ps, rs := Paths(g, e, seen), Ranges(g, e, seen);
    if r in rs {
      var i :| 0 <= i < |rs| && rs[i] == r;
      PathMember(g, e, seen, ps[i]);
    }
    if p :| Simple(g, e, p, seen) && r == RouteAlong(g, e, p) {
      PathMember(g, e, seen, p);
      var i :| 0 <= i < |ps| && ps[i] == p;
      assert rs[i] == r;
    }
  }

  // ---------- Shortest paths ----------

  /** Entering node `e` first makes a longer path to the same leaf. */
  lemma StepPath(g: Graph, e: nat, i: nat, q: Path)
    requires Closed(g) && e < |g| && g[e].Node? && i < |g[e].entries| && IsPath(g, g[e].entries[i], q)
    ensures IsPath(g, e, [i] + q) && Last(g, e, [i] + q) == Last(g, g[e].entries[i], q)
  {
    assert ([i] + q)[1..] == q;
  }

  /** The tail of a path that starts where its k-th node is visited. */
  lemma {:induction false} Suffix(g: Graph, e: nat, p: Path, k: nat)
    requires Closed(g) && e < |g| && IsPath(g, e, p) && k < |Nodes(g, e, p)|
    ensures var n := Nodes(g, e, p)[k];
            && n < |g| && IsPath(g, n, p[k..])
            && Nodes(g, n, p[k..]) == Nodes(g, e, p)[k..]
            && Last(g, n, p[k..]) == Last(g, e, p)
    decreases k
  {
    if k == 0 {
      assert p[0..] == p;
    } else {
      Suffix(g, g[e].entries[p[0]], p[1..], k - 1);
      assert p[k..] == p[1..][k - 1..];
    }
  }

  /** Loop removal: any path has a simple one, no longer, to the same base through a subset of its nodes. */
  lemma {:induction false} Shorten(g: Graph, e: nat, p: Path) returns (q: Path)
    requires Closed(g) && e < |g| && IsPath(g, e, p)
    ensures Simple(g, e, q, {}) && Last(g, e, q) == Last(g, e, p)
    ensures |q| <= |p| && q[|q| - 1] == p[|p| - 1]
    ensures forall n :: n in Nodes(g, e, q) ==> n in Nodes(g, e, p)
    decreases |p|
  {
    if g[e].Leaf? {
      q := p;
    } else {
      var c := g[e].entries[p[0]];
      var r := Shorten(g, c, p[1..]);
      var ms := Nodes(g, c, r);
      if e in ms {
        var k :| 0 <= k < |ms| && ms[k] == e;
        Suffix(g, c, r, k);
        q := r[k..];
      } else {
        q := [p[0]] + r;
        assert q[1..] == r;
        assert Nodes(g, e, q) == [e] + ms;
      }
    }
  }

  ghost predicate PathTo(g: Graph, e: nat, l: nat, p: Path)
    requires Closed(g) && e < |g|
  {
    IsPath(g, e, p) && Last(g, e, p) == l
  }

  ghost predicate Reaches(g: Graph, e: nat, l: nat)
    requires Closed(g) && e < |g|
  {
    exists p :: PathTo(g, e, l, p)
  }

  /** The fewest nodes on any path, simple or not, from `e` to leaf `l`. */
  ghost predicate IsDistance(g: Graph, e: nat, l: nat, d: nat)
    requires Closed(g) && e < |g|
  {
    && (exists p :: PathTo(g, e, l, p) && |p| - 1 == d)
    && forall p :: PathTo(g, e, l, p) ==> d <= |p| - 1
  }

  lemma {:induction false} DistanceExists(g: Graph, e: nat, l: nat, p: Path)
    requires Closed(g) && e < |g| && PathTo(g, e, l, p)
    ensures exists d :: IsDistance(g, e, l, d)
    decreases |p|
  {
    if q :| PathTo(g, e, l, q) && |q| < |p| {
      DistanceExists(g, e, l, q);
    } else {
      assert IsDistance(g, e, l, |p| - 1);
    }
  }

  ghost function Distance(g: Graph, e: nat, l: nat): (d: nat)
    requires Closed(g) && e < |g| && Reaches(g, e, l)
    ensures IsDistance(g, e, l, d)
  {
    var p :| PathTo(g, e, l, p);
    DistanceExists(g, e, l, p);
    var d :| IsDistance(g, e, l, d);
    d
  }

  /** The least depth among the routes to a leaf is its distance. */
  lemma MinimumDepthIsDistance(g: Graph, e: nat, l: nat)
    requires Closed(g) && e < |g| && Reaches(g, e, l)
    ensures exists r :: r in Ranges(g, e, {}) && r.target == One(l) && r.depth == Distance(g, e, l)
    ensures forall r :: r in Ranges(g, e, {}) && r.target == One(l) ==> Distance(g, e, l) <= r.depth
  {
    var d := Distance(g, e, l);
    var p :| PathTo(g, e, l, p) && |p| - 1 == d;
    var q := Shorten(g, e, p);
    assert PathTo(g, e, l, q);
    RangesMembership(g, e, {}, RouteAlong(g, e, q));
    forall r | r in Ranges(g, e, {}) && r.target == One(l) ensures d <= r.depth {
      RangesMembership(g, e, {}, r);
      var s :| Simple(g, e, s, {}) && r == RouteAlong(g, e, s);
      assert PathTo(g, e, l, s);
    }
  }
}

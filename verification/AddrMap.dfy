/**
 The address map as the generator builds it: entries are created and attached in place, the
 search marks nodes in a shared `seen` set, and tables are cached per node.
 */
module AddrMap {
  import opened Common
  import opened AddrMapGraph
  import opened AddrMapTable
  import opened AddrMapDelivery

  /** The mutable set handed down the recursive search. */
  class SeenSet {
    var members: set<nat>

    constructor (origin: nat)
      ensures members == {origin}
    {
      members := {origin};
    }
  }

  // ---------- The address map as a value, under any sequence of operations ----------

  /** The entries and the cached tables of nodes. */
  datatype MapState = MapState(entries: Graph, routes: map<nat, seq<Route>>)

  datatype Op =
    | MakeLeaf(size: int, bases: seq<int>)
    | MakeNode
    | AttachTo(m: nat, es: seq<nat>)
    | AskRoutes(n: nat)

  const NOTHING := MapState([], map[])

  ghost predicate ValidMap(s: MapState) {
    Closed(s.entries) && forall n :: n in s.routes ==> n < |s.entries| && s.entries[n].Node?
  }

  /** Only nodes are attached to and asked for tables, and only existing entries are attached. */
  ghost predicate CanDo(s: MapState, op: Op) {
    match op
    case MakeLeaf(_, _) => true
    case MakeNode => true
    case AttachTo(m, es) =>
      m < |s.entries| && s.entries[m].Node? && forall i :: 0 <= i < |es| ==> es[i] < |s.entries|
    case AskRoutes(n) => n < |s.entries| && s.entries[n].Node?
  }

  function Do(s: MapState, op: Op): (t: MapState)
    requires ValidMap(s) && CanDo(s, op)
    ensures ValidMap(t)
  {
    match op
    case MakeLeaf(size, bases) => s.(entries := s.entries + [Leaf(size, bases)])
    case MakeNode => s.(entries := s.entries + [Node([])])
    case AttachTo(m, es) => MapState(Attached(s.entries, m, es), s.routes - {m})
    case AskRoutes(n) =>
      if n in s.routes || GetRoutes(s.entries, n).Err? then s
      else s.(routes := s.routes[n := GetRoutes(s.entries, n).value])
  }

  /** The state after `ops`, if each of them can be done in its turn. */
  ghost function Run(ops: seq<Op>): (s: Option<MapState>)
    ensures s.Some? ==> ValidMap(s.value)
  {
    if ops == [] then Some(NOTHING)
    else
      var before := Run(ops[..|ops| - 1]);
      if before.Some? && CanDo(before.value, ops[|ops| - 1]) then Some(Do(before.value, ops[|ops| - 1])) else None
  }

  lemma {:induction false} RunPrefix(ops: seq<Op>, i: nat)
    requires i <= |ops| && Run(ops).Some?
    ensures Run(ops[..i]).Some?
    decreases |ops|
  {
    if i == |ops| {
      assert ops[..i] == ops;
    } else {
      assert ops[..|ops| - 1][..i] == ops[..i];
      RunPrefix(ops[..|ops| - 1], i);
    }
  }

  /** From operation `i` on, nothing is attached to a node that `n` led to when `i` was done. */
  ghost predicate LeftAlone(ops: seq<Op>, i: nat, n: nat)
    requires i <= |ops| && Run(ops[..i]).Some? && n < |Run(ops[..i]).value.entries|
  {
    forall j :: i <= j < |ops| && ops[j].AttachTo? ==> !Connected(Run(ops[..i]).value.entries, n, ops[j].m)
  }

  lemma SameBelowAfter(g: Graph, s: MapState, op: Op, n: nat)
    requires Closed(g) && n < |g| && SameBelow(g, s.entries, n) && ValidMap(s) && CanDo(s, op)
    requires op.AttachTo? ==> !Connected(g, n, op.m)
    ensures SameBelow(g, Do(s, op).entries, n)
  {
    hide Connected, GetRoutes;
  }

  /** What `n` leads to stays as it is while nothing is attached there. */
  lemma {:induction false} EntriesKept(ops: seq<Op>, i: nat, n: nat)
    requires i <= |ops| && Run(ops).Some? && Run(ops[..i]).Some? && n < |Run(ops[..i]).value.entries|
    requires LeftAlone(ops, i, n)
    ensures SameBelow(Run(ops[..i]).value.entries, Run(ops).value.entries, n)
    decreases |ops|
  {
    hide CanDo, Do, Connected;
    var g := Run(ops[..i]).value.entries;
    if i == |ops| {
      assert ops[..i] == ops;
      ConnectedInside(g, n);
    } else {
      var front, op := ops[..|ops| - 1], ops[|ops| - 1];
      assert front[..i] == ops[..i];
      assert forall j :: 0 <= j < |front| ==> front[j] == ops[j];
      EntriesKept(front, i, n);
      SameBelowAfter(g, Run(front).value, op, n);
    }
  }

  lemma ConnectedInside(g: Graph, n: nat)
    requires Closed(g) && n < |g|
    ensures SameBelow(g, g, n)
  {
    forall f: nat | Connected(g, n, f) ensures f < |g| {
      var w :| Walk(g, n, w, f);
      ConnectedBounded(g, n, w, f);
    }
  }

  /** The table of `n` was computed by operation `i` and has been cached since. */
  ghost predicate ComputedBy(ops: seq<Op>, i: nat, n: nat, table: seq<Route>) {
    && i < |ops| && ops[i] == AskRoutes(n)
    && (forall j :: i < j < |ops| ==> !(ops[j].AttachTo? && ops[j].m == n))
    && Run(ops[..i]).Some? && CanDo(Run(ops[..i]).value, AskRoutes(n))
    && GetRoutes(Run(ops[..i]).value.entries, n) == Ok(table)
  }

  lemma ComputedSnoc(ops: seq<Op>, i: nat, n: nat, table: seq<Route>)
    requires ops != [] && ComputedBy(ops[..|ops| - 1], i, n, table)
    requires ops[|ops| - 1].AttachTo? ==> ops[|ops| - 1].m != n
    ensures ComputedBy(ops, i, n, table)
  {
    hide Run, CanDo, GetRoutes;
    var front := ops[..|ops| - 1];
    assert front[..i] == ops[..i];
    forall j | i < j < |ops| ensures !(ops[j].AttachTo? && ops[j].m == n) {
      assert j < |front| ==> front[j] == ops[j];
    }
  }

  /** Every cached table was computed by some request since the last attachment to its node. */
  lemma {:induction false} CacheOrigin(ops: seq<Op>, n: nat) returns (i: nat)
    requires Run(ops).Some? && n in Run(ops).value.routes
    ensures ComputedBy(ops, i, n, Run(ops).value.routes[n])
    decreases |ops|
  {
    hide GetRoutes, Attached;
    var k := |ops| - 1;
    var s := Run(ops[..k]).value;
    if n in s.routes {
      i := CacheOrigin(ops[..k], n);
      hide ComputedBy;
      ComputedSnoc(ops, i, n, s.routes[n]);
    } else {
      i := k;
    }
  }

  /**
   Over any sequence of operations on a new address map, a cached table was computed by some
   request since the last attachment to its own node, and it is still the table of the current
   graph if since then nothing was attached to a node that its node led to at that time.
   */
  lemma CacheStaysFresh(ops: seq<Op>, n: nat) returns (i: nat)
    requires Run(ops).Some? && n in Run(ops).value.routes
    ensures ComputedBy(ops, i, n, Run(ops).value.routes[n])
    ensures LeftAlone(ops, i, n) ==>
              GetRoutes(Run(ops).value.entries, n) == Ok(Run(ops).value.routes[n])
  {
    hide Run, GetRoutes, LeftAlone;
    i := CacheOrigin(ops, n);
    if LeftAlone(ops, i, n) {
      EntriesKept(ops, i, n);
      TableDependsOnlyOnReachable(Run(ops[..i]).value.entries, Run(ops).value.entries, n);
    }
  }

  // ---------- The address map as an object ----------

  class AddrMap {
    var entries: seq<Entry>
    /** Cached tables of nodes. */
    var routes: map<nat, seq<Route>>

    ghost predicate Valid()
      reads this
    {
      ValidMap(Value())
    }

    ghost function Value(): MapState
      reads this
    {
      MapState(entries, routes)
    }

    /** The cached table of `n` is the one that would be computed now. */
    ghost predicate Fresh(n: nat)
      requires Valid()
      reads this
    {
      n in routes && GetRoutes(entries, n) == Ok(routes[n])
    }

    constructor ()
      ensures Valid() && Value() == NOTHING && entries == [] && routes == map[]
    {
      entries, routes := [], map[];
    }

    method NewLeaf(size: int, bases: seq<int>) returns (id: nat)
      requires Valid()
      modifies this
      ensures Valid() && id == |old(entries)| && Value() == Do(old(Value()), MakeLeaf(size, bases))
      ensures entries == old(entries) + [Leaf(size, bases)] && routes == old(routes)
      ensures forall n :: n in routes && old(Fresh(n)) ==> Fresh(n)
    {
      ghost var before := entries;
      id := |entries|;
      entries := entries + [Leaf(size, bases)];
      assert Closed(entries);
      forall n | n in routes && old(Fresh(n)) ensures Fresh(n) {
        NewEntryKeepsTable(before, Leaf(size, bases), n);
      }
    }

    method NewNode() returns (id: nat)
      requires Valid()
      modifies this
      ensures Valid() && id == |old(entries)| && Value() == Do(old(Value()), MakeNode)
      ensures entries == old(entries) + [Node([])] && routes == old(routes)
      ensures forall n :: n in routes && old(Fresh(n)) ==> Fresh(n)
    {
      ghost var before := entries;
      id := |entries|;
      entries := entries + [Node([])];
      assert Closed(entries);
      forall n | n in routes && old(Fresh(n)) ensures Fresh(n) {
        NewEntryKeepsTable(before, Node([]), n);
      }
    }

    /** Attach entries to a node; only that node's own cached table is dropped. */
    method Attach(m: nat, es: seq<nat>)
      requires Valid() && CanDo(Value(), AttachTo(m, es))
      modifies this
      ensures Valid() && Value() == Do(old(Value()), AttachTo(m, es))
      ensures entries == old(entries)[m := Node(old(entries)[m].entries + es)] && routes == old(routes) - {m}
      ensures forall n :: n in routes && old(Fresh(n)) && !old(Connected(entries, n, m)) ==> Fresh(n)
    {
      ghost var before := entries;
      assert es[..0] == [] && before[m].entries + [] == before[m].entries;
      for i := 0 to |es|
        invariant entries == Attached(before, m, es[..i])
        invariant routes == old(routes)
      {
        entries := entries[m := Node(entries[m].entries + [es[i]])];
        assert es[..i + 1] == es[..i] + [es[i]];
        assert before[m].entries + es[..i] + [es[i]] == before[m].entries + es[..i + 1];
      }
      assert es[..|es|] == es;
      routes := routes - {m};
      assert Closed(entries);
      forall n | n in routes && old(Fresh(n)) && !old(Connected(entries, n, m)) ensures Fresh(n) {
        UnreachedAttachKeepsTable(before, m, es, n);
      }
    }

    /** The recursive search, with `seen` updated on the way in and restored on the way out. */
    method GetRangesInner(e: nat, seen: SeenSet) returns (r: seq<Route>)
      requires Valid() && e < |entries|
      modifies seen
      ensures seen.members == old(seen.members)
      ensures r == Ranges(entries, e, old(seen.members))
      decreases Unseen(entries, seen.members)
    {
      match entries[e]
      case Leaf(size, bases) =>
        r := LeafRanges(e, size, bases);
      case Node(children) =>
        if e in seen.members {
          return [];
        }
        ghost var before := seen.members;
        UnseenShrinks(entries, before, e);
        r := [];
        seen.members := seen.members + {e};
        for i := 0 to |children|
          invariant seen.members == before + {e}
          invariant r == RangesOfAll(entries, children[..i], before + {e})
        {
          var found := GetRangesInner(children[i], seen);
          r := r + IncDepths(found);
          assert children[..i + 1][..i] == children[..i];
        }
        assert children[..|children|] == children;
        seen.members := seen.members - {e};
        assert seen.members == before;
    }

    /** The table of a node: the cached one if there is one, else computed and cached. */
    method GetRoutesOf(n: nat) returns (res: Result<seq<Route>, RouteError>)
      requires Valid() && n < |entries| && entries[n].Node?
      modifies this`routes
      ensures Valid()
      ensures res == if n in old(routes) then Ok(old(routes)[n]) else GetRoutes(entries, n)
      ensures Value() == Do(old(Value()), AskRoutes(n))
      ensures routes == if res.Ok? then old(routes)[n := res.value] else old(routes)
    {
      if n in routes {
        assert routes == routes[n := routes[n]];
        return Ok(routes[n]);
      }
      var rs := CollectRoutes(n);
      if rs == [] {
        return Err(NoRoutes);
      }
      rs := StableSort(rs);
      var collapsed := CollapseRoutes(rs);
      if collapsed.Err? {
        return Err(collapsed.error);
      }
      var table := CompressRoutes(collapsed.value);
      routes := routes[n := table];
      res := Ok(table);
    }

    method CollectRoutes(n: nat) returns (rs: seq<Route>)
      requires Valid() && n < |entries| && entries[n].Node?
      ensures rs == NodeRoutes(entries, n)
    {
      var ports := entries[n].entries;
      rs := [];
      for i := 0 to |ports|
        invariant rs == RoutesVia(entries, n, ports[..i])
      {
        var seen := new SeenSet(n);
        var found := GetRangesInner(ports[i], seen);
        rs := rs + WithPorts(found, ports[i]);
        assert ports[..i + 1][..i] == ports[..i];
      }
      assert ports[..|ports|] == ports;
    }
  }

  /** The simplification loop; a collision ends it at once. */
  method CollapseRoutes(rs: seq<Route>) returns (res: Result<seq<Route>, RouteError>)
    requires rs != []
    ensures res == Collapse(rs)
  {
    var done := [rs[0]];
    assert rs[..1] == [rs[0]];
    for i := 1 to |rs|
      invariant done != [] && Collapse(rs[..i]) == Ok(done)
    {
      var route, last := rs[i], done[|done| - 1];
      assert rs[..i + 1][..i] == rs[..i];
      assert Collapse(rs[..i + 1]) == CollapseStep(done, route);
      if last.SameKey(route) {
        if last.depth > route.depth {
          done := done[|done| - 1 := route];
        }
        continue;
      }
      if last.Overlaps(route) {
        CollapseErrPersists(rs, i + 1);
        return Err(Collision(last, route));
      }
      done := done + [route];
    }
    assert rs[..|rs|] == rs;
    res := Ok(done);
  }

  /** A collision found in a prefix is the outcome for the whole list. */
  lemma {:induction false} CollapseErrPersists(rs: seq<Route>, k: nat)
    requires 0 < k <= |rs| && Collapse(rs[..k]).Err?
    ensures Collapse(rs) == Collapse(rs[..k])
    decreases |rs| - k
  {
    if k == |rs| {
      assert rs[..k] == rs;
    } else {
      assert rs[..k + 1][..k] == rs[..k];
      CollapseErrPersists(rs, k + 1);
    }
  }

  method CompressRoutes(done: seq<Route>) returns (table: seq<Route>)
    requires done != []
    ensures table == Compress(done)
  {
    table := [done[0]];
    assert done[..1] == [done[0]];
    for i := 1 to |done|
      invariant table != [] && table == Compress(done[..i])
    {
      var route, last := done[i], table[|table| - 1];
      assert done[..i + 1][..i] == done[..i];
      if last.port == route.port {
        table := table[|table| - 1 := last.UnifiedWith(route)];
        continue;
      }
      table := table + [route];
    }
    assert done[..|done|] == done;
  }
}

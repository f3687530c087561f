/**
 From the routes of a node to its table: stable sort on the lower address, collapse of
 redundant routes with the collision check, and compression of neighbours that share a port.
 */
module AddrMapTable {
  import opened Common
  import opened AddrMapGraph

  /** Raised for overlapping routes; an empty route list fails when its first element is read. */
  datatype RouteError = NoRoutes | Collision(first: Route, second: Route)

  // ---------- Stable sort on `lo` ----------

  ghost predicate SortedByLo(rs: seq<Route>) {
    forall i, j :: 0 <= i < j < |rs| ==> rs[i].lo <= rs[j].lo
  }

  /** Puts `r` after every route whose `lo` is not larger. */
  function Insert(rs: seq<Route>, r: Route): (res: seq<Route>)
    ensures |res| == |rs| + 1
  {
    if rs == [] || rs[|rs| - 1].lo <= r.lo then rs + [r]
    else Insert(rs[..|rs| - 1], r) + [rs[|rs| - 1]]
  }

  function StableSort(rs: seq<Route>): (res: seq<Route>)
    ensures |res| == |rs|
  {
    if rs == [] then [] else Insert(StableSort(rs[..|rs| - 1]), rs[|rs| - 1])
  }

  /** The routes with lower address `lo`, in order. */
  ghost function WithLo(rs: seq<Route>, lo: int): seq<Route> {
    if rs == [] then []
    else WithLo(rs[..|rs| - 1], lo) + if rs[|rs| - 1].lo == lo then [rs[|rs| - 1]] else []
  }

  lemma {:induction false} InsertSorts(rs: seq<Route>, r: Route)
    requires SortedByLo(rs)
    ensures SortedByLo(Insert(rs, r))
    ensures multiset(Insert(rs, r)) == multiset(rs) + multiset{r}
  {
    if rs != [] && rs[|rs| - 1].lo > r.lo {
      var front, back := rs[..|rs| - 1], rs[|rs| - 1];
      InsertSorts(front, r);
      assert rs == front + [back];
      var ins := Insert(front, r);
      assert Insert(rs, r) == ins + [back];
      hide Insert;
      forall i | 0 <= i < |ins| ensures ins[i].lo <= back.lo {
        assert ins[i] in multiset(ins);
        assert ins[i] == r || ins[i] in front;
      }
    }
  }

  lemma WithLoSnoc(rs: seq<Route>, r: Route, lo: int)
    ensures WithLo(rs + [r], lo) == WithLo(rs, lo) + if r.lo == lo then [r] else []
  {
    assert (rs + [r])[..|rs|] == rs;
  }

  lemma {:induction false} InsertStable(rs: seq<Route>, r: Route, lo: int)
    requires SortedByLo(rs)
    ensures WithLo(Insert(rs, r), lo) == WithLo(rs, lo) + if r.lo == lo then [r] else []
  {
    WithLoSnoc(rs, r, lo);
    if rs != [] && rs[|rs| - 1].lo > r.lo {
      var front, back := rs[..|rs| - 1], rs[|rs| - 1];
      InsertStable(front, r, lo);
      WithLoSnoc(Insert(front, r), back, lo);
    }
  }

  /** Sorted, a permutation, and stable: equal lower addresses keep their order. */
  lemma {:induction false} StableSortCorrect(rs: seq<Route>, lo: int)
    ensures SortedByLo(StableSort(rs))
    ensures multiset(StableSort(rs)) == multiset(rs)
    ensures WithLo(StableSort(rs), lo) == WithLo(rs, lo)
  {
    hide *;
    StableSortUnfolds(rs);
    if rs != [] {
      var front, back := rs[..|rs| - 1], rs[|rs| - 1];
      assert rs == front + [back];
      StableSortCorrect(front, lo);
      InsertCorrect(StableSort(front), front, back, lo);
    }
  }

  lemma StableSortUnfolds(rs: seq<Route>)
    ensures if rs == [] then StableSort(rs) == rs && SortedByLo(rs)
            else StableSort(rs) == Insert(StableSort(rs[..|rs| - 1]), rs[|rs| - 1])
  {
  }

  lemma InsertCorrect(sorted: seq<Route>, front: seq<Route>, back: Route, lo: int)
    requires SortedByLo(sorted) && multiset(sorted) == multiset(front) && WithLo(sorted, lo) == WithLo(front, lo)
    ensures SortedByLo(Insert(sorted, back))
    ensures multiset(Insert(sorted, back)) == multiset(front + [back])
    ensures WithLo(Insert(sorted, back), lo) == WithLo(front + [back], lo)
  {
    hide SortedByLo, WithLo, Insert;
    InsertSorts(sorted, back);
    InsertStable(sorted, back, lo);
    WithLoSnoc(front, back, lo);
  }

  // ---------- Collapse ----------

  /** One round of the simplification loop on the routes kept so far. */
  function CollapseStep(done: seq<Route>, route: Route): Result<seq<Route>, RouteError>
    requires done != []
  {
    var last := done[|done| - 1];
    if last.SameKey(route) then
      Ok(if last.depth > route.depth then done[|done| - 1 := route] else done)
    else if last.Overlaps(route) then
      Err(Collision(last, route))
    else
      Ok(done + [route])
  }

  function Collapse(rs: seq<Route>): (res: Result<seq<Route>, RouteError>)
    requires rs != []
    ensures res.Ok? ==> res.value != []
  {
    if |rs| == 1 then Ok(rs)
    else
      match Collapse(rs[..|rs| - 1])
      case Err(e) => Err(e)
      case Ok(done) => CollapseStep(done, rs[|rs| - 1])
  }

  ghost predicate NonEmptyRanges(rs: seq<Route>) {
    forall i :: 0 <= i < |rs| ==> rs[i].lo < rs[i].hi
  }

  /** Each route ends before the next one starts. */
  ghost predicate Ordered(rs: seq<Route>) {
    forall i, j :: 0 <= i < j < |rs| ==> rs[i].hi <= rs[j].lo
  }

  /** Two routes that overlap without being redundant. */
  ghost predicate Conflicting(a: Route, b: Route) {
    !a.SameKey(b) && a.Overlaps(b)
  }

  ghost predicate HasConflict(rs: seq<Route>) {
    exists i, j :: 0 <= i < |rs| && 0 <= j < |rs| && Conflicting(rs[i], rs[j])
  }

  /** `done` has a route with the key of `r` that is no deeper. */
  ghost predicate Kept(done: seq<Route>, r: Route) {
    exists i :: 0 <= i < |done| && done[i].SameKey(r) && done[i].depth <= r.depth
  }

  /** `done` holds routes of `rs` only and, for each key in `rs`, one of least depth. */
  ghost predicate KeepsShortest(rs: seq<Route>, done: seq<Route>) {
    && (forall i :: 0 <= i < |done| ==> done[i] in rs)
    && (forall i :: 0 <= i < |rs| ==> Kept(done, rs[i]))
  }

  lemma KeptAfterStep(done: seq<Route>, r: Route, done': seq<Route>, x: Route)
    requires done != [] && CollapseStep(done, r) == Ok(done')
    requires Kept(done, x) || x == r
    ensures Kept(done', x)
  {
    if Kept(done, x) {
      var i :| 0 <= i < |done| && done[i].SameKey(x) && done[i].depth <= x.depth;
      assert done'[i].SameKey(x) && done'[i].depth <= x.depth;
    } else {
      assert done'[|done'| - 1].SameKey(x) && done'[|done'| - 1].depth <= x.depth;
    }
  }

  lemma ShortestAfterStep(rs: seq<Route>, done: seq<Route>, r: Route, done': seq<Route>)
    requires done != [] && KeepsShortest(rs, done) && CollapseStep(done, r) == Ok(done')
    ensures KeepsShortest(rs + [r], done')
  {
    forall i | 0 <= i < |done'| ensures done'[i] in rs + [r] {
      assert done'[i] == r || (i < |done| && done'[i] == done[i]);
    }
    forall i | 0 <= i < |rs + [r]| ensures Kept(done', (rs + [r])[i]) {
      KeptAfterStep(done, r, done', (rs + [r])[i]);
    }
  }

  lemma OrderedAfterStep(done: seq<Route>, r: Route, done': seq<Route>)
    requires done != [] && Ordered(done) && NonEmptyRanges(done) && r.lo < r.hi
    requires done[|done| - 1].lo <= r.lo && CollapseStep(done, r) == Ok(done')
    ensures Ordered(done') && NonEmptyRanges(done') && done'[|done'| - 1].lo == r.lo
  {
    var m := |done| - 1;
    forall i, j | 0 <= i < j < |done'| ensures done'[i].hi <= done'[j].lo {
      assert i < m ==> done[i].hi <= done[m].lo;
    }
  }

  /** What every outcome of the loop means, whatever the ranges: a kept list or a real collision. */
  ghost predicate Sound(rs: seq<Route>, res: Result<seq<Route>, RouteError>) {
    match res
    case Ok(done) => done != [] && KeepsShortest(rs, done)
    case Err(e) => e.Collision? && e.first in rs && e.second in rs && Conflicting(e.first, e.second)
  }

  lemma SoundAfterStep(rs: seq<Route>, done: seq<Route>, r: Route)
    requires Sound(rs, Ok(done))
    ensures Sound(rs + [r], CollapseStep(done, r))
  {
    var step := CollapseStep(done, r);
    if step.Ok? {
      ShortestAfterStep(rs, done, r, step.value);
    } else {
      assert done[|done| - 1] in rs;
    }
  }

  lemma SoundOfOne(r: Route)
    ensures Sound([r], Ok([r]))
  {
    assert [r][0].SameKey(r);
  }

  lemma SoundErr(rs: seq<Route>, e: RouteError, r: Route)
    requires Sound(rs, Err(e))
    ensures Sound(rs + [r], Err(e))
  {
  }

  /**
   Soundness of the loop on any list: the kept routes are among the given ones with one of least
   depth for each key, and a collision that is raised is one between two of the given routes.
   */
  lemma {:induction false} CollapseSound(rs: seq<Route>)
    requires rs != []
    ensures Sound(rs, Collapse(rs))
  {
    if |rs| == 1 {
      SoundOfOne(rs[0]);
      assert rs == [rs[0]];
    } else {
      hide Sound, CollapseStep, Route.SameKey, Route.Overlaps;
      var front, r := rs[..|rs| - 1], rs[|rs| - 1];
      CollapseSound(front);
      assert rs == front + [r];
      if Collapse(front).Ok? {
        SoundAfterStep(front, Collapse(front).value, r);
      } else {
        SoundErr(front, Collapse(front).error, r);
      }
    }
  }

  lemma CollisionIsReal(rs: seq<Route>)
    requires rs != [] && Collapse(rs).Err?
    ensures HasConflict(rs)
  {
    CollapseSound(rs);
    var e := Collapse(rs).error;
    var i :| 0 <= i < |rs| && rs[i] == e.first;
    var j :| 0 <= j < |rs| && rs[j] == e.second;
    assert Conflicting(rs[i], rs[j]);
  }

  lemma FrontNonEmpty(rs: seq<Route>)
    requires NonEmptyRanges(rs) && |rs| > 1
    ensures NonEmptyRanges(rs[..|rs| - 1]) && rs[|rs| - 1].lo < rs[|rs| - 1].hi
  {
  }

  /** On sorted, non-empty ranges the kept list is ordered. */
  lemma {:induction false} CollapseOrdered(rs: seq<Route>)
    requires rs != [] && SortedByLo(rs) && NonEmptyRanges(rs) && Collapse(rs).Ok?
    ensures var done := Collapse(rs).value;
            Ordered(done) && NonEmptyRanges(done) && done[|done| - 1].lo == rs[|rs| - 1].lo
  {
    if |rs| > 1 {
      hide CollapseStep, Ordered, NonEmptyRanges, Route.SameKey, Route.Overlaps;
      var front, r := rs[..|rs| - 1], rs[|rs| - 1];
      assert SortedByLo(front) && front[|front| - 1].lo <= r.lo;
      hide SortedByLo;
      FrontNonEmpty(rs);
      CollapseOrdered(front);
      OrderedAfterStep(Collapse(front).value, r, Collapse(rs).value);
    }
  }

  lemma NoConflictIfOrdered(rs: seq<Route>, done: seq<Route>)
    requires KeepsShortest(rs, done) && Ordered(done)
    ensures !HasConflict(rs)
  {
    forall i, j | 0 <= i < |rs| && 0 <= j < |rs| ensures !Conflicting(rs[i], rs[j]) {
      assert Kept(done, rs[i]) && Kept(done, rs[j]);
      var c :| 0 <= c < |done| && done[c].SameKey(rs[i]) && done[c].depth <= rs[i].depth;
      var d :| 0 <= d < |done| && done[d].SameKey(rs[j]) && done[d].depth <= rs[j].depth;
      assert c < d ==> done[c].hi <= done[d].lo;
      assert d < c ==> done[d].hi <= done[c].lo;
    }
  }

  /**
   The collision check is exact: comparing neighbours only, it raises if and only if some two
   routes with different (lo, hi, target) overlap.  Otherwise the collapsed list is ordered,
   hence pairwise disjoint, and keeps a route of least depth for each key.
   */
  lemma CollisionCheckExact(rs: seq<Route>)
    requires rs != [] && SortedByLo(rs) && NonEmptyRanges(rs)
    ensures Collapse(rs).Err? <==> HasConflict(rs)
    ensures Collapse(rs).Ok? ==> KeepsShortest(rs, Collapse(rs).value) && Ordered(Collapse(rs).value)
  {
    CollapseSound(rs);
    if Collapse(rs).Ok? {
      CollapseOrdered(rs);
      NoConflictIfOrdered(rs, Collapse(rs).value);
    } else {
      CollisionIsReal(rs);
    }
  }

  // ---------- Which route is kept ----------

  /** `rs[k]` is the first of the least deep routes with its key. */
  ghost predicate FirstLeast(rs: seq<Route>, k: nat) {
    && k < |rs|
    && forall j :: 0 <= j < |rs| && rs[j].SameKey(rs[k]) ==>
         rs[k].depth <= rs[j].depth && (j < k ==> rs[k].depth < rs[j].depth)
  }

  /** The first of the least deep routes with the key of `key`. */
  ghost function Best(rs: seq<Route>, key: Route): (r: Option<Route>)
    ensures r.Some? ==> r.value.SameKey(key)
  {
    if rs == [] then None
    else
      var b, x := Best(rs[..|rs| - 1], key), rs[|rs| - 1];
      if !x.SameKey(key) || (b.Some? && b.value.depth <= x.depth) then b else Some(x)
  }

  /** The better of two, the first one if they are equally deep. */
  ghost function Better(a: Option<Route>, b: Option<Route>): Option<Route> {
    if a.None? || (b.Some? && b.value.depth < a.value.depth) then b else a
  }

  lemma BestSnoc(rs: seq<Route>, x: Route, key: Route)
    ensures Best(rs + [x], key) == Better(Best(rs, key), if x.SameKey(key) then Some(x) else None)
  {
    assert (rs + [x])[..|rs|] == rs;
  }

  lemma {:induction false} BestConcat(a: seq<Route>, b: seq<Route>, key: Route)
    ensures Best(a + b, key) == Better(Best(a, key), Best(b, key))
    decreases |b|
  {
    if b == [] {
      assert a + b == a;
    } else {
      hide Best;
      var front, x := b[..|b| - 1], b[|b| - 1];
      BestConcat(a, front, key);
      BestSnoc(a + front, x, key);
      BestSnoc(front, x, key);
      assert (a + front) + [x] == a + b && front + [x] == b;
    }
  }

  /** `Best` finds the first least one, if there is any. */
  lemma {:induction false} BestIsFirstLeast(rs: seq<Route>, key: Route) returns (k: nat)
    ensures match Best(rs, key)
            case None => forall j :: 0 <= j < |rs| ==> !rs[j].SameKey(key)
            case Some(r) => k < |rs| && rs[k] == r && FirstLeast(rs, k)
  {
    k := 0;
    if rs != [] {
      var front, x := rs[..|rs| - 1], rs[|rs| - 1];
      k := BestIsFirstLeast(front, key);
      assert forall j :: 0 <= j < |front| ==> rs[j] == front[j];
      if Best(rs, key).Some? && Best(rs, key) != Best(front, key) {
        k := |rs| - 1;
        if Best(front, key).Some? {
          FirstLeastBound(front, Best(front, key).value, x);
        }
      }
    }
  }

  lemma FirstLeastBound(rs: seq<Route>, b: Route, x: Route)
    requires exists k: nat :: k < |rs| && rs[k] == b && FirstLeast(rs, k)
    requires b.SameKey(x) && x.depth < b.depth
    ensures forall j :: 0 <= j < |rs| && rs[j].SameKey(x) ==> x.depth < rs[j].depth
  {
  }

  /** Only the routes with the key's lower address matter. */
  lemma {:induction false} BestWithLo(rs: seq<Route>, key: Route)
    ensures Best(WithLo(rs, key.lo), key) == Best(rs, key)
  {
    if rs != [] {
      hide Best, WithLo;
      var front, x := rs[..|rs| - 1], rs[|rs| - 1];
      assert rs == front + [x];
      BestWithLo(front, key);
      WithLoSnoc(front, x, key.lo);
      BestSnoc(front, x, key);
      if x.lo == key.lo {
        BestSnoc(WithLo(front, key.lo), x, key);
      } else {
        assert WithLo(front, key.lo) + [] == WithLo(front, key.lo);
      }
    } else {
      assert WithLo(rs, key.lo) == rs;
    }
  }

  /** Every kept route is the best one for its key. */
  ghost predicate KeepsBest(rs: seq<Route>, done: seq<Route>) {
    forall i :: 0 <= i < |done| ==> Best(rs, done[i]) == Some(done[i])
  }

  lemma NotKeptBefore(rs: seq<Route>, done: seq<Route>, r: Route)
    requires done != [] && KeepsShortest(rs, done) && Ordered(done) && NonEmptyRanges(done)
    requires done[|done| - 1].lo <= r.lo && !done[|done| - 1].SameKey(r)
    ensures forall j :: 0 <= j < |rs| ==> !rs[j].SameKey(r)
  {
    forall c | 0 <= c < |done| ensures !done[c].SameKey(r) {
      assert c < |done| - 1 ==> done[c].hi <= done[|done| - 1].lo;
    }
    hide Ordered, NonEmptyRanges;
    forall j | 0 <= j < |rs| ensures !rs[j].SameKey(r) {
      assert Kept(done, rs[j]);
      var c :| 0 <= c < |done| && done[c].SameKey(rs[j]) && done[c].depth <= rs[j].depth;
    }
  }

  lemma KeepsBestAfterStep(rs: seq<Route>, done: seq<Route>, r: Route, done': seq<Route>)
    requires done != [] && KeepsShortest(rs, done) && Ordered(done) && NonEmptyRanges(done) && KeepsBest(rs, done)
    requires done[|done| - 1].lo <= r.lo && CollapseStep(done, r) == Ok(done')
    ensures KeepsBest(rs + [r], done')
  {
    hide Best, KeepsShortest;
    var m := |done| - 1;
    forall i | 0 <= i < |done'| ensures Best(rs + [r], done'[i]) == Some(done'[i]) {
      BestSnoc(rs, r, done'[i]);
      if i < m {
        assert done[i].hi <= done[m].lo;
      } else if i == m {
        SameKeySameBest(rs, done[m], done'[m]);
      } else {
        NotKeptBefore(rs, done, r);
        var k := BestIsFirstLeast(rs, r);
      }
    }
  }

  lemma {:induction false} SameKeySameBest(rs: seq<Route>, a: Route, b: Route)
    ensures a.SameKey(b) ==> Best(rs, a) == Best(rs, b)
  {
    if rs != [] { SameKeySameBest(rs[..|rs| - 1], a, b); }
  }

  lemma {:induction false} CollapseKeepsBest(rs: seq<Route>)
    requires rs != [] && SortedByLo(rs) && NonEmptyRanges(rs) && Collapse(rs).Ok?
    ensures KeepsBest(rs, Collapse(rs).value)
  {
    hide *;
    if |rs| == 1 {
      OneKeepsBest(rs);
    } else {
      var front := rs[..|rs| - 1];
      FrontSorted(rs);
      FrontNonEmpty(rs);
      CollapseUnfolds(rs);
      CollapseKeepsBest(front);
      CollapseOrdered(front);
      CollapseSound(front);
      SoundKeeps(front, Collapse(front).value);
      assert rs == front + [rs[|rs| - 1]];
      KeepsBestAfterStep(front, Collapse(front).value, rs[|rs| - 1], Collapse(rs).value);
    }
  }

  lemma OneKeepsBest(rs: seq<Route>)
    requires |rs| == 1
    ensures Collapse(rs).Ok? && KeepsBest(rs, Collapse(rs).value)
  {
    BestSnoc([], rs[0], rs[0]);
    assert [] + [rs[0]] == rs;
  }

  lemma FrontSorted(rs: seq<Route>)
    requires SortedByLo(rs) && |rs| > 1
    ensures SortedByLo(rs[..|rs| - 1]) && rs[|rs| - 2].lo <= rs[|rs| - 1].lo
  {
  }

  lemma CollapseUnfolds(rs: seq<Route>)
    requires |rs| > 1 && Collapse(rs).Ok?
    ensures var front := rs[..|rs| - 1];
            Collapse(front).Ok? && Collapse(rs) == CollapseStep(Collapse(front).value, rs[|rs| - 1])
  {
  }

  lemma SoundKeeps(rs: seq<Route>, done: seq<Route>)
    requires Sound(rs, Ok(done))
    ensures done != [] && KeepsShortest(rs, done)
  {
  }

  /** Of redundant routes the collapse keeps the first of the least deep ones. */
  lemma CollapseKeepsFirst(rs: seq<Route>, i: nat) returns (k: nat)
    requires rs != [] && SortedByLo(rs) && NonEmptyRanges(rs) && Collapse(rs).Ok? && i < |Collapse(rs).value|
    ensures k < |rs| && Collapse(rs).value[i] == rs[k] && FirstLeast(rs, k)
  {
    CollapseKeepsBest(rs);
    k := BestIsFirstLeast(rs, Collapse(rs).value[i]);
  }

  // ---------- When the check can be relied on ----------

  /** `rs[k]` is the first route that conflicts with an earlier one. */
  ghost predicate FirstConflict(rs: seq<Route>, k: nat) {
    k < |rs| && !HasConflict(rs[..k]) && HasConflict(rs[..k + 1])
  }

  /** The collision that is reported is that of the first route in the list that conflicts with an earlier one. */
  lemma {:induction false} FirstCollisionReported(rs: seq<Route>) returns (k: nat)
    requires rs != [] && SortedByLo(rs) && NonEmptyRanges(rs) && Collapse(rs).Err?
    ensures FirstConflict(rs, k) && Collapse(rs).error.Collision?
    ensures Collapse(rs).error.first in rs[..k] && Collapse(rs).error.second == rs[k]
    ensures Conflicting(Collapse(rs).error.first, rs[k])
  {
    assert |rs| > 1;
    hide *;
    k := |rs| - 1;
    var front := rs[..k];
    FrontSorted(rs);
    FrontNonEmpty(rs);
    if Collapse(front).Err? {
      ErrUnfolds(rs);
      k := FirstCollisionReported(front);
      FirstConflictOfFront(rs, k);
      assert front[..k] == rs[..k] && front[k] == rs[k];
    } else {
      CollisionCheckExact(front);
      CollisionCheckExact(rs);
      LastCollides(rs);
    }
  }

  lemma ErrUnfolds(rs: seq<Route>)
    requires |rs| > 1 && Collapse(rs[..|rs| - 1]).Err?
    ensures Collapse(rs) == Collapse(rs[..|rs| - 1])
  {
  }

  lemma FirstConflictOfFront(rs: seq<Route>, k: nat)
    requires rs != [] && FirstConflict(rs[..|rs| - 1], k)
    ensures FirstConflict(rs, k)
  {
    hide HasConflict;
    var front := rs[..|rs| - 1];
    assert front[..k] == rs[..k] && front[..k + 1] == rs[..k + 1];
  }

  lemma LastCollides(rs: seq<Route>)
    requires |rs| > 1 && Collapse(rs[..|rs| - 1]).Ok? && Collapse(rs).Err?
    requires !HasConflict(rs[..|rs| - 1]) && HasConflict(rs)
    ensures FirstConflict(rs, |rs| - 1) && Collapse(rs).error.Collision?
    ensures Collapse(rs).error.first in rs[..|rs| - 1] && Collapse(rs).error.second == rs[|rs| - 1]
    ensures Conflicting(Collapse(rs).error.first, rs[|rs| - 1])
  {
    hide HasConflict, KeepsShortest;
    var front := rs[..|rs| - 1];
    CollapseSound(front);
    KeptLast(front, Collapse(front).value);
    assert rs[..|rs| - 1 + 1] == rs;
  }

  lemma KeptLast(rs: seq<Route>, done: seq<Route>)
    requires Sound(rs, Ok(done))
    ensures done[|done| - 1] in rs
  {
  }

  /** Every range is non-empty or has width `s`. */
  ghost predicate WidthsPositiveOr(rs: seq<Route>, s: int) {
    forall i :: 0 <= i < |rs| ==> rs[i].lo < rs[i].hi || rs[i].hi - rs[i].lo == s
  }

  /** The check raises on `rs` exactly if two of its routes conflict. */
  ghost predicate CheckedExactly(rs: seq<Route>) {
    rs != [] && SortedByLo(rs) ==> (Collapse(rs).Err? <==> HasConflict(rs))
  }

  /** A range of width `s <= 0` between two ranges hides their overlap from the check. */
  lemma EmptyRangeHidesCollision(s: int, a: Route, b: Route, c: Route)
    requires s <= 0 && a.lo == b.lo == 0 && a.hi == 10 && b.hi == s && c.lo == 5 && c.hi == 7
    ensures SortedByLo([a, b, c]) && HasConflict([a, b, c]) && Collapse([a, b, c]) == Ok([a, b, c])
  {
    var rs := [a, b, c];
    assert rs[..2] == [a, b] && [a, b][..1] == [a];
    assert Collapse([a]) == Ok([a]);
    assert CollapseStep([a], b) == Ok([a] + [b]) && [a] + [b] == [a, b];
    assert CollapseStep([a, b], c) == Ok([a, b] + [c]) && [a, b] + [c] == rs;
    assert Conflicting(rs[0], rs[2]);
  }

  /** The widths on which the check can be relied on are exactly the positive ones. */
  lemma CheckExactIffPositive(s: int)
    ensures s > 0 <==> forall rs :: WidthsPositiveOr(rs, s) ==> CheckedExactly(rs)
  {
    if s > 0 {
      forall rs | WidthsPositiveOr(rs, s) && rs != [] && SortedByLo(rs) ensures CheckedExactly(rs) {
        CollisionCheckExact(rs);
      }
    } else {
      var a, b, c := Route(0, 10, None, One(1), 0), Route(0, s, None, One(2), 0), Route(5, 7, None, One(3), 0);
      EmptyRangeHidesCollision(s, a, b, c);
      assert WidthsPositiveOr([a, b, c], s);
    }
  }

  // ---------- Compress ----------

  function CompressStep(table: seq<Route>, route: Route): seq<Route>
    requires table != []
  {
    var last := table[|table| - 1];
    if last.port == route.port then table[|table| - 1 := last.UnifiedWith(route)] else table + [route]
  }

  function Compress(done: seq<Route>): (table: seq<Route>)
    requires done != []
    ensures table != []
  {
    if |done| == 1 then done
    else CompressStep(Compress(done[..|done| - 1]), done[|done| - 1])
  }

  /** The port an address is sent to: that of the first entry that covers it. */
  function Lookup(table: seq<Route>, addr: int): Option<nat> {
    if table == [] then None
    else if table[0].Covers(addr) then table[0].port
    else Lookup(table[1..], addr)
  }

  ghost function Targets(rs: seq<Route>): seq<nat> {
    if rs == [] then [] else Targets(rs[..|rs| - 1]) + rs[|rs| - 1].target.AsList()
  }

  /** Entry `t` spans the routes `done[a..b]`, which all use its port. */
  ghost predicate Spans(t: Route, done: seq<Route>, a: nat, b: nat) {
    && a < b <= |done|
    && t.lo == done[a].lo && t.hi == done[b - 1].hi
    && t.target.AsList() == Targets(done[a..b])
    && (if b == a + 1 then t == done[a] else t.depth == 0)
    && forall i :: a <= i < b ==> done[i].port == t.port
  }

  /** `cuts` splits `done` into the runs that the table entries stand for. */
  ghost predicate IsGrouping(done: seq<Route>, table: seq<Route>, cuts: seq<nat>) {
    && |cuts| == |table| + 1
    && cuts[0] == 0 && cuts[|table|] == |done|
    && (forall k :: 0 <= k < |table| ==> Spans(table[k], done, cuts[k], cuts[k + 1]))
    && (forall k :: 0 <= k < |table| - 1 ==> table[k].port != table[k + 1].port)
  }

  lemma SpansPrefix(t: Route, done: seq<Route>, a: nat, b: nat, r: Route)
    requires Spans(t, done, a, b)
    ensures Spans(t, done + [r], a, b)
  {
    assert (done + [r])[a..b] == done[a..b];
  }

  lemma TargetsSnoc(rs: seq<Route>, r: Route)
    ensures Targets(rs + [r]) == Targets(rs) + r.target.AsList()
  {
    assert (rs + [r])[..|rs|] == rs;
  }

  lemma CompressStepTargets(t: seq<Route>, r: Route)
    requires t != []
    ensures Targets(CompressStep(t, r)) == Targets(t) + r.target.AsList()
  {
    hide Targets;
    var k := |t| - 1;
    TargetsSnoc(t[..k], t[k]);
    assert t == t[..k] + [t[k]];
    if t[k].port == r.port {
      assert CompressStep(t, r) == t[..k] + [t[k].UnifiedWith(r)];
      TargetsSnoc(t[..k], t[k].UnifiedWith(r));
    } else {
      TargetsSnoc(t, r);
    }
  }

  /** Unifying routes keeps the list of targets: none is lost, added or reordered. */
  lemma {:induction false} CompressKeepsTargets(done: seq<Route>)
    requires done != []
    ensures Targets(Compress(done)) == Targets(done)
  {
    if |done| > 1 {
      CompressKeepsTargets(done[..|done| - 1]);
      CompressStepTargets(Compress(done[..|done| - 1]), done[|done| - 1]);
    }
  }

  lemma {:induction false} TargetsMember(rs: seq<Route>, l: nat)
    requires forall i :: 0 <= i < |rs| ==> rs[i].target.One?
    ensures l in Targets(rs) <==> exists i :: 0 <= i < |rs| && rs[i].target == One(l)
  {
    if rs != [] {
      var front := rs[..|rs| - 1];
      TargetsMember(front, l);
      assert forall i :: 0 <= i < |front| ==> front[i] == rs[i];
    }
  }

  lemma SpansExtended(t: Route, done: seq<Route>, a: nat, r: Route)
    requires Ordered(done + [r]) && NonEmptyRanges(done + [r]) && Spans(t, done, a, |done|) && t.port == r.port
    ensures Spans(t.UnifiedWith(r), done + [r], a, |done| + 1)
  {
    var all := done + [r];
    assert all[a..|done| + 1] == done[a..|done|] + [r];
    TargetsSnoc(done[a..|done|], r);
    assert all[a].hi <= all[|done|].lo && all[|done| - 1].hi <= all[|done|].lo;
    assert all[a].lo < all[a].hi;
  }

  lemma SpansSingle(done: seq<Route>, k: nat)
    requires k < |done|
    ensures Spans(done[k], done, k, k + 1)
  {
    assert done[k..k + 1] == [done[k]];
    assert Targets([done[k]]) == Targets([]) + done[k].target.AsList();
  }

  lemma GroupingAfterStep(done: seq<Route>, t: seq<Route>, cs: seq<nat>, r: Route) returns (cuts: seq<nat>)
    requires Ordered(done + [r]) && NonEmptyRanges(done + [r])
    requires t != [] && IsGrouping(done, t, cs)
    ensures IsGrouping(done + [r], CompressStep(t, r), cuts)
  {
    hide Spans, Ordered, NonEmptyRanges;
    var m, all := |done|, done + [r];
    forall k | 0 <= k < |t| ensures Spans(t[k], all, cs[k], cs[k + 1]) {
      SpansPrefix(t[k], done, cs[k], cs[k + 1], r);
    }
    if t[|t| - 1].port == r.port {
      SpansExtended(t[|t| - 1], done, cs[|t| - 1], r);
      cuts := cs[|t| := m + 1];
    } else {
      SpansSingle(all, m);
      cuts := cs + [m + 1];
    }
  }

  /** Compression groups maximal runs with one port, and loses no target. */
  lemma {:induction false} CompressGroups(done: seq<Route>) returns (cuts: seq<nat>)
    requires done != [] && Ordered(done) && NonEmptyRanges(done)
    ensures IsGrouping(done, Compress(done), cuts)
  {
    if |done| == 1 {
      SpansSingle(done, 0);
      cuts := [0, 1];
    } else {
      var m := |done| - 1;
      cuts := CompressGroups(done[..m]);
      assert done == done[..m] + [done[m]];
      cuts := GroupingAfterStep(done[..m], Compress(done[..m]), cuts, done[m]);
    }
  }

  /** Cuts increase, so runs later in the table hold later routes. */
  lemma {:induction false} CutsIncrease(done: seq<Route>, table: seq<Route>, cuts: seq<nat>, j: nat, k: nat)
    requires IsGrouping(done, table, cuts) && j <= k <= |table|
    ensures cuts[j] + (k - j) <= cuts[k]
    decreases k - j
  {
    if j < k {
      CutsIncrease(done, table, cuts, j, k - 1);
      assert Spans(table[k - 1], done, cuts[k - 1], cuts[k]);
    }
  }

  /** The compressed table is ordered, hence disjoint, and its ranges are not empty. */
  lemma CompressOrdered(done: seq<Route>)
    requires done != [] && Ordered(done) && NonEmptyRanges(done)
    ensures Ordered(Compress(done)) && NonEmptyRanges(Compress(done))
  {
    var cuts := CompressGroups(done);
    var t := Compress(done);
    forall i, j | 0 <= i < j < |t| ensures t[i].hi <= t[j].lo {
      CutsIncrease(done, t, cuts, i + 1, j);
      assert Spans(t[i], done, cuts[i], cuts[i + 1]) && Spans(t[j], done, cuts[j], cuts[j + 1]);
    }
    forall i | 0 <= i < |t| ensures t[i].lo < t[i].hi {
      assert Spans(t[i], done, cuts[i], cuts[i + 1]);
    }
  }

  /** In an ordered table the entry that covers an address decides the lookup. */
  lemma {:induction false} LookupCovered(table: seq<Route>, k: nat, addr: int)
    requires Ordered(table) && NonEmptyRanges(table) && k < |table| && table[k].Covers(addr)
    ensures Lookup(table, addr) == table[k].port
  {
    if k > 0 {
      assert table[0].hi <= table[k].lo;
      LookupCovered(table[1..], k - 1, addr);
    }
  }

  /** The run of the grouping that holds route `i`. */
  lemma {:induction false} FindRun(done: seq<Route>, table: seq<Route>, cuts: seq<nat>, i: nat, n: nat) returns (k: nat)
    requires IsGrouping(done, table, cuts) && n <= |table| && i < cuts[n]
    ensures k < n && cuts[k] <= i < cuts[k + 1]
    decreases n
  {
    hide Spans;
    if cuts[n - 1] <= i {
      k := n - 1;
    } else {
      k := FindRun(done, table, cuts, i, n - 1);
    }
  }

  /** Compression preserves meaning: what a collapsed route decodes, the table decodes to the same port. */
  lemma CompressPreservesLookup(done: seq<Route>, i: nat, addr: int)
    requires done != [] && Ordered(done) && NonEmptyRanges(done)
    requires i < |done| && done[i].Covers(addr)
    ensures Lookup(Compress(done), addr) == done[i].port == Lookup(done, addr)
  {
    var cuts := CompressGroups(done);
    var t := Compress(done);
    var k := FindRun(done, t, cuts, i, |t|);
    assert Spans(t[k], done, cuts[k], cuts[k + 1]);
    assert t[k].Covers(addr) by {
      assert cuts[k] < i ==> done[cuts[k]].hi <= done[i].lo && done[cuts[k]].lo < done[cuts[k]].hi;
      assert i < cuts[k + 1] - 1 ==> done[i].hi <= done[cuts[k + 1] - 1].lo;
    }
    CompressOrdered(done);
    LookupCovered(t, k, addr);
    LookupCovered(done, i, addr);
  }

  /** Any table whose entries do not overlap and that sends each collapsed address to its port. */
  ghost predicate Agrees(other: seq<Route>, done: seq<Route>) {
    && (forall i, j :: 0 <= i < j < |other| ==> !other[i].Overlaps(other[j]))
    && (forall i, addr :: 0 <= i < |done| && done[i].Covers(addr) ==>
          exists k :: 0 <= k < |other| && other[k].Covers(addr) && other[k].port == done[i].port)
  }

  /** An injection from the first m naturals into the first n needs m <= n. */
  lemma {:induction false} Pigeonhole(f: seq<nat>, n: nat)
    requires forall i :: 0 <= i < |f| ==> f[i] < n
    requires Distinct(f)
    ensures |f| <= n
    decreases n
  {
    assert |f| > 0 ==> f[0] < n;
    if n > 0 {
      if i :| 0 <= i < |f| && f[i] == n - 1 {
        Pigeonhole(f[..i] + f[i + 1..], n - 1);
      } else {
        Pigeonhole(f, n - 1);
      }
    }
  }

  /** The entry of `other` that serves the first address of each table entry. */
  lemma {:induction false} Serving(done: seq<Route>, table: seq<Route>, cuts: seq<nat>, other: seq<Route>, n: nat)
    returns (f: seq<nat>)
    requires Ordered(done) && NonEmptyRanges(done) && IsGrouping(done, table, cuts) && Agrees(other, done)
    requires n <= |table|
    ensures |f| == n
    ensures forall k :: 0 <= k < n ==>
              f[k] < |other| && other[f[k]].Covers(table[k].lo) && other[f[k]].port == table[k].port
    decreases n
  {
    f := [];
    if n > 0 {
      f := Serving(done, table, cuts, other, n - 1);
      assert Spans(table[n - 1], done, cuts[n - 1], cuts[n]);
      assert done[cuts[n - 1]].Covers(table[n - 1].lo);
      var k :| 0 <= k < |other| && other[k].Covers(table[n - 1].lo) && other[k].port == table[n - 1].port;
      f := f + [k];
    }
  }

  /** Compression is optimal: no table that agrees on the collapsed addresses has fewer entries. */
  lemma CompressOptimal(done: seq<Route>, other: seq<Route>)
    requires done != [] && Ordered(done) && NonEmptyRanges(done) && Agrees(other, done)
    ensures |Compress(done)| <= |other|
  {
    var t := Compress(done);
    var cuts := CompressGroups(done);
    CompressOrdered(done);
    var f := Serving(done, t, cuts, other, |t|);
    forall i, j | 0 <= i < j < |f| ensures f[i] != f[j] {
      // The entry serving run i uses another port than run i+1, so it stops before that run starts.
      assert t[i].port != t[i + 1].port && !other[f[i]].Covers(t[i + 1].lo);
      assert t[i].lo < t[i].hi <= t[i + 1].lo <= t[j].lo;
    }
    Pigeonhole(f, |other|);
  }
}

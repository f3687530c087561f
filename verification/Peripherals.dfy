/**
 Memory-mapped peripherals of the simulator (`sw/banshee/src/peripherals.rs`): the walk that finds the peripheral
 behind an address, and the counting semaphores with their blocking takes.
 */
module Peripherals {
  import opened Common
  import opened Counting

  // ---------- Address decode ----------

  /** Total size of the windows. */
  ghost function Total(sizes: seq<nat>): nat {
    if sizes == [] then 0 else Total(sizes[..|sizes| - 1]) + sizes[|sizes| - 1]
  }

  lemma {:induction false} TotalSplit(sizes: seq<nat>, i: nat)
    requires i <= |sizes|
    ensures Total(sizes[..i]) <= Total(sizes)
    decreases |sizes| - i
  {
    if i == |sizes| {
      assert sizes[..i] == sizes;
    } else {
      TotalSplit(sizes, i + 1);
      assert sizes[..i + 1][..i] == sizes[..i];
    }
  }

  /** `addr` lies in window `i`, `offs` bytes from its start, when windows are laid end to end. */
  ghost predicate InWindow(sizes: seq<nat>, addr: nat, i: nat, offs: nat) {
    i < |sizes| && offs < sizes[i] && addr == Total(sizes[..i]) + offs
  }

  /** The windows do not overlap: an address has one place. */
  lemma WindowUnique(sizes: seq<nat>, addr: nat, i: nat, offs: nat, j: nat, offs': nat)
    requires InWindow(sizes, addr, i, offs) && InWindow(sizes, addr, j, offs')
    ensures i == j && offs == offs'
  {
    if i < j {
      WindowBefore(sizes, i, j);
    } else if j < i {
      WindowBefore(sizes, j, i);
    }
  }

  lemma WindowBefore(sizes: seq<nat>, i: nat, j: nat)
    requires i < j < |sizes|
    ensures Total(sizes[..i]) + sizes[i] <= Total(sizes[..j])
  {
    TotalSplit(sizes[..j], i + 1);
    assert sizes[..j][..i + 1] == sizes[..i + 1] && sizes[..i + 1][..i] == sizes[..i];
  }

  /** The walk of `load_store`: subtract window sizes until the address falls inside one. */
  method FindWindow(sizes: seq<nat>, addr: nat) returns (r: Option<(nat, nat)>)
    ensures r.Some? ==> InWindow(sizes, addr, r.value.0, r.value.1)
    ensures r.None? <==> addr >= Total(sizes)
  {
    var rest := addr;
    for i := 0 to |sizes|
      invariant addr == Total(sizes[..i]) + rest
    {
      assert sizes[..i + 1][..i] == sizes[..i];
      if rest < sizes[i] {
        TotalSplit(sizes, i + 1);
        return Some((i, rest));
      }
      rest := rest - sizes[i];
    }
    assert sizes[..|sizes|] == sizes;
    r := None;
  }

  // ---------- Semaphores ----------

  const U32: nat := 0x1_0000_0000

  datatype Counters = Counters(empty: nat, full: nat, queue: nat)

  /** One attempt on a counter: plain store, wrapping add, or a take that fails unless the counter covers it. */
  datatype Op = Put | Add | Take

  function Attempt(x: nat, op: Op, val: nat): Option<nat> {
    match op
    case Put => Some(val)
    case Add => Some((x + val) % U32)
    case Take => if x >= val then Some(x - val) else None
  }

  /** `Semaphores::store`: which counter and operation an address selects; None while a take has to spin. */
  function Store(c: Counters, addr: nat, val: nat): Option<Counters> {
    if addr == 0x0 then OnEmpty(c, Attempt(c.empty, Put, val))
    else if addr == 0x4 then OnEmpty(c, Attempt(c.empty, Add, val))
    else if addr == 0x8 then OnEmpty(c, Attempt(c.empty, Take, val))
    else if addr == 0xc then OnFull(c, Attempt(c.full, Put, val))
    else if addr == 0x10 then OnFull(c, Attempt(c.full, Add, val))
    else if addr == 0x14 then OnFull(c, Attempt(c.full, Take, val))
    else if addr == 0x18 then OnQueue(c, Attempt(c.queue, Put, val))
    else if addr == 0x1c then OnQueue(c, Attempt(c.queue, Add, val))
    else OnQueue(c, Attempt(c.queue, Take, val))
  }

  function OnEmpty(c: Counters, x: Option<nat>): Option<Counters> {
    if x.Some? then Some(c.(empty := x.value)) else None
  }

  function OnFull(c: Counters, x: Option<nat>): Option<Counters> {
    if x.Some? then Some(c.(full := x.value)) else None
  }

  function OnQueue(c: Counters, x: Option<nat>): Option<Counters> {
    if x.Some? then Some(c.(queue := x.value)) else None
  }

  // ---------- The balance of a counter over whole runs ----------

  datatype Which = Empty | Full | Queue

  function Get(c: Counters, w: Which): nat {
    match w
    case Empty => c.empty
    case Full => c.full
    case Queue => c.queue
  }

  /** The counter an address stands for; all addresses beyond the listed ones take from the queue counter. */
  function CounterAt(addr: nat): Which {
    if addr in {0x0, 0x4, 0x8} then Empty else if addr in {0xc, 0x10, 0x14} then Full else Queue
  }

  function OpAt(addr: nat): Op {
    if addr in {0x0, 0xc, 0x18} then Put else if addr in {0x4, 0x10, 0x1c} then Add else Take
  }

  /** One attempt of some hart at a store; a take that has to spin is a row of attempts. */
  datatype Access = Access(addr: nat, val: nat) {
    predicate Is(w: Which, op: Op) { CounterAt(addr) == w && OpAt(addr) == op }
  }

  /** The counters after an attempt; a failed one leaves them alone. */
  function Try(c: Counters, a: Access): Counters {
    var r := Store(c, a.addr, a.val);
    if r.Some? then r.value else c
  }

  function RunAccesses(c: Counters, accs: seq<Access>): Counters {
    if accs == [] then c else Try(RunAccesses(c, accs[..|accs| - 1]), accs[|accs| - 1])
  }

  /** What counter `w` receives from access `k` on. */
  ghost function Added(accs: seq<Access>, w: Which, k: nat): nat {
    if |accs| <= k then 0
    else
      var a := accs[|accs| - 1];
      Added(accs[..|accs| - 1], w, k) + if a.Is(w, Add) then a.val else 0
  }

  /** What takes from counter `w` remove from access `k` on: only those that find it covered. */
  ghost function Taken(c: Counters, accs: seq<Access>, w: Which, k: nat): nat {
    if |accs| <= k then 0
    else
      var front, a := accs[..|accs| - 1], accs[|accs| - 1];
      Taken(c, front, w, k) + if a.Is(w, Take) && a.val <= Get(RunAccesses(c, front), w) then a.val else 0
  }

  /** How many adds to counter `w` overflow from access `k` on. */
  ghost function Wraps(c: Counters, accs: seq<Access>, w: Which, k: nat): nat {
    if |accs| <= k then 0
    else
      var front, a := accs[..|accs| - 1], accs[|accs| - 1];
      Wraps(c, front, w, k) + if a.Is(w, Add) && Get(RunAccesses(c, front), w) + a.val >= U32 then 1 else 0
  }

  /** Access `k - 1` is the last plain store to `w`; with `k == 0` there is none. */
  ghost predicate SinceStore(accs: seq<Access>, w: Which, k: nat) {
    && k <= |accs| && (k > 0 ==> accs[k - 1].Is(w, Put))
    && forall i :: k <= i < |accs| ==> !accs[i].Is(w, Put)
  }

  ghost predicate Words(c: Counters, accs: seq<Access>) {
    && c.empty < U32 && c.full < U32 && c.queue < U32
    && forall i :: 0 <= i < |accs| ==> accs[i].val < U32
  }

  /** An attempt acts on the counter its address stands for, and on no other. */
  lemma TryActs(c: Counters, a: Access, w: Which)
    ensures var x, y := Get(c, w), Get(Try(c, a), w);
            && (a.Is(w, Put) ==> y == a.val)
            && (a.Is(w, Add) ==> y == (x + a.val) % 0x1_0000_0000)
            && (a.Is(w, Take) ==> y == if a.val <= x then x - a.val else x)
            && (CounterAt(a.addr) != w ==> y == x)
  {
  }

  lemma {:induction false} RunsStayWords(c: Counters, accs: seq<Access>, w: Which)
    requires Words(c, accs)
    ensures Get(RunAccesses(c, accs), w) < U32
  {
    if accs != [] {
      var front := accs[..|accs| - 1];
      RunsStayWords(c, front, w);
      TryActs(RunAccesses(c, front), accs[|accs| - 1], w);
    }
  }

  /** The value of a counter that all later accesses start from. */
  function Base(c: Counters, accs: seq<Access>, w: Which, k: nat): nat
    requires k <= |accs|
  {
    if k == 0 then Get(c, w) else accs[k - 1].val
  }

  lemma {:induction false} BalanceSince(c: Counters, accs: seq<Access>, w: Which, k: nat)
    requires Words(c, accs) && SinceStore(accs, w, k)
    ensures Get(RunAccesses(c, accs), w)
         == Base(c, accs, w, k) + Added(accs, w, k) - Taken(c, accs, w, k) - U32 * Wraps(c, accs, w, k)
  {
    if accs != [] {
      var front, a := accs[..|accs| - 1], accs[|accs| - 1];
      hide Try, Access.Is, Get;
      TryActs(RunAccesses(c, front), a, w);
      if k < |accs| {
        BalanceSince(c, front, w, k);
        RunsStayWords(c, front, w);
        BalanceStep(RunAccesses(c, front), a, w);
      }
    }
  }

  /** An attempt that is no plain store to `w` moves the counter by its value and, if it overflows, by 2^32. */
  lemma BalanceStep(c: Counters, a: Access, w: Which)
    requires Get(c, w) < U32 && a.val < U32 && !a.Is(w, Put)
    ensures Get(Try(c, a), w) == Get(c, w)
              + (if a.Is(w, Add) then a.val else 0)
              - (if a.Is(w, Take) && a.val <= Get(c, w) then a.val else 0)
              - U32 * (if a.Is(w, Add) && Get(c, w) + a.val >= U32 then 1 else 0)
  {
    TryActs(c, a, w);
  }

  lemma {:induction false} StoreFound(accs: seq<Access>, w: Which) returns (k: nat)
    ensures SinceStore(accs, w, k)
  {
    if accs == [] {
      k := 0;
    } else if accs[|accs| - 1].Is(w, Put) {
      k := |accs|;
    } else {
      k := StoreFound(accs[..|accs| - 1], w);
    }
  }

  /**
   Counter balance: whatever stores the harts attempt in whatever order on the three counters, each counter
   is its last plainly stored value, or its first one, plus all later adds, minus all later takes that completed,
   minus 2^32 per overflow; so it is that balance modulo 2^32, and exactly that balance if none overflowed.
   */
  lemma CounterBalance(c: Counters, accs: seq<Access>, w: Which) returns (k: nat)
    requires Words(c, accs)
    ensures SinceStore(accs, w, k)
    ensures var x := Get(RunAccesses(c, accs), w);
            var balance := Base(c, accs, w, k) + Added(accs, w, k) - Taken(c, accs, w, k);
            && x == balance - 0x1_0000_0000 * Wraps(c, accs, w, k) == balance % 0x1_0000_0000
            && Wraps(c, accs, w, k) == balance / 0x1_0000_0000
  {
    k := StoreFound(accs, w);
    BalanceSince(c, accs, w, k);
    RunsStayWords(c, accs, w);
    Quotient(Get(RunAccesses(c, accs), w), Wraps(c, accs, w, k));
  }

  lemma Quotient(x: nat, n: nat)
    requires x < U32
    ensures (x + U32 * n) % U32 == x && (x + U32 * n) / U32 == n
  {
  }

  // ---------- Producers and consumers ----------

  const ADD_EMPTY: nat := 0x4
  const TAKE_EMPTY: nat := 0x8
  const ADD_FULL: nat := 0x10
  const TAKE_FULL: nat := 0x14

  /** A client and what it holds: a producer the slots it took, a consumer the items it took. */
  datatype Client = Client(isProducer: bool, holds: nat)

  /** `produced` and `consumed` add up all items added to, and taken from, the buffer. */
  datatype System = System(c: Counters, clients: seq<Client>, produced: nat, consumed: nat)

  /** An idle client takes some amount, or a client gives back all it holds. */
  datatype Action = Grab(i: nat, amount: nat) | Give(i: nat)

  function Holdings(clients: seq<Client>): (hs: seq<int>)
    ensures |hs| == |clients| && forall i :: 0 <= i < |hs| ==> hs[i] == clients[i].holds
  {
    seq(|clients|, i requires 0 <= i < |clients| => clients[i].holds)
  }

  /** A finished action, or None if it is out of place or still spinning. */
  function Act(s: System, a: Action): Option<System> {
    if a.i >= |s.clients| then None
    else
      var cl := s.clients[a.i];
      match a
      case Grab(i, amount) =>
        if cl.holds != 0 || amount == 0 then None
        else
          var c := Store(s.c, if cl.isProducer then TAKE_EMPTY else TAKE_FULL, amount);
          if c.None? then None
          else Some(System(c.value, s.clients[i := cl.(holds := amount)], s.produced,
                           s.consumed + if cl.isProducer then 0 else amount))
      case Give(i) =>
        if cl.holds == 0 then None
        else
          var c := Store(s.c, if cl.isProducer then ADD_FULL else ADD_EMPTY, cl.holds);
          if c.None? then None
          else Some(System(c.value, s.clients[i := cl.(holds := 0)],
                           s.produced + if cl.isProducer then cl.holds else 0, s.consumed))
  }

  ghost predicate CanRun(s: System, actions: seq<Action>)
    decreases |actions|
  {
    actions != [] ==> Act(s, actions[0]).Some? && CanRun(Act(s, actions[0]).value, actions[1..])
  }

  ghost function Run(s: System, actions: seq<Action>): System
    requires CanRun(s, actions)
    decreases |actions|
  {
    if actions == [] then s else Run(Act(s, actions[0]).value, actions[1..])
  }

  /** Slots are neither lost nor made: free, filled, or in somebody's hands they are N; and the filled ones
      are what was produced and not consumed. */
  ghost predicate Conserved(s: System, n: nat) {
    && s.c.empty + s.c.full + Sum(Holdings(s.clients)) == n
    && s.c.full == s.produced - s.consumed
  }

  lemma ActConserves(s: System, a: Action, n: nat)
    requires n < U32 && Conserved(s, n) && Act(s, a).Some?
    ensures Conserved(Act(s, a).value, n)
  {
    var t := Act(s, a).value;
    var hs := Holdings(s.clients);
    SumUpdate(hs, a.i, t.clients[a.i].holds);
    assert Holdings(t.clients) == hs[a.i := t.clients[a.i].holds];
    SumAtLeast(hs, a.i);
  }

  lemma {:induction false} SumAtLeast(hs: seq<int>, i: nat)
    requires i < |hs| && forall j :: 0 <= j < |hs| ==> hs[j] >= 0
    ensures Sum(hs) >= hs[i]
  {
    SumZero(hs[1..]);
    if i > 0 { SumAtLeast(hs[1..], i - 1); }
  }

  lemma {:induction false} RunConserves(s: System, actions: seq<Action>, n: nat)
    requires n < U32 && Conserved(s, n) && CanRun(s, actions)
    ensures Conserved(Run(s, actions), n)
    decreases |actions|
  {
    if actions != [] {
      ActConserves(s, actions[0], n);
      RunConserves(Act(s, actions[0]).value, actions[1..], n);
    }
  }

  /** Nobody holds anything, N slots are free. */
  ghost predicate Fresh(s: System, n: nat) {
    && s.c.empty == n && s.c.full == 0 && s.produced == s.consumed == 0
    && forall i :: 0 <= i < |s.clients| ==> s.clients[i].holds == 0
  }

  /**
   Semaphore conservation: for any number of producers and consumers that take and give any amounts in any
   interleaving, from (N, 0) no counter underflows or wraps, and at every moment at most N items
   have been produced and not consumed, and no more than N slots or items are in clients' hands.
   */
  lemma BoundedBuffer(s: System, actions: seq<Action>, n: nat)
    requires n < U32 && Fresh(s, n) && CanRun(s, actions)
    ensures var t := Run(s, actions);
            && Conserved(t, n)
            && t.consumed <= t.produced <= t.consumed + n
            && t.c.empty <= n && t.c.full <= n
            && Sum(Holdings(t.clients)) <= n
  {
    SumConstant(Holdings(s.clients), 0);
    RunConserves(s, actions, n);
    SumZero(Holdings(Run(s, actions).clients));
  }

  /** With unit amounts there is always a step: a holder can give, or someone can take. */
  lemma NeverStuck(s: System, n: nat, p: nat, q: nat)
    requires 1 <= n < U32 && Conserved(s, n)
    requires p < |s.clients| && s.clients[p].isProducer && q < |s.clients| && !s.clients[q].isProducer
    ensures exists a :: Act(s, a).Some? && (a.Grab? ==> a.amount == 1)
  {
    SumZero(Holdings(s.clients));
    if Sum(Holdings(s.clients)) != 0 {
      var i :| 0 <= i < |s.clients| && Holdings(s.clients)[i] != 0;
      assert Act(s, Give(i)).Some?;
    } else {
      assert Holdings(s.clients)[p] == 0 && Holdings(s.clients)[q] == 0;
      if s.c.empty > 0 {
        assert Act(s, Grab(p, 1)).Some?;
      } else {
        assert Act(s, Grab(q, 1)).Some?;
      }
    }
  }

  // ---------- The counters, updated in place ----------

  class Semaphores {
    var emptyCount: nat
    var fullCount: nat
    var useQueue: nat

    ghost function View(): Counters
      reads this
    {
      Counters(emptyCount, fullCount, useQueue)
    }

    /** One round of `store`: atomic, and repeated by the caller as long as it is not done. */
    method TryStore(addr: nat, val: nat) returns (done: bool)
      modifies this
      ensures done <==> Store(old(View()), addr, val).Some?
      ensures View() == if done then Store(old(View()), addr, val).value else old(View())
    {
      done := true;
      match addr
      case 0x0 => emptyCount := val;
      case 0x4 => emptyCount := (emptyCount + val) % U32;
      case 0x8 => if emptyCount >= val { emptyCount := emptyCount - val; } else { done := false; }
      case 0xc => fullCount := val;
      case 0x10 => fullCount := (fullCount + val) % U32;
      case 0x14 => if fullCount >= val { fullCount := fullCount - val; } else { done := false; }
      case 0x18 => useQueue := val;
      case 0x1c => useQueue := (useQueue + val) % U32;
      case _ => if useQueue >= val { useQueue := useQueue - val; } else { done := false; }
    }
  }
}

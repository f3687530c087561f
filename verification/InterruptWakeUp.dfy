/**
 The cluster-local interrupt register together with the wake-up record: a store to the set register
 wakes harts one critical section at a time, while other harts store, fall asleep, poll and get up.

 The machine is the product of `ClusterInterrupt`, for the register of one cluster, and `WakeUp`, for
 the harts of all clusters.  Stores of other clusters appear as the wake-ups they make.
 */
module InterruptWakeUp {
  import opened Counting
  import opened IntBits
  import CI = ClusterInterrupt
  import WU = WakeUp

  /** The cluster whose register is modelled. */
  datatype Config = Config(cluster: nat, numCores: nat)

  datatype State = State(wu: WU.State, ci: CI.State) {
    predicate Sized() { wu.Sized() && |ci.stores| == |wu.pc| }
  }

  datatype Action =
    | Other(a: WU.Action)        // wfi, a direct wake-up, or other instructions
    | Register(r: CI.Action)     // a step of a store to the register

  /** A hart in the middle of a store does nothing else, and a hart that stores is running. */
  predicate Enabled(s: State, a: Action)
    requires s.Sized()
  {
    match a
    case Other(a) => WU.Enabled(s.wu, a) && s.ci.stores[a.h].Idle?
    case Register(r) => CI.Enabled(s.ci, r) && s.wu.pc[r.h] == WU.Running
  }

  /** The wake-up that a round of the loop makes, if its bit was turned on. */
  function WokenBy(s: State, cfg: Config, r: CI.Action): WU.State
    requires s.Sized() && Enabled(s, Register(r))
  {
    if r.Scan? && Bit(s.ci.stores[r.h].on, s.ci.stores[r.h].next)
    then WU.Apply(s.wu, WU.Wake(r.h, CI.WokenSlot(cfg.cluster, cfg.numCores, s.ci.stores[r.h].next)))
    else s.wu
  }

  function Apply(s: State, cfg: Config, a: Action): (t: State)
    requires s.Sized() && Enabled(s, a)
    ensures t.Sized() && |t.wu.pc| == |s.wu.pc|
  {
    match a
    case Other(a) => s.(wu := WU.Apply(s.wu, a))
    case Register(r) => State(WokenBy(s, cfg, r), CI.Apply(s.ci, r))
  }

  predicate CanRun(s: State, cfg: Config, actions: seq<Action>)
    requires s.Sized()
    decreases |actions|
  {
    actions != [] ==> Enabled(s, actions[0]) && CanRun(Apply(s, cfg, actions[0]), cfg, actions[1..])
  }

  function Run(s: State, cfg: Config, actions: seq<Action>): (t: State)
    requires s.Sized() && CanRun(s, cfg, actions)
    ensures t.Sized() && |t.wu.pc| == |s.wu.pc|
    decreases |actions|
  {
    if actions == [] then s else Run(Apply(s, cfg, actions[0]), cfg, actions[1..])
  }

  function Init(n: nat): (s: State)
    ensures s.Sized() && s.wu == WU.Init(n) && s.ci.reg == 0
    ensures forall h :: 0 <= h < n ==> s.ci.stores[h] == CI.Idle
  {
    State(WU.Init(n), CI.State(0, seq(n, _ => CI.Idle)))
  }

  /** A run of the product is, in its register, a run of the register machine. */
  ghost function RegisterActions(actions: seq<Action>): seq<CI.Action> {
    if actions == [] then []
    else (if actions[0].Register? then [actions[0].r] else []) + RegisterActions(actions[1..])
  }

  lemma {:induction false} RegisterRuns(s: State, cfg: Config, actions: seq<Action>)
    requires s.Sized() && CanRun(s, cfg, actions)
    ensures CI.CanRun(s.ci, RegisterActions(actions))
    ensures CI.Run(s.ci, RegisterActions(actions)) == Run(s, cfg, actions).ci
    decreases |actions|
  {
    hide CI.Apply, CI.Enabled, WU.Apply, WU.Enabled, WokenBy;
    if actions != [] {
      RegisterRuns(Apply(s, cfg, actions[0]), cfg, actions[1..]);
      var rs := RegisterActions(actions);
      if actions[0].Register? {
        assert rs[0] == actions[0].r && rs[1..] == RegisterActions(actions[1..]);
      } else {
        assert rs == RegisterActions(actions[1..]);
      }
    }
  }

  /**
   What a step of a store does to the wake-up record: it asks hart `j` exactly if it is the round of a bit that
   its store turned on and that bit's slot names `j`; nothing else changes.
   */
  lemma RegisterEffect(s: State, cfg: Config, r: CI.Action, j: nat)
    requires s.Sized() && Enabled(s, Register(r)) && j < |s.wu.pc|
    ensures var t := Apply(s, cfg, Register(r)).wu;
            && t.mu.req[j] == (if && r.Scan? && Bit(s.ci.stores[r.h].on, s.ci.stores[r.h].next)
                                  && WU.Targets(s.wu.mu,
                                                CI.WokenSlot(cfg.cluster, cfg.numCores, s.ci.stores[r.h].next), j)
                               then s.wu.clock[r.h] + 1 else s.wu.mu.req[j])
            && t.(mu := t.mu.(req := s.wu.mu.req)) == s.wu
  {
  }

  // ---------- The invariant ----------

  /** The wake-up record is in order, and a hart in the middle of a store is running. */
  ghost predicate Inv(s: State) {
    && s.Sized() && WU.Inv(s.wu)
    && forall h :: 0 <= h < |s.ci.stores| && s.ci.stores[h].Waking? ==>
         s.wu.pc[h] == WU.Running && s.ci.stores[h].next < 32
  }

  lemma InitInv(n: nat)
    ensures Inv(Init(n))
  {
    WU.InitInv(n);
  }

  /** A step of one hart leaves the place of every other hart alone. */
  lemma OthersStay(s: WU.State, a: WU.Action, h: nat)
    requires s.Sized() && WU.Enabled(s, a) && h < |s.pc| && (h != a.h || a.Wake?)
    ensures WU.Apply(s, a).pc[h] == s.pc[h]
  {
  }

  lemma StepInv(s: State, cfg: Config, a: Action)
    requires Inv(s) && Enabled(s, a)
    ensures Inv(Apply(s, cfg, a))
  {
    hide WU.Inv, WU.Apply, WU.Enabled, CI.FetchOr, CI.FetchAndNot, CI.TurnedOn, Bit;
    var t := Apply(s, cfg, a);
    match a {
      case Other(x) =>
        WU.StepInv(s.wu, x);
        forall h | 0 <= h < |s.ci.stores| && s.ci.stores[h].Waking? ensures t.wu.pc[h] == WU.Running {
          OthersStay(s.wu, x, h);
        }
      case Register(r) =>
        if t.wu != s.wu {
          var w := WU.Wake(r.h, CI.WokenSlot(cfg.cluster, cfg.numCores, s.ci.stores[r.h].next));
          RunningCanWake(s.wu, w);
          WU.StepInv(s.wu, w);
          forall h | 0 <= h < |s.ci.stores| ensures t.wu.pc[h] == s.wu.pc[h] {
            OthersStay(s.wu, w, h);
          }
        }
    }
  }

  lemma RunningCanWake(s: WU.State, a: WU.Action)
    requires s.Sized() && a.Wake? && a.h < |s.pc| && s.pc[a.h] == WU.Running
    ensures WU.Enabled(s, a)
  {
  }

  lemma {:induction false} RunInv(s: State, cfg: Config, actions: seq<Action>)
    requires Inv(s) && CanRun(s, cfg, actions)
    ensures Inv(Run(s, cfg, actions))
    decreases |actions|
  {
    hide WU.Inv, Apply, Enabled;
    if actions != [] {
      StepInv(s, cfg, actions[0]);
      RunInv(Apply(s, cfg, actions[0]), cfg, actions[1..]);
    }
  }

  // ---------- A raised interrupt is never lost ----------

  /** Some store has turned bit `b` on and has yet to wake its hart. */
  ghost predicate Owed(s: State, b: nat)
    requires b < 32
  {
    exists h :: 0 <= h < |s.ci.stores| && CI.Owes(b)(s.ci.stores[h])
  }

  /** The wake-up for bit `b` is still to come, or has arrived in the slot of the hart that the bit wakes. */
  ghost predicate Pending(s: State, cfg: Config, b: nat)
    requires s.Sized() && b < 32
  {
    var slot := CI.WokenSlot(cfg.cluster, cfg.numCores, b);
    Owed(s, b) || (slot < |s.wu.pc| && s.wu.mu.req[slot] != 0)
  }

  predicate Consumes(a: Action, h: nat) {
    a.Other? && WU.Consumes(a.a, h)
  }

  /** The store that turns a bit on owes its wake-up. */
  lemma RiseIsOwed(s: State, cfg: Config, r: CI.Action, b: nat)
    requires s.Sized() && Enabled(s, Register(r)) && b < 32 && CI.Rises(s.ci, r, b)
    ensures Owed(Apply(s, cfg, Register(r)), b)
  {
    CI.ClaimIsRise(s.ci, r, b);
    assert CI.Owes(b)(Apply(s, cfg, Register(r)).ci.stores[r.h]);
  }

  /** What happens to the wake-up a store owes: another step keeps it, its own round pays it. */
  lemma OwedAfterRegister(s: State, cfg: Config, r: CI.Action, b: nat, h: nat)
    requires s.Sized() && Enabled(s, Register(r)) && b < 32 && CI.WokenSlot(cfg.cluster, cfg.numCores, b) < |s.wu.pc|
    requires h < |s.ci.stores| && CI.Owes(b)(s.ci.stores[h])
    ensures Pending(Apply(s, cfg, Register(r)), cfg, b)
  {
    hide CI.FetchOr, CI.FetchAndNot, CI.TurnedOn, Bit;
    var t := Apply(s, cfg, Register(r));
    if r.h == h && s.ci.stores[h].next == b {
      var slot := CI.WokenSlot(cfg.cluster, cfg.numCores, b);
      WU.RequestLifetime(s.wu, WU.Wake(h, slot), slot);
      assert t.wu.mu.req[slot] != 0;
    } else {
      assert CI.Owes(b)(t.ci.stores[h]);
    }
  }

  lemma PendingStep(s: State, cfg: Config, a: Action, b: nat)
    requires s.Sized() && Enabled(s, a) && b < 32 && CI.WokenSlot(cfg.cluster, cfg.numCores, b) < |s.wu.pc|
    requires Pending(s, cfg, b) && !Consumes(a, CI.WokenSlot(cfg.cluster, cfg.numCores, b))
    ensures Pending(Apply(s, cfg, a), cfg, b)
  {
    hide CI.FetchOr, CI.FetchAndNot, CI.TurnedOn, Bit, WU.Apply;
    var slot := CI.WokenSlot(cfg.cluster, cfg.numCores, b);
    if a.Other? {
      WU.RequestLifetime(s.wu, a.a, slot);
    } else if h :| 0 <= h < |s.ci.stores| && CI.Owes(b)(s.ci.stores[h]) {
      OwedAfterRegister(s, cfg, a.r, b, h);
    } else if Apply(s, cfg, a).wu != s.wu {
      var w := WU.Wake(a.r.h, CI.WokenSlot(cfg.cluster, cfg.numCores, s.ci.stores[a.r.h].next));
      WU.RequestLifetime(s.wu, w, slot);
    }
  }

  /** While a wake-up is pending, nobody has left the simulation and nobody is about to. */
  lemma PendingKeepsAlive(s: State, cfg: Config, b: nat)
    requires Inv(s) && b < 32 && Pending(s, cfg, b)
    ensures forall i :: 0 <= i < |s.wu.pc| ==> s.wu.pc[i] != WU.Ended && !WU.Enabled(s.wu, WU.Stop(i))
  {
    if h :| 0 <= h < |s.ci.stores| && CI.Owes(b)(s.ci.stores[h]) {
      assert WU.HartInv(s.wu, h);
      assert !s.wu.mu.wfi[h];
    }
    assert !WU.Quiet(s.wu);
    forall i | 0 <= i < |s.wu.pc| ensures s.wu.pc[i] != WU.Ended && !WU.Enabled(s.wu, WU.Stop(i)) {
      assert WU.HartInv(s.wu, i);
    }
  }

  ghost predicate NoneConsumes(actions: seq<Action>, h: nat) {
    forall i :: 0 <= i < |actions| ==> !Consumes(actions[i], h)
  }

  lemma {:induction false} PendingRun(s: State, cfg: Config, actions: seq<Action>, b: nat)
    requires Inv(s) && b < 32 && CI.WokenSlot(cfg.cluster, cfg.numCores, b) < |s.wu.pc| && Pending(s, cfg, b)
    requires CanRun(s, cfg, actions) && NoneConsumes(actions, CI.WokenSlot(cfg.cluster, cfg.numCores, b))
    ensures Pending(Run(s, cfg, actions), cfg, b)
    decreases |actions|
  {
    hide WU.Inv, Apply, Enabled, Pending, Consumes;
    if actions != [] {
      StepInv(s, cfg, actions[0]);
      PendingStep(s, cfg, actions[0], b);
      PendingRun(Apply(s, cfg, actions[0]), cfg, actions[1..], b);
    }
  }

  /**
   No lost interrupt: in any interleaving of set and clear stores, sleeping, polling and getting up, from
   the moment a store turns bit `b` on until the hart that the bit wakes gets up or skips wfi, the wake-up is
   owed by a store that is still running or set in that hart's slot; and so no hart's wfi returns 1.
   */
  lemma NoLostInterrupt(n: nat, cfg: Config, before: seq<Action>, r: CI.Action, more: seq<Action>, b: nat)
    requires b < 32 && CI.WokenSlot(cfg.cluster, cfg.numCores, b) < n
    requires CanRun(Init(n), cfg, before)
    requires var s := Run(Init(n), cfg, before);
             && Enabled(s, Register(r)) && CI.Rises(s.ci, r, b)
             && CanRun(Apply(s, cfg, Register(r)), cfg, more)
    requires NoneConsumes(more, CI.WokenSlot(cfg.cluster, cfg.numCores, b))
    ensures var t := Run(Apply(Run(Init(n), cfg, before), cfg, Register(r)), cfg, more);
            && Pending(t, cfg, b)
            && forall i :: 0 <= i < n ==> t.wu.pc[i] != WU.Ended && !WU.Enabled(t.wu, WU.Stop(i))
  {
    hide Run, CanRun, Apply, Enabled, Pending, NoneConsumes, WU.Inv, CI.Rises, Owed;
    var s := Run(Init(n), cfg, before);
    var u := Apply(s, cfg, Register(r));
    InitInv(n);
    RunInv(Init(n), cfg, before);
    RiseIsOwed(s, cfg, r, b);
    StepInv(s, cfg, Register(r));
    OwedIsPending(u, cfg, b);
    PendingRun(u, cfg, more, b);
    RunInv(u, cfg, more);
    PendingKeepsAlive(Run(u, cfg, more), cfg, b);
  }

  lemma OwedIsPending(s: State, cfg: Config, b: nat)
    requires s.Sized() && b < 32 && Owed(s, b)
    ensures Pending(s, cfg, b)
  {
  }

  /** A pending wake-up can always move on: its store has its next round, or the hart it is for can act on it. */
  lemma PendingMoves(s: State, cfg: Config, b: nat)
    requires Inv(s) && b < 32 && CI.WokenSlot(cfg.cluster, cfg.numCores, b) < |s.wu.pc| && Pending(s, cfg, b)
    ensures var slot := CI.WokenSlot(cfg.cluster, cfg.numCores, b);
            || (exists h: nat :: h < |s.ci.stores| && CI.Owes(b)(s.ci.stores[h]) && Enabled(s, Register(CI.Scan(h))))
            || s.wu.pc[slot] == WU.Running
            || WU.Enabled(s.wu, WU.Leave(slot))
            || (WU.Enabled(s.wu, WU.Poll(slot)) && WU.Enabled(WU.Apply(s.wu, WU.Poll(slot)), WU.Leave(slot)))
  {
    var slot := CI.WokenSlot(cfg.cluster, cfg.numCores, b);
    if h: nat :| h < |s.ci.stores| && CI.Owes(b)(s.ci.stores[h]) {
      assert Enabled(s, Register(CI.Scan(h)));
    } else {
      PendingKeepsAlive(s, cfg, b);
      if s.wu.pc[slot].Polling? {
        WU.SleeperCanLeave(s.wu, slot);
      }
    }
  }

  // ---------- A store on its own ----------

  /** The steps of a set store that nobody interrupts. */
  function Rounds(h: nat, n: nat): (rs: seq<Action>)
    ensures |rs| == n && forall i :: 0 <= i < n ==> rs[i] == Register(CI.Scan(h))
  {
    seq(n, _ => Register(CI.Scan(h)))
  }

  function StoreSteps(h: nat, bits: nat): seq<Action> {
    [Register(CI.Set(h, bits))] + Rounds(h, 32)
  }

  /** The wake-up record after the rounds from bit `b` on. */
  ghost function WokenFrom(w: WU.Shared, cfg: Config, on: nat, b: nat, cycle: nat): (w': WU.Shared)
    requires b <= 32
    ensures |w'.req| == |w.req| && w'.num == w.num && w'.wfi == w.wfi
    decreases 32 - b
  {
    if b == 32 then w
    else WokenFrom(if Bit(on, b) then WU.WakeReq(w, CI.WokenSlot(cfg.cluster, cfg.numCores, b), cycle) else w,
                   cfg, on, b + 1, cycle)
  }

  /** Some bit from `b` on that was turned on has a slot that names `j`. */
  ghost predicate Asks(w: WU.Shared, cfg: Config, on: nat, b: nat, j: nat) {
    exists i: nat :: b <= i < 32 && Bit(on, i) && WU.Targets(w, CI.WokenSlot(cfg.cluster, cfg.numCores, i), j)
  }

  /** Some bit that was off in `before` and is on in `after` has a slot that names `j`. */
  ghost predicate RiseAsks(w: WU.Shared, cfg: Config, before: nat, after: nat, j: nat) {
    exists i: nat ::
      && i < 32 && !Bit(before, i) && Bit(after, i)
      && WU.Targets(w, CI.WokenSlot(cfg.cluster, cfg.numCores, i), j)
  }

  lemma {:induction false} WokenFromSlots(w: WU.Shared, cfg: Config, on: nat, b: nat, cycle: nat, j: nat)
    requires b <= 32 && j < |w.req|
    ensures WokenFrom(w, cfg, on, b, cycle).req[j] == if Asks(w, cfg, on, b, j) then cycle + 1 else w.req[j]
    decreases 32 - b
  {
    if b < 32 {
      hide Bit;
      var slot := CI.WokenSlot(cfg.cluster, cfg.numCores, b);
      var w' := if Bit(on, b) then WU.WakeReq(w, slot, cycle) else w;
      WokenFromSlots(w', cfg, on, b + 1, cycle, j);
      AsksSplit(w, w', cfg, on, b, j);
    }
  }

  lemma AsksSplit(w: WU.Shared, w': WU.Shared, cfg: Config, on: nat, b: nat, j: nat)
    requires b < 32 && |w.req| == |w'.req|
    ensures Asks(w, cfg, on, b, j) <==>
            Asks(w', cfg, on, b + 1, j)
            || (Bit(on, b) && WU.Targets(w, CI.WokenSlot(cfg.cluster, cfg.numCores, b), j))
  {
    hide Bit;
    if i: nat :| b <= i < 32 && Bit(on, i) && WU.Targets(w, CI.WokenSlot(cfg.cluster, cfg.numCores, i), j) {
      assert i > b ==> WU.Targets(w', CI.WokenSlot(cfg.cluster, cfg.numCores, i), j);
    }
    if i: nat :| b + 1 <= i < 32 && Bit(on, i) && WU.Targets(w', CI.WokenSlot(cfg.cluster, cfg.numCores, i), j) {
      assert WU.Targets(w, CI.WokenSlot(cfg.cluster, cfg.numCores, i), j);
    }
  }

  /** The remaining rounds of a store, run in a row. */
  lemma {:induction false} RoundsRun(s: State, cfg: Config, h: nat, on: nat, b: nat)
    requires s.Sized() && h < |s.wu.pc| && s.wu.pc[h] == WU.Running && b < 32 && s.ci.stores[h] == CI.Waking(on, b)
    ensures CanRun(s, cfg, Rounds(h, 32 - b))
    ensures var t := Run(s, cfg, Rounds(h, 32 - b));
            && t.ci == s.ci.(stores := s.ci.stores[h := CI.Idle])
            && t.wu == s.wu.(mu := WokenFrom(s.wu.mu, cfg, on, b, s.wu.clock[h]))
    decreases 32 - b
  {
    hide Bit, WU.WakeReq, WU.Targets, Rounds;
    var acts := Rounds(h, 32 - b);
    assert acts[1..] == Rounds(h, 31 - b);
    var t := Apply(s, cfg, Register(CI.Scan(h)));
    if b == 31 {
      assert acts[1..] == [];
    } else {
      RoundsRun(t, cfg, h, on, b + 1);
      assert t.ci.stores[h := CI.Idle] == s.ci.stores[h := CI.Idle];
    }
  }

  /** A set store that nobody interrupts. */
  lemma StoreRuns(s: State, cfg: Config, h: nat, bits: nat)
    requires s.Sized() && h < |s.wu.pc| && s.wu.pc[h] == WU.Running && s.ci.stores[h].Idle?
    ensures CanRun(s, cfg, StoreSteps(h, bits))
    ensures var t := Run(s, cfg, StoreSteps(h, bits));
            && t.ci == CI.State(CI.FetchOr(s.ci.reg, bits), s.ci.stores)
            && t.wu == s.wu.(mu := WokenFrom(s.wu.mu, cfg, CI.TurnedOn(s.ci.reg, bits), 0, s.wu.clock[h]))
  {
    hide Bit, CI.FetchOr, CI.TurnedOn, WokenFrom, Rounds;
    var t := Apply(s, cfg, Register(CI.Set(h, bits)));
    RoundsRun(t, cfg, h, CI.TurnedOn(s.ci.reg, bits), 0);
    assert StoreSteps(h, bits)[1..] == Rounds(h, 32);
    assert t.ci.stores[h := CI.Idle] == s.ci.stores;
  }

  /** `s` is a state of the machine in which hart `h` can start a store. */
  ghost predicate CanStore(s: State, h: nat, reg: nat, w: WU.Shared, cycle: nat) {
    && s.Sized() && h < |s.wu.pc| && s.wu.pc[h] == WU.Running && s.ci.stores[h].Idle?
    && s.ci.reg == reg && s.wu.mu == w && s.wu.clock[h] == cycle
  }

  lemma StoreDone(w: WU.Shared, w': WU.Shared, cfg: Config, before: nat, bits: nat, cycle: nat)
    requires w' == WokenFrom(w, cfg, CI.TurnedOn(before, bits), 0, cycle)
    ensures forall j: nat | j < |w.req| ::
              w'.req[j] == if RiseAsks(w, cfg, before, CI.FetchOr(before, bits), j) then cycle + 1 else w.req[j]
    ensures forall s: State, h: nat | CanStore(s, h, before, w, cycle) ::
              && CanRun(s, cfg, StoreSteps(h, bits))
              && Run(s, cfg, StoreSteps(h, bits)).ci.reg == CI.FetchOr(before, bits)
              && Run(s, cfg, StoreSteps(h, bits)).wu.mu == w'
  {
    hide Bit, StoreSteps, WU.Targets, WokenFrom;
    var on := CI.TurnedOn(before, bits);
    forall j: nat | j < |w.req|
      ensures w'.req[j] == if RiseAsks(w, cfg, before, CI.FetchOr(before, bits), j) then cycle + 1 else w.req[j] {
      WokenFromSlots(w, cfg, on, 0, cycle, j);
      assert Asks(w, cfg, on, 0, j) <==> RiseAsks(w, cfg, before, CI.FetchOr(before, bits), j);
    }
    forall s: State, h: nat | CanStore(s, h, before, w, cycle)
      ensures CanRun(s, cfg, StoreSteps(h, bits))
      ensures Run(s, cfg, StoreSteps(h, bits)).ci.reg == CI.FetchOr(before, bits)
      ensures Run(s, cfg, StoreSteps(h, bits)).wu.mu == w' {
      StoreRuns(s, cfg, h, bits);
    }
  }

  // ---------- The register, updated in place ----------

  class ClClint {
    var reg: nat

    /**
     A store to the set register: `fetch_or`, then the wake-up loop.  Its effect is that of the machine's steps
     of such a store, run in a row by any hart with that clock.
     */
    method StoreSet(value: nat, mask: nat, cfg: Config, cycle: nat, wus: WU.WakeupState)
      modifies this, wus`req
      ensures forall i: nat :: Bit(reg, i) <==> old(Bit(reg, i)) || (Bit(value, i) && Bit(mask, i))
      ensures |wus.req| == old(|wus.req|)
      ensures forall j: nat | j < |wus.req| ::
                wus.req[j] == if RiseAsks(old(wus.View()), cfg, old(reg), reg, j) then cycle + 1 else old(wus.req)[j]
      ensures forall s: State, h: nat | CanStore(s, h, old(reg), old(wus.View()), cycle) ::
                && CanRun(s, cfg, StoreSteps(h, CI.Masked(value, mask)))
                && Run(s, cfg, StoreSteps(h, CI.Masked(value, mask))).ci.reg == reg
                && Run(s, cfg, StoreSteps(h, CI.Masked(value, mask))).wu.mu == wus.View()
    {
      hide Bit, StoreSteps, CanStore, RiseAsks, Run, CanRun, WokenFrom;
      var bits := CI.Masked(value, mask);
      var on := CI.TurnedOn(reg, bits);
      reg := CI.FetchOr(reg, bits);
      WakeAll(on, cfg, cycle, wus);
      StoreDone(old(wus.View()), wus.View(), cfg, old(reg), bits, cycle);
    }

    /** The wake-up loop over the bits that were turned on. */
    method WakeAll(on: nat, cfg: Config, cycle: nat, wus: WU.WakeupState)
      modifies wus`req
      ensures wus.View() == WokenFrom(old(wus.View()), cfg, on, 0, cycle)
    {
      hide Bit, And, Shl, WU.WakeReq;
      var hartBase := CI.WokenSlot(cfg.cluster, cfg.numCores, 0);
      for i := 0 to 32
        invariant WokenFrom(wus.View(), cfg, on, i, cycle) == WokenFrom(old(wus.View()), cfg, on, 0, cycle)
      {
        MaskTest(on, i);
        assert hartBase + i == CI.WokenSlot(cfg.cluster, cfg.numCores, i);
        if And(on, Shl(1, i)) != 0 {
          wus.Wake(hartBase + i, cycle);
        }
      }
    }

    /** A store to the clear register, in one step. */
    method StoreClear(value: nat, mask: nat)
      modifies this
      ensures forall i: nat :: Bit(reg, i) <==> i < 32 && old(Bit(reg, i)) && !(Bit(value, i) && Bit(mask, i))
      ensures forall s: CI.State, h: nat | s.reg == old(reg) && CI.Enabled(s, CI.Clear(h, CI.Masked(value, mask))) ::
                CI.Apply(s, CI.Clear(h, CI.Masked(value, mask))).reg == reg
    {
      reg := CI.FetchAndNot(reg, CI.Masked(value, mask));
    }
  }
}

/**
 The cluster-local interrupt register (`cl_clint` in `sw/banshee/src/engine.rs`): stores set or clear
 bits atomically; a setting store then wakes, one by one, the harts whose bits it turned on.
 */
module ClusterInterrupt {
  import opened IntBits
  import opened Counting

  /** The bits a store is allowed to touch. */
  function Masked(value: nat, mask: nat): (r: nat)
    ensures forall i: nat :: Bit(r, i) <==> Bit(value, i) && Bit(mask, i)
  {
    AndBits(value, mask);
    AndSign(value, mask);
    And(value, mask)
  }

  /** The low 32 bits of the complement, as `!` gives for a 32-bit word. */
  function Not32(x: nat): (r: nat)
    ensures forall i: nat :: Bit(r, i) <==> i < 32 && !Bit(x, i)
  {
    AndBits(Not(x), Ones(32));
    NotBits(x);
    OnesBits(32);
    AndSign(Not(x), Ones(32));
    And(Not(x), Ones(32))
  }

  function FetchOr(reg: nat, bits: nat): (r: nat)
    ensures forall i: nat :: Bit(r, i) <==> Bit(reg, i) || Bit(bits, i)
  {
    OrBits(reg, bits);
    AndSign(Not(reg), Not(bits));
    Or(reg, bits)
  }

  /** The bits a store finds off and turns on. */
  function TurnedOn(reg: nat, bits: nat): (r: nat)
    ensures forall i: nat :: Bit(r, i) <==> !Bit(reg, i) && Bit(bits, i)
  {
    AndBits(Not(reg), bits);
    NotBits(reg);
    AndSign(Not(reg), bits);
    And(Not(reg), bits)
  }

  function FetchAndNot(reg: nat, bits: nat): (r: nat)
    ensures forall i: nat :: Bit(r, i) <==> Bit(reg, i) && i < 32 && !Bit(bits, i)
  {
    AndBits(reg, Not32(bits));
    AndSign(reg, Not32(bits));
    And(reg, Not32(bits))
  }

  /** What a hart's own check returns: 1 if its bit is set, else 0. */
  function Check(reg: nat, localHart: nat): (r: int)
    ensures r == if Bit(reg, localHart % 32) then 1 else 0
  {
    MaskShift(reg, localHart % 32);
    Shr(And(reg, Shl(1, localHart % 32)), localHart % 32)
  }

  // ---------- The protocol ----------

  /** A hart's store: between its `fetch_or` and the end of its wake-up loop it holds the bits it turned on. */
  datatype Store = Idle | Waking(on: nat, next: nat)

  datatype State = State(reg: nat, stores: seq<Store>)

  datatype Action =
    | Set(h: nat, bits: nat)
    | Clear(h: nat, bits: nat)
    | Scan(h: nat)               // one round of the wake-up loop

  predicate Enabled(s: State, a: Action) {
    a.h < |s.stores| && (a.Scan? <==> s.stores[a.h].Waking?)
    && (a.Scan? ==> s.stores[a.h].next < 32)
  }

  function Apply(s: State, a: Action): State
    requires Enabled(s, a)
  {
    match a
    case Set(h, bits) => State(FetchOr(s.reg, bits), s.stores[h := Waking(TurnedOn(s.reg, bits), 0)])
    case Clear(h, bits) => s.(reg := FetchAndNot(s.reg, bits))
    case Scan(h) =>
      var st := s.stores[h];
      s.(stores := s.stores[h := if st.next == 31 then Idle else st.(next := st.next + 1)])
  }

  /** A hart that is not in a store can start any; one that is in its wake-up loop has its next round. */
  lemma EnabledExactly(s: State, a: Action)
    requires a.h < |s.stores| && (s.stores[a.h].Waking? ==> s.stores[a.h].next < 32)
    ensures Enabled(s, a) <==> (s.stores[a.h].Idle? && (a.Set? || a.Clear?)) || (s.stores[a.h].Waking? && a.Scan?)
  {
  }

  /** What one step does to bit `i` of the register and to the bits that the store holds, and that others stay. */
  lemma StepEffect(s: State, a: Action, i: nat)
    requires Enabled(s, a)
    ensures var t := Apply(s, a);
            && (a.Set? ==> (Bit(t.reg, i) <==> Bit(s.reg, i) || Bit(a.bits, i)))
            && (a.Set? ==> t.stores[a.h].Waking? && t.stores[a.h].next == 0)
            && (a.Set? ==> (Bit(t.stores[a.h].on, i) <==> !Bit(s.reg, i) && Bit(a.bits, i)))
            && (a.Clear? ==> (Bit(t.reg, i) <==> Bit(s.reg, i) && i < 32 && !Bit(a.bits, i)))
            && (a.Clear? ==> t.stores == s.stores)
            && (a.Scan? ==> t.reg == s.reg)
            && |t.stores| == |s.stores|
            && forall h: nat :: h < |s.stores| && h != a.h ==> t.stores[h] == s.stores[h]
  {
  }

  /** The bit whose hart this step wakes, if any. */
  predicate WakesBit(s: State, a: Action, b: nat)
    requires Enabled(s, a) && b < 32
  {
    a.Scan? && s.stores[a.h].next == b && Bit(s.stores[a.h].on, b)
  }

  /** This step's store takes bit `b` on itself: the bit is among those its loop will wake. */
  predicate ClaimsBit(s: State, a: Action, b: nat)
    requires Enabled(s, a) && b < 32
  {
    a.Set? && Bit(Apply(s, a).stores[a.h].on, b)
  }

  predicate CanRun(s: State, actions: seq<Action>)
    decreases |actions|
  {
    actions != [] ==> Enabled(s, actions[0]) && CanRun(Apply(s, actions[0]), actions[1..])
  }

  function Run(s: State, actions: seq<Action>): State
    requires CanRun(s, actions)
    decreases |actions|
  {
    if actions == [] then s else Run(Apply(s, actions[0]), actions[1..])
  }

  // ---------- What happened to one bit during a run ----------

  predicate Rises(s: State, a: Action, b: nat)
    requires Enabled(s, a) && b < 32
  {
    !Bit(s.reg, b) && Bit(Apply(s, a).reg, b)
  }

  predicate Falls(s: State, a: Action, b: nat)
    requires Enabled(s, a) && b < 32
  {
    Bit(s.reg, b) && !Bit(Apply(s, a).reg, b)
  }

  /** How often bit `b` rose, fell, and had its hart woken. */
  datatype Tally = Tally(rises: nat, falls: nat, wakes: nat)

  ghost function TallyOf(s: State, actions: seq<Action>, b: nat): Tally
    requires CanRun(s, actions) && b < 32
    decreases |actions|
  {
    if actions == [] then Tally(0, 0, 0)
    else
      var a := actions[0];
      var t := TallyOf(Apply(s, a), actions[1..], b);
      Tally(t.rises + if Rises(s, a, b) then 1 else 0,
            t.falls + if Falls(s, a, b) then 1 else 0,
            t.wakes + if WakesBit(s, a, b) then 1 else 0)
  }

  /** The store holds bit `b` and has yet to wake its hart. */
  function Owes(b: nat): Store -> bool
    requires b < 32
  {
    (st: Store) => st.Waking? && st.next <= b && Bit(st.on, b)
  }

  /** A store claims a bit exactly if it is the store that turned the bit from 0 to 1. */
  lemma ClaimIsRise(s: State, a: Action, b: nat)
    requires Enabled(s, a) && b < 32
    ensures ClaimsBit(s, a, b) <==> Rises(s, a, b)
  {
  }

  lemma StepTally(s: State, a: Action, b: nat)
    requires Enabled(s, a) && b < 32
    ensures Count(Apply(s, a).stores, Owes(b)) + (if WakesBit(s, a, b) then 1 else 0)
         == Count(s.stores, Owes(b)) + (if Rises(s, a, b) then 1 else 0)
  {
    ClaimIsRise(s, a, b);
    CountUpdate(s.stores, a.h, Apply(s, a).stores[a.h], Owes(b));
    assert Apply(s, a).stores == s.stores[a.h := Apply(s, a).stores[a.h]];
  }

  /**
   Interrupt attribution, over every interleaving of set and clear stores of any number of harts: the
   bit is the difference of its rises and falls, and each rise has woken the bit's hart exactly once,
   or will do so in the loop of the one store that caused it.
   */
  lemma {:induction false} EveryRiseWakesOnce(s: State, actions: seq<Action>, b: nat)
    requires CanRun(s, actions) && b < 32
    ensures var t := Run(s, actions);
            var tally := TallyOf(s, actions, b);
            && (if Bit(t.reg, b) then 1 else 0) + tally.falls == (if Bit(s.reg, b) then 1 else 0) + tally.rises
            && tally.wakes + Count(t.stores, Owes(b)) == tally.rises + Count(s.stores, Owes(b))
    decreases |actions|
  {
    if actions != [] {
      StepTally(s, actions[0], b);
      EveryRiseWakesOnce(Apply(s, actions[0]), actions[1..], b);
    }
  }

  /** Once all stores are done, wake-ups and rises are equal in number. */
  lemma QuiescentWakes(s: State, actions: seq<Action>, b: nat)
    requires CanRun(s, actions) && b < 32
    requires forall i :: 0 <= i < |s.stores| ==> s.stores[i].Idle?
    requires forall i :: 0 <= i < |Run(s, actions).stores| ==> Run(s, actions).stores[i].Idle?
    ensures TallyOf(s, actions, b).wakes == TallyOf(s, actions, b).rises
  {
    EveryRiseWakesOnce(s, actions, b);
    CountNone(s.stores, Owes(b));
    CountNone(Run(s, actions).stores, Owes(b));
  }

  // ---------- What the register holds ----------

  /** A store that decides bit `i`. */
  predicate Decides(a: Action, i: nat) {
    (a.Set? && Bit(a.bits, i)) || (a.Clear? && (Bit(a.bits, i) || i >= 32))
  }

  ghost predicate LastDecides(actions: seq<Action>, i: nat, k: nat) {
    && k < |actions| && Decides(actions[k], i)
    && forall j :: k < j < |actions| ==> !Decides(actions[j], i)
  }

  /** The last store that decides a bit wins: the bit is on exactly if that was a set, or if none came and it was on. */
  lemma {:induction false} LastStoreWins(s: State, actions: seq<Action>, i: nat)
    requires CanRun(s, actions)
    ensures forall k: nat | LastDecides(actions, i, k) :: Bit(Run(s, actions).reg, i) <==> actions[k].Set?
    ensures (exists k: nat :: LastDecides(actions, i, k)) || Bit(Run(s, actions).reg, i) == Bit(s.reg, i)
    decreases |actions|
  {
    if actions != [] {
      hide Apply, Enabled, Bit;
      var rest := actions[1..];
      StepEffect(s, actions[0], i);
      var t := Apply(s, actions[0]);
      LastStoreWins(t, rest, i);
      if k: nat :| LastDecides(rest, i, k) {
        LaterDecides(actions, i, k);
      } else if Decides(actions[0], i) {
        NoneDecides(rest, i);
        assert LastDecides(actions, i, 0);
      }
      forall k: nat | LastDecides(actions, i, k) ensures Bit(Run(s, actions).reg, i) <==> actions[k].Set? {
        if k == 0 {
          OnlyFirstDecides(actions, i);
        } else {
          assert LastDecides(rest, i, k - 1);
        }
      }
    }
  }

  lemma LaterDecides(actions: seq<Action>, i: nat, k: nat)
    requires actions != [] && LastDecides(actions[1..], i, k)
    ensures LastDecides(actions, i, k + 1)
  {
    assert forall j :: 1 <= j < |actions| ==> actions[j] == actions[1..][j - 1];
  }

  lemma OnlyFirstDecides(actions: seq<Action>, i: nat)
    requires LastDecides(actions, i, 0)
    ensures forall k: nat :: !LastDecides(actions[1..], i, k)
  {
    forall k: nat ensures !LastDecides(actions[1..], i, k) {
      if LastDecides(actions[1..], i, k) { LaterDecides(actions, i, k); }
    }
  }

  /** Without a last store that decides a bit there is none at all. */
  lemma {:induction false} NoneDecides(actions: seq<Action>, i: nat)
    requires forall k: nat :: !LastDecides(actions, i, k)
    ensures forall j :: 0 <= j < |actions| ==> !Decides(actions[j], i)
  {
    if actions != [] {
      var rest := actions[1..];
      forall k: nat ensures !LastDecides(rest, i, k) {
        if LastDecides(rest, i, k) { LaterDecides(actions, i, k); }
      }
      NoneDecides(rest, i);
      assert forall j :: 1 <= j < |actions| ==> actions[j] == rest[j - 1];
      assert !LastDecides(actions, i, 0);
    }
  }

  // ---------- Whom a bit wakes ----------

  /** The slot in the wake-up record that the loop addresses for bit `b`. */
  function WokenSlot(cluster: nat, numCores: nat, b: nat): nat {
    cluster * numCores + b
  }

  /** The slot of a hart, and the bit its own check reads. */
  function SlotOf(hartid: nat, baseHartid: nat): int {
    hartid - baseHartid
  }

  function BitOf(hartid: nat, baseHartid: nat, cluster: nat, numCores: nat): int {
    (hartid - baseHartid - cluster * numCores) % 32
  }

  function HartId(baseHartid: nat, cluster: nat, numCores: nat, core: nat): nat {
    baseHartid + cluster * numCores + core
  }

  /**
   Bit `b` wakes a core of its own cluster that reads bit `b` if and only if `b` names a core; and it wakes
   every core that reads it, in clusters of any size up to 32, as then each core has a bit of its own.
   */
  lemma WokenHartReadsBit(baseHartid: nat, cluster: nat, numCores: nat, b: nat)
    requires b < 32
    ensures b < numCores <==>
            exists core :: 0 <= core < numCores
              && SlotOf(HartId(baseHartid, cluster, numCores, core), baseHartid) == WokenSlot(cluster, numCores, b)
              && BitOf(HartId(baseHartid, cluster, numCores, core), baseHartid, cluster, numCores) == b
    ensures numCores <= 32 ==>
            forall core | 0 <= core < numCores
              && BitOf(HartId(baseHartid, cluster, numCores, core), baseHartid, cluster, numCores) == b
              :: SlotOf(HartId(baseHartid, cluster, numCores, core), baseHartid) == WokenSlot(cluster, numCores, b)
  {
    if b < numCores {
      assert SlotOf(HartId(baseHartid, cluster, numCores, b), baseHartid) == WokenSlot(cluster, numCores, b);
    }
  }

  /** The bit that core `core` reads is one that wakes that core. */
  ghost predicate OwnBit(baseHartid: nat, cluster: nat, numCores: nat, core: nat) {
    var hart := HartId(baseHartid, cluster, numCores, core);
    var b := BitOf(hart, baseHartid, cluster, numCores);
    SlotOf(hart, baseHartid) == WokenSlot(cluster, numCores, b)
  }

  /** Every core is woken by the bit it reads if and only if the cluster has at most 32 cores. */
  lemma OwnBitsIffSmall(baseHartid: nat, cluster: nat, numCores: nat)
    ensures numCores <= 32 <==> forall core: nat :: core < numCores ==> OwnBit(baseHartid, cluster, numCores, core)
  {
    if numCores > 32 {
      assert !OwnBit(baseHartid, cluster, numCores, 32);
    }
  }
}

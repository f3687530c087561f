/**
 Sleeping, waking and leaving the simulation (`binary_wfi` and `wake` in `sw/banshee/src/engine.rs`).

 All harts share one mutex-guarded record; each critical section is one step, and steps of
 different harts interleave freely.  A hart whose wait-for-interrupt returns 1 ends its thread.
 */
module WakeUp {
  import opened Counting

  /** The record behind the mutex: sleepers, wake-up requests (0 for none), and sleep flags. */
  datatype Shared = Shared(num: nat, req: seq<nat>, wfi: seq<bool>)

  const ALL_HARTS: nat := 0xFFFF_FFFF

  function Requested(): nat -> bool { (r: nat) => r != 0 }

  function Asleep(): bool -> bool { (b: bool) => b }

  /** The test under which a sleeper gives up: everyone sleeps and nobody is asked to wake. */
  predicate ExitTest(w: Shared) {
    w.num == |w.req| && Count(w.req, Requested()) == 0
  }

  /** `wake`: the value -1 asks every hart, an index out of range asks nobody. */
  function WakeReq(w: Shared, hart: nat, cycle: nat): (w': Shared)
    ensures |w'.req| == |w.req|
  {
    if hart == ALL_HARTS then w.(req := seq(|w.req|, _ => cycle + 1))
    else if hart < |w.req| then w.(req := w.req[hart := cycle + 1])
    else w
  }

  predicate Targets(w: Shared, hart: nat, h: nat) {
    h < |w.req| && (hart == ALL_HARTS || hart == h)
  }

  function FallAsleep(w: Shared, h: nat): Shared
    requires h < |w.wfi|
  {
    w.(wfi := w.wfi[h := true], num := w.num + 1)
  }

  function GetUp(w: Shared, h: nat): Shared
    requires h < |w.req| && h < |w.wfi| && w.num > 0
  {
    w.(req := w.req[h := 0], wfi := w.wfi[h := false], num := w.num - 1)
  }

  // ---------- The protocol ----------

  /** `Polling` holds the two local flags a sleeper decides on; `Ended` means its wfi returned 1. */
  datatype Pc = Running | Polling(poll: bool, exit: bool) | Ended

  datatype State = State(mu: Shared, pc: seq<Pc>, clock: seq<nat>) {
    predicate Sized() { |mu.req| == |mu.wfi| == |pc| == |clock| }
  }

  datatype Action =
    | Sleep(h: nat, pending: bool)   // enters wfi; with an enabled interrupt pending it returns 0 at once
    | Poll(h: nat)
    | Stop(h: nat)                   // wfi returns 1
    | Leave(h: nat)                  // wfi returns 0
    | Wake(h: nat, target: nat)      // hart h writes the wake-up register
    | Tick(h: nat, cycles: nat)      // other instructions

  function Init(n: nat): (s: State)
    ensures |s.pc| == n && s.Sized() && s.mu.num == 0
    ensures forall h :: 0 <= h < n ==>
              s.pc[h] == Running && !s.mu.wfi[h] && s.mu.req[h] == 0 && s.clock[h] == 0
  {
    State(Shared(0, seq(n, _ => 0), seq(n, _ => false)), seq(n, _ => Running), seq(n, _ => 0))
  }

  predicate Enabled(s: State, a: Action)
    requires s.Sized()
  {
    a.h < |s.pc| &&
    match a
    case Sleep(h, _) => s.pc[h] == Running
    case Poll(h) => s.pc[h] == Polling(true, false)
    case Stop(h) => s.pc[h] == Polling(true, true)
    case Leave(h) => s.pc[h].Polling? && !s.pc[h].poll && s.mu.num > 0
    case Wake(h, _) => s.pc[h] == Running
    case Tick(h, _) => s.pc[h] == Running
  }

  function Decide(w: Shared, h: nat): Pc
    requires h < |w.req|
  {
    Polling(w.req[h] == 0, ExitTest(w))
  }

  function Apply(s: State, a: Action): (t: State)
    requires s.Sized() && Enabled(s, a)
    ensures t.Sized() && |t.pc| == |s.pc|
  {
    match a
    case Sleep(h, pending) =>
      if pending then s.(mu := s.mu.(req := s.mu.req[h := 0]))
      else
        var w := FallAsleep(s.mu, h);
        s.(mu := w, pc := s.pc[h := Decide(w, h)])
    case Poll(h) => s.(pc := s.pc[h := Decide(s.mu, h)])
    case Stop(h) => s.(pc := s.pc[h := Ended])
    case Leave(h) =>
      var asked := s.mu.req[h];
      s.(mu := GetUp(s.mu, h), pc := s.pc[h := Running],
         clock := s.clock[h := if s.clock[h] >= asked then s.clock[h] else asked])
    case Wake(h, target) => s.(mu := WakeReq(s.mu, target, s.clock[h]))
    case Tick(h, cycles) => s.(clock := s.clock[h := s.clock[h] + cycles])
  }

  /** The actions can be performed from `s`, one after the other. */
  predicate CanRun(s: State, actions: seq<Action>)
    requires s.Sized()
    decreases |actions|
  {
    actions != [] ==> Enabled(s, actions[0]) && CanRun(Apply(s, actions[0]), actions[1..])
  }

  function Run(s: State, actions: seq<Action>): (t: State)
    requires s.Sized() && CanRun(s, actions)
    ensures t.Sized() && |t.pc| == |s.pc|
    decreases |actions|
  {
    if actions == [] then s else Run(Apply(s, actions[0]), actions[1..])
  }

  // ---------- The invariant ----------

  /** All harts asleep, no request outstanding. */
  ghost predicate Quiet(s: State)
    requires s.Sized()
  {
    forall h :: 0 <= h < |s.pc| ==> s.mu.wfi[h] && s.mu.req[h] == 0
  }

  ghost predicate HartInv(s: State, h: nat)
    requires s.Sized() && h < |s.pc|
  {
    && (s.mu.wfi[h] <==> s.pc[h] != Running)
    && (s.pc[h].Polling? && !s.pc[h].poll ==> s.mu.req[h] != 0)
    && (s.pc[h] == Ended || (s.pc[h].Polling? && s.pc[h].exit) ==> Quiet(s))
  }

  ghost predicate Inv(s: State) {
    && s.Sized()
    && s.mu.num == Count(s.mu.wfi, Asleep())
    && forall h :: 0 <= h < |s.pc| ==> HartInv(s, h)
  }

  lemma InitInv(n: nat)
    ensures Inv(Init(n))
  {
    CountNone(Init(n).mu.wfi, Asleep());
  }

  /** While the sleeper count is right, the exit test succeeds exactly in quiet states. */
  lemma ExitTestExact(s: State)
    requires s.Sized() && s.mu.num == Count(s.mu.wfi, Asleep())
    ensures ExitTest(s.mu) <==> Quiet(s)
  {
    CountAll(s.mu.wfi, Asleep());
    CountNone(s.mu.req, Requested());
  }

  /** What each hart can do next: a running one anything of its own, a sleeper one thing, an ended one nothing. */
  lemma EnabledExactly(s: State, a: Action)
    requires Inv(s) && a.h < |s.pc|
    ensures s.pc[a.h] == Running ==> (Enabled(s, a) <==> a.Sleep? || a.Wake? || a.Tick?)
    ensures s.pc[a.h].Polling? ==>
            (Enabled(s, a) <==> a == if !s.pc[a.h].poll then Leave(a.h)
                                     else if s.pc[a.h].exit then Stop(a.h) else Poll(a.h))
    ensures s.pc[a.h] == Ended ==> !Enabled(s, a)
  {
    assert HartInv(s, a.h);
    CountNone(s.mu.wfi, Asleep());
  }

  /** In a quiet state nobody can get up, wake others, or run. */
  lemma QuietBlocks(s: State, a: Action)
    requires Inv(s) && Quiet(s) && Enabled(s, a)
    ensures a.Poll? || a.Stop?
    ensures Quiet(Apply(s, a))
  {
    assert HartInv(s, a.h);
  }

  lemma StepInv(s: State, a: Action)
    requires Inv(s) && Enabled(s, a)
    ensures Inv(Apply(s, a))
  {
    var t := Apply(s, a);
    assert HartInv(s, a.h);
    match a {
      case Sleep(h, pending) =>
        CountUpdate(s.mu.wfi, h, true, Asleep());
        ExitTestExact(t);
      case Poll(h) => ExitTestExact(s);
      case Leave(h) => CountUpdate(s.mu.wfi, h, false, Asleep());
      case _ =>
    }
    forall h | 0 <= h < |t.pc| ensures HartInv(t, h) {
      assert HartInv(s, h);
      if Quiet(s) { QuietBlocks(s, a); }
    }
  }

  /**
   What one action does to every hart, field by field: falling asleep sets the flag and counts the hart, getting
   up clears both and makes the hart run again with the larger clock, a request carries the waker's clock
   plus one, and nothing else changes.
   */
  lemma StepEffect(s: State, a: Action, i: nat)
    requires Inv(s) && Enabled(s, a) && i < |s.pc|
    ensures var t := Apply(s, a);
            && t.mu.num == s.mu.num + (if a.Sleep? && !a.pending then 1 else if a.Leave? then -1 else 0)
            && t.mu.wfi[i] == (a == Sleep(i, false) || (a != Leave(i) && s.mu.wfi[i]))
            && t.mu.req[i] == (if a == Leave(i) || a == Sleep(i, true) then 0
                               else if a.Wake? && Targets(s.mu, a.target, i) then s.clock[a.h] + 1
                               else s.mu.req[i])
            && t.clock[i] == (if a == Leave(i) && s.mu.req[i] > s.clock[i] then s.mu.req[i]
                              else if a.Tick? && a.h == i then s.clock[i] + a.cycles
                              else s.clock[i])
            && t.pc[i] == (if a == Leave(i) then Running
                           else if a == Stop(i) then Ended
                           else if a == Sleep(i, false) || a == Poll(i) then Polling(s.mu.req[i] == 0, Quiet(t))
                           else s.pc[i])
  {
    assert HartInv(s, a.h);
    if a.Sleep? && !a.pending {
      CountUpdate(s.mu.wfi, a.h, true, Asleep());
      ExitTestExact(Apply(s, a));
    } else if a.Poll? {
      ExitTestExact(s);
    }
  }

  lemma {:induction false} RunInv(s: State, actions: seq<Action>)
    requires Inv(s) && CanRun(s, actions)
    ensures Inv(Run(s, actions))
    decreases |actions|
  {
    if actions != [] {
      StepInv(s, actions[0]);
      RunInv(Apply(s, actions[0]), actions[1..]);
    }
  }

  /** Throughout every run, `num` is the number of sleeping harts, so getting up never takes it below 0. */
  lemma SleepersCounted(n: nat, actions: seq<Action>)
    requires CanRun(Init(n), actions)
    ensures var s := Run(Init(n), actions);
            && s.mu.num == Count(s.mu.wfi, Asleep())
            && (forall h :: 0 <= h < n ==> (s.mu.wfi[h] <==> s.pc[h] != Running))
            && (forall h :: 0 <= h < n && s.pc[h] != Running ==> s.mu.num > 0)
  {
    InitInv(n);
    RunInv(Init(n), actions);
    var s := Run(Init(n), actions);
    CountNone(s.mu.wfi, Asleep());
    forall h | 0 <= h < n ensures s.mu.wfi[h] <==> s.pc[h] != Running {
      assert HartInv(s, h);
    }
  }

  // ---------- Exit agreement ----------

  lemma {:induction false} QuietForever(s: State, actions: seq<Action>)
    requires Inv(s) && Quiet(s) && CanRun(s, actions)
    ensures Quiet(Run(s, actions))
    ensures forall i :: 0 <= i < |actions| ==> actions[i].Poll? || actions[i].Stop?
    decreases |actions|
  {
    if actions != [] {
      QuietBlocks(s, actions[0]);
      StepInv(s, actions[0]);
      QuietForever(Apply(s, actions[0]), actions[1..]);
      assert forall i :: 1 <= i < |actions| ==> actions[i] == actions[1..][i - 1];
    }
  }

  /**
   Exit agreement: once any hart's wfi has returned 1, all harts are asleep with no request outstanding,
   and that is so for good: whatever follows, no sleeper's wfi ever returns 0, nobody wakes anybody,
   and nobody runs.
   */
  lemma ExitAgreement(n: nat, actions: seq<Action>, h: nat, more: seq<Action>)
    requires CanRun(Init(n), actions) && h < n && Run(Init(n), actions).pc[h] == Ended
    requires CanRun(Run(Init(n), actions), more)
    ensures Quiet(Run(Init(n), actions)) && Quiet(Run(Run(Init(n), actions), more))
    ensures forall i :: 0 <= i < |more| ==> more[i].Poll? || more[i].Stop?
  {
    InitInv(n);
    RunInv(Init(n), actions);
    assert HartInv(Run(Init(n), actions), h);
    QuietForever(Run(Init(n), actions), more);
  }

  /** From a quiet state each hart's wfi returns 1 after at most one more poll, whatever the others do. */
  lemma EveryoneEnds(s: State, h: nat) returns (own: seq<Action>)
    requires Inv(s) && Quiet(s) && h < |s.pc| && s.pc[h] != Ended
    ensures own == [Stop(h)] || own == [Poll(h), Stop(h)]
    ensures CanRun(s, own) && Run(s, own).pc[h] == Ended
  {
    assert HartInv(s, h);
    ExitTestExact(s);
    own := if Enabled(s, Stop(h)) then [Stop(h)] else [Poll(h), Stop(h)];
    RunOneOrTwo(s, own);
  }

  /** Short runs, spelled out. */
  lemma RunOneOrTwo(s: State, own: seq<Action>)
    requires s.Sized() && 1 <= |own| <= 2
    ensures CanRun(s, own) <==>
            Enabled(s, own[0]) && (|own| == 2 ==> Enabled(Apply(s, own[0]), own[1]))
    ensures CanRun(s, own) ==>
            Run(s, own) == if |own| == 1 then Apply(s, own[0]) else Apply(Apply(s, own[0]), own[1])
  {
    hide Enabled, Apply;
    var rest := own[1..];
    if Enabled(s, own[0]) {
      var t := Apply(s, own[0]);
      if |own| == 1 {
        assert rest == [] && CanRun(t, rest) && Run(t, rest) == t;
      } else {
        assert rest[0] == own[1] && rest[1..] == [];
        assert CanRun(t, rest) <==> Enabled(t, own[1]);
        if Enabled(t, own[1]) {
          assert Run(t, rest) == Run(Apply(t, own[1]), []) == Apply(t, own[1]);
        }
      }
    }
  }

  // ---------- No lost wake-up ----------

  /** The two ways in which hart `h` itself takes back a request. */
  predicate Consumes(a: Action, h: nat) {
    a == Leave(h) || a == Sleep(h, true)
  }

  /** The life of a request, exactly: it is there after a step if the step made it, or kept it. */
  lemma RequestLifetime(s: State, a: Action, h: nat)
    requires s.Sized() && Enabled(s, a) && h < |s.pc|
    ensures Apply(s, a).mu.req[h] != 0 <==>
            (a.Wake? && Targets(s.mu, a.target, h)) || (s.mu.req[h] != 0 && !Consumes(a, h))
  {
  }

  /** How often `h` was asked to wake, and how often its wfi returned 0 after sleeping. */
  ghost function TimesAsked(s: State, actions: seq<Action>, h: nat): nat {
    if actions == [] then 0
    else (if actions[0].Wake? && Targets(s.mu, actions[0].target, h) then 1 else 0) + TimesAsked(s, actions[1..], h)
  }

  ghost function TimesWoken(actions: seq<Action>, h: nat): nat {
    if actions == [] then 0 else (if actions[0] == Leave(h) then 1 else 0) + TimesWoken(actions[1..], h)
  }

  lemma {:induction false} AskedSameSize(s: State, t: State, actions: seq<Action>, h: nat)
    requires |s.mu.req| == |t.mu.req|
    ensures TimesAsked(s, actions, h) == TimesAsked(t, actions, h)
  {
    if actions != [] { AskedSameSize(s, t, actions[1..], h); }
  }

  /** Nobody gets up unasked: each return from sleep uses up a request of its own. */
  lemma {:induction false} EachWakeNeedsARequest(s: State, actions: seq<Action>, h: nat)
    requires Inv(s) && h < |s.pc| && CanRun(s, actions)
    ensures TimesWoken(actions, h) + (if Run(s, actions).mu.req[h] != 0 then 1 else 0)
         <= TimesAsked(s, actions, h) + (if s.mu.req[h] != 0 then 1 else 0)
    decreases |actions|
  {
    if actions != [] {
      var a := actions[0];
      var t := Apply(s, a);
      assert HartInv(s, h);
      StepInv(s, a);
      RequestLifetime(s, a, h);
      AskedSameSize(s, t, actions[1..], h);
      EachWakeNeedsARequest(t, actions[1..], h);
    }
  }

  ghost predicate NoneConsumes(actions: seq<Action>, h: nat) {
    forall i :: 0 <= i < |actions| ==> !Consumes(actions[i], h)
  }

  /**
   No lost wake-up: a request stays until its hart consumes it by getting up or by skipping wfi on a
   pending interrupt; until then no hart at all gives up, and its own sleep cannot end in an exit.
   */
  lemma {:induction false} NoLostWakeUp(s: State, h: nat, actions: seq<Action>)
    requires Inv(s) && h < |s.pc| && s.mu.req[h] != 0
    requires CanRun(s, actions) && NoneConsumes(actions, h)
    ensures Run(s, actions).mu.req[h] != 0
    ensures forall i :: 0 <= i < |s.pc| ==> Run(s, actions).pc[i] != Ended
    decreases |actions|
  {
    if actions == [] {
      forall i | 0 <= i < |s.pc| ensures s.pc[i] != Ended { assert HartInv(s, i); }
    } else {
      StepInv(s, actions[0]);
      assert !Consumes(actions[0], h);
      NoLostWakeUp(Apply(s, actions[0]), h, actions[1..]);
    }
  }

  lemma SleeperCanLeave(s: State, h: nat)
    requires Inv(s) && h < |s.pc| && s.mu.req[h] != 0 && s.pc[h].Polling?
    ensures Enabled(s, Leave(h)) || (Enabled(s, Poll(h)) && Enabled(Apply(s, Poll(h)), Leave(h)))
  {
    assert HartInv(s, h);
    CountNone(s.mu.wfi, Asleep());
  }

  /**
   A requested sleeper is running again after at most one more poll, with its flag and its request cleared,
   one sleeper less counted, and all other harts as they were.
   */
  lemma RequestedSleeperGetsUp(s: State, h: nat) returns (own: seq<Action>)
    requires Inv(s) && h < |s.pc| && s.mu.req[h] != 0 && s.pc[h].Polling?
    ensures own == [Leave(h)] || own == [Poll(h), Leave(h)]
    ensures CanRun(s, own)
    ensures var t := Run(s, own);
            && t.pc[h] == Running && !t.mu.wfi[h] && t.mu.req[h] == 0 && t.mu.num == s.mu.num - 1
            && forall i: nat :: i < |s.pc| && i != h ==>
                 t.pc[i] == s.pc[i] && t.mu.wfi[i] == s.mu.wfi[i] && t.mu.req[i] == s.mu.req[i]
  {
    SleeperCanLeave(s, h);
    own := if Enabled(s, Leave(h)) then [Leave(h)] else [Poll(h), Leave(h)];
    RunOneOrTwo(s, own);
    StepInv(s, own[0]);
    var u := if |own| == 1 then s else Apply(s, Poll(h));
    hide Apply, Enabled, Inv, CanRun, Run;
    forall i: nat | i < |s.pc|
      ensures u.pc[i] == (if i == h then u.pc[i] else s.pc[i]) && u.mu.wfi[i] == s.mu.wfi[i]
              && u.mu.req[i] == s.mu.req[i] && u.mu.num == s.mu.num {
      if |own| == 2 { StepEffect(s, Poll(h), i); }
    }
    forall i: nat | i < |s.pc|
      ensures Run(s, own).pc[i] == (if i == h then Running else u.pc[i])
              && Run(s, own).mu.wfi[i] == (i != h && u.mu.wfi[i])
              && Run(s, own).mu.req[i] == (if i == h then 0 else u.mu.req[i])
              && Run(s, own).mu.num == u.mu.num - 1 {
      StepEffect(u, Leave(h), i);
    }
  }

  // ---------- Who woke a hart ----------

  /** A run seen as its front and its last action. */
  lemma {:induction false} RunSnoc(s: State, actions: seq<Action>)
    requires s.Sized() && CanRun(s, actions) && actions != []
    ensures var front, a := actions[..|actions| - 1], actions[|actions| - 1];
            && CanRun(s, front) && Enabled(Run(s, front), a)
            && Run(s, actions) == Apply(Run(s, front), a)
    decreases |actions|
  {
    hide Enabled, Apply;
    if |actions| > 1 {
      var front := actions[..|actions| - 1];
      RunSnoc(Apply(s, actions[0]), actions[1..]);
      assert actions[1..][..|actions| - 2] == front[1..];
    }
  }

  /** Action `i` asked `h` to wake, and since then nobody else has and `h` has not consumed a request. */
  ghost predicate LastWaker(n: nat, actions: seq<Action>, h: nat, i: nat) {
    && i < |actions| && actions[i].Wake? && Targets(Init(n).mu, actions[i].target, h)
    && forall j :: i < j < |actions| ==>
         !Consumes(actions[j], h) && !(actions[j].Wake? && Targets(Init(n).mu, actions[j].target, h))
  }

  /** A request carries the clock that its waker had when it asked. */
  ghost predicate AskedAt(n: nat, actions: seq<Action>, i: nat, req: nat) {
    && i < |actions| && CanRun(Init(n), actions[..i]) && actions[i].h < n
    && req == Run(Init(n), actions[..i]).clock[actions[i].h] + 1
  }

  /** What a step that neither consumes nor renews the request of `h` leaves of it. */
  lemma RequestKept(s: State, a: Action, h: nat)
    requires s.Sized() && Enabled(s, a) && h < |s.pc| && !(a.Wake? && Targets(s.mu, a.target, h))
    ensures Apply(s, a).mu.req[h] == if Consumes(a, h) then 0 else s.mu.req[h]
  {
  }

  lemma LastWakerSnoc(n: nat, actions: seq<Action>, h: nat, i: nat, req: nat)
    requires actions != []
    requires LastWaker(n, actions[..|actions| - 1], h, i) && AskedAt(n, actions[..|actions| - 1], i, req)
    requires var a := actions[|actions| - 1];
             !Consumes(a, h) && !(a.Wake? && Targets(Init(n).mu, a.target, h))
    ensures LastWaker(n, actions, h, i) && AskedAt(n, actions, i, req)
  {
    hide Targets, Init, Run, CanRun;
    var front := actions[..|actions| - 1];
    assert front[..i] == actions[..i];
    assert forall j :: 0 <= j < |front| ==> front[j] == actions[j];
  }

  /** Every outstanding request in a run has a last waker. */
  lemma {:induction false} RequestOrigin(n: nat, actions: seq<Action>, h: nat) returns (i: nat)
    requires CanRun(Init(n), actions) && h < n && Run(Init(n), actions).mu.req[h] != 0
    ensures LastWaker(n, actions, h, i) && AskedAt(n, actions, i, Run(Init(n), actions).mu.req[h])
    decreases |actions|
  {
    assert actions != [];
    hide Enabled, Apply, Run, CanRun;
    var k := |actions| - 1;
    var front, a := actions[..k], actions[k];
    RunSnoc(Init(n), actions);
    var s := Run(Init(n), front);
    assert |s.mu.req| == n;
    if a.Wake? && Targets(Init(n).mu, a.target, h) {
      i := k;
      WakeSets(s, a, h);
    } else {
      RequestKept(s, a, h);
      i := RequestOrigin(n, front, h);
      LastWakerSnoc(n, actions, h, i, s.mu.req[h]);
    }
  }

  lemma WakeSets(s: State, a: Action, h: nat)
    requires s.Sized() && Enabled(s, a) && a.Wake? && Targets(s.mu, a.target, h)
    ensures a.h < |s.pc| && Apply(s, a).mu.req[h] == s.clock[a.h] + 1
  {
  }

  /**
   Clock order over whole runs: whenever a hart can get up, some earlier action asked it to, nobody has
   since and it has not used the request up; and getting up sets its clock above the clock which
   that waker had at the time, and not below its own.
   */
  lemma WokenAfterWaker(n: nat, actions: seq<Action>, h: nat) returns (i: nat)
    requires CanRun(Init(n), actions) && Enabled(Run(Init(n), actions), Leave(h))
    ensures LastWaker(n, actions, h, i) && CanRun(Init(n), actions[..i]) && actions[i].h < n
    ensures var s, asked := Run(Init(n), actions), Run(Init(n), actions[..i]).clock[actions[i].h];
            && Apply(s, Leave(h)).clock[h] > asked
            && Apply(s, Leave(h)).clock[h] == if s.clock[h] > asked then s.clock[h] else asked + 1
  {
    var s := Run(Init(n), actions);
    InitInv(n);
    RunInv(Init(n), actions);
    assert HartInv(s, h);
    i := RequestOrigin(n, actions, h);
  }

  // ---------- The record, updated in place ----------

  /** The guarded record; each method is one critical section. */
  class WakeupState {
    var num: nat
    var req: seq<nat>
    var wfi: seq<bool>

    ghost function View(): Shared
      reads this
    {
      Shared(num, req, wfi)
    }

    constructor (n: nat)
      ensures View() == Init(n).mu && num == 0 && |req| == |wfi| == n
      ensures forall h :: 0 <= h < n ==> req[h] == 0 && !wfi[h]
    {
      num, req, wfi := 0, seq(n, _ => 0), seq(n, _ => false);
    }

    method Wake(hart: nat, cycle: nat)
      modifies this`req
      ensures View() == WakeReq(old(View()), hart, cycle)
      ensures |req| == |old(req)|
      ensures forall j: nat | j < |req| ::
                req[j] == if hart == 0xFFFF_FFFF || hart == j then cycle + 1 else old(req)[j]
      ensures forall s: State, h: nat |
                s.Sized() && s.mu == old(View()) && Enabled(s, Action.Wake(h, hart)) && s.clock[h] == cycle ::
                Apply(s, Action.Wake(h, hart)).mu == View()
    {
      if hart == ALL_HARTS {
        var n := |req|;
        for i := 0 to n
          invariant |req| == n && forall j :: 0 <= j < i ==> req[j] == cycle + 1
        {
          req := req[i := cycle + 1];
        }
        assert req == seq(n, _ => cycle + 1);
      } else if hart < |req| {
        req := req[hart := cycle + 1];
      }
    }

    /** The two flags a sleeper reads under the lock. */
    method Test(h: nat) returns (poll: bool, exit: bool)
      requires h < |req|
      ensures Polling(poll, exit) == Decide(View(), h)
      ensures poll <==> req[h] == 0
      ensures exit <==> num == |req| && forall i :: 0 <= i < |req| ==> req[i] == 0
      ensures forall s: State | s.Sized() && s.mu == View() && Enabled(s, Poll(h)) ::
                Apply(s, Poll(h)).pc[h] == Polling(poll, exit)
    {
      CountNone(req, Requested());
      poll := req[h] == 0;
      var outstanding := 0;
      for i := 0 to |req|
        invariant outstanding + Count(req[i..], Requested()) == Count(req, Requested())
      {
        if req[i] != 0 {
          outstanding := outstanding + 1;
        }
        assert req[i..][1..] == req[i + 1..];
      }
      exit := num == |req| && outstanding == 0;
    }

    method Enter(h: nat, pending: bool) returns (skipped: bool, poll: bool, exit: bool)
      requires h < |req| && h < |wfi|
      modifies this
      ensures skipped == pending
      ensures req == (if pending then old(req)[h := 0] else old(req))
      ensures wfi == (if pending then old(wfi) else old(wfi)[h := true])
      ensures num == (if pending then old(num) else old(num) + 1)
      ensures !skipped ==> (poll <==> req[h] == 0)
      ensures !skipped ==> (exit <==> num == |req| && forall i :: 0 <= i < |req| ==> req[i] == 0)
      ensures forall s: State | s.Sized() && s.mu == old(View()) && Enabled(s, Sleep(h, pending)) ::
                var t := Apply(s, Sleep(h, pending));
                t.mu == View() && t.pc[h] == if skipped then Running else Polling(poll, exit)
    {
      if pending {
        req := req[h := 0];
        return true, false, false;
      }
      wfi := wfi[h := true];
      num := num + 1;
      skipped := false;
      poll, exit := Test(h);
    }

    method Exit(h: nat, cycle: nat) returns (clock: nat)
      requires h < |req| && h < |wfi| && num > 0
      modifies this
      ensures req == old(req)[h := 0] && wfi == old(wfi)[h := false] && num == old(num) - 1
      ensures clock == if cycle >= old(req[h]) then cycle else old(req[h])
      ensures forall s: State | s.Sized() && s.mu == old(View()) && Enabled(s, Leave(h)) && s.clock[h] == cycle ::
                var t := Apply(s, Leave(h));
                t.mu == View() && t.pc[h] == Running && t.clock[h] == clock
    {
      clock := if cycle >= req[h] then cycle else req[h];
      req, wfi, num := req[h := 0], wfi[h := false], num - 1;
    }
  }
}

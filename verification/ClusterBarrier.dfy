/**
 The barrier that the cores of one cluster share (`cluster_barrier` in
 `sw/banshee/src/engine.rs`): one atomic counter, two phases, core 0 coordinating.

 Each access to the counter is one step; steps of different harts interleave freely, over any
 number of harts and of barrier calls.
 */
module ClusterBarrier {
  import opened Counting

  /** Where a hart is in the barrier code; its next access to the counter follows from this. */
  datatype Pc =
    | Outside      // not in the barrier; the next step calls it
    | WaitFirst    // spinning before its first bump
    | BumpFirst    // about to bump
    | WaitSecond   // spinning after its first bump
    | Finish       // about to bump again and leave; core 0: about to reset and leave

  datatype Hart = Hart(pc: Pc, rounds: nat) {
    /** Barriers this hart has entered so far. */
    function Entered(): nat { rounds + if pc.Outside? then 0 else 1 }
  }

  /** `bumps` counts all `fetch_add`s so far; the code does not keep it. */
  datatype State = State(counter: nat, harts: seq<Hart>, bumps: nat)

  function Init(n: nat): (s: State)
    ensures |s.harts| == n && forall i :: 0 <= i < n ==> s.harts[i] == Hart(Outside, 0)
  {
    State(0, seq(n, _ => Hart(Outside, 0)), 0)
  }

  /** Whether the load of a spinning hart lets it go on. */
  predicate LoadPasses(s: State, h: nat)
    requires h < |s.harts|
  {
    var n := |s.harts|;
    match s.harts[h].pc
    case WaitFirst => if h == 0 then !(s.counter < n - 1) else !(s.counter >= n)
    case WaitSecond => if h == 0 then !(s.counter < 2 * n - 1) else !(s.counter < n)
    case _ => true
  }

  function Moved(s: State, h: nat, pc: Pc): State
    requires h < |s.harts|
  {
    s.(harts := s.harts[h := s.harts[h].(pc := pc)])
  }

  /** The next access of hart `h`; a load that does not let it go on leaves everything as it is. */
  function Step(s: State, h: nat): State
    requires h < |s.harts|
  {
    var hart := s.harts[h];
    match hart.pc
    case Outside => Moved(s, h, WaitFirst)
    case WaitFirst => if LoadPasses(s, h) then Moved(s, h, BumpFirst) else s
    case BumpFirst => Moved(s, h, WaitSecond).(counter := s.counter + 1, bumps := s.bumps + 1)
    case WaitSecond => if LoadPasses(s, h) then Moved(s, h, Finish) else s
    case Finish =>
      var left := s.(harts := s.harts[h := Hart(Outside, hart.rounds + 1)]);
      if h == 0 then left.(counter := 0) else left.(counter := s.counter + 1, bumps := s.bumps + 1)
  }

  /** The state after the harts named in the schedule have stepped, in that order. */
  function Run(s: State, schedule: seq<nat>): (t: State)
    requires forall i :: 0 <= i < |schedule| ==> schedule[i] < |s.harts|
    ensures |t.harts| == |s.harts|
    decreases |schedule|
  {
    if schedule == [] then s else Step(Run(s, schedule[..|schedule| - 1]), schedule[|schedule| - 1])
  }

  // ---------- The invariant ----------

  function Bumped(): Hart -> bool { (hart: Hart) => hart.pc == WaitSecond }

  function LeftRound(r: nat): Hart -> bool { (hart: Hart) => hart.rounds == r + 1 }

  /** Core 0 has not bumped in round `r`: the counter counts the other harts that have. */
  ghost predicate Gathering(s: State)
    requires |s.harts| >= 1
  {
    var r := s.harts[0].rounds;
    && (forall i :: 1 <= i < |s.harts| ==> s.harts[i].rounds == r && s.harts[i].pc != Finish)
    && s.counter == Count(s.harts[1..], Bumped())
    && (s.harts[0].pc == BumpFirst ==> s.counter == |s.harts| - 1)
  }

  /** Core 0 has bumped in round `r`: the counter counts, beyond N, the harts that have left it. */
  ghost predicate Releasing(s: State)
    requires |s.harts| >= 1
  {
    var r := s.harts[0].rounds;
    && (forall i :: 1 <= i < |s.harts| ==>
          || (s.harts[i].rounds == r && s.harts[i].pc in {WaitSecond, Finish})
          || (s.harts[i].rounds == r + 1 && s.harts[i].pc in {Outside, WaitFirst}))
    && s.counter == |s.harts| + Count(s.harts[1..], LeftRound(r))
    && (s.harts[0].pc == Finish ==> s.counter == 2 * |s.harts| - 1)
  }

  ghost predicate Inv(s: State) {
    |s.harts| >= 1 && if s.harts[0].pc in {WaitSecond, Finish} then Releasing(s) else Gathering(s)
  }

  /** All bumps so far: 2N-1 for each completed round of core 0, and those the counter still shows. */
  ghost predicate Tallied(s: State) {
    |s.harts| >= 1 && s.bumps == (2 * |s.harts| - 1) * s.harts[0].rounds + s.counter
  }

  lemma InitInv(n: nat)
    requires n >= 1
    ensures Inv(Init(n)) && Tallied(Init(n))
  {
    CountNone(Init(n).harts[1..], Bumped());
  }

  lemma TailUpdate(harts: seq<Hart>, h: nat, x: Hart, p: Hart -> bool)
    requires 1 <= h < |harts|
    ensures harts[h := x][0] == harts[0]
    ensures Count(harts[h := x][1..], p) + (if p(harts[h]) then 1 else 0)
         == Count(harts[1..], p) + (if p(x) then 1 else 0)
  {
    CountUpdate(harts[1..], h - 1, x, p);
    assert harts[h := x][1..] == harts[1..][h - 1 := x];
  }

  /** A step of a hart other than core 0. */
  lemma OtherStepInv(s: State, h: nat)
    requires Inv(s) && 1 <= h < |s.harts|
    ensures Inv(Step(s, h))
  {
    var x := Step(s, h).harts[h];
    var r := s.harts[0].rounds;
    TailUpdate(s.harts, h, x, Bumped());
    TailUpdate(s.harts, h, x, LeftRound(r));
    assert Step(s, h) == s || Step(s, h).harts == s.harts[h := x];
  }

  lemma TailMember(harts: seq<Hart>, p: Hart -> bool)
    requires |harts| >= 1
    ensures Count(harts[1..], p) == |harts| - 1 <==> forall i :: 1 <= i < |harts| ==> p(harts[i])
    ensures Count(harts[1..], p) == 0 <==> forall i :: 1 <= i < |harts| ==> !p(harts[i])
  {
    var tail := harts[1..];
    CountAll(tail, p);
    CountNone(tail, p);
    assert forall i :: 1 <= i < |harts| ==> harts[i] == tail[i - 1];
    assert forall i :: 0 <= i < |tail| ==> tail[i] == harts[i + 1];
  }

  /** A step of core 0. */
  lemma CoordinatorStepInv(s: State)
    requires Inv(s)
    ensures Inv(Step(s, 0))
  {
    var t, r := Step(s, 0), s.harts[0].rounds;
    assert t.harts[1..] == s.harts[1..];
    TailMember(s.harts, Bumped());
    TailMember(s.harts, LeftRound(r));
  }

  lemma StepTallied(s: State, h: nat)
    requires Inv(s) && Tallied(s) && h < |s.harts|
    ensures Tallied(Step(s, h))
  {
    if h == 0 && s.harts[0].pc == Finish {
      OneMoreRound(2 * |s.harts| - 1, s.harts[0].rounds);
    }
  }

  lemma OneMoreRound(m: int, r: int)
    ensures m * (r + 1) == m * r + m
  {
  }

  /** The invariant holds in every state that any interleaving reaches. */
  lemma {:induction false} RunInv(n: nat, schedule: seq<nat>)
    requires n >= 1 && forall i :: 0 <= i < |schedule| ==> schedule[i] < n
    ensures Inv(Run(Init(n), schedule)) && Tallied(Run(Init(n), schedule))
  {
    hide Inv, Tallied, Step;
    if schedule == [] {
      InitInv(n);
    } else {
      var k := |schedule| - 1;
      RunInv(n, schedule[..k]);
      var s, h := Run(Init(n), schedule[..k]), schedule[k];
      if h == 0 { CoordinatorStepInv(s); } else { OtherStepInv(s, h); }
      StepTallied(s, h);
    }
  }

  // ---------- Safety ----------

  /** No hart has left a barrier that some hart has not entered. */
  ghost predicate NobodyEarly(s: State) {
    forall i, j :: 0 <= i < |s.harts| && 0 <= j < |s.harts| ==> s.harts[i].rounds <= s.harts[j].Entered()
  }

  /** Barrier safety: for any number of harts, any interleaving and any number of rounds. */
  lemma BarrierSafety(n: nat, schedule: seq<nat>)
    requires n >= 1 && forall i :: 0 <= i < |schedule| ==> schedule[i] < n
    ensures NobodyEarly(Run(Init(n), schedule))
  {
    hide Run, Tallied;
    RunInv(n, schedule);
  }

  lemma ReadyToReset(s: State)
    requires Inv(s) && s.harts[0].pc == Finish
    ensures s.counter == 2 * |s.harts| - 1
    ensures forall i :: 1 <= i < |s.harts| ==>
              s.harts[i].rounds == s.harts[0].rounds + 1 && s.harts[i].pc in {Outside, WaitFirst}
  {
    TailMember(s.harts, LeftRound(s.harts[0].rounds));
  }

  /**
   Core 0 resets only a counter of 2N-1, when every other hart has left the round and none has bumped
   in the next one; so each reset erases exactly the 2N-1 bumps of its own round.
   */
  lemma ResetErasesOneRound(n: nat, schedule: seq<nat>)
    requires n >= 1 && forall i :: 0 <= i < |schedule| ==> schedule[i] < n
    ensures var s := Run(Init(n), schedule);
            && s.bumps == (2 * n - 1) * s.harts[0].rounds + s.counter
            && (s.harts[0].pc == Finish ==>
                  && s.counter == 2 * n - 1
                  && (forall i :: 1 <= i < n ==>
                        s.harts[i].rounds == s.harts[0].rounds + 1 && s.harts[i].pc in {Outside, WaitFirst}))
  {
    hide Run, Inv;
    RunInv(n, schedule);
    var s := Run(Init(n), schedule);
    if s.harts[0].pc == Finish {
      ReadyToReset(s);
    }
  }

  // ---------- Progress ----------

  /** Steps of the round already taken. */
  function Position(pc: Pc): nat {
    match pc
    case Outside => 0
    case WaitFirst => 1
    case BumpFirst => 2
    case WaitSecond => 3
    case Finish => 4
  }

  /** Steps left for a hart that calls the barrier `k` times. */
  function Remaining(hart: Hart, k: nat): int {
    5 * (k - hart.rounds) - Position(hart.pc)
  }

  function Remainders(s: State, k: nat): (ws: seq<int>)
    ensures |ws| == |s.harts| && forall i :: 0 <= i < |ws| ==> ws[i] == Remaining(s.harts[i], k)
  {
    seq(|s.harts|, i requires 0 <= i < |s.harts| => Remaining(s.harts[i], k))
  }

  function Work(s: State, k: nat): int {
    Sum(Remainders(s, k))
  }

  /** Hart `h` has calls left and its next step is not a spin. */
  predicate Useful(s: State, h: nat, k: nat) {
    h < |s.harts| && Remaining(s.harts[h], k) > 0 && LoadPasses(s, h)
  }

  /** Every hart is within its `k` calls. */
  ghost predicate Within(s: State, k: nat) {
    forall i :: 0 <= i < |s.harts| ==> Remaining(s.harts[i], k) >= 0
  }

  /** Each useful step takes exactly one unit of work. */
  lemma UsefulStepWork(s: State, h: nat, k: nat)
    requires Useful(s, h, k)
    ensures Work(Step(s, h), k) == Work(s, k) - 1
    ensures Within(s, k) ==> Within(Step(s, h), k)
  {
    var t := Step(s, h);
    SumUpdate(Remainders(s, k), h, Remaining(t.harts[h], k));
    assert Remainders(t, k) == Remainders(s, k)[h := Remaining(t.harts[h], k)];
  }

  /** Deadlock freedom: while work is left, some hart has a useful step. */
  lemma SomeoneMoves(s: State, k: nat)
    requires Inv(s) && Within(s, k) && Work(s, k) != 0
    ensures exists h :: Useful(s, h, k)
  {
    var n, r := |s.harts|, s.harts[0].rounds;
    var ws := Remainders(s, k);
    SumZero(ws);
    assert exists b :: 0 <= b < n && ws[b] != 0;
    var b :| 0 <= b < n && ws[b] != 0;
    assert Remaining(s.harts[b], k) > 0;
    if Useful(s, 0, k) || Useful(s, b, k) {
    } else if s.harts[0].pc == WaitFirst {
      SomeoneGathers(s, k);
    } else if s.harts[0].pc == WaitSecond {
      SomeoneLeaves(s, k);
    }
  }

  /** While core 0 waits for the others to gather, one of them can go on. */
  lemma SomeoneGathers(s: State, k: nat)
    requires Inv(s) && Within(s, k) && s.harts[0].pc == WaitFirst && !LoadPasses(s, 0)
    ensures exists h :: Useful(s, h, k)
  {
    TailMember(s.harts, Bumped());
    var i :| 1 <= i < |s.harts| && !Bumped()(s.harts[i]);
    assert Remaining(s.harts[0], k) >= 0;
    assert Useful(s, i, k);
  }

  /** While core 0 waits for the others to leave, one of them can. */
  lemma SomeoneLeaves(s: State, k: nat)
    requires Inv(s) && Within(s, k) && s.harts[0].pc == WaitSecond && !LoadPasses(s, 0)
    ensures exists h :: Useful(s, h, k)
  {
    var r := s.harts[0].rounds;
    TailMember(s.harts, LeftRound(r));
    var i :| 1 <= i < |s.harts| && !LeftRound(r)(s.harts[i]);
    assert Remaining(s.harts[i], k) >= 0 && Remaining(s.harts[0], k) >= 0;
    assert Useful(s, i, k);
  }

  /** A schedule all of whose steps are useful. */
  ghost predicate AllUseful(s: State, schedule: seq<nat>, k: nat)
    decreases |schedule|
  {
    schedule != [] ==>
      && AllUseful(s, schedule[..|schedule| - 1], k)
      && (forall i :: 0 <= i < |schedule| ==> schedule[i] < |s.harts|)
      && Useful(Run(s, schedule[..|schedule| - 1]), schedule[|schedule| - 1], k)
  }

  lemma {:induction false} RunWork(n: nat, schedule: seq<nat>, k: nat)
    requires n >= 1 && AllUseful(Init(n), schedule, k)
    requires forall i :: 0 <= i < |schedule| ==> schedule[i] < n
    ensures var s := Run(Init(n), schedule);
            Within(s, k) && |s.harts| == n && |schedule| + Work(s, k) == 5 * k * n
  {
    if schedule == [] {
      SumConstant(Remainders(Init(n), k), 5 * k);
    } else {
      hide Step, Useful, Work;
      var m := |schedule| - 1;
      RunWork(n, schedule[..m], k);
      UsefulStepWork(Run(Init(n), schedule[..m]), schedule[m], k);
    }
  }

  /** Every hart has left its k-th barrier, and each round took 2N-1 bumps. */
  ghost predicate Complete(s: State, k: nat) {
    && (forall i :: 0 <= i < |s.harts| ==> s.harts[i] == Hart(Outside, k))
    && s.counter == 0 && s.bumps == (2 * |s.harts| - 1) * k
  }

  /** With no work left, all calls are over and the counter is clean. */
  lemma AllDone(s: State, k: nat)
    requires Inv(s) && Tallied(s) && Within(s, k) && Work(s, k) == 0
    ensures Complete(s, k)
  {
    SumZero(Remainders(s, k));
    forall i | 0 <= i < |s.harts| ensures s.harts[i] == Hart(Outside, k) {
      assert Remainders(s, k)[i] == 0;
    }
    TailMember(s.harts, Bumped());
  }

  /**
   Barrier progress: let each of N harts call the barrier k times.  Leaving spins out, a run is never stuck
   before 5kN steps, and it is over after exactly that many: then every hart has left k barriers, the
   counter is back at 0, and there were exactly 2N-1 bumps per round.
   */
  lemma BarrierProgress(n: nat, schedule: seq<nat>, k: nat)
    requires n >= 1 && AllUseful(Init(n), schedule, k)
    requires forall i :: 0 <= i < |schedule| ==> schedule[i] < n
    ensures |schedule| <= 5 * k * n
    ensures var s := Run(Init(n), schedule);
            if |schedule| < 5 * k * n then exists h :: Useful(s, h, k) else Complete(s, k)
  {
    hide Run, Inv, Tallied, Complete, Useful, AllUseful;
    RunWork(n, schedule, k);
    RunInv(n, schedule);
    var s := Run(Init(n), schedule);
    SumZero(Remainders(s, k));
    if Work(s, k) == 0 {
      AllDone(s, k);
    } else {
      SomeoneMoves(s, k);
    }
  }

  // ---------- The shared counter, updated in place ----------

  function Harts(pcs: seq<Pc>, rounds: seq<nat>): (harts: seq<Hart>)
    requires |pcs| == |rounds|
    ensures |harts| == |pcs| && forall i :: 0 <= i < |pcs| ==> harts[i] == Hart(pcs[i], rounds[i])
  {
    seq(|pcs|, i requires 0 <= i < |pcs| => Hart(pcs[i], rounds[i]))
  }

  /** One cluster: the atomic `barrier` and the harts that access it. */
  class Cluster {
    var barrier: nat
    var pcs: seq<Pc>
    var rounds: seq<nat>
    ghost var bumps: nat

    ghost predicate Valid()
      reads this
    {
      |pcs| == |rounds| >= 1
    }

    ghost function View(): State
      requires Valid()
      reads this
    {
      State(barrier, Harts(pcs, rounds), bumps)
    }

    constructor (n: nat)
      requires n >= 1
      ensures Valid() && View() == Init(n)
    {
      barrier, pcs, rounds, bumps := 0, seq(n, _ => Outside), seq(n, _ => 0), 0;
    }

    /** Hart `h` makes its next access. */
    method Access(h: nat)
      requires Valid() && h < |pcs|
      modifies this
      ensures Valid() && |pcs| == old(|pcs|) && View() == Step(old(View()), h)
    {
      var n := |pcs|;
      match pcs[h]
      case Outside =>
        pcs := pcs[h := WaitFirst];
      case WaitFirst =>
        if h == 0 {
          if barrier < n - 1 { return; }
        } else {
          if barrier >= n { return; }
        }
        pcs := pcs[h := BumpFirst];
      case BumpFirst =>
        barrier, bumps := barrier + 1, bumps + 1;
        pcs := pcs[h := WaitSecond];
      case WaitSecond =>
        if h == 0 {
          if barrier < 2 * n - 1 { return; }
        } else {
          if barrier < n { return; }
        }
        pcs := pcs[h := Finish];
      case Finish =>
        if h == 0 {
          barrier := 0;
        } else {
          barrier, bumps := barrier + 1, bumps + 1;
        }
        pcs, rounds := pcs[h := Outside], rounds[h := rounds[h] + 1];
    }
  }
}

/**
 Emulation of the floating-point sequencer (`emul_seq` in `util/gen_trace.py`): an online state machine over
 FIFOs that replays hardware loops (FREPs), shown to issue exactly what unrolling the program gives.

 Queues are written oldest first: adding at the left of a deque appends here, and popping at its
 right takes the first element.
 */
module Sequencer {
  import opened Common

  type PcStr = string

  /** An instruction the core offloads: its PC, the section it belongs to, and whether it is an FREP. */
  datatype Offload = Offload(pc: PcStr, sec: nat, isFrep: bool)

  datatype Cfg = Cfg(maxInst: nat, maxRpt: nat, isOuter: bool, fseqPc: PcStr)

  /** A loop-buffer entry: the instruction with its repetition and its index in the body. */
  datatype Entry = Entry(pc: PcStr, sec: nat, rep: nat, inst: nat)

  /** The FREP being worked on. */
  datatype Active = Active(cfg: Cfg, instIter: nat, fpssBuf: seq<Entry>, outerBuf: seq<Entry>)

  datatype State = State(fpssPcs: seq<Offload>, cfgBuf: seq<Cfg>, curr: Option<Active>)

  /** What one call returns. */
  datatype Issue = Issue(pc: PcStr, sec: nat, fseqPc: Option<PcStr>, annot: Option<(nat, nat)>)

  /** Popping an empty queue raises; a nested FREP ends a non-permissive run. */
  datatype Failure = EmptyQueue | NestedFrep

  // ---------- One call ----------

  /** Consume an incoming FREP if none is being worked on. */
  function Start(s: State): Result<State, Failure> {
    if s.curr.None? && s.fpssPcs != [] && s.fpssPcs[0].isFrep then
      if s.cfgBuf == [] then Err(EmptyQueue)
      else Ok(State(s.fpssPcs[1..], s.cfgBuf[1..], Some(Active(s.cfgBuf[0], 0, [], []))))
    else Ok(s)
  }

  /** The copies 0..hi of one body instruction, as an inner loop issues them. */
  function Copies(pc: PcStr, sec: nat, inst: nat, hi: nat): seq<Entry> {
    if hi == 0 then [] else Copies(pc, sec, inst, hi - 1) + [Entry(pc, sec, hi - 1, inst)]
  }

  /** One pass over a loop body. */
  function Pass(buf: seq<Entry>, rep: nat): (es: seq<Entry>)
    ensures |es| == |buf|
    ensures forall i :: 0 <= i < |es| ==> es[i] == Entry(buf[i].pc, buf[i].sec, rep, i)
  {
    seq(|buf|, i requires 0 <= i < |buf| => Entry(buf[i].pc, buf[i].sec, rep, i))
  }

  /** Passes lo..hi over a loop body, as an outer loop issues them. */
  function Passes(buf: seq<Entry>, lo: nat, hi: nat): seq<Entry>
    requires lo <= hi
    decreases hi - lo
  {
    if lo == hi then [] else Passes(buf, lo, hi - 1) + Pass(buf, hi - 1)
  }

  /** Take one body instruction into the loop buffer and replicate it. */
  function Take(a: Active, o: Offload): Active {
    if a.cfg.isOuter then
      var e := Entry(o.pc, o.sec, 0, a.instIter);
      var outer := a.outerBuf + [e];
      var copies := if a.instIter == a.cfg.maxInst then Passes(outer, 1, a.cfg.maxRpt + 1) else [];
      a.(fpssBuf := a.fpssBuf + [e] + copies, outerBuf := outer, instIter := a.instIter + 1)
    else
      a.(fpssBuf := a.fpssBuf + Copies(o.pc, o.sec, a.instIter, a.cfg.maxRpt + 1), instIter := a.instIter + 1)
  }

  /** Fill the loop buffer while the body is still coming in. */
  function Fill(s: State): Result<State, Failure>
    requires s.curr.Some?
  {
    var a := s.curr.value;
    if a.instIter <= a.cfg.maxInst then
      if s.fpssPcs == [] then Err(EmptyQueue)
      else if s.fpssPcs[0].isFrep then Err(NestedFrep)
      else Ok(s.(fpssPcs := s.fpssPcs[1..], curr := Some(Take(a, s.fpssPcs[0]))))
    else Ok(s)
  }

  /** Issue the oldest entry of the loop buffer; the last one ends the FREP. */
  function Drain(s: State): Result<(State, Issue), Failure>
    requires s.curr.Some?
  {
    var a := s.curr.value;
    if a.fpssBuf == [] then Err(EmptyQueue)
    else
      var e := a.fpssBuf[0];
      var last := e.rep == a.cfg.maxRpt && e.inst == a.cfg.maxInst;
      Ok((s.(curr := if last then None else Some(a.(fpssBuf := a.fpssBuf[1..]))), IssueOf(a.cfg, e)))
  }

  function IssueOf(cfg: Cfg, e: Entry): Issue {
    Issue(e.pc, e.sec, Some(cfg.fseqPc), Some((e.rep, e.inst)))
  }

  function Emul(s: State): Result<(State, Issue), Failure> {
    match Start(s)
    case Err(f) => Err(f)
    case Ok(t) =>
      if t.curr.None? then
        if t.fpssPcs == [] then Err(EmptyQueue)
        else Ok((t.(fpssPcs := t.fpssPcs[1..]), Issue(t.fpssPcs[0].pc, t.fpssPcs[0].sec, None, None)))
      else
        match Fill(t)
        case Err(f) => Err(f)
        case Ok(u) => Drain(u)
  }

  /** The offloads that the body of an FREP is taken from: those behind the FREP itself if this call starts it. */
  function BodyQueue(s: State): seq<Offload> {
    if s.curr.None? && s.fpssPcs != [] then s.fpssPcs[1..] else s.fpssPcs
  }

  /** This call takes in an instruction of an FREP body: it starts a configured FREP, or one is still coming in. */
  predicate TakesBody(s: State) {
    match s.curr
    case None => s.fpssPcs != [] && s.fpssPcs[0].isFrep && s.cfgBuf != []
    case Some(a) => a.instIter <= a.cfg.maxInst
  }

  /** A call ends the program for a nested FREP exactly if the next body instruction is an FREP. */
  lemma NestedExactly(s: State)
    ensures Emul(s) == Err(NestedFrep) <==> TakesBody(s) && BodyQueue(s) != [] && BodyQueue(s)[0].isFrep
  {
  }

  /** `n` calls in a row. */
  function Calls(s: State, n: nat): Result<(State, seq<Issue>), Failure>
    decreases n
  {
    if n == 0 then Ok((s, []))
    else
      match Emul(s)
      case Err(f) => Err(f)
      case Ok((t, o)) =>
        match Calls(t, n - 1)
        case Err(f) => Err(f)
        case Ok((u, os)) => Ok((u, [o] + os))
  }

  // ---------- The reference: unrolling ----------

  datatype Insn = Insn(pc: PcStr, sec: nat)

  /** A program is a list of plain instructions and of FREPs with their bodies. */
  datatype Item = Plain(insn: Insn) | Frep(pc: PcStr, sec: nat, cfg: Cfg, body: seq<Insn>) {
    ghost predicate WellFormed() { Frep? ==> |body| == cfg.maxInst + 1 }
  }

  ghost function OffloadsOf(body: seq<Insn>): (os: seq<Offload>)
    ensures |os| == |body| && forall i :: 0 <= i < |os| ==> os[i] == Offload(body[i].pc, body[i].sec, false)
  {
    seq(|body|, i requires 0 <= i < |body| => Offload(body[i].pc, body[i].sec, false))
  }

  /** The body once, as repetition `rep`. */
  ghost function OnePass(cfg: Cfg, body: seq<Insn>, rep: nat): (os: seq<Issue>)
    ensures |os| == |body|
    ensures forall i :: 0 <= i < |os| ==> os[i] == Issue(body[i].pc, body[i].sec, Some(cfg.fseqPc), Some((rep, i)))
  {
    seq(|body|, i requires 0 <= i < |body| => Issue(body[i].pc, body[i].sec, Some(cfg.fseqPc), Some((rep, i))))
  }

  /** Body instruction `k`, all its repetitions. */
  ghost function AllReps(cfg: Cfg, insn: Insn, k: nat): (os: seq<Issue>)
    ensures |os| == cfg.maxRpt + 1
    ensures forall r :: 0 <= r < |os| ==> os[r] == Issue(insn.pc, insn.sec, Some(cfg.fseqPc), Some((r, k)))
  {
    seq(cfg.maxRpt + 1, r requires 0 <= r => Issue(insn.pc, insn.sec, Some(cfg.fseqPc), Some((r, k))))
  }

  /** Repetition-major: the whole body, again and again. */
  ghost function OuterLoop(cfg: Cfg, body: seq<Insn>, reps: nat): seq<Issue> {
    if reps == 0 then [] else OuterLoop(cfg, body, reps - 1) + OnePass(cfg, body, reps - 1)
  }

  /** Instruction-major: each body instruction with all its repetitions. */
  ghost function InnerLoop(cfg: Cfg, body: seq<Insn>): seq<Issue> {
    if body == [] then [] else InnerLoop(cfg, body[..|body| - 1]) + AllReps(cfg, body[|body| - 1], |body| - 1)
  }

  ghost function Unroll(item: Item): seq<Issue> {
    match item
    case Plain(insn) => [Issue(insn.pc, insn.sec, None, None)]
    case Frep(_, _, cfg, body) =>
      if cfg.isOuter then OuterLoop(cfg, body, cfg.maxRpt + 1) else InnerLoop(cfg, body)
  }

  ghost function Offloads(item: Item): seq<Offload> {
    match item
    case Plain(insn) => [Offload(insn.pc, insn.sec, false)]
    case Frep(pc, sec, _, body) => [Offload(pc, sec, true)] + OffloadsOf(body)
  }

  ghost function Configs(item: Item): seq<Cfg> {
    match item
    case Plain(_) => []
    case Frep(_, _, cfg, _) => [cfg]
  }

  ghost predicate WellFormed(p: seq<Item>) {
    forall i :: 0 <= i < |p| ==> p[i].WellFormed()
  }

  ghost function UnrollAll(p: seq<Item>): seq<Issue> {
    if p == [] then [] else UnrollAll(p[..|p| - 1]) + Unroll(p[|p| - 1])
  }

  ghost function OffloadsAll(p: seq<Item>): seq<Offload> {
    if p == [] then [] else OffloadsAll(p[..|p| - 1]) + Offloads(p[|p| - 1])
  }

  ghost function ConfigsAll(p: seq<Item>): seq<Cfg> {
    if p == [] then [] else ConfigsAll(p[..|p| - 1]) + Configs(p[|p| - 1])
  }

  // ---------- What the loop buffer has received ----------

  /** Entries pushed so far when `body` is the part of the loop body taken in. */
  ghost function Pushed(cfg: Cfg, body: seq<Insn>): seq<Entry> {
    if cfg.isOuter then
      Pass(First(body), 0) + if |body| == cfg.maxInst + 1 then Passes(First(body), 1, cfg.maxRpt + 1) else []
    else PushedInner(cfg, body)
  }

  ghost function PushedInner(cfg: Cfg, body: seq<Insn>): seq<Entry> {
    if body == [] then []
    else
      var k := |body| - 1;
      PushedInner(cfg, body[..k]) + Copies(body[k].pc, body[k].sec, k, cfg.maxRpt + 1)
  }

  /** The body as an outer loop buffers it. */
  ghost function First(body: seq<Insn>): (es: seq<Entry>)
    ensures |es| == |body| && forall i :: 0 <= i < |es| ==> es[i] == Entry(body[i].pc, body[i].sec, 0, i)
  {
    seq(|body|, i requires 0 <= i < |body| => Entry(body[i].pc, body[i].sec, 0, i))
  }

  ghost function IssuesOf(cfg: Cfg, es: seq<Entry>): (os: seq<Issue>)
    ensures |os| == |es| && forall i :: 0 <= i < |os| ==> os[i] == IssueOf(cfg, es[i])
  {
    seq(|es|, i requires 0 <= i < |es| => IssueOf(cfg, es[i]))
  }

  lemma IssuesConcat(cfg: Cfg, a: seq<Entry>, b: seq<Entry>)
    ensures IssuesOf(cfg, a + b) == IssuesOf(cfg, a) + IssuesOf(cfg, b)
  {
  }

  lemma {:induction false} CopiesAre(pc: PcStr, sec: nat, inst: nat, hi: nat)
    ensures |Copies(pc, sec, inst, hi)| == hi
    ensures forall r :: 0 <= r < hi ==> Copies(pc, sec, inst, hi)[r] == Entry(pc, sec, r, inst)
  {
    if hi > 0 { CopiesAre(pc, sec, inst, hi - 1); }
  }

  lemma {:induction false} PassesFromZero(buf: seq<Entry>, hi: nat)
    requires hi >= 1
    ensures Passes(buf, 0, hi) == Pass(buf, 0) + Passes(buf, 1, hi)
  {
    if hi > 1 {
      PassesFromZero(buf, hi - 1);
    } else {
      assert Passes(buf, 0, 1) == Passes(buf, 0, 0) + Pass(buf, 0);
    }
  }

  lemma {:induction false} PassesUnroll(cfg: Cfg, body: seq<Insn>, reps: nat)
    ensures IssuesOf(cfg, Passes(First(body), 0, reps)) == OuterLoop(cfg, body, reps)
  {
    if reps > 0 {
      PassesUnroll(cfg, body, reps - 1);
      IssuesConcat(cfg, Passes(First(body), 0, reps - 1), Pass(First(body), reps - 1));
    }
  }

  lemma {:induction false} InnerUnroll(cfg: Cfg, body: seq<Insn>)
    ensures IssuesOf(cfg, PushedInner(cfg, body)) == InnerLoop(cfg, body)
  {
    if body != [] {
      var k := |body| - 1;
      InnerUnroll(cfg, body[..k]);
      CopiesAre(body[k].pc, body[k].sec, k, cfg.maxRpt + 1);
      IssuesConcat(cfg, PushedInner(cfg, body[..k]), Copies(body[k].pc, body[k].sec, k, cfg.maxRpt + 1));
    }
  }

  /** Once the body is in, the buffer has received exactly the unrolled loop. */
  lemma PushedIsUnrolled(pc: PcStr, sec: nat, cfg: Cfg, body: seq<Insn>)
    requires |body| == cfg.maxInst + 1
    ensures IssuesOf(cfg, Pushed(cfg, body)) == Unroll(Frep(pc, sec, cfg, body))
  {
    if cfg.isOuter {
      PassesFromZero(First(body), cfg.maxRpt + 1);
      PassesUnroll(cfg, body, cfg.maxRpt + 1);
    } else {
      InnerUnroll(cfg, body);
    }
  }

  lemma {:induction false} PassesIndices(buf: seq<Entry>, lo: nat, hi: nat)
    requires lo <= hi
    ensures |Passes(buf, lo, hi)| == (hi - lo) * |buf|
    ensures forall j :: 0 <= j < |Passes(buf, lo, hi)| ==>
              var e := Passes(buf, lo, hi)[j];
              && e.rep < hi && e.inst < |buf|
              && (e.rep == hi - 1 && e.inst == |buf| - 1 ==> j == |Passes(buf, lo, hi)| - 1)
    ensures lo < hi && buf != [] ==>
              var last := Passes(buf, lo, hi)[|Passes(buf, lo, hi)| - 1];
              |Passes(buf, lo, hi)| > 0 && last.rep == hi - 1 && last.inst == |buf| - 1
    decreases hi - lo
  {
    if lo < hi {
      PassesIndices(buf, lo, hi - 1);
      assert (hi - lo) * |buf| == (hi - 1 - lo) * |buf| + |buf|;
    }
  }

  lemma OneMore(k: nat, n: nat)
    ensures (k + 1) * n == k * n + n
  {
  }

  lemma {:induction false} InnerIndices(cfg: Cfg, body: seq<Insn>)
    ensures |PushedInner(cfg, body)| == |body| * (cfg.maxRpt + 1)
    ensures forall j :: 0 <= j < |PushedInner(cfg, body)| ==>
              var e := PushedInner(cfg, body)[j];
              e.inst < |body| && (e.rep == cfg.maxRpt && e.inst == |body| - 1 <==> j == |PushedInner(cfg, body)| - 1)
  {
    if body != [] {
      var k := |body| - 1;
      InnerIndices(cfg, body[..k]);
      CopiesAre(body[k].pc, body[k].sec, k, cfg.maxRpt + 1);
      OneMore(k, cfg.maxRpt + 1);
    }
  }

  /** The entry that ends the FREP is the very last one of the unrolled loop, and comes only with a full body. */
  ghost predicate EndsLast(cfg: Cfg, body: seq<Insn>) {
    forall j :: 0 <= j < |Pushed(cfg, body)| ==>
      (Pushed(cfg, body)[j].rep == cfg.maxRpt && Pushed(cfg, body)[j].inst == cfg.maxInst <==>
        |body| == cfg.maxInst + 1 && j == |Pushed(cfg, body)| - 1)
  }

  lemma PushedEndsLast(cfg: Cfg, body: seq<Insn>)
    requires |body| <= cfg.maxInst + 1
    ensures EndsLast(cfg, body)
    ensures |body| == cfg.maxInst + 1 ==> |Pushed(cfg, body)| == (cfg.maxInst + 1) * (cfg.maxRpt + 1)
  {
    if !cfg.isOuter {
      InnerIndices(cfg, body);
    } else if |body| == cfg.maxInst + 1 {
      PassesFromZero(First(body), cfg.maxRpt + 1);
      PassesIndices(First(body), 0, cfg.maxRpt + 1);
    }
  }

  /** Taking in one more instruction only appends. */
  lemma PushedGrows(cfg: Cfg, body: seq<Insn>, insn: Insn)
    requires |body| <= cfg.maxInst
    ensures Pushed(cfg, body) < Pushed(cfg, body + [insn])
  {
    assert (body + [insn])[..|body|] == body;
    if cfg.isOuter {
      assert Pass(First(body + [insn]), 0) == Pass(First(body), 0) + [Entry(insn.pc, insn.sec, 0, |body|)];
    } else {
      CopiesAre(insn.pc, insn.sec, |body|, cfg.maxRpt + 1);
    }
  }

  lemma {:induction false} PushedPrefix(cfg: Cfg, body: seq<Insn>, c: nat)
    requires c <= |body| <= cfg.maxInst + 1
    ensures Pushed(cfg, body[..c]) <= Pushed(cfg, body)
    decreases |body| - c
  {
    if c == |body| {
      assert body[..c] == body;
    } else {
      PushedGrows(cfg, body[..c], body[c]);
      assert body[..c] + [body[c]] == body[..c + 1];
      PushedPrefix(cfg, body, c + 1);
    }
  }

  // ---------- One call in the middle of an FREP ----------

  /** `a` has taken in `body` and issued `j` entries, and is not finished. */
  ghost predicate Working(a: Active, body: seq<Insn>, j: nat) {
    && a.instIter == |body| <= a.cfg.maxInst + 1
    && a.outerBuf == (if a.cfg.isOuter then First(body) else [])
    && j <= |Pushed(a.cfg, body)| && a.fpssBuf == Pushed(a.cfg, body)[j..]
    && (|body| == a.cfg.maxInst + 1 ==> j < |Pushed(a.cfg, body)|)
  }

  lemma TakeOuter(a: Active, body: seq<Insn>, j: nat, insn: Insn)
    requires Working(a, body, j) && |body| <= a.cfg.maxInst && a.cfg.isOuter
    ensures var t := Take(a, Offload(insn.pc, insn.sec, false));
            && t.outerBuf == First(body + [insn])
            && t.fpssBuf == Pushed(a.cfg, body)[j..] + Pushed(a.cfg, body + [insn])[|Pushed(a.cfg, body)|..]
  {
    hide Passes;
    var more, e := body + [insn], Entry(insn.pc, insn.sec, 0, |body|);
    assert First(body) + [e] == First(more);
    assert Pass(First(more), 0) == Pass(First(body), 0) + [e];
  }

  lemma TakeInner(a: Active, body: seq<Insn>, j: nat, insn: Insn)
    requires Working(a, body, j) && |body| <= a.cfg.maxInst && !a.cfg.isOuter
    ensures var t := Take(a, Offload(insn.pc, insn.sec, false));
            && t.fpssBuf == Pushed(a.cfg, body)[j..] + Pushed(a.cfg, body + [insn])[|Pushed(a.cfg, body)|..]
  {
    hide Copies;
    assert (body + [insn])[..|body|] == body;
  }

  lemma SuffixOfLonger<T>(a: seq<T>, b: seq<T>, j: nat)
    requires j <= |a| && a <= b
    ensures a[j..] + b[|a|..] == b[j..]
  {
  }

  lemma TakeWorks(a: Active, body: seq<Insn>, j: nat, insn: Insn)
    requires Working(a, body, j) && |body| <= a.cfg.maxInst
    ensures var t := Take(a, Offload(insn.pc, insn.sec, false));
            && t.cfg == a.cfg && Working(t, body + [insn], j) && j < |Pushed(a.cfg, body + [insn])|
  {
    if a.cfg.isOuter { TakeOuter(a, body, j, insn); } else { TakeInner(a, body, j, insn); }
    PushedGrows(a.cfg, body, insn);
    SuffixOfLonger(Pushed(a.cfg, body), Pushed(a.cfg, body + [insn]), j);
    hide Pushed;
  }

  /** Where an FREP stands after its j-th issue. */
  ghost predicate Progress(cfg: Cfg, curr: Option<Active>, body: seq<Insn>, j: nat) {
    match curr
    case None => |body| == cfg.maxInst + 1 && j == |Pushed(cfg, body)|
    case Some(a) => a.cfg == cfg && Working(a, body, j)
  }

  lemma DrainWorks(s: State, body: seq<Insn>, j: nat)
    requires s.curr.Some? && Working(s.curr.value, body, j) && j < |Pushed(s.curr.value.cfg, body)|
    ensures var cfg := s.curr.value.cfg;
            && Drain(s).Ok? && Drain(s).value.1 == IssueOf(cfg, Pushed(cfg, body)[j])
            && Drain(s).value.0.(curr := None) == s.(curr := None)
            && Progress(cfg, Drain(s).value.0.curr, body, j + 1)
  {
    var a := s.curr.value;
    PushedEndsLast(a.cfg, body);
    assert a.fpssBuf[0] == Pushed(a.cfg, body)[j];
    assert a.fpssBuf[1..] == Pushed(a.cfg, body)[j + 1..];
  }

  /** The next body instruction comes in, and the next entry is issued. */
  lemma FillingCall(s: State, body: seq<Insn>, j: nat, insn: Insn)
    requires s.curr.Some? && Working(s.curr.value, body, j) && |body| <= s.curr.value.cfg.maxInst
    requires s.fpssPcs != [] && s.fpssPcs[0] == Offload(insn.pc, insn.sec, false)
    ensures var cfg, r := s.curr.value.cfg, Emul(s);
            && r.Ok? && j < |Pushed(cfg, body + [insn])| && r.value.1 == IssueOf(cfg, Pushed(cfg, body + [insn])[j])
            && r.value.0.fpssPcs == s.fpssPcs[1..] && r.value.0.cfgBuf == s.cfgBuf
            && Progress(cfg, r.value.0.curr, body + [insn], j + 1)
  {
    TakeWorks(s.curr.value, body, j, insn);
    var u := s.(fpssPcs := s.fpssPcs[1..], curr := Some(Take(s.curr.value, s.fpssPcs[0])));
    assert Start(s) == Ok(s) && Fill(s) == Ok(u);
    DrainWorks(u, body + [insn], j);
  }

  /** The body is in; the next entry is issued. */
  lemma DrainingCall(s: State, body: seq<Insn>, j: nat)
    requires s.curr.Some? && Working(s.curr.value, body, j) && |body| == s.curr.value.cfg.maxInst + 1
    ensures var cfg, r := s.curr.value.cfg, Emul(s);
            && r.Ok? && r.value.1 == IssueOf(cfg, Pushed(cfg, body)[j])
            && r.value.0.fpssPcs == s.fpssPcs && r.value.0.cfgBuf == s.cfgBuf
            && Progress(cfg, r.value.0.curr, body, j + 1)
  {
    assert Start(s) == Ok(s) && Fill(s) == Ok(s);
    DrainWorks(s, body, j);
  }

  // ---------- Whole programs ----------

  lemma CallThen(s: State, t: State, o: Issue, n: nat, u: State, os: seq<Issue>)
    requires Emul(s) == Ok((t, o)) && Calls(t, n) == Ok((u, os))
    ensures Calls(s, n + 1) == Ok((u, [o] + os))
  {
    hide Emul;
  }

  lemma CallOnce(s: State, t: State, o: Issue)
    requires Emul(s) == Ok((t, o))
    ensures Calls(s, 1) == Ok((t, [o]))
  {
    hide Emul;
    assert Calls(t, 0) == Ok((t, [])) && [o] + [] == [o];
  }

  /** An FREP of which `c` instructions are in, `j` entries are out, and the rest of the body is queued. */
  ghost predicate Midway(s: State, cfg: Cfg, body: seq<Insn>, c: nat, j: nat, rest: seq<Offload>) {
    && c <= |body| == cfg.maxInst + 1
    && s.curr.Some? && s.curr.value.cfg == cfg && Working(s.curr.value, body[..c], j)
    && s.fpssPcs == OffloadsOf(body[c..]) + rest
  }

  lemma {:induction false} MidwayCall(s: State, cfg: Cfg, body: seq<Insn>, c: nat, j: nat, rest: seq<Offload>)
      returns (t: State, o: Issue, c': nat)
    requires Midway(s, cfg, body, c, j, rest)
    ensures j < |Pushed(cfg, body)| && Emul(s) == Ok((t, o)) && o == IssueOf(cfg, Pushed(cfg, body)[j])
    ensures t.cfgBuf == s.cfgBuf
    ensures c' == (if c < |body| then c + 1 else c) && |t.fpssPcs| == |body| - c' + |rest|
    ensures if j + 1 == |Pushed(cfg, body)| then t == State(rest, s.cfgBuf, None)
            else Midway(t, cfg, body, c', j + 1, rest)
  {
    hide Emul, Pushed;
    var more: seq<Insn>;
    if c < |body| {
      c', more := c + 1, body[..c] + [body[c]];
      assert more == body[..c'];
      assert OffloadsOf(body[c..])[1..] == OffloadsOf(body[c'..]);
      assert s.fpssPcs[1..] == OffloadsOf(body[c'..]) + rest;
      FillingCall(s, body[..c], j, body[c]);
    } else {
      c', more := c, body;
      assert body[..c] == body;
      DrainingCall(s, body, j);
    }
    t, o := Emul(s).value.0, Emul(s).value.1;
    PushedPrefix(cfg, body, c');
    if c' == |body| {
      assert more == body && OffloadsOf(body[c'..]) + rest == rest;
    } else {
      PushedShorter(cfg, body, c');
    }
  }

  lemma PushedShorter(cfg: Cfg, body: seq<Insn>, c: nat)
    requires c < |body| <= cfg.maxInst + 1
    ensures |Pushed(cfg, body[..c])| < |Pushed(cfg, body)|
  {
    PushedGrows(cfg, body[..c], body[c]);
    assert body[..c] + [body[c]] == body[..c + 1];
    PushedPrefix(cfg, body, c + 1);
  }

  /** The rest of an FREP is issued unrolled. */
  lemma {:induction false} FrepCalls(s: State, cfg: Cfg, body: seq<Insn>, c: nat, j: nat, rest: seq<Offload>)
    requires Midway(s, cfg, body, c, j, rest)
    ensures j < |Pushed(cfg, body)|
    ensures Calls(s, |Pushed(cfg, body)| - j)
         == Ok((State(rest, s.cfgBuf, None), IssuesOf(cfg, Pushed(cfg, body)[j..])))
    decreases |Pushed(cfg, body)| - j
  {
    hide *;
    var all := Pushed(cfg, body);
    var t, o, c' := MidwayCall(s, cfg, body, c, j, rest);
    var u := State(rest, s.cfgBuf, None);
    if j + 1 == |all| {
      CallOnce(s, t, o);
      assert [o] == IssuesOf(cfg, all[j..]);
    } else {
      FrepCalls(t, cfg, body, c', j + 1, rest);
      CallThen(s, t, o, |all| - j - 1, u, IssuesOf(cfg, all[j + 1..]));
      assert [o] + IssuesOf(cfg, all[j + 1..]) == IssuesOf(cfg, all[j..]);
    }
  }

  /** Starting an FREP costs no call of its own. */
  lemma StartIsFree(s: State, t: State, n: nat)
    requires n > 0 && Start(s) == Ok(t) && Start(t) == Ok(t)
    ensures Calls(s, n) == Calls(t, n)
  {
    assert Emul(s) == Emul(t) by { hide Fill, Drain; }
    hide Emul;
  }

  lemma StartFrep(pc: PcStr, sec: nat, cfg: Cfg, body: seq<Insn>, rest: seq<Offload>, cfgs: seq<Cfg>)
    requires |body| == cfg.maxInst + 1
    ensures var s := State([Offload(pc, sec, true)] + OffloadsOf(body) + rest, [cfg] + cfgs, None);
            var t := State(OffloadsOf(body) + rest, cfgs, Some(Active(cfg, 0, [], [])));
            Start(s) == Ok(t) && Start(t) == Ok(t) && Midway(t, cfg, body, 0, 0, rest)
  {
    assert ([Offload(pc, sec, true)] + OffloadsOf(body) + rest)[1..] == OffloadsOf(body) + rest;
    assert ([cfg] + cfgs)[1..] == cfgs;
    assert body[..0] == [] && body[0..] == body && Pushed(cfg, []) == [];
  }

  lemma FrepItemCalls(pc: PcStr, sec: nat, cfg: Cfg, body: seq<Insn>, rest: seq<Offload>, cfgs: seq<Cfg>)
    requires |body| == cfg.maxInst + 1
    ensures var s := State([Offload(pc, sec, true)] + OffloadsOf(body) + rest, [cfg] + cfgs, None);
            var n := |Pushed(cfg, body)|;
            n > 0 && Calls(s, n) == Ok((State(rest, cfgs, None), IssuesOf(cfg, Pushed(cfg, body))))
  {
    var s := State([Offload(pc, sec, true)] + OffloadsOf(body) + rest, [cfg] + cfgs, None);
    var t := State(OffloadsOf(body) + rest, cfgs, Some(Active(cfg, 0, [], [])));
    StartFrep(pc, sec, cfg, body, rest, cfgs);
    FrepCalls(t, cfg, body, 0, 0, rest);
    assert Pushed(cfg, body)[0..] == Pushed(cfg, body);
    StartIsFree(s, t, |Pushed(cfg, body)|);
  }

  lemma PlainItemCalls(insn: Insn, rest: seq<Offload>, cfgs: seq<Cfg>)
    ensures Calls(State([Offload(insn.pc, insn.sec, false)] + rest, cfgs, None), 1)
         == Ok((State(rest, cfgs, None), [Issue(insn.pc, insn.sec, None, None)]))
  {
    var s := State([Offload(insn.pc, insn.sec, false)] + rest, cfgs, None);
    assert s.fpssPcs[1..] == rest;
    CallOnce(s, State(rest, cfgs, None), Issue(insn.pc, insn.sec, None, None));
  }

  /** An FREP at the head of the queues is issued unrolled, in (maxInst+1) * (maxRpt+1) calls, and leaves no trace. */
  lemma ItemCalls(item: Item, rest: seq<Offload>, cfgs: seq<Cfg>)
    requires item.WellFormed()
    ensures Calls(State(Offloads(item) + rest, Configs(item) + cfgs, None), |Unroll(item)|)
         == Ok((State(rest, cfgs, None), Unroll(item)))
    ensures item.Frep? ==> |Unroll(item)| == (item.cfg.maxInst + 1) * (item.cfg.maxRpt + 1)
  {
    hide Emul, Calls, Pushed, IssuesOf, OuterLoop, InnerLoop, OffloadsOf;
    match item
    case Plain(insn) =>
      PlainItemCalls(insn, rest, cfgs);
      assert [] + cfgs == cfgs;
    case Frep(pc, sec, cfg, body) =>
      FrepItemCalls(pc, sec, cfg, body, rest, cfgs);
      PushedIsUnrolled(pc, sec, cfg, body);
      PushedEndsLast(cfg, body);
  }

  lemma {:induction false} CallsConcat(s: State, m: nat, n: nat)
    requires Calls(s, m).Ok?
    ensures Calls(s, m + n) ==
            match Calls(Calls(s, m).value.0, n)
            case Err(f) => Err(f)
            case Ok((t, os)) => Ok((t, Calls(s, m).value.1 + os))
    decreases m
  {
    hide Emul;
    if m == 0 {
      var r := Calls(s, n);
      assert r.Ok? ==> [] + r.value.1 == r.value.1;
    } else {
      var (t, o) := Emul(s).value;
      CallsConcat(t, m - 1, n);
      var r := Calls(Calls(t, m - 1).value.0, n);
      if r.Ok? {
        assert [o] + (Calls(t, m - 1).value.1 + r.value.1) == ([o] + Calls(t, m - 1).value.1) + r.value.1;
      }
    }
  }

  lemma CallsThenCalls(s: State, m: nat, t: State, os: seq<Issue>, n: nat, u: State, os': seq<Issue>)
    requires Calls(s, m) == Ok((t, os)) && Calls(t, n) == Ok((u, os'))
    ensures Calls(s, m + n) == Ok((u, os + os'))
  {
    hide Calls;
    CallsConcat(s, m, n);
  }

  lemma AppendItem(os: seq<Offload>, cs: seq<Cfg>, issues: seq<Issue>, item: Item, rest: seq<Offload>, cfgs: seq<Cfg>)
    requires item.WellFormed()
    requires Calls(State(os + (Offloads(item) + rest), cs + (Configs(item) + cfgs), None), |issues|)
          == Ok((State(Offloads(item) + rest, Configs(item) + cfgs, None), issues))
    ensures Calls(State(os + Offloads(item) + rest, cs + Configs(item) + cfgs, None), |issues + Unroll(item)|)
         == Ok((State(rest, cfgs, None), issues + Unroll(item)))
  {
    hide *;
    ItemCalls(item, rest, cfgs);
    assert os + Offloads(item) + rest == os + (Offloads(item) + rest);
    assert cs + Configs(item) + cfgs == cs + (Configs(item) + cfgs);
    CallsThenCalls(State(os + Offloads(item) + rest, cs + Configs(item) + cfgs, None), |issues|,
                   State(Offloads(item) + rest, Configs(item) + cfgs, None), issues,
                   |Unroll(item)|, State(rest, cfgs, None), Unroll(item));
  }

  /** Queued as a whole, a program is issued unrolled. */
  lemma {:induction false} ProgramCalls(p: seq<Item>, rest: seq<Offload>, cfgs: seq<Cfg>)
    requires WellFormed(p)
    ensures Calls(State(OffloadsAll(p) + rest, ConfigsAll(p) + cfgs, None), |UnrollAll(p)|)
         == Ok((State(rest, cfgs, None), UnrollAll(p)))
  {
    if p == [] {
      assert [] + rest == rest && [] + cfgs == cfgs;
    } else {
      hide Calls, Offloads, Configs, Unroll;
      var front, item := p[..|p| - 1], p[|p| - 1];
      ProgramCalls(front, Offloads(item) + rest, Configs(item) + cfgs);
      AppendItem(OffloadsAll(front), ConfigsAll(front), UnrollAll(front), item, rest, cfgs);
    }
  }

  // ---------- How much input the issues take ----------

  /** Offloads that the first `j` issues of an item take: an FREP takes one body instruction per call until it is in. */
  function ItemOffloads(item: Item, j: nat): nat {
    if j == 0 then 0
    else if item.Plain? then 1
    else 1 + if j <= item.cfg.maxInst then j else item.cfg.maxInst + 1
  }

  function ItemConfigs(item: Item, j: nat): nat {
    if j == 0 || item.Plain? then 0 else 1
  }

  /** Offloads that the first `j` issues of a program take. */
  ghost function NeedOffloads(p: seq<Item>, j: nat): nat {
    if p == [] then 0
    else
      var front := p[..|p| - 1];
      var n := |UnrollAll(front)|;
      if j <= n then NeedOffloads(front, j) else |OffloadsAll(front)| + ItemOffloads(p[|p| - 1], j - n)
  }

  /** Configurations that the first `j` issues of a program take. */
  ghost function NeedConfigs(p: seq<Item>, j: nat): nat {
    if p == [] then 0
    else
      var front := p[..|p| - 1];
      var n := |UnrollAll(front)|;
      if j <= n then NeedConfigs(front, j) else |ConfigsAll(front)| + ItemConfigs(p[|p| - 1], j - n)
  }

  /** After `n` calls, so many offloads and configurations are still queued. */
  ghost predicate Leaves(s: State, n: nat, offloads: int, cfgs: int) {
    match Calls(s, n)
    case Err(_) => false
    case Ok((t, _)) => |t.fpssPcs| == offloads && |t.cfgBuf| == cfgs
  }

  lemma LeavesNow(s: State)
    ensures Leaves(s, 0, |s.fpssPcs|, |s.cfgBuf|)
  {
  }

  lemma LeavesAfterCall(s: State, t: State, o: Issue, n: nat, offloads: int, cfgs: int)
    requires Emul(s) == Ok((t, o)) && Leaves(t, n, offloads, cfgs)
    ensures Leaves(s, n + 1, offloads, cfgs)
  {
    hide Emul;
  }

  lemma LeavesAfterCalls(s: State, m: nat, t: State, os: seq<Issue>, n: nat, offloads: int, cfgs: int)
    requires Calls(s, m) == Ok((t, os)) && Leaves(t, n, offloads, cfgs)
    ensures Leaves(s, m + n, offloads, cfgs)
  {
    hide Calls;
    CallsConcat(s, m, n);
  }

  /** In the middle of an FREP every call takes one more body instruction until all are in. */
  lemma {:induction false} FrepLeaves(s: State, cfg: Cfg, body: seq<Insn>, c: nat, j: nat, rest: seq<Offload>, n: nat)
    requires Midway(s, cfg, body, c, j, rest) && j + n <= |Pushed(cfg, body)|
    ensures Leaves(s, n, |rest| + (if c + n <= |body| then |body| - c - n else 0), |s.cfgBuf|)
    decreases n
  {
    hide *;
    MidwayQueued(s, cfg, body, c, j, rest);
    if n == 0 {
      LeavesNow(s);
    } else {
      var t, o, c' := MidwayCall(s, cfg, body, c, j, rest);
      if j + 1 == |Pushed(cfg, body)| {
        LeavesNow(t);
      } else {
        FrepLeaves(t, cfg, body, c', j + 1, rest, n - 1);
      }
      LeavesAfterCall(s, t, o, n - 1, |rest| + (if c + n <= |body| then |body| - c - n else 0), |s.cfgBuf|);
    }
  }

  lemma MidwayQueued(s: State, cfg: Cfg, body: seq<Insn>, c: nat, j: nat, rest: seq<Offload>)
    requires Midway(s, cfg, body, c, j, rest)
    ensures c <= |body| == cfg.maxInst + 1 && |s.fpssPcs| == |body| - c + |rest|
  {
  }

  lemma ItemLeaves(item: Item, rest: seq<Offload>, cfgs: seq<Cfg>, j: nat)
    requires item.WellFormed() && j <= |Unroll(item)|
    ensures Leaves(State(Offloads(item) + rest, Configs(item) + cfgs, None), j,
                   |Offloads(item)| + |rest| - ItemOffloads(item, j), |Configs(item)| + |cfgs| - ItemConfigs(item, j))
  {
    var s := State(Offloads(item) + rest, Configs(item) + cfgs, None);
    if j == 0 {
      LeavesNow(s);
    } else if item.Plain? {
      hide Emul, Calls;
      ItemCalls(item, rest, cfgs);
    } else {
      hide Emul, Pushed, Calls, Unroll, Midway, OffloadsOf;
      var Frep(pc, sec, cfg, body) := item;
      var t := State(OffloadsOf(body) + rest, cfgs, Some(Active(cfg, 0, [], [])));
      StartFrep(pc, sec, cfg, body, rest, cfgs);
      PushedIsUnrolled(pc, sec, cfg, body);
      FrepLeaves(t, cfg, body, 0, 0, rest, j);
      StartIsFree(s, t, j);
    }
  }

  /** A queued program is taken in exactly as its items need. */
  lemma {:induction false} ProgramLeaves(p: seq<Item>, rest: seq<Offload>, cfgs: seq<Cfg>, j: nat)
    requires WellFormed(p) && j <= |UnrollAll(p)|
    ensures Leaves(State(OffloadsAll(p) + rest, ConfigsAll(p) + cfgs, None), j,
                   |OffloadsAll(p)| + |rest| - NeedOffloads(p, j), |ConfigsAll(p)| + |cfgs| - NeedConfigs(p, j))
  {
    hide *;
    if p == [] {
      NoProgramLeaves(p, rest, cfgs, j);
    } else {
      var front, item := p[..|p| - 1], p[|p| - 1];
      ProgramSnoc(p, j);
      if j <= |UnrollAll(front)| {
        ProgramLeaves(front, Offloads(item) + rest, Configs(item) + cfgs, j);
        Regroup(OffloadsAll(front), Offloads(item), rest);
        Regroup(ConfigsAll(front), Configs(item), cfgs);
      } else {
        LastItemLeaves(p, rest, cfgs, j);
      }
    }
  }

  lemma Regroup<T>(a: seq<T>, b: seq<T>, c: seq<T>)
    ensures a + b + c == a + (b + c)
  {
  }

  lemma LastItemLeaves(p: seq<Item>, rest: seq<Offload>, cfgs: seq<Cfg>, j: nat)
    requires p != [] && WellFormed(p) && |UnrollAll(p[..|p| - 1])| < j <= |UnrollAll(p)|
    ensures Leaves(State(OffloadsAll(p) + rest, ConfigsAll(p) + cfgs, None), j,
                   |OffloadsAll(p)| + |rest| - NeedOffloads(p, j), |ConfigsAll(p)| + |cfgs| - NeedConfigs(p, j))
  {
    hide *;
    var front, item := p[..|p| - 1], p[|p| - 1];
    var n := |UnrollAll(front)|;
    ProgramSnoc(p, j);
    Regroup(OffloadsAll(front), Offloads(item), rest);
    Regroup(ConfigsAll(front), Configs(item), cfgs);
    ProgramCalls(front, Offloads(item) + rest, Configs(item) + cfgs);
    ItemLeaves(item, rest, cfgs, j - n);
    LeavesAfterCalls(State(OffloadsAll(p) + rest, ConfigsAll(p) + cfgs, None), n,
                     State(Offloads(item) + rest, Configs(item) + cfgs, None), UnrollAll(front), j - n,
                     |Offloads(item)| + |rest| - ItemOffloads(item, j - n),
                     |Configs(item)| + |cfgs| - ItemConfigs(item, j - n));
  }

  lemma NoProgramLeaves(p: seq<Item>, rest: seq<Offload>, cfgs: seq<Cfg>, j: nat)
    requires p == [] && j <= |UnrollAll(p)|
    ensures Leaves(State(OffloadsAll(p) + rest, ConfigsAll(p) + cfgs, None), j,
                   |OffloadsAll(p)| + |rest| - NeedOffloads(p, j), |ConfigsAll(p)| + |cfgs| - NeedConfigs(p, j))
  {
    hide Leaves;
    LeavesNow(State([] + rest, [] + cfgs, None));
  }

  /** A program seen as its front and its last item. */
  lemma ProgramSnoc(p: seq<Item>, j: nat)
    requires p != []
    ensures var front, item := p[..|p| - 1], p[|p| - 1];
            var n := |UnrollAll(front)|;
            && OffloadsAll(p) == OffloadsAll(front) + Offloads(item)
            && ConfigsAll(p) == ConfigsAll(front) + Configs(item)
            && UnrollAll(p) == UnrollAll(front) + Unroll(item)
            && (WellFormed(p) ==> WellFormed(front) && item.WellFormed())
            && NeedOffloads(p, j) ==
               (if j <= n then NeedOffloads(front, j) else |OffloadsAll(front)| + ItemOffloads(item, j - n))
            && NeedConfigs(p, j) ==
               (if j <= n then NeedConfigs(front, j) else |ConfigsAll(front)| + ItemConfigs(item, j - n))
  {
    hide Offloads, Configs, Unroll, ItemOffloads, ItemConfigs, Item.WellFormed;
  }

  // ---------- Inputs that arrive while the machine runs ----------

  datatype Event = PushOffload(o: Offload) | PushCfg(cfg: Cfg) | Call

  function RunEvents(s: State, evs: seq<Event>): Result<(State, seq<Issue>), Failure>
    decreases |evs|
  {
    if evs == [] then Ok((s, []))
    else
      match evs[0]
      case PushOffload(o) => RunEvents(s.(fpssPcs := s.fpssPcs + [o]), evs[1..])
      case PushCfg(cfg) => RunEvents(s.(cfgBuf := s.cfgBuf + [cfg]), evs[1..])
      case Call =>
        match Emul(s)
        case Err(f) => Err(f)
        case Ok((t, o)) =>
          match RunEvents(t, evs[1..])
          case Err(f) => Err(f)
          case Ok((u, os)) => Ok((u, [o] + os))
  }

  ghost function PushedOffloads(evs: seq<Event>): seq<Offload> {
    if evs == [] then [] else (if evs[0].PushOffload? then [evs[0].o] else []) + PushedOffloads(evs[1..])
  }

  ghost function PushedCfgs(evs: seq<Event>): seq<Cfg> {
    if evs == [] then [] else (if evs[0].PushCfg? then [evs[0].cfg] else []) + PushedCfgs(evs[1..])
  }

  ghost function Extend(s: State, os: seq<Offload>, cfgs: seq<Cfg>): State {
    s.(fpssPcs := s.fpssPcs + os, cfgBuf := s.cfgBuf + cfgs)
  }

  /** A call that succeeds does not depend on what is queued behind its inputs. */
  lemma EmulExtends(s: State, os: seq<Offload>, cfgs: seq<Cfg>)
    requires Emul(s).Ok?
    ensures Emul(Extend(s, os, cfgs)) == Ok((Extend(Emul(s).value.0, os, cfgs), Emul(s).value.1))
  {
    hide Take;
    assert s.curr.None? ==> s.fpssPcs != [];
    StartExtends(s, os, cfgs);
    var t := Start(s).value;
    if t.curr.Some? {
      FillExtends(t, os, cfgs);
      hide Start, Fill;
    } else {
      TailExtends(t.fpssPcs, os);
      hide Start;
    }
  }

  lemma TailExtends<T>(a: seq<T>, b: seq<T>)
    requires a != []
    ensures (a + b)[0] == a[0] && (a + b)[1..] == a[1..] + b
  {
  }

  lemma StartExtends(s: State, os: seq<Offload>, cfgs: seq<Cfg>)
    requires Start(s).Ok? && (s.curr.None? ==> s.fpssPcs != [])
    ensures Start(Extend(s, os, cfgs)) == Ok(Extend(Start(s).value, os, cfgs))
  {
    if s.fpssPcs != [] { TailExtends(s.fpssPcs, os); }
    if s.cfgBuf != [] { TailExtends(s.cfgBuf, cfgs); }
  }

  lemma FillExtends(s: State, os: seq<Offload>, cfgs: seq<Cfg>)
    requires s.curr.Some? && Fill(s).Ok?
    ensures Fill(Extend(s, os, cfgs)) == Ok(Extend(Fill(s).value, os, cfgs))
  {
    hide Take;
    if s.fpssPcs != [] { TailExtends(s.fpssPcs, os); }
  }

  /**
   The converse: if a call succeeds with more inputs queued, it succeeds without them exactly if it
   leaves at least those, and otherwise fails for want of input, never for a nested FREP.
   */
  lemma EmulNeeds(s: State, os: seq<Offload>, cfgs: seq<Cfg>)
    requires Emul(Extend(s, os, cfgs)).Ok?
    ensures var t := Emul(Extend(s, os, cfgs)).value.0;
            Emul(s).Ok? <==> |t.fpssPcs| >= |os| && |t.cfgBuf| >= |cfgs|
    ensures Emul(s).Err? ==> Emul(s).error == EmptyQueue
  {
    if Emul(s).Ok? {
      EmulExtends(s, os, cfgs);
    } else {
      var x := Extend(s, os, cfgs);
      assert s.fpssPcs != [] ==> x.fpssPcs[0] == s.fpssPcs[0];
      assert s.cfgBuf != [] ==> x.cfgBuf[0] == s.cfgBuf[0];
      assert |s.fpssPcs| > 1 ==> x.fpssPcs[1..][0] == s.fpssPcs[1..][0];
    }
  }

  lemma {:induction false} CallsExtend(s: State, n: nat, os: seq<Offload>, cfgs: seq<Cfg>)
    requires Calls(s, n).Ok?
    ensures Calls(Extend(s, os, cfgs), n) == Ok((Extend(Calls(s, n).value.0, os, cfgs), Calls(s, n).value.1))
    decreases n
  {
    hide Emul;
    if n > 0 {
      EmulExtends(s, os, cfgs);
      CallsExtend(Emul(s).value.0, n - 1, os, cfgs);
    }
  }

  lemma RunEventsCall(s: State, evs: seq<Event>)
    requires evs != [] && evs[0].Call? && RunEvents(s, evs).Ok?
    ensures Emul(s).Ok? && RunEvents(Emul(s).value.0, evs[1..]).Ok?
    ensures RunEvents(s, evs).value.0 == RunEvents(Emul(s).value.0, evs[1..]).value.0
    ensures RunEvents(s, evs).value.1 == [Emul(s).value.1] + RunEvents(Emul(s).value.0, evs[1..]).value.1
  {
  }

  lemma CallExtended(s: State, t: State, o: Issue, os: seq<Offload>, cs: seq<Cfg>, n: nat, u: State, issued: seq<Issue>)
    requires Emul(s) == Ok((t, o)) && Calls(Extend(t, os, cs), n) == Ok((u, issued))
    ensures Calls(Extend(s, os, cs), n + 1) == Ok((u, [o] + issued))
  {
    hide Emul, Calls;
    EmulExtends(s, os, cs);
    CallThen(Extend(s, os, cs), Extend(t, os, cs), o, n, u, issued);
  }

  /** Whatever the interleaving, a run issues what it would have issued with all its inputs queued beforehand. */
  lemma {:induction false} OnlineIsBatch(s: State, evs: seq<Event>, t: State, issued: seq<Issue>)
    requires RunEvents(s, evs) == Ok((t, issued))
    ensures Calls(Extend(s, PushedOffloads(evs), PushedCfgs(evs)), |issued|) == Ok((t, issued))
    decreases |evs|
  {
    hide Emul;
    var os, cs := PushedOffloads(evs), PushedCfgs(evs);
    if evs == [] {
      assert Extend(s, [], []) == s;
    } else {
      var os', cs' := PushedOffloads(evs[1..]), PushedCfgs(evs[1..]);
      match evs[0]
      case PushOffload(o) =>
        var s' := s.(fpssPcs := s.fpssPcs + [o]);
        OnlineIsBatch(s', evs[1..], t, issued);
        assert cs == cs' && Extend(s', os', cs') == Extend(s, os, cs);
      case PushCfg(cfg) =>
        var s' := s.(cfgBuf := s.cfgBuf + [cfg]);
        OnlineIsBatch(s', evs[1..], t, issued);
        assert os == os' && Extend(s', os', cs') == Extend(s, os, cs);
      case Call =>
        assert os == os' && cs == cs';
        RunEventsCall(s, evs);
        var (s', o) := Emul(s).value;
        var later := RunEvents(s', evs[1..]).value.1;
        OnlineIsBatch(s', evs[1..], t, later);
        CallExtended(s, s', o, os, cs, |later|, t, later);
    }
  }

  const EMPTY: State := State([], [], None)

  lemma CallsEnd(s: State, n: nat, m: nat)
    requires Calls(s, n).Ok? && Calls(s, n).value.0 == EMPTY && m > n
    ensures Calls(s, m).Err?
  {
    CallsConcat(s, n, m - n);
    assert Emul(EMPTY).Err?;
  }

  lemma {:induction false} CallsLength(s: State, n: nat)
    requires Calls(s, n).Ok?
    ensures |Calls(s, n).value.1| == n
    decreases n
  {
    hide Emul;
    if n > 0 { CallsLength(Emul(s).value.0, n - 1); }
  }

  /** Fewer calls give a prefix. */
  lemma FewerCalls(s: State, m: nat, n: nat)
    requires m <= n && Calls(s, m).Ok? && Calls(s, n).Ok?
    ensures Calls(s, m).value.1 <= Calls(s, n).value.1
  {
    hide Calls;
    CallsConcat(s, m, n - m);
  }

  // ---------- Exactly when an interleaved run succeeds ----------

  lemma {:induction false} RunEventsConcat(s: State, a: seq<Event>, b: seq<Event>)
    ensures RunEvents(s, a + b) ==
            match RunEvents(s, a)
            case Err(f) => Err(f)
            case Ok((t, os)) =>
              match RunEvents(t, b)
              case Err(f) => Err(f)
              case Ok((u, more)) => Ok((u, os + more))
    decreases |a|
  {
    hide Emul;
    if a == [] {
      assert a + b == b;
      var r := RunEvents(s, b);
      assert r.Ok? ==> [] + r.value.1 == r.value.1;
    } else {
      assert (a + b)[1..] == a[1..] + b;
      match a[0]
      case PushOffload(o) => RunEventsConcat(s.(fpssPcs := s.fpssPcs + [o]), a[1..], b);
      case PushCfg(cfg) => RunEventsConcat(s.(cfgBuf := s.cfgBuf + [cfg]), a[1..], b);
      case Call =>
        if Emul(s).Ok? {
          var (t, o) := Emul(s).value;
          RunEventsConcat(t, a[1..], b);
          if RunEvents(s, a).Ok? && RunEvents(s, a + b).Ok? {
            var later := RunEvents(t, a[1..]).value;
            var more := RunEvents(later.0, b).value.1;
            assert [o] + (later.1 + more) == ([o] + later.1) + more;
          }
        }
    }
  }

  function CallsIn(evs: seq<Event>): nat {
    if evs == [] then 0 else (if evs[0].Call? then 1 else 0) + CallsIn(evs[1..])
  }

  lemma {:induction false} EventsConcat(a: seq<Event>, b: seq<Event>)
    ensures PushedOffloads(a + b) == PushedOffloads(a) + PushedOffloads(b)
    ensures PushedCfgs(a + b) == PushedCfgs(a) + PushedCfgs(b)
    ensures CallsIn(a + b) == CallsIn(a) + CallsIn(b)
    decreases |a|
  {
    if a == [] {
      assert a + b == b;
    } else {
      EventsConcat(a[1..], b);
      assert (a + b)[1..] == a[1..] + b && (a + b)[0] == a[0];
      Regroup(if a[0].PushOffload? then [a[0].o] else [], PushedOffloads(a[1..]), PushedOffloads(b));
      Regroup(if a[0].PushCfg? then [a[0].cfg] else [], PushedCfgs(a[1..]), PushedCfgs(b));
    }
  }

  lemma EventsSnoc(evs: seq<Event>, ev: Event)
    ensures PushedOffloads(evs + [ev]) == PushedOffloads(evs) + (if ev.PushOffload? then [ev.o] else [])
    ensures PushedCfgs(evs + [ev]) == PushedCfgs(evs) + (if ev.PushCfg? then [ev.cfg] else [])
    ensures CallsIn(evs + [ev]) == CallsIn(evs) + (if ev.Call? then 1 else 0)
  {
    EventsConcat(evs, [ev]);
    assert [ev][1..] == [];
    assert PushedOffloads([]) == [] && PushedCfgs([]) == [] && CallsIn([]) == 0;
  }

  /** After `before`, the inputs of the next issue of the program are there. */
  ghost predicate Supplied(p: seq<Item>, before: seq<Event>) {
    var j := CallsIn(before) + 1;
    && j <= |UnrollAll(p)|
    && NeedOffloads(p, j) <= |PushedOffloads(before)|
    && NeedConfigs(p, j) <= |PushedCfgs(before)|
  }

  /** Every call comes after the inputs it needs. */
  ghost predicate Available(p: seq<Item>, evs: seq<Event>) {
    forall k :: 0 <= k < |evs| && evs[k].Call? ==> Supplied(p, evs[..k])
  }

  lemma AvailableSnoc(p: seq<Item>, evs: seq<Event>, ev: Event)
    ensures Available(p, evs + [ev]) <==> Available(p, evs) && (ev.Call? ==> Supplied(p, evs))
  {
    hide Supplied;
    var all := evs + [ev];
    assert all[..|evs|] == evs && all[|evs|] == ev;
    assert forall k :: 0 <= k < |evs| ==> all[k] == evs[k] && all[..k] == evs[..k];
    if Available(p, all) {
      forall k | 0 <= k < |evs| && evs[k].Call? ensures Supplied(p, evs[..k]) {
        assert all[k].Call?;
      }
    }
  }

  /** With the rest of the program queued behind it, the state after `before` is that of the queued program. */
  lemma JoinsBatch(p: seq<Item>, evs: seq<Event>, t: State, issued: seq<Issue>)
    requires WellFormed(p) && PushedOffloads(evs) <= OffloadsAll(p) && PushedCfgs(evs) <= ConfigsAll(p)
    requires RunEvents(EMPTY, evs) == Ok((t, issued))
    ensures Calls(State(OffloadsAll(p) + [], ConfigsAll(p) + [], None), |issued|)
         == Ok((Extend(t, OffloadsAll(p)[|PushedOffloads(evs)|..], ConfigsAll(p)[|PushedCfgs(evs)|..]), issued))
  {
    hide RunEvents, Calls, OffloadsAll, ConfigsAll, PushedOffloads, PushedCfgs;
    var os, cs := PushedOffloads(evs), PushedCfgs(evs);
    OnlineIsBatch(EMPTY, evs, t, issued);
    CallsExtend(Extend(EMPTY, os, cs), |issued|, OffloadsAll(p)[|os|..], ConfigsAll(p)[|cs|..]);
    Completed(p, os, cs);
  }

  /** The next call after such a run succeeds exactly if its inputs are there, and fails only for want of them. */
  lemma NextCall(p: seq<Item>, evs: seq<Event>, t: State, issued: seq<Issue>)
    requires WellFormed(p) && PushedOffloads(evs) <= OffloadsAll(p) && PushedCfgs(evs) <= ConfigsAll(p)
    requires RunEvents(EMPTY, evs) == Ok((t, issued)) && |issued| == CallsIn(evs)
    ensures Emul(t).Ok? <==> Supplied(p, evs)
    ensures Emul(t).Err? ==> Emul(t).error == EmptyQueue
  {
    hide RunEvents, Calls, OffloadsAll, ConfigsAll, UnrollAll, PushedOffloads, PushedCfgs, Emul, CallsIn;
    hide NeedOffloads, NeedConfigs, Leaves;
    var full := State(OffloadsAll(p) + [], ConfigsAll(p) + [], None);
    var os, cs := OffloadsAll(p)[|PushedOffloads(evs)|..], ConfigsAll(p)[|PushedCfgs(evs)|..];
    var j := |issued| + 1;
    JoinsBatch(p, evs, t, issued);
    ProgramCalls(p, [], []);
    if j <= |UnrollAll(p)| {
      ProgramLeaves(p, [], [], j);
      LastCallLeaves(full, |issued|, Extend(t, os, cs), issued,
                     |OffloadsAll(p)| - NeedOffloads(p, j), |ConfigsAll(p)| - NeedConfigs(p, j));
      EmulNeeds(t, os, cs);
    } else {
      PrefixOfProgram(full, UnrollAll(p), |issued|, Extend(t, os, cs), issued);
      assert issued == UnrollAll(p);
      assert |t.fpssPcs| == 0 && |t.cfgBuf| == 0;
      assert t == EMPTY;
      EmptyFails();
    }
  }

  lemma EmptyFails()
    ensures Emul(EMPTY) == Err(EmptyQueue)
  {
  }

  lemma LastCallLeaves(s: State, n: nat, t: State, os: seq<Issue>, offloads: int, cfgs: int)
    requires Calls(s, n) == Ok((t, os)) && Leaves(s, n + 1, offloads, cfgs)
    ensures Emul(t).Ok? && |Emul(t).value.0.fpssPcs| == offloads && |Emul(t).value.0.cfgBuf| == cfgs
  {
    hide Emul;
    CallsConcat(s, n, 1);
    if Emul(t).Ok? {
      CallOnce(t, Emul(t).value.0, Emul(t).value.1);
    }
  }

  lemma OneEvent(s: State, ev: Event)
    ensures RunEvents(s, [ev]) ==
            match ev
            case PushOffload(o) => Ok((s.(fpssPcs := s.fpssPcs + [o]), []))
            case PushCfg(cfg) => Ok((s.(cfgBuf := s.cfgBuf + [cfg]), []))
            case Call =>
              match Emul(s)
              case Err(f) => Err(f)
              case Ok((t, o)) => Ok((t, [o]))
  {
    hide Emul;
    assert [ev][1..] == [];
    if ev.Call? && Emul(s).Ok? {
      var (t, o) := Emul(s).value;
      assert RunEvents(t, []) == Ok((t, [])) && [o] + [] == [o];
    }
  }

  /** An interleaved run of a program succeeds exactly if every call comes after the inputs it needs. */
  lemma {:induction false} OnlineSucceeds(p: seq<Item>, evs: seq<Event>)
    requires WellFormed(p)
    requires PushedOffloads(evs) <= OffloadsAll(p) && PushedCfgs(evs) <= ConfigsAll(p)
    ensures RunEvents(EMPTY, evs).Ok? <==> Available(p, evs)
    ensures match RunEvents(EMPTY, evs)
            case Err(f) => f == EmptyQueue
            case Ok((_, issued)) => |issued| == CallsIn(evs)
    decreases |evs|
  {
    hide *;
    if evs == [] {
      NoEvents(p, evs);
    } else {
      var front, ev := evs[..|evs| - 1], evs[|evs| - 1];
      assert evs == front + [ev];
      EventsSnoc(front, ev);
      OnlineSucceeds(p, front);
      OneMoreEvent(p, front, ev);
    }
  }

  lemma NoEvents(p: seq<Item>, evs: seq<Event>)
    requires evs == []
    ensures RunEvents(EMPTY, evs) == Ok((EMPTY, [])) && Available(p, evs) && CallsIn(evs) == 0
  {
  }

  lemma OneMoreEvent(p: seq<Item>, front: seq<Event>, ev: Event)
    requires WellFormed(p)
    requires PushedOffloads(front) <= OffloadsAll(p) && PushedCfgs(front) <= ConfigsAll(p)
    requires RunEvents(EMPTY, front).Ok? <==> Available(p, front)
    requires match RunEvents(EMPTY, front)
             case Err(f) => f == EmptyQueue
             case Ok((_, issued)) => |issued| == CallsIn(front)
    ensures RunEvents(EMPTY, front + [ev]).Ok? <==> Available(p, front + [ev])
    ensures match RunEvents(EMPTY, front + [ev])
            case Err(f) => f == EmptyQueue
            case Ok((_, issued)) => |issued| == CallsIn(front + [ev])
  {
    hide *;
    EventsSnoc(front, ev);
    AvailableSnoc(p, front, ev);
    RunEventsConcat(EMPTY, front, [ev]);
    if RunEvents(EMPTY, front).Ok? {
      var (t, issued) := RunEvents(EMPTY, front).value;
      OneEvent(t, ev);
      if ev.Call? {
        NextCall(p, front, t, issued);
      }
    }
  }

  /**
   FREP refinement: let the offloaded instructions and the configurations of a program arrive in any way
   interleaved with the calls.  The run succeeds if and only if every call comes after the inputs that
   the issues up to it take, and it fails only for want of input.  The issues are a prefix of the
   unrolled program; and once all of it is issued, nothing is queued and no FREP is in progress.
   */
  lemma FrepRefinement(p: seq<Item>, evs: seq<Event>)
    requires WellFormed(p)
    requires PushedOffloads(evs) <= OffloadsAll(p) && PushedCfgs(evs) <= ConfigsAll(p)
    ensures RunEvents(EMPTY, evs).Ok? <==> Available(p, evs)
    ensures match RunEvents(EMPTY, evs)
            case Err(f) => f == EmptyQueue
            case Ok((t, issued)) =>
              && issued <= UnrollAll(p) && |issued| == CallsIn(evs)
              && (issued == UnrollAll(p) ==>
                    t == EMPTY && PushedOffloads(evs) == OffloadsAll(p) && PushedCfgs(evs) == ConfigsAll(p))
  {
    hide RunEvents, Available, UnrollAll, OffloadsAll, ConfigsAll, PushedOffloads, PushedCfgs, CallsIn;
    OnlineSucceeds(p, evs);
    if RunEvents(EMPTY, evs).Ok? {
      var (t, issued) := RunEvents(EMPTY, evs).value;
      OnlineIsBatch(EMPTY, evs, t, issued);
      BatchPrefix(p, PushedOffloads(evs), PushedCfgs(evs), t, issued);
    }
  }

  lemma BatchPrefix(p: seq<Item>, os: seq<Offload>, cs: seq<Cfg>, t: State, issued: seq<Issue>)
    requires WellFormed(p) && os <= OffloadsAll(p) && cs <= ConfigsAll(p)
    requires Calls(Extend(EMPTY, os, cs), |issued|) == Ok((t, issued))
    ensures issued <= UnrollAll(p)
    ensures issued == UnrollAll(p) ==> t == EMPTY && os == OffloadsAll(p) && cs == ConfigsAll(p)
  {
    hide Calls, OffloadsAll, ConfigsAll, UnrollAll;
    var os', cs' := OffloadsAll(p)[|os|..], ConfigsAll(p)[|cs|..];
    CallsExtend(Extend(EMPTY, os, cs), |issued|, os', cs');
    Completed(p, os, cs);
    ProgramCalls(p, [], []);
    var full := State(OffloadsAll(p) + [], ConfigsAll(p) + [], None);
    PrefixOfProgram(full, UnrollAll(p), |issued|, Extend(t, os', cs'), issued);
  }

  lemma Completed(p: seq<Item>, os: seq<Offload>, cs: seq<Cfg>)
    requires os <= OffloadsAll(p) && cs <= ConfigsAll(p)
    ensures Extend(Extend(EMPTY, os, cs), OffloadsAll(p)[|os|..], ConfigsAll(p)[|cs|..])
         == State(OffloadsAll(p) + [], ConfigsAll(p) + [], None)
  {
    hide OffloadsAll, ConfigsAll;
    Rejoin(os, OffloadsAll(p));
    Rejoin(cs, ConfigsAll(p));
  }

  lemma Rejoin<T>(a: seq<T>, b: seq<T>)
    requires a <= b
    ensures [] + a + b[|a|..] == b + []
  {
  }

  lemma PrefixOfProgram(s: State, all: seq<Issue>, m: nat, t: State, issued: seq<Issue>)
    requires Calls(s, |all|) == Ok((EMPTY, all)) && Calls(s, m) == Ok((t, issued))
    ensures issued <= all && (issued == all ==> t == EMPTY)
  {
    hide Calls, Emul;
    CallsLength(s, m);
    if m > |all| {
      CallsEnd(s, |all|, m);
    }
    FewerCalls(s, m, |all|);
  }

  // ---------- The queues, updated in place ----------

  /** Takes one body instruction into the loop buffer, replicating entry by entry. */
  method TakeInsn(a: Active, o: Offload) returns (r: Active)
    ensures r == Take(a, o)
  {
    var buf, outer := a.fpssBuf, a.outerBuf;
    if a.cfg.isOuter {
      var e := Entry(o.pc, o.sec, 0, a.instIter);
      buf, outer := buf + [e], outer + [e];
      if a.instIter == a.cfg.maxInst {
        ghost var start := buf;
        for rep := 1 to a.cfg.maxRpt + 1
          invariant buf == start + Passes(outer, 1, rep)
        {
          ghost var before := buf;
          for inst := 0 to |outer|
            invariant buf == before + Pass(outer, rep)[..inst]
          {
            buf := buf + [Entry(outer[inst].pc, outer[inst].sec, rep, inst)];
            assert Pass(outer, rep)[..inst + 1] == Pass(outer, rep)[..inst] + [Pass(outer, rep)[inst]];
          }
          assert Pass(outer, rep)[..|outer|] == Pass(outer, rep);
          assert before + Pass(outer, rep) == start + Passes(outer, 1, rep + 1);
        }
      }
    } else {
      ghost var start := buf;
      for rep := 0 to a.cfg.maxRpt + 1
        invariant buf == start + Copies(o.pc, o.sec, a.instIter, rep)
      {
        buf := buf + [Entry(o.pc, o.sec, rep, a.instIter)];
      }
    }
    r := a.(fpssBuf := buf, outerBuf := outer, instIter := a.instIter + 1);
  }

  class FseqInfo {
    var fpssPcs: seq<Offload>
    var cfgBuf: seq<Cfg>
    var curr: Option<Active>

    ghost function View(): State
      reads this
    {
      State(fpssPcs, cfgBuf, curr)
    }

    /** One call; after a failure the program is over and the queues do not matter. */
    method EmulSeq() returns (r: Result<Issue, Failure>)
      modifies this
      ensures match Emul(old(View()))
              case Err(f) => r == Err(f)
              case Ok((s, o)) => r == Ok(o) && View() == s
    {
      if curr.None? && |fpssPcs| > 0 && fpssPcs[0].isFrep {
        fpssPcs := fpssPcs[1..];
        if cfgBuf == [] {
          return Err(EmptyQueue);
        }
        curr := Some(Active(cfgBuf[0], 0, [], []));
        cfgBuf := cfgBuf[1..];
      }
      if curr.None? {
        if fpssPcs == [] {
          return Err(EmptyQueue);
        }
        r := Ok(Issue(fpssPcs[0].pc, fpssPcs[0].sec, None, None));
        fpssPcs := fpssPcs[1..];
      } else {
        var a := curr.value;
        if a.instIter <= a.cfg.maxInst {
          if fpssPcs == [] {
            return Err(EmptyQueue);
          }
          if fpssPcs[0].isFrep {
            return Err(NestedFrep);
          }
          a := TakeInsn(a, fpssPcs[0]);
          fpssPcs := fpssPcs[1..];
        }
        if a.fpssBuf == [] {
          return Err(EmptyQueue);
        }
        var e := a.fpssBuf[0];
        curr := if e.rep == a.cfg.maxRpt && e.inst == a.cfg.maxInst then None else Some(a.(fpssBuf := a.fpssBuf[1..]));
        r := Ok(IssueOf(a.cfg, e));
      }
    }
  }
}

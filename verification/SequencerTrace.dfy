/**
 The bookkeeping around the sequencer (`annotate_insn` and the end of `main` in `util/gen_trace.py`): how trace
 lines fill its queues, how issues are charged to sections, and what the loose-end checks establish.
 */
module SequencerTrace {
  import opened Common
  import opened Counting
  import opened Sequencer

  /** The counters of one section: offloads made in it, and issues charged to it. */
  datatype Perf = Perf(offloads: nat, issues: nat)

  /** `fseqPcs` holds FREPs whose configuration has not arrived; the last three fields are history. */
  datatype Trace = Trace(fseq: State, fseqPcs: seq<PcStr>, perf: seq<Perf>,
                         offloaded: seq<Offload>, cfgs: seq<Cfg>, issued: seq<Issue>)

  /** The lines of a trace that matter here. */
  datatype Line =
    | SectionMark                                            // the cycle counter is read: a new section
    | Offloading(pc: PcStr, isFrep: bool)                    // the core offloads an instruction
    | CfgPush(maxInst: nat, maxRpt: nat, isOuter: bool)      // the sequencer accepts an FREP
    | FpuIssue                                               // the FPU subsystem issues

  const BEGIN: Trace := Trace(EMPTY, [], [Perf(0, 0)], [], [], [])

  function Charge(perf: seq<Perf>, sec: nat): seq<Perf> {
    if sec < |perf| then perf[sec := perf[sec].(issues := perf[sec].issues + 1)] else perf
  }

  function Step(t: Trace, line: Line): Result<Trace, Failure>
    requires t.perf != []
  {
    match line
    case SectionMark => Ok(t.(perf := t.perf + [Perf(0, 0)]))
    case Offloading(pc, isFrep) =>
      var sec := |t.perf| - 1;
      var o := Offload(pc, sec, isFrep);
      Ok(t.(fseq := t.fseq.(fpssPcs := t.fseq.fpssPcs + [o]),
            fseqPcs := if isFrep then t.fseqPcs + [pc] else t.fseqPcs,
            perf := t.perf[sec := t.perf[sec].(offloads := t.perf[sec].offloads + 1)],
            offloaded := t.offloaded + [o]))
    case CfgPush(maxInst, maxRpt, isOuter) =>
      if t.fseqPcs == [] then Err(EmptyQueue)
      else
        var cfg := Cfg(maxInst, maxRpt, isOuter, t.fseqPcs[0]);
        Ok(t.(fseq := t.fseq.(cfgBuf := t.fseq.cfgBuf + [cfg]), fseqPcs := t.fseqPcs[1..], cfgs := t.cfgs + [cfg]))
    case FpuIssue =>
      match Emul(t.fseq)
      case Err(f) => Err(f)
      case Ok((s, o)) => Ok(t.(fseq := s, perf := Charge(t.perf, o.sec), issued := t.issued + [o]))
  }

  function Run(lines: seq<Line>): (r: Result<Trace, Failure>)
    ensures r.Ok? ==> r.value.perf != []
  {
    if lines == [] then Ok(BEGIN)
    else
      match Run(lines[..|lines| - 1])
      case Err(f) => Err(f)
      case Ok(t) => Step(t, lines[|lines| - 1])
  }

  /** The two numbers that `main` prints: sequencer instructions, and others, that were not issued. */
  function SequencerLeft(t: Trace): int { |t.fseqPcs| + |t.fseq.cfgBuf| }

  function OthersLeft(t: Trace): int { |t.fseq.fpssPcs| - |t.fseqPcs| }

  /** Neither number nor an FREP in progress gives rise to a warning. */
  predicate NoLooseEnds(t: Trace) {
    SequencerLeft(t) == 0 && OthersLeft(t) == 0 && t.fseq.curr.None?
  }

  // ---------- Queue alignment ----------

  ghost function FrepPcs(os: seq<Offload>): seq<PcStr> {
    if os == [] then [] else (if os[0].isFrep then [os[0].pc] else []) + FrepPcs(os[1..])
  }

  ghost function CfgPcs(cfgs: seq<Cfg>): (pcs: seq<PcStr>)
    ensures |pcs| == |cfgs| && forall i :: 0 <= i < |pcs| ==> pcs[i] == cfgs[i].fseqPc
  {
    seq(|cfgs|, i requires 0 <= i < |cfgs| => cfgs[i].fseqPc)
  }

  /** The queued FREPs are, in order, those with a configuration waiting and those still without one. */
  ghost predicate Aligned(t: Trace) {
    FrepPcs(t.fseq.fpssPcs) == CfgPcs(t.fseq.cfgBuf) + t.fseqPcs
  }

  lemma {:induction false} FrepPcsSnoc(os: seq<Offload>, o: Offload)
    ensures FrepPcs(os + [o]) == FrepPcs(os) + if o.isFrep then [o.pc] else []
  {
    if os == [] {
      assert [o][1..] == [];
    } else {
      FrepPcsSnoc(os[1..], o);
      assert (os + [o])[1..] == os[1..] + [o];
    }
  }

  /** What a successful call takes from the queues. */
  lemma CallTakes(s: State)
    requires Emul(s).Ok?
    ensures var t := Emul(s).value.0;
            if s.curr.None? && s.fpssPcs[0].isFrep then
              && |s.fpssPcs| >= 2 && !s.fpssPcs[1].isFrep && t.fpssPcs == s.fpssPcs[2..]
              && s.cfgBuf != [] && t.cfgBuf == s.cfgBuf[1..]
            else
              && t.cfgBuf == s.cfgBuf
              && (t.fpssPcs == s.fpssPcs || (s.fpssPcs != [] && !s.fpssPcs[0].isFrep && t.fpssPcs == s.fpssPcs[1..]))
    ensures s.curr.None? ==> s.fpssPcs != []
  {
    assert |s.fpssPcs| >= 2 ==> s.fpssPcs[1..][1..] == s.fpssPcs[2..];
  }

  lemma AlignedCall(s: State, fseqPcs: seq<PcStr>)
    requires FrepPcs(s.fpssPcs) == CfgPcs(s.cfgBuf) + fseqPcs && Emul(s).Ok?
    ensures FrepPcs(Emul(s).value.0.fpssPcs) == CfgPcs(Emul(s).value.0.cfgBuf) + fseqPcs
  {
    CallTakes(s);
    if s.curr.None? && s.fpssPcs[0].isFrep {
      assert s.fpssPcs[1..][0] == s.fpssPcs[1] && s.fpssPcs[1..][1..] == s.fpssPcs[2..];
      assert FrepPcs(s.fpssPcs)[1..] == FrepPcs(s.fpssPcs[1..]) == FrepPcs(s.fpssPcs[2..]);
      assert (CfgPcs(s.cfgBuf) + fseqPcs)[1..] == CfgPcs(s.cfgBuf[1..]) + fseqPcs;
    }
  }

  lemma AlignedStep(t: Trace, line: Line)
    requires t.perf != [] && Aligned(t) && Step(t, line).Ok?
    ensures Aligned(Step(t, line).value)
  {
    match line
    case SectionMark =>
    case Offloading(pc, isFrep) => FrepPcsSnoc(t.fseq.fpssPcs, Offload(pc, |t.perf| - 1, isFrep));
    case CfgPush(maxInst, maxRpt, isOuter) =>
      var cfg := Cfg(maxInst, maxRpt, isOuter, t.fseqPcs[0]);
      assert CfgPcs(t.fseq.cfgBuf + [cfg]) + t.fseqPcs[1..] == CfgPcs(t.fseq.cfgBuf) + t.fseqPcs;
    case FpuIssue => AlignedCall(t.fseq, t.fseqPcs);
  }

  /** Queue alignment holds after every trace that does not end the program. */
  lemma {:induction false} QueuesAligned(lines: seq<Line>)
    requires Run(lines).Ok?
    ensures Aligned(Run(lines).value)
  {
    if lines != [] {
      QueuesAligned(lines[..|lines| - 1]);
      AlignedStep(Run(lines[..|lines| - 1]).value, lines[|lines| - 1]);
    }
  }

  ghost function PlainLeft(os: seq<Offload>): nat {
    if os == [] then 0 else (if os[0].isFrep then 0 else 1) + PlainLeft(os[1..])
  }

  lemma {:induction false} PlainOrFrep(os: seq<Offload>)
    ensures |FrepPcs(os)| + PlainLeft(os) == |os|
  {
    if os != [] { PlainOrFrep(os[1..]); }
  }

  /**
   What the loose-end numbers count: the first one the FREPs that are queued; the second one the plain instructions
   that are queued and, beyond them, the FREPs whose configuration is waiting, so that it is right exactly if
   none is.  All are zero exactly if no instruction is left to issue.
   */
  lemma LooseEndsExact(lines: seq<Line>)
    requires Run(lines).Ok?
    ensures var t := Run(lines).value;
            && SequencerLeft(t) == |FrepPcs(t.fseq.fpssPcs)|
            && OthersLeft(t) == PlainLeft(t.fseq.fpssPcs) + |t.fseq.cfgBuf|
            && (OthersLeft(t) == PlainLeft(t.fseq.fpssPcs) <==> t.fseq.cfgBuf == [])
            && (NoLooseEnds(t) <==> t.fseq.fpssPcs == [] && t.fseq.curr.None?)
  {
    var t := Run(lines).value;
    QueuesAligned(lines);
    PlainOrFrep(t.fseq.fpssPcs);
  }

  // ---------- What has been issued ----------

  /** A reading of the instructions taken so far: finished items and, if an FREP is in progress, its part. */
  datatype Parse = Parse(items: seq<Item>, head: Offload, body: seq<Insn>, j: nat)

  ghost function TakenOffloads(w: Parse, curr: Option<Active>): seq<Offload> {
    if curr.None? then OffloadsAll(w.items) else OffloadsAll(w.items) + ([w.head] + OffloadsOf(w.body))
  }

  ghost function TakenCfgs(w: Parse, curr: Option<Active>): seq<Cfg> {
    if curr.None? then ConfigsAll(w.items) else ConfigsAll(w.items) + [curr.value.cfg]
  }

  ghost function IssuedSoFar(w: Parse, curr: Option<Active>): seq<Issue>
    requires curr.Some? ==> w.j <= |Pushed(curr.value.cfg, w.body)|
  {
    if curr.None? then UnrollAll(w.items)
    else UnrollAll(w.items) + IssuesOf(curr.value.cfg, Pushed(curr.value.cfg, w.body)[..w.j])
  }

  /** Every FREP was given the configuration that was pushed for it. */
  ghost predicate Paired(p: seq<Item>) {
    forall i :: 0 <= i < |p| && p[i].Frep? ==> p[i].cfg.fseqPc == p[i].pc
  }

  ghost predicate ParseOk(w: Parse, curr: Option<Active>) {
    && WellFormed(w.items) && Paired(w.items)
    && (curr.Some? ==>
          && w.head.isFrep && w.head.pc == curr.value.cfg.fseqPc
          && Working(curr.value, w.body, w.j))
  }

  /** `w'` reads one call more than `w`: what was taken and what is queued stays the same, one issue is added. */
  ghost predicate Accounts(s: State, w: Parse, t: State, w': Parse, o: Issue)
    requires ParseOk(w, s.curr)
  {
    && ParseOk(w', t.curr)
    && TakenOffloads(w', t.curr) + t.fpssPcs == TakenOffloads(w, s.curr) + s.fpssPcs
    && TakenCfgs(w', t.curr) + t.cfgBuf == TakenCfgs(w, s.curr) + s.cfgBuf
    && IssuedSoFar(w', t.curr) == IssuedSoFar(w, s.curr) + [o]
  }

  lemma AppendAll(p: seq<Item>, item: Item)
    ensures UnrollAll(p + [item]) == UnrollAll(p) + Unroll(item)
    ensures OffloadsAll(p + [item]) == OffloadsAll(p) + Offloads(item)
    ensures ConfigsAll(p + [item]) == ConfigsAll(p) + Configs(item)
  {
    assert (p + [item])[..|p|] == p;
  }

  /** The reading once `body` is in and `j` entries are out. */
  ghost function Reading(w: Parse, cfg: Cfg, curr: Option<Active>, body: seq<Insn>, j: nat): Parse {
    if curr.None? then w.(items := w.items + [Frep(w.head.pc, w.head.sec, cfg, body)]) else w.(body := body, j := j)
  }

  lemma ReadingIssued(w: Parse, cfg: Cfg, curr: Option<Active>, body: seq<Insn>, j: nat)
    requires j < |Pushed(cfg, body)| && Progress(cfg, curr, body, j + 1)
    ensures IssuedSoFar(Reading(w, cfg, curr, body, j + 1), curr)
         == UnrollAll(w.items) + IssuesOf(cfg, Pushed(cfg, body)[..j]) + [IssueOf(cfg, Pushed(cfg, body)[j])]
  {
    hide Pushed, Working, UnrollAll, Unroll, IssueOf;
    var all := Pushed(cfg, body);
    assert all[..j + 1] == all[..j] + [all[j]];
    IssuesConcat(cfg, all[..j], [all[j]]);
    assert IssuesOf(cfg, all[..j + 1]) == IssuesOf(cfg, all[..j]) + [IssueOf(cfg, all[j])];
    if curr.None? {
      AppendAll(w.items, Frep(w.head.pc, w.head.sec, cfg, body));
      PushedIsUnrolled(w.head.pc, w.head.sec, cfg, body);
      assert all[..j + 1] == all;
    }
  }

  lemma ReadingTaken(w: Parse, cfg: Cfg, curr: Option<Active>, body: seq<Insn>, j: nat)
    requires WellFormed(w.items) && Paired(w.items) && w.head.isFrep && w.head.pc == cfg.fseqPc
    requires Progress(cfg, curr, body, j)
    ensures var w' := Reading(w, cfg, curr, body, j);
            && ParseOk(w', curr)
            && TakenOffloads(w', curr) == OffloadsAll(w.items) + ([w.head] + OffloadsOf(body))
            && TakenCfgs(w', curr) == ConfigsAll(w.items) + [cfg]
  {
    hide Pushed, Working, OffloadsAll, ConfigsAll, UnrollAll, Unroll, OffloadsOf;
    AppendAll(w.items, Frep(w.head.pc, w.head.sec, cfg, body));
  }

  lemma ShiftOne<T>(a: seq<T>, b: seq<T>)
    requires b != []
    ensures (a + [b[0]]) + b[1..] == a + b
  {
  }

  /** One more body instruction moves from the queue to what was taken. */
  lemma TakeOne(a: seq<Offload>, head: Offload, body: seq<Insn>, insn: Insn, queue: seq<Offload>)
    requires queue != [] && queue[0] == Offload(insn.pc, insn.sec, false)
    ensures a + ([head] + OffloadsOf(body + [insn])) + queue[1..] == a + ([head] + OffloadsOf(body)) + queue
  {
    assert OffloadsOf(body + [insn]) == OffloadsOf(body) + [queue[0]];
    ShiftOne(a + ([head] + OffloadsOf(body)), queue);
  }

  lemma AccountFilling(s: State, w: Parse, insn: Insn, t: State, o: Issue) returns (w': Parse)
    requires s.curr.Some? && ParseOk(w, s.curr) && |w.body| <= s.curr.value.cfg.maxInst
    requires s.fpssPcs != [] && s.fpssPcs[0] == Offload(insn.pc, insn.sec, false)
    requires t.fpssPcs == s.fpssPcs[1..] && t.cfgBuf == s.cfgBuf
    requires var cfg, more := s.curr.value.cfg, w.body + [insn];
             && w.j < |Pushed(cfg, more)| && o == IssueOf(cfg, Pushed(cfg, more)[w.j])
             && Progress(cfg, t.curr, more, w.j + 1)
    ensures Accounts(s, w, t, w', o)
  {
    hide Pushed, UnrollAll, OffloadsAll, ConfigsAll, OffloadsOf, IssuesOf, Progress;
    var cfg, more := s.curr.value.cfg, w.body + [insn];
    w' := Reading(w, cfg, t.curr, more, w.j + 1);
    ReadingTaken(w, cfg, t.curr, more, w.j + 1);
    ReadingIssued(w, cfg, t.curr, more, w.j);
    PushedGrows(cfg, w.body, insn);
    assert Pushed(cfg, more)[..w.j] == Pushed(cfg, w.body)[..w.j];
    TakeOne(OffloadsAll(w.items), w.head, w.body, insn, s.fpssPcs);
  }

  /** A call while an FREP is in progress and its body still comes in. */
  lemma ReadFilling(s: State, w: Parse) returns (w': Parse)
    requires s.curr.Some? && ParseOk(w, s.curr) && |w.body| <= s.curr.value.cfg.maxInst && Emul(s).Ok?
    ensures Accounts(s, w, Emul(s).value.0, w', Emul(s).value.1)
  {
    assert s.fpssPcs != [] && !s.fpssPcs[0].isFrep by { assert Start(s) == Ok(s); }
    var insn := Insn(s.fpssPcs[0].pc, s.fpssPcs[0].sec);
    FillingCall(s, w.body, w.j, insn);
    w' := AccountFilling(s, w, insn, Emul(s).value.0, Emul(s).value.1);
  }

  /** A call while the loop buffer empties. */
  lemma ReadDraining(s: State, w: Parse) returns (w': Parse)
    requires s.curr.Some? && ParseOk(w, s.curr) && |w.body| == s.curr.value.cfg.maxInst + 1 && Emul(s).Ok?
    ensures Accounts(s, w, Emul(s).value.0, w', Emul(s).value.1)
  {
    var cfg := s.curr.value.cfg;
    DrainingCall(s, w.body, w.j);
    var t := Emul(s).value.0;
    w' := Reading(w, cfg, t.curr, w.body, w.j + 1);
    ReadingTaken(w, cfg, t.curr, w.body, w.j + 1);
    ReadingIssued(w, cfg, t.curr, w.body, w.j);
  }

  /** The call that starts an FREP. */
  lemma ReadStarting(s: State, w: Parse) returns (w': Parse)
    requires s.curr.None? && ParseOk(w, None) && Emul(s).Ok? && s.fpssPcs != [] && s.fpssPcs[0].isFrep
    requires s.cfgBuf != [] && s.fpssPcs[0].pc == s.cfgBuf[0].fseqPc
    ensures Accounts(s, w, Emul(s).value.0, w', Emul(s).value.1)
  {
    var cfg := s.cfgBuf[0];
    var s1 := State(s.fpssPcs[1..], s.cfgBuf[1..], Some(Active(cfg, 0, [], [])));
    var w1 := Parse(w.items, s.fpssPcs[0], [], 0);
    assert Pushed(cfg, []) == [];
    assert Start(s) == Ok(s1) && Start(s1) == Ok(s1);
    assert Emul(s) == Emul(s1);
    w' := ReadFilling(s1, w1);
    assert [s.fpssPcs[0]] + OffloadsOf([]) == [s.fpssPcs[0]];
    ShiftOne(OffloadsAll(w.items), s.fpssPcs);
    ShiftOne(ConfigsAll(w.items), s.cfgBuf);
    assert UnrollAll(w.items) + IssuesOf(cfg, Pushed(cfg, [])[..0]) == UnrollAll(w.items);
  }

  lemma AccountPlain(s: State, w: Parse) returns (w': Parse)
    requires s.curr.None? && ParseOk(w, None) && s.fpssPcs != [] && !s.fpssPcs[0].isFrep
    ensures Accounts(s, w, s.(fpssPcs := s.fpssPcs[1..]), w', Issue(s.fpssPcs[0].pc, s.fpssPcs[0].sec, None, None))
  {
    var item := Plain(Insn(s.fpssPcs[0].pc, s.fpssPcs[0].sec));
    w' := w.(items := w.items + [item]);
    AppendAll(w.items, item);
    ShiftOne(OffloadsAll(w.items), s.fpssPcs);
    assert Offloads(item) == [s.fpssPcs[0]];
    assert ConfigsAll(w.items) + [] == ConfigsAll(w.items);
  }

  /** A call that passes a plain instruction through. */
  lemma ReadPlain(s: State, w: Parse) returns (w': Parse)
    requires s.curr.None? && ParseOk(w, None) && s.fpssPcs != [] && !s.fpssPcs[0].isFrep
    ensures Emul(s).Ok? && Accounts(s, w, Emul(s).value.0, w', Emul(s).value.1)
  {
    w' := AccountPlain(s, w);
    assert Start(s) == Ok(s);
  }

  /** The trace so far is explained by the reading: nothing offloaded, configured or issued is unaccounted for. */
  ghost predicate Explains(t: Trace, w: Parse) {
    && ParseOk(w, t.fseq.curr)
    && t.offloaded == TakenOffloads(w, t.fseq.curr) + t.fseq.fpssPcs
    && t.cfgs == TakenCfgs(w, t.fseq.curr) + t.fseq.cfgBuf
    && t.issued == IssuedSoFar(w, t.fseq.curr)
  }

  lemma ReadCall(s: State, fseqPcs: seq<PcStr>, w: Parse) returns (w': Parse)
    requires ParseOk(w, s.curr) && Emul(s).Ok? && FrepPcs(s.fpssPcs) == CfgPcs(s.cfgBuf) + fseqPcs
    ensures Accounts(s, w, Emul(s).value.0, w', Emul(s).value.1)
  {
    CallTakes(s);
    if s.curr.Some? {
      if |w.body| <= s.curr.value.cfg.maxInst { w' := ReadFilling(s, w); } else { w' := ReadDraining(s, w); }
    } else if s.fpssPcs[0].isFrep {
      assert FrepPcs(s.fpssPcs)[0] == s.fpssPcs[0].pc && CfgPcs(s.cfgBuf)[0] == s.cfgBuf[0].fseqPc;
      w' := ReadStarting(s, w.(j := 0, body := []));
    } else {
      w' := ReadPlain(s, w);
    }
  }

  lemma ExplainStep(t: Trace, line: Line, w: Parse) returns (w': Parse)
    requires t.perf != [] && Aligned(t) && Explains(t, w) && Step(t, line).Ok?
    ensures Explains(Step(t, line).value, w')
  {
    hide Emul, OffloadsAll, ConfigsAll, UnrollAll, TakenOffloads, TakenCfgs, IssuedSoFar, ParseOk, FrepPcs, CfgPcs;
    w' := w;
    if line.FpuIssue? {
      w' := ReadCall(t.fseq, t.fseqPcs, w);
    }
  }

  /** Every trace that does not end the program has a reading. */
  lemma {:induction false} TraceExplained(lines: seq<Line>) returns (w: Parse)
    requires Run(lines).Ok?
    ensures Explains(Run(lines).value, w)
  {
    if lines == [] {
      w := Parse([], Offload("", 0, true), [], 0);
    } else {
      var front := lines[..|lines| - 1];
      w := TraceExplained(front);
      QueuesAligned(front);
      w := ExplainStep(Run(front).value, lines[|lines| - 1], w);
    }
  }

  // ---------- What the lines say ----------

  /** How many sections have been opened by a line. */
  ghost function Marks(lines: seq<Line>): nat {
    if lines == [] then 0
    else Marks(lines[..|lines| - 1]) + if lines[|lines| - 1].SectionMark? then 1 else 0
  }

  /** The instructions that the lines offload, each in the section given by the marks before its line. */
  ghost function OffloadsIn(lines: seq<Line>): seq<Offload> {
    if lines == [] then []
    else
      var front, line := lines[..|lines| - 1], lines[|lines| - 1];
      OffloadsIn(front) + if line.Offloading? then [Offload(line.pc, Marks(front), line.isFrep)] else []
  }

  /** The configurations that the lines push: the k-th one is for the k-th FREP offloaded. */
  ghost function CfgsIn(lines: seq<Line>): seq<Cfg> {
    if lines == [] then []
    else
      var front, line := lines[..|lines| - 1], lines[|lines| - 1];
      var cfgs, freps := CfgsIn(front), FrepPcs(OffloadsIn(front));
      if line.CfgPush? && |cfgs| < |freps|
      then cfgs + [Cfg(line.maxInst, line.maxRpt, line.isOuter, freps[|cfgs|])] else cfgs
  }

  ghost function IssuesIn(lines: seq<Line>): nat {
    if lines == [] then 0
    else IssuesIn(lines[..|lines| - 1]) + if lines[|lines| - 1].FpuIssue? then 1 else 0
  }

  /** The trace is what its lines say; FREPs without a configuration are those beyond the configurations. */
  ghost predicate Recorded(lines: seq<Line>, t: Trace) {
    && |t.perf| == 1 + Marks(lines)
    && t.offloaded == OffloadsIn(lines) && t.cfgs == CfgsIn(lines) && |t.issued| == IssuesIn(lines)
    && |t.cfgs| <= |FrepPcs(t.offloaded)| && t.fseqPcs == FrepPcs(t.offloaded)[|t.cfgs|..]
  }

  /** A line seen from the end. */
  lemma LinesSnoc(front: seq<Line>, line: Line)
    ensures var lines := front + [line];
            && Marks(lines) == Marks(front) + (if line.SectionMark? then 1 else 0)
            && OffloadsIn(lines) ==
               OffloadsIn(front) + (if line.Offloading? then [Offload(line.pc, Marks(front), line.isFrep)] else [])
            && IssuesIn(lines) == IssuesIn(front) + (if line.FpuIssue? then 1 else 0)
            && CfgsIn(lines) ==
               (var cfgs, freps := CfgsIn(front), FrepPcs(OffloadsIn(front));
                if line.CfgPush? && |cfgs| < |freps|
                then cfgs + [Cfg(line.maxInst, line.maxRpt, line.isOuter, freps[|cfgs|])] else cfgs)
  {
    assert (front + [line])[..|front|] == front;
    hide FrepPcs;
  }

  lemma RecordedStep(front: seq<Line>, t: Trace, line: Line)
    requires t.perf != [] && Recorded(front, t) && Step(t, line).Ok?
    ensures Recorded(front + [line], Step(t, line).value)
  {
    hide Emul, FrepPcs, Marks, OffloadsIn, CfgsIn, IssuesIn;
    LinesSnoc(front, line);
    if line.Offloading? {
      FrepPcsSnoc(t.offloaded, Offload(line.pc, |t.perf| - 1, line.isFrep));
    }
  }

  /** Sections, offloads, configurations and the number of issues are those that the lines say. */
  lemma {:induction false} TraceRecorded(lines: seq<Line>)
    requires Run(lines).Ok?
    ensures Recorded(lines, Run(lines).value)
  {
    if lines != [] {
      hide Step, Recorded;
      var front, line := lines[..|lines| - 1], lines[|lines| - 1];
      TraceRecorded(front);
      RecordedStep(front, Run(front).value, line);
      assert lines == front + [line];
    }
  }

  /** A configuration line ends the program exactly if every FREP offloaded so far has its configuration. */
  lemma CfgFailsExactly(lines: seq<Line>, line: Line)
    requires Run(lines).Ok? && line.CfgPush?
    ensures Run(lines + [line]).Err? <==> |CfgsIn(lines)| == |FrepPcs(OffloadsIn(lines))|
  {
    hide OffloadsIn, CfgsIn, FrepPcs;
    TraceRecorded(lines);
    assert (lines + [line])[..|lines|] == lines;
  }

  /** The lines are those of program `p`: its offloads, its configurations, and as many issues as its unrolling has. */
  ghost predicate IsProgramOf(lines: seq<Line>, p: seq<Item>) {
    && WellFormed(p) && Paired(p)
    && OffloadsIn(lines) == OffloadsAll(p) && CfgsIn(lines) == ConfigsAll(p) && IssuesIn(lines) == |UnrollAll(p)|
  }

  /** What a line does to the sequencer. */
  ghost function EventsOf(t: Trace, line: Line): seq<Event>
    requires t.perf != [] && Step(t, line).Ok?
  {
    match line
    case SectionMark => []
    case Offloading(pc, isFrep) => [PushOffload(Offload(pc, |t.perf| - 1, isFrep))]
    case CfgPush(maxInst, maxRpt, isOuter) => [PushCfg(Cfg(maxInst, maxRpt, isOuter, t.fseqPcs[0]))]
    case FpuIssue => [Call]
  }

  ghost function TraceEvents(lines: seq<Line>): seq<Event>
    requires Run(lines).Ok?
  {
    if lines == [] then []
    else
      var front := lines[..|lines| - 1];
      TraceEvents(front) + EventsOf(Run(front).value, lines[|lines| - 1])
  }

  /** `evs` is what the trace did to the sequencer. */
  ghost predicate Drives(evs: seq<Event>, t: Trace) {
    && RunEvents(EMPTY, evs) == Ok((t.fseq, t.issued))
    && PushedOffloads(evs) == t.offloaded && PushedCfgs(evs) == t.cfgs
  }

  lemma DrivesStep(evs: seq<Event>, t: Trace, line: Line)
    requires t.perf != [] && Step(t, line).Ok? && Drives(evs, t)
    ensures Drives(evs + EventsOf(t, line), Step(t, line).value)
  {
    hide Emul, RunEvents, PushedOffloads, PushedCfgs;
    var more := EventsOf(t, line);
    if line.SectionMark? {
      assert evs + more == evs;
    } else {
      RunEventsConcat(EMPTY, evs, more);
      OneEvent(t.fseq, more[0]);
      EventsSnoc(evs, more[0]);
      assert t.issued + [] == t.issued;
    }
  }

  /** Every trace is an interleaved run of the sequencer. */
  lemma {:induction false} TraceDrives(lines: seq<Line>)
    requires Run(lines).Ok?
    ensures Drives(TraceEvents(lines), Run(lines).value)
  {
    hide EventsOf, Step, Drives;
    if lines == [] {
      BeginDriven();
    } else {
      var front := lines[..|lines| - 1];
      TraceDrives(front);
      DrivesStep(TraceEvents(front), Run(front).value, lines[|lines| - 1]);
    }
  }

  lemma BeginDriven()
    ensures Drives([], BEGIN)
  {
  }

  /** Once all of a program is issued, no loose ends are left, and the issues are its unrolling. */
  lemma CompleteHasNoLooseEnds(lines: seq<Line>, p: seq<Item>)
    requires Run(lines).Ok? && IsProgramOf(lines, p)
    ensures NoLooseEnds(Run(lines).value) && Run(lines).value.issued == UnrollAll(p)
  {
    hide Run, RunEvents, PushedOffloads, PushedCfgs, OffloadsAll, ConfigsAll, UnrollAll, TraceEvents, FrepPcs;
    hide Marks, OffloadsIn, CfgsIn, IssuesIn;
    TraceRecorded(lines);
    TraceDrives(lines);
    FrepRefinement(p, TraceEvents(lines));
    LooseEndsExact(lines);
  }

  lemma NoLooseEndsGivesProgram(lines: seq<Line>)
    requires Run(lines).Ok? && NoLooseEnds(Run(lines).value)
    ensures exists p :: IsProgramOf(lines, p)
  {
    hide Run, FrepPcs, Marks, OffloadsIn, CfgsIn, IssuesIn, OffloadsAll, ConfigsAll, UnrollAll;
    TraceRecorded(lines);
    var w := TraceExplained(lines);
    assert IsProgramOf(lines, w.items);
  }

  /**
   A trace has no loose ends if and only if its lines are those of a program: made of all offloaded
   instructions, each FREP with its own configuration, and with as many issues as the unrolled program
   has.  There is one such program at most, and what was issued is its unrolling.
   */
  lemma NoLooseEndsIffComplete(lines: seq<Line>)
    requires Run(lines).Ok?
    ensures NoLooseEnds(Run(lines).value) <==> exists p :: IsProgramOf(lines, p)
    ensures forall p :: IsProgramOf(lines, p) ==> Run(lines).value.issued == UnrollAll(p)
    ensures forall p, q :: IsProgramOf(lines, p) && IsProgramOf(lines, q) ==> p == q
  {
    hide Run, NoLooseEnds, UnrollAll;
    forall p, q | IsProgramOf(lines, p) && IsProgramOf(lines, q) ensures p == q {
      ProgramUnique(p, q);
    }
    forall p | IsProgramOf(lines, p) ensures Run(lines).value.issued == UnrollAll(p) && NoLooseEnds(Run(lines).value) {
      CompleteHasNoLooseEnds(lines, p);
    }
    if NoLooseEnds(Run(lines).value) {
      NoLooseEndsGivesProgram(lines);
    }
  }

  lemma SingleOffloads(item: Item)
    ensures OffloadsAll([item]) == Offloads(item) && OffloadsAll([]) == []
  {
    hide Offloads;
    assert [item][..0] == [];
  }

  lemma {:induction false} PrependOffloads(item: Item, p: seq<Item>)
    ensures OffloadsAll([item] + p) == Offloads(item) + OffloadsAll(p)
  {
    hide *;
    if p == [] {
      SingleOffloads(item);
      assert [item] + p == [item];
    } else {
      var front, last := p[..|p| - 1], p[|p| - 1];
      PrependOffloads(item, front);
      AppendAll([item] + front, last);
      AppendAll(front, last);
      assert front + [last] == p && ([item] + front) + [last] == [item] + p;
      Regroup(Offloads(item), OffloadsAll(front), Offloads(last));
    }
  }

  lemma {:induction false} PrependConfigs(item: Item, p: seq<Item>)
    ensures ConfigsAll([item] + p) == Configs(item) + ConfigsAll(p)
  {
    hide Configs;
    if p == [] {
      assert [item] + p == [] + [item];
      AppendAll([], item);
    } else {
      var front, last := p[..|p| - 1], p[|p| - 1];
      PrependConfigs(item, front);
      assert [item] + p == ([item] + front) + [last];
      AppendAll([item] + front, last);
      Regroup(Configs(item), ConfigsAll(front), Configs(last));
    }
  }

  lemma OffloadsFront(p: seq<Item>)
    requires p != []
    ensures OffloadsAll(p) == Offloads(p[0]) + OffloadsAll(p[1..])
    ensures ConfigsAll(p) == Configs(p[0]) + ConfigsAll(p[1..])
  {
    assert p == [p[0]] + p[1..];
    PrependOffloads(p[0], p[1..]);
    PrependConfigs(p[0], p[1..]);
  }

  lemma CancelPrefix<T>(a: seq<T>, x: seq<T>, b: seq<T>, y: seq<T>)
    requires a + x == b + y && |a| == |b|
    ensures a == b && x == y
  {
    assert (a + x)[..|a|] == a && (b + y)[..|b|] == b;
    assert (a + x)[|a|..] == x && (b + y)[|b|..] == y;
  }

  lemma SameFirst(p: Item, x: seq<Offload>, cs: seq<Cfg>, q: Item, y: seq<Offload>, ds: seq<Cfg>)
    requires p.WellFormed() && q.WellFormed()
    requires Offloads(p) + x == Offloads(q) + y && Configs(p) + cs == Configs(q) + ds
    ensures p == q && x == y && cs == ds
  {
    assert (Offloads(p) + x)[0] == Offloads(p)[0] && (Offloads(q) + y)[0] == Offloads(q)[0];
    if p.Frep? {
      assert (Configs(p) + cs)[0] == p.cfg && (Configs(q) + ds)[0] == q.cfg;
    }
    CancelPrefix(Offloads(p), x, Offloads(q), y);
    CancelPrefix(Configs(p), cs, Configs(q), ds);
    if p.Frep? {
      SameBody(p.pc, p.sec, p.body, q.pc, q.sec, q.body);
    }
  }

  lemma SameBody(pc: PcStr, sec: nat, body: seq<Insn>, pc': PcStr, sec': nat, body': seq<Insn>)
    requires [Offload(pc, sec, true)] + OffloadsOf(body) == [Offload(pc', sec', true)] + OffloadsOf(body')
    ensures pc == pc' && sec == sec' && body == body'
  {
    var a, b := [Offload(pc, sec, true)] + OffloadsOf(body), [Offload(pc', sec', true)] + OffloadsOf(body');
    assert a[0] == Offload(pc, sec, true) && b[0] == Offload(pc', sec', true);
    assert |a| == |body| + 1 && |b| == |body'| + 1;
    forall i | 0 <= i < |body| ensures body[i] == body'[i] {
      assert a[i + 1] == Offload(body[i].pc, body[i].sec, false);
      assert b[i + 1] == Offload(body'[i].pc, body'[i].sec, false);
    }
  }

  lemma OffloadsNonEmpty(p: seq<Item>)
    ensures p == [] <==> OffloadsAll(p) == []
  {
  }

  lemma SameHeadTail<T>(p: seq<T>, q: seq<T>)
    requires p != [] && q != [] && p[0] == q[0] && p[1..] == q[1..]
    ensures p == q
  {
    assert p == [p[0]] + p[1..] && q == [q[0]] + q[1..];
  }

  /** Offloads and configurations determine the program. */
  lemma {:induction false} ProgramUnique(p: seq<Item>, q: seq<Item>)
    requires WellFormed(p) && WellFormed(q)
    requires OffloadsAll(p) == OffloadsAll(q) && ConfigsAll(p) == ConfigsAll(q)
    ensures p == q
    decreases |p|
  {
    OffloadsNonEmpty(p);
    OffloadsNonEmpty(q);
    if p != [] && q != [] {
      hide OffloadsAll, ConfigsAll, Offloads, Configs;
      OffloadsFront(p);
      OffloadsFront(q);
      SameFirst(p[0], OffloadsAll(p[1..]), ConfigsAll(p[1..]), q[0], OffloadsAll(q[1..]), ConfigsAll(q[1..]));
      ProgramUnique(p[1..], q[1..]);
      SameHeadTail(p, q);
    }
  }

  // ---------- Sections ----------

  function IssuedIn(sec: nat): Issue -> bool { (o: Issue) => o.sec == sec }

  function OffloadedIn(sec: nat): Offload -> bool { (o: Offload) => o.sec == sec }

  function InsnIn(sec: nat): Insn -> bool { (i: Insn) => i.sec == sec }

  /** All sections mentioned anywhere in the machine exist. */
  ghost predicate SectionsExist(s: State, n: nat) {
    && (forall i :: 0 <= i < |s.fpssPcs| ==> s.fpssPcs[i].sec < n)
    && (s.curr.Some? ==> EntriesIn(s.curr.value.fpssBuf, n) && EntriesIn(s.curr.value.outerBuf, n))
  }

  ghost predicate EntriesIn(es: seq<Entry>, n: nat) {
    forall i :: 0 <= i < |es| ==> es[i].sec < n
  }

  lemma {:induction false} PassesIn(buf: seq<Entry>, lo: nat, hi: nat, n: nat)
    requires lo <= hi && EntriesIn(buf, n)
    ensures EntriesIn(Passes(buf, lo, hi), n)
    decreases hi - lo
  {
    if lo < hi { PassesIn(buf, lo, hi - 1, n); }
  }

  lemma TakeIn(a: Active, o: Offload, n: nat)
    requires EntriesIn(a.fpssBuf, n) && EntriesIn(a.outerBuf, n) && o.sec < n
    ensures EntriesIn(Take(a, o).fpssBuf, n) && EntriesIn(Take(a, o).outerBuf, n)
  {
    if a.cfg.isOuter {
      PassesIn(a.outerBuf + [Entry(o.pc, o.sec, 0, a.instIter)], 1, a.cfg.maxRpt + 1, n);
    } else {
      CopiesAre(o.pc, o.sec, a.instIter, a.cfg.maxRpt + 1);
    }
  }

  lemma CallKeepsSections(s: State, n: nat)
    requires SectionsExist(s, n) && Emul(s).Ok?
    ensures SectionsExist(Emul(s).value.0, n) && Emul(s).value.1.sec < n
  {
    var t := Start(s).value;
    if t.curr.Some? && t.curr.value.instIter <= t.curr.value.cfg.maxInst {
      TakeIn(t.curr.value, t.fpssPcs[0], n);
    }
  }

  /** The counters of every section count what was offloaded in it and what was issued for it. */
  ghost predicate Counted(t: Trace) {
    && t.perf != [] && SectionsExist(t.fseq, |t.perf|)
    && (forall i :: 0 <= i < |t.issued| ==> t.issued[i].sec < |t.perf|)
    && (forall i :: 0 <= i < |t.offloaded| ==> t.offloaded[i].sec < |t.perf|)
    && (forall sec :: 0 <= sec < |t.perf| ==> SectionCounted(t, sec))
  }

  ghost predicate SectionCounted(t: Trace, sec: nat)
    requires sec < |t.perf|
  {
    && t.perf[sec].issues == Count(t.issued, IssuedIn(sec))
    && t.perf[sec].offloads == Count(t.offloaded, OffloadedIn(sec))
  }

  lemma CountSnoc<T>(s: seq<T>, x: T, p: T -> bool)
    ensures Count(s + [x], p) == Count(s, p) + if p(x) then 1 else 0
  {
    CountConcat(s, [x], p);
    assert [x][1..] == [];
  }

  lemma CountedMark(t: Trace)
    requires Counted(t)
    ensures Counted(Step(t, SectionMark).value)
  {
    var u := Step(t, SectionMark).value;
    CountNone(t.issued, IssuedIn(|t.perf|));
    CountNone(t.offloaded, OffloadedIn(|t.perf|));
    forall sec | 0 <= sec < |u.perf| ensures SectionCounted(u, sec) {
      assert sec < |t.perf| ==> SectionCounted(t, sec);
    }
  }

  lemma CountedOffload(t: Trace, pc: PcStr, isFrep: bool)
    requires Counted(t)
    ensures Counted(Step(t, Offloading(pc, isFrep)).value)
  {
    var u := Step(t, Offloading(pc, isFrep)).value;
    forall sec | 0 <= sec < |u.perf| ensures SectionCounted(u, sec) {
      assert SectionCounted(t, sec);
      CountSnoc(t.offloaded, Offload(pc, |t.perf| - 1, isFrep), OffloadedIn(sec));
    }
  }

  lemma CountedIssue(t: Trace)
    requires Counted(t) && Step(t, FpuIssue).Ok?
    ensures Counted(Step(t, FpuIssue).value)
  {
    var u := Step(t, FpuIssue).value;
    var o := Emul(t.fseq).value.1;
    CallKeepsSections(t.fseq, |t.perf|);
    forall sec | 0 <= sec < |u.perf| ensures SectionCounted(u, sec) {
      assert SectionCounted(t, sec);
      CountSnoc(t.issued, o, IssuedIn(sec));
    }
  }

  lemma {:induction false} RunCounted(lines: seq<Line>)
    requires Run(lines).Ok?
    ensures Counted(Run(lines).value)
  {
    if lines == [] {
      assert SectionCounted(BEGIN, 0);
    } else {
      var front, line := lines[..|lines| - 1], lines[|lines| - 1];
      RunCounted(front);
      var t := Run(front).value;
      match line
      case SectionMark => CountedMark(t);
      case Offloading(pc, isFrep) => CountedOffload(t, pc, isFrep);
      case CfgPush(_, _, _) =>
        forall sec | 0 <= sec < |t.perf| ensures SectionCounted(Step(t, line).value, sec) {
          assert SectionCounted(t, sec);
        }
      case FpuIssue => CountedIssue(t);
    }
  }

  /**
   Every counter of every section, at any point: sections are one more than the marks so far, a section's offload
   counter counts the instructions offloaded between its marks, and each issue is counted in one section.
   */
  lemma TraceCounted(lines: seq<Line>, sec: nat)
    requires Run(lines).Ok? && sec <= Marks(lines)
    ensures var t := Run(lines).value;
            && |t.perf| == 1 + Marks(lines)
            && t.perf[sec].offloads == Count(OffloadsIn(lines), OffloadedIn(sec))
            && t.perf[sec].issues == Count(t.issued, IssuedIn(sec))
            && forall i :: 0 <= i < |t.issued| ==> t.issued[i].sec <= Marks(lines)
  {
    hide Run, Marks, OffloadsIn, CfgsIn, FrepPcs;
    TraceRecorded(lines);
    RunCounted(lines);
    assert SectionCounted(Run(lines).value, sec);
  }

  /** What the instructions of section `sec` in an item are worth: 1 if plain, maxRpt+1 in an FREP body. */
  ghost function Weight(item: Item, sec: nat): nat {
    match item
    case Plain(insn) => if insn.sec == sec then 1 else 0
    case Frep(_, _, cfg, body) => (cfg.maxRpt + 1) * Count(body, InsnIn(sec))
  }

  ghost function WeightAll(p: seq<Item>, sec: nat): nat {
    if p == [] then 0 else WeightAll(p[..|p| - 1], sec) + Weight(p[|p| - 1], sec)
  }

  lemma {:induction false} OuterWeight(cfg: Cfg, body: seq<Insn>, reps: nat, sec: nat)
    ensures Count(OuterLoop(cfg, body, reps), IssuedIn(sec)) == reps * Count(body, InsnIn(sec))
  {
    if reps > 0 {
      OuterWeight(cfg, body, reps - 1, sec);
      CountConcat(OuterLoop(cfg, body, reps - 1), OnePass(cfg, body, reps - 1), IssuedIn(sec));
      CountPointwise(OnePass(cfg, body, reps - 1), IssuedIn(sec), body, InsnIn(sec));
      assert reps * Count(body, InsnIn(sec)) == (reps - 1) * Count(body, InsnIn(sec)) + Count(body, InsnIn(sec));
    }
  }

  lemma {:induction false} InnerWeight(cfg: Cfg, body: seq<Insn>, sec: nat)
    ensures Count(InnerLoop(cfg, body), IssuedIn(sec)) == (cfg.maxRpt + 1) * Count(body, InsnIn(sec))
  {
    if body != [] {
      var k, n := |body| - 1, cfg.maxRpt + 1;
      InnerWeight(cfg, body[..k], sec);
      var reps := AllReps(cfg, body[k], k);
      CountConcat(InnerLoop(cfg, body[..k]), reps, IssuedIn(sec));
      CountAll(reps, IssuedIn(sec));
      CountNone(reps, IssuedIn(sec));
      CountSnoc(body[..k], body[k], InsnIn(sec));
      assert body[..k] + [body[k]] == body;
      assert n * (Count(body[..k], InsnIn(sec)) + 1) == n * Count(body[..k], InsnIn(sec)) + n;
    }
  }

  lemma {:induction false} UnrollWeight(p: seq<Item>, sec: nat)
    ensures Count(UnrollAll(p), IssuedIn(sec)) == WeightAll(p, sec)
  {
    if p != [] {
      hide Unroll, Weight, Count;
      var front, item := p[..|p| - 1], p[|p| - 1];
      UnrollWeight(front, sec);
      CountConcat(UnrollAll(front), Unroll(item), IssuedIn(sec));
      ItemWeight(item, sec);
    }
  }

  lemma ItemWeight(item: Item, sec: nat)
    ensures Count(Unroll(item), IssuedIn(sec)) == Weight(item, sec)
  {
    hide OuterLoop, InnerLoop;
    match item
    case Plain(insn) => assert [Issue(insn.pc, insn.sec, None, None)][1..] == [];
    case Frep(_, _, cfg, body) =>
      if cfg.isOuter { OuterWeight(cfg, body, cfg.maxRpt + 1, sec); } else { InnerWeight(cfg, body, sec); }
  }

  /**
   Section conservation: after a trace without loose ends, the lines are those of one program, and a section's
   issue counter is the weight of the instructions that were offloaded between its marks, whenever
   they were issued.
   */
  lemma SectionConservation(lines: seq<Line>, sec: nat)
    requires Run(lines).Ok? && NoLooseEnds(Run(lines).value) && sec <= Marks(lines)
    ensures |Run(lines).value.perf| == 1 + Marks(lines)
    ensures exists p :: IsProgramOf(lines, p)
    ensures forall p :: IsProgramOf(lines, p) ==> Run(lines).value.perf[sec].issues == WeightAll(p, sec)
    ensures Run(lines).value.perf[sec].offloads == Count(OffloadsIn(lines), OffloadedIn(sec))
  {
    hide Run, NoLooseEnds, Marks, UnrollAll, WeightAll, OffloadsIn;
    NoLooseEndsIffComplete(lines);
    TraceCounted(lines, sec);
    forall p | IsProgramOf(lines, p) ensures Run(lines).value.perf[sec].issues == WeightAll(p, sec) {
      UnrollWeight(p, sec);
    }
  }
}

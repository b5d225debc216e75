/** What the replay of a whole log reports, core by core. */
module InstructionReports {
  import opened NexusWire
  import opened Disassembler
  import opened Simulator

  // ----- the whole log

  /** Calls NextInstruction until it reaches the end or a bad line, past instructions it cannot decode. */
  method ReadAll(cx: Context, lines: seq<Line>) returns (entries: seq<Entry>)
    requires ValidLog(lines)
    ensures entries == Reports(cx, lines, INITIAL)
  {
    hide Reports, Process, First, NextPc;
    var simulator := new Simulator(cx, lines);
    entries := [];
    assert lines[0..] == lines;
    while true
      invariant simulator.Valid() && simulator.cx == cx && simulator.lines == lines
      invariant fresh(simulator) && fresh(simulator.enterISR) && fresh(simulator.currentTime)
      invariant ValidState(simulator.View())
      invariant Reports(cx, lines, INITIAL) == entries + Reports(cx, lines[simulator.nextLine..], simulator.View())
      decreases |lines| - simulator.nextLine
    {
      ReportsFirst(cx, lines[simulator.nextLine..], simulator.View());
      ghost var start := simulator.nextLine;
      var result, core := simulator.NextInstruction();
      if result == EndOfFile || result == BadLine {
        return;
      }
      assert lines[start..][simulator.nextLine - start..] == lines[simulator.nextLine..];
      entries := entries + [Entry(core, result)];
    }
  }

  /** One call reports the first entry, or stops where the reports end. */
  lemma {:induction false} ReportsFirst(cx: Context, lines: seq<Line>, s: State)
    requires ValidLog(lines) && ValidState(s)
    ensures var f := First(lines, None);
            match f.0
            case Found(rec) =>
              && ValidRec(rec)
              && var p := Process(cx, s, rec, NextPc(lines[f.1 + 1..], rec.core));
                 && p.1 != EndOfFile && p.1 != BadLine
                 && Reports(cx, lines, s) == [Entry(rec.core, p.1)] + Reports(cx, lines[f.1 + 1..], p.0)
            case _ => Reports(cx, lines, s) == []
    decreases |lines|
  {
    hide NextPc, Interrupted, BranchOutcome, CallFlags, DecodeInstruction;
    if lines != [] && Parse(lines[0], None) == Nothing {
      var f := First(lines[1..], None);
      ReportsFirst(cx, lines[1..], s);
      if f.0.Found? {
        assert lines[1..][f.1 + 1..] == lines[f.1 + 2..];
      }
    } else if lines != [] {
      assert ValidLine(lines[0]);
    }
  }

  // ----- one core

  /** The instructions of a core, up to its first bad line. */
  function Records(lines: seq<Line>, core: nat): seq<Rec>
  {
    if lines == [] || lines[0] == Malformed(core) then []
    else (if lines[0].Instr? && lines[0].rec.core == core then [lines[0].rec] else []) + Records(lines[1..], core)
  }

  /** The lines of a core. */
  function OfCore(lines: seq<Line>, core: nat): seq<Line>
  {
    if lines == [] then []
    else (if IsOf(lines[0], core) then [lines[0]] else []) + OfCore(lines[1..], core)
  }

  function EntriesOf(entries: seq<Entry>, core: nat): seq<Result>
  {
    if entries == [] then []
    else (if entries[0].core == core then [entries[0].result] else []) + EntriesOf(entries[1..], core)
  }

  /** What is kept for one core, with the last report that was built for it. */
  datatype Core = Core(isr: bool, time: nat, last: LastReport)

  const NEW_CORE := Core(false, 0, Unwritten)

  predicate Decodes(cx: Context, r: Rec) { DecodeInstruction(r.inst, cx.arch).Some? }

  /** An instruction that can be decoded but not disassembled, for which the last report is given again. */
  predicate Stale(cx: Context, r: Rec) { Decodes(cx, r) && !cx.Known(r.pc) }

  /** One instruction of a core that goes on at next. */
  function CoreProcess(cx: Context, c: Core, r: Rec, next: nat): (Core, Result)
  {
    var decoded := DecodeInstruction(r.inst, cx.arch);
    if decoded.None? then (c.(isr := false), Failed)
    else
      var d := decoded.value;
      var isr := Interrupted(r.pc, d, next);
      if !cx.Known(r.pc) then (c.(isr := isr), Returned(c.last))
      else
        var built := Built(Info(r.core, r.pc, cx.disassemble(r.pc).value, BranchOutcome(r.pc, d, next),
                                Flag(c.isr) + CallFlags(d), r.cycles, PipeCycles(r.cycles, c.time), r.marks));
        (Core(isr, r.cycles, built), Returned(built))
  }

  /** What is to be reported for the instructions of one core, by itself. */
  function CoreReports(cx: Context, recs: seq<Rec>, c: Core): (results: seq<Result>)
    ensures |results| == |recs|
    decreases |recs|
  {
    if recs == [] then []
    else
      var p := CoreProcess(cx, c, recs[0], if |recs| > 1 then recs[1].pc else 0);
      [p.1] + CoreReports(cx, recs[1..], p.0)
  }

  // ----- the last report that was built

  /** An instruction for which a report is built. */
  predicate Builds(cx: Context, l: Line) { l.Instr? && Decodes(cx, l.rec) && cx.Known(l.rec.pc) }

  /** The core of the last line before i for which a report is built. */
  function LastBuilder(cx: Context, lines: seq<Line>, i: nat): Option<nat>
    requires i <= |lines|
  {
    if i == 0 then None
    else if Builds(cx, lines[i - 1]) then Some(lines[i - 1].rec.core)
    else LastBuilder(cx, lines, i - 1)
  }

  /** Line i is a stale instruction of the core, and no bad line comes before it. */
  predicate StaleAt(cx: Context, lines: seq<Line>, core: nat, i: nat)
  {
    && i < |lines| && lines[i].Instr? && lines[i].rec.core == core && Stale(cx, lines[i].rec)
    && forall j :: 0 <= j < i ==> !lines[j].Malformed?
  }

  /**
   Before every stale instruction of the core, the last report was built for that core; or none was, and that
   is all right.
   */
  predicate Undisturbed(cx: Context, lines: seq<Line>, core: nat, noneIsRight: bool)
  {
    forall i :: 0 <= i < |lines| && StaleAt(cx, lines, core, i) ==>
      var b := LastBuilder(cx, lines, i); if b.None? then noneIsRight else b.value == core
  }

  lemma {:induction false} BuilderLater(cx: Context, lines: seq<Line>, i: nat)
    requires i < |lines|
    ensures LastBuilder(cx, lines, i + 1)
         == var b := LastBuilder(cx, lines[1..], i);
            if b.None? && Builds(cx, lines[0]) then Some(lines[0].rec.core) else b
  {
    hide Builds;
    if i > 0 {
      BuilderLater(cx, lines, i - 1);
    } else {
      assert LastBuilder(cx, lines, 0) == None;
    }
  }

  /** A line settles whether the last report is the core's if it builds one. */
  function RightAfter(cx: Context, l: Line, core: nat, noneIsRight: bool): bool
  {
    if Builds(cx, l) then l.rec.core == core else noneIsRight
  }

  lemma UndisturbedFirst(cx: Context, lines: seq<Line>, core: nat, noneIsRight: bool)
    requires lines != [] && !lines[0].Malformed?
    ensures Undisturbed(cx, lines, core, noneIsRight)
       <==> (StaleAt(cx, lines, core, 0) ==> noneIsRight)
            && Undisturbed(cx, lines[1..], core, RightAfter(cx, lines[0], core, noneIsRight))
  {
    hide Stale, Decodes;
    var rest, right := lines[1..], RightAfter(cx, lines[0], core, noneIsRight);
    forall i: nat | i < |rest|
      ensures StaleAt(cx, lines, core, i + 1) <==> StaleAt(cx, rest, core, i)
      ensures LastBuilder(cx, lines, i + 1) == var b := LastBuilder(cx, rest, i);
              if b.None? && Builds(cx, lines[0]) then Some(lines[0].rec.core) else b
    {
      StaleLater(cx, lines, core, i);
      BuilderLater(cx, lines, i);
    }
    if Undisturbed(cx, lines, core, noneIsRight) {
      forall i | 0 <= i < |rest| && StaleAt(cx, rest, core, i)
        ensures var b := LastBuilder(cx, rest, i); if b.None? then right else b.value == core
      {
        assert StaleAt(cx, lines, core, i + 1);
      }
    } else {
      var i :| 0 <= i < |lines| && StaleAt(cx, lines, core, i) &&
               var b := LastBuilder(cx, lines, i); !(if b.None? then noneIsRight else b.value == core);
      if i > 0 {
        assert StaleAt(cx, rest, core, i - 1);
      }
    }
  }

  lemma StaleLater(cx: Context, lines: seq<Line>, core: nat, i: nat)
    requires lines != [] && !lines[0].Malformed?
    ensures StaleAt(cx, lines, core, i + 1) <==> StaleAt(cx, lines[1..], core, i)
  {
    hide Stale;
    if StaleAt(cx, lines[1..], core, i) {
      forall j | 0 <= j < i + 1
        ensures !lines[j].Malformed?
      {
        assert j > 0 ==> lines[j] == lines[1..][j - 1];
      }
    }
  }

  function AfterLine(cx: Context, lines: seq<Line>, s: State): (t: State)
    requires lines != [] && ValidLog(lines) && ValidState(s)
    ensures ValidState(t)
  {
    assert ValidLine(lines[0]);
    if lines[0].Instr? then Process(cx, s, lines[0].rec, NextPc(lines[1..], lines[0].rec.core)).0 else s
  }

  function CoreAfterLine(cx: Context, lines: seq<Line>, core: nat, c: Core): Core
    requires lines != []
  {
    if lines[0].Instr? && lines[0].rec.core == core then CoreProcess(cx, c, lines[0].rec, NextPc(lines[1..], core)).0
    else c
  }

  /** The first bad line is another core's, and this core goes on after it. */
  predicate CutShort(lines: seq<Line>, core: nat)
  {
    lines != []
    && if lines[0].Malformed? then lines[0].core != core && Records(lines[1..], core) != []
       else CutShort(lines[1..], core)
  }

  /** The lookahead finds the core's own next instruction, whatever lies between. */
  lemma {:induction false} NextPcOfCore(lines: seq<Line>, core: nat)
    ensures NextPc(lines, core) == var rs := Records(lines, core); if rs == [] then 0 else rs[0].pc
  {
    if lines != [] && Parse(lines[0], Some(core)) == Nothing {
      NextPcOfCore(lines[1..], core);
    }
  }

  /** One report as the merged log has it, against the core's own. */
  predicate Alike(cx: Context, r: Rec, merged: Result, own: Result)
  {
    if Stale(cx, r) then merged.Returned? && own.Returned? else merged == own
  }

  /** A report that was built for the core, if it was built at all. */
  predicate Own(report: LastReport, core: nat) { report.Built? ==> report.info.core == core }

  /**
   The reports for a core, in any state of the others and with any last report of its own, against those that
   are a function of its own instructions alone. A bad line of another core cuts them short if and only if the
   core goes on after it. As far as they go they are the core's own if and only if, wherever a report is given
   again, the last one was built for the core, or none was and the two started out with the same; all others
   always are.
   */
  lemma {:induction false} PerCore(cx: Context, lines: seq<Line>, core: nat, s: State, own: LastReport)
    requires ValidLog(lines) && ValidState(s) && core < DQR_MAXCORES && Own(own, core)
    ensures var recs, c := Records(lines, core), Core(s.isr[core], s.time[core], own);
            var merged, all := EntriesOf(Reports(cx, lines, s), core), CoreReports(cx, recs, c);
            && |merged| <= |all| && (|merged| == |all| <==> !CutShort(lines, core))
            && (merged <= all <==> Undisturbed(cx, lines, core, s.last == own))
            && forall i :: 0 <= i < |merged| ==> Alike(cx, recs[i], merged[i], all[i])
    decreases |lines|
  {
    hide NextPc, Interrupted, BranchOutcome, CallFlags, DecodeInstruction, Undisturbed,
         CoreProcess, Process, Alike, CoreReports;
    var c := Core(s.isr[core], s.time[core], own);
    if lines == [] {
      NoLines(cx, core, c, s.last == own);
    } else if lines[0].Malformed? {
      BadLineUndisturbed(cx, lines, core, s.last == own);
      assert lines[0].core != core ==> Records(lines, core) == Records(lines[1..], core);
    } else {
      assert ValidLine(lines[0]);
      UndisturbedFirst(cx, lines, core, s.last == own);
      var s', c' := AfterLine(cx, lines, s), CoreAfterLine(cx, lines, core, c);
      LineOfCore(cx, lines, core, s, own);
      PerCore(cx, lines[1..], core, s', c'.last);
      var merged, all := EntriesOf(Reports(cx, lines[1..], s'), core), CoreReports(cx, Records(lines[1..], core), c');
      if lines[0].Instr? && lines[0].rec.core == core {
        FirstRecord(cx, lines, core, s, c);
        var r := lines[0].rec;
        FirstAlike(cx, r, Process(cx, s, r, NextPc(lines[1..], core)).1,
                   CoreProcess(cx, c, r, NextPc(lines[1..], core)).1,
                   Records(lines[1..], core), merged, all);
      } else {
        OtherLine(cx, lines, core, s);
      }
    }
  }

  lemma NoLines(cx: Context, core: nat, c: Core, noneIsRight: bool)
    ensures Undisturbed(cx, [], core, noneIsRight) && CoreReports(cx, [], c) == []
  {
  }

  lemma BadLineUndisturbed(cx: Context, lines: seq<Line>, core: nat, noneIsRight: bool)
    requires lines != [] && lines[0].Malformed?
    ensures Undisturbed(cx, lines, core, noneIsRight)
  {
    assert forall i: nat :: !StaleAt(cx, lines, core, i);
  }

  /** After a line, the merged state is the core's own state again, but for the last report. */
  lemma LineOfCore(cx: Context, lines: seq<Line>, core: nat, s: State, own: LastReport)
    requires lines != [] && ValidLog(lines) && ValidState(s) && core < DQR_MAXCORES && Own(own, core)
    ensures var s', c' := AfterLine(cx, lines, s), CoreAfterLine(cx, lines, core, Core(s.isr[core], s.time[core], own));
            && s'.isr[core] == c'.isr && s'.time[core] == c'.time && Own(c'.last, core)
            && (s'.last == c'.last <==> RightAfter(cx, lines[0], core, s.last == own))
    ensures lines[0].Instr? && lines[0].rec.core == core ==>
              var r, next := lines[0].rec, NextPc(lines[1..], core);
              var p, q := Process(cx, s, r, next).1, CoreProcess(cx, Core(s.isr[core], s.time[core], own), r, next).1;
              Alike(cx, r, p, q) && (p == q <==> (Stale(cx, r) ==> s.last == own))
  {
    hide NextPc, Interrupted, BranchOutcome, CallFlags, DecodeInstruction;
    assert ValidLine(lines[0]);
  }

  /** Two last reports that belong to the same core, or to none in the same way. */
  predicate SameOwner(a: LastReport, b: LastReport)
  {
    if a.Built? && b.Built? then a.info.core == b.info.core else a == b
  }

  predicate SameOwners(p: Result, q: Result)
  {
    if p.Returned? && q.Returned? then SameOwner(p.report, q.report) else p == q
  }

  /** Where reports for a core differ from its own, they differ in whose they are. */
  lemma {:induction false} OwnersTell(cx: Context, lines: seq<Line>, core: nat, s: State, own: LastReport)
    requires ValidLog(lines) && ValidState(s) && core < DQR_MAXCORES && Own(own, core)
    requires SameOwner(s.last, own) ==> s.last == own
    ensures var c := Core(s.isr[core], s.time[core], own);
            var merged, all := EntriesOf(Reports(cx, lines, s), core), CoreReports(cx, Records(lines, core), c);
            (forall i :: 0 <= i < |merged| && i < |all| ==> SameOwners(merged[i], all[i]))
            ==> Undisturbed(cx, lines, core, s.last == own)
    decreases |lines|
  {
    hide NextPc, Undisturbed, CoreProcess, Process, CoreReports, SameOwners, Alike;
    var c := Core(s.isr[core], s.time[core], own);
    if lines == [] {
      NoLines(cx, core, c, s.last == own);
    } else if lines[0].Malformed? {
      BadLineUndisturbed(cx, lines, core, s.last == own);
    } else {
      assert ValidLine(lines[0]);
      UndisturbedFirst(cx, lines, core, s.last == own);
      var s', c' := AfterLine(cx, lines, s), CoreAfterLine(cx, lines, core, c);
      LineOfCore(cx, lines, core, s, own);
      OwnerAfter(cx, lines, core, s, own);
      OwnersTell(cx, lines[1..], core, s', c'.last);
      var merged, all := EntriesOf(Reports(cx, lines[1..], s'), core), CoreReports(cx, Records(lines[1..], core), c');
      if lines[0].Instr? && lines[0].rec.core == core {
        FirstRecord(cx, lines, core, s, c);
        var p := [Process(cx, s, lines[0].rec, NextPc(lines[1..], core)).1];
        var q := [CoreProcess(cx, c, lines[0].rec, NextPc(lines[1..], core)).1];
        if forall i :: 0 <= i < |p + merged| && i < |q + all| ==> SameOwners((p + merged)[i], (q + all)[i]) {
          assert SameOwners((p + merged)[0], (q + all)[0]);
          forall i | 0 <= i < |merged| && i < |all|
            ensures SameOwners(merged[i], all[i])
          {
            assert SameOwners((p + merged)[i + 1], (q + all)[i + 1]);
          }
        }
      } else {
        OtherLine(cx, lines, core, s);
      }
    }
  }

  lemma OwnerAfter(cx: Context, lines: seq<Line>, core: nat, s: State, own: LastReport)
    requires lines != [] && ValidLog(lines) && ValidState(s) && core < DQR_MAXCORES && Own(own, core)
    requires SameOwner(s.last, own) ==> s.last == own
    ensures var s', c' := AfterLine(cx, lines, s), CoreAfterLine(cx, lines, core, Core(s.isr[core], s.time[core], own));
            SameOwner(s'.last, c'.last) ==> s'.last == c'.last
    ensures lines[0].Instr? && lines[0].rec.core == core ==>
              var r, next := lines[0].rec, NextPc(lines[1..], core);
              var p, q := Process(cx, s, r, next).1, CoreProcess(cx, Core(s.isr[core], s.time[core], own), r, next).1;
              SameOwners(p, q) ==> p == q
  {
    hide NextPc, Interrupted, BranchOutcome, CallFlags, DecodeInstruction;
    assert ValidLine(lines[0]);
  }

  lemma FirstAlike(cx: Context, r: Rec, p: Result, q: Result, recs: seq<Rec>, merged: seq<Result>, all: seq<Result>)
    requires Alike(cx, r, p, q) && |merged| <= |all| == |recs|
    requires forall i :: 0 <= i < |merged| ==> Alike(cx, recs[i], merged[i], all[i])
    ensures [p] + merged <= [q] + all <==> p == q && merged <= all
    ensures forall i :: 0 <= i < |merged| + 1 ==> Alike(cx, ([r] + recs)[i], ([p] + merged)[i], ([q] + all)[i])
  {
    hide Alike;
    assert ([p] + merged)[1..] == merged && ([q] + all)[1..] == all;
    if [p] + merged <= [q] + all {
      assert ([p] + merged)[0] == ([q] + all)[0];
      assert ([q] + all)[..|merged| + 1][1..] == all[..|merged|];
    }
  }

  /** A line that is no instruction of the core. */
  lemma OtherLine(cx: Context, lines: seq<Line>, core: nat, s: State)
    requires lines != [] && ValidLog(lines) && ValidState(s) && !lines[0].Malformed?
    requires !(lines[0].Instr? && lines[0].rec.core == core)
    ensures EntriesOf(Reports(cx, lines, s), core) == EntriesOf(Reports(cx, lines[1..], AfterLine(cx, lines, s)), core)
    ensures Records(lines, core) == Records(lines[1..], core)
  {
    hide NextPc, Process;
    assert ValidLine(lines[0]);
    if lines[0].Instr? {
      var p := Process(cx, s, lines[0].rec, NextPc(lines[1..], lines[0].rec.core));
      FirstEntry(Entry(lines[0].rec.core, p.1), Reports(cx, lines[1..], p.0), core);
    }
  }

  lemma FirstEntry(e: Entry, rest: seq<Entry>, core: nat)
    ensures EntriesOf([e] + rest, core) == (if e.core == core then [e.result] else []) + EntriesOf(rest, core)
  {
    assert ([e] + rest)[1..] == rest;
  }

  /** An instruction of the core comes first in both. */
  lemma FirstRecord(cx: Context, lines: seq<Line>, core: nat, s: State, c: Core)
    requires lines != [] && lines[0].Instr? && lines[0].rec.core == core && ValidLog(lines) && ValidState(s)
    ensures var r, next := lines[0].rec, NextPc(lines[1..], core);
            && ValidRec(r) && Records(lines, core) == [r] + Records(lines[1..], core)
            && EntriesOf(Reports(cx, lines, s), core)
               == [Process(cx, s, r, next).1] + EntriesOf(Reports(cx, lines[1..], AfterLine(cx, lines, s)), core)
            && CoreReports(cx, Records(lines, core), c)
               == [CoreProcess(cx, c, r, next).1]
                  + CoreReports(cx, Records(lines[1..], core), CoreAfterLine(cx, lines, core, c))
  {
    hide NextPc, Process, CoreProcess;
    assert ValidLine(lines[0]);
    var r, rest := lines[0].rec, Records(lines[1..], core);
    NextPcOfCore(lines[1..], core);
    var p := Process(cx, s, r, NextPc(lines[1..], core));
    FirstEntry(Entry(core, p.1), Reports(cx, lines[1..], p.0), core);
    var recs := Records(lines, core);
    assert recs == [r] + rest && recs[1..] == rest;
    assert rest != [] ==> recs[1] == rest[0];
  }

  predicate IsOf(l: Line, core: nat)
  {
    match l
    case Comment => false
    case Malformed(k) => k == core
    case Idle(k) => k == core
    case Instr(rec) => rec.core == core
  }

  lemma {:induction false} RecordsOfCore(lines: seq<Line>, core: nat)
    ensures Records(OfCore(lines, core), core) == Records(lines, core)
    ensures !CutShort(OfCore(lines, core), core)
  {
    if lines != [] {
      RecordsOfCore(lines[1..], core);
      var rest := OfCore(lines[1..], core);
      if IsOf(lines[0], core) {
        assert OfCore(lines, core) == [lines[0]] + rest && ([lines[0]] + rest)[1..] == rest;
      } else {
        assert OfCore(lines, core) == rest;
      }
    }
  }

  lemma {:induction false} OfCoreKeeps(lines: seq<Line>, core: nat)
    requires ValidLog(lines)
    ensures ValidLog(OfCore(lines, core))
    ensures forall i :: 0 <= i < |OfCore(lines, core)| ==> IsOf(OfCore(lines, core)[i], core)
  {
    if lines != [] {
      OfCoreKeeps(lines[1..], core);
      assert ValidLine(lines[0]);
    }
  }

  /** In a log of one core, the last report built is always its own. */
  lemma {:induction false} AloneBuilder(cx: Context, lines: seq<Line>, core: nat, i: nat)
    requires i <= |lines| && forall k :: 0 <= k < |lines| ==> IsOf(lines[k], core)
    ensures LastBuilder(cx, lines, i) in {None, Some(core)}
  {
    hide Decodes;
    if i > 0 {
      assert IsOf(lines[i - 1], core);
      AloneBuilder(cx, lines, core, i - 1);
    }
  }

  /**
   Core-interleaving independence: what is reported for a core from a merged log is what is reported from
   the log of that core alone if and only if no other core's bad line cuts it short and, before each of its
   instructions that can be decoded but not disassembled, the last instruction of any core for which a report
   was built is one of its own, or there is none. In the latter case both give an object that nothing has
   written yet.
   */
  lemma Independence(cx: Context, lines: seq<Line>, core: nat)
    requires ValidLog(lines) && core < DQR_MAXCORES
    ensures ValidLog(OfCore(lines, core))
    ensures var merged := EntriesOf(Reports(cx, lines, INITIAL), core);
            var alone := EntriesOf(Reports(cx, OfCore(lines, core), INITIAL), core);
            && (merged <= alone <==> Undisturbed(cx, lines, core, true))
            && (merged == alone <==> !CutShort(lines, core) && Undisturbed(cx, lines, core, true))
  {
    hide Reports, CoreReports, CutShort, Records, OfCore, StaleAt;
    OfCoreKeeps(lines, core);
    RecordsOfCore(lines, core);
    PerCore(cx, lines, core, INITIAL, Unwritten);
    PerCore(cx, OfCore(lines, core), core, INITIAL, Unwritten);
    forall i | 0 <= i < |OfCore(lines, core)|
      ensures LastBuilder(cx, OfCore(lines, core), i) in {None, Some(core)}
    {
      AloneBuilder(cx, OfCore(lines, core), core, i);
    }
  }

  // ----- interrupts

  /** Control goes from one instruction to a next one that is none of its successors. */
  predicate Discontinuity(cx: Context, r: Rec, next: Rec)
  {
    var d := DecodeInstruction(r.inst, cx.arch);
    d.Some? && Successors(r.pc, d.value).Some? && next.pc !in Successors(r.pc, d.value).value
  }

  /** Cycles since the last instruction, as 32 bits; 0 for the first one, whose core has no time yet. */
  lemma CyclesSince(now: nat, last: nat)
    ensures 0 <= PipeCycles(now, last) < 0x1_0000_0000
    ensures last == 0 ==> PipeCycles(now, last) == 0
    ensures last != 0 ==> (now - last - PipeCycles(now, last)) % 0x1_0000_0000 == 0
  {
  }

  /** The report at a position of one core's own reports; given again where it is stale. */
  lemma {:induction false} CoreReportsAt(cx: Context, recs: seq<Rec>, c: Core, i: nat)
    requires i < |recs|
    ensures var result, d := CoreReports(cx, recs, c)[i], DecodeInstruction(recs[i].inst, cx.arch);
            && (d.None? ==> result == Failed)
            && (d.Some? && !cx.Known(recs[i].pc) ==>
                 result == Returned(Last(CoreReports(cx, recs, c)[..i], c.last)))
            && (d.Some? && cx.Known(recs[i].pc) ==>
                 && result.Returned? && result.report.Built?
                 && var info := result.report.info;
                    && info.core == recs[i].core && info.pc == recs[i].pc && Some(info.code) == cx.disassemble(info.pc)
                    && info.timestamp == recs[i].cycles && info.marks == recs[i].marks
                    && info.crFlag - {isInterrupt} == CallFlags(d.value)
                    && (isInterrupt in info.crFlag <==>
                          if i == 0 then c.isr else Discontinuity(cx, recs[i - 1], recs[i]) && recs[i].pc != 0)
                    && info.brFlags
                       == BranchOutcome(recs[i].pc, d.value, if i + 1 < |recs| then recs[i + 1].pc else 0)
                    && (i > 0 && Decodes(cx, recs[i - 1]) && cx.Known(recs[i - 1].pc) ==>
                          info.pipeCycles == PipeCycles(recs[i].cycles, recs[i - 1].cycles)))
    decreases |recs|
  {
    hide DecodeInstruction, Successors, BranchOutcome;
    var p := CoreProcess(cx, c, recs[0], if |recs| > 1 then recs[1].pc else 0);
    if i == 0 {
      if Decodes(cx, recs[0]) {
        NotAnInterrupt(DecodeInstruction(recs[0].inst, cx.arch).value);
      }
    } else {
      CoreReportsAt(cx, recs[1..], p.0, i - 1);
      var rest := CoreReports(cx, recs[1..], p.0);
      assert CoreReports(cx, recs, c)[..i] == [p.1] + rest[..i - 1];
      LastFirst(p.1, rest[..i - 1], c.last);
    }
  }

  /** The last report among the results, or the one before them. */
  function Last(results: seq<Result>, before: LastReport): LastReport
  {
    if results == [] then before
    else if results[|results| - 1].Returned? then results[|results| - 1].report
    else Last(results[..|results| - 1], before)
  }

  lemma {:induction false} LastFirst(first: Result, rest: seq<Result>, before: LastReport)
    ensures Last([first] + rest, before) == Last(rest, if first.Returned? then first.report else before)
    decreases |rest|
  {
    if rest == [] {
      assert [first] + rest == [first] && [first][..0] == [];
    } else {
      assert ([first] + rest)[..|rest|] == [first] + rest[..|rest| - 1];
      LastFirst(first, rest[..|rest| - 1], before);
    }
  }

  lemma NotAnInterrupt(d: Decoded)
    ensures isInterrupt !in CallFlags(d)
  {
  }

  /**
   Interrupts over a whole merged log: the report of an instruction says interrupt if and only if the
   instruction before it on the same core has known successors and this one is none of them, so each
   discontinuity is reported exactly once, on the instruction it leads to; except that an interrupt whose
   handler is at address 0 is never reported. An instruction that cannot be disassembled has no report of its
   own, but still counts as the one before the next.
   */
  lemma InterruptsExactly(cx: Context, lines: seq<Line>, core: nat, i: nat)
    requires ValidLog(lines) && core < DQR_MAXCORES
    requires i < |EntriesOf(Reports(cx, lines, INITIAL), core)|
    ensures var result, recs := EntriesOf(Reports(cx, lines, INITIAL), core)[i], Records(lines, core);
            && i < |recs|
            && (result == Failed <==> !Decodes(cx, recs[i]))
            && (result != Failed ==> result.Returned?)
            && (Decodes(cx, recs[i]) && cx.Known(recs[i].pc) ==>
                 && result.report.Built? && result.report.info.pc == recs[i].pc
                 && (isInterrupt in result.report.info.crFlag <==>
                       i > 0 && Discontinuity(cx, recs[i - 1], recs[i]) && recs[i].pc != 0))
  {
    hide Reports, CoreReports, CutShort, Records, EntriesOf, DecodeInstruction, Discontinuity, Undisturbed;
    PerCore(cx, lines, core, INITIAL, Unwritten);
    var recs := Records(lines, core);
    CoreReportsAt(cx, recs, NEW_CORE, i);
    assert Alike(cx, recs[i], EntriesOf(Reports(cx, lines, INITIAL), core)[i], CoreReports(cx, recs, NEW_CORE)[i]);
  }

  /**
   Without a disassembly for an instruction, the call still succeeds and returns the last report that was
   built, which may be another core's. For example:
   */
  lemma StaleReport(cx: Context, a: Rec, b: Rec)
    requires ValidRec(a) && ValidRec(b) && a.core != b.core
    requires DecodeInstruction(a.inst, cx.arch).Some? && DecodeInstruction(b.inst, cx.arch).Some?
    requires cx.Known(a.pc) && !cx.Known(b.pc)
    ensures var log := [Instr(a), Instr(b)];
            && ValidLog(log) && ValidLog(OfCore(log, b.core))
            && EntriesOf(Reports(cx, log, INITIAL), b.core)
               != EntriesOf(Reports(cx, OfCore(log, b.core), INITIAL), b.core)
  {
    hide DecodeInstruction, Interrupted, BranchOutcome, CallFlags, NextPc;
    var log := [Instr(a), Instr(b)];
    assert ValidLine(Instr(a)) && ValidLine(Instr(b)) && ValidLog(log) && ValidLog([Instr(b)]);
    assert log[1..] == [Instr(b)] && [Instr(b)][1..] == [];
    assert OfCore([Instr(b)], b.core) == [Instr(b)];
    assert OfCore(log, b.core) == [Instr(b)];
    var p := Process(cx, INITIAL, a, NextPc(log[1..], a.core));
    var q := Process(cx, p.0, b, NextPc([], b.core));
    var alone := Process(cx, INITIAL, b, NextPc([], b.core));
    assert Reports(cx, [Instr(b)], p.0) == [Entry(b.core, q.1)];
    assert Reports(cx, [Instr(b)], INITIAL) == [Entry(b.core, alone.1)];
    assert Reports(cx, log, INITIAL) == [Entry(a.core, p.1)] + [Entry(b.core, q.1)];
    FirstEntry(Entry(a.core, p.1), [Entry(b.core, q.1)], b.core);
    OneEntry(b.core, q.1);
    OneEntry(b.core, alone.1);
    assert q.1 == Returned(p.0.last) && p.0.last.Built?;
    assert alone.1 == Returned(Unwritten);
    assert EntriesOf(Reports(cx, log, INITIAL), b.core) == [q.1];
    assert ValidLog(OfCore(log, b.core));
    assert EntriesOf(Reports(cx, OfCore(log, b.core), INITIAL), b.core) == [alone.1];
  }

  lemma OneEntry(core: nat, r: Result)
    ensures EntriesOf([Entry(core, r)], core) == [r]
  {
    assert [Entry(core, r)][1..] == [];
  }
}

/**
 The replay of a program counter dump. It has its own reader and lookahead, but reports on its one core
 exactly as the replay of a simulator's log does.
 */
module Vcd {
  import opened NexusWire
  import opened Disassembler
  import opened Simulator
  import opened InstructionReports

  datatype VRec = VRec(ts: nat, pc: nat, pipe: bool)

  /** The pipe is handed on to the report; there are no register values. */
  function MarksOf(v: VRec): Marks { Marks(if v.pipe then CAFLAG_PIPE0 else CAFLAG_PIPE1, 0, 0, 0) }

  /** The report object is cleared before the first instruction. */
  const VCD_INITIAL := INITIAL.(last := Cleared)

  /** The records that hold an instruction; those at address 0 are skipped. */
  function Kept(recs: seq<VRec>): seq<VRec>
  {
    if recs == [] then [] else (if recs[0].pc == 0 then [] else [recs[0]]) + Kept(recs[1..])
  }

  /** The program's instructions by address. */
  type Elf = nat -> Option<Word>

  /** One record; the state is left alone, and a pending interrupt with it, if the program has no such address. */
  function ProcessVRec(cx: Context, elf: Elf, s: State, v: VRec, next: nat): (out: (State, Result))
    requires ValidState(s)
    ensures ValidState(out.0)
  {
    var word := elf(v.pc);
    if word.None? then (s, Failed) else Process(cx, s, Rec(0, v.pc, word.value, v.ts, MarksOf(v)), next)
  }

  /** What is reported for a dump of such records. */
  function VcdReports(cx: Context, elf: Elf, recs: seq<VRec>, s: State): seq<Result>
    requires ValidState(s)
    decreases |recs|
  {
    if recs == [] then []
    else
      var p := ProcessVRec(cx, elf, s, recs[0], if |recs| > 1 then recs[1].pc else 0);
      [p.1] + VcdReports(cx, elf, recs[1..], p.0)
  }

  class VCD {
    const cx: Context
    const elf: Elf
    const records: seq<VRec>
    var currentVCDRecord: nat
    var haveLookaheadVRec: bool
    var lookaheadVRec: VRec
    var instructionInfo: LastReport
    const enterISR: array<bool>
    const currentTime: array<nat>

    ghost predicate Valid()
      reads this
    {
      && currentVCDRecord <= |records|
      && enterISR.Length == DQR_MAXCORES && currentTime.Length == DQR_MAXCORES
      && (haveLookaheadVRec ==> lookaheadVRec.pc != 0)
    }

    ghost function View(): State
      reads this, enterISR, currentTime
    {
      State(enterISR[..], currentTime[..], instructionInfo)
    }

    /** The records still to be reported. */
    ghost function Remaining(): seq<VRec>
      requires Valid()
      reads this
    {
      (if haveLookaheadVRec then [lookaheadVRec] else []) + Kept(records[currentVCDRecord..])
    }

    constructor (cx: Context, elf: Elf, records: seq<VRec>)
      ensures Valid() && this.cx == cx && this.elf == elf && this.records == records
      ensures Remaining() == Kept(records)
      ensures View() == VCD_INITIAL && fresh(enterISR) && fresh(currentTime)
    {
      this.cx, this.elf, this.records := cx, elf, records;
      currentVCDRecord, haveLookaheadVRec, lookaheadVRec := 0, false, VRec(0, 0, false);
      instructionInfo := Cleared;
      enterISR := new bool[DQR_MAXCORES](_ => false);
      currentTime := new nat[DQR_MAXCORES](_ => 0);
      new;
      assert enterISR[..] == INITIAL.isr && currentTime[..] == INITIAL.time;
      assert records[0..] == records;
    }

    /** Reads on to the next record that holds an instruction. */
    method GetNextVRec() returns (v: Option<VRec>)
      requires Valid()
      modifies `currentVCDRecord
      ensures Valid()
      ensures var rest := Kept(old(records[currentVCDRecord..]));
              if rest == [] then v == None && Kept(records[currentVCDRecord..]) == []
              else v == Some(rest[0]) && v.value.pc != 0 && Kept(records[currentVCDRecord..]) == rest[1..]
    {
      while currentVCDRecord < |records|
        invariant Valid()
        invariant Kept(records[currentVCDRecord..]) == Kept(old(records[currentVCDRecord..]))
      {
        var vrec := records[currentVCDRecord];
        assert records[currentVCDRecord..][1..] == records[currentVCDRecord + 1..];
        currentVCDRecord := currentVCDRecord + 1;
        if vrec.pc != 0 {
          return Some(vrec);
        }
      }
      v := None;
    }

    /** buildInstructionFromVRec; there is only core 0. */
    method BuildInstruction(vrec: VRec, brFlags: BranchFlags, crFlag: set<CRFlag>)
      requires Valid()
      modifies `instructionInfo, currentTime
      ensures var code, known := cx.disassemble(vrec.pc), cx.Known(vrec.pc);
              && instructionInfo == (if !known then old(instructionInfo)
                 else Built(Info(0, vrec.pc, code.value, brFlags, crFlag, vrec.ts,
                                 PipeCycles(vrec.ts, old(currentTime[0])), MarksOf(vrec))))
              && currentTime[..] == if known then old(currentTime[..])[0 := vrec.ts] else old(currentTime[..])
    {
      var code := cx.disassemble(vrec.pc);
      if code.None? {
        return;
      }
      var pipeCycles := if currentTime[0] == 0 then 0 else (vrec.ts - currentTime[0]) % UINT32;
      instructionInfo := Built(Info(0, vrec.pc, code.value, brFlags, crFlag, vrec.ts, pipeCycles, MarksOf(vrec)));
      currentTime[0] := vrec.ts;
    }

    method NextInstruction() returns (result: Result)
      requires Valid()
      modifies this, enterISR, currentTime
      ensures Valid()
      ensures var rest := old(Remaining());
              if rest == [] then result == EndOfFile && Remaining() == [] && View() == old(View())
              else
                && Remaining() == rest[1..]
                && (View(), result) == ProcessVRec(cx, elf, old(View()), rest[0], if |rest| > 1 then rest[1].pc else 0)
    {
      hide Kept, DecodeInstruction, Interrupted, BranchOutcome, CallFlags;
      var nextVRec;
      if haveLookaheadVRec {
        nextVRec := lookaheadVRec;
        haveLookaheadVRec := false;
      } else {
        var v := GetNextVRec();
        if v.None? {
          return EndOfFile;
        }
        nextVRec := v.value;
      }
      var v := GetNextVRec();
      haveLookaheadVRec := v.Some?;
      var lookaheadPC := 0;
      if v.Some? {
        lookaheadVRec := v.value;
        lookaheadPC := v.value.pc;
      }
      var inst := elf(nextVRec.pc);
      if inst.None? {
        return Failed;
      }
      var ok, crFlag, brFlag := ComputeBranchFlags(enterISR, 0, cx.arch, nextVRec.pc, inst.value, lookaheadPC);
      if !ok {
        return Failed;
      }
      BuildInstruction(nextVRec, brFlag, crFlag);
      result := Returned(instructionInfo);
    }
  }

  method ReadAll(cx: Context, elf: Elf, records: seq<VRec>) returns (results: seq<Result>)
    ensures results == VcdReports(cx, elf, Kept(records), VCD_INITIAL)
  {
    hide VcdReports, ProcessVRec, Kept;
    var vcd := new VCD(cx, elf, records);
    results := [];
    while true
      invariant vcd.Valid() && vcd.cx == cx && vcd.elf == elf
      invariant fresh(vcd) && fresh(vcd.enterISR) && fresh(vcd.currentTime) && ValidState(vcd.View())
      invariant VcdReports(cx, elf, Kept(records), VCD_INITIAL)
             == results + VcdReports(cx, elf, vcd.Remaining(), vcd.View())
      decreases |vcd.Remaining()|
    {
      FirstReport(cx, elf, vcd.Remaining(), vcd.View());
      var result := vcd.NextInstruction();
      if result == EndOfFile {
        return;
      }
      results := results + [result];
    }
  }

  lemma FirstReport(cx: Context, elf: Elf, recs: seq<VRec>, s: State)
    requires ValidState(s)
    ensures recs == [] ==> VcdReports(cx, elf, recs, s) == []
    ensures recs != [] ==>
      var p := ProcessVRec(cx, elf, s, recs[0], if |recs| > 1 then recs[1].pc else 0);
      p.1 != EndOfFile && VcdReports(cx, elf, recs, s) == [p.1] + VcdReports(cx, elf, recs[1..], p.0)
  {
  }

  function RecOf(elf: Elf, v: VRec): Rec
    requires elf(v.pc).Some?
  {
    Rec(0, v.pc, elf(v.pc).value, v.ts, MarksOf(v))
  }

  /** The same instructions as records of core 0 of a simulator's log. */
  function AsRecords(elf: Elf, recs: seq<VRec>): (out: seq<Rec>)
    requires forall i :: 0 <= i < |recs| ==> elf(recs[i].pc).Some?
    ensures |out| == |recs|
    ensures forall i :: 0 <= i < |recs| ==> out[i] == RecOf(elf, recs[i])
  {
    seq(|recs|, i requires 0 <= i < |recs| => RecOf(elf, recs[i]))
  }

  /** A dump whose instructions the program has is reported on like a core's log. */
  lemma {:induction false} VcdIsCore(cx: Context, elf: Elf, recs: seq<VRec>, s: State)
    requires ValidState(s)
    requires forall i :: 0 <= i < |recs| ==> elf(recs[i].pc).Some?
    ensures VcdReports(cx, elf, recs, s) == CoreReports(cx, AsRecords(elf, recs), Core(s.isr[0], s.time[0], s.last))
    decreases |recs|
  {
    hide Interrupted, BranchOutcome, CallFlags, DecodeInstruction;
    if recs != [] {
      var p := ProcessVRec(cx, elf, s, recs[0], if |recs| > 1 then recs[1].pc else 0);
      VcdIsCore(cx, elf, recs[1..], p.0);
      assert AsRecords(elf, recs)[1..] == AsRecords(elf, recs[1..]);
    }
  }

  // ----- addresses that the program lacks

  /** The last record before i whose instruction the program has. */
  function LastPresent(elf: Elf, recs: seq<VRec>, i: nat): (j: Option<nat>)
    requires i <= |recs|
    ensures j.Some? ==> j.value < i && elf(recs[j.value].pc).Some?
  {
    if i == 0 then None else if elf(recs[i - 1].pc).Some? then Some(i - 1) else LastPresent(elf, recs, i - 1)
  }

  lemma {:induction false} PresentLater(elf: Elf, recs: seq<VRec>, i: nat)
    requires i < |recs|
    ensures LastPresent(elf, recs, i + 1)
         == var j := LastPresent(elf, recs[1..], i);
            if j.Some? then Some(j.value + 1) else if elf(recs[0].pc).Some? then Some(0) else None
  {
    if i > 0 {
      PresentLater(elf, recs, i - 1);
    } else {
      assert LastPresent(elf, recs, 0) == None;
    }
  }

  /** Control goes from the instruction of record j to none of its successors. */
  predicate Leaves(cx: Context, elf: Elf, recs: seq<VRec>, j: nat)
    requires j + 1 < |recs|
  {
    && elf(recs[j].pc).Some?
    && Discontinuity(cx, RecOf(elf, recs[j]), Rec(0, recs[j + 1].pc, elf(recs[j].pc).value, 0, NO_MARKS))
  }

  /**
   The report at a position of any dump. A record at an address that the program lacks fails, and a pending
   interrupt waits: it is reported with the next instruction that the program has, even if that is not where
   it led to.
   */
  lemma {:induction false} DumpReportsAt(cx: Context, elf: Elf, recs: seq<VRec>, s: State, i: nat)
    requires ValidState(s) && i < |recs|
    ensures i < |VcdReports(cx, elf, recs, s)|
    ensures var result, word := VcdReports(cx, elf, recs, s)[i], elf(recs[i].pc);
            && (word.None? ==> result == Failed)
            && (word.Some? ==> (result == Failed <==> DecodeInstruction(word.value, cx.arch).None?))
            && (result != Failed && cx.Known(recs[i].pc) ==>
                 && result.Returned? && result.report.Built? && result.report.info.pc == recs[i].pc
                 && result.report.info.marks
                    == Marks(if recs[i].pipe then CAFLAG_PIPE0 else CAFLAG_PIPE1, 0, 0, 0)
                 && (isInterrupt in result.report.info.crFlag <==>
                       var j := LastPresent(elf, recs, i);
                       if j.None? then s.isr[0] else Leaves(cx, elf, recs, j.value) && recs[j.value + 1].pc != 0))
    decreases |recs|
  {
    hide DecodeInstruction, Successors, BranchOutcome;
    var p := ProcessVRec(cx, elf, s, recs[0], if |recs| > 1 then recs[1].pc else 0);
    if i == 0 {
      if elf(recs[0].pc).Some? && DecodeInstruction(elf(recs[0].pc).value, cx.arch).Some? {
        NotAnInterrupt(DecodeInstruction(elf(recs[0].pc).value, cx.arch).value);
      }
    } else {
      DumpReportsAt(cx, elf, recs[1..], p.0, i - 1);
      PresentLater(elf, recs, i - 1);
      assert VcdReports(cx, elf, recs, s) == [p.1] + VcdReports(cx, elf, recs[1..], p.0);
    }
  }

  // ----- the two replays

  /** A record, a report and a result without their marks, in which a log and a dump always differ. */
  function PlainRec(r: Rec): Rec { r.(marks := NO_MARKS) }

  function PlainReport(r: LastReport): LastReport
  {
    if r.Built? then Built(r.info.(marks := NO_MARKS)) else r
  }

  function PlainResult(r: Result): Result { if r.Returned? then Returned(PlainReport(r.report)) else r }

  function PlainRecs(recs: seq<Rec>): (out: seq<Rec>)
    ensures |out| == |recs| && forall i :: 0 <= i < |recs| ==> out[i] == PlainRec(recs[i])
  {
    seq(|recs|, i requires 0 <= i < |recs| => PlainRec(recs[i]))
  }

  function PlainResults(results: seq<Result>): (out: seq<Result>)
    ensures |out| == |results| && forall i :: 0 <= i < |results| ==> out[i] == PlainResult(results[i])
  {
    seq(|results|, i requires 0 <= i < |results| => PlainResult(results[i]))
  }

  /** Marks are handed on and nothing depends on them. */
  lemma {:induction false} PlainCoreReports(cx: Context, recs: seq<Rec>, c: Core)
    ensures PlainResults(CoreReports(cx, recs, c))
         == CoreReports(cx, PlainRecs(recs), c.(last := PlainReport(c.last)))
    decreases |recs|
  {
    hide Interrupted, BranchOutcome, CallFlags, DecodeInstruction;
    if recs != [] {
      var p := CoreProcess(cx, c, recs[0], if |recs| > 1 then recs[1].pc else 0);
      PlainCoreReports(cx, recs[1..], p.0);
      assert PlainRecs(recs)[1..] == PlainRecs(recs[1..]);
      assert PlainResults([p.1] + CoreReports(cx, recs[1..], p.0))
          == [PlainResult(p.1)] + PlainResults(CoreReports(cx, recs[1..], p.0));
    }
  }

  /**
   The two replays agree: a simulator's log and a dump of core 0's instructions give the same reports for that
   core, but for pipe and register values, if and only if no bad line cuts the log short for it and, before each
   of its instructions that cannot be disassembled, the last report was built for it. If none was built yet, the
   dump's report object has been cleared and the log's has not been written.
   */
  lemma ReplaysAgree(cx: Context, elf: Elf, recs: seq<VRec>, lines: seq<Line>)
    requires ValidLog(lines) && forall i :: 0 <= i < |recs| ==> elf(recs[i].pc).Some?
    requires PlainRecs(Records(lines, 0)) == PlainRecs(AsRecords(elf, recs))
    ensures PlainResults(EntriesOf(Reports(cx, lines, INITIAL), 0))
            == PlainResults(VcdReports(cx, elf, recs, VCD_INITIAL))
       <==> !CutShort(lines, 0) && Undisturbed(cx, lines, 0, false)
  {
    hide Reports, CoreReports, CutShort, Records, VcdReports, Undisturbed;
    VcdIsCore(cx, elf, recs, VCD_INITIAL);
    PerCore(cx, lines, 0, INITIAL, Cleared);
    var c := Core(false, 0, Cleared);
    var merged, all := EntriesOf(Reports(cx, lines, INITIAL), 0), CoreReports(cx, Records(lines, 0), c);
    PlainCoreReports(cx, Records(lines, 0), c);
    PlainCoreReports(cx, AsRecords(elf, recs), c);
    OwnersTell(cx, lines, 0, INITIAL, Cleared);
    if PlainResults(merged) == PlainResults(all) {
      forall i | 0 <= i < |merged| && i < |all|
        ensures SameOwners(merged[i], all[i])
      {
        assert PlainResults(merged)[i] == PlainResults(all)[i];
      }
    }
  }
}

/**
 The replay of a simulator's log: for each executed instruction, call and branch flags worked out from the
 next instruction of the same core, which is looked up ahead in the log and kept.
 */
module Simulator {
  import opened Bits
  import opened NexusWire
  import opened Disassembler

  datatype CAFlag = CAFLAG_NONE | CAFLAG_PIPE0 | CAFLAG_PIPE1

  /** What a record only hands on to the report: its pipe, and the register values of a simulator's log. */
  datatype Marks = Marks(caFlags: CAFlag, r0Val: nat, r1Val: nat, wVal: nat)

  const NO_MARKS := Marks(CAFLAG_NONE, 0, 0, 0)

  /** An executed instruction. */
  datatype Rec = Rec(core: nat, pc: nat, inst: Word, cycles: nat, marks: Marks)

  /**
   A line of the log: text, a line of a core that does not parse, one with no committed instruction (a
   register file record, or a record marked invalid), or an instruction.
   */
  datatype Line = Comment | Malformed(core: nat) | Idle(core: nat) | Instr(rec: Rec)

  predicate ValidRec(r: Rec)
  {
    r.core < DQR_MAXCORES && r.pc < UINT64 && r.cycles < UINT32 && r.marks.caFlags == CAFLAG_NONE
  }

  predicate ValidLine(l: Line) { l.Instr? ==> ValidRec(l.rec) }

  predicate ValidLog(lines: seq<Line>) { forall i :: 0 <= i < |lines| ==> ValidLine(lines[i]) }

  datatype BranchFlags = BRFLAG_none | BRFLAG_taken | BRFLAG_notTaken

  /** The bits of the CRFlag word. */
  datatype CRFlag = isCall | isReturn | isSwap | isInterrupt | isException | isExceptionReturn

  /** What the disassembler makes of an address; the word is the program's, not the log's. */
  datatype Disassembly = Disassembly(instruction: Word, instSize: nat, text: string)

  /** What is reported for one instruction. */
  datatype Info = Info(core: nat, pc: nat, code: Disassembly, brFlags: BranchFlags, crFlag: set<CRFlag>,
                       timestamp: nat, pipeCycles: nat, marks: Marks)

  /** The report object as the last instruction built left it, or as its owner did: cleared, or never written. */
  datatype LastReport = Built(info: Info) | Cleared | Unwritten

  // ----- control flow

  /** Addresses are 64 bits wide. */
  function Plus(pc: nat, offset: int): nat { (pc + offset) % UINT64 }

  /** Where control can go from an instruction, unless that depends on registers or on the trap state. */
  function Successors(pc: nat, d: Decoded): Option<set<nat>>
  {
    match d.kind
    case INST_JAL | INST_C_J | INST_C_JAL => Some({Plus(pc, d.immediate)})
    case INST_BEQ | INST_BNE | INST_BLT | INST_BGE | INST_BLTU | INST_BGEU | INST_C_BEQZ | INST_C_BNEZ =>
      Some({Plus(pc, d.size / 8), Plus(pc, d.immediate)})
    case INST_JALR | INST_C_JR | INST_C_JALR | INST_EBREAK | INST_ECALL | INST_MRET | INST_SRET | INST_URET => None
    case _ => Some({Plus(pc, d.size / 8)})
  }

  predicate IsBranch(d: Decoded)
  {
    d.kind in {INST_BEQ, INST_BNE, INST_BLT, INST_BGE, INST_BLTU, INST_BGEU, INST_C_BEQZ, INST_C_BNEZ}
  }

  predicate IsLink(r: Option<nat>) { r == Some(1) || r == Some(5) }

  /** The return-address stack hints of section 2.5, and traps. */
  function CallFlags(d: Decoded): set<CRFlag>
  {
    match d.kind
    case INST_JAL | INST_C_JAL => if IsLink(d.rd) then {isCall} else {}
    case INST_JALR =>
      if IsLink(d.rd) then (if IsLink(d.rs1) && d.rd != d.rs1 then {isSwap} else {isCall})
      else if IsLink(d.rs1) then {isReturn} else {}
    case INST_C_JR => if IsLink(d.rs1) then {isReturn} else {}
    case INST_C_JALR => if d.rs1 == Some(5) then {isSwap} else {isCall}
    case INST_EBREAK | INST_ECALL => {isException}
    case INST_MRET | INST_SRET | INST_URET => {isExceptionReturn}
    case _ => {}
  }

  /**
   The table of section 2.5, extended to the compressed jumps by section 16.4: a jump that saves its return
   address in a link register pushes it, and one through another link register pops one.
   */
  lemma CallHints(inst: Word, arch: Arch)
    requires DecodeInstruction(inst, arch).Some?
    requires DecodeInstruction(inst, arch).value.kind
             in {INST_JAL, INST_C_JAL, INST_C_J, INST_JALR, INST_C_JR, INST_C_JALR}
    ensures var d := DecodeInstruction(inst, arch).value;
            var push, pop := IsLink(d.rd), IsLink(d.rs1) && d.rs1 != d.rd;
            CallFlags(d) == if push && pop then {isSwap} else if push then {isCall} else if pop then {isReturn} else {}
  {
    hide Field, Signed;
  }

  /** C.EBREAK is an exception in RV64; in RV32 it is treated as an instruction that falls through. */
  lemma CompressedEbreak(pc: nat)
    ensures var d := DecodeInstruction(C_EBREAK, RV32);
            d.Some? && CallFlags(d.value) == {} && Successors(pc, d.value) == Some({Plus(pc, 2)})
    ensures var d := DecodeInstruction(C_EBREAK, RV64);
            d.Some? && CallFlags(d.value) == {isException} && Successors(pc, d.value) == None
  {
    hide Field, C_EBREAK;
    EbreakValues();
  }

  /** The exceptions of both instruction sets: ECALL and EBREAK, and C.EBREAK in RV64 only. */
  lemma ExceptionsExactly(inst: Word, arch: Arch)
    requires DecodeInstruction(inst, arch).Some?
    ensures isException in CallFlags(DecodeInstruction(inst, arch).value)
       <==> (Field(inst, 0, 7) == 0x73 && Field(inst, 7, 32) in {0, 0x2000}) || (inst == C_EBREAK && arch == RV64)
  {
    hide DecodeInstruction, Field, C_EBREAK;
    TrapKinds(inst, arch);
  }

  /** The next address is known and is none of the instruction's successors. */
  predicate Interrupted(pc: nat, d: Decoded, next: nat)
  {
    next != 0 && Successors(pc, d).Some? && next !in Successors(pc, d).value
  }

  /** A branch whose target is the next instruction anyway counts as not taken. */
  function BranchOutcome(pc: nat, d: Decoded, next: nat): BranchFlags
  {
    if !IsBranch(d) || next == 0 then BRFLAG_none
    else if next == Plus(pc, d.size / 8) then BRFLAG_notTaken
    else if next == Plus(pc, d.immediate) then BRFLAG_taken
    else BRFLAG_none
  }

  function Flag(interrupt: bool): set<CRFlag> { if interrupt then {isInterrupt} else {} }

  /** The switch of computeBranchFlags, which Simulator and VCD have in identical copies. */
  method ComputeBranchFlags(enterISR: array<bool>, core: nat, arch: Arch, currentAddr: nat,
                            currentInst: Word, nextAddr: nat)
    returns (ok: bool, crFlag: set<CRFlag>, brFlag: BranchFlags)
    requires core < enterISR.Length
    modifies enterISR
    ensures var r := DecodeInstruction(currentInst, arch);
            && ok == r.Some?
            && enterISR[..] == old(enterISR[..])[core := r.Some? && Interrupted(currentAddr, r.value, nextAddr)]
            && (ok ==> crFlag == Flag(old(enterISR[core])) + CallFlags(r.value))
            && (ok ==> brFlag == BranchOutcome(currentAddr, r.value, nextAddr))
  {
    hide DecodeInstruction, Plus;
    brFlag := BRFLAG_none;
    crFlag := Flag(enterISR[core]);
    enterISR[core] := false;
    var r := DecodeInstruction(currentInst, arch);
    if r.None? {
      return false, crFlag, brFlag;
    }
    var d := r.value;
    match d.kind {
      case INST_JAL | INST_C_JAL =>
        if d.rd == Some(1) || d.rd == Some(5) {
          crFlag := crFlag + {isCall};
        }
        enterISR[core] := nextAddr != 0 && Plus(currentAddr, d.immediate) != nextAddr;
      case INST_JALR =>
        if d.rd == Some(1) || d.rd == Some(5) {
          if d.rs1 != Some(1) && d.rs1 != Some(5) {
            crFlag := crFlag + {isCall};
          } else if d.rd != d.rs1 {
            crFlag := crFlag + {isSwap};
          } else {
            crFlag := crFlag + {isCall};
          }
        } else if d.rs1 == Some(1) || d.rs1 == Some(5) {
          crFlag := crFlag + {isReturn};
        }
      case INST_BEQ | INST_BNE | INST_BLT | INST_BGE | INST_BLTU | INST_BGEU | INST_C_BEQZ | INST_C_BNEZ =>
        if nextAddr != 0 {
          if nextAddr == Plus(currentAddr, d.size / 8) {
            brFlag := BRFLAG_notTaken;
          } else if nextAddr == Plus(currentAddr, d.immediate) {
            brFlag := BRFLAG_taken;
          } else {
            enterISR[core] := true;
          }
        }
      case INST_C_J =>
        enterISR[core] := nextAddr != 0 && Plus(currentAddr, d.immediate) != nextAddr;
      case INST_C_JR =>
        if d.rs1 == Some(1) || d.rs1 == Some(5) {
          crFlag := crFlag + {isReturn};
        }
      case INST_C_JALR =>
        crFlag := crFlag + if d.rs1 == Some(5) then {isSwap} else {isCall};
      case INST_EBREAK | INST_ECALL =>
        crFlag := crFlag + {isException};
      case INST_MRET | INST_SRET | INST_URET =>
        crFlag := crFlag + {isExceptionReturn};
      case _ =>
        enterISR[core] := nextAddr != 0 && Plus(currentAddr, d.size / 8) != nextAddr;
    }
    ok := true;
  }

  // ----- reading the log

  datatype Parsed = Eof | SyntaxError | Nothing | Found(rec: Rec)

  /** What parseLine makes of a line when only one core is wanted, or any. */
  function Parse(l: Line, core: Option<nat>): Parsed
  {
    match l
    case Comment => Nothing
    case Malformed(c) => if core.None? || core == Some(c) then SyntaxError else Nothing
    case Idle(c) => Nothing
    case Instr(rec) => if core.None? || core == Some(rec.core) then Found(rec) else Nothing
  }

  /** The first line that is an instruction or an error for that core. */
  function First(lines: seq<Line>, core: Option<nat>): (r: (Parsed, nat))
    ensures r.0 != Nothing && r.1 <= |lines| && (r.0 != Eof ==> r.1 < |lines| && Parse(lines[r.1], core) == r.0)
  {
    if lines == [] then (Eof, 0)
    else if Parse(lines[0], core) != Nothing then (Parse(lines[0], core), 0)
    else var r := First(lines[1..], core); (r.0, r.1 + 1)
  }

  /** The pc of the next instruction of a core, or 0. */
  function NextPc(lines: seq<Line>, core: nat): nat
  {
    var r := First(lines, Some(core)).0;
    if r.Found? then r.rec.pc else 0
  }

  lemma FirstValid(lines: seq<Line>, core: Option<nat>)
    requires ValidLog(lines)
    ensures First(lines, core).0.Found? ==> ValidRec(First(lines, core).0.rec)
  {
    var r := First(lines, core);
    if r.0.Found? {
      assert ValidLine(lines[r.1]);
    }
  }

  // ----- what is reported

  /** The state kept from instruction to instruction, by core, and the last report that was built. */
  datatype State = State(isr: seq<bool>, time: seq<nat>, last: LastReport)

  predicate ValidState(s: State) { |s.isr| == |s.time| == DQR_MAXCORES }

  const INITIAL := State(seq(DQR_MAXCORES, _ => false), seq(DQR_MAXCORES, _ => 0), Unwritten)

  /** The result of one call: the report object, or an error for an instruction that cannot be decoded. */
  datatype Result = Returned(report: LastReport) | Failed | EndOfFile | BadLine

  /** What the program knows: the instruction set, and the addresses it can disassemble. */
  datatype Context = Context(arch: Arch, disassemble: nat -> Option<Disassembly>)
  {
    predicate Known(pc: nat) { disassemble(pc).Some? }
  }

  function PipeCycles(now: nat, last: nat): nat { if last == 0 then 0 else (now - last) % UINT32 }

  /** One instruction whose core goes on at next. When it cannot be disassembled the last report is repeated. */
  function Process(cx: Context, s: State, r: Rec, next: nat): (out: (State, Result))
    requires ValidState(s) && r.core < DQR_MAXCORES
    ensures ValidState(out.0)
  {
    var decoded := DecodeInstruction(r.inst, cx.arch);
    if decoded.None? then (s.(isr := s.isr[r.core := false]), Failed)
    else
      var d := decoded.value;
      var isr := s.isr[r.core := Interrupted(r.pc, d, next)];
      if !cx.Known(r.pc) then (s.(isr := isr), Returned(s.last))
      else
        var built := Built(Info(r.core, r.pc, cx.disassemble(r.pc).value, BranchOutcome(r.pc, d, next),
                                Flag(s.isr[r.core]) + CallFlags(d), r.cycles, PipeCycles(r.cycles, s.time[r.core]),
                                r.marks));
        (State(isr, s.time[r.core := r.cycles], built), Returned(built))
  }

  datatype Entry = Entry(core: nat, result: Result)

  /** Everything reported for a log, up to the first line with a syntax error. */
  function Reports(cx: Context, lines: seq<Line>, s: State): seq<Entry>
    requires ValidLog(lines) && ValidState(s)
    decreases |lines|
  {
    if lines == [] then []
    else match lines[0]
      case Malformed(_) => []
      case Instr(r) =>
        assert ValidLine(lines[0]);
        var p := Process(cx, s, r, NextPc(lines[1..], r.core));
        [Entry(r.core, p.1)] + Reports(cx, lines[1..], p.0)
      case _ => Reports(cx, lines[1..], s)
  }

  // ----- the program

  class Simulator {
    const cx: Context
    const lines: seq<Line>
    var nextLine: nat
    var haveLookaheadSrec: bool
    var lookaheadLine: nat
    var lookaheadSrec: Rec
    var instructionInfo: LastReport
    const enterISR: array<bool>
    const currentTime: array<nat>

    /** A record that is kept is the one on its line. */
    ghost predicate Valid()
      reads this
    {
      && ValidLog(lines) && nextLine <= |lines|
      && enterISR.Length == DQR_MAXCORES && currentTime.Length == DQR_MAXCORES
      && (haveLookaheadSrec ==> lookaheadLine < |lines| && lines[lookaheadLine] == Instr(lookaheadSrec))
    }

    ghost function View(): State
      reads this, enterISR, currentTime
    {
      State(enterISR[..], currentTime[..], instructionInfo)
    }

    constructor (cx: Context, lines: seq<Line>)
      requires ValidLog(lines)
      ensures Valid() && this.cx == cx && this.lines == lines && nextLine == 0
      ensures View() == INITIAL && fresh(enterISR) && fresh(currentTime)
    {
      this.cx, this.lines := cx, lines;
      nextLine, haveLookaheadSrec, lookaheadLine := 0, false, 0;
      lookaheadSrec := Rec(0, 0, seq(32, _ => false), 0, NO_MARKS);
      instructionInfo := Unwritten;
      enterISR := new bool[DQR_MAXCORES](_ => false);
      currentTime := new nat[DQR_MAXCORES](_ => 0);
      new;
      assert enterISR[..] == INITIAL.isr && currentTime[..] == INITIAL.time;
    }

    /** Goes through the lines until one is an instruction or an error. */
    method GetNextSrec(start: nat, core: Option<nat>) returns (r: Parsed, line: nat)
      requires start <= |lines|
      ensures var f := First(lines[start..], core); r == f.0 && line == start + f.1
    {
      line := start;
      while true
        invariant start <= line <= |lines|
        invariant First(lines[start..], core)
               == (First(lines[line..], core).0, line - start + First(lines[line..], core).1)
        decreases |lines| - line
      {
        if line >= |lines| {
          return Eof, line;
        }
        r := Parse(lines[line], core);
        if r != Nothing {
          return;
        }
        assert lines[line..][1..] == lines[line + 1..];
        line := line + 1;
      }
    }

    /** buildInstructionFromSrec. */
    method BuildInstruction(srec: Rec, brFlags: BranchFlags, crFlag: set<CRFlag>)
      requires Valid() && ValidRec(srec)
      modifies `instructionInfo, currentTime
      ensures var code, known := cx.disassemble(srec.pc), cx.Known(srec.pc);
              && instructionInfo == (if !known then old(instructionInfo)
                 else Built(Info(srec.core, srec.pc, code.value, brFlags, crFlag, srec.cycles,
                                 PipeCycles(srec.cycles, old(currentTime[srec.core])), srec.marks)))
              && currentTime[..]
                 == if known then old(currentTime[..])[srec.core := srec.cycles] else old(currentTime[..])
    {
      var code := cx.disassemble(srec.pc);
      if code.None? {
        return;
      }
      var pipeCycles := if currentTime[srec.core] == 0 then 0 else (srec.cycles - currentTime[srec.core]) % UINT32;
      instructionInfo := Built(Info(srec.core, srec.pc, code.value, brFlags, crFlag, srec.cycles, pipeCycles,
                                    srec.marks));
      currentTime[srec.core] := srec.cycles;
    }

    /** The record to report on: the cached one if the log has reached its line, or else the next of any core. */
    method TakeNextSrec() returns (r: Parsed)
      requires Valid()
      modifies `nextLine
      ensures Valid()
      ensures var f := First(old(lines[nextLine..]), None);
              r == f.0 && nextLine == old(nextLine) + if r.Found? then f.1 + 1 else 0
      ensures r.Found? ==> ValidRec(r.rec)
    {
      hide First;
      FirstValid(lines[nextLine..], None);
      if haveLookaheadSrec && nextLine == lookaheadLine {
        FirstIsHead(lines[nextLine..]);
        r := Found(lookaheadSrec);
        nextLine := lookaheadLine + 1;
      } else {
        var line;
        r, line := GetNextSrec(nextLine, None);
        nextLine := if r.Found? then line + 1 else nextLine;
      }
    }

    /** Reads ahead to the next record of a core and keeps it; 0 if there is none. */
    method LookAhead(core: nat) returns (lookaheadPC: nat)
      requires Valid()
      modifies `haveLookaheadSrec, `lookaheadSrec, `lookaheadLine
      ensures Valid() && lookaheadPC == NextPc(lines[nextLine..], core)
      ensures var f := First(lines[nextLine..], Some(core));
              && haveLookaheadSrec == f.0.Found?
              && (f.0.Found? ==> lookaheadSrec == f.0.rec && lookaheadLine == nextLine + f.1)
    {
      var r, line := GetNextSrec(nextLine, Some(core));
      haveLookaheadSrec := r.Found?;
      if r.Found? {
        lookaheadSrec, lookaheadLine := r.rec, line;
      }
      lookaheadPC := if r.Found? then r.rec.pc else 0;
    }

    /**
     The next instruction of any core, with the cached record if the log has reached its line. The result
     and the new state are those of a lookup without a cache.
     */
    method NextInstruction() returns (result: Result, core: nat)
      requires Valid()
      modifies this, enterISR, currentTime
      ensures Valid()
      ensures var f := First(old(lines[nextLine..]), None);
              match f.0
              case Found(rec) =>
                && nextLine == old(nextLine) + f.1 + 1 && core == rec.core && ValidRec(rec)
                && (View(), result) == Process(cx, old(View()), rec, NextPc(lines[nextLine..], rec.core))
              case Eof => result == EndOfFile && nextLine == old(nextLine) && View() == old(View())
              case _ => result == BadLine && nextLine == old(nextLine) && View() == old(View())
    {
      hide First, NextPc, DecodeInstruction, Interrupted, BranchOutcome, CallFlags;
      core := 0;
      if nextLine >= |lines| {
        FirstOfNone();
        return EndOfFile, core;
      }
      var r := TakeNextSrec();
      if !r.Found? {
        return if r == Eof then EndOfFile else BadLine, core;
      }
      core := r.rec.core;
      var lookaheadPC := LookAhead(r.rec.core);
      var ok, crFlag, brFlag := ComputeBranchFlags(enterISR, r.rec.core, cx.arch, r.rec.pc, r.rec.inst, lookaheadPC);
      if !ok {
        return Failed, core;
      }
      BuildInstruction(r.rec, brFlag, crFlag);
      result := Returned(instructionInfo);
    }
  }

  lemma FirstOfNone()
    ensures First([], None).0 == Eof
  {
  }

  lemma FirstIsHead(lines: seq<Line>)
    requires lines != [] && lines[0].Instr?
    ensures First(lines, None) == (Found(lines[0].rec), 0)
  {
  }
}

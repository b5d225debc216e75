/**
 What the replay reports for each control transfer of the RISC-V Unprivileged ISA, version 20191213, by its
 encoding: where it goes, whether a branch was taken, the return-address stack hints of section 2.5, and traps.
 */
module ControlTransfers {
  import opened Bits
  import opened NexusWire
  import opened Disassembler
  import opened Simulator

  /** The report for an instruction that is followed by next on its core, and whether an interrupt is pending then. */
  predicate Gives(cx: Context, s: State, r: Rec, next: nat, brFlags: BranchFlags, crFlag: set<CRFlag>, pending: bool)
    requires ValidState(s) && r.core < DQR_MAXCORES
  {
    var (t, result) := Process(cx, s, r, next);
    && t.isr[r.core] == pending && result.Returned? && result.report.Built?
    && result.report.info.brFlags == brFlags
    && result.report.info.crFlag == crFlag + (if s.isr[r.core] then {isInterrupt} else {})
  }

  /** An instruction of a core in range, at an address that can be disassembled. */
  predicate Reported(cx: Context, s: State, r: Rec)
  {
    ValidState(s) && r.core < DQR_MAXCORES && cx.Known(r.pc)
  }

  /** Addresses wrap around at 2^64. */
  predicate Follows(pc: nat, offset: int, next: nat) { next == (pc + offset) % 0x1_0000_0000_0000_0000 }

  /** What is reported, from the decoded instruction. */
  lemma GivesDecoded(cx: Context, s: State, r: Rec, next: nat, d: Decoded)
    requires Reported(cx, s, r) && DecodeInstruction(r.inst, cx.arch) == Some(d)
    ensures Gives(cx, s, r, next, BranchOutcome(r.pc, d, next), CallFlags(d), Interrupted(r.pc, d, next))
  {
    hide DecodeInstruction, BranchOutcome, CallFlags, Interrupted;
    assert Flag(s.isr[r.core]) + CallFlags(d) == CallFlags(d) + Flag(s.isr[r.core]);
  }

  /** The displacements that have an encoding. */
  lemma Ranges(d: int)
    ensures InRange(d, 9) <==> -0x100 <= d < 0x100
    ensures InRange(d, 12) <==> -0x800 <= d < 0x800
    ensures InRange(d, 13) <==> -0x1000 <= d < 0x1000
    ensures InRange(d, 21) <==> -0x10_0000 <= d < 0x10_0000
  {
    Pow2Constants();
    Pow2Add(8, 3);
    Pow2Add(8, 4);
    Pow2Add(16, 4);
  }

  // ----- branches

  /** A conditional branch of the given size and displacement. */
  predicate BranchGives(cx: Context, s: State, r: Rec, next: nat, size: nat, d: int)
    requires ValidState(s) && r.core < DQR_MAXCORES
  {
    if next == 0 then Gives(cx, s, r, next, BRFLAG_none, {}, false)
    else if Follows(r.pc, size, next) then Gives(cx, s, r, next, BRFLAG_notTaken, {}, false)
    else if Follows(r.pc, d, next) then Gives(cx, s, r, next, BRFLAG_taken, {}, false)
    else Gives(cx, s, r, next, BRFLAG_none, {}, true)
  }

  /**
   A branch whose next instruction is the one after it, four bytes on, was not taken; one whose next instruction is at
   its displacement was taken; and one that is followed by neither was interrupted.
   */
  lemma WideBranch(cx: Context, s: State, r: Rec, next: nat, d: int, funct3: nat, rs1: nat, rs2: nat)
    requires Reported(cx, s, r)
    requires InRange(d, 13) && d % 2 == 0 && funct3 in {0, 1, 4, 5, 6, 7} && rs1 < 32
    requires r.inst == EncodeBranch(d, funct3, rs1, rs2)
    ensures BranchGives(cx, s, r, next, 4, d)
  {
    hide DecodeInstruction, EncodeBranch, Gives, InRange;
    BranchRoundTrip(d, funct3, rs1, rs2, cx.arch);
    GivesDecoded(cx, s, r, next, Decoded(32, BranchType(funct3), Some(rs1), None, d));
  }

  /** The mnemonics of section 2.5: which comparison each funct3 stands for. */
  lemma BranchMnemonics(d: int, rs1: nat, rs2: nat, arch: Arch)
    requires InRange(d, 13) && d % 2 == 0 && rs1 < 32
    ensures DecodeInstruction(EncodeBranch(d, 0, rs1, rs2), arch) == Some(Decoded(32, INST_BEQ, Some(rs1), None, d))
    ensures DecodeInstruction(EncodeBranch(d, 1, rs1, rs2), arch) == Some(Decoded(32, INST_BNE, Some(rs1), None, d))
    ensures DecodeInstruction(EncodeBranch(d, 4, rs1, rs2), arch) == Some(Decoded(32, INST_BLT, Some(rs1), None, d))
    ensures DecodeInstruction(EncodeBranch(d, 5, rs1, rs2), arch) == Some(Decoded(32, INST_BGE, Some(rs1), None, d))
    ensures DecodeInstruction(EncodeBranch(d, 6, rs1, rs2), arch) == Some(Decoded(32, INST_BLTU, Some(rs1), None, d))
    ensures DecodeInstruction(EncodeBranch(d, 7, rs1, rs2), arch) == Some(Decoded(32, INST_BGEU, Some(rs1), None, d))
  {
    hide DecodeInstruction, EncodeBranch, InRange;
    BranchRoundTrip(d, 0, rs1, rs2, arch);
    BranchRoundTrip(d, 1, rs1, rs2, arch);
    BranchRoundTrip(d, 4, rs1, rs2, arch);
    BranchRoundTrip(d, 5, rs1, rs2, arch);
    BranchRoundTrip(d, 6, rs1, rs2, arch);
    BranchRoundTrip(d, 7, rs1, rs2, arch);
  }

  /** The same for C.BEQZ and C.BNEZ, which are two bytes long. */
  lemma CompressedBranch(cx: Context, s: State, r: Rec, next: nat, d: int, notZero: bool, rs1: nat)
    requires Reported(cx, s, r)
    requires InRange(d, 9) && d % 2 == 0 && r.inst == EncodeCBranch(d, if notZero then 7 else 6, rs1)
    ensures BranchGives(cx, s, r, next, 2, d)
  {
    hide DecodeInstruction, EncodeCBranch, Gives, InRange;
    CBranchRoundTrip(d, notZero, rs1, cx.arch);
    GivesDecoded(cx, s, r, next, DecodeInstruction(r.inst, cx.arch).value);
  }

  // ----- direct jumps

  /** A jump to a known place: it is followed by its target or interrupted. */
  predicate JumpGives(cx: Context, s: State, r: Rec, next: nat, d: int, crFlag: set<CRFlag>)
    requires ValidState(s) && r.core < DQR_MAXCORES
  {
    Gives(cx, s, r, next, BRFLAG_none, crFlag, next != 0 && !Follows(r.pc, d, next))
  }

  /** JAL is a call when it links to x1 or x5. */
  lemma DirectJump(cx: Context, s: State, r: Rec, next: nat, d: int, rd: nat)
    requires Reported(cx, s, r)
    requires InRange(d, 21) && d % 2 == 0 && rd < 32 && r.inst == EncodeJal(d, rd)
    ensures JumpGives(cx, s, r, next, d, if rd == 1 || rd == 5 then {isCall} else {})
  {
    hide DecodeInstruction, EncodeJal, Gives, InRange;
    JalRoundTrip(d, rd, cx.arch);
    GivesDecoded(cx, s, r, next, Decoded(32, INST_JAL, None, Some(rd), d));
  }

  /** C.J is no call, C.JAL always is one; in RV64 the encoding of C.JAL is no jump. */
  lemma CompressedJump(cx: Context, s: State, r: Rec, next: nat, d: int)
    requires Reported(cx, s, r) && InRange(d, 12) && d % 2 == 0
    ensures r.inst == EncodeCJ(d, 5) ==> JumpGives(cx, s, r, next, d, {})
    ensures r.inst == EncodeCJ(d, 1) ==>
              if cx.arch == RV32 then JumpGives(cx, s, r, next, d, {isCall}) else JumpGives(cx, s, r, next, 2, {})
  {
    hide DecodeInstruction, EncodeCJ, Gives, InRange;
    if r.inst == EncodeCJ(d, 5) {
      CJRoundTrip(d, false, cx.arch);
      GivesDecoded(cx, s, r, next, DecodeInstruction(r.inst, cx.arch).value);
    }
    if r.inst == EncodeCJ(d, 1) {
      CJRoundTrip(d, true, cx.arch);
      GivesDecoded(cx, s, r, next, DecodeInstruction(r.inst, cx.arch).value);
    }
  }

  // ----- indirect jumps

  /**
   The table of section 2.5: JALR that links pushes, one through the other link register pops and pushes, one
   through a link register without linking pops. Nothing is known of where it goes.
   */
  lemma IndirectJump(cx: Context, s: State, r: Rec, next: nat, d: int, rd: nat, rs1: nat)
    requires Reported(cx, s, r)
    requires InRange(d, 12) && rd < 32 && rs1 < 32 && r.inst == EncodeJalr(d, rd, rs1)
    ensures Gives(cx, s, r, next, BRFLAG_none,
              if rd in {1, 5} && rs1 in {1, 5} && rd != rs1 then {isSwap}
              else if rd in {1, 5} then {isCall}
              else if rs1 in {1, 5} then {isReturn}
              else {}, false)
  {
    hide DecodeInstruction, EncodeJalr, Gives, InRange;
    JalrRoundTrip(d, rd, rs1, cx.arch);
    GivesDecoded(cx, s, r, next, Decoded(32, INST_JALR, Some(rs1), Some(rd), d));
  }

  /** C.JR through x1 or x5 is a return; C.JALR links x1, so that through x5 it is a swap and otherwise a call. */
  lemma CompressedIndirect(cx: Context, s: State, r: Rec, next: nat, link: bool, rs1: nat)
    requires Reported(cx, s, r) && 1 <= rs1 < 32 && r.inst == EncodeCR(link, rs1)
    ensures Gives(cx, s, r, next, BRFLAG_none,
              if link then (if rs1 == 5 then {isSwap} else {isCall})
              else if rs1 == 1 || rs1 == 5 then {isReturn} else {}, false)
  {
    hide DecodeInstruction, EncodeCR, Gives;
    CRRoundTrip(link, rs1, cx.arch);
    GivesDecoded(cx, s, r, next, DecodeInstruction(r.inst, cx.arch).value);
  }

  // ----- traps

  /** ECALL and EBREAK are exceptions, URET, SRET and MRET returns from them; where they go is not known. */
  lemma Traps(cx: Context, s: State, r: Rec, next: nat)
    requires Reported(cx, s, r)
    ensures r.inst == WordOf(0x00000073) ==> Gives(cx, s, r, next, BRFLAG_none, {isException}, false)
    ensures r.inst == WordOf(0x00100073) ==> Gives(cx, s, r, next, BRFLAG_none, {isException}, false)
    ensures r.inst == WordOf(0x00200073) ==> Gives(cx, s, r, next, BRFLAG_none, {isExceptionReturn}, false)
    ensures r.inst == WordOf(0x10200073) ==> Gives(cx, s, r, next, BRFLAG_none, {isExceptionReturn}, false)
    ensures r.inst == WordOf(0x30200073) ==> Gives(cx, s, r, next, BRFLAG_none, {isExceptionReturn}, false)
  {
    hide DecodeInstruction, Gives, WordOf;
    TrapGives(cx, s, r, next, 0x00000073);
    TrapGives(cx, s, r, next, 0x00100073);
    TrapGives(cx, s, r, next, 0x00200073);
    TrapGives(cx, s, r, next, 0x10200073);
    TrapGives(cx, s, r, next, 0x30200073);
  }

  lemma TrapGives(cx: Context, s: State, r: Rec, next: nat, n: nat)
    requires Reported(cx, s, r) && n in {0x00000073, 0x00100073, 0x00200073, 0x10200073, 0x30200073}
    ensures r.inst == WordOf(n) ==>
              Gives(cx, s, r, next, BRFLAG_none,
                if n in {0x00000073, 0x00100073} then {isException} else {isExceptionReturn}, false)
  {
    hide DecodeInstruction, Gives, WordOf, Successors;
    if r.inst == WordOf(n) {
      TrapKind(n, cx.arch);
      var d := DecodeInstruction(r.inst, cx.arch).value;
      GivesDecoded(cx, s, r, next, d);
      TrapSuccessors(r.pc, d);
    }
  }

  lemma TrapKind(n: nat, arch: Arch)
    requires n in {0x00000073, 0x00100073, 0x00200073, 0x10200073, 0x30200073}
    ensures var r := DecodeInstruction(WordOf(n), arch);
            r.Some? && r.value.kind ==
              if n == 0x00000073 then INST_ECALL
              else if n == 0x00100073 then INST_EBREAK
              else if n == 0x00200073 then INST_URET
              else if n == 0x10200073 then INST_SRET
              else INST_MRET
  {
    hide DecodeInstruction, WordOf, Field, C_EBREAK;
    SystemFields(n);
    OpcodeLow(WordOf(n));
    SizeIs(WordOf(n), arch);
    TrapKinds(WordOf(n), arch);
  }

  lemma TrapSuccessors(pc: nat, d: Decoded)
    requires d.kind in {INST_ECALL, INST_EBREAK, INST_URET, INST_SRET, INST_MRET}
    ensures Successors(pc, d) == None
  {
  }

  lemma SystemFields(n: nat)
    requires n < 0x1_0000_0000
    ensures Field(WordOf(n), 0, 7) == n % 128 && Field(WordOf(n), 7, 32) == n / 128
  {
    hide Field, WordOf;
    Pow2Constants();
    Pow2Constants7();
    Pow2Add(7, 25);
    FieldOfWord(n, 0, 7);
    FieldOfWord(n, 7, 32);
    assert n / 128 < Pow2(25);
    ModSmall(n / 128, Pow2(25));
  }

  // ----- everything else

  /** All other instructions, C.EBREAK in RV32 among them, go on to the next one, two or four bytes on. */
  lemma FallsThrough(cx: Context, s: State, r: Rec, next: nat)
    requires Reported(cx, s, r) && DecodeInstruction(r.inst, cx.arch).Some?
    requires DecodeInstruction(r.inst, cx.arch).value.kind !in
      {INST_JAL, INST_JALR, INST_BEQ, INST_BNE, INST_BLT, INST_BGE, INST_BLTU, INST_BGEU,
       INST_C_J, INST_C_JAL, INST_C_JR, INST_C_JALR, INST_C_BEQZ, INST_C_BNEZ,
       INST_EBREAK, INST_ECALL, INST_MRET, INST_SRET, INST_URET}
    ensures JumpGives(cx, s, r, next, if Field(r.inst, 0, 2) == 3 then 4 else 2, {})
  {
    hide DecodeInstruction, Gives, Field;
    SizeIs(r.inst, cx.arch);
    GivesDecoded(cx, s, r, next, DecodeInstruction(r.inst, cx.arch).value);
  }
}

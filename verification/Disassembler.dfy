/**
 The control transfer decoders, and the encodings of the RISC-V Unprivileged ISA, version 20191213,
 sections 2.3, 2.5 and 16.4, that they undo.
 */
module Disassembler {
  import opened Bits
  import opened NexusWire

  /** A 32-bit word, bit 0 first. */
  type Word = w: seq<bool> | |w| == 32 witness seq(32, _ => false)

  datatype Arch = RV32 | RV64

  datatype InstType =
    | INST_UNKNOWN
    | INST_JAL | INST_JALR | INST_BEQ | INST_BNE | INST_BLT | INST_BGE | INST_BLTU | INST_BGEU
    | INST_C_J | INST_C_JAL | INST_C_JR | INST_C_JALR | INST_C_BEQZ | INST_C_BNEZ
    | INST_EBREAK | INST_C_EBREAK | INST_ECALL | INST_MRET | INST_SRET | INST_URET
    | INST_VECT_ARITH | INST_VECT_LOAD | INST_VECT_STORE | INST_VECT_AMO | INST_VECT_AMO_WW | INST_VECT_CONFIG

  /** A register of None is one the decoder does not give. */
  datatype Decoded = Decoded(size: nat, kind: InstType, rs1: Option<nat>, rd: Option<nat>, immediate: int)

  function Plain(size: nat, kind: InstType): Decoded { Decoded(size, kind, None, None, 0) }

  /** The number in bits lo to hi - 1. */
  function Field(inst: Word, lo: nat, hi: nat): nat
    requires lo <= hi <= 32
  {
    Value(inst[lo..hi])
  }

  /** Two's complement. */
  function Signed(bits: seq<bool>): int
    requires bits != []
  {
    Value(bits) - if bits[|bits| - 1] then Pow2(|bits|) else 0
  }

  // ----- decoding

  // The displacement bits of each format, bit 0 first; a run of single-bit moves is one slice.

  function JalBits(inst: Word): (bits: seq<bool>)
    ensures |bits| == 21
  {
    [false] + inst[21..31] + [inst[20]] + inst[12..20] + [inst[31]]
  }

  function BranchBits(inst: Word): (bits: seq<bool>)
    ensures |bits| == 13
  {
    [false] + inst[8..12] + inst[25..31] + [inst[7], inst[31]]
  }

  function CJBits(inst: Word): (bits: seq<bool>)
    ensures |bits| == 12
  {
    [false] + inst[3..6] + [inst[11], inst[2], inst[7], inst[6]] + inst[9..11] + [inst[8], inst[12]]
  }

  function CBranchBits(inst: Word): (bits: seq<bool>)
    ensures |bits| == 9
  {
    [false] + inst[3..5] + inst[10..12] + [inst[2]] + inst[5..7] + [inst[12]]
  }

  function DecodeQ1(inst: Word, arch: Arch): Decoded
  {
    match Field(inst, 13, 32)
    case 1 =>
      if arch == RV32 then Decoded(16, INST_C_JAL, None, Some(1), Signed(CJBits(inst)))
      else Plain(16, INST_UNKNOWN)
    case 5 => Decoded(16, INST_C_J, None, Some(0), Signed(CJBits(inst)))
    case 6 => Decoded(16, INST_C_BEQZ, Some(Field(inst, 7, 9)), None, Signed(CBranchBits(inst)))
    case 7 => Decoded(16, INST_C_BNEZ, Some(Field(inst, 7, 9)), None, Signed(CBranchBits(inst)))
    case _ => Plain(16, INST_UNKNOWN)
  }

  function DecodeQ2(inst: Word, arch: Arch): Decoded
  {
    if Field(inst, 13, 32) != 4 || Field(inst, 2, 7) != 0 then Plain(16, INST_UNKNOWN)
    else if Field(inst, 7, 12) != 0 then
      Decoded(16, if inst[12] then INST_C_JALR else INST_C_JR, Some(Field(inst, 7, 12)),
              Some(if inst[12] then 1 else 0), 0)
    else if inst[12] then Plain(16, if arch == RV32 then INST_C_EBREAK else INST_EBREAK)
    else Plain(16, INST_UNKNOWN)
  }

  function BranchType(funct3: nat): InstType
  {
    match funct3
    case 0 => INST_BEQ
    case 1 => INST_BNE
    case 4 => INST_BLT
    case 5 => INST_BGE
    case 6 => INST_BLTU
    case 7 => INST_BGEU
    case _ => INST_UNKNOWN
  }

  /** A width field that marks a vector rather than a floating-point access. */
  predicate VectorWidth(inst: Word) { var w := Field(inst, 12, 15); w == 0 || w >= 5 }

  function DecodeWide(inst: Word): Option<Decoded>
  {
    if Field(inst, 0, 5) == 0x1f then None
    else Some(
      match Field(inst, 0, 7)
      case 0x6f => Decoded(32, INST_JAL, None, Some(Field(inst, 7, 12)), Signed(JalBits(inst)))
      case 0x67 =>
        if Field(inst, 12, 15) == 0 then
          Decoded(32, INST_JALR, Some(Field(inst, 15, 20)), Some(Field(inst, 7, 12)), Signed(inst[20..32]))
        else Plain(32, INST_UNKNOWN)
      case 0x63 =>
        var kind := BranchType(Field(inst, 12, 15));
        if kind == INST_UNKNOWN then Plain(32, INST_UNKNOWN)
        else Decoded(32, kind, Some(Field(inst, 15, 20)), None, Signed(BranchBits(inst)))
      case 0x73 =>
        Plain(32, match Field(inst, 7, 32)
                  case 0x4000 => INST_URET
                  case 0x204000 => INST_SRET
                  case 0x604000 => INST_MRET
                  case 0 => INST_ECALL
                  case 0x2000 => INST_EBREAK
                  case _ => INST_UNKNOWN)
      case 0x07 => Plain(32, if VectorWidth(inst) then INST_VECT_LOAD else INST_UNKNOWN)
      case 0x27 => Plain(32, if VectorWidth(inst) then INST_VECT_STORE else INST_UNKNOWN)
      case 0x2f =>
        Plain(32, if !VectorWidth(inst) then INST_UNKNOWN else if inst[26] then INST_VECT_AMO_WW else INST_VECT_AMO)
      case 0x57 => Plain(32, if Field(inst, 12, 15) <= 6 then INST_VECT_ARITH else INST_VECT_CONFIG)
      case _ => Plain(32, INST_UNKNOWN))
  }

  /** None for an instruction longer than 32 bits. */
  function DecodeInstruction(inst: Word, arch: Arch): Option<Decoded>
  {
    match Field(inst, 0, 2)
    case 0 => Some(Plain(16, INST_UNKNOWN))
    case 1 => Some(DecodeQ1(inst, arch))
    case 2 => Some(DecodeQ2(inst, arch))
    case _ => DecodeWide(inst)
  }

  // ----- encoding

  predicate InRange(d: int, n: nat) { n > 0 && 0 <= d + Pow2(n - 1) && d < Pow2(n - 1) }

  function SignedBits(d: int, n: nat): (bits: seq<bool>)
    requires InRange(d, n)
    ensures |bits| == n
  {
    assert Pow2(n) == 2 * Pow2(n - 1);
    ToBits(if d < 0 then d + Pow2(n) else d, n)
  }

  function EncodeJal(d: int, rd: nat): Word
    requires InRange(d, 21)
  {
    var b := SignedBits(d, 21);
    ToBits(0x6f, 7) + ToBits(rd, 5) + b[12..20] + [b[11]] + b[1..11] + [b[20]]
  }

  function EncodeJalr(d: int, rd: nat, rs1: nat): Word
    requires InRange(d, 12)
  {
    ToBits(0x67, 7) + ToBits(rd, 5) + ToBits(0, 3) + ToBits(rs1, 5) + SignedBits(d, 12)
  }

  function EncodeBranch(d: int, funct3: nat, rs1: nat, rs2: nat): Word
    requires InRange(d, 13)
  {
    var b := SignedBits(d, 13);
    ToBits(0x63, 7) + [b[11]] + b[1..5] + ToBits(funct3, 3) + ToBits(rs1, 5) + ToBits(rs2, 5) + b[5..11] + [b[12]]
  }

  function EncodeCJ(d: int, funct3: nat): Word
    requires InRange(d, 12)
  {
    var b := SignedBits(d, 12);
    ToBits(1, 2) + [b[5]] + b[1..4] + [b[7], b[6], b[10]] + b[8..10] + [b[4], b[11]] + ToBits(funct3, 3) + Zeros(16)
  }

  function EncodeCBranch(d: int, funct3: nat, rs1: nat): Word
    requires InRange(d, 9)
  {
    var b := SignedBits(d, 9);
    ToBits(1, 2) + [b[5]] + b[1..3] + b[6..8] + ToBits(rs1, 3) + b[3..5] + [b[8]] + ToBits(funct3, 3) + Zeros(16)
  }

  /** C.JR, and C.JALR when it links. */
  function EncodeCR(link: bool, rs1: nat): Word
  {
    ToBits(2, 2) + Zeros(5) + ToBits(rs1, 5) + [link] + ToBits(4, 3) + Zeros(16)
  }

  /** A word by its number. */
  function WordOf(n: nat): Word { ToBits(n, 32) }

  // ----- numbers

  lemma SignedOfBits(d: int, n: nat)
    requires InRange(d, n)
    ensures Signed(SignedBits(d, n)) == d
    ensures SignedBits(d, n)[0] == (d % 2 == 1)
  {
    hide Value, ToBits, Pow2;
    var v := if d < 0 then d + Pow2(n) else d;
    var bits := SignedBits(d, n);
    Pow2Double(n - 1);
    LowBit(v, n);
    ValueToBits(v, n);
    ModSmall(v, Pow2(n));
    SplitTop(bits);
  }

  lemma LowBit(v: nat, n: nat)
    requires n > 0
    ensures ToBits(v, n)[0] == (v % 2 == 1)
  {
  }

  lemma SplitTop(bits: seq<bool>)
    requires bits != []
    ensures Value(bits) == Value(bits[..|bits| - 1]) + (if bits[|bits| - 1] then Pow2(|bits| - 1) else 0)
    ensures Value(bits[..|bits| - 1]) < Pow2(|bits| - 1)
  {
    var n := |bits|;
    ValueBound(bits[..n - 1]);
    assert bits == bits[..n - 1] + [bits[n - 1]];
    ValueSnoc(bits[..n - 1], bits[n - 1]);
  }

  lemma Pow2Double(n: nat)
    ensures Pow2(n + 1) == 2 * Pow2(n)
  {
  }

  lemma BitsOfSigned(bits: seq<bool>)
    requires bits != []
    ensures InRange(Signed(bits), |bits|) && SignedBits(Signed(bits), |bits|) == bits
  {
    Pow2Double(|bits| - 1);
    ValueBound(bits);
    ToBitsValue(bits);
    SplitTop(bits);
  }

  /** The low k bits of a field of n. */
  lemma FieldLow(inst: Word, k: nat, n: nat)
    requires k <= n <= 32
    ensures Field(inst, 0, k) == Field(inst, 0, n) % Pow2(k)
  {
    assert inst[0..n][..k] == inst[0..k];
    ValuePrefix(inst[0..n], k);
  }

  /** A field that an encoder put there. */
  lemma FieldIs(inst: Word, lo: nat, hi: nat, v: nat)
    requires lo <= hi <= 32 && inst[lo..hi] == ToBits(v, hi - lo)
    ensures Field(inst, lo, hi) == v % Pow2(hi - lo)
  {
    ValueToBits(v, hi - lo);
  }

  /** The bits of a field are those of its value. */
  lemma BitsOfField(inst: Word, lo: nat, hi: nat)
    requires lo <= hi <= 32
    ensures ToBits(Field(inst, lo, hi), hi - lo) == inst[lo..hi]
  {
    ToBitsValue(inst[lo..hi]);
  }

  lemma WideOpcode(inst: Word, opcode: nat)
    requires Field(inst, 0, 7) == opcode && opcode in {0x6f, 0x67, 0x63}
    ensures Field(inst, 0, 2) == 3 && Field(inst, 0, 5) != 0x1f
  {
    FieldLow(inst, 2, 7);
    FieldLow(inst, 5, 7);
    Pow2Constants();
  }

  // ----- decoding inverts encoding

  /** Section 2.5, JAL: decoding inverts the encoding, for every even displacement in range, and back. */
  lemma JalRoundTrip(d: int, rd: nat, arch: Arch)
    requires InRange(d, 21) && d % 2 == 0 && rd < 32
    ensures DecodeInstruction(EncodeJal(d, rd), arch) == Some(Decoded(32, INST_JAL, None, Some(rd), d))
  {
    hide Value, ToBits, Signed, SignedBits, InRange, EncodeJal, JalBits, Pow2;
    var inst := EncodeJal(d, rd);
    JalLayout(d, rd);
    Pow2Constants();
    Pow2Constants7();
    FieldIs(inst, 0, 7, 0x6f);
    FieldIs(inst, 7, 12, rd);
    WideOpcode(inst, 0x6f);
    SignedOfBits(d, 21);
  }

  lemma JalLayout(d: int, rd: nat)
    requires InRange(d, 21) && d % 2 == 0
    ensures var inst := EncodeJal(d, rd);
            inst[0..7] == ToBits(0x6f, 7) && inst[7..12] == ToBits(rd, 5) && JalBits(inst) == SignedBits(d, 21)
  {
    hide Value, ToBits, Signed, SignedBits, InRange, Pow2;
    var inst, b := EncodeJal(d, rd), SignedBits(d, 21);
    SignedOfBits(d, 21);
    assert inst[21..31] == b[1..11] && inst[12..20] == b[12..20];
    assert JalBits(inst) == b;
  }

  lemma Pow2Constants7()
    ensures Pow2(7) == 128
  {
    Pow2Constants();
    Pow2Double(6);
  }

  /** Every word with the JAL opcode is the encoding of what the decoder makes of it. */
  lemma JalOnto(inst: Word, arch: Arch)
    requires Field(inst, 0, 7) == 0x6f
    ensures var r := DecodeInstruction(inst, arch);
            && r.Some? && r.value.kind == INST_JAL && r.value.rd.Some?
            && InRange(r.value.immediate, 21) && EncodeJal(r.value.immediate, r.value.rd.value) == inst
  {
    hide Value, ToBits, Signed, SignedBits, InRange;
    WideOpcode(inst, 0x6f);
    BitsOfSigned(JalBits(inst));
    BitsOfField(inst, 0, 7);
    BitsOfField(inst, 7, 12);
    var b := JalBits(inst);
    assert b[12..20] == inst[12..20] && b[1..11] == inst[21..31];
    assert inst == inst[0..7] + inst[7..12] + b[12..20] + [b[11]] + b[1..11] + [b[20]];
  }

  /** Section 2.5, JALR. */
  lemma JalrRoundTrip(d: int, rd: nat, rs1: nat, arch: Arch)
    requires InRange(d, 12) && rd < 32 && rs1 < 32
    ensures DecodeInstruction(EncodeJalr(d, rd, rs1), arch) == Some(Decoded(32, INST_JALR, Some(rs1), Some(rd), d))
  {
    hide Value, ToBits, Signed, SignedBits, InRange, EncodeJalr, Pow2;
    var inst := EncodeJalr(d, rd, rs1);
    JalrLayout(d, rd, rs1);
    Pow2Constants();
    Pow2Constants7();
    FieldIs(inst, 0, 7, 0x67);
    FieldIs(inst, 7, 12, rd);
    FieldIs(inst, 12, 15, 0);
    FieldIs(inst, 15, 20, rs1);
    WideOpcode(inst, 0x67);
    SignedOfBits(d, 12);
  }

  lemma JalrLayout(d: int, rd: nat, rs1: nat)
    requires InRange(d, 12)
    ensures var inst := EncodeJalr(d, rd, rs1);
            && inst[0..7] == ToBits(0x67, 7) && inst[7..12] == ToBits(rd, 5) && inst[12..15] == ToBits(0, 3)
            && inst[15..20] == ToBits(rs1, 5) && inst[20..32] == SignedBits(d, 12)
  {
    hide Value, ToBits, Signed, SignedBits, InRange, Pow2;
  }

  /** Section 2.5, conditional branches: the source register and the displacement come back. */
  lemma BranchRoundTrip(d: int, funct3: nat, rs1: nat, rs2: nat, arch: Arch)
    requires InRange(d, 13) && d % 2 == 0 && rs1 < 32 && funct3 in {0, 1, 4, 5, 6, 7}
    ensures DecodeInstruction(EncodeBranch(d, funct3, rs1, rs2), arch)
         == Some(Decoded(32, BranchType(funct3), Some(rs1), None, d))
  {
    hide Value, ToBits, Signed, SignedBits, InRange, EncodeBranch, BranchBits, Pow2;
    var inst := EncodeBranch(d, funct3, rs1, rs2);
    BranchLayout(d, funct3, rs1, rs2);
    Pow2Constants();
    Pow2Constants7();
    FieldIs(inst, 0, 7, 0x63);
    FieldIs(inst, 12, 15, funct3);
    FieldIs(inst, 15, 20, rs1);
    WideOpcode(inst, 0x63);
    SignedOfBits(d, 13);
  }

  lemma BranchLayout(d: int, funct3: nat, rs1: nat, rs2: nat)
    requires InRange(d, 13) && d % 2 == 0
    ensures var inst := EncodeBranch(d, funct3, rs1, rs2);
            && inst[0..7] == ToBits(0x63, 7) && inst[12..15] == ToBits(funct3, 3) && inst[15..20] == ToBits(rs1, 5)
            && BranchBits(inst) == SignedBits(d, 13)
  {
    hide Value, ToBits, Signed, SignedBits, InRange;
    var inst, b := EncodeBranch(d, funct3, rs1, rs2), SignedBits(d, 13);
    SignedOfBits(d, 13);
    assert inst[8..12] == b[1..5] && inst[25..31] == b[5..11];
    assert BranchBits(inst) == b;
  }

  /** Every conditional branch is the encoding of what the decoder makes of it, with its second register. */
  lemma BranchOnto(inst: Word, arch: Arch)
    requires Field(inst, 0, 7) == 0x63 && BranchType(Field(inst, 12, 15)) != INST_UNKNOWN
    ensures var r := DecodeInstruction(inst, arch);
            && r.Some? && r.value.kind == BranchType(Field(inst, 12, 15)) && r.value.rs1.Some?
            && InRange(r.value.immediate, 13)
            && EncodeBranch(r.value.immediate, Field(inst, 12, 15), r.value.rs1.value, Field(inst, 20, 25)) == inst
  {
    hide Value, ToBits, Signed, SignedBits, InRange;
    WideOpcode(inst, 0x63);
    BitsOfSigned(BranchBits(inst));
    BitsOfField(inst, 0, 7);
    BitsOfField(inst, 12, 15);
    BitsOfField(inst, 15, 20);
    BitsOfField(inst, 20, 25);
    var b := BranchBits(inst);
    assert b[1..5] == inst[8..12] && b[5..11] == inst[25..31];
    assert inst == inst[0..7] + [b[11]] + b[1..5] + inst[12..15] + inst[15..20] + inst[20..25] + b[5..11] + [b[12]];
  }

  /** The upper bits of a 16-bit instruction are clear, so that the top field is its funct3. */
  lemma CompressedTop(inst: Word, funct3: nat)
    requires funct3 < 8 && inst[13..32] == ToBits(funct3, 3) + Zeros(16)
    ensures Field(inst, 13, 32) == funct3
  {
    hide Value, ToBits;
    Pow2Constants();
    ValueToBits(funct3, 3);
    ValueZeroExtend(ToBits(funct3, 3), 16);
  }

  /** Section 16.4, C.J and C.JAL: the latter only exists in RV32. */
  lemma CJRoundTrip(d: int, jal: bool, arch: Arch)
    requires InRange(d, 12) && d % 2 == 0
    ensures DecodeInstruction(EncodeCJ(d, if jal then 1 else 5), arch)
         == Some(if !jal then Decoded(16, INST_C_J, None, Some(0), d)
                 else if arch == RV32 then Decoded(16, INST_C_JAL, None, Some(1), d)
                 else Plain(16, INST_UNKNOWN))
  {
    hide Value, ToBits, Signed, SignedBits, InRange, Zeros, EncodeCJ, CJBits, Pow2;
    var funct3 := if jal then 1 else 5;
    var inst := EncodeCJ(d, funct3);
    CJLayout(d, funct3);
    Pow2Constants();
    FieldIs(inst, 0, 2, 1);
    CompressedTop(inst, funct3);
    SignedOfBits(d, 12);
  }

  lemma CJLayout(d: int, funct3: nat)
    requires InRange(d, 12) && d % 2 == 0
    ensures var inst := EncodeCJ(d, funct3);
            && inst[0..2] == ToBits(1, 2) && inst[13..32] == ToBits(funct3, 3) + Zeros(16)
            && CJBits(inst) == SignedBits(d, 12)
  {
    hide Value, ToBits, Signed, SignedBits, InRange, Zeros, Pow2;
    var inst, b := EncodeCJ(d, funct3), SignedBits(d, 12);
    SignedOfBits(d, 12);
    assert inst[3..6] == b[1..4] && inst[9..11] == b[8..10];
    assert CJBits(inst) == b;
  }

  /** Section 16.4, C.BEQZ and C.BNEZ. Of the three bits of the register's number, the decoder reads the lower two. */
  lemma CBranchRoundTrip(d: int, notZero: bool, rs1: nat, arch: Arch)
    requires InRange(d, 9) && d % 2 == 0
    ensures var r := DecodeInstruction(EncodeCBranch(d, if notZero then 7 else 6, rs1), arch);
            && r.Some? && r.value.size == 16 && r.value.immediate == d
            && r.value.kind == (if notZero then INST_C_BNEZ else INST_C_BEQZ)
            && r.value.rs1 == Some(rs1 % 4) && r.value.rd == None
  {
    hide Value, ToBits, Signed, SignedBits, InRange, Zeros, EncodeCBranch, CBranchBits, Pow2;
    var funct3 := if notZero then 7 else 6;
    var inst := EncodeCBranch(d, funct3, rs1);
    CBranchLayout(d, funct3, rs1);
    Pow2Constants();
    FieldIs(inst, 0, 2, 1);
    FieldIs(inst, 7, 9, rs1);
    CompressedTop(inst, funct3);
    SignedOfBits(d, 9);
  }

  lemma CBranchLayout(d: int, funct3: nat, rs1: nat)
    requires InRange(d, 9) && d % 2 == 0
    ensures var inst := EncodeCBranch(d, funct3, rs1);
            && inst[0..2] == ToBits(1, 2) && inst[13..32] == ToBits(funct3, 3) + Zeros(16)
            && inst[7..9] == ToBits(rs1, 2) && CBranchBits(inst) == SignedBits(d, 9)
  {
    hide Value, ToBits, Signed, SignedBits, InRange, Zeros, Pow2;
    var inst, b := EncodeCBranch(d, funct3, rs1), SignedBits(d, 9);
    SignedOfBits(d, 9);
    assert inst[7..10] == ToBits(rs1, 3);
    TwoOfThree(rs1);
    assert inst[7..9] == inst[7..10][..2];
    assert inst[3..5] == b[1..3] && inst[5..7] == b[6..8] && inst[10..12] == b[3..5];
    assert CBranchBits(inst) == b;
  }

  lemma TwoOfThree(v: nat)
    ensures ToBits(v, 3)[..2] == ToBits(v, 2)
  {
    hide ToBits, Pow2;
    Quarter(v);
    ToBitsSplit(v, 2, 1, v / 4);
  }

  lemma Quarter(v: nat)
    ensures v / 4 == v / Pow2(2)
  {
    assert Pow2(2) == 4;
  }

  /** Section 16.4, C.JR and C.JALR: the register comes back, and the link register that is written, if any. */
  lemma CRRoundTrip(link: bool, rs1: nat, arch: Arch)
    requires 1 <= rs1 < 32
    ensures DecodeInstruction(EncodeCR(link, rs1), arch)
         == Some(if link then Decoded(16, INST_C_JALR, Some(rs1), Some(1), 0)
                 else Decoded(16, INST_C_JR, Some(rs1), Some(0), 0))
  {
    hide Value, ToBits, Zeros, Pow2, EncodeCR;
    var inst := EncodeCR(link, rs1);
    CRLayout(link, rs1);
    Pow2Constants();
    ValueZeros(5);
    FieldIs(inst, 0, 2, 2);
    FieldIs(inst, 7, 12, rs1);
    CompressedTop(inst, 4);
  }

  lemma CRLayout(link: bool, rs1: nat)
    ensures var inst := EncodeCR(link, rs1);
            && inst[0..2] == ToBits(2, 2) && inst[2..7] == Zeros(5) && inst[7..12] == ToBits(rs1, 5)
            && inst[12] == link && inst[13..32] == ToBits(4, 3) + Zeros(16)
  {
    hide Value, ToBits, Zeros;
  }

  /** A field of a word is that of its number. */
  lemma FieldOfWord(n: nat, lo: nat, hi: nat)
    requires lo <= hi <= 32
    ensures Field(WordOf(n), lo, hi) == (n / Pow2(lo)) % Pow2(hi - lo)
  {
    hide Value, ToBits, Pow2;
    var q := n / Pow2(lo);
    ToBitsSplit(n, lo, 32 - lo, q);
    ToBitsSplit(q, hi - lo, 32 - hi, q / Pow2(hi - lo));
    assert WordOf(n)[lo..hi] == ToBits(q, hi - lo);
    ValueToBits(q, hi - lo);
  }

  // ----- the kinds of instructions

  /** The size: 16 bits unless the lowest two are set. Instructions longer than 32 bits are not decoded. */
  lemma SizeIs(inst: Word, arch: Arch)
    ensures var r := DecodeInstruction(inst, arch);
            && (r.None? <==> Field(inst, 0, 5) == 0x1f)
            && (r.Some? ==> r.value.size == if Field(inst, 0, 2) == 3 then 32 else 16)
  {
    hide Value, Signed;
    FieldLow(inst, 2, 5);
    Pow2Constants();
  }

  /** Every kind of control transfer by its encoding: the 32-bit ones. */
  lemma WideKinds(inst: Word, arch: Arch)
    requires DecodeInstruction(inst, arch).Some?
    ensures var kind := DecodeInstruction(inst, arch).value.kind;
            var opcode, funct3 := Field(inst, 0, 7), Field(inst, 12, 15);
            && (kind == INST_JAL <==> opcode == 0x6f)
            && (kind == INST_JALR <==> opcode == 0x67 && funct3 == 0)
            && (kind == INST_BEQ <==> opcode == 0x63 && funct3 == 0)
            && (kind == INST_BNE <==> opcode == 0x63 && funct3 == 1)
            && (kind == INST_BLT <==> opcode == 0x63 && funct3 == 4)
            && (kind == INST_BGE <==> opcode == 0x63 && funct3 == 5)
            && (kind == INST_BLTU <==> opcode == 0x63 && funct3 == 6)
            && (kind == INST_BGEU <==> opcode == 0x63 && funct3 == 7)
  {
    hide Value, Signed;
    OpcodeLow(inst);
  }

  /** The traps and the returns from them. */
  lemma TrapKinds(inst: Word, arch: Arch)
    requires DecodeInstruction(inst, arch).Some?
    ensures var kind, opcode, rest := DecodeInstruction(inst, arch).value.kind, Field(inst, 0, 7), Field(inst, 7, 32);
            && (kind == INST_ECALL <==> opcode == 0x73 && rest == 0)
            && (kind == INST_EBREAK <==> (opcode == 0x73 && rest == 0x2000) || (arch == RV64 && inst == C_EBREAK))
            && (kind == INST_C_EBREAK <==> arch == RV32 && inst == C_EBREAK)
            && (kind == INST_URET <==> opcode == 0x73 && rest == 0x4000)
            && (kind == INST_SRET <==> opcode == 0x73 && rest == 0x204000)
            && (kind == INST_MRET <==> opcode == 0x73 && rest == 0x604000)
  {
    hide DecodeWide, DecodeQ1, DecodeQ2, Field, C_EBREAK;
    OpcodeLow(inst);
    EbreakFields(inst);
    if Field(inst, 0, 2) == 3 {
      WideTraps(inst);
    } else {
      CompressedTraps(inst, arch);
    }
  }

  lemma WideTraps(inst: Word)
    requires DecodeWide(inst).Some?
    ensures var kind, opcode, rest := DecodeWide(inst).value.kind, Field(inst, 0, 7), Field(inst, 7, 32);
            && (kind == INST_ECALL <==> opcode == 0x73 && rest == 0)
            && (kind == INST_EBREAK <==> opcode == 0x73 && rest == 0x2000)
            && kind != INST_C_EBREAK
            && (kind == INST_URET <==> opcode == 0x73 && rest == 0x4000)
            && (kind == INST_SRET <==> opcode == 0x73 && rest == 0x204000)
            && (kind == INST_MRET <==> opcode == 0x73 && rest == 0x604000)
  {
    hide Value, Signed, Field;
  }

  lemma CompressedTraps(inst: Word, arch: Arch)
    ensures DecodeQ1(inst, arch).kind !in {INST_ECALL, INST_EBREAK, INST_C_EBREAK, INST_URET, INST_SRET, INST_MRET}
    ensures var kind := DecodeQ2(inst, arch).kind;
            && kind !in {INST_ECALL, INST_URET, INST_SRET, INST_MRET}
            && (kind in {INST_EBREAK, INST_C_EBREAK} <==>
                  Field(inst, 13, 32) == 4 && Field(inst, 2, 7) == 0 && Field(inst, 7, 12) == 0 && inst[12])
            && (kind == INST_EBREAK ==> arch == RV64) && (kind == INST_C_EBREAK ==> arch == RV32)
  {
    hide Value, Signed, Field;
  }

  /** Vector instructions, told from floating-point and atomic ones of the same opcode by their width. */
  lemma VectorKinds(inst: Word, arch: Arch)
    requires DecodeInstruction(inst, arch).Some?
    ensures var kind, opcode, width := DecodeInstruction(inst, arch).value.kind, Field(inst, 0, 7), Field(inst, 12, 15);
            && (kind == INST_VECT_LOAD <==> opcode == 0x07 && width in {0, 5, 6, 7})
            && (kind == INST_VECT_STORE <==> opcode == 0x27 && width in {0, 5, 6, 7})
            && (kind == INST_VECT_AMO <==> opcode == 0x2f && width in {0, 5, 6, 7} && !inst[26])
            && (kind == INST_VECT_AMO_WW <==> opcode == 0x2f && width in {0, 5, 6, 7} && inst[26])
            && (kind == INST_VECT_ARITH <==> opcode == 0x57 && width != 7)
            && (kind == INST_VECT_CONFIG <==> opcode == 0x57 && width == 7)
  {
    hide Value, Signed;
    OpcodeLow(inst);
    WidthBound(inst);
  }

  lemma WidthBound(inst: Word)
    ensures Field(inst, 12, 15) < 8
  {
    ValueBound(inst[12..15]);
    Pow2Constants();
  }

  /** The 16-bit ones. */
  lemma CompressedKinds(inst: Word, arch: Arch)
    requires DecodeInstruction(inst, arch).Some?
    ensures var kind, quadrant, top := DecodeInstruction(inst, arch).value.kind, Field(inst, 0, 2), Field(inst, 13, 32);
            var isCR := quadrant == 2 && top == 4 && Field(inst, 2, 7) == 0 && Field(inst, 7, 12) != 0;
            && (kind == INST_C_J <==> quadrant == 1 && top == 5)
            && (kind == INST_C_JAL <==> quadrant == 1 && top == 1 && arch == RV32)
            && (kind == INST_C_BEQZ <==> quadrant == 1 && top == 6)
            && (kind == INST_C_BNEZ <==> quadrant == 1 && top == 7)
            && (kind == INST_C_JR <==> isCR && !inst[12])
            && (kind == INST_C_JALR <==> isCR && inst[12])
  {
    hide Value, Signed;
    OpcodeLow(inst);
  }

  lemma OpcodeLow(inst: Word)
    ensures Field(inst, 0, 2) == Field(inst, 0, 7) % 4 && Field(inst, 0, 5) == Field(inst, 0, 7) % 32
  {
    FieldLow(inst, 2, 7);
    FieldLow(inst, 5, 7);
    Pow2Constants();
  }

  // ----- RV32 and RV64

  const C_EBREAK: Word := WordOf(0x9002)

  /** The two instruction sets decode alike except where C.JAL and C.ADDIW share an encoding, and at C.EBREAK. */
  lemma ArchesDiffer(inst: Word)
    ensures DecodeInstruction(inst, RV32) != DecodeInstruction(inst, RV64)
        <==> (Field(inst, 0, 2) == 1 && Field(inst, 13, 32) == 1) || inst == C_EBREAK
  {
    hide Value, ToBits, Signed;
    if Field(inst, 0, 2) == 2 || inst == C_EBREAK {
      EbreakFields(inst);
    }
  }

  lemma EbreakFields(inst: Word)
    ensures inst == C_EBREAK <==>
      && Field(inst, 0, 2) == 2 && Field(inst, 2, 7) == 0 && Field(inst, 7, 12) == 0
      && inst[12] && Field(inst, 13, 32) == 4
  {
    hide Value, ToBits;
    SameField(inst, C_EBREAK, 0, 2);
    SameField(inst, C_EBREAK, 2, 7);
    SameField(inst, C_EBREAK, 7, 12);
    SameField(inst, C_EBREAK, 13, 32);
    EbreakValues();
    if && Field(inst, 0, 2) == 2 && Field(inst, 2, 7) == 0 && Field(inst, 7, 12) == 0
       && inst[12] && Field(inst, 13, 32) == 4
    {
      SplitWord(inst);
      SplitWord(C_EBREAK);
    }
  }

  lemma SplitWord(inst: Word)
    ensures inst == inst[0..2] + inst[2..7] + inst[7..12] + [inst[12]] + inst[13..32]
  {
  }

  lemma SameField(a: Word, b: Word, lo: nat, hi: nat)
    requires lo <= hi <= 32
    ensures a[lo..hi] == b[lo..hi] <==> Field(a, lo, hi) == Field(b, lo, hi)
  {
    BitsOfField(a, lo, hi);
    BitsOfField(b, lo, hi);
  }

  lemma EbreakValues()
    ensures Field(C_EBREAK, 0, 2) == 2 && Field(C_EBREAK, 2, 7) == 0 && Field(C_EBREAK, 7, 12) == 0
    ensures Field(C_EBREAK, 13, 32) == 4 && C_EBREAK[12]
  {
    hide Value, ToBits, Field, Pow2;
    EbreakPowers();
    FieldOfWord(0x9002, 0, 2);
    FieldOfWord(0x9002, 2, 7);
    FieldOfWord(0x9002, 7, 12);
    FieldOfWord(0x9002, 13, 32);
    FieldOfWord(0x9002, 12, 13);
    OneBit(C_EBREAK, 12);
  }

  lemma EbreakPowers()
    ensures Pow2(0) == 1 && Pow2(1) == 2 && Pow2(2) == 4 && Pow2(5) == 32 && Pow2(7) == 128
    ensures Pow2(12) == 0x1000 && Pow2(13) == 0x2000 && Pow2(19) == 0x8_0000
  {
    Pow2Constants();
    Pow2Constants7();
    Pow2Add(8, 4);
    Pow2Double(12);
    Pow2Add(16, 3);
  }

  lemma OneBit(inst: Word, i: nat)
    requires i < 32
    ensures Field(inst, i, i + 1) == if inst[i] then 1 else 0
  {
    assert inst[i..i + 1] == [inst[i]];
    assert Value([true]) == 1 && Value([false]) == 0;
  }
}

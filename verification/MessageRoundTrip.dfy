/**
 The fourteen kinds of message beside data acquisition, written field by field, and that the pull decoder reads
 each of them back.
 */
module MessageRoundTrip {
  import opened Bits
  import opened NexusWire
  import opened MessageBuilder
  import Codec = CodecRoundTrip
  import opened FieldReader
  import opened PullDecoder
  import opened Framing
  import opened DecoderAgreement
  import opened MessageGrammar

  // ----- messages, and how they are written

  /** The messages with their fields, in the order in which they are sent. */
  datatype TraceMessage =
    | OwnershipTrace(process: nat)
    | DirectBranch(iCnt: nat)
    | IndirectBranch(bType: nat, iCnt: nat, uAddr: nat)
    | Error(etype: nat, ecode: nat)
    | Sync(sync: nat, iCnt: nat, fAddr: nat)
    | DirectBranchWS(sync: nat, iCnt: nat, fAddr: nat)
    | IndirectBranchWS(sync: nat, bType: nat, iCnt: nat, fAddr: nat)
    | AuxAccessWrite(addr: nat, data: nat)
    | ResourceFull(rCode: nat, resource: nat)
    | IndirectHistory(bType: nat, iCnt: nat, uAddr: nat, history: nat)
    | IndirectHistoryWS(sync: nat, bType: nat, iCnt: nat, fAddr: nat, history: nat)
    | Correlation(evcode: nat, cdf: nat, iCnt: nat, history: nat)
    | InCircuitTrace(cksrc: nat, ckdf: nat, data: nat, more: nat)
    | InCircuitTraceWS(cksrc: nat, ckdf: nat, data: nat, more: nat)

  datatype FixedField = FixedField(width: nat, value: nat)

  /** A message on the wire: its TCODE, its fields of fixed width, and then those of variable width. */
  datatype Wire = Wire(tcode: nat, fixed: seq<FixedField>, vars: seq<nat>)

  function Four(value: nat): FixedField { FixedField(4, value) }

  function Two(value: nat): FixedField { FixedField(2, value) }

  function OnWire(t: TraceMessage): (w: Wire)
    ensures 2 <= w.tcode < 64 && w.tcode != TCODE_DATA_ACQUISITION && w.vars != []
    ensures forall i :: 0 <= i < |w.fixed| ==> w.fixed[i].width in {2, 4}
  {
    match t
    case OwnershipTrace(process) => Wire(2, [], [process])
    case DirectBranch(iCnt) => Wire(3, [], [iCnt])
    case IndirectBranch(bType, iCnt, uAddr) => Wire(4, [Two(bType)], [iCnt, uAddr])
    case Error(etype, ecode) => Wire(8, [Four(etype)], [ecode])
    case Sync(sync, iCnt, fAddr) => Wire(9, [Four(sync)], [iCnt, fAddr])
    case DirectBranchWS(sync, iCnt, fAddr) => Wire(11, [Four(sync)], [iCnt, fAddr])
    case IndirectBranchWS(sync, bType, iCnt, fAddr) => Wire(12, [Four(sync), Two(bType)], [iCnt, fAddr])
    case AuxAccessWrite(addr, data) => Wire(23, [], [addr, data])
    case ResourceFull(rCode, resource) => Wire(27, [Four(rCode)], [resource])
    case IndirectHistory(bType, iCnt, uAddr, history) => Wire(28, [Two(bType)], [iCnt, uAddr, history])
    case IndirectHistoryWS(sync, bType, iCnt, fAddr, history) =>
      Wire(29, [Four(sync), Two(bType)], [iCnt, fAddr, history])
    case Correlation(evcode, cdf, iCnt, history) =>
      Wire(33, [Four(evcode), Two(cdf)], if cdf == 0 then [iCnt] else [iCnt, history])
    case InCircuitTrace(cksrc, ckdf, data, more) =>
      Wire(34, [Four(cksrc), Two(ckdf)], if ckdf == 0 then [data] else [data, more])
    case InCircuitTraceWS(cksrc, ckdf, data, more) =>
      Wire(35, [Four(cksrc), Two(ckdf)], if ckdf == 0 then [data] else [data, more])
  }

  /** What a NexusMessage keeps of the fields: instruction and branch counts are 32 bits wide. */
  function Kept(t: TraceMessage): seq<nat>
  {
    match t
    case OwnershipTrace(process) => [process % 0x20_0000_0000]
    case DirectBranch(iCnt) => [iCnt % 0x1_0000_0000]
    case IndirectBranch(bType, iCnt, uAddr) => [bType, iCnt % 0x1_0000_0000, uAddr]
    case Error(etype, _) => [etype, 0]
    case Sync(sync, iCnt, fAddr) => [sync, iCnt % 0x1_0000_0000, fAddr]
    case DirectBranchWS(sync, iCnt, fAddr) => [sync, iCnt % 0x1_0000_0000, fAddr]
    case IndirectBranchWS(sync, bType, iCnt, fAddr) => [sync, bType, iCnt % 0x1_0000_0000, fAddr]
    case AuxAccessWrite(addr, data) => [addr % 0x1_0000_0000, data % 0x1_0000_0000]
    case ResourceFull(rCode, resource) => [rCode, if rCode == 1 then resource else resource % 0x1_0000_0000]
    case IndirectHistory(bType, iCnt, uAddr, history) => [bType, iCnt % 0x1_0000_0000, uAddr, history]
    case IndirectHistoryWS(sync, bType, iCnt, fAddr, history) => [sync, bType, iCnt % 0x1_0000_0000, fAddr, history]
    case Correlation(evcode, cdf, iCnt, history) =>
      if cdf == 0 then [evcode, cdf, iCnt % 0x1_0000_0000] else [evcode, cdf, iCnt % 0x1_0000_0000, history]
    case InCircuitTrace(cksrc, ckdf, data, more) =>
      if ckdf == 0 then [cksrc, ckdf, data] else [cksrc, ckdf, data, more]
    case InCircuitTraceWS(cksrc, ckdf, data, more) =>
      if ckdf == 0 then [cksrc, ckdf, data] else [cksrc, ckdf, data, more]
  }

  /** The codes that say which fields follow have these values only. */
  predicate Allowed(t: TraceMessage)
  {
    match t
    case ResourceFull(rCode, _) => rCode == 0 || rCode == 1 || rCode == 8 || rCode == 9
    case Correlation(_, cdf, _, _) => cdf <= 1
    case InCircuitTrace(_, ckdf, _, _) => ckdf <= 1
    case InCircuitTraceWS(_, ckdf, _, _) => ckdf <= 1
    case _ => true
  }

  /** Every field fits its width, variable ones 64 bits. */
  predicate Fitting(w: Wire)
  {
    && (forall i :: 0 <= i < |w.fixed| ==> w.fixed[i].value < Pow2(w.fixed[i].width))
    && (forall i :: 0 <= i < |w.vars| ==> w.vars[i] < UINT64)
  }

  function FixedBits(fixed: seq<FixedField>): seq<bool>
  {
    if fixed == [] then [] else ToBits(fixed[0].value, fixed[0].width) + FixedBits(fixed[1..])
  }

  /** A variable field with as few bits as hold it. */
  function VarBits(v: nat): seq<bool> { ToBits(v, MinBits(v, 64)) }

  /** Variable fields, the first of them after what it shares its slices with. */
  function Slices(head: seq<bool>, vars: seq<nat>): (slices: seq<byte>)
    requires vars != []
    ensures slices != []
    decreases |vars|
  {
    if |vars| == 1 then Pack(head + VarBits(vars[0]), MSEO_END)
    else Pack(head + VarBits(vars[0]), MSEO_VAR_END) + Slices([], vars[1..])
  }

  function Stamps(ts: Option<nat>): seq<nat> { if ts.Some? then [ts.value] else [] }

  /** The slices of a message, from a source, with or without a timestamp. */
  function Written(srcbits: nat, core: nat, w: Wire, ts: Option<nat>): seq<byte>
    requires w.tcode < 64 && w.vars != []
  {
    [4 * w.tcode] + Slices(ToBits(core, srcbits) + FixedBits(w.fixed), w.vars + Stamps(ts))
  }

  /**
   The one limit of the reader: the first variable field, if it needs all 64 bits, must not leave exactly one bit
   of its last slice.
   */
  predicate FirstFits(srcbits: nat, w: Wire)
    requires w.vars != []
  {
    w.vars[0] < 0x8000_0000_0000_0000 || (srcbits + |FixedBits(w.fixed)|) % 6 != 1
  }

  // ----- variable fields

  /** A field with the fewest bits: it has its value, and its top bit is set unless it is one bit long. */
  lemma VarBitsFacts(v: nat)
    requires v < UINT64
    ensures 1 <= |VarBits(v)| <= 64 && Value(VarBits(v)) == v
    ensures |VarBits(v)| == 64 <==> v >= 0x8000_0000_0000_0000
    ensures |VarBits(v)| > 1 ==> VarBits(v)[|VarBits(v)| - 1]
  {
    var n := MinBits(v, 64);
    MinBitsExact(v, 64);
    Pow2Constants();
    ModSmall(v, UINT64);
    ValueToBits(v, n);
    Pow2Halves(63);
    if n < 64 {
      Pow2Monotone(n, 63);
    }
    if n > 1 { TopSet(VarBits(v)); }
  }

  lemma Pow2Halves(n: nat)
    ensures Pow2(n + 1) == 2 * Pow2(n)
  {
  }

  /** A number of at least half the range has its top bit set. */
  lemma TopSet(bits: seq<bool>)
    requires bits != [] && Value(bits) >= Pow2(|bits| - 1)
    ensures bits[|bits| - 1]
  {
    var n := |bits| - 1;
    assert bits == bits[..n] + [bits[n]];
    ValueSnoc(bits[..n], bits[n]);
    ValueBound(bits[..n]);
  }

  lemma {:induction false} RestIsSuffix(bits: seq<bool>)
    ensures |bits| == 6 * |Whole(bits)| + |Rest(bits)| && Rest(bits) == bits[6 * |Whole(bits)|..]
  {
    if |bits| > 6 { RestIsSuffix(bits[6..]); }
  }

  /** The last slice of a field is large if and only if its fifth or sixth bit is set. */
  lemma LastSlice(rest: seq<bool>, mark: nat)
    requires 0 < |rest| <= 6 && mark < 4
    ensures |rest| <= 4 ==> Slice(rest, mark) < 64
    ensures |rest| >= 5 && rest[|rest| - 1] ==> Slice(rest, mark) >= 64
  {
    Pow2Constants();
    ValueBound(rest);
    if |rest| <= 4 {
      Pow2Monotone(|rest|, 4);
    } else if rest[|rest| - 1] {
      var n := |rest| - 1;
      assert rest == rest[..n] + [rest[n]];
      ValueSnoc(rest[..n], rest[n]);
      Pow2Monotone(4, n);
    }
  }

  /** When the overflow check passes the first variable field. */
  lemma FirstAccepted(head: seq<bool>, v: nat, mark: nat)
    requires v < UINT64 && (mark == MSEO_VAR_END || mark == MSEO_END)
    ensures var run := Pack(head + VarBits(v), mark);
            && |head| + |VarBits(v)| <= 6 * |run| < |head| + |VarBits(v)| + 6
            && (Accepted(6 * |run| - |head|, Last(run)) <==> v < 0x8000_0000_0000_0000 || |head| % 6 != 1)
  {
    hide Value, ToBits, MinBits, VarBits, Whole, Rest, Slice;
    VarBitsFacts(v);
    var bits := head + VarBits(v);
    RestIsSuffix(bits);
    assert Rest(bits) != [];
    LastSlice(Rest(bits), mark);
    assert Rest(bits)[|Rest(bits)| - 1] == bits[|bits| - 1] == VarBits(v)[|VarBits(v)| - 1];
    assert Last(Pack(bits, mark)) == Slice(Rest(bits), mark);
  }

  /** Such a field, found in a message. */
  lemma VarIsField(m: seq<byte>, p: nat, head: seq<bool>, v: nat, mark: nat)
    requires v < UINT64 && (mark == MSEO_VAR_END || mark == MSEO_END)
    requires At(m, p, Pack(head + VarBits(v), mark))
    ensures var from, q := 6 * p + |head|, 6 * (p + |Pack(head + VarBits(v), mark)|);
            && from < q <= 6 * |m| && FieldValue(m, from, q) == v && FieldBits(m)[6 * p..from] == head
            && Mseo(m[q / 6 - 1]) == mark && (forall i :: p <= i < q / 6 - 1 ==> Mseo(m[i]) == MSEO_NORMAL)
            && (IsField(m, VarField, from, q) <==> v < 0x8000_0000_0000_0000 || |head| % 6 != 1)
  {
    hide Value, ToBits, MinBits, VarBits, Pack, FieldBits;
    var bits := head + VarBits(v);
    var run := Pack(bits, mark);
    var from, q := 6 * p + |head|, 6 * (p + |run|);
    Codec.PackProperties(bits, mark);
    VarBitsFacts(v);
    FirstAccepted(head, v, mark);
    FieldInRun(m, p, run);
    var pad := Zeros(6 * |run| - |bits|);
    assert FieldBits(m)[6 * p..q] == (head + VarBits(v)) + pad;
    assert FieldBits(m)[6 * p..from] == FieldBits(m)[6 * p..q][..|head|] == head;
    assert FieldBits(m)[from..q] == FieldBits(m)[6 * p..q][|head|..] == VarBits(v) + pad;
    ValueZeroExtend(VarBits(v), |pad|);
    ModSmall(v, UINT64);
    forall i | p <= i < q / 6
      ensures m[i] == run[i - p]
    {
      assert m[p..p + |run|][i - p] == m[i];
    }
    assert m[q / 6 - 1] == Last(run);
  }

  lemma FieldInRun(m: seq<byte>, p: nat, run: seq<byte>)
    requires At(m, p, run)
    ensures FieldBits(m)[6 * p..6 * (p + |run|)] == FieldBits(run)
  {
    DecoderAgreement.FieldInside(m, p, run);
  }

  // ----- the cuts of a written message

  function Vars(n: nat): (kinds: seq<FieldKind>)
    ensures |kinds| == n
  {
    seq(n, _ => VarField)
  }

  /** Where the variable fields are cut. */
  lemma {:induction false} VarCuts(m: seq<byte>, p: nat, head: seq<bool>, vars: seq<nat>) returns (cuts: seq<nat>)
    requires p <= |m| && vars != [] && m[p..] == Slices(head, vars)
    requires forall i :: 0 <= i < |vars| ==> vars[i] < UINT64
    requires vars[0] < 0x8000_0000_0000_0000 || |head| % 6 != 1
    ensures Separates(m, 6 * p + |head|, Vars(|vars|), cuts) && cuts[|vars|] == 6 * |m| && Values(m, cuts) == vars
    decreases |vars|
  {
    hide IsField, FieldValue, VarBits, Pack, FieldBits, Mseo;
    var mark := if |vars| == 1 then MSEO_END else MSEO_VAR_END;
    var run := Pack(head + VarBits(vars[0]), mark);
    assert m[p..][..|run|] == run;
    VarIsField(m, p, head, vars[0], mark);
    var from, q := 6 * p + |head|, 6 * (p + |run|);
    if |vars| == 1 {
      cuts := [from, q];
      assert Values(m, cuts) == [FieldValue(m, from, q)];
    } else {
      assert m[p + |run|..] == m[p..][|run|..] == Slices([], vars[1..]);
      var rest := VarCuts(m, p + |run|, [], vars[1..]);
      cuts := [from] + rest;
      CutsOneMore(m, from, VarField, Vars(|vars| - 1), rest);
      assert Vars(|vars|) == [VarField] + Vars(|vars| - 1);
    }
  }

  /** One more field at the front. */
  lemma CutsOneMore(m: seq<byte>, p: nat, kind: FieldKind, kinds: seq<FieldKind>, rest: seq<nat>)
    requires rest != [] && IsField(m, kind, p, rest[0]) && Separates(m, rest[0], kinds, rest)
    ensures Separates(m, p, [kind] + kinds, [p] + rest)
    ensures Values(m, [p] + rest) == [FieldValue(m, p, rest[0])] + Values(m, rest)
  {
    hide IsField, FieldValue;
    var cuts := [p] + rest;
    forall k | 0 <= k < |[kind] + kinds|
      ensures IsField(m, ([kind] + kinds)[k], cuts[k], cuts[k + 1])
    {
      if k > 0 { assert cuts[k] == rest[k - 1] && cuts[k + 1] == rest[k]; }
    }
  }

  function KindOf(f: FixedField): FieldKind { if f.width == 2 then TwoBits else FourBits }

  function KindsOf(fixed: seq<FixedField>): (kinds: seq<FieldKind>)
    ensures |kinds| == |fixed|
  {
    if fixed == [] then [] else [KindOf(fixed[0])] + KindsOf(fixed[1..])
  }

  function ValuesOf(fixed: seq<FixedField>): (values: seq<nat>)
    ensures |values| == |fixed|
  {
    if fixed == [] then [] else [fixed[0].value] + ValuesOf(fixed[1..])
  }

  /** Where the fixed fields are cut. */
  lemma {:induction false} FixedCuts(m: seq<byte>, p: nat, fixed: seq<FixedField>) returns (cuts: seq<nat>)
    requires p + |FixedBits(fixed)| < 6 * |m| && FieldBits(m)[p..p + |FixedBits(fixed)|] == FixedBits(fixed)
    requires forall i :: 0 <= i < |fixed| ==> fixed[i].width in {2, 4} && fixed[i].value < Pow2(fixed[i].width)
    ensures Separates(m, p, KindsOf(fixed), cuts) && cuts[|fixed|] == p + |FixedBits(fixed)|
    ensures Values(m, cuts) == ValuesOf(fixed)
    decreases |fixed|
  {
    hide FieldValue, Value, ToBits, Pow2, FieldBits;
    if fixed == [] {
      cuts := [p];
    } else {
      var f, q, rest := fixed[0], p + fixed[0].width, FixedBits(fixed[1..]);
      Stretch(FieldBits(m), p, ToBits(f.value, f.width), rest);
      FixedValue(m, p, f);
      var later := FixedCuts(m, q, fixed[1..]);
      cuts := [p] + later;
      CutsOneMore(m, p, KindOf(f), KindsOf(fixed[1..]), later);
    }
  }

  /** A stretch of bits in two parts. */
  lemma Stretch(bits: seq<bool>, p: nat, a: seq<bool>, b: seq<bool>)
    requires p + |a| + |b| <= |bits| && bits[p..p + |a| + |b|] == a + b
    ensures bits[p..p + |a|] == a && bits[p + |a|..p + |a| + |b|] == b
  {
    var all := bits[p..p + |a| + |b|];
    assert bits[p..p + |a|] == all[..|a|] && bits[p + |a|..p + |a| + |b|] == all[|a|..];
  }

  lemma FixedValue(m: seq<byte>, p: nat, f: FixedField)
    requires p + f.width <= 6 * |m| && FieldBits(m)[p..p + f.width] == ToBits(f.value, f.width)
    requires f.value < Pow2(f.width) && f.width <= 64
    ensures FieldValue(m, p, p + f.width) == f.value
  {
    hide Value, ToBits, FieldBits;
    ValueToBits(f.value, f.width);
    ModSmall(f.value, Pow2(f.width));
    Pow2Monotone(f.width, 64);
    Pow2Constants();
    ModSmall(f.value, UINT64);
  }

  /** Only the last slice of a message ends it. */
  lemma {:induction false} SlicesShape(head: seq<bool>, vars: seq<nat>)
    requires vars != []
    ensures var b := Slices(head, vars);
            Mseo(Last(b)) == MSEO_END && forall i :: 0 <= i < |b| - 1 ==> Mseo(b[i]) != MSEO_END
    decreases |vars|
  {
    hide VarBits, Pack, Mseo;
    var mark := if |vars| == 1 then MSEO_END else MSEO_VAR_END;
    var run := Pack(head + VarBits(vars[0]), mark);
    Codec.PackProperties(head + VarBits(vars[0]), mark);
    if |vars| > 1 {
      SlicesShape([], vars[1..]);
      var b, rest := Slices(head, vars), Slices([], vars[1..]);
      assert b == run + rest;
      assert Last(b) == Last(rest);
      forall i | 0 <= i < |b| - 1
        ensures Mseo(b[i]) != MSEO_END
      {
        if i < |run| - 1 {
          assert b[i] == run[i];
        } else if i == |run| - 1 {
          assert b[i] == Last(run);
        } else {
          assert b[i] == rest[i - |run|];
        }
      }
    }
  }

  lemma WrittenIsMessage(srcbits: nat, core: nat, w: Wire, ts: Option<nat>)
    requires 2 <= w.tcode < 64 && w.vars != []
    ensures var m := Written(srcbits, core, w, ts); IsMessage(m) && Mdo(m[0]) == w.tcode
  {
    hide Slices;
    var head := ToBits(core, srcbits) + FixedBits(w.fixed);
    SlicesShape(head, w.vars + Stamps(ts));
    var m, b := Written(srcbits, core, w, ts), Slices(head, w.vars + Stamps(ts));
    assert Last(m) == Last(b);
    forall i | 0 <= i < |m| - 1
      ensures Mseo(m[i]) != MSEO_END
    {
      if i > 0 { assert m[i] == b[i - 1]; }
    }
  }

  /** What stands before the first variable field of a written message. */
  lemma WrittenHead(srcbits: nat, core: nat, w: Wire, ts: Option<nat>)
    requires w.tcode < 64 && w.vars != [] && Fitting(w)
    ensures var m, h := Written(srcbits, core, w, ts), 6 + srcbits + |FixedBits(w.fixed)|;
            && h < 6 * |m| && FieldBits(m)[6..6 + srcbits] == ToBits(core, srcbits)
            && FieldBits(m)[6 + srcbits..h] == FixedBits(w.fixed)
            && (exists q :: IsField(m, VarField, h, q)) == FirstFits(srcbits, w)
  {
    hide Value, ToBits, VarBits, Pack, FieldBits, IsField, FixedBits, FieldValue, Mseo;
    var vars := w.vars + Stamps(ts);
    var m, head := Written(srcbits, core, w, ts), ToBits(core, srcbits) + FixedBits(w.fixed);
    var h, mark := 6 + |head|, if |vars| == 1 then MSEO_END else MSEO_VAR_END;
    var run := Pack(head + VarBits(vars[0]), mark);
    assert m[1..][..|run|] == run;
    VarIsField(m, 1, head, vars[0], mark);
    assert FieldBits(m)[6..h] == head;
    assert FieldBits(m)[6..6 + srcbits] == head[..srcbits] && FieldBits(m)[6 + srcbits..h] == head[srcbits..];
    if q :| IsField(m, VarField, h, q) {
      OneEnd(m, h, q, 6 * (1 + |run|));
    }
  }

  /** A variable field can only end in one place: with the first mark. */
  lemma OneEnd(m: seq<byte>, p: nat, q: nat, end: nat)
    requires IsField(m, VarField, p, q)
    requires p < end <= 6 * |m| && end % 6 == 0 && Mseo(m[end / 6 - 1]) != MSEO_NORMAL
    requires forall i :: p / 6 <= i < end / 6 - 1 ==> Mseo(m[i]) == MSEO_NORMAL
    ensures q == end
  {
    hide Mseo, Accepted;
  }

  /** A written message is cut into its fields. */
  lemma WrittenCuts(srcbits: nat, core: nat, w: Wire, ts: Option<nat>) returns (cuts: seq<nat>)
    requires 2 <= w.tcode < 64 && w.vars != [] && Fitting(w) && FirstFits(srcbits, w)
    requires ts.Some? ==> ts.value < UINT64
    requires forall i :: 0 <= i < |w.fixed| ==> w.fixed[i].width in {2, 4}
    ensures var m, vars := Written(srcbits, core, w, ts), w.vars + Stamps(ts);
            && Separates(m, 6 + srcbits, KindsOf(w.fixed) + Vars(|vars|), cuts)
            && cuts[|w.fixed| + |vars|] == 6 * |m| && Values(m, cuts) == ValuesOf(w.fixed) + vars
  {
    hide VarBits, Pack, FieldBits, IsField, FieldValue, Mseo, Slices, FixedBits, Separates, Values, Fitting, FirstFits;
    var m, vars := Written(srcbits, core, w, ts), w.vars + Stamps(ts);
    var head := ToBits(core, srcbits) + FixedBits(w.fixed);
    WrittenHead(srcbits, core, w, ts);
    FittingValues(srcbits, w, ts);
    var first := FixedCuts(m, 6 + srcbits, w.fixed);
    CutsLength(m, 6 + srcbits, KindsOf(w.fixed), first);
    assert m[1..] == Slices(head, vars);
    var later := VarCuts(m, 1, head, vars);
    CutsLength(m, 6 + |head|, Vars(|vars|), later);
    ChainJoin(m, 6 + srcbits, KindsOf(w.fixed), Vars(|vars|), first, later);
    cuts := first + later[1..];
    ValuesSplit(m, cuts, |w.fixed|);
  }

  lemma FittingValues(srcbits: nat, w: Wire, ts: Option<nat>)
    requires Fitting(w) && w.vars != [] && (ts.Some? ==> ts.value < UINT64)
    ensures forall i :: 0 <= i < |w.fixed| ==> w.fixed[i].value < Pow2(w.fixed[i].width)
    ensures forall i :: 0 <= i < |w.vars + Stamps(ts)| ==> (w.vars + Stamps(ts))[i] < UINT64
    ensures FirstFits(srcbits, w) ==>
              w.vars[0] < 0x8000_0000_0000_0000 || |ToBits(0, srcbits) + FixedBits(w.fixed)| % 6 != 1
  {
    hide FixedBits, ToBits, Pow2;
  }

  // ----- the fields that are prescribed

  /** The fields that a code prescribes beyond those that every message of the kind has. */
  function MoreOf(t: TraceMessage): seq<FieldKind>
  {
    match t
    case Correlation(_, cdf, _, _) => if cdf == 0 then [] else [VarField]
    case InCircuitTrace(_, ckdf, _, _) => if ckdf == 0 then [VarField] else [VarField, VarField]
    case InCircuitTraceWS(_, ckdf, _, _) => if ckdf == 0 then [VarField] else [VarField, VarField]
    case _ => []
  }

  lemma FewKinds(fixed: seq<FixedField>)
    ensures |fixed| == 1 ==> KindsOf(fixed) == [KindOf(fixed[0])] && ValuesOf(fixed) == [fixed[0].value]
    ensures |fixed| == 2 ==> KindsOf(fixed) == [KindOf(fixed[0]), KindOf(fixed[1])]
    ensures |fixed| == 2 ==> ValuesOf(fixed) == [fixed[0].value, fixed[1].value]
  {
    if |fixed| == 2 {
      assert KindsOf(fixed[1..]) == [KindOf(fixed[1])] && ValuesOf(fixed[1..]) == [fixed[1].value];
    }
  }

  /** The prescribed fields of each kind of message are those it is written with. */
  lemma PrescribedFields(t: TraceMessage)
    ensures var w := OnWire(t);
            && Base(w.tcode).Some?
            && Base(w.tcode).value + MoreOf(t) == KindsOf(w.fixed) + Vars(|w.vars|)
  {
    hide KindsOf, ValuesOf;
    FewKinds(OnWire(t).fixed);
  }

  /** The codes among the first fields prescribe the others, or are refused. */
  lemma PrescribedMore(t: TraceMessage)
    ensures var w := OnWire(t);
            && Base(w.tcode).Some? && |Base(w.tcode).value| <= |w.fixed| + |w.vars|
            && MoreFields(w.tcode, (ValuesOf(w.fixed) + w.vars)[..|Base(w.tcode).value|])
               == if Allowed(t) then Some(MoreOf(t)) else None
  {
    hide KindsOf, ValuesOf;
    FewKinds(OnWire(t).fixed);
  }

  /** What is stored of the values is what should be kept of the fields. */
  lemma StoredIsKept(t: TraceMessage)
    requires Fitting(OnWire(t))
    ensures var w := OnWire(t); Stored(w.tcode, ValuesOf(w.fixed) + w.vars) == Kept(t)
  {
    hide KindsOf, ValuesOf, Pow2, Stored, RoomFor;
    var w := OnWire(t);
    FewKinds(w.fixed);
    assert forall i :: 0 <= i < |w.fixed| ==> w.fixed[i].value < 16 by { Pow2Constants(); }
    var values := ValuesOf(w.fixed) + w.vars;
    forall i | 0 <= i < |values|
      ensures values[i] % Pow2(RoomFor(w.tcode, values, i)) == Kept(t)[i]
    {
      OneKept(t, w, values, i);
    }
    StoredPointwise(w.tcode, values, Kept(t));
  }

  lemma StoredPointwise(tcode: nat, values: seq<nat>, kept: seq<nat>)
    requires |kept| == |values|
    requires forall i :: 0 <= i < |values| ==> values[i] % Pow2(RoomFor(tcode, values, i)) == kept[i]
    ensures Stored(tcode, values) == kept
  {
    hide RoomFor, Pow2;
  }

  lemma OneKept(t: TraceMessage, w: Wire, values: seq<nat>, i: nat)
    requires w == OnWire(t) && i < |values| == |Kept(t)|
    requires forall k :: 0 <= k < |w.vars| ==> w.vars[k] < UINT64
    requires forall k :: 0 <= k < |w.fixed| ==> w.fixed[k].value < 16
    requires values == (if |w.fixed| == 0 then [] else if |w.fixed| == 1 then [w.fixed[0].value]
                        else [w.fixed[0].value, w.fixed[1].value]) + w.vars
    ensures values[i] % Pow2(RoomFor(w.tcode, values, i)) == Kept(t)[i]
  {
    hide Pow2;
    Pow2Constants();
    Pow2Zero();
    Pow2Add(32, 5);
    assert Pow2(37) == 0x20_0000_0000;
    assert values[i] < UINT64;
    ModSmall(values[i], UINT64);
  }

  lemma Pow2Zero()
    ensures Pow2(0) == 1
  {
  }

  // ----- read back

  /** The report that a message deserves. */
  function Deserved(srcbits: nat, core: nat, t: TraceMessage, ts: Option<nat>): Report
  {
    OtherMessage(Parsed(OnWire(t).tcode, core % Pow2(srcbits) % 256, Kept(t),
                        ts.Some?, if ts.Some? then ts.value else 0))
  }

  /**
   Every message with allowed codes is read back: its source cut to the core number, its fields as far as there is
   room for them, and its timestamp if it has one; except that the first variable field must fit.
   */
  lemma ReadBack(srcbits: nat, core: nat, t: TraceMessage, ts: Option<nat>)
    requires srcbits <= 64 && Fitting(OnWire(t)) && (ts.Some? ==> ts.value < UINT64)
    requires Allowed(t) && FirstFits(srcbits, OnWire(t))
    ensures ParseMessage(srcbits, Written(srcbits, core, OnWire(t), ts)) == Deserved(srcbits, core, t, ts)
  {
    hide Written, Fitting, FirstFits, Base, MoreFields, Values, Stored, OnWire, Kept, MoreOf, ParseMessage, Separates,
         IsMessage, CoreOf, Readable;
    var w := OnWire(t);
    var m := Written(srcbits, core, w, ts);
    WrittenIsMessage(srcbits, core, w, ts);
    MessageNotEmpty(m);
    var cuts := WrittenCuts(srcbits, core, w, ts);
    var vars := w.vars + Stamps(ts);
    PrescribedFields(t);
    PrescribedMore(t);
    var base, r := Base(w.tcode).value, Reading(MoreOf(t), ts.Some?, cuts);
    SameKinds(base + MoreOf(t), w, ts);
    assert Values(m, cuts)[..|base|] == (ValuesOf(w.fixed) + w.vars)[..|base|];
    CutsLength(m, 6 + srcbits, base + MoreOf(t) + Stamp(ts.Some?), cuts);
    assert IsReading(srcbits, m, r);
    AcceptedExactly(srcbits, m);
    WrittenCore(srcbits, core, w, ts);
    StoredIsKept(t);
    MessageOfWritten(srcbits, m, r, w, ts);
  }

  lemma MessageNotEmpty(m: seq<byte>)
    requires IsMessage(m)
    ensures m != []
  {
  }

  lemma CutsLength(m: seq<byte>, p: nat, kinds: seq<FieldKind>, cuts: seq<nat>)
    requires Separates(m, p, kinds, cuts)
    ensures |cuts| == |kinds| + 1
  {
  }

  lemma SameKinds(kinds: seq<FieldKind>, w: Wire, ts: Option<nat>)
    requires kinds == KindsOf(w.fixed) + Vars(|w.vars|)
    ensures kinds + Stamp(ts.Some?) == KindsOf(w.fixed) + Vars(|w.vars + Stamps(ts)|)
  {
  }

  lemma MessageOfWritten(srcbits: nat, m: seq<byte>, r: Reading, w: Wire, ts: Option<nat>)
    requires m != [] && IsReading(srcbits, m, r) && Mdo(m[0]) == w.tcode != TCODE_DATA_ACQUISITION
    requires r.stamped == ts.Some? && Values(m, r.cuts) == ValuesOf(w.fixed) + (w.vars + Stamps(ts))
    ensures MessageOf(srcbits, m, r)
         == OtherMessage(Parsed(w.tcode, CoreOf(srcbits, m), Stored(w.tcode, ValuesOf(w.fixed) + w.vars), ts.Some?,
                                if ts.Some? then ts.value else 0))
  {
    hide Values, Stored, IsReading, CoreOf;
    var values := Values(m, r.cuts);
    var n := |values| - if r.stamped then 1 else 0;
    assert values[..n] == ValuesOf(w.fixed) + w.vars;
  }

  lemma WrittenCore(srcbits: nat, core: nat, w: Wire, ts: Option<nat>)
    requires srcbits <= 64 && w.tcode < 64 && w.vars != [] && Fitting(w)
    ensures CoreOf(srcbits, Written(srcbits, core, w, ts)) == core % Pow2(srcbits) % 256
  {
    hide Written, Fitting, ToBits, Value, FieldBits;
    var m := Written(srcbits, core, w, ts);
    WrittenHead(srcbits, core, w, ts);
    ValueToBits(core, srcbits);
    Pow2Monotone(srcbits, 64);
    Pow2Constants();
    ModSmall(core % Pow2(srcbits), UINT64);
  }

  // ----- refused

  lemma FieldEnds(m: seq<byte>, kind: FieldKind, p: nat, q: nat, end: nat)
    requires IsField(m, kind, p, q) && IsField(m, kind, p, end)
    ensures q == end
  {
    if kind == VarField { OneEnd(m, p, q, end); }
  }

  /** There is at most one way to cut. */
  lemma {:induction false} OneWay(m: seq<byte>, p: nat, kinds: seq<FieldKind>, a: seq<nat>, b: seq<nat>)
    requires Separates(m, p, kinds, a) && Separates(m, p, kinds, b)
    ensures a == b
    decreases |kinds|
  {
    hide IsField;
    if kinds != [] {
      assert IsField(m, kinds[0], a[0], a[1]) && IsField(m, kinds[0], b[0], b[1]);
      FieldEnds(m, kinds[0], p, a[1], b[1]);
      OneWay(m, a[1], kinds[1..], a[1..], b[1..]);
      assert a == [a[0]] + a[1..] && b == [b[0]] + b[1..];
    }
  }

  /** The cuts of the fields that every message of the kind has. */
  lemma ReadingBase(srcbits: nat, m: seq<byte>, r: Reading, base: seq<FieldKind>)
    requires m != [] && IsReading(srcbits, m, r) && Base(Mdo(m[0])) == Some(base)
    ensures |base| < |r.cuts| && Separates(m, 6 + srcbits, base, r.cuts[..|base| + 1])
    ensures MoreFields(Mdo(m[0]), Values(m, r.cuts[..|base| + 1])) == Some(r.more)
  {
    hide IsField, MoreFields, Values, Base;
    assert base + r.more + Stamp(r.stamped) == base + (r.more + Stamp(r.stamped));
    ChainSplit(m, 6 + srcbits, base, r.more + Stamp(r.stamped), r.cuts);
    assert Values(m, r.cuts)[..|base|] == Values(m, r.cuts[..|base| + 1]);
  }

  /** A message with a code that is not allowed has no reading. */
  lemma BadCode(srcbits: nat, core: nat, t: TraceMessage, ts: Option<nat>, r: Reading)
    requires Fitting(OnWire(t)) && (ts.Some? ==> ts.value < UINT64) && FirstFits(srcbits, OnWire(t))
    requires Written(srcbits, core, OnWire(t), ts) != [] && IsReading(srcbits, Written(srcbits, core, OnWire(t), ts), r)
    ensures Allowed(t)
  {
    hide Written, Fitting, FirstFits, Base, MoreFields, Values, OnWire, Allowed, MoreOf, Separates, IsReading;
    var w := OnWire(t);
    var m := Written(srcbits, core, w, ts);
    WrittenIsMessage(srcbits, core, w, ts);
    PrescribedFields(t);
    PrescribedMore(t);
    var base := Base(w.tcode).value;
    ReadingBase(srcbits, m, r, base);
    var cuts := WrittenCuts(srcbits, core, w, ts);
    SameKinds(base + MoreOf(t), w, ts);
    var rest := MoreOf(t) + Stamp(ts.Some?);
    assert base + MoreOf(t) + Stamp(ts.Some?) == base + rest;
    ChainSplit(m, 6 + srcbits, base, rest, cuts);
    OneWay(m, 6 + srcbits, base, cuts[..|base| + 1], r.cuts[..|base| + 1]);
    assert Values(m, cuts)[..|base|] == Values(m, cuts[..|base| + 1]);
    assert (ValuesOf(w.fixed) + (w.vars + Stamps(ts)))[..|base|] == (ValuesOf(w.fixed) + w.vars)[..|base|];
  }

  /** After its fixed fields, every kind of message has a variable one. */
  lemma VariableNext(t: TraceMessage, values: seq<nat>, more: seq<FieldKind>, stamped: bool)
    requires Base(OnWire(t).tcode).Some? && MoreFields(OnWire(t).tcode, values) == Some(more)
    ensures var w, kinds := OnWire(t), Base(OnWire(t).tcode).value + more + Stamp(stamped);
            |kinds| > |w.fixed| && kinds[|w.fixed|] == VarField && kinds[..|w.fixed|] == KindsOf(w.fixed)
  {
    hide KindsOf, ValuesOf;
    FewKinds(OnWire(t).fixed);
  }

  /** A message whose first variable field does not fit has no reading. */
  lemma TooWide(srcbits: nat, core: nat, t: TraceMessage, ts: Option<nat>, r: Reading)
    requires Fitting(OnWire(t))
    requires Written(srcbits, core, OnWire(t), ts) != [] && IsReading(srcbits, Written(srcbits, core, OnWire(t), ts), r)
    ensures FirstFits(srcbits, OnWire(t))
  {
    hide Written, Fitting, FirstFits, Base, MoreFields, Values, OnWire, FieldBits, FixedBits, IsField, KindsOf;
    var w := OnWire(t);
    var m := Written(srcbits, core, w, ts);
    var n, h := |w.fixed|, 6 + srcbits + |FixedBits(w.fixed)|;
    WrittenIsMessage(srcbits, core, w, ts);
    WrittenHead(srcbits, core, w, ts);
    var kinds := Base(w.tcode).value + r.more + Stamp(r.stamped);
    VariableNext(t, Values(m, r.cuts)[..|Base(w.tcode).value|], r.more, r.stamped);
    assert kinds == kinds[..n] + kinds[n..];
    ChainSplit(m, 6 + srcbits, kinds[..n], kinds[n..], r.cuts);
    FittingFixed(w);
    var first := FixedCuts(m, 6 + srcbits, w.fixed);
    OneWay(m, 6 + srcbits, KindsOf(w.fixed), first, r.cuts[..n + 1]);
    assert r.cuts[n] == first[n] == h;
    assert IsField(m, kinds[n], r.cuts[n], r.cuts[n + 1]);
  }

  lemma FittingFixed(w: Wire)
    requires Fitting(w)
    ensures forall i :: 0 <= i < |w.fixed| ==> w.fixed[i].value < Pow2(w.fixed[i].width)
  {
  }

  /** A message is refused if and only if one of its codes is not allowed or its first variable field does not fit. */
  lemma RefusedExactly(srcbits: nat, core: nat, t: TraceMessage, ts: Option<nat>)
    requires srcbits <= 64 && Fitting(OnWire(t)) && (ts.Some? ==> ts.value < UINT64)
    ensures ParseMessage(srcbits, Written(srcbits, core, OnWire(t), ts)).Bad?
       <==> !Allowed(t) || !FirstFits(srcbits, OnWire(t))
  {
    hide Written, Fitting, FirstFits, Base, OnWire, Allowed, IsReading, ParseMessage, Kept, IsMessage;
    var m := Written(srcbits, core, OnWire(t), ts);
    if Allowed(t) && FirstFits(srcbits, OnWire(t)) {
      ReadBack(srcbits, core, t, ts);
    } else {
      WrittenIsMessage(srcbits, core, OnWire(t), ts);
      MessageNotEmpty(m);
      PrescribedFields(t);
      AcceptedExactly(srcbits, m);
      if r :| IsReading(srcbits, m, r) {
        TooWide(srcbits, core, t, ts, r);
        BadCode(srcbits, core, t, ts, r);
      }
    }
  }

  // ----- the kinds

  /** Whether there is a parser depends on the TCODE alone. */
  lemma ParsersExactly(srcbits: nat, m: seq<byte>)
    requires |m| >= 2
    ensures ParseMessage(srcbits, m).Unsupported?
       <==> Mdo(m[0]) !in {2, 3, 4, 7, 8, 9, 11, 12, 23, 27, 28, 29, 33, 34, 35}
  {
    hide Value, FieldBits, ParseSource, ParseOther;
    FirstSlice(m);
  }
}

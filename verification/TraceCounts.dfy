/** From the bytes of a trace message to the branch outcomes it brings: the parsers and the counts together. */
module TraceCounts {
  import opened Bits
  import opened NexusWire
  import opened FieldReader
  import opened MessageRoundTrip
  import opened BranchCounts

  /** A value of a parsed message; every kind of message has as many as its own case looks at. */
  function FieldAt(m: Parsed, i: nat): nat { if i < |m.fields| then m.fields[i] else 0 }

  /** What setCounts sees of a parsed message: the switch on the TCODE. */
  function CountMessage(m: Parsed): Message
  {
    match m.tcode
    case 2 | 8 | 23 | 34 | 35 => NoCounts
    case 3 => InstructionCount(AsInt(FieldAt(m, 0)))
    case 4 | 9 | 11 => InstructionCount(AsInt(FieldAt(m, 1)))
    case 12 => InstructionCount(AsInt(FieldAt(m, 2)))
    case 27 =>
      var n := FieldAt(m, 1);
      BranchCounts.ResourceFull(FieldAt(m, 0), AsInt(n), ToBits(n, 64), n, n)
    case 28 => BranchHistory(AsInt(FieldAt(m, 1)), ToBits(FieldAt(m, 3), 64))
    case 29 => BranchHistory(AsInt(FieldAt(m, 2)), ToBits(FieldAt(m, 4), 64))
    case 33 => BranchCounts.Correlation(AsInt(FieldAt(m, 2)), FieldAt(m, 1), ToBits(FieldAt(m, 3), 64))
    case _ => BranchCounts.Unsupported
  }

  /** The effect of a frame on the counts of its core; None if it is not a message of these kinds. */
  function SetByFrame(srcbits: nat, frame: seq<byte>, p: Pool): Option<(Pool, bool)>
  {
    var r := ParseMessage(srcbits, frame);
    if r.OtherMessage? then Some(Set(p, CountMessage(r.m))) else None
  }

  /** A message that is read back acts by what is kept of it. */
  lemma SetByMessage(srcbits: nat, core: nat, t: TraceMessage, ts: Option<nat>, p: Pool)
    requires srcbits <= 64 && Fitting(OnWire(t)) && (ts.Some? ==> ts.value < UINT64)
    requires Allowed(t) && FirstFits(srcbits, OnWire(t))
    ensures SetByFrame(srcbits, Written(srcbits, core, OnWire(t), ts), p)
         == Some(Set(p, CountMessage(Deserved(srcbits, core, t, ts).m)))
  {
    hide ParseMessage, Written, Fitting, FirstFits, Set, CountMessage;
    ReadBack(srcbits, core, t, ts);
  }

  // ----- histories

  /** The outcomes of a history: the bits below its stop bit s, the highest first. */
  function OutcomesOf(history: nat, s: nat): (outcomes: seq<bool>)
    ensures |outcomes| == s
    ensures forall k :: 0 <= k < s ==> outcomes[k] == ((history / Pow2(s - 1 - k)) % 2 == 1)
  {
    seq(s, k requires 0 <= k < s => (history / Pow2(s - 1 - k)) % 2 == 1)
  }

  /** A bit of a number. */
  lemma {:induction false} BitOf(v: nat, n: nat, i: nat)
    requires i < n
    ensures ToBits(v, n)[i] == ((v / Pow2(i)) % 2 == 1)
  {
    if i > 0 {
      BitOf(v / 2, n - 1, i - 1);
      DivModTwice(v, 2, Pow2(i - 1));
    }
  }

  lemma HistoryWord(history: nat, s: nat)
    requires s <= 31 && Pow2(s) <= history < Pow2(s + 1)
    ensures var h := ToBits(history, 64);
            && h[s] && (forall i :: s < i < 64 ==> !h[i]) && Below(h, s) == OutcomesOf(history, s)
  {
    hide ToBits, Pow2;
    var h := ToBits(history, 64);
    BitOf(history, 64, s);
    TopBitIs(history, s);
    forall i | s < i < 64
      ensures !h[i]
    {
      BitOf(history, 64, i);
      Pow2Monotone(s + 1, i);
      DivModUnique(history, Pow2(i), 0, history);
    }
    forall k | 0 <= k < s
      ensures Below(h, s)[k] == OutcomesOf(history, s)[k]
    {
      BitOf(history, 64, s - 1 - k);
    }
  }

  lemma TopBitIs(history: nat, s: nat)
    requires Pow2(s) <= history < Pow2(s + 1)
    ensures history / Pow2(s) == 1
  {
    assert Pow2(s + 1) == 2 * Pow2(s);
    DivModUnique(history, Pow2(s), 1, history - Pow2(s));
  }

  /**
   The four kinds of message that bring a history, on a core with nothing pending: from the bytes on, exactly the
   bits below the stop bit are handed out as branch outcomes, and the instruction count is added.
   */
  lemma HistoryThroughTrace(srcbits: nat, core: nat, t: TraceMessage, ts: Option<nat>, p: Pool, history: nat, s: nat)
    requires srcbits <= 64 && Fitting(OnWire(t)) && (ts.Some? ==> ts.value < UINT64) && FirstFits(srcbits, OnWire(t))
    requires || (t.IndirectHistory? && t.history == history)
             || (t.IndirectHistoryWS? && t.history == history)
             || (t.Correlation? && t.cdf == 1 && t.history == history)
             || (t.ResourceFull? && t.rCode == 1 && t.resource == history)
    requires s <= 31 && Pow2(s) <= history < Pow2(s + 1) && Idle(p)
    ensures var r := SetByFrame(srcbits, Written(srcbits, core, OnWire(t), ts), p);
            && r.Some? && r.value.1 && HandsOut(r.value.0, OutcomesOf(history, s))
            && r.value.0.iCnt == p.iCnt + if t.ResourceFull? then 0 else AsInt(t.iCnt)
  {
    hide SetByFrame, Written, FirstFits, HandsOut, Set, ToBits, Idle, Pow2, AsInt;
    SetByMessage(srcbits, core, t, ts, p);
    HistoryWord(history, s);
    var i := if t.ResourceFull? then 0 else AsInt(t.iCnt);
    if !t.ResourceFull? { AsIntOfKept(t.iCnt); }
    HistoryBrings(p, CountMessage(Deserved(srcbits, core, t, ts).m), i, ToBits(history, 64), s);
  }

  lemma AsIntOfKept(n: nat)
    ensures AsInt(n % 0x1_0000_0000) == AsInt(n)
  {
  }

  // ----- counts

  /** Resource full messages with a count: so many branches not taken, or taken. */
  lemma CountsThroughTrace(srcbits: nat, core: nat, n: nat, ts: Option<nat>, p: Pool)
    requires srcbits <= 64 && n < 0x8000_0000 && (ts.Some? ==> ts.value < UINT64) && Idle(p)
    ensures var t := MessageRoundTrip.ResourceFull(8, n);
            var r := SetByFrame(srcbits, Written(srcbits, core, OnWire(t), ts), p);
            r.Some? && r.value.1 && HandsOut(r.value.0, seq(n, _ => false)) && r.value.0.iCnt == p.iCnt
    ensures var t := MessageRoundTrip.ResourceFull(9, n);
            var r := SetByFrame(srcbits, Written(srcbits, core, OnWire(t), ts), p);
            r.Some? && r.value.1 && HandsOut(r.value.0, seq(n, _ => true)) && r.value.0.iCnt == p.iCnt
  {
    hide SetByFrame, Written, HandsOut, Set, ToBits, Idle, Pow2, AsInt, FixedBits;
    Pow2Constants();
    SetByMessage(srcbits, core, MessageRoundTrip.ResourceFull(8, n), ts, p);
    SetByMessage(srcbits, core, MessageRoundTrip.ResourceFull(9, n), ts, p);
    ResourceFullBrings(p, AsInt(n), ToBits(n, 64), n, n);
  }

  /** The instruction count of a message that brings no branch outcomes, if it has one. */
  function Instructions(t: TraceMessage): Option<nat>
  {
    match t
    case DirectBranch(iCnt) => Some(iCnt)
    case IndirectBranch(_, iCnt, _) => Some(iCnt)
    case Sync(_, iCnt, _) => Some(iCnt)
    case DirectBranchWS(_, iCnt, _) => Some(iCnt)
    case IndirectBranchWS(_, _, iCnt, _) => Some(iCnt)
    case ResourceFull(rCode, n) => if rCode == 0 then Some(n) else None
    case Correlation(_, cdf, iCnt, _) => if cdf == 0 then Some(iCnt) else None
    case _ => None
  }

  /** Messages without a history or a branch count add their instructions, or nothing, and leave all else alone. */
  lemma InstructionsThroughTrace(srcbits: nat, core: nat, t: TraceMessage, ts: Option<nat>, p: Pool)
    requires srcbits <= 64 && Fitting(OnWire(t)) && (ts.Some? ==> ts.value < UINT64)
    requires FirstFits(srcbits, OnWire(t)) && Allowed(t)
    requires Instructions(t).Some? || t.OwnershipTrace? || t.Error? || t.AuxAccessWrite?
             || t.InCircuitTrace? || t.InCircuitTraceWS?
    ensures SetByFrame(srcbits, Written(srcbits, core, OnWire(t), ts), p)
         == Some((p.(iCnt := p.iCnt + if Instructions(t).Some? then AsInt(Instructions(t).value) else 0), true))
  {
    hide SetByFrame, Written, FirstFits, ToBits, Pow2, AsInt, Fitting;
    SetByMessage(srcbits, core, t, ts, p);
    if Instructions(t).Some? { AsIntOfKept(Instructions(t).value); }
    OthersBringNothing(p, if Instructions(t).Some? then AsInt(Instructions(t).value) else 0, 0,
                       ToBits(if t.Correlation? then t.history else 0, 64), 0);
  }
}

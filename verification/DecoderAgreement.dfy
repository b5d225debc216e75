/**
 The push decoder and the pull decoder read the same messages out of the same bytes, and the exact
 extent to which the pull decoder's 64-bit field reader is lossless.
 */
module DecoderAgreement {
  import opened Bits
  import opened NexusWire
  import opened MessageBuilder
  import opened PushDecoder
  import Codec = CodecRoundTrip
  import opened FieldReader
  import opened PullDecoder
  import opened Framing

  // ----- one field

  /** The run stands in the frame from slice p on. */
  predicate At(frame: seq<byte>, p: nat, run: seq<byte>)
  {
    p + |run| <= |frame| && frame[p..p + |run|] == run
  }

  /** The payload of a run, found inside the payload of the frame it stands in. */
  lemma FieldInside(frame: seq<byte>, p: nat, run: seq<byte>)
    requires At(frame, p, run)
    ensures FieldBits(frame)[6 * p..6 * (p + |run|)] == FieldBits(run)
  {
    var pre, post := frame[..p], frame[p + |run|..];
    assert frame == pre + run + post;
    FieldBitsAppend(pre, run);
    FieldBitsAppend(pre + run, post);
  }

  lemma {:induction false} RunEndIs(frame: seq<byte>, i: nat, j: nat)
    requires i <= j < |frame| && Mseo(frame[j]) != MSEO_NORMAL
    requires forall k :: i <= k < j ==> Mseo(frame[k]) == MSEO_NORMAL
    ensures RunEnd(frame, i) == j
    decreases j - i
  {
    if i < j { RunEndIs(frame, i + 1, j); }
  }

  lemma RunEndOfRun(frame: seq<byte>, p: nat, run: seq<byte>, i: nat, mark: nat)
    requires At(frame, p, run) && IsRun(run, mark) && mark != MSEO_NORMAL && i < |run|
    ensures RunEnd(frame, p + i) == p + |run| - 1 && frame[p + |run| - 1] == Last(run)
  {
    forall k | p <= k < p + |run| ensures frame[k] == run[k - p] { assert frame[k] == frame[p..p + |run|][k - p]; }
    RunEndIs(frame, p + i, p + |run| - 1);
  }

  /** What a variable field read of a run gives: `bits` are its payload bits. */
  function RunOutcome(bits: seq<bool>, next: nat, last: byte, eom: bool): Outcome
  {
    if Accepted(|bits|, last) then Got(Uint64(Value(bits)), |bits|, next, eom || Mseo(last) == MSEO_END)
    else Failed(ERR)
  }

  /** A variable field read from bit `skip` of a run that stands anywhere in a frame. */
  lemma VarOnRun(frame: seq<byte>, p: nat, run: seq<byte>, skip: nat, eom: bool, mark: nat, bits: seq<bool>)
    requires At(frame, p, run) && IsRun(run, mark) && mark != MSEO_NORMAL && skip < 6 * |run|
    requires bits == After(FieldBits(run), skip)
    ensures Var(frame, 6 * p + skip, eom) == RunOutcome(bits, 6 * (p + |run|), Last(run), eom)
  {
    hide Value, FieldBits, RunEnd, Var, ReadsRun, At, IsRun;
    RunFacts(frame, p, run, skip, mark, bits);
    VarIs(frame, 6 * p + skip, p + |run| - 1, Last(run), bits, eom);
  }

  /** What makes `Var` read the given bits from position `at`, in the run that ends with slice j. */
  predicate ReadsRun(frame: seq<byte>, at: nat, j: nat, last: byte, bits: seq<bool>)
  {
    && at / 6 <= j < |frame| && frame[j] == last && RunEnd(frame, at / 6) == j
    && FieldBits(frame)[at..6 * (j + 1)] == bits
  }

  lemma DivSix(p: nat, skip: nat)
    ensures (6 * p + skip) / 6 == p + skip / 6
  {
  }

  lemma BitsFromSkip(frame: seq<byte>, p: nat, run: seq<byte>, skip: nat)
    requires At(frame, p, run) && skip < 6 * |run|
    ensures FieldBits(frame)[6 * p + skip..6 * (p + |run|)] == After(FieldBits(run), skip)
  {
    FieldInside(frame, p, run);
    assert FieldBits(frame)[6 * p + skip..6 * (p + |run|)] == FieldBits(frame)[6 * p..6 * (p + |run|)][skip..];
  }

  lemma RunFacts(frame: seq<byte>, p: nat, run: seq<byte>, skip: nat, mark: nat, bits: seq<bool>)
    requires At(frame, p, run) && IsRun(run, mark) && mark != MSEO_NORMAL && skip < 6 * |run|
    requires bits == After(FieldBits(run), skip)
    ensures ReadsRun(frame, 6 * p + skip, p + |run| - 1, Last(run), bits)
  {
    DivSix(p, skip);
    RunEndOfRun(frame, p, run, skip / 6, mark);
    BitsFromSkip(frame, p, run, skip);
  }

  lemma VarIs(frame: seq<byte>, at: nat, j: nat, last: byte, bits: seq<bool>, eom: bool)
    ensures ReadsRun(frame, at, j, last, bits) ==> Var(frame, at, eom) == RunOutcome(bits, 6 * (j + 1), last, eom)
  {
    if ReadsRun(frame, at, j, last, bits) {
      assert |bits| == 6 * (j + 1) - at;
    }
  }

  // ----- one message

  /** Whether the pull decoder's overflow check passes every field of a message. */
  predicate AllAccepted(srcbits: nat, runs: seq<seq<byte>>)
    requires |runs| >= 1 && forall i :: 0 <= i < |runs| ==> runs[i] != []
  {
    && Accepted(6 * |runs[0]| - srcbits, Last(runs[0]))
    && forall i :: 1 <= i < |runs| ==> Accepted(6 * |runs[i]|, Last(runs[i]))
  }

  /** The same message as the pull decoder stores it: the source cut down to its 8-bit core number. */
  function AsAcquired(m: DataAcquisition): Acquired
  {
    Acquired(m.src % 256, m.idtag, m.dqdata, m.haveTimestamp, m.timestamp)
  }

  function CoreId(srcbits: nat, first: seq<bool>): nat
  {
    if srcbits == 0 then 0 else Value(Window(first, 0, srcbits)) % 256
  }

  /** TCODE and source, up to where the tag starts; `first` is the payload of the first field. */
  lemma HeaderParsed(srcbits: nat, frame: seq<byte>, run: seq<byte>, first: seq<bool>)
    requires srcbits <= MAX_SRCBITS && srcbits < 6 * |run| && first == FieldBits(run)
    requires |frame| >= 2 + |run| && frame[0] == TCODE_SLICE && At(frame, 1, run) && IsRun(run, MSEO_VAR_END)
    ensures ParseMessage(srcbits, frame) == ParseTag(frame, 6 + srcbits, false, CoreId(srcbits, first))
  {
    TcodeParsed(frame);
    if srcbits > 0 { SourceParsed(srcbits, frame, run, first); }
  }

  lemma TcodeParsed(frame: seq<byte>)
    requires |frame| >= 2 && frame[0] == TCODE_SLICE
    ensures Fixed(frame, 0, false, 6) == Got(TCODE_DATA_ACQUISITION, 6, 6, false)
  {
    WholeSlice(frame, 0);
    assert FieldBits(frame)[0..6] == FieldBits(frame)[6 * 0..6 * 0 + 6];
  }

  lemma SourceParsed(srcbits: nat, frame: seq<byte>, run: seq<byte>, first: seq<bool>)
    requires 0 < srcbits < 6 * |run| && first == FieldBits(run)
    requires |frame| >= 2 + |run| && At(frame, 1, run) && IsRun(run, MSEO_VAR_END)
    ensures Fixed(frame, 6, false, srcbits) == Got(Value(Window(first, 0, srcbits)), srcbits, 6 + srcbits, false)
  {
    FieldInside(frame, 1, run);
    assert FieldBits(frame)[6..6 + srcbits] == FieldBits(frame)[6 * 1..6 * (1 + |run|)][..srcbits]
        == Window(first, 0, srcbits);
    var marked := if srcbits > 6 then (6 + srcbits) / 6 else 1;
    assert 1 <= marked <= |run|;
    assert frame[marked] == frame[1..1 + |run|][marked - 1] == run[marked - 1];
    NotEnd(run, marked - 1);
  }

  lemma NotEnd(run: seq<byte>, i: nat)
    requires IsRun(run, MSEO_VAR_END) && i < |run|
    ensures Mseo(run[i]) != MSEO_END
  {
    if i == |run| - 1 { assert run[i] == Last(run); }
  }

  /** The tag of a message, given the bits it is read from. */
  lemma TagParsed(srcbits: nat, frame: seq<byte>, r0: seq<byte>, coreId: nat, tag: seq<bool>)
    requires At(frame, 1, r0) && IsRun(r0, MSEO_VAR_END) && srcbits < 6 * |r0| && tag == After(FieldBits(r0), srcbits)
    ensures ParseTag(frame, 6 + srcbits, false, coreId) ==
            if Accepted(|tag|, Last(r0)) then ParseData(frame, 6 * (1 + |r0|), false, coreId, Uint32(Value(tag)))
            else Bad(ERR)
  {
    hide Value, FieldBits, Var, RunEnd, At, ParseData;
    VarOnRun(frame, 1, r0, srcbits, false, MSEO_VAR_END, tag);
    Modulo64Then32(Value(tag));
  }

  lemma DataParsed(frame: seq<byte>, p: nat, r1: seq<byte>, mark: nat, coreId: nat, idTag: nat, data: seq<bool>)
    requires At(frame, p, r1) && IsRun(r1, mark) && mark != MSEO_NORMAL && data == FieldBits(r1)
    ensures ParseData(frame, 6 * p, false, coreId, idTag) ==
            if Accepted(|data|, Last(r1))
            then ParseTimestamp(frame, 6 * (p + |r1|), mark == MSEO_END,
                   Acquired(coreId, idTag, Uint32(Value(data)), false, 0))
            else Bad(ERR)
  {
    assert After(data, 0) == data;
    VarOnRun(frame, p, r1, 0, false, mark, data);
    Modulo64Then32(Value(data));
  }

  lemma TimestampParsed(frame: seq<byte>, p: nat, r2: seq<byte>, nm: Acquired, ts: seq<bool>)
    requires At(frame, p, r2) && IsRun(r2, MSEO_END) && ts == FieldBits(r2)
    ensures ParseTimestamp(frame, 6 * p, false, nm) ==
            if Accepted(|ts|, Last(r2)) then DataMessage(nm.(haveTimestamp := true, timestamp := Uint64(Value(ts))))
            else Bad(ERR)
  {
    assert After(ts, 0) == ts;
    VarOnRun(frame, p, r2, 0, false, MSEO_END, ts);
  }

  /** The parts of a framed message, where they stand in it. */
  predicate HasParts(frame: seq<byte>, runs: seq<seq<byte>>)
  {
    && 2 <= |runs| <= 3 && |frame| >= 2 + |runs[0]| && frame[0] == TCODE_SLICE
    && At(frame, 1, runs[0]) && At(frame, 1 + |runs[0]|, runs[1])
    && IsRun(runs[0], MSEO_VAR_END) && IsRun(runs[1], if |runs| == 2 then MSEO_END else MSEO_VAR_END)
    && (|runs| == 2 ==> |frame| == 1 + |runs[0]| + |runs[1]|)
    && (|runs| == 3 ==> At(frame, 1 + |runs[0]| + |runs[1]|, runs[2]) && IsRun(runs[2], MSEO_END)
                        && |frame| == 1 + |runs[0]| + |runs[1]| + |runs[2]|)
  }

  lemma FrameParts(runs: seq<seq<byte>>)
    requires Codec.Framed(runs)
    ensures HasParts(Codec.Frame(runs), runs)
  {
    assert runs[1..][1..] == runs[2..];
    assert Concat(runs[1..]) == runs[1] + Concat(runs[2..]);
    if |runs| == 3 {
      assert Concat(runs[2..]) == runs[2] + Concat(runs[2..][1..]);
    }
  }

  /**
   On every framed message, the pull decoder stores what the push decoder delivers if and only if the source
   leaves room for a tag bit in its field and no field trips the overflow check. If one does, it reports an
   error; if there is no room, an error, or a message that lacks the timestamp it has.
   */
  lemma AgreeOnFrame(srcbits: nat, runs: seq<seq<byte>>)
    requires Codec.Framed(runs) && srcbits <= MAX_SRCBITS
    ensures var r, m := ParseMessage(srcbits, Codec.Frame(runs)), AsAcquired(Contents(srcbits, Payloads(runs)));
            && (r == DataMessage(m) <==> srcbits < 6 * |runs[0]| && AllAccepted(srcbits, runs))
            && (srcbits < 6 * |runs[0]| && !AllAccepted(srcbits, runs) ==> r == Bad(ERR))
            && (srcbits >= 6 * |runs[0]| ==> r.Bad? || (r.DataMessage? && m.haveTimestamp && !r.nm.haveTimestamp))
  {
    hide ParseMessage, Contents;
    FrameParts(runs);
    if srcbits < 6 * |runs[0]| {
      AgreeOnParts(srcbits, Codec.Frame(runs), runs, Payloads(runs));
    } else {
      NoRoomForTag(srcbits, Codec.Frame(runs), runs);
      TimestampOfContents(srcbits, Payloads(runs));
    }
  }

  lemma TimestampOfContents(srcbits: nat, f: seq<seq<bool>>)
    requires |f| >= 2
    ensures Contents(srcbits, f).haveTimestamp == (|f| >= 3)
  {
  }

  /** A source that uses up the first field leaves the tag to be read from a later one. */
  lemma NoRoomForTag(srcbits: nat, frame: seq<byte>, runs: seq<seq<byte>>)
    requires HasParts(frame, runs) && srcbits <= MAX_SRCBITS && srcbits >= 6 * |runs[0]|
    ensures var r := ParseMessage(srcbits, frame);
            r.Bad? || (|runs| == 3 && r.DataMessage? && !r.nm.haveTimestamp)
  {
    hide Value, FieldBits, Fixed, Var, RunEnd, ParseTag;
    TcodeParsed(frame);
    var src := Fixed(frame, 6, false, srcbits);
    FixedAdvances(frame, 6, false, srcbits);
    if src.Got? {
      TagMisplaced(frame, runs, src.bitIndex, src.eom, src.val % 256);
    }
  }

  lemma FixedAdvances(frame: seq<byte>, p: nat, e: bool, width: nat)
    requires width > 0
    ensures Fixed(frame, p, e, width).Got? ==> Fixed(frame, p, e, width).bitIndex == p + width < 6 * |frame|
  {
    hide Value, FieldBits;
  }

  lemma VarAdvances(frame: seq<byte>, p: nat, e: bool, j: nat)
    requires p / 6 <= j < |frame| && RunEnd(frame, p / 6) == j
    ensures Var(frame, p, e).Got? ==>
              Var(frame, p, e).bitIndex == 6 * (j + 1) && Var(frame, p, e).eom == (e || Mseo(frame[j]) == MSEO_END)
  {
    hide Value, FieldBits, RunEnd;
  }

  lemma NothingLeft(frame: seq<byte>, e: bool, coreId: nat, idTag: nat)
    ensures ParseData(frame, 6 * |frame|, e, coreId, idTag) == Bad(EOM)
  {
    hide Value, FieldBits;
  }

  lemma TagMisplaced(frame: seq<byte>, runs: seq<seq<byte>>, p: nat, e: bool, coreId: nat)
    requires HasParts(frame, runs) && 6 * (1 + |runs[0]|) <= p < 6 * |frame|
    ensures var r := ParseTag(frame, p, e, coreId);
            r.Bad? || (|runs| == 3 && r.DataMessage? && !r.nm.haveTimestamp)
  {
    hide Value, FieldBits, Var, RunEnd, ParseData, At;
    var start := 1 + |runs[0]|;
    var second := p / 6 < start + |runs[1]|;
    var end := if second then start + |runs[1]| else |frame|;
    if second {
      RunEndOfRun(frame, start, runs[1], p / 6 - start, if |runs| == 2 then MSEO_END else MSEO_VAR_END);
    } else {
      RunEndOfRun(frame, start + |runs[1]|, runs[2], p / 6 - start - |runs[1]|, MSEO_END);
    }
    VarAdvances(frame, p, e, end - 1);
    var tag := Var(frame, p, e);
    if tag.Got? {
      if end == |frame| {
        NothingLeft(frame, tag.eom, coreId, Uint32(tag.val));
      } else {
        RunEndOfRun(frame, end, runs[2], 0, MSEO_END);
        DataIsLast(frame, end, tag.eom, coreId, Uint32(tag.val));
      }
    }
  }

  lemma DataIsLast(frame: seq<byte>, p: nat, e: bool, coreId: nat, idTag: nat)
    requires p < |frame| && RunEnd(frame, p) == |frame| - 1 && Mseo(frame[|frame| - 1]) == MSEO_END
    ensures var r := ParseData(frame, 6 * p, e, coreId, idTag); r.Bad? || (r.DataMessage? && !r.nm.haveTimestamp)
  {
    hide Value, FieldBits, Var, RunEnd;
    assert 6 * p / 6 == p;
    VarAdvances(frame, 6 * p, e, |frame| - 1);
  }

  lemma AgreeOnParts(srcbits: nat, frame: seq<byte>, runs: seq<seq<byte>>, f: seq<seq<bool>>)
    requires HasParts(frame, runs) && srcbits <= MAX_SRCBITS && srcbits < 6 * |runs[0]| && f == Payloads(runs)
    ensures ParseMessage(srcbits, frame) ==
            if AllAccepted(srcbits, runs) then DataMessage(AsAcquired(Contents(srcbits, f))) else Bad(ERR)
  {
    hide Value, FieldBits, Window, Var, Fixed, ParseMessage, ParseTag, ParseData, RunEnd, At, IsRun;
    var core, tag := CoreId(srcbits, f[0]), Uint32(Value(After(f[0], srcbits)));
    HeaderParsed(srcbits, frame, runs[0], f[0]);
    TagParsed(srcbits, frame, runs[0], core, After(f[0], srcbits));
    var mark := if |runs| == 2 then MSEO_END else MSEO_VAR_END;
    DataParsed(frame, 1 + |runs[0]|, runs[1], mark, core, tag, f[1]);
    if |runs| == 3 {
      var nm := Acquired(core, tag, Uint32(Value(f[1])), false, 0);
      TimestampParsed(frame, 1 + |runs[0]| + |runs[1]|, runs[2], nm, f[2]);
    }
  }

  // ----- builder messages

  /** Every field the builder writes passes the overflow check: a 66-bit timestamp field has its top two bits clear. */
  lemma BuilderAccepted(srcbits: nat, a: Acquisition)
    requires a.Valid() && srcbits <= MAX_SRCBITS
    ensures AllAccepted(srcbits, Runs(srcbits, a))
    ensures srcbits < 6 * |Runs(srcbits, a)[0]| && |Encode(srcbits, a)| <= MSG_SIZE
  {
    hide Pack, Encode, Value, ToBits, MinBits, FieldBits, Pow2, Acquisition.Tag;
    var mark := if a.haveTimestamp then MSEO_VAR_END else MSEO_END;
    Codec.PackProperties(TagBits(srcbits, a), MSEO_VAR_END);
    Codec.PackProperties(DataBits(a), mark);
    Codec.PackProperties(TimestampBits(a), MSEO_END);
    TopBitsClear(DataBits(a), mark);
    TopBitsClear(TimestampBits(a), MSEO_END);
    EncodeUnfold(srcbits, a);
  }

  lemma {:induction false} RestSize(bits: seq<bool>)
    ensures |bits| == 6 * |Whole(bits)| + |Rest(bits)|
  {
    if |bits| > 6 { RestSize(bits[6..]); }
  }

  lemma TopBitsClear(bits: seq<bool>, mark: nat)
    requires |bits| <= 64 && mark < 4
    ensures Accepted(6 * |Pack(bits, mark)|, Last(Pack(bits, mark)))
  {
    RestSize(bits);
    if 6 * |Pack(bits, mark)| > 64 {
      ValueBound(Rest(bits));
      Pow2Monotone(|Rest(bits)|, 4);
      Pow2Constants();
    }
  }

  lemma BuilderIsMessage(srcbits: nat, a: Acquisition)
    requires a.Valid() && srcbits <= MAX_SRCBITS
    ensures IsMessage(Encode(srcbits, a))
  {
    Codec.RunsFramed(srcbits, a);
    Codec.FrameShape(Runs(srcbits, a));
  }

  /**
   On every concatenation of builder messages, the pull decoder frames exactly those messages and reads
   from each what the push decoder delivers with its last slice (see CodecRoundTrip.RoundTrip).
   */
  lemma DecodersAgree(srcbits: nat, msgs: seq<Acquisition>)
    requires srcbits <= MAX_SRCBITS && forall i :: 0 <= i < |msgs| ==> msgs[i].Valid()
    ensures Events(Concat(Codec.Encoded(srcbits, msgs))) == Frames(Codec.Encoded(srcbits, msgs))
    ensures Reports(srcbits, Events(Concat(Codec.Encoded(srcbits, msgs))))
         == AsReports(Codec.ExpectedAll(srcbits, msgs))
    ensures Deliveries(srcbits, [], Concat(Codec.Encoded(srcbits, msgs)))
         == Codec.Schedule(Codec.Encoded(srcbits, msgs), Codec.ExpectedAll(srcbits, msgs))
  {
    var frames, expected := Codec.Encoded(srcbits, msgs), Codec.ExpectedAll(srcbits, msgs);
    forall i | 0 <= i < |msgs|
      ensures IsMessage(frames[i]) && |frames[i]| <= MSG_SIZE
      ensures ParseMessage(srcbits, frames[i]) == DataMessage(AsAcquired(expected[i]))
    {
      MessageParsed(srcbits, msgs[i]);
    }
    ExactFraming(frames);
    ReportsOfFrames(srcbits, frames, expected);
    Codec.RoundTrip(srcbits, [], msgs);
  }

  lemma MessageParsed(srcbits: nat, a: Acquisition)
    requires srcbits <= MAX_SRCBITS && a.Valid()
    ensures IsMessage(Encode(srcbits, a)) && |Encode(srcbits, a)| <= MSG_SIZE
    ensures ParseMessage(srcbits, Encode(srcbits, a)) == DataMessage(AsAcquired(Codec.Expected(srcbits, a)))
  {
    hide ParseMessage, Contents, Runs, Encode;
    BuilderIsMessage(srcbits, a);
    BuilderAccepted(srcbits, a);
    Codec.RunsFramed(srcbits, a);
    Codec.RunsContents(srcbits, a);
    AgreeOnFrame(srcbits, Runs(srcbits, a));
  }

  // ----- whole decodes

  /** What a call that frames this message delivers: nothing if the message has no parser. */
  function Shown(r: Report): seq<Report> { if r.Unsupported? then [] else [r] }

  /**
   What successive calls of ReadNextTraceMsg deliver for a sequence of framing events. A message without a
   parser is passed over; the first that overflows the buffer or that its parser rejects is the end, because
   its error stays in `status`.
   */
  function Reports(srcbits: nat, events: seq<Event>): seq<Report>
  {
    if events == [] || Stops(srcbits, events[0]) then []
    else Shown(ParseMessage(srcbits, events[0].msg)) + Reports(srcbits, events[1..])
  }

  predicate Stops(srcbits: nat, e: Event)
  {
    e.Overflow? || ParseMessage(srcbits, e.msg).Bad?
  }

  predicate Stopped(srcbits: nat, events: seq<Event>)
  {
    exists i :: 0 <= i < |events| && Stops(srcbits, events[i])
  }

  function AsReports(msgs: seq<DataAcquisition>): (r: seq<Report>)
    ensures |r| == |msgs|
  {
    seq(|msgs|, i requires 0 <= i < |msgs| => DataMessage(AsAcquired(msgs[i])))
  }

  lemma {:induction false} ReportsOfFrames(srcbits: nat, frames: seq<seq<byte>>, msgs: seq<DataAcquisition>)
    requires |frames| == |msgs|
    requires forall i :: 0 <= i < |frames| ==> ParseMessage(srcbits, frames[i]) == DataMessage(AsAcquired(msgs[i]))
    ensures Reports(srcbits, Frames(frames)) == AsReports(msgs)
  {
    hide ParseMessage;
    if frames != [] {
      ReportsOfFrames(srcbits, frames[1..], msgs[1..]);
      assert Frames(frames) == [Framed(frames[0])] + Frames(frames[1..]);
      assert AsReports(msgs) == [DataMessage(AsAcquired(msgs[0]))] + AsReports(msgs[1..]);
    }
  }

  /** Events up to the first one that stops the decoder decide everything. */
  lemma {:induction false} ReportsStop(srcbits: nat, a: seq<Event>, b: seq<Event>)
    requires Stopped(srcbits, a) || b == []
    ensures Reports(srcbits, a + b) == Reports(srcbits, a)
  {
    hide Stops, ParseMessage;
    if b == [] {
      assert a + b == a;
    } else if !Stops(srcbits, a[0]) {
      assert (a + b)[1..] == a[1..] + b;
      assert forall i :: 0 <= i < |a| - 1 ==> a[1..][i] == a[i + 1];
      StoppedLater(srcbits, a);
      ReportsStop(srcbits, a[1..], b);
    }
  }

  lemma StoppedLater(srcbits: nat, a: seq<Event>)
    requires a != [] && !Stops(srcbits, a[0])
    ensures Stopped(srcbits, a[1..]) <==> Stopped(srcbits, a)
  {
    hide Stops;
    assert forall i :: 0 <= i < |a| - 1 ==> a[1..][i] == a[i + 1];
    if i :| 0 <= i < |a| && Stops(srcbits, a[i]) {
      assert a[i] == a[1..][i - 1];
    }
  }

  lemma {:induction false} ReportsAppend(srcbits: nat, a: seq<Event>, b: seq<Event>)
    requires !Stopped(srcbits, a)
    ensures Reports(srcbits, a + b) == Reports(srcbits, a) + Reports(srcbits, b)
  {
    hide Stops, ParseMessage;
    if a == [] {
      assert a + b == b;
    } else {
      assert !Stops(srcbits, a[0]);
      assert (a + b)[1..] == a[1..] + b;
      StoppedLater(srcbits, a);
      ReportsAppend(srcbits, a[1..], b);
    }
  }

  lemma ReportsSnoc(srcbits: nat, a: seq<Event>, e: Event)
    requires !Stopped(srcbits, a)
    ensures Reports(srcbits, a + [e]) ==
            Reports(srcbits, a) + if Stops(srcbits, e) then [] else Shown(ParseMessage(srcbits, e.msg))
    ensures Stopped(srcbits, a + [e]) <==> Stops(srcbits, e)
  {
    hide ParseMessage;
    ReportsAppend(srcbits, a, [e]);
    assert [e][1..] == [];
    assert (a + [e])[|a|] == e;
  }

  /**
   Recovery after garbage that ends with an end-of-message slice: unlike the push decoder, the pull decoder
   reports the messages that follow if and only if nothing in the garbage was framed as a message that
   overflows or that its parser rejects. Messages without a parser do no harm.
   */
  lemma PullRecovery(srcbits: nat, garbage: seq<byte>, end: byte, msgs: seq<Acquisition>)
    requires srcbits <= MAX_SRCBITS && Mseo(end) == MSEO_END && msgs != []
    requires forall i :: 0 <= i < |msgs| ==> msgs[i].Valid()
    ensures var before := Events(garbage + [end]);
            Reports(srcbits, Events(garbage + [end] + Concat(Codec.Encoded(srcbits, msgs))))
              == Reports(srcbits, before) + AsReports(Codec.ExpectedAll(srcbits, msgs))
            <==> !Stopped(srcbits, before)
  {
    hide Stops, ParseMessage, Reports;
    var before, stream := Events(garbage + [end]), Concat(Codec.Encoded(srcbits, msgs));
    FramerSynchronises(garbage, end, stream);
    DecodersAgree(srcbits, msgs);
    if Stopped(srcbits, before) {
      ReportsStop(srcbits, before, Events(stream));
    } else {
      ReportsAppend(srcbits, before, Events(stream));
    }
  }

  /** A message whose TCODE has no parser is passed over, whatever else it holds. */
  lemma UnsupportedPassedOver(srcbits: nat, frame: seq<byte>, rest: seq<Event>)
    requires |frame| >= 2 && Mdo(frame[0]) != TCODE_DATA_ACQUISITION && Layout(Mdo(frame[0])).None?
    ensures Reports(srcbits, [Framed(frame)] + rest) == Reports(srcbits, rest)
  {
    hide Value, Layout;
    FirstSlice(frame);
    assert ([Framed(frame)] + rest)[1..] == rest;
  }

  /** The TCODE is the payload of the first slice. */
  lemma FirstSlice(frame: seq<byte>)
    requires |frame| >= 2
    ensures Fixed(frame, 0, false, 6).Got? && Fixed(frame, 0, false, 6).val == Mdo(frame[0])
  {
    hide Value;
    WholeSlice(frame, 0);
  }

  /** The shortest message of a kind with more than one field ends the decode, such as 0x10 0x03. */
  lemma TooShortStops(frame: seq<byte>)
    requires |frame| == 2 && Mdo(frame[0]) in {4, 7, 23} && Mseo(frame[0]) == MSEO_NORMAL && Mseo(frame[1]) == MSEO_END
    ensures ParseMessage(0, frame) == Bad(EOM) && Stops(0, Framed(frame))
  {
    hide Value, FieldBits, Fixed, Var, ReadFields;
    var tcode := Mdo(frame[0]);
    assert Fixed(frame, 0, false, 6) == Got(tcode, 6, 6, false) by {
      FirstSlice(frame);
      EomAfterTcode(frame);
    }
    OneSliceLeft(frame, 6, false);
    OneSliceLeft(frame, 8, true);
    if tcode == 4 {
      TwoBitsOfSlice(frame);
      var k := [TwoBits, VarField, VarField];
      assert k[1..] == [VarField, VarField];
      ReadTwo(frame, 8, true, [] + [Fixed(frame, 6, false, 2).val]);
      ReadOne(frame, 6, false, k, []);
    } else if tcode == 23 {
      ReadTwo(frame, 6, false, []);
    }
  }

  /** So nothing is recovered after garbage that frames as such a message. */
  lemma BranchGarbageStops(msgs: seq<Acquisition>)
    requires forall i :: 0 <= i < |msgs| ==> msgs[i].Valid()
    ensures Reports(0, Events([0x10, 0x03] + Concat(Codec.Encoded(0, msgs)))) == []
  {
    hide ParseMessage, Run;
    var frame: seq<byte>, stream := [0x10, 0x03], Concat(Codec.Encoded(0, msgs));
    FramedWhole(frame);
    EventsOfFirst(frame, stream);
    assert Events(frame) == [Framed(frame)];
    TooShortStops(frame);
    assert Stops(0, [Framed(frame)][0]);
    ReportsStop(0, [Framed(frame)], Events(stream));
  }

  lemma EomAfterTcode(frame: seq<byte>)
    requires |frame| == 2 && Mseo(frame[0]) == MSEO_NORMAL
    ensures Fixed(frame, 0, false, 6).Got? ==>
              Fixed(frame, 0, false, 6) == Got(Fixed(frame, 0, false, 6).val, 6, 6, false)
  {
    hide Value, FieldBits;
  }

  lemma OneSliceLeft(frame: seq<byte>, p: nat, e: bool)
    requires |frame| == 2 && Mseo(frame[1]) == MSEO_END && 6 <= p < 12
    ensures Var(frame, p, e).Got? && Var(frame, p, e).bitIndex == 12 && Var(frame, p, e).eom
    ensures Var(frame, 12, true) == Failed(EOM)
  {
    hide Value, FieldBits;
    assert RunEnd(frame, p / 6) == 1;
  }

  lemma TwoBitsOfSlice(frame: seq<byte>)
    requires |frame| == 2 && Mseo(frame[1]) == MSEO_END
    ensures Fixed(frame, 6, false, 2).Got? && Fixed(frame, 6, false, 2).bitIndex == 8 && Fixed(frame, 6, false, 2).eom
  {
    hide Value, FieldBits;
  }

  lemma ReadOne(frame: seq<byte>, p: nat, e: bool, kinds: seq<FieldKind>, fields: seq<nat>)
    requires kinds != [] && ReadField(frame, p, e, kinds[0]).Got?
    ensures var out := ReadField(frame, p, e, kinds[0]);
            ReadFields(frame, p, e, kinds, fields)
            == ReadFields(frame, out.bitIndex, out.eom, kinds[1..], fields + [out.val])
  {
    hide Fixed, Var;
  }

  /** Two variable fields where one slice is left. */
  lemma ReadTwo(frame: seq<byte>, p: nat, e: bool, fields: seq<nat>)
    requires |frame| == 2 && Mseo(frame[1]) == MSEO_END && 6 <= p < 12
    ensures ReadFields(frame, p, e, [VarField, VarField], fields) == FieldsFailed(EOM)
  {
    hide Var;
    OneSliceLeft(frame, p, e);
    var two := [VarField, VarField];
    assert two[1..] == [VarField];
  }
}

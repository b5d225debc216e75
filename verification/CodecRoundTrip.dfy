/**
 What the encoder writes, the push decoder recovers, for any list of messages and after any garbage.
 */
module CodecRoundTrip {
  import opened Bits
  import opened NexusWire
  import opened MessageBuilder
  import opened PushDecoder

  // ----- packed fields

  lemma SliceHolds(bits: seq<bool>, mark: nat)
    requires |bits| <= 6 && mark < 4
    ensures Mseo(Slice(bits, mark)) == mark
    ensures SliceBits(Slice(bits, mark)) == bits + Zeros(6 - |bits|)
  {
    ValueZeroExtend(bits, 6 - |bits|);
    ToBitsValue(bits + Zeros(6 - |bits|));
    assert Mdo(Slice(bits, mark)) == Value(bits);
  }

  lemma {:induction false} WholeProperties(bits: seq<bool>)
    ensures forall i :: 0 <= i < |Whole(bits)| ==> Mseo(Whole(bits)[i]) == MSEO_NORMAL
    ensures FieldBits(Whole(bits)) + Rest(bits) == bits
  {
    if |bits| > 6 {
      WholeProperties(bits[6..]);
      PrependSlice(bits[..6], Whole(bits[6..]));
      SliceHolds(bits[..6], MSEO_NORMAL);
      assert bits[..6] + (FieldBits(Whole(bits[6..])) + Rest(bits[6..])) == bits;
    }
  }

  lemma PrependSlice(six: seq<bool>, run: seq<byte>)
    requires |six| == 6
    ensures FieldBits([Slice(six, MSEO_NORMAL)] + run) == six + FieldBits(run)
  {
    var head := Slice(six, MSEO_NORMAL);
    FieldBitsAppend([head], run);
    FieldBitsSingle(head);
    SliceHolds(six, MSEO_NORMAL);
  }

  /** A packed field is one run, and holds its bits followed by zero padding. */
  lemma PackProperties(bits: seq<bool>, mark: nat)
    requires mark == MSEO_VAR_END || mark == MSEO_END
    ensures var run := Pack(bits, mark);
            && IsRun(run, mark)
            && |bits| <= 6 * |run| <= (if bits == [] then 6 else |bits| + 5)
            && FieldBits(run) == bits + Zeros(6 * |run| - |bits|)
  {
    WholeProperties(bits);
    var whole, rest := Whole(bits), Rest(bits);
    SliceHolds(rest, mark);
    FieldBitsSnoc(whole, Slice(rest, mark));
    assert (FieldBits(whole) + rest) + Zeros(6 - |rest|) == FieldBits(whole) + (rest + Zeros(6 - |rest|));
  }

  // ----- framed messages

  /** The fields of a message as an encoder frames them: only the last one carries the end-of-message mark. */
  predicate Framed(runs: seq<seq<byte>>)
  {
    2 <= |runs| <= 3 && Marked(runs)
  }

  predicate Marked(runs: seq<seq<byte>>)
  {
    forall i :: 0 <= i < |runs| ==> IsRun(runs[i], if i < |runs| - 1 then MSEO_VAR_END else MSEO_END)
  }

  function Frame(runs: seq<seq<byte>>): seq<byte>
  {
    [TCODE_SLICE] + Concat(runs)
  }

  lemma MarkedTail(runs: seq<seq<byte>>)
    requires Marked(runs) && |runs| >= 1
    ensures Marked(runs[1..])
    ensures IsRun(runs[0], if |runs| > 1 then MSEO_VAR_END else MSEO_END)
  {
  }

  lemma {:induction false} FieldsOfRuns(body: seq<byte>, runs: seq<seq<byte>>)
    requires Fields(body).tail == [] && Marked(runs)
    ensures Fields(body + Concat(runs)) == Body(Fields(body).fields + runs, [])
    decreases |runs|
  {
    hide Fields, IsRun;
    if runs == [] {
      assert body + Concat(runs) == body;
    } else {
      MarkedTail(runs);
      FieldsRun(body, runs[0], if |runs| > 1 then MSEO_VAR_END else MSEO_END);
      FieldsOfRuns(body + runs[0], runs[1..]);
      assert body + Concat(runs) == (body + runs[0]) + Concat(runs[1..]);
      assert Fields(body).fields + [runs[0]] + runs[1..] == Fields(body).fields + runs;
    }
  }

  /** All slices but the last carry at most an end-of-field mark; the last one ends the message. */
  lemma {:induction false} ConcatMarks(runs: seq<seq<byte>>)
    requires |runs| >= 1 && Marked(runs)
    ensures var c := Concat(runs);
            && c != [] && Mseo(Last(c)) == MSEO_END
            && forall i :: 0 <= i < |c| - 1 ==> !EndsMessage(c[i])
  {
    MarkedTail(runs);
    var r, c := runs[0], Concat(runs[1..]);
    assert Concat(runs) == r + c;
    if |runs| == 1 {
      assert r + c == r;
    } else {
      ConcatMarks(runs[1..]);
      assert Last(r + c) == Last(c);
      forall i | 0 <= i < |r + c| - 1 ensures !EndsMessage((r + c)[i]) {
        if i == |r| - 1 { assert (r + c)[i] == Last(r); }
      }
    }
  }

  // ----- deliveries

  function Silence(n: nat): (out: seq<Option<DataAcquisition>>)
    ensures |out| == n
  {
    seq(n, _ => None)
  }

  lemma {:induction false} DeliveriesAppend(srcbits: nat, history: seq<byte>, a: seq<byte>, b: seq<byte>)
    ensures Deliveries(srcbits, history, a + b)
         == Deliveries(srcbits, history, a) + Deliveries(srcbits, history + a, b)
    decreases |a|
  {
    if a == [] {
      assert a + b == b && history + a == history;
    } else {
      assert (a + b)[1..] == a[1..] + b;
      DeliveriesAppend(srcbits, history + [a[0]], a[1..], b);
      assert history + [a[0]] + a[1..] == history + a;
    }
  }

  lemma {:induction false} QuietPrefix(srcbits: nat, history: seq<byte>, a: seq<byte>)
    requires forall i :: 0 <= i < |a| ==> !EndsMessage(a[i])
    ensures Deliveries(srcbits, history, a) == Silence(|a|)
    ensures Pending(history + a) == Pending(history) + a
    decreases |a|
  {
    if a == [] {
      assert history + a == history;
    } else {
      PendingSnoc(history, a[0]);
      QuietPrefix(srcbits, history + [a[0]], a[1..]);
      assert history + [a[0]] + a[1..] == history + a;
    }
  }

  /** From a message boundary, a framed message comes out whole, with its last slice and not before. */
  lemma FrameDelivered(srcbits: nat, history: seq<byte>, runs: seq<seq<byte>>)
    requires Pending(history) == [] && Framed(runs) && Fits(runs)
    ensures Deliveries(srcbits, history, Frame(runs))
         == Silence(|Frame(runs)| - 1) + [Some(Contents(srcbits, Payloads(runs)))]
    ensures Pending(history + Frame(runs)) == []
  {
    var f := Frame(runs);
    FrameShape(runs);
    LastByteDelivers(srcbits, history, f);
    var init, last := f[..|f| - 1], Last(f);
    assert WellFormed(TCODE_DATA_ACQUISITION, f[1..|f| - 1] + [last]);
    assert Delivered(srcbits, history + init, last) == Some(Contents(srcbits, Payloads(runs)));
  }

  lemma LastByteDelivers(srcbits: nat, history: seq<byte>, f: seq<byte>)
    requires Pending(history) == [] && f != [] && EndsMessage(Last(f))
    requires forall i :: 0 <= i < |f| - 1 ==> !EndsMessage(f[i])
    ensures var init := f[..|f| - 1];
            && Pending(history + init) == init && Pending(history + f) == []
            && Deliveries(srcbits, history, f)
               == Silence(|f| - 1) + [Delivered(srcbits, history + init, Last(f))]
  {
    var init, last := f[..|f| - 1], Last(f);
    QuietPrefix(srcbits, history, init);
    assert [] + init == init;
    assert f == init + [last];
    PendingSnoc(history + init, last);
    var d := Delivered(srcbits, history + init, last);
    assert Deliveries(srcbits, history + init, [last]) == [d] by { assert [last][1..] == []; }
    Continue(srcbits, history, init, [last], Silence(|init|), [d]);
  }

  lemma FrameShape(runs: seq<seq<byte>>)
    requires Framed(runs)
    ensures var f := Frame(runs);
            && |f| >= 2 && Mseo(Last(f)) == MSEO_END
            && (forall i :: 0 <= i < |f| - 1 ==> !EndsMessage(f[i]))
            && Opening(f[..|f| - 1]) == Open(TCODE_DATA_ACQUISITION, f[1..|f| - 1])
            && Fields(f[1..|f| - 1] + [Last(f)]).fields == runs
  {
    var c, f := Concat(runs), Frame(runs);
    ConcatMarks(runs);
    var init := f[..|f| - 1];
    assert init[0] == TCODE_SLICE && init[1..] == f[1..|f| - 1];
    assert Opening(init) == Open(TCODE_DATA_ACQUISITION, init[1..]);
    assert f[1..|f| - 1] + [Last(f)] == c;
    forall i | 0 <= i < |f| - 1 ensures !EndsMessage(f[i]) {
      if i > 0 { assert f[i] == c[i - 1]; }
    }
    FieldsOfRuns([], runs);
    assert [] + c == c;
    assert [] + runs == runs;
  }

  // ----- builder messages

  /** What a receiver should see of a call to the builder. */
  function Expected(srcbits: nat, a: Acquisition): DataAcquisition
  {
    DataAcquisition(
      a.haveTimestamp, if a.haveTimestamp then a.timestamp else 0,
      srcbits != 0, a.src % Pow2(srcbits),
      TCODE_DATA_ACQUISITION, a.Tag(), a.data % Pow2(8 * a.size))
  }

  lemma ModTwice(x: int, p: nat, q: nat)
    requires p > 0 && q > 0
    ensures p * q > 0 && x % (p * q) % p == x % p
  {
    var k, m := x / (p * q), x % (p * q);
    assert p * q > 0;
    assert x == (p * q) * k + m;
    var j, r := m / p, m % p;
    assert m == p * j + r;
    assert (p * q) * k == p * (q * k) by { RegroupFactors(p, q, k); }
    assert x == (q * k + j) * p + r by { Spread(p, q * k, j); }
    ModUnique(x, p, q * k + j, r);
  }

  lemma RegroupFactors(p: int, q: int, k: int)
    ensures (p * q) * k == p * (q * k)
  {
  }

  lemma Spread(p: int, a: int, b: int)
    ensures p * (a + b) == p * a + p * b
  {
  }

  lemma ModUnique(x: int, p: nat, k: int, r: nat)
    requires p > 0 && r < p && x == k * p + r
    ensures x % p == r
  {
    var k' := x / p;
    if k < k' { MulGap(k, k', p); }
    if k' < k { MulGap(k', k, p); }
  }

  /** Zero padding changes no value, so a packed field reads back as its bits. */
  lemma PackedValue(bits: seq<bool>, mark: nat)
    requires mark == MSEO_VAR_END || mark == MSEO_END
    ensures Value(FieldBits(Pack(bits, mark))) == Value(bits)
  {
    PackProperties(bits, mark);
    ValueZeroExtend(bits, 6 * |Pack(bits, mark)| - |bits|);
  }

  lemma ModAtMost(v: nat, m: nat)
    requires m > 0
    ensures v % m <= v
  {
  }

  lemma TagField(srcbits: nat, a: Acquisition)
    requires a.Valid() && srcbits <= MAX_SRCBITS
    ensures var f := FieldBits(Pack(TagBits(srcbits, a), MSEO_VAR_END));
            && srcbits < |f|
            && Value(Window(f, 0, srcbits)) == a.src % Pow2(srcbits)
            && Value(After(f, srcbits)) == a.Tag()
  {
    hide ToBits, MinBits, Value, Uint64;
    var src, tag := ToBits(Uint64(a.src), srcbits), ToBits(a.Tag(), MinBits(a.Tag(), 32));
    TagFits(a);
    var run := Pack(src + tag, MSEO_VAR_END);
    PackProperties(src + tag, MSEO_VAR_END);
    SplitField(FieldBits(run), src, tag, 6 * |run| - |src| - |tag|);
    SourceValue(srcbits, a.src);
    TagValue(a.Tag());
  }

  lemma TagFits(a: Acquisition)
    ensures a.Tag() < UINT32
  {
  }

  lemma TagValue(tag: nat)
    requires tag < UINT32
    ensures Value(ToBits(tag, MinBits(tag, 32))) == tag
  {
    ValueToBits(tag, MinBits(tag, 32));
    MinBitsExact(tag, 32);
    assert Pow2(32) == UINT32 by { Pow2Constants(); }
    ModSmall(tag, UINT32);
  }

  lemma SplitField(f: seq<bool>, src: seq<bool>, tag: seq<bool>, pad: nat)
    requires f == (src + tag) + Zeros(pad)
    ensures Window(f, 0, |src|) == src && Value(After(f, |src|)) == Value(tag)
  {
    assert f == src + (tag + Zeros(pad));
    assert After(f, |src|) == tag + Zeros(pad);
    ValueZeroExtend(tag, pad);
  }

  /** A source of any sign is reduced modulo 2^srcbits by the cast and the field width together. */
  lemma SourceValue(srcbits: nat, src: int)
    requires srcbits <= 64
    ensures Value(ToBits(Uint64(src), srcbits)) == src % Pow2(srcbits)
  {
    Pow2Constants();
    Pow2Add(srcbits, 64 - srcbits);
    ValueToBits(Uint64(src), srcbits);
    ModTwice(src, Pow2(srcbits), Pow2(64 - srcbits));
  }

  /** The value of a field written with MinBits. */
  lemma MinimalField(val: nat, numbits: nat, mark: nat)
    requires (mark == MSEO_VAR_END || mark == MSEO_END) && 1 <= numbits <= 64
    ensures var run := Pack(ToBits(val, MinBits(val, numbits)), mark);
            Value(FieldBits(run)) == val % Pow2(numbits) && |run| <= 11
  {
    var bits := ToBits(val, MinBits(val, numbits));
    PackProperties(bits, mark);
    PackedValue(bits, mark);
    ValueToBits(val, MinBits(val, numbits));
    MinBitsExact(val, numbits);
  }

  lemma RunsFramed(srcbits: nat, a: Acquisition)
    requires a.Valid() && srcbits <= MAX_SRCBITS
    ensures Framed(Runs(srcbits, a)) && Fits(Runs(srcbits, a))
    ensures Encode(srcbits, a) == Frame(Runs(srcbits, a))
  {
    var runs := Runs(srcbits, a);
    forall i | 0 <= i < |runs|
      ensures IsRun(runs[i], if i < |runs| - 1 then MSEO_VAR_END else MSEO_END) && |runs[i]| <= MAX_FIELD_SLICES
    {
      var bits := if i == 0 then TagBits(srcbits, a) else if i == 1 then DataBits(a) else TimestampBits(a);
      PackProperties(bits, if i < |runs| - 1 then MSEO_VAR_END else MSEO_END);
    }
  }

  lemma RunsContents(srcbits: nat, a: Acquisition)
    requires a.Valid() && srcbits <= MAX_SRCBITS
    ensures Contents(srcbits, Payloads(Runs(srcbits, a))) == Expected(srcbits, a)
  {
    var mark := if a.haveTimestamp then MSEO_VAR_END else MSEO_END;
    TagField(srcbits, a);
    DataValue(a, mark);
    TimestampValue(a);
    ContentsOf(srcbits, a, Payloads(Runs(srcbits, a)),
      FieldBits(Pack(TagBits(srcbits, a), MSEO_VAR_END)), FieldBits(Pack(DataBits(a), mark)),
      FieldBits(Pack(TimestampBits(a), MSEO_END)));
  }

  lemma DataValue(a: Acquisition, mark: nat)
    requires a.Valid() && (mark == MSEO_VAR_END || mark == MSEO_END)
    ensures Value(FieldBits(Pack(DataBits(a), mark))) == a.data % Pow2(8 * a.size) < UINT32
  {
    hide Pack, FieldBits, Value;
    MinimalField(a.data, a.size * 8, mark);
    ModAtMost(a.data, Pow2(8 * a.size));
  }

  lemma TimestampValue(a: Acquisition)
    requires a.Valid()
    ensures Value(FieldBits(Pack(TimestampBits(a), MSEO_END))) == a.timestamp
  {
    hide Pack, FieldBits, Value;
    MinimalField(a.timestamp, 64, MSEO_END);
    assert Pow2(64) == UINT64 by { Pow2Constants(); }
  }

  lemma ContentsOf(srcbits: nat, a: Acquisition, f: seq<seq<bool>>, tag: seq<bool>, data: seq<bool>, ts: seq<bool>)
    requires a.Valid() && f == if a.haveTimestamp then [tag, data, ts] else [tag, data]
    requires Value(Window(tag, 0, srcbits)) == a.src % Pow2(srcbits) && Value(After(tag, srcbits)) == a.Tag()
    requires Value(data) == a.data % Pow2(8 * a.size) < UINT32 && Value(ts) == a.timestamp
    ensures Contents(srcbits, f) == Expected(srcbits, a)
  {
    hide Value, Pow2, Acquisition.Tag;
    TagFits(a);
    ModSmall(a.Tag(), UINT32);
    ModSmall(Value(data), UINT32);
    ModSmall(a.timestamp, UINT64);
    assert f[0] == tag && f[1] == data;
    if srcbits == 0 { NoSource(tag); }
  }

  lemma NoSource(tag: seq<bool>)
    ensures Value(Window(tag, 0, 0)) == 0
  {
    assert Window(tag, 0, 0) == [];
  }

  // ----- streams of messages

  /** `frame`, received at a message boundary, delivers `msg` with its last byte and ends at a boundary. */
  ghost predicate Carries(srcbits: nat, frame: seq<byte>, msg: DataAcquisition)
  {
    && frame != []
    && forall history :: Pending(history) == [] ==>
         && Pending(history + frame) == []
         && Deliveries(srcbits, history, frame) == Silence(|frame| - 1) + [Some(msg)]
  }

  /** Every message is delivered with the last byte of its own frame, and nothing else is delivered. */
  function Schedule(frames: seq<seq<byte>>, msgs: seq<DataAcquisition>): seq<Option<DataAcquisition>>
    requires |frames| == |msgs| && forall i :: 0 <= i < |frames| ==> frames[i] != []
  {
    if frames == [] then []
    else Silence(|frames[0]| - 1) + [Some(msgs[0])] + Schedule(frames[1..], msgs[1..])
  }

  ghost predicate CarriesAll(srcbits: nat, frames: seq<seq<byte>>, msgs: seq<DataAcquisition>)
  {
    |frames| == |msgs| && forall i :: 0 <= i < |frames| ==> Carries(srcbits, frames[i], msgs[i])
  }

  lemma {:induction false} StreamDelivered(srcbits: nat, history: seq<byte>, frames: seq<seq<byte>>,
                                           msgs: seq<DataAcquisition>)
    requires Pending(history) == [] && CarriesAll(srcbits, frames, msgs)
    ensures Deliveries(srcbits, history, Concat(frames)) == Schedule(frames, msgs)
    ensures Pending(history + Concat(frames)) == []
    decreases |frames|
  {
    if frames == [] {
      assert history + [] == history;
    } else {
      assert Carries(srcbits, frames[0], msgs[0]);
      StreamDelivered(srcbits, history + frames[0], frames[1..], msgs[1..]);
      Continue(srcbits, history, frames[0], Concat(frames[1..]),
        Silence(|frames[0]| - 1) + [Some(msgs[0])], Schedule(frames[1..], msgs[1..]));
    }
  }

  lemma Continue(srcbits: nat, history: seq<byte>, a: seq<byte>, b: seq<byte>,
                 outA: seq<Option<DataAcquisition>>, outB: seq<Option<DataAcquisition>>)
    requires Deliveries(srcbits, history, a) == outA && Deliveries(srcbits, history + a, b) == outB
    ensures Deliveries(srcbits, history, a + b) == outA + outB && history + (a + b) == history + a + b
  {
    DeliveriesAppend(srcbits, history, a, b);
  }

  function Encoded(srcbits: nat, msgs: seq<Acquisition>): seq<seq<byte>>
  {
    seq(|msgs|, i requires 0 <= i < |msgs| => Encode(srcbits, msgs[i]))
  }

  function ExpectedAll(srcbits: nat, msgs: seq<Acquisition>): seq<DataAcquisition>
  {
    seq(|msgs|, i requires 0 <= i < |msgs| => Expected(srcbits, msgs[i]))
  }

  lemma EncodeCarries(srcbits: nat, a: Acquisition)
    requires srcbits <= MAX_SRCBITS && a.Valid()
    ensures Carries(srcbits, Encode(srcbits, a), Expected(srcbits, a))
  {
    RunsFramed(srcbits, a);
    RunsContents(srcbits, a);
    forall history | Pending(history) == []
      ensures Pending(history + Encode(srcbits, a)) == []
      ensures Deliveries(srcbits, history, Encode(srcbits, a))
           == Silence(|Encode(srcbits, a)| - 1) + [Some(Expected(srcbits, a))]
    {
      FrameDelivered(srcbits, history, Runs(srcbits, a));
    }
  }

  /**
   The round trip over a whole stream, starting at any message boundary: the decoder delivers the
   builder's messages, in order, each with its last slice, and nothing else.
   */
  lemma RoundTrip(srcbits: nat, history: seq<byte>, msgs: seq<Acquisition>)
    requires srcbits <= MAX_SRCBITS && Pending(history) == []
    requires forall i :: 0 <= i < |msgs| ==> msgs[i].Valid()
    ensures Deliveries(srcbits, history, Concat(Encoded(srcbits, msgs)))
         == Schedule(Encoded(srcbits, msgs), ExpectedAll(srcbits, msgs))
  {
    forall i | 0 <= i < |msgs|
      ensures Carries(srcbits, Encoded(srcbits, msgs)[i], ExpectedAll(srcbits, msgs)[i])
    {
      EncodeCarries(srcbits, msgs[i]);
    }
    StreamDelivered(srcbits, history, Encoded(srcbits, msgs), ExpectedAll(srcbits, msgs));
  }

  // ----- self-synchronisation

  /** Only the bytes since the last end-of-message slice matter. */
  lemma {:induction false} DeliveriesLocal(srcbits: nat, h1: seq<byte>, h2: seq<byte>, bytes: seq<byte>)
    requires Pending(h1) == Pending(h2)
    ensures Deliveries(srcbits, h1, bytes) == Deliveries(srcbits, h2, bytes)
    decreases |bytes|
  {
    if bytes != [] {
      PendingSnoc(h1, bytes[0]);
      PendingSnoc(h2, bytes[0]);
      DeliveriesLocal(srcbits, h1 + [bytes[0]], h2 + [bytes[0]], bytes[1..]);
    }
  }

  /** One end-of-message slice wipes out any garbage before it, whatever follows. */
  lemma SelfSynchronisation(srcbits: nat, garbage: seq<byte>, end: byte, bytes: seq<byte>)
    requires EndsMessage(end)
    ensures Deliveries(srcbits, garbage + [end], bytes) == Deliveries(srcbits, [], bytes)
  {
    PendingSnoc(garbage, end);
    DeliveriesLocal(srcbits, garbage + [end], [], bytes);
  }

  /** In particular every later message is recovered exactly. */
  lemma RecoveryAfterGarbage(srcbits: nat, garbage: seq<byte>, end: byte, msgs: seq<Acquisition>)
    requires srcbits <= MAX_SRCBITS && EndsMessage(end)
    requires forall i :: 0 <= i < |msgs| ==> msgs[i].Valid()
    ensures Deliveries(srcbits, garbage + [end], Concat(Encoded(srcbits, msgs)))
         == Schedule(Encoded(srcbits, msgs), ExpectedAll(srcbits, msgs))
  {
    PendingSnoc(garbage, end);
    RoundTrip(srcbits, garbage + [end], msgs);
  }
}

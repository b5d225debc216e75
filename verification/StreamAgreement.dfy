/**
 The messages of the two decoders from the same arbitrary bytes, in order; and when the pull decoder stores one
 that the push decoder does not deliver.
 */
module StreamAgreement {
  import opened Bits
  import opened NexusWire
  import opened MessageBuilder
  import opened PushDecoder
  import Codec = CodecRoundTrip
  import opened FieldReader
  import opened PullDecoder
  import opened Framing
  import opened DecoderAgreement
  import opened FrameAgreement
  import opened MessageGrammar

  // ----- marks

  /** How many slices carry a framing mark. */
  function Marks(s: seq<byte>): (n: nat)
    ensures n <= |s|
  {
    if s == [] then 0 else Marks(s[..|s| - 1]) + if Mseo(s[|s| - 1]) == MSEO_NORMAL then 0 else 1
  }

  lemma {:induction false} MarksAppend(a: seq<byte>, b: seq<byte>)
    ensures Marks(a + b) == Marks(a) + Marks(b)
    decreases |b|
  {
    if b == [] {
      assert a + b == a;
    } else {
      assert (a + b)[..|a + b| - 1] == a + b[..|b| - 1];
      MarksAppend(a, b[..|b| - 1]);
    }
  }

  lemma {:induction false} FieldsAreMarked(body: seq<byte>)
    ensures |Fields(body).fields| == Marks(body)
    decreases |body|
  {
    if body != [] {
      FieldsAreMarked(body[..|body| - 1]);
    }
  }

  lemma {:induction false} NoMarks(s: seq<byte>)
    requires forall i :: 0 <= i < |s| ==> Mseo(s[i]) == MSEO_NORMAL
    ensures Marks(s) == 0
    decreases |s|
  {
    if s != [] {
      NoMarks(s[..|s| - 1]);
    }
  }

  /** A variable field ends with the only mark of its slices. */
  lemma OneMark(m: seq<byte>, p: nat, q: nat)
    requires IsField(m, VarField, p, q)
    ensures p / 6 < q / 6 <= |m| && Marks(m[p / 6..q / 6]) == 1
  {
    var s := m[p / 6..q / 6];
    NoMarks(s[..|s| - 1]);
  }

  /** The marks that a reading of variable fields uses up, one each. */
  lemma {:induction false} ChainMarks(m: seq<byte>, p: nat, kinds: seq<FieldKind>, cuts: seq<nat>)
    requires Separates(m, p, kinds, cuts) && forall k :: 0 <= k < |kinds| ==> kinds[k] == VarField
    requires kinds != [] || p % 6 == 0
    ensures p / 6 <= cuts[|kinds|] / 6 && (kinds != [] ==> cuts[|kinds|] / 6 <= |m|)
    ensures p / 6 <= |m| ==> cuts[|kinds|] / 6 <= |m| && Marks(m[p / 6..cuts[|kinds|] / 6]) == |kinds|
    decreases |kinds|
  {
    hide IsField;
    if kinds == [] {
      assert p / 6 <= |m| ==> m[p / 6..p / 6] == [];
    } else {
      var q := cuts[1];
      assert IsField(m, kinds[0], p, q);
      OneMark(m, p, q);
      EndsSlice(m, p, q);
      ChainMarks(m, q, kinds[1..], cuts[1..]);
      var last := cuts[|kinds|] / 6;
      assert m[p / 6..q / 6] + m[q / 6..last] == m[p / 6..last];
      MarksAppend(m[p / 6..q / 6], m[q / 6..last]);
    }
  }

  lemma EndsSlice(m: seq<byte>, p: nat, q: nat)
    requires IsField(m, VarField, p, q)
    ensures q % 6 == 0
  {
  }

  // ----- one message

  /** The source leaves a bit of its field to the tag. */
  predicate Roomy(srcbits: nat, f: seq<byte>)
  {
    forall i :: 1 <= i < |f| && 6 * i <= srcbits ==> Mseo(f[i]) == MSEO_NORMAL
  }

  lemma FirstMark(m: seq<byte>, p: nat, kinds: seq<FieldKind>, cuts: seq<nat>)
    requires Separates(m, p, kinds, cuts) && kinds != [] && kinds[0] == VarField
    ensures p / 6 < |m|
  {
    hide IsField;
    assert IsField(m, kinds[0], cuts[0], cuts[1]);
    OneMark(m, p, cuts[1]);
  }

  /** A message can only be read as a data acquisition message with two or three marks after the source. */
  lemma MarksOfReading(srcbits: nat, f: seq<byte>, r: Reading)
    requires f != [] && Mdo(f[0]) == TCODE_DATA_ACQUISITION && IsReading(srcbits, f, r)
    ensures 1 + srcbits / 6 < |f| && Marks(f[1 + srcbits / 6..]) == if r.stamped then 3 else 2
  {
    hide IsField, Values;
    var kinds := [VarField, VarField] + r.more + Stamp(r.stamped);
    assert r.more == [];
    assert forall k :: 0 <= k < |kinds| ==> kinds[k] == VarField;
    assert Separates(f, 6 + srcbits, kinds, r.cuts);
    ChainMarks(f, 6 + srcbits, kinds, r.cuts);
    FirstMark(f, 6 + srcbits, kinds, r.cuts);
    assert (6 + srcbits) / 6 == 1 + srcbits / 6;
    assert r.cuts[|kinds|] / 6 == |f| && f[1 + srcbits / 6..|f|] == f[1 + srcbits / 6..];
  }

  lemma MarksBefore(srcbits: nat, f: seq<byte>)
    requires 1 + srcbits / 6 < |f|
    ensures Marks(f[1..]) >= Marks(f[1 + srcbits / 6..])
    ensures Roomy(srcbits, f) ==> Marks(f[1..]) == Marks(f[1 + srcbits / 6..])
  {
    var n := 1 + srcbits / 6;
    assert f[1..n] + f[n..] == f[1..];
    MarksAppend(f[1..n], f[n..]);
    if Roomy(srcbits, f) {
      forall i | 0 <= i < n - 1
        ensures Mseo(f[1..n][i]) == MSEO_NORMAL
      {
        assert f[1..n][i] == f[i + 1];
      }
      NoMarks(f[1..n]);
    }
  }

  /** In a framable frame, a well-formed message is one with two or three marks. */
  lemma WellFormedByMarks(f: seq<byte>)
    requires IsCut(f) && Framable(f)
    ensures WellFormed(TCODE_DATA_ACQUISITION, f[1..]) <==> 2 <= Marks(f[1..]) <= 3
    ensures IsMessage(f)
  {
    FieldsAreMarked(f[1..]);
    FieldsShort(f[1..]);
    assert f[1..][|f| - 2] == Last(f);
  }

  lemma {:induction false} FieldsShort(body: seq<byte>)
    ensures var b := Fields(body);
            |b.tail| <= |body| && forall i :: 0 <= i < |b.fields| ==> |b.fields[i]| <= |body|
    decreases |body|
  {
    if body != [] {
      FieldsShort(body[..|body| - 1]);
    }
  }

  /**
   Where both decoders cut a data acquisition message, the pull decoder stores one that the push decoder does not
   deliver if and only if it can be read and has more than three marks: the source must have covered some.
   */
  lemma StoredNotDelivered(srcbits: nat, f: seq<byte>)
    requires srcbits <= MAX_SRCBITS && IsCut(f) && Framable(f) && Mdo(f[0]) == TCODE_DATA_ACQUISITION
    ensures ParseMessage(srcbits, f).DataMessage? && OfFrame(srcbits, f) == None
       <==> Readable(srcbits, f) && Marks(f[1..]) > 3
    ensures Readable(srcbits, f) && Marks(f[1..]) > 3 ==> !Roomy(srcbits, f)
  {
    hide ParseMessage, WellFormed, Contents, IsReading, Roomy, IsCut, Framable;
    WellFormedByMarks(f);
    AcceptedExactly(srcbits, f);
    OnlyData(srcbits, f);
    if r :| IsReading(srcbits, f, r) {
      MarksOfReading(srcbits, f, r);
      MarksBefore(srcbits, f);
    }
  }

  lemma OnlyData(srcbits: nat, f: seq<byte>)
    requires |f| >= 2
    ensures var r := ParseMessage(srcbits, f);
            if Mdo(f[0]) == TCODE_DATA_ACQUISITION then r.DataMessage? || r.Bad? else !r.DataMessage?
  {
    hide Value, FieldBits, ParseTag, ParseOtherFields, Layout;
    FirstSlice(f);
  }

  /** It does happen: three marks after a source of twelve bits, and two more in it. */
  lemma StoredExample()
    ensures var f: seq<byte> := [0x1c, 1, 1, 1, 1, 3];
            ParseMessage(12, f).DataMessage? && OfFrame(12, f) == None
  {
    hide ParseMessage;
    var f: seq<byte> := [0x1c, 1, 1, 1, 1, 3];
    var r := Reading([], true, [18, 24, 30, 36]);
    assert [VarField, VarField] + [] + Stamp(true) == [VarField, VarField, VarField];
    assert IsReading(12, f, r);
    AllMarks(f[1..]);
    StoredNotDelivered(12, f);
  }

  lemma {:induction false} AllMarks(s: seq<byte>)
    requires forall i :: 0 <= i < |s| ==> Mseo(s[i]) != MSEO_NORMAL
    ensures Marks(s) == |s|
    decreases |s|
  {
    if s != [] {
      AllMarks(s[..|s| - 1]);
    }
  }

  /** If it is a data acquisition message, its source leaves a tag bit in the first field. */
  predicate SourceFits(srcbits: nat, f: seq<byte>)
  {
    f != [] && Mdo(f[0]) == TCODE_DATA_ACQUISITION ==> Roomy(srcbits, f)
  }

  /** A frame that both decoders cut alike and take the same message from. */
  predicate Agreeable(srcbits: nat, f: seq<byte>) { IsCut(f) && Framable(f) && SourceFits(srcbits, f) }

  /** What the pull decoder stores of a frame, if anything, is what the push decoder delivers, if anything. */
  lemma SameMessage(srcbits: nat, f: seq<byte>)
    requires srcbits <= MAX_SRCBITS && Agreeable(srcbits, f)
    requires !ParseMessage(srcbits, f).Bad?
    ensures var d := OfFrame(srcbits, f);
            if d.Some? then ParseMessage(srcbits, f) == DataMessage(AsAcquired(d.value))
            else !ParseMessage(srcbits, f).DataMessage?
  {
    hide ParseMessage, Contents, AllAccepted, Roomy, IsReading;
    OnlyData(srcbits, f);
    if Mdo(f[0]) == TCODE_DATA_ACQUISITION {
      WellFormedByMarks(f);
      if WellFormed(TCODE_DATA_ACQUISITION, f[1..]) {
        FrameOfFields(f);
        AgreeOnFrame(srcbits, Fields(f[1..]).fields);
        RoomInFirst(srcbits, f);
      } else {
        StoredNotDelivered(srcbits, f);
      }
    }
  }

  /** The first field is longer than the source. */
  lemma RoomInFirst(srcbits: nat, f: seq<byte>)
    requires Roomy(srcbits, f) && |f| >= 2
    requires var runs := Fields(f[1..]).fields; Codec.Framed(runs) && Codec.Frame(runs) == f
    ensures srcbits < 6 * |Fields(f[1..]).fields[0]|
  {
    hide Fields;
    var runs := Fields(f[1..]).fields;
    var n := |runs[0]|;
    assert f[1..][..n] == runs[0];
    assert f[n] == f[1..][n - 1] == runs[0][n - 1];
  }

  // ----- streams

  /** The messages among what comes out byte by byte. */
  function Messages(out: seq<Option<DataAcquisition>>): seq<DataAcquisition>
  {
    if out == [] then [] else (if out[0].Some? then [out[0].value] else []) + Messages(out[1..])
  }

  lemma {:induction false} MessagesAppend(a: seq<Option<DataAcquisition>>, b: seq<Option<DataAcquisition>>)
    ensures Messages(a + b) == Messages(a) + Messages(b)
  {
    if a == [] {
      assert a + b == b;
    } else {
      MessagesAppend(a[1..], b);
      assert (a + b)[1..] == a[1..] + b && (a + b)[0] == a[0];
      var first := if a[0].Some? then [a[0].value] else [];
      assert first + (Messages(a[1..]) + Messages(b)) == (first + Messages(a[1..])) + Messages(b);
    }
  }

  /** The messages of frames. */
  function OfFrames(srcbits: nat, frames: seq<seq<byte>>): seq<DataAcquisition>
  {
    if frames == [] then []
    else
      var d := OfFrame(srcbits, frames[0]);
      (if d.Some? then [d.value] else []) + OfFrames(srcbits, frames[1..])
  }

  lemma {:induction false} OfFramesAppend(srcbits: nat, a: seq<seq<byte>>, b: seq<seq<byte>>)
    ensures OfFrames(srcbits, a + b) == OfFrames(srcbits, a) + OfFrames(srcbits, b)
  {
    hide OfFrame;
    if a == [] {
      assert a + b == b;
    } else {
      OfFramesAppend(srcbits, a[1..], b);
      assert (a + b)[1..] == a[1..] + b && (a + b)[0] == a[0];
      var d := OfFrame(srcbits, a[0]);
      var first, rest := if d.Some? then [d.value] else [], OfFrames(srcbits, a[1..]);
      assert OfFrames(srcbits, a + b) == first + OfFrames(srcbits, a[1..] + b);
      Regroup(first, rest, OfFrames(srcbits, b));
    }
  }

  lemma Regroup(a: seq<DataAcquisition>, b: seq<DataAcquisition>, c: seq<DataAcquisition>)
    ensures a + (b + c) == (a + b) + c
  {
  }

  /** Every frame of the push decoder is cut as such. */
  lemma {:induction false} AllCut(bytes: seq<byte>)
    ensures forall i :: 0 <= i < |PushFrames(bytes)| ==> IsCut(PushFrames(bytes)[i])
    decreases |bytes|
  {
    hide PushCut, IsCut;
    if bytes != [] {
      var init, last := bytes[..|bytes| - 1], bytes[|bytes| - 1];
      AllCut(init);
      AtMostOneCut(init, last);
      if PushCut(init, last) != [] {
        CutShape(init, last);
      }
    }
  }

  lemma AtMostOneCut(history: seq<byte>, last: byte)
    ensures |PushCut(history, last)| <= 1
  {
  }

  /** Over a whole stream, the push decoder delivers the messages of its frames, in order. */
  lemma {:induction false} DeliveredInOrder(srcbits: nat, bytes: seq<byte>)
    ensures Messages(Deliveries(srcbits, [], bytes)) == OfFrames(srcbits, PushFrames(bytes))
    decreases |bytes|
  {
    hide PushCut, IsCut, OfFrame, Delivered;
    if bytes != [] {
      var init, last := bytes[..|bytes| - 1], bytes[|bytes| - 1];
      DeliveredInOrder(srcbits, init);
      AtMostOneCut(init, last);
      DeliveredIsOfFrame(srcbits, init, last);
      assert init + [last] == bytes && [] + init == init;
      Codec.DeliveriesAppend(srcbits, [], init, [last]);
      LastDelivery(srcbits, init, last);
      MessagesAppend(Deliveries(srcbits, [], init), [Delivered(srcbits, init, last)]);
      var cut := PushCut(init, last);
      OfFramesAppend(srcbits, PushFrames(init), cut);
      if cut != [] {
        assert cut == [cut[0]] && cut[1..] == [];
      }
    }
  }

  lemma LastDelivery(srcbits: nat, init: seq<byte>, last: byte)
    ensures Deliveries(srcbits, init, [last]) == [Delivered(srcbits, init, last)]
    ensures Messages([Delivered(srcbits, init, last)])
         == var d := Delivered(srcbits, init, last); if d.Some? then [d.value] else []
  {
    hide Delivered;
    assert [last][1..] == [] && [Delivered(srcbits, init, last)][1..] == [];
  }

  function DataOnly(reports: seq<Report>): seq<Report>
  {
    if reports == [] then [] else (if reports[0].DataMessage? then [reports[0]] else []) + DataOnly(reports[1..])
  }

  lemma DataOnlyFirst(r: Report, rest: seq<Report>)
    ensures DataOnly(Shown(r) + rest) == (if r.DataMessage? then [r] else []) + DataOnly(rest)
  {
    if r.Unsupported? {
      assert [] + rest == rest;
    } else {
      assert ([r] + rest)[1..] == rest;
    }
  }

  /** The frames before the first one that stops the pull decoder. */
  function BeforeStop(srcbits: nat, frames: seq<seq<byte>>): (n: nat)
    ensures n <= |frames|
  {
    if frames == [] || Stops(srcbits, Framed(frames[0])) then 0 else 1 + BeforeStop(srcbits, frames[1..])
  }

  lemma {:induction false} ReportedInOrder(srcbits: nat, frames: seq<seq<byte>>)
    requires srcbits <= MAX_SRCBITS && forall i :: 0 <= i < |frames| ==> Agreeable(srcbits, frames[i])
    ensures DataOnly(Reports(srcbits, Frames(frames)))
         == AsReports(OfFrames(srcbits, frames[..BeforeStop(srcbits, frames)]))
  {
    hide ParseMessage, OfFrame, Roomy, Framable;
    if frames == [] {
      assert Frames(frames) == [];
    } else {
      assert Agreeable(srcbits, frames[0]);
      ReportedInOrder(srcbits, frames[1..]);
      assert Frames(frames) == [Framed(frames[0])] + Frames(frames[1..]);
      if Stops(srcbits, Framed(frames[0])) {
        assert frames[..0] == [];
      } else {
        FirstReported(srcbits, frames);
      }
    }
  }

  lemma FirstShown(srcbits: nat, frames: seq<seq<byte>>)
    requires frames != [] && !Stops(srcbits, Framed(frames[0]))
    ensures Reports(srcbits, Frames(frames))
         == Shown(ParseMessage(srcbits, frames[0])) + Reports(srcbits, Frames(frames[1..]))
  {
    hide ParseMessage, Shown;
    assert Frames(frames) == [Framed(frames[0])] + Frames(frames[1..]);
  }

  lemma FirstOfFrames(srcbits: nat, f: seq<byte>, rest: seq<seq<byte>>)
    ensures var d := OfFrame(srcbits, f);
            OfFrames(srcbits, [f] + rest) == (if d.Some? then [d.value] else []) + OfFrames(srcbits, rest)
  {
    hide OfFrame;
    assert ([f] + rest)[1..] == rest;
  }

  lemma FirstReported(srcbits: nat, frames: seq<seq<byte>>)
    requires srcbits <= MAX_SRCBITS && frames != [] && Agreeable(srcbits, frames[0])
    requires !Stops(srcbits, Framed(frames[0]))
    requires DataOnly(Reports(srcbits, Frames(frames[1..])))
          == AsReports(OfFrames(srcbits, frames[1..][..BeforeStop(srcbits, frames[1..])]))
    ensures DataOnly(Reports(srcbits, Frames(frames)))
         == AsReports(OfFrames(srcbits, frames[..BeforeStop(srcbits, frames)]))
  {
    hide ParseMessage, OfFrame, Agreeable, DataOnly, Shown, Reports, OfFrames, Frames;
    var f, rest, n := frames[0], frames[1..], BeforeStop(srcbits, frames[1..]);
    FirstShown(srcbits, frames);
    SameMessage(srcbits, f);
    DataOnlyFirst(ParseMessage(srcbits, f), Reports(srcbits, Frames(rest)));
    var d, later := OfFrame(srcbits, f), OfFrames(srcbits, rest[..n]);
    FirstOfFrames(srcbits, f, rest[..n]);
    assert frames[..n + 1] == [f] + rest[..n];
    if d.Some? {
      assert AsReports([d.value] + later) == [DataMessage(AsAcquired(d.value))] + AsReports(later);
    } else {
      assert [] + later == later;
    }
  }

  /**
   On arbitrary bytes whose frames both decoders cut, none with a source that takes up the first field: the data
   acquisition messages that the pull decoder reports are those that the push decoder delivers, in order, up to
   the first frame that stops the pull decoder. So they are the same if and only if it delivers none from there on.
   */
  lemma SameMessages(srcbits: nat, bytes: seq<byte>)
    requires srcbits <= MAX_SRCBITS && AllFramable(PushFrames(bytes)) && |PullFrom(Pending(bytes))| < MSG_SIZE
    requires forall i :: 0 <= i < |PushFrames(bytes)| ==> SourceFits(srcbits, PushFrames(bytes)[i])
    ensures var frames := PushFrames(bytes);
            var n := BeforeStop(srcbits, frames);
            var reported := DataOnly(Reports(srcbits, Events(bytes)));
            var delivered := AsReports(Messages(Deliveries(srcbits, [], bytes)));
            && reported == AsReports(OfFrames(srcbits, frames[..n])) && reported <= delivered
            && (reported == delivered <==> OfFrames(srcbits, frames[n..]) == [])
  {
    hide BeforeStop, OfFrames, PushFrames, Pending, PullFrom, Deliveries, Messages, Reports, DataOnly,
         SourceFits, Framable, IsCut;
    var frames := PushFrames(bytes);
    SameFrames(bytes);
    AllCut(bytes);
    ReportedInOrder(srcbits, frames);
    DeliveredInOrder(srcbits, bytes);
    var n := BeforeStop(srcbits, frames);
    assert frames == frames[..n] + frames[n..];
    OfFramesAppend(srcbits, frames[..n], frames[n..]);
    AsReportsAppend(OfFrames(srcbits, frames[..n]), OfFrames(srcbits, frames[n..]));
  }

  lemma AsReportsAppend(a: seq<DataAcquisition>, b: seq<DataAcquisition>)
    ensures AsReports(a + b) == AsReports(a) + AsReports(b)
    ensures AsReports(a + b) == AsReports(a) <==> b == []
  {
    if b != [] {
      assert |AsReports(a + b)| == |a| + |b|;
    } else {
      assert a + b == a;
    }
  }
}

/**
 The frames that the two decoders cut out of the same arbitrary bytes: exactly when they are the same, and
 what both then make of a message.
 */
module FrameAgreement {
  import opened NexusWire
  import opened MessageBuilder
  import opened PushDecoder
  import Codec = CodecRoundTrip
  import opened FieldReader
  import opened PullDecoder
  import opened Framing
  import opened DecoderAgreement

  // ----- where a message begins

  /** The slices from the first on that opens a message for the push decoder, if there is one. */
  function PushFrom(segment: seq<byte>): (f: seq<byte>)
    ensures f != [] ==> Mseo(f[0]) == MSEO_NORMAL
  {
    if segment == [] || Mseo(segment[0]) == MSEO_NORMAL then segment else PushFrom(segment[1..])
  }

  /** The same for the pull decoder, which skips zeros. */
  function PullFrom(segment: seq<byte>): (f: seq<byte>)
    ensures f != [] ==> StartsMessage(f[0])
  {
    if segment == [] || StartsMessage(segment[0]) then segment else PullFrom(segment[1..])
  }

  lemma {:induction false} OpeningIsFrom(segment: seq<byte>)
    ensures var f := PushFrom(segment);
            Opening(segment) == if f == [] then Hunting else Open(Mdo(f[0]), f[1..])
  {
    if segment != [] && Mseo(segment[0]) != MSEO_NORMAL {
      OpeningIsFrom(segment[1..]);
    }
  }

  lemma {:induction false} PullFromSnoc(segment: seq<byte>, b: byte)
    ensures var f := PullFrom(segment);
            PullFrom(segment + [b]) == if f != [] then f + [b] else if StartsMessage(b) then [b] else []
  {
    if segment == [] {
      assert [] + [b] == [b] && [b][1..] == [];
    } else if !StartsMessage(segment[0]) {
      assert (segment + [b])[1..] == segment[1..] + [b];
      PullFromSnoc(segment[1..], b);
    }
  }

  /** The two beginnings are the same unless the push decoder's is a zero. */
  lemma {:induction false} SameBeginning(segment: seq<byte>)
    ensures PushFrom(segment) == [] || PushFrom(segment)[0] != 0 ==> PullFrom(segment) == PushFrom(segment)
  {
    if segment != [] && Mseo(segment[0]) != MSEO_NORMAL {
      SameBeginning(segment[1..]);
    }
  }

  // ----- frames of the push decoder

  /** What the push decoder cuts at a byte: the message that is open, closed by it. */
  function PushCut(history: seq<byte>, last: byte): seq<seq<byte>>
  {
    if EndsMessage(last) && PushFrom(Pending(history)) != [] then [PushFrom(Pending(history)) + [last]] else []
  }

  function PushFrames(bytes: seq<byte>): seq<seq<byte>>
  {
    if bytes == [] then []
    else PushFrames(bytes[..|bytes| - 1]) + PushCut(bytes[..|bytes| - 1], bytes[|bytes| - 1])
  }

  /** The message of a frame. */
  function OfFrame(srcbits: nat, f: seq<byte>): Option<DataAcquisition>
  {
    if |f| >= 2 && WellFormed(Mdo(f[0]), f[1..]) then Some(Contents(srcbits, Payloads(Fields(f[1..]).fields))) else None
  }

  /** The push decoder delivers exactly the messages of its frames. */
  lemma DeliveredIsOfFrame(srcbits: nat, history: seq<byte>, last: byte)
    ensures var cut := PushCut(history, last);
            && (cut == [] ==> Delivered(srcbits, history, last) == None)
            && (cut != [] ==> |cut[0]| >= 2 && Delivered(srcbits, history, last) == OfFrame(srcbits, cut[0]))
  {
    hide Contents, Fields;
    OpeningIsFrom(Pending(history));
    var f := PushFrom(Pending(history));
    assert f != [] ==> (f + [last])[1..] == f[1..] + [last];
  }

  // ----- when the frames are the same

  /** A frame of the push decoder that the pull decoder cuts too. */
  predicate Framable(f: seq<byte>) { f != [] && f[0] != 0 && Mseo(Last(f)) == MSEO_END && |f| <= MSG_SIZE }

  predicate AllFramable(frames: seq<seq<byte>>) { forall i :: 0 <= i < |frames| ==> Framable(frames[i]) }

  lemma FramableInit(a: seq<seq<byte>>, b: seq<seq<byte>>)
    ensures AllFramable(a + b) <==> AllFramable(a) && AllFramable(b)
  {
    assert forall i :: 0 <= i < |a| ==> (a + b)[i] == a[i];
    assert forall i :: 0 <= i < |b| ==> (a + b)[|a| + i] == b[i];
  }

  lemma FramesAppend(a: seq<seq<byte>>, b: seq<seq<byte>>)
    ensures Frames(a + b) == Frames(a) + Frames(b)
  {
  }

  /** As long as every frame is framable and no message is overlong, the pull decoder keeps pace. */
  lemma {:induction false} KeepsPace(bytes: seq<byte>)
    requires AllFramable(PushFrames(bytes)) && |PullFrom(Pending(bytes))| < MSG_SIZE
    ensures Run(START, bytes) == (Framer(PullFrom(Pending(bytes)), false), Frames(PushFrames(bytes)))
    decreases |bytes|
  {
    hide AllFramable, Frames;
    if bytes == [] {
      assert Frames([]) == [];
    } else {
      var init, last := bytes[..|bytes| - 1], bytes[|bytes| - 1];
      assert bytes == init + [last];
      FramableInit(PushFrames(init), PushCut(init, last));
      FramesAppend(PushFrames(init), PushCut(init, last));
      RunSnoc(START, init, last);
      TailBefore(init, last);
      KeepsPace(init);
      OnePace(init, last);
    }
  }

  lemma NoBeginning()
    ensures PullFrom([]) == []
  {
  }

  lemma TailBefore(init: seq<byte>, last: byte)
    requires AllFramable(PushCut(init, last)) && |PullFrom(Pending(init + [last]))| < MSG_SIZE
    ensures |PullFrom(Pending(init))| < MSG_SIZE
  {
    PendingSnoc(init, last);
    SameBeginning(Pending(init));
    if EndsMessage(last) && PushFrom(Pending(init)) != [] {
      assert Framable(PushCut(init, last)[0]);
    } else if !EndsMessage(last) {
      PullFromSnoc(Pending(init), last);
    }
  }

  lemma OnePace(init: seq<byte>, last: byte)
    requires AllFramable(PushCut(init, last)) && |PullFrom(Pending(init + [last]))| < MSG_SIZE
    ensures Step(Framer(PullFrom(Pending(init)), false), last)
         == (Framer(PullFrom(Pending(init + [last])), false), Frames(PushCut(init, last)))
  {
    hide Pending, PushFrom, PullFrom;
    var before := Pending(init);
    PendingSnoc(init, last);
    assert PullFrom([]) == [] by { NoBeginning(); }
    SameBeginning(before);
    PullFromSnoc(before, last);
    if EndsMessage(last) && PushFrom(before) != [] {
      assert Framable(PushCut(init, last)[0]);
      assert PullFrom(before) == PushFrom(before);
      assert Frames(PushCut(init, last)) == [Framed(PullFrom(before) + [last])];
    } else {
      assert Frames(PushCut(init, last)) == [];
    }
  }

  lemma {:induction false} OverlongTailOverflows(bytes: seq<byte>)
    requires AllFramable(PushFrames(bytes)) && |PullFrom(Pending(bytes))| >= MSG_SIZE
    ensures Overflow in Events(bytes)
    decreases |bytes|
  {
    hide AllFramable, Frames;
    var init, last := bytes[..|bytes| - 1], bytes[|bytes| - 1];
    assert bytes == init + [last];
    PendingSnoc(init, last);
    PullFromSnoc(Pending(init), last);
    FramableInit(PushFrames(init), PushCut(init, last));
    RunSnoc(START, init, last);
    if |PullFrom(Pending(init))| >= MSG_SIZE {
      OverlongTailOverflows(init);
    } else {
      KeepsPace(init);
      var f := Framer(PullFrom(Pending(init)), false);
      assert Step(f, last).1 == [Overflow];
      assert Events(bytes)[|Events(init)|] == Overflow;
    }
  }

  /**
   On arbitrary bytes, the pull decoder frames exactly what the push decoder cuts if and only if every frame
   of the push decoder begins with no zero, is ended by an end-of-message slice proper and has at most 64
   slices, and the message left open at the end has fewer.
   */
  lemma SameFrames(bytes: seq<byte>)
    ensures Events(bytes) == Frames(PushFrames(bytes))
       <==> AllFramable(PushFrames(bytes)) && |PullFrom(Pending(bytes))| < MSG_SIZE
  {
    var frames := PushFrames(bytes);
    if AllFramable(frames) && |PullFrom(Pending(bytes))| < MSG_SIZE {
      KeepsPace(bytes);
    } else if Events(bytes) == Frames(frames) {
      forall i | 0 <= i < |frames|
        ensures Framable(frames[i])
      {
        assert Events(bytes)[i] == Framed(frames[i]);
        FramedIsMessage(bytes, i);
      }
      assert Overflow !in Frames(frames);
      OverlongTailOverflows(bytes);
    }
  }

  // ----- what the decoders make of such a frame

  /** A frame as the push decoder cuts it: no slice but the last ends a message. */
  predicate IsCut(f: seq<byte>)
  {
    && |f| >= 2 && Mseo(f[0]) == MSEO_NORMAL && EndsMessage(Last(f))
    && forall i :: 0 <= i < |f| - 1 ==> !EndsMessage(f[i])
  }

  lemma {:induction false} NoEndsPending(history: seq<byte>)
    ensures forall i :: 0 <= i < |Pending(history)| ==> !EndsMessage(Pending(history)[i])
    decreases |history|
  {
    if history != [] {
      NoEndsPending(history[..|history| - 1]);
    }
  }

  lemma {:induction false} FromIsSuffix(segment: seq<byte>)
    ensures var f := PushFrom(segment); |f| <= |segment| && f == segment[|segment| - |f|..]
  {
    if segment != [] && Mseo(segment[0]) != MSEO_NORMAL {
      FromIsSuffix(segment[1..]);
    }
  }

  lemma CutShape(history: seq<byte>, last: byte)
    requires PushCut(history, last) != []
    ensures IsCut(PushCut(history, last)[0])
  {
    NoEndsPending(history);
    FromIsSuffix(Pending(history));
  }

  /** The fields of a body whose only end-of-message slice is its last. */
  lemma {:induction false} RunsOfBody(body: seq<byte>)
    requires forall i :: 0 <= i < |body| ==> !EndsMessage(body[i])
    ensures var b := Fields(body);
            && Concat(b.fields) + b.tail == body
            && (forall i :: 0 <= i < |b.fields| ==> IsRun(b.fields[i], MSEO_VAR_END))
            && (forall i :: 0 <= i < |b.tail| ==> Mseo(b.tail[i]) == MSEO_NORMAL)
    decreases |body|
  {
    hide Fields, Concat;
    if body == [] {
      NoFields();
    } else {
      var init, last := body[..|body| - 1], body[|body| - 1];
      RunsOfBody(init);
      assert init + [last] == body;
      var b := Fields(init);
      FieldsSnoc(init, last);
      ConcatSnoc(b.fields, b.tail + [last]);
      assert Concat(b.fields) + (b.tail + [last]) == (Concat(b.fields) + b.tail) + [last];
    }
  }

  lemma NoFields()
    ensures Fields([]) == Body([], []) && Concat([]) == []
  {
  }

  /** A framable frame with a data acquisition message is a frame of its fields. */
  lemma FrameOfFields(f: seq<byte>)
    requires IsCut(f) && Framable(f) && WellFormed(Mdo(f[0]), f[1..])
    ensures var runs := Fields(f[1..]).fields; Codec.Framed(runs) && Codec.Frame(runs) == f
  {
    hide Fields, Concat;
    var body, last := f[1..|f| - 1], f[|f| - 1];
    assert f[1..] == body + [last];
    RunsOfBody(body);
    FieldsSnoc(body, last);
    var b := Fields(body);
    LastRun(b.fields, b.tail, body, last);
    assert f[0] == TCODE_SLICE;
    assert f == [f[0]] + f[1..];
  }

  lemma LastRun(fields: seq<seq<byte>>, tail: seq<byte>, body: seq<byte>, last: byte)
    requires Concat(fields) + tail == body && Mseo(last) == MSEO_END
    requires forall i :: 0 <= i < |fields| ==> IsRun(fields[i], MSEO_VAR_END)
    requires forall i :: 0 <= i < |tail| ==> Mseo(tail[i]) == MSEO_NORMAL
    ensures Codec.Marked(fields + [tail + [last]]) && Concat(fields + [tail + [last]]) == body + [last]
  {
    ConcatSnoc(fields, tail + [last]);
    assert Concat(fields) + (tail + [last]) == (Concat(fields) + tail) + [last];
    assert IsRun(tail + [last], MSEO_END);
  }

  /**
   On arbitrary bytes, for a message that the push decoder delivers from a frame that both cut, the pull
   decoder stores the same if and only if the source leaves room for a tag bit and no field trips the
   overflow check.
   */
  lemma AgreeOnBytes(srcbits: nat, history: seq<byte>, last: byte)
    requires srcbits <= MAX_SRCBITS && Delivered(srcbits, history, last).Some?
    requires AllFramable(PushCut(history, last))
    ensures PushCut(history, last) != []
    ensures var f, m := PushCut(history, last)[0], Delivered(srcbits, history, last).value;
            var runs := if |f| > 0 then Fields(f[1..]).fields else [];
            && Codec.Framed(runs)
            && (ParseMessage(srcbits, f) == DataMessage(AsAcquired(m))
                <==> srcbits < 6 * |runs[0]| && AllAccepted(srcbits, runs))
  {
    hide Contents, ParseMessage, AllAccepted;
    DeliveredIsOfFrame(srcbits, history, last);
    CutShape(history, last);
    var f := PushCut(history, last)[0];
    FrameOfFields(f);
    AgreeOnFrame(srcbits, Fields(f[1..]).fields);
  }
}

/**
 The push decoder of the SWT server: bytes go in one at a time, and a message comes out with the
 byte that completes it. `NexusStream.AppendByteAndCheckForMessage` is proved to deliver exactly what
 the grammar in `NexusWire` says, for every byte stream.
 */
module PushDecoder {
  import opened Bits
  import opened NexusWire
  import opened BitBuffer

  /** Widest source field the 32-bit `src` member can hold. */
  const MAX_SRCBITS := 32

  const MAX_DATA := 4096

  /** The message under construction once field number `index` with payload `bits` is stored. */
  function Place(srcbits: nat, m: DataAcquisition, index: nat, bits: seq<bool>): DataAcquisition
  {
    match index
    case 0 =>
      var tagged := m.(idtag := Uint32(Value(After(bits, srcbits))));
      if srcbits != 0 then tagged.(haveSrc := true, src := Value(Window(bits, 0, srcbits))) else tagged
    case 1 => m.(dqdata := Uint32(Value(bits)))
    case 2 => m.(haveTimestamp := true, timestamp := Uint64(Value(bits)))
    case _ => m
  }

  /** The message under construction after the given fields; fields that overflowed are not stored. */
  function Collected(srcbits: nat, fields: seq<seq<byte>>): DataAcquisition
  {
    if fields == [] then NO_MESSAGE
    else
      var n := |fields| - 1;
      var before := Collected(srcbits, fields[..n]);
      if |fields[n]| <= MAX_FIELD_SLICES then Place(srcbits, before, n, FieldBits(fields[n])) else before
  }

  lemma CollectedSnoc(srcbits: nat, fields: seq<seq<byte>>, run: seq<byte>)
    ensures var before := Collected(srcbits, fields);
            Collected(srcbits, fields + [run]) ==
            if |run| <= MAX_FIELD_SLICES then Place(srcbits, before, |fields|, FieldBits(run)) else before
  {
    assert (fields + [run])[..|fields|] == fields;
  }

  /** Storing the fields one by one yields the message the grammar assigns to them together. */
  lemma {:induction false} CollectedIsContents(srcbits: nat, fields: seq<seq<byte>>)
    requires |fields| >= 2 && Fits(fields)
    ensures Collected(srcbits, fields) == Contents(srcbits, Payloads(fields))
  {
    var n := |fields| - 1;
    if n == 1 {
      assert fields[..1] == [fields[0]];
      CollectedSnoc(srcbits, [], fields[0]);
      assert [] + [fields[0]] == fields[..1];
    } else {
      CollectedIsContents(srcbits, fields[..n]);
      assert forall i :: 0 <= i < n ==> Payloads(fields)[i] == Payloads(fields[..n])[i];
    }
  }

  class NexusMessageReassembler {
    const srcbits: nat
    var acceptingMessage: bool
    var fieldcount: nat
    var messageHasOverflowedField: bool
    var messageReady: bool
    var dqm: DataAcquisition

    constructor (srcbits: nat)
      ensures this.srcbits == srcbits
      ensures !acceptingMessage && !messageReady && !messageHasOverflowedField && fieldcount == 0
    {
      this.srcbits := srcbits;
      acceptingMessage, fieldcount := false, 0;
      messageHasOverflowedField, messageReady := false, false;
      dqm := NO_MESSAGE;
    }

    method StartMessage(tcode: nat)
      modifies this
      ensures !messageReady && !messageHasOverflowedField && fieldcount == 0
      ensures dqm == NO_MESSAGE && (acceptingMessage <==> tcode == TCODE_DATA_ACQUISITION)
    {
      messageReady, messageHasOverflowedField := false, false;
      fieldcount := 0;
      dqm := NO_MESSAGE;
      acceptingMessage := tcode == TCODE_DATA_ACQUISITION;
    }

    method MessageData(numbits: nat, data: array<bv8>, overflowed: bool)
      requires numbits <= 8 * data.Length && srcbits <= MAX_SRCBITS <= 8 * data.Length
      requires forall p: nat :: numbits <= p < 8 * data.Length ==> !BitAt(data[..], p)
      modifies this`messageHasOverflowedField, this`dqm
      ensures messageHasOverflowedField == (old(messageHasOverflowedField) || (acceptingMessage && overflowed))
      ensures dqm == if acceptingMessage && !overflowed
                     then Place(srcbits, old(dqm), fieldcount, BitsAt(data[..], 0, numbits)) else old(dqm)
    {
      if acceptingMessage {
        if overflowed {
          messageHasOverflowedField := true;
        } else {
          match fieldcount {
            case 0 =>
              var tagBitPos := 0;
              if srcbits != 0 {
                tagBitPos := srcbits;
                var src := ReadSrc(numbits, data);
                dqm := dqm.(haveSrc := true, src := src);
              }
              var tag := ReadTag(numbits, data, tagBitPos);
              dqm := dqm.(idtag := tag);
            case 1 =>
              var val := ReadLow(numbits, data, 32);
              dqm := dqm.(dqdata := val);
            case 2 =>
              var val := ReadLow(numbits, data, 64);
              dqm := dqm.(haveTimestamp := true, timestamp := val);
            case _ =>
          }
        }
      }
    }

    /** The source field; slices missing from it read as the zeros of the cleared buffer. */
    method ReadSrc(numbits: nat, data: array<bv8>) returns (src: nat)
      requires numbits <= 8 * data.Length && 0 < srcbits <= MAX_SRCBITS <= 8 * data.Length
      requires forall p: nat :: numbits <= p < 8 * data.Length ==> !BitAt(data[..], p)
      ensures src == Value(Window(BitsAt(data[..], 0, numbits), 0, srcbits))
    {
      hide Value, BitAt;
      src := GetBits(data, 0, srcbits);
      assert BitsAt(data[..], 0, srcbits) == Window(BitsAt(data[..], 0, numbits), 0, srcbits);
      SmallValue(BitsAt(data[..], 0, srcbits), 32);
      src := Uint32(src);
    }

    /** The tag fills the rest of the field; the 64-bit intermediate is stored in 32 bits. */
    method ReadTag(numbits: nat, data: array<bv8>, tagBitPos: nat) returns (tag: nat)
      requires numbits <= 8 * data.Length && tagBitPos == srcbits
      requires MAX_SRCBITS <= 8 * data.Length && srcbits <= MAX_SRCBITS
      ensures tag == Uint32(Value(After(BitsAt(data[..], 0, numbits), srcbits)))
    {
      hide BitAt;
      var val := GetBits(data, tagBitPos, numbits - srcbits);
      if srcbits < numbits {
        assert BitsAt(data[..], srcbits, numbits - srcbits) == After(BitsAt(data[..], 0, numbits), srcbits);
        Modulo64Then32(Value(After(BitsAt(data[..], 0, numbits), srcbits)));
      } else {
        assert After(BitsAt(data[..], 0, numbits), srcbits) == [];
      }
      tag := Uint32(val);
    }

    /** `min(numbits, width)` bits of the field. */
    method ReadLow(numbits: nat, data: array<bv8>, width: nat) returns (val: nat)
      requires numbits <= 8 * data.Length && (width == 32 || width == 64)
      ensures val == Value(BitsAt(data[..], 0, numbits)) % (if width == 32 then UINT32 else UINT64)
    {
      hide BitAt;
      var n := if numbits < width then numbits else width;
      val := GetBits(data, 0, n);
      ghost var bits, low := BitsAt(data[..], 0, numbits), BitsAt(data[..], 0, n);
      assert low == if |bits| < width then bits else bits[..width];
      LowBits(bits, low, width);
      if n == 0 { assert bits == []; }
    }

    method EndField()
      modifies this`fieldcount
      ensures fieldcount == old(fieldcount) + 1
    {
      fieldcount := fieldcount + 1;
    }

    method EndMessage()
      modifies this`acceptingMessage, this`messageReady
      ensures !acceptingMessage
      ensures messageReady == (old(messageReady)
                || (old(acceptingMessage) && 2 <= fieldcount <= 3 && !messageHasOverflowedField))
    {
      if acceptingMessage {
        acceptingMessage := false;
        if fieldcount >= 2 && fieldcount <= 3 && !messageHasOverflowedField {
          messageReady := true;
        }
      }
    }

    method GetMessage() returns (msg: Option<DataAcquisition>)
      modifies this`messageReady
      ensures msg == if old(messageReady) then Some(dqm) else None
      ensures !messageReady
    {
      msg := None;
      if messageReady {
        msg := Some(dqm);
        messageReady := false;
      }
    }
  }

  lemma Modulo64Then32(v: nat)
    ensures Uint32(Uint64(v)) == Uint32(v)
  {
    var k := v / UINT64;
    assert Uint64(v) == v - (k * UINT32) * UINT32;
  }

  lemma SmallValue(bits: seq<bool>, n: nat)
    requires |bits| <= n <= 64
    ensures Value(bits) < Pow2(n) && Value(bits) < UINT64 && (n == 32 ==> Value(bits) < UINT32)
  {
    ValueBound(bits);
    Pow2Monotone(|bits|, n);
    Pow2Monotone(n, 64);
    Pow2Constants();
  }

  /** Reading only the low n bits of a field is reading it modulo 2^n. */
  lemma LowBits(bits: seq<bool>, low: seq<bool>, n: nat)
    requires n == 32 || n == 64
    requires low == if |bits| < n then bits else bits[..n]
    ensures Value(low) == Value(bits) % (if n == 32 then UINT32 else UINT64)
    ensures Value(low) < UINT64
  {
    Pow2Constants();
    SmallValue(low, n);
    if |bits| >= n { ValuePrefix(bits, n); }
  }

  class NexusSliceUnwrapper {
    const acceptor: NexusMessageReassembler
    var inMessage: bool
    const data: array<bv8>
    var datanumbits: nat
    var dataoverflowed: bool

    constructor (acceptor: NexusMessageReassembler)
      ensures this.acceptor == acceptor && fresh(data) && data.Length == MAX_DATA
      ensures !inMessage && Holds([])
    {
      this.acceptor := acceptor;
      inMessage, datanumbits, dataoverflowed := false, 0, false;
      data := new bv8[MAX_DATA](_ => 0);
      new;
      ZeroBits(data[..]);
    }

    /** The buffer holds the payload of the slices `run`, up to its capacity, and zeros above. */
    ghost predicate Holds(run: seq<byte>)
      reads this, data
    {
      var kept := if |run| <= MAX_FIELD_SLICES then run else run[..MAX_FIELD_SLICES];
      && data.Length == MAX_DATA
      && datanumbits == 6 * |kept|
      && dataoverflowed == (|run| > MAX_FIELD_SLICES)
      && BitsAt(data[..], 0, datanumbits) == FieldBits(kept)
      && forall p: nat :: datanumbits <= p < 8 * data.Length ==> !BitAt(data[..], p)
    }

    method EmptyData()
      requires data.Length == MAX_DATA
      modifies this`datanumbits, this`dataoverflowed, data
      ensures Holds([])
    {
      forall i | 0 <= i < data.Length { data[i] := 0; }
      dataoverflowed := false;
      datanumbits := 0;
      ZeroBits(data[..]);
    }

    /** The buffering half of AppendByte: one more slice of the current field. */
    method BufferSlice(b: byte, ghost run: seq<byte>)
      requires Holds(run)
      modifies this`datanumbits, this`dataoverflowed, data
      ensures Holds(run + [b])
    {
      ghost var kept := if |run| <= MAX_FIELD_SLICES then run else run[..MAX_FIELD_SLICES];
      if datanumbits < 8 * MAX_DATA - 6 {
        PutBits(Mdo(b), 6, data, datanumbits);
        BitsExtended(old(data[..]), data[..], datanumbits, 6);
        FieldBitsSnoc(run, b);
        datanumbits := datanumbits + 6;
      } else {
        dataoverflowed := true;
        assert (run + [b])[..MAX_FIELD_SLICES] == kept;
      }
    }

    method AppendByte(b: byte, ghost run: seq<byte>)
      requires inMessage ==> Holds(run)
      requires !inMessage ==> Holds([])
      requires acceptor.srcbits <= MAX_SRCBITS && acceptor.fieldcount >= 0
      modifies this`inMessage, this`datanumbits, this`dataoverflowed, data, acceptor
      ensures inMessage == if old(inMessage) then !EndsMessage(b) else Mseo(b) == MSEO_NORMAL
      // outside a message
      ensures !old(inMessage) ==> Holds([])
      ensures !old(inMessage) && inMessage ==>
                && !acceptor.messageReady && !acceptor.messageHasOverflowedField && acceptor.fieldcount == 0
                && acceptor.dqm == NO_MESSAGE && acceptor.acceptingMessage == (Mdo(b) == TCODE_DATA_ACQUISITION)
      ensures !old(inMessage) && !inMessage ==>
                acceptor.messageReady == old(acceptor.messageReady)
      // within a field
      ensures old(inMessage) && Mseo(b) == MSEO_NORMAL ==>
                && Holds(run + [b])
                && acceptor.fieldcount == old(acceptor.fieldcount) && acceptor.dqm == old(acceptor.dqm)
                && acceptor.acceptingMessage == old(acceptor.acceptingMessage)
                && acceptor.messageHasOverflowedField == old(acceptor.messageHasOverflowedField)
                && acceptor.messageReady == old(acceptor.messageReady)
      // at the end of a field or message
      ensures old(inMessage) && Mseo(b) != MSEO_NORMAL ==>
                var overflow := |run + [b]| > MAX_FIELD_SLICES;
                var accepting := old(acceptor.acceptingMessage);
                && Holds([])
                && acceptor.fieldcount == old(acceptor.fieldcount) + (if EndsField(b) then 1 else 0)
                && acceptor.messageHasOverflowedField
                   == (old(acceptor.messageHasOverflowedField) || (accepting && overflow))
                && acceptor.dqm == (if accepting && !overflow
                     then Place(acceptor.srcbits, old(acceptor.dqm), old(acceptor.fieldcount), FieldBits(run + [b]))
                     else old(acceptor.dqm))
                && acceptor.acceptingMessage == (accepting && !EndsMessage(b))
                && acceptor.messageReady == (old(acceptor.messageReady)
                     || (EndsMessage(b) && accepting && 2 <= acceptor.fieldcount <= 3
                         && !acceptor.messageHasOverflowedField))
    {
      var mseo, mdo := Mseo(b), Mdo(b);
      if !inMessage && mseo == 0 {
        inMessage := true;
        acceptor.StartMessage(mdo);
      } else if inMessage {
        BufferSlice(b, run);
        if mseo != 0 {
          acceptor.MessageData(datanumbits, data, dataoverflowed);
          if mseo % 2 != 0 {
            acceptor.EndField();
          }
          if mseo / 2 != 0 {
            acceptor.EndMessage();
            inMessage := false;
          }
          EmptyData();
        }
      }
    }
  }

  lemma BitsExtended(before: seq<bv8>, after: seq<bv8>, n: nat, k: nat)
    requires |before| == |after| && n + k <= 8 * |after|
    requires forall p: nat :: p < n ==> BitAt(after, p) == BitAt(before, p)
    ensures BitsAt(after, 0, n + k) == BitsAt(before, 0, n) + BitsAt(after, n, k)
  {
  }

  lemma ZeroBits(buf: seq<bv8>)
    requires forall i :: 0 <= i < |buf| ==> buf[i] == 0
    ensures forall p: nat :: p < 8 * |buf| ==> !BitAt(buf, p)
  {
  }

  class NexusStream {
    const reassembler: NexusMessageReassembler
    const unwrapper: NexusSliceUnwrapper
    ghost var history: seq<byte>

    constructor (srcbits: nat)
      requires srcbits <= MAX_SRCBITS
      ensures Valid() && history == [] && reassembler.srcbits == srcbits
      ensures fresh(reassembler) && fresh(unwrapper) && fresh(unwrapper.data)
    {
      var acceptor := new NexusMessageReassembler(srcbits);
      reassembler := acceptor;
      unwrapper := new NexusSliceUnwrapper(acceptor);
      history := [];
    }

    /** The decoder's fields are determined by the bytes seen so far. */
    ghost predicate Valid()
      reads this, reassembler, unwrapper, unwrapper.data
    {
      && unwrapper.acceptor == reassembler
      && reassembler.srcbits <= MAX_SRCBITS
      && !reassembler.messageReady
      && Tracks(ProgressOf(Opening(Pending(history))))
    }

    /** The fields of the two stages, as the slices received of the open message determine them. */
    ghost predicate Tracks(p: Progress)
      reads reassembler, unwrapper, unwrapper.data
    {
      match p
      case Outside => !unwrapper.inMessage && unwrapper.Holds([])
      case Inside(tcode, body) =>
        && unwrapper.inMessage
        && reassembler.acceptingMessage == (tcode == TCODE_DATA_ACQUISITION)
        && reassembler.fieldcount == |body.fields|
        && unwrapper.Holds(body.tail)
        && (reassembler.acceptingMessage ==>
              && reassembler.messageHasOverflowedField == !Fits(body.fields)
              && reassembler.dqm == Collected(reassembler.srcbits, body.fields))
    }

    method AppendByteAndCheckForMessage(b: byte) returns (msg: Option<DataAcquisition>)
      requires Valid()
      modifies this, reassembler, unwrapper, unwrapper.data
      ensures Valid() && history == old(history) + [b]
      ensures msg == Delivered(reassembler.srcbits, old(history), b)
    {
      AdvanceIsGrammar(reassembler.srcbits, history, b);
      msg := Feed(b, ProgressOf(Opening(Pending(history))));
      history := history + [b];
    }

    /** One slice, in the given state: the next state and what comes out. */
    method Feed(b: byte, ghost p: Progress) returns (msg: Option<DataAcquisition>)
      requires unwrapper.acceptor == reassembler && reassembler.srcbits <= MAX_SRCBITS
      requires !reassembler.messageReady && Tracks(p)
      modifies reassembler, unwrapper, unwrapper.data
      ensures !reassembler.messageReady && Tracks(Advance(p, b))
      ensures msg == Emitted(reassembler.srcbits, p, b)
    {
      hide Value, FieldBits, BitsAt, BitAt, Collected, Place, Window, Fits;
      ghost var run := if p.Inside? then p.body.tail else [];
      NothingCollected(reassembler.srcbits);
      if p.Inside? {
        CollectedSnoc(reassembler.srcbits, p.body.fields, run + [b]);
        FitsSnoc(p.body.fields, run + [b]);
      }
      unwrapper.AppendByte(b, run);
      msg := reassembler.GetMessage();
    }
  }

  /** How far the decoder is into a message. */
  datatype Progress = Outside | Inside(tcode: nat, body: Body)

  function ProgressOf(state: Opened): Progress
  {
    match state
    case Hunting => Outside
    case Open(tcode, body) => Inside(tcode, Fields(body))
  }

  function Advance(p: Progress, b: byte): Progress
  {
    match p
    case Outside => if Mseo(b) == MSEO_NORMAL then Inside(Mdo(b), Body([], [])) else Outside
    case Inside(tcode, body) =>
      var run := body.tail + [b];
      if EndsMessage(b) then Outside
      else if Mseo(b) == MSEO_NORMAL then Inside(tcode, Body(body.fields, run))
      else Inside(tcode, Body(body.fields + [run], []))
  }

  /** The message completed by b: the collected one, if the count of marks and the field sizes are right. */
  function Emitted(srcbits: nat, p: Progress, b: byte): Option<DataAcquisition>
  {
    if p.Outside? || !EndsMessage(b) || p.tcode != TCODE_DATA_ACQUISITION then None
    else
      var fields := p.body.fields + [p.body.tail + [b]];
      var marks := |p.body.fields| + if EndsField(b) then 1 else 0;
      if 2 <= marks <= 3 && Fits(fields) then Some(Collected(srcbits, fields)) else None
  }

  /** Byte by byte, the decoder's view of a stream is the grammar's. */
  lemma AdvanceIsGrammar(srcbits: nat, history: seq<byte>, b: byte)
    ensures var p := ProgressOf(Opening(Pending(history)));
            && ProgressOf(Opening(Pending(history + [b]))) == Advance(p, b)
            && Emitted(srcbits, p, b) == Delivered(srcbits, history, b)
  {
    assert Opening([]) == Hunting && Fields([]) == Body([], []);
    hide Value, FieldBits, Contents, Collected, Opening, Pending, Fields, Window;
    var state := Opening(Pending(history));
    PendingSnoc(history, b);
    OpeningSnoc(Pending(history), b);
    if state.Open? {
      FieldsSnoc(state.body, b);
      if EndsMessage(b) && WellFormed(state.tcode, state.body + [b]) {
        CollectedIsContents(srcbits, Fields(state.body + [b]).fields);
      }
    }
  }

  lemma NothingCollected(srcbits: nat)
    ensures Collected(srcbits, []) == NO_MESSAGE && Fits([])
  {
  }

  lemma FitsSnoc(fields: seq<seq<byte>>, run: seq<byte>)
    ensures Fits(fields + [run]) <==> Fits(fields) && |run| <= MAX_FIELD_SLICES
  {
    assert (fields + [run])[|fields|] == run;
    forall i | 0 <= i < |fields| ensures (fields + [run])[i] == fields[i] {}
  }
}

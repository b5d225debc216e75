/**
 The Nexus auxiliary-port byte stream that the SWT server and the trace decoder share, described
 without any decoder: a byte is a slice of six payload bits (MDO) above two framing bits (MSEO);
 slices form fields, fields form messages.
 */
module NexusWire {
  import opened Bits

  type byte = b: nat | b < 256

  datatype Option<+T> = None | Some(value: T)

  const MSEO_NORMAL := 0
  const MSEO_VAR_END := 1
  const MSEO_END := 3

  const TCODE_DATA_ACQUISITION := 7

  /** Slices that fit the unwrapper's 4096-byte bit buffer: 5461 * 6 <= 32768 < 5462 * 6. */
  const MAX_FIELD_SLICES := 5461

  /** The cores that a replay or a decoder keeps state for. */
  const DQR_MAXCORES := 16

  const UINT32 := 0x1_0000_0000
  const UINT64 := 0x1_0000_0000_0000_0000

  /** Conversion to a 32-bit and a 64-bit unsigned integer. */
  function Uint32(v: int): nat { v % 0x1_0000_0000 }

  function Uint64(v: int): nat { v % 0x1_0000_0000_0000_0000 }

  function Mseo(b: byte): nat { b % 4 }

  function Mdo(b: byte): nat { b / 4 }

  predicate EndsField(b: byte) { b % 2 == 1 }

  predicate EndsMessage(b: byte) { Mseo(b) >= 2 }

  function SliceBits(b: byte): (bs: seq<bool>)
    ensures |bs| == 6
  {
    ToBits(Mdo(b), 6)
  }

  /** The payload bits of a run of slices, six to a slice. */
  function FieldBits(run: seq<byte>): (bs: seq<bool>)
    ensures |bs| == 6 * |run|
  {
    seq(6 * |run|, k requires 0 <= k < 6 * |run| => SliceBits(run[k / 6])[k % 6])
  }

  // ----- messages and fields in a byte stream

  /** The bytes since the last end-of-message slice. */
  function Pending(history: seq<byte>): seq<byte>
  {
    if history == [] then []
    else
      var init, last := history[..|history| - 1], history[|history| - 1];
      if EndsMessage(last) then [] else Pending(init) + [last]
  }

  /** Either no message has opened yet, or one has, with this TCODE and these slices after it. */
  datatype Opened = Hunting | Open(tcode: nat, body: seq<byte>)

  /** A message opens at the first slice whose framing bits are both clear. */
  function Opening(segment: seq<byte>): Opened
  {
    if segment == [] then Hunting
    else if Mseo(segment[0]) == MSEO_NORMAL then Open(Mdo(segment[0]), segment[1..])
    else Opening(segment[1..])
  }

  datatype Body = Body(fields: seq<seq<byte>>, tail: seq<byte>)

  /** Cuts a message body after every slice that carries a framing mark. */
  function Fields(body: seq<byte>): Body
  {
    if body == [] then Body([], [])
    else
      var before, last := Fields(body[..|body| - 1]), body[|body| - 1];
      if Mseo(last) == MSEO_NORMAL then Body(before.fields, before.tail + [last])
      else Body(before.fields + [before.tail + [last]], [])
  }

  datatype DataAcquisition = DataAcquisition(
    haveTimestamp: bool, timestamp: nat, haveSrc: bool, src: nat, tcode: nat, idtag: nat, dqdata: nat)

  const NO_MESSAGE := DataAcquisition(false, 0, false, 0, TCODE_DATA_ACQUISITION, 0, 0)

  /** The n bits from position `from`, with zeros beyond the end of the field. */
  function Window(bits: seq<bool>, from: nat, n: nat): (w: seq<bool>)
    ensures |w| == n
  {
    seq(n, i requires 0 <= i < n => from + i < |bits| && bits[from + i])
  }

  function After(bits: seq<bool>, n: nat): seq<bool>
  {
    if n <= |bits| then bits[n..] else []
  }

  /**
   The message carried by the field payloads f: source and tag share the first field, data is the
   second, an optional timestamp the third; anything further is ignored.
   */
  function Contents(srcbits: nat, f: seq<seq<bool>>): DataAcquisition
    requires |f| >= 2
  {
    DataAcquisition(
      |f| >= 3, if |f| >= 3 then Uint64(Value(f[2])) else 0,
      srcbits != 0, if srcbits != 0 then Value(Window(f[0], 0, srcbits)) else 0,
      TCODE_DATA_ACQUISITION,
      Uint32(Value(After(f[0], srcbits))),
      Uint32(Value(f[1])))
  }

  function Payloads(fields: seq<seq<byte>>): (f: seq<seq<bool>>)
    ensures |f| == |fields|
  {
    seq(|fields|, i requires 0 <= i < |fields| => FieldBits(fields[i]))
  }

  predicate Fits(fields: seq<seq<byte>>)
  {
    forall i :: 0 <= i < |fields| ==> |fields[i]| <= MAX_FIELD_SLICES
  }

  /** How many fields of the body carry an end-of-field mark. */
  function FieldMarks(body: seq<byte>): int
    requires body != []
  {
    |Fields(body).fields| - (if EndsField(body[|body| - 1]) then 0 else 1)
  }

  /**
   The grammar: a data acquisition message has the right TCODE, two or three end-of-field marks up
   to its end-of-message slice, and no field too long to be held.
   */
  predicate WellFormed(tcode: nat, body: seq<byte>)
    requires body != []
  {
    tcode == TCODE_DATA_ACQUISITION && 2 <= FieldMarks(body) <= 3 && Fits(Fields(body).fields)
  }

  /** What the byte `last` delivers when it follows the byte stream `history`. */
  function Delivered(srcbits: nat, history: seq<byte>, last: byte): Option<DataAcquisition>
  {
    if !EndsMessage(last) then None
    else match Opening(Pending(history))
      case Hunting => None
      case Open(tcode, body) =>
        if WellFormed(tcode, body + [last]) then Some(Contents(srcbits, Payloads(Fields(body + [last]).fields)))
        else None
  }

  /** What each byte of `bytes` delivers, after `history` has gone by. */
  function Deliveries(srcbits: nat, history: seq<byte>, bytes: seq<byte>): (out: seq<Option<DataAcquisition>>)
    ensures |out| == |bytes|
    decreases |bytes|
  {
    if bytes == [] then []
    else [Delivered(srcbits, history, bytes[0])] + Deliveries(srcbits, history + [bytes[0]], bytes[1..])
  }

  // ----- reading a stream one byte at a time

  lemma {:induction false} OpeningSnoc(segment: seq<byte>, b: byte)
    ensures Opening(segment + [b]) ==
            match Opening(segment)
            case Hunting => if Mseo(b) == MSEO_NORMAL then Open(Mdo(b), []) else Hunting
            case Open(tcode, body) => Open(tcode, body + [b])
  {
    if segment == [] {
      assert (segment + [b])[1..] == [];
    } else {
      assert (segment + [b])[1..] == segment[1..] + [b];
      OpeningSnoc(segment[1..], b);
    }
  }

  lemma PendingSnoc(history: seq<byte>, b: byte)
    ensures Pending(history + [b]) == if EndsMessage(b) then [] else Pending(history) + [b]
  {
    assert (history + [b])[..|history|] == history;
  }

  lemma FieldsSnoc(body: seq<byte>, b: byte)
    ensures var f := Fields(body);
            Fields(body + [b]) == if Mseo(b) == MSEO_NORMAL then Body(f.fields, f.tail + [b])
                                  else Body(f.fields + [f.tail + [b]], [])
  {
    assert (body + [b])[..|body|] == body;
  }

  lemma FieldBitsAppend(a: seq<byte>, b: seq<byte>)
    ensures FieldBits(a + b) == FieldBits(a) + FieldBits(b)
  {
    forall k | 0 <= k < 6 * |a + b| ensures FieldBits(a + b)[k] == (FieldBits(a) + FieldBits(b))[k] {
      if k >= 6 * |a| { assert (k - 6 * |a|) / 6 == k / 6 - |a| && (k - 6 * |a|) % 6 == k % 6; }
    }
  }

  lemma FieldBitsSingle(b: byte)
    ensures FieldBits([b]) == SliceBits(b)
  {
  }

  lemma FieldBitsSnoc(run: seq<byte>, b: byte)
    ensures FieldBits(run + [b]) == FieldBits(run) + SliceBits(b)
  {
    FieldBitsAppend(run, [b]);
    FieldBitsSingle(b);
  }

  function Last(run: seq<byte>): byte
    requires run != []
  {
    run[|run| - 1]
  }

  /** Slices of one field inside a body: plain slices, then one that carries the given mark. */
  predicate IsRun(run: seq<byte>, mark: nat)
  {
    run != [] && Mseo(Last(run)) == mark
    && forall i :: 0 <= i < |run| - 1 ==> Mseo(run[i]) == MSEO_NORMAL
  }

  lemma {:induction false} FieldsPlain(body: seq<byte>, plain: seq<byte>)
    requires forall i :: 0 <= i < |plain| ==> Mseo(plain[i]) == MSEO_NORMAL
    ensures Fields(body + plain) == Body(Fields(body).fields, Fields(body).tail + plain)
  {
    if plain == [] {
      assert body + plain == body;
    } else {
      var init, last := plain[..|plain| - 1], plain[|plain| - 1];
      assert body + plain == (body + init) + [last];
      FieldsSnoc(body + init, last);
      FieldsPlain(body, init);
      assert Fields(body).tail + plain == (Fields(body).tail + init) + [last];
    }
  }

  /** Appending a run completes exactly one more field. */
  lemma FieldsRun(body: seq<byte>, run: seq<byte>, mark: nat)
    requires IsRun(run, mark) && mark != MSEO_NORMAL && Fields(body).tail == []
    ensures Fields(body + run) == Body(Fields(body).fields + [run], [])
  {
    var init, last := run[..|run| - 1], run[|run| - 1];
    assert run == init + [last];
    FieldsPlain(body, init);
    assert body + run == (body + init) + [last];
    assert Fields(body).tail + init == init;
    FieldsSnoc(body + init, last);
  }
}

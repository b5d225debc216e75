/**
 What the field readers of the trace decoder mean: the next payload bits of a frame, bit by bit,
 against which the shifting and masking of `parseFixedField` and `parseVarField` is proved.
 */
module FieldReader {
  import opened Bits
  import opened NexusWire

  datatype DQErr = OK | EOF | EOM | BM | ERR

  /** A field that was read, with the position and end-of-message flag it leaves; or an error. */
  datatype Outcome = Got(val: nat, width: nat, bitIndex: nat, eom: bool) | Failed(err: DQErr)

  /**
   `width` bits from `bitIndex`. The last bit of a frame cannot be read this way, and the slice whose
   mark is examined is the one after the field if the field runs into it or up to it.
   */
  function Fixed(frame: seq<byte>, bitIndex: nat, eom: bool, width: nat): (out: Outcome)
    requires width > 0
    ensures out.Failed? ==> out.err == EOM
  {
    var next := bitIndex + width;
    if next >= 6 * |frame| then Failed(EOM)
    else
      var marked := if bitIndex % 6 + width > 6 then next / 6 else bitIndex / 6;
      Got(Value(FieldBits(frame)[bitIndex..next]), width, next, eom || Mseo(frame[marked]) == MSEO_END)
  }

  /** Which mark a fixed field looks at: that of its slice, if it begins and ends in one, or else of the next bit's. */
  lemma FixedFlag(frame: seq<byte>, bitIndex: nat, eom: bool, width: nat)
    requires width > 0 && bitIndex + width < 6 * |frame|
    ensures var first, last, next := bitIndex / 6, (bitIndex + width - 1) / 6, (bitIndex + width) / 6;
            var out := Fixed(frame, bitIndex, eom, width);
            out.Got? && (out.eom <==> eom || Mseo(frame[if first == last then first else next]) == 3)
  {
    hide Value, FieldBits;
  }

  /** The first slice from i on that carries a mark. */
  function RunEnd(frame: seq<byte>, i: nat): (j: nat)
    requires i <= |frame|
    ensures i <= j <= |frame|
    ensures j < |frame| ==> Mseo(frame[j]) != MSEO_NORMAL
    ensures forall k :: i <= k < j ==> Mseo(frame[k]) == MSEO_NORMAL
    decreases |frame| - i
  {
    if i == |frame| || Mseo(frame[i]) != MSEO_NORMAL then i else RunEnd(frame, i + 1)
  }

  /** Whether the overflow check lets a field of w bits pass whose last slice is `last`. */
  predicate Accepted(w: int, last: byte) { w <= 64 || last < 64 }

  /** All bits up to the end of the run that holds `bitIndex`, as a 64-bit number. */
  function Var(frame: seq<byte>, bitIndex: nat, eom: bool): (out: Outcome)
    ensures out.Failed? ==> out.err == EOM || out.err == ERR
  {
    if bitIndex / 6 >= |frame| then Failed(EOM)
    else
      var j := RunEnd(frame, bitIndex / 6);
      if j == |frame| then Failed(ERR)
      else
        var next := 6 * (j + 1);
        if !Accepted(next - bitIndex, frame[j]) then Failed(ERR)
        else Got(Uint64(Value(FieldBits(frame)[bitIndex..next])), next - bitIndex, next,
                 eom || Mseo(frame[j]) == MSEO_END)
  }

  // ----- bits of a frame

  lemma BitsOfSlice(frame: seq<byte>, i: nat)
    requires i < |frame|
    ensures FieldBits(frame)[6 * i..6 * i + 6] == SliceBits(frame[i])
  {
    forall k | 0 <= k < 6 ensures FieldBits(frame)[6 * i + k] == SliceBits(frame[i])[k] {
      assert (6 * i + k) / 6 == i && (6 * i + k) % 6 == k;
    }
  }

  /** A field inside one slice. */
  lemma InnerField(frame: seq<byte>, i: nat, b: nat, w: nat)
    requires i < |frame| && b + w <= 6
    ensures Value(FieldBits(frame)[6 * i + b..6 * i + b + w]) == (Mdo(frame[i]) / Pow2(b)) % Pow2(w)
  {
    BitsOfSlice(frame, i);
    var bits := SliceBits(frame[i]);
    assert FieldBits(frame)[6 * i + b..6 * i + b + w] == bits[b..][..w];
    ValuePrefix(bits, b);
    ValuePrefix(bits[b..], w);
    SliceValue(frame[i]);
  }

  lemma SliceValue(s: byte)
    ensures Value(SliceBits(s)) == Mdo(s) < 64
  {
    hide Value, ToBits, Pow2;
    ValueToBits(Mdo(s), 6);
    assert Pow2(6) == 64 by { Pow2Constants(); }
  }

  /** More bits, added above the bits read so far. */
  lemma Extend(bits: seq<bool>, from: nat, mid: nat, to: nat)
    requires from <= mid <= to <= |bits|
    ensures Value(bits[from..mid]) < Pow2(mid - from)
    ensures Value(bits[from..to]) == Value(bits[from..mid]) + Value(bits[mid..to]) * Pow2(mid - from)
  {
    var low, high := bits[from..mid], bits[mid..to];
    assert bits[from..to] == low + high;
    ValueBound(low);
    ValueAppend(low, high);
    Commute(Pow2(|low|), Value(high));
  }

  /** The low bits of slice i. */
  lemma LowPart(frame: seq<byte>, i: nat, rem: nat)
    requires i < |frame| && rem <= 6
    ensures Value(FieldBits(frame)[6 * i..6 * i + rem]) == Mdo(frame[i]) % Pow2(rem)
  {
    BitsOfSlice(frame, i);
    assert FieldBits(frame)[6 * i..6 * i + rem] == SliceBits(frame[i])[..rem];
    ValuePrefix(SliceBits(frame[i]), rem);
    SliceValue(frame[i]);
  }

  lemma WholeSlice(frame: seq<byte>, i: nat)
    requires i < |frame|
    ensures Value(FieldBits(frame)[6 * i..6 * i + 6]) == Mdo(frame[i])
  {
    BitsOfSlice(frame, i);
    SliceValue(frame[i]);
  }

  // ----- byte arithmetic

  /** `(uint8_t)(s << k)`. */
  function ShiftLeft8(s: byte, k: nat): byte { (s * Pow2(k)) % 256 }

  /** `s >> k`. */
  function ShiftRight(s: nat, k: nat): int { s / Pow2(k) }

  /** Shifting up and down again cuts out bits b to b + w of the payload. */
  lemma CutOut(s: byte, b: nat, w: nat)
    requires 1 <= w && b + w <= 6
    ensures ShiftRight(ShiftLeft8(s, 6 - (b + w)), (6 - (b + w)) + b + 2) == (Mdo(s) / Pow2(b)) % Pow2(w)
  {
    var k := 6 - (b + w);
    CutPowers(b, w, k);
    CutNumbers(s, Pow2(k), Pow2(b + 2), Pow2(w));
    ShiftPayload(s, b);
  }

  lemma CutPowers(b: nat, w: nat, k: nat)
    requires b + w + k == 6
    ensures (Pow2(w) * Pow2(b + 2)) * Pow2(k) == 256 && Pow2(b + 2) * Pow2(k) == Pow2(k + b + 2)
  {
    Pow2Add(w, b + 2);
    Pow2Add(w + (b + 2), k);
    Pow2Add(b + 2, k);
    assert Pow2(8) == 256 by { Pow2Constants(); }
  }

  lemma CutNumbers(s: nat, p: nat, d: nat, r: nat)
    requires p > 0 && d > 0 && r > 0 && (r * d) * p == 256
    ensures d * p > 0 && ((s * p) % 256) / (d * p) == (s / d) % r
  {
    DivModTwice(s, d, r);
    DivModScale(s, r * d, p);
    DivModScale(s % (r * d), d, p);
  }

  lemma ShiftPayload(s: byte, b: nat)
    ensures ShiftRight(s, b + 2) == Mdo(s) / Pow2(b)
  {
    Pow2Add(b, 2);
    Pow2Constants();
    DivModTwice(s, 4, Pow2(b));
  }

  /** The bits of slice i from bit b on. */
  lemma TopPart(s: byte, b: nat)
    requires b < 6
    ensures (Mdo(s) / Pow2(b)) % Pow2(6 - b) == Mdo(s) / Pow2(b)
  {
    SliceValue(s);
    ValuePrefix(SliceBits(s), b);
    ValueBound(SliceBits(s)[b..]);
    ModSmall(Value(SliceBits(s)[b..]), Pow2(6 - b));
  }

  /** What the first slice contributes to a variable field. */
  lemma FirstPart(frame: seq<byte>, i: nat, b: nat)
    requires i < |frame| && b < 6
    ensures ShiftRight(frame[i], b + 2) == Value(FieldBits(frame)[6 * i + b..6 * i + 6]) < UINT64
  {
    InnerField(frame, i, b, 6 - b);
    TopPart(frame[i], b);
    ShiftPayload(frame[i], b);
    ValueBound(FieldBits(frame)[6 * i + b..6 * i + 6]);
    Pow2Monotone(6 - b, 64);
    assert Pow2(64) == UINT64 by { Pow2Constants(); }
  }

  /** What slice i adds to a variable field, while it still fits 64 bits. */
  lemma OrShifted(frame: seq<byte>, from: nat, i: nat, v: nat)
    requires i < |frame| && from < 6 * i && 6 * i - from < 64
    requires v == Uint64(Value(FieldBits(frame)[from..6 * i]))
    ensures v < Pow2(6 * i - from)
    ensures Value(FieldBits(frame)[from..6 * i + 6]) == OrAt(v, Mdo(frame[i]), 6 * i - from)
  {
    hide Value, FieldBits;
    var bits, w := FieldBits(frame), 6 * i - from;
    Extend(bits, from, 6 * i, 6 * i + 6);
    WholeSlice(frame, i);
    assert Value(bits[from..6 * i]) < UINT64 by {
      Pow2Monotone(w, 64);
      assert Pow2(64) == UINT64 by { Pow2Constants(); }
    }
    ModSmall(Value(bits[from..6 * i]), UINT64);
  }

  /** Bits from position 64 on do not change a value modulo 2^64. */
  lemma HighBitsLost(bits: seq<bool>, from: nat, mid: nat, to: nat)
    requires from <= mid <= to <= |bits| && mid - from >= 64
    ensures Uint64(Value(bits[from..to])) == Uint64(Value(bits[from..mid]))
  {
    hide Value;
    assert Pow2(64) == UINT64 by { Pow2Constants(); }
    ValuePrefix(bits[from..mid], 64);
    ValuePrefix(bits[from..to], 64);
    assert bits[from..mid][..64] == bits[from..to][..64];
  }

  // ----- messages

  /** What `parseDataAcquisition` stores in a NexusMessage. */
  datatype Acquired = Acquired(coreId: nat, idTag: nat, data: nat, haveTimestamp: bool, timestamp: nat)

  /** What the other parsers store: the values of their fields in order, after the source, as far as there is room. */
  datatype Parsed = Parsed(tcode: nat, coreId: nat, fields: seq<nat>, haveTimestamp: bool, timestamp: nat)

  /** The result of parsing a frame. A TCODE without a parser is an error that is not stored. */
  datatype Report = DataMessage(nm: Acquired) | OtherMessage(m: Parsed) | Unsupported(tcode: nat) | Bad(err: DQErr)

  datatype FieldKind = TwoBits | FourBits | VarField

  /** The fields that every message with the TCODE has, between source and timestamp; None if it has no parser. */
  function Layout(tcode: nat): Option<seq<FieldKind>>
  {
    match tcode
    case 2 => Some([VarField])                                             // ownership trace
    case 3 => Some([VarField])                                             // direct branch
    case 4 => Some([TwoBits, VarField, VarField])                          // indirect branch
    case 8 => Some([FourBits, VarField])                                   // error
    case 9 => Some([FourBits, VarField, VarField])                         // sync
    case 11 => Some([FourBits, VarField, VarField])                        // direct branch with sync
    case 12 => Some([FourBits, TwoBits, VarField, VarField])               // indirect branch with sync
    case 23 => Some([VarField, VarField])                                  // auxiliary access write
    case 27 => Some([FourBits, VarField])                                  // resource full
    case 28 => Some([TwoBits, VarField, VarField, VarField])               // indirect branch history
    case 29 => Some([FourBits, TwoBits, VarField, VarField, VarField])     // the same with sync
    case 33 => Some([FourBits, TwoBits, VarField])                         // correlation
    case 34 => Some([FourBits, TwoBits])                                   // in-circuit trace
    case 35 => Some([FourBits, TwoBits])                                   // the same with sync
    case _ => None
  }

  /** The fields that depend on the values before them; None for a value that is not allowed. */
  function MoreFields(tcode: nat, fields: seq<nat>): Option<seq<FieldKind>>
  {
    if tcode == 27 then
      if |fields| > 0 && fields[0] in {0, 1, 8, 9} then Some([]) else None
    else if tcode == 33 then
      if |fields| > 1 && fields[1] <= 1 then Some(if fields[1] == 0 then [] else [VarField]) else None
    else if tcode == 34 || tcode == 35 then
      if |fields| > 1 && fields[1] <= 1 then Some(if fields[1] == 0 then [VarField] else [VarField, VarField]) else None
    else Some([])
  }

  /** How many low bits of a field the NexusMessage has room for. */
  function RoomFor(tcode: nat, fields: seq<nat>, i: nat): nat
    requires i < |fields|
  {
    match tcode
    case 2 => 37                                    // a 32-bit process id above five bits
    case 3 | 23 => 32
    case 4 | 9 | 11 | 28 => if i == 1 then 32 else 64      // instruction counts
    case 12 | 29 | 33 => if i == 2 then 32 else 64
    case 8 => if i == 1 then 0 else 64              // read and dropped
    case 27 => if i == 1 && fields[0] != 1 then 32 else 64
    case _ => 64
  }

  function Stored(tcode: nat, fields: seq<nat>): seq<nat>
  {
    seq(|fields|, i requires 0 <= i < |fields| => fields[i] % Pow2(RoomFor(tcode, fields, i)))
  }

  function ReadField(frame: seq<byte>, bitIndex: nat, eom: bool, kind: FieldKind): (out: Outcome)
    ensures out.Failed? ==> out.err == EOM || out.err == ERR
  {
    match kind
    case TwoBits => Fixed(frame, bitIndex, eom, 2)
    case FourBits => Fixed(frame, bitIndex, eom, 4)
    case VarField => Var(frame, bitIndex, eom)
  }

  /** Fields read one after another, with the position and flag they leave; or the first error. */
  datatype FieldsRead = FieldsGot(fields: seq<nat>, bitIndex: nat, eom: bool) | FieldsFailed(err: DQErr)

  function ReadFields(frame: seq<byte>, bitIndex: nat, eom: bool, kinds: seq<FieldKind>, fields: seq<nat>)
    : (out: FieldsRead)
    ensures out.FieldsFailed? ==> out.err == EOM || out.err == ERR
    decreases |kinds|
  {
    if kinds == [] then FieldsGot(fields, bitIndex, eom)
    else match ReadField(frame, bitIndex, eom, kinds[0])
      case Failed(err) => FieldsFailed(err)
      case Got(val, _, p, e) => ReadFields(frame, p, e, kinds[1..], fields + [val])
  }

  function ParseMessage(srcbits: nat, frame: seq<byte>): (r: Report)
    ensures r.Bad? ==> r.err == EOM || r.err == ERR || r.err == BM
  {
    match Fixed(frame, 0, false, 6)
    case Failed(err) => Bad(err)
    case Got(tcode, _, p, e) =>
      if tcode == TCODE_DATA_ACQUISITION then ParseSource(srcbits, frame, p, e)
      else if Layout(tcode).Some? then ParseOther(srcbits, frame, p, e, tcode)
      else Unsupported(tcode)
  }

  function ParseSource(srcbits: nat, frame: seq<byte>, bitIndex: nat, eom: bool): (r: Report)
    ensures r.Bad? ==> r.err == EOM || r.err == ERR || r.err == BM
    ensures r.Bad? || r.DataMessage?
  {
    if srcbits == 0 then ParseTag(frame, bitIndex, eom, 0)
    else match Fixed(frame, bitIndex, eom, srcbits)
      case Failed(err) => Bad(err)
      case Got(src, _, p, e) => ParseTag(frame, p, e, src % 256)
  }

  function ParseTag(frame: seq<byte>, bitIndex: nat, eom: bool, coreId: nat): (r: Report)
    ensures r.Bad? ==> r.err == EOM || r.err == ERR || r.err == BM
    ensures r.Bad? || r.DataMessage?
  {
    match Var(frame, bitIndex, eom)
    case Failed(err) => Bad(err)
    case Got(tag, _, p, e) => ParseData(frame, p, e, coreId, Uint32(tag))
  }

  function ParseData(frame: seq<byte>, bitIndex: nat, eom: bool, coreId: nat, idTag: nat): (r: Report)
    ensures r.Bad? ==> r.err == EOM || r.err == ERR || r.err == BM
    ensures r.Bad? || r.DataMessage?
  {
    match Var(frame, bitIndex, eom)
    case Failed(err) => Bad(err)
    case Got(data, _, p, e) => ParseTimestamp(frame, p, e, Acquired(coreId, idTag, Uint32(data), false, 0))
  }

  /** A timestamp is present when slices remain; anything after it makes the message bad. */
  function ParseTimestamp(frame: seq<byte>, bitIndex: nat, eom: bool, nm: Acquired): (r: Report)
    ensures r.Bad? ==> r.err == EOM || r.err == ERR || r.err == BM
    ensures r.Bad? || r.DataMessage?
  {
    if eom then DataMessage(nm)
    else match Var(frame, bitIndex, eom)
      case Failed(err) => Bad(err)
      case Got(ts, _, p, e) => if e then DataMessage(nm.(haveTimestamp := true, timestamp := ts)) else Bad(BM)
  }

  function ParseOther(srcbits: nat, frame: seq<byte>, bitIndex: nat, eom: bool, tcode: nat): (r: Report)
    requires Layout(tcode).Some?
    ensures r.Bad? ==> r.err == EOM || r.err == ERR || r.err == BM
    ensures r.Bad? || r.OtherMessage?
  {
    if srcbits == 0 then ParseOtherFields(frame, bitIndex, eom, tcode, 0)
    else match Fixed(frame, bitIndex, eom, srcbits)
      case Failed(err) => Bad(err)
      case Got(src, _, p, e) => ParseOtherFields(frame, p, e, tcode, src % 256)
  }

  function ParseOtherFields(frame: seq<byte>, bitIndex: nat, eom: bool, tcode: nat, coreId: nat): (r: Report)
    requires Layout(tcode).Some?
    ensures r.Bad? ==> r.err == EOM || r.err == ERR || r.err == BM
    ensures r.Bad? || r.OtherMessage?
  {
    match ReadFields(frame, bitIndex, eom, Layout(tcode).value, [])
    case FieldsFailed(err) => Bad(err)
    case FieldsGot(fields, p, e) =>
      match MoreFields(tcode, fields)
      case None => Bad(ERR)
      case Some(more) =>
        match ReadFields(frame, p, e, more, fields)
        case FieldsFailed(err) => Bad(err)
        case FieldsGot(all, p', e') =>
          ParseOtherTimestamp(frame, p', e', Parsed(tcode, coreId, Stored(tcode, all), false, 0))
  }

  function ParseOtherTimestamp(frame: seq<byte>, bitIndex: nat, eom: bool, m: Parsed): (r: Report)
    ensures r.Bad? ==> r.err == EOM || r.err == ERR || r.err == BM
    ensures r.Bad? || r.OtherMessage?
  {
    if eom then OtherMessage(m)
    else match Var(frame, bitIndex, eom)
      case Failed(err) => Bad(err)
      case Got(ts, _, p, e) => if e then OtherMessage(m.(haveTimestamp := true, timestamp := ts)) else Bad(BM)
  }
}

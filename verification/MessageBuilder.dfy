/**
 The encoder of the SWT server. Bits are packed into slices with a carry (`curslice`) that is only
 flushed when the next bit needs room, so a field that ends on a slice boundary can still be marked.
 */
module MessageBuilder {
  import opened Bits
  import opened NexusWire

  /** A slice with payload bits and a framing mark. */
  function Slice(bits: seq<bool>, mark: nat): byte
    requires |bits| <= 6 && mark < 4
  {
    ValueBound(bits);
    Pow2Monotone(|bits|, 6);
    Pow2Constants();
    4 * Value(bits) + mark
  }

  /** The slices of a bit string that are complete and known not to be the last. */
  function Whole(bits: seq<bool>): seq<byte>
  {
    if |bits| <= 6 then [] else [Slice(bits[..6], MSEO_NORMAL)] + Whole(bits[6..])
  }

  /** The bits of the last, possibly partial, slice. */
  function Rest(bits: seq<bool>): (r: seq<bool>)
    ensures |r| <= 6 && (bits != [] ==> r != [])
  {
    if |bits| <= 6 then bits else Rest(bits[6..])
  }

  /** A field: its bits six to a slice, the last slice zero-padded and marked. */
  function Pack(bits: seq<bool>, mark: nat): seq<byte>
    requires mark < 4
  {
    Whole(bits) + [Slice(Rest(bits), mark)]
  }

  lemma {:induction false} WholeGrow(bits: seq<bool>, more: seq<bool>)
    requires |Rest(bits)| + |more| <= 6
    ensures Whole(bits + more) == Whole(bits) && Rest(bits + more) == Rest(bits) + more
  {
    if |bits| > 6 {
      WholeGrow(bits[6..], more);
      assert (bits + more)[..6] == bits[..6];
      assert (bits + more)[6..] == bits[6..] + more;
    }
  }

  lemma {:induction false} WholeFlush(bits: seq<bool>, more: seq<bool>)
    requires |Rest(bits)| == 6 && 0 < |more| <= 6
    ensures Whole(bits + more) == Whole(bits) + [Slice(Rest(bits), MSEO_NORMAL)] && Rest(bits + more) == more
  {
    if |bits| > 6 {
      WholeFlush(bits[6..], more);
      assert (bits + more)[..6] == bits[..6];
      assert (bits + more)[6..] == bits[6..] + more;
      assert [Slice(bits[..6], MSEO_NORMAL)] + (Whole(bits[6..]) + [Slice(Rest(bits), MSEO_NORMAL)])
          == ([Slice(bits[..6], MSEO_NORMAL)] + Whole(bits[6..])) + [Slice(Rest(bits), MSEO_NORMAL)];
    } else {
      assert (bits + more)[..6] == bits;
      assert (bits + more)[6..] == more;
    }
  }

  /** The fewest bits, at least one, that hold the low `numbits` bits of val. */
  function MinBits(val: nat, numbits: nat): (n: nat)
    ensures n >= 1 && (numbits >= 1 ==> n <= numbits)
  {
    if numbits <= 1 then 1
    else if (val / Pow2(numbits - 1)) % 2 == 1 then numbits
    else MinBits(val, numbits - 1)
  }

  lemma TopBit(val: nat, n: nat)
    ensures val % Pow2(n + 1) == val % Pow2(n) + (if (val / Pow2(n)) % 2 == 1 then Pow2(n) else 0)
  {
    var p := Pow2(n);
    var q, r := val / p, val % p;
    assert val == q * p + r;
    var h, o := q / 2, q % 2;
    assert q == 2 * h + o;
    assert q * p == h * (2 * p) + o * p by { Distribute(h, o, p); }
    assert o * p + r < 2 * p by { if o == 1 { assert o * p == p; } else { assert o * p == 0; } }
    DivModUnique(val, 2 * p, h, o * p + r);
    if o == 1 { assert o * p == p; } else { assert o * p == 0; }
  }

  lemma Distribute(h: nat, o: nat, p: nat)
    ensures (2 * h + o) * p == h * (2 * p) + o * p
  {
  }

  /** MinBits loses nothing, and no shorter width would do. */
  lemma {:induction false} MinBitsExact(val: nat, numbits: nat)
    requires numbits >= 1
    ensures val % Pow2(MinBits(val, numbits)) == val % Pow2(numbits)
    ensures MinBits(val, numbits) > 1 ==> val % Pow2(numbits) >= Pow2(MinBits(val, numbits) - 1)
  {
    if numbits > 1 {
      TopBit(val, numbits - 1);
      if (val / Pow2(numbits - 1)) % 2 != 1 {
        MinBitsExact(val, numbits - 1);
      }
    }
  }

  /** One call of addDataAcquisitionMessage. */
  datatype Acquisition = Acquisition(src: int, itcIdx: int, size: nat, data: nat, haveTimestamp: bool, timestamp: nat)
  {
    /** The parameters' types, and a size of at least a byte whose bits fit the 64-bit value that is appended. */
    predicate Valid() {
      1 <= size <= 8 && data < UINT32 && timestamp < UINT64
    }

    /** A stimulus register write. */
    predicate IsWrite() {
      Valid() && size in {1, 2, 4} && 0 <= itcIdx < 0x2000_0000
    }

    function Tag(): nat {
      (itcIdx * 4) % UINT32 + if size == 2 then 2 else if size == 1 then 3 else 0
    }
  }

  /** The tag is four times the channel, plus 2 for a halfword and 3 for a byte. */
  lemma TagCodes(a: Acquisition)
    requires 0 <= a.itcIdx < 0x4000_0000
    ensures a.size == 4 ==> a.Tag() == 4 * a.itcIdx
    ensures a.size == 2 ==> a.Tag() == 4 * a.itcIdx + 2
    ensures a.size == 1 ==> a.Tag() == 4 * a.itcIdx + 3
  {
  }

  /** The source field and tag of a message share its first variable field. */
  function TagBits(srcbits: nat, a: Acquisition): seq<bool>
  {
    ToBits(Uint64(a.src), srcbits) + ToBits(a.Tag(), MinBits(a.Tag(), 32))
  }

  function DataBits(a: Acquisition): seq<bool>
  {
    ToBits(a.data, MinBits(a.data, a.size * 8))
  }

  function TimestampBits(a: Acquisition): seq<bool>
  {
    ToBits(a.timestamp, MinBits(a.timestamp, 64))
  }

  /** The fields of a message, each as its slices. */
  function Runs(srcbits: nat, a: Acquisition): seq<seq<byte>>
  {
    if a.haveTimestamp
    then [Pack(TagBits(srcbits, a), MSEO_VAR_END), Pack(DataBits(a), MSEO_VAR_END), Pack(TimestampBits(a), MSEO_END)]
    else [Pack(TagBits(srcbits, a), MSEO_VAR_END), Pack(DataBits(a), MSEO_END)]
  }

  function Concat(runs: seq<seq<byte>>): seq<byte>
  {
    if runs == [] then [] else runs[0] + Concat(runs[1..])
  }

  lemma {:induction false} ConcatSnoc(frames: seq<seq<byte>>, f: seq<byte>)
    ensures Concat(frames + [f]) == Concat(frames) + f
  {
    if frames == [] {
      assert [] + [f] == [f] && [f][1..] == [];
    } else {
      assert (frames + [f])[1..] == frames[1..] + [f];
      ConcatSnoc(frames[1..], f);
    }
  }

  const TCODE_SLICE: byte := 0x1c

  function Encode(srcbits: nat, a: Acquisition): (slices: seq<byte>)
    ensures slices != []
  {
    [TCODE_SLICE] + Concat(Runs(srcbits, a))
  }

  class SwtMessageStreamBuilder {
    var curslice: nat
    var cursliceOffset: nat
    var slices: seq<byte>

    constructor ()
      ensures slices == []
    {
      curslice, cursliceOffset, slices := 0, 2, [];
    }

    /** `base` has been emitted, and then the bits `bits` of the current field. */
    ghost predicate Holds(base: seq<byte>, bits: seq<bool>)
      reads this
    {
      && slices == base + Whole(bits)
      && curslice == 4 * Value(Rest(bits))
      && cursliceOffset == 2 + |Rest(bits)|
    }

    method BeginMessage()
      modifies this`curslice, this`cursliceOffset
      ensures Holds(slices, [])
    {
      curslice, cursliceOffset := 0, 2;
    }

    method FlushSlice()
      requires curslice < 256
      modifies this
      ensures slices == old(slices) + [old(curslice)]
      ensures curslice == 0 && cursliceOffset == 2
    {
      slices := slices + [curslice];
      curslice, cursliceOffset := 0, 2;
    }

    method Append(val0: nat, numbits: nat, ghost base: seq<byte>, ghost bits0: seq<bool>)
      requires Holds(base, bits0)
      modifies this
      ensures Holds(base, bits0 + ToBits(val0, numbits))
    {
      hide Value, ToBits, Whole, Rest, Slice, ShiftedOut;
      var val: nat, left: nat := val0, numbits;
      ghost var bits := bits0;
      while left != 0
        invariant left <= numbits && cursliceOffset <= 8
        invariant Holds(base, bits) || (left > 0 && Flushed(base, bits))
        invariant bits + ToBits(val, left) == bits0 + ToBits(val0, numbits)
        decreases left, cursliceOffset
      {
        var chunk: nat := if left < 8 - cursliceOffset then left else 8 - cursliceOffset;
        if cursliceOffset == 8 {
          // more bits of the same field follow, so the full slice carries no framing mark
          FullSlice(bits);
          FlushSlice();
        }
        OrChunk(val, chunk, base, bits);
        if chunk > 0 {
          var rest := ShiftedOut(val, chunk);
          NextChunk(bits, val, chunk, left, rest);
          bits := bits + ToBits(val, chunk);
          left := left - chunk;
          val := rest;
        }
      }
      assert ToBits(val, 0) == [] && bits + [] == bits by { NoBits(val); }
    }

    /** `curslice |= ((val & mask) << cursliceOffset)` for a chunk that fits the carry. */
    method OrChunk(val: nat, chunk: nat, ghost base: seq<byte>, ghost bits: seq<bool>)
      requires Holds(base, bits) || Flushed(base, bits)
      requires cursliceOffset + chunk <= 8
      modifies this`curslice, this`cursliceOffset
      ensures chunk > 0 ==> Holds(base, bits + ToBits(val, chunk))
      ensures chunk == 0 ==> curslice == old(curslice) && cursliceOffset == old(cursliceOffset)
    {
      hide Value, ToBits, Whole, Rest;
      ghost var more := ToBits(val, chunk);
      ghost var rest := if Flushed(base, bits) then [] else Rest(bits);
      if chunk > 0 {
        if Flushed(base, bits) { WholeFlush(bits, more); } else { WholeGrow(bits, more); }
        assert [] + more == more;
      } else {
        assert rest + more == rest;
      }
      CarryGrow(rest, val, chunk);
      curslice := OrAt(curslice, val % Pow2(chunk), cursliceOffset);
      cursliceOffset := cursliceOffset + chunk;
    }

    /** The round of the loop that made room: the carry is empty and the full slice has gone out. */
    ghost predicate Flushed(base: seq<byte>, bits: seq<bool>)
      reads this
    {
      && |Rest(bits)| == 6
      && slices == base + Whole(bits) + [Slice(Rest(bits), MSEO_NORMAL)]
      && curslice == 0 && cursliceOffset == 2
    }

    method AppendFixedField(val: nat, numbits: nat, endOfMessage: bool, ghost base: seq<byte>, ghost bits: seq<bool>)
      requires Holds(base, bits)
      modifies this
      ensures !endOfMessage ==> Holds(base, bits + ToBits(val, numbits))
      ensures endOfMessage ==> slices == base + Pack(bits + ToBits(val, numbits), MSEO_END)
      ensures endOfMessage ==> Holds(slices, [])
    {
      Append(val, numbits, base, bits);
      if endOfMessage {
        MarkAndFlush(MSEO_END, base, bits + ToBits(val, numbits));
      }
    }

    method AppendVarField(val: nat, numbits: nat, endOfMessage: bool, ghost base: seq<byte>, ghost bits: seq<bool>)
      requires Holds(base, bits)
      modifies this
      ensures slices == base + Pack(bits + ToBits(val, MinBits(val, numbits)),
                                    if endOfMessage then MSEO_END else MSEO_VAR_END)
      ensures Holds(slices, [])
    {
      var width := ComputeMinBits(val, numbits);
      Append(val, width, base, bits);
      MarkAndFlush(if endOfMessage then MSEO_END else MSEO_VAR_END, base, bits + ToBits(val, width));
    }

    method MarkAndFlush(mark: nat, ghost base: seq<byte>, ghost bits: seq<bool>)
      requires Holds(base, bits) && (mark == MSEO_VAR_END || mark == MSEO_END)
      modifies this
      ensures slices == base + Pack(bits, mark) && Holds(slices, [])
    {
      // the low two bits of the carry are still clear
      assert Slice(Rest(bits), mark) == curslice + mark;
      curslice := curslice + mark;
      FlushSlice();
      assert base + Whole(bits) + [Slice(Rest(bits), mark)] == base + Pack(bits, mark);
      assert slices == slices + Whole([]);
    }

    method ComputeMinBits(val: nat, numbits: nat) returns (n: nat)
      ensures n == MinBits(val, numbits)
    {
      var result: int := numbits;
      var bit: int := numbits - 1;
      while bit >= 0
        invariant -1 <= bit == result - 1
        invariant result >= 1 ==> MinBits(val, result) == MinBits(val, numbits)
        invariant result == 0 ==> MinBits(val, numbits) == 1
      {
        if (val / Pow2(bit)) % 2 == 0 {
          result := result - 1;
        } else {
          break;
        }
        bit := bit - 1;
      }
      n := if result > 1 then result else 1;
    }

    method AddDataAcquisitionMessage(srcbits: nat, a: Acquisition)
      modifies this
      ensures slices == old(slices) + Encode(srcbits, a)
    {
      hide ToBits, MinBits, Whole, Rest, Encode, Pack, Slice;
      ghost var start := slices;
      var tag := (a.itcIdx * 4) % UINT32;
      if a.size == 2 {
        tag := tag + 2;
      } else if a.size == 1 {
        tag := tag + 3;
      }
      AppendHeader(srcbits, tag, a);
      ghost var tagged := slices;
      AppendVarField(a.data, a.size * 8, !a.haveTimestamp, tagged, []);
      assert [] + DataBits(a) == DataBits(a);
      EncodeUnfold(srcbits, a);
      ghost var header := [TCODE_SLICE] + Pack(TagBits(srcbits, a), MSEO_VAR_END);
      if a.haveTimestamp {
        ghost var filled := slices;
        AppendVarField(a.timestamp, 64, true, filled, []);
        assert [] + TimestampBits(a) == TimestampBits(a);
        Chain(start, header, Pack(DataBits(a), MSEO_VAR_END), Pack(TimestampBits(a), MSEO_END));
      } else {
        Chain(start, header, Pack(DataBits(a), MSEO_END), []);
      }
    }

    /** TCODE, source and tag: the part of a message up to its first end-of-field mark. */
    method AppendHeader(srcbits: nat, tag: nat, a: Acquisition)
      requires tag == a.Tag()
      modifies this
      ensures slices == old(slices) + ([TCODE_SLICE] + Pack(TagBits(srcbits, a), MSEO_VAR_END))
      ensures Holds(slices, [])
    {
      hide Whole, Rest, Value, Slice;
      ghost var start, src := slices, ToBits(Uint64(a.src), srcbits);
      BeginMessage();
      AppendFixedField(TCODE_DATA_ACQUISITION, 6, false, start, []);
      assert [] + ToBits(7, 6) == ToBits(7, 6);
      AppendFixedField(Uint64(a.src), srcbits, false, start, ToBits(7, 6));
      AppendVarField(tag, 32, false, start, ToBits(7, 6) + src);
      TcodeSlice(TagBits(srcbits, a));
      assert ToBits(7, 6) + src + ToBits(tag, MinBits(tag, 32)) == ToBits(7, 6) + TagBits(srcbits, a);
    }
  }

  /** The carry with all its six bits is the slice without a mark. */
  lemma FullSlice(bits: seq<bool>)
    ensures 4 * Value(Rest(bits)) == Slice(Rest(bits), MSEO_NORMAL)
  {
  }

  /** `val >> n`. */
  function ShiftedOut(val: nat, n: nat): nat
  {
    hide Pow2;
    var p := Pow2(n);
    Quotient(val, p);
    val / p
  }

  lemma Quotient(v: nat, p: nat)
    requires p > 0
    ensures v / p >= 0
  {
  }

  lemma NextChunk(bits: seq<bool>, val: nat, chunk: nat, left: nat, rest: nat)
    requires chunk <= left && rest == ShiftedOut(val, chunk)
    ensures bits + ToBits(val, left) == (bits + ToBits(val, chunk)) + ToBits(rest, left - chunk)
  {
    hide ToBits, Pow2;
    ToBitsSplit(val, chunk, left - chunk, rest);
  }

  lemma NoBits(val: nat)
    ensures ToBits(val, 0) == []
  {
  }

  lemma PackFirst(six: seq<bool>, rest: seq<bool>, mark: nat)
    requires |six| == 6 && rest != [] && mark < 4
    ensures Pack(six + rest, mark) == [Slice(six, MSEO_NORMAL)] + Pack(rest, mark)
  {
    hide Slice;
    var bits := six + rest;
    assert bits[..6] == six && bits[6..] == rest;
  }

  /** The TCODE fills the first slice, so the rest of its field packs as if it stood alone. */
  lemma TcodeSlice(rest: seq<bool>)
    requires rest != []
    ensures Pack(ToBits(7, 6) + rest, MSEO_VAR_END) == [TCODE_SLICE] + Pack(rest, MSEO_VAR_END)
  {
    hide Value, ToBits, Pack, Pow2;
    PackFirst(ToBits(7, 6), rest, MSEO_VAR_END);
    ValueToBits(7, 6);
    Pow2Constants();
  }

  lemma EncodeUnfold(srcbits: nat, a: Acquisition)
    ensures Encode(srcbits, a) ==
            if a.haveTimestamp
            then [TCODE_SLICE] + Pack(TagBits(srcbits, a), MSEO_VAR_END)
                 + Pack(DataBits(a), MSEO_VAR_END) + Pack(TimestampBits(a), MSEO_END)
            else [TCODE_SLICE] + Pack(TagBits(srcbits, a), MSEO_VAR_END) + Pack(DataBits(a), MSEO_END)
  {
    var runs := Runs(srcbits, a);
    if a.haveTimestamp {
      assert Concat(runs[2..]) == runs[2] + Concat(runs[3..]) == runs[2];
      assert Concat(runs[1..]) == runs[1] + Concat(runs[2..]) by { assert runs[1..][1..] == runs[2..]; }
    } else {
      assert Concat(runs[1..]) == runs[1] + Concat(runs[2..]) == runs[1];
    }
  }

  lemma Chain(start: seq<byte>, a: seq<byte>, b: seq<byte>, c: seq<byte>)
    ensures start + a + b + c == start + (a + b + c)
    ensures c == [] ==> start + a + b == start + (a + b)
  {
  }

  /** OR-ing a chunk above the carry extends the bits the carry stands for. */
  lemma CarryGrow(rest: seq<bool>, val: nat, chunk: nat)
    ensures 4 * Value(rest) < Pow2(2 + |rest|)
    ensures OrAt(4 * Value(rest), val % Pow2(chunk), 2 + |rest|) == 4 * Value(rest + ToBits(val, chunk))
  {
    var v, p := val % Pow2(chunk), Pow2(|rest|);
    assert Pow2(2 + |rest|) == 4 * p by { Pow2Add(2, |rest|); Pow2Constants(); }
    assert Value(rest) < p by { ValueBound(rest); }
    assert Value(rest + ToBits(val, chunk)) == Value(rest) + p * v by {
      ValueAppend(rest, ToBits(val, chunk));
      ValueToBits(val, chunk);
    }
    CarrySum(v, p);
  }

  lemma CarrySum(v: nat, p: nat)
    ensures v * (4 * p) == 4 * (p * v)
  {
  }
}

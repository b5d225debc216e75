/** The bit-addressed byte buffer helpers of the SWT server. */
module BitBuffer {
  import opened Bits
  import opened NexusWire

  /** `1 << offset` within a byte. */
  function Mask(offset: nat): bv8
    requires offset < 8
  {
    match offset
    case 0 => 0x01
    case 1 => 0x02
    case 2 => 0x04
    case 3 => 0x08
    case 4 => 0x10
    case 5 => 0x20
    case 6 => 0x40
    case 7 => 0x80
  }

  /** Bit `pos` of a buffer. */
  predicate BitAt(buf: seq<bv8>, pos: nat)
    requires pos < 8 * |buf|
  {
    buf[pos / 8] & Mask(pos % 8) != 0
  }

  /** The n bits of a buffer from bit `pos` on. */
  function BitsAt(buf: seq<bv8>, pos: nat, n: nat): (bs: seq<bool>)
    requires pos + n <= 8 * |buf|
    ensures |bs| == n
  {
    seq(n, i requires 0 <= i < n => BitAt(buf, pos + i))
  }

  lemma SetMask(b: bv8, o: nat, p: nat)
    requires o < 8 && p < 8
    ensures (b | Mask(o)) & Mask(p) != 0 <==> (o == p || b & Mask(p) != 0)
    ensures (b & !Mask(o)) & Mask(p) != 0 <==> (o != p && b & Mask(p) != 0)
  {
    assert o == 0 || o == 1 || o == 2 || o == 3 || o == 4 || o == 5 || o == 6 || o == 7;
    assert p == 0 || p == 1 || p == 2 || p == 3 || p == 4 || p == 5 || p == 6 || p == 7;
  }

  method GetBit(buf: array<bv8>, bitpos: nat) returns (bit: bool)
    requires bitpos < 8 * buf.Length
    ensures bit == BitAt(buf[..], bitpos)
  {
    var byteoffset, bitoffset := bitpos / 8, bitpos % 8;
    bit := buf[byteoffset] & Mask(bitoffset) != 0;
  }

  method SetBit(buf: array<bv8>, bitpos: nat, bitval: bool)
    requires bitpos < 8 * buf.Length
    modifies buf
    ensures forall p: nat :: p < 8 * buf.Length ==>
              BitAt(buf[..], p) == if p == bitpos then bitval else BitAt(old(buf[..]), p)
  {
    var byteoffset, bitoffset := bitpos / 8, bitpos % 8;
    if bitval {
      buf[byteoffset] := buf[byteoffset] | Mask(bitoffset);
    } else {
      buf[byteoffset] := buf[byteoffset] & !Mask(bitoffset);
    }
    forall p: nat | p < 8 * buf.Length
      ensures BitAt(buf[..], p) == if p == bitpos then bitval else BitAt(old(buf[..]), p)
    {
      OneBitSet(old(buf[..]), buf[..], bitpos, bitval, p);
    }
  }

  lemma OneBitSet(before: seq<bv8>, after: seq<bv8>, bitpos: nat, bitval: bool, p: nat)
    requires bitpos < 8 * |before| && p < 8 * |before|
    requires var b := before[bitpos / 8];
             after == before[bitpos / 8 := if bitval then b | Mask(bitpos % 8) else b & !Mask(bitpos % 8)]
    ensures BitAt(after, p) == if p == bitpos then bitval else BitAt(before, p)
  {
    if p / 8 == bitpos / 8 {
      SetMask(before[bitpos / 8], bitpos % 8, p % 8);
    }
  }

  lemma {:induction false} ToBitsAt(v: nat, n: nat, i: nat)
    requires i < n
    ensures ToBits(v, n)[i] == ToBits(v, i + 1)[i]
  {
    if i > 0 { ToBitsAt(v / 2, n - 1, i - 1); }
  }

  /** Writes the low `numbits` bits of `src` at bit position `bufbitpos`, leaving every other bit alone. */
  method PutBits(src: nat, numbits: nat, buf: array<bv8>, bufbitpos: nat)
    requires bufbitpos + numbits <= 8 * buf.Length
    modifies buf
    ensures BitsAt(buf[..], bufbitpos, numbits) == ToBits(src, numbits)
    ensures forall p: nat :: p < 8 * buf.Length && !(bufbitpos <= p < bufbitpos + numbits) ==>
              BitAt(buf[..], p) == BitAt(old(buf[..]), p)
  {
    var val := src;
    var curpos := bufbitpos;
    for i := 0 to numbits
      invariant curpos == bufbitpos + i
      invariant ToBits(src, numbits)[i..] == ToBits(val, numbits - i)
      invariant forall k :: 0 <= k < i ==> BitAt(buf[..], bufbitpos + k) == ToBits(src, numbits)[k]
      invariant forall p: nat :: p < 8 * buf.Length && !(bufbitpos <= p < curpos) ==>
                  BitAt(buf[..], p) == BitAt(old(buf[..]), p)
    {
      var bit := val % 2 == 1;
      assert ToBits(src, numbits)[i] == ToBits(src, numbits)[i..][0] == bit;
      assert ToBits(src, numbits)[i + 1..] == ToBits(src, numbits)[i..][1..];
      SetBit(buf, curpos, bit);
      val := val / 2;
      curpos := curpos + 1;
    }
  }

  /**
   Reads `numbits` bits from position `bufbitpos` as an unsigned 64-bit number; a count of zero or
   less reads nothing. Bits that a 64-bit shift would move past the top are dropped.
   */
  method GetBits(buf: array<bv8>, bufbitpos: nat, numbits: int) returns (val: nat)
    requires bufbitpos + numbits <= 8 * buf.Length
    ensures val == if numbits <= 0 then 0 else Uint64(Value(BitsAt(buf[..], bufbitpos, numbits)))
  {
    hide BitAt, Value, Pow2;
    val := 0;
    assert Value([]) == 0 by { ValueZeros(0); assert Zeros(0) == []; }
    if numbits <= 0 { return; }
    ghost var bits := BitsAt(buf[..], bufbitpos, numbits);
    ghost var kept := 0;
    for i := 0 to numbits
      invariant kept == if i < 64 then i else 64
      invariant val == Value(bits[..kept])
    {
      var bit := GetBit(buf, bufbitpos + i);
      if i < 64 {
        ValueBound(bits[..i]);
        ValueSnoc(bits[..i], bit);
        assert bits[..i + 1] == bits[..i] + [bit];
        val := OrAt(val, if bit then 1 else 0, i);
        kept := kept + 1;
      }
    }
    Pow2Constants();
    ValuePrefix(bits, kept);
    if numbits < 64 { assert bits[..kept] == bits; ValueBound(bits); Pow2Monotone(numbits, 64); }
  }
}

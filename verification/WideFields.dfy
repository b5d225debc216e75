/**
 Which field widths the pull decoder's 64-bit reader handles exactly. Fields end on a slice boundary,
 so one that holds a 64-bit number may be wider than 64 bits; the reader compensates by looking at the
 top two bits of the last slice only.
 */
module WideFields {
  import opened Bits
  import opened NexusWire
  import opened FieldReader
  import opened DecoderAgreement

  /** `last` is the slice that ends a field with these bits. */
  predicate EndsWith(bits: seq<bool>, last: byte)
  {
    |bits| >= 6 ==> SliceBits(last) == bits[|bits| - 6..]
  }

  /** The reader returns the field's value, or an error if that needs more than 64 bits. */
  predicate Exact(bits: seq<bool>, last: byte)
  {
    match RunOutcome(bits, 0, last, false)
    case Got(v, _, _, _) => v == Value(bits)
    case Failed(_) => Value(bits) >= UINT64
  }

  ghost predicate ExactAtWidth(w: nat)
  {
    forall bits, last :: |bits| == w && EndsWith(bits, last) ==> Exact(bits, last)
  }

  lemma NarrowExact(bits: seq<bool>, last: byte)
    requires |bits| <= 64
    ensures Exact(bits, last)
  {
    ValueBound(bits);
    Pow2Monotone(|bits|, 64);
    assert Pow2(64) == UINT64 by { Pow2Constants(); }
    ModSmall(Value(bits), UINT64);
  }

  /** Eleven whole slices: the top two bits of the last one are exactly the bits beyond 64. */
  lemma ElevenSlicesExact(bits: seq<bool>, last: byte)
    requires |bits| == 66 && EndsWith(bits, last)
    ensures Exact(bits, last)
  {
    hide Value, ToBits, Pow2, SliceBits;
    SliceValue(last);
    assert Value(bits) == Value(bits[..60]) + Pow2(60) * Mdo(last) by {
      ValueAppend(bits[..60], bits[60..]);
      assert bits == bits[..60] + bits[60..];
    }
    ValueBound(bits[..60]);
    assert Pow2(60) == 0x1000_0000_0000_0000 by {
      Pow2Constants();
      Pow2Add(60, 4);
    }
    if last < 64 { ModSmall(Value(bits), UINT64); }
  }

  /** A field of w bits whose only set bit is bit k. */
  function OneHot(w: nat, k: nat): (bs: seq<bool>)
    ensures |bs| == w
  {
    seq(w, i => i == k)
  }

  lemma {:induction false} OneHotValue(w: nat, k: nat)
    requires k < w
    ensures Value(OneHot(w, k)) == Pow2(k)
  {
    if k == 0 {
      assert OneHot(w, 0)[1..] == Zeros(w - 1);
      ValueZeros(w - 1);
    } else {
      assert OneHot(w, k)[1..] == OneHot(w - 1, k - 1);
      OneHotValue(w - 1, k - 1);
    }
  }

  /** The slice that ends a field with the given bits. */
  lemma LastSlice(bits: seq<bool>) returns (last: byte)
    requires |bits| >= 6
    ensures EndsWith(bits, last) && Mdo(last) == Value(bits[|bits| - 6..])
  {
    hide Value, ToBits, Pow2;
    var six := bits[|bits| - 6..];
    ValueBound(six);
    assert Pow2(6) == 64 by { Pow2Constants(); }
    last := 4 * Value(six);
    ToBitsValue(six);
  }

  /** 65 bits: bit 63 alone makes a 64-bit number that is rejected. */
  lemma Width65Rejects()
    ensures !ExactAtWidth(65)
  {
    var bits := OneHot(65, 63);
    OneHotValue(65, 63);
    var last := LastSlice(bits);
    assert bits[59..] == OneHot(6, 4);
    OneHotValue(6, 4);
    Pow2Constants();
    assert Value(bits) < UINT64 by { Pow2Add(63, 1); }
    assert !Exact(bits, last);
  }

  /** 67 bits or more: bit 64 alone makes a number that is accepted and read as zero. */
  lemma WiderTruncates(w: nat)
    requires w >= 67
    ensures !ExactAtWidth(w)
  {
    var bits := OneHot(w, 64);
    OneHotValue(w, 64);
    var last := LastSlice(bits);
    Pow2Constants();
    if w <= 70 {
      assert bits[w - 6..] == OneHot(6, 70 - w);
      OneHotValue(6, 70 - w);
      Pow2Monotone(70 - w, 3);
    } else {
      assert bits[w - 6..] == Zeros(6);
      ValueZeros(6);
    }
    assert !Exact(bits, last);
  }

  /** The reader is exact for every field of a width if and only if the width is at most 64, or 66. */
  lemma ExactWidths(w: nat)
    ensures ExactAtWidth(w) <==> w <= 64 || w == 66
  {
    if w == 65 {
      Width65Rejects();
    } else if w >= 67 {
      WiderTruncates(w);
    } else {
      forall bits, last | |bits| == w && EndsWith(bits, last) ensures Exact(bits, last) {
        if w <= 64 { NarrowExact(bits, last); } else { ElevenSlicesExact(bits, last); }
      }
    }
  }
}

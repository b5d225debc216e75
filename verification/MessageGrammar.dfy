/**
 Which messages the parsers of the pull decoder accept, said without a parser: a message is accepted if and only
 if its bits can be cut into the fields that its TCODE prescribes.
 */
module MessageGrammar {
  import opened Bits
  import opened NexusWire
  import opened MessageBuilder
  import opened FieldReader
  import opened PullDecoder
  import opened Framing
  import opened DecoderAgreement
  import Codec = CodecRoundTrip
  import opened PushDecoder

  // ----- fields and cuts

  /**
   The bits p to q - 1 of a message are a field of this kind. A variable field ends with the first marked slice,
   and a fixed one does not end with the message.
   */
  predicate IsField(m: seq<byte>, kind: FieldKind, p: nat, q: nat)
  {
    match kind
    case TwoBits => q == p + 2 < 6 * |m|
    case FourBits => q == p + 4 < 6 * |m|
    case VarField =>
      && p < q <= 6 * |m| && q % 6 == 0 && Mseo(m[q / 6 - 1]) != MSEO_NORMAL
      && (forall i :: p / 6 <= i < q / 6 - 1 ==> Mseo(m[i]) == MSEO_NORMAL)
      && Accepted(q - p, m[q / 6 - 1])
  }

  function FieldValue(m: seq<byte>, p: nat, q: nat): nat
  {
    if p <= q <= 6 * |m| then Uint64(Value(FieldBits(m)[p..q])) else 0
  }

  /** The cuts separate fields of these kinds, from bit p on. */
  predicate Separates(m: seq<byte>, p: nat, kinds: seq<FieldKind>, cuts: seq<nat>)
  {
    && |cuts| == |kinds| + 1 && cuts[0] == p
    && forall k :: 0 <= k < |kinds| ==> IsField(m, kinds[k], cuts[k], cuts[k + 1])
  }

  function Values(m: seq<byte>, cuts: seq<nat>): (values: seq<nat>)
    requires cuts != []
    ensures |values| == |cuts| - 1
  {
    seq(|cuts| - 1, k requires 0 <= k < |cuts| - 1 => FieldValue(m, cuts[k], cuts[k + 1]))
  }

  lemma FieldInside(m: seq<byte>, kind: FieldKind, p: nat, q: nat)
    requires IsField(m, kind, p, q)
    ensures p < q <= 6 * |m|
  {
  }

  // ----- reading fields

  /** The end-of-message flag is only set in the last slice, and set at the end. */
  predicate Sound(m: seq<byte>, p: nat, eom: bool)
  {
    p <= 6 * |m| && (eom ==> p / 6 >= |m| - 1) && (p == 6 * |m| ==> eom)
  }

  lemma FixedRead(m: seq<byte>, p: nat, eom: bool, width: nat)
    requires IsMessage(m) && Sound(m, p, eom) && 0 < width <= 64
    ensures var out := Fixed(m, p, eom, width);
            && (out.Got? <==> p + width < 6 * |m|)
            && (out.Got? ==> out.val == FieldValue(m, p, p + width) && out.bitIndex == p + width
                             && Sound(m, p + width, out.eom))
  {
    hide Value, FieldBits;
    if p + width < 6 * |m| {
      assert m[|m| - 1] == Last(m);
      ValueBound(FieldBits(m)[p..p + width]);
      Pow2Monotone(width, 64);
      Pow2Constants();
      ModSmall(Value(FieldBits(m)[p..p + width]), UINT64);
    }
  }

  lemma VarRead(m: seq<byte>, p: nat, eom: bool, q: nat)
    requires IsMessage(m) && Sound(m, p, eom) && IsField(m, VarField, p, q)
    ensures var out := Var(m, p, eom);
            out.Got? && out.val == FieldValue(m, p, q) && out.bitIndex == q && (out.eom <==> q == 6 * |m|)
  {
    hide Value, FieldBits;
    assert m[|m| - 1] == Last(m);
    RunEndIs(m, p / 6, q / 6 - 1);
  }

  lemma FieldOfVar(m: seq<byte>, p: nat, eom: bool)
    requires IsMessage(m) && Var(m, p, eom).Got?
    ensures IsField(m, VarField, p, Var(m, p, eom).bitIndex)
  {
    hide Value, FieldBits;
  }

  lemma FieldRead(m: seq<byte>, p: nat, eom: bool, kind: FieldKind, q: nat)
    requires IsMessage(m) && Sound(m, p, eom) && IsField(m, kind, p, q)
    ensures var out := ReadField(m, p, eom, kind);
            && out.Got? && out.val == FieldValue(m, p, q) && out.bitIndex == q && Sound(m, q, out.eom)
            && (kind == VarField ==> (out.eom <==> q == 6 * |m|))
  {
    hide Fixed, Var, FieldValue;
    match kind
    case TwoBits => FixedRead(m, p, eom, 2);
    case FourBits => FixedRead(m, p, eom, 4);
    case VarField => VarRead(m, p, eom, q);
  }

  lemma FieldOfRead(m: seq<byte>, p: nat, eom: bool, kind: FieldKind)
    requires IsMessage(m) && Sound(m, p, eom) && ReadField(m, p, eom, kind).Got?
    ensures IsField(m, kind, p, ReadField(m, p, eom, kind).bitIndex)
  {
    hide Fixed, Var, FieldValue;
    match kind
    case TwoBits => FixedRead(m, p, eom, 2);
    case FourBits => FixedRead(m, p, eom, 4);
    case VarField => FieldOfVar(m, p, eom);
  }

  /** Fields that the cuts separate are read as such. */
  lemma {:induction false} ChainRead(m: seq<byte>, p: nat, eom: bool, kinds: seq<FieldKind>, cuts: seq<nat>,
                                     before: seq<nat>)
    requires IsMessage(m) && Sound(m, p, eom) && Separates(m, p, kinds, cuts)
    ensures var out, q := ReadFields(m, p, eom, kinds, before), cuts[|kinds|];
            && out.FieldsGot? && out.fields == before + Values(m, cuts) && out.bitIndex == q && Sound(m, q, out.eom)
            && (kinds != [] && kinds[|kinds| - 1] == VarField ==> (out.eom <==> q == 6 * |m|))
    decreases |kinds|
  {
    hide ReadField, IsField, FieldValue, Sound;
    if kinds == [] {
      assert before + Values(m, cuts) == before;
    } else {
      FieldRead(m, p, eom, kinds[0], cuts[1]);
      var v := FieldValue(m, cuts[0], cuts[1]);
      assert Values(m, cuts) == [v] + Values(m, cuts[1..]);
      assert (before + [v]) + Values(m, cuts[1..]) == before + Values(m, cuts);
      ChainRead(m, cuts[1], ReadField(m, p, eom, kinds[0]).eom, kinds[1..], cuts[1..], before + [v]);
    }
  }

  /** Fields that are read are separated by cuts. */
  lemma {:induction false} ReadChain(m: seq<byte>, p: nat, eom: bool, kinds: seq<FieldKind>, before: seq<nat>)
    returns (cuts: seq<nat>)
    requires IsMessage(m) && Sound(m, p, eom) && ReadFields(m, p, eom, kinds, before).FieldsGot?
    ensures Separates(m, p, kinds, cuts)
    decreases |kinds|
  {
    hide ReadField, IsField, Sound;
    if kinds == [] {
      cuts := [p];
    } else {
      var out := ReadField(m, p, eom, kinds[0]);
      FieldOfRead(m, p, eom, kinds[0]);
      FieldRead(m, p, eom, kinds[0], out.bitIndex);
      var rest := ReadChain(m, out.bitIndex, out.eom, kinds[1..], before + [out.val]);
      cuts := [p] + rest;
      forall k | 0 <= k < |kinds|
        ensures IsField(m, kinds[k], cuts[k], cuts[k + 1])
      {
        if k > 0 { assert kinds[k] == kinds[1..][k - 1] && cuts[k] == rest[k - 1] && cuts[k + 1] == rest[k]; }
      }
    }
  }

  lemma ChainSplit(m: seq<byte>, p: nat, a: seq<FieldKind>, b: seq<FieldKind>, cuts: seq<nat>)
    requires Separates(m, p, a + b, cuts)
    ensures Separates(m, p, a, cuts[..|a| + 1]) && Separates(m, cuts[|a|], b, cuts[|a|..])
    ensures Values(m, cuts) == Values(m, cuts[..|a| + 1]) + Values(m, cuts[|a|..])
  {
    hide IsField;
    ValuesSplit(m, cuts, |a|);
    forall k | 0 <= k < |a|
      ensures IsField(m, a[k], cuts[k], cuts[k + 1])
    {
      assert (a + b)[k] == a[k];
    }
    forall k | 0 <= k < |b|
      ensures IsField(m, b[k], cuts[|a|..][k], cuts[|a|..][k + 1])
    {
      assert (a + b)[|a| + k] == b[k];
    }
  }

  lemma ValuesSplit(m: seq<byte>, cuts: seq<nat>, n: nat)
    requires n < |cuts|
    ensures Values(m, cuts) == Values(m, cuts[..n + 1]) + Values(m, cuts[n..])
  {
    hide FieldValue;
  }

  lemma ChainJoin(m: seq<byte>, p: nat, a: seq<FieldKind>, b: seq<FieldKind>, c: seq<nat>, d: seq<nat>)
    requires Separates(m, p, a, c) && Separates(m, c[|a|], b, d)
    ensures Separates(m, p, a + b, c + d[1..]) && (c + d[1..])[..|a| + 1] == c && (c + d[1..])[|a|..] == d
  {
    hide IsField;
    var cuts := c + d[1..];
    forall k | 0 <= k < |a + b|
      ensures IsField(m, (a + b)[k], cuts[k], cuts[k + 1])
    {
      if k >= |a| { assert cuts[k] == d[k - |a|] && cuts[k + 1] == d[k - |a| + 1]; }
    }
  }

  // ----- messages

  /** A way to read a message: the fields that depend on others, whether there is a timestamp, and the cuts. */
  datatype Reading = Reading(more: seq<FieldKind>, stamped: bool, cuts: seq<nat>)

  /** The fields that every message with the TCODE has after its source. */
  function Base(tcode: nat): Option<seq<FieldKind>>
  {
    if tcode == TCODE_DATA_ACQUISITION then Some([VarField, VarField]) else Layout(tcode)
  }

  function Stamp(stamped: bool): seq<FieldKind> { if stamped then [VarField] else [] }

  /**
   The cuts separate the prescribed fields, from the end of the source to the end of the message; the values of
   the first ones allow and prescribe the others.
   */
  predicate IsReading(srcbits: nat, m: seq<byte>, r: Reading)
    requires m != []
  {
    var base := Base(Mdo(m[0]));
    && base.Some?
    && Separates(m, 6 + srcbits, base.value + r.more + Stamp(r.stamped), r.cuts)
    && r.cuts[|r.cuts| - 1] == 6 * |m|
    && MoreFields(Mdo(m[0]), Values(m, r.cuts)[..|base.value|]) == Some(r.more)
  }

  ghost predicate Readable(srcbits: nat, m: seq<byte>)
    requires m != []
  {
    exists r :: IsReading(srcbits, m, r)
  }

  function CoreOf(srcbits: nat, m: seq<byte>): nat
  {
    if srcbits == 0 then 0 else FieldValue(m, 6, 6 + srcbits) % 256
  }

  function Finish(tcode: nat, core: nat, fields: seq<nat>, stamped: bool, ts: nat): Report
  {
    if tcode != TCODE_DATA_ACQUISITION then OtherMessage(Parsed(tcode, core, Stored(tcode, fields), stamped, ts))
    else if |fields| < 2 then Bad(ERR)
    else DataMessage(Acquired(core, Uint32(fields[0]), Uint32(fields[1]), stamped, ts))
  }

  /** The message that a reading reads. */
  function MessageOf(srcbits: nat, m: seq<byte>, r: Reading): Report
    requires m != [] && IsReading(srcbits, m, r)
  {
    var values := Values(m, r.cuts);
    var n := |values| - if r.stamped then 1 else 0;
    Finish(Mdo(m[0]), CoreOf(srcbits, m), values[..n], r.stamped, if r.stamped then values[n] else 0)
  }

  // ----- the parsers as one

  function Body(m: seq<byte>, p: nat, eom: bool, tcode: nat, core: nat): Report
    requires Base(tcode).Some?
  {
    match ReadFields(m, p, eom, Base(tcode).value, [])
    case FieldsFailed(err) => Bad(err)
    case FieldsGot(fields, p', e') =>
      match MoreFields(tcode, fields)
      case None => Bad(ERR)
      case Some(more) =>
        match ReadFields(m, p', e', more, fields)
        case FieldsFailed(err) => Bad(err)
        case FieldsGot(all, p'', e'') => BodyEnd(m, p'', e'', tcode, core, all)
  }

  function BodyEnd(m: seq<byte>, p: nat, eom: bool, tcode: nat, core: nat, all: seq<nat>): Report
  {
    if eom then Finish(tcode, core, all, false, 0)
    else match Var(m, p, eom)
      case Failed(err) => Bad(err)
      case Got(ts, _, _, e) => if e then Finish(tcode, core, all, true, ts) else Bad(BM)
  }

  lemma TagIsBody(m: seq<byte>, p: nat, eom: bool, core: nat)
    ensures ParseTag(m, p, eom, core) == Body(m, p, eom, TCODE_DATA_ACQUISITION, core)
  {
    hide Var;
    var two := [VarField, VarField];
    assert two[1..] == [VarField] && [VarField][1..] == [];
    var tag := Var(m, p, eom);
    if tag.Got? {
      var data := Var(m, tag.bitIndex, tag.eom);
      assert [] + [tag.val] == [tag.val];
      if data.Got? {
        assert ReadFields(m, p, eom, two, []) == FieldsGot([tag.val, data.val], data.bitIndex, data.eom);
      }
    }
  }

  lemma OtherIsBody(m: seq<byte>, p: nat, eom: bool, tcode: nat, core: nat)
    requires tcode != TCODE_DATA_ACQUISITION && Layout(tcode).Some?
    ensures ParseOtherFields(m, p, eom, tcode, core) == Body(m, p, eom, tcode, core)
  {
    hide Var, ReadFields, Layout, MoreFields;
  }

  /** TCODE and source, then the rest; or the message is too short. */
  lemma MessageIsBody(srcbits: nat, m: seq<byte>) returns (eom: bool)
    requires IsMessage(m) && srcbits <= 64 && Base(Mdo(m[0])).Some?
    ensures 6 + srcbits >= 6 * |m| ==> ParseMessage(srcbits, m).Bad?
    ensures 6 + srcbits < 6 * |m| ==>
              && Sound(m, 6 + srcbits, eom)
              && ParseMessage(srcbits, m) == Body(m, 6 + srcbits, eom, Mdo(m[0]), CoreOf(srcbits, m))
  {
    hide Value, FieldBits, Fixed, Var, ReadFields, Layout, MoreFields, Body, FieldValue, Sound;
    FirstSlice(m);
    var tcode, head := Mdo(m[0]), Fixed(m, 0, false, 6);
    assert Sound(m, 0, false) by { AtStart(m); }
    FixedRead(m, 0, false, 6);
    var src, core := if srcbits > 0 then Fixed(m, 6, head.eom, srcbits) else head, CoreOf(srcbits, m);
    if srcbits > 0 { FixedRead(m, 6, head.eom, srcbits); }
    eom := src.Got? && src.eom;
    if 6 + srcbits < 6 * |m| {
      if tcode == TCODE_DATA_ACQUISITION {
        TagIsBody(m, 6 + srcbits, src.eom, core);
      } else {
        OtherIsBody(m, 6 + srcbits, src.eom, tcode, core);
      }
    }
  }

  lemma AtStart(m: seq<byte>)
    requires |m| >= 2
    ensures Sound(m, 0, false)
  {
  }

  // ----- accepted exactly when readable

  /** A reading is what the parsers read. */
  lemma ReadingRead(srcbits: nat, m: seq<byte>, r: Reading, eom: bool)
    requires IsMessage(m) && IsReading(srcbits, m, r) && Sound(m, 6 + srcbits, eom)
    ensures Body(m, 6 + srcbits, eom, Mdo(m[0]), CoreOf(srcbits, m)) == MessageOf(srcbits, m, r)
  {
    hide Value, FieldBits, Var, ReadFields, Base, MoreFields, IsField, FieldValue, Sound, Values, BodyEnd, CoreOf;
    var tcode, p := Mdo(m[0]), 6 + srcbits;
    var base, more, cuts := Base(tcode).value, r.more, r.cuts;
    EndsVariable(tcode, more, Values(m, cuts)[..|base|]);
    ChainSplit(m, p, base + more, Stamp(r.stamped), cuts);
    var c := cuts[..|base + more| + 1];
    assert Values(m, cuts)[..|base + more|] == Values(m, c);
    assert Values(m, c)[..|base|] == Values(m, cuts)[..|base|];
    PrescribedRead(m, p, eom, base, more, c);
    var first := ReadFields(m, p, eom, base, []);
    var all := ReadFields(m, first.bitIndex, first.eom, more, first.fields);
    EndRead(srcbits, m, r, all.bitIndex, all.eom, all.fields);
  }

  /** The prescribed fields, read in two parts. */
  lemma PrescribedRead(m: seq<byte>, p: nat, eom: bool, base: seq<FieldKind>, more: seq<FieldKind>, c: seq<nat>)
    requires IsMessage(m) && Sound(m, p, eom) && Separates(m, p, base + more, c)
    requires if more == [] then base != [] && base[|base| - 1] == VarField else more[|more| - 1] == VarField
    ensures var first, q := ReadFields(m, p, eom, base, []), c[|base + more|];
            && first.FieldsGot? && first.fields == Values(m, c)[..|base|]
            && var all := ReadFields(m, first.bitIndex, first.eom, more, first.fields);
               && all.FieldsGot? && all.fields == Values(m, c) && all.bitIndex == q
               && Sound(m, q, all.eom) && (all.eom <==> q == 6 * |m|)
  {
    hide ReadFields, IsField, FieldValue, Sound, Values;
    ChainSplit(m, p, base, more, c);
    ChainRead(m, p, eom, base, c[..|base| + 1], []);
    var first := ReadFields(m, p, eom, base, []);
    assert [] + Values(m, c[..|base| + 1]) == Values(m, c[..|base| + 1]);
    ChainRead(m, first.bitIndex, first.eom, more, c[|base|..], first.fields);
    ReadNothing(m, first.bitIndex, first.eom, first.fields);
  }

  /** The end of a message that can be read: with or without a timestamp. */
  lemma EndRead(srcbits: nat, m: seq<byte>, r: Reading, p: nat, eom: bool, all: seq<nat>)
    requires IsMessage(m) && IsReading(srcbits, m, r) && Sound(m, p, eom) && (eom <==> p == 6 * |m|)
    requires var n := |Base(Mdo(m[0])).value + r.more|;
             && n < |r.cuts| && Separates(m, p, Stamp(r.stamped), r.cuts[n..]) && Values(m, r.cuts)[..n] == all
             && Values(m, r.cuts) == all + Values(m, r.cuts[n..])
    ensures BodyEnd(m, p, eom, Mdo(m[0]), CoreOf(srcbits, m), all) == MessageOf(srcbits, m, r)
  {
    hide Value, FieldBits, Var, Base, MoreFields, IsField, FieldValue, Sound, Values, Finish;
    if r.stamped {
      StampRead(m, p, eom, r.cuts[|Base(Mdo(m[0])).value + r.more|..]);
    }
  }

  lemma ReadNothing(m: seq<byte>, p: nat, eom: bool, before: seq<nat>)
    ensures ReadFields(m, p, eom, [], before) == FieldsGot(before, p, eom)
  {
  }

  lemma StampRead(m: seq<byte>, p: nat, eom: bool, cuts: seq<nat>)
    requires IsMessage(m) && Sound(m, p, eom) && Separates(m, p, [VarField], cuts) && cuts[1] == 6 * |m|
    ensures p < 6 * |m| && |Values(m, cuts)| == 1
    ensures Var(m, p, eom).Got? && Var(m, p, eom).val == Values(m, cuts)[0] && Var(m, p, eom).eom
  {
    hide Value, FieldBits, Var;
    assert IsField(m, [VarField][0], cuts[0], cuts[1]);
    VarRead(m, p, eom, cuts[1]);
  }

  /** What is prescribed before a timestamp ends with a variable field. */
  lemma EndsVariable(tcode: nat, more: seq<FieldKind>, values: seq<nat>)
    requires Base(tcode).Some? && MoreFields(tcode, values) == Some(more)
    ensures var kinds := Base(tcode).value;
            if more == [] then kinds != [] && kinds[|kinds| - 1] == VarField else more[|more| - 1] == VarField
  {
  }

  /** What the parsers read is a reading. */
  lemma ReadReading(srcbits: nat, m: seq<byte>, eom: bool) returns (r: Reading)
    requires IsMessage(m) && Sound(m, 6 + srcbits, eom) && Base(Mdo(m[0])).Some?
    requires !Body(m, 6 + srcbits, eom, Mdo(m[0]), CoreOf(srcbits, m)).Bad?
    ensures IsReading(srcbits, m, r)
  {
    hide Value, FieldBits, Var, ReadFields, Layout, MoreFields, IsField, FieldValue, Sound, Values;
    var tcode, p := Mdo(m[0]), 6 + srcbits;
    var base := Base(tcode).value;
    var first := ReadFields(m, p, eom, base, []);
    var c := ReadChain(m, p, eom, base, []);
    ChainRead(m, p, eom, base, c, []);
    assert [] + Values(m, c) == Values(m, c);
    var more := MoreFields(tcode, first.fields).value;
    EndsVariable(tcode, more, first.fields);
    var all := ReadFields(m, first.bitIndex, first.eom, more, first.fields);
    var d := ReadChain(m, first.bitIndex, first.eom, more, first.fields);
    ChainRead(m, first.bitIndex, first.eom, more, d, first.fields);
    ReadNothing(m, first.bitIndex, first.eom, first.fields);
    var end := [all.bitIndex];
    if !all.eom { end := StampChain(m, all.bitIndex, all.eom); }
    r := JoinReading(srcbits, m, more, !all.eom, c, d, end);
  }

  lemma JoinReading(srcbits: nat, m: seq<byte>, more: seq<FieldKind>, stamped: bool,
                    c: seq<nat>, d: seq<nat>, end: seq<nat>) returns (r: Reading)
    requires m != [] && Base(Mdo(m[0])).Some?
    requires Separates(m, 6 + srcbits, Base(Mdo(m[0])).value, c) && Separates(m, c[|c| - 1], more, d)
    requires Separates(m, d[|d| - 1], Stamp(stamped), end) && end[|end| - 1] == 6 * |m|
    requires MoreFields(Mdo(m[0]), Values(m, c)) == Some(more)
    ensures IsReading(srcbits, m, r)
  {
    hide Base, MoreFields, IsField, Values;
    var base := Base(Mdo(m[0])).value;
    ChainJoin(m, 6 + srcbits, base, more, c, d);
    var cd := c + d[1..];
    assert cd[|base + more|] == d[|more|];
    ChainJoin(m, 6 + srcbits, base + more, Stamp(stamped), cd, end);
    var cuts := cd + end[1..];
    ValuesSplit(m, cuts, |base + more|);
    ValuesSplit(m, cd, |base|);
    assert cuts[|base + more|..] == end && cuts[|cuts| - 1] == end[|end| - 1];
    assert Values(m, cuts)[..|base|] == Values(m, c);
    r := Reading(more, stamped, cuts);
  }

  lemma StampChain(m: seq<byte>, p: nat, eom: bool) returns (cuts: seq<nat>)
    requires IsMessage(m) && Sound(m, p, eom) && Var(m, p, eom).Got? && Var(m, p, eom).eom
    ensures Separates(m, p, [VarField], cuts) && cuts[1] == 6 * |m|
  {
    hide Value, FieldBits, Var, IsField;
    FieldOfVar(m, p, eom);
    VarRead(m, p, eom, Var(m, p, eom).bitIndex);
    cuts := [p, 6 * |m|];
  }

  /**
   A message whose TCODE has a parser is accepted if and only if its bits can be cut into the prescribed fields,
   and then what is reported are the values between the cuts.
   */
  lemma AcceptedExactly(srcbits: nat, m: seq<byte>)
    requires IsMessage(m) && srcbits <= 64 && Base(Mdo(m[0])).Some?
    ensures ParseMessage(srcbits, m).Bad? <==> !Readable(srcbits, m)
    ensures forall r :: IsReading(srcbits, m, r) ==> ParseMessage(srcbits, m) == MessageOf(srcbits, m, r)
  {
    hide ParseMessage, Body, IsReading, CoreOf, Base, Sound;
    var eom := MessageIsBody(srcbits, m);
    forall r | IsReading(srcbits, m, r)
      ensures ParseMessage(srcbits, m) == MessageOf(srcbits, m, r) && !MessageOf(srcbits, m, r).Bad?
    {
      LongEnough(srcbits, m, r);
      ReadingRead(srcbits, m, r, eom);
    }
    if !ParseMessage(srcbits, m).Bad? {
      var r := ReadReading(srcbits, m, eom);
    }
  }

  lemma LongEnough(srcbits: nat, m: seq<byte>, r: Reading)
    requires m != [] && IsReading(srcbits, m, r)
    ensures 6 + srcbits < 6 * |m| && !MessageOf(srcbits, m, r).Bad?
  {
    hide Value, FieldBits, MoreFields, IsField;
    FieldInside(m, (Base(Mdo(m[0])).value + r.more + Stamp(r.stamped))[0], r.cuts[0], r.cuts[1]);
  }

  // ----- recovery after garbage, without a parser

  /** An event that ends the decode: an overflow, or a message with prescribed fields that cannot be cut into them. */
  ghost predicate Harmful(srcbits: nat, e: Event)
  {
    e.Overflow? || (|e.msg| >= 2 && Base(Mdo(e.msg[0])).Some? && !Readable(srcbits, e.msg))
  }

  lemma StopsExactly(srcbits: nat, bytes: seq<byte>, i: nat)
    requires srcbits <= 64 && i < |Events(bytes)|
    ensures Stops(srcbits, Events(bytes)[i]) <==> Harmful(srcbits, Events(bytes)[i])
  {
    hide Base, Readable;
    var e := Events(bytes)[i];
    if e.Framed? {
      FramedIsMessage(bytes, i);
      FirstSlice(e.msg);
      if Base(Mdo(e.msg[0])).Some? {
        AcceptedExactly(srcbits, e.msg);
      } else {
        NoParser(srcbits, e.msg);
      }
    }
  }

  lemma NoParser(srcbits: nat, m: seq<byte>)
    requires |m| >= 2 && Base(Mdo(m[0])).None?
    ensures ParseMessage(srcbits, m) == Unsupported(Mdo(m[0]))
  {
    hide Value, FieldBits, Layout;
    FirstSlice(m);
  }

  /**
   Recovery after garbage that ends with an end-of-message slice: the messages that follow are all reported, after
   whatever the garbage held, if and only if no message in it was overlong or cannot be cut into the fields that
   its TCODE prescribes.
   */
  lemma RecoveryExactly(srcbits: nat, garbage: seq<byte>, end: byte, msgs: seq<Acquisition>)
    requires srcbits <= MAX_SRCBITS && Mseo(end) == MSEO_END && msgs != []
    requires forall i :: 0 <= i < |msgs| ==> msgs[i].Valid()
    ensures var before := Events(garbage + [end]);
            Reports(srcbits, Events(garbage + [end] + Concat(Codec.Encoded(srcbits, msgs))))
              == Reports(srcbits, before) + AsReports(Codec.ExpectedAll(srcbits, msgs))
            <==> forall i :: 0 <= i < |before| ==> !Harmful(srcbits, before[i])
  {
    hide Reports, Harmful, Stops, Codec.Encoded, Codec.ExpectedAll;
    PullRecovery(srcbits, garbage, end, msgs);
    forall i | 0 <= i < |Events(garbage + [end])|
      ensures Stops(srcbits, Events(garbage + [end])[i]) <==> Harmful(srcbits, Events(garbage + [end])[i])
    {
      StopsExactly(srcbits, garbage + [end], i);
    }
  }
}

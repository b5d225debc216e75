/**
 Print over instrumentation trace, end to end: the target's `itc_puts` cuts a string into stimulus
 register writes, the trace hardware turns each write into a data acquisition message, and the SWT
 server prints the characters of the messages on its print channel.
 */
module ItcPrint {
  import opened Bits
  import opened NexusWire
  import opened MessageBuilder
  import opened PushDecoder
  import Codec = CodecRoundTrip

  const NEWLINE: byte := 10

  // ----- the target

  /** A write of 4, 2 or 1 bytes to the stimulus register of a channel. */
  datatype StimulusWrite = StimulusWrite(channel: nat, size: nat, data: nat)

  /** The bytes of a little-endian number. */
  function LittleEndian(data: nat, size: nat): (bytes: seq<byte>)
    ensures |bytes| == size
  {
    if size == 0 then [] else [data % 256] + LittleEndian(data / 256, size - 1)
  }

  /** `*(uintN_t*)p` on a little-endian core. */
  function Load(bytes: seq<byte>): nat
  {
    if bytes == [] then 0 else bytes[0] + 256 * Load(bytes[1..])
  }

  lemma {:induction false} LoadStored(bytes: seq<byte>)
    ensures LittleEndian(Load(bytes), |bytes|) == bytes
    ensures Load(bytes) < Pow2(8 * |bytes|)
  {
    if bytes != [] {
      LoadStored(bytes[1..]);
      assert Load(bytes) % 256 == bytes[0] && Load(bytes) / 256 == Load(bytes[1..]);
      assert Pow2(8 * |bytes|) == 256 * Pow2(8 * |bytes[1..]|) by {
        Pow2Add(8, 8 * |bytes[1..]|);
        Pow2Constants();
      }
    }
  }

  /** The text that a sequence of writes carries. */
  function Text(writes: seq<StimulusWrite>): seq<byte>
  {
    if writes == [] then [] else LittleEndian(writes[0].data, writes[0].size) + Text(writes[1..])
  }

  lemma {:induction false} TextAppend(a: seq<StimulusWrite>, b: seq<StimulusWrite>)
    ensures Text(a + b) == Text(a) + Text(b)
  {
    hide LittleEndian;
    if a == [] {
      assert a + b == b;
    } else {
      TextAppend(a[1..], b);
      var first := LittleEndian(a[0].data, a[0].size);
      assert (a + b)[1..] == a[1..] + b && (a + b)[0] == a[0];
      assert Text(a + b) == first + (Text(a[1..]) + Text(b)) == (first + Text(a[1..])) + Text(b);
    }
  }

  predicate ValidWrite(w: StimulusWrite)
  {
    (w.size == 1 || w.size == 2 || w.size == 4) && w.channel < 32 && w.data < Pow2(8 * w.size)
  }

  predicate OnChannel(writes: seq<StimulusWrite>, channel: nat)
  {
    forall i :: 0 <= i < |writes| ==> ValidWrite(writes[i]) && writes[i].channel == channel
  }

  class ItcPort {
    var itc_print_channel: nat
    var written: seq<StimulusWrite>  // what has gone to the stimulus registers

    constructor ()
      ensures itc_print_channel == 0 && written == []
    {
      itc_print_channel, written := 0, [];
    }

    method SetPrintChannel(channel: int) returns (rc: int)
      modifies this`itc_print_channel
      ensures if 0 <= channel <= 31 then rc == 0 && itc_print_channel == channel
              else rc == 1 && itc_print_channel == old(itc_print_channel)
    {
      if channel < 0 || channel > 31 { return 1; }
      itc_print_channel := channel;
      return 0;
    }

    /** `bytes` are written as one number of their size. */
    method Write(bytes: seq<byte>)
      requires |bytes| == 1 || |bytes| == 2 || |bytes| == 4
      requires itc_print_channel < 32
      modifies this`written
      ensures written == old(written) + [StimulusWrite(itc_print_channel, |bytes|, Load(bytes))]
      ensures ValidWrite(StimulusWrite(itc_print_channel, |bytes|, Load(bytes)))
      ensures Text(written) == Text(old(written)) + bytes
    {
      var w := StimulusWrite(itc_print_channel, |bytes|, Load(bytes));
      LoadStored(bytes);
      TextAppend(written, [w]);
      assert Text([w]) == bytes + Text([]) == bytes by { assert [w][1..] == []; }
      written := written + [w];
    }

    /** The whole words of the string. */
    method PutWords(f: seq<byte>) returns (i: nat)
      requires itc_print_channel < 32
      modifies this`written
      ensures i == |f| / 4 * 4
      ensures old(written) <= written && OnChannel(written[|old(written)|..], itc_print_channel)
      ensures Text(written) == Text(old(written)) + f[..i]
    {
      var words := |f| / 4 * 4;
      i := 0;
      assert f[..0] == [] && Text(written) + [] == Text(written);
      while i < words
        invariant i <= words && i % 4 == 0
        invariant old(written) <= written && OnChannel(written[|old(written)|..], itc_print_channel)
        invariant Text(written) == Text(old(written)) + f[..i]
      {
        Write(f[i..i + 4]);
        assert f[..i + 4] == f[..i] + f[i..i + 4];
        i := i + 4;
      }
    }

    /** Puts a C string, given without its terminating NUL, and a newline. */
    method ItcPuts(f: seq<byte>) returns (rc: nat)
      requires itc_print_channel < 32 && 0 !in f
      modifies this`written
      ensures rc == |f| + 1
      ensures old(written) <= written && OnChannel(written[|old(written)|..], itc_print_channel)
      ensures Text(written) == Text(old(written)) + f + [NEWLINE]
    {
      hide Text, Load;
      var i := PutWords(f);
      match |f| % 4 {
        case 0 =>
          Write([NEWLINE]);
        case 1 =>
          Write([f[i], NEWLINE]);
        case 2 =>
          Write(f[i..i + 2]);
          Write([NEWLINE]);
        case 3 =>
          Write(f[i..i + 2]);
          Write([f[i + 2], NEWLINE]);
      }
      assert Text(written) == Text(old(written)) + (f + [NEWLINE]);
      rc := |f| + 1;
    }

    /** The same without the newline. */
    method ItcFputs(f: seq<byte>) returns (rc: nat)
      requires itc_print_channel < 32 && 0 !in f
      modifies this`written
      ensures rc == |f|
      ensures old(written) <= written && OnChannel(written[|old(written)|..], itc_print_channel)
      ensures Text(written) == Text(old(written)) + f
    {
      hide Text, Load;
      var i := PutWords(f);
      match |f| % 4 {
        case 0 =>
        case 1 =>
          Write([f[i]]);
        case 2 =>
          Write(f[i..i + 2]);
        case 3 =>
          Write(f[i..i + 2]);
          Write([f[i + 2]]);
      }
      rc := |f|;
    }
  }

  // ----- the server

  /** The characters printed for a message; a tag that ends in 1 prints nothing. */
  function Characters(printChannel: nat, m: DataAcquisition): seq<byte>
  {
    if m.idtag / 4 != printChannel then []
    else match m.idtag % 4
      case 0 => [m.dqdata % 256, m.dqdata / 256 % 256, m.dqdata / 65536 % 256, m.dqdata / 16777216 % 256]
      case 2 => [m.dqdata % 256, m.dqdata / 256 % 256]
      case 3 => [m.dqdata % 256]
      case _ => []
  }

  function Printed(printChannel: nat, out: seq<Option<DataAcquisition>>): seq<byte>
  {
    if out == [] then []
    else (match out[0] case Some(m) => Characters(printChannel, m) case None => []) + Printed(printChannel, out[1..])
  }

  class PrintServer {
    const ns: NexusStream
    const itcPrintChannel: nat
    var stdout: seq<byte>

    constructor (srcbits: nat, itcPrintChannel: nat)
      requires srcbits <= MAX_SRCBITS
      ensures ns.Valid() && ns.history == [] && stdout == [] && ns.reassembler.srcbits == srcbits
      ensures this.itcPrintChannel == itcPrintChannel
      ensures fresh(ns) && fresh(ns.reassembler) && fresh(ns.unwrapper) && fresh(ns.unwrapper.data)
    {
      ns := new NexusStream(srcbits);
      this.itcPrintChannel := itcPrintChannel;
      stdout := [];
    }

    method PrintMessage(m: DataAcquisition)
      modifies this`stdout
      ensures stdout == old(stdout) + Characters(itcPrintChannel, m)
    {
      if m.idtag / 4 == itcPrintChannel {
        match m.idtag % 4 {
          case 0 =>
            stdout := stdout + [m.dqdata % 256];
            stdout := stdout + [m.dqdata / 256 % 256];
            stdout := stdout + [m.dqdata / 65536 % 256];
            stdout := stdout + [m.dqdata / 16777216 % 256];
          case 2 =>
            stdout := stdout + [m.dqdata % 256];
            stdout := stdout + [m.dqdata / 256 % 256];
          case 3 =>
            stdout := stdout + [m.dqdata % 256];
          case _ =>
        }
      }
    }

    /** Feeds a chunk of serial data to the decoder, printing as messages complete. */
    method PrintSerialBytes(bytes: seq<byte>)
      requires ns.Valid()
      modifies this`stdout, ns, ns.reassembler, ns.unwrapper, ns.unwrapper.data
      ensures ns.Valid() && ns.history == old(ns.history) + bytes
      ensures stdout == old(stdout)
                      + Printed(itcPrintChannel, Deliveries(ns.reassembler.srcbits, old(ns.history), bytes))
    {
      hide Printed, Delivered, Deliveries, Characters, NexusStream.Tracks;
      ghost var srcbits, h0 := ns.reassembler.srcbits, ns.history;
      NothingPrinted(itcPrintChannel, srcbits, h0);
      assert bytes[..0] == [] && h0 + [] == h0 && stdout + [] == stdout;
      for i := 0 to |bytes|
        invariant ns.Valid() && ns.history == h0 + bytes[..i]
        invariant stdout == old(stdout) + Printed(itcPrintChannel, Deliveries(srcbits, h0, bytes[..i]))
      {
        ghost var h := ns.history;
        var msg := ns.AppendByteAndCheckForMessage(bytes[i]);
        OneMoreByte(itcPrintChannel, srcbits, h0, bytes, i);
        if msg.Some? {
          PrintMessage(msg.value);
        }
      }
      assert bytes[..|bytes|] == bytes;
    }
  }

  lemma NothingPrinted(printChannel: nat, srcbits: nat, history: seq<byte>)
    ensures Printed(printChannel, Deliveries(srcbits, history, [])) == []
  {
  }

  lemma {:induction false} PrintedAppend(printChannel: nat, a: seq<Option<DataAcquisition>>,
                                        b: seq<Option<DataAcquisition>>)
    ensures Printed(printChannel, a + b) == Printed(printChannel, a) + Printed(printChannel, b)
  {
    hide Characters;
    if a == [] {
      assert a + b == b;
    } else {
      PrintedAppend(printChannel, a[1..], b);
      var first := if a[0].Some? then Characters(printChannel, a[0].value) else [];
      assert (a + b)[1..] == a[1..] + b && (a + b)[0] == a[0];
      assert first + (Printed(printChannel, a[1..]) + Printed(printChannel, b))
          == (first + Printed(printChannel, a[1..])) + Printed(printChannel, b);
    }
  }

  lemma OneMoreByte(printChannel: nat, srcbits: nat, h0: seq<byte>, bytes: seq<byte>, i: nat)
    requires i < |bytes|
    ensures h0 + bytes[..i] + [bytes[i]] == h0 + bytes[..i + 1]
    ensures Printed(printChannel, Deliveries(srcbits, h0, bytes[..i + 1]))
         == Printed(printChannel, Deliveries(srcbits, h0, bytes[..i]))
            + match Delivered(srcbits, h0 + bytes[..i], bytes[i])
              case Some(m) => Characters(printChannel, m)
              case None => []
  {
    hide Characters, Delivered;
    var h, b := h0 + bytes[..i], bytes[i];
    assert bytes[..i + 1] == bytes[..i] + [b];
    Codec.DeliveriesAppend(srcbits, h0, bytes[..i], [b]);
    assert [b][1..] == [];
    assert Deliveries(srcbits, h, [b]) == [Delivered(srcbits, h, b)];
    PrintedAppend(printChannel, Deliveries(srcbits, h0, bytes[..i]), [Delivered(srcbits, h, b)]);
    PrintedOne(printChannel, Delivered(srcbits, h, b));
  }

  lemma PrintedOne(printChannel: nat, d: Option<DataAcquisition>)
    ensures Printed(printChannel, [d]) == match d case Some(m) => Characters(printChannel, m) case None => []
  {
    assert [d][1..] == [];
  }

  // ----- end to end

  /** A stretch of a trace stream: the message of a write, or anything else. */
  datatype Piece = Write(a: Acquisition) | Other(bytes: seq<byte>)

  function Bytes(srcbits: nat, p: Piece): seq<byte>
  {
    match p
    case Write(a) => Encode(srcbits, a)
    case Other(bytes) => bytes
  }

  function Stream(srcbits: nat, pieces: seq<Piece>): seq<byte>
  {
    if pieces == [] then [] else Bytes(srcbits, pieces[0]) + Stream(srcbits, pieces[1..])
  }

  /** Writes are stimulus writes, and what comes before another piece ends at the end of a message. */
  predicate ValidPieces(pieces: seq<Piece>)
  {
    forall i :: 0 <= i < |pieces| ==>
      match pieces[i]
      case Write(a) => a.IsWrite()
      case Other(bytes) => i == |pieces| - 1 || bytes == [] || EndsMessage(bytes[|bytes| - 1])
  }

  /** The writes of a stream that are on a channel. */
  function OfChannel(pieces: seq<Piece>, channel: nat): seq<StimulusWrite>
  {
    if pieces == [] then []
    else (if pieces[0].Write? && pieces[0].a.itcIdx == channel
          then [StimulusWrite(channel, pieces[0].a.size, pieces[0].a.data)] else [])
         + OfChannel(pieces[1..], channel)
  }

  /** What a piece prints on its own. */
  function Shows(srcbits: nat, channel: nat, p: Piece): seq<byte>
  {
    match p
    case Write(a) => if a.itcIdx == channel then LittleEndian(a.data, a.size) else []
    case Other(bytes) => Printed(channel, Deliveries(srcbits, [], bytes))
  }

  function AllShown(srcbits: nat, channel: nat, pieces: seq<Piece>): seq<byte>
  {
    if pieces == [] then [] else Shows(srcbits, channel, pieces[0]) + AllShown(srcbits, channel, pieces[1..])
  }

  lemma {:induction false} LittleEndianMod(data: nat, size: nat)
    ensures LittleEndian(data % Pow2(8 * size), size) == LittleEndian(data, size)
  {
    if size > 0 {
      var p := Pow2(8 * (size - 1));
      assert Pow2(8 * size) == p * 256 by { Pow2Add(8 * (size - 1), 8); Pow2Constants(); }
      DivModTwice(data, 256, p);
      LittleEndianMod(data / 256, size - 1);
      Codec.ModTwice(data, 256, p);
      Commute(p, 256);
    }
  }

  /** What the server prints for a message is what the write carried. */
  lemma PrintsWrite(srcbits: nat, a: Acquisition, printChannel: nat)
    requires a.IsWrite()
    ensures Characters(printChannel, Codec.Expected(srcbits, a))
         == if a.itcIdx == printChannel then LittleEndian(a.data, a.size) else []
  {
    var m := Codec.Expected(srcbits, a);
    LittleEndianMod(a.data, a.size);
    LittleEndianUnrolled(m.dqdata);
  }

  lemma LittleEndianUnrolled(d: nat)
    ensures LittleEndian(d, 1) == [d % 256] && LittleEndian(d, 2) == [d % 256, d / 256 % 256]
    ensures LittleEndian(d, 4) == [d % 256, d / 256 % 256, d / 65536 % 256, d / 16777216 % 256]
  {
    assert LittleEndian(d, 2) == [d % 256] + LittleEndian(d / 256, 1);
    assert LittleEndian(d, 4) == [d % 256] + ([d / 256 % 256] + LittleEndian(d / 256 / 256, 2));
    assert d / 256 / 256 == d / 65536 && d / 65536 / 256 == d / 16777216;
  }

  lemma {:induction false} SilencePrintsNothing(printChannel: nat, n: nat)
    ensures Printed(printChannel, Codec.Silence(n)) == []
  {
    if n > 0 {
      assert Codec.Silence(n)[1..] == Codec.Silence(n - 1);
      SilencePrintsNothing(printChannel, n - 1);
    }
  }

  lemma OnePrinted(srcbits: nat, history: seq<byte>, a: Acquisition, channel: nat)
    requires srcbits <= MAX_SRCBITS && a.IsWrite() && Pending(history) == []
    ensures Printed(channel, Deliveries(srcbits, history, Encode(srcbits, a))) == Shows(srcbits, channel, Write(a))
    ensures Pending(history + Encode(srcbits, a)) == []
  {
    hide Printed, Deliveries, Characters, Encode, LittleEndian, Codec.Expected;
    Codec.EncodeCarries(srcbits, a);
    var n, m := |Encode(srcbits, a)| - 1, Codec.Expected(srcbits, a);
    PrintedAppend(channel, Codec.Silence(n), [Some(m)]);
    SilencePrintsNothing(channel, n);
    PrintedOne(channel, Some(m));
    PrintsWrite(srcbits, a, channel);
  }

  /** At a message boundary, each piece prints what it prints on its own. */
  lemma {:induction false} PrintedInOrder(srcbits: nat, history: seq<byte>, pieces: seq<Piece>, channel: nat)
    requires srcbits <= MAX_SRCBITS && Pending(history) == [] && ValidPieces(pieces)
    ensures Printed(channel, Deliveries(srcbits, history, Stream(srcbits, pieces)))
         == AllShown(srcbits, channel, pieces)
    decreases |pieces|
  {
    hide Printed, Deliveries, Pending, Encode, LittleEndian;
    if pieces == [] {
      NothingPrinted(channel, srcbits, history);
    } else {
      var p, rest := pieces[0], Stream(srcbits, pieces[1..]);
      var b := Bytes(srcbits, p);
      assert ValidPieces(pieces[1..]) by {
        assert forall i :: 0 <= i < |pieces| - 1 ==> pieces[1..][i] == pieces[i + 1];
      }
      if p.Write? {
        OnePrinted(srcbits, history, p.a, channel);
      } else {
        NothingPending();
        Codec.DeliveriesLocal(srcbits, history, [], b);
      }
      Codec.DeliveriesAppend(srcbits, history, b, rest);
      PrintedAppend(channel, Deliveries(srcbits, history, b), Deliveries(srcbits, history + b, rest));
      if |pieces| > 1 {
        if p.Other? { BoundaryAfter(history, b); }
        PrintedInOrder(srcbits, history + b, pieces[1..], channel);
      } else {
        NothingPrinted(channel, srcbits, history + b);
      }
    }
  }

  lemma NothingPending()
    ensures Pending([]) == []
  {
  }

  lemma BoundaryAfter(history: seq<byte>, b: seq<byte>)
    requires Pending(history) == [] && (b == [] || EndsMessage(b[|b| - 1]))
    ensures Pending(history + b) == []
  {
    if b == [] {
      assert history + b == history;
    } else {
      assert history + b == (history + b[..|b| - 1]) + [b[|b| - 1]];
      PendingSnoc(history + b[..|b| - 1], b[|b| - 1]);
    }
  }

  lemma TextOfFirst(pieces: seq<Piece>, channel: nat)
    requires pieces != []
    ensures Text(OfChannel(pieces, channel))
         == (if pieces[0].Write? && pieces[0].a.itcIdx == channel
             then LittleEndian(pieces[0].a.data, pieces[0].a.size) else [])
            + Text(OfChannel(pieces[1..], channel))
  {
    hide LittleEndian;
    var rest := OfChannel(pieces[1..], channel);
    if pieces[0].Write? && pieces[0].a.itcIdx == channel {
      var w := StimulusWrite(channel, pieces[0].a.size, pieces[0].a.data);
      assert ([w] + rest)[1..] == rest;
    } else {
      assert [] + rest == rest;
    }
  }

  /** What is shown is the text, and whatever the other pieces add. */
  lemma {:induction false} ShownIsText(srcbits: nat, channel: nat, pieces: seq<Piece>)
    ensures |AllShown(srcbits, channel, pieces)| >= |Text(OfChannel(pieces, channel))|
    ensures AllShown(srcbits, channel, pieces) == Text(OfChannel(pieces, channel))
       <==> forall i :: 0 <= i < |pieces| && pieces[i].Other? ==> Shows(srcbits, channel, pieces[i]) == []
    decreases |pieces|
  {
    hide Printed, Deliveries, LittleEndian, Text, OfChannel;
    if pieces == [] {
      TextOfNothing();
    } else {
      TextOfFirst(pieces, channel);
      ShownIsText(srcbits, channel, pieces[1..]);
      var p, first, later := pieces[0], Shows(srcbits, channel, pieces[0]), pieces[1..];
      assert forall i :: 0 <= i < |later| ==> later[i] == pieces[i + 1];
      FirstAdds(first, AllShown(srcbits, channel, later), Text(OfChannel(later, channel)), p.Write?);
      if AllShown(srcbits, channel, pieces) == Text(OfChannel(pieces, channel)) {
        forall i | 0 <= i < |pieces| && pieces[i].Other?
          ensures Shows(srcbits, channel, pieces[i]) == []
        {
          assert i > 0 ==> pieces[i] == later[i - 1];
        }
      }
    }
  }

  lemma FirstAdds(first: seq<byte>, rest: seq<byte>, text: seq<byte>, counts: bool)
    requires |rest| >= |text|
    ensures first + rest == (if counts then first else []) + text <==> rest == text && (counts || first == [])
  {
    assert (first + rest)[|first|..] == rest && (first + text)[|first|..] == text;
    assert [] + text == text && [] + rest == rest;
  }

  /**
   Print fidelity. Between the messages of stimulus writes, with any channels, sources and timestamps, the stream
   may carry anything that ends with an end-of-message slice, and at its end anything at all: the server prints
   exactly the text of the writes on the print channel if and only if nothing in between prints by itself.
   */
  lemma PrintFidelity(srcbits: nat, pieces: seq<Piece>, channel: nat)
    requires srcbits <= MAX_SRCBITS && ValidPieces(pieces)
    ensures Printed(channel, Deliveries(srcbits, [], Stream(srcbits, pieces))) == Text(OfChannel(pieces, channel))
       <==> forall i :: 0 <= i < |pieces| && pieces[i].Other? ==>
              Printed(channel, Deliveries(srcbits, [], pieces[i].bytes)) == []
  {
    hide Printed, Deliveries, Text;
    NothingPending();
    PrintedInOrder(srcbits, [], pieces, channel);
    ShownIsText(srcbits, channel, pieces);
  }

  /** No message that ends in these bytes is a data acquisition message. */
  predicate OtherTraffic(bytes: seq<byte>)
  {
    forall i :: 0 <= i < |bytes| && EndsMessage(bytes[i]) ==>
      match Opening(Pending(bytes[..i]))
      case Hunting => true
      case Open(tcode, _) => tcode != TCODE_DATA_ACQUISITION
  }

  /** Such traffic prints nothing: messages of all other kinds, whole or damaged. */
  lemma {:induction false} OtherTrafficPrintsNothing(srcbits: nat, channel: nat, bytes: seq<byte>)
    requires OtherTraffic(bytes)
    ensures Printed(channel, Deliveries(srcbits, [], bytes)) == []
    decreases |bytes|
  {
    hide Printed, Deliveries, Opening, Pending;
    if bytes == [] {
      NothingPrinted(channel, srcbits, []);
    } else {
      var n := |bytes| - 1;
      assert forall i :: 0 <= i < n ==> bytes[..n][..i] == bytes[..i] && bytes[..n][i] == bytes[i];
      OtherTrafficPrintsNothing(srcbits, channel, bytes[..n]);
      OneMoreByte(channel, srcbits, [], bytes, n);
      assert bytes[..n + 1] == bytes && [] + bytes[..n] == bytes[..n];
    }
  }

  /** The hardware's message for a write: the byte lanes written give the size code in the tag. */
  function MessageFor(w: StimulusWrite, src: int, haveTimestamp: bool, timestamp: nat): (a: Acquisition)
    requires ValidWrite(w) && timestamp < UINT64
    ensures a.IsWrite()
  {
    Pow2Monotone(8 * w.size, 32);
    Pow2Constants();
    Acquisition(src, w.channel, w.size, w.data, haveTimestamp, timestamp)
  }

  lemma {:induction false} OfChannelSnoc(pieces: seq<Piece>, a: Acquisition, channel: nat)
    ensures OfChannel(pieces + [Write(a)], channel) == OfChannel(pieces, channel)
            + if a.itcIdx == channel then [StimulusWrite(channel, a.size, a.data)] else []
  {
    if pieces == [] {
      assert [] + [Write(a)] == [Write(a)] && [Write(a)][1..] == [];
    } else {
      assert (pieces + [Write(a)])[1..] == pieces[1..] + [Write(a)] && (pieces + [Write(a)])[0] == pieces[0];
      OfChannelSnoc(pieces[1..], a, channel);
      var p := pieces[0];
      var first := if p.Write? && p.a.itcIdx == channel then [StimulusWrite(channel, p.a.size, p.a.data)] else [];
      var last := if a.itcIdx == channel then [StimulusWrite(channel, a.size, a.data)] else [];
      assert first + (OfChannel(pieces[1..], channel) + last) == (first + OfChannel(pieces[1..], channel)) + last;
    }
  }

  lemma {:induction false} StreamSnoc(srcbits: nat, pieces: seq<Piece>, p: Piece)
    ensures Stream(srcbits, pieces + [p]) == Stream(srcbits, pieces) + Bytes(srcbits, p)
  {
    hide Bytes;
    if pieces == [] {
      assert [] + [p] == [p] && [p][1..] == [];
    } else {
      assert (pieces + [p])[1..] == pieces[1..] + [p];
      StreamSnoc(srcbits, pieces[1..], p);
      assert Bytes(srcbits, pieces[0]) + (Stream(srcbits, pieces[1..]) + Bytes(srcbits, p))
          == (Bytes(srcbits, pieces[0]) + Stream(srcbits, pieces[1..])) + Bytes(srcbits, p);
    }
  }

  /** Target, trace encoder and server in one: the string comes out as it went in, with a newline. */
  method PutsThroughTrace(f: seq<byte>, channel: nat, srcbits: nat, src: int, timestamps: seq<nat>)
    returns (printed: seq<byte>)
    requires 0 !in f && channel < 32 && srcbits <= MAX_SRCBITS
    requires forall i :: 0 <= i < |timestamps| ==> timestamps[i] < UINT64
    ensures printed == f + [NEWLINE]
  {
    hide Text, Printed, Deliveries, Encode;
    var port := new ItcPort();
    var _ := port.SetPrintChannel(channel);
    var _ := port.ItcPuts(f);
    var writes := port.written;
    var builder := EncodeWrites(writes, channel, srcbits, src, timestamps);
    var server := new PrintServer(srcbits, channel);
    server.PrintSerialBytes(builder);
    printed := server.stdout;
    TextOfNothing();
    assert writes[0..] == writes;
    assert [] + f == f;
  }

  lemma TextOfNothing()
    ensures Text([]) == []
    ensures forall channel :: OfChannel([], channel) == []
  {
  }

  /** Encodes the writes one after another; write i has a timestamp if there is an i-th one. */
  method EncodeWrites(writes: seq<StimulusWrite>, channel: nat, srcbits: nat, src: int, timestamps: seq<nat>)
    returns (stream: seq<byte>)
    requires OnChannel(writes, channel) && srcbits <= MAX_SRCBITS
    requires forall i :: 0 <= i < |timestamps| ==> timestamps[i] < UINT64
    ensures Printed(channel, Deliveries(srcbits, [], stream)) == Text(writes)
  {
    hide Text, Printed, Deliveries, Encode;
    var builder := new SwtMessageStreamBuilder();
    ghost var pieces: seq<Piece> := [];
    for i := 0 to |writes|
      invariant |pieces| == i && forall k :: 0 <= k < i ==> pieces[k].Write? && pieces[k].a.IsWrite()
      invariant OfChannel(pieces, channel) == writes[..i]
      invariant builder.slices == Stream(srcbits, pieces)
    {
      var stamped := i < |timestamps|;
      var a := MessageFor(writes[i], src, stamped, if stamped then timestamps[i] else 0);
      builder.AddDataAcquisitionMessage(srcbits, a);
      OfChannelSnoc(pieces, a, channel);
      StreamSnoc(srcbits, pieces, Write(a));
      pieces := pieces + [Write(a)];
      assert writes[..i + 1] == writes[..i] + [writes[i]];
    }
    assert writes[..|writes|] == writes;
    PrintFidelity(srcbits, pieces, channel);
    stream := builder.slices;
  }
}

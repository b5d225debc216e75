/**
 The trace decoder's SliceFileParser: a 2048-byte ring buffer in front of a non-blocking socket,
 `readBinaryMsg`, which cuts the bytes into messages and can be resumed when the socket runs dry in
 the middle of one, and the bit-level readers that take a framed message apart.
 */
module PullDecoder {
  import opened Bits
  import opened NexusWire
  import opened FieldReader

  const SOCK_BUFFER_SIZE := 2048
  const MSG_SIZE := 64

  // ----- what framing a byte stream means

  /** A complete message, or the report that one outgrew the 64-slice message buffer. */
  datatype Event = Framed(msg: seq<byte>) | Overflow

  /** Slices of the message being collected (none while looking for a start), and the flush flag. */
  datatype Framer = Framer(pending: seq<byte>, flushing: bool)

  const START := Framer([], false)

  /** A message starts at a slice that is not zero and carries no framing mark. */
  predicate StartsMessage(b: byte) { b != 0 && Mseo(b) == MSEO_NORMAL }

  function Step(f: Framer, b: byte): (Framer, seq<Event>)
  {
    if f.flushing then (Framer([], Mseo(b) != MSEO_END), [])
    else if f.pending == [] then (Framer(if StartsMessage(b) then [b] else [], false), [])
    else
      var msg := f.pending + [b];
      if Mseo(b) == MSEO_END then (Framer([], false), [Framed(msg)])
      else if |msg| >= MSG_SIZE then (Framer([], false), [Overflow])
      else (Framer(msg, false), [])
  }

  /** The state and events after a whole byte stream, from a given state. */
  function Run(f: Framer, bytes: seq<byte>): (Framer, seq<Event>)
    decreases |bytes|
  {
    if bytes == [] then (f, [])
    else
      var (f', events) := Run(f, bytes[..|bytes| - 1]);
      var (f'', more) := Step(f', bytes[|bytes| - 1]);
      (f'', events + more)
  }

  /** The frames of a byte stream read from the beginning. */
  function Events(bytes: seq<byte>): seq<Event> { Run(START, bytes).1 }

  lemma RunSnoc(f: Framer, bytes: seq<byte>, b: byte)
    ensures var (f', events) := Run(f, bytes); var (f'', more) := Step(f', b);
            Run(f, bytes + [b]) == (f'', events + more)
  {
    assert (bytes + [b])[..|bytes|] == bytes;
  }

  lemma {:induction false} RunAppend(f: Framer, a: seq<byte>, b: seq<byte>)
    ensures var (fa, ea) := Run(f, a); var (fb, eb) := Run(fa, b);
            Run(f, a + b) == (fb, ea + eb)
    decreases |b|
  {
    if b == [] {
      assert a + b == a;
      assert Run(f, a).1 + [] == Run(f, a).1;
    } else {
      var init, last := b[..|b| - 1], b[|b| - 1];
      RunAppend(f, a, init);
      assert a + b == (a + init) + [last];
      RunSnoc(f, a + init, last);
      var (fa, ea) := Run(f, a);
      var (fi, ei) := Run(fa, init);
      var more := Step(fi, last).1;
      assert (ea + ei) + more == ea + (ei + more);
    }
  }

  // ----- the socket

  /**
   A non-blocking stream socket. `incoming` is everything the peer will ever send that has not been
   received yet, and the first `ready` bytes of it have arrived; more may arrive at any call. A call hands over
   what has arrived, as far as there is room for it, unless it fails.
   */
  class Socket {
    var incoming: seq<byte>
    var ready: nat

    constructor (incoming: seq<byte>)
      ensures this.incoming == incoming
    {
      this.incoming := incoming;
      ready := 0;
    }

    /** How many bytes could be received now. */
    function Available(): (n: nat)
      reads this
      ensures n <= |incoming| && n <= ready
    {
      if ready < |incoming| then ready else |incoming|
    }

    /** `recv` into buf[at..at + room]; `fatal` is an error other than "would block". */
    method Recv(buf: array<byte>, at: nat, room: nat) returns (br: int, fatal: bool)
      requires at + room <= buf.Length
      modifies this, buf
      ensures -1 <= br <= room && (fatal ==> br == -1)
      ensures br <= 0 ==> incoming == old(incoming) && buf[..] == old(buf[..])
      ensures br > 0 ==> br <= |old(incoming)| && incoming == old(incoming)[br..]
                         && buf[..] == old(buf[..])[..at] + old(incoming)[..br] + old(buf[..])[at + br..]
      ensures !fatal && room > 0 && old(Available()) > 0 ==> br >= Min(room, old(Available()))
      ensures Available() + Max(br, 0) >= old(Available())
    {
      br, fatal := -1, *;
      var arriving: int := *;
      if arriving > 0 { ready := ready + arriving; }
      var available := Available();
      if fatal {
        return;
      }
      if available == 0 || room == 0 {
        br := *;
        br := if br < 0 then -1 else 0;
        return;
      }
      br := Min(room, available);
      ghost var before, arrived := buf[..], ready;
      for i := 0 to br
        invariant incoming == old(incoming) && ready == arrived
        invariant forall k :: 0 <= k < i ==> buf[at + k] == incoming[k]
        invariant buf[..at] == before[..at] && buf[at + i..] == before[at + i..]
      {
        buf[at + i] := incoming[i];
      }
      assert buf[at..at + br] == incoming[..br];
      assert buf[..] == buf[..at] + buf[at..at + br] + buf[at + br..];
      incoming := incoming[br..];
      ready := ready - br;
    }
  }

  function Min(a: int, b: int): int { if a < b then a else b }

  function Max(a: int, b: int): int { if a > b then a else b }

  // ----- the reader

  /** The contents of a ring buffer; equal indices mean that it is empty. */
  function RingOf(buf: seq<byte>, inIndex: nat, outIndex: nat): seq<byte>
    requires inIndex <= |buf| && outIndex <= |buf|
  {
    if inIndex >= outIndex then buf[outIndex..inIndex] else buf[outIndex..] + buf[..inIndex]
  }

  function Written(buf: seq<byte>, at: nat, more: seq<byte>): (next: seq<byte>)
    requires at + |more| <= |buf|
    ensures |next| == |buf|
  {
    buf[..at] + more + buf[at + |more|..]
  }

  /** Writing below the output index, short of it. */
  lemma RingGrowsBelow(buf: seq<byte>, inIndex: nat, outIndex: nat, more: seq<byte>)
    requires inIndex + |more| < outIndex <= |buf|
    ensures RingOf(Written(buf, inIndex, more), inIndex + |more|, outIndex) == RingOf(buf, inIndex, outIndex) + more
  {
    var next, k := Written(buf, inIndex, more), inIndex + |more|;
    SameTail(buf, inIndex, outIndex, more);
    assert next[..k] == buf[..inIndex] + more;
    assert buf[outIndex..] + (buf[..inIndex] + more) == (buf[outIndex..] + buf[..inIndex]) + more;
  }

  lemma SameTail(buf: seq<byte>, at: nat, outIndex: nat, more: seq<byte>)
    requires at + |more| <= outIndex <= |buf|
    ensures Written(buf, at, more)[outIndex..] == buf[outIndex..]
  {
    forall i | outIndex <= i < |buf| ensures Written(buf, at, more)[i] == buf[i] {
      assert Written(buf, at, more)[i] == buf[at + |more|..][i - at - |more|];
    }
  }

  /** Writing above the output index, possibly up to the end of the buffer, where the input index goes round. */
  lemma RingGrowsAbove(buf: seq<byte>, inIndex: nat, outIndex: nat, more: seq<byte>)
    requires outIndex <= inIndex && inIndex + |more| <= |buf|
    ensures RingOf(Written(buf, inIndex, more), inIndex + |more|, outIndex) == RingOf(buf, inIndex, outIndex) + more
    ensures 0 < outIndex && inIndex + |more| == |buf| ==>
              RingOf(Written(buf, inIndex, more), 0, outIndex) == RingOf(buf, inIndex, outIndex) + more
  {
    var next := Written(buf, inIndex, more);
    assert next[outIndex..inIndex + |more|] == buf[outIndex..inIndex] + more;
    if inIndex + |more| == |buf| {
      assert next[outIndex..] + next[..0] == next[outIndex..inIndex + |more|];
    }
  }

  lemma Prepended(ring: seq<byte>, more: seq<byte>, k: nat)
    requires k <= |more|
    ensures (ring + more[..k]) + more[k..] == ring + more
    ensures ring <= ring + more[..k]
  {
    assert more[..k] + more[k..] == more;
  }

  class SliceFileParser {
    const srcbits: nat
    const sock: Socket?           // null when reading a file
    const sockBuffer: array<byte>
    var bufferInIndex: nat
    var bufferOutIndex: nat

    const tf: seq<byte>           // the file, when there is no socket
    var tfPos: nat

    const msg: array<byte>
    var pendingMsgIndex: nat
    var flushMessage: bool
    var msgSlices: nat
    var bitIndex: nat
    var eom: bool
    var status: DQErr

    ghost var consumed: seq<byte> // bytes taken out of the ring or the file so far
    ghost var framer: Framer      // the framer state they lead to
    ghost var events: seq<Event>  // and what they have produced

    constructor (srcbits: nat, sock: Socket?, tf: seq<byte>)
      ensures Valid() && status == OK && this.srcbits == srcbits && this.sock == sock && this.tf == tf
      ensures fresh(sockBuffer) && fresh(msg)
      ensures consumed == [] && events == [] && Stream() == if sock != null then sock.incoming else tf
    {
      this.srcbits, this.sock, this.tf := srcbits, sock, tf;
      sockBuffer := new byte[SOCK_BUFFER_SIZE](_ => 0);
      msg := new byte[MSG_SIZE](_ => 0);
      bufferInIndex, bufferOutIndex, tfPos := 0, 0, 0;
      pendingMsgIndex, flushMessage, msgSlices, bitIndex, eom := 0, false, 0, 0, false;
      status := OK;
      consumed, framer, events := [], START, [];
    }

    ghost predicate Shape()
      reads this`bufferInIndex, this`bufferOutIndex, this`tfPos
    {
      && sockBuffer.Length == SOCK_BUFFER_SIZE && msg.Length == MSG_SIZE && sockBuffer != msg
      && bufferInIndex < SOCK_BUFFER_SIZE && bufferOutIndex < SOCK_BUFFER_SIZE && tfPos <= |tf|
    }

    /** The bytes waiting in the ring. */
    ghost function Ring(): seq<byte>
      requires Shape()
      reads this`bufferInIndex, this`bufferOutIndex, this`tfPos, sockBuffer
    {
      RingOf(sockBuffer[..], bufferInIndex, bufferOutIndex)
    }

    /** Bytes that have not been taken yet: in the ring and in the network, or left in the file. */
    ghost function Ahead(): seq<byte>
      requires Shape()
      reads this`bufferInIndex, this`bufferOutIndex, this`tfPos, sockBuffer, sock
    {
      if sock != null then Ring() + sock.incoming else tf[tfPos..]
    }

    /** The whole byte stream, which nothing the reader does may lose, repeat or reorder. */
    ghost function Stream(): seq<byte>
      requires Shape()
      reads this`bufferInIndex, this`bufferOutIndex, this`tfPos, this`consumed, sockBuffer, sock
    {
      consumed + Ahead()
    }

    /** The bytes in the ring and those that could be received now. */
    ghost function Waiting(): nat
      requires Shape() && sock != null
      reads this`bufferInIndex, this`bufferOutIndex, this`tfPos, sockBuffer, sock
    {
      |Ring()| + sock.Available()
    }

    /** How many bytes have reached the reader: taken, waiting, or left in the file. */
    ghost function Arrived(): nat
      requires Shape()
      reads this`bufferInIndex, this`bufferOutIndex, this`tfPos, this`consumed, sockBuffer, sock
    {
      |consumed| + if sock != null then Waiting() else |tf| - tfPos
    }

    /** `framer` and `events` are what the bytes taken so far mean. */
    ghost predicate InStep()
      reads this`consumed, this`framer, this`events
    {
      Run(START, consumed) == (framer, events)
    }

    /** When reading a file, the bytes taken are those before the file position. */
    ghost predicate AtFilePos()
      reads this`consumed, this`tfPos
    {
      sock == null ==> tfPos <= |tf| && consumed == tf[..tfPos]
    }

    /** While no fatal error has occurred, the reader's own state is the framer's. */
    ghost predicate Valid()
      reads this, msg
    {
      && Shape() && InStep() && AtFilePos() && pendingMsgIndex < MSG_SIZE && msgSlices <= MSG_SIZE
      && (flushMessage ==> pendingMsgIndex == 0)
      && (status == OK || status == BM ==> framer == Framer(msg[..pendingMsgIndex], flushMessage))
    }

    // ----- ring buffer

    method BufferSWT() returns (rc: DQErr)
      requires Shape() && sock != null
      modifies this`bufferInIndex, this`bufferOutIndex, this`status, sockBuffer, sock
      ensures Shape() && Ring() + sock.incoming == old(Ring() + sock.incoming)
      ensures old(Ring()) <= Ring()
      ensures rc == OK || (rc == ERR && status == ERR)
      ensures rc == OK ==> status == old(status)
      ensures Waiting() >= old(Waiting()) && (rc == OK ==> |Ring()| >= Min(2047, old(Waiting())))
    {
      var br, fatal := 0, false;
      if bufferInIndex == bufferOutIndex {
        br, fatal := FillEmpty();
      } else if bufferInIndex < bufferOutIndex {
        br, fatal := FillGap(bufferOutIndex - bufferInIndex - 1);
      } else {
        br, fatal := FillTail();
      }
      if br == -1 && fatal {
        status := ERR;
        return ERR;
      }
      return OK;
    }

    method FillEmpty() returns (br: int, fatal: bool)
      requires Shape() && sock != null && bufferInIndex == bufferOutIndex
      modifies this`bufferInIndex, this`bufferOutIndex, sockBuffer, sock
      ensures Shape() && Ring() + sock.incoming == old(Ring() + sock.incoming)
      ensures old(Ring()) <= Ring()
      ensures Waiting() >= old(Waiting()) && (!(br == -1 && fatal) ==> |Ring()| >= Min(2047, old(Waiting())))
    {
      ghost var buf, more := sockBuffer[..], sock.incoming;
      br, fatal := sock.Recv(sockBuffer, 0, SOCK_BUFFER_SIZE - 1);
      if br > 0 {
        assert sockBuffer[..] == Written(buf, 0, more[..br]);
        RingGrowsAbove(buf, 0, 0, more[..br]);
        Prepended([], more, br);
        bufferInIndex := br;
        bufferOutIndex := 0;
      }
    }

    /** Reads into the free space between the input index and the output index above it. */
    method FillGap(bytesToRead: int) returns (br: int, fatal: bool)
      requires Shape() && sock != null && bufferInIndex < bufferOutIndex
      requires bytesToRead == bufferOutIndex - bufferInIndex - 1
      modifies this`bufferInIndex, sockBuffer, sock
      ensures Shape() && Ring() + sock.incoming == old(Ring() + sock.incoming)
      ensures old(Ring()) <= Ring()
      ensures Waiting() >= old(Waiting()) && (!(br == -1 && fatal) ==> |Ring()| >= Min(2047, old(Waiting())))
    {
      br, fatal := 0, false;
      if bytesToRead > 0 {
        ghost var buf, more := sockBuffer[..], sock.incoming;
        br, fatal := sock.Recv(sockBuffer, bufferInIndex, bytesToRead);
        if br > 0 {
          assert sockBuffer[..] == Written(buf, bufferInIndex, more[..br]);
          RingGrowsBelow(buf, bufferInIndex, bufferOutIndex, more[..br]);
          Prepended(RingOf(buf, bufferInIndex, bufferOutIndex), more, br);
          bufferInIndex := bufferInIndex + br;
        }
      }
    }

    method FillTail() returns (br: int, fatal: bool)
      requires Shape() && sock != null && bufferInIndex > bufferOutIndex
      modifies this`bufferInIndex, sockBuffer, sock
      ensures Shape() && Ring() + sock.incoming == old(Ring() + sock.incoming)
      ensures old(Ring()) <= Ring()
      ensures Waiting() >= old(Waiting()) && (!(br == -1 && fatal) ==> |Ring()| >= Min(2047, old(Waiting())))
    {
      br, fatal := 0, false;
      // the tail may only be filled up completely if the input index can then go round to zero
      var bytesToRead := SOCK_BUFFER_SIZE - bufferInIndex - (if bufferOutIndex == 0 then 1 else 0);
      if bytesToRead > 0 {
        ghost var buf, more := sockBuffer[..], sock.incoming;
        br, fatal := sock.Recv(sockBuffer, bufferInIndex, bytesToRead);
        if br > 0 {
          assert sockBuffer[..] == Written(buf, bufferInIndex, more[..br]);
          RingGrowsAbove(buf, bufferInIndex, bufferOutIndex, more[..br]);
          Prepended(RingOf(buf, bufferInIndex, bufferOutIndex), more, br);
          if bufferInIndex + br >= SOCK_BUFFER_SIZE {
            bufferInIndex := 0;
            br, fatal := FillGap(bufferOutIndex - 1);
          } else {
            bufferInIndex := bufferInIndex + br;
          }
        }
      }
    }

    method GetNumBytesInSWTQ() returns (rc: DQErr, numBytes: nat)
      requires Shape()
      modifies this`bufferInIndex, this`bufferOutIndex, this`status, sockBuffer, sock
      ensures Shape() && (sock == null ==> rc == ERR)
      ensures rc == OK ==> numBytes == |Ring()| < 2048
    {
      numBytes := 0;
      if sock == null { return ERR, 0; }
      rc := BufferSWT();
      if rc != OK { return; }
      if bufferInIndex == bufferOutIndex {
        numBytes := 0;
      } else if bufferInIndex < bufferOutIndex {
        numBytes := SOCK_BUFFER_SIZE - bufferOutIndex + bufferInIndex;
      } else {
        numBytes := bufferInIndex - bufferOutIndex;
      }
    }

    // ----- framing

    /** Notes that b has been taken. */
    ghost method Consume(b: byte)
      requires InStep()
      modifies this`consumed, this`framer, this`events
      ensures InStep() && consumed == old(consumed) + [b]
      ensures framer == Step(old(framer), b).0 && events == old(events) + Step(old(framer), b).1
    {
      RunSnoc(START, consumed, b);
      consumed := consumed + [b];
      framer, events := Step(framer, b).0, events + Step(framer, b).1;
    }

    method TakeFromRing(at: nat)
      requires Shape() && InStep() && at < MSG_SIZE && sock != null && bufferInIndex != bufferOutIndex
      modifies this`bufferOutIndex, this`consumed, this`framer, this`events, msg
      ensures Shape() && InStep() && Stream() == old(Stream()) && |Ahead()| < |old(Ahead())|
      ensures Arrived() == old(Arrived())
      ensures framer == Step(old(framer), msg[at]).0 && events == old(events) + Step(old(framer), msg[at]).1
      ensures msg[..] == old(msg[..])[at := msg[at]]
    {
      RingTake(sockBuffer[..], bufferInIndex, bufferOutIndex);
      msg[at] := sockBuffer[bufferOutIndex];
      bufferOutIndex := bufferOutIndex + 1;
      if bufferOutIndex >= SOCK_BUFFER_SIZE {
        bufferOutIndex := 0;
      }
      OneTaken(consumed, msg[at], Ring(), sock.incoming);
      Consume(msg[at]);
    }

    method TakeFromFile(at: nat)
      requires Shape() && InStep() && AtFilePos() && at < MSG_SIZE && sock == null && tfPos < |tf|
      modifies this`tfPos, this`consumed, this`framer, this`events, msg
      ensures Shape() && InStep() && AtFilePos() && Stream() == old(Stream()) && |Ahead()| < |old(Ahead())|
      ensures Arrived() == old(Arrived())
      ensures framer == Step(old(framer), msg[at]).0 && events == old(events) + Step(old(framer), msg[at]).1
      ensures msg[..] == old(msg[..])[at := msg[at]]
    {
      msg[at] := tf[tfPos];
      tfPos := tfPos + 1;
      FileSplit(tf, tfPos - 1);
      FileSplit(tf, tfPos);
      assert tf[..tfPos] == tf[..tfPos - 1] + [msg[at]];
      Consume(msg[at]);
    }

    /** Puts the next byte of the input into msg[at], unless there is none. */
    method NextSlice(at: nat) returns (got: bool, rc: DQErr)
      requires Shape() && InStep() && AtFilePos() && at < MSG_SIZE && (status == OK || status == BM)
      modifies this`bufferInIndex, this`bufferOutIndex, this`tfPos, this`status, sockBuffer, sock, msg
      modifies this`consumed, this`framer, this`events
      ensures Shape() && InStep() && AtFilePos() && Stream() == old(Stream())
      ensures got ==> rc == OK && |Ahead()| < |old(Ahead())|
                      && framer == Step(old(framer), msg[at]).0
                      && events == old(events) + Step(old(framer), msg[at]).1
                      && msg[..] == old(msg[..])[at := msg[at]]
      ensures !got ==> framer == old(framer) && events == old(events) && msg[..] == old(msg[..])
      ensures !got && rc == OK ==> sock != null && bufferInIndex == bufferOutIndex
      ensures Arrived() >= old(Arrived()) && (!got && rc in {OK, EOF} ==> |consumed| >= old(Arrived()))
      ensures Explained(rc) && rc != BM
    {
      hide Run, Step;
      if sock != null {
        rc := BufferSWT();
        if rc != OK { return false, rc; }
        status := OK;
        if bufferInIndex == bufferOutIndex { return false, OK; }
        TakeFromRing(at);
      } else {
        if tfPos == |tf| {
          status := EOF;
          return false, EOF;
        }
        TakeFromFile(at);
      }
      return true, OK;
    }

    /** What each return code says about the reader. */
    ghost predicate Explained(rc: DQErr)
      reads this`status, this`tfPos
    {
      match rc
      case OK => status == OK || status == BM
      case EOF => status == EOF && sock == null && tfPos == |tf|
      case ERR => status == ERR && sock != null
      case BM => status == BM
      case EOM => false
    }

    /** Discards the rest of a message, up to and including its end-of-message slice. */
    method FlushToEnd() returns (got: bool, rc: DQErr)
      requires Valid() && (status == OK || status == BM) && flushMessage
      modifies this, sockBuffer, sock, msg
      ensures Valid() && Stream() == old(Stream()) && events == old(events)
      ensures Explained(rc) && rc != BM && (got ==> rc == OK && !flushMessage && pendingMsgIndex == 0)
      ensures !got && rc == OK ==> sock != null && bufferInIndex == bufferOutIndex
      ensures Arrived() >= old(Arrived()) && (!got && rc in {OK, EOF} ==> |consumed| >= old(Arrived()))
    {
      hide Run, Ring, Ahead, Stream, InStep, AtFilePos, Arrived;
      assert events + [] == events;
      while true
        invariant Valid() && (status == OK || status == BM) && flushMessage
        invariant Arrived() >= old(Arrived())
        invariant Stream() == old(Stream()) && events == old(events)
        decreases |Ahead()|
      {
        got, rc := NextSlice(0);
        assert events == old(events);
        if rc != OK {
          flushMessage := false;
          return;
        }
        if !got { return; }
        if Mseo(msg[0]) == MSEO_END { break; }
      }
      flushMessage := false;
    }

    /** Skips slices up to one that can start a message. */
    method FindStart() returns (got: bool, rc: DQErr)
      requires Valid() && (status == OK || status == BM) && !flushMessage && pendingMsgIndex == 0
      modifies this, sockBuffer, sock, msg
      ensures Valid() && Stream() == old(Stream()) && events == old(events)
      ensures Explained(rc) && rc != BM && (got ==> rc == OK && !flushMessage && pendingMsgIndex == 1)
      ensures !got && rc == OK ==> sock != null && bufferInIndex == bufferOutIndex
      ensures Arrived() >= old(Arrived()) && (!got && rc in {OK, EOF} ==> |consumed| >= old(Arrived()))
    {
      hide Run, Ring, Ahead, Stream, InStep, AtFilePos, Arrived;
      assert events + [] == events;
      while true
        invariant Valid() && (status == OK || status == BM) && !flushMessage && pendingMsgIndex == 0
        invariant Arrived() >= old(Arrived())
        invariant Stream() == old(Stream()) && events == old(events)
        decreases |Ahead()|
      {
        got, rc := NextSlice(0);
        assert events == old(events);
        if rc != OK || !got { return; }
        assert msg[..1] == [msg[0]];
        if StartsMessage(msg[0]) { break; }
      }
      pendingMsgIndex := 1;
    }

    /** The event that is due at the top of the collecting loop. */
    ghost function Due(haveMsg: bool): seq<Event>
      requires pendingMsgIndex <= msg.Length
      reads this`pendingMsgIndex, msg
    {
      if haveMsg then [Framed(msg[..pendingMsgIndex])] else if pendingMsgIndex == MSG_SIZE then [Overflow] else []
    }

    /** The state of the collecting loop; `before` are the events at its start. */
    ghost predicate Collecting(haveMsg: bool, before: seq<Event>)
      reads this, msg
    {
      && Shape() && InStep() && AtFilePos() && msgSlices <= MSG_SIZE && !flushMessage && 0 < pendingMsgIndex <= MSG_SIZE
      && events == before + Due(haveMsg)
      && framer == (if Due(haveMsg) == [] then Framer(msg[..pendingMsgIndex], false) else START)
      && (haveMsg ==> msgSlices == pendingMsgIndex >= 2 && Mseo(msg[msgSlices - 1]) == MSEO_END)
    }

    /** Appends one slice to the message begun in msg. */
    method CollectSlice(ghost before: seq<Event>) returns (got: bool, rc: DQErr, haveMsg: bool)
      requires Collecting(false, before) && pendingMsgIndex < MSG_SIZE && (status == OK || status == BM)
      modifies this, sockBuffer, sock, msg
      ensures Collecting(haveMsg, before) && Stream() == old(Stream())
      ensures got ==> rc == OK && |Ahead()| < |old(Ahead())|
      ensures !got ==> !haveMsg && pendingMsgIndex < MSG_SIZE
      ensures !got && rc == OK ==> sock != null && bufferInIndex == bufferOutIndex
      ensures Arrived() >= old(Arrived()) && (!got && rc in {OK, EOF} ==> |consumed| >= old(Arrived()))
      ensures Explained(rc) && rc != BM
    {
      hide Run, Ring, Ahead, Stream, InStep, AtFilePos, Arrived;
      ghost var begun := msg[..pendingMsgIndex];
      assert events + [] == events;
      haveMsg := false;
      got, rc := NextSlice(pendingMsgIndex);
      assert msg[..pendingMsgIndex] == begun;
      if got {
        assert msg[..pendingMsgIndex + 1] == begun + [msg[pendingMsgIndex]];
        if Mseo(msg[pendingMsgIndex]) == MSEO_END {
          haveMsg := true;
          msgSlices := pendingMsgIndex + 1;
        }
        pendingMsgIndex := pendingMsgIndex + 1;
      }
    }

    /** Appends slices to the message begun in msg, until it ends, fills the buffer or the input runs dry. */
    method CollectSlices() returns (rc: DQErr, haveMsg: bool)
      requires Valid() && (status == OK || status == BM) && !flushMessage && pendingMsgIndex > 0
      modifies this, sockBuffer, sock, msg
      ensures Collecting(haveMsg, old(events)) && Stream() == old(Stream())
      ensures Explained(rc) && rc != BM && (Due(haveMsg) != [] ==> rc == OK)
      ensures rc == OK && Due(haveMsg) == [] ==> sock != null && bufferInIndex == bufferOutIndex
      ensures Arrived() >= old(Arrived())
      ensures Due(haveMsg) == [] && rc in {OK, EOF} ==> |consumed| >= old(Arrived())
    {
      hide Run, Ring, Ahead, Stream, InStep, AtFilePos, Arrived;
      haveMsg, rc := false, OK;
      assert events + [] == events;
      while !haveMsg && pendingMsgIndex < MSG_SIZE
        invariant Collecting(haveMsg, old(events)) && Stream() == old(Stream())
        invariant Arrived() >= old(Arrived())
        invariant rc == OK && Explained(rc)
        decreases |Ahead()|, !haveMsg
      {
        var got;
        got, rc, haveMsg := CollectSlice(old(events));
        if rc != OK || !got { break; }
      }
    }

    method Collect() returns (rc: DQErr, haveMsg: bool)
      requires Valid() && (status == OK || status == BM) && !flushMessage && pendingMsgIndex > 0
      modifies this, sockBuffer, sock, msg
      ensures Valid() && Stream() == old(Stream())
      ensures Explained(rc) && Reported(rc, haveMsg, old(events))
      ensures Arrived() >= old(Arrived()) && (!haveMsg && rc in {OK, EOF} ==> |consumed| >= old(Arrived()))
    {
      hide Run, Ring, Ahead, Stream, InStep, AtFilePos, Arrived;
      rc, haveMsg := CollectSlices();
      if haveMsg {
        pendingMsgIndex := 0;
        assert msg[..0] == [];
      } else if pendingMsgIndex >= MSG_SIZE {
        // meant to discard the rest of the message, but the flag is cleared instead of set
        pendingMsgIndex := 0;
        flushMessage := false;
        status := BM;
        assert msg[..0] == [];
        rc := BM;
      }
    }

    /** The one event a read adds to those before, or else that nothing was left to read. */
    ghost predicate Reported(rc: DQErr, haveMsg: bool, before: seq<Event>)
      requires Shape()
      reads this`bufferInIndex, this`bufferOutIndex, this`tfPos, this`msgSlices, this`events, msg
    {
      && (haveMsg ==> rc == OK && 2 <= msgSlices <= MSG_SIZE && Mseo(msg[msgSlices - 1]) == MSEO_END)
      && (rc == OK && !haveMsg ==> sock != null && bufferInIndex == bufferOutIndex)
      && events == before + if haveMsg then [Framed(msg[..msgSlices])] else if rc == BM then [Overflow] else []
    }

    /** A read that does not begin by discarding. */
    method FindAndCollect() returns (rc: DQErr, haveMsg: bool)
      requires Valid() && (status == OK || status == BM) && !flushMessage
      modifies this, sockBuffer, sock, msg
      ensures Valid() && Stream() == old(Stream())
      ensures Explained(rc) && Reported(rc, haveMsg, old(events))
      ensures Arrived() >= old(Arrived()) && (!haveMsg && rc in {OK, EOF} ==> |consumed| >= old(Arrived()))
    {
      hide Run, Ring, Ahead, Stream, InStep, AtFilePos, Arrived;
      if pendingMsgIndex == 0 {
        haveMsg := false;
        var got;
        got, rc := FindStart();
        if rc != OK || !got {
          assert events + [] == events;
          return;
        }
      }
      rc, haveMsg := Collect();
    }

    /**
     Reads on until a message is complete, one outgrows the buffer, or no byte is available; a message
     cut short by an empty socket is picked up by the next call.
     */
    method ReadBinaryMsg() returns (rc: DQErr, haveMsg: bool)
      requires Valid() && (status == OK || status == BM)
      modifies this, sockBuffer, sock, msg
      ensures Valid() && Stream() == old(Stream())
      ensures Explained(rc) && Reported(rc, haveMsg, old(events)) && (haveMsg ==> !eom && bitIndex == 0)
      ensures Arrived() >= old(Arrived()) && (!haveMsg && rc in {OK, EOF} ==> |consumed| >= old(Arrived()))
    {
      hide Run, Ring, Ahead, Stream, InStep, AtFilePos, Arrived;
      if flushMessage {
        haveMsg := false;
        var got;
        got, rc := FlushToEnd();
        if rc != OK || !got {
          assert events + [] == events;
          return;
        }
      }
      rc, haveMsg := FindAndCollect();
      if haveMsg {
        eom := false;
        bitIndex := 0;
      }
    }

    // ----- fields

    /** The framed message the field readers work on. */
    ghost function Frame(): seq<byte>
      requires msgSlices <= msg.Length
      reads this`msgSlices, msg
    {
      msg[..msgSlices]
    }

    /** What a field reader returned is what the reference reader says. */
    ghost predicate Reads(out: Outcome, rc: DQErr, val: nat, width: nat)
      reads this`bitIndex, this`eom, this`status
    {
      match out
      case Got(v, w, p, e) => rc == OK && val == v && width == w && bitIndex == p && eom == e
      case Failed(err) => rc == err && status == err
    }

    method ParseFixedField(width: int) returns (rc: DQErr, val: nat)
      requires msgSlices <= msg.Length && width <= 64
      modifies this`bitIndex, this`eom, this`status
      ensures width <= 0 ==> rc == ERR && status == ERR
      ensures width > 0 ==> Reads(Fixed(Frame(), old(bitIndex), old(eom), width), rc, val, width)
      ensures rc == OK ==> status == old(status)
    {
      hide Value, FieldBits;
      val := 0;
      if width <= 0 {
        status := ERR;
        return ERR, val;
      }
      var i, b := bitIndex / 6, bitIndex % 6;
      bitIndex := bitIndex + width;
      if bitIndex >= msgSlices * 6 {
        status := EOM;
        return EOM, val;
      }
      if b + width > 6 {
        i, val := CrossingField(i, b, width);
      } else {
        InnerField(Frame(), i, b, width);
        CutOut(msg[i], b, width);
        var v := ShiftLeft8(msg[i], 6 - (b + width));
        val := ShiftRight(v, (6 - (b + width)) + b + 2);
      }
      if Mseo(msg[i]) == MSEO_END {
        eom := true;
      }
      rc := OK;
    }

    /** A fixed field that crosses a slice boundary; also returns the index of the slice after it or at its end. */
    method CrossingField(i0: nat, b: nat, width: nat) returns (i: nat, val: nat)
      requires msgSlices <= msg.Length && b < 6 && 6 * i0 + b + width < 6 * msgSlices && b + width > 6
      ensures i == (6 * i0 + b + width) / 6
      ensures val == Value(FieldBits(Frame())[6 * i0 + b..6 * i0 + b + width])
    {
      hide Value, FieldBits;
      ghost var frame, from := Frame(), 6 * i0 + b;
      ghost var bits := FieldBits(frame);
      i := i0;
      InnerField(frame, i, b, 6 - b);
      ShiftPayload(msg[i], b);
      TopPart(msg[i], b);
      val := ShiftRight(msg[i], b + 2);
      var consumed := 6 - b;
      var remainingWidth := width - consumed;
      i := i + 1;
      while remainingWidth >= 6
        invariant 0 <= remainingWidth && consumed + remainingWidth == width
        invariant from + consumed == 6 * i
        invariant val == Value(bits[from..from + consumed])
      {
        Extend(bits, from, 6 * i, 6 * i + 6);
        WholeSlice(frame, i);
        val := OrAt(val, Mdo(msg[i]), consumed);
        i := i + 1;
        remainingWidth := remainingWidth - 6;
        consumed := consumed + 6;
      }
      if remainingWidth > 0 {
        val := LastPart(i, from, remainingWidth, val, consumed);
      }
    }

    method LastPart(i: nat, ghost from: nat, rem: nat, low: nat, consumed: nat) returns (val: nat)
      requires i < msgSlices <= msg.Length && 0 < rem < 6 && from + consumed == 6 * i
      requires low == Value(FieldBits(Frame())[from..6 * i])
      ensures val == Value(FieldBits(Frame())[from..6 * i + rem])
    {
      hide Value, FieldBits;
      Extend(FieldBits(Frame()), from, 6 * i, 6 * i + rem);
      LowPart(Frame(), i, rem);
      CutOut(msg[i], 0, rem);
      assert Mdo(msg[i]) / Pow2(0) == Mdo(msg[i]);
      val := OrAt(low, ShiftRight(ShiftLeft8(msg[i], 6 - rem), 6 - rem + 2), consumed);
    }

    method ParseVarField() returns (rc: DQErr, val: nat, width: nat)
      requires msgSlices <= msg.Length
      modifies this`bitIndex, this`eom, this`status
      ensures Reads(Var(Frame(), old(bitIndex), old(eom)), rc, val, width)
      ensures rc == OK ==> status == old(status)
    {
      hide Value, FieldBits;
      val, width := 0, 0;
      if bitIndex / 6 >= msgSlices {
        status := EOM;
        return EOM, val, width;
      }
      var i, v, w := CollectRun();
      if i >= msgSlices {
        status := ERR;
        return ERR, val, width;
      }
      if w > 64 && msg[i] >= 64 {
        status := ERR;
        return ERR, val, width;
      }
      if Mseo(msg[i]) == MSEO_END {
        eom := true;
      }
      bitIndex := bitIndex + w;
      rc, val, width := OK, v, w;
    }

    /** Gathers the payload from the current position up to the next slice i with a mark, if there is one. */
    method CollectRun() returns (i: nat, v: nat, w: nat)
      requires msgSlices <= msg.Length && bitIndex / 6 < msgSlices
      ensures i == RunEnd(Frame(), bitIndex / 6)
      ensures i < msgSlices ==> w == 6 * (i + 1) - bitIndex
                                && v == Uint64(Value(FieldBits(Frame())[bitIndex..6 * (i + 1)]))
    {
      hide Value, FieldBits;
      i, v, w := FirstSlice();
      while Mseo(msg[i]) == MSEO_NORMAL
        invariant bitIndex / 6 <= i < msgSlices && w == 6 * (i + 1) - bitIndex > 0
        invariant v == Uint64(Value(FieldBits(Frame())[bitIndex..6 * (i + 1)]))
        invariant RunEnd(Frame(), i) == RunEnd(Frame(), bitIndex / 6)
        decreases msgSlices - i
      {
        i := i + 1;
        if i >= msgSlices { return; }
        v := AddSlice(i, v, w);
        w := w + 6;
      }
    }

    method FirstSlice() returns (i: nat, v: nat, w: nat)
      requires msgSlices <= msg.Length && bitIndex / 6 < msgSlices
      ensures i == bitIndex / 6 && w == 6 * (i + 1) - bitIndex > 0
      ensures v == Uint64(Value(FieldBits(Frame())[bitIndex..6 * (i + 1)]))
    {
      hide Value, FieldBits;
      i := bitIndex / 6;
      var b := bitIndex % 6;
      w := 6 - b;
      FirstPart(Frame(), i, b);
      v := ShiftRight(msg[i], b + 2);
      ModSmall(v, UINT64);
    }

    /** `v | (msg[i] >> 2) << w` in 64 bits: what a shift moves past the top is lost. */
    method AddSlice(i: nat, v: nat, w: nat) returns (sum: nat)
      requires 0 < i < msgSlices <= msg.Length && w == 6 * i - bitIndex > 0
      requires v == Uint64(Value(FieldBits(Frame())[bitIndex..6 * i]))
      ensures sum == Uint64(Value(FieldBits(Frame())[bitIndex..6 * (i + 1)]))
    {
      hide Value, FieldBits;
      if w < 64 {
        OrShifted(Frame(), bitIndex, i, v);
        sum := Uint64(OrAt(v, Mdo(msg[i]), w));
      } else {
        HighBitsLost(FieldBits(Frame()), bitIndex, 6 * i, 6 * i + 6);
        sum := v;
      }
    }

    method ParseDataAcquisition() returns (rc: DQErr, nm: Acquired)
      requires msgSlices <= msg.Length && srcbits <= 64
      modifies this`bitIndex, this`eom, this`status
      ensures match ParseSource(srcbits, Frame(), old(bitIndex), old(eom))
              case DataMessage(m) => rc == OK && nm == m && status == old(status)
              case Bad(err) => rc == err && status == err
              case _ => false
    {
      hide Fixed, Var;
      nm := Acquired(0, 0, 0, false, 0);
      var tmp, width;
      if srcbits > 0 {
        rc, tmp := ParseFixedField(srcbits);
        if rc != OK { status := rc; return; }
        nm := nm.(coreId := tmp % 256);
      }
      rc, tmp, width := ParseVarField();
      if rc != OK { status := rc; return; }
      nm := nm.(idTag := Uint32(tmp));
      rc, tmp, width := ParseVarField();
      if rc != OK { status := rc; return; }
      nm := nm.(data := Uint32(tmp));
      if !eom {
        rc, tmp, width := ParseVarField();
        if rc != OK { status := rc; return; }
        if !eom { status := BM; return BM, nm; }
        nm := nm.(haveTimestamp := true, timestamp := tmp);
      }
    }

    method ParseField(kind: FieldKind) returns (rc: DQErr, val: nat)
      requires msgSlices <= msg.Length
      modifies this`bitIndex, this`eom, this`status
      ensures match ReadField(Frame(), old(bitIndex), old(eom), kind)
              case Got(v, _, p, e) => rc == OK && val == v && bitIndex == p && eom == e && status == old(status)
              case Failed(err) => rc == err && status == err
    {
      hide Fixed, Var;
      match kind
      case TwoBits => rc, val := ParseFixedField(2);
      case FourBits => rc, val := ParseFixedField(4);
      case VarField =>
        var width;
        rc, val, width := ParseVarField();
    }

    /** The straight-line field reading that all parsers have in common: stops at the first error. */
    method ParseFields(kinds: seq<FieldKind>, before: seq<nat>) returns (rc: DQErr, fields: seq<nat>)
      requires msgSlices <= msg.Length
      modifies this`bitIndex, this`eom, this`status
      ensures match ReadFields(Frame(), old(bitIndex), old(eom), kinds, before)
              case FieldsGot(f, p, e) => rc == OK && fields == f && bitIndex == p && eom == e && status == old(status)
              case FieldsFailed(err) => rc == err && status == err
    {
      hide ReadField;
      rc, fields := OK, before;
      assert kinds[0..] == kinds;
      for i := 0 to |kinds|
        invariant rc == OK && status == old(status)
        invariant ReadFields(Frame(), old(bitIndex), old(eom), kinds, before)
               == ReadFields(Frame(), bitIndex, eom, kinds[i..], fields)
      {
        var val;
        rc, val := ParseField(kinds[i]);
        assert kinds[i..][1..] == kinds[i + 1..];
        if rc != OK {
          status := rc;
          return;
        }
        fields := fields + [val];
      }
    }

    /** The parsers of the other messages, each an instance of this one by its TCODE. */
    method ParseOtherMessage(tcode: nat) returns (rc: DQErr, m: Parsed)
      requires msgSlices <= msg.Length && srcbits <= 64 && Layout(tcode).Some?
      modifies this`bitIndex, this`eom, this`status
      ensures match ParseOther(srcbits, Frame(), old(bitIndex), old(eom), tcode)
              case OtherMessage(o) => rc == OK && m == o && status == old(status)
              case Bad(err) => rc == err && status == err
              case _ => false
    {
      hide Fixed, Var, ReadFields, Layout, MoreFields, Stored;
      m := Parsed(tcode, 0, [], false, 0);
      var tmp, fields;
      if srcbits > 0 {
        rc, tmp := ParseFixedField(srcbits);
        if rc != OK { status := rc; return; }
        m := m.(coreId := tmp % 256);
      }
      rc, fields := ParseFields(Layout(tcode).value, []);
      if rc != OK { return; }
      var more := MoreFields(tcode, fields);
      if more.None? {
        status := ERR;
        return ERR, m;
      }
      rc, fields := ParseFields(more.value, fields);
      if rc != OK { return; }
      m := m.(fields := Stored(tcode, fields));
      if !eom {
        var width;
        rc, tmp, width := ParseVarField();
        if rc != OK { status := rc; return; }
        if !eom { status := BM; return BM, m; }
        m := m.(haveTimestamp := true, timestamp := tmp);
      }
    }

    /** Takes the framed message apart. An error of a parser is left in `status`, a missing parser is not. */
    method ParseFrame() returns (rc: DQErr, report: Report)
      requires msgSlices <= msg.Length && srcbits <= 64 && bitIndex == 0 && !eom && status == OK
      modifies this`bitIndex, this`eom, this`status
      ensures report == ParseMessage(srcbits, Frame())
      ensures rc == (match report case Bad(err) => err case Unsupported(_) => ERR case _ => OK)
      ensures status == if report.Bad? then report.err else OK
    {
      hide Fixed, ParseSource, ParseOther, Layout;
      var tcode;
      rc, tcode := ParseFixedField(6);
      if rc != OK { return rc, Bad(rc); }
      if tcode == TCODE_DATA_ACQUISITION {
        var nm;
        rc, nm := ParseDataAcquisition();
        report := if rc == OK then DataMessage(nm) else Bad(rc);
      } else if Layout(tcode).Some? {
        var m;
        rc, m := ParseOtherMessage(tcode);
        report := if rc == OK then OtherMessage(m) else Bad(rc);
      } else {
        rc, report := ERR, Unsupported(tcode);
      }
    }

    /**
     Reads the next message; `framed` says that a frame was completed, and `haveMsg` that it could be
     parsed. Any code but OK that the framer or a parser left in `status` is returned at once, without
     reading; a message without a parser leaves none, so the next call reads on.
     */
    method ReadNextTraceMsg() returns (rc: DQErr, haveMsg: bool, report: Report, ghost framed: bool)
      requires Valid() && srcbits <= 64
      modifies this, sockBuffer, sock, msg
      ensures Valid() && Stream() == old(Stream())
      ensures old(status) != OK ==> !framed && !haveMsg && rc == status == old(status) && events == old(events)
      ensures framed ==> events == old(events) + [Framed(Frame())] && report == ParseMessage(srcbits, Frame())
                         && haveMsg == (report.DataMessage? || report.OtherMessage?)
                         && rc == (if haveMsg then OK else BM)
                         && status == (if report.Bad? then report.err else OK)
      ensures !framed && old(status) == OK ==> !haveMsg && Explained(rc) && Reported(rc, false, old(events))
      ensures Arrived() >= old(Arrived())
      ensures old(status) == OK && !framed && rc in {OK, EOF} ==> |consumed| >= old(Arrived())
    {
      hide ParseMessage, Run, Ring, Ahead, Stream, InStep, AtFilePos, Arrived;
      haveMsg, report, framed := false, Bad(ERR), false;
      if status != OK { return status, haveMsg, report, framed; }
      rc, haveMsg := ReadBinaryMsg();
      if !haveMsg { return; }
      status, framed := OK, true;
      rc, report := ParseFrame();
      if rc != OK {
        haveMsg, rc := false, BM;
      }
    }
  }

  /** Taking a byte from a ring that is not empty. */
  lemma RingTake(buf: seq<byte>, inIndex: nat, outIndex: nat)
    requires inIndex < |buf| && outIndex < |buf| && inIndex != outIndex
    ensures var next := if outIndex + 1 >= |buf| then 0 else outIndex + 1;
            RingOf(buf, inIndex, outIndex) == [buf[outIndex]] + RingOf(buf, inIndex, next)
  {
    if inIndex > outIndex {
      FirstOf(buf, outIndex, inIndex);
    } else {
      FirstOf(buf, outIndex, |buf|);
      var low, high := buf[..inIndex], buf[outIndex + 1..|buf|];
      assert ([buf[outIndex]] + high) + low == [buf[outIndex]] + (high + low);
      assert outIndex + 1 == |buf| ==> high + low == low && buf[0..inIndex] == low;
    }
  }

  lemma FirstOf(buf: seq<byte>, from: nat, to: nat)
    requires from < to <= |buf|
    ensures buf[from..to] == [buf[from]] + buf[from + 1..to]
  {
  }

  lemma FileSplit(tf: seq<byte>, pos: nat)
    requires pos <= |tf|
    ensures tf[..pos] + tf[pos..] == tf
  {
  }

  lemma OneTaken(done: seq<byte>, b: byte, ring: seq<byte>, rest: seq<byte>)
    ensures (done + [b]) + (ring + rest) == done + (([b] + ring) + rest)
    ensures |ring + rest| < |([b] + ring) + rest|
  {
  }
}

/**
 The SWT server's pass-through: serial bytes drained from the lookahead go, unchanged, into the queue of
 each client, and from there into its socket.
 */
module SerialRelay {
  import opened NexusWire
  import opened MessageBuilder
  import opened Handshake

  const SERIAL_BUFFER_NUMBYTES := 4096
  const QUEUE_STALLED_CLIENT_SUSPICION_THRESHOLD := 512 * 1024

  // ----- one client

  /** A client's queue, what its socket has taken, and all that was ever queued for it. */
  datatype Client = Client(queue: seq<byte>, sent: seq<byte>, accepted: seq<byte>)

  datatype ClientEvent = Chunk(bytes: seq<byte>) | SocketTakes(n: nat)

  predicate Stalled(c: Client) { |c.queue| > QUEUE_STALLED_CLIENT_SUSPICION_THRESHOLD }

  function Happens(c: Client, e: ClientEvent): Client
  {
    match e
    case Chunk(bytes) =>
      if Stalled(c) then c else Client(c.queue + bytes, c.sent, c.accepted + bytes)
    case SocketTakes(n) =>
      var k := if n < |c.queue| then n else |c.queue|;
      Client(c.queue[k..], c.sent + c.queue[..k], c.accepted)
  }

  function Serve(c: Client, events: seq<ClientEvent>): Client
    decreases |events|
  {
    if events == [] then c else Serve(Happens(c, events[0]), events[1..])
  }

  predicate ClientInv(c: Client)
  {
    && c.sent + c.queue == c.accepted
    && |c.queue| <= QUEUE_STALLED_CLIENT_SUSPICION_THRESHOLD + SERIAL_BUFFER_NUMBYTES
  }

  lemma ClientInvKept(c: Client, e: ClientEvent)
    requires ClientInv(c) && (e.Chunk? ==> |e.bytes| <= SERIAL_BUFFER_NUMBYTES)
    ensures ClientInv(Happens(c, e))
  {
    match e
    case Chunk(bytes) =>
      assert c.sent + (c.queue + bytes) == (c.sent + c.queue) + bytes;
    case SocketTakes(n) =>
      var k := if n < |c.queue| then n else |c.queue|;
      assert (c.sent + c.queue[..k]) + c.queue[k..] == c.sent + c.queue;
  }

  /**
   Over any run of a client's life, what has been sent followed by what is queued is exactly the chunks
   accepted for it, whole and in order, and the queue stays below the threshold plus one read buffer.
   */
  lemma {:induction false} ClientFaithful(c: Client, events: seq<ClientEvent>)
    requires ClientInv(c)
    requires forall i :: 0 <= i < |events| && events[i].Chunk? ==> |events[i].bytes| <= SERIAL_BUFFER_NUMBYTES
    ensures ClientInv(Serve(c, events))
    decreases |events|
  {
    if events != [] {
      ClientInvKept(c, events[0]);
      ClientFaithful(Happens(c, events[0]), events[1..]);
    }
  }

  /** The chunks of a run, and whether the client was stalled when one of them came. */
  function Offered(events: seq<ClientEvent>): seq<byte>
  {
    if events == [] then []
    else (match events[0] case Chunk(bytes) => bytes case _ => []) + Offered(events[1..])
  }

  predicate EverStalled(c: Client, events: seq<ClientEvent>)
    decreases |events|
  {
    events != [] && ((events[0].Chunk? && events[0].bytes != [] && Stalled(c)) ||
                     EverStalled(Happens(c, events[0]), events[1..]))
  }

  /** A client that is never stalled gets every byte that is relayed to it. */
  lemma {:induction false} LosslessUnlessStalled(c: Client, events: seq<ClientEvent>)
    requires !EverStalled(c, events)
    ensures var d := Serve(c, events); d.sent + d.queue == c.sent + c.queue + Offered(events)
    decreases |events|
  {
    if events == [] {
      assert c.sent + c.queue + [] == c.sent + c.queue;
    } else {
      var c', rest := Happens(c, events[0]), Offered(events[1..]);
      LosslessUnlessStalled(c', events[1..]);
      match events[0]
      case Chunk(bytes) =>
        assert c'.sent + c'.queue == c.sent + c.queue + bytes;
        assert c.sent + c.queue + bytes + rest == c.sent + c.queue + (bytes + rest);
      case SocketTakes(n) =>
        assert c'.sent + c'.queue == c.sent + c.queue;
        assert [] + rest == rest;
    }
  }

  /** How many bytes have been sent or are queued. */
  function Gone(c: Client): nat { |c.sent| + |c.queue| }

  lemma GoneStep(c: Client, e: ClientEvent)
    ensures Gone(Happens(c, e)) == Gone(c) + if e.Chunk? && !Stalled(c) then |e.bytes| else 0
  {
  }

  /** What a stalled client is offered is missing for good. */
  lemma {:induction false} LossIfStalled(c: Client, events: seq<ClientEvent>)
    ensures Gone(Serve(c, events)) <= Gone(c) + |Offered(events)|
    ensures EverStalled(c, events) ==> Gone(Serve(c, events)) < Gone(c) + |Offered(events)|
    decreases |events|
  {
    hide Happens, Gone, Stalled;
    if events != [] {
      GoneStep(c, events[0]);
      LossIfStalled(Happens(c, events[0]), events[1..]);
    }
  }

  /**
   A client gets every byte that was relayed during its connection, unchanged, if and only if it was never
   stalled when a chunk came.
   */
  lemma LosslessIffNeverStalled(c: Client, events: seq<ClientEvent>)
    ensures var d := Serve(c, events);
            d.sent + d.queue == c.sent + c.queue + Offered(events) <==> !EverStalled(c, events)
  {
    hide Serve, EverStalled, Offered;
    if EverStalled(c, events) {
      LossIfStalled(c, events);
    } else {
      LosslessUnlessStalled(c, events);
    }
  }

  // ----- draining the lookahead

  function First(arrivals: seq<seq<byte>>): seq<byte> { if arrivals == [] then [] else arrivals[0] }

  function Later(arrivals: seq<seq<byte>>): seq<seq<byte>> { if arrivals == [] then [] else arrivals[1..] }

  /** The results of the reads, when arrivals[i] reaches the lookahead between read i and the next. */
  function Drain(lookahead: seq<byte>, arrivals: seq<seq<byte>>): (chunks: seq<seq<byte>>)
    ensures chunks != [] && forall i :: 0 <= i < |chunks| ==> |chunks[i]| <= SERIAL_BUFFER_NUMBYTES
    decreases |arrivals|, |lookahead|
  {
    if |lookahead| < SERIAL_BUFFER_NUMBYTES then [lookahead]
    else
      [lookahead[..SERIAL_BUFFER_NUMBYTES]]
      + Drain(lookahead[SERIAL_BUFFER_NUMBYTES..] + First(arrivals), Later(arrivals))
  }

  /** The server takes an empty read for the end of the device. */
  predicate ClosesDevice(chunks: seq<seq<byte>>)
    requires chunks != []
  {
    chunks[|chunks| - 1] == []
  }

  /** How many bytes have reached the lookahead by read k, when there were n at first. */
  function Arrived(n: nat, arrivals: seq<seq<byte>>, k: nat): nat
    decreases k
  {
    if k == 0 then n else Arrived(n + |First(arrivals)|, Later(arrivals), k - 1)
  }

  /** Every read before read k filled the buffer, and read k found nothing. */
  predicate RunsDryAt(n: nat, arrivals: seq<seq<byte>>, k: nat)
  {
    && (forall j: nat :: j < k ==> Arrived(n, arrivals, j) >= SERIAL_BUFFER_NUMBYTES * (j + 1))
    && Arrived(n, arrivals, k) == SERIAL_BUFFER_NUMBYTES * k
  }

  lemma {:induction false} ArrivedShift(n: nat, arrivals: seq<seq<byte>>, k: nat, d: nat)
    ensures Arrived(n + d, arrivals, k) == Arrived(n, arrivals, k) + d
    decreases k
  {
    if k > 0 {
      ArrivedShift(n + |First(arrivals)|, Later(arrivals), k - 1, d);
    }
  }

  lemma RunsDryLater(n: nat, arrivals: seq<seq<byte>>, k: nat)
    requires n >= SERIAL_BUFFER_NUMBYTES
    ensures RunsDryAt(n - SERIAL_BUFFER_NUMBYTES + |First(arrivals)|, Later(arrivals), k)
            <==> RunsDryAt(n, arrivals, k + 1)
  {
    var n', arrivals' := n - SERIAL_BUFFER_NUMBYTES + |First(arrivals)|, Later(arrivals);
    forall j: nat
      ensures Arrived(n, arrivals, j + 1) == Arrived(n', arrivals', j) + SERIAL_BUFFER_NUMBYTES
    {
      ArrivedShift(n', arrivals', j, SERIAL_BUFFER_NUMBYTES);
    }
    if RunsDryAt(n', arrivals', k) {
      forall j: nat | j < k + 1
        ensures Arrived(n, arrivals, j) >= SERIAL_BUFFER_NUMBYTES * (j + 1)
      {
        if j > 0 {
          assert Arrived(n', arrivals', j - 1) >= SERIAL_BUFFER_NUMBYTES * j;
        }
      }
    }
    if RunsDryAt(n, arrivals, k + 1) {
      forall j: nat | j < k
        ensures Arrived(n', arrivals', j) >= SERIAL_BUFFER_NUMBYTES * (j + 1)
      {
        assert Arrived(n, arrivals, j + 1) >= SERIAL_BUFFER_NUMBYTES * (j + 2);
      }
    }
  }

  /**
   A device that is still connected is closed if and only if the bytes that had arrived by some read come
   to exactly as many full buffers as had been read before it, none of those reads having been short.
   */
  lemma {:induction false} ClosedIffRunsDry(lookahead: seq<byte>, arrivals: seq<seq<byte>>)
    ensures ClosesDevice(Drain(lookahead, arrivals)) <==> exists k: nat :: RunsDryAt(|lookahead|, arrivals, k)
    decreases |arrivals|, |lookahead|
  {
    var n := |lookahead|;
    if n < SERIAL_BUFFER_NUMBYTES {
      if n == 0 {
        assert RunsDryAt(n, arrivals, 0);
      }
      forall k: nat | RunsDryAt(n, arrivals, k)
        ensures n == 0
      {
        assert Arrived(n, arrivals, 0) == n;
      }
    } else {
      var lookahead' := lookahead[SERIAL_BUFFER_NUMBYTES..] + First(arrivals);
      ClosedIffRunsDry(lookahead', Later(arrivals));
      if k: nat :| RunsDryAt(|lookahead'|, Later(arrivals), k) {
        RunsDryLater(n, arrivals, k);
      }
      if k: nat :| RunsDryAt(n, arrivals, k) {
        assert k > 0;
        RunsDryLater(n, arrivals, k - 1);
      }
    }
  }

  /** When nothing arrives meanwhile: if and only if the lookahead held a multiple of the buffer size. */
  lemma {:induction false} ClosedIffMultiple(lookahead: seq<byte>)
    ensures ClosesDevice(Drain(lookahead, [])) <==> |lookahead| % 4096 == 0
    decreases |lookahead|
  {
    if |lookahead| >= SERIAL_BUFFER_NUMBYTES {
      var rest := lookahead[SERIAL_BUFFER_NUMBYTES..];
      assert rest + First([]) == rest;
      ClosedIffMultiple(rest);
    }
  }

  // ----- the program

  class IoConnection {
    var bytesToSend: seq<byte>
    ghost var sent: seq<byte>
    ghost var accepted: seq<byte>

    ghost function View(): Client
      reads this
    {
      Client(bytesToSend, sent, accepted)
    }

    constructor ()
      ensures View() == NEW_CLIENT
    {
      bytesToSend, sent, accepted := [], [], [];
    }

    method Enqueue(bytes: seq<byte>)
      modifies this
      ensures View() == Client(old(bytesToSend) + bytes, old(sent), old(accepted) + bytes)
    {
      bytesToSend := bytesToSend + bytes;
      accepted := accepted + bytes;
    }

    /** The socket takes up to n bytes from the front of the queue. */
    method Send(n: nat)
      modifies this
      ensures View() == Happens(old(View()), SocketTakes(n))
    {
      var numsent := if n < |bytesToSend| then n else |bytesToSend|;
      sent := sent + bytesToSend[..numsent];
      bytesToSend := bytesToSend[numsent..];
    }

    /** One client's turn: nothing to do, a failure, or so many bytes taken. */
    method TrySend(numsent: int) returns (kept: bool)
      modifies this
      ensures (if kept then [View()] else []) == Sent(old(View()), numsent)
    {
      kept := |bytesToSend| == 0 || numsent >= 0;
      if |bytesToSend| > 0 && kept {
        Send(numsent);
      }
    }
  }

  function Chunks(chunks: seq<seq<byte>>): (events: seq<ClientEvent>)
    ensures |events| == |chunks| && forall i :: 0 <= i < |chunks| ==> events[i] == Chunk(chunks[i])
  {
    seq(|chunks|, i requires 0 <= i < |chunks| => Chunk(chunks[i]))
  }

  lemma {:induction false} ServeSnoc(c: Client, events: seq<ClientEvent>, e: ClientEvent)
    ensures Serve(c, events + [e]) == Happens(Serve(c, events), e)
    decreases |events|
  {
    if events == [] {
      assert ([] + [e])[1..] == [];
    } else {
      assert (events + [e])[1..] == events[1..] + [e];
      ServeSnoc(Happens(c, events[0]), events[1..], e);
    }
  }

  /** Every client sees the same events. */
  function ServeAll(clients: seq<Client>, events: seq<ClientEvent>): (after: seq<Client>)
    ensures |after| == |clients| && forall i :: 0 <= i < |clients| ==> after[i] == Serve(clients[i], events)
  {
    seq(|clients|, i requires 0 <= i < |clients| => Serve(clients[i], events))
  }

  lemma ServeAllSnoc(clients: seq<Client>, events: seq<ClientEvent>, e: ClientEvent)
    ensures ServeAll(clients, events + [e]) == ServeAll(ServeAll(clients, events), [e])
  {
    forall i | 0 <= i < |clients|
      ensures Serve(clients[i], events + [e]) == Serve(Serve(clients[i], events), [e])
    {
      ServeSnoc(clients[i], events, e);
      ServeOne(Serve(clients[i], events), e);
    }
  }

  lemma ServeOne(c: Client, e: ClientEvent)
    ensures Serve(c, [e]) == Happens(c, e)
  {
    assert [e][1..] == [];
  }

  lemma ServeNothing(clients: seq<Client>)
    ensures ServeAll(clients, []) == clients
  {
  }

  lemma ServeEmpty(clients: seq<Client>)
    ensures ServeAll(clients, [Chunk([])]) == clients
  {
    forall i | 0 <= i < |clients|
      ensures Serve(clients[i], [Chunk([])]) == clients[i]
    {
      ServeOne(clients[i], Chunk([]));
    }
  }

  lemma Relayed(clients: seq<Client>, chunks: seq<seq<byte>>, bytes: seq<byte>)
    ensures ServeAll(ServeAll(clients, Chunks(chunks)), [Chunk(bytes)]) == ServeAll(clients, Chunks(chunks + [bytes]))
    ensures Concat(chunks + [bytes]) == Concat(chunks) + bytes
  {
    ServeAllSnoc(clients, Chunks(chunks), Chunk(bytes));
    assert Chunks(chunks + [bytes]) == Chunks(chunks) + [Chunk(bytes)];
    ConcatSnoc(chunks, bytes);
  }

  lemma DrainStep(bytes: seq<byte>, rest: seq<byte>, arrivals: seq<seq<byte>>)
    requires |bytes| <= SERIAL_BUFFER_NUMBYTES && (|bytes| < SERIAL_BUFFER_NUMBYTES ==> rest == [])
    ensures Drain(bytes + rest, arrivals)
         == [bytes] + if |bytes| < SERIAL_BUFFER_NUMBYTES then [] else Drain(rest + First(arrivals), Later(arrivals))
  {
    if rest == [] {
      assert bytes + rest == bytes;
    }
    assert (bytes + rest)[..|bytes|] == bytes && (bytes + rest)[|bytes|..] == rest;
  }

  /** The drain of `start` has reached arrival i, with these chunks read and this much left. */
  ghost predicate Draining(start: seq<byte>, arrivals: seq<seq<byte>>, clients: seq<Client>, taken: seq<byte>,
                           chunks: seq<seq<byte>>, i: nat, lookahead: seq<byte>,
                           clients': seq<Client>, taken': seq<byte>)
  {
    && i <= |arrivals|
    && Drain(start, arrivals) == chunks + Drain(lookahead, arrivals[i..])
    && clients' == ServeAll(clients, Chunks(chunks))
    && taken' == taken + Concat(chunks)
  }

  lemma DrainStarts(start: seq<byte>, arrivals: seq<seq<byte>>, clients: seq<Client>, taken: seq<byte>)
    ensures Draining(start, arrivals, clients, taken, [], 0, start, clients, taken)
  {
    hide Drain;
    ServeNothing(clients);
    assert Chunks([]) == [] && arrivals[0..] == arrivals && taken + Concat([]) == taken;
  }

  lemma DrainContinues(start: seq<byte>, arrivals: seq<seq<byte>>, clients: seq<Client>, taken: seq<byte>,
                       chunks: seq<seq<byte>>, i: nat, bytes: seq<byte>, rest: seq<byte>,
                       clients': seq<Client>, taken': seq<byte>)
    requires Draining(start, arrivals, clients, taken, chunks, i, bytes + rest, clients', taken')
    requires |bytes| == SERIAL_BUFFER_NUMBYTES
    ensures var arrived := i < |arrivals|;
            Draining(start, arrivals, clients, taken, chunks + [bytes], if arrived then i + 1 else i,
                     rest + (if arrived then arrivals[i] else []), ServeAll(clients', [Chunk(bytes)]), taken' + bytes)
  {
    hide Drain, ServeAll, Chunks, Concat;
    Relayed(clients, chunks, bytes);
    DrainStep(bytes, rest, arrivals[i..]);
    var d := Drain(rest + First(arrivals[i..]), Later(arrivals[i..]));
    assert chunks + ([bytes] + d) == (chunks + [bytes]) + d;
    if i < |arrivals| {
      assert arrivals[i..][1..] == arrivals[i + 1..];
    }
    assert taken + Concat(chunks) + bytes == taken + Concat(chunks + [bytes]);
  }

  lemma DrainEnds(start: seq<byte>, arrivals: seq<seq<byte>>, clients: seq<Client>, taken: seq<byte>,
                  chunks: seq<seq<byte>>, i: nat, bytes: seq<byte>, rest: seq<byte>,
                  clients': seq<Client>, taken': seq<byte>)
    requires Draining(start, arrivals, clients, taken, chunks, i, bytes + rest, clients', taken')
    requires |bytes| < SERIAL_BUFFER_NUMBYTES && rest == []
    ensures chunks + [bytes] == Drain(start, arrivals)
    ensures ServeAll(clients', [Chunk(bytes)]) == ServeAll(clients, Chunks(chunks + [bytes]))
    ensures taken' + bytes == taken + Concat(chunks + [bytes])
  {
    hide Drain, ServeAll, Chunks, Concat;
    Relayed(clients, chunks, bytes);
    DrainStep(bytes, rest, arrivals[i..]);
    assert taken + Concat(chunks) + bytes == taken + Concat(chunks + [bytes]);
  }

  /** The clients left when those at the positions from i on whose sockets were found closed are dropped. */
  function HangUps(clients: seq<Client>, i: nat, hungUp: nat -> bool): seq<Client>
  {
    if clients == [] then []
    else (if hungUp(i) then [] else [clients[0]]) + HangUps(clients[1..], i + 1, hungUp)
  }

  /** A socket offered a client's queue takes numsent bytes of it, or fails and the client is dropped. */
  function Sent(c: Client, numsent: int): seq<Client>
  {
    if c.queue == [] then [c] else if numsent < 0 then [] else [Happens(c, SocketTakes(numsent))]
  }

  function Sends(clients: seq<Client>, i: nat, socket: nat -> int): seq<Client>
  {
    if clients == [] then []
    else Sent(clients[0], socket(i)) + Sends(clients[1..], i + 1, socket)
  }

  /** A chunk is queued whole for a client that has at most 512 KiB queued, and not at all for any other. */
  lemma ChunkExactly(c: Client, bytes: seq<byte>)
    ensures var d := Happens(c, Chunk(bytes));
            if |c.queue| <= 0x8_0000
            then d.queue == c.queue + bytes && d.sent == c.sent && d.accepted == c.accepted + bytes
            else d == c
  {
  }

  lemma SentExactly(c: Client, n: int)
    ensures Sent(c, n) ==
              if |c.queue| == 0 then [c]
              else if n < 0 then []
              else if n >= |c.queue| then [Client([], c.sent + c.queue, c.accepted)]
              else [Client(c.queue[n..], c.sent + c.queue[..n], c.accepted)]
  {
    assert c.queue[..|c.queue|] == c.queue && c.queue[|c.queue|..] == [];
  }

  /**
   Sending, client by client: one with nothing queued stays as it is; a failing socket drops its client; and one that
   takes n bytes moves the first n of the queue, or all of it, to what was sent.
   */
  lemma {:induction false} SendsNext(clients: seq<Client>, c: Client, i: nat, socket: nat -> int)
    ensures Sends([], i, socket) == []
    ensures var n := socket(i + |clients|);
            Sends(clients + [c], i, socket) == Sends(clients, i, socket) +
              if |c.queue| == 0 then [c]
              else if n < 0 then []
              else if n >= |c.queue| then [Client([], c.sent + c.queue, c.accepted)]
              else [Client(c.queue[n..], c.sent + c.queue[..n], c.accepted)]
    decreases |clients|
  {
    hide Sent;
    if clients == [] {
      assert [] + [c] == [c] && [c][1..] == [];
      SentExactly(c, socket(i));
    } else {
      assert (clients + [c])[1..] == clients[1..] + [c] && (clients + [c])[0] == clients[0];
      SendsNext(clients[1..], c, i + 1, socket);
      Joined(Sent(clients[0], socket(i)), Sends(clients[1..], i + 1, socket), Sent(c, socket(i + |clients|)));
      SentExactly(c, socket(i + |clients|));
    }
  }

  lemma Joined(a: seq<Client>, b: seq<Client>, c: seq<Client>)
    ensures a + (b + c) == (a + b) + c
  {
  }

  /** Hanging up, client by client: exactly those whose sockets said so are gone, and the others as they were. */
  lemma {:induction false} HangUpsNext(clients: seq<Client>, c: Client, i: nat, hungUp: nat -> bool)
    ensures HangUps([], i, hungUp) == []
    ensures HangUps(clients + [c], i, hungUp)
         == HangUps(clients, i, hungUp) + if hungUp(i + |clients|) then [] else [c]
    decreases |clients|
  {
    if clients == [] {
      assert [] + [c] == [c] && [c][1..] == [];
    } else {
      assert (clients + [c])[1..] == clients[1..] + [c] && (clients + [c])[0] == clients[0];
      HangUpsNext(clients[1..], c, i + 1, hungUp);
      var first := if hungUp(i) then [] else [clients[0]];
      Joined(first, HangUps(clients[1..], i + 1, hungUp), if hungUp(i + |clients|) then [] else [c]);
    }
  }

  predicate AllInv(clients: seq<Client>) { forall i :: 0 <= i < |clients| ==> ClientInv(clients[i]) }

  lemma ServeAllInv(clients: seq<Client>, chunks: seq<seq<byte>>)
    requires AllInv(clients) && forall i :: 0 <= i < |chunks| ==> |chunks[i]| <= SERIAL_BUFFER_NUMBYTES
    ensures AllInv(ServeAll(clients, Chunks(chunks)))
  {
    hide ClientInv, Serve;
    forall i | 0 <= i < |clients|
      ensures ClientInv(ServeAll(clients, Chunks(chunks))[i])
    {
      ClientFaithful(clients[i], Chunks(chunks));
    }
  }

  lemma {:induction false} HangUpsInv(clients: seq<Client>, i: nat, hungUp: nat -> bool)
    requires AllInv(clients)
    ensures AllInv(HangUps(clients, i, hungUp))
  {
    hide ClientInv;
    if clients != [] {
      HangUpsInv(clients[1..], i + 1, hungUp);
    }
  }

  lemma {:induction false} SendsInv(clients: seq<Client>, i: nat, socket: nat -> int)
    requires AllInv(clients)
    ensures AllInv(Sends(clients, i, socket))
  {
    hide ClientInv, Happens;
    if clients != [] {
      if socket(i) >= 0 {
        ClientInvKept(clients[0], SocketTakes(socket(i)));
      }
      SendsInv(clients[1..], i + 1, socket);
    }
  }

  const NEW_CLIENT := Client([], [], [])

  lemma NewClientInv()
    ensures ClientInv(NEW_CLIENT)
  {
    assert [] + [] == NEW_CLIENT.accepted;
  }

  lemma NothingServed(clients: seq<Client>, taken: seq<byte>)
    ensures ServeAll(clients, Chunks([])) == clients && taken + Concat([]) == taken
  {
    assert Chunks([]) == [];
  }

  ghost predicate Distinct(list: seq<IoConnection>) { forall i, j :: 0 <= i < j < |list| ==> list[i] != list[j] }

  /** Every element of the list is one of the first n of the other. */
  ghost predicate Within(list: seq<IoConnection>, other: seq<IoConnection>, n: nat)
    requires n <= |other|
  {
    forall i :: 0 <= i < |list| ==> list[i] in other[..n]
  }

  ghost function Views(list: seq<IoConnection>): (clients: seq<Client>)
    reads list
    ensures |clients| == |list| && forall i :: 0 <= i < |list| ==> clients[i] == list[i].View()
  {
    if list == [] then [] else [list[0].View()] + Views(list[1..])
  }

  lemma HangUpsFirst(clients: seq<Client>, i: nat, hungUp: nat -> bool)
    requires i < |clients|
    ensures HangUps(clients[i..], i, hungUp)
         == (if hungUp(i) then [] else [clients[i]]) + HangUps(clients[i + 1..], i + 1, hungUp)
  {
    assert clients[i..][1..] == clients[i + 1..];
  }

  lemma HangUpsNone(i: nat, hungUp: nat -> bool)
    ensures HangUps([], i, hungUp) == []
  {
  }

  lemma SendsFirst(clients: seq<Client>, i: nat, socket: nat -> int)
    requires i < |clients|
    ensures Sends(clients[i..], i, socket)
         == Sent(clients[i], socket(i)) + Sends(clients[i + 1..], i + 1, socket)
  {
    assert clients[i..][1..] == clients[i + 1..];
  }

  lemma SendsNone(i: nat, socket: nat -> int)
    ensures Sends([], i, socket) == []
  {
  }

  class IoConnections {
    const shared: ThreadModeData
    var connections: seq<IoConnection>
    var serialOpen: bool

    ghost predicate Valid()
      reads this, shared, connections
    {
      && Distinct(connections) && shared.mainThread == Servicing && !shared.exitThreadRequested
      && AllInv(Views(connections))
    }

    constructor (shared: ThreadModeData)
      requires shared.mainThread == Servicing && !shared.exitThreadRequested
      ensures Valid() && this.shared == shared && connections == [] && serialOpen
    {
      this.shared, connections, serialOpen := shared, [], true;
    }

    /** Each client gets the whole chunk, unless its queue is over the threshold. */
    method QueueSerialBytesToClients(bytes: seq<byte>)
      requires Distinct(connections)
      modifies connections
      ensures Views(connections) == ServeAll(old(Views(connections)), [Chunk(bytes)])
    {
      hide Views;
      for i := 0 to |connections|
        invariant forall k :: 0 <= k < i ==> connections[k].View() == Happens(old(connections[k].View()), Chunk(bytes))
        invariant forall k :: i <= k < |connections| ==> connections[k].View() == old(connections[k].View())
      {
        if |connections[i].bytesToSend| <= QUEUE_STALLED_CLIENT_SUSPICION_THRESHOLD {
          connections[i].Enqueue(bytes);
        }
      }
      forall k | 0 <= k < |connections|
        ensures connections[k].View() == Serve(old(connections[k].View()), [Chunk(bytes)])
      {
        ServeOne(old(connections[k].View()), Chunk(bytes));
      }
    }

    /** One turn of the drain loop. */
    method RelayOnce() returns (bytes: seq<byte>)
      requires Distinct(connections) && shared.mainThread == Servicing && !shared.exitThreadRequested
      modifies shared, connections, `serialOpen
      ensures shared.mainThread == Servicing && !shared.exitThreadRequested
      ensures old(shared.serialLookahead) == bytes + shared.serialLookahead
      ensures |bytes| <= SERIAL_BUFFER_NUMBYTES
      ensures |bytes| < SERIAL_BUFFER_NUMBYTES ==> shared.serialLookahead == []
      ensures shared.taken == old(shared.taken) + bytes
      ensures serialOpen == (old(serialOpen) && bytes != [])
      ensures Views(connections) == ServeAll(old(Views(connections)), [Chunk(bytes)])
    {
      hide Views, ServeAll, Apply;
      bytes := shared.SerialReadBytes(SERIAL_BUFFER_NUMBYTES);
      if |bytes| == 0 {
        serialOpen := false;
        ServeEmpty(Views(connections));
      } else {
        QueueSerialBytesToClients(bytes);
      }
    }

    /** Reads until a read comes back short; arrivals[i] is what the serial thread adds after read i. */
    method DrainSerial(arrivals: seq<seq<byte>>) returns (ghost chunks: seq<seq<byte>>)
      requires Valid()
      modifies shared, connections, `serialOpen
      ensures chunks == Drain(old(shared.serialLookahead), arrivals)
      ensures Views(connections) == ServeAll(old(Views(connections)), Chunks(chunks))
      ensures serialOpen == (old(serialOpen) && !ClosesDevice(chunks))
      ensures shared.taken == old(shared.taken) + Concat(chunks)
      ensures shared.mainThread == Servicing && !shared.exitThreadRequested
    {
      hide Draining, Drain, ServeAll, Chunks, Views, Concat, ClientInv, Apply, Broadcast;
      ghost var start, clients, taken := shared.serialLookahead, Views(connections), shared.taken;
      chunks := [];
      var i := 0;
      DrainStarts(start, arrivals, clients, taken);
      while true
        invariant Distinct(connections) && shared.mainThread == Servicing && !shared.exitThreadRequested
        invariant serialOpen == old(serialOpen)
        invariant i <= |arrivals|
        invariant Draining(start, arrivals, clients, taken, chunks, i,
                           shared.serialLookahead, Views(connections), shared.taken)
        decreases |arrivals| - i, |shared.serialLookahead|
      {
        ghost var clients', taken' := Views(connections), shared.taken;
        var bytes := RelayOnce();
        if |bytes| != SERIAL_BUFFER_NUMBYTES {
          DrainEnds(start, arrivals, clients, taken, chunks, i, bytes, shared.serialLookahead, clients', taken');
          chunks := chunks + [bytes];
          return;
        }
        DrainContinues(start, arrivals, clients, taken, chunks, i, bytes, shared.serialLookahead, clients', taken');
        chunks := chunks + [bytes];
        var arrived := i < |arrivals|;
        var _ := shared.AppendSerial(if arrived then arrivals[i] else []);
        i := if arrived then i + 1 else i;
      }
    }

    /** recv on each readable client: an end of file or an error drops it, anything it sent is ignored. */
    method DropHungUp(hungUp: nat -> bool)
      requires Distinct(connections)
      modifies `connections
      ensures Views(connections) == HangUps(old(Views(connections)), 0, hungUp)
      ensures Distinct(connections) && Within(connections, old(connections), |old(connections)|)
    {
      hide Views, HangUps;
      ghost var clients, left := Views(connections), [];
      var all, kept := connections, [];
      for i := 0 to |all|
        invariant Distinct(kept) && Within(kept, all, i)
        invariant |left| == |kept| && forall k :: 0 <= k < |kept| ==> kept[k].View() == left[k]
        invariant HangUps(clients, 0, hungUp) == left + HangUps(clients[i..], i, hungUp)
      {
        HangUpsFirst(clients, i, hungUp);
        if !hungUp(i) {
          kept, left := kept + [all[i]], left + [clients[i]];
        }
      }
      HangUpsNone(|clients|, hungUp);
      assert clients[|clients|..] == [] && left + [] == left;
      assert Views(kept) == left;
      connections := kept;
    }

    /** send on each client with something queued: an error drops it, and what was sent leaves its queue. */
    method SendToClients(socket: nat -> int)
      requires Distinct(connections)
      modifies `connections, connections
      ensures Views(connections) == Sends(old(Views(connections)), 0, socket)
      ensures Distinct(connections) && Within(connections, old(connections), |old(connections)|)
    {
      hide Views, Sends, Sent, Happens, ClientInv, AllInv;
      ghost var clients, left := Views(connections), [];
      var all, kept := connections, [];
      for i := 0 to |all|
        invariant Distinct(kept) && Within(kept, all, i)
        invariant forall k :: i <= k < |all| ==> all[k].View() == clients[k]
        invariant |left| == |kept| && forall k :: 0 <= k < |kept| ==> kept[k].View() == left[k]
        invariant Sends(clients, 0, socket) == left + Sends(clients[i..], i, socket)
      {
        SendsFirst(clients, i, socket);
        Joined(left, Sent(clients[i], socket(i)), Sends(clients[i + 1..], i + 1, socket));
        var stays := all[i].TrySend(socket(i));
        if stays {
          kept, left := kept + [all[i]], left + [all[i].View()];
        }
      }
      SendsNone(|clients|, socket);
      assert clients[|clients|..] == [] && left + [] == left;
      assert Views(kept) == left;
      connections := kept;
    }

    method AcceptClient() returns (connection: IoConnection)
      requires Valid()
      modifies `connections
      ensures Valid() && fresh(connection) && connections == old(connections) + [connection]
      ensures Views(connections) == old(Views(connections)) + [NEW_CLIENT]
    {
      hide ClientInv, Views;
      connection := new IoConnection();
      connections := connections + [connection];
      NewClientInv();
      assert Views(connections) == old(Views(connections)) + [NEW_CLIENT];
    }

    /** Drains the serial device if isSerialReadable. */
    method RelaySerial(arrivals: seq<seq<byte>>) returns (ghost chunks: seq<seq<byte>>)
      requires Valid()
      modifies shared, connections, `serialOpen
      ensures Valid()
      ensures chunks == if old(shared.serialLookahead) == [] then [] else Drain(old(shared.serialLookahead), arrivals)
      ensures shared.taken == old(shared.taken) + Concat(chunks)
      ensures serialOpen == (old(serialOpen) && (chunks == [] || !ClosesDevice(chunks)))
      ensures Views(connections) == ServeAll(old(Views(connections)), Chunks(chunks))
    {
      hide ServeAll, Views, Chunks, ClosesDevice, Concat, Drain, ClientInv, AllInv;
      chunks := [];
      ghost var clients := Views(connections);
      if |shared.serialLookahead| > 0 {
        chunks := DrainSerial(arrivals);
      } else {
        NothingServed(clients, shared.taken);
      }
      ServeAllInv(clients, chunks);
    }

    /**
     One pass of the server once something is ready: a new client is accepted, the serial device is drained
     if it has bytes, and the clients are read from and written to. Every client that stays has been served
     exactly the chunks that were drained, and the invariant holds for it.
     */
    method ServiceConnections(newClient: bool, arrivals: seq<seq<byte>>, hungUp: nat -> bool, socket: nat -> int)
      returns (ghost chunks: seq<seq<byte>>)
      requires Valid()
      modifies this, shared, connections
      ensures Valid()
      ensures chunks == if old(shared.serialLookahead) == [] then [] else Drain(old(shared.serialLookahead), arrivals)
      ensures shared.taken == old(shared.taken) + Concat(chunks)
      ensures serialOpen == (old(serialOpen) && (chunks == [] || !ClosesDevice(chunks)))
      ensures var clients := old(Views(connections)) + if newClient then [NEW_CLIENT] else [];
              Views(connections) == Sends(HangUps(ServeAll(clients, Chunks(chunks)), 0, hungUp), 0, socket)
    {
      hide ServeAll, Sends, HangUps, Views, Chunks, ClosesDevice, Concat, Drain, ClientInv, AllInv, Distinct;
      ghost var clients := Views(connections);
      if newClient {
        var _ := AcceptClient();
      }
      assert Views(connections) == clients + if newClient then [NEW_CLIENT] else [];
      chunks := RelaySerial(arrivals);
      HangUpsInv(Views(connections), 0, hungUp);
      DropHungUp(hungUp);
      SendsInv(Views(connections), 0, socket);
      SendToClients(socket);
    }
  }
}

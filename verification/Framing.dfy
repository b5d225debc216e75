/**
 Whole-stream properties of the pull decoder's framing: independence from how the bytes arrive,
 resynchronisation, and exactly when every message of a stream is framed whole.
 */
module Framing {
  import opened Bits
  import opened NexusWire
  import opened MessageBuilder
  import opened FieldReader
  import opened PullDecoder

  lemma EventsAppend(a: seq<byte>, b: seq<byte>)
    ensures Events(a + b) == Events(a) + Run(Run(START, a).0, b).1
  {
    RunAppend(START, a, b);
  }

  lemma PrefixOf(a: seq<byte>, s: seq<byte>)
    requires a <= s
    ensures Events(a) <= Events(s)
  {
    EventsAppend(a, s[|a|..]);
    assert a + s[|a|..] == s;
  }

  /**
   Two readers of the same byte stream, over sockets that split it in any way or over a file, agree:
   one is at most behind the other, and when both have used everything up their frames are the same.
   */
  lemma ChunkIndependence(p: SliceFileParser, q: SliceFileParser)
    requires p.Valid() && q.Valid() && p.Stream() == q.Stream()
    ensures p.events <= q.events || q.events <= p.events
    ensures p.events <= Events(p.Stream())
    ensures p.Ahead() == [] ==> p.events == Events(p.Stream())
  {
    var s := p.Stream();
    PrefixOf(p.consumed, s);
    if |p.consumed| <= |q.consumed| {
      assert p.consumed == s[..|p.consumed|] && q.consumed == s[..|q.consumed|];
      PrefixOf(p.consumed, q.consumed);
    } else {
      assert p.consumed == s[..|p.consumed|] && q.consumed == s[..|q.consumed|];
      PrefixOf(q.consumed, p.consumed);
    }
    if p.Ahead() == [] { assert p.consumed == s; }
  }

  // ----- resynchronisation

  /** The flush flag is never set, so no input is ever discarded on its account. */
  lemma {:induction false} NeverFlushing(bytes: seq<byte>)
    ensures !Run(START, bytes).0.flushing && |Run(START, bytes).0.pending| < 64 == MSG_SIZE
    decreases |bytes|
  {
    if bytes != [] { NeverFlushing(bytes[..|bytes| - 1]); }
  }

  /** An end-of-message slice leaves the framer at a message boundary, whatever came before. */
  lemma FramerSynchronises(garbage: seq<byte>, end: byte, rest: seq<byte>)
    requires Mseo(end) == MSEO_END
    ensures Run(START, garbage + [end]).0 == START
    ensures Events(garbage + [end] + rest) == Events(garbage + [end]) + Events(rest)
  {
    NeverFlushing(garbage);
    RunSnoc(START, garbage, end);
    EventsAppend(garbage + [end], rest);
  }

  // ----- exact framing

  /** A message as the framer delimits it: a start slice, and only the last slice ends it. */
  predicate IsMessage(m: seq<byte>)
  {
    |m| >= 2 && StartsMessage(m[0]) && Mseo(Last(m)) == MSEO_END
    && forall i :: 0 <= i < |m| - 1 ==> Mseo(m[i]) != MSEO_END
  }

  /**
   Reading a variable field of a message always ends at a slice boundary, and at the end of the message
   exactly when the flag says so; it fails only past the end, or when the overflow check rejects the field.
   */
  lemma VarOnMessage(m: seq<byte>, bitIndex: nat)
    requires IsMessage(m)
    ensures var out := Var(m, bitIndex, false);
            out.Got? ==>
              && out.bitIndex == bitIndex + out.width && out.bitIndex % 6 == 0 && bitIndex < out.bitIndex <= 6 * |m|
              && (out.eom <==> out.bitIndex == 6 * |m|)
              && out.val == Uint64(Value(FieldBits(m)[bitIndex..out.bitIndex]))
              && Mseo(m[out.bitIndex / 6 - 1]) != MSEO_NORMAL
              && forall i :: bitIndex / 6 <= i < out.bitIndex / 6 - 1 ==> Mseo(m[i]) == MSEO_NORMAL
    ensures var out, j := Var(m, bitIndex, false), RunEnd(m, if bitIndex / 6 <= |m| then bitIndex / 6 else |m|);
            out.Failed? ==>
              if bitIndex / 6 >= |m| then out.err == EOM
              else out.err == ERR && j < |m| && !Accepted(6 * (j + 1) - bitIndex, m[j])
  {
    hide Value, FieldBits;
    if bitIndex / 6 < |m| {
      assert m[|m| - 1] == Last(m);
    }
  }

  lemma {:induction false} PendingShape(bytes: seq<byte>)
    ensures var p := Run(START, bytes).0.pending;
            && (p != [] ==> StartsMessage(p[0]))
            && forall i :: 0 <= i < |p| ==> Mseo(p[i]) != MSEO_END
    decreases |bytes|
  {
    if bytes != [] {
      PendingShape(bytes[..|bytes| - 1]);
    }
  }

  /** Whatever is framed is a message within the buffer. */
  lemma {:induction false} FramedIsMessage(bytes: seq<byte>, i: nat)
    requires i < |Events(bytes)| && Events(bytes)[i].Framed?
    ensures IsMessage(Events(bytes)[i].msg) && |Events(bytes)[i].msg| <= MSG_SIZE
    decreases |bytes|
  {
    PendingShape(bytes[..|bytes| - 1]);
    var init, last := bytes[..|bytes| - 1], bytes[|bytes| - 1];
    assert bytes == init + [last];
    RunSnoc(START, init, last);
    if i < |Events(init)| {
      FramedIsMessage(init, i);
    } else {
      NeverFlushing(init);
    }
  }

  lemma {:induction false} Unfinished(m: seq<byte>, n: nat)
    requires IsMessage(m) && 1 <= n < |m| && n < MSG_SIZE
    ensures Run(START, m[..n]) == (Framer(m[..n], false), [])
  {
    assert m[..n] == m[..n - 1] + [m[n - 1]];
    RunSnoc(START, m[..n - 1], m[n - 1]);
    if n > 1 {
      Unfinished(m, n - 1);
      assert m[..n - 1] + [m[n - 1]] == m[..n];
    } else {
      assert m[..0] == [] && m[..1] == [m[0]];
      assert Run(START, m[..0]) == (START, []);
      assert Step(START, m[0]) == (Framer([m[0]], false), []);
    }
    var none: seq<Event> := [];
    assert none + none == none;
  }

  /** One more slice of a message that the framer has collected the first n slices of. */
  lemma OneMore(m: seq<byte>, n: nat)
    requires IsMessage(m) && 1 <= n < |m| && n < MSG_SIZE
    ensures Run(START, m[..n + 1]) == Step(Framer(m[..n], false), m[n])
    ensures m[..n] + [m[n]] == m[..n + 1]
  {
    Unfinished(m, n);
    assert m[..n + 1] == m[..n] + [m[n]];
    RunSnoc(START, m[..n], m[n]);
    assert [] + Step(Framer(m[..n], false), m[n]).1 == Step(Framer(m[..n], false), m[n]).1;
  }

  /** A message within the buffer is framed as it is. */
  lemma FramedWhole(m: seq<byte>)
    requires IsMessage(m) && |m| <= MSG_SIZE
    ensures Run(START, m) == (START, [Framed(m)])
  {
    OneMore(m, |m| - 1);
    assert m[..|m|] == m;
  }

  /** A longer one is reported as an overflow and forgotten, and its remaining slices are read as a new stream. */
  lemma OverlongIsCut(m: seq<byte>)
    requires IsMessage(m) && |m| > MSG_SIZE
    ensures Events(m) == [Overflow] + Events(m[MSG_SIZE..])
    ensures Run(START, m).0 == START
  {
    hide Run, IsMessage;
    OneMore(m, MSG_SIZE - 1);
    FullBuffer(m);
    EventsAppend(m[..MSG_SIZE], m[MSG_SIZE..]);
    assert m[..MSG_SIZE] + m[MSG_SIZE..] == m;
    EndsAtBoundary(m);
  }

  lemma FullBuffer(m: seq<byte>)
    requires IsMessage(m) && |m| > MSG_SIZE
    ensures Step(Framer(m[..MSG_SIZE - 1], false), m[MSG_SIZE - 1]) == (START, [Overflow])
  {
  }

  lemma EndsAtBoundary(m: seq<byte>)
    requires IsMessage(m)
    ensures Run(START, m).0 == START
  {
    FramerSynchronises(m[..|m| - 1], Last(m), []);
    assert m[..|m| - 1] + [Last(m)] == m;
  }

  /** In particular the tail of an overlong message can pass for a message of its own. */
  lemma OverlongTailIsFramed(m: seq<byte>)
    requires IsMessage(m) && MSG_SIZE + 2 <= |m| <= 2 * MSG_SIZE && StartsMessage(m[MSG_SIZE])
    ensures Events(m) == [Overflow, Framed(m[MSG_SIZE..])]
  {
    OverlongIsCut(m);
    var tail := m[MSG_SIZE..];
    assert Last(tail) == Last(m);
    forall i | 0 <= i < |tail| - 1 ensures Mseo(tail[i]) != MSEO_END { assert tail[i] == m[MSG_SIZE + i]; }
    FramedWhole(tail);
  }

  function Frames(ms: seq<seq<byte>>): (events: seq<Event>)
    ensures |events| == |ms|
  {
    seq(|ms|, i requires 0 <= i < |ms| => Framed(ms[i]))
  }

  predicate AllMessages(ms: seq<seq<byte>>)
  {
    forall i :: 0 <= i < |ms| ==> IsMessage(ms[i])
  }

  lemma EventsOfFirst(m: seq<byte>, rest: seq<byte>)
    requires IsMessage(m)
    ensures Events(m + rest) == Events(m) + Events(rest)
  {
    assert m[..|m| - 1] + [Last(m)] == m;
    FramerSynchronises(m[..|m| - 1], Last(m), rest);
  }

  lemma {:induction false} OverflowReported(ms: seq<seq<byte>>, k: nat)
    requires AllMessages(ms) && k < |ms| && |ms[k]| > MSG_SIZE
    ensures Overflow in Events(Concat(ms))
  {
    EventsOfFirst(ms[0], Concat(ms[1..]));
    if k == 0 {
      OverlongIsCut(ms[0]);
      assert Events(Concat(ms))[0] == Overflow;
    } else {
      OverflowReported(ms[1..], k - 1);
    }
  }

  lemma {:induction false} ShortFramed(ms: seq<seq<byte>>)
    requires AllMessages(ms) && forall i :: 0 <= i < |ms| ==> |ms[i]| <= MSG_SIZE
    ensures Events(Concat(ms)) == Frames(ms)
  {
    if ms != [] {
      EventsOfFirst(ms[0], Concat(ms[1..]));
      FramedWhole(ms[0]);
      ShortFramed(ms[1..]);
      assert Frames(ms) == [Framed(ms[0])] + Frames(ms[1..]);
    }
  }

  /** A stream of messages is framed exactly if and only if none has more than 64 slices. */
  lemma ExactFraming(ms: seq<seq<byte>>)
    requires AllMessages(ms)
    ensures Events(Concat(ms)) == Frames(ms) <==> forall i :: 0 <= i < |ms| ==> |ms[i]| <= 64
  {
    if forall i :: 0 <= i < |ms| ==> |ms[i]| <= MSG_SIZE {
      ShortFramed(ms);
    } else {
      var k :| 0 <= k < |ms| && |ms[k]| > MSG_SIZE;
      OverflowReported(ms, k);
      assert Overflow !in Frames(ms);
    }
  }
}

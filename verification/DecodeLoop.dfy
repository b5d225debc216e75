/** The loop that drains the pull decoder, and what it reports for a whole input. */
module DecodeLoop {
  import opened NexusWire
  import opened FieldReader
  import opened PullDecoder
  import opened Framing
  import opened DecoderAgreement

  lemma {:induction false} EventsBounded(bytes: seq<byte>)
    ensures |Events(bytes)| <= |bytes|
    decreases |bytes|
  {
    if bytes != [] { EventsBounded(bytes[..|bytes| - 1]); }
  }

  /**
   Calls ReadNextTraceMsg, past messages without a parser, until it has nothing to read or has stored an
   error; from then on it could be called for ever and deliver nothing. For a file the reports are those of its
   whole contents; for a socket, of the bytes received so far, however they arrived, and unless there was an
   error these are at least all that had arrived when it was called.
   */
  method DecodeAll(p: SliceFileParser) returns (reports: seq<Report>)
    requires p.Valid() && p.status == OK && p.events == [] && p.srcbits <= 64
    modifies p, p.sockBuffer, p.sock, p.msg
    ensures p.Valid() && p.Stream() == old(p.Stream())
    ensures reports == Reports(p.srcbits, Events(p.consumed))
    ensures p.sock == null ==> reports == Reports(p.srcbits, Events(p.tf))
    ensures p.status == OK || p.status == EOF ==> |p.consumed| >= old(p.Arrived())
  {
    hide ParseMessage, Run, Reports, Stopped, SliceFileParser.Arrived;
    reports := [];
    NothingReported(p.srcbits);
    ghost var stream := p.Stream();
    while true
      invariant p.Valid() && p.status == OK && p.Stream() == stream
      invariant !Stopped(p.srcbits, p.events) && p.Arrived() >= old(p.Arrived())
      invariant reports == Reports(p.srcbits, p.events)
      decreases |stream| - |p.events|
    {
      ghost var before := p.events;
      var rc, haveMsg, report;
      ghost var framed;
      rc, haveMsg, report, framed := p.ReadNextTraceMsg();
      EventsBounded(p.consumed);
      if p.events != before {
        ReportsSnoc(p.srcbits, before, p.events[|before|]);
      }
      if haveMsg {
        reports := reports + [report];
      } else if rc != BM || p.status != OK {
        if p.sock == null { FileReports(p); }
        return;
      }
    }
  }

  lemma NothingReported(srcbits: nat)
    ensures Reports(srcbits, []) == [] && !Stopped(srcbits, [])
  {
  }

  lemma FileReports(p: SliceFileParser)
    requires p.Valid() && p.sock == null
    requires p.tfPos == |p.tf| || Stopped(p.srcbits, p.events)
    ensures Reports(p.srcbits, Events(p.tf)) == Reports(p.srcbits, p.events)
  {
    var rest := p.tf[p.tfPos..];
    assert p.tf == p.consumed + rest;
    EventsAppend(p.consumed, rest);
    if p.tfPos == |p.tf| {
      assert p.consumed == p.tf;
    } else {
      ReportsStop(p.srcbits, p.events, Run(Run(START, p.consumed).0, rest).1);
    }
  }
}

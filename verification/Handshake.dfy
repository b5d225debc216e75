/**
 The SWT server's main, select and serial threads, which share one mutex and one condition variable.
 A step is one critical section, from taking the mutex to releasing it or going to sleep; waiting
 threads form the wait set, which a broadcast empties. Sleepers may also wake up spuriously.
 */
module Handshake {
  import opened NexusWire

  /** Where the select thread is: waiting states are in the wait set, woken ones compete for the mutex. */
  datatype SelectPc =
    | LoopTop | AwaitRequest | RequestWoken | InSelect | HaveResult(fdSets: nat) | AwaitAck | AckWoken | Exited

  /** Main is in its service routine, or in waitUsingThreadsAndConditionVar, or closing down. */
  datatype MainPc = Servicing | AwaitIo | IoWoken | Closing

  datatype State = State(
    exitRequested: bool, requestValid: bool, responseValid: bool, responseAck: bool,
    resultSets: nat,               // what select() said, as published
    lookahead: seq<byte>,          // serial bytes not yet taken by main
    select: SelectPc, main: MainPc,
    device: seq<byte>, taken: seq<byte>,            // all bytes read from the device, and taken by main
    requests: nat, responses: nat, acks: nat)       // how often each has been signalled

  const INITIAL := State(false, false, false, false, 0, [], LoopTop, Servicing, [], [], 0, 0, 0)

  datatype Event =
    | SelectLocks                  // the select thread gets the mutex to look for a request
    | SelectReturns(fdSets: nat)   // select() returns, outside the mutex
    | SelectPublishes              // it gets the mutex to publish the result
    | SelectChecksAck              // it gets the mutex back while waiting for the acknowledgement
    | SelectSpurious
    | MainEnters                   // main gets the mutex to wait for activity
    | MainRechecks                 // main gets the mutex back while waiting
    | MainSpurious
    | MainReads(n: nat)            // main takes up to n serial bytes
    | SerialArrives(bytes: seq<byte>) // the serial thread gets the mutex after a read, possibly of nothing
    | MainCloses

  function Broadcast(s: State): State
  {
    s.(select := match s.select case AwaitRequest => RequestWoken case AwaitAck => AckWoken case pc => pc,
       main := if s.main == AwaitIo then IoWoken else s.main)
  }

  predicate Enabled(s: State, e: Event)
  {
    match e
    case SelectLocks => s.select == LoopTop || s.select == RequestWoken
    case SelectReturns(_) => s.select == InSelect
    case SelectPublishes => s.select.HaveResult?
    case SelectChecksAck => s.select == AckWoken
    case SelectSpurious => s.select == AwaitRequest || s.select == AwaitAck
    case MainEnters => s.main == Servicing
    case MainRechecks => s.main == IoWoken
    case MainSpurious => s.main == AwaitIo
    case MainReads(_) => s.main == Servicing
    case SerialArrives(_) => !s.exitRequested
    case MainCloses => s.main == Servicing
  }

  /** Main's wait predicate. */
  predicate IoReady(s: State) { s.responseValid || s.lookahead != [] }

  /** The end of main's wait: leave with an acknowledgement if there is a response, or go to sleep. */
  function MainTests(s: State): State
  {
    if !IoReady(s) then s.(main := AwaitIo)
    else if s.responseValid then
      Broadcast(s.(responseAck := true, requestValid := false, main := Servicing,
                   acks := s.acks + if s.requestValid then 1 else 0))
    else s.(main := Servicing)
  }

  /** After publishing, or on waking up: leave on exit, go on if acknowledged, or go (back) to sleep. */
  function SelectTestsAck(s: State): State
  {
    if s.exitRequested then s.(select := Exited)
    else if s.responseAck then s.(select := LoopTop)
    else s.(select := AwaitAck)
  }

  function Apply(s: State, e: Event): State
    requires Enabled(s, e)
  {
    match e
    case SelectLocks =>
      if s.exitRequested then s.(select := Exited)
      else if s.requestValid then s.(select := InSelect)
      else s.(select := AwaitRequest)
    case SelectReturns(r) => s.(select := HaveResult(r))
    case SelectPublishes =>
      SelectTestsAck(Broadcast(s.(responseAck := false, resultSets := s.select.fdSets,
                                  responseValid := true, responses := s.responses + 1)))
    case SelectChecksAck => SelectTestsAck(s)
    case SelectSpurious => s.(select := if s.select == AwaitRequest then RequestWoken else AckWoken)
    case MainEnters =>
      MainTests(if s.requestValid then s
                else Broadcast(s.(requestValid := true, responseValid := false, requests := s.requests + 1)))
    case MainRechecks => MainTests(s)
    case MainSpurious => s.(main := IoWoken)
    case MainReads(n) =>
      var k := if n < |s.lookahead| then n else |s.lookahead|;
      Broadcast(s.(lookahead := s.lookahead[k..], taken := s.taken + s.lookahead[..k]))
    case SerialArrives(bytes) =>
      Broadcast(s.(lookahead := s.lookahead + bytes, device := s.device + bytes))
    case MainCloses => Broadcast(s.(exitRequested := true, main := Closing))
  }

  // ----- invariant

  function Bit(b: bool): nat { if b then 1 else 0 }

  /** A request is out and unanswered; a response is out and unacknowledged. */
  predicate Unanswered(s: State) { s.requestValid && !s.responseValid }

  predicate Unacknowledged(s: State) { s.requestValid && s.responseValid }

  predicate Inv(s: State)
  {
    && (s.select == InSelect || s.select.HaveResult? ==> Unanswered(s))
    && (Unacknowledged(s) ==> s.select == AwaitAck || s.select == AckWoken || s.select == Exited)
    && ((s.select == AwaitAck || s.select == AckWoken) ==> (Unacknowledged(s) <==> !s.responseAck))
    && (s.select == AwaitAck ==> !s.responseAck)
    && (s.select == AwaitRequest ==> !s.requestValid)
    && (s.main == AwaitIo || s.main == IoWoken ==> s.requestValid)
    && (s.main == AwaitIo ==> !IoReady(s))
    && (s.exitRequested <==> s.main == Closing)
    && (s.select == AwaitAck || s.select == AwaitRequest ==> !s.exitRequested)
    && (s.select == Exited ==> s.exitRequested)
    && s.requests == s.responses + Bit(Unanswered(s))
    && s.responses == s.acks + Bit(Unacknowledged(s))
    && s.device == s.taken + s.lookahead
  }

  lemma InvInitial()
    ensures Inv(INITIAL)
  {
    assert [] + [] == INITIAL.device;
  }

  predicate BySelect(e: Event)
  {
    e == SelectLocks || e.SelectReturns? || e == SelectPublishes || e == SelectChecksAck || e == SelectSpurious
  }

  lemma InvKeptBySelect(s: State, e: Event)
    requires Inv(s) && Enabled(s, e) && BySelect(e)
    ensures Inv(Apply(s, e))
  {
  }

  lemma InvKeptByMain(s: State, e: Event)
    requires Inv(s) && Enabled(s, e) && (e == MainEnters || e == MainRechecks || e == MainSpurious || e == MainCloses)
    ensures Inv(Apply(s, e))
  {
  }

  lemma InvKeptByBytes(s: State, e: Event)
    requires Inv(s) && Enabled(s, e) && (e.MainReads? || e.SerialArrives?)
    ensures Inv(Apply(s, e))
  {
    match e
    case MainReads(n) =>
      var k := if n < |s.lookahead| then n else |s.lookahead|;
      assert s.taken + s.lookahead == (s.taken + s.lookahead[..k]) + s.lookahead[k..];
    case SerialArrives(bytes) =>
      assert (s.taken + s.lookahead) + bytes == s.taken + (s.lookahead + bytes);
  }

  lemma InvKept(s: State, e: Event)
    requires Inv(s) && Enabled(s, e)
    ensures Inv(Apply(s, e))
  {
    hide Inv, Enabled, Apply;
    if BySelect(e) {
      InvKeptBySelect(s, e);
    } else if e.MainReads? || e.SerialArrives? {
      InvKeptByBytes(s, e);
    } else {
      InvKeptByMain(s, e);
    }
  }

  // ----- runs

  /** The events can happen in this order from s. */
  predicate Possible(s: State, run: seq<Event>)
    decreases |run|
  {
    run == [] || (Enabled(s, run[0]) && Possible(Apply(s, run[0]), run[1..]))
  }

  function After(s: State, run: seq<Event>): State
    requires Possible(s, run)
    decreases |run|
  {
    if run == [] then s else After(Apply(s, run[0]), run[1..])
  }

  /**
   The waits: main leaves with a response or with serial bytes, and the select thread with a request, with an
   acknowledgement, or to exit; otherwise each goes to sleep and changes nothing.
   */
  lemma Waits(s: State)
    ensures s.main == IoWoken ==>
              if s.responseValid || |s.lookahead| > 0 then Apply(s, MainRechecks).main == Servicing
              else Apply(s, MainRechecks) == s.(main := AwaitIo)
    ensures s.select == LoopTop || s.select == RequestWoken ==>
              Apply(s, SelectLocks) == s.(select := if s.exitRequested then Exited
                                                   else if s.requestValid then InSelect else AwaitRequest)
    ensures s.select == AckWoken ==>
              Apply(s, SelectChecksAck) == s.(select := if s.exitRequested then Exited
                                                       else if s.responseAck then LoopTop else AwaitAck)
  {
  }

  /**
   What the threads do not decide is left open: select() may return anything at any time, bytes may arrive at any
   time before the exit, any waiting thread may wake up for no reason, and main may read or close whenever it is
   not waiting.
   */
  lemma Unconstrained(s: State, r: nat, bytes: seq<byte>, n: nat)
    ensures s.select == InSelect ==> Enabled(s, SelectReturns(r))
    ensures !s.exitRequested ==> Enabled(s, SerialArrives(bytes))
    ensures s.select == AwaitRequest || s.select == AwaitAck ==> Enabled(s, SelectSpurious)
    ensures s.main == AwaitIo ==> Enabled(s, MainSpurious) && Apply(s, MainSpurious) == s.(main := IoWoken)
    ensures s.select == AwaitRequest ==> Apply(s, SelectSpurious) == s.(select := RequestWoken)
    ensures s.select == AwaitAck ==> Apply(s, SelectSpurious) == s.(select := AckWoken)
    ensures s.main == Servicing ==> Enabled(s, MainEnters) && Enabled(s, MainReads(n)) && Enabled(s, MainCloses)
  {
  }

  lemma {:induction false} InvAfter(s: State, run: seq<Event>)
    requires Inv(s) && Possible(s, run)
    ensures Inv(After(s, run))
    decreases |run|
  {
    if run != [] {
      InvKept(s, run[0]);
      InvAfter(Apply(s, run[0]), run[1..]);
    }
  }

  ghost predicate Reachable(s: State) { exists run :: Possible(INITIAL, run) && After(INITIAL, run) == s }

  lemma ReachableInv(s: State)
    requires Reachable(s)
    ensures Inv(s)
  {
    hide Inv, Apply, Enabled;
    var run :| Possible(INITIAL, run) && After(INITIAL, run) == s;
    InvInitial();
    InvAfter(INITIAL, run);
  }

  /**
   Safety in every reachable state: the result sets are only written while a request is pending and no
   response is visible, so main never sees them change; requests run at most one ahead of responses and
   responses at most one ahead of acknowledgements, and never both; and no serial byte is lost, repeated or
   reordered.
   */
  lemma HandshakeSafe(s: State)
    requires Reachable(s)
    ensures Enabled(s, SelectPublishes) ==> s.requestValid && !s.responseValid
    ensures 0 <= s.requests - s.responses <= 1 && 0 <= s.responses - s.acks <= 1
    ensures s.requests - s.acks <= 1
    ensures s.device == s.taken + s.lookahead
  {
    hide Reachable;
    ReachableInv(s);
  }

  /** A response that main can see is not overwritten before main asks for the next one. */
  lemma {:induction false} ResultStable(s: State, run: seq<Event>)
    requires Inv(s) && s.responseValid && Possible(s, run)
    requires forall i :: 0 <= i < |run| ==> run[i] != MainEnters
    ensures After(s, run).responseValid && After(s, run).resultSets == s.resultSets
    decreases |run|
  {
    if run != [] {
      InvKept(s, run[0]);
      ResultStable(Apply(s, run[0]), run[1..]);
    }
  }

  /**
   No lost wakeup: whenever main is asleep, the select thread is in select() or on its way to publish, or it
   is running with a request it will see, or it has been woken and its own wait is over.
   */
  lemma NoLostWakeup(s: State)
    requires Reachable(s) && s.main == AwaitIo
    ensures || s.select == InSelect || s.select.HaveResult?
            || ((s.select == LoopTop || s.select == RequestWoken) && s.requestValid)
            || (s.select == AckWoken && s.responseAck)
  {
    hide Reachable;
    ReachableInv(s);
  }

  // ----- whose result it is

  /** The last return of select() in a run, or -1. */
  function LastReturn(run: seq<Event>): (i: int)
    ensures -1 <= i < |run|
    ensures i >= 0 ==> run[i].SelectReturns?
    ensures forall k :: i < k < |run| ==> !run[k].SelectReturns?
  {
    if run == [] then -1
    else if run[|run| - 1].SelectReturns? then |run| - 1 else LastReturn(run[..|run| - 1])
  }

  lemma {:induction false} PossibleSplit(s: State, a: seq<Event>, b: seq<Event>)
    requires Possible(s, a + b)
    ensures Possible(s, a) && Possible(After(s, a), b) && After(s, a + b) == After(After(s, a), b)
    decreases |a|
  {
    if a == [] {
      assert a + b == b;
    } else {
      assert (a + b)[0] == a[0] && (a + b)[1..] == a[1..] + b;
      PossibleSplit(Apply(s, a[0]), a[1..], b);
    }
  }

  /** One event later. */
  lemma LastStep(s: State, run: seq<Event>)
    requires run != [] && Possible(s, run)
    ensures var init, e := run[..|run| - 1], run[|run| - 1];
            Possible(s, init) && Enabled(After(s, init), e) && After(s, run) == Apply(After(s, init), e)
  {
    var init, last := run[..|run| - 1], [run[|run| - 1]];
    assert run == init + last && last[1..] == [];
    PossibleSplit(s, init, last);
    assert Possible(After(s, init), last) && last[0] == run[|run| - 1];
  }

  /** The last time main asked for something new, which it does when it has no request out, or -1. */
  function LastAsk(run: seq<Event>): (i: int)
    requires Possible(INITIAL, run)
    ensures -1 <= i < |run|
    ensures i >= 0 ==> run[i] == MainEnters
  {
    if run == [] then -1
    else
      LastStep(INITIAL, run);
      var init := run[..|run| - 1];
      if run[|run| - 1] == MainEnters && !After(INITIAL, init).requestValid then |run| - 1 else LastAsk(init)
  }

  /**
   What main sees is what select() said: over every run, a visible response holds the result of the last select()
   that returned, and that one returned after main's last request. So whenever main leaves its wait with a response,
   it is the answer to its own request.
   */
  lemma {:induction false} ResultIsSelects(run: seq<Event>)
    requires Possible(INITIAL, run)
    ensures var s, i, k := After(INITIAL, run), LastReturn(run), LastAsk(run);
            && (s.responseValid ==> 0 <= k < i && run[i] == SelectReturns(s.resultSets))
            && (s.select.HaveResult? ==> 0 <= k < i && run[i] == SelectReturns(s.select.fdSets))
            && (s.requestValid ==> 0 <= k)
    decreases |run|
  {
    hide Apply, Enabled, Inv, Possible, After;
    if run == [] {
      NothingYet();
    } else {
      var init, e := run[..|run| - 1], run[|run| - 1];
      LastStep(INITIAL, run);
      ResultIsSelects(init);
      InvInitial();
      InvAfter(INITIAL, init);
      StepResult(After(INITIAL, init), e);
    }
  }

  lemma NothingYet()
    ensures After(INITIAL, []) == INITIAL
  {
  }

  /** One step: a response comes from select()'s result, and that is only there while a request is out. */
  lemma StepResult(s: State, e: Event)
    requires Inv(s) && Enabled(s, e)
    ensures var t := Apply(s, e);
            && (e.SelectReturns? ==> !t.responseValid && t.select == HaveResult(e.fdSets) && s.requestValid)
            && (!e.SelectReturns? && t.select.HaveResult? ==> s.select == t.select)
            && (!e.SelectReturns? && t.responseValid ==>
                  || (s.responseValid && t.resultSets == s.resultSets)
                  || (s.select.HaveResult? && t.resultSets == s.select.fdSets))
            && (e == MainEnters && !s.requestValid ==> !t.responseValid && !t.select.HaveResult?)
            && (t.requestValid ==> s.requestValid || e == MainEnters)
  {
  }

  // ----- progress

  /** Steps of the select thread's own program; waking up spuriously is not one. */
  predicate SelectSteps(e: Event)
  {
    e == SelectLocks || e.SelectReturns? || e == SelectPublishes || e == SelectChecksAck
  }

  /** How far the select thread is from publishing, while a request is unanswered. */
  function Rank(s: State): nat
  {
    match s.select
    case HaveResult(_) => 1
    case InSelect => 2
    case LoopTop => 3
    case RequestWoken => 3
    case AckWoken => 4
    case _ => 0
  }

  predicate MainWaits(s: State) { s.main == AwaitIo || s.main == IoWoken }

  /** While main waits for nothing yet, each select step brings the answer nearer and no other step delays it. */
  lemma RankFalls(s: State, e: Event)
    requires Inv(s) && Enabled(s, e) && MainWaits(s) && !IoReady(s)
    ensures var s' := Apply(s, e);
            IoReady(s') || (MainWaits(s') && Rank(s') + Bit(SelectSteps(e)) <= Rank(s))
  {
  }

  function CountSelectSteps(run: seq<Event>): nat
  {
    if run == [] then 0 else Bit(SelectSteps(run[0])) + CountSelectSteps(run[1..])
  }

  /** Main's wait predicate is false after every step of the run. */
  predicate NeverReady(s: State, run: seq<Event>)
    requires Possible(s, run)
    decreases |run|
  {
    !IoReady(s) && (run == [] || NeverReady(Apply(s, run[0]), run[1..]))
  }

  lemma {:induction false} BoundedWait(s: State, run: seq<Event>)
    requires Inv(s) && MainWaits(s) && Possible(s, run) && NeverReady(s, run)
    ensures Rank(After(s, run)) + CountSelectSteps(run) <= Rank(s)
    decreases |run|
  {
    if run != [] {
      RankFalls(s, run[0]);
      InvKept(s, run[0]);
      BoundedWait(Apply(s, run[0]), run[1..]);
    }
  }

  /**
   No deadlock and no livelock: from every reachable state in which main waits, whatever the other threads
   do, the select thread can take at most four steps before main has something to return with, and as long
   as it has not, one of those steps is possible.
   */
  lemma WaitEnds(s: State, run: seq<Event>)
    requires Reachable(s) && MainWaits(s) && Possible(s, run) && NeverReady(s, run)
    ensures CountSelectSteps(run) <= 4
    ensures exists e :: SelectSteps(e) && Enabled(After(s, run), e)
  {
    hide Reachable, Possible, After, Apply, NeverReady, CountSelectSteps;
    ReachableInv(s);
    BoundedWait(s, run);
    InvAfter(s, run);
    StillWaiting(s, run);
    SomeSelectStep(After(s, run));
  }

  lemma SomeSelectStep(s: State)
    requires Inv(s) && MainWaits(s) && !IoReady(s)
    ensures exists e :: SelectSteps(e) && Enabled(s, e)
  {
    assert SelectSteps(SelectReturns(0));
    assert Enabled(s, SelectLocks) || Enabled(s, SelectReturns(0)) || Enabled(s, SelectPublishes)
        || Enabled(s, SelectChecksAck);
  }

  lemma {:induction false} StillWaiting(s: State, run: seq<Event>)
    requires Inv(s) && MainWaits(s) && Possible(s, run) && NeverReady(s, run)
    ensures MainWaits(After(s, run)) && !IoReady(After(s, run))
    decreases |run|
  {
    if run != [] {
      RankFalls(s, run[0]);
      InvKept(s, run[0]);
      NeverReadyFirst(s, run);
      StillWaiting(Apply(s, run[0]), run[1..]);
    }
  }

  lemma NeverReadyFirst(s: State, run: seq<Event>)
    requires run != [] && Possible(s, run) && NeverReady(s, run)
    ensures !IoReady(Apply(s, run[0]))
  {
  }

  /** Once the predicate holds, main has been woken and its next step returns, acknowledging any response. */
  lemma MainReturns(s: State)
    requires Reachable(s) && MainWaits(s) && IoReady(s)
    ensures Enabled(s, MainRechecks)
    ensures var t := Apply(s, MainRechecks);
            && t.main == Servicing && t.lookahead == s.lookahead
            && (s.responseValid ==> !t.requestValid && t.responseAck && t.acks == t.responses == t.requests)
            && (!s.responseValid ==> t.requestValid && t.acks == s.acks)
  {
    hide Reachable;
    ReachableInv(s);
  }

  // ----- the end

  /** How many steps the select thread still takes once it is asked to exit. */
  function ExitRank(s: State): nat
  {
    match s.select
    case Exited => 0
    case InSelect => 2
    case _ => 1
  }

  lemma ExitNearer(s: State, e: Event)
    requires Inv(s) && Enabled(s, e) && s.exitRequested
    ensures Apply(s, e).exitRequested && ExitRank(Apply(s, e)) + Bit(SelectSteps(e)) <= ExitRank(s)
  {
  }

  lemma {:induction false} ExitBounded(s: State, run: seq<Event>)
    requires Inv(s) && s.exitRequested && Possible(s, run)
    ensures After(s, run).exitRequested && ExitRank(After(s, run)) + CountSelectSteps(run) <= ExitRank(s)
    decreases |run|
  {
    hide Inv, Apply, Enabled;
    if run != [] {
      InvKept(s, run[0]);
      ExitNearer(s, run[0]);
      ExitBounded(Apply(s, run[0]), run[1..]);
    }
  }

  /**
   Joining the select thread ends: once main closes, the thread takes at most two more steps, and until it has
   exited it is in no wait and one of them is possible. The serial thread takes none.
   */
  lemma ExitEnds(s: State, run: seq<Event>)
    requires Reachable(s) && s.exitRequested && Possible(s, run)
    ensures CountSelectSteps(run) <= 2
    ensures var t := After(s, run);
            && (t.select == Exited || exists e :: SelectSteps(e) && Enabled(t, e))
            && t.select != AwaitRequest && t.select != AwaitAck
            && forall bytes :: !Enabled(t, SerialArrives(bytes))
  {
    hide Reachable, Possible, After, Apply, CountSelectSteps;
    ReachableInv(s);
    ExitBounded(s, run);
    InvAfter(s, run);
    var t := After(s, run);
    assert SelectSteps(SelectReturns(0));
    assert t.select == Exited || Enabled(t, SelectLocks) || Enabled(t, SelectReturns(0)) || Enabled(t, SelectPublishes)
        || Enabled(t, SelectChecksAck);
  }

  // ----- the program

  /** The state the threads share under the mutex, with one method for each critical section. */
  class ThreadModeData {
    var exitThreadRequested: bool
    var selectRequestValid: bool
    var selectResponseValid: bool
    var selectResponseAck: bool
    var selectResult: nat
    var serialLookahead: seq<byte>
    var selectThread: SelectPc
    var mainThread: MainPc
    ghost var device: seq<byte>
    ghost var taken: seq<byte>
    ghost var requests: nat
    ghost var responses: nat
    ghost var acks: nat

    ghost function View(): State
      reads this
    {
      State(exitThreadRequested, selectRequestValid, selectResponseValid, selectResponseAck, selectResult,
            serialLookahead, selectThread, mainThread, device, taken, requests, responses, acks)
    }

    constructor ()
      ensures View() == INITIAL == State(false, false, false, false, 0, [], LoopTop, Servicing, [], [], 0, 0, 0)
    {
      exitThreadRequested, selectRequestValid, selectResponseValid, selectResponseAck := false, false, false, false;
      selectResult, serialLookahead, selectThread, mainThread := 0, [], LoopTop, Servicing;
      device, taken, requests, responses, acks := [], [], 0, 0, 0;
    }

    /** pthread_cond_broadcast: everyone in the wait set wakes up. */
    method WakeAll()
      modifies `selectThread, `mainThread
      ensures View() == Broadcast(old(View()))
    {
      if selectThread == AwaitRequest {
        selectThread := RequestWoken;
      } else if selectThread == AwaitAck {
        selectThread := AckWoken;
      }
      if mainThread == AwaitIo {
        mainThread := IoWoken;
      }
    }

    /** ThreadFuncSerial, after its read returned these bytes; false when the thread is to stop. */
    method AppendSerial(bytes: seq<byte>) returns (goOn: bool)
      modifies this
      ensures goOn == !old(exitThreadRequested)
      ensures View() == if goOn then Apply(old(View()), SerialArrives(bytes)) else old(View())
      ensures goOn ==> serialLookahead == old(serialLookahead) + bytes && taken == old(taken)
      ensures exitThreadRequested == old(exitThreadRequested)
      ensures old(mainThread) == Servicing ==> mainThread == Servicing
    {
      if exitThreadRequested {
        return false;
      }
      if |bytes| > 0 {
        serialLookahead := serialLookahead + bytes;
        device := device + bytes;
      }
      assert |bytes| == 0 ==> serialLookahead + bytes == serialLookahead && device + bytes == device;
      WakeAll();
      return true;
    }

    /** ThreadFuncSelect looks for a request: at the top of its loop or after waiting for one. */
    method AwaitSelectRequest()
      requires Enabled(View(), SelectLocks)
      modifies this
      ensures View() == Apply(old(View()), SelectLocks)
    {
      if !(selectRequestValid || exitThreadRequested) {
        selectThread := AwaitRequest;
        return;
      }
      selectThread := if exitThreadRequested then Exited else InSelect;
    }

    /** ThreadFuncSelect hands over what select() returned and starts waiting for the acknowledgement. */
    method PublishSelectResult()
      requires Enabled(View(), SelectPublishes)
      modifies this
      ensures View() == Apply(old(View()), SelectPublishes)
    {
      selectResponseAck := false;
      selectResult := selectThread.fdSets;
      selectResponseValid := true;
      responses := responses + 1;
      WakeAll();
      AwaitSelectAck();
    }

    /** The test of ThreadFuncSelect's second wait, and what follows it. */
    method AwaitSelectAck()
      modifies `selectThread
      ensures View() == SelectTestsAck(old(View()))
    {
      if !(selectResponseAck || exitThreadRequested) {
        selectThread := AwaitAck;
        return;
      }
      selectThread := if exitThreadRequested then Exited else LoopTop;
    }

    /** waitUsingThreadsAndConditionVar up to its wait. */
    method RequestSelect()
      requires Enabled(View(), MainEnters)
      modifies this
      ensures View() == Apply(old(View()), MainEnters)
    {
      if !selectRequestValid {
        selectRequestValid := true;
        selectResponseValid := false;
        requests := requests + 1;
        WakeAll();
      }
      AwaitActivity();
    }

    /** The test of main's wait, and what follows it. */
    method AwaitActivity()
      modifies this
      ensures View() == MainTests(old(View()))
    {
      if !(selectResponseValid || |serialLookahead| > 0) {
        mainThread := AwaitIo;
        return;
      }
      mainThread := Servicing;
      if selectResponseValid {
        acks := acks + if selectRequestValid then 1 else 0;
        selectResponseAck := true;
        selectRequestValid := false;
        WakeAll();
      }
    }

    /** serialReadBytes in the threaded mode. */
    method SerialReadBytes(numbytes: nat) returns (bytes: seq<byte>)
      requires Enabled(View(), MainReads(numbytes))
      modifies this
      ensures View() == Apply(old(View()), MainReads(numbytes))
      ensures taken == old(taken) + bytes && old(serialLookahead) == bytes + serialLookahead && |bytes| <= numbytes
      ensures |bytes| < numbytes ==> serialLookahead == []
      ensures mainThread == Servicing && exitThreadRequested == old(exitThreadRequested)
    {
      var numread := if |serialLookahead| < numbytes then |serialLookahead| else numbytes;
      bytes := serialLookahead[..numread];
      serialLookahead := serialLookahead[numread..];
      taken := taken + bytes;
      WakeAll();
    }

    /** closeResources, as far as the threads see it. */
    method RequestExit()
      requires Enabled(View(), MainCloses)
      modifies this
      ensures View() == Apply(old(View()), MainCloses)
    {
      exitThreadRequested := true;
      mainThread := Closing;
      WakeAll();
    }

    /** One step of any thread, or of its environment. */
    method Perform(e: Event)
      requires Enabled(View(), e)
      modifies this
      ensures View() == Apply(old(View()), e)
    {
      match e
      case SelectLocks => AwaitSelectRequest();
      case SelectReturns(fdSets) => selectThread := HaveResult(fdSets);
      case SelectPublishes => PublishSelectResult();
      case SelectChecksAck => AwaitSelectAck();
      case SelectSpurious => selectThread := if selectThread == AwaitRequest then RequestWoken else AckWoken;
      case MainEnters => RequestSelect();
      case MainRechecks => AwaitActivity();
      case MainSpurious => mainThread := IoWoken;
      case MainReads(n) => var _ := SerialReadBytes(n);
      case SerialArrives(bytes) => var _ := AppendSerial(bytes);
      case MainCloses => RequestExit();
    }
  }

  /** The three threads interleaved in any way that can happen: every state on the way is reachable. */
  method Interleave(schedule: seq<Event>) returns (shared: ThreadModeData)
    requires Possible(INITIAL, schedule)
    ensures fresh(shared) && shared.View() == After(INITIAL, schedule) && Inv(shared.View())
  {
    hide Apply, Enabled, Inv;
    shared := new ThreadModeData();
    InvInitial();
    for i := 0 to |schedule|
      invariant Possible(shared.View(), schedule[i..])
      invariant After(shared.View(), schedule[i..]) == After(INITIAL, schedule)
      invariant Inv(shared.View())
    {
      InvKept(shared.View(), schedule[i]);
      assert schedule[i..][1..] == schedule[i + 1..];
      shared.Perform(schedule[i]);
    }
  }
}

/**
 The counts that branch reconstruction consumes: instruction counts, and the pending branch outcomes that
 a trace message brought, as history bits or as a number of taken or of not taken branches.
 */
module BranchCounts {
  import opened NexusWire

  /** A 64-bit word, bit 0 first. */
  type Word64 = w: seq<bool> | |w| == 64 witness seq(64, _ => false)

  function Zero(): Word64 { seq(64, _ => false) }

  // ----- messages

  /** The messages that matter, with the fields setCounts reads; resource full messages say which by a code. */
  datatype Message =
    | NoCounts
    | InstructionCount(iCnt: int)
    | ResourceFull(rCode: nat, fullICnt: int, fullHistory: Word64, notTakenCount: nat, takenCount: nat)
    | BranchHistory(iCnt: int, history: Word64)
    | Correlation(iCnt: int, cdf: nat, history: Word64)
    | Unsupported

  datatype Counts = Counts(iCnt: int, history: Word64, taken: int, notTaken: int)

  /** A 32-bit count, as an int. */
  function AsInt(n: nat): int { if n % UINT32 < UINT32 / 2 then n % UINT32 else n % UINT32 - UINT32 }

  function CountsOf(m: Message): Option<Counts>
  {
    match m
    case NoCounts => Some(Counts(0, Zero(), 0, 0))
    case InstructionCount(i) => Some(Counts(i, Zero(), 0, 0))
    case ResourceFull(rCode, i, h, notTaken, taken) =>
      if rCode == 0 then Some(Counts(i, Zero(), 0, 0))
      else if rCode == 1 then Some(Counts(0, h, 0, 0))
      else if rCode == 8 then Some(Counts(0, Zero(), 0, AsInt(notTaken)))
      else if rCode == 9 then Some(Counts(0, Zero(), AsInt(taken), 0))
      else None
    case BranchHistory(i, h) => Some(Counts(i, h, 0, 0))
    case Correlation(i, cdf, h) => Some(Counts(i, if cdf == 1 then h else Zero(), 0, 0))
    case Unsupported => None
  }

  // ----- outcomes

  /** The n lowest bits, most significant first. */
  function Below(h: Word64, n: nat): (outcomes: seq<bool>)
    requires n <= 64
    ensures |outcomes| == n && forall k :: 0 <= k < n ==> outcomes[k] == h[n - 1 - k]
  {
    if n == 0 then [] else [h[n - 1]] + Below(h, n - 1)
  }

  function Repeat(b: bool, n: int): (outcomes: seq<bool>)
    ensures |outcomes| == if n > 0 then n else 0
    decreases n
  {
    if n <= 0 then [] else [b] + Repeat(b, n - 1)
  }

  /** The stop bit, the highest that is set, or -1. */
  function Stop(h: Word64): (s: int)
    ensures -1 <= s < 64
    ensures s >= 0 ==> h[s]
    ensures forall i :: s < i < 64 ==> !h[i]
  {
    TopFrom(h, 63)
  }

  function TopFrom(h: Word64, n: int): (s: int)
    requires -1 <= n < 64
    ensures -1 <= s <= n
    ensures s >= 0 ==> h[s]
    ensures forall i :: s < i <= n ==> !h[i]
    decreases n
  {
    if n < 0 || h[n] then n else TopFrom(h, n - 1)
  }

  lemma ZeroHasNoStop(h: Word64)
    ensures h == Zero() <==> Stop(h) == -1
  {
    if Stop(h) == -1 {
      assert forall i :: 0 <= i < 64 ==> !h[i];
    } else {
      assert h[Stop(h)] && !Zero()[Stop(h)];
    }
  }

  /** The outcomes a message brings: the bits below the stop bit of its history, or so many of one kind. */
  function Brought(c: Counts): seq<bool>
  {
    if c.history != Zero() then Below(c.history, if Stop(c.history) < 0 then 0 else Stop(c.history))
    else if c.taken != 0 then Repeat(true, c.taken)
    else Repeat(false, c.notTaken)
  }

  predicate BringsPool(c: Counts) { c.history != Zero() || c.taken != 0 || c.notTaken != 0 }

  // ----- the counts of one core

  datatype Pool = Pool(iCnt: int, history: Word64, histBit: int, taken: int, notTaken: int)

  const EMPTY := Pool(0, Zero(), -1, 0, 0)

  /** Some pool is in use. */
  predicate Busy(p: Pool) { p.histBit >= 0 || p.taken != 0 || p.notTaken != 0 }

  /** At most one pool is in use, and bits are handed out from below the stop bit. */
  predicate Disciplined(p: Pool)
  {
    && p.histBit < 64
    && (p.histBit >= 0 ==> p.histBit < Stop(p.history) && p.taken == 0 && p.notTaken == 0)
    && (p.taken != 0 ==> p.notTaken == 0)
  }

  /** The outcomes still to be handed out. */
  function Pending(p: Pool): seq<bool>
    requires p.histBit < 64
  {
    if p.histBit >= 0 then Below(p.history, p.histBit + 1)
    else if p.taken > 0 then Repeat(true, p.taken)
    else Repeat(false, p.notTaken)
  }

  /** The effect of a message on its core's counts, and whether it succeeds. */
  function Set(p: Pool, m: Message): (Pool, bool)
  {
    var c := CountsOf(m);
    if c.None? then (p, false)
    else
      var q := p.(iCnt := p.iCnt + c.value.iCnt);
      if !BringsPool(c.value) then (q, true)
      else if Busy(p) then (q, false)
      else if c.value.history != Zero() then
        (q.(history := c.value.history, histBit := Stop(c.value.history) - 1), true)
      else (q.(taken := c.value.taken, notTaken := c.value.notTaken), true)
  }

  /**
   One branch outcome. The mask that picks a history bit is a 32-bit 1 shifted left: at bit 31 it is negative
   and selects all higher bits too, and beyond that the shift has no defined result.
   */
  datatype Outcome = Branch(taken: bool) | Undefined | Exhausted

  function Masked(h: Word64, n: nat): Outcome
  {
    if n < 31 then Branch(h[n])
    else if n == 31 then Branch(exists i :: 31 <= i < 64 && h[i])
    else Undefined
  }

  function Take(p: Pool): (Pool, Outcome)
  {
    if p.histBit >= 0 then (p.(histBit := p.histBit - 1), Masked(p.history, p.histBit))
    else if p.taken > 0 then (p.(taken := p.taken - 1), Branch(true))
    else if p.notTaken > 0 then (p.(notTaken := p.notTaken - 1), Branch(false))
    else (p, Exhausted)
  }

  // ----- discipline

  /**
   A message keeps the discipline. It fails exactly when it is unsupported, or brings a pool while one is in
   use; then pending outcomes are left alone, and otherwise what it brings comes after them.
   */
  lemma SetDisciplined(p: Pool, m: Message)
    requires Disciplined(p)
    ensures var (q, ok) := Set(p, m); var c := CountsOf(m);
            && Disciplined(q)
            && ok == (c.Some? && (BringsPool(c.value) ==> !Busy(p)))
            && Pending(q) == Pending(p) + (if ok then Brought(c.value) else [])
            && q.iCnt == p.iCnt + (if c.Some? then c.value.iCnt else 0)
  {
    var c := CountsOf(m);
    if c.Some? {
      ZeroHasNoStop(c.value.history);
    }
  }

  /** Outcomes are handed out in order, until there are none; exactly, from a stop bit at 31 or below. */
  lemma TakeInOrder(p: Pool)
    requires Disciplined(p) && p.histBit <= 30
    ensures var (q, o) := Take(p);
            && Disciplined(q)
            && if Pending(p) == [] then o == Exhausted && q == p
               else o == Branch(Pending(p)[0]) && Pending(q) == Pending(p)[1..]
  {
  }

  // ----- runs

  datatype Event = Arrives(m: Message) | Consume

  /** The messages that succeed bring these outcomes in all, and these are handed out. */
  function Accepted(p: Pool, run: seq<Event>): seq<bool>
    decreases |run|
  {
    if run == [] then []
    else match run[0]
      case Arrives(m) =>
        (if Set(p, m).1 && CountsOf(m).Some? then Brought(CountsOf(m).value) else []) + Accepted(Set(p, m).0, run[1..])
      case Consume => Accepted(Take(p).0, run[1..])
  }

  function HandedOut(p: Pool, run: seq<Event>): seq<Outcome>
    decreases |run|
  {
    if run == [] then []
    else match run[0]
      case Arrives(m) => HandedOut(Set(p, m).0, run[1..])
      case Consume => (if Take(p).1 == Exhausted then [] else [Take(p).1]) + HandedOut(Take(p).0, run[1..])
  }

  function After(p: Pool, run: seq<Event>): Pool
    decreases |run|
  {
    if run == [] then p
    else match run[0] case Arrives(m) => After(Set(p, m).0, run[1..]) case Consume => After(Take(p).0, run[1..])
  }

  function Branches(outcomes: seq<bool>): (bs: seq<Outcome>)
    ensures |bs| == |outcomes| && forall i :: 0 <= i < |bs| ==> bs[i] == Branch(outcomes[i])
  {
    seq(|outcomes|, i requires 0 <= i < |outcomes| => Branch(outcomes[i]))
  }

  predicate StopsLow(run: seq<Event>)
  {
    forall i :: 0 <= i < |run| && run[i].Arrives? && CountsOf(run[i].m).Some? ==>
      Stop(CountsOf(run[i].m).value.history) <= 31
  }

  /**
   Branch-pool discipline over any run: at most one pool is ever in use, and what has been handed out
   followed by what is pending is what was pending at first followed by everything accepted.
   */
  lemma {:induction false} PoolConserved(p: Pool, run: seq<Event>)
    requires Disciplined(p) && p.histBit <= 30 && StopsLow(run)
    ensures var q := After(p, run);
            && Disciplined(q) && q.histBit <= 30
            && HandedOut(p, run) + Branches(Pending(q)) == Branches(Pending(p) + Accepted(p, run))
    decreases |run|
  {
    hide Below, Repeat, CountsOf, Brought, Stop, BringsPool, Set, Take, Disciplined, Pending, StopsLow;
    if run == [] {
      assert [] + Branches(Pending(p)) == Branches(Pending(p) + []);
    } else {
      var rest := run[1..];
      RestStopsLow(run);
      DisciplinedBit(p);
      match run[0]
      case Arrives(m) =>
        SetDisciplined(p, m);
        SetStopsLow(p, m);
        var q := Set(p, m).0;
        PoolConserved(q, rest);
        DisciplinedBit(q);
        ArrivesAdds(p, run);
        assert Pending(p) + Accepted(p, run) == Pending(q) + Accepted(q, rest);
      case Consume =>
        TakeInOrder(p);
        TakeStopsLow(p);
        var (q, o) := Take(p);
        PoolConserved(q, rest);
        ConsumeConserves(Pending(p), Pending(q), o,
                         HandedOut(q, rest), Branches(Pending(After(q, rest))), Accepted(q, rest));
    }
  }

  lemma DisciplinedBit(p: Pool)
    requires Disciplined(p)
    ensures p.histBit < 64
  {
  }

  lemma RestStopsLow(run: seq<Event>)
    requires StopsLow(run) && run != []
    ensures StopsLow(run[1..])
    ensures run[0].Arrives? && CountsOf(run[0].m).Some? ==> Stop(CountsOf(run[0].m).value.history) <= 31
  {
    hide CountsOf, Stop;
  }

  lemma TakeStopsLow(p: Pool)
    requires p.histBit <= 30
    ensures Take(p).0.histBit <= 30
  {
  }

  /** A message in a run: what it brings comes after what was pending. */
  lemma ArrivesAdds(p: Pool, run: seq<Event>)
    requires Disciplined(p) && run != [] && run[0].Arrives?
    ensures var q := Set(p, run[0].m).0;
            && p.histBit < 64 && q.histBit < 64
            && Pending(p) + Accepted(p, run) == Pending(q) + Accepted(q, run[1..])
  {
    hide Below, Repeat, CountsOf, Brought, Stop, BringsPool, Set, Disciplined, Pending;
    var m := run[0].m;
    DisciplinedBit(p);
    SetDisciplined(p, m);
    DisciplinedBit(Set(p, m).0);
    var brought := if Set(p, m).1 && CountsOf(m).Some? then Brought(CountsOf(m).value) else [];
    var later := Accepted(Set(p, m).0, run[1..]);
    assert (Pending(p) + brought) + later == Pending(p) + (brought + later);
  }

  lemma SetStopsLow(p: Pool, m: Message)
    requires p.histBit <= 30 && (CountsOf(m).Some? ==> Stop(CountsOf(m).value.history) <= 31)
    ensures Set(p, m).0.histBit <= 30
  {
  }

  lemma ConsumeConserves(before: seq<bool>, after: seq<bool>, o: Outcome, handed: seq<Outcome>,
                         pending: seq<Outcome>, accepted: seq<bool>)
    requires if before == [] then o == Exhausted && after == [] else o == Branch(before[0]) && after == before[1..]
    requires handed + pending == Branches(after + accepted)
    ensures (if o == Exhausted then [] else [o]) + handed + pending == Branches(before + accepted)
  {
    if before == [] {
      assert [] + handed + pending == handed + pending;
    } else {
      assert before + accepted == [before[0]] + (after + accepted);
      assert [o] + handed + pending == [o] + (handed + pending);
      assert [o] + Branches(after + accepted) == Branches([before[0]] + (after + accepted));
    }
  }

  // ----- the limit of a history

  function TakeAll(p: Pool, n: nat): (outcomes: seq<Outcome>)
    ensures |outcomes| == n
    decreases n
  {
    if n == 0 then [] else [Take(p).1] + TakeAll(Take(p).0, n - 1)
  }

  lemma {:induction false} TakeAllBelow(p: Pool)
    requires -1 <= p.histBit <= 30 && Disciplined(p)
    ensures TakeAll(p, p.histBit + 1) == Branches(Below(p.history, p.histBit + 1))
    decreases p.histBit
  {
    hide Stop, TopFrom, Branches;
    if p.histBit >= 0 {
      TakeAllBelow(Take(p).0);
      TakeAllFirst(p, p.histBit + 1);
      BranchesFirst(p.history[p.histBit], Below(p.history, p.histBit));
    } else {
      assert Branches([]) == [];
    }
  }

  /**
   A history is handed out as it was sent if and only if its stop bit is at 31 or below, or it is at 32 and
   its first outcome happens to be taken.
   */
  lemma HistoryExact(h: Word64)
    requires h != Zero()
    ensures var p := Set(EMPTY, BranchHistory(0, h)).0;
            TakeAll(p, Stop(h)) == Branches(Below(h, Stop(h))) <==> Stop(h) <= 31 || (Stop(h) == 32 && h[31])
  {
    ZeroHasNoStop(h);
    hide Stop, TopFrom;
    var s, p := Stop(h), Set(EMPTY, BranchHistory(0, h)).0;
    if s <= 31 {
      TakeAllBelow(p);
    } else {
      TakeAllAbove(p);
    }
  }

  /** With a stop bit at 32 the first outcome always comes out as taken, and with a higher one it is not defined. */
  lemma HistoryLimit(h: Word64)
    requires Stop(h) >= 32
    ensures Take(Set(EMPTY, BranchHistory(0, h)).0).1 == if Stop(h) == 32 then Branch(true) else Undefined
  {
    ZeroHasNoStop(h);
    hide TopFrom;
  }

  lemma TakeAllAbove(p: Pool)
    requires Disciplined(p) && p.histBit == Stop(p.history) - 1 && p.histBit >= 31
    ensures TakeAll(p, p.histBit + 1) == Branches(Below(p.history, p.histBit + 1)) <==> p.histBit == 31 && p.history[31]
  {
    hide Stop, TopFrom, TakeAll, Branches;
    var h, n := p.history, p.histBit;
    TakeAllFirst(p, n + 1);
    BranchesFirst(h[n], Below(h, n));
    HeadsDiffer(Masked(h, n), TakeAll(Take(p).0, n), Branch(h[n]), Branches(Below(h, n)));
    if n == 31 {
      assert h[32];
      TakeAllBelow(Take(p).0);
    }
  }

  lemma TakeAllFirst(p: Pool, n: nat)
    requires n > 0
    ensures TakeAll(p, n) == [Take(p).1] + TakeAll(Take(p).0, n - 1)
  {
  }

  lemma BranchesFirst(first: bool, rest: seq<bool>)
    ensures Branches([first] + rest) == [Branch(first)] + Branches(rest)
  {
  }

  lemma HeadsDiffer(a: Outcome, as': seq<Outcome>, b: Outcome, bs: seq<Outcome>)
    ensures [a] + as' == [b] + bs ==> a == b
  {
    assert ([a] + as')[0] == a && ([b] + bs)[0] == b;
  }

  // ----- what each message brings

  /** A 32-bit count as an int: congruent modulo 2^32, and in range. */
  lemma AsIntIs(n: nat)
    ensures -0x8000_0000 <= AsInt(n) < 0x8000_0000 && (AsInt(n) - n) % 0x1_0000_0000 == 0
  {
  }

  /** No outcome is pending, neither of a history nor of either count. */
  predicate Idle(p: Pool) { p.histBit < 0 && p.taken == 0 && p.notTaken == 0 }

  /** From here exactly these outcomes are handed out, and then there are none. */
  predicate HandsOut(p: Pool, outcomes: seq<bool>)
    decreases |outcomes|
  {
    var (q, o) := Take(p);
    if outcomes == [] then o == Exhausted else o == Branch(outcomes[0]) && HandsOut(q, outcomes[1..])
  }

  lemma {:induction false} SameOutcomes(p: Pool, b: bool, n: nat)
    requires p.histBit < 0 && p.taken == (if b then n else 0) && p.notTaken == (if b then 0 else n)
    ensures HandsOut(p, seq(n, _ => b))
    decreases n
  {
    if n > 0 {
      SameOutcomes(Take(p).0, b, n - 1);
      assert seq(n, _ => b)[1..] == seq(n - 1, _ => b);
    }
  }

  lemma {:induction false} HistoryOutcomes(p: Pool)
    requires -1 <= p.histBit <= 30 && p.taken == 0 && p.notTaken == 0
    ensures HandsOut(p, Below(p.history, p.histBit + 1))
    decreases p.histBit
  {
    if p.histBit >= 0 {
      HistoryOutcomes(Take(p).0);
      assert Below(p.history, p.histBit + 1)[1..] == Below(p.history, p.histBit);
    }
  }

  /**
   Resource full messages, on a core with nothing pending: code 8 brings so many branches not taken, code 9 so many
   taken, code 1 the bits below the stop bit of its history, and code 0 only instructions; any other fails.
   */
  lemma ResourceFullBrings(p: Pool, iCnt: int, h: Word64, notTaken: nat, taken: nat)
    requires Idle(p) && notTaken < 0x8000_0000 && taken < 0x8000_0000
    ensures Set(p, ResourceFull(0, iCnt, h, notTaken, taken)) == (p.(iCnt := p.iCnt + iCnt), true)
    ensures var (q, ok) := Set(p, ResourceFull(8, iCnt, h, notTaken, taken));
            ok && q.iCnt == p.iCnt && HandsOut(q, seq(notTaken, _ => false))
    ensures var (q, ok) := Set(p, ResourceFull(9, iCnt, h, notTaken, taken));
            ok && q.iCnt == p.iCnt && HandsOut(q, seq(taken, _ => true))
    ensures forall rCode :: rCode !in {0, 1, 8, 9} ==>
              Set(p, ResourceFull(rCode, iCnt, h, notTaken, taken)) == (p, false)
  {
    hide HandsOut;
    SameOutcomes(Set(p, ResourceFull(8, iCnt, h, notTaken, taken)).0, false, notTaken);
    SameOutcomes(Set(p, ResourceFull(9, iCnt, h, notTaken, taken)).0, true, taken);
  }

  /**
   A history whose highest bit is s, on a core with nothing pending, brings the bits s - 1 to 0, in that order,
   with a resource full message of code 1, a branch history message, or a correlation message whose cdf is 1.
   */
  lemma HistoryBrings(p: Pool, m: Message, iCnt: int, h: Word64, s: nat)
    requires Idle(p) && s <= 31 && h[s] && forall i :: s < i < 64 ==> !h[i]
    requires || (m.ResourceFull? && m.rCode == 1 && m.fullHistory == h && iCnt == 0)
             || m == BranchHistory(iCnt, h)
             || m == Correlation(iCnt, 1, h)
    ensures var (q, ok) := Set(p, m);
            && ok && q.iCnt == p.iCnt + iCnt
            && HandsOut(q, Below(h, s))
            && forall k :: 0 <= k < s ==> Below(h, s)[k] == h[s - 1 - k]
  {
    hide HandsOut, TopFrom, Below;
    assert h != Zero() by { assert h[s] && !Zero()[s]; }
    assert Stop(h) == s;
    HistoryOutcomes(Set(p, m).0);
  }

  /** Nothing but instructions: counts without a history, and messages that have none at all. */
  lemma OthersBringNothing(p: Pool, iCnt: int, cdf: nat, h: Word64, n: nat)
    ensures Set(p, NoCounts) == (p, true)
    ensures Set(p, InstructionCount(iCnt)) == (p.(iCnt := p.iCnt + iCnt), true)
    ensures cdf != 1 ==> Set(p, Correlation(iCnt, cdf, h)) == (p.(iCnt := p.iCnt + iCnt), true)
    ensures Set(p, Unsupported) == (p, false)
    ensures Set(p, BranchHistory(iCnt, seq(64, _ => false))) == (p.(iCnt := p.iCnt + iCnt), true)
    ensures Set(p, ResourceFull(1, iCnt, seq(64, _ => false), n, n)) == (p, true)
  {
  }

  /** With outcomes pending, whatever brings more is refused, but its instructions are counted. */
  lemma BusyRefuses(p: Pool, iCnt: int, h: Word64, n: nat)
    requires !Idle(p) && h != seq(64, _ => false) && 0 < n < 0x8000_0000
    ensures Set(p, BranchHistory(iCnt, h)) == (p.(iCnt := p.iCnt + iCnt), false)
    ensures Set(p, Correlation(iCnt, 1, h)) == (p.(iCnt := p.iCnt + iCnt), false)
    ensures Set(p, ResourceFull(1, iCnt, h, n, n)) == (p, false)
    ensures Set(p, ResourceFull(8, iCnt, h, n, n)) == (p, false)
    ensures Set(p, ResourceFull(9, iCnt, h, n, n)) == (p, false)
  {
  }

  // ----- the program

  datatype CountType = COUNTTYPE_none | COUNTTYPE_i_cnt | COUNTTYPE_history | COUNTTYPE_taken | COUNTTYPE_notTaken

  class Count {
    const i_cnt: array<int>
    const history: array<Word64>
    const histBit: array<int>
    const takenCount: array<int>
    const notTakenCount: array<int>

    ghost predicate Valid()
      reads histBit
    {
      && i_cnt.Length == history.Length == histBit.Length == takenCount.Length == notTakenCount.Length == DQR_MAXCORES
      && i_cnt != histBit && i_cnt != takenCount && i_cnt != notTakenCount
      && histBit != takenCount && histBit != notTakenCount && takenCount != notTakenCount
      && forall i :: 0 <= i < DQR_MAXCORES ==> -1 <= histBit[i] < 64
    }

    /** The counts of every core. */
    ghost function Pools(): (pools: seq<Pool>)
      requires Valid()
      reads i_cnt, history, histBit, takenCount, notTakenCount
      ensures |pools| == DQR_MAXCORES
      ensures forall i :: 0 <= i < DQR_MAXCORES ==>
                pools[i] == Pool(i_cnt[i], history[i], histBit[i], takenCount[i], notTakenCount[i])
    {
      seq(DQR_MAXCORES, i requires 0 <= i < DQR_MAXCORES
                          reads i_cnt, history, histBit, takenCount, notTakenCount
                        => Pool(i_cnt[i], history[i], histBit[i], takenCount[i], notTakenCount[i]))
    }

    constructor ()
      ensures Valid() && |Pools()| == 16 && forall i :: 0 <= i < 16 ==> Pools()[i] == Pool(0, Zero(), -1, 0, 0)
      ensures fresh(i_cnt) && fresh(history) && fresh(histBit) && fresh(takenCount) && fresh(notTakenCount)
    {
      i_cnt := new int[DQR_MAXCORES](_ => 0);
      history := new Word64[DQR_MAXCORES](_ => Zero());
      histBit := new int[DQR_MAXCORES](_ => -1);
      takenCount := new int[DQR_MAXCORES](_ => 0);
      notTakenCount := new int[DQR_MAXCORES](_ => 0);
    }

    method ResetCounts(core: nat)
      requires Valid() && core < DQR_MAXCORES
      modifies i_cnt, histBit, takenCount, notTakenCount
      ensures Valid() && Pools() == old(Pools())[core := Pool(0, old(history[core]), -1, 0, 0)]
    {
      i_cnt[core] := 0;
      histBit[core] := -1;
      takenCount[core] := 0;
      notTakenCount[core] := 0;
    }

    method GetCurrentCountType(core: nat) returns (t: CountType)
      requires Valid() && core < DQR_MAXCORES
      ensures var p := Pools()[core];
              && (t == COUNTTYPE_history <==> p.histBit >= 0)
              && (t == COUNTTYPE_none || t == COUNTTYPE_i_cnt <==> Take(p).1 == Exhausted)
              && (t == COUNTTYPE_taken || t == COUNTTYPE_notTaken ==> Take(p).1 == Branch(t == COUNTTYPE_taken))
              && (t == COUNTTYPE_i_cnt <==> p.histBit < 0 && p.taken <= 0 && p.notTaken <= 0 && p.iCnt > 0)
    {
      if histBit[core] >= 0 {
        return COUNTTYPE_history;
      }
      if takenCount[core] > 0 {
        return COUNTTYPE_taken;
      }
      if notTakenCount[core] > 0 {
        return COUNTTYPE_notTaken;
      }
      t := if i_cnt[core] > 0 then COUNTTYPE_i_cnt else COUNTTYPE_none;
    }

    method SetHistory(core: nat, hist: Word64) returns (ok: bool)
      requires Valid() && core < DQR_MAXCORES
      modifies history, histBit
      ensures Valid() && ok == !old(Busy(Pools()[core]))
      ensures var p, bit := old(Pools()[core]), if Stop(hist) < 0 then -1 else Stop(hist) - 1;
              Pools() == if ok then old(Pools())[core := p.(history := hist, histBit := bit)] else old(Pools())
    {
      hide Stop, TopFrom;
      ZeroHasNoStop(hist);
      if histBit[core] >= 0 || takenCount[core] != 0 || notTakenCount[core] != 0 {
        return false;
      }
      ok := true;
      history[core] := hist;
      if hist == Zero() {
        histBit[core] := -1;
        return;
      }
      var i := 63;
      while i >= 0 && !hist[i]
        invariant -1 <= i < 64
        invariant forall k :: i < k < 64 ==> !hist[k]
      {
        i := i - 1;
      }
      assert Stop(hist) >= 0 ==> hist[Stop(hist)];
      assert i == Stop(hist);
      histBit[core] := i - 1;
    }

    method SetTakenCount(core: nat, takenCnt: int) returns (ok: bool)
      requires Valid() && core < DQR_MAXCORES
      modifies takenCount
      ensures Valid() && ok == !old(Busy(Pools()[core]))
      ensures Pools() == if ok then old(Pools())[core := old(Pools()[core]).(taken := takenCnt)] else old(Pools())
    {
      if histBit[core] >= 0 || takenCount[core] != 0 || notTakenCount[core] != 0 {
        return false;
      }
      takenCount[core] := takenCnt;
      ok := true;
    }

    method SetNotTakenCount(core: nat, notTakenCnt: int) returns (ok: bool)
      requires Valid() && core < DQR_MAXCORES
      modifies notTakenCount
      ensures Valid() && ok == !old(Busy(Pools()[core]))
      ensures Pools() == if ok then old(Pools())[core := old(Pools()[core]).(notTaken := notTakenCnt)] else old(Pools())
    {
      if histBit[core] >= 0 || takenCount[core] != 0 || notTakenCount[core] != 0 {
        return false;
      }
      notTakenCount[core] := notTakenCnt;
      ok := true;
    }

    method SetCounts(core: nat, m: Message) returns (ok: bool)
      requires Valid() && core < DQR_MAXCORES
      modifies i_cnt, history, histBit, takenCount, notTakenCount
      ensures Valid()
      ensures ok == Set(old(Pools()[core]), m).1
      ensures Pools() == old(Pools())[core := Set(old(Pools()[core]), m).0]
    {
      hide Stop, TopFrom, AsInt;
      var c := CountsOf(m);
      if c.None? {
        return false;
      }
      var tmp := c.value;
      ZeroHasNoStop(tmp.history);
      if tmp.iCnt != 0 {
        i_cnt[core] := i_cnt[core] + tmp.iCnt;
      }
      ok := true;
      if tmp.history != Zero() {
        ok := SetHistory(core, tmp.history);
      }
      if ok && tmp.taken != 0 {
        ok := SetTakenCount(core, tmp.taken);
      }
      if ok && tmp.notTaken != 0 {
        ok := SetNotTakenCount(core, tmp.notTaken);
      }
    }

    /** A history bit; with a mask that is not defined, any answer. */
    method ConsumeHistory(core: nat) returns (ok: bool, taken: bool)
      requires Valid() && core < DQR_MAXCORES
      modifies histBit
      ensures Valid()
      ensures var p := old(Pools()[core]);
              && ok == (p.histBit >= 0)
              && (ok && Take(p).1.Branch? ==> taken == Take(p).1.taken)
              && Pools() == if ok then old(Pools())[core := Take(p).0] else old(Pools())
    {
      taken := *;
      if histBit[core] < 0 {
        return false, taken;
      }
      if histBit[core] < 31 {
        taken := history[core][histBit[core]];
      } else if histBit[core] == 31 {
        taken := exists i :: 31 <= i < 64 && history[core][i];
      }
      histBit[core] := histBit[core] - 1;
      ok := true;
    }

    method ConsumeTakenCount(core: nat) returns (ok: bool)
      requires Valid() && core < DQR_MAXCORES
      modifies takenCount
      ensures Valid() && ok == (old(takenCount[core]) > 0)
      ensures var p := old(Pools()[core]);
              Pools() == if ok then old(Pools())[core := p.(taken := p.taken - 1)] else old(Pools())
    {
      ok := takenCount[core] > 0;
      takenCount[core] := if ok then takenCount[core] - 1 else takenCount[core];
    }

    method ConsumeNotTakenCount(core: nat) returns (ok: bool)
      requires Valid() && core < DQR_MAXCORES
      modifies notTakenCount
      ensures Valid() && ok == (old(notTakenCount[core]) > 0)
      ensures var p := old(Pools()[core]);
              Pools() == if ok then old(Pools())[core := p.(notTaken := p.notTaken - 1)] else old(Pools())
    {
      ok := notTakenCount[core] > 0;
      notTakenCount[core] := if ok then notTakenCount[core] - 1 else notTakenCount[core];
    }

    /** The outcome of a conditional branch, as nextAddr takes it from the pool that has one. */
    method ConsumeBranch(core: nat) returns (ok: bool, taken: bool)
      requires Valid() && core < DQR_MAXCORES
      modifies histBit, takenCount, notTakenCount
      ensures Valid()
      ensures var p := old(Pools()[core]);
              && ok == (Take(p).1 != Exhausted)
              && (Take(p).1.Branch? ==> taken == Take(p).1.taken)
              && Pools() == old(Pools())[core := Take(p).0]
    {
      taken := false;
      var t := GetCurrentCountType(core);
      match t
      case COUNTTYPE_history => ok, taken := ConsumeHistory(core);
      case COUNTTYPE_taken =>
        ok := ConsumeTakenCount(core);
        taken := true;
      case COUNTTYPE_notTaken => ok := ConsumeNotTakenCount(core);
      case _ => ok := false;
    }
  }
}

/** Reading a running 64-bit counter through two 32-bit registers. */
module PerfCounter {
  import opened NexusWire

  /** A counter that any amount of time may pass on before it is read, without wrapping around. */
  class Timer {
    var value: nat
    ghost var atLowRead: nat       // its value when the low register was last read

    ghost predicate Valid()
      reads this
    {
      value < UINT64
    }

    constructor ()
      ensures Valid()
    {
      value, atLowRead := 0, 0;
    }

    /** Register 0 is the low word, register 1 the high word. */
    method Read(register: nat) returns (word: nat)
      requires Valid() && register < 2
      modifies this
      ensures Valid() && old(value) <= value && word < UINT32
      ensures word == if register == 0 then value % UINT32 else value / UINT32
      ensures atLowRead == if register == 0 then value else old(atLowRead)
    {
      var later :| value <= later < UINT64;
      value := later;
      if register == 0 {
        atLowRead := value;
      }
      word := if register == 0 then value % UINT32 else value / UINT32;
    }
  }

  /** Between two equal high words the high word does not change, so it belongs with the low word. */
  lemma HighHeld(before: nat, v: nat, after: nat)
    requires before <= v <= after && before / UINT32 == after / UINT32
    ensures (before / UINT32) * UINT32 + v % UINT32 == v
  {
    assert before / UINT32 <= v / UINT32 <= after / UINT32;
  }

  /**
   High, low, high again, until the high words agree. The result is never torn: it is exactly what the
   counter held when its low word was last read.
   */
  method PerfReadTsCounter(masterTs: Timer?) returns (ts: nat)
    requires masterTs != null ==> masterTs.Valid()
    modifies masterTs
    ensures masterTs == null ==> ts == 0
    ensures masterTs != null ==> masterTs.Valid() && ts == masterTs.atLowRead
    ensures masterTs != null ==> old(masterTs.value) <= ts <= masterTs.value
  {
    if masterTs == null {
      return 0;
    }
    ghost var start := masterTs.value;
    while true
      invariant masterTs.Valid() && start <= masterTs.value
      decreases UINT32 - masterTs.value / UINT32
    {
      var tsH := masterTs.Read(1);
      ghost var before := masterTs.value;
      var tsL := masterTs.Read(0);
      var tsH2 := masterTs.Read(1);
      if tsH == tsH2 {
        HighHeld(before, masterTs.atLowRead, masterTs.value);
        return tsH * UINT32 + tsL;
      }
    }
  }
}

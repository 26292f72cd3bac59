/** The countdown that wraps an upstream callback (ackBarrier in
    internal/engine/engine.go), with its 32-bit counter. */
module AckBarrier {

  const TWO_31 := 0x8000_0000
  const TWO_32 := 0x1_0000_0000

  /** Two's complement wrap-around of an int32. */
  function Wrap(n: int): int {
    (n + TWO_31) % TWO_32 - TWO_31
  }

  /** How often the callback has fired after some calls of a barrier for `n`. */
  function FiredAfter(n: int, calls: nat): nat {
    if calls == 0 then 0 else FiredAfter(n, calls - 1) + if Wrap(n - calls) == 0 then 1 else 0
  }

  class Barrier {
    const n: int
    var remaining: int
    var fired: nat
    ghost var calls: nat

    ghost predicate Valid()
      reads this
    {
      remaining == Wrap(n - calls) && fired == FiredAfter(n, calls)
    }

    constructor (n: int)
      requires 0 < n < TWO_31
      ensures Valid() && this.n == n && calls == 0
    {
      this.n, remaining, fired, calls := n, n, 0, 0;
    }

    /** atomic.AddInt32(&remaining, -1), and the callback at zero. */
    method Done()
      requires Valid()
      modifies this
      ensures Valid() && calls == old(calls) + 1
    {
      remaining := Wrap(remaining - 1);
      if remaining == 0 {
        fired := fired + 1;
      }
      calls := calls + 1;
    }
  }

  lemma {:induction false} FiredOverCalls(n: int, calls: nat)
    requires 0 < n < TWO_31
    ensures calls < n ==> FiredAfter(n, calls) == 0
    ensures n <= calls < n + TWO_32 ==> FiredAfter(n, calls) == 1
    ensures n + TWO_32 <= calls ==> FiredAfter(n, calls) >= 2
  {
    if calls == 0 {
    } else {
      FiredOverCalls(n, calls - 1);
    }
  }

  /** The callback has fired exactly once if and only if all `n` managers have called,
      and fewer than a full turn of the counter has followed. Each manager calls once
      for each envelope, so the counter never comes near a second turn. */
  lemma FiresExactlyOnceIff(n: int, calls: nat)
    requires 0 < n < TWO_31
    ensures FiredAfter(n, calls) == 1 <==> n <= calls < n + TWO_32
  {
    FiredOverCalls(n, calls);
  }
}

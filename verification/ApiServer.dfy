/** The API server as far as the reconcilers depend on it: any call may fail. */
module ApiServer {

  class Server {
    /** Whether the n-th call fails, for reasons of its own. */
    const fails: nat -> bool
    var calls: nat

    constructor (fails: nat -> bool)
      ensures this.fails == fails && calls == 0
    {
      this.fails, this.calls := fails, 0;
    }

    /** No further call fails. */
    ghost predicate FailureFree()
      reads this
    {
      forall i :: calls <= i ==> !fails(i)
    }

    method Call() returns (ok: bool)
      modifies this
      ensures calls == old(calls) + 1 && ok == !fails(old(calls))
      ensures old(FailureFree()) ==> ok && FailureFree()
    {
      ok := !fails(calls);
      calls := calls + 1;
    }
  }
}

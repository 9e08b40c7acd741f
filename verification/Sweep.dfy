/** The retention sweeper. */
module Sweep {
  import opened Storage
  import Mailbox
  import Times

  const DEFAULT_MAX_AGE: int := 7 * 24 * 3600 * Times.NANOS

  /** A missing or negative age falls back to seven days. */
  function MaxAgeOf(configured: int): (age: int)
    ensures age > 0
    ensures configured > 0 ==> age == configured
    ensures configured <= 0 ==> age == 604_800_000_000_000
    ensures configured <= 0 ==> age > 2 * Mailbox.REPLAY_WINDOW + 6 * 24 * 3600 * Times.NANOS
  {
    if configured <= 0 then DEFAULT_MAX_AGE else configured
  }

  /** How many rows a sweep takes. */
  function Swept(envs: Envelopes, cutoff: int): nat {
    SubmapSize(DeleteOlder(envs, cutoff), envs);
    |envs| - |DeleteOlder(envs, cutoff)|
  }

  class Sweeper {
    const store: Store
    const maxAge: int

    constructor (store: Store, configured: int)
      ensures this.store == store && maxAge == MaxAgeOf(configured)
    {
      this.store, this.maxAge := store, MaxAgeOf(configured);
    }

    /** One cycle: old envelopes go, overdue requests expire, pairs stay. */
    method Once(now: int) returns (evicted: nat, expired: nat)
      requires store.Valid()
      modifies store`envelopes, store`requests
      ensures store.Valid()
      ensures store.envelopes == DeleteOlder(old(store.envelopes), now - maxAge)
      ensures store.requests == ExpirePending(old(store.requests), now)
      ensures evicted == Swept(old(store.envelopes), now - maxAge)
    {
      evicted := store.DeleteEnvelopesOlderThan(now - maxAge);
      expired := store.ExpirePendingRequests(now);
    }
  }
}

/**
 * `ORA::DPS#commit_transaction` (lib/ora/dps.rb): request the commit, poll
 * the transaction status, roll back and raise on failure. The code as
 * written and the corrected poller are both modelled: first as functions of
 * the store's behaviour (whether the commit request fails, and the status
 * codes it answers), then as methods on the store proved against them.
 */
module DpsCommit {
  import opened Wrappers
  import opened Exceptions
  import opened Fedora

  /** `max_retries` */
  const MAX_RETRIES: int := 5

  /** What one call of the poller does: the exception it raises, if any,
      whether it rolled the transaction back, and how many polls it made. */
  datatype CommitRun = CommitRun(raised: Option<Exception>, rolledBack: bool, polls: nat)

  const TIMED_OUT := DpsException("Transaction timed out")
  const NOT_COMMITTED := DpsException("Transaction failed to commit")

  // ---------------------------------------------------------------------
  // As written

  /** `commit_transaction(tx, uuid, current_retries)` as written. The status
      is fetched in an `ensure`, so also when the commit request raised; an
      exception from that fetch replaces the commit's. The retry cap is
      compared before the status is read. `DPSException(...)` and `transaction_commit`
      are not methods of the class, so each raise of a timeout or failure
      and the retry itself end in `NoMethodError`. */
  function AsWrittenCommit(commitRaises: bool, replies: seq<int>, currentRetries: int): (r: CommitRun)
    ensures r.polls == if replies == [] then 0 else 1
    ensures r.raised.None? <==>
      !commitRaises && currentRetries <= MAX_RETRIES && replies != [] && replies[0] == GONE
    ensures r.rolledBack ==> r.raised == Some(NoMethodError("DPSException"))
  {
    if replies == [] then CommitRun(Some(StoreError("get_transaction")), false, 0)
    else if commitRaises then CommitRun(Some(StoreError("commit")), false, 1)
    else if currentRetries > MAX_RETRIES then CommitRun(Some(NoMethodError("DPSException")), true, 1)
    else if replies[0] == GONE then CommitRun(None, false, 1)
    else if replies[0] == NO_CONTENT then CommitRun(Some(NoMethodError("transaction_commit")), false, 1)
    else CommitRun(Some(NoMethodError("DPSException")), true, 1)
  }

  /** A first reply of 204 does not lead to another poll: the call of the
      undefined `transaction_commit` raises, and nothing rolls back. */
  lemma PendingReplyEscapesWithoutRollback(replies: seq<int>, currentRetries: int)
    requires replies != [] && replies[0] == NO_CONTENT && currentRetries <= MAX_RETRIES
    ensures AsWrittenCommit(false, replies, currentRetries)
      == CommitRun(Some(NoMethodError("transaction_commit")), false, 1)
  {
  }

  /** A failure status is rolled back, but what escapes is a NoMethodError,
      not a DPSException. */
  lemma FailureReplyRaisesNoMethodError(replies: seq<int>, currentRetries: int)
    requires replies != [] && replies[0] != GONE && replies[0] != NO_CONTENT
    ensures AsWrittenCommit(false, replies, currentRetries).raised == Some(NoMethodError("DPSException"))
    ensures AsWrittenCommit(false, replies, currentRetries).rolledBack
    ensures AsWrittenCommit(false, replies, currentRetries).raised != Some(NOT_COMMITTED)
  {
  }

  /** Past the cap, even a 410 (the commit went through) is reported as a
      failure and rolled back. */
  lemma CapIgnoresCommittedStatus(replies: seq<int>, currentRetries: int)
    requires replies != [] && replies[0] == GONE && currentRetries > MAX_RETRIES
    ensures AsWrittenCommit(false, replies, currentRetries).raised.Some?
    ensures AsWrittenCommit(false, replies, currentRetries).rolledBack
  {
  }

  /** A commit request that raises escapes without a rollback. */
  lemma CommitErrorEscapesWithoutRollback(replies: seq<int>, currentRetries: int)
    ensures AsWrittenCommit(true, replies, currentRetries).raised.Some?
    ensures !AsWrittenCommit(true, replies, currentRetries).rolledBack
  {
  }

  // ---------------------------------------------------------------------
  // Corrected

  /** The poller as evidently intended: the recursion calls
      `commit_transaction` itself, the status is read before the cap is
      compared, the exceptions raised are `DPSException`s, and every failure,
      a failed commit request included, rolls back first. */
  function Commit(commitRaises: bool, replies: seq<int>, retries: nat): (r: CommitRun)
    requires retries <= MAX_RETRIES + 1
    ensures r.raised.Some? <==> r.rolledBack
    ensures r.raised.Some? ==>
      r.raised.value == NOT_COMMITTED || r.raised.value == TIMED_OUT || r.raised.value == StoreError("get_transaction")
    ensures r.polls <= |replies| && r.polls <= MAX_RETRIES + 2 - retries
    decreases MAX_RETRIES + 1 - retries
  {
    if commitRaises then CommitRun(Some(NOT_COMMITTED), true, 0)
    else if replies == [] then CommitRun(Some(StoreError("get_transaction")), true, 0)
    else if replies[0] == GONE then CommitRun(None, false, 1)
    else if retries > MAX_RETRIES then CommitRun(Some(TIMED_OUT), true, 1)
    else if replies[0] == NO_CONTENT then
      var rest := Commit(commitRaises, replies[1..], retries + 1);
      rest.(polls := rest.polls + 1)
    else CommitRun(Some(NOT_COMMITTED), true, 1)
  }

  /** A failure status before the cap is rolled back and reported as the
      failed commit it is. */
  lemma FailureReplyRollsBack(replies: seq<int>, retries: nat)
    requires retries <= MAX_RETRIES
    requires replies != [] && replies[0] != GONE && replies[0] != NO_CONTENT
    ensures Commit(false, replies, retries) == CommitRun(Some(NOT_COMMITTED), true, 1)
  {
  }

  /** `replies[j]` is a 410 preceded only by 204s. */
  ghost predicate ConfirmedAt(replies: seq<int>, j: nat)
  {
    j < |replies| && replies[j] == GONE && forall i :: 0 <= i < j ==> replies[i] == NO_CONTENT
  }

  /** The corrected poller returns normally exactly when the store answers
      204 a bounded number of times and then 410. */
  lemma {:induction false} CommitSucceedsIff(replies: seq<int>, retries: nat)
    requires retries <= MAX_RETRIES + 1
    ensures Commit(false, replies, retries).raised.None? <==>
      exists j :: 0 <= j <= MAX_RETRIES + 1 - retries && ConfirmedAt(replies, j)
    decreases MAX_RETRIES + 1 - retries
  {
    if replies != [] && replies[0] == NO_CONTENT && retries <= MAX_RETRIES {
      CommitSucceedsIff(replies[1..], retries + 1);
      if Commit(false, replies, retries).raised.None? {
        var j :| 0 <= j <= MAX_RETRIES - retries && ConfirmedAt(replies[1..], j);
        assert ConfirmedAt(replies, j + 1);
      }
      if exists j :: 0 <= j <= MAX_RETRIES + 1 - retries && ConfirmedAt(replies, j) {
        var j :| 0 <= j <= MAX_RETRIES + 1 - retries && ConfirmedAt(replies, j);
        assert j != 0;
        assert ConfirmedAt(replies[1..], j - 1);
      }
    } else if replies != [] && replies[0] != GONE {
      assert !exists j :: 0 <= j <= MAX_RETRIES + 1 - retries && ConfirmedAt(replies, j);
    } else if replies != [] {
      assert ConfirmedAt(replies, 0);
    }
  }

  /** Seven 204 replies in a row: the poller gives up, rolls back and
      raises the timeout, after reading all seven. */
  lemma {:induction false} PendingExhaustsRetries(replies: seq<int>, retries: nat)
    requires retries <= MAX_RETRIES + 1
    requires |replies| >= MAX_RETRIES + 2 - retries
    requires forall i :: 0 <= i < MAX_RETRIES + 2 - retries ==> replies[i] == NO_CONTENT
    ensures Commit(false, replies, retries) == CommitRun(Some(TIMED_OUT), true, MAX_RETRIES + 2 - retries)
    decreases MAX_RETRIES + 1 - retries
  {
    if retries <= MAX_RETRIES {
      PendingExhaustsRetries(replies[1..], retries + 1);
    }
  }

  // ---------------------------------------------------------------------
  // On the store

  /** `commit_transaction(tx, uuid, current_retries)` as written. */
  method CommitTransactionAsWritten(store: Store, currentRetries: int) returns (raised: Option<Exception>)
    requires store.Valid() && store.tx == Open
    modifies store
    ensures store.Valid()
    ensures var run := AsWrittenCommit(old(store.commitRaises), old(store.replies), currentRetries);
      && raised == run.raised
      && store.replies == old(store.replies)[run.polls..]
      && store.committed == (if old(store.replies) != [] && old(store.replies)[0] == GONE && !old(store.commitRaises)
                             then old(store.staged) else old(store.committed))
      && (if run.rolledBack then store.staged == store.committed else store.staged == old(store.staged))
      && store.rejected == old(store.rejected) && store.commitRaises == old(store.commitRaises)
  {
    var ok := store.Commit();
    var code := store.Status();
    if code.None? {
      raised := Some(StoreError("get_transaction"));
    } else if !ok {
      raised := Some(StoreError("commit"));
    } else if currentRetries > MAX_RETRIES {
      store.Rollback();
      raised := Some(NoMethodError("DPSException"));
    } else if code.value == GONE {
      raised := None;
    } else if code.value == NO_CONTENT {
      raised := Some(NoMethodError("transaction_commit"));
    } else {
      store.Rollback();
      raised := Some(NoMethodError("DPSException"));
    }
  }

  /** The corrected poller, as a loop over the store's replies. */
  method CommitTransaction(store: Store) returns (raised: Option<Exception>)
    requires store.Valid() && store.tx == Open
    modifies store
    ensures store.Valid()
    ensures var run := Commit(old(store.commitRaises), old(store.replies), 0);
      && raised == run.raised
      && store.replies == old(store.replies)[run.polls..]
      && store.committed == (if run.raised.None? then old(store.staged) else old(store.committed))
      && store.staged == store.committed
      && store.tx == (if run.raised.None? then Committed else RolledBack)
      && store.rejected == old(store.rejected) && store.commitRaises == old(store.commitRaises)
  {
    ghost var replies0 := store.replies;
    ghost var committed0, staged0 := store.committed, store.staged;
    var retries: nat := 0;
    var ok := store.Commit();
    if !ok {
      store.Rollback();
      return Some(NOT_COMMITTED);
    }
    while true
      invariant store.Valid()
      invariant 0 <= retries <= MAX_RETRIES + 1 && retries <= |replies0|
      invariant store.replies == replies0[retries..]
      invariant Commit(store.commitRaises, replies0, 0) ==
        var rest := Commit(store.commitRaises, store.replies, retries); rest.(polls := rest.polls + retries)
      invariant !store.commitRaises && store.commitRaises == old(store.commitRaises)
      invariant store.tx == CommitRequested && store.committed == committed0 && store.staged == staged0
      invariant store.rejected == old(store.rejected)
      decreases MAX_RETRIES + 1 - retries
    {
      var code := store.Status();
      if code.None? {
        store.Rollback();
        return Some(StoreError("get_transaction"));
      } else if code.value == GONE {
        return None;
      } else if retries > MAX_RETRIES {
        store.Rollback();
        return Some(TIMED_OUT);
      } else if code.value != NO_CONTENT {
        store.Rollback();
        return Some(NOT_COMMITTED);
      }
      retries := retries + 1;
      ok := store.Commit();
    }
  }
}

/** The lock counters of a shared repository and the queue of sessions in a transaction on it
    (cenrepsrv/transstate.h, shrepos.h, obsrvr_noc.h TSharedRepositoryInfo), as values. */
module Locks {
  import opened Errors
  import opened Settings

  const ENoTransaction := 0
  const EReadTransaction := 1
  const EConcurrentReadWriteTransaction := 2
  const EReadWriteTransaction := 3
  const EFailedBit := 4

  /** The two mode bits of a state, and the failed bit. */
  function ModeOf(state: nat): nat { state % 4 }

  predicate FailedState(state: nat) { (state / 4) % 2 == 1 }

  predicate ActiveState(state: nat) { state != ENoTransaction && ModeOf(state) == state }

  predicate ReadWriteState(state: nat) {
    state == EReadWriteTransaction || state == EConcurrentReadWriteTransaction
  }

  /** A queued session's transaction. */
  datatype Entry = Entry(id: int, state: nat, settings: seq<Setting>, result: int, errorKey: int) {
    predicate Active() { ActiveState(state) }

    /** SetFailed. */
    function Fail(error: int, key: int): Entry {
      Entry(id, state + EFailedBit, [], error, key)
    }
  }

  datatype Info = Info(pess: int, conc: int, queue: seq<Entry>)

  /** ReleaseTransactionLock for a transaction in the given state. */
  function Release(s: Info, state: nat): Info {
    if state == EConcurrentReadWriteTransaction then s.(conc := s.conc - 1)
    else if state == EReadTransaction then s.(pess := s.pess - 1)
    else if state == EReadWriteTransaction then s.(pess := 0)
    else s
  }

  function Start(s: Info, id: int, mode: int): (Info, int) {
    var e := Entry(id, if mode >= 0 then mode else 0, [], KErrNone, KUnspecifiedKey);
    if mode == EConcurrentReadWriteTransaction then
      (Info(s.pess, s.conc + 1, s.queue + [e]), KErrNone)
    else if mode == EReadTransaction then
      if s.pess < 0 then (s, KErrLocked) else (Info(s.pess + 1, s.conc, s.queue + [e]), KErrNone)
    else if mode == EReadWriteTransaction then
      if s.pess != 0 then (s, KErrLocked) else (Info(-1, s.conc, s.queue + [e]), KErrNone)
    else (s, KErrArgument)
  }

  /** FailTransaction for the session at position i. */
  function FailAt(s: Info, i: nat, error: int, key: int): (r: Info)
    requires i < |s.queue|
    ensures |r.queue| == |s.queue|
  {
    var e := s.queue[i];
    if e.Active() then Release(s, e.state).(queue := s.queue[i := e.Fail(error, key)]) else s
  }

  /** FailAllTransactions, for the positions below n, skipping one position (or -1). */
  function FailUpTo(s: Info, n: nat, skip: int): (r: Info)
    requires n <= |s.queue|
    ensures |r.queue| == |s.queue|
  {
    if n == 0 then s
    else
      var r := FailUpTo(s, n - 1, skip);
      if n - 1 == skip then r else FailAt(r, n - 1, KErrLocked, KUnspecifiedKey)
  }

  function Remove(s: Info, i: nat): (r: Info)
    requires i < |s.queue|
  {
    s.(queue := s.queue[..i] + s.queue[i + 1..])
  }

  /** CancelTransaction: locks released, the session out of the queue. */
  function Cancel(s: Info, i: nat): Info
    requires i < |s.queue|
  {
    Remove(Release(s, s.queue[i].state), i)
  }

  /** AttemptPromoteTransactionToReadWrite. */
  function Promote(s: Info, i: nat): (Info, int)
    requires i < |s.queue|
  {
    if s.pess == 1 then
      (Info(-1, s.conc, s.queue[i := s.queue[i].(state := EReadWriteTransaction, settings := [])]), KErrNone)
    else (s, KErrLocked)
  }

  predicate TransactionActive(s: Info) { s.pess != 0 || s.conc > 0 }

  // ----- the invariant -----

  /** How many queued transactions are in a state, one position (or none, -1) left out. */
  function Count(q: seq<Entry>, state: nat, skip: int): nat {
    if q == [] then 0
    else
      var n := |q| - 1;
      Count(q[..n], state, skip) + if n != skip && q[n].state == state then 1 else 0
  }

  predicate WellFormed(e: Entry) {
    && e.state in {1, 2, 3, 5, 6, 7}
    && Sorted(e.settings)
    && (e.Active() ==> e.result == KErrNone && e.errorKey == KUnspecifiedKey)
    && (!e.Active() ==> e.result != KErrNone && e.settings == [])
    && (e.state == EReadTransaction ==> e.settings == [])
  }

  predicate QueueOk(q: seq<Entry>) {
    && (forall i :: 0 <= i < |q| ==> WellFormed(q[i]))
    && (forall i, j :: 0 <= i < j < |q| ==> q[i].id != q[j].id)
  }

  /** The counters are the numbers of active transactions of each kind; at most one writes
      exclusively, and then none reads. */
  predicate Counters(s: Info, readers: nat, writers: nat, optimists: nat) {
    && s.conc == optimists
    && writers <= 1
    && (writers == 1 ==> readers == 0)
    && s.pess == if writers == 1 then -1 else readers
  }

  /** The counters describe the queue, except for one session that has given up its lock but
      is still marked active. */
  predicate Balanced(s: Info, skip: int) {
    Counters(s, Count(s.queue, EReadTransaction, skip), Count(s.queue, EReadWriteTransaction, skip),
             Count(s.queue, EConcurrentReadWriteTransaction, skip))
  }

  predicate LockInv(s: Info) {
    QueueOk(s.queue) && Balanced(s, -1)
  }

  lemma {:induction false} CountUpdate(q: seq<Entry>, i: nat, e: Entry, state: nat, skip: int)
    requires i < |q| && i != skip
    ensures Count(q[i := e], state, skip)
         == Count(q, state, skip) - (if q[i].state == state then 1 else 0) + (if e.state == state then 1 else 0)
  {
    var n := |q| - 1;
    if i < n {
      CountUpdate(q[..n], i, e, state, skip);
      assert q[i := e][..n] == q[..n][i := e];
    } else {
      assert q[i := e][..n] == q[..n];
    }
  }

  lemma {:induction false} CountBeyond(q: seq<Entry>, state: nat, skip: int)
    requires skip < 0 || skip >= |q|
    ensures Count(q, state, skip) == Count(q, state, -1)
  {
    if q != [] { CountBeyond(q[..|q| - 1], state, skip); }
  }

  lemma {:induction false} CountSkip(q: seq<Entry>, i: nat, state: nat)
    requires i < |q|
    ensures Count(q, state, i) == Count(q, state, -1) - (if q[i].state == state then 1 else 0)
  {
    var n := |q| - 1;
    if i < n { CountSkip(q[..n], i, state); } else { CountBeyond(q[..n], state, i); }
  }

  lemma {:induction false} CountRemove(q: seq<Entry>, i: nat, state: nat)
    requires i < |q|
    ensures Count(q[..i] + q[i + 1..], state, -1) == Count(q, state, i)
  {
    var n := |q| - 1;
    var r := q[..i] + q[i + 1..];
    if i < n {
      CountRemove(q[..n], i, state);
      assert r[..|r| - 1] == q[..n][..i] + q[..n][i + 1..];
    } else {
      assert r == q[..n];
      CountBeyond(q[..n], state, i);
    }
  }

  lemma {:induction false} CountAt(q: seq<Entry>, i: nat, skip: int)
    requires i < |q| && i != skip
    ensures Count(q, q[i].state, skip) >= 1
  {
    if i < |q| - 1 { CountAt(q[..|q| - 1], i, skip); }
  }

  lemma {:induction false} CountNone(q: seq<Entry>, state: nat, skip: int)
    requires forall i :: 0 <= i < |q| && i != skip ==> q[i].state != state
    ensures Count(q, state, skip) == 0
  {
    if q != [] { CountNone(q[..|q| - 1], state, skip); }
  }

  lemma {:induction false} CountSkipped(q: seq<Entry>, e: Entry, i: nat, state: nat)
    requires i < |q|
    ensures Count(q[i := e], state, i) == Count(q, state, i)
  {
    var n := |q| - 1;
    if i < n {
      CountSkipped(q[..n], e, i, state);
      assert q[i := e][..n] == q[..n][i := e];
    } else {
      assert q[i := e][..n] == q[..n];
    }
  }

  /** The session that is left out may change as it likes. */
  lemma BalancedSkipped(s: Info, i: nat, e: Entry)
    requires i < |s.queue| && Balanced(s, i)
    ensures Balanced(s.(queue := s.queue[i := e]), i)
  {
    CountSkipped(s.queue, e, i, EReadTransaction);
    CountSkipped(s.queue, e, i, EReadWriteTransaction);
    CountSkipped(s.queue, e, i, EConcurrentReadWriteTransaction);
  }

  // ----- what every operation keeps -----

  lemma CountAppend(q: seq<Entry>, e: Entry, state: nat)
    ensures Count(q + [e], state, -1) == Count(q, state, -1) + (if e.state == state then 1 else 0)
  {
    assert (q + [e])[..|q|] == q;
  }

  lemma StartBalances(s: Info, id: int, mode: int)
    requires Balanced(s, -1)
    ensures Balanced(Start(s, id, mode).0, -1)
  {
    var e := Entry(id, if mode >= 0 then mode else 0, [], KErrNone, KUnspecifiedKey);
    CountAppend(s.queue, e, EReadTransaction);
    CountAppend(s.queue, e, EReadWriteTransaction);
    CountAppend(s.queue, e, EConcurrentReadWriteTransaction);
  }

  lemma QueueOkAppend(q: seq<Entry>, e: Entry)
    requires QueueOk(q) && WellFormed(e)
    requires forall i :: 0 <= i < |q| ==> q[i].id != e.id
    ensures QueueOk(q + [e])
  {
  }

  lemma StartKeeps(s: Info, id: int, mode: int)
    requires LockInv(s)
    requires forall i :: 0 <= i < |s.queue| ==> s.queue[i].id != id
    ensures LockInv(Start(s, id, mode).0)
  {
    StartBalances(s, id, mode);
    if mode in {1, 2, 3} { QueueOkAppend(s.queue, Entry(id, mode, [], KErrNone, KUnspecifiedKey)); }
  }

  /** Releasing alone leaves the session the odd one out. */
  lemma ReleaseLeavesOut(s: Info, i: nat)
    requires Balanced(s, -1) && i < |s.queue|
    ensures Balanced(Release(s, s.queue[i].state), i)
  {
    CountAt(s.queue, i, -1);
    CountSkip(s.queue, i, EReadTransaction);
    CountSkip(s.queue, i, EReadWriteTransaction);
    CountSkip(s.queue, i, EConcurrentReadWriteTransaction);
  }

  /** The sanity checks of ReleaseTransactionLock hold: no counter goes below zero, and an
      exclusive lock is released only while it is held. */
  lemma ReleaseIsSane(s: Info, i: nat)
    requires Balanced(s, -1) && i < |s.queue|
    ensures var r := Release(s, s.queue[i].state);
            && r.conc >= 0
            && (s.queue[i].state == EReadTransaction ==> r.pess >= 0)
            && (s.queue[i].state == EReadWriteTransaction ==> s.pess == -1)
  {
    CountAt(s.queue, i, -1);
  }

  /** Failing a transaction releases its lock exactly once. */
  lemma FailBalances(s: Info, i: nat, error: int, key: int, skip: int)
    requires Balanced(s, skip) && i < |s.queue| && i != skip
    ensures Balanced(FailAt(s, i, error, key), skip)
  {
    var e := s.queue[i];
    if e.Active() {
      var e' := e.Fail(error, key);
      CountAt(s.queue, i, skip);
      CountUpdate(s.queue, i, e', EReadTransaction, skip);
      CountUpdate(s.queue, i, e', EReadWriteTransaction, skip);
      CountUpdate(s.queue, i, e', EConcurrentReadWriteTransaction, skip);
    }
  }

  lemma FailQueueOk(s: Info, i: nat, error: int, key: int)
    requires QueueOk(s.queue) && i < |s.queue| && error != KErrNone
    ensures QueueOk(FailAt(s, i, error, key).queue)
  {
  }

  lemma FailKeeps(s: Info, i: nat, error: int, key: int)
    requires LockInv(s) && i < |s.queue| && error != KErrNone
    ensures LockInv(FailAt(s, i, error, key))
  {
    FailQueueOk(s, i, error, key);
    FailBalances(s, i, error, key, -1);
  }

  lemma RemoveBalances(s: Info, i: nat)
    requires QueueOk(s.queue) && i < |s.queue| && Balanced(s, i)
    ensures LockInv(Remove(s, i))
  {
    CountRemove(s.queue, i, EReadTransaction);
    CountRemove(s.queue, i, EReadWriteTransaction);
    CountRemove(s.queue, i, EConcurrentReadWriteTransaction);
  }

  lemma CancelKeeps(s: Info, i: nat)
    requires LockInv(s) && i < |s.queue|
    ensures LockInv(Cancel(s, i))
  {
    ReleaseLeavesOut(s, i);
    RemoveBalances(Release(s, s.queue[i].state), i);
  }

  /** Promotion keeps the counters, and succeeds exactly for the only active reader. */
  lemma PromoteKeeps(s: Info, i: nat)
    requires LockInv(s) && i < |s.queue| && s.queue[i].state == EReadTransaction
    ensures LockInv(Promote(s, i).0)
    ensures Promote(s, i).1 == KErrNone <==> Count(s.queue, EReadTransaction, -1) == 1
  {
    CountAt(s.queue, i, -1);
    var e := s.queue[i].(state := EReadWriteTransaction, settings := []);
    CountUpdate(s.queue, i, e, EReadTransaction, -1);
    CountUpdate(s.queue, i, e, EReadWriteTransaction, -1);
    CountUpdate(s.queue, i, e, EConcurrentReadWriteTransaction, -1);
  }

  /** What FailAllTransactions does to each position. */
  lemma {:induction false} FailUpToAt(s: Info, n: nat, skip: int, j: nat)
    requires n <= |s.queue| && j < |s.queue|
    ensures FailUpTo(s, n, skip).queue[j]
         == if j < n && j != skip && s.queue[j].Active() then s.queue[j].Fail(KErrLocked, KUnspecifiedKey)
            else s.queue[j]
  {
    if n > 0 { FailUpToAt(s, n - 1, skip, j); }
  }

  lemma {:induction false} FailUpToBalances(s: Info, n: nat, skip: int)
    requires n <= |s.queue| && Balanced(s, skip)
    ensures Balanced(FailUpTo(s, n, skip), skip)
  {
    if n > 0 {
      FailUpToBalances(s, n - 1, skip);
      if n - 1 != skip { FailBalances(FailUpTo(s, n - 1, skip), n - 1, KErrLocked, KUnspecifiedKey, skip); }
    }
  }

  lemma {:induction false} FailUpToQueueOk(s: Info, n: nat, skip: int)
    requires n <= |s.queue| && QueueOk(s.queue)
    ensures QueueOk(FailUpTo(s, n, skip).queue)
  {
    if n > 0 {
      FailUpToQueueOk(s, n - 1, skip);
      if n - 1 != skip { FailQueueOk(FailUpTo(s, n - 1, skip), n - 1, KErrLocked, KUnspecifiedKey); }
    }
  }

  lemma NoneActive(s: Info, skip: int)
    requires Balanced(s, skip)
    requires forall i :: 0 <= i < |s.queue| && i != skip ==> !s.queue[i].Active()
    ensures s.pess == 0 && s.conc == 0
  {
    CountNone(s.queue, EReadTransaction, skip);
    CountNone(s.queue, EReadWriteTransaction, skip);
    CountNone(s.queue, EConcurrentReadWriteTransaction, skip);
  }

  /** FailAllTransactions with one position left out, or none. */
  function FailAll(s: Info, skip: int): (r: Info)
    ensures |r.queue| == |s.queue|
  {
    FailUpTo(s, |s.queue|, skip)
  }

  lemma FailAllMeans(s: Info, skip: int)
    requires Balanced(s, skip)
    ensures var r := FailAll(s, skip);
            && r.pess == 0 && r.conc == 0
            && forall j :: 0 <= j < |s.queue| ==>
                 r.queue[j] == if j != skip && s.queue[j].Active() then s.queue[j].Fail(KErrLocked, KUnspecifiedKey)
                               else s.queue[j]
  {
    FailUpToBalances(s, |s.queue|, skip);
    var r := FailAll(s, skip);
    forall j | 0 <= j < |s.queue|
      ensures r.queue[j] == if j != skip && s.queue[j].Active() then s.queue[j].Fail(KErrLocked, KUnspecifiedKey)
                            else s.queue[j]
    {
      FailUpToAt(s, |s.queue|, skip, j);
    }
    NoneActive(r, skip);
  }

  /** The order a commit relies on: the committer gives up its lock first, then every other
      transaction is failed; no transaction counts as active any more, although the committer
      is still marked so, and the assertion in CommitChanges holds. */
  lemma CommitOrder(s: Info, i: nat)
    requires LockInv(s) && i < |s.queue|
    ensures var r := FailAll(Release(s, s.queue[i].state), i);
            && !TransactionActive(r)
            && r.queue[i] == s.queue[i]
            && (forall j :: 0 <= j < |s.queue| && j != i ==>
                  r.queue[j] == if s.queue[j].Active() then s.queue[j].Fail(KErrLocked, KUnspecifiedKey)
                                else s.queue[j])
            && LockInv(Remove(r, i))
  {
    var s' := Release(s, s.queue[i].state);
    ReleaseLeavesOut(s, i);
    FailAllMeans(s', i);
    FailUpToBalances(s', |s.queue|, i);
    FailUpToQueueOk(s', |s.queue|, i);
    RemoveBalances(FailAll(s', i), i);
  }
}

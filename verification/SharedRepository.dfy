/** The objects that sessions share and update in place: each session's transactor, the lock
    counters with the queue of transactors, and the repository itself (cenrepsrv/shrepos.h,
    shrepos.cpp, obsrvr_noc.cpp). Every method computes the function of Locks.dfy or
    Transactions.dfy named in its contract. */
module SharedRepository {
  import opened Errors
  import opened Settings
  import opened Merge
  import opened Locks
  import opened Transactions

  class Transactor {
    const id: int
    var state: nat
    var settings: seq<Setting>
    var result: int
    var errorKey: int

    constructor (id: int)
      ensures this.id == id && !IsInTransaction()
    {
      this.id := id;
      state, settings, result, errorKey := ENoTransaction, [], KErrNone, KUnspecifiedKey;
    }

    function Value(): Entry
      reads this
    {
      Entry(id, state, settings, result, errorKey)
    }

    predicate IsInTransaction()
      reads this
    {
      state != ENoTransaction
    }

    method SetFailed(error: int, key: int)
      requires Value().Active() && error != KErrNone
      modifies this
      ensures Value() == old(Value()).Fail(error, key)
    {
      state := state + EFailedBit;
      settings, result, errorKey := [], error, key;
    }

    method PromoteToExclusiveReadWrite()
      requires state == EReadTransaction
      modifies this
      ensures Value() == old(Value()).(state := EReadWriteTransaction, settings := [])
    {
      state, settings := EReadWriteTransaction, [];
    }

    method EnterQueue(mode: nat)
      requires !IsInTransaction()
      modifies this
      ensures Value() == Entry(id, mode, [], KErrNone, KUnspecifiedKey)
    {
      state, settings, result, errorKey := mode, [], KErrNone, KUnspecifiedKey;
    }

    method Deque()
      modifies this
      ensures !IsInTransaction() && settings == []
    {
      state, settings := ENoTransaction, [];
    }
  }

  function Entries(q: seq<Transactor>): (r: seq<Entry>)
    reads q
    ensures |r| == |q| && forall i :: 0 <= i < |q| ==> r[i] == q[i].Value()
  {
    seq(|q|, i requires 0 <= i < |q| reads q => q[i].Value())
  }

  class SharedInfo {
    var pess: int
    var conc: int
    var queue: seq<Transactor>

    /** No transactor is queued twice. */
    ghost predicate Valid()
      reads this
    {
      forall i, j :: 0 <= i < j < |queue| ==> queue[i] != queue[j]
    }

    ghost predicate At(t: Transactor, i: nat)
      reads this
    {
      i < |queue| && queue[i] == t
    }

    function State(): Info
      reads this, queue
    {
      Info(pess, conc, Entries(queue))
    }

    constructor ()
      ensures Valid() && State() == Info(0, 0, [])
    {
      pess, conc, queue := 0, 0, [];
    }

    /** The assertions are the sanity checks of cenrepsrv/obsrvr_noc.cpp:927-947. */
    method ReleaseTransactionLock(t: Transactor, ghost i: nat, ghost skip: int)
      requires Valid() && At(t, i) && i != skip && Balanced(State(), skip)
      modifies this`pess, this`conc
      ensures State() == Release(old(State()), t.state)
    {
      CountAt(State().queue, i, skip);
      if t.state == EConcurrentReadWriteTransaction {
        conc := conc - 1;
        assert conc >= 0;
      } else if t.state == EReadTransaction {
        pess := pess - 1;
        assert pess >= 0;
      } else if t.state == EReadWriteTransaction {
        assert pess == -1;
        pess := 0;
      }
    }

    /** Unlinks a transactor, walking the queue from its head. */
    method Unlink(t: Transactor, ghost i: nat)
      requires Valid() && At(t, i)
      modifies this`queue
      ensures Valid() && State() == Remove(old(State()), i)
      ensures queue == old(queue[..i] + queue[i + 1..])
    {
      var n := 0;
      while queue[n] != t
        invariant n <= i && queue == old(queue)
        decreases i - n
      {
        n := n + 1;
      }
      queue := queue[..n] + queue[n + 1..];
    }

    method LeaveQueue(t: Transactor, ghost i: nat)
      requires Valid() && At(t, i)
      modifies this`queue, t
      ensures Valid() && !t.IsInTransaction() && State() == Remove(old(State()), i)
      ensures queue == old(queue[..i] + queue[i + 1..])
    {
      Unlink(t, i);
      t.Deque();
      assert t !in queue;
    }

    /** Nothing is done for a transactor that is in no transaction. */
    method CancelTransaction(t: Transactor, ghost i: nat)
      requires Valid() && Balanced(State(), -1)
      requires t.IsInTransaction() ==> At(t, i)
      modifies this, t
      ensures Valid() && !t.IsInTransaction()
      ensures queue == if old(t.IsInTransaction()) then old(queue[..i] + queue[i + 1..]) else old(queue)
      ensures State() == if old(t.IsInTransaction()) then Cancel(old(State()), i) else old(State())
    {
      if t.IsInTransaction() {
        ReleaseTransactionLock(t, i, -1);
        LeaveQueue(t, i);
      }
    }
  }

  class SharedRepository {
    const info: SharedInfo
    var settings: seq<Setting>
    var deleted: set<Key>
    var inconsistent: bool
    var disk: Disk
    var notified: seq<Key>

    constructor (info: SharedInfo, disk: Disk)
      ensures this.info == info && !inconsistent && this.disk == disk && notified == []
      ensures settings == disk.Contents() && deleted == disk.Deleted()
    {
      this.info, this.disk := info, disk;
      settings, deleted := disk.Contents(), disk.Deleted();
      inconsistent, notified := false, [];
    }

    function State(): Repo
      reads this, info, info.queue
    {
      Repo(settings, deleted, inconsistent, info.State(), disk, notified)
    }

    method StartTransaction(t: Transactor, mode: int) returns (err: int)
      requires info.Valid() && !t.IsInTransaction() && t !in info.queue
      modifies info, t
      ensures info.Valid() && (info.State(), err) == Start(old(info.State()), t.id, mode)
      ensures if err == KErrNone then info.queue == old(info.queue) + [t] else info.queue == old(info.queue)
      ensures err != KErrNone ==> t.Value() == old(t.Value())
    {
      if mode == EConcurrentReadWriteTransaction {
        info.conc := info.conc + 1;
      } else if mode == EReadTransaction {
        if info.pess < 0 { return KErrLocked; }
        info.pess := info.pess + 1;
      } else if mode == EReadWriteTransaction {
        if info.pess != 0 { return KErrLocked; }
        info.pess := -1;
      } else {
        return KErrArgument;
      }
      info.queue := info.queue + [t];
      t.EnterQueue(mode);
      assert Entries(info.queue) == old(Entries(info.queue)) + [t.Value()];
      return KErrNone;
    }

    method FailTransaction(t: Transactor, error: int, key: int, ghost i: nat, ghost skip: int) returns (err: int)
      requires info.Valid() && info.At(t, i) && error != KErrNone
      requires i != skip && Balanced(info.State(), skip)
      modifies info`pess, info`conc, t
      ensures err == error && info.State() == FailAt(old(info.State()), i, error, key)
    {
      if t.Value().Active() {
        info.ReleaseTransactionLock(t, i, skip);
        t.SetFailed(error, key);
        assert Entries(info.queue) == old(Entries(info.queue))[i := t.Value()];
      }
      return error;
    }

    method FailAllTransactions(exclude: Transactor?, ghost skip: int)
      requires info.Valid() && Balanced(info.State(), skip)
      requires forall i :: 0 <= i < |info.queue| ==> (info.queue[i] == exclude <==> i == skip)
      modifies info`pess, info`conc, info.queue
      ensures info.State() == FailAll(old(info.State()), skip)
    {
      var n := 0;
      while n < |info.queue|
        invariant n <= |info.queue|
        invariant info.State() == FailUpTo(old(info.State()), n, skip)
      {
        var t := info.queue[n];
        FailUpToBalances(old(info.State()), n, skip);
        if t != exclude {
          var _ := FailTransaction(t, KErrLocked, KUnspecifiedKey, n, skip);
        }
        n := n + 1;
      }
    }

    method AttemptPromoteTransactionToReadWrite(t: Transactor, ghost i: nat) returns (err: int)
      requires info.Valid() && info.At(t, i) && t.state == EReadTransaction && Balanced(info.State(), -1)
      modifies info`pess, t
      ensures (info.State(), err) == Promote(old(info.State()), i)
    {
      CountAt(info.State().queue, i, -1);
      assert info.pess > 0;
      if info.pess == 1 {
        t.PromoteToExclusiveReadWrite();
        info.pess := -1;
        assert Entries(info.queue) == old(Entries(info.queue))[i := t.Value()];
        return KErrNone;
      }
      return KErrLocked;
    }

    /** The precondition is what cenrepsrv/shrepos.cpp:82 asserts. */
    method CommitToFile(env: Env) returns (err: int)
      requires !TransactionActive(info.State())
      modifies this
      ensures (State(), err) == CommitChanges(old(State()), env)
    {
      inconsistent := true;
      if env.nameErr != KErrNone {
        settings := [];
        return env.nameErr;
      }
      if env.writeErr != KErrNone {
        settings := [];
        return env.writeErr;
      }
      disk := disk.(persists := Some(File(settings, deleted)));
      inconsistent := false;
      return KErrNone;
    }

    method DoCommitTransactionSettings(t: Transactor, ghost i: nat, env: Env) returns (err: int, keyInfo: int)
      requires info.Valid() && info.At(t, i) && Sorted(settings) && Balanced(info.State(), i)
      modifies this, info`pess, info`conc, info.queue
      ensures (State(), err, keyInfo) == DoCommit(old(State()), i, env)
    {
      keyInfo := KUnspecifiedKey;
      if |t.settings| == 0 {
        return KErrNone, 0;
      }
      err := MergeSettings(t, i, env);
      if |t.settings| == 0 {
        if err == KErrNone { keyInfo := 0; }
      } else if err != KErrNone {
        settings, inconsistent := [], true;
      } else {
        err, keyInfo := PersistChanges(t, i, env);
      }
    }

    method MergeSettings(t: Transactor, ghost i: nat, env: Env) returns (err: int)
      requires info.Valid() && info.At(t, i) && Sorted(settings) && Balanced(info.State(), i)
      modifies this`settings, this`deleted, t`settings
      ensures Balanced(info.State(), i)
      ensures var m := MergeAll(old(settings), old(t.settings), old(deleted), env.failAt);
              && err == m.err && t.settings == m.changes
              && State() == SetOwn(old(State()).(settings := m.items, deleted := m.deleted), i, m.changes)
    {
      settings, t.settings, deleted, err := MergeTransaction(settings, t.settings, deleted, env.failAt);
      ghost var e := old(t.Value()).(settings := t.settings);
      assert Entries(info.queue) == old(Entries(info.queue))[i := e];
      BalancedSkipped(old(info.State()), i, e);
    }

    method PersistChanges(t: Transactor, ghost i: nat, env: Env) returns (err: int, keyInfo: int)
      requires info.Valid() && info.At(t, i) && Balanced(info.State(), i)
      modifies this, info`pess, info`conc, info.queue
      ensures (State(), err, keyInfo) == Persist(old(State()), i, old(t.settings), env)
    {
      ghost var s, changes := info.State(), t.settings;
      FailAllMeans(s, i);
      FailAllTransactions(t, i);
      assert t.settings == info.State().queue[i].settings == changes;
      err := CommitToFile(env);
      keyInfo := KUnspecifiedKey;
      if err == KErrNone {
        NotifyAll(t.settings);
        keyInfo := |t.settings|;
      }
    }

    method NotifyAll(changes: seq<Setting>)
      modifies this`notified
      ensures notified == old(notified) + KeysOf(changes)
    {
      for n := 0 to |changes|
        invariant notified == old(notified) + KeysOf(changes)[..n]
      {
        notified := notified + [changes[n].key];
      }
      assert KeysOf(changes)[..|changes|] == KeysOf(changes);
    }

    /** Everything but leaving the queue. */
    method ConcludeTransaction(t: Transactor, ghost i: nat, env: Env) returns (err: int, keyInfo: int)
      requires info.Valid() && info.At(t, i) && Sorted(settings) && LockInv(info.State())
      modifies this, info`pess, info`conc, info.queue
      ensures (State(), err, keyInfo) == Conclude(old(State()), i, env)
    {
      err := t.result;
      assert WellFormed(info.State().queue[i]);
      if FailedState(t.state) {
        assert err != KErrNone;
        keyInfo := t.errorKey;
      } else {
        assert err == KErrNone && t.errorKey == KUnspecifiedKey;
        keyInfo := 0;
        ReleaseLeavesOut(info.State(), i);
        info.ReleaseTransactionLock(t, i, -1);
        if ReadWriteState(t.state) && |t.settings| > 0 {
          err, keyInfo := DoCommitTransactionSettings(t, i, env);
        }
      }
    }

    method CommitTransaction(t: Transactor, ghost i: nat, env: Env) returns (err: int, keyInfo: int)
      requires info.Valid() && info.At(t, i) && Sorted(settings) && LockInv(info.State())
      modifies this, info, info.queue
      ensures info.Valid() && !t.IsInTransaction()
      ensures info.queue == old(info.queue[..i] + info.queue[i + 1..])
      ensures (State(), err, keyInfo) == Commit(old(State()), i, env)
    {
      err, keyInfo := ConcludeTransaction(t, i, env);
      info.LeaveQueue(t, i);
    }

    /** Reads the file's list of deleted keys, ascending, into the one in memory. */
    method InternalizeDeleted(listed: set<Key>) returns (err: int)
      modifies this`deleted
      ensures err == if old(deleted) !! listed then KErrNone else KErrAlreadyExists
      ensures deleted == old(deleted)
                         + set k | k in listed && forall d :: d in listed && d in old(deleted) ==> k < d
    {
      var rest := listed;
      while rest != {}
        invariant rest <= listed && deleted == old(deleted) + (listed - rest)
        invariant forall k, d :: k in listed - rest && d in rest ==> k < d
        invariant old(deleted) !! listed - rest
      {
        var k := Least(rest);
        if k in deleted { return KErrAlreadyExists; }
        deleted := deleted + {k};
        rest := rest - {k};
      }
      return KErrNone;
    }

    /** Reloads the array after a failed commit. */
    method RestoreConsistency() returns (err: int)
      modifies this
      ensures (State(), err) == Restore(old(State()))
    {
      if !inconsistent { return KErrNone; }
      match disk.persists {
        case None =>
          settings := disk.defaults;
        case Some(f) =>
          settings := f.settings;
          err := InternalizeDeleted(f.deleted);
          if err != KErrNone {
            disk := disk.(persists := None);
            return KErrCorrupt;
          }
      }
      inconsistent := false;
      return KErrNone;
    }
  }

  method Least(s: set<Key>) returns (k: Key)
    requires s != {}
    ensures k in s && forall d :: d in s ==> k <= d
  {
    k :| k in s;
    var rest := s - {k};
    while rest != {}
      invariant rest <= s && k in s
      invariant forall d :: d in s && d !in rest ==> k <= d
    {
      var d :| d in rest;
      if d < k { k := d; }
      rest := rest - {d};
    }
  }
}

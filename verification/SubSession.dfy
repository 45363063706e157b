/** One session's requests on the shared repository (cenrepsrv/srvsubsess.cpp,
    srvrepos_noc.h). */
module SubSession {
  import opened Errors
  import opened Settings
  import opened Overlay
  import opened Operations
  import opened DeleteRange
  import opened Locks
  import opened Transactions
  import opened Commits
  import opened Sessions
  import opened SharedRepository


  class ServerSubSession {
    const transactor: Transactor
    const repository: SharedRepository

    constructor (transactor: Transactor, repository: SharedRepository)
      ensures this.transactor == transactor && this.repository == repository
    {
      this.transactor, this.repository := transactor, repository;
    }

    /** The session is queued at position i, or, for -1, in no transaction. */
    ghost predicate Valid(i: int)
      reads this, transactor, repository, repository.info, repository.info.queue
    {
      && repository.info.Valid() && Transactions.Valid(repository.State())
      && !repository.inconsistent
      && -1 <= i < |repository.info.queue|
      && if i < 0 then transactor.state == ENoTransaction && Absent(repository.State(), transactor.id)
         else repository.info.queue[i] == transactor
    }

    /** A read shows the transaction's own settings over the persistent ones. */
    method Get(k: Key, ghost i: int) returns (s: Option<Setting>)
      requires Valid(i)
      ensures s == View(repository.settings, if i < 0 then [] else transactor.settings, k)
    {
      var readWrite := ReadWriteState(transactor.state);
      OwnOfReader(i);
      s := Visible(GetSetting(repository.settings, transactor.settings, readWrite, k));
    }

    lemma OwnOfReader(i: int)
      requires Valid(i)
      ensures i >= 0 && !ReadWriteState(transactor.state) ==> transactor.settings == []
    {
      if i >= 0 { assert WellFormed(repository.State().info.queue[i]); }
    }

    /** TransactionDeleteRangeL and its neighbours, one per kind of request. */
    method ServerFunction(op: WriteOp, ghost i: nat) returns (reply: Reply)
      requires repository.info.Valid() && repository.info.At(transactor, i)
      requires Transactions.Valid(repository.State()) && transactor.Value().Active()
      requires OpOk(op, repository.settings, transactor.settings)
      modifies repository.info`pess, repository.info`conc, transactor
      ensures (repository.State(), reply) == RunOp(old(repository.State()), i, op)
    {
      SortedEntries(repository.State().info.queue);
      if transactor.state == EReadTransaction {
        var err := repository.FailTransaction(transactor, KErrLocked, op.key, i, -1);
        return Returned(err);
      }
      RunOpShape(repository.State(), i, op);
      var fails;
      fails, reply := OperateAt(op, i);
      if fails { var _ := repository.FailTransaction(transactor, reply.code, op.key, i, -1); }
    }

    method OperateAt(op: WriteOp, ghost i: nat) returns (fails: bool, reply: Reply)
      requires repository.info.Valid() && repository.info.At(transactor, i)
      requires Transactions.Valid(repository.State()) && ReadWriteState(transactor.state)
      requires OpOk(op, repository.settings, transactor.settings)
      modifies transactor
      ensures LockInv(repository.info.State())
      ensures var r := old(repository.State());
              var o := Apply(op, r.settings, old(transactor.settings));
              repository.State() == SetOwn(r, i, o.own) && fails == o.fails && reply == o.reply
    {
      ghost var r := repository.State();
      fails, reply := Operate(op);
      SetOwnKeeps(r, i, transactor.settings);
      assert Entries(repository.info.queue) == old(Entries(repository.info.queue))[i := transactor.Value()];
    }

    /** The operation itself, on the transaction's own settings. */
    method Operate(op: WriteOp) returns (fails: bool, reply: Reply)
      requires Sorted(repository.settings) && Sorted(transactor.settings)
      requires OpOk(op, repository.settings, transactor.settings)
      modifies transactor
      ensures OpResult(transactor.settings, reply, fails)
              == Apply(op, repository.settings, old(transactor.settings))
      ensures transactor.Value() == old(transactor.Value()).(settings := transactor.settings)
    {
      var p, t := repository.settings, transactor.settings;
      match op {
        case Set(k, v, meta) =>
          var o := SetSetting(p, t, k, v, meta);
          transactor.settings := o.own;
          return o.err != KErrNone, Returned(o.err);
        case Create(k, v, meta) =>
          var o := CreateSetting(p, t, k, v, meta);
          transactor.settings := o.own;
          return o.err != KErrNone, Returned(o.err);
        case Delete(k) =>
          var o := DeleteSetting(p, t, k);
          transactor.settings := o.own;
          return false, Returned(o.err);
        case DeleteRange(_, _, found) =>
          var own, err := DeleteSettingsRange(found, p, t);
          transactor.settings := own;
          return false, Returned(err);
        case Denied(_, error) =>
          return true, Returned(error);
        case LeavesMidway(_, error, own) =>
          transactor.settings := own;
          return false, Left(error);
      }
    }

    /** A reader that is about to write asks for the exclusive lock. */
    method PromoteReader(ghost i: nat)
      requires Valid(i) && transactor.Value().Active()
      modifies repository.info`pess, transactor
      ensures repository.info.Valid() && Transactions.Valid(repository.State()) && transactor.Value().Active()
      ensures transactor.settings == old(transactor.settings)
      ensures var r := old(repository.State());
              repository.State()
              == if old(transactor.state) == EReadTransaction then r.(info := Promote(r.info, i).0) else r
    {
      if transactor.state == EReadTransaction {
        PromoteOnlyAt(repository.State(), i);
        OwnOfReader(i);
        var _ := repository.AttemptPromoteTransactionToReadWrite(transactor, i);
        assert transactor.Value() == repository.State().info.queue[i];
      }
    }

    /** A write in an active transaction; ServiceError fails the transaction when it leaves. */
    method WriteInTransaction(op: WriteOp, ghost i: nat) returns (reply: Reply)
      requires Valid(i) && transactor.Value().Active()
      requires OpOk(op, repository.settings, transactor.settings)
      modifies repository.info`pess, repository.info`conc, transactor
      ensures Shape(old(repository.State()))
      ensures (repository.State(), reply) == WriteInside(old(repository.State()), i, op)
    {
      OwnOfReader(i);
      PromoteReader(i);
      reply := ServeOrFail(op, i);
    }

    method ServeOrFail(op: WriteOp, ghost i: nat) returns (reply: Reply)
      requires repository.info.Valid() && repository.info.At(transactor, i)
      requires Transactions.Valid(repository.State()) && transactor.Value().Active()
      requires OpOk(op, repository.settings, transactor.settings)
      modifies repository.info`pess, repository.info`conc, transactor
      ensures EntriesSorted(old(repository.State()).info.queue)
      ensures var (r, x) := RunOp(old(repository.State()), i, op);
              (repository.State(), reply)
              == (if x.Left? then r.(info := FailAt(r.info, i, x.code, KUnspecifiedKey)) else r, x)
    {
      RunOpKeeps(repository.State(), i, op);
      reply := ServerFunction(op, i);
      if reply.Left? {
        var _ := repository.FailTransaction(transactor, reply.code, KUnspecifiedKey, i, -1);
      }
    }

    /** A write outside a transaction runs as a temporary concurrent transaction. */
    method WriteInTemporaryTransaction(op: WriteOp, env: Env) returns (reply: Reply)
      requires Valid(-1) && OpOk(op, repository.settings, [])
      modifies repository, repository.info, repository.info.queue, transactor
      ensures transactor.state == ENoTransaction && repository.info.queue == old(repository.info.queue)
      ensures (repository.State(), reply) == WriteOutside(old(repository.State()), transactor.id, op, env)
    {
      ghost var r, n := repository.State(), |repository.info.queue|;
      OutsideShape(r, transactor.id, op, env);
      StartTemporaryTransaction();
      reply := ServeTemporary(op, env, n);
    }

    method ServeTemporary(op: WriteOp, env: Env, ghost n: nat) returns (reply: Reply)
      requires repository.info.Valid() && repository.info.At(transactor, n)
      requires Transactions.Valid(repository.State()) && transactor.Value().Active()
      requires OpOk(op, repository.settings, transactor.settings)
      modifies repository, repository.info, repository.info.queue, transactor
      ensures transactor.state == ENoTransaction && EntriesSorted(old(repository.State()).info.queue)
      ensures repository.info.queue == old(repository.info.queue[..n] + repository.info.queue[n + 1..])
      ensures var (r, x) := RunOp(old(repository.State()), n, op);
              (repository.State(), reply) == EndTemporary(r, x, n, env)
    {
      RunOpKeeps(repository.State(), n, op);
      reply := ServerFunction(op, n);
      reply := EndTemporaryTransaction(reply, env, n);
    }

    method StartTemporaryTransaction()
      requires Valid(-1)
      modifies repository.info, transactor
      ensures repository.info.Valid() && repository.info.queue == old(repository.info.queue) + [transactor]
      ensures repository.State() == WithTemp(old(repository.State()), transactor.id, [])
      ensures Transactions.Valid(repository.State()) && transactor.Value() == TempEntry(transactor.id, [])
    {
      NotQueued();
      TempValid(repository.State(), transactor.id, []);
      var _ := repository.StartTransaction(transactor, EConcurrentReadWriteTransaction);
    }

    lemma NotQueued()
      requires Valid(-1)
      ensures transactor !in repository.info.queue
    {
    }

    /** Cancelled if the operation left, committed if it returned. */
    method EndTemporaryTransaction(reply: Reply, env: Env, ghost n: nat) returns (reply': Reply)
      requires repository.info.Valid() && repository.info.At(transactor, n) && transactor.IsInTransaction()
      requires Transactions.Valid(repository.State())
      modifies repository, repository.info, repository.info.queue, transactor
      ensures transactor.state == ENoTransaction
      ensures repository.info.queue == old(repository.info.queue[..n] + repository.info.queue[n + 1..])
      ensures (repository.State(), reply') == EndTemporary(old(repository.State()), reply, n, env)
    {
      if reply.Left? {
        repository.info.CancelTransaction(transactor, n);
        return reply;
      }
      var err, _ := repository.CommitTransaction(transactor, n, env);
      return if err != KErrNone then Left(err) else reply;
    }

    method WriteOperations(op: WriteOp, env: Env, backup: Backup, ghost i: int) returns (reply: Reply)
      requires Valid(i) && OpOk(op, repository.settings, if i < 0 then [] else transactor.settings)
      modifies repository, repository.info, repository.info.queue, transactor
      ensures Shape(old(repository.State()))
      ensures if i >= 0 && FailedState(old(transactor.state)) then
                repository.State() == old(repository.State()) && reply == Returned(KErrAbort)
              else if i >= 0 && !backup.NoBackupActivity? then
                && reply == Returned(KErrAbort)
                && repository.State() == old(repository.State()).(info :=
                     FailAt(old(repository.State()).info, i, KErrLocked, KUnspecifiedKey))
              else if !backup.NoBackupActivity? then
                repository.State() == old(repository.State()) && reply == Returned(KErrServerBusy)
              else if i >= 0 then (repository.State(), reply) == WriteInside(old(repository.State()), i, op)
              else (repository.State(), reply) == WriteOutside(old(repository.State()), transactor.id, op, env)
    {
      if i >= 0 { assert WellFormed(repository.State().info.queue[i]); }
      if FailedState(transactor.state) {
        return Returned(KErrAbort);
      } else if transactor.IsInTransaction() && !backup.NoBackupActivity? {
        var _ := repository.FailTransaction(transactor, KErrLocked, KUnspecifiedKey, i, -1);
        return Returned(KErrAbort);
      } else if !backup.NoBackupActivity? {
        return Returned(KErrServerBusy);
      }
      if transactor.IsInTransaction() {
        reply := WriteInTransaction(op, i);
      } else {
        reply := WriteInTemporaryTransaction(op, env);
      }
    }
  }

  lemma RunOpKeeps(r: Repo, i: nat, op: WriteOp)
    requires Transactions.Valid(r) && i < |r.info.queue| && r.info.queue[i].Active()
    requires OpOk(op, r.settings, r.info.queue[i].settings)
    ensures EntriesSorted(r.info.queue) && Transactions.Valid(RunOp(r, i, op).0)
  {
    if r.info.queue[i].state == EReadTransaction {
      RunOpReader(r, i, op);
    } else {
      RunOpWriter(r, i, op);
    }
  }
}

/** The requests of one session: writes inside and outside a transaction, and what each request
    leaves of the other sessions' transactions (cenrepsrv/srvsubsess.cpp). */
module Sessions {
  import opened Errors
  import opened Settings
  import opened DeleteRange
  import opened Locks
  import opened Transactions
  import opened Commits

  // ----- small steps -----

  lemma SetOwnKeeps(s: Repo, i: nat, own: seq<Setting>)
    requires LockInv(s.info) && i < |s.info.queue| && Sorted(own)
    requires ReadWriteState(s.info.queue[i].state)
    ensures LockInv(SetOwn(s, i, own).info)
  {
    var e := s.info.queue[i].(settings := own);
    CountUpdate(s.info.queue, i, e, EReadTransaction, -1);
    CountUpdate(s.info.queue, i, e, EReadWriteTransaction, -1);
    CountUpdate(s.info.queue, i, e, EConcurrentReadWriteTransaction, -1);
  }

  /** An operation that reports an error without failing the transaction has not touched it. */
  lemma ErrorLeavesOwn(op: WriteOp, p: seq<Setting>, t: seq<Setting>)
    requires Sorted(p) && Sorted(t) && OpOk(op, p, t)
    ensures var o := Apply(op, p, t);
            o.reply.Returned? && o.reply.code != KErrNone && !o.fails ==> o.own == t
  {
    if op.DeleteRange? && op.found == [] {
      RangeReached(op.found, p, t);
      assert DeleteFound(op.found, 0, p, t, t) == t;
    }
  }

  /** The repository is the same but for position i of the queue and the counters. */
  ghost predicate OnlyAt(r: Repo, i: nat, r': Repo) {
    && r' == r.(info := r'.info)
    && i < |r.info.queue| == |r'.info.queue|
    && r'.info.queue[i].id == r.info.queue[i].id
    && forall j :: 0 <= j < |r.info.queue| && j != i ==> r'.info.queue[j] == r.info.queue[j]
  }

  lemma FailOnlyAt(r: Repo, i: nat, error: int, key: int)
    requires Valid(r) && i < |r.info.queue| && error != KErrNone
    ensures var r' := r.(info := FailAt(r.info, i, error, key));
            Valid(r') && OnlyAt(r, i, r') && !r'.info.queue[i].Active()
  {
    FailKeeps(r.info, i, error, key);
    SortedEntries(FailAt(r.info, i, error, key).queue);
  }

  lemma SetOwnOnlyAt(r: Repo, i: nat, own: seq<Setting>)
    requires Valid(r) && i < |r.info.queue| && Sorted(own) && ReadWriteState(r.info.queue[i].state)
    ensures var r' := SetOwn(r, i, own);
            Valid(r') && OnlyAt(r, i, r') && r'.info.queue[i] == r.info.queue[i].(settings := own)
  {
    SetOwnKeeps(r, i, own);
    SortedEntries(SetOwn(r, i, own).info.queue);
  }

  // ----- a write inside a transaction -----

  /** What becomes of a writer's transaction: failed for the operation's error and key, failed for
      what the operation left with, or active with exactly the operation's effect. */
  function WriterAfter(e: Entry, op: WriteOp, o: OpResult): Entry {
    if o.fails then e.Fail(o.reply.code, op.key)
    else if o.reply.Left? then e.Fail(o.reply.code, KUnspecifiedKey)
    else e.(settings := o.own)
  }

  predicate OnlyReader(r: Repo, i: nat)
    requires i < |r.info.queue|
  {
    r.info.queue[i].state == EReadTransaction && Count(r.info.queue, EReadTransaction, -1) == 1
  }

  /** The session's transaction afterwards. A reader that is not alone has failed; one that is
      alone has been promoted. */
  ghost predicate WroteOrFailed(r: Repo, i: nat, op: WriteOp, r': Repo, reply: Reply)
    requires Sorted(r.settings) && i < |r.info.queue| && Sorted(r.info.queue[i].settings)
    requires OpOk(op, r.settings, r.info.queue[i].settings)
  {
    && Valid(r') && OnlyAt(r, i, r')
    && var e := r.info.queue[i];
       var o := Apply(op, r.settings, e.settings);
       if e.state == EReadTransaction && !OnlyReader(r, i) then
         reply == Returned(KErrLocked) && r'.info.queue[i] == e.Fail(KErrLocked, op.key)
       else
         var w := if e.state == EReadTransaction then e.(state := EReadWriteTransaction) else e;
         reply == o.reply && r'.info.queue[i] == WriterAfter(w, op, o)
  }

  /** So it is either no longer active, or active for writing with the operation's effect. */
  lemma WroteIfActive(r: Repo, i: nat, op: WriteOp, r': Repo, reply: Reply)
    requires Sorted(r.settings) && i < |r.info.queue| && WellFormed(r.info.queue[i]) && r.info.queue[i].Active()
    requires OpOk(op, r.settings, r.info.queue[i].settings) && WroteOrFailed(r, i, op, r', reply)
    ensures var e', o := r'.info.queue[i], Apply(op, r.settings, r.info.queue[i].settings);
            e'.Active() ==> ReadWriteState(e'.state) && !o.fails && o.reply == reply && reply.Returned?
                            && e'.settings == o.own
  {
  }

  lemma RunOpReader(r: Repo, i: nat, op: WriteOp)
    requires Valid(r) && i < |r.info.queue| && r.info.queue[i].state == EReadTransaction
    requires OpOk(op, r.settings, r.info.queue[i].settings)
    ensures var x := RunOp(r, i, op);
            && Valid(x.0) && OnlyAt(r, i, x.0) && x.1 == Returned(KErrLocked)
            && x.0.info.queue[i] == r.info.queue[i].Fail(KErrLocked, op.key)
  {
    FailOnlyAt(r, i, KErrLocked, op.key);
  }

  lemma RunOpShape(r: Repo, i: nat, op: WriteOp)
    requires Sorted(r.settings) && i < |r.info.queue| && EntriesSorted(r.info.queue)
    requires OpOk(op, r.settings, r.info.queue[i].settings)
    requires r.info.queue[i].state != EReadTransaction
    ensures var o := Apply(op, r.settings, r.info.queue[i].settings);
            var r1 := SetOwn(r, i, o.own);
            RunOp(r, i, op) == (if o.fails then r1.(info := FailAt(r1.info, i, o.reply.code, op.key)) else r1, o.reply)
  {
  }

  lemma RunOpWriter(r: Repo, i: nat, op: WriteOp)
    requires Valid(r) && i < |r.info.queue| && ReadWriteState(r.info.queue[i].state)
    requires OpOk(op, r.settings, r.info.queue[i].settings)
    ensures var x := RunOp(r, i, op);
            var o := Apply(op, r.settings, r.info.queue[i].settings);
            && Valid(x.0) && OnlyAt(r, i, x.0) && x.1 == o.reply
            && x.0.info.queue[i] == (if o.fails then r.info.queue[i].Fail(o.reply.code, op.key)
                                     else r.info.queue[i].(settings := o.own))
  {
    var o := Apply(op, r.settings, r.info.queue[i].settings);
    SetOwnOnlyAt(r, i, o.own);
    var r1 := SetOwn(r, i, o.own);
    if o.fails { FailOnlyAt(r1, i, o.reply.code, op.key); }
    RunOpShape(r, i, op);
  }

  lemma PromoteOnlyAt(r: Repo, i: nat)
    requires Valid(r) && i < |r.info.queue| && r.info.queue[i].state == EReadTransaction
    ensures var r' := r.(info := Promote(r.info, i).0);
            && Valid(r') && OnlyAt(r, i, r') && r'.info.queue[i].settings == r.info.queue[i].settings
            && r'.info.queue[i].state == if r.info.pess == 1 then EReadWriteTransaction else EReadTransaction
  {
    PromoteKeeps(r.info, i);
    assert WellFormed(r.info.queue[i]);
    SortedEntries(Promote(r.info, i).0.queue);
  }

  lemma OnlyAtTwice(r: Repo, i: nat, r1: Repo, r2: Repo)
    requires OnlyAt(r, i, r1) && OnlyAt(r1, i, r2)
    ensures OnlyAt(r, i, r2)
  {
  }

  /** WriteOperationsL inside an active transaction. A reader is promoted exactly when it is the
      only active reader, and otherwise failed with KErrLocked; a writer fails exactly when the
      operation fails it or leaves, for that reason; nobody else is touched. */
  lemma WriteInsideEffect(r: Repo, i: nat, op: WriteOp)
    requires Valid(r) && i < |r.info.queue| && r.info.queue[i].Active()
    requires OpOk(op, r.settings, r.info.queue[i].settings)
    ensures r.info.queue[i].state == EReadTransaction ==> r.info.queue[i].settings == []
    ensures var x := WriteInside(r, i, op);
            WroteOrFailed(r, i, op, x.0, x.1)
  {
    var e := r.info.queue[i];
    assert WellFormed(e);
    if e.state == EReadTransaction {
      PromoteKeeps(r.info, i);
      if r.info.pess == 1 { PromotedEffect(r, i, op); } else { RunOpReader(r, i, op); }
    } else {
      WriterEffect(r, i, op);
    }
  }

  lemma PromotedEffect(r: Repo, i: nat, op: WriteOp)
    requires Valid(r) && i < |r.info.queue| && OnlyReader(r, i) && r.info.pess == 1
    requires OpOk(op, r.settings, r.info.queue[i].settings)
    ensures r.info.queue[i].settings == []
    ensures var x := WriteInside(r, i, op);
            WroteOrFailed(r, i, op, x.0, x.1)
  {
    assert WellFormed(r.info.queue[i]);
    PromoteOnlyAt(r, i);
    var r1 := r.(info := Promote(r.info, i).0);
    WriterEffect(r1, i, op);
    OnlyAtTwice(r, i, r1, WriteInside(r1, i, op).0);
  }

  lemma WriterEffect(r: Repo, i: nat, op: WriteOp)
    requires Valid(r) && i < |r.info.queue| && ReadWriteState(r.info.queue[i].state)
    requires OpOk(op, r.settings, r.info.queue[i].settings)
    ensures var x := WriteInside(r, i, op);
            WroteOrFailed(r, i, op, x.0, x.1)
  {
    RunOpWriter(r, i, op);
    var (r2, reply) := RunOp(r, i, op);
    if reply.Left? {
      FailOnlyAt(r2, i, reply.code, KUnspecifiedKey);
      OnlyAtTwice(r, i, r2, r2.(info := FailAt(r2.info, i, reply.code, KUnspecifiedKey)));
    }
  }

  // ----- a write outside a transaction -----

  function TempEntry(id: int, own: seq<Setting>): Entry {
    Entry(id, EConcurrentReadWriteTransaction, own, KErrNone, KUnspecifiedKey)
  }

  /** The repository while the temporary transaction is active with settings own. */
  function WithTemp(r: Repo, id: int, own: seq<Setting>): Repo {
    r.(info := Info(r.info.pess, r.info.conc + 1, r.info.queue + [TempEntry(id, own)]))
  }

  predicate Absent(r: Repo, id: int) {
    forall i :: 0 <= i < |r.info.queue| ==> r.info.queue[i].id != id
  }

  lemma TempValid(r: Repo, id: int, own: seq<Setting>)
    requires Valid(r) && Absent(r, id) && Sorted(own)
    ensures Valid(WithTemp(r, id, own))
  {
    StartKeeps(r.info, id, EConcurrentReadWriteTransaction);
    var r1 := WithTemp(r, id, []);
    assert r1.info == Start(r.info, id, EConcurrentReadWriteTransaction).0;
    SortedEntries(r1.info.queue);
    SetOwnOnlyAt(r1, |r.info.queue|, own);
    assert SetOwn(r1, |r.info.queue|, own) == WithTemp(r, id, own);
  }

  lemma TempRunOp(r: Repo, id: int, op: WriteOp)
    requires Valid(r) && Absent(r, id) && OpOk(op, r.settings, [])
    ensures var r1 := WithTemp(r, id, []);
            var n := |r.info.queue|;
            var o := Apply(op, r.settings, []);
            var r2 := WithTemp(r, id, o.own);
            && EntriesSorted(r1.info.queue)
            && RunOp(r1, n, op) == (if o.fails then r2.(info := FailAt(r2.info, n, o.reply.code, op.key)) else r2, o.reply)
  {
    var r1, n := WithTemp(r, id, []), |r.info.queue|;
    TempValid(r, id, []);
    RunOpShape(r1, n, op);
    var o := Apply(op, r.settings, []);
    assert SetOwn(r1, n, o.own) == WithTemp(r, id, o.own);
  }

  /** Cancelling the temporary transaction, or committing it after it has failed, restores
      the repository exactly as it was. */
  lemma TempVanishes(r: Repo, id: int, own: seq<Setting>, error: int, key: int, env: Env)
    requires Sorted(r.settings) && error != KErrNone
    ensures var r2, n := WithTemp(r, id, own), |r.info.queue|;
            && r2.(info := Cancel(r2.info, n)) == r
            && Commit(r2.(info := FailAt(r2.info, n, error, key)), n, env) == (r, error, key)
  {
    var r2, n := WithTemp(r, id, own), |r.info.queue|;
    assert Remove(r2.info, n).queue == r.info.queue;
    var failed := FailAt(r2.info, n, error, key);
    assert Remove(failed, n).queue == r.info.queue;
  }

  lemma OutsideShape(r: Repo, id: int, op: WriteOp, env: Env)
    requires Valid(r) && Absent(r, id) && OpOk(op, r.settings, [])
    ensures var n := |r.info.queue|;
            var x := RunOp(WithTemp(r, id, []), n, op);
            WriteOutside(r, id, op, env) == EndTemporary(x.0, x.1, n, env)
  {
    assert WithTemp(r, id, []).info == Start(r.info, id, EConcurrentReadWriteTransaction).0;
    TempRunOp(r, id, op);
  }

  /** A write outside a transaction either vanishes without trace, or is the commit of a
      transaction that holds the operation's settings. */
  lemma WriteOutsideEffect(r: Repo, id: int, op: WriteOp, env: Env)
    requires Valid(r) && !r.inconsistent && Absent(r, id) && OpOk(op, r.settings, [])
    ensures var x := WriteOutside(r, id, op, env);
            var o := Apply(op, r.settings, []);
            if o.reply.Left? || o.fails then x.0 == r && x.1 == Left(o.reply.code)
            else var r2, n := WithTemp(r, id, o.own), |r.info.queue|;
                 var c := Commit(r2, n, env);
                 && x == (c.0, if c.1 != KErrNone then Left(c.1) else o.reply)
                 && Committed(r2, r2.info.queue[n], c.0, c.1, c.2)
  {
    var n := |r.info.queue|;
    var o := Apply(op, r.settings, []);
    OutsideShape(r, id, op, env);
    TempRunOp(r, id, op);
    if o.reply.Left? || o.fails {
      TempVanishes(r, id, o.own, o.reply.code, op.key, env);
    } else {
      TempValid(r, id, o.own);
      CommitEffect(WithTemp(r, id, o.own), n, env);
    }
  }

  lemma PublishNothingNew(p: seq<Setting>, own: seq<Setting>)
    requires Sorted(p) && own == []
    ensures PublishAll(p, own) == p
  {
    PublishNothing(p);
  }

  /** All or nothing: whatever is returned or left with, the session is in no transaction
      afterwards, and the file holds either what it held before or, exactly when KErrNone is
      returned, that with all of the operation's changes published over it. */
  lemma WriteOutsideAllOrNothing(r: Repo, id: int, op: WriteOp, env: Env)
    requires Valid(r) && !r.inconsistent && Absent(r, id) && OpOk(op, r.settings, [])
    ensures var x := WriteOutside(r, id, op, env);
            && Valid(x.0) && Absent(x.0, id)
            && (x.1.code == KErrNone ==>
                  x.1 == Returned(KErrNone)
                  && x.0.disk.Contents() == PublishAll(r.disk.Contents(), Apply(op, r.settings, []).own))
            && (x.1.code != KErrNone ==> x.0.disk.Contents() == r.disk.Contents())
  {
    var o := Apply(op, r.settings, []);
    var x := WriteOutside(r, id, op, env);
    WriteOutsideEffect(r, id, op, env);
    ErrorLeavesOwn(op, r.settings, []);
    if !(o.reply.Left? || o.fails) {
      if o.reply.code != KErrNone { PublishNothingNew(r.settings, o.own); }
      forall i | 0 <= i < |x.0.info.queue| ensures x.0.info.queue[i].id != id {
        assert x.0.info.queue[i] in x.0.info.queue;
      }
    }
  }
}

/** Every run is serializable: the file holds what the committed transactions, replayed one
    after the other in commit order, leave, and each of them sees in that replay what it saw. */
module Serializability {
  import opened Errors
  import opened Settings
  import opened Overlay
  import opened Locks
  import opened Transactions
  import opened Commits
  import opened Sessions
  import opened Reload
  import opened ResetDiff
  import opened Runs

  // ----- the invariant -----

  /** An active transaction's settings are what replaying it now would give. */
  ghost predicate TrackedEntry(s: Sys, e: Entry)
    requires Sorted(s.repo.disk.Contents())
  {
    e.id in s.traces && Replay(s.repo.disk.Contents(), s.traces[e.id]) == Some(e.settings)
  }

  ghost predicate Tracked(s: Sys)
    requires Sorted(s.repo.disk.Contents())
  {
    forall e :: e in s.repo.info.queue && e.Active() && e.id !in s.stale ==> TrackedEntry(s, e)
  }

  ghost predicate Serialized(s: Sys, p0: seq<Setting>)
    requires Sorted(p0)
  {
    Serial(p0, s.log) == Some(s.repo.disk.Contents())
  }

  ghost predicate Inv(s: Sys, p0: seq<Setting>)
    requires Sorted(p0)
  {
    && Valid(s.repo) && Tracked(s) && (!s.crossed ==> Serialized(s, p0))
    && (!s.lost ==> s.stale == {} && !s.crossed)
  }

  lemma ReplayMore(p: seq<Setting>, trace: seq<Access>, t: seq<Setting>, a: Access)
    requires Sorted(p) && Replay(p, trace) == Some(t) && Agrees(p, t, a)
    ensures Replay(p, trace + [a]) == Some(After(p, t, a))
  {
    assert (trace + [a])[..|trace|] == trace;
  }

  lemma SerialNext(p0: seq<Setting>, log: seq<LogEntry>, entry: LogEntry)
    requires Sorted(p0) && Serial(p0, log).Some?
    ensures Serial(p0, log + [entry]) == RunAlone(Serial(p0, log).value, entry)
  {
    assert (log + [entry])[..|log|] == log;
  }

  lemma SerialMore(p0: seq<Setting>, log: seq<LogEntry>, p: seq<Setting>, trace: seq<Access>, t: seq<Setting>)
    requires Sorted(p0) && Serial(p0, log) == Some(p)
    requires Replay(p, trace) == Some(t)
    ensures Serial(p0, log + [Transaction(trace)]) == Some(PublishAll(p, t))
  {
    SerialNext(p0, log, Transaction(trace));
  }

  lemma ReplayOne(p: seq<Setting>, a: Access)
    requires Sorted(p) && Agrees(p, [], a)
    ensures Replay(p, [a]) == Some(After(p, [], a))
  {
    ReplayMore(p, [], [], a);
    assert [] + [a] == [a];
  }

  /** Sessions other than id go on as before: nothing becomes active, the accesses of the
      others are not touched, and the file they are replayed over is the same. */
  ghost predicate OthersGoOn(s: Sys, id: int, s': Sys) {
    && (forall i :: i != id && i in s.traces ==> i in s'.traces && s'.traces[i] == s.traces[i])
    && (forall i :: i != id && i in s.stale ==> i in s'.stale)
    && (forall e :: e in s'.repo.info.queue && e.Active() && e.id != id ==>
          e in s.repo.info.queue && s'.repo.disk.Contents() == s.repo.disk.Contents())
  }

  lemma KeepTracked(s: Sys, id: int, s': Sys)
    requires Valid(s.repo) && Valid(s'.repo) && Tracked(s) && OthersGoOn(s, id, s')
    requires forall e :: e in s'.repo.info.queue && e.Active() && e.id == id && e.id !in s'.stale ==> TrackedEntry(s', e)
    ensures Tracked(s')
  {
    forall e | e in s'.repo.info.queue && e.Active() && e.id !in s'.stale ensures TrackedEntry(s', e) {
      if e.id != id { assert TrackedEntry(s, e); }
    }
  }

  // ----- the requests, one by one -----

  lemma OnlyAtGoesOn(s: Sys, i: nat, r': Repo)
    requires OnlyAt(s.repo, i, r')
    ensures OthersGoOn(s, s.repo.info.queue[i].id, s.(repo := r'))
  {
    forall e | e in r'.info.queue && e.id != s.repo.info.queue[i].id ensures e in s.repo.info.queue {
      var j :| 0 <= j < |r'.info.queue| && r'.info.queue[j] == e;
      assert s.repo.info.queue[j] == e;
    }
  }

  lemma PositionUnique(q: seq<Entry>, i: nat)
    requires QueueOk(q) && i < |q|
    ensures Position(q, q[i].id) == i
    ensures forall e :: e in q && e.id == q[i].id ==> e == q[i]
  {
  }

  lemma FailKeepsInv(s: Sys, i: nat, error: int, key: int, p0: seq<Setting>)
    requires Sorted(p0) && Inv(s, p0) && i < |s.repo.info.queue| && error != KErrNone
    ensures Inv(FailIn(s, i, error, key), p0)
  {
    FailOnlyAt(s.repo, i, error, key);
    var s' := FailIn(s, i, error, key);
    OnlyAtGoesOn(s, i, s'.repo);
    PositionUnique(s'.repo.info.queue, i);
    KeepTracked(s, s.repo.info.queue[i].id, s');
  }

  lemma StartGoesOn(s: Sys, id: int, info: Info)
    requires |info.queue| == |s.repo.info.queue| + 1
    requires info.queue[..|s.repo.info.queue|] == s.repo.info.queue && info.queue[|s.repo.info.queue|].id == id
    ensures OthersGoOn(s, id, s.(repo := s.repo.(info := info), traces := s.traces[id := []], stale := s.stale - {id}))
  {
  }

  lemma StartKeepsInv(s: Sys, id: int, mode: int, p0: seq<Setting>)
    requires Sorted(p0) && Inv(s, p0)
    ensures Inv(ServeStart(s, id, mode), p0)
  {
    var s' := ServeStart(s, id, mode);
    if Position(s.repo.info.queue, id) < 0 && Start(s.repo.info, id, mode).1 == KErrNone {
      StartKeeps(s.repo.info, id, mode);
      SortedEntries(s'.repo.info.queue);
      StartGoesOn(s, id, s'.repo.info);
      PositionUnique(s'.repo.info.queue, |s.repo.info.queue|);
      KeepTracked(s, id, s');
    }
  }

  lemma ReadKeepsInv(s: Sys, id: int, a: Access, backup: Backup, p0: seq<Setting>)
    requires Sorted(p0) && Inv(s, p0) && !s.repo.inconsistent
    requires !a.WriteAcc?
    requires Sorted(Own(s.repo, id)) && Agrees(s.repo.settings, Own(s.repo, id), a)
    ensures Inv(ServeRead(s, id, a, backup), p0)
  {
    var s' := ServeRead(s, id, a, backup);
    var i := Position(s.repo.info.queue, id);
    if i >= 0 && FailedState(s.repo.info.queue[i].state) {
    } else if i >= 0 && backup.RestoreInProgress? {
      FailKeepsInv(s, i, KErrLocked, KUnspecifiedKey, p0);
    } else if backup.RestoreInProgress? {
    } else if i >= 0 {
      RecordKeepsTracked(s, i, a);
    } else if !s.crossed {
      ReplayOne(s.repo.settings, a);
      SerialMore(p0, s.log, s.repo.settings, [a], []);
      PublishNothing(s.repo.settings);
    }
  }

  lemma RecordKeepsTracked(s: Sys, i: nat, a: Access)
    requires Valid(s.repo) && !s.repo.inconsistent && Tracked(s) && i < |s.repo.info.queue|
    requires var e := s.repo.info.queue[i];
             Sorted(e.settings) && Agrees(s.repo.settings, e.settings, a) && After(s.repo.settings, e.settings, a) == e.settings
    ensures Tracked(Record(s, s.repo.info.queue[i].id, a))
  {
    var e := s.repo.info.queue[i];
    var s' := Record(s, e.id, a);
    PositionUnique(s.repo.info.queue, i);
    if e.Active() && e.id !in s.stale {
      assert TrackedEntry(s, e);
      ReplayMore(s.repo.settings, s.traces[e.id], e.settings, a);
    }
    KeepTracked(s, e.id, s');
  }

  lemma CancelKeepsInv(s: Sys, i: nat, p0: seq<Setting>)
    requires Sorted(p0) && Inv(s, p0) && i < |s.repo.info.queue|
    ensures Inv(s.(repo := s.repo.(info := Cancel(s.repo.info, i))), p0)
  {
    var s' := s.(repo := s.repo.(info := Cancel(s.repo.info, i)));
    CancelKeeps(s.repo.info, i);
    SortedEntries(s'.repo.info.queue);
    forall e | e in s'.repo.info.queue && e.Active() && e.id !in s'.stale ensures TrackedEntry(s', e) {
      assert e in s.repo.info.queue;
      assert TrackedEntry(s, e);
    }
  }

  lemma WroteKeepsTracked(s: Sys, i: nat, op: WriteOp, r': Repo, reply: Reply)
    requires Valid(s.repo) && !s.repo.inconsistent && Tracked(s) && i < |s.repo.info.queue|
    requires s.repo.info.queue[i].Active() && r'.info.queue != [] && |r'.info.queue| > i
    requires OpOk(op, s.repo.settings, s.repo.info.queue[i].settings)
    requires Valid(r') && OnlyAt(s.repo, i, r')
    requires var e', o := r'.info.queue[i], Apply(op, s.repo.settings, s.repo.info.queue[i].settings);
             e'.Active() ==> ReadWriteState(e'.state) && !o.fails && o.reply == reply && reply.Returned?
                             && e'.settings == o.own
    ensures var s1 := s.(repo := r');
            Tracked(if r'.info.queue[i].Active() then Record(s1, s.repo.info.queue[i].id, WriteAcc(op, reply.code)) else s1)
  {
    var e, e' := s.repo.info.queue[i], r'.info.queue[i];
    var a := WriteAcc(op, reply.code);
    var s' := if e'.Active() then Record(s.(repo := r'), e.id, a) else s.(repo := r');
    OnlyAtGoesOn(s, i, r');
    PositionUnique(r'.info.queue, i);
    if e'.Active() && e.id !in s.stale {
      assert TrackedEntry(s, e);
      ReplayMore(s.repo.settings, s.traces[e.id], e.settings, a);
    }
    KeepTracked(s, e.id, s');
  }

  lemma {:induction false} ServeWriteInside(s: Sys, i: nat, op: WriteOp, env: Env)
    requires Valid(s.repo) && i < |s.repo.info.queue| && s.repo.info.queue[i].Active()
    requires OpOk(op, s.repo.settings, s.repo.info.queue[i].settings)
    requires OpOk(op, s.repo.settings, Own(s.repo, s.repo.info.queue[i].id))
    requires s.repo.info.queue[i].state == EReadTransaction ==> s.repo.info.queue[i].settings == []
    ensures var (r', reply) := WriteInside(s.repo, i, op);
            ServeWrite(s, s.repo.info.queue[i].id, op, env, NoBackupActivity)
            == if i < |r'.info.queue| && r'.info.queue[i].Active()
               then Record(s.(repo := r'), s.repo.info.queue[i].id, WriteAcc(op, reply.code)) else s.(repo := r')
  {
    PositionUnique(s.repo.info.queue, i);
  }

  lemma WriteInsideKeepsInv(s: Sys, i: nat, op: WriteOp, env: Env, p0: seq<Setting>)
    requires Sorted(p0) && Inv(s, p0) && !s.repo.inconsistent && i < |s.repo.info.queue|
    requires s.repo.info.queue[i].Active() && OpOk(op, s.repo.settings, s.repo.info.queue[i].settings)
    requires OpOk(op, s.repo.settings, Own(s.repo, s.repo.info.queue[i].id))
    ensures Inv(ServeWrite(s, s.repo.info.queue[i].id, op, env, NoBackupActivity), p0)
  {
    WriteInsideEffect(s.repo, i, op);
    ServeWriteInside(s, i, op, env);
    var (r', reply) := WriteInside(s.repo, i, op);
    WroteIfActive(s.repo, i, op, r', reply);
    WroteKeepsTracked(s, i, op, r', reply);
  }

  /** A commit at the end of the queue or elsewhere: nobody's accesses change, and the log
      is extended exactly when the committer's settings have become the file. */
  lemma CommitExtends(s: Sys, r: Repo, id: int, trace: seq<Access>, own: seq<Setting>, r': Repo, err: int, p0: seq<Setting>)
    requires Sorted(p0) && Inv(s, p0) && !s.repo.inconsistent
    requires Valid(r') && Sorted(r.settings) && r.settings == s.repo.settings && r.disk == s.repo.disk
    requires StoredOrLeft(r, own, r', err) && SurvivorsSafe(r, id, r')
    requires forall e :: e in r.info.queue && e.id != id ==> e in s.repo.info.queue
    requires err == KErrNone && !s.crossed ==> Replay(s.repo.settings, trace) == Some(own)
    ensures Inv(s.(repo := r', log := if err == KErrNone then s.log + [Transaction(trace)] else s.log), p0)
  {
    var s' := s.(repo := r', log := if err == KErrNone then s.log + [Transaction(trace)] else s.log);
    KeepTracked(s, id, s');
    if err == KErrNone && !s.crossed { SerialMore(p0, s.log, s.repo.settings, trace, own); }
  }

  lemma PositionAbsent(r: Repo, id: int)
    requires Position(r.info.queue, id) < 0
    ensures Absent(r, id) && Own(r, id) == []
  {
  }

  lemma {:induction false} WriteOutsideKeepsInv(s: Sys, id: int, op: WriteOp, env: Env, p0: seq<Setting>)
    requires Sorted(p0) && Inv(s, p0) && !s.repo.inconsistent
    requires Position(s.repo.info.queue, id) < 0 && OpOk(op, s.repo.settings, [])
    ensures var (r', reply) := WriteOutside(s.repo, id, op, env);
            Inv(s.(repo := r', log := if reply.Returned? then s.log + [Transaction([WriteAcc(op, reply.code)])] else s.log), p0)
  {
    PositionAbsent(s.repo, id);
    WriteOutsideEffect(s.repo, id, op, env);
    var o := Apply(op, s.repo.settings, []);
    if !o.reply.Left? && !o.fails { TemporaryExtends(s, id, op, env, p0); }
  }

  /** The commit of the temporary transaction. */
  lemma {:induction false} TemporaryExtends(s: Sys, id: int, op: WriteOp, env: Env, p0: seq<Setting>)
    requires Sorted(p0) && Inv(s, p0) && !s.repo.inconsistent && Absent(s.repo, id) && OpOk(op, s.repo.settings, [])
    requires var o := Apply(op, s.repo.settings, []); !o.reply.Left? && !o.fails
    ensures var o := Apply(op, s.repo.settings, []);
            var (r', err, _) := Commit(WithTemp(s.repo, id, o.own), |s.repo.info.queue|, env);
            Inv(s.(repo := r', log := if err == KErrNone then s.log + [Transaction([WriteAcc(op, o.reply.code)])] else s.log), p0)
  {
    var o, n := Apply(op, s.repo.settings, []), |s.repo.info.queue|;
    var r2 := WithTemp(s.repo, id, o.own);
    TempValid(s.repo, id, o.own);
    CommitEffect(r2, n, env);
    var (r', err, _) := Commit(r2, n, env);
    ReplayOne(s.repo.settings, WriteAcc(op, o.reply.code));
    CommitExtends(s, r2, id, [WriteAcc(op, o.reply.code)], o.own, r', err, p0);
  }

  lemma CommitKeepsInv(s: Sys, id: int, env: Env, p0: seq<Setting>)
    requires Sorted(p0) && Inv(s, p0) && !s.repo.inconsistent
    ensures Inv(ServeCommit(s, id, env), p0)
  {
    var i := Position(s.repo.info.queue, id);
    if i >= 0 {
      var e := s.repo.info.queue[i];
      assert WellFormed(e);
      if e.Active() {
        CommitEffect(s.repo, i, env);
        var (r', err, _) := Commit(s.repo, i, env);
        KeepTracked(s, id, ServeCommit(s, id, env));
        if err == KErrNone && id !in s.stale {
          assert TrackedEntry(s, e);
          CommitExtends(s, s.repo, id, s.traces[id], e.settings, r', err, p0);
        }
      } else {
        FailedCommitEffect(s.repo, i, env);
        CancelKeepsInv(s, i, p0);
      }
    }
  }

  lemma {:induction false} ServeWriteOutside(s: Sys, id: int, op: WriteOp, env: Env)
    requires Valid(s.repo) && Position(s.repo.info.queue, id) < 0 && OpOk(op, s.repo.settings, [])
    requires OpOk(op, s.repo.settings, Own(s.repo, id))
    ensures var (r', reply) := WriteOutside(s.repo, id, op, env);
            ServeWrite(s, id, op, env, NoBackupActivity)
            == s.(repo := r', log := if reply.Returned? then s.log + [Transaction([WriteAcc(op, reply.code)])] else s.log)
  {
  }

  lemma {:induction false} WriteRefusedKeepsInv(s: Sys, id: int, op: WriteOp, env: Env, backup: Backup, p0: seq<Setting>)
    requires Sorted(p0) && Inv(s, p0) && OpOk(op, s.repo.settings, Own(s.repo, id))
    requires var i := Position(s.repo.info.queue, id);
             !backup.NoBackupActivity? || (i >= 0 && FailedState(s.repo.info.queue[i].state))
    ensures Inv(ServeWrite(s, id, op, env, backup), p0)
  {
    var i := Position(s.repo.info.queue, id);
    if i >= 0 && !FailedState(s.repo.info.queue[i].state) {
      FailKeepsInv(s, i, KErrLocked, KUnspecifiedKey, p0);
    }
  }

  lemma {:induction false} WriteKeepsInv(s: Sys, id: int, op: WriteOp, env: Env, backup: Backup, p0: seq<Setting>)
    requires Sorted(p0) && Inv(s, p0) && !s.repo.inconsistent
    requires OpOk(op, s.repo.settings, Own(s.repo, id))
    ensures Inv(ServeWrite(s, id, op, env, backup), p0)
  {
    var i := Position(s.repo.info.queue, id);
    if !backup.NoBackupActivity? || (i >= 0 && FailedState(s.repo.info.queue[i].state)) {
      WriteRefusedKeepsInv(s, id, op, env, backup, p0);
    } else if i >= 0 {
      assert WellFormed(s.repo.info.queue[i]);
      WriteInsideKeepsInv(s, i, op, env, p0);
    } else {
      PositionAbsent(s.repo, id);
      WriteOutsideKeepsInv(s, id, op, env, p0);
      ServeWriteOutside(s, id, op, env);
    }
  }

  lemma ResetKeepsInv(s: Sys, id: int, incoming: seq<Setting>, env: Env, backup: Backup, p0: seq<Setting>)
    requires Sorted(p0) && Inv(s, p0) && !s.repo.inconsistent && Sorted(incoming) && Live(incoming)
    ensures Inv(ServeReset(s, id, incoming, env, backup), p0)
  {
    var i := Position(s.repo.info.queue, id);
    if i >= 0 {
      FailKeepsInv(s, i, KErrNotSupported, KUnspecifiedKey, p0);
    } else if backup.NoBackupActivity? {
      ResetEffect(s.repo, incoming, env);
      if !s.crossed { SerialNext(p0, s.log, ResetTo(incoming)); }
    }
  }

  lemma UnloadKeepsInv(s: Sys, p0: seq<Setting>)
    requires Sorted(p0) && Inv(s, p0)
    ensures Inv(Unloaded(s), p0)
  {
    KeepTrackedReload(s, Unloaded(s));
  }

  lemma ServeKeepsInv(s: Sys, req: Request, p0: seq<Setting>)
    requires Sorted(p0) && Inv(s, p0) && !s.repo.inconsistent && RequestOk(s, req) && !req.Unload?
    ensures Inv(Serve(s, req), p0)
  {
    var i := Position(s.repo.info.queue, req.id);
    OwnSorted(s.repo, req.id);
    match req
    case StartReq(id, mode) => StartKeepsInv(s, id, mode, p0);
    case GetReq(id, key, backup) =>
      ReadKeepsInv(s, id, GetAcc(key, View(s.repo.settings, Own(s.repo, id), key)), backup, p0);
    case FindReq(id, partial, mask, found, backup) =>
      ReadKeepsInv(s, id, FindAcc(partial, mask, found), backup, p0);
    case WriteReq(id, op, env, backup) => WriteKeepsInv(s, id, op, env, backup, p0);
    case CommitReq(id, env) => CommitKeepsInv(s, id, env, p0);
    case CancelReq(id) => if i >= 0 { CancelKeepsInv(s, i, p0); }
    case FailReq(id, error) => if i >= 0 { FailKeepsInv(s, i, error, KUnspecifiedKey, p0); }
    case ResetReq(id, incoming, env, backup) => ResetKeepsInv(s, id, incoming, env, backup, p0);
  }

  lemma OwnSorted(r: Repo, id: int)
    requires Valid(r)
    ensures Sorted(Own(r, id))
  {
  }

  // ----- reloading -----

  lemma AccessedKeepsInv(s: Sys, id: int, p0: seq<Setting>)
    requires Sorted(p0) && Inv(s, p0)
    ensures var (s', err) := Accessed(s, id);
            && Inv(s', p0)
            && (err == KErrNone ==> !s'.repo.inconsistent && s'.lost == s.lost)
            && (err != KErrNone <==> LosesFile(s.repo)) && (err != KErrNone ==> s'.lost)
  {
    RestoreEffect(s.repo);
    var (r, err) := Restore(s.repo);
    var i := Position(r.info.queue, id);
    if err != KErrNone {
      if i >= 0 { FailOnlyAt(r, i, err, KUnspecifiedKey); }
      var s' := Accessed(s, id).0;
      forall e | e in s'.repo.info.queue && e.Active() ensures e.id in s'.stale { }
      if !s.crossed { SerialNext(p0, s.log, ResetTo(r.disk.defaults)); }
    } else {
      KeepTrackedReload(s, s.(repo := r));
    }
  }

  lemma KeepTrackedReload(s: Sys, s': Sys)
    requires Valid(s.repo) && Tracked(s) && Valid(s'.repo)
    requires s'.traces == s.traces && s'.stale == s.stale && s'.repo.info == s.repo.info && s'.repo.disk == s.repo.disk
    ensures Tracked(s')
  {
    forall e | e in s'.repo.info.queue && e.Active() && e.id !in s'.stale ensures TrackedEntry(s', e) {
      assert TrackedEntry(s, e);
    }
  }

  // ----- every run -----

  lemma StepKeepsInv(s: Sys, req: Request, s': Sys, p0: seq<Setting>)
    requires Sorted(p0) && Inv(s, p0) && Step(s, req, s')
    ensures Inv(s', p0)
    ensures s'.lost <==> s.lost || (!req.Unload? && LosesFile(s.repo))
  {
    if req.Unload? {
      UnloadKeepsInv(s, p0);
    } else {
      AccessedKeepsInv(s, req.id, p0);
      var (s1, err) := Accessed(s, req.id);
      if err == KErrNone {
        ServeKeepsInv(s1, req, p0);
      }
    }
  }

  lemma RunStep(ss: seq<Sys>, reqs: seq<Request>, p0: seq<Setting>, i: nat)
    requires Run(ss, reqs, p0) && i < |reqs|
    ensures Step(ss[i], reqs[i], ss[i + 1])
  {
    assert StepAt(ss, reqs, i);
  }

  lemma InitialInv(ss: seq<Sys>, reqs: seq<Request>, p0: seq<Setting>)
    requires Sorted(p0) && Run(ss, reqs, p0)
    ensures Inv(ss[0], p0) && !ss[0].lost
  {
  }

  lemma {:induction false} RunKeepsInv(ss: seq<Sys>, reqs: seq<Request>, p0: seq<Setting>, n: nat)
    requires Sorted(p0) && Run(ss, reqs, p0) && n < |ss|
    ensures Inv(ss[n], p0)
  {
    if n == 0 {
      InitialInv(ss, reqs, p0);
    } else {
      RunKeepsInv(ss, reqs, p0, n - 1);
      RunStep(ss, reqs, p0, n - 1);
      StepKeepsInv(ss[n - 1], reqs[n - 1], ss[n], p0);
    }
  }

  /** The reload that this request begins with loses the file. */
  predicate Loses(s: Sys, req: Request) {
    !req.Unload? && LosesFile(s.repo)
  }

  lemma RunLosesNext(ss: seq<Sys>, reqs: seq<Request>, p0: seq<Setting>, n: nat)
    requires Sorted(p0) && Run(ss, reqs, p0) && n < |reqs|
    ensures ss[n + 1].lost <==> ss[n].lost || Loses(ss[n], reqs[n])
  {
    RunKeepsInv(ss, reqs, p0, n);
    RunStep(ss, reqs, p0, n);
    StepKeepsInv(ss[n], reqs[n], ss[n + 1], p0);
  }

  lemma {:induction false} RunLosesFile(ss: seq<Sys>, reqs: seq<Request>, p0: seq<Setting>, n: nat)
    requires Sorted(p0) && Run(ss, reqs, p0) && n < |ss|
    ensures ss[n].lost <==> exists i :: 0 <= i < n && Loses(ss[i], reqs[i])
  {
    if n == 0 {
      InitialInv(ss, reqs, p0);
    } else {
      RunLosesFile(ss, reqs, p0, n - 1);
      RunLosesNext(ss, reqs, p0, n - 1);
    }
  }

  // ----- transactions that outlive their file -----

  /** The request commits, with success, a transaction that was open when the file was lost. */
  predicate Crosses(s: Sys, req: Request) {
    && req.CommitReq? && req.id in s.stale
    && var (s1, err) := Accessed(s, req.id);
       var i := Position(s1.repo.info.queue, req.id);
       && err == KErrNone && i >= 0 && Sorted(s1.repo.settings)
       && Commit(s1.repo, i, req.env).1 == KErrNone
  }

  lemma StepCrosses(s: Sys, req: Request, s': Sys, p0: seq<Setting>)
    requires Sorted(p0) && Inv(s, p0) && Step(s, req, s')
    ensures s'.crossed <==> s.crossed || Crosses(s, req)
  {
    if !req.Unload? {
      AccessedKeepsInv(s, req.id, p0);
    }
  }

  lemma RunCrossesNext(ss: seq<Sys>, reqs: seq<Request>, p0: seq<Setting>, n: nat)
    requires Sorted(p0) && Run(ss, reqs, p0) && n < |reqs|
    ensures ss[n + 1].crossed <==> ss[n].crossed || Crosses(ss[n], reqs[n])
  {
    RunKeepsInv(ss, reqs, p0, n);
    RunStep(ss, reqs, p0, n);
    StepCrosses(ss[n], reqs[n], ss[n + 1], p0);
  }

  lemma {:induction false} RunCrosses(ss: seq<Sys>, reqs: seq<Request>, p0: seq<Setting>, n: nat)
    requires Sorted(p0) && Run(ss, reqs, p0) && n < |ss|
    ensures ss[n].crossed <==> exists i :: 0 <= i < n && Crosses(ss[i], reqs[i])
  {
    if n == 0 {
      InitialInv(ss, reqs, p0);
    } else {
      RunCrosses(ss, reqs, p0, n - 1);
      RunCrossesNext(ss, reqs, p0, n - 1);
    }
  }

  /** Serializability. As long as no transaction that was open when the file was lost has committed,
      the file holds what the committed transactions leave when each runs alone, in commit
      order, over the first contents, a loss counting as a reset to the defaults; and each of
      their reads and writes has the same answer there as in the run. */
  lemma RunsAreSerializable(ss: seq<Sys>, reqs: seq<Request>, p0: seq<Setting>, n: nat)
    requires Sorted(p0) && Run(ss, reqs, p0) && n < |ss|
    requires forall i :: 0 <= i < n ==> !Crosses(ss[i], reqs[i])
    ensures Serial(p0, ss[n].log) == Some(ss[n].repo.disk.Contents())
    ensures !ss[n].repo.inconsistent ==> ss[n].repo.settings == ss[n].repo.disk.Contents()
  {
    RunKeepsInv(ss, reqs, p0, n);
    RunCrosses(ss, reqs, p0, n);
  }

  /** Without a loss nothing crosses one. */
  lemma NoLossNoCrossing(ss: seq<Sys>, reqs: seq<Request>, p0: seq<Setting>, n: nat)
    requires Sorted(p0) && Run(ss, reqs, p0) && n < |reqs|
    requires forall i :: 0 <= i < n ==> !Loses(ss[i], reqs[i])
    ensures !Crosses(ss[n], reqs[n])
  {
    RunKeepsInv(ss, reqs, p0, n);
    RunLosesFile(ss, reqs, p0, n);
  }

  /** In every reachable state, file lost or not, the lock counters describe the queue. */
  lemma RunsKeepLocks(ss: seq<Sys>, reqs: seq<Request>, p0: seq<Setting>, n: nat)
    requires Sorted(p0) && Run(ss, reqs, p0) && n < |ss|
    ensures LockInv(ss[n].repo.info)
    ensures TransactionActive(ss[n].repo.info) <==> exists e :: e in ss[n].repo.info.queue && e.Active()
  {
    RunKeepsInv(ss, reqs, p0, n);
    ActiveIffCounted(ss[n].repo.info);
  }

  lemma ActiveIffCounted(s: Info)
    requires LockInv(s)
    ensures TransactionActive(s) <==> exists e :: e in s.queue && e.Active()
  {
    if e :| e in s.queue && e.Active() {
      var i :| 0 <= i < |s.queue| && s.queue[i] == e;
      assert WellFormed(s.queue[i]);
      CountAt(s.queue, i, -1);
    } else {
      forall i | 0 <= i < |s.queue| ensures !s.queue[i].Active() { assert s.queue[i] in s.queue; }
      NoneActive(s, -1);
    }
  }
}

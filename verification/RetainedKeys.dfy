/** Keys that a failed commit leaves on the list of deleted keys in memory (common/src/datatype.cpp
    MergeTransactionL, common/src/heaprepos.cpp ResetContent): they cannot be deleted any more until
    the repository is unloaded or reset, or something else takes them off it. */
module RetainedKeys {
  import opened Errors
  import opened Settings
  import opened Find
  import opened Merge
  import opened Operations
  import opened DeleteRange
  import opened Locks
  import opened Transactions
  import opened Commits
  import opened Sessions
  import opened Reload
  import opened Runs
  import opened Serializability

  predicate BackedUp(p: seq<Setting>, k: Key) {
    Lookup(p, k).Some? && Lookup(p, k).value.meta.backup
  }

  /** The file holds the key, backed up, and memory lists it as deleted. */
  predicate Retained(r: Repo, k: Key) {
    k in r.deleted && BackedUp(r.disk.Contents(), k)
  }

  predicate Deletes(t: seq<Setting>, k: Key) {
    Lookup(t, k).Some? && Lookup(t, k).value.IsDeleted()
  }

  // ----- a transaction's entry keeps the backup bit of the setting it is for -----

  predicate SameBackup(p: seq<Setting>, t: seq<Setting>, k: Key) {
    Lookup(p, k).Some? && Lookup(t, k).Some? ==> Lookup(t, k).value.meta.backup == Lookup(p, k).value.meta.backup
  }

  lemma InsertKeepsBackup(p: seq<Setting>, t: seq<Setting>, x: Setting, k: Key)
    requires Sorted(t) && FindIndex(t, x.key) < 0 && SameBackup(p, t, k)
    requires Lookup(p, x.key).Some? ==> x.meta.backup == Lookup(p, x.key).value.meta.backup
    ensures SameBackup(p, OrderedInsert(t, x), k)
  {
    LookupInsert(t, x, k);
  }

  lemma ReplaceKeepsBackup(p: seq<Setting>, t: seq<Setting>, i: nat, x: Setting, k: Key)
    requires Sorted(t) && i < |t| && x.key == t[i].key && x.meta.backup == t[i].meta.backup && SameBackup(p, t, k)
    ensures SameBackup(p, t[i := x], k)
  {
    LookupReplace(t, i, x, k);
    LookupIn(t, t[i]);
  }

  lemma SetKeepsBackup(p: seq<Setting>, t: seq<Setting>, key: Key, v: Stored, meta: Meta, k: Key)
    requires Sorted(t) && SameBackup(p, t, k)
    ensures SameBackup(p, SetSetting(p, t, key, v, meta).own, k)
  {
    var i, own := FindIndex(t, key), SetSetting(p, t, key, v, meta).own;
    if own != t {
      if i >= 0 {
        ReplaceKeepsBackup(p, t, i, own[i], k);
      } else {
        var stored := Lookup(p, key);
        InsertKeepsBackup(p, t, Setting(key, if stored.None? then meta else stored.value.meta.(clean := false), v), k);
      }
    }
  }

  lemma CreateKeepsBackup(p: seq<Setting>, t: seq<Setting>, key: Key, v: Stored, meta: Meta, k: Key)
    requires Sorted(t) && SameBackup(p, t, k)
    ensures SameBackup(p, CreateSetting(p, t, key, v, meta).own, k)
  {
    var i, own := FindIndex(t, key), CreateSetting(p, t, key, v, meta).own;
    if own != t {
      if i >= 0 {
        ReplaceKeepsBackup(p, t, i, own[i], k);
      } else {
        InsertKeepsBackup(p, t, Setting(key, meta, v), k);
      }
    }
  }

  lemma DeleteKeepsBackup(p: seq<Setting>, t: seq<Setting>, key: Key, k: Key)
    requires Sorted(t) && SameBackup(p, t, k)
    ensures SameBackup(p, DeleteSetting(p, t, key).own, k)
  {
    var i, own := FindIndex(t, key), DeleteSetting(p, t, key).own;
    if own != t {
      if i >= 0 {
        ReplaceKeepsBackup(p, t, i, own[i], k);
      } else {
        InsertKeepsBackup(p, t, Setting(key, Lookup(p, key).value.meta, Deleted), k);
      }
    }
  }

  lemma DeleteAtKeepsBackup(p: seq<Setting>, t: seq<Setting>, x: Ptr, k: Key)
    requires Sorted(p) && Sorted(t) && InRange(x, p, t) && SameBackup(p, t, k)
    requires x.PersistentSlot? ==> FindIndex(t, p[x.i].key) < 0
    ensures SameBackup(p, DeleteAt(p, t, x), k)
  {
    match x
    case TransactionSlot(i) => ReplaceKeepsBackup(p, t, i, Setting(t[i].key, t[i].meta, Deleted), k);
    case PersistentSlot(i) =>
      LookupIn(p, p[i]);
      InsertKeepsBackup(p, t, Setting(p[i].key, p[i].meta, Deleted), k);
  }

  /** Whichever entries the range deletion hits. */
  lemma {:induction false} RangeKeepsBackup(found: seq<Ptr>, j: nat, p: seq<Setting>, t0: seq<Setting>, t: seq<Setting>, k: Key)
    requires Sorted(p) && Addressable(found, p, t0) && Reached(found, j, p, t0, t) && SameBackup(p, t, k)
    ensures SameBackup(p, DeleteFound(found, j, p, t0, t), k)
    decreases |found| - j
  {
    if j < |found| {
      ReachedNext(found, j, p, t0, t);
      DeleteAtKeepsBackup(p, t, found[j], k);
      RangeKeepsBackup(found, j + 1, p, t0, Next(found, j, p, t0, t), k);
    }
  }

  lemma OperationKeepsBackup(op: WriteOp, p: seq<Setting>, t: seq<Setting>, k: Key)
    requires Sorted(p) && Sorted(t) && OpOk(op, p, t) && SameBackup(p, t, k) && !op.LeavesMidway?
    ensures SameBackup(p, Apply(op, p, t).own, k)
  {
    match op
    case Set(key, v, meta) => SetKeepsBackup(p, t, key, v, meta, k);
    case Create(key, v, meta) => CreateKeepsBackup(p, t, key, v, meta, k);
    case Delete(key) => DeleteKeepsBackup(p, t, key, k);
    case DeleteRange(_, _, found) =>
      RangeReached(found, p, t);
      RangeKeepsBackup(found, 0, p, t, t, k);
    case Denied(_, _) =>
  }

  lemma {:induction false} ReplayKeepsBackup(p: seq<Setting>, trace: seq<Access>, k: Key)
    requires Sorted(p) && Replay(p, trace).Some?
    ensures SameBackup(p, Replay(p, trace).value, k)
  {
    if trace != [] {
      var n := |trace| - 1;
      ReplayKeepsBackup(p, trace[..n], k);
      if trace[n].WriteAcc? { OperationKeepsBackup(trace[n].op, p, Replay(p, trace[..n]).value, k); }
    }
  }

  // ----- one commit -----

  lemma DeletionBlocked(p: seq<Setting>, t: seq<Setting>, d: set<Key>, failAt: int, k: Key)
    requires Sorted(p) && Sorted(t) && BackedUp(p, k) && k in d && Deletes(t, k)
    ensures var err := MergeAll(p, t, d, failAt).err;
            err != KErrNone && (failAt == -1 ==> err == KErrAlreadyExists)
  {
    var i, f := FindIndex(t, k), Stop(p, t, d, |t|, failAt);
    MergeStops(MergeState(p, t, d, KErrNone), |t|, failAt, k);
    StopIsLast(p, t, d, |t|, failAt, i);
    if f >= 0 { StopIsLast(p, t, d, |t|, failAt, f); }
  }

  /** A failed commit that was to delete a backed-up key leaves it listed exactly if it was
      listed before or the merge had got to it. */
  lemma FailedDeletionRetains(r: Repo, i: nat, env: Env, k: Key)
    requires Valid(r) && !r.inconsistent && i < |r.info.queue| && r.info.queue[i].Active()
    requires Writes(r.info.queue[i]) && Commit(r, i, env).1 != KErrNone
    requires Deletes(r.info.queue[i].settings, k) && BackedUp(r.settings, k)
    ensures Retained(Commit(r, i, env).0, k)
       <==> k in r.deleted || Processed(r.settings, r.info.queue[i].settings, r.deleted, env.failAt, k).Some?
  {
    FailedCommitState(r, i, env);
    FailedCommitDeleted(r, i, env, k);
  }

  lemma DeleterWrites(r: Repo, i: nat, k: Key)
    requires Valid(r) && i < |r.info.queue| && r.info.queue[i].Active() && Deletes(r.info.queue[i].settings, k)
    ensures Writes(r.info.queue[i])
  {
    assert WellFormed(r.info.queue[i]);
  }

  /** The entry replaces a setting by one that is not backed up. */
  predicate TakesBackup(p: Option<Setting>, t: Option<Setting>) {
    && p.Some? && t.Some? && !t.value.IsDeleted()
    && !t.value.meta.backup && !Same(p.value, t.value)
  }

  /** A commit keeps the key listed and in the file, exactly unless it succeeds and takes the backup
      bit off. It never deletes the key. */
  lemma CommitRetainedIff(r: Repo, i: nat, env: Env, k: Key)
    requires Valid(r) && !r.inconsistent && i < |r.info.queue| && r.info.queue[i].Active() && Retained(r, k)
    ensures var (r', err, _) := Commit(r, i, env);
            && (Retained(r', k) <==>
                !(err == KErrNone && TakesBackup(Lookup(r.settings, k), Lookup(r.info.queue[i].settings, k))))
            && (Deletes(r.info.queue[i].settings, k) ==>
                  err != KErrNone && (env.failAt == -1 ==> err == KErrAlreadyExists))
  {
    assert WellFormed(r.info.queue[i]);
    if Deletes(r.info.queue[i].settings, k) { DeletingCommitFails(r, i, env, k); }
    if Writes(r.info.queue[i]) {
      CommitOfWriter(r, i, env);
      if Commit(r, i, env).1 != KErrNone {
        FailedCommitState(r, i, env);
        FailedCommitDeleted(r, i, env, k);
      } else {
        StoredCommitRetainedIff(r, i, env, k);
      }
    }
  }

  lemma DeletingCommitFails(r: Repo, i: nat, env: Env, k: Key)
    requires Valid(r) && !r.inconsistent && i < |r.info.queue| && r.info.queue[i].Active() && Retained(r, k)
    requires Deletes(r.info.queue[i].settings, k)
    ensures Commit(r, i, env).1 != KErrNone && (env.failAt == -1 ==> Commit(r, i, env).1 == KErrAlreadyExists)
  {
    var t := r.info.queue[i].settings;
    DeleterWrites(r, i, k);
    DeletionBlocked(r.settings, t, r.deleted, env.failAt, k);
    ErrorKeepsChanges(MergeState(r.settings, t, r.deleted, KErrNone), |t|, env.failAt);
    CommitOfWriter(r, i, env);
  }

  /** So one whose entry has the backup bit of the setting keeps it. */
  lemma CommitKeepsRetained(r: Repo, i: nat, env: Env, k: Key)
    requires Valid(r) && !r.inconsistent && i < |r.info.queue| && r.info.queue[i].Active()
    requires Retained(r, k) && SameBackup(r.settings, r.info.queue[i].settings, k)
    ensures Retained(Commit(r, i, env).0, k)
    ensures Deletes(r.info.queue[i].settings, k) ==>
              Commit(r, i, env).1 != KErrNone && (env.failAt == -1 ==> Commit(r, i, env).1 == KErrAlreadyExists)
  {
    CommitRetainedIff(r, i, env, k);
  }

  lemma StoredCommitState(r: Repo, i: nat, env: Env)
    requires Valid(r) && !r.inconsistent && i < |r.info.queue| && r.info.queue[i].Active()
    requires Writes(r.info.queue[i]) && Commit(r, i, env).1 == KErrNone
    ensures var m := MergeAll(r.settings, r.info.queue[i].settings, r.deleted, env.failAt);
            var r' := Commit(r, i, env).0;
            && m.err == KErrNone && r'.deleted == m.deleted
            && r'.disk.Contents() == PublishAll(r.settings, r.info.queue[i].settings)
  {
    CommitOfWriter(r, i, env);
    CommitEffect(r, i, env);
  }

  lemma StoredCommitRetainedIff(r: Repo, i: nat, env: Env, k: Key)
    requires Valid(r) && !r.inconsistent && i < |r.info.queue| && r.info.queue[i].Active() && Retained(r, k)
    requires Writes(r.info.queue[i]) && !Deletes(r.info.queue[i].settings, k) && Commit(r, i, env).1 == KErrNone
    ensures Retained(Commit(r, i, env).0, k)
       <==> !TakesBackup(Lookup(r.settings, k), Lookup(r.info.queue[i].settings, k))
  {
    var t := r.info.queue[i].settings;
    assert WellFormed(r.info.queue[i]);
    StoredCommitState(r, i, env);
    MergeAt(r.settings, t, r.deleted, env.failAt, k);
    PublishAllAt(r.settings, t, k);
  }

  /** Outside a transaction, deleting the key always fails, whatever the memory. */
  lemma DeleteRetainedFails(r: Repo, id: int, env: Env, k: Key)
    requires Valid(r) && !r.inconsistent && Absent(r, id) && Retained(r, k)
    ensures WriteOutside(r, id, Delete(k), env).1 == Left(KErrAlreadyExists)
  {
    var own := Apply(Delete(k), r.settings, []).own;
    var r2, n := WithTemp(r, id, own), |r.info.queue|;
    WriteOutsideEffect(r, id, Delete(k), env);
    TempValid(r, id, own);
    LookupInsert([], Setting(k, Lookup(r.settings, k).value.meta, Value.Deleted), k);
    DeleteKeepsBackup(r.settings, [], k, k);
    CommitKeepsRetained(r2, n, env, k);
    CommitOfWriter(r2, n, env);
    BlockedAlone(r.settings, own, r.deleted, env.failAt, k);
    ErrorKeepsChanges(MergeState(r.settings, own, r.deleted, KErrNone), |own|, env.failAt);
  }

  lemma BlockedAlone(p: seq<Setting>, t: seq<Setting>, d: set<Key>, failAt: int, k: Key)
    requires Sorted(p) && BackedUp(p, k) && k in d && Deletes(t, k) && |t| == 1
    ensures MergeAll(p, t, d, failAt).err == KErrAlreadyExists
  {
    MergeStops(MergeState(p, t, d, KErrNone), 1, failAt, k);
    StopIsLast(p, t, d, 1, failAt, 0);
  }

  // ----- every run -----

  /** The request resets the repository, with success or not. */
  predicate Resets(s: Sys, req: Request) {
    && req.ResetReq? && req.backup.NoBackupActivity?
    && Position(Accessed(s, req.id).0.repo.info.queue, req.id) < 0
  }

  /** The request commits, with success, a transaction that was open when the file was lost, and
      with it a setting for the key that is not backed up. */
  predicate Unbacks(s: Sys, req: Request, k: Key) {
    && Crosses(s, req)
    && var r := Accessed(s, req.id).0.repo;
       TakesBackup(Lookup(r.settings, k), Lookup(Own(r, req.id), k))
  }

  /** What ends it: an unloading, unless the file lists the key; a loss, unless the defaults hold the
      key backed up; a reset; a commit over a loss that takes the backup bit off. */
  predicate Forgets(s: Sys, req: Request, k: Key) {
    if req.Unload? then k !in s.repo.disk.Deleted()
    else if LosesFile(s.repo) then !BackedUp(s.repo.disk.defaults, k)
    else Resets(s, req) || Unbacks(s, req, k)
  }

  lemma WriteKeepsRetained(s: Sys, id: int, op: WriteOp, env: Env, backup: Backup, k: Key)
    requires Valid(s.repo) && !s.repo.inconsistent && Retained(s.repo, k)
    requires OpOk(op, s.repo.settings, Own(s.repo, id))
    ensures Retained(ServeWrite(s, id, op, env, backup).repo, k)
  {
    var i := Position(s.repo.info.queue, id);
    if backup.NoBackupActivity? {
      if i < 0 {
        PositionAbsent(s.repo, id);
        ServeWriteOutside(s, id, op, env);
        OutsideKeepsRetained(s.repo, id, op, env, k);
      } else if !FailedState(s.repo.info.queue[i].state) {
        InsideKeepsFile(s, i, op, env);
      }
    }
  }

  lemma InsideKeepsFile(s: Sys, i: nat, op: WriteOp, env: Env)
    requires Valid(s.repo) && i < |s.repo.info.queue| && !FailedState(s.repo.info.queue[i].state)
    requires !s.repo.inconsistent && OpOk(op, s.repo.settings, Own(s.repo, s.repo.info.queue[i].id))
    ensures var s' := ServeWrite(s, s.repo.info.queue[i].id, op, env, NoBackupActivity);
            s'.repo.disk == s.repo.disk && s'.repo.deleted == s.repo.deleted
  {
    PositionUnique(s.repo.info.queue, i);
    assert WellFormed(s.repo.info.queue[i]);
    WriteInsideEffect(s.repo, i, op);
    ServeWriteInside(s, i, op, env);
  }

  lemma OutsideKeepsRetained(r: Repo, id: int, op: WriteOp, env: Env, k: Key)
    requires Valid(r) && !r.inconsistent && Absent(r, id) && OpOk(op, r.settings, []) && Retained(r, k)
    ensures Retained(WriteOutside(r, id, op, env).0, k)
  {
    WriteOutsideEffect(r, id, op, env);
    var o := Apply(op, r.settings, []);
    if !o.reply.Left? && !o.fails {
      OperationKeepsBackup(op, r.settings, [], k);
      TempValid(r, id, o.own);
      CommitKeepsRetained(WithTemp(r, id, o.own), |r.info.queue|, env, k);
    }
  }

  /** Whether this commit takes the backup bit off: only one of a stale transaction can. */
  predicate UnbacksNow(s: Sys, id: int, env: Env, k: Key)
    requires Valid(s.repo)
  {
    var i := Position(s.repo.info.queue, id);
    && id in s.stale && i >= 0 && Commit(s.repo, i, env).1 == KErrNone
    && TakesBackup(Lookup(s.repo.settings, k), Lookup(Own(s.repo, id), k))
  }

  lemma CommitReqRetainedIff(s: Sys, id: int, env: Env, k: Key)
    requires Valid(s.repo) && !s.repo.inconsistent && Tracked(s) && Retained(s.repo, k)
    ensures Retained(ServeCommit(s, id, env).repo, k) <==> !UnbacksNow(s, id, env, k)
  {
    var i := Position(s.repo.info.queue, id);
    if i >= 0 {
      if s.repo.info.queue[i].Active() {
        CommitRetainedIff(s.repo, i, env, k);
        if id !in s.stale { ActiveKeepsBackup(s, i, k); }
      } else {
        FailedCommitEffect(s.repo, i, env);
      }
    }
  }

  lemma ActiveKeepsBackup(s: Sys, i: nat, k: Key)
    requires Valid(s.repo) && !s.repo.inconsistent && Tracked(s) && i < |s.repo.info.queue|
    requires s.repo.info.queue[i].Active() && s.repo.info.queue[i].id !in s.stale
    ensures SameBackup(s.repo.settings, s.repo.info.queue[i].settings, k)
  {
    var e := s.repo.info.queue[i];
    assert TrackedEntry(s, e);
    ReplayKeepsBackup(s.repo.settings, s.traces[e.id], k);
  }

  /** What ends it once the repository has been accessed. */
  predicate ForgetsNow(s: Sys, req: Request, k: Key)
    requires Valid(s.repo)
  {
    || (req.ResetReq? && req.backup.NoBackupActivity? && Position(s.repo.info.queue, req.id) < 0)
    || (req.CommitReq? && UnbacksNow(s, req.id, req.env, k))
  }

  lemma AccessedForgets(s: Sys, req: Request, k: Key)
    requires Valid(s.repo) && !req.Unload? && !LosesFile(s.repo) && Retained(s.repo, k)
    ensures var s1 := Accessed(s, req.id).0;
            Valid(s1.repo) && Retained(s1.repo, k) && (ForgetsNow(s1, req, k) <==> Forgets(s, req, k))
  {
    RestoreEffect(s.repo);
  }

  lemma ServeRetainedIff(s: Sys, req: Request, k: Key)
    requires Valid(s.repo) && !s.repo.inconsistent && Tracked(s) && RequestOk(s, req) && !req.Unload?
    requires Retained(s.repo, k)
    ensures Retained(Serve(s, req).repo, k) <==> !ForgetsNow(s, req, k)
  {
    match req
    case WriteReq(id, op, env, backup) => WriteKeepsRetained(s, id, op, env, backup, k);
    case CommitReq(id, env) => CommitReqRetainedIff(s, id, env, k);
    case _ =>
  }

  /** A loss does not empty the list of deleted keys, and falls back to the defaults: retained from
      now on is exactly what these hold backed up and the list has, or gets from the file before
      the key that makes it corrupt. */
  lemma LossRetainsIff(s: Sys, id: int, k: Key)
    requires LosesFile(s.repo)
    ensures Retained(Accessed(s, id).0.repo, k)
       <==> BackedUp(s.repo.disk.defaults, k)
            && (k in s.repo.deleted
                || (k in s.repo.disk.Deleted() && forall d :: d in s.repo.disk.Deleted() && d in s.repo.deleted ==> k < d))
  {
  }

  /** One step: the key stays listed and in the file exactly unless the step ends that. */
  lemma StepRetainedIff(s: Sys, req: Request, s': Sys, p0: seq<Setting>, k: Key)
    requires Sorted(p0) && Inv(s, p0) && Step(s, req, s') && Retained(s.repo, k)
    ensures Retained(s'.repo, k) <==> !Forgets(s, req, k)
  {
    if !req.Unload? {
      AccessedKeepsInv(s, req.id, p0);
      if LosesFile(s.repo) {
        LossRetainsIff(s, req.id, k);
      } else {
        AccessedForgets(s, req, k);
        ServeRetainedIff(Accessed(s, req.id).0, req, k);
      }
    }
  }

  lemma RunRetainedNext(ss: seq<Sys>, reqs: seq<Request>, p0: seq<Setting>, n: nat, k: Key)
    requires Sorted(p0) && Run(ss, reqs, p0) && n < |reqs| && Retained(ss[n].repo, k)
    ensures Retained(ss[n + 1].repo, k) <==> !Forgets(ss[n], reqs[n], k)
  {
    RunKeepsInv(ss, reqs, p0, n);
    RunStep(ss, reqs, p0, n);
    StepRetainedIff(ss[n], reqs[n], ss[n + 1], p0, k);
  }

  lemma {:induction false} RunKeepsRetained(ss: seq<Sys>, reqs: seq<Request>, p0: seq<Setting>, a: nat, n: nat, k: Key)
    requires Sorted(p0) && Run(ss, reqs, p0) && a <= n < |ss| && Retained(ss[a].repo, k)
    requires forall i :: a <= i < n ==> !Forgets(ss[i], reqs[i], k)
    ensures Retained(ss[n].repo, k)
  {
    if a < n {
      RunKeepsRetained(ss, reqs, p0, a, n - 1, k);
      RunRetainedNext(ss, reqs, p0, n - 1, k);
    }
  }

  /** In any run, from the moment a backed-up key is retained until a request ends that, every commit
      that is to delete the key fails; with KErrAlreadyExists, unless memory runs out first. */
  lemma RetainedUntilUnloaded(ss: seq<Sys>, reqs: seq<Request>, p0: seq<Setting>, a: nat, n: nat, k: Key, env: Env)
    requires Sorted(p0) && Run(ss, reqs, p0) && a <= n < |reqs| && Retained(ss[a].repo, k)
    requires forall i :: a <= i < n ==> !Forgets(ss[i], reqs[i], k)
    requires !Loses(ss[n], reqs[n]) && reqs[n].CommitReq? && reqs[n].env == env
    requires var r := Accessed(ss[n], reqs[n].id).0.repo;
             var i := Position(r.info.queue, reqs[n].id);
             i >= 0 && r.info.queue[i].Active() && Deletes(r.info.queue[i].settings, k)
    ensures var r := Accessed(ss[n], reqs[n].id).0.repo;
            && Sorted(r.settings)
            && var err := Commit(r, Position(r.info.queue, reqs[n].id), env).1;
               err != KErrNone && (env.failAt == -1 ==> err == KErrAlreadyExists)
  {
    RunKeepsRetained(ss, reqs, p0, a, n, k);
    RunKeepsInv(ss, reqs, p0, n);
    AccessedKeepsInv(ss[n], reqs[n].id, p0);
    var r := Accessed(ss[n], reqs[n].id).0.repo;
    DeletingCommitFails(r, Position(r.info.queue, reqs[n].id), env, k);
  }
}

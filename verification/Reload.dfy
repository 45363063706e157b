/** Reloading after a failed commit (cenrepsrv/shrepos.cpp RestoreConsistencyL,
    common/src/heaprepos.cpp ResetContent, common/src/cregen.cpp), and when it loses the file. */
module Reload {
  import opened Errors
  import opened Settings
  import opened Merge
  import opened Locks
  import opened Transactions
  import opened Commits

  /** The file and the array in memory share a deleted key: a reload would lose the file. */
  predicate LosesFile(r: Repo) {
    r.inconsistent && r.disk.persists.Some? && !(r.deleted !! r.disk.persists.value.deleted)
  }

  /** A reload brings memory back to what is on disk, unless it loses the file. */
  lemma RestoreEffect(r: Repo)
    requires Valid(r)
    ensures var (r', err) := Restore(r);
            && Valid(r') && r'.info == r.info && (err != KErrNone <==> LosesFile(r))
            && (err == KErrNone ==> !r'.inconsistent && r'.disk == r.disk)
            && (err != KErrNone ==> r'.disk.persists == None)
  {
  }

  lemma FailedCommitState(r: Repo, i: nat, env: Env)
    requires Valid(r) && !r.inconsistent && i < |r.info.queue| && r.info.queue[i].Active()
    requires Writes(r.info.queue[i]) && Commit(r, i, env).1 != KErrNone
    ensures var r' := Commit(r, i, env).0;
            && r'.inconsistent && r'.disk == r.disk
            && r'.deleted == MergeAll(r.settings, r.info.queue[i].settings, r.deleted, env.failAt).deleted
  {
    CommitOfWriter(r, i, env);
    CommitEffect(r, i, env);
    var t := r.info.queue[i].settings;
    assert WellFormed(r.info.queue[i]);
    if MergeAll(r.settings, t, r.deleted, env.failAt).changes == [] {
      NoChangeNoEffect(r.settings, t, r.deleted, env.failAt);
    }
  }

  /** What a failed commit leaves on the list of deleted keys in memory, wherever it failed. */
  lemma FailedCommitDeleted(r: Repo, i: nat, env: Env, k: Key)
    requires Valid(r) && !r.inconsistent && i < |r.info.queue| && r.info.queue[i].Active()
    requires Writes(r.info.queue[i]) && Commit(r, i, env).1 != KErrNone
    ensures var own := Processed(r.settings, r.info.queue[i].settings, r.deleted, env.failAt, k);
            k in Commit(r, i, env).0.deleted <==> ListedAfter(Lookup(r.settings, k), own, k in r.deleted)
  {
    FailedCommitState(r, i, env);
    assert WellFormed(r.info.queue[i]);
    DeletedAfterMerge(r.settings, r.info.queue[i].settings, r.deleted, env.failAt, k);
  }

  /** The array of deleted keys outlives a failed commit. Whether it was the merge that failed or
      the file that could not be written, the next access loses the file exactly if the file lists
      a deleted key that is on the list in memory once the entries merged have had their effect. */
  lemma FailedCommitLosesFileIff(r: Repo, i: nat, env: Env)
    requires Valid(r) && !r.inconsistent && i < |r.info.queue| && r.info.queue[i].Active()
    requires Writes(r.info.queue[i]) && Commit(r, i, env).1 != KErrNone
    ensures LosesFile(Commit(r, i, env).0)
       <==> exists k: Key :: k in r.disk.Deleted()
              && ListedAfter(Lookup(r.settings, k),
                             Processed(r.settings, r.info.queue[i].settings, r.deleted, env.failAt, k), k in r.deleted)
  {
    var r' := Commit(r, i, env).0;
    FailedCommitState(r, i, env);
    forall k: Key
      ensures k in r'.deleted
         <==> ListedAfter(Lookup(r.settings, k),
                          Processed(r.settings, r.info.queue[i].settings, r.deleted, env.failAt, k), k in r.deleted)
    {
      FailedCommitDeleted(r, i, env, k);
    }
  }

  /** With the file's list in memory and the merge done, it is lost unless the transaction had
      created anew every key the file lists. */
  lemma FailedWriteLosesFileIff(r: Repo, i: nat, env: Env)
    requires Valid(r) && !r.inconsistent && i < |r.info.queue| && r.info.queue[i].Active()
    requires Writes(r.info.queue[i]) && Commit(r, i, env).1 != KErrNone && r.deleted == r.disk.Deleted()
    requires MergeAll(r.settings, r.info.queue[i].settings, r.deleted, env.failAt).err == KErrNone
    ensures LosesFile(Commit(r, i, env).0)
       <==> exists k: Key :: k in r.deleted && !CreatedAnew(Lookup(r.settings, k), Lookup(r.info.queue[i].settings, k))
  {
    var t := r.info.queue[i].settings;
    FailedCommitLosesFileIff(r, i, env);
    assert WellFormed(r.info.queue[i]);
    forall k: Key
      ensures ListedAfter(Lookup(r.settings, k), Processed(r.settings, t, r.deleted, env.failAt, k), k in r.deleted)
         <==> ListedAfter(Lookup(r.settings, k), Lookup(t, k), k in r.deleted)
    {
      DeletedAfterMerge(r.settings, t, r.deleted, env.failAt, k);
    }
  }

  predicate CreatedAnew(p: Option<Setting>, t: Option<Setting>) {
    p.None? && t.Some? && !t.value.IsDeleted()
  }

  /** A file that lists key 7 as deleted, and a transaction that creates key 5 and cannot
      write its file: the next access finds the file corrupt and falls back to the defaults. */
  lemma {:induction false} DeletedKeyLosesFile(x: Setting, defaults: seq<Setting>, env: Env)
    requires x.key == 5 && !x.IsDeleted() && Sorted(defaults) && Live(defaults)
    requires env.nameErr == KErrNone && env.writeErr != KErrNone && env.failAt == -1
    ensures var disk := Disk(Some(File([], {7})), defaults);
            var e := Entry(1, EReadWriteTransaction, [x], KErrNone, KUnspecifiedKey);
            var r := Repo([], {7}, false, Info(-1, 0, [e]), disk, []);
            && Valid(r)
            && Commit(r, 0, env).1 == env.writeErr
            && Restore(Commit(r, 0, env).0).1 == KErrCorrupt
            && Restore(Commit(r, 0, env).0).0.disk.Contents() == defaults
  {
    var disk := Disk(Some(File([], {7})), defaults);
    var e := Entry(1, EReadWriteTransaction, [x], KErrNone, KUnspecifiedKey);
    var r := Repo([], {7}, false, Info(-1, 0, [e]), disk, []);
    OneWriter(e);
    CreationMerges(x);
    CommitOfWriter(r, 0, env);
    FailedCommitState(r, 0, env);
    assert 7 in Commit(r, 0, env).0.deleted;
  }

  lemma {:induction false} CreationMerges(x: Setting)
    requires x.key == 5 && !x.IsDeleted()
    ensures var m := MergeAll([], [x], {7}, -1);
            m.err == KErrNone && m.changes == [x] && 7 in m.deleted
  {
    var m0 := MergeState([], [x], {7}, KErrNone);
    assert FindIndex([], 5) < 0;
    assert MergeStep(m0, 0, false).changes == [x];
    assert MergeAll([], [x], {7}, -1) == MergeFrom(MergeStep(m0, 0, false), 0, -1);
  }

  lemma OneWriter(e: Entry)
    requires e.state == EReadWriteTransaction && WellFormed(e)
    ensures LockInv(Info(-1, 0, [e]))
  {
    assert [e][..0] == [];
    CountNone([], EReadTransaction, -1);
  }
}

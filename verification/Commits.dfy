/** What one commit does to the repository, its file, its observers and the other sessions. */
module Commits {
  import opened Errors
  import opened Settings
  import opened Merge
  import opened Overlay
  import opened Locks
  import opened Transactions

  /** A repository just before DoCommitTransactionSettings: the committer at position i has
      given up its lock, the memory image is that of the file. */
  predicate Ready(r: Repo, i: nat) {
    && Shape(r) && Live(r.settings) && !r.inconsistent && r.settings == r.disk.Contents()
    && i < |r.info.queue| && QueueOk(r.info.queue) && Balanced(r.info, i)
  }

  /** The queue still balances, and sessions other than the committer that remain active
      are as they were; none remains active when the file's contents change. */
  ghost predicate OthersSafe(r: Repo, i: nat, r': Repo) {
    && i < |r.info.queue| == |r'.info.queue|
    && QueueOk(r'.info.queue) && Balanced(r'.info, i)
    && r'.info.queue[i].id == r.info.queue[i].id
    && forall j :: 0 <= j < |r.info.queue| && j != i ==>
         || (r'.info.queue[j] == r.info.queue[j]
             && (r.info.queue[j].Active() ==> r'.disk.Contents() == r.disk.Contents()))
         || (r.info.queue[j].Active() && r'.info.queue[j] == r.info.queue[j].Fail(KErrLocked, KUnspecifiedKey))
  }

  /** A failed commit leaves the file alone and the memory image to be reloaded; a
      successful one publishes the committer's settings, in memory and on disk. */
  ghost predicate StoredOrLeft(r: Repo, own: seq<Setting>, r': Repo, err: int)
    requires Sorted(r.settings)
  {
    && Shape(r') && Live(r'.settings)
    && if err != KErrNone then r'.disk == r.disk && r'.inconsistent
       else !r'.inconsistent && r'.settings == r'.disk.Contents() == PublishAll(r.settings, own)
  }

  /** keys are what the observers heard: after a failure nothing, otherwise each key whose
      stored setting changed, once, in order; their number is returned. */
  ghost predicate Heard(keys: seq<Key>, p: seq<Setting>, p': seq<Setting>, err: int, keyInfo: int) {
    && (forall i, j :: 0 <= i < j < |keys| ==> keys[i] < keys[j])
    && (err != KErrNone ==> keys == [] && keyInfo == KUnspecifiedKey)
    && (err == KErrNone ==> keyInfo == |keys|)
    && (err == KErrNone ==> forall k: Key :: k in keys <==> Lookup(p', k) != Lookup(p, k))
  }

  ghost predicate Notified(r: Repo, r': Repo, err: int, keyInfo: int) {
    exists keys: seq<Key> ::
      r'.notified == r.notified + keys && Heard(keys, r.disk.Contents(), r'.disk.Contents(), err, keyInfo)
  }

  lemma SetOwnSafe(r: Repo, i: nat, own: seq<Setting>)
    requires Ready(r, i) && Sorted(own) && r.info.queue[i].Active() && ReadWriteState(r.info.queue[i].state)
    ensures var r1 := SetOwn(r, i, own);
            QueueOk(r1.info.queue) && Balanced(r1.info, i)
  {
    BalancedSkipped(r.info, i, r.info.queue[i].(settings := own));
  }

  lemma FailAllSafe(s: Info, i: nat)
    requires i < |s.queue| && QueueOk(s.queue) && Balanced(s, i)
    ensures var s' := FailAll(s, i);
            && QueueOk(s'.queue) && Balanced(s', i) && s'.queue[i] == s.queue[i]
            && forall j :: 0 <= j < |s.queue| && j != i ==>
                 s'.queue[j] == if s.queue[j].Active() then s.queue[j].Fail(KErrLocked, KUnspecifiedKey) else s.queue[j]
  {
    FailAllMeans(s, i);
    FailUpToBalances(s, |s.queue|, i);
    FailUpToQueueOk(s, |s.queue|, i);
  }

  lemma SortedEntries(q: seq<Entry>)
    requires QueueOk(q)
    ensures EntriesSorted(q)
  {
  }

  lemma OthersUntouched(r: Repo, i: nat, own: seq<Setting>, r': Repo)
    requires Ready(r, i) && Sorted(own) && r.info.queue[i].Active() && ReadWriteState(r.info.queue[i].state)
    requires r'.info == SetOwn(r, i, own).info && r'.disk == r.disk
    ensures OthersSafe(r, i, r')
  {
    SetOwnSafe(r, i, own);
  }

  lemma OthersFailed(r: Repo, i: nat, own: seq<Setting>, r': Repo)
    requires Ready(r, i) && Sorted(own) && r.info.queue[i].Active() && ReadWriteState(r.info.queue[i].state)
    requires r'.info == FailAll(SetOwn(r, i, own).info, i)
    ensures OthersSafe(r, i, r')
  {
    SetOwnSafe(r, i, own);
    FailAllSafe(SetOwn(r, i, own).info, i);
  }

  lemma DoCommitOthers(r: Repo, i: nat, env: Env)
    requires Ready(r, i) && r.info.queue[i].Active() && ReadWriteState(r.info.queue[i].state)
    ensures OthersSafe(r, i, DoCommit(r, i, env).0)
  {
    var own := r.info.queue[i].settings;
    var r' := DoCommit(r, i, env).0;
    if own == [] {
      OthersUntouched(r, i, own, r');
    } else {
      var m := MergeAll(r.settings, own, r.deleted, env.failAt);
      MergeChangesSorted(MergeState(r.settings, own, r.deleted, KErrNone), |own|, env.failAt);
      if m.changes == [] || m.err != KErrNone {
        OthersUntouched(r, i, m.changes, r');
      } else {
        OthersFailed(r, i, m.changes, r');
      }
    }
  }

  lemma DoCommitStores(r: Repo, i: nat, env: Env)
    requires Ready(r, i) && r.info.queue[i].Active() && ReadWriteState(r.info.queue[i].state)
    ensures var (r', err, _) := DoCommit(r, i, env);
            StoredOrLeft(r, r.info.queue[i].settings, r', err)
  {
    var own := r.info.queue[i].settings;
    DoCommitOthers(r, i, env);
    SortedEntries(DoCommit(r, i, env).0.info.queue);
    if own == [] {
      PublishNothing(r.settings);
    } else {
      var m := MergeAll(r.settings, own, r.deleted, env.failAt);
      if m.changes == [] {
        NoChangeNoEffect(r.settings, own, r.deleted, env.failAt);
      } else if m.err == KErrNone {
        MergeIsPublishAll(r.settings, own, r.deleted, env.failAt);
        MergeKeepsLive(r.settings, own, r.deleted, env.failAt);
      }
    }
  }

  lemma KeysAscend(s: seq<Setting>)
    requires Sorted(s)
    ensures var keys := KeysOf(s);
            && (forall i, j :: 0 <= i < j < |keys| ==> keys[i] < keys[j])
            && (forall k: Key :: k in keys <==> HasKey(s, k))
  {
    var keys := KeysOf(s);
    forall k: Key ensures k in keys <==> HasKey(s, k) {
      if HasKey(s, k) {
        var x :| x in s && x.key == k;
        var i :| 0 <= i < |s| && s[i] == x;
        assert keys[i] == k;
      }
      if k in keys {
        var i :| 0 <= i < |keys| && keys[i] == k;
        assert s[i] in s;
      }
    }
  }

  lemma DoCommitNotifies(r: Repo, i: nat, env: Env)
    requires Ready(r, i) && r.info.queue[i].Active() && ReadWriteState(r.info.queue[i].state)
    ensures var (r', err, keyInfo) := DoCommit(r, i, env);
            Notified(r, r', err, keyInfo)
  {
    var own := r.info.queue[i].settings;
    var (r', err, keyInfo) := DoCommit(r, i, env);
    var m := MergeAll(r.settings, own, r.deleted, env.failAt);
    if own == [] || m.changes == [] || err != KErrNone {
      if own != [] && m.changes == [] { NoChangeNoEffect(r.settings, own, r.deleted, env.failAt); }
      assert r'.notified == r.notified + [] && Heard([], r.disk.Contents(), r'.disk.Contents(), err, keyInfo);
    } else {
      MergeChangesSorted(MergeState(r.settings, own, r.deleted, KErrNone), |own|, env.failAt);
      KeysAscend(m.changes);
      forall k: Key ensures k in KeysOf(m.changes) <==> Lookup(m.items, k) != Lookup(r.settings, k) {
        ChangesAreTheDifference(r.settings, own, r.deleted, env.failAt, k);
      }
      assert r'.notified == r.notified + KeysOf(m.changes)
          && Heard(KeysOf(m.changes), r.disk.Contents(), r'.disk.Contents(), err, keyInfo);
    }
  }

  // ----- CommitTransaction -----

  lemma ReleaseReady(r: Repo, i: nat)
    requires Valid(r) && !r.inconsistent && i < |r.info.queue|
    ensures Ready(r.(info := Release(r.info, r.info.queue[i].state)), i)
  {
    ReleaseLeavesOut(r.info, i);
  }

  /** The sessions that are active after a commit were active before it, are not the
      committer, and have lost nothing: the file's contents are still what they were. */
  ghost predicate SurvivorsSafe(r: Repo, id: int, r': Repo) {
    && (forall e :: e in r'.info.queue ==> e.id != id)
    && (forall e :: e in r'.info.queue && e.Active() ==>
          e in r.info.queue && r'.disk.Contents() == r.disk.Contents())
  }

  lemma RemovedSafe(r: Repo, i: nat, r1: Repo)
    requires OthersSafe(r, i, r1)
    ensures LockInv(Remove(r1.info, i))
    ensures SurvivorsSafe(r, r.info.queue[i].id, r1.(info := Remove(r1.info, i)))
  {
    RemoveBalances(r1.info, i);
    var q := Remove(r1.info, i).queue;
    forall e | e in q
      ensures e.id != r.info.queue[i].id
      ensures e.Active() ==> e in r.info.queue && r1.disk.Contents() == r.disk.Contents()
    {
      var l :| 0 <= l < |q| && q[l] == e;
      var j := if l < i then l else l + 1;
      assert e == r1.info.queue[j];
    }
  }

  /** The three together, while the committer is still in the queue. */
  ghost predicate Done(r: Repo, i: nat, own: seq<Setting>, r': Repo, err: int, keyInfo: int)
    requires Sorted(r.settings)
  {
    OthersSafe(r, i, r') && StoredOrLeft(r, own, r', err) && Notified(r, r', err, keyInfo)
  }

  /** And once it has left it. */
  ghost predicate Committed(r: Repo, e: Entry, r': Repo, err: int, keyInfo: int)
    requires Sorted(r.settings)
  {
    && Valid(r')
    && StoredOrLeft(r, e.settings, r', err)
    && Notified(r, r', err, keyInfo)
    && SurvivorsSafe(r, e.id, r')
  }

  lemma AfterRemoval(r: Repo, i: nat, r1: Repo, r2: Repo, err: int, keyInfo: int)
    requires Valid(r) && !r.inconsistent && i < |r.info.queue|
    requires r1 == r.(info := Release(r.info, r.info.queue[i].state))
    requires Done(r1, i, r.info.queue[i].settings, r2, err, keyInfo)
    ensures Committed(r, r.info.queue[i], r2.(info := Remove(r2.info, i)), err, keyInfo)
  {
    RemovedSafe(r1, i, r2);
    SortedEntries(Remove(r2.info, i).queue);
  }

  lemma NothingStored(r: Repo, i: nat)
    requires Ready(r, i)
    ensures Done(r, i, [], r, KErrNone, 0)
  {
    PublishNothing(r.settings);
    assert r.notified == r.notified + [] && Heard([], r.disk.Contents(), r.disk.Contents(), KErrNone, 0);
  }

  lemma DoCommitDone(r: Repo, i: nat, env: Env)
    requires Ready(r, i) && r.info.queue[i].Active() && ReadWriteState(r.info.queue[i].state)
    ensures var (r', err, keyInfo) := DoCommit(r, i, env);
            Done(r, i, r.info.queue[i].settings, r', err, keyInfo)
  {
    DoCommitOthers(r, i, env);
    DoCommitStores(r, i, env);
    DoCommitNotifies(r, i, env);
  }

  predicate Writes(e: Entry) {
    ReadWriteState(e.state) && |e.settings| > 0
  }

  lemma CommitOfWriter(r: Repo, i: nat, env: Env)
    requires Sorted(r.settings) && i < |r.info.queue| && r.info.queue[i].Active()
    requires Writes(r.info.queue[i])
    ensures var d := DoCommit(r.(info := Release(r.info, r.info.queue[i].state)), i, env);
            Commit(r, i, env) == (d.0.(info := Remove(d.0.info, i)), d.1, d.2)
  {
  }

  lemma CommitWrites(r: Repo, i: nat, env: Env)
    requires Valid(r) && !r.inconsistent && i < |r.info.queue| && r.info.queue[i].Active()
    requires Writes(r.info.queue[i])
    ensures var c := Commit(r, i, env);
            Committed(r, r.info.queue[i], c.0, c.1, c.2)
  {
    var r1 := r.(info := Release(r.info, r.info.queue[i].state));
    ReleaseReady(r, i);
    DoCommitDone(r1, i, env);
    var d := DoCommit(r1, i, env);
    AfterRemoval(r, i, r1, d.0, d.1, d.2);
    CommitOfWriter(r, i, env);
  }

  lemma CommitWithoutWrites(r: Repo, i: nat, env: Env)
    requires Valid(r) && !r.inconsistent && i < |r.info.queue| && r.info.queue[i].Active()
    requires !Writes(r.info.queue[i])
    ensures var c := Commit(r, i, env);
            Committed(r, r.info.queue[i], c.0, c.1, c.2)
  {
    var e := r.info.queue[i];
    var r1 := r.(info := Release(r.info, e.state));
    ReleaseReady(r, i);
    assert WellFormed(e);
    NothingStored(r1, i);
    AfterRemoval(r, i, r1, r1, KErrNone, 0);
  }

  /** CommitTransaction of a transaction that is still active. */
  lemma CommitEffect(r: Repo, i: nat, env: Env)
    requires Valid(r) && !r.inconsistent && i < |r.info.queue| && r.info.queue[i].Active()
    ensures var c := Commit(r, i, env);
            Committed(r, r.info.queue[i], c.0, c.1, c.2)
  {
    if Writes(r.info.queue[i]) { CommitWrites(r, i, env); } else { CommitWithoutWrites(r, i, env); }
  }

  /** CommitTransaction of a transaction that has failed earlier returns the reason
      and changes nothing else. */
  lemma FailedCommitEffect(r: Repo, i: nat, env: Env)
    requires LockInv(r.info) && Sorted(r.settings) && i < |r.info.queue| && !r.info.queue[i].Active()
    ensures Commit(r, i, env) == (r.(info := Remove(r.info, i)), r.info.queue[i].result, r.info.queue[i].errorKey)
    ensures r.info.queue[i].result != KErrNone
    ensures LockInv(Remove(r.info, i))
  {
    assert WellFormed(r.info.queue[i]);
    CancelKeeps(r.info, i);
    assert Cancel(r.info, i) == Remove(r.info, i);
  }
}

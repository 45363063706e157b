/** Runs in which a reload loses the file while transactions are open (cenrepsrv/shrepos.cpp
    RestoreConsistencyL, srvsubsess.cpp ServiceL): only the one whose access found it fails. */
module Losses {
  import opened Errors
  import opened Settings
  import opened Merge
  import opened Overlay
  import opened Locks
  import opened Transactions
  import opened Commits
  import opened Sessions
  import opened Reload
  import opened Runs
  import opened Serializability

  // ----- which transactions were open then -----

  /** The request starts a transaction of this session. */
  predicate Starts(s: Sys, req: Request, id: int) {
    && req.StartReq? && req.id == id
    && var (s1, err) := Accessed(s, id);
       err == KErrNone && Position(s1.repo.info.queue, id) < 0 && Start(s1.repo.info, id, req.mode).1 == KErrNone
  }

  lemma StepStale(s: Sys, req: Request, s': Sys, id: int)
    requires Valid(s.repo) && Step(s, req, s')
    ensures id in s'.stale <==> if Loses(s, req) then id in s.stale || id in ActiveIds(s'.repo.info.queue)
                                else id in s.stale && !Starts(s, req, id)
  {
    if !req.Unload? {
      RestoreEffect(s.repo);
    }
  }

  /** The session's transaction survived the loss in step a, and no other has been started since. */
  predicate OpenAtLoss(ss: seq<Sys>, reqs: seq<Request>, a: nat, n: nat, id: int)
    requires |ss| == |reqs| + 1
  {
    && a < n <= |reqs| && Loses(ss[a], reqs[a]) && id in ActiveIds(ss[a + 1].repo.info.queue)
    && forall j :: a < j < n ==> !Starts(ss[j], reqs[j], id)
  }

  lemma {:induction false} RunStale(ss: seq<Sys>, reqs: seq<Request>, p0: seq<Setting>, n: nat, id: int)
    requires Sorted(p0) && Run(ss, reqs, p0) && n < |ss|
    ensures id in ss[n].stale <==> exists a :: 0 <= a < n && OpenAtLoss(ss, reqs, a, n, id)
  {
    if n == 0 {
      InitialInv(ss, reqs, p0);
    } else {
      RunStale(ss, reqs, p0, n - 1, id);
      RunStaleNext(ss, reqs, p0, n - 1, id);
      StaleNext(ss, reqs, n - 1, n, id);
    }
  }

  lemma RunStaleNext(ss: seq<Sys>, reqs: seq<Request>, p0: seq<Setting>, n: nat, id: int)
    requires Sorted(p0) && Run(ss, reqs, p0) && n < |reqs|
    ensures id in ss[n + 1].stale
       <==> if Loses(ss[n], reqs[n]) then id in ss[n].stale || id in ActiveIds(ss[n + 1].repo.info.queue)
            else id in ss[n].stale && !Starts(ss[n], reqs[n], id)
  {
    RunKeepsInv(ss, reqs, p0, n);
    RunStep(ss, reqs, p0, n);
    StepStale(ss[n], reqs[n], ss[n + 1], id);
  }

  lemma StaleNext(ss: seq<Sys>, reqs: seq<Request>, n: nat, m: nat, id: int)
    requires |ss| == |reqs| + 1 && n < |reqs| && m == n + 1
    ensures (exists a :: 0 <= a < m && OpenAtLoss(ss, reqs, a, m, id))
       <==> (Loses(ss[n], reqs[n]) && id in ActiveIds(ss[m].repo.info.queue))
            || (!Starts(ss[n], reqs[n], id) && exists a :: 0 <= a < n && OpenAtLoss(ss, reqs, a, n, id))
  {
    if a :| 0 <= a < m && OpenAtLoss(ss, reqs, a, m, id) {
      if a < n { assert OpenAtLoss(ss, reqs, a, n, id); }
    }
    if Loses(ss[n], reqs[n]) && id in ActiveIds(ss[m].repo.info.queue) { assert OpenAtLoss(ss, reqs, n, m, id); }
    if !Starts(ss[n], reqs[n], id) && exists a :: 0 <= a < n && OpenAtLoss(ss, reqs, a, n, id) {
      var a :| 0 <= a < n && OpenAtLoss(ss, reqs, a, n, id);
      assert OpenAtLoss(ss, reqs, a, m, id);
    }
  }

  /** At the losing step the transactions logged so far still replay to the file exactly if the old
      contents equal the defaults. */
  lemma LossReplaysIff(s: Sys, id: int, p0: seq<Setting>)
    requires Sorted(p0) && Inv(s, p0) && !s.crossed && LosesFile(s.repo)
    ensures var s' := Accessed(s, id).0;
            Serial(p0, s.log) == Some(s'.repo.disk.Contents()) <==> s.repo.disk.Contents() == s.repo.disk.defaults
  {
    RestoreEffect(s.repo);
  }

  // ----- a transaction that commits over the loss -----

  function FirstState(x: Setting): Sys {
    var disk := Disk(Some(File([x], {7})), []);
    Sys(Repo([x], {7}, false, Info(0, 0, []), disk, []), map[], [], false, {}, false)
  }

  const NoFault := Env(-1, KErrNone, KErrNone)
  const NoMemory := Env(0, KErrNone, KErrNone)

  /** Session 1 starts and reads, session 2 fails to store. */
  function Before(y: Setting): seq<Request>
    requires !y.IsDeleted()
  {
    [StartReq(1, EConcurrentReadWriteTransaction), GetReq(1, 5, NoBackupActivity),
     WriteReq(2, Create(y.key, y.value, y.meta), NoMemory, NoBackupActivity)]
  }

  /** Session 2 finds the file corrupt, session 1 reads again and commits. */
  const Behind := [GetReq(2, 5, NoBackupActivity), GetReq(1, 5, NoBackupActivity), CommitReq(1, NoFault)]

  const Reader := Entry(1, EConcurrentReadWriteTransaction, [], KErrNone, KUnspecifiedKey)

  lemma {:induction false} FirstStateValid(x: Setting)
    requires x.key == 5 && !x.IsDeleted()
    ensures Valid(FirstState(x).repo)
  {
  }

  lemma {:induction false} ReaderStarts(x: Setting)
    requires Valid(FirstState(x).repo)
    ensures ServeStart(FirstState(x), 1, EConcurrentReadWriteTransaction)
         == FirstState(x).(repo := ReaderAnd(x), traces := map[1 := []])
    ensures Valid(ReaderAnd(x))
  {
    StartKeeps(FirstState(x).repo.info, 1, EConcurrentReadWriteTransaction);
    assert Start(FirstState(x).repo.info, 1, EConcurrentReadWriteTransaction).0 == ReaderAnd(x).info;
  }

  lemma {:induction false} ReaderReads(x: Setting)
    requires x.key == 5 && !x.IsDeleted()
    ensures View([x], [], 5) == Some(x)
    ensures View([], [], 5) == None
  {
  }

  /** The creation merges nothing for want of memory; the list of deleted keys is as before. */
  lemma {:induction false} WriterFails(x: Setting, y: Setting)
    requires x.key == 5 && y.key == 6 && !y.IsDeleted()
    ensures var m := MergeAll([x], [y], {7}, 0);
            m.err == KErrNoMemory && m.changes == [y] && m.deleted == {7}
  {
    var m0 := MergeState([x], [y], {7}, KErrNone);
    assert FindIndex([x], 6) < 0;
    assert MergeAll([x], [y], {7}, 0) == MergeFrom(MergeStep(m0, 0, true), 0, 0);
  }

  function ReaderAnd(x: Setting): Repo {
    Repo([x], {7}, false, Info(0, 1, [Reader]), Disk(Some(File([x], {7})), []), [])
  }

  lemma {:induction false} WriterCommits(x: Setting, y: Setting)
    requires x.key == 5 && !x.IsDeleted() && y.key == 6 && !y.IsDeleted()
    ensures var c := Commit(WithTemp(ReaderAnd(x), 2, [y]), 1, NoMemory);
            c.1 == KErrNoMemory && c.0 == ReaderAnd(x).(settings := [], inconsistent := true)
  {
    WriterFails(x, y);
    var r2 := WithTemp(ReaderAnd(x), 2, [y]);
    CommitOfWriter(r2, 1, NoMemory);
    var d := DoCommit(r2.(info := Release(r2.info, r2.info.queue[1].state)), 1, NoMemory);
    assert d.0.info.queue[..1] + d.0.info.queue[2..] == [Reader];
  }

  lemma {:induction false} Creates(x: Setting, y: Setting)
    requires x.key == 5 && !x.IsDeleted() && y.key == 6 && !y.IsDeleted()
    ensures Apply(Create(y.key, y.value, y.meta), [x], []) == OpResult([y], Returned(KErrNone), false)
  {
    assert FindIndex([x], 6) < 0;
    assert OrderedInsert([], y) == [y];
  }

  lemma {:induction false} WriterLeaves(x: Setting, y: Setting)
    requires x.key == 5 && !x.IsDeleted() && y.key == 6 && !y.IsDeleted() && Valid(ReaderAnd(x))
    ensures var (r', reply) := WriteOutside(ReaderAnd(x), 2, Create(y.key, y.value, y.meta), NoMemory);
            reply.Left? && r' == ReaderAnd(x).(settings := [], inconsistent := true)
  {
    Creates(x, y);
    WriteOutsideEffect(ReaderAnd(x), 2, Create(y.key, y.value, y.meta), NoMemory);
    WriterCommits(x, y);
  }

  /** The next access finds the file corrupt; the reader goes on, and its own access finds the
      defaults. */
  lemma {:induction false} ReaderReloads(r: Repo, x: Setting)
    requires r == ReaderAnd(x).(settings := [], inconsistent := true) && Valid(r)
    ensures LosesFile(r)
    ensures var r' := Restore(r).0;
            && Restore(r).1 != KErrNone && Valid(r')
            && r'.info == r.info && r'.disk == Disk(None, []) && r'.inconsistent && r'.notified == []
    ensures var (r2, err) := Restore(Restore(r).0);
            err == KErrNone && Valid(r2) && r2 == Repo([], r2.deleted, false, r.info, Disk(None, []), [])
  {
    assert 7 in r.deleted && 7 in r.disk.persists.value.deleted;
    RestoreEffect(r);
    RestoreEffect(Restore(r).0);
  }

  function Opened(x: Setting): Sys {
    FirstState(x).(repo := ReaderAnd(x), traces := map[1 := []])
  }

  function HasRead(x: Setting): Sys {
    FirstState(x).(repo := ReaderAnd(x), traces := map[1 := [GetAcc(5, Some(x))]])
  }

  function Broken(x: Setting): Sys {
    HasRead(x).(repo := ReaderAnd(x).(settings := [], inconsistent := true))
  }

  function Lost(x: Setting): Sys {
    Accessed(Broken(x), 2).0
  }

  lemma {:induction false} StartStep(x: Setting)
    requires x.key == 5 && !x.IsDeleted()
    ensures Step(FirstState(x), StartReq(1, EConcurrentReadWriteTransaction), Opened(x)) && Valid(ReaderAnd(x))
  {
    FirstStateValid(x);
    ReaderStarts(x);
  }

  lemma {:induction false} ReadStep(x: Setting)
    requires x.key == 5 && !x.IsDeleted() && Valid(ReaderAnd(x))
    ensures Step(Opened(x), GetReq(1, 5, NoBackupActivity), HasRead(x))
  {
    ReaderReads(x);
    assert Position([Reader], 1) == 0;
    assert [] + [GetAcc(5, Some(x))] == [GetAcc(5, Some(x))];
    assert Record(Opened(x), 1, GetAcc(5, Some(x))) == HasRead(x);
  }

  lemma {:induction false} WriteStep(x: Setting, y: Setting)
    requires x.key == 5 && !x.IsDeleted() && y.key == 6 && !y.IsDeleted() && Valid(ReaderAnd(x))
    ensures Step(HasRead(x), WriteReq(2, Create(y.key, y.value, y.meta), NoMemory, NoBackupActivity), Broken(x))
    ensures Valid(Broken(x).repo)
  {
    var s := HasRead(x);
    WriterLeaves(x, y);
    WriteOutsideAllOrNothing(ReaderAnd(x), 2, Create(y.key, y.value, y.meta), NoMemory);
    assert Position([Reader], 2) == -1;
    ServeWriteOutside(s, 2, Create(y.key, y.value, y.meta), NoMemory);
  }

  lemma {:induction false} LossStep(x: Setting)
    requires Valid(Broken(x).repo)
    ensures Step(Broken(x), GetReq(2, 5, NoBackupActivity), Lost(x))
    ensures var s := Lost(x);
            && s.log == [ResetTo([])] && s.stale == {1} && s.traces == HasRead(x).traces
            && Valid(s.repo) && s.repo == Restore(Broken(x).repo).0
  {
    ReaderReloads(Broken(x).repo, x);
    assert Position([Reader], 2) == -1;
    assert [] + [ResetTo([])] == [ResetTo([])];
    assert ActiveIds([Reader]) == {1} by {
      assert [Reader][0].Active();
    }
  }

  /** What the reader reads before and after the loss. */
  function BothReads(x: Setting): seq<Access> {
    [GetAcc(5, Some(x)), GetAcc(5, None)]
  }

  function ReadAgain(x: Setting): Sys {
    Lost(x).(repo := Restore(Lost(x).repo).0, traces := map[1 := BothReads(x)])
  }

  lemma {:induction false} ReadAgainStep(x: Setting)
    requires x.key == 5 && !x.IsDeleted() && Valid(Broken(x).repo)
    ensures Step(Lost(x), GetReq(1, 5, NoBackupActivity), ReadAgain(x))
  {
    LossStep(x);
    ReaderReloads(Broken(x).repo, x);
    ReaderReads(x);
    assert Position([Reader], 1) == 0;
    assert [GetAcc(5, Some(x))] + [GetAcc(5, None)] == BothReads(x);
    assert Record(Accessed(Lost(x), 1).0, 1, GetAcc(5, None)) == ReadAgain(x);
  }

  lemma {:induction false} CommitStep(x: Setting) returns (s': Sys)
    requires Valid(Broken(x).repo)
    ensures Step(ReadAgain(x), CommitReq(1, NoFault), s') && Crosses(ReadAgain(x), CommitReq(1, NoFault))
    ensures Transaction(BothReads(x)) in s'.log
  {
    LossStep(x);
    ReaderReloads(Broken(x).repo, x);
    assert Position([Reader], 1) == 0;
    s' := ServeCommit(ReadAgain(x), 1, NoFault);
    assert Commit(ReadAgain(x).repo, 0, NoFault).1 == KErrNone;
  }

  // ----- no order explains it -----

  /** Nothing is replayed after an entry that no contents explain. */
  lemma {:induction false} NoOrder(p0: seq<Setting>, log: seq<LogEntry>, entry: LogEntry)
    requires Sorted(p0) && entry in log && forall p :: Sorted(p) ==> RunAlone(p, entry) == None
    ensures Serial(p0, log) == None
  {
    var n := |log| - 1;
    if entry in log[..n] {
      NoOrder(p0, log[..n], entry);
    } else {
      assert log == log[..n] + [log[n]];
    }
  }

  /** The same key cannot be there and not be there. */
  lemma {:induction false} NoContents(p: seq<Setting>, x: Setting)
    requires Sorted(p)
    ensures RunAlone(p, Transaction(BothReads(x))) == None
  {
    var one := BothReads(x)[..1];
    assert one == [GetAcc(5, Some(x))] && one[..0] == [];
    assert Replay(p, one) == if View(p, [], 5) == Some(x) then Some([]) else None;
  }

  /** A reader in a transaction has seen a setting; the file is lost; the reader sees that the setting
      is gone, and commits with success. A log that holds its transaction replays from no
      contents, whatever else it holds and in whatever order. */
  lemma {:induction false} CommitOverLoss(x: Setting, y: Setting) returns (ss: seq<Sys>)
    requires x.key == 5 && !x.IsDeleted() && y.key == 6 && !y.IsDeleted()
    ensures Run(ss, Before(y) + Behind, [x]) && Crosses(ss[5], Behind[2])
    ensures Transaction(BothReads(x)) in ss[6].log
    ensures forall p0, log :: Sorted(p0) && Transaction(BothReads(x)) in log ==> Serial(p0, log) == None
  {
    ss := FileBreaks(x, y);
    ss := ReaderGoesOn(ss, Before(y), [x], x);
    forall p0, log | Sorted(p0) && Transaction(BothReads(x)) in log ensures Serial(p0, log) == None {
      forall p | Sorted(p) ensures RunAlone(p, Transaction(BothReads(x))) == None { NoContents(p, x); }
      NoOrder(p0, log, Transaction(BothReads(x)));
    }
  }

  lemma {:induction false} FileBreaks(x: Setting, y: Setting) returns (ss: seq<Sys>)
    requires x.key == 5 && !x.IsDeleted() && y.key == 6 && !y.IsDeleted()
    ensures Run(ss, Before(y), [x]) && ss[3] == Broken(x) && Valid(Broken(x).repo)
  {
    StartStep(x);
    ReadStep(x);
    WriteStep(x, y);
    FirstStateValid(x);
    ss := RunOfThree(FirstState(x), StartReq(1, EConcurrentReadWriteTransaction), Opened(x),
                     GetReq(1, 5, NoBackupActivity), HasRead(x),
                     WriteReq(2, Create(y.key, y.value, y.meta), NoMemory, NoBackupActivity), Broken(x), [x]);
  }

  lemma {:induction false} ReaderGoesOn(ss: seq<Sys>, reqs: seq<Request>, p0: seq<Setting>, x: Setting) returns (r: seq<Sys>)
    requires x.key == 5 && !x.IsDeleted() && Run(ss, reqs, p0) && ss[|reqs|] == Broken(x) && Valid(Broken(x).repo)
    ensures Run(r, reqs + Behind, p0) && Crosses(r[|reqs| + 2], Behind[2]) && Transaction(BothReads(x)) in r[|reqs| + 3].log
  {
    LossStep(x);
    ReadAgainStep(x);
    var last := CommitStep(x);
    r := ThreeMore(ss, reqs, GetReq(2, 5, NoBackupActivity), Lost(x), GetReq(1, 5, NoBackupActivity), ReadAgain(x),
                   CommitReq(1, NoFault), last, p0);
  }

  lemma RunOfThree(s0: Sys, q0: Request, s1: Sys, q1: Request, s2: Sys, q2: Request, s3: Sys, p0: seq<Setting>)
    returns (ss: seq<Sys>)
    requires Initial(s0, p0) && Step(s0, q0, s1) && Step(s1, q1, s2) && Step(s2, q2, s3)
    ensures Run(ss, [q0, q1, q2], p0) && ss[3] == s3
  {
    ss := [s0, s1, s2, s3];
    var reqs := [q0, q1, q2];
    forall i | 0 <= i < |reqs| ensures StepAt(ss, reqs, i) {
      if i == 0 { } else if i == 1 { } else { assert i == 2; }
    }
  }

  lemma ThreeMore(ss: seq<Sys>, reqs: seq<Request>, q0: Request, s1: Sys, q1: Request, s2: Sys, q2: Request, s3: Sys,
                  p0: seq<Setting>)
    returns (r: seq<Sys>)
    requires Run(ss, reqs, p0) && Step(ss[|reqs|], q0, s1) && Step(s1, q1, s2) && Step(s2, q2, s3)
    ensures Run(r, reqs + [q0, q1, q2], p0) && r[|reqs| + 2] == s2 && r[|reqs| + 3] == s3
  {
    r := ss + [s1, s2, s3];
    var n := |reqs|;
    forall i | 0 <= i < n + 3 ensures StepAt(r, reqs + [q0, q1, q2], i) {
      if i < n { assert StepAt(ss, reqs, i); } else if i == n { } else if i == n + 1 { } else { assert i == n + 2; }
    }
  }
}

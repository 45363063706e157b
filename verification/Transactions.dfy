/** Transactions on one shared repository, as functions on its state (cenrepsrv/shrepos.cpp,
    obsrvr_noc.cpp and srvsubsess.cpp). SharedRepository.dfy has the methods that update
    the state in place and are proved to compute these functions. */
module Transactions {
  import opened Errors
  import opened Settings
  import opened Merge
  import opened Overlay
  import opened Find
  import opened Operations
  import opened DeleteRange
  import opened Locks

  /** What a repository file holds. */
  datatype File = File(settings: seq<Setting>, deleted: set<Key>)

  /** The file in the persists directory, and the default file that is read when there is none. */
  datatype Disk = Disk(persists: Option<File>, defaults: seq<Setting>) {
    function Contents(): seq<Setting> {
      if persists.Some? then persists.value.settings else defaults
    }

    function Deleted(): set<Key> {
      if persists.Some? then persists.value.deleted else {}
    }
  }

  datatype Repo = Repo(settings: seq<Setting>, deleted: set<Key>, inconsistent: bool,
                       info: Info, disk: Disk, notified: seq<Key>)

  /** What the environment does to one commit: the allocation that fails (or -1), and the
      errors of forming the file name and of writing the file. */
  datatype Env = Env(failAt: int, nameErr: int, writeErr: int)

  predicate EntriesSorted(q: seq<Entry>) {
    forall i :: 0 <= i < |q| ==> Sorted(q[i].settings)
  }

  /** Every array is sorted. */
  predicate Shape(r: Repo) {
    && Sorted(r.settings) && EntriesSorted(r.info.queue)
    && Sorted(r.disk.Contents()) && Live(r.disk.Contents()) && Sorted(r.disk.defaults) && Live(r.disk.defaults)
  }

  // ----- committing -----

  /** CommitChanges: a failure empties the array and leaves the repository to be reloaded. */
  function CommitChanges(r: Repo, env: Env): (Repo, int)
  {
    if env.nameErr != KErrNone then (r.(settings := [], inconsistent := true), env.nameErr)
    else if env.writeErr != KErrNone then (r.(settings := [], inconsistent := true), env.writeErr)
    else (r.(disk := r.disk.(persists := Some(File(r.settings, r.deleted))), inconsistent := false), KErrNone)
  }

  function SetOwn(r: Repo, i: nat, own: seq<Setting>): (r': Repo)
    requires i < |r.info.queue|
    ensures |r'.info.queue| == |r.info.queue|
  {
    r.(info := r.info.(queue := r.info.queue[i := r.info.queue[i].(settings := own)]))
  }

  function KeysOf(s: seq<Setting>): (r: seq<Key>)
    ensures |r| == |s| && forall i :: 0 <= i < |s| ==> r[i] == s[i].key
  {
    seq(|s|, i requires 0 <= i < |s| => s[i].key)
  }

  /** DoCommitTransactionSettings: the new state, the error and the key information. */
  function DoCommit(r: Repo, i: nat, env: Env): (res: (Repo, int, int))
    requires Sorted(r.settings) && i < |r.info.queue|
    ensures |res.0.info.queue| == |r.info.queue|
  {
    var e := r.info.queue[i];
    if e.settings == [] then (r, KErrNone, 0)
    else
      var m := MergeAll(r.settings, e.settings, r.deleted, env.failAt);
      var r1 := SetOwn(r.(settings := m.items, deleted := m.deleted), i, m.changes);
      if m.changes == [] then (r1, m.err, if m.err == KErrNone then 0 else KUnspecifiedKey)
      else if m.err != KErrNone then (r1.(settings := [], inconsistent := true), m.err, KUnspecifiedKey)
      else Persist(r1, i, m.changes, env)
  }

  /** The last part: everyone else is locked out, the file written, the observers told. */
  function Persist(r: Repo, i: nat, changes: seq<Setting>, env: Env): (res: (Repo, int, int))
    requires i < |r.info.queue|
    ensures |res.0.info.queue| == |r.info.queue|
  {
    var (r', err) := CommitChanges(r.(info := FailAll(r.info, i)), env);
    if err != KErrNone then (r', err, KUnspecifiedKey)
    else (r'.(notified := r'.notified + KeysOf(changes)), KErrNone, |changes|)
  }

  /** CommitTransaction, up to the point where the session leaves the queue. */
  function Conclude(r: Repo, i: nat, env: Env): (res: (Repo, int, int))
    requires Sorted(r.settings) && i < |r.info.queue|
    ensures |res.0.info.queue| == |r.info.queue|
  {
    var e := r.info.queue[i];
    if FailedState(e.state) then (r, e.result, e.errorKey)
    else
      var r1 := r.(info := Release(r.info, e.state));
      if ReadWriteState(e.state) && |e.settings| > 0 then DoCommit(r1, i, env) else (r1, e.result, 0)
  }

  /** CommitTransaction. */
  function Commit(r: Repo, i: nat, env: Env): (Repo, int, int)
    requires Sorted(r.settings) && i < |r.info.queue|
  {
    var (r', err, keyInfo) := Conclude(r, i, env);
    (r'.(info := Remove(r'.info, i)), err, keyInfo)
  }

  // ----- reloading -----

  /** RestoreConsistencyL. The array of deleted keys is not emptied before the file is read
      into it; when a key of the file is on it already, reading stops there, the file counts
      as corrupt and is deleted, and the access fails. */
  function Restore(r: Repo): (Repo, int)
  {
    if !r.inconsistent then (r, KErrNone)
    else if r.disk.persists.None? then (r.(settings := r.disk.defaults, inconsistent := false), KErrNone)
    else
      var f := r.disk.persists.value;
      var read := set k | k in f.deleted && forall d :: d in f.deleted && d in r.deleted ==> k < d;
      var r' := r.(settings := f.settings, deleted := r.deleted + read);
      if r.deleted !! f.deleted then (r'.(inconsistent := false), KErrNone)
      else (r'.(disk := r.disk.(persists := None)), KErrCorrupt)
  }

  // ----- operations of a session -----

  /** One write request. Denied stands for a failed policy or argument check, LeavesMidway for
      an operation that leaves after changing the transaction's array in some way. */
  datatype WriteOp =
    | Set(key: Key, value: Stored, newMeta: Meta)
    | Create(key: Key, value: Stored, newMeta: Meta)
    | Delete(key: Key)
    | DeleteRange(key: Key, mask: Key, found: seq<Ptr>)
    | Denied(key: Key, error: int)
    | LeavesMidway(key: Key, error: int, own: seq<Setting>)

  /** What was found by a range deletion is what the search finds, a denial and a leave
      have an error, and a transaction's array is sorted whatever happens. */
  ghost predicate OpOk(op: WriteOp, p: seq<Setting>, t: seq<Setting>) {
    match op
    case DeleteRange(key, mask, found) => FoundIn(found, p, t, ByMask(key, mask))
    case Denied(_, error) => error != KErrNone
    case LeavesMidway(_, error, own) => error != KErrNone && Sorted(own)
    case _ => true
  }

  datatype Reply = Returned(code: int) | Left(code: int)

  /** The transaction's array afterwards, the code, and whether the operation fails the
      transaction with that code. */
  datatype OpResult = OpResult(own: seq<Setting>, reply: Reply, fails: bool)

  ghost function Apply(op: WriteOp, p: seq<Setting>, t: seq<Setting>): (r: OpResult)
    requires Sorted(p) && Sorted(t) && OpOk(op, p, t)
    ensures Sorted(r.own)
    ensures r.fails ==> r.reply.code != KErrNone
  {
    match op
    case Set(k, v, meta) =>
      var o := SetSetting(p, t, k, v, meta); OpResult(o.own, Returned(o.err), o.err != KErrNone)
    case Create(k, v, meta) =>
      var o := CreateSetting(p, t, k, v, meta); OpResult(o.own, Returned(o.err), o.err != KErrNone)
    case Delete(k) =>
      var o := DeleteSetting(p, t, k); OpResult(o.own, Returned(o.err), false)
    case DeleteRange(_, _, found) =>
      RangeReached(found, p, t);
      OpResult(DeleteFound(found, 0, p, t, t), Returned(if found == [] then KErrNotFound else KErrNone), false)
    case Denied(_, error) => OpResult(t, Returned(error), true)
    case LeavesMidway(_, error, own) => OpResult(own, Left(error), false)
  }

  lemma RangeReached(found: seq<Ptr>, p: seq<Setting>, t: seq<Setting>)
    requires Sorted(t) && Addressable(found, p, t)
    ensures Reached(found, 0, p, t, t)
  {
    forall i | 0 <= i < |found| && found[i].PersistentSlot? && found[i].i < |p|
      ensures FindIndex(t, p[found[i].i].key) < 0
    { assert found[i] in found; }
  }

  /** The server function of a write request, for the session at position i. A reader that
      could not be promoted is failed with KErrLocked. */
  ghost function RunOp(r: Repo, i: nat, op: WriteOp): (res: (Repo, Reply))
    requires Sorted(r.settings) && i < |r.info.queue| && EntriesSorted(r.info.queue)
    requires OpOk(op, r.settings, r.info.queue[i].settings)
    ensures |res.0.info.queue| == |r.info.queue| && EntriesSorted(res.0.info.queue)
    ensures res.0.settings == r.settings
  {
    var e := r.info.queue[i];
    if e.state == EReadTransaction then (r.(info := FailAt(r.info, i, KErrLocked, op.key)), Returned(KErrLocked))
    else
      var o := Apply(op, r.settings, e.settings);
      var r1 := SetOwn(r, i, o.own);
      if o.fails then (r1.(info := FailAt(r1.info, i, o.reply.code, op.key)), o.reply) else (r1, o.reply)
  }

  datatype Backup = NoBackupActivity | BackupInProgress | RestoreInProgress

  /** WriteOperationsL for a session that is not in a transaction: a temporary concurrent
      transaction, cancelled when the operation leaves and committed when it returns. */
  ghost function WriteOutside(r: Repo, id: int, op: WriteOp, env: Env): (Repo, Reply)
    requires Shape(r) && OpOk(op, r.settings, [])
  {
    var n := |r.info.queue|;
    var r1 := r.(info := Start(r.info, id, EConcurrentReadWriteTransaction).0);
    assert r1.info.queue[..n] == r.info.queue;
    var (r2, reply) := RunOp(r1, n, op);
    EndTemporary(r2, reply, n, env)
  }

  function EndTemporary(r: Repo, reply: Reply, n: nat, env: Env): (Repo, Reply)
    requires Sorted(r.settings) && n < |r.info.queue|
  {
    if reply.Left? then (r.(info := Cancel(r.info, n)), reply)
    else
      var (r', err, _) := Commit(r, n, env);
      (r', if err != KErrNone then Left(err) else reply)
  }

  /** WriteOperationsL inside an active transaction, with ServiceError for a leave. */
  ghost function WriteInside(r: Repo, i: nat, op: WriteOp): (Repo, Reply)
    requires Shape(r) && i < |r.info.queue|
    requires OpOk(op, r.settings, r.info.queue[i].settings)
    requires r.info.queue[i].state == EReadTransaction ==> r.info.queue[i].settings == []
  {
    var e := r.info.queue[i];
    var r1 := if e.state == EReadTransaction then r.(info := Promote(r.info, i).0) else r;
    var (r2, reply) := RunOp(r1, i, op);
    if reply.Left? then (r2.(info := FailAt(r2.info, i, reply.code, KUnspecifiedKey)), reply) else (r2, reply)
  }

  // ----- the invariant -----

  /** An open repository that is not waiting to be reloaded holds what is on disk. */
  predicate Valid(r: Repo) {
    && Shape(r) && Live(r.settings) && LockInv(r.info)
    && (!r.inconsistent ==> r.settings == r.disk.Contents())
  }

  /** What the settings become when t is published over p. */
  function PublishAll(p: seq<Setting>, t: seq<Setting>): (r: seq<Setting>)
    requires Sorted(p)
    ensures Sorted(r)
  {
    MergeAll(p, t, {}, -1).items
  }

  /** With an empty deleted list and enough memory nothing can go wrong. */
  lemma PublishAllAt(p: seq<Setting>, t: seq<Setting>, k: Key)
    requires Sorted(p) && Sorted(t)
    ensures Lookup(PublishAll(p, t), k) == Publish(Lookup(p, k), Lookup(t, k))
  {
    MergeFailsIffBlocked(MergeState(p, t, {}, KErrNone), |t|);
    MergeAt(p, t, {}, -1, k);
  }

  lemma MergeIsPublishAll(p: seq<Setting>, t: seq<Setting>, d: set<Key>, failAt: int)
    requires Sorted(p) && Sorted(t)
    requires MergeAll(p, t, d, failAt).err == KErrNone
    ensures MergeAll(p, t, d, failAt).items == PublishAll(p, t)
  {
    var a, b := MergeAll(p, t, d, failAt).items, PublishAll(p, t);
    forall k: Key ensures Lookup(a, k) == Lookup(b, k) {
      MergeAt(p, t, d, failAt, k);
      PublishAllAt(p, t, k);
    }
    LookupDetermines(a, b);
  }

  /** A merge that reports no change has not changed anything. */
  lemma NoChangeNoEffect(p: seq<Setting>, t: seq<Setting>, d: set<Key>, failAt: int)
    requires Sorted(p) && Live(p) && Sorted(t)
    requires MergeAll(p, t, d, failAt).changes == []
    ensures MergeAll(p, t, d, failAt).err == KErrNone
    ensures MergeAll(p, t, d, failAt).items == p
    ensures PublishAll(p, t) == p
  {
    ErrorKeepsChanges(MergeState(p, t, d, KErrNone), |t|, failAt);
    var r := MergeAll(p, t, d, failAt);
    forall k: Key ensures Lookup(r.items, k) == Lookup(p, k) {
      ChangesAreTheDifference(p, t, d, failAt, k);
    }
    LookupDetermines(r.items, p);
    MergeIsPublishAll(p, t, d, failAt);
  }

  lemma PublishNothing(p: seq<Setting>)
    requires Sorted(p)
    ensures PublishAll(p, []) == p
  {
  }

  lemma {:induction false} MergeChangesSorted(m: MergeState, n: nat, failAt: int)
    requires Sorted(m.items) && Sorted(m.changes) && n <= |m.changes|
    ensures Sorted(MergeFrom(m, n, failAt).changes)
    decreases n
  {
    if n > 0 && m.err == KErrNone {
      MergeChangesSorted(MergeStep(m, n - 1, failAt == n - 1), n - 1, failAt);
    }
  }
}

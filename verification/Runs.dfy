/** Whole runs of the repository under any number of sessions, and the serial replay of
    what its sessions did. */
module Runs {
  import opened Errors
  import opened Settings
  import opened Overlay
  import opened Find
  import opened Locks
  import opened Transactions
  import opened ResetDiff

  // ----- what a session did and saw -----

  /** One access of a transaction: a read with its answer, or a write with its result. */
  datatype Access =
    | GetAcc(key: Key, answer: Option<Setting>)
    | FindAcc(partial: Key, mask: Key, found: seq<Setting>)
    | WriteAcc(op: WriteOp, code: int)

  /** The access gives this answer or result to a transaction with settings t over p. */
  ghost predicate Agrees(p: seq<Setting>, t: seq<Setting>, a: Access)
    requires Sorted(p) && Sorted(t)
  {
    match a
    case GetAcc(k, answer) => answer == View(p, t, k)
    case FindAcc(partial, mask, found) => AnswerOf(found, p, t, ByMask(partial, mask))
    case WriteAcc(op, code) =>
      OpOk(op, p, t) && var o := Apply(op, p, t); !o.fails && o.reply == Returned(code)
  }

  ghost function After(p: seq<Setting>, t: seq<Setting>, a: Access): (r: seq<Setting>)
    requires Sorted(p) && Sorted(t) && Agrees(p, t, a)
    ensures Sorted(r)
  {
    match a
    case WriteAcc(op, _) => Apply(op, p, t).own
    case _ => t
  }

  /** Replaying the accesses of one transaction alone over p: its settings at the end, or
      None if some access would have gone differently. */
  ghost function Replay(p: seq<Setting>, trace: seq<Access>): (r: Option<seq<Setting>>)
    requires Sorted(p)
    ensures r.Some? ==> Sorted(r.value)
  {
    if trace == [] then Some([])
    else
      var n := |trace| - 1;
      match Replay(p, trace[..n])
      case None => None
      case Some(t) => if Agrees(p, t, trace[n]) then Some(After(p, t, trace[n])) else None
  }

  /** What is in the log: a committed transaction, or a reset to other contents. */
  datatype LogEntry = Transaction(trace: seq<Access>) | ResetTo(settings: seq<Setting>)

  /** Replaying the log, each entry over what the one before left. */
  ghost function Serial(p0: seq<Setting>, log: seq<LogEntry>): (r: Option<seq<Setting>>)
    requires Sorted(p0)
    ensures r.Some? ==> Sorted(r.value)
  {
    if log == [] then Some(p0)
    else
      var n := |log| - 1;
      match Serial(p0, log[..n])
      case None => None
      case Some(p) => RunAlone(p, log[n])
  }

  /** One transaction, from its start to its commit, or one reset. */
  ghost function RunAlone(p: seq<Setting>, entry: LogEntry): (r: Option<seq<Setting>>)
    requires Sorted(p)
    ensures r.Some? ==> Sorted(r.value)
  {
    match entry
    case Transaction(trace) =>
      (match Replay(p, trace)
       case None => None
       case Some(t) => Some(PublishAll(p, t)))
    case ResetTo(settings) => if Sorted(settings) then Some(settings) else None
  }

  // ----- runs -----

  datatype Request =
    | StartReq(id: int, mode: int)
    | GetReq(id: int, key: Key, backup: Backup)
    | FindReq(id: int, partial: Key, mask: Key, found: seq<Setting>, backup: Backup)
    | WriteReq(id: int, op: WriteOp, env: Env, backup: Backup)
    | CommitReq(id: int, env: Env)
    | CancelReq(id: int)
    | FailReq(id: int, error: int)
    | ResetReq(id: int, incoming: seq<Setting>, env: Env, backup: Backup)
    | Unload

  /** The server, with the accesses of the open transactions, the committed transactions in
      commit order, whether a reload has ever lost the file, which transactions were open when
      one did, and whether any of these has committed since. */
  datatype Sys = Sys(repo: Repo, traces: map<int, seq<Access>>, log: seq<LogEntry>,
                     lost: bool, stale: set<int>, crossed: bool)

  function Position(q: seq<Entry>, id: int): (r: int)
    ensures -1 <= r < |q|
    ensures r >= 0 ==> q[r].id == id
    ensures r < 0 ==> forall i :: 0 <= i < |q| ==> q[i].id != id
  {
    if q == [] then -1
    else if q[|q| - 1].id == id then |q| - 1
    else Position(q[..|q| - 1], id)
  }

  function Own(r: Repo, id: int): seq<Setting> {
    var i := Position(r.info.queue, id);
    if i < 0 then [] else r.info.queue[i].settings
  }

  /** A request as the server can get it: a search answers what it finds, a range deletion
      deletes what it finds, a client fails its transaction for a reason. */
  ghost predicate RequestOk(s: Sys, req: Request) {
    match req
    case FindReq(id, partial, mask, found, _) => AnswerOf(found, s.repo.settings, Own(s.repo, id), ByMask(partial, mask))
    case WriteReq(id, op, _, _) => OpOk(op, s.repo.settings, Own(s.repo, id))
    case FailReq(_, error) => error != KErrNone
    case ResetReq(_, incoming, _, _) => Sorted(incoming) && Live(incoming)
    case _ => true
  }

  /** What is remembered of lost files is as before. */
  predicate SameMarks(s: Sys, s': Sys) {
    s'.lost == s.lost && s'.stale == s.stale && s'.crossed == s.crossed
  }

  /** So are the file and the list of deleted keys. */
  predicate SameFile(s: Sys, s': Sys) {
    s'.repo.disk == s.repo.disk && s'.repo.deleted == s.repo.deleted
  }

  function FailIn(s: Sys, i: nat, error: int, key: int): (r: Sys)
    requires i < |s.repo.info.queue|
    ensures SameMarks(s, r) && SameFile(s, r)
  {
    s.(repo := s.repo.(info := FailAt(s.repo.info, i, error, key)))
  }

  function Record(s: Sys, id: int, a: Access): (r: Sys)
    ensures SameMarks(s, r) && SameFile(s, r)
  {
    s.(traces := s.traces[id := (if id in s.traces then s.traces[id] else []) + [a]])
  }

  /** ReadOperationsL with the access it makes. */
  function ServeRead(s: Sys, id: int, a: Access, backup: Backup): (r: Sys)
    ensures SameMarks(s, r) && SameFile(s, r)
  {
    var i := Position(s.repo.info.queue, id);
    if i >= 0 && FailedState(s.repo.info.queue[i].state) then s
    else if i >= 0 && backup.RestoreInProgress? then FailIn(s, i, KErrLocked, KUnspecifiedKey)
    else if backup.RestoreInProgress? then s
    else if i >= 0 then Record(s, id, a)
    else s.(log := s.log + [Transaction([a])])
  }

  /** WriteOperationsL. A write that fails its transaction or leaves is not an access. */
  ghost function ServeWrite(s: Sys, id: int, op: WriteOp, env: Env, backup: Backup): (s': Sys)
    requires Valid(s.repo) && OpOk(op, s.repo.settings, Own(s.repo, id))
    ensures SameMarks(s, s')
  {
    var i := Position(s.repo.info.queue, id);
    if i >= 0 && FailedState(s.repo.info.queue[i].state) then s
    else if i >= 0 && !backup.NoBackupActivity? then FailIn(s, i, KErrLocked, KUnspecifiedKey)
    else if !backup.NoBackupActivity? then s
    else if i >= 0 then
      assert WellFormed(s.repo.info.queue[i]);
      var (r, reply) := WriteInside(s.repo, i, op);
      var s1 := s.(repo := r);
      if i < |r.info.queue| && r.info.queue[i].Active() then Record(s1, id, WriteAcc(op, reply.code)) else s1
    else
      var (r, reply) := WriteOutside(s.repo, id, op, env);
      s.(repo := r, log := if reply.Returned? then s.log + [Transaction([WriteAcc(op, reply.code)])] else s.log)
  }

  function ServeCommit(s: Sys, id: int, env: Env): (s': Sys)
    requires Valid(s.repo)
    ensures s'.lost == s.lost && s'.stale == s.stale
  {
    var i := Position(s.repo.info.queue, id);
    if i < 0 then s
    else
      var (r, err, _) := Commit(s.repo, i, env);
      s.(repo := r, crossed := s.crossed || (err == KErrNone && id in s.stale),
         log := if err == KErrNone && id in s.traces then s.log + [Transaction(s.traces[id])] else s.log)
  }

  function ServeStart(s: Sys, id: int, mode: int): (s': Sys)
    ensures s'.lost == s.lost && s'.crossed == s.crossed && SameFile(s, s')
  {
    if Position(s.repo.info.queue, id) >= 0 then s
    else
      var (info, err) := Start(s.repo.info, id, mode);
      if err != KErrNone then s else s.(repo := s.repo.(info := info), traces := s.traces[id := []], stale := s.stale - {id})
  }

  /** ResetOperationsL and ResetAllL: not in a transaction, not during backup. */
  function ServeReset(s: Sys, id: int, incoming: seq<Setting>, env: Env, backup: Backup): (s': Sys)
    ensures SameMarks(s, s')
  {
    var i := Position(s.repo.info.queue, id);
    if i >= 0 then FailIn(s, i, KErrNotSupported, KUnspecifiedKey)
    else if !backup.NoBackupActivity? then s
    else
      var (r, err) := ResetRepo(s.repo, incoming, env);
      s.(repo := r, log := if err == KErrNone then s.log + [ResetTo(incoming)] else s.log)
  }

  ghost function Serve(s: Sys, req: Request): (s': Sys)
    requires Valid(s.repo) && RequestOk(s, req)
    ensures s'.lost == s.lost
    ensures !req.StartReq? ==> s'.stale == s.stale
    ensures !req.CommitReq? ==> s'.crossed == s.crossed
    ensures req.WriteReq? || req.CommitReq? || req.ResetReq? || req.Unload? || SameFile(s, s')
  {
    match req
    case StartReq(id, mode) => ServeStart(s, id, mode)
    case GetReq(id, key, backup) => ServeRead(s, id, GetAcc(key, View(s.repo.settings, Own(s.repo, id), key)), backup)
    case FindReq(id, partial, mask, found, backup) => ServeRead(s, id, FindAcc(partial, mask, found), backup)
    case WriteReq(id, op, env, backup) => ServeWrite(s, id, op, env, backup)
    case CommitReq(id, env) => ServeCommit(s, id, env)
    case CancelReq(id) =>
      var i := Position(s.repo.info.queue, id);
      if i < 0 then s else s.(repo := s.repo.(info := Cancel(s.repo.info, i)))
    case FailReq(id, error) =>
      var i := Position(s.repo.info.queue, id);
      if i < 0 then s else FailIn(s, i, error, KUnspecifiedKey)
    case ResetReq(id, incoming, env, backup) => ServeReset(s, id, incoming, env, backup)
    case Unload => Unloaded(s)
  }

  /** The cache has evicted the repository, transactions or not; the next access loads it. */
  function Unloaded(s: Sys): (r: Sys)
    ensures SameMarks(s, r)
  {
    s.(repo := s.repo.(settings := s.repo.disk.Contents(), deleted := s.repo.disk.Deleted(), inconsistent := false))
  }

  function ActiveIds(q: seq<Entry>): set<int> {
    set i | 0 <= i < |q| && q[i].Active() :: q[i].id
  }

  /** ServiceL up to the operation: the repository is reloaded if need be. When that fails
      the session's transaction fails for the reason, and the file is gone: from now on the
      contents are the defaults, which the log takes for a reset. */
  function Accessed(s: Sys, id: int): (Sys, int) {
    var (r, err) := Restore(s.repo);
    if err == KErrNone then (s.(repo := r), err)
    else
      var i := Position(r.info.queue, id);
      var info := if i < 0 then r.info else FailAt(r.info, i, err, KUnspecifiedKey);
      (s.(repo := r.(info := info), log := s.log + [ResetTo(r.disk.defaults)], lost := true,
          stale := s.stale + ActiveIds(info.queue)), err)
  }

  ghost predicate Step(s: Sys, req: Request, s': Sys) {
    if req.Unload? then s' == Unloaded(s)
    else
      var (s1, err) := Accessed(s, req.id);
      if err != KErrNone then s' == s1
      else Valid(s1.repo) && RequestOk(s1, req) && s' == Serve(s1, req)
  }

  ghost predicate Initial(s: Sys, p0: seq<Setting>) {
    && Valid(s.repo) && s.repo.disk.Contents() == p0
    && s.repo.info.queue == [] && s.log == [] && !s.lost && s.stale == {} && !s.crossed
  }

  ghost predicate Run(ss: seq<Sys>, reqs: seq<Request>, p0: seq<Setting>) {
    && |ss| == |reqs| + 1 && Initial(ss[0], p0)
    && forall i :: 0 <= i < |reqs| ==> StepAt(ss, reqs, i)
  }

  ghost predicate StepAt(ss: seq<Sys>, reqs: seq<Request>, i: nat)
    requires i < |reqs| && |ss| == |reqs| + 1
  {
    Step(ss[i], reqs[i], ss[i + 1])
  }
}

/** Change notification: the pending requests of each session, and the fan-out of a change to
    the sessions on a repository (cenrepsrv/sessnotf.cpp, obsrvr_noc.cpp). */
module Notifier {
  import opened Errors
  import opened Sequences
  import opened Settings
  import opened Bits

  /** KRequestPending as an unsigned key. */
  const KRequestPending: Key := 0x8000_0001

  datatype Request = Request(id: Key, msg: int)

  datatype Group = Group(partial: Key, mask: Key, msg: int)

  datatype Completion = Completion(msg: int, code: int)

  datatype State = State(requests: seq<Request>, groups: seq<Group>, reporting: bool, completed: seq<Completion>)

  /** Single-key requests are in key order, one to a key. */
  predicate Ordered(s: State) {
    forall i, j :: 0 <= i < j < |s.requests| ==> s.requests[i].id < s.requests[j].id
  }

  // ----- what the operations do -----

  /** The place of a key among the requests, or KErrNotFound. */
  function Find(requests: seq<Request>, id: Key): (r: int)
    ensures -1 <= r < |requests|
    ensures r >= 0 ==> requests[r].id == id
    ensures r < 0 ==> forall i :: 0 <= i < |requests| ==> requests[i].id != id
  {
    if requests == [] then KErrNotFound
    else if requests[|requests| - 1].id == id then |requests| - 1
    else Find(requests[..|requests| - 1], id)
  }

  function Keep(gs: seq<Group>, hit: Group -> bool): seq<Group> {
    if gs == [] then []
    else if hit(gs[|gs| - 1]) then Keep(gs[..|gs| - 1], hit)
    else Keep(gs[..|gs| - 1], hit) + [gs[|gs| - 1]]
  }

  /** The completions of the groups that are hit, the last first. */
  function Hits(gs: seq<Group>, hit: Group -> bool, code: int): seq<Completion> {
    if gs == [] then []
    else if hit(gs[|gs| - 1]) then [Completion(gs[|gs| - 1].msg, code)] + Hits(gs[..|gs| - 1], hit, code)
    else Hits(gs[..|gs| - 1], hit, code)
  }

  function CompleteGroups(s: State, hit: Group -> bool, code: int): State {
    s.(groups := Keep(s.groups, hit), completed := s.completed + Hits(s.groups, hit, code))
  }

  function CompleteSingle(s: State, id: Key, code: int): State {
    var i := Find(s.requests, id);
    if i < 0 then s
    else s.(requests := Without(s.requests, i),
            completed := s.completed + [Completion(s.requests[i].msg, code)])
  }

  function Reported(s: State, id: Key): int {
    if s.reporting && id != KRequestPending then id else KUnspecifiedKey
  }

  function Covers(id: Key): Group -> bool {
    (g: Group) => Matches(id, g.partial, g.mask)
  }

  /** One change. */
  function Notify(s: State, id: Key): State {
    CompleteGroups(CompleteSingle(s, id, Reported(s, id)), Covers(id), Reported(s, id))
  }

  /** InsertInUnsignedKeyOrder: one request to a key. */
  function Add(s: State, id: Key, msg: int, oom: bool): (r: (State, int))
    requires Ordered(s)
  {
    if Find(s.requests, id) >= 0 then (s, KErrAlreadyExists)
    else if oom then (s, KErrNoMemory)
    else
      var at := Place(s.requests, id);
      (s.(requests := Inserted(s.requests, at, Request(id, msg))), KErrNone)
  }

  function Place(rs: seq<Request>, id: Key): (r: nat)
    ensures r <= |rs|
    ensures r > 0 ==> rs[r - 1].id < id
    ensures forall i :: r <= i < |rs| ==> rs[i].id >= id
  {
    if rs == [] then 0
    else if rs[|rs| - 1].id < id then |rs|
    else Place(rs[..|rs| - 1], id)
  }

  function AddGroup(s: State, partial: Key, mask: Key, msg: int, oom: bool): (State, int) {
    if oom then (s, KErrNoMemory) else (s.(groups := s.groups + [Group(partial, mask, msg)]), KErrNone)
  }

  function Equal(partial: Key, mask: Key): Group -> bool {
    (g: Group) => g.partial == partial && g.mask == mask
  }

  function Cancel(s: State, id: Key): (State, int) {
    (CompleteSingle(s, id, KUnspecifiedKey), if Find(s.requests, id) >= 0 then KErrNone else KErrNotFound)
  }

  function CancelGroup(s: State, partial: Key, mask: Key): (State, int) {
    (CompleteGroups(s, Equal(partial, mask), KUnspecifiedKey),
     if Hits(s.groups, Equal(partial, mask), KUnspecifiedKey) == [] then KErrNotFound else KErrNone)
  }

  /** The single-key requests, the last first, then the groups. */
  function CancelAll(s: State): State {
    CompleteGroups(s.(requests := [], completed := s.completed + AllSingles(s.requests)), (g: Group) => true, KUnspecifiedKey)
  }

  function AllSingles(rs: seq<Request>): seq<Completion> {
    if rs == [] then [] else [Completion(rs[|rs| - 1].msg, KUnspecifiedKey)] + AllSingles(rs[..|rs| - 1])
  }

  // ----- which requests a change completes -----

  lemma {:induction false} KeepMembers(gs: seq<Group>, hit: Group -> bool, code: int)
    ensures forall g :: g in Keep(gs, hit) <==> g in gs && !hit(g)
    ensures forall c :: c in Hits(gs, hit, code) <==> exists g :: g in gs && hit(g) && c == Completion(g.msg, code)
  {
    if gs != [] {
      var front, last := gs[..|gs| - 1], gs[|gs| - 1];
      KeepMembers(front, hit, code);
      assert gs == front + [last];
      forall c ensures c in Hits(gs, hit, code) <==> exists g :: g in gs && hit(g) && c == Completion(g.msg, code) {
        if hit(last) && c == Completion(last.msg, code) { assert last in gs; }
      }
    }
  }

  /** Exactly the requests that wait for the key are completed, all with the reported key; all
      others, and all earlier completions, are as they were. */
  lemma NotifyExact(s: State, id: Key)
    requires Ordered(s)
    ensures var s', code := Notify(s, id), Reported(s, id);
            && Ordered(s')
            && (forall r :: r in s'.requests <==> r in s.requests && r.id != id)
            && (forall g :: g in s'.groups <==> g in s.groups && !Matches(id, g.partial, g.mask))
            && s.completed <= s'.completed
            && (forall c :: c in s'.completed[|s.completed|..] <==>
                  c.code == code && ((Request(id, c.msg) in s.requests)
                                     || exists g :: g in s.groups && Matches(id, g.partial, g.mask) && g.msg == c.msg))
  {
    var code := Reported(s, id);
    var s1 := CompleteSingle(s, id, code);
    var s' := Notify(s, id);
    SingleExact(s, id, code);
    KeepMembers(s.groups, Covers(id), code);
    var hits := Hits(s.groups, Covers(id), code);
    assert s'.completed[|s.completed|..] == s1.completed[|s.completed|..] + hits;
    forall c
      ensures c in hits <==> c.code == code && exists g :: g in s.groups && Matches(id, g.partial, g.mask) && g.msg == c.msg
    {
      if g :| g in s.groups && Covers(id)(g) && c == Completion(g.msg, code) {
        assert g in s.groups && Matches(id, g.partial, g.mask) && g.msg == c.msg;
      }
      if c.code == code {
        if g :| g in s.groups && Matches(id, g.partial, g.mask) && g.msg == c.msg {
          assert g in s.groups && Covers(id)(g) && c == Completion(g.msg, code);
        }
      }
    }
  }

  lemma WithoutMembers(rs: seq<Request>, i: nat)
    requires i < |rs| && forall j, k :: 0 <= j < k < |rs| ==> rs[j].id < rs[k].id
    ensures forall j, k :: 0 <= j < k < |rs| - 1 ==> Without(rs, i)[j].id < Without(rs, i)[k].id
    ensures forall r :: r in Without(rs, i) <==> r in rs && r.id != rs[i].id
  {
    var left := Without(rs, i);
    forall r | r in rs && r.id != rs[i].id ensures r in left {
      var k :| 0 <= k < |rs| && rs[k] == r;
      assert left[if k < i then k else k - 1] == r;
    }
  }

  lemma SingleExact(s: State, id: Key, code: int)
    requires Ordered(s)
    ensures var s' := CompleteSingle(s, id, code);
            && Ordered(s') && s'.groups == s.groups && s'.reporting == s.reporting
            && (forall r :: r in s'.requests <==> r in s.requests && r.id != id)
            && s.completed <= s'.completed
            && (forall c :: c in s'.completed[|s.completed|..] <==> c.code == code && Request(id, c.msg) in s.requests)
  {
    var i := Find(s.requests, id);
    if i >= 0 {
      WithoutMembers(s.requests, i);
      var c := Completion(s.requests[i].msg, code);
      assert (s.completed + [c])[|s.completed|..] == [c];
    }
  }

  // ----- what is pending, what is completed -----

  function Pending(s: State): multiset<int> {
    Singles(s.requests) + GroupMsgs(s.groups)
  }

  function Singles(rs: seq<Request>): multiset<int> {
    if rs == [] then multiset{} else Singles(rs[..|rs| - 1]) + multiset{rs[|rs| - 1].msg}
  }

  function GroupMsgs(gs: seq<Group>): multiset<int> {
    if gs == [] then multiset{} else GroupMsgs(gs[..|gs| - 1]) + multiset{gs[|gs| - 1].msg}
  }

  function Completed(cs: seq<Completion>): multiset<int> {
    if cs == [] then multiset{} else Completed(cs[..|cs| - 1]) + multiset{cs[|cs| - 1].msg}
  }

  lemma {:induction false} CompletedAppend(a: seq<Completion>, b: seq<Completion>)
    ensures Completed(a + b) == Completed(a) + Completed(b)
  {
    if b == [] {
      assert a + b == a;
    } else {
      assert (a + b)[..|a + b| - 1] == a + b[..|b| - 1];
      CompletedAppend(a, b[..|b| - 1]);
    }
  }

  lemma {:induction false} SinglesWithout(rs: seq<Request>, i: nat)
    requires i < |rs|
    ensures Singles(Without(rs, i)) + multiset{rs[i].msg} == Singles(rs)
  {
    var n := |rs| - 1;
    if i < n {
      SinglesWithout(rs[..n], i);
      assert Without(rs, i)[..n - 1] == Without(rs[..n], i);
      Regroup(Singles(Without(rs[..n], i)), multiset{rs[i].msg}, multiset{rs[n].msg});
    } else {
      assert Without(rs, i) == rs[..n];
    }
  }

  lemma {:induction false} GroupsConserved(gs: seq<Group>, hit: Group -> bool, code: int)
    ensures GroupMsgs(Keep(gs, hit)) + Completed(Hits(gs, hit, code)) == GroupMsgs(gs)
  {
    if gs != [] {
      var front, msg := gs[..|gs| - 1], multiset{gs[|gs| - 1].msg};
      GroupsConserved(front, hit, code);
      LastConserved(gs, hit, code);
      Regroup(GroupMsgs(Keep(front, hit)), Completed(Hits(front, hit, code)), msg);
    }
  }

  /** Every request that is pending or has been completed. */
  function Balance(s: State): multiset<int> {
    Pending(s) + Completed(s.completed)
  }

  lemma Regroup(a: multiset<int>, b: multiset<int>, x: multiset<int>)
    ensures (a + x) + b == (a + b) + x && a + (b + x) == (a + b) + x
  {
  }

  lemma {:induction false} LastConserved(gs: seq<Group>, hit: Group -> bool, code: int)
    requires gs != []
    ensures var front, g := gs[..|gs| - 1], gs[|gs| - 1];
            var kept, hits := GroupMsgs(Keep(front, hit)), Completed(Hits(front, hit, code));
            && GroupMsgs(Keep(gs, hit)) == (if hit(g) then kept else kept + multiset{g.msg})
            && Completed(Hits(gs, hit, code)) == (if hit(g) then hits + multiset{g.msg} else hits)
  {
    var front, g := gs[..|gs| - 1], gs[|gs| - 1];
    if hit(g) {
      OneCompleted(g.msg, code, Hits(front, hit, code));
    } else {
      assert (Keep(front, hit) + [g])[..|Keep(front, hit)|] == Keep(front, hit);
    }
  }

  lemma OneCompleted(msg: int, code: int, cs: seq<Completion>)
    ensures Completed([Completion(msg, code)] + cs) == multiset{msg} + Completed(cs)
    ensures Completed(cs + [Completion(msg, code)]) == Completed(cs) + multiset{msg}
  {
    var c := [Completion(msg, code)];
    CompletedAppend(c, cs);
    CompletedAppend(cs, c);
    assert c[..0] == [];
  }

  lemma {:induction false} SingleConserved(s: State, id: Key, code: int)
    ensures var s' := CompleteSingle(s, id, code);
            Balance(s') == Balance(s)
  {
    var i := Find(s.requests, id);
    if i >= 0 {
      SinglesWithout(s.requests, i);
      OneCompleted(s.requests[i].msg, code, s.completed);
    }
  }

  lemma {:induction false} GroupStepConserved(s: State, hit: Group -> bool, code: int)
    ensures var s' := CompleteGroups(s, hit, code);
            Balance(s') == Balance(s)
  {
    GroupsConserved(s.groups, hit, code);
    CompletedAppend(s.completed, Hits(s.groups, hit, code));
  }

  /** No request is lost or completed twice by a change. */
  lemma {:induction false} NotifyConserves(s: State, id: Key)
    ensures var s' := Notify(s, id);
            Balance(s') == Balance(s)
  {
    var code := Reported(s, id);
    SingleConserved(s, id, code);
    GroupStepConserved(CompleteSingle(s, id, code), Covers(id), code);
  }

  // ----- runs -----

  datatype Op =
    | AddOp(id: Key, msg: int, oom: bool)
    | AddGroupOp(partial: Key, mask: Key, msg: int, oom: bool)
    | CancelOp(id: Key)
    | CancelGroupOp(partial: Key, mask: Key)
    | CancelAllOp
    | NotifyOp(id: Key)
    | ReportOp(on: bool)

  function Step(s: State, op: Op): (r: State)
    requires Ordered(s)
  {
    match op
    case AddOp(id, msg, oom) => Add(s, id, msg, oom).0
    case AddGroupOp(partial, mask, msg, oom) => AddGroup(s, partial, mask, msg, oom).0
    case CancelOp(id) => Cancel(s, id).0
    case CancelGroupOp(partial, mask) => CancelGroup(s, partial, mask).0
    case CancelAllOp => CancelAll(s)
    case NotifyOp(id) => Notify(s, id)
    case ReportOp(on) => s.(reporting := on)
  }

  /** The message a step accepts. */
  function Accepted(s: State, op: Op): multiset<int> {
    match op
    case AddOp(id, msg, oom) => if Find(s.requests, id) >= 0 || oom then multiset{} else multiset{msg}
    case AddGroupOp(_, _, msg, oom) => if oom then multiset{} else multiset{msg}
    case _ => multiset{}
  }

  lemma {:induction false} InsertedPending(rs: seq<Request>, at: nat, r: Request)
    requires at <= |rs|
    ensures Singles(Inserted(rs, at, r)) == Singles(rs) + multiset{r.msg}
  {
    var out := Inserted(rs, at, r);
    SinglesWithout(out, at);
    assert Without(out, at) == rs;
  }

  lemma {:induction false} AddOrdered(s: State, id: Key, msg: int, oom: bool)
    requires Ordered(s)
    ensures Ordered(Add(s, id, msg, oom).0)
  {
    if Find(s.requests, id) < 0 {
      var at, rs := Place(s.requests, id), s.requests;
      assert forall i :: 0 <= i < at ==> rs[i].id < id;
      assert forall i :: at <= i < |rs| ==> id < rs[i].id;
    }
  }

  lemma {:induction false} AddConserves(s: State, id: Key, msg: int, oom: bool)
    requires Ordered(s)
    ensures var s' := Add(s, id, msg, oom).0;
            Balance(s') == Balance(s) + Accepted(s, AddOp(id, msg, oom))
  {
    if Find(s.requests, id) < 0 && !oom {
      InsertedPending(s.requests, Place(s.requests, id), Request(id, msg));
      Regroup(Singles(s.requests), GroupMsgs(s.groups), multiset{msg});
      Regroup(Pending(s), Completed(s.completed), multiset{msg});
    }
  }

  lemma {:induction false} AddGroupConserves(s: State, partial: Key, mask: Key, msg: int)
    ensures var s' := AddGroup(s, partial, mask, msg, false).0;
            Balance(s') == Balance(s) + multiset{msg}
  {
    var gs := s.groups + [Group(partial, mask, msg)];
    assert gs[..|s.groups|] == s.groups;
    Regroup(Singles(s.requests), GroupMsgs(s.groups), multiset{msg});
    Regroup(Pending(s), Completed(s.completed), multiset{msg});
  }

  lemma {:induction false} AllSinglesCompleted(rs: seq<Request>)
    ensures Completed(AllSingles(rs)) == Singles(rs)
  {
    if rs != [] {
      AllSinglesCompleted(rs[..|rs| - 1]);
      OneCompleted(rs[|rs| - 1].msg, KUnspecifiedKey, AllSingles(rs[..|rs| - 1]));
    }
  }

  lemma {:induction false} CancelAllConserves(s: State)
    ensures var s' := CancelAll(s);
            Balance(s') == Balance(s)
  {
    AllSinglesCompleted(s.requests);
    CompletedAppend(s.completed, AllSingles(s.requests));
    GroupStepConserved(s.(requests := [], completed := s.completed + AllSingles(s.requests)), (g: Group) => true, KUnspecifiedKey);
  }

  lemma {:induction false} StepOrdered(s: State, op: Op)
    requires Ordered(s)
    ensures Ordered(Step(s, op))
  {
    match op
    case AddOp(id, msg, oom) => AddOrdered(s, id, msg, oom);
    case CancelOp(id) => SingleExact(s, id, KUnspecifiedKey);
    case NotifyOp(id) => NotifyExact(s, id);
    case _ =>
  }

  lemma {:induction false} OnlyMoves(s: State, op: Op)
    requires Ordered(s) && !op.AddOp? && !op.AddGroupOp?
    ensures var s' := Step(s, op);
            Balance(s') == Balance(s)
  {
    match op
    case CancelOp(id) => SingleConserved(s, id, KUnspecifiedKey);
    case CancelGroupOp(partial, mask) => GroupStepConserved(s, Equal(partial, mask), KUnspecifiedKey);
    case CancelAllOp => CancelAllConserves(s);
    case NotifyOp(id) => NotifyConserves(s, id);
    case ReportOp(_) =>
  }

  /** A step accepts what it accepts, and otherwise only moves requests from pending to completed. */
  lemma {:induction false} StepConserves(s: State, op: Op)
    requires Ordered(s)
    ensures var s' := Step(s, op);
            && Ordered(s')
            && Balance(s') == Balance(s) + Accepted(s, op)
  {
    StepOrdered(s, op);
    match op
    case AddOp(id, msg, oom) => AddConserves(s, id, msg, oom);
    case AddGroupOp(partial, mask, msg, oom) => if !oom { AddGroupConserves(s, partial, mask, msg); }
    case _ => OnlyMoves(s, op);
  }

  const Fresh := State([], [], true, [])

  function Run(ops: seq<Op>): (r: (State, multiset<int>))
    ensures Ordered(r.0)
  {
    if ops == [] then (Fresh, multiset{})
    else
      var (s, accepted) := Run(ops[..|ops| - 1]);
      var op := ops[|ops| - 1];
      StepConserves(s, op);
      (Step(s, op), accepted + Accepted(s, op))
  }

  /** Over any run every request that was accepted is pending, or has been completed once. */
  lemma {:induction false} RunConserves(ops: seq<Op>)
    ensures var (s, accepted) := Run(ops);
            Balance(s) == accepted
  {
    if ops != [] {
      RunConserves(ops[..|ops| - 1]);
      StepConserves(Run(ops[..|ops| - 1]).0, ops[|ops| - 1]);
    }
  }

  // ----- the objects -----

  class SessionNotifier {
    var requests: seq<Request>
    var groups: seq<Group>
    var reporting: bool
    var completed: seq<Completion>

    function Value(): State
      reads this
    {
      State(requests, groups, reporting, completed)
    }

    constructor ()
      ensures Value() == Fresh
    {
      requests, groups, reporting, completed := [], [], true, [];
    }

    method CompleteSingleRequest(id: Key, code: int) returns (found: bool)
      modifies this
      ensures Value() == CompleteSingle(old(Value()), id, code) && found == (Find(old(requests), id) >= 0)
    {
      var i := Find(requests, id);
      if i >= 0 {
        completed := completed + [Completion(requests[i].msg, code)];
        requests := Without(requests, i);
      }
      return i >= 0;
    }

    /** The loops over the group requests, from the last to the first. */
    method CompleteGroupRequests(hit: Group -> bool, code: int) returns (n: nat)
      modifies this
      ensures Value() == CompleteGroups(old(Value()), hit, code)
      ensures n == |Hits(old(groups), hit, code)|
    {
      ghost var gs, kept: seq<Group>, done: seq<Completion> := groups, [], [];
      n := 0;
      var i := |groups|;
      AllGroups(gs, hit, code);
      while i > 0
        invariant 0 <= i <= |gs| && requests == old(requests) && reporting == old(reporting)
        invariant groups == gs[..i] + kept && completed == old(completed) + done && n == |done|
        invariant Keep(gs, hit) == Keep(gs[..i], hit) + kept
        invariant Hits(gs, hit, code) == done + Hits(gs[..i], hit, code)
      {
        i := i - 1;
        var g := groups[i];
        LastGroup(gs, i, hit, code, kept, done);
        if hit(g) {
          completed := completed + [Completion(g.msg, code)];
          groups := groups[..i] + groups[i + 1..];
          n, done := n + 1, done + [Completion(g.msg, code)];
        } else {
          kept := [g] + kept;
        }
      }
      NoGroups(gs, hit, code, kept, done);
    }

    method NotifyKey(id: Key)
      modifies this
      ensures Value() == Notify(old(Value()), id)
    {
      var reportedId := Reported(Value(), id);
      var _ := CompleteSingleRequest(id, reportedId);
      var _ := CompleteGroupRequests(Covers(id), reportedId);
    }

    method AddRequest(id: Key, msg: int, oom: bool) returns (err: int)
      requires Ordered(Value())
      modifies this
      ensures (Value(), err) == Add(old(Value()), id, msg, oom)
    {
      if Find(requests, id) >= 0 { return KErrAlreadyExists; }
      if oom { return KErrNoMemory; }
      requests := Inserted(requests, Place(requests, id), Request(id, msg));
      return KErrNone;
    }

    method AddGroupRequest(partial: Key, mask: Key, msg: int, oom: bool) returns (err: int)
      modifies this
      ensures (Value(), err) == AddGroup(old(Value()), partial, mask, msg, oom)
    {
      if oom { return KErrNoMemory; }
      groups := groups + [Group(partial, mask, msg)];
      return KErrNone;
    }

    method CancelRequest(id: Key) returns (err: int)
      modifies this
      ensures (Value(), err) == Cancel(old(Value()), id)
    {
      var found := CompleteSingleRequest(id, KUnspecifiedKey);
      return if found then KErrNone else KErrNotFound;
    }

    method CancelGroupRequest(partial: Key, mask: Key) returns (err: int)
      modifies this
      ensures (Value(), err) == CancelGroup(old(Value()), partial, mask)
    {
      var n := CompleteGroupRequests(Equal(partial, mask), KUnspecifiedKey);
      return if n > 0 then KErrNone else KErrNotFound;
    }

    method CompleteAllSingles()
      modifies this`completed
      ensures completed == old(completed) + AllSingles(requests)
    {
      var n := |requests|;
      ghost var done: seq<Completion> := [];
      assert requests[..n] == requests;
      while n > 0
        invariant 0 <= n <= |requests| && completed == old(completed) + done
        invariant AllSingles(requests) == done + AllSingles(requests[..n])
      {
        n := n - 1;
        LastSingle(requests, n, done);
        completed := completed + [Completion(requests[n].msg, KUnspecifiedKey)];
        done := done + [Completion(requests[n].msg, KUnspecifiedKey)];
      }
      assert done + [] == done;
    }

    method CancelAllRequests()
      modifies this
      ensures Value() == CancelAll(old(Value()))
    {
      CompleteAllSingles();
      requests := [];
      var _ := CompleteGroupRequests((g: Group) => true, KUnspecifiedKey);
    }
  }

  lemma {:induction false} LastSingle(rs: seq<Request>, n: nat, done: seq<Completion>)
    requires n < |rs|
    ensures done + AllSingles(rs[..n + 1]) == (done + [Completion(rs[n].msg, KUnspecifiedKey)]) + AllSingles(rs[..n])
  {
    assert rs[..n + 1][..n] == rs[..n];
  }

  lemma {:induction false} LastGroup(gs: seq<Group>, i: nat, hit: Group -> bool, code: int, kept: seq<Group>, done: seq<Completion>)
    requires i < |gs|
    ensures gs[..i + 1] + kept == gs[..i] + ([gs[i]] + kept)
    ensures (gs[..i + 1] + kept)[..i] + (gs[..i + 1] + kept)[i + 1..] == gs[..i] + kept
    ensures Keep(gs[..i + 1], hit) + kept
         == if hit(gs[i]) then Keep(gs[..i], hit) + kept else Keep(gs[..i], hit) + ([gs[i]] + kept)
    ensures done + Hits(gs[..i + 1], hit, code)
         == if hit(gs[i]) then (done + [Completion(gs[i].msg, code)]) + Hits(gs[..i], hit, code) else done + Hits(gs[..i], hit, code)
  {
    assert gs[..i + 1][..i] == gs[..i];
  }

  lemma {:induction false} AllGroups(gs: seq<Group>, hit: Group -> bool, code: int)
    ensures gs[..|gs|] + [] == gs
    ensures Keep(gs, hit) == Keep(gs[..|gs|], hit) + []
    ensures Hits(gs, hit, code) == [] + Hits(gs[..|gs|], hit, code)
  {
    assert gs[..|gs|] == gs;
  }

  lemma {:induction false} NoGroups(gs: seq<Group>, hit: Group -> bool, code: int, kept: seq<Group>, done: seq<Completion>)
    ensures gs[..0] + kept == kept == Keep(gs[..0], hit) + kept
    ensures done + Hits(gs[..0], hit, code) == done
  {
  }

  /** A session listening on the repository of a uid. */
  datatype Observer = Observer(uid: int, client: int, notifier: SessionNotifier)

  predicate Precedes(a: Observer, b: Observer) {
    a.uid < b.uid || (a.uid == b.uid && a.client < b.client)
  }

  lemma {:induction false} InsertedMembers(s: seq<Observer>, i: nat, o: Observer)
    requires i <= |s|
    ensures forall x :: x in s[..i] + [o] + s[i..] <==> x in s || x == o
  {
    assert s == s[..i] + s[i..];
  }

  lemma {:induction false} InsertedInOrder(s: seq<Observer>, i: nat, o: Observer)
    requires i <= |s|
    requires forall j, k :: 0 <= j < k < |s| ==> Precedes(s[j], s[k])
    requires forall j, k :: 0 <= j < k < |s| ==> s[j].notifier != s[k].notifier
    requires forall j :: 0 <= j < |s| ==> s[j].notifier != o.notifier
    requires forall k :: 0 <= k < i ==> Precedes(s[k], o)
    requires i < |s| ==> Precedes(o, s[i])
    ensures var r := s[..i] + [o] + s[i..];
            && (forall j, k :: 0 <= j < k < |r| ==> Precedes(r[j], r[k]))
            && (forall j, k :: 0 <= j < k < |r| ==> r[j].notifier != r[k].notifier)
  {
    var r := s[..i] + [o] + s[i..];
    forall j, k | 0 <= j < k < |r| ensures Precedes(r[j], r[k]) && r[j].notifier != r[k].notifier {
      assert r[j] == if j < i then s[j] else if j == i then o else s[j - 1];
      assert r[k] == if k < i then s[k] else if k == i then o else s[k - 1];
    }
  }

  class Observers {
    var observers: seq<Observer>

    /** In order of uid and client, without duplicates, each with a notifier of its own. */
    ghost predicate Valid()
      reads this
    {
      && (forall i, j :: 0 <= i < j < |observers| ==> Precedes(observers[i], observers[j]))
      && (forall i, j :: 0 <= i < j < |observers| ==> observers[i].notifier != observers[j].notifier)
    }

    constructor ()
      ensures Valid() && observers == []
    {
      observers := [];
    }

    predicate Listed(uid: int, client: int)
      reads this
    {
      exists k :: 0 <= k < |observers| && observers[k].uid == uid && observers[k].client == client
    }

    /** InsertInOrder; an observer that is there already is not added, and that is no error. A
        notifier belongs to one client. */
    method AddObserver(o: Observer, oom: bool) returns (err: int)
      requires Valid() && forall i :: 0 <= i < |observers| && observers[i].notifier == o.notifier ==> observers[i] == o
      modifies this
      ensures Valid() && err == if old(Listed(o.uid, o.client)) || !oom then KErrNone else KErrNoMemory
      ensures err == KErrNone ==> Listed(o.uid, o.client)
      ensures old(Listed(o.uid, o.client)) || oom ==> observers == old(observers)
      ensures !old(Listed(o.uid, o.client)) && !oom ==> forall x :: x in observers <==> x in old(observers) || x == o
    {
      var i := 0;
      while i < |observers| && Precedes(observers[i], o)
        invariant 0 <= i <= |observers|
        invariant forall k :: 0 <= k < i ==> Precedes(observers[k], o)
      {
        i := i + 1;
      }
      if i < |observers| && observers[i].uid == o.uid && observers[i].client == o.client { return KErrNone; }
      if oom { return KErrNoMemory; }
      InsertedInOrder(observers, i, o);
      InsertedMembers(observers, i, o);
      observers := observers[..i] + [o] + observers[i..];
      assert observers[i] == o;
      return KErrNone;
    }

    method FindConnectedRepository(uid: int) returns (i: int)
      requires Valid()
      ensures -1 <= i < |observers|
      ensures i >= 0 ==> observers[i].uid == uid && forall k :: 0 <= k < i ==> observers[k].uid < uid
      ensures i < 0 ==> forall k :: 0 <= k < |observers| ==> observers[k].uid != uid
    {
      i := 0;
      while i < |observers| && observers[i].uid < uid
        invariant 0 <= i <= |observers|
        invariant forall k :: 0 <= k < i ==> observers[k].uid < uid
      {
        i := i + 1;
      }
      if i == |observers| || observers[i].uid != uid { i := -1; }
    }

    ghost function Values(): (r: seq<State>)
      reads this, set o | o in observers :: o.notifier
      ensures |r| == |observers| && forall k :: 0 <= k < |r| ==> r[k] == observers[k].notifier.Value()
    {
      var os := observers;
      seq(|os|, k requires 0 <= k < |os| reads set o | o in os :: o.notifier => os[k].notifier.Value())
    }

    method NotifyOne(i: nat, id: Key)
      requires Valid() && i < |observers|
      modifies observers[i].notifier
      ensures Values() == old(Values())[i := Notify(old(Values())[i], id)]
    {
      observers[i].notifier.NotifyKey(id);
    }

    /** The observers of one uid lie together. */
    method NotifyBlock(first: nat, uid: int, id: Key) returns (end: nat)
      requires Valid() && first < |observers|
      modifies set o | o in observers :: o.notifier
      ensures first <= end <= |observers| && Values() == Told(old(Values()), first, end, id)
      ensures forall k :: first <= k < end ==> observers[k].uid == uid
      ensures end < |observers| ==> observers[end].uid != uid
    {
      ghost var was := Values();
      end := first;
      while end < |observers| && observers[end].uid == uid
        invariant first <= end <= |observers| && Values() == Told(was, first, end, id)
        invariant forall k :: first <= k < end ==> observers[k].uid == uid
      {
        assert Told(was, first, end + 1, id) == Told(was, first, end, id)[end := Notify(was[end], id)];
        NotifyOne(end, id);
        end := end + 1;
      }
    }

    /** The fan-out: every session on the uid gets the change once, and no other session. */
    method NotifyChange(uid: int, id: Key)
      requires Valid()
      modifies set o | o in observers :: o.notifier
      ensures forall k :: 0 <= k < |observers| ==>
                Values()[k] == if observers[k].uid == uid then Notify(old(Values())[k], id) else old(Values())[k]
    {
      var first := FindConnectedRepository(uid);
      if first < 0 { return; }
      var end := NotifyBlock(first, uid, id);
      assert forall k :: end < k < |observers| ==> Precedes(observers[end], observers[k]);
    }
  }

  function Told(was: seq<State>, first: nat, end: nat, id: Key): (r: seq<State>)
    ensures |r| == |was|
    ensures forall k :: 0 <= k < |was| ==> r[k] == if first <= k < end then Notify(was[k], id) else was[k]
  {
    seq(|was|, k requires 0 <= k < |was| => if first <= k < end then Notify(was[k], id) else was[k])
  }
}

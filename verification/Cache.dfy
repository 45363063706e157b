/** The open repositories of the server and the cache that unloads the idle ones, as the objects
    that update them in place (cenrepsrv/cachemgr.cpp, obsrvr_noc.cpp). */
module Cache {
  import opened Sequences
  import opened Transactions
  import opened IdleList
  import opened Eviction
  import opened Accounts

  // ----- the open repositories -----

  /** The slot of the repository of a uid, below n, or -1. */
  function UidTo(s: seq<OpenRep>, uid: int, n: nat): (r: int)
    requires n <= |s|
    ensures -1 <= r < n && (r >= 0 ==> s[r].uid == uid)
  {
    if n == 0 then -1 else if s[n - 1].uid == uid then n - 1 else UidTo(s, uid, n - 1)
  }

  function UidIndex(s: seq<OpenRep>, uid: int): (r: int)
    ensures -1 <= r < |s| && (r >= 0 ==> s[r].uid == uid)
  {
    UidTo(s, uid, |s|)
  }

  lemma {:induction false} UidFound(s: seq<OpenRep>, uid: int, n: nat)
    requires n <= |s|
    ensures UidTo(s, uid, n) < 0 ==> forall r :: r in s[..n] ==> r.uid != uid
  {
    if n > 0 {
      UidFound(s, uid, n - 1);
      assert s[..n] == s[..n - 1] + [s[n - 1]];
    }
  }

  lemma UidAbsent(s: seq<OpenRep>, uid: int)
    ensures UidIndex(s, uid) < 0 <==> forall r :: r in s ==> r.uid != uid
  {
    UidFound(s, uid, |s|);
    assert s[..|s|] == s;
  }

  class Observable {
    var open: seq<OpenRep>
    var behind: seq<OpenRep>   // what the array's memory holds behind its last element
    var disks: map<int, Disk>

    constructor (disks: map<int, Disk>)
      ensures open == [] && this.disks == disks
    {
      open, behind, this.disks := [], [], disks;
    }

    /** One repository in memory for a uid, and it mirrors its file. */
    ghost predicate Valid()
      reads this, open
    {
      OneByUid(open) && forall i :: 0 <= i < |open| ==> InStep(i)
    }

    ghost predicate InStep(i: nat)
      requires i < |open|
      reads this, open
    {
      open[i].uid in disks && open[i].Mirrors(disks[open[i].uid])
    }

    /** The file of an open repository. */
    function FileOf(rep: OpenRep): (disk: Disk)
      reads this, open
      requires Valid() && rep in open
      ensures rep.uid in disks && disk == disks[rep.uid] && rep.Mirrors(disk)
    {
      assert exists i :: 0 <= i < |open| && InStep(i) && open[i] == rep;
      disks[rep.uid]
    }

    method FindOpenRepository(uid: int) returns (i: int)
      ensures i == UidIndex(open, uid)
    {
      i := |open| - 1;
      while i >= 0 && open[i].uid != uid
        invariant -1 <= i < |open| && UidTo(open, uid, i + 1) == UidIndex(open, uid)
      {
        i := i - 1;
      }
    }

    /** RPointerArray::Remove. */
    method RemoveAt(k: nat)
      requires Valid() && k < |open|
      modifies this`open, this`behind
      ensures Valid() && open == Without(old(open), k) && behind == [old(open[|open| - 1])] + old(behind)
    {
      OneWithout(open, k);
      open, behind := Without(open, k), [open[|open| - 1]] + behind;
      forall i | 0 <= i < |open| ensures InStep(i) { assert old(InStep(if i < k then i else i + 1)); }
    }

    /** A repository that is not open is ignored. */
    method RemoveOpenRepository(rep: OpenRep)
      requires Valid()
      modifies this`open, this`behind
      ensures Valid() && forall r :: r in open <==> r in old(open) && r != rep
      ensures var k := IndexOf(old(open), rep);
              if k < 0 then open == old(open) && behind == old(behind)
              else open == Without(old(open), k) && behind == [old(open[|open| - 1])] + old(behind)
    {
      IndexIn(open, rep);
      var index := 0;
      while index < |open| && open[index] != rep
        invariant 0 <= index <= |open| && IndexFrom(open, rep, index) == IndexOf(open, rep)
      {
        index := index + 1;
      }
      if index < |open| {
        OneWithout(open, index);
        RemoveAt(index);
      }
    }

    /** AddOpenRepositoryL, into the memory behind the last element. */
    method AddOpenRepository(rep: OpenRep)
      requires Valid() && rep.uid in disks && rep.Mirrors(disks[rep.uid])
      requires forall r :: r in open ==> r.uid != rep.uid
      modifies this`open, this`behind
      ensures Valid() && open == old(open) + [rep]
      ensures behind == if old(behind) == [] then [] else old(behind)[1..]
    {
      ghost var before := open;
      open, behind := open + [rep], if behind == [] then [] else behind[1..];
      forall i, j | 0 <= i < j < |open| ensures !SameUid(open, i, j) {
        if j < |before| { assert !SameUid(before, i, j); } else { assert before[i] in before; }
      }
      forall i | 0 <= i < |open| ensures InStep(i) {
        if i < |before| { assert old(InStep(i)); }
      }
    }
  }

  // ----- the cache -----

  /** How many are due, from n on. */
  function DueFrom(s: seq<Idle>, now: int, n: nat): (r: nat)
    requires n <= |s|
    ensures n <= r <= |s| && (r < |s| ==> s[r].time > now)
    decreases |s| - n
  {
    if n < |s| && s[n].time <= now then DueFrom(s, now, n + 1) else n
  }

  lemma {:induction false} DueUpTo(s: seq<Idle>, now: int, n: nat, i: nat)
    requires n <= |s| && n <= i < DueFrom(s, now, n)
    ensures s[i].time <= now
    decreases |s| - n
  {
    if n < i { DueUpTo(s, now, n + 1, i); }
  }

  /** In a list in order of time, what is left is what is not due. */
  lemma DueSplits(s: seq<Idle>, now: int)
    requires TimeSorted(s)
    ensures var n := DueFrom(s, now, 0);
            forall x :: x in s[n..] <==> x in s && x.time > now
  {
    var n := DueFrom(s, now, 0);
    forall k | 0 <= k < n ensures s[k].time <= now { DueUpTo(s, now, 0, k); }
    forall k | n < k < |s| ensures s[k].time > now { assert InOrder(s, n, k); }
    forall x | x in s && x.time > now ensures x in s[n..] {
      var k :| 0 <= k < |s| && s[k] == x;
      assert s[n..][k - n] == x;
    }
  }

  /** The first repository that is due and in use by a transaction, from n on, or -1. */
  function BusyFrom(s: seq<Idle>, now: int, inUse: set<int>, n: nat): (r: int)
    requires n <= |s|
    ensures r == -1 || (n <= r < |s| && s[r].time <= now && s[r].rep.uid in inUse)
    decreases |s| - n
  {
    if n == |s| || s[n].time > now then -1
    else if s[n].rep.uid in inUse then n
    else BusyFrom(s, now, inUse, n + 1)
  }

  function BusySlot(s: seq<Idle>, now: int, inUse: set<int>): (r: int)
    ensures r == -1 || (0 <= r < |s| && s[r].time <= now && s[r].rep.uid in inUse)
  {
    BusyFrom(s, now, inUse, 0)
  }

  lemma {:induction false} BusyFirst(s: seq<Idle>, now: int, inUse: set<int>, n: nat, k: nat)
    requires TimeSorted(s) && n <= k < |s| && s[k].time <= now && s[k].rep.uid in inUse
    ensures 0 <= BusyFrom(s, now, inUse, n) <= k
    decreases |s| - n
  {
    if n < k {
      assert InOrder(s, n, k);
      if s[n].rep.uid !in inUse { BusyFirst(s, now, inUse, n + 1, k); }
    }
  }

  /** There is one exactly if any is due and in use, and it is the first. */
  lemma BusyMeans(s: seq<Idle>, now: int, inUse: set<int>)
    requires TimeSorted(s)
    ensures var r := BusySlot(s, now, inUse);
            && (r >= 0 <==> exists x :: x in s && x.time <= now && x.rep.uid in inUse)
            && forall k :: 0 <= k < r ==> s[k].time <= now && s[k].rep.uid !in inUse
  {
    var r := BusySlot(s, now, inUse);
    if x :| x in s && x.time <= now && x.rep.uid in inUse {
      var k :| 0 <= k < |s| && s[k] == x;
      BusyFirst(s, now, inUse, 0, k);
    }
    forall k | 0 <= k < r ensures s[k].time <= now && s[k].rep.uid !in inUse {
      assert InOrder(s, k, r);
      if s[k].rep.uid in inUse { BusyFirst(s, now, inUse, 0, k); }
    }
    if r >= 0 { assert s[r] in s; }
  }

  class CacheManager {
    const observable: Observable
    var enabled: bool
    var usage: int
    var idle: seq<Idle>
    var behind: seq<Idle>   // what the array's memory holds behind its last element
    var timeout: int
    var cacheSize: nat

    constructor (observable: Observable, timeout: int, cacheSize: nat)
      requires observable.Valid()
      ensures Valid() && Consistent() && this.observable == observable && enabled && idle == [] && usage == 0
      ensures this.timeout == timeout && this.cacheSize == cacheSize
    {
      this.observable, this.timeout, this.cacheSize := observable, timeout, cacheSize;
      enabled, usage, idle, behind := true, 0, [], [];
    }

    function Now(): Store
      reads this, observable
    {
      Store(idle, behind, observable.open, observable.behind, usage)
    }

    /** What holds in every state: each uid has at most one repository in memory, which mirrors its
        file; the usage is the sum of the sizes on the idle list, which is in order of time. */
    ghost predicate Consistent()
      reads this, observable, observable.open
    {
      observable.Valid() && Books(Now(), enabled)
    }

    /** And when the accounts are in order: idle repositories are open and on the list once, and
        the usage is within the limit. */
    ghost predicate Valid()
      reads this, observable, observable.open
    {
      observable.Valid() && Sound(Now(), enabled, cacheSize)
    }

    method RemoveIdleRepository(rep: OpenRep)
      requires Consistent()
      modifies this`usage, this`idle, this`behind
      ensures Consistent() && Now() == TakenOff(old(Now()), rep) && usage <= old(usage)
      ensures old(Valid()) ==> Valid() && !HasRep(idle, rep)
    {
      if enabled {
        TakenOffBooks(Now(), rep);
        if Sound(Now(), true, cacheSize) { TakenOffSound(Now(), cacheSize, rep); }
        var i := FindRep(idle, rep);
        if i >= 0 {
          usage := usage - idle[i].rep.size;
          idle, behind := Without(idle, i), [idle[|idle| - 1]] + behind;
        }
      }
    }

    /** Unloads the first idle repository. */
    method EvictFirst()
      requires observable.Valid() && idle != []
      modifies this`usage, this`idle, this`behind, observable`open, observable`behind
      ensures observable.Valid() && Now() == IdleOut(Closed(old(Now()), old(idle[0].rep)), 0)
    {
      WithoutSlices(idle, 0);
      usage := usage - idle[0].rep.size;
      observable.RemoveOpenRepository(idle[0].rep);
      idle, behind := idle[1..], [idle[|idle| - 1]] + behind;
    }

    /** The same when n have been unloaded since s. */
    method EvictNext(ghost s: Store, ghost n: nat)
      requires observable.Valid() && n < |s.idle| && Now() == Evicted(s, n)
      modifies this`usage, this`idle, this`behind, observable`open, observable`behind
      ensures observable.Valid() && Now() == Evicted(s, n + 1) && |idle| == |s.idle| - n - 1
    {
      EvictFirst();
      assert Now() == NextOut(s, n);
    }

    /** The forced eviction, in the order of the list: until what the reference names by then
        fits, or none is left. */
    method EvictUntilFits(ref: Ref)
      requires observable.Valid() && idle != [] && Points(Now(), ref)
      modifies this`usage, this`idle, this`behind, observable`open, observable`behind
      ensures observable.Valid() && Now() == Evicted(old(Now()), Rounds(old(Now()), cacheSize, ref, 1))
    {
      ghost var s, n := Now(), 1;
      assert Evicted(s, 0) == s;
      EvictNext(s, 0);
      while idle != [] && !Fits(Now(), cacheSize, ref)
        invariant observable.Valid() && 1 <= n <= |s.idle| && Now() == Evicted(s, n) && |idle| == |s.idle| - n
        invariant Rounds(s, cacheSize, ref, n) == Rounds(s, cacheSize, ref, 1)
        decreases |idle|
      {
        EvictNext(s, n);
        n := n + 1;
      }
    }

    /** The eviction makes sense if there is something to evict and the repository would fit.
        forced is the order that sorting the idle repositories gives. */
    method MakeRoom(ref: Ref, forced: seq<Idle>)
      requires Consistent() && enabled && Points(Now(), ref) && Rearranged(forced, idle)
      modifies this`usage, this`idle, this`behind, observable`open, observable`behind
      ensures Consistent() && usage <= old(usage) && |forced| == |old(idle)|
      ensures Now() == Room(old(Now()), cacheSize, ref, forced)
    {
      RearrangedLength(forced, idle);
      RoomBooks(Now(), cacheSize, ref, forced);
      if Crowded(Now(), cacheSize, ref) { ForceOut(ref, forced); }
    }

    method ForceOut(ref: Ref, forced: seq<Idle>)
      requires observable.Valid() && Points(Now(), ref) && |forced| == |idle| && Crowded(Now(), cacheSize, ref)
      modifies this`usage, this`idle, this`behind, observable`open, observable`behind
      ensures observable.Valid() && Now() == Room(old(Now()), cacheSize, ref, forced)
    {
      idle := forced;
      EvictUntilFits(ref);
      idle := SortByTime(idle);
    }

    /** What the reference names by now is inserted, if there is room for it. */
    method Insert(ref: Ref, now: int, oom: bool) returns (ok: bool)
      requires Consistent() && enabled && Points(Now(), ref)
      modifies this`usage, this`idle, this`behind
      ensures Consistent() && (old(usage) <= cacheSize ==> usage <= cacheSize)
      ensures (Now(), ok) == Admit(old(Now()), cacheSize, ref, now + timeout, oom)
    {
      AdmitBooks(Now(), cacheSize, ref, now + timeout, oom);
      if !Fits(Now(), cacheSize, ref) { return false; }
      var info := Idle(now + timeout, Deref(Now(), ref));
      if oom { return false; }
      idle := InsertByTime(idle, info);
      behind := if behind == [] then [] else behind[1..];
      usage := usage + info.rep.size;
      return true;
    }

    /** Decides whether a repository that has just been used, or left, stays in memory as idle,
        forcing others out if that makes it fit. It is given by reference, and what the
        reference names in the end is what becomes idle. oom says whether the insertion runs
        out of memory. */
    method StartEviction(ref: Ref, now: int, forced: seq<Idle>, oom: bool) returns (ok: bool)
      requires Consistent() && enabled && Inside(Now(), ref)
      requires Rearranged(forced, TakenOff(Now(), Deref(Now(), ref)).idle)
      requires |forced| == |TakenOff(Now(), Deref(Now(), ref)).idle|
      modifies this`usage, this`idle, this`behind, observable`open, observable`behind
      ensures (Now(), ok) == Start(old(Now()), cacheSize, ref, forced, now + timeout, oom)
      ensures Consistent()
      ensures old(usage) <= cacheSize ==> usage <= cacheSize
    {
      RemoveIdleRepository(Deref(Now(), ref));
      MakeRoom(ref, forced);
      ok := Insert(ref, now, oom);
    }

    /** Empties the idle list, whatever is on it. What a client is still connected to stays in
        memory, unless everything is to go. The accounts are in order again. */
    method FlushCache(fullFlush: bool, connected: set<int>)
      requires observable.Valid()
      modifies this`usage, this`idle, this`behind, observable`open, observable`behind
      ensures Valid() && idle == [] && usage == 0
      ensures forall r :: r in observable.open <==>
                r in old(observable.open) && (HasRep(old(idle), r) ==> !fullFlush && r.uid in connected)
    {
      var n := |idle|;
      while n > 0
        invariant 0 <= n <= |idle| && observable.Valid()
        invariant forall r :: r in observable.open <==>
                    r in old(observable.open) && (HasRep(idle[n..], r) ==> !fullFlush && r.uid in connected)
        modifies observable`open, observable`behind
      {
        n := n - 1;
        SuffixMore(idle, n);
        if fullFlush || idle[n].rep.uid !in connected {
          observable.RemoveOpenRepository(idle[n].rep);
        }
      }
      assert idle[0..] == idle;
      idle, behind := [], [];
      usage := 0;
    }

    method DisableCache(fullFlush: bool, connected: set<int>)
      requires Consistent()
      modifies this`enabled, this`usage, this`idle, this`behind, observable`open, observable`behind
      ensures Valid() && !enabled && idle == [] && usage == 0
      ensures forall r :: r in observable.open ==> r in old(observable.open)
    {
      if enabled {
        FlushCache(fullFlush, connected);
        enabled := false;
      }
    }

    /** A new limit is taken whenever it is positive. Accounts that are in order stay so exactly
        when what is idle already is within it. */
    method EnableCache(defaultTimeout: int, size: int)
      requires Consistent()
      modifies this`enabled, this`timeout, this`cacheSize
      ensures Consistent() && enabled
      ensures timeout == if defaultTimeout > 0 then defaultTimeout else old(timeout)
      ensures cacheSize == if size > 0 then size else old(cacheSize)
      ensures old(Valid()) ==> (Valid() <==> size <= 0 || usage <= size)
    {
      if defaultTimeout > 0 { timeout := defaultTimeout; }
      if size > 0 { cacheSize := size; }
      enabled := true;
    }

    /** A cache that holds more than the new limit: the accounts are not in order. */
    method EnableBelowUsage()
      requires Valid() && usage == 3
      modifies this`enabled, this`timeout, this`cacheSize
      ensures cacheSize == 2 < usage == Sum(idle) && !Valid()
    {
      EnableCache(0, 2);
    }

    /** The timer. If a repository that is due is in use by a transaction, it is to be made idle
        anew and that is all; otherwise everything that is due is unloaded. The busy one is given
        by the slot it is about to be removed from. */
    method RunL(now: int, inUse: set<int>, forced: seq<Idle>, oom: bool) returns (ok: bool)
      requires Consistent() && enabled
      requires var i := BusySlot(idle, now, inUse);
               i >= 0 ==> Rearranged(forced, TakenOff(Now(), idle[i].rep).idle)
      modifies this`usage, this`idle, this`behind, observable`open, observable`behind
      ensures Consistent() && (old(usage) <= cacheSize ==> usage <= cacheSize)
      ensures BusySlot(old(idle), now, inUse) < 0 ==>
                && Now() == Evicted(old(Now()), DueFrom(old(idle), now, 0))
                && (forall x :: x in idle <==> x in old(idle) && x.time > now)
                && (old(Valid()) ==> Valid())
      ensures var i := BusySlot(old(idle), now, inUse);
              i >= 0 ==>
                && |forced| == |TakenOff(old(Now()), old(idle)[i].rep).idle|
                && (Now(), ok) == Start(old(Now()), cacheSize, IdleSlot(i), forced, now + timeout, oom)
                && (old(Valid()) ==> (Valid() <==> !ok || i == |old(idle)| - 1))
    {
      var i := 0;
      while i < |idle| && idle[i].time <= now
        invariant 0 <= i <= |idle| && BusyFrom(idle, now, inUse, i) == BusySlot(idle, now, inUse)
      {
        if idle[i].rep.uid in inUse {
          RearrangedLength(forced, TakenOff(Now(), idle[i].rep).idle);
          ok := Restart(i, now, forced, oom);
          return;
        }
        i := i + 1;
      }
      ok := false;
      EvictDue(now);
    }

    method Restart(i: nat, now: int, forced: seq<Idle>, oom: bool) returns (ok: bool)
      requires Consistent() && enabled && i < |idle| && Rearranged(forced, TakenOff(Now(), idle[i].rep).idle)
      requires |forced| == |TakenOff(Now(), idle[i].rep).idle|
      modifies this`usage, this`idle, this`behind, observable`open, observable`behind
      ensures Consistent() && (old(usage) <= cacheSize ==> usage <= cacheSize)
      ensures (Now(), ok) == Start(old(Now()), cacheSize, IdleSlot(i), forced, now + timeout, oom)
      ensures old(Valid()) ==> (Valid() <==> !ok || i == |old(idle)| - 1)
    {
      ghost var s := Now();
      ok := StartEviction(IdleSlot(i), now, forced, oom);
      RestartSound(s, cacheSize, i, forced, now + timeout, oom);
    }

    method EvictDue(now: int)
      requires Consistent() && enabled
      modifies this`usage, this`idle, this`behind, observable`open, observable`behind
      ensures Consistent() && usage <= old(usage)
      ensures Now() == Evicted(old(Now()), DueFrom(old(idle), now, 0))
      ensures forall x :: x in idle <==> x in old(idle) && x.time > now
      ensures old(Valid()) ==> Valid()
    {
      DueSplits(idle, now);
      EvictedKeeps(Now(), cacheSize, DueFrom(idle, now, 0));
      EvictWhileDue(now);
    }

    method EvictWhileDue(now: int)
      requires observable.Valid()
      modifies this`usage, this`idle, this`behind, observable`open, observable`behind
      ensures observable.Valid() && Now() == Evicted(old(Now()), DueFrom(old(idle), now, 0))
    {
      ghost var s, n := Now(), 0;
      while |idle| > 0 && idle[0].time <= now
        invariant observable.Valid() && n <= |s.idle| && Now() == Evicted(s, n) && |idle| == |s.idle| - n
        invariant DueFrom(s.idle, now, n) == DueFrom(s.idle, now, 0)
        decreases |idle|
      {
        EvictedFirst(s, n);
        EvictNext(s, n);
        n := n + 1;
      }
      if n < |s.idle| { EvictedFirst(s, n); }
    }

    /** Two idle repositories, the first due and in use: the second is idle twice, the first not at
        all, and the usage counts the second twice. */
    method OtherIdleTwice(busy: Idle, other: Idle, now: int)
      requires Valid() && enabled && idle == [busy, other] && busy.time <= now < other.time
      requires 2 * other.rep.size <= cacheSize
      modifies this`usage, this`idle, this`behind, observable`open, observable`behind
      ensures |idle| == 2 && idle[0].rep == idle[1].rep == other.rep && busy.rep in observable.open
      ensures Consistent() && usage == 2 * other.rep.size && !Valid() && other.rep in observable.open
      ensures forall i :: 0 <= i < 2 ==> idle[i].time == other.time || idle[i].time == now + timeout
    {
      ghost var s := Now();
      TwoIdle(s, cacheSize, busy, other, now + timeout);
      var _ := RunL(now, {busy.rep.uid}, [other], false);
    }

    /** And when both entries are due it is unloaded twice: the second time its size is read after it
        has been deleted. s is the state between the two timer events. */
    method DeletedIsRead(busy: Idle, other: Idle, now: int, later: int) returns (ghost s: Store)
      requires Valid() && enabled && idle == [busy, other] && busy.time <= now < other.time
      requires 2 * other.rep.size <= cacheSize && other.time <= later && now + timeout <= later
      modifies this`usage, this`idle, this`behind, observable`open, observable`behind
      ensures |s.idle| == 2 == DueFrom(s.idle, later, 0) && ReadsOpen(s, 0) && !ReadsOpen(s, 1)
      ensures Now() == Evicted(s, 2)
    {
      OtherIdleTwice(busy, other, now);
      s := Now();
      assert DueFrom(s.idle, later, 1) == DueFrom(s.idle, later, 2) == 2;
      TwiceReadsDeleted(s);
      var _ := RunL(later, {}, [], false);
    }
  }

  /** Unloading from the front keeps the books and the accounts. */
  lemma EvictedKeeps(s: Store, limit: int, n: nat)
    requires Books(s, true) && n <= |s.idle|
    ensures Books(Evicted(s, n), true) && Evicted(s, n).usage <= s.usage && Evicted(s, n).idle == s.idle[n..]
    ensures Sound(s, true, limit) ==> Sound(Evicted(s, n), true, limit)
  {
    EvictedIdle(s, n);
    EvictedBooks(s, n);
    EvictedOne(s, n);
    SortedSuffix(s.idle, n);
    if Sound(s, true, limit) {
      DistinctSuffix(s.idle, n);
      forall i | 0 <= i < |s.idle| - n ensures IsOpen(s.idle[n..], i, Evicted(s, n).open) {
        assert IsOpen(s.idle, i + n, s.open);
        EvictedOpen(s, n, s.idle[i + n].rep);
      }
    }
  }

  lemma RestartSound(s: Store, limit: int, i: nat, forced: seq<Idle>, time: int, oom: bool)
    requires i < |s.idle| && Rearranged(forced, TakenOff(s, s.idle[i].rep).idle)
    ensures |forced| == |TakenOff(s, s.idle[i].rep).idle|
    ensures var (t, ok) := Start(s, limit, IdleSlot(i), forced, time, oom);
            Sound(s, true, limit) ==> (Sound(t, true, limit) <==> !ok || i == |s.idle| - 1)
  {
    RearrangedLength(forced, TakenOff(s, s.idle[i].rep).idle);
    if Sound(s, true, limit) { IdleSlotSoundIff(s, limit, i, forced, time, oom); }
  }

  lemma TwiceReadsDeleted(s: Store)
    requires OneByUid(s.open) && |s.idle| == 2 && s.idle[0].rep == s.idle[1].rep && s.idle[0].rep in s.open
    ensures ReadsOpen(s, 0) && !ReadsOpen(s, 1)
  {
    assert RepAt(s.idle, 0, s.idle[1].rep);
    EvictedOpen(s, 0, s.idle[0].rep);
    EvictedOpen(s, 1, s.idle[1].rep);
  }

  /** What the timer reads of the repositories that are due, when it looks for one in use and when
      it unloads them, is in memory exactly if each of them is open and not due twice. */
  lemma TimerReadsOpenIff(s: Store, now: int)
    requires OneByUid(s.open)
    ensures (forall i :: 0 <= i < DueFrom(s.idle, now, 0) ==> IsOpen(s.idle, i, s.open) && ReadsOpen(s, i))
       <==> forall i :: 0 <= i < DueFrom(s.idle, now, 0) ==> FirstTime(s, i)
  {
    var n := DueFrom(s.idle, now, 0);
    ReadsOpenIff(s, n);
    if forall i :: 0 <= i < n ==> FirstTime(s, i) {
      forall i | 0 <= i < n ensures IsOpen(s.idle, i, s.open) && ReadsOpen(s, i) { assert FirstTime(s, i); }
    }
  }

  lemma TwoIdle(s: Store, limit: int, busy: Idle, other: Idle, time: int)
    requires Sound(s, true, limit) && s.idle == [busy, other] && 2 * other.rep.size <= limit
    ensures TakenOff(s, busy.rep).idle == [other]
    ensures var (t, ok) := Start(s, limit, IdleSlot(0), [other], time, false);
            && ok && |t.idle| == 2 && t.idle[0].rep == t.idle[1].rep == other.rep && busy.rep in t.open
            && t.usage == 2 * other.rep.size && other.rep in t.open
            && forall i :: 0 <= i < 2 ==> t.idle[i].time == other.time || t.idle[i].time == time
  {
    assert Differ(s.idle, 0, 1) && IsOpen(s.idle, 0, s.open) && IsOpen(s.idle, 1, s.open);
    OnlyEntry(s.idle, 0);
    SumOfTwo(busy, other);
    assert Without(s.idle, 0) == [other];
  }

  lemma SuffixMore(s: seq<Idle>, n: nat)
    requires n < |s|
    ensures forall r :: HasRep(s[n..], r) <==> HasRep(s[n + 1..], r) || r == s[n].rep
  {
    forall r ensures HasRep(s[n..], r) <==> HasRep(s[n + 1..], r) || r == s[n].rep {
      HasRepIn(s[n..], r);
      HasRepIn(s[n + 1..], r);
      assert s[n..] == [s[n]] + s[n + 1..];
    }
  }

  method FindRep(s: seq<Idle>, rep: OpenRep) returns (i: int)
    ensures i == LastTo(s, rep, |s|)
  {
    i := |s| - 1;
    while i >= 0 && s[i].rep != rep
      invariant -1 <= i < |s| && LastTo(s, rep, i + 1) == LastTo(s, rep, |s|)
    {
      i := i - 1;
    }
  }
}

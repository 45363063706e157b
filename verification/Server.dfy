/** The server: open repositories, cache and connected clients together, and what it keeps over
    every run of its operations (cenrepsrv/obsrvr_noc.cpp, cachemgr.cpp). */
module Server {
  import opened Errors
  import opened Sequences
  import opened Locks
  import opened Transactions
  import opened Commits
  import opened Reload
  import opened IdleList
  import opened Eviction
  import opened Leaving
  import opened Accounts
  import opened Cache

  /** What clients, timer and administration ask of the server. */
  datatype Request =
    | Accessing(uid: int, loadedSize: nat, now: int, oom: bool)
    | Connecting(uid: int, client: int)
    | Closing(uid: int, client: int, now: int, oom: bool)
    | Ticking(now: int, inUse: set<int>, oom: bool)
    | Committing(uid: int, info: Info, i: nat, env: Env)
    | Flushing(fullFlush: bool)
    | Disabling(fullFlush: bool)
    | Enabling(defaultTimeout: int, size: int)

  /** What sorting in the order of a forced eviction does with a list of the given times and sizes:
      at each place the one that goes there. */
  type Order = seq<(int, nat)> -> seq<nat>

  ghost predicate Orders(order: Order) {
    forall s :: Permutation(order(s), |s|)
  }

  function Forced(s: seq<Idle>, order: Order): (r: seq<Idle>)
    requires Orders(order)
    ensures Rearranged(r, s)
  {
    var p := order(seq(|s|, i requires 0 <= i < |s| => (s[i].time, s[i].rep.size)));
    PermutedSame(s, p);
    Permuted(s, p)
  }

  function LimitAfter(q: Request, limit: nat): (r: nat) {
    if q.Enabling? && q.size > 0 then q.size else limit
  }

  /** No request lowers the limit of the cache. */
  predicate NeverLowered(qs: seq<Request>, limit: nat) {
    qs == [] || (LimitAfter(qs[0], limit) >= limit && NeverLowered(qs[1..], LimitAfter(qs[0], limit)))
  }

  predicate HasClient(observers: set<(int, int)>, uid: int) {
    exists o :: o in observers && o.0 == uid
  }

  /** The idle list once the repository of a uid is off it. */
  function OffUid(s: Store, uid: int): seq<Idle> {
    var i := UidIndex(s.open, uid);
    if i < 0 then s.idle else TakenOff(s, s.open[i]).idle
  }

  class Server {
    const observable: Observable
    const cache: CacheManager
    var observers: set<(int, int)>

    constructor (disks: map<int, Disk>, timeout: int, cacheSize: nat)
      ensures Valid() && Consistent() && fresh(observable) && fresh(cache) && observers == {}
      ensures observable.disks == disks && observable.open == [] && cache.usage == 0 && cache.cacheSize == cacheSize
    {
      var o := new Observable(disks);
      observable := o;
      cache := new CacheManager(o, timeout, cacheSize);
      observers := {};
    }

    /** What holds in every state of the server. */
    ghost predicate Consistent()
      reads this, observable, cache, observable.open
    {
      cache.observable == observable && cache.Consistent()
    }

    /** And when the accounts of the cache are in order as well. */
    ghost predicate Valid()
      reads this, observable, cache, observable.open
    {
      cache.observable == observable && cache.Valid()
    }

    // ----- access -----

    /** Whatever was evicted, flushed, timed out or failed before: an access gives the one open
        repository of the uid, holding what is in its file. It fails exactly where the reload of
        an open repository loses the file. What it gives is no longer open exactly if it is
        among those that are forced out for it, which needs it to be idle twice and the usage to
        be above the limit. With room and memory for it, its time-out starts anew. */
    method AccessL(uid: int, loadedSize: nat, now: int, forced: seq<Idle>, oom: bool)
      returns (rep: OpenRep, err: int)
      requires Consistent() && uid in observable.disks && Rearranged(forced, OffUid(cache.Now(), uid))
      modifies observable, cache`usage, cache`idle, cache`behind, observable.open
      ensures Consistent() && (old(cache.usage) <= cache.cacheSize ==> cache.usage <= cache.cacheSize)
      ensures old(Valid()) ==> Valid()
      ensures observable.disks.Keys == old(observable.disks.Keys)
      ensures forall r :: r in observable.open ==> r in old(observable.open) || fresh(r)
      ensures err != KErrNone <==> exists r :: r in old(observable.open) && r.uid == uid && old(Loses(r))
      ensures err == KErrNone ==>
                && rep.uid == uid && !rep.inconsistent && rep.settings == observable.disks[uid].Contents()
                && Found(old(observable.open), uid, rep, fresh(rep)) && observable.disks == old(observable.disks)
                && (rep in observable.open ==> forall r :: r in observable.open && r.uid == uid ==> r == rep)
                && |forced| == |OffUid(old(cache.Now()), uid)|
                && (rep in observable.open <==> !(cache.enabled && OutFor(old(cache.Now()), cache.cacheSize, forced, rep)))
                && (rep !in observable.open ==> IdleTwice(old(cache.idle), rep) && old(cache.usage) > cache.cacheSize)
                && (cache.enabled && HasRoom(old(cache.Now()), cache.cacheSize, rep, oom) ==> Idle(now + cache.timeout, rep) in cache.idle)
    {
      RearrangedLength(forced, OffUid(cache.Now(), uid));
      rep, err := Find(uid, loadedSize);
      if err != KErrNone { return; }
      Touch(rep, now, forced, oom);
      UidNames(observable.open);
    }

    /** What has just been accessed is to be idle from now on. */
    method Touch(rep: OpenRep, now: int, forced: seq<Idle>, oom: bool)
      requires Consistent() && rep in observable.open
      requires Rearranged(forced, TakenOff(cache.Now(), rep).idle) && |forced| == |TakenOff(cache.Now(), rep).idle|
      modifies observable`open, observable`behind, cache`usage, cache`idle, cache`behind
      ensures Consistent() && (old(cache.usage) <= cache.cacheSize ==> cache.usage <= cache.cacheSize)
      ensures old(Valid()) ==> Valid()
      ensures forall r :: r in observable.open ==> r in old(observable.open)
      ensures rep in observable.open <==> !(cache.enabled && OutFor(old(cache.Now()), cache.cacheSize, forced, rep))
      ensures cache.enabled && HasRoom(old(cache.Now()), cache.cacheSize, rep, oom) ==> Idle(now + cache.timeout, rep) in cache.idle
      ensures rep !in observable.open ==> IdleTwice(old(cache.idle), rep) && old(cache.usage) > cache.cacheSize
    {
      if cache.enabled {
        LocalMeans(cache.Now(), cache.cacheSize, rep, forced, now + cache.timeout, oom);
        var _ := cache.StartEviction(Local(rep), now, forced, oom);
      }
    }

    /** The limit was lowered below the usage, and a repository that is idle twice is accessed: it
        is forced out for itself, and the client is given what is no longer open. */
    method AccessUnloads(o: OpenRep, time: int, time': int, now: int) returns (rep: OpenRep, err: int)
      requires Consistent() && cache.enabled && o in observable.open && !o.inconsistent
      requires cache.idle == [Idle(time, o), Idle(time', o)] && o.size < cache.cacheSize < 2 * o.size
      modifies observable, cache`usage, cache`idle, cache`behind, observable.open
      ensures err == KErrNone && rep == o && o !in observable.open
    {
      UidNames(observable.open);
      UidAbsent(observable.open, o.uid);
      ghost var _ := observable.FileOf(o);
      IdleTwiceOut(cache.Now(), cache.cacheSize, o, time, time');
      rep, err := AccessL(o.uid, 0, now, [Idle(time, o)], false);
    }

    /** The open repository, reloaded if that is due, or a new one. */
    method Find(uid: int, loadedSize: nat) returns (rep: OpenRep, err: int)
      requires Consistent() && uid in observable.disks
      modifies observable, observable.open
      ensures Consistent() && (old(Valid()) ==> Valid())
      ensures observable.disks.Keys == old(observable.disks.Keys)
      ensures cache.idle == old(cache.idle) && cache.usage == old(cache.usage)
      ensures forall r :: r in observable.open ==> r in old(observable.open) || fresh(r)
      ensures err != KErrNone <==> exists r :: r in old(observable.open) && r.uid == uid && old(Loses(r))
      ensures err == KErrNone ==>
                && rep in observable.open && rep.uid == uid && observable.disks == old(observable.disks)
                && Found(old(observable.open), uid, rep, fresh(rep))
                && !rep.inconsistent && rep.settings == observable.disks[uid].Contents()
                && cache.Now() == WithRep(old(cache.Now()), rep)
                && TakenOff(cache.Now(), rep).idle == OffUid(old(cache.Now()), uid)
                && TakenOff(cache.Now(), rep).usage == TakenOff(old(cache.Now()), rep).usage
    {
      UidNames(observable.open);
      UidAbsent(observable.open, uid);
      var i := observable.FindOpenRepository(uid);
      if i >= 0 {
        rep := observable.open[i];
        err := Restore(rep);
      } else {
        rep := Load(uid, loadedSize);
        err := KErrNone;
      }
    }

    /** The reload of an open repository loses its file. */
    ghost predicate Loses(rep: OpenRep)
      reads observable, rep
    {
      rep.uid in observable.disks && LosesFile(rep.AsRepo(observable.disks[rep.uid]))
    }

    method Restore(rep: OpenRep) returns (err: int)
      requires Consistent() && rep in observable.open
      modifies rep, observable`disks
      ensures Consistent() && (old(Valid()) ==> Valid()) && observable.disks.Keys == old(observable.disks.Keys)
      ensures err == KErrNone <==> !old(Loses(rep))
      ensures err == KErrNone ==> !rep.inconsistent && observable.disks == old(observable.disks)
                                  && rep.uid in observable.disks && rep.settings == observable.disks[rep.uid].Contents()
    {
      var disk := observable.FileOf(rep);
      var (r, e) := Transactions.Restore(rep.AsRepo(disk));
      Update(rep, r);
      assert r.disk == disk ==> observable.disks == old(observable.disks);
      return e;
    }

    /** Memory and file of one open repository. */
    method Update(rep: OpenRep, r: Repo)
      requires Consistent() && rep in observable.open && (!r.inconsistent ==> r.settings == r.disk.Contents())
      modifies rep, observable`disks
      ensures Consistent() && (old(Valid()) ==> Valid()) && observable.disks == old(observable.disks)[rep.uid := r.disk]
      ensures rep.AsRepo(r.disk) == r.(info := Info(0, 0, []), notified := [])
    {
      UidNames(observable.open);
      rep.settings, rep.deleted, rep.inconsistent := r.settings, r.deleted, r.inconsistent;
      observable.disks := observable.disks[rep.uid := r.disk];
      forall i | 0 <= i < |observable.open| ensures observable.InStep(i) { assert old(observable.InStep(i)); }
    }

    method Load(uid: int, loadedSize: nat) returns (rep: OpenRep)
      requires Consistent() && uid in observable.disks
      requires forall r :: r in observable.open ==> r.uid != uid
      modifies observable`open, observable`behind
      ensures Consistent() && (old(Valid()) ==> Valid())
      ensures fresh(rep) && cache.Now() == WithRep(old(cache.Now()), rep)
      ensures rep.uid == uid && !rep.inconsistent && rep.settings == observable.disks[uid].Contents()
      ensures !HasRep(cache.idle, rep)
    {
      rep := new OpenRep(uid, loadedSize, observable.disks[uid]);
      OpenMembers(cache.idle, observable.open);
      observable.AddOpenRepository(rep);
      OpenMembers(cache.idle, observable.open);
      HasRepIn(cache.idle, rep);
    }

    // ----- commits -----

    /** A commit on an open repository, successful or not, leaves memory and file in step. */
    method CommitOn(rep: OpenRep, info: Info, i: nat, env: Env) returns (err: int)
      requires Consistent() && rep in observable.open && !rep.inconsistent && i < |info.queue|
      requires Transactions.Valid(rep.AsRepo(observable.FileOf(rep)).(info := info))
      modifies rep, observable`disks
      ensures Consistent() && (old(Valid()) ==> Valid())
      ensures var c := Commit(old(rep.AsRepo(observable.FileOf(rep))).(info := info), i, env);
              err == c.1 && observable.disks == old(observable.disks)[rep.uid := c.0.disk]
              && rep.AsRepo(c.0.disk) == c.0.(info := Info(0, 0, []), notified := [])
    {
      var repo := rep.AsRepo(observable.FileOf(rep)).(info := info);
      CommitMirrors(repo, i, env);
      var (r, e, _) := Commit(repo, i, env);
      Update(rep, r);
      return e;
    }

    // ----- clients -----

    method AddObserver(uid: int, client: int)
      modifies this`observers
      ensures observers == old(observers) + {(uid, client)}
    {
      observers := observers + {(uid, client)};
    }

    /** A client goes. With the last one of its uid the repository is to become idle, or to be
        unloaded if the cache will not have it. The cache is given the slot of the open list,
        and what is unloaded is what is found at that index afterwards. */
    method RemoveObserver(uid: int, client: int, now: int, forced: seq<Idle>, oom: bool) returns (panicked: bool)
      requires Consistent() && Rearranged(forced, OffUid(cache.Now(), uid))
      modifies this`observers, observable`open, observable`behind, cache`usage, cache`idle, cache`behind
      ensures observers == old(observers) - {(uid, client)}
      ensures Consistent() && (old(cache.usage) <= cache.cacheSize ==> cache.usage <= cache.cacheSize)
      ensures forall r :: r in observable.open ==> r in old(observable.open)
      ensures |forced| == |OffUid(old(cache.Now()), uid)|
      ensures var last := (uid, client) in old(observers) && !HasClient(observers, uid);
              (cache.Now(), panicked)
              == LeaveUid(old(cache.Now()), last, uid, cache.enabled, cache.cacheSize, forced, now + cache.timeout, oom)
    {
      RearrangedLength(forced, OffUid(cache.Now(), uid));
      var last := RemoveClient(uid, client);
      var i := observable.FindOpenRepository(uid);
      panicked := Departs(last, uid, i, now, forced, oom);
    }

    method Departs(last: bool, ghost uid: int, i: int, now: int, forced: seq<Idle>, oom: bool) returns (panicked: bool)
      requires Consistent() && i == UidIndex(observable.open, uid) && Rearranged(forced, OffUid(cache.Now(), uid))
      requires |forced| == |OffUid(cache.Now(), uid)|
      modifies observable`open, observable`behind, cache`usage, cache`idle, cache`behind
      ensures Consistent() && (old(cache.usage) <= cache.cacheSize ==> cache.usage <= cache.cacheSize)
      ensures forall r :: r in observable.open ==> r in old(observable.open)
      ensures (cache.Now(), panicked)
           == LeaveUid(old(cache.Now()), last, uid, cache.enabled, cache.cacheSize, forced, now + cache.timeout, oom)
    {
      if !last || i < 0 { return false; }
      panicked := LastLeaves(i, now, forced, oom);
    }

    method RemoveClient(uid: int, client: int) returns (last: bool)
      modifies this`observers
      ensures observers == old(observers) - {(uid, client)} && cache.Now() == old(cache.Now())
      ensures last <==> (uid, client) in old(observers) && !HasClient(observers, uid)
    {
      if (uid, client) !in observers { return false; }
      observers := observers - {(uid, client)};
      return !HasClient(observers, uid);
    }

    method LastLeaves(i: nat, now: int, forced: seq<Idle>, oom: bool) returns (panicked: bool)
      requires Consistent() && i < |observable.open|
      requires Rearranged(forced, TakenOff(cache.Now(), observable.open[i]).idle)
      modifies observable`open, observable`behind, cache`usage, cache`idle, cache`behind
      ensures Consistent() && (old(cache.usage) <= cache.cacheSize ==> cache.usage <= cache.cacheSize)
      ensures forall r :: r in observable.open ==> r in old(observable.open)
      ensures |forced| == |TakenOff(old(cache.Now()), old(observable.open[i])).idle|
      ensures (cache.Now(), panicked)
           == Leave(old(cache.Now()), cache.enabled, cache.cacheSize, i, forced, now + cache.timeout, oom)
    {
      LeaveBooks(cache.Now(), cache.enabled, cache.cacheSize, i, forced, now + cache.timeout, oom);
      var kept := false;
      if cache.enabled {
        kept := cache.StartEviction(OpenSlot(i), now, forced, oom);
      }
      panicked := UnlessKept(kept, i);
    }

    method UnlessKept(kept: bool, i: nat) returns (panicked: bool)
      requires cache.observable == observable && observable.Valid()
      modifies observable`open, observable`behind
      ensures observable.Valid() && (cache.Now(), panicked) == Unless(kept, old(cache.Now()), i)
    {
      panicked := !kept && i >= |observable.open|;
      if !kept && i < |observable.open| { observable.RemoveAt(i); }
    }

    // ----- runs -----

    function Connected(): set<int>
      reads this
    {
      set o | o in observers :: o.0
    }

    /** One request. */
    method Serve(q: Request, order: Order)
      requires Consistent() && Orders(order)
      modifies this`observers, observable, cache, observable.open
      ensures Consistent() && cache.cacheSize == LimitAfter(q, old(cache.cacheSize))
      ensures old(cache.usage) <= old(cache.cacheSize) <= cache.cacheSize ==> cache.usage <= cache.cacheSize
      ensures observable.disks.Keys == old(observable.disks.Keys)
      ensures forall r :: r in observable.open ==> r in old(observable.open) || fresh(r)
    {
      match q
      case Accessing(uid, loadedSize, now, oom) =>
        if uid in observable.disks {
          var rep, err := AccessL(uid, loadedSize, now, Forced(OffUid(cache.Now(), uid), order), oom);
        }
      case Connecting(uid, client) =>
        AddObserver(uid, client);
      case Closing(uid, client, now, oom) =>
        var _ := RemoveObserver(uid, client, now, Forced(OffUid(cache.Now(), uid), order), oom);
      case Ticking(now, inUse, oom) =>
        if cache.enabled { Tick(now, inUse, order, oom); }
      case Committing(uid, info, i, env) =>
        CommitUid(uid, info, i, env);
      case Flushing(fullFlush) =>
        cache.FlushCache(fullFlush, Connected());
      case Disabling(fullFlush) =>
        cache.DisableCache(fullFlush, Connected());
      case Enabling(defaultTimeout, size) =>
        cache.EnableCache(defaultTimeout, size);
    }

    method Tick(now: int, inUse: set<int>, order: Order, oom: bool)
      requires Consistent() && cache.enabled && Orders(order)
      modifies observable`open, observable`behind, cache`usage, cache`idle, cache`behind
      ensures Consistent() && (old(cache.usage) <= cache.cacheSize ==> cache.usage <= cache.cacheSize)
      ensures forall r :: r in observable.open ==> r in old(observable.open)
    {
      var s := cache.Now();
      var i := BusySlot(s.idle, now, inUse);
      if i < 0 {
        EvictedShrinks(s, DueFrom(s.idle, now, 0));
        var _ := cache.RunL(now, inUse, [], oom);
      } else {
        var forced := Forced(TakenOff(s, s.idle[i].rep).idle, order);
        StartOpen(s, cache.cacheSize, IdleSlot(i), forced, now + cache.timeout, oom);
        var _ := cache.RunL(now, inUse, forced, oom);
      }
    }

    /** A commit on the repository of a uid, if it is open and has been reloaded. */
    method CommitUid(uid: int, info: Info, i: nat, env: Env)
      requires Consistent()
      modifies observable`disks, observable.open
      ensures Consistent() && observable.disks.Keys == old(observable.disks.Keys)
      ensures observable.open == old(observable.open)
    {
      var k := observable.FindOpenRepository(uid);
      if k >= 0 {
        var rep := observable.open[k];
        var repo := rep.AsRepo(observable.FileOf(rep)).(info := info);
        if !rep.inconsistent && i < |info.queue| && Transactions.Valid(repo) {
          var _ := CommitOn(rep, info, i, env);
        }
      }
    }

    /** Over every run there is at most one repository in memory for a uid, it mirrors its file, and
        the books of the cache are right; and the usage is within the limit unless a request
        lowers that. So every access after it does what it promises. */
    method Run(qs: seq<Request>, order: Order)
      requires Consistent() && Orders(order)
      modifies this`observers, observable, cache, observable.open
      ensures Consistent() && observable.disks.Keys == old(observable.disks.Keys)
      ensures old(cache.usage <= cache.cacheSize) && NeverLowered(qs, old(cache.cacheSize)) ==> cache.usage <= cache.cacheSize
      ensures forall r :: r in observable.open ==> r in old(observable.open) || fresh(r)
    {
      var n := 0;
      while n < |qs|
        invariant n <= |qs| && Consistent() && observable.disks.Keys == old(observable.disks.Keys)
        invariant old(cache.usage <= cache.cacheSize) && NeverLowered(qs, old(cache.cacheSize)) ==>
                    cache.usage <= cache.cacheSize && NeverLowered(qs[n..], cache.cacheSize)
        invariant forall r :: r in observable.open ==> r in old(observable.open) || fresh(r)
      {
        assert qs[n..][1..] == qs[n + 1..];
        assert forall i :: 0 <= i < |observable.open| ==> observable.open[i] in observable.open;
        Serve(qs[n], order);
        n := n + 1;
      }
    }

    /** With one idle repository, a last client that closes the second, and a third in use: the
        first is forced out, the slot then names the third, and it is the third that becomes idle
        although it is in use, while the second stays open and is not idle. */
    method ThirdBecomesIdle(a: OpenRep, b: OpenRep, c: OpenRep, time: int, client: int, now: int)
      requires Valid() && cache.enabled && observable.open == [a, b, c] && cache.idle == [Idle(time, a)]
      requires b.size < cache.cacheSize < a.size + b.size && c.size <= cache.cacheSize
      requires (b.uid, client) in observers && !HasClient(observers - {(b.uid, client)}, b.uid)
      modifies this`observers, observable`open, observable`behind, cache`usage, cache`idle, cache`behind
      ensures observable.open == [b, c] && cache.idle == [Idle(now + cache.timeout, c)]
    {
      ThirdNamed(cache.Now(), cache.cacheSize, a, b, c, time, now + cache.timeout);
      var _ := RemoveObserver(b.uid, client, now, [Idle(time, a)], false);
    }

    /** And if the third is larger than the limit, it is refused although the first had to go, and it
        is the third that is unloaded. */
    method ThirdIsUnloaded(a: OpenRep, b: OpenRep, c: OpenRep, time: int, client: int, now: int)
      requires Valid() && cache.enabled && observable.open == [a, b, c] && cache.idle == [Idle(time, a)]
      requires b.size < cache.cacheSize < a.size + b.size && cache.cacheSize < c.size
      requires (b.uid, client) in observers && !HasClient(observers - {(b.uid, client)}, b.uid)
      modifies this`observers, observable`open, observable`behind, cache`usage, cache`idle, cache`behind
      ensures observable.open == [b] && cache.idle == []
    {
      ThirdNamed(cache.Now(), cache.cacheSize, a, b, c, time, now + cache.timeout);
      var _ := RemoveObserver(b.uid, client, now, [Idle(time, a)], false);
    }
  }

  /** It is the open repository of the uid, or a new one if there is none. */
  predicate Found(open: seq<OpenRep>, uid: int, rep: OpenRep, isNew: bool) {
    var i := UidIndex(open, uid);
    if i >= 0 then rep == open[i] else isNew
  }

  /** There is memory to make it idle, and it is below the limit or fits beside the others. */
  predicate HasRoom(s: Store, limit: int, rep: OpenRep, oom: bool) {
    !oom && (rep.size < limit || TakenOff(s, rep).usage + rep.size <= limit)
  }

  /** The repository is open, in the memory behind the list if it has to be loaded. */
  function WithRep(s: Store, rep: OpenRep): (r: Store)
    ensures rep in r.open && r.idle == s.idle
  {
    if rep in s.open then s
    else s.(open := s.open + [rep], behindOpen := if s.behindOpen == [] then [] else s.behindOpen[1..])
  }

  /** What becomes of the lists when a client of a uid goes: nothing unless it was the last one and
      the repository is in memory. */
  function LeaveUid(s: Store, last: bool, uid: int, enabled: bool, limit: int, forced: seq<Idle>, time: int, oom: bool)
    : (Store, bool)
    requires |forced| == |OffUid(s, uid)|
  {
    var i := UidIndex(s.open, uid);
    if last && i >= 0 then Leave(s, enabled, limit, i, forced, time, oom) else (s, false)
  }

  /** The repository is among the idle ones at the front of the order that must go for it. */
  predicate OutFor(s: Store, limit: int, forced: seq<Idle>, rep: OpenRep) {
    Among(forced, Needed(forced, TakenOff(s, rep).usage, rep.size, limit), rep)
  }

  lemma IdleTwiceOut(s: Store, limit: int, o: OpenRep, time: int, time': int)
    requires Books(s, true) && s.idle == [Idle(time, o), Idle(time', o)] && o.size < limit < 2 * o.size
    ensures TakenOff(s, o).idle == [Idle(time, o)] && OutFor(s, limit, [Idle(time, o)], o)
  {
    SumOfTwo(s.idle[0], s.idle[1]);
    assert LastTo(s.idle, o, 2) == 1;
    assert RepAt([Idle(time, o)], 0, o);
  }

  lemma LocalMeans(s: Store, limit: int, rep: OpenRep, forced: seq<Idle>, time: int, oom: bool)
    requires Books(s, true) && rep in s.open && Rearranged(forced, TakenOff(s, rep).idle)
    ensures |forced| == |TakenOff(s, rep).idle|
    ensures var t := Eviction.Start(s, limit, Local(rep), forced, time, oom).0;
            && (rep in t.open <==> !OutFor(s, limit, forced, rep))
            && (rep !in t.open ==> IdleTwice(s.idle, rep) && s.usage > limit)
            && (HasRoom(s, limit, rep, oom) ==> Idle(time, rep) in t.idle)
            && (Sound(s, true, limit) ==> Sound(t, true, limit))
            && forall r :: r in t.open ==> r in s.open
  {
    LocalStaysIff(s, limit, rep, forced, time, oom);
    LocalUnloadedOnlyIf(s, limit, rep, forced, time, oom);
    LocalAcceptedIff(s, limit, rep, forced, time, oom);
    StartOpen(s, limit, Local(rep), forced, time, oom);
    if Sound(s, true, limit) { LocalSound(s, limit, rep, forced, time, oom); }
  }

  lemma EvictedShrinks(s: Store, n: nat)
    requires Books(s, true) && n <= |s.idle|
    ensures forall r :: r in Evicted(s, n).open ==> r in s.open
  {
    forall r | r in Evicted(s, n).open ensures r in s.open { EvictedOpen(s, n, r); }
  }

  lemma CommitMirrors(r: Repo, i: nat, env: Env)
    requires Transactions.Valid(r) && !r.inconsistent && i < |r.info.queue|
    ensures var r' := Commit(r, i, env).0;
            !r'.inconsistent ==> r'.settings == r'.disk.Contents()
  {
    if r.info.queue[i].Active() { CommitEffect(r, i, env); } else { FailedCommitEffect(r, i, env); }
  }

  lemma ThirdNamed(s: Store, limit: int, a: OpenRep, b: OpenRep, c: OpenRep, time: int, time': int)
    requires Sound(s, true, limit) && s.open == [a, b, c] && s.idle == [Idle(time, a)]
    requires b.size < limit < a.size + b.size
    ensures UidIndex(s.open, b.uid) == 1 && OffUid(s, b.uid) == [Idle(time, a)]
    ensures var (t, gone) := Leave(s, true, limit, 1, [Idle(time, a)], time', false);
            !gone && if c.size <= limit then t.open == [b, c] && t.idle == [Idle(time', c)]
                     else t.open == [b] && t.idle == []
  {
    assert !SameUid(s.open, 0, 1) && !SameUid(s.open, 0, 2) && !SameUid(s.open, 1, 2);
    assert SumTo(s.idle, 1) == SumTo(s.idle, 0) + a.size;
    assert UidTo(s.open, b.uid, 2) == 1 && UidTo(s.open, b.uid, 3) == UidTo(s.open, b.uid, 2);
    assert LastTo(s.idle, b, 1) == LastTo(s.idle, b, 0) == -1;
    assert IndexOf(s.open, a) == 0;
    assert Without(s.open, 0) == [b, c];
    assert Evicted(s, 0) == s;
    var t := Evicted(s, 1);
    assert t == NextOut(s, 0);
    assert t.open == [b, c] && t.idle == [] && t.usage == 0;
    assert Deref(t, OpenSlot(1)) == c;
    assert SortedTo(t.idle, 0) == [];
    assert s.(idle := s.idle) == s;
    assert Turns(s, limit, OpenSlot(1), s.idle) == 1;
    assert Room(s, limit, OpenSlot(1), s.idle) == t;
    assert Without(t.open, 1) == [b];
  }

  /** In every state that a new server reaches without its limit having been lowered, an access
      that does not fail gives the one open repository of the uid, equal to its file. */
  method AccessAfter(disks: map<int, Disk>, timeout: int, cacheSize: nat, qs: seq<Request>,
                     order: Order, uid: int, loadedSize: nat, now: int, oom: bool)
    returns (server: Server, rep: OpenRep, err: int)
    requires uid in disks && NeverLowered(qs, cacheSize) && Orders(order)
    ensures server.Consistent()
    ensures err == KErrNone ==>
              && rep in server.observable.open && rep.uid == uid && uid in server.observable.disks
              && !rep.inconsistent && rep.settings == server.observable.disks[uid].Contents()
              && forall r :: r in server.observable.open && r.uid == uid ==> r == rep
  {
    server := new Server(disks, timeout, cacheSize);
    server.Run(qs, order);
    assert forall i :: 0 <= i < |server.observable.open| ==> server.observable.open[i] in server.observable.open;
    rep, err := server.AccessL(uid, loadedSize, now, Forced(OffUid(server.cache.Now(), uid), order), oom);
  }
}

/** What becomes of the idle and the open repositories when one is to be made idle or is left by
    its last client (cenrepsrv/cachemgr.cpp StartEviction, obsrvr_noc.cpp RemoveObserver), as
    functions. The repository is given by reference, and the reference may be a slot of one of the
    two arrays, whose elements move. */
module Eviction {
  import opened Sequences
  import opened IdleList

  /** The two arrays, what the memory behind their last elements holds, and the usage. */
  datatype Store = Store(idle: seq<Idle>, behindIdle: seq<Idle>, open: seq<OpenRep>, behindOpen: seq<OpenRep>, usage: int)

  /** A reference to a repository: to a variable of its own, or into one of the two arrays. */
  datatype Ref = Local(rep: OpenRep) | IdleSlot(i: nat) | OpenSlot(i: nat)

  predicate Points(s: Store, ref: Ref) {
    match ref
    case Local(_) => true
    case IdleSlot(i) => i < |s.idle| + |s.behindIdle|
    case OpenSlot(i) => i < |s.open| + |s.behindOpen|
  }

  /** The slot is in its array, the variable names an open repository. */
  predicate Inside(s: Store, ref: Ref) {
    match ref
    case Local(rep) => rep in s.open
    case IdleSlot(i) => i < |s.idle|
    case OpenSlot(i) => i < |s.open|
  }

  function Deref(s: Store, ref: Ref): OpenRep
    requires Points(s, ref)
  {
    match ref
    case Local(rep) => rep
    case IdleSlot(i) => if i < |s.idle| then s.idle[i].rep else s.behindIdle[i - |s.idle|].rep
    case OpenSlot(i) => if i < |s.open| then s.open[i] else s.behindOpen[i - |s.open|]
  }

  predicate SameRoom(s: Store, t: Store) {
    && |t.idle| + |t.behindIdle| == |s.idle| + |s.behindIdle|
    && |t.open| + |t.behindOpen| == |s.open| + |s.behindOpen|
  }

  // ----- the steps -----

  /** RArray::Remove on the idle list. */
  function IdleOut(s: Store, i: nat): (r: Store)
    requires i < |s.idle|
    ensures SameRoom(s, r)
  {
    s.(idle := Without(s.idle, i), behindIdle := [s.idle[|s.idle| - 1]] + s.behindIdle, usage := s.usage - s.idle[i].rep.size)
  }

  /** RPointerArray::Remove on the open list. */
  function OpenOut(s: Store, k: nat): (r: Store)
    requires k < |s.open|
    ensures SameRoom(s, r)
  {
    s.(open := Without(s.open, k), behindOpen := [s.open[|s.open| - 1]] + s.behindOpen)
  }

  /** RemoveIdleRepository: the last entry of the repository, if it has one. */
  function TakenOff(s: Store, rep: OpenRep): (r: Store)
    ensures SameRoom(s, r)
  {
    var i := LastTo(s.idle, rep, |s.idle|);
    if i < 0 then s else IdleOut(s, i)
  }

  /** RemoveOpenRepository: one that is not open is ignored. */
  function Closed(s: Store, rep: OpenRep): (r: Store)
    ensures SameRoom(s, r)
  {
    var k := IndexOf(s.open, rep);
    if k < 0 then s else OpenOut(s, k)
  }

  /** The first n idle repositories are unloaded. */
  function Evicted(s: Store, n: nat): (r: Store)
    requires n <= |s.idle|
    ensures SameRoom(s, r) && |r.idle| == |s.idle| - n
    decreases n, 0
  {
    if n == 0 then s else NextOut(s, n - 1)
  }

  /** And then one more. */
  function NextOut(s: Store, n: nat): (r: Store)
    requires n < |s.idle|
    ensures SameRoom(s, r) && |r.idle| == |s.idle| - n - 1
    decreases n, 1
  {
    var t := Evicted(s, n);
    IdleOut(Closed(t, t.idle[0].rep), 0)
  }

  predicate Fits(s: Store, limit: int, ref: Ref)
    requires Points(s, ref)
  {
    s.usage + Deref(s, ref).size <= limit
  }

  /** The do-while loop: how many are unloaded, at least n, until what the reference names by then
      fits or none is left. */
  function Rounds(s: Store, limit: int, ref: Ref, n: nat): (r: nat)
    requires 1 <= n <= |s.idle| && Points(s, ref)
    ensures n <= r <= |s.idle|
    ensures r == |s.idle| || Fits(Evicted(s, r), limit, ref)
    decreases |s.idle| - n
  {
    if n == |s.idle| || Fits(Evicted(s, n), limit, ref) then n else Rounds(s, limit, ref, n + 1)
  }

  /** An eviction makes sense: there is something to evict and the repository would fit, but does
      not as it is. */
  predicate Crowded(s: Store, limit: int, ref: Ref)
    requires Points(s, ref)
  {
    s.idle != [] && Deref(s, ref).size < limit && !Fits(s, limit, ref)
  }

  function Turns(s: Store, limit: int, ref: Ref, forced: seq<Idle>): (r: nat)
    requires Points(s, ref) && |forced| == |s.idle|
    ensures r <= |forced| && (r == 0 <==> !Crowded(s, limit, ref))
  {
    if Crowded(s, limit, ref) then Rounds(s.(idle := forced), limit, ref, 1) else 0
  }

  /** The forced eviction, in the order that sorting gives, and the list sorted back. */
  function Room(s: Store, limit: int, ref: Ref, forced: seq<Idle>): (r: Store)
    requires Points(s, ref) && |forced| == |s.idle|
    ensures SameRoom(s, r)
  {
    var n := Turns(s, limit, ref, forced);
    if n == 0 then s
    else
      var t := Evicted(s.(idle := forced), n);
      t.(idle := SortedTo(t.idle, |t.idle|))
  }

  /** What the reference names by now is made idle if it fits and there is memory. */
  function Admit(s: Store, limit: int, ref: Ref, time: int, oom: bool): (Store, bool)
    requires Points(s, ref)
  {
    var x := Deref(s, ref);
    if !Fits(s, limit, ref) || oom then (s, false)
    else
      (s.(idle := ByTime(s.idle, Idle(time, x)), behindIdle := if s.behindIdle == [] then [] else s.behindIdle[1..],
          usage := s.usage + x.size), true)
  }

  /** StartEviction. */
  function Start(s: Store, limit: int, ref: Ref, forced: seq<Idle>, time: int, oom: bool): (Store, bool)
    requires Inside(s, ref) && |forced| == |TakenOff(s, Deref(s, ref)).idle|
  {
    Admit(Room(TakenOff(s, Deref(s, ref)), limit, ref, forced), limit, ref, time, oom)
  }

  /** The last client of the repository in a slot of the open list goes. The flag says that the
      index was beyond the end of the list. */
  function Leave(s: Store, enabled: bool, limit: int, slot: nat, forced: seq<Idle>, time: int, oom: bool): (Store, bool)
    requires slot < |s.open| && |forced| == |TakenOff(s, s.open[slot]).idle|
  {
    var (t, kept) := if enabled then Start(s, limit, OpenSlot(slot), forced, time, oom) else (s, false);
    Unless(kept, t, slot)
  }

  function Unless(kept: bool, t: Store, slot: nat): (Store, bool) {
    if kept then (t, false) else if slot >= |t.open| then (t, true) else (OpenOut(t, slot), false)
  }

  // ----- what a number of evictions leaves -----

  lemma {:induction false} EvictedIdle(s: Store, n: nat)
    requires n <= |s.idle|
    ensures Evicted(s, n).idle == s.idle[n..] && Evicted(s, n).usage == s.usage - SumTo(s.idle, n)
  {
    if n > 0 {
      EvictedIdle(s, n - 1);
      var t := Evicted(s, n - 1).idle;
      assert t[0] == s.idle[n - 1];
      WithoutSlices(t, 0);
      assert t[1..] == s.idle[n..];
    }
  }

  lemma EvictedFirst(s: Store, n: nat)
    requires n < |s.idle|
    ensures Evicted(s, n).idle[0] == s.idle[n]
  {
    EvictedIdle(s, n);
  }

  predicate SameOpen(t: Store, u: Store) {
    t.open == u.open && t.behindOpen == u.behindOpen
  }

  /** One more eviction, as far as the open list and the memory behind it go. */
  lemma EvictedNext(f: Store, n: nat)
    requires n < |f.idle|
    ensures SameOpen(Evicted(f, n + 1), Closed(Evicted(f, n), f.idle[n].rep))
  {
    EvictedFirst(f, n);
  }

  /** The repository is one of the first n. */
  predicate Among(s: seq<Idle>, n: nat, rep: OpenRep)
    requires n <= |s|
  {
    exists i :: 0 <= i < n && RepAt(s, i, rep)
  }

  lemma AmongMore(s: seq<Idle>, n: nat, rep: OpenRep)
    requires n < |s|
    ensures Among(s, n + 1, rep) <==> Among(s, n, rep) || s[n].rep == rep
  {
    if Among(s, n + 1, rep) && !Among(s, n, rep) {
      var i :| 0 <= i < n + 1 && RepAt(s, i, rep);
      if i < n { assert Among(s, n, rep); }
    }
    if s[n].rep == rep { assert RepAt(s, n, rep); }
  }

  lemma ClosedOne(s: Store, rep: OpenRep)
    requires OneByUid(s.open)
    ensures OneByUid(Closed(s, rep).open)
  {
    IndexIn(s.open, rep);
    if rep in s.open { OneWithout(s.open, IndexOf(s.open, rep)); }
  }

  lemma ClosedOpen(s: Store, rep: OpenRep, r: OpenRep)
    requires OneByUid(s.open)
    ensures r in Closed(s, rep).open <==> r in s.open && r != rep
  {
    IndexIn(s.open, rep);
    if rep in s.open { OneWithout(s.open, IndexOf(s.open, rep)); }
  }

  lemma {:induction false} EvictedOne(s: Store, n: nat)
    requires n <= |s.idle| && OneByUid(s.open)
    ensures OneByUid(Evicted(s, n).open)
  {
    if n > 0 {
      EvictedOne(s, n - 1);
      EvictedNext(s, n - 1);
      ClosedOne(Evicted(s, n - 1), s.idle[n - 1].rep);
    }
  }

  ghost predicate OpenAfter(s: Store, n: nat, r: OpenRep)
    requires n <= |s.idle|
  {
    r in Evicted(s, n).open <==> r in s.open && !Among(s.idle, n, r)
  }

  lemma {:induction false} EvictedOpen(s: Store, n: nat, r: OpenRep)
    requires n <= |s.idle| && OneByUid(s.open)
    ensures OneByUid(Evicted(s, n).open) && OpenAfter(s, n, r)
  {
    EvictedOne(s, n);
    if n > 0 {
      EvictedOpen(s, n - 1, r);
      EvictedOpenNext(s, n - 1, r);
    }
  }

  lemma EvictedOpenNext(s: Store, n: nat, r: OpenRep)
    requires n < |s.idle| && OneByUid(Evicted(s, n).open) && OpenAfter(s, n, r)
    ensures OpenAfter(s, n + 1, r)
  {
    EvictedNext(s, n);
    AmongMore(s.idle, n, r);
    ClosedOpen(Evicted(s, n), s.idle[n].rep, r);
  }

  // ----- the books -----

  /** What every operation keeps, whatever is idle twice or has been unloaded. */
  predicate Books(s: Store, enabled: bool) {
    && s.usage == Sum(s.idle) && TimeSorted(s.idle) && OneByUid(s.open)
    && (!enabled ==> s.idle == [])
  }

  lemma TakenOffBooks(s: Store, rep: OpenRep)
    requires Books(s, true)
    ensures var t := TakenOff(s, rep);
            && Books(t, true) && t.open == s.open && t.behindOpen == s.behindOpen
            && t.usage == s.usage - if HasRep(s.idle, rep) then rep.size else 0
  {
    LastHas(s.idle, rep);
    var i := LastTo(s.idle, rep, |s.idle|);
    if i >= 0 {
      SumWithout(s.idle, i);
      SortedWithout(s.idle, i);
    }
  }

  lemma EvictedBooks(s: Store, n: nat)
    requires n <= |s.idle| && s.usage == Sum(s.idle)
    ensures Evicted(s, n).usage == Sum(Evicted(s, n).idle)
  {
    EvictedIdle(s, n);
    SumSuffix(s.idle, n, |s.idle| - n);
  }

  lemma RoomBooks(s: Store, limit: int, ref: Ref, forced: seq<Idle>)
    requires Books(s, true) && Points(s, ref) && Rearranged(forced, s.idle) && |forced| == |s.idle|
    ensures Books(Room(s, limit, ref, forced), true) && Room(s, limit, ref, forced).usage <= s.usage
    ensures Room(s, limit, ref, forced).open == Evicted(s.(idle := forced), Turns(s, limit, ref, forced)).open
    ensures Rearranged(Room(s, limit, ref, forced).idle,
                       if Turns(s, limit, ref, forced) == 0 then s.idle else forced[Turns(s, limit, ref, forced)..])
  {
    var n, f := Turns(s, limit, ref, forced), s.(idle := forced);
    SumRearranged(forced, s.idle);
    if n > 0 {
      var t := Evicted(f, n);
      EvictedBooks(f, n);
      EvictedIdle(f, n);
      EvictedOne(f, n);
      SortMeans(t.idle);
      SumRearranged(SortedTo(t.idle, |t.idle|), t.idle);
    }
  }

  lemma AdmitBooks(s: Store, limit: int, ref: Ref, time: int, oom: bool)
    requires Books(s, true) && Points(s, ref)
    ensures var (t, ok) := Admit(s, limit, ref, time, oom);
            Books(t, true) && t.open == s.open && (ok ==> t.usage <= limit) && (!ok ==> t == s)
  {
    var x := Idle(time, Deref(s, ref));
    ByTimeSorted(s.idle, x);
    SumInserted(s.idle, PlaceTo(s.idle, time, |s.idle|), x);
  }

  /** An eviction keeps the books, and the usage within the limit where it was. */
  lemma StartBooks(s: Store, limit: int, ref: Ref, forced: seq<Idle>, time: int, oom: bool)
    requires Books(s, true) && Inside(s, ref) && Rearranged(forced, TakenOff(s, Deref(s, ref)).idle)
    ensures |forced| == |TakenOff(s, Deref(s, ref)).idle|
    ensures var (t, ok) := Start(s, limit, ref, forced, time, oom);
            Books(t, true) && (s.usage <= limit ==> t.usage <= limit)
  {
    var s1 := TakenOff(s, Deref(s, ref));
    TakenOffBooks(s, Deref(s, ref));
    RearrangedLength(forced, s1.idle);
    RoomBooks(s1, limit, ref, forced);
    AdmitBooks(Room(s1, limit, ref, forced), limit, ref, time, oom);
  }

  /** It opens nothing. */
  lemma StartOpen(s: Store, limit: int, ref: Ref, forced: seq<Idle>, time: int, oom: bool)
    requires Books(s, true) && Inside(s, ref) && Rearranged(forced, TakenOff(s, Deref(s, ref)).idle)
    ensures |forced| == |TakenOff(s, Deref(s, ref)).idle|
    ensures forall r :: r in Start(s, limit, ref, forced, time, oom).0.open ==> r in s.open
  {
    var s1 := TakenOff(s, Deref(s, ref));
    TakenOffBooks(s, Deref(s, ref));
    RearrangedLength(forced, s1.idle);
    RoomBooks(s1, limit, ref, forced);
    var n, t := Turns(s1, limit, ref, forced), Room(s1, limit, ref, forced);
    AdmitBooks(t, limit, ref, time, oom);
    forall r | r in t.open ensures r in s.open { EvictedOpen(s1.(idle := forced), n, r); }
  }

  // ----- a repository given by value -----

  /** How many at the front of a list must go for a size to fit: none if it fits or never would. */
  function Needed(forced: seq<Idle>, usage: int, size: int, limit: int): (r: nat)
    ensures r <= |forced|
  {
    if forced == [] || size >= limit || usage + size <= limit then 0 else NeededFrom(forced, usage + size - limit, 1)
  }

  function NeededFrom(forced: seq<Idle>, excess: int, n: nat): (r: nat)
    requires 1 <= n <= |forced|
    ensures n <= r <= |forced|
    decreases |forced| - n
  {
    if n == |forced| || SumTo(forced, n) >= excess then n else NeededFrom(forced, excess, n + 1)
  }

  lemma {:induction false} RoundsByValue(s: Store, limit: int, rep: OpenRep, n: nat)
    requires 1 <= n <= |s.idle|
    ensures Rounds(s, limit, Local(rep), n) == NeededFrom(s.idle, s.usage + rep.size - limit, n)
    decreases |s.idle| - n
  {
    EvictedIdle(s, n);
    if n < |s.idle| { RoundsByValue(s, limit, rep, n + 1); }
  }

  lemma TurnsByValue(s: Store, limit: int, rep: OpenRep, forced: seq<Idle>)
    requires |forced| == |s.idle|
    ensures Turns(s, limit, Local(rep), forced) == Needed(forced, s.usage, rep.size, limit)
  {
    if Crowded(s, limit, Local(rep)) { RoundsByValue(s.(idle := forced), limit, rep, 1); }
  }

  /** An open repository that is made idle stays open exactly unless it is itself among the idle
      ones that must go for it. */
  lemma LocalStaysIff(s: Store, limit: int, rep: OpenRep, forced: seq<Idle>, time: int, oom: bool)
    requires Books(s, true) && rep in s.open && Rearranged(forced, TakenOff(s, rep).idle)
    ensures |forced| == |TakenOff(s, rep).idle|
    ensures rep in Start(s, limit, Local(rep), forced, time, oom).0.open
       <==> !Among(forced, Needed(forced, TakenOff(s, rep).usage, rep.size, limit), rep)
  {
    var s1 := TakenOff(s, rep);
    TakenOffBooks(s, rep);
    RearrangedLength(forced, s1.idle);
    TurnsByValue(s1, limit, rep, forced);
    RoomBooks(s1, limit, Local(rep), forced);
    EvictedOpen(s1.(idle := forced), Turns(s1, limit, Local(rep), forced), rep);
    AdmitBooks(Room(s1, limit, Local(rep), forced), limit, Local(rep), time, oom);
  }

  predicate IdleTwice(s: seq<Idle>, rep: OpenRep) {
    exists i, j :: 0 <= i < j < |s| && RepAt(s, i, rep) && RepAt(s, j, rep)
  }

  lemma StillThere(s: Store, rep: OpenRep)
    requires HasRep(TakenOff(s, rep).idle, rep)
    ensures IdleTwice(s.idle, rep)
  {
    LastHas(s.idle, rep);
    var i := LastTo(s.idle, rep, |s.idle|);
    if i >= 0 {
      var k :| 0 <= k < |s.idle| - 1 && RepAt(Without(s.idle, i), k, rep);
      var k' := if k < i then k else k + 1;
      assert RepAt(s.idle, i, rep) && RepAt(s.idle, k', rep);
    }
  }

  /** So it can be unloaded only if it is idle twice and the usage is above the limit already. */
  lemma LocalUnloadedOnlyIf(s: Store, limit: int, rep: OpenRep, forced: seq<Idle>, time: int, oom: bool)
    requires Books(s, true) && rep in s.open && Rearranged(forced, TakenOff(s, rep).idle)
    ensures |forced| == |TakenOff(s, rep).idle|
    ensures rep !in Start(s, limit, Local(rep), forced, time, oom).0.open ==> IdleTwice(s.idle, rep) && s.usage > limit
  {
    LocalStaysIff(s, limit, rep, forced, time, oom);
    TakenOffBooks(s, rep);
    var n := Needed(forced, TakenOff(s, rep).usage, rep.size, limit);
    if Among(forced, n, rep) {
      var i :| 0 <= i < n && RepAt(forced, i, rep);
      assert HasRep(forced, rep);
      HasRepRearranged(forced, TakenOff(s, rep).idle, rep);
      StillThere(s, rep);
      HasTwice(s.idle, rep);
    }
  }

  lemma HasTwice(s: seq<Idle>, rep: OpenRep)
    requires IdleTwice(s, rep)
    ensures HasRep(s, rep)
  {
  }

  /** It is accepted exactly if there is memory and it is below the limit, or fits as it is. With memory
      a refusal forces nothing out. */
  lemma LocalAcceptedIff(s: Store, limit: int, rep: OpenRep, forced: seq<Idle>, time: int, oom: bool)
    requires Books(s, true) && rep in s.open && Rearranged(forced, TakenOff(s, rep).idle)
    ensures |forced| == |TakenOff(s, rep).idle|
    ensures Start(s, limit, Local(rep), forced, time, oom).1
       <==> !oom && (rep.size < limit || TakenOff(s, rep).usage + rep.size <= limit)
    ensures var (t, ok) := Start(s, limit, Local(rep), forced, time, oom);
            if ok then Idle(time, rep) in t.idle else oom || t == TakenOff(s, rep)
  {
    var s1 := TakenOff(s, rep);
    TakenOffBooks(s, rep);
    RearrangedLength(forced, s1.idle);
    RoomFits(s1, limit, Local(rep), forced);
    var idle := Room(s1, limit, Local(rep), forced).idle;
    assert ByTime(idle, Idle(time, rep))[PlaceTo(idle, time, |idle|)] == Idle(time, rep);
  }

  /** Room has been made when what the reference named at the end of the eviction is what it names
      after the sort. */
  lemma RoomFits(s: Store, limit: int, ref: Ref, forced: seq<Idle>)
    requires Books(s, true) && Points(s, ref) && Rearranged(forced, s.idle) && |forced| == |s.idle|
    ensures var n, t := Turns(s, limit, ref, forced), Room(s, limit, ref, forced);
            && (n > 0 ==> Deref(s, ref).size < limit)
            && (n > 0 && Deref(t, ref) == Deref(Evicted(s.(idle := forced), n), ref) && Deref(t, ref).size < limit
                ==> Fits(t, limit, ref))
            && (n == 0 ==> t == s && (Deref(s, ref).size < limit ==> s.idle == [] || Fits(s, limit, ref)))
            && (s.idle == [] ==> s.usage == 0)
  {
    var n, f := Turns(s, limit, ref, forced), s.(idle := forced);
    SumRearranged(forced, s.idle);
    if n > 0 {
      EvictedBooks(f, n);
      EvictedIdle(f, n);
    }
  }

  // ----- what has been deleted -----

  /** The (i + 1)-th eviction reads the size of a repository that is still in memory. */
  predicate ReadsOpen(s: Store, i: nat)
    requires i < |s.idle|
  {
    s.idle[i].rep in Evicted(s, i).open
  }

  predicate FirstTime(s: Store, i: nat)
    requires i < |s.idle|
  {
    s.idle[i].rep in s.open && !Among(s.idle, i, s.idle[i].rep)
  }

  /** Unloading the first n reads open repositories alone exactly if each of them is open and not among
      the ones before it. */
  lemma ReadsOpenIff(s: Store, n: nat)
    requires n <= |s.idle| && OneByUid(s.open)
    ensures (forall i :: 0 <= i < n ==> ReadsOpen(s, i)) <==> forall i :: 0 <= i < n ==> FirstTime(s, i)
  {
    forall i | 0 <= i < n ensures ReadsOpen(s, i) <==> FirstTime(s, i) { EvictedOpen(s, i, s.idle[i].rep); }
  }

  // ----- a slot of the open list -----

  /** Unloading the i-th leaves what is before slot j and in it: it is not open any more, or it
      lies behind the slot. */
  predicate ClearAt(f: Store, i: nat, j: nat)
    requires i < |f.idle|
  {
    f.idle[i].rep !in Evicted(f, i).open || IndexOf(f.open, f.idle[i].rep) > j
  }

  /** The slot is by then the last of the list, or behind it. */
  predicate AtEnd(f: Store, i: nat, j: nat)
    requires i < |f.idle|
  {
    j + 1 >= |Evicted(f, i).open|
  }

  ghost predicate AllClear(f: Store, n: nat, j: nat)
    requires n <= |f.idle|
  {
    forall i :: 0 <= i < n ==> ClearAt(f, i, j)
  }

  /** The first lists agree up to slot j. */
  predicate Agree(f: Store, t: Store, j: nat) {
    j < |f.open| && j < |t.open| && t.open[..j + 1] == f.open[..j + 1]
  }

  lemma AgreeAt(f: Store, t: Store, j: nat, k: nat)
    requires Agree(f, t, j) && k <= j
    ensures t.open[k] == f.open[k]
  {
    assert t.open[..j + 1][k] == f.open[..j + 1][k];
  }

  lemma AgreeStays(f: Store, t: Store, j: nat, r: OpenRep)
    requires Agree(f, t, j) && OneByUid(f.open) && (r !in t.open || IndexOf(f.open, r) > j)
    ensures Agree(f, Closed(t, r), j)
  {
    IndexIn(t.open, r);
    var k := IndexOf(t.open, r);
    if 0 <= k <= j {
      AgreeAt(f, t, j, k);
      IndexIs(f.open, r, k);
    }
    if k > j { assert Without(t.open, k)[..j + 1] == t.open[..j + 1]; }
  }

  lemma {:induction false} InFront(f: Store, n: nat, j: nat)
    requires n <= |f.idle| && j < |f.open| && OneByUid(f.open) && AllClear(f, n, j)
    ensures Agree(f, Evicted(f, n), j)
  {
    if n > 0 {
      InFront(f, n - 1, j);
      assert ClearAt(f, n - 1, j);
      AgreeStays(f, Evicted(f, n - 1), j, f.idle[n - 1].rep);
      EvictedNext(f, n - 1);
    }
  }

  /** The slot is at or behind the end, and the memory there holds the repository. */
  predicate Left(t: Store, j: nat, rep: OpenRep) {
    j >= |t.open| && Points(t, OpenSlot(j)) && Deref(t, OpenSlot(j)) == rep
  }

  lemma LeftStays(t: Store, u: Store, j: nat, rep: OpenRep, r: OpenRep)
    requires Left(t, j, rep) && SameOpen(u, Closed(t, r))
    ensures Left(u, j, rep)
  {
  }

  lemma LastLeft(f: Store, t: Store, u: Store, j: nat, r: OpenRep)
    requires Agree(f, t, j) && j + 1 == |t.open| && r in t.open && SameOpen(u, Closed(t, r))
    ensures Left(u, j, f.open[j])
  {
    AgreeAt(f, t, j, j);
    IndexIn(t.open, r);
  }

  predicate Undisturbed(f: Store, i: nat, j: nat)
    requires i < |f.idle|
  {
    ClearAt(f, i, j) || AtEnd(f, i, j)
  }

  lemma {:induction false} Stays(f: Store, n: nat, j: nat)
    requires n <= |f.idle| && j < |f.open| && OneByUid(f.open)
    requires forall i :: 0 <= i < n ==> Undisturbed(f, i, j)
    ensures AllClear(f, n, j) || Left(Evicted(f, n), j, f.open[j])
  {
    if n > 0 {
      Stays(f, n - 1, j);
      EvictedNext(f, n - 1);
      assert Undisturbed(f, n - 1, j);
      if AllClear(f, n - 1, j) {
        InFront(f, n - 1, j);
        if !ClearAt(f, n - 1, j) { LastLeft(f, Evicted(f, n - 1), Evicted(f, n), j, f.idle[n - 1].rep); }
      } else {
        LeftStays(Evicted(f, n - 1), Evicted(f, n), j, f.open[j], f.idle[n - 1].rep);
      }
    }
  }

  /** A slot keeps naming its element as long as what is unloaded lies behind it, or the slot is
      at the end. */
  lemma SlotKept(f: Store, n: nat, j: nat)
    requires n <= |f.idle| && j < |f.open| && OneByUid(f.open)
    requires forall i :: 0 <= i < n ==> Undisturbed(f, i, j)
    ensures Deref(Evicted(f, n), OpenSlot(j)) == f.open[j]
  {
    Stays(f, n, j);
    if AllClear(f, n, j) {
      InFront(f, n, j);
      AgreeAt(f, Evicted(f, n), j, j);
    }
  }

  /** The element of slot j is now before the slot. */
  predicate Below(t: Store, j: nat, rep: OpenRep) {
    rep in t.open && IndexOf(t.open, rep) < j
  }

  lemma BelowStays(t: Store, j: nat, rep: OpenRep, r: OpenRep)
    requires OneByUid(t.open) && Below(t, j, rep) && r != rep && Points(t, OpenSlot(j))
    ensures Below(Closed(t, r), j, rep)
    ensures Deref(t, OpenSlot(j)) != rep ==> Deref(Closed(t, r), OpenSlot(j)) != rep
  {
    IndexIn(t.open, r);
    IndexIn(t.open, rep);
    var k, q := IndexOf(t.open, r), IndexOf(t.open, rep);
    if k >= 0 {
      var u := OpenOut(t, k);
      OneWithout(t.open, k);
      var q' := if q < k then q else q - 1;
      assert u.open[q'] == rep;
      IndexIs(u.open, rep, q');
      forall m | 0 <= m < |t.open| && m != q ensures t.open[m] != rep { NotAt(t.open, q, m); }
    }
  }

  lemma NotAt(s: seq<OpenRep>, q: nat, m: nat)
    requires OneByUid(s) && q < |s| && m < |s| && m != q
    ensures s[m] != s[q]
  {
    assert if m < q then !SameUid(s, m, q) else !SameUid(s, q, m);
  }

  /** Once something before the slot has been unloaded, its element lies before it; and the slot
      names something else from then on, unless it was at the end. */
  lemma {:induction false} SlotLost(f: Store, i: nat, n: nat, j: nat)
    requires i < n <= |f.idle| && j < |f.open| && OneByUid(f.open) && !Among(f.idle, n, f.open[j])
    requires AllClear(f, i, j) && !ClearAt(f, i, j)
    ensures Passed(Evicted(f, n), j, f.open[j], AtEnd(f, i, j))
    decreases n
  {
    if i < n - 1 {
      AmongMore(f.idle, n - 1, f.open[j]);
      SlotLost(f, i, n - 1, j);
      SlotLostMore(f, n - 1, j, AtEnd(f, i, j));
    } else {
      SlotLostHere(f, i, j);
    }
  }

  lemma SlotLostMore(f: Store, n: nat, j: nat, atEnd: bool)
    requires n < |f.idle| && j < |f.open| && OneByUid(f.open) && !Among(f.idle, n + 1, f.open[j])
    requires Passed(Evicted(f, n), j, f.open[j], atEnd)
    ensures Passed(Evicted(f, n + 1), j, f.open[j], atEnd)
  {
    AmongMore(f.idle, n, f.open[j]);
    EvictedOpen(f, n, f.idle[n].rep);
    EvictedNext(f, n);
    PassedStays(Evicted(f, n), Evicted(f, n + 1), j, f.open[j], atEnd, f.idle[n].rep);
  }

  lemma SlotLostHere(f: Store, i: nat, j: nat)
    requires i < |f.idle| && j < |f.open| && OneByUid(f.open) && !Among(f.idle, i + 1, f.open[j])
    requires AllClear(f, i, j) && !ClearAt(f, i, j)
    ensures Passed(Evicted(f, i + 1), j, f.open[j], AtEnd(f, i, j))
  {
    AmongMore(f.idle, i, f.open[j]);
    EvictedOpen(f, i, f.idle[i].rep);
    EvictedNext(f, i);
    InFront(f, i, j);
    IndexIn(f.open, f.idle[i].rep);
    SlotPassed(f, Evicted(f, i), Evicted(f, i + 1), j, f.idle[i].rep);
  }

  predicate Passed(t: Store, j: nat, rep: OpenRep, atEnd: bool) {
    Points(t, OpenSlot(j)) && Below(t, j, rep) && (!atEnd ==> Deref(t, OpenSlot(j)) != rep)
  }

  lemma PassedStays(t: Store, u: Store, j: nat, rep: OpenRep, atEnd: bool, r: OpenRep)
    requires OneByUid(t.open) && Passed(t, j, rep, atEnd) && r != rep && SameOpen(u, Closed(t, r))
    ensures Passed(u, j, rep, atEnd)
  {
    BelowStays(t, j, rep, r);
  }

  lemma SlotPassed(f: Store, t: Store, u: Store, j: nat, r: OpenRep)
    requires Agree(f, t, j) && OneByUid(t.open) && r != f.open[j] && 0 <= IndexOf(f.open, r) <= j
    requires SameOpen(u, Closed(t, r))
    ensures Passed(u, j, f.open[j], j + 1 >= |t.open|)
  {
    var rep, k := f.open[j], IndexOf(f.open, r);
    AgreeAt(f, t, j, j);
    AgreeAt(f, t, j, k);
    IndexIs(t.open, r, k);
    OneWithout(t.open, k);
    assert u.open[j - 1] == rep;
    IndexIs(u.open, rep, j - 1);
    if j + 1 < |t.open| { NotAt(t.open, j, j + 1); }
  }
}

/** When the last client of a repository goes: whether the repository becomes idle or is unloaded,
    from what is known before (cenrepsrv/obsrvr_noc.cpp RemoveObserver). The cache is given the
    slot of the open list, and what is unloaded is what is then found at that index. */
module Leaving {
  import opened Sequences
  import opened IdleList
  import opened Eviction

  // ----- how many are forced out -----

  ghost predicate NamesUpTo(f: Store, ref: Ref, rep: OpenRep, n: nat, m: nat)
    requires Points(f, ref) && m <= |f.idle|
  {
    forall i :: n <= i <= m ==> Named(f, ref, rep, i)
  }

  predicate Named(f: Store, ref: Ref, rep: OpenRep, i: nat)
    requires Points(f, ref) && i <= |f.idle|
  {
    Deref(Evicted(f, i), ref) == rep
  }

  /** As long as the reference names the repository, the loop runs as it does for a variable. */
  lemma {:induction false} RoundsAgree(f: Store, limit: int, ref: Ref, rep: OpenRep, n: nat)
    requires 1 <= n <= |f.idle| && Points(f, ref)
    requires var a, b := Rounds(f, limit, ref, n), Rounds(f, limit, Local(rep), n);
             NamesUpTo(f, ref, rep, n, if a < b then a else b)
    ensures Rounds(f, limit, ref, n) == Rounds(f, limit, Local(rep), n)
    decreases |f.idle| - n
  {
    assert Named(f, ref, rep, n);
    if n < |f.idle| && !Fits(Evicted(f, n), limit, ref) { RoundsAgree(f, limit, ref, rep, n + 1); }
  }

  // ----- the condition -----

  /** Unloading the i-th for it does not disturb the slot: what is unloaded lies behind it, or is
      not open any more; or the slot is at the end, which keeps a reference but not an index. */
  predicate Spared(f: Store, slot: nat, oom: bool, i: nat)
    requires i < |f.idle|
  {
    ClearAt(f, i, slot) || (!oom && AtEnd(f, i, slot))
  }

  predicate SparedUpTo(f: Store, slot: nat, oom: bool, m: nat)
    requires m <= |f.idle|
  {
    forall i :: 0 <= i < m ==> Spared(f, slot, oom, i)
  }

  /** What was meant: the repository is idle or no longer open. */
  predicate IdleOrGone(s: Store, rep: OpenRep) {
    HasRep(s.idle, rep) || rep !in s.open
  }

  lemma SparedNamed(f: Store, slot: nat, oom: bool, n: nat, m: nat)
    requires n <= m <= |f.idle| && slot < |f.open| && OneByUid(f.open) && SparedUpTo(f, slot, oom, m)
    ensures Named(f, OpenSlot(slot), f.open[slot], n)
    ensures oom ==> AllClear(f, n, slot)
  {
    forall i | 0 <= i < n ensures Undisturbed(f, i, slot) { assert Spared(f, slot, oom, i); }
    if oom {
      forall i | 0 <= i < n ensures ClearAt(f, i, slot) { assert Spared(f, slot, oom, i); }
    }
    SlotKept(f, n, slot);
  }

  /** The first entry that does not spare the slot. */
  lemma {:induction false} FirstNotSpared(f: Store, slot: nat, oom: bool, m: nat) returns (i: nat)
    requires m <= |f.idle| && slot < |f.open| && OneByUid(f.open) && !SparedUpTo(f, slot, oom, m)
    ensures i < m && !Spared(f, slot, oom, i) && SparedUpTo(f, slot, oom, i)
  {
    if SparedUpTo(f, slot, oom, m - 1) {
      i := m - 1;
      assert forall k :: 0 <= k < m && k != m - 1 ==> Spared(f, slot, oom, k);
    } else {
      i := FirstNotSpared(f, slot, oom, m - 1);
    }
  }

  /** Where an entry does not spare the slot, everything before it was clear of it. */
  lemma ClearBefore(f: Store, slot: nat, oom: bool, i: nat)
    requires i < |f.idle| && slot < |f.open| && OneByUid(f.open)
    requires !Spared(f, slot, oom, i) && SparedUpTo(f, slot, oom, i)
    ensures AllClear(f, i, slot)
  {
    forall k | 0 <= k < i ensures Undisturbed(f, k, slot) { assert Spared(f, slot, oom, k); }
    if oom {
      forall k | 0 <= k < i ensures ClearAt(f, k, slot) { assert Spared(f, slot, oom, k); }
    } else {
      Stays(f, i, slot);
    }
  }

  /** How many are forced out: as many as must go for the repository, or more than came before the
      first that does not spare its slot. */
  lemma TurnsVersus(s: Store, limit: int, slot: nat, forced: seq<Idle>, oom: bool)
    requires slot < |s.open| && |forced| == |s.idle| && OneByUid(s.open)
    ensures var f, rep := s.(idle := forced), s.open[slot];
            var n, m := Turns(s, limit, OpenSlot(slot), forced), Needed(forced, s.usage, rep.size, limit);
            && (n == 0 <==> m == 0)
            && (SparedUpTo(f, slot, oom, m) ==> n == m)
            && forall i :: 0 <= i < m && SparedUpTo(f, slot, oom, i) ==> i < n
  {
    var f, rep, ref := s.(idle := forced), s.open[slot], OpenSlot(slot);
    var n, m := Turns(s, limit, ref, forced), Needed(forced, s.usage, rep.size, limit);
    TurnsByValue(s, limit, rep, forced);
    if m > 0 {
      if SparedUpTo(f, slot, oom, m) { SparedAgree(f, limit, slot, oom, m); }
      forall i | 0 <= i < m && SparedUpTo(f, slot, oom, i) ensures i < n {
        if n <= i { SparedAgree(f, limit, slot, oom, i); }
      }
    }
  }

  lemma SparedAgree(f: Store, limit: int, slot: nat, oom: bool, i: nat)
    requires f.idle != [] && slot < |f.open| && OneByUid(f.open) && i <= |f.idle| && SparedUpTo(f, slot, oom, i)
    requires var a, b := Rounds(f, limit, OpenSlot(slot), 1), Rounds(f, limit, Local(f.open[slot]), 1); a <= i || b <= i
    ensures Rounds(f, limit, OpenSlot(slot), 1) == Rounds(f, limit, Local(f.open[slot]), 1)
  {
    var a, b := Rounds(f, limit, OpenSlot(slot), 1), Rounds(f, limit, Local(f.open[slot]), 1);
    forall k | 1 <= k <= if a < b then a else b ensures Named(f, OpenSlot(slot), f.open[slot], k) {
      SparedNamed(f, slot, oom, k, i);
    }
    RoundsAgree(f, limit, OpenSlot(slot), f.open[slot], 1);
  }

  // ----- the last client goes -----

  /** What is left of the slot once room has been made, when it was spared. */
  lemma SparedRoom(s: Store, limit: int, slot: nat, forced: seq<Idle>, oom: bool)
    requires Books(s, true) && slot < |s.open| && Rearranged(forced, s.idle) && |forced| == |s.idle|
    requires SparedUpTo(s.(idle := forced), slot, oom, Needed(forced, s.usage, s.open[slot].size, limit))
    ensures var t := Room(s, limit, OpenSlot(slot), forced);
            && Points(t, OpenSlot(slot)) && Deref(t, OpenSlot(slot)) == s.open[slot]
            && (oom || !Fits(t, limit, OpenSlot(slot)) ==> slot < |t.open| && t.open[slot] == s.open[slot])
  {
    var ref, f, t := OpenSlot(slot), s.(idle := forced), Room(s, limit, OpenSlot(slot), forced);
    var n := Turns(s, limit, ref, forced);
    TurnsVersus(s, limit, slot, forced, oom);
    SparedNamed(f, slot, oom, n, n);
    RoomFits(s, limit, ref, forced);
    assert n > 0 ==> t.open == Evicted(f, n).open && t.behindOpen == Evicted(f, n).behindOpen;
    if oom {
      InFront(f, n, slot);
      AgreeAt(f, Evicted(f, n), slot, slot);
    }
  }

  lemma SparedLeaves(s: Store, limit: int, slot: nat, forced: seq<Idle>, time: int, oom: bool)
    requires Books(s, true) && slot < |s.open| && Rearranged(forced, TakenOff(s, s.open[slot]).idle)
    requires |forced| == |TakenOff(s, s.open[slot]).idle|
    requires var s1 := TakenOff(s, s.open[slot]);
             s1.open == s.open && SparedUpTo(s1.(idle := forced), slot, oom, Needed(forced, s1.usage, s.open[slot].size, limit))
    ensures var (u, _) := Leave(s, true, limit, slot, forced, time, oom);
            Idle(time, s.open[slot]) in u.idle || s.open[slot] !in u.open
  {
    var rep, s1 := s.open[slot], TakenOff(s, s.open[slot]);
    TakenOffBooks(s, rep);
    SparedRoom(s1, limit, slot, forced, oom);
    RoomBooks(s1, limit, OpenSlot(slot), forced);
    var t := Room(s1, limit, OpenSlot(slot), forced);
    if Admit(t, limit, OpenSlot(slot), time, oom).1 {
      assert ByTime(t.idle, Idle(time, rep))[PlaceTo(t.idle, time, |t.idle|)] == Idle(time, rep);
    } else {
      OneWithout(t.open, slot);
    }
  }

  /** Where the slot was not spared, and the repository itself not unloaded, it stays open and is
      not made idle. */
  lemma NotSparedLeaves(s: Store, limit: int, slot: nat, forced: seq<Idle>, time: int, oom: bool)
    requires Books(s, true) && slot < |s.open| && Rearranged(forced, TakenOff(s, s.open[slot]).idle)
    requires |forced| == |TakenOff(s, s.open[slot]).idle| && !HasRep(TakenOff(s, s.open[slot]).idle, s.open[slot])
    requires var s1 := TakenOff(s, s.open[slot]);
             s1.open == s.open && !SparedUpTo(s1.(idle := forced), slot, oom, Needed(forced, s1.usage, s.open[slot].size, limit))
    ensures !IdleOrGone(Leave(s, true, limit, slot, forced, time, oom).0, s.open[slot])
  {
    var rep, s1, ref := s.open[slot], TakenOff(s, s.open[slot]), OpenSlot(slot);
    var f, n := s1.(idle := forced), Turns(s1, limit, ref, forced);
    TakenOffBooks(s, rep);
    TurnsVersus(s1, limit, slot, forced, oom);
    var i := FirstNotSpared(f, slot, oom, Needed(forced, s1.usage, rep.size, limit));
    ClearBefore(f, slot, oom, i);
    HasRepRearranged(forced, s1.idle, rep);
    NotAmong(forced, n, rep);
    SlotLost(f, i, n, slot);
    var t := Room(s1, limit, ref, forced);
    assert t.open == Evicted(f, n).open && t.behindOpen == Evicted(f, n).behindOpen;
    RoomLacks(s1, limit, ref, forced, rep);
    RoomBooks(s1, limit, ref, forced);
    AdmittedLacks(t, limit, ref, time, oom, rep);
    if slot < |t.open| { BeforeStays(t.open, slot, rep); }
  }

  lemma NotAmong(s: seq<Idle>, n: nat, rep: OpenRep)
    requires n <= |s| && !HasRep(s, rep)
    ensures !Among(s, n, rep)
  {
  }

  lemma BeforeStays(open: seq<OpenRep>, slot: nat, rep: OpenRep)
    requires slot < |open| && rep in open && IndexOf(open, rep) < slot
    ensures rep in Without(open, slot)
  {
    IndexIn(open, rep);
    assert Without(open, slot)[IndexOf(open, rep)] == rep;
  }

  lemma SuffixLacks(s: seq<Idle>, n: nat, rep: OpenRep)
    requires n <= |s| && !HasRep(s, rep)
    ensures !HasRep(s[n..], rep)
  {
    forall i | 0 <= i < |s| - n ensures !RepAt(s[n..], i, rep) { assert !RepAt(s, i + n, rep); }
  }

  lemma RoomLacks(s: Store, limit: int, ref: Ref, forced: seq<Idle>, rep: OpenRep)
    requires Books(s, true) && Points(s, ref) && Rearranged(forced, s.idle) && |forced| == |s.idle|
    requires !HasRep(s.idle, rep)
    ensures !HasRep(Room(s, limit, ref, forced).idle, rep)
  {
    var n := Turns(s, limit, ref, forced);
    RoomBooks(s, limit, ref, forced);
    HasRepRearranged(forced, s.idle, rep);
    SuffixLacks(forced, n, rep);
    if n > 0 { HasRepRearranged(Room(s, limit, ref, forced).idle, forced[n..], rep); }
  }

  lemma AdmittedLacks(t: Store, limit: int, ref: Ref, time: int, oom: bool, rep: OpenRep)
    requires Points(t, ref) && !HasRep(t.idle, rep)
    ensures var (u, ok) := Admit(t, limit, ref, time, oom);
            HasRep(u.idle, rep) <==> ok && Deref(t, ref) == rep
  {
    var x, at := Idle(time, Deref(t, ref)), PlaceTo(t.idle, time, |t.idle|);
    var r := ByTime(t.idle, x);
    forall i | 0 <= i < |r| && i != at ensures !RepAt(r, i, rep) { assert !RepAt(t.idle, if i < at then i else i - 1, rep); }
    assert RepAt(r, at, x.rep);
  }

  /** A repository that is idle once more is either unloaded or stays on the list. */
  lemma IdleTwiceLeaves(s: Store, limit: int, slot: nat, forced: seq<Idle>, time: int, oom: bool)
    requires Books(s, true) && slot < |s.open| && Rearranged(forced, TakenOff(s, s.open[slot]).idle)
    requires |forced| == |TakenOff(s, s.open[slot]).idle| && HasRep(TakenOff(s, s.open[slot]).idle, s.open[slot])
    ensures IdleOrGone(Leave(s, true, limit, slot, forced, time, oom).0, s.open[slot])
  {
    var rep, s1, ref := s.open[slot], TakenOff(s, s.open[slot]), OpenSlot(slot);
    var f, n, t := s1.(idle := forced), Turns(s1, limit, ref, forced), Room(s1, limit, ref, forced);
    TakenOffBooks(s, rep);
    RoomBooks(s1, limit, ref, forced);
    HasRepRearranged(forced, s1.idle, rep);
    EvictedOpen(f, n, rep);
    if Among(forced, n, rep) {
      if slot < |t.open| { OneWithout(t.open, slot); }
    } else {
      var i :| 0 <= i < |forced| && RepAt(forced, i, rep);
      assert i >= n;
      assert RepAt(forced[n..], i - n, rep);
      assert forced[0..] == forced;
      HasRepRearranged(t.idle, forced[n..], rep);
      AdmittedKeeps(t, limit, ref, time, oom, rep);
    }
  }

  lemma AdmittedKeeps(t: Store, limit: int, ref: Ref, time: int, oom: bool, rep: OpenRep)
    requires Points(t, ref) && HasRep(t.idle, rep)
    ensures HasRep(Admit(t, limit, ref, time, oom).0.idle, rep)
  {
    var x, at := Idle(time, Deref(t, ref)), PlaceTo(t.idle, time, |t.idle|);
    var i :| 0 <= i < |t.idle| && RepAt(t.idle, i, rep);
    assert RepAt(ByTime(t.idle, x), if i < at then i else i + 1, rep);
  }

  /** A leaving keeps the books, and the usage within the limit where it was. */
  lemma LeaveBooks(s: Store, enabled: bool, limit: int, slot: nat, forced: seq<Idle>, time: int, oom: bool)
    requires Books(s, enabled) && slot < |s.open| && Rearranged(forced, TakenOff(s, s.open[slot]).idle)
    ensures |forced| == |TakenOff(s, s.open[slot]).idle|
    ensures var t := Leave(s, enabled, limit, slot, forced, time, oom).0;
            && Books(t, enabled) && (s.usage <= limit ==> t.usage <= limit)
            && forall r :: r in t.open ==> r in s.open
  {
    RearrangedLength(forced, TakenOff(s, s.open[slot]).idle);
    if enabled {
      StartBooks(s, limit, OpenSlot(slot), forced, time, oom);
      StartOpen(s, limit, OpenSlot(slot), forced, time, oom);
    }
    var (t, kept) := if enabled then Start(s, limit, OpenSlot(slot), forced, time, oom) else (s, false);
    if !kept && slot < |t.open| { OneWithout(t.open, slot); }
  }

  /** How many at the front of the order must go. */
  function MustGo(s: Store, enabled: bool, limit: int, slot: nat, forced: seq<Idle>): (r: nat)
    requires slot < |s.open|
    ensures r <= |forced|
  {
    if enabled then Needed(forced, TakenOff(s, s.open[slot]).usage, s.open[slot].size, limit) else 0
  }

  /** The repository whose last client goes is idle or unloaded afterwards exactly if it is idle
      already, or each of those that must go for it spares its slot. Unless it was idle already,
      it is idle from now on. */
  lemma LeaveIff(s: Store, enabled: bool, limit: int, slot: nat, forced: seq<Idle>, time: int, oom: bool)
    requires Books(s, enabled) && slot < |s.open| && Rearranged(forced, TakenOff(s, s.open[slot]).idle)
    ensures |forced| == |TakenOff(s, s.open[slot]).idle|
    ensures var rep, s1 := s.open[slot], TakenOff(s, s.open[slot]);
            var f, u := s1.(idle := forced), Leave(s, enabled, limit, slot, forced, time, oom).0;
            && (IdleOrGone(u, rep)
                <==> HasRep(s1.idle, rep) || SparedUpTo(f, slot, oom, MustGo(s, enabled, limit, slot, forced)))
            && (HasRep(u.idle, rep) && rep in u.open && !HasRep(s1.idle, rep) ==> Idle(time, rep) in u.idle)
  {
    var rep, s1 := s.open[slot], TakenOff(s, s.open[slot]);
    RearrangedLength(forced, s1.idle);
    if enabled {
      TakenOffBooks(s, rep);
      if HasRep(s1.idle, rep) {
        IdleTwiceLeaves(s, limit, slot, forced, time, oom);
      } else if SparedUpTo(s1.(idle := forced), slot, oom, MustGo(s, enabled, limit, slot, forced)) {
        SparedLeaves(s, limit, slot, forced, time, oom);
        HasRepIn(Leave(s, enabled, limit, slot, forced, time, oom).0.idle, rep);
      } else {
        NotSparedLeaves(s, limit, slot, forced, time, oom);
      }
    } else {
      OneWithout(s.open, slot);
    }
  }
}

/** The accounts of the cache: each idle repository is open and on the list once, and the usage is
    within the limit. When an eviction keeps them, and when not (cenrepsrv/cachemgr.cpp). */
module Accounts {
  import opened Sequences
  import opened IdleList
  import opened Eviction
  import opened Leaving
  import opened Naming

  predicate IsOpen(s: seq<Idle>, i: nat, open: seq<OpenRep>)
    requires i < |s|
  {
    s[i].rep in open
  }

  predicate AllOpen(s: seq<Idle>, open: seq<OpenRep>) {
    forall i :: 0 <= i < |s| ==> IsOpen(s, i, open)
  }

  predicate Sound(s: Store, enabled: bool, limit: int) {
    Books(s, enabled) && DistinctReps(s.idle) && AllOpen(s.idle, s.open) && s.usage <= limit
  }

  lemma OpenMembers(s: seq<Idle>, open: seq<OpenRep>)
    ensures AllOpen(s, open) <==> forall x :: x in s ==> x.rep in open
  {
    if AllOpen(s, open) {
      forall x | x in s ensures x.rep in open {
        var i :| 0 <= i < |s| && s[i] == x;
        assert IsOpen(s, i, open);
      }
    } else {
      var i :| 0 <= i < |s| && !IsOpen(s, i, open);
      assert s[i] in s;
    }
  }

  lemma OpenRearranged(a: seq<Idle>, b: seq<Idle>, open: seq<OpenRep>)
    requires Rearranged(a, b) && AllOpen(b, open)
    ensures AllOpen(a, open)
  {
    OpenMembers(a, open);
    OpenMembers(b, open);
    forall x | x in a ensures x in b { assert x in multiset(a); }
  }

  lemma TakenOffSound(s: Store, limit: int, rep: OpenRep)
    requires Sound(s, true, limit)
    ensures Sound(TakenOff(s, rep), true, limit) && !HasRep(TakenOff(s, rep).idle, rep)
  {
    TakenOffBooks(s, rep);
    LastHas(s.idle, rep);
    var i := LastTo(s.idle, rep, |s.idle|);
    if i >= 0 {
      DistinctWithout(s.idle, i);
      OpenMembers(s.idle, s.open);
      OpenMembers(Without(s.idle, i), s.open);
      WithoutSlices(s.idle, i);
    }
  }

  lemma DistinctSuffix(s: seq<Idle>, n: nat)
    requires DistinctReps(s) && n <= |s|
    ensures DistinctReps(s[n..])
    ensures forall i :: n <= i < |s| ==> !Among(s, n, s[i].rep)
  {
    forall a, b | 0 <= a < b < |s| - n ensures Differ(s[n..], a, b) { assert Differ(s, a + n, b + n); }
    forall i | n <= i < |s| ensures !Among(s, n, s[i].rep) {
      forall k | 0 <= k < n ensures !RepAt(s, k, s[i].rep) { assert Differ(s, k, i); }
    }
  }

  /** With the accounts in order nothing is read after it has been deleted. */
  lemma SoundReadsOpen(s: Store, enabled: bool, limit: int, i: nat)
    requires Sound(s, enabled, limit) && i < |s.idle|
    ensures ReadsOpen(s, i)
  {
    DistinctSuffix(s.idle, i);
    assert IsOpen(s.idle, i, s.open);
    EvictedOpen(s, i, s.idle[i].rep);
  }

  /** Making room keeps the accounts, whatever the reference names. */
  lemma RoomSound(s: Store, limit: int, ref: Ref, forced: seq<Idle>)
    requires Sound(s, true, limit) && Points(s, ref) && Rearranged(forced, s.idle) && |forced| == |s.idle|
    ensures Sound(Room(s, limit, ref, forced), true, limit)
  {
    var n, t, f := Turns(s, limit, ref, forced), Room(s, limit, ref, forced), s.(idle := forced);
    RoomBooks(s, limit, ref, forced);
    if n > 0 {
      DistinctRearranged(forced, s.idle);
      DistinctSuffix(forced, n);
      DistinctRearranged(t.idle, forced[n..]);
      OpenRearranged(forced, s.idle, s.open);
      forall i | 0 <= i < |forced| - n ensures IsOpen(forced[n..], i, t.open) {
        assert IsOpen(forced, i + n, s.open);
        EvictedOpen(f, n, forced[i + n].rep);
      }
      OpenRearranged(t.idle, forced[n..], t.open);
    }
  }

  /** Inserting keeps them exactly if what is inserted is open and not on the list. */
  lemma AdmitSoundIff(s: Store, limit: int, ref: Ref, time: int, oom: bool)
    requires Sound(s, true, limit) && Points(s, ref)
    ensures var (t, ok) := Admit(s, limit, ref, time, oom);
            Sound(t, true, limit) <==> !ok || (Deref(s, ref) in s.open && !HasRep(s.idle, Deref(s, ref)))
  {
    AdmitBooks(s, limit, ref, time, oom);
    var x, at := Idle(time, Deref(s, ref)), PlaceTo(s.idle, time, |s.idle|);
    DistinctInserted(s.idle, at, x);
    InsertedSlices(s.idle, at, x);
    OpenMembers(s.idle, s.open);
    OpenMembers(ByTime(s.idle, x), s.open);
    assert x in ByTime(s.idle, x) by { assert ByTime(s.idle, x)[at] == x; }
    assert forall y :: y in ByTime(s.idle, x) <==> y in s.idle || y == x;
  }

  /** What is inserted: what the reference names once room has been made. */
  function Inserts(s: Store, limit: int, ref: Ref, forced: seq<Idle>): (r: (Store, OpenRep))
    requires Inside(s, ref) && |forced| == |TakenOff(s, Deref(s, ref)).idle|
  {
    var t := Room(TakenOff(s, Deref(s, ref)), limit, ref, forced);
    (t, Deref(t, ref))
  }

  /** An eviction keeps the accounts exactly if it inserts nothing, or something that is open and
      not idle. */
  lemma StartSoundIff(s: Store, limit: int, ref: Ref, forced: seq<Idle>, time: int, oom: bool)
    requires Sound(s, true, limit) && Inside(s, ref) && Rearranged(forced, TakenOff(s, Deref(s, ref)).idle)
    ensures |forced| == |TakenOff(s, Deref(s, ref)).idle|
    ensures var (t, ok) := Start(s, limit, ref, forced, time, oom);
            var (room, x) := Inserts(s, limit, ref, forced);
            Sound(t, true, limit) <==> !ok || (x in room.open && !HasRep(room.idle, x))
  {
    var s1 := TakenOff(s, Deref(s, ref));
    TakenOffSound(s, limit, Deref(s, ref));
    RearrangedLength(forced, s1.idle);
    RoomSound(s1, limit, ref, forced);
    AdmitSoundIff(Room(s1, limit, ref, forced), limit, ref, time, oom);
  }

  /** For a variable it always does. */
  lemma LocalSound(s: Store, limit: int, rep: OpenRep, forced: seq<Idle>, time: int, oom: bool)
    requires Sound(s, true, limit) && rep in s.open && Rearranged(forced, TakenOff(s, rep).idle)
    ensures |forced| == |TakenOff(s, rep).idle|
    ensures Sound(Start(s, limit, Local(rep), forced, time, oom).0, true, limit)
  {
    StartSoundIff(s, limit, Local(rep), forced, time, oom);
    var s1 := TakenOff(s, rep);
    TakenOffSound(s, limit, rep);
    TakenOffBooks(s, rep);
    RoomLacks(s1, limit, Local(rep), forced, rep);
    RoomBooks(s1, limit, Local(rep), forced);
    HasRepRearranged(forced, s1.idle, rep);
    NotAmong(forced, Turns(s1, limit, Local(rep), forced), rep);
    EvictedOpen(s1.(idle := forced), Turns(s1, limit, Local(rep), forced), rep);
  }

  // ----- a slot of the idle list -----

  /** The memory behind the idle list is left alone. */
  lemma {:induction false} BehindStays(f: Store, n: nat, j: nat)
    requires n <= |f.idle| && |f.idle| <= j < |f.idle| + |f.behindIdle|
    ensures Deref(Evicted(f, n), IdleSlot(j)) == Deref(f, IdleSlot(j))
  {
    if n > 0 { BehindStays(f, n - 1, j); }
  }

  /** A slot that is still within the idle list, or was before the eviction, names a repository
      that is idle, or, when all have been unloaded, one that is not open. */
  lemma SlotWithin(s: Store, limit: int, forced: seq<Idle>, i: nat)
    requires Sound(s, true, limit) && Rearranged(forced, s.idle) && |forced| == |s.idle| && i < |s.idle|
    ensures var t := Room(s, limit, IdleSlot(i), forced);
            HasRep(t.idle, Deref(t, IdleSlot(i))) || Deref(t, IdleSlot(i)) !in t.open
  {
    var ref, f := IdleSlot(i), s.(idle := forced);
    var n, t := Turns(s, limit, ref, forced), Room(s, limit, ref, forced);
    RoomBooks(s, limit, ref, forced);
    if i < |t.idle| {
      assert RepAt(t.idle, i, Deref(t, ref));
    } else {
      BehindIsLast(f, n, i);
      var last := forced[|forced| - 1].rep;
      assert Deref(t, ref) == Deref(Evicted(f, n), ref) == last;
      if t.idle == [] {
        assert RepAt(forced, |forced| - 1, last);
        EvictedOpen(f, n, last);
      } else {
        assert RepAt(forced[n..], |forced| - n - 1, last);
        HasRepRearranged(t.idle, forced[n..], last);
      }
    }
  }

  /** The timer gives the slot that is removed first: the accounts are kept exactly if it was the
      last of the list, or nothing is inserted. */
  lemma IdleSlotSoundIff(s: Store, limit: int, i: nat, forced: seq<Idle>, time: int, oom: bool)
    requires Sound(s, true, limit) && i < |s.idle| && Rearranged(forced, TakenOff(s, s.idle[i].rep).idle)
    ensures |forced| == |TakenOff(s, s.idle[i].rep).idle|
    ensures var (t, ok) := Start(s, limit, IdleSlot(i), forced, time, oom);
            Sound(t, true, limit) <==> !ok || i == |s.idle| - 1
  {
    var rep, s1, ref := s.idle[i].rep, TakenOff(s, s.idle[i].rep), IdleSlot(i);
    StartSoundIff(s, limit, ref, forced, time, oom);
    TakenOffSound(s, limit, rep);
    TakenOffBooks(s, rep);
    OnlyEntry(s.idle, i);
    if i < |s.idle| - 1 {
      SlotWithin(s1, limit, forced, i);
    } else {
      var n := Turns(s1, limit, ref, forced);
      BehindStays(s1.(idle := forced), n, i);
      RoomLacks(s1, limit, ref, forced, rep);
      RoomBooks(s1, limit, ref, forced);
      HasRepRearranged(forced, s1.idle, rep);
      NotAmong(forced, n, rep);
      EvictedOpen(s1.(idle := forced), n, rep);
      assert IsOpen(s.idle, i, s.open);
    }
  }

  /** The slot of an idle repository was not the last, and what it names in the end is made idle once
      more. */
  predicate MisplacesNext(s: Store, limit: int, i: nat, forced: seq<Idle>, oom: bool)
    requires i < |s.idle|
  {
    i < |forced| == |s.idle| - 1
    && IdleAccepted(s.idle[i + 1].rep, forced, s.usage - s.idle[i].rep.size, limit, i, oom)
  }

  lemma IdleSlotAcceptedIff(s: Store, limit: int, i: nat, forced: seq<Idle>, time: int, oom: bool)
    requires i < |s.idle| - 1 && LastTo(s.idle, s.idle[i].rep, |s.idle|) == i && |forced| == |s.idle| - 1
    ensures |forced| == |TakenOff(s, s.idle[i].rep).idle|
    ensures Start(s, limit, IdleSlot(i), forced, time, oom).1
       <==> MisplacesNext(s, limit, i, forced, oom)
  {
    IdleAcceptedIff(TakenOff(s, s.idle[i].rep), limit, i, forced, time, oom);
  }

  /** From what is known before: the accounts are kept exactly unless that happens. */
  lemma IdleSlotKeepsIff(s: Store, limit: int, i: nat, forced: seq<Idle>, time: int, oom: bool)
    requires Sound(s, true, limit) && i < |s.idle| && Rearranged(forced, TakenOff(s, s.idle[i].rep).idle)
    ensures |forced| == |TakenOff(s, s.idle[i].rep).idle| == |s.idle| - 1
    ensures Sound(Start(s, limit, IdleSlot(i), forced, time, oom).0, true, limit)
       <==> !MisplacesNext(s, limit, i, forced, oom)
  {
    IdleSlotSoundIff(s, limit, i, forced, time, oom);
    OnlyEntry(s.idle, i);
    if i < |s.idle| - 1 { IdleSlotAcceptedIff(s, limit, i, forced, time, oom); }
  }

  lemma OnlyEntry(s: seq<Idle>, i: nat)
    requires DistinctReps(s) && i < |s|
    ensures LastTo(s, s[i].rep, |s|) == i
  {
    LastFound(s, s[i].rep, |s|, i);
    forall k | i < k < |s| ensures s[k].rep != s[i].rep { assert Differ(s, i, k); }
  }

  // ----- a slot of the open list -----

  /** With the accounts in order every entry unloads one repository, so that the condition for a
      leaving is about places in the open list alone. */
  lemma SparedIff(s: Store, limit: int, forced: seq<Idle>, slot: nat, oom: bool, i: nat)
    requires Sound(s, true, limit) && Rearranged(forced, s.idle) && |forced| == |s.idle|
    requires i < |forced| && slot < |s.open|
    ensures Spared(s.(idle := forced), slot, oom, i)
       <==> IndexOf(s.open, forced[i].rep) > slot || (!oom && slot + 1 + i >= |s.open|)
  {
    DistinctRearranged(forced, s.idle);
    OpenRearranged(forced, s.idle, s.open);
    var f := s.(idle := forced);
    EachUnloads(f, i);
    DistinctSuffix(forced, i);
    assert IsOpen(forced, i, s.open);
    EvictedOpen(f, i, forced[i].rep);
  }

  lemma {:induction false} EachUnloads(f: Store, n: nat)
    requires n <= |f.idle| && OneByUid(f.open) && DistinctReps(f.idle) && AllOpen(f.idle, f.open)
    ensures |Evicted(f, n).open| == |f.open| - n
  {
    if n > 0 {
      EachUnloads(f, n - 1);
      DistinctSuffix(f.idle, n - 1);
      assert IsOpen(f.idle, n - 1, f.open);
      EvictedOpen(f, n - 1, f.idle[n - 1].rep);
      EvictedNext(f, n - 1);
      IndexIn(Evicted(f, n - 1).open, f.idle[n - 1].rep);
    }
  }

  /** So: idle or unloaded exactly if each of those that must go lies behind the repository in the
      open list; or, while there is memory, goes when the slot is at the end. */
  lemma LeaveSoundIff(s: Store, enabled: bool, limit: int, slot: nat, forced: seq<Idle>, time: int, oom: bool)
    requires Sound(s, enabled, limit) && slot < |s.open| && Rearranged(forced, TakenOff(s, s.open[slot]).idle)
    ensures |forced| == |TakenOff(s, s.open[slot]).idle|
    ensures var u := Leave(s, enabled, limit, slot, forced, time, oom).0;
            Idle(time, s.open[slot]) in u.idle || s.open[slot] !in u.open
            <==> forall i :: 0 <= i < MustGo(s, enabled, limit, slot, forced) ==>
              IndexOf(s.open, forced[i].rep) > slot || (!oom && slot + 1 + i >= |s.open|)
  {
    LeaveIff(s, enabled, limit, slot, forced, time, oom);
    var rep, m := s.open[slot], MustGo(s, enabled, limit, slot, forced);
    var u := Leave(s, enabled, limit, slot, forced, time, oom).0;
    HasRepIn(u.idle, rep);
    if enabled {
      var s1 := TakenOff(s, rep);
      TakenOffSound(s, limit, rep);
      TakenOffBooks(s, rep);
      forall i | 0 <= i < m
        ensures Spared(s1.(idle := forced), slot, oom, i)
           <==> IndexOf(s.open, forced[i].rep) > slot || (!oom && slot + 1 + i >= |s.open|)
      {
        SparedIff(s1, limit, forced, slot, oom, i);
      }
    }
  }

  /** And the accounts stay in order exactly if what the slot names in the end is the repository
      itself or not idle; or, when it is not accepted, the list has shrunk to the slot. */
  lemma LeaveKeepsIff(s: Store, enabled: bool, limit: int, slot: nat, forced: seq<Idle>, time: int, oom: bool)
    requires Sound(s, enabled, limit) && slot < |s.open| && Rearranged(forced, TakenOff(s, s.open[slot]).idle)
    ensures |forced| == |TakenOff(s, s.open[slot]).idle|
    ensures var usage := TakenOff(s, s.open[slot]).usage;
            var n := OpenTurns(s.open, forced, usage, limit, slot);
            var x := OpenNamed(s.open, forced, slot, n);
            Sound(Leave(s, enabled, limit, slot, forced, time, oom).0, enabled, limit)
            <==> x == s.open[slot] || !HasRep(s.idle, x)
                 || (!OpenAccepted(s.open, forced, usage, limit, slot, oom) && slot + n >= |s.open|)
  {
    RearrangedLength(forced, TakenOff(s, s.open[slot]).idle);
    if enabled {
      LeaveCachedKeepsIff(s, limit, slot, forced, time, oom);
    } else {
      UnloadSoundIff(s, enabled, limit, slot);
    }
  }

  lemma LeaveCachedKeepsIff(s: Store, limit: int, slot: nat, forced: seq<Idle>, time: int, oom: bool)
    requires Sound(s, true, limit) && slot < |s.open| && Rearranged(forced, TakenOff(s, s.open[slot]).idle)
    requires |forced| == |TakenOff(s, s.open[slot]).idle|
    ensures var usage := TakenOff(s, s.open[slot]).usage;
            var n := OpenTurns(s.open, forced, usage, limit, slot);
            var x := OpenNamed(s.open, forced, slot, n);
            Sound(Leave(s, true, limit, slot, forced, time, oom).0, true, limit)
            <==> x == s.open[slot] || !HasRep(s.idle, x)
                 || (!OpenAccepted(s.open, forced, usage, limit, slot, oom) && slot + n >= |s.open|)
  {
    var s1 := TakenOff(s, s.open[slot]);
    TakenOffBooks(s, s.open[slot]);
    NamedIdleIff(s, limit, slot, forced);
    OpenAcceptedIff(s1, limit, slot, forced, time, oom);
    StartSoundIff(s, limit, OpenSlot(slot), forced, time, oom);
    var t := Room(s1, limit, OpenSlot(slot), forced);
    if slot < |t.open| { UnloadSoundIff(t, true, limit, slot); }
  }

  /** What the slot names when room has been made is still open and not idle exactly if it is the
      repository itself or was not idle. */
  lemma NamedIdleIff(s: Store, limit: int, slot: nat, forced: seq<Idle>)
    requires Sound(s, true, limit) && slot < |s.open| && Rearranged(forced, TakenOff(s, s.open[slot]).idle)
    requires |forced| == |TakenOff(s, s.open[slot]).idle|
    ensures var s1 := TakenOff(s, s.open[slot]);
            var n, t := OpenTurns(s.open, forced, s1.usage, limit, slot), Room(s1, limit, OpenSlot(slot), forced);
            var x := OpenNamed(s.open, forced, slot, n);
            && Sound(t, true, limit) && |t.open| == |s.open| - n && (slot < |t.open| ==> t.open[slot] == x)
            && (x in t.open && !HasRep(t.idle, x) <==> x == s.open[slot] || !HasRep(s.idle, x))
  {
    var s1, rep := TakenOff(s, s.open[slot]), s.open[slot];
    var n := OpenTurns(s.open, forced, s1.usage, limit, slot);
    var x := OpenNamed(s.open, forced, slot, n);
    TakenOffBooks(s, rep);
    TakenOffSound(s, limit, rep);
    NamedOpen(s.open, forced, slot, n);
    OpenAcceptedIff(s1, limit, slot, forced, 0, false);
    RoomSound(s1, limit, OpenSlot(slot), forced);
    RoomHas(s1, limit, OpenSlot(slot), forced, x);
    TakenOffHas(s, limit, rep, x);
  }

  /** Making room leaves the repository open and idle, or neither if it was idle. */
  lemma RoomHas(s: Store, limit: int, ref: Ref, forced: seq<Idle>, x: OpenRep)
    requires Sound(s, true, limit) && Points(s, ref) && Rearranged(forced, s.idle) && |forced| == |s.idle| && x in s.open
    ensures var t := Room(s, limit, ref, forced);
            && |t.open| == |s.open| - Turns(s, limit, ref, forced)
            && (HasRep(t.idle, x) <==> HasRep(s.idle, x) && x in t.open)
            && (x !in t.open ==> HasRep(s.idle, x))
  {
    var n, t, f := Turns(s, limit, ref, forced), Room(s, limit, ref, forced), s.(idle := forced);
    RoomBooks(s, limit, ref, forced);
    RoomSound(s, limit, ref, forced);
    DistinctRearranged(forced, s.idle);
    OpenRearranged(forced, s.idle, s.open);
    EachUnloads(f, n);
    EvictedOpen(f, n, x);
    HasRepRearranged(forced, s.idle, x);
    AmongOrAfter(forced, n, x);
    HasRepRearranged(t.idle, if n == 0 then s.idle else forced[n..], x);
    if HasRep(t.idle, x) { HasOpen(t.idle, t.open, x); }
  }

  lemma HasOpen(s: seq<Idle>, open: seq<OpenRep>, x: OpenRep)
    requires AllOpen(s, open) && HasRep(s, x)
    ensures x in open
  {
    var i :| 0 <= i < |s| && RepAt(s, i, x);
    assert IsOpen(s, i, open);
  }

  lemma AmongOrAfter(s: seq<Idle>, n: nat, x: OpenRep)
    requires n <= |s|
    ensures HasRep(s, x) <==> Among(s, n, x) || HasRep(s[n..], x)
  {
    if i :| 0 <= i < |s| && RepAt(s, i, x) {
      if i >= n { assert RepAt(s[n..], i - n, x); }
    }
    if i :| 0 <= i < |s| - n && RepAt(s[n..], i, x) { assert RepAt(s, i + n, x); }
  }

  lemma TakenOffHas(s: Store, limit: int, rep: OpenRep, x: OpenRep)
    requires Sound(s, true, limit)
    ensures HasRep(TakenOff(s, rep).idle, x) <==> HasRep(s.idle, x) && x != rep
  {
    TakenOffSound(s, limit, rep);
    LastHas(s.idle, rep);
    var i := LastTo(s.idle, rep, |s.idle|);
    if i >= 0 {
      WithoutSlices(s.idle, i);
      HasRepIn(s.idle, x);
      HasRepIn(Without(s.idle, i), x);
    }
  }

  lemma UnloadSoundIff(t: Store, enabled: bool, limit: int, slot: nat)
    requires Sound(t, enabled, limit) && slot < |t.open|
    ensures Sound(OpenOut(t, slot), enabled, limit) <==> !HasRep(t.idle, t.open[slot])
  {
    OneWithout(t.open, slot);
    OpenMembers(t.idle, t.open);
    OpenMembers(t.idle, Without(t.open, slot));
    HasRepIn(t.idle, t.open[slot]);
  }
}

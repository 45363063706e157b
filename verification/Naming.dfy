/** What a slot names while repositories are forced out in a given order, and how many are, from what
    is known before (cenrepsrv/cachemgr.cpp StartEviction). */
module Naming {
  import opened Sequences
  import opened IdleList
  import opened Eviction
  import opened Leaving

  // ----- how many are forced out, by what is named after each -----

  /** names[n] is what is named when the first n have gone. */
  function RoundsNamed(forced: seq<Idle>, usage: int, limit: int, names: seq<OpenRep>, n: nat): (r: nat)
    requires 1 <= n <= |forced| && |names| == |forced| + 1
    ensures n <= r <= |forced|
    decreases |forced| - n
  {
    if n == |forced| || usage - SumTo(forced, n) + names[n].size <= limit then n
    else RoundsNamed(forced, usage, limit, names, n + 1)
  }

  /** first is what is named before the list is sorted. */
  function TurnsNamed(forced: seq<Idle>, usage: int, limit: int, first: OpenRep, names: seq<OpenRep>): (r: nat)
    requires |names| == |forced| + 1
    ensures r <= |forced|
  {
    if forced == [] || first.size >= limit || usage + first.size <= limit then 0
    else RoundsNamed(forced, usage, limit, names, 1)
  }

  ghost predicate Names(f: Store, ref: Ref, names: seq<OpenRep>)
    requires Points(f, ref)
  {
    |names| == |f.idle| + 1 && forall n :: 0 <= n <= |f.idle| ==> Named(f, ref, names[n], n)
  }

  lemma {:induction false} RoundsByNames(f: Store, limit: int, ref: Ref, names: seq<OpenRep>, n: nat)
    requires 1 <= n <= |f.idle| && Points(f, ref) && Names(f, ref, names)
    ensures Rounds(f, limit, ref, n) == RoundsNamed(f.idle, f.usage, limit, names, n)
    decreases |f.idle| - n
  {
    EvictedIdle(f, n);
    assert Named(f, ref, names[n], n);
    if n < |f.idle| { RoundsByNames(f, limit, ref, names, n + 1); }
  }

  lemma TurnsByNames(s: Store, limit: int, ref: Ref, forced: seq<Idle>, names: seq<OpenRep>)
    requires Points(s, ref) && |forced| == |s.idle| && Names(s.(idle := forced), ref, names)
    ensures Turns(s, limit, ref, forced) == TurnsNamed(forced, s.usage, limit, Deref(s, ref), names)
  {
    if Crowded(s, limit, ref) { RoundsByNames(s.(idle := forced), limit, ref, names, 1); }
  }

  // ----- a slot of the idle list -----

  /** The list moves up under the slot; where it has ended, its last element is still in memory. */
  function IdleNamed(forced: seq<Idle>, j: nat, n: nat): OpenRep
    requires j < |forced|
  {
    if j + n < |forced| then forced[j + n].rep else forced[|forced| - 1].rep
  }

  function IdleNames(forced: seq<Idle>, j: nat): seq<OpenRep>
    requires j < |forced|
  {
    seq(|forced| + 1, n requires 0 <= n => IdleNamed(forced, j, n))
  }

  /** What is left where the list was names the last repository of the list. */
  lemma {:induction false} BehindIsLast(f: Store, n: nat, j: nat)
    requires n <= |f.idle| && |f.idle| - n <= j < |f.idle|
    ensures Deref(Evicted(f, n), IdleSlot(j)) == f.idle[|f.idle| - 1].rep
  {
    EvictedIdle(f, n - 1);
    if j > |f.idle| - n { BehindIsLast(f, n - 1, j); }
  }

  lemma IdleSlotNames(f: Store, j: nat)
    requires j < |f.idle|
    ensures Names(f, IdleSlot(j), IdleNames(f.idle, j))
  {
    forall n | 0 <= n <= |f.idle| ensures Named(f, IdleSlot(j), IdleNames(f.idle, j)[n], n) {
      EvictedIdle(f, n);
      if j + n >= |f.idle| { BehindIsLast(f, n, j); }
    }
  }

  function IdleTurns(first: OpenRep, forced: seq<Idle>, usage: int, limit: int, j: nat): (r: nat)
    requires j < |forced|
    ensures r <= |forced|
  {
    TurnsNamed(forced, usage, limit, first, IdleNames(forced, j))
  }

  /** What the slot names when the list has been sorted back. */
  function IdleEnds(first: OpenRep, forced: seq<Idle>, j: nat, n: nat): OpenRep
    requires j < |forced| && n <= |forced|
  {
    if n == 0 then first
    else if j + n < |forced| then SortedTo(forced[n..], |forced| - n)[j].rep
    else forced[|forced| - 1].rep
  }

  /** Whether what the slot names in the end becomes idle; first is what it names at first. */
  predicate IdleAccepted(first: OpenRep, forced: seq<Idle>, usage: int, limit: int, j: nat, oom: bool)
    requires j < |forced|
  {
    var n := IdleTurns(first, forced, usage, limit, j);
    !oom && usage - SumTo(forced, n) + IdleEnds(first, forced, j, n).size <= limit
  }

  lemma IdleAcceptedIff(s: Store, limit: int, j: nat, forced: seq<Idle>, time: int, oom: bool)
    requires j < |s.idle| == |forced|
    ensures Admit(Room(s, limit, IdleSlot(j), forced), limit, IdleSlot(j), time, oom).1
       <==> IdleAccepted(s.idle[j].rep, forced, s.usage, limit, j, oom)
  {
    var f, n := s.(idle := forced), IdleTurns(s.idle[j].rep, forced, s.usage, limit, j);
    IdleSlotNames(f, j);
    TurnsByNames(s, limit, IdleSlot(j), forced, IdleNames(forced, j));
    if n > 0 {
      EvictedIdle(f, n);
      if j + n >= |forced| { BehindIsLast(f, n, j); }
    }
  }

  // ----- a slot of the open list -----

  /** The open list when the first n have gone. */
  function Remaining(open: seq<OpenRep>, forced: seq<Idle>, n: nat): seq<OpenRep>
    requires n <= |forced|
  {
    if n == 0 then open else Unlisted(Remaining(open, forced, n - 1), forced[n - 1].rep)
  }

  function Unlisted(open: seq<OpenRep>, rep: OpenRep): seq<OpenRep> {
    var k := IndexOf(open, rep);
    if k < 0 then open else Without(open, k)
  }

  /** The slot names what is in it; where the list has ended, what was in it last. */
  function OpenNamed(open: seq<OpenRep>, forced: seq<Idle>, j: nat, n: nat): OpenRep
    requires j < |open| && n <= |forced|
  {
    var t := Remaining(open, forced, n);
    if j < |t| then t[j] else if n == 0 then open[j] else OpenNamed(open, forced, j, n - 1)
  }

  function OpenNames(open: seq<OpenRep>, forced: seq<Idle>, j: nat): seq<OpenRep>
    requires j < |open|
  {
    seq(|forced| + 1, n requires 0 <= n <= |forced| => OpenNamed(open, forced, j, n))
  }

  lemma {:induction false} EvictedRemaining(f: Store, n: nat)
    requires n <= |f.idle|
    ensures Evicted(f, n).open == Remaining(f.open, f.idle, n)
  {
    if n > 0 {
      EvictedRemaining(f, n - 1);
      EvictedNext(f, n - 1);
    }
  }

  lemma {:induction false} OpenSlotNamed(f: Store, j: nat, n: nat)
    requires n <= |f.idle| && j < |f.open|
    ensures Deref(Evicted(f, n), OpenSlot(j)) == OpenNamed(f.open, f.idle, j, n)
  {
    EvictedRemaining(f, n);
    if n > 0 {
      EvictedNext(f, n - 1);
      OpenSlotNamed(f, j, n - 1);
      if j >= |Evicted(f, n).open| { StillNamed(Evicted(f, n - 1), Evicted(f, n), j, f.idle[n - 1].rep); }
    }
  }

  lemma StillNamed(t: Store, u: Store, j: nat, rep: OpenRep)
    requires Points(t, OpenSlot(j)) && SameOpen(u, Closed(t, rep)) && j >= |u.open|
    ensures Points(u, OpenSlot(j)) && Deref(u, OpenSlot(j)) == Deref(t, OpenSlot(j))
  {
  }

  lemma OpenSlotNames(f: Store, j: nat)
    requires j < |f.open|
    ensures Names(f, OpenSlot(j), OpenNames(f.open, f.idle, j))
  {
    forall n | 0 <= n <= |f.idle| ensures Named(f, OpenSlot(j), OpenNames(f.open, f.idle, j)[n], n) {
      OpenSlotNamed(f, j, n);
    }
  }

  function OpenTurns(open: seq<OpenRep>, forced: seq<Idle>, usage: int, limit: int, j: nat): (r: nat)
    requires j < |open|
    ensures r <= |forced|
  {
    TurnsNamed(forced, usage, limit, open[j], OpenNames(open, forced, j))
  }

  predicate OpenAccepted(open: seq<OpenRep>, forced: seq<Idle>, usage: int, limit: int, j: nat, oom: bool)
    requires j < |open|
  {
    var n := OpenTurns(open, forced, usage, limit, j);
    !oom && usage - SumTo(forced, n) + OpenNamed(open, forced, j, n).size <= limit
  }

  /** How many go for a slot of the open list, what it names then, and whether that becomes idle. */
  lemma OpenAcceptedIff(s: Store, limit: int, j: nat, forced: seq<Idle>, time: int, oom: bool)
    requires j < |s.open| && |forced| == |s.idle|
    ensures var n, t := OpenTurns(s.open, forced, s.usage, limit, j), Room(s, limit, OpenSlot(j), forced);
            && Turns(s, limit, OpenSlot(j), forced) == n && t.open == Remaining(s.open, forced, n)
            && Points(t, OpenSlot(j)) && Deref(t, OpenSlot(j)) == OpenNamed(s.open, forced, j, n)
            && (Admit(t, limit, OpenSlot(j), time, oom).1 <==> OpenAccepted(s.open, forced, s.usage, limit, j, oom))
  {
    var f, n := s.(idle := forced), OpenTurns(s.open, forced, s.usage, limit, j);
    OpenSlotNames(f, j);
    TurnsByNames(s, limit, OpenSlot(j), forced, OpenNames(s.open, forced, j));
    OpenSlotNamed(f, j, n);
    EvictedRemaining(f, n);
    EvictedIdle(f, n);
    if n > 0 {
      assert Room(s, limit, OpenSlot(j), forced).behindOpen == Evicted(f, n).behindOpen;
    }
  }

  lemma {:induction false} NamedOpen(open: seq<OpenRep>, forced: seq<Idle>, j: nat, n: nat)
    requires j < |open| && n <= |forced|
    ensures OpenNamed(open, forced, j, n) in open
  {
    RemainingIn(open, forced, n);
    if n > 0 { NamedOpen(open, forced, j, n - 1); }
  }

  lemma {:induction false} RemainingIn(open: seq<OpenRep>, forced: seq<Idle>, n: nat)
    requires n <= |forced|
    ensures forall r :: r in Remaining(open, forced, n) ==> r in open
  {
    if n > 0 {
      RemainingIn(open, forced, n - 1);
      var t := Remaining(open, forced, n - 1);
      var k := IndexOf(t, forced[n - 1].rep);
      if k >= 0 { forall i | 0 <= i < |t| - 1 ensures Without(t, k)[i] in t { assert Without(t, k)[i] == t[if i < k then i else i + 1]; } }
    }
  }
}

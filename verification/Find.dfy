/** Searching by partial key: the scan of one sorted array, the merge of two pointer arrays,
    and the overlay of the two (common/src/datatype.cpp, cenrepsrv/srvrepos_noc.h FindSettings). */
module Find {
  import opened Bits
  import opened Errors
  import opened Settings
  import opened Overlay

  // ----- one array -----

  /** The indices below n whose keys match, in order. */
  function MatchingSlots(s: seq<Setting>, m: Key -> bool, n: nat): seq<nat>
    requires n <= |s|
  {
    if n == 0 then []
    else MatchingSlots(s, m, n - 1) + if m(s[n - 1].key) then [n - 1] else []
  }

  lemma {:induction false} MatchingMembers(s: seq<Setting>, m: Key -> bool, n: nat)
    requires n <= |s|
    ensures forall i :: i in MatchingSlots(s, m, n) <==> 0 <= i < n && m(s[i].key)
  {
    if n > 0 { MatchingMembers(s, m, n - 1); }
  }

  lemma {:induction false} MatchingAscending(s: seq<Setting>, m: Key -> bool, n: nat)
    requires n <= |s|
    ensures forall a, b :: 0 <= a < b < |MatchingSlots(s, m, n)| ==> MatchingSlots(s, m, n)[a] < MatchingSlots(s, m, n)[b]
  {
    if n > 0 {
      MatchingAscending(s, m, n - 1);
      MatchingMembers(s, m, n - 1);
      var pre := MatchingSlots(s, m, n - 1);
      assert forall a :: 0 <= a < |pre| ==> pre[a] in pre;
    }
  }

  lemma {:induction false} NoMatchesBetween(s: seq<Setting>, m: Key -> bool, lo: nat, hi: nat)
    requires lo <= hi <= |s|
    requires forall i :: lo <= i < hi ==> !m(s[i].key)
    ensures MatchingSlots(s, m, hi) == MatchingSlots(s, m, lo)
    decreases hi
  {
    if lo < hi { NoMatchesBetween(s, m, lo, hi - 1); }
  }

  /** The scan: start at the lowest key that could match and stop beyond the highest. */
  method ScanSlots(s: seq<Setting>, m: Key -> bool, lowerKey: Key, upperKey: int) returns (matches: seq<nat>)
    requires Sorted(s)
    requires forall k: Key :: m(k) ==> lowerKey <= k <= upperKey
    ensures matches == MatchingSlots(s, m, |s|)
  {
    matches := [];
    var lower := LowerBound(s, lowerKey);
    NoMatchesBetween(s, m, 0, lower);
    var i := lower;
    while i < |s| && s[i].key <= upperKey
      invariant lower <= i <= |s|
      invariant matches == MatchingSlots(s, m, i)
    {
      if m(s[i].key) {
        matches := matches + [i];
      }
      i := i + 1;
    }
    NoMatchesBetween(s, m, i, |s|);
  }

  function ByMask(partial: Key, mask: Key): Key -> bool {
    (k: Key) => Matches(k, partial, mask)
  }

  /** RSettingsArray::Find with the bounds it takes from the partial key and the mask. */
  method FindSlots(s: seq<Setting>, partial: Key, mask: Key) returns (matches: seq<nat>)
    requires Sorted(s)
    ensures matches == MatchingSlots(s, ByMask(partial, mask), |s|)
  {
    forall k: Key | ByMask(partial, mask)(k)
      ensures And(partial, mask) <= k <= UpperMatch(partial, mask)
    {
      MatchBounds(k, partial, mask);
    }
    matches := ScanSlots(s, ByMask(partial, mask), And(partial, mask), UpperMatch(partial, mask));
  }

  // ----- two arrays of pointers -----

  /** An element of a pointer array: the address of a slot in one of the two setting arrays. */
  datatype Ptr = PersistentSlot(i: nat) | TransactionSlot(i: nat)

  predicate InRange(x: Ptr, p: seq<Setting>, t: seq<Setting>) {
    match x
    case PersistentSlot(i) => i < |p|
    case TransactionSlot(i) => i < |t|
  }

  function Deref(x: Ptr, p: seq<Setting>, t: seq<Setting>): Setting
    requires InRange(x, p, t)
  {
    match x
    case PersistentSlot(i) => p[i]
    case TransactionSlot(i) => t[i]
  }

  function KeyAt(x: Ptr, p: seq<Setting>, t: seq<Setting>): Key {
    if InRange(x, p, t) then Deref(x, p, t).key else 0
  }

  predicate DeletedAt(x: Ptr, p: seq<Setting>, t: seq<Setting>) {
    InRange(x, p, t) && Deref(x, p, t).IsDeleted()
  }

  predicate Ascending(a: seq<Ptr>, key: Ptr -> Key) {
    forall i, j :: 0 <= i < j < |a| ==> key(a[i]) < key(a[j])
  }

  predicate PointsTo(a: seq<Ptr>, key: Ptr -> Key, k: Key) {
    exists i :: 0 <= i < |a| && key(a[i]) == k
  }

  /** dst is dst0 with the first j elements of src laid over it. */
  ghost predicate Laid(dst: seq<Ptr>, dst0: seq<Ptr>, src: seq<Ptr>, j: nat, key: Ptr -> Key, dead: Ptr -> bool)
    requires j <= |src|
  {
    forall x :: x in dst <==>
      || (x in src[..j] && !dead(x))
      || (x in dst0 && !PointsTo(src[..j], key, key(x)))
  }

  lemma LaidStep(dst: seq<Ptr>, dst': seq<Ptr>, dst0: seq<Ptr>, src: seq<Ptr>, j: nat, key: Ptr -> Key, dead: Ptr -> bool)
    requires j < |src| && Ascending(src, key)
    requires Laid(dst, dst0, src, j, key, dead)
    requires Placed(dst, dst', src[j], key, dead)
    ensures Laid(dst', dst0, src, j + 1, key, dead)
  {
    assert src[..j + 1] == src[..j] + [src[j]];
    forall x
      ensures PointsTo(src[..j + 1], key, key(x))
          <==> PointsTo(src[..j], key, key(x)) || key(x) == key(src[j])
    {
      PointsToMore(src, j, key, key(x));
    }
    assert forall x :: x in src[..j] ==> key(x) != key(src[j]);
  }

  lemma PointsToMore(src: seq<Ptr>, j: nat, key: Ptr -> Key, k: Key)
    requires j < |src|
    ensures PointsTo(src[..j + 1], key, k) <==> PointsTo(src[..j], key, k) || k == key(src[j])
  {
    if PointsTo(src[..j], key, k) {
      var i :| 0 <= i < j && key(src[..j][i]) == k;
      assert src[..j + 1][i] == src[i];
    }
    if k == key(src[j]) { assert src[..j + 1][j] == src[j]; }
  }

  /** x takes the place of whatever had its key. */
  ghost predicate Placed(dst: seq<Ptr>, dst': seq<Ptr>, x: Ptr, key: Ptr -> Key, dead: Ptr -> bool) {
    forall y :: y in dst' <==>
      (y == x && !dead(x)) || (y in dst && key(y) != key(x))
  }

  lemma PlaceNewAscending(dst: seq<Ptr>, d: nat, x: Ptr, key: Ptr -> Key)
    requires Ascending(dst, key) && d <= |dst|
    requires forall i :: 0 <= i < d ==> key(dst[i]) < key(x)
    requires d < |dst| ==> key(x) < key(dst[d])
    ensures Ascending(dst[..d] + [x] + dst[d..], key)
  {
  }

  lemma PlaceNew(dst: seq<Ptr>, d: nat, x: Ptr, key: Ptr -> Key, dead: Ptr -> bool)
    requires Ascending(dst, key) && d <= |dst|
    requires forall i :: 0 <= i < d ==> key(dst[i]) < key(x)
    requires d < |dst| ==> key(x) < key(dst[d])
    ensures Placed(dst, if dead(x) then dst else dst[..d] + [x] + dst[d..], x, key, dead)
  {
    assert dst == dst[..d] + dst[d..];
    forall i | 0 <= i < |dst| ensures key(dst[i]) != key(x) {
      assert i > d ==> key(dst[d]) < key(dst[i]);
    }
  }

  lemma PlaceOver(dst: seq<Ptr>, d: nat, x: Ptr, key: Ptr -> Key, dead: Ptr -> bool)
    requires Ascending(dst, key) && d < |dst|
    requires key(x) == key(dst[d])
    ensures Ascending(dst[d := x], key) && Ascending(dst[..d] + dst[d + 1..], key)
    ensures Placed(dst, if dead(x) then dst[..d] + dst[d + 1..] else dst[d := x], x, key, dead)
  {
    assert dst == dst[..d] + [dst[d]] + dst[d + 1..];
    assert dst[d := x] == dst[..d] + [x] + dst[d + 1..];
    assert forall y :: y in dst[..d] || y in dst[d + 1..] ==> key(y) != key(x);
  }

  /** Where the merge of src[j] into dst has to happen. */
  ghost predicate Before(dst: seq<Ptr>, d: nat, k: int, key: Ptr -> Key) {
    d <= |dst| && forall i :: 0 <= i < d ==> key(dst[i]) < k
  }

  method Advance(dst: seq<Ptr>, dstIdx: nat, k: Key, key: Ptr -> Key) returns (d: nat)
    requires Before(dst, dstIdx, k, key)
    ensures Before(dst, d, k, key)
    ensures d < |dst| ==> k <= key(dst[d])
  {
    d := dstIdx;
    while d < |dst| && k > key(dst[d])
      invariant Before(dst, d, k, key)
    {
      d := d + 1;
    }
  }

  /** One element of the source array placed in the destination. */
  method PlaceOne(dst: seq<Ptr>, d: nat, x: Ptr, key: Ptr -> Key, dead: Ptr -> bool) returns (dst': seq<Ptr>, d': nat)
    requires Ascending(dst, key) && Before(dst, d, key(x), key)
    requires d < |dst| ==> key(x) <= key(dst[d])
    ensures Ascending(dst', key) && Placed(dst, dst', x, key, dead)
    ensures Before(dst', d', key(x) + 1, key)
  {
    dst', d' := dst, d;
    if d == |dst| || key(dst[d]) > key(x) {
      PlaceNew(dst, d, x, key, dead);
      PlaceNewAscending(dst, d, x, key);
      if !dead(x) {
        dst' := dst[..d] + [x] + dst[d..];
        d' := d + 1;
      }
    } else {
      PlaceOver(dst, d, x, key, dead);
      if !dead(x) {
        dst' := dst[d := x];
        d' := d + 1;
      } else {
        dst' := dst[..d] + dst[d + 1..];
      }
    }
  }

  /** RSettingsArray::Merge, in place on the destination array. */
  method MergePointers(dst0: seq<Ptr>, src: seq<Ptr>, key: Ptr -> Key, dead: Ptr -> bool) returns (dst: seq<Ptr>)
    requires Ascending(dst0, key) && Ascending(src, key)
    ensures Ascending(dst, key)
    ensures Laid(dst, dst0, src, |src|, key, dead)
  {
    dst := dst0;
    var dstIdx: nat, j: nat := 0, 0;
    while j < |src|
      invariant j <= |src|
      invariant Ascending(dst, key)
      invariant dstIdx <= |dst| && (j < |src| ==> Before(dst, dstIdx, key(src[j]), key))
      invariant Laid(dst, dst0, src, j, key, dead)
    {
      ghost var before := dst;
      dstIdx := Advance(dst, dstIdx, key(src[j]), key);
      dst, dstIdx := PlaceOne(dst, dstIdx, src[j], key, dead);
      LaidStep(before, dst, dst0, src, j, key, dead);
      assert j + 1 < |src| ==> key(src[j]) + 1 <= key(src[j + 1]);
      j := j + 1;
    }
  }

  // ----- the overlay of the two arrays -----

  /** FindSettings: the persistent matches, overlaid by the transaction's when the session
      is in an active read/write transaction with settings of its own. */
  method FindSettings(p: seq<Setting>, t: seq<Setting>, readWrite: bool, partial: Key, mask: Key) returns (found: seq<Ptr>)
    requires Sorted(p) && Sorted(t)
    ensures FoundIn(found, p, if readWrite then t else [], ByMask(partial, mask))
  {
    var m := ByMask(partial, mask);
    var slots := FindSlots(p, partial, mask);
    found := seq(|slots|, i requires 0 <= i < |slots| => PersistentSlot(slots[i]));
    ghost var own := if readWrite then t else [];
    PersistentMatches(p, own, m, slots, found);
    if |t| > 0 && readWrite {
      var tslots := FindSlots(t, partial, mask);
      var tfound := seq(|tslots|, i requires 0 <= i < |tslots| => TransactionSlot(tslots[i]));
      TransactionMatches(p, t, m, tslots, tfound);
      ghost var persistent := found;
      found := MergePointers(found, tfound, x => KeyAt(x, p, t), x => DeletedAt(x, p, t));
      OverlayMatches(p, t, m, persistent, tfound, found);
    } else {
      NothingLaid(p, own, m, found);
    }
  }

  /** The pointers to matching elements of one of the arrays, in key order. */
  ghost predicate PersistentOnly(a: seq<Ptr>, p: seq<Setting>, t: seq<Setting>, m: Key -> bool) {
    && Ascending(a, x => KeyAt(x, p, t))
    && forall x :: x in a <==> x.PersistentSlot? && InRange(x, p, t) && m(Deref(x, p, t).key)
  }

  ghost predicate TransactionOnly(a: seq<Ptr>, p: seq<Setting>, t: seq<Setting>, m: Key -> bool) {
    && Ascending(a, x => KeyAt(x, p, t))
    && forall x :: x in a <==> x.TransactionSlot? && InRange(x, p, t) && m(Deref(x, p, t).key)
  }

  /** The result: one pointer for each matching key the session can see, in key order,
      to the very setting it sees. */
  ghost predicate FoundIn(a: seq<Ptr>, p: seq<Setting>, t: seq<Setting>, m: Key -> bool) {
    && Ascending(a, x => KeyAt(x, p, t))
    && forall x :: x in a <==>
         InRange(x, p, t) && m(Deref(x, p, t).key)
         && match x
            case PersistentSlot(_) => Lookup(t, Deref(x, p, t).key) == None
            case TransactionSlot(_) => !Deref(x, p, t).IsDeleted()
  }

  lemma PersistentMatches(p: seq<Setting>, t: seq<Setting>, m: Key -> bool, slots: seq<nat>, a: seq<Ptr>)
    requires Sorted(p) && slots == MatchingSlots(p, m, |p|)
    requires |a| == |slots| && forall i :: 0 <= i < |a| ==> a[i] == PersistentSlot(slots[i])
    ensures PersistentOnly(a, p, t, m)
  {
    MatchingMembers(p, m, |p|);
    MatchingAscending(p, m, |p|);
    forall x ensures x in a <==> x.PersistentSlot? && InRange(x, p, t) && m(Deref(x, p, t).key) {
      if x.PersistentSlot? && x.i in slots {
        var i :| 0 <= i < |slots| && slots[i] == x.i;
        assert a[i] == x;
      }
    }
  }

  lemma TransactionMatches(p: seq<Setting>, t: seq<Setting>, m: Key -> bool, slots: seq<nat>, a: seq<Ptr>)
    requires Sorted(t) && slots == MatchingSlots(t, m, |t|)
    requires |a| == |slots| && forall i :: 0 <= i < |a| ==> a[i] == TransactionSlot(slots[i])
    ensures TransactionOnly(a, p, t, m)
  {
    MatchingMembers(t, m, |t|);
    MatchingAscending(t, m, |t|);
    forall x ensures x in a <==> x.TransactionSlot? && InRange(x, p, t) && m(Deref(x, p, t).key) {
      if x.TransactionSlot? && x.i in slots {
        var i :| 0 <= i < |slots| && slots[i] == x.i;
        assert a[i] == x;
      }
    }
  }

  lemma NothingLaid(p: seq<Setting>, t: seq<Setting>, m: Key -> bool, a: seq<Ptr>)
    requires t == [] && PersistentOnly(a, p, t, m)
    ensures FoundIn(a, p, t, m)
  {
  }

  /** A transaction pointer with a matching key exists exactly when a lookup finds the key. */
  lemma PointsToIffLookup(p: seq<Setting>, t: seq<Setting>, m: Key -> bool, a: seq<Ptr>, k: Key)
    requires Sorted(t) && TransactionOnly(a, p, t, m) && m(k)
    ensures PointsTo(a, x => KeyAt(x, p, t), k) <==> Lookup(t, k).Some?
  {
    var i := FindIndex(t, k);
    if i >= 0 {
      assert TransactionSlot(i) in a;
    }
    if PointsTo(a, x => KeyAt(x, p, t), k) {
      var j :| 0 <= j < |a| && KeyAt(a[j], p, t) == k;
      assert a[j] in a;
      assert t[a[j].i].key == k;
    }
  }

  lemma OverlayMatches(p: seq<Setting>, t: seq<Setting>, m: Key -> bool, persistent: seq<Ptr>, own: seq<Ptr>, r: seq<Ptr>)
    requires Sorted(p) && Sorted(t)
    requires PersistentOnly(persistent, p, t, m) && TransactionOnly(own, p, t, m)
    requires Ascending(r, x => KeyAt(x, p, t))
    requires Laid(r, persistent, own, |own|, x => KeyAt(x, p, t), x => DeletedAt(x, p, t))
    ensures FoundIn(r, p, t, m)
  {
    assert own[..|own|] == own;
    forall x | x in persistent
      ensures PointsTo(own, y => KeyAt(y, p, t), KeyAt(x, p, t)) <==> Lookup(t, KeyAt(x, p, t)).Some?
    {
      PointsToIffLookup(p, t, m, own, KeyAt(x, p, t));
    }
  }

  /** Searching agrees with looking up: a matching key is found exactly when the session
      can see it, and what is found is what it sees. */
  lemma FoundIsVisible(a: seq<Ptr>, p: seq<Setting>, t: seq<Setting>, m: Key -> bool, k: Key)
    requires Sorted(p) && Live(p) && Sorted(t) && FoundIn(a, p, t, m)
    ensures (exists x :: x in a && KeyAt(x, p, t) == k) <==> m(k) && View(p, t, k).Some?
    ensures forall x :: x in a && KeyAt(x, p, t) == k ==> View(p, t, k) == Some(Deref(x, p, t))
  {
    forall x | x in a && KeyAt(x, p, t) == k
      ensures m(k) && View(p, t, k) == Some(Deref(x, p, t))
    {
      if x.PersistentSlot? { LookupIn(p, p[x.i]); } else { LookupIn(t, t[x.i]); }
    }
    if m(k) && View(p, t, k).Some? {
      var x := if Lookup(t, k).Some? then TransactionSlot(FindIndex(t, k)) else PersistentSlot(FindIndex(p, k));
      assert x in a && KeyAt(x, p, t) == k;
    }
  }

  /** The answer of a search: the visible settings with matching keys, in key order. */
  ghost predicate AnswerOf(answer: seq<Setting>, p: seq<Setting>, t: seq<Setting>, m: Key -> bool) {
    && Sorted(answer)
    && forall k: Key :: Lookup(answer, k) == if m(k) then View(p, t, k) else None
  }

  /** What the found addresses hold is that answer. */
  lemma FoundAnswers(a: seq<Ptr>, p: seq<Setting>, t: seq<Setting>, m: Key -> bool, answer: seq<Setting>)
    requires Sorted(p) && Live(p) && Sorted(t) && FoundIn(a, p, t, m)
    requires |answer| == |a| && forall i :: 0 <= i < |a| ==> InRange(a[i], p, t) && answer[i] == Deref(a[i], p, t)
    ensures AnswerOf(answer, p, t, m)
  {
    assert forall i :: 0 <= i < |a| ==> a[i] in a && answer[i].key == KeyAt(a[i], p, t);
    forall k: Key ensures Lookup(answer, k) == if m(k) then View(p, t, k) else None {
      FoundIsVisible(a, p, t, m, k);
      if m(k) && View(p, t, k).Some? {
        var x :| x in a && KeyAt(x, p, t) == k;
        var i :| 0 <= i < |a| && a[i] == x;
        LookupIn(answer, answer[i]);
      }
    }
  }
}

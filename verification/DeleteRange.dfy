/** DeleteSettingsRangeL (common/inc/operations.h): delete every setting a search found. The
    search hands over addresses; a placeholder put into the transaction's array moves the
    elements behind it, and an address taken earlier then names another element. */
module DeleteRange {
  import opened Errors
  import opened Settings
  import opened Overlay
  import opened Find

  /** One iteration for the address x. Through a transaction slot the loop deletes whatever
      the slot holds now; for a persistent setting it inserts a placeholder. */
  function DeleteAt(p: seq<Setting>, t: seq<Setting>, x: Ptr): (r: seq<Setting>)
    requires Sorted(t) && InRange(x, p, t)
    requires x.PersistentSlot? ==> FindIndex(t, p[x.i].key) < 0
    ensures Sorted(r) && |t| <= |r|
  {
    match x
    case TransactionSlot(i) => t[i := Setting(t[i].key, t[i].meta, Deleted)]
    case PersistentSlot(i) => OrderedInsert(t, Setting(p[i].key, p[i].meta, Deleted))
  }

  /** The addresses a search can return: in range, and persistent ones for keys the
      transaction has no entry of its own for. */
  ghost predicate Addressable(found: seq<Ptr>, p: seq<Setting>, t: seq<Setting>) {
    && Ascending(found, x => KeyAt(x, p, t))
    && forall x :: x in found ==>
         InRange(x, p, t) && (x.PersistentSlot? ==> FindIndex(t, p[x.i].key) < 0)
  }

  lemma FoundAddressable(found: seq<Ptr>, p: seq<Setting>, t: seq<Setting>, m: Key -> bool)
    requires Sorted(t) && FoundIn(found, p, t, m)
    ensures Addressable(found, p, t) && Reached(found, 0, p, t, t)
  {
    forall i | 0 <= i < |found| && found[i].PersistentSlot? && found[i].i < |p|
      ensures FindIndex(t, p[found[i].i].key) < 0
    { assert found[i] in found; }
  }

  /** The transaction's array after the first j addresses; done of them are persistent. */
  ghost predicate Reached(found: seq<Ptr>, j: nat, p: seq<Setting>, t0: seq<Setting>, t: seq<Setting>) {
    && j <= |found| && Sorted(t) && |t0| <= |t|
    && (forall i :: j <= i < |found| && found[i].PersistentSlot? && found[i].i < |p|
          ==> FindIndex(t, p[found[i].i].key) < 0)
  }

  lemma ReachedNext(found: seq<Ptr>, j: nat, p: seq<Setting>, t0: seq<Setting>, t: seq<Setting>)
    requires Addressable(found, p, t0) && j < |found|
    requires Reached(found, j, p, t0, t)
    ensures InRange(found[j], p, t)
    ensures found[j].PersistentSlot? ==> FindIndex(t, p[found[j].i].key) < 0
    ensures Reached(found, j + 1, p, t0, DeleteAt(p, t, found[j]))
  {
    assert found[j] in found;
    var t' := DeleteAt(p, t, found[j]);
    forall i | j + 1 <= i < |found| && found[i].PersistentSlot? && found[i].i < |p|
      ensures FindIndex(t', p[found[i].i].key) < 0
    {
      var k := p[found[i].i].key;
      assert found[i] in found;
      assert KeyAt(found[j], p, t0) < KeyAt(found[i], p, t0) == k;
      DeleteAtLookup(p, t, found[j], k);
    }
  }

  lemma DeleteAtLookup(p: seq<Setting>, t: seq<Setting>, x: Ptr, k: Key)
    requires Sorted(t) && InRange(x, p, t)
    requires x.PersistentSlot? ==> FindIndex(t, p[x.i].key) < 0
    ensures var q := Deref(x, p, t);
            Lookup(DeleteAt(p, t, x), k)
            == if k == q.key then Some(Setting(k, q.meta, Deleted)) else Lookup(t, k)
  {
    match x
    case TransactionSlot(i) => LookupReplace(t, i, Setting(t[i].key, t[i].meta, Deleted), k);
    case PersistentSlot(i) => LookupInsert(t, Setting(p[i].key, p[i].meta, Deleted), k);
  }

  ghost function Next(found: seq<Ptr>, j: nat, p: seq<Setting>, t0: seq<Setting>, t: seq<Setting>): (r: seq<Setting>)
    requires Addressable(found, p, t0) && j < |found|
    requires Reached(found, j, p, t0, t)
    ensures Reached(found, j + 1, p, t0, r)
  {
    ReachedNext(found, j, p, t0, t);
    DeleteAt(p, t, found[j])
  }

  ghost function DeleteFound(found: seq<Ptr>, j: nat, p: seq<Setting>, t0: seq<Setting>, t: seq<Setting>): (r: seq<Setting>)
    requires Addressable(found, p, t0)
    requires Reached(found, j, p, t0, t)
    ensures Sorted(r)
    decreases |found| - j
  {
    if j == |found| then t
    else DeleteFound(found, j + 1, p, t0, Next(found, j, p, t0, t))
  }

  method DeleteSettingsRange(found: seq<Ptr>, p: seq<Setting>, t0: seq<Setting>) returns (t: seq<Setting>, err: int)
    requires Sorted(t0) && Addressable(found, p, t0)
    ensures err == if found == [] then KErrNotFound else KErrNone
    ensures Reached(found, 0, p, t0, t0) && t == DeleteFound(found, 0, p, t0, t0)
  {
    t, err := t0, KErrNone;
    assert Reached(found, 0, p, t0, t0) by {
      forall i | 0 <= i < |found| && found[i].PersistentSlot? && found[i].i < |p|
        ensures FindIndex(t0, p[found[i].i].key) < 0
      { assert found[i] in found; }
    }
    if |found| == 0 {
      err := KErrNotFound;
      return;
    }
    var j := 0;
    while j < |found|
      invariant 0 <= j <= |found|
      invariant Reached(found, j, p, t0, t)
      invariant DeleteFound(found, j, p, t0, t) == DeleteFound(found, 0, p, t0, t0)
    {
      ReachedNext(found, j, p, t0, t);
      var x := found[j];
      ghost var before := t;
      match x {
        case TransactionSlot(i) =>
          // Find(key) returns this very slot, the keys being distinct
          t := t[i := Setting(t[i].key, t[i].meta, Deleted)];
        case PersistentSlot(i) =>
          t := OrderedInsert(t, Setting(p[i].key, p[i].meta, Deleted));
      }
      assert t == DeleteAt(p, before, x);
      j := j + 1;
    }
  }

  // ----- when the addresses stay good -----

  /** Some transaction slot comes after a persistent setting in the found list. */
  predicate Shifted(found: seq<Ptr>) {
    exists i, j :: 0 <= i < j < |found| && found[i].PersistentSlot? && found[j].TransactionSlot?
  }

  /** The first j addresses have been deleted and nothing else has been touched. */
  ghost predicate Cleared(found: seq<Ptr>, j: nat, p: seq<Setting>, t0: seq<Setting>, t: seq<Setting>) {
    && j <= |found|
    && (forall k: Key :: ClearedKey(found, j, p, t0, t, k))
    && ((exists i :: j <= i < |found| && found[i].TransactionSlot?) ==> SameKeys(t0, t))
  }

  ghost predicate ClearedKey(found: seq<Ptr>, j: nat, p: seq<Setting>, t0: seq<Setting>, t: seq<Setting>, k: Key)
    requires j <= |found|
  {
    if PointsTo(found[..j], x => KeyAt(x, p, t0), k) then Lookup(t, k).Some? && Lookup(t, k).value.IsDeleted()
    else Lookup(t, k) == Lookup(t0, k)
  }

  predicate SameKeys(t0: seq<Setting>, t: seq<Setting>) {
    |t| == |t0| && forall i :: 0 <= i < |t| ==> t[i].key == t0[i].key
  }

  lemma ClearedKeyNext(found: seq<Ptr>, j: nat, p: seq<Setting>, t0: seq<Setting>, t: seq<Setting>, k: Key)
    requires j < |found| && Sorted(t) && InRange(found[j], p, t)
    requires found[j].PersistentSlot? ==> FindIndex(t, p[found[j].i].key) < 0
    requires Deref(found[j], p, t).key == KeyAt(found[j], p, t0)
    requires ClearedKey(found, j, p, t0, t, k)
    ensures ClearedKey(found, j + 1, p, t0, DeleteAt(p, t, found[j]), k)
  {
    DeleteAtLookup(p, t, found[j], k);
    PointsToMore(found, j, x => KeyAt(x, p, t0), k);
  }

  lemma SlotsInPlace(found: seq<Ptr>, j: nat, p: seq<Setting>, t0: seq<Setting>, t: seq<Setting>)
    requires Addressable(found, p, t0) && !Shifted(found)
    requires j < |found| && Reached(found, j, p, t0, t)
    requires (exists i :: j <= i < |found| && found[i].TransactionSlot?) ==> SameKeys(t0, t)
    ensures InRange(found[j], p, t) && Deref(found[j], p, t).key == KeyAt(found[j], p, t0)
    ensures (exists i :: j + 1 <= i < |found| && found[i].TransactionSlot?)
            ==> SameKeys(t0, Next(found, j, p, t0, t))
  {
    ReachedNext(found, j, p, t0, t);
    assert found[j] in found;
  }

  lemma {:induction false} ClearedNext(found: seq<Ptr>, j: nat, p: seq<Setting>, t0: seq<Setting>, t: seq<Setting>)
    requires Addressable(found, p, t0) && !Shifted(found)
    requires j < |found| && Reached(found, j, p, t0, t)
    requires Cleared(found, j, p, t0, t)
    ensures Cleared(found, j + 1, p, t0, Next(found, j, p, t0, t))
  {
    ReachedNext(found, j, p, t0, t);
    SlotsInPlace(found, j, p, t0, t);
    var t', j' := Next(found, j, p, t0, t), j + 1;
    forall k: Key ensures ClearedKey(found, j', p, t0, t', k) {
      assert ClearedKey(found, j, p, t0, t, k);
      ClearedKeyNext(found, j, p, t0, t, k);
    }
  }

  lemma {:induction false} ClearedToEnd(found: seq<Ptr>, j: nat, p: seq<Setting>, t0: seq<Setting>, t: seq<Setting>)
    requires Addressable(found, p, t0) && !Shifted(found)
    requires Reached(found, j, p, t0, t) && Cleared(found, j, p, t0, t)
    ensures Cleared(found, |found|, p, t0, DeleteFound(found, j, p, t0, t))
    decreases |found| - j
  {
    if j < |found| {
      ClearedNext(found, j, p, t0, t);
      ClearedToEnd(found, j + 1, p, t0, Next(found, j, p, t0, t));
    }
  }

  // ----- when they do not -----

  lemma IndexUnique(s: seq<Setting>, i: nat)
    requires Sorted(s) && i < |s|
    ensures FindIndex(s, s[i].key) == i
  {
    var j := FindIndex(s, s[i].key);
    assert j >= 0;
  }

  lemma IndexAfterInsert(t: seq<Setting>, x: Setting, k: Key)
    requires Sorted(t) && FindIndex(t, x.key) < 0 && FindIndex(t, k) >= 0
    ensures FindIndex(OrderedInsert(t, x), k) == FindIndex(t, k) + (if x.key < k then 1 else 0)
  {
    var i, at := FindIndex(t, k), LowerBound(t, x.key);
    var r := OrderedInsert(t, x);
    var i' := if x.key < k then i + 1 else i;
    assert r[i'] == t[i];
    IndexUnique(r, i');
  }

  /** A persistent setting is among the first j addresses. */
  predicate Moved(found: seq<Ptr>, j: nat)
    requires j <= |found|
  {
    j > 0 && (found[j - 1].PersistentSlot? || Moved(found, j - 1))
  }

  /** The last transaction slot of the list comes after a persistent setting. */
  ghost predicate LastSlot(found: seq<Ptr>, last: nat) {
    && last < |found| && found[last].TransactionSlot?
    && (forall i :: last < i < |found| ==> found[i].PersistentSlot?)
    && Moved(found, last)
  }

  /** After j addresses the entry that the last transaction slot was taken from is still
      there, and no longer in that slot once a placeholder has gone in before it. */
  ghost predicate Escaped(found: seq<Ptr>, j: nat, last: nat, s: nat, k: Key, t0: seq<Setting>, t: seq<Setting>)
    requires j <= |found|
  {
    && Lookup(t, k) == Lookup(t0, k)
    && FindIndex(t, k) >= s
    && (Moved(found, j) ==> FindIndex(t, k) > s)
    && (j >= last ==> Moved(found, j))
  }

  /** One deletion through x leaves the entry that was in slot s alone, if x names an earlier
      slot, or a placeholder has already moved the entry out of s. */
  lemma EscapedAt(p: seq<Setting>, t: seq<Setting>, x: Ptr, s: nat, k: Key, moved: bool)
    requires Sorted(t) && InRange(x, p, t)
    requires x.PersistentSlot? ==> FindIndex(t, p[x.i].key) < 0 && p[x.i].key != k && (p[x.i].key < k || moved)
    requires x.TransactionSlot? ==> x.i < s || (x.i == s && moved)
    requires FindIndex(t, k) >= s && (moved ==> FindIndex(t, k) > s)
    ensures var t' := DeleteAt(p, t, x);
            && Lookup(t', k) == Lookup(t, k)
            && FindIndex(t', k) >= s
            && (moved || x.PersistentSlot? ==> FindIndex(t', k) > s)
  {
    DeleteAtLookup(p, t, x, k);
    match x
    case PersistentSlot(i) =>
      IndexAfterInsert(t, Setting(p[i].key, p[i].meta, Deleted), k);
    case TransactionSlot(i) =>
      var at := FindIndex(t, k);
      var t' := DeleteAt(p, t, x);
      assert t'[at] == t[at];
      IndexUnique(t', at);
      IndexUnique(t, i);
  }

  lemma KeyOrder(found: seq<Ptr>, j: nat, last: nat, p: seq<Setting>, t0: seq<Setting>)
    requires Sorted(t0) && Addressable(found, p, t0)
    requires j < |found| && last < |found| && found[last].TransactionSlot? && found[last].i < |t0|
    ensures var k := t0[found[last].i].key;
            && InRange(found[j], p, t0)
            && (j < last ==> KeyAt(found[j], p, t0) < k)
            && (j > last ==> k < KeyAt(found[j], p, t0))
            && (j < last && found[j].TransactionSlot? ==> found[j].i < found[last].i)
  {
    assert found[j] in found;
  }

  lemma EscapedNext(found: seq<Ptr>, j: nat, last: nat, p: seq<Setting>, t0: seq<Setting>, t: seq<Setting>)
    requires Sorted(t0) && Addressable(found, p, t0) && LastSlot(found, last)
    requires j < |found| && Reached(found, j, p, t0, t)
    requires InRange(found[last], p, t0)
    requires Escaped(found, j, last, found[last].i, t0[found[last].i].key, t0, t)
    ensures Escaped(found, j + 1, last, found[last].i, t0[found[last].i].key, t0, Next(found, j, p, t0, t))
  {
    ReachedNext(found, j, p, t0, t);
    KeyOrder(found, j, last, p, t0);
    EscapedAt(p, t, found[j], found[last].i, t0[found[last].i].key, Moved(found, j));
  }

  lemma {:induction false} EscapedToEnd(found: seq<Ptr>, j: nat, last: nat, p: seq<Setting>, t0: seq<Setting>, t: seq<Setting>)
    requires Sorted(t0) && Addressable(found, p, t0) && LastSlot(found, last)
    requires Reached(found, j, p, t0, t) && InRange(found[last], p, t0)
    requires Escaped(found, j, last, found[last].i, t0[found[last].i].key, t0, t)
    ensures var k := t0[found[last].i].key;
            Lookup(DeleteFound(found, j, p, t0, t), k) == Lookup(t0, k)
    decreases |found| - j
  {
    if j < |found| {
      EscapedNext(found, j, last, p, t0, t);
      EscapedToEnd(found, j + 1, last, p, t0, Next(found, j, p, t0, t));
    }
  }

  lemma {:induction false} MovedFrom(found: seq<Ptr>, i: nat, j: nat)
    requires i < j <= |found| && found[i].PersistentSlot?
    ensures Moved(found, j)
    decreases j
  {
    if j - 1 > i { MovedFrom(found, i, j - 1); }
  }

  lemma LastSlotExists(found: seq<Ptr>, i: nat, j: nat) returns (last: nat)
    requires i < j < |found| && found[i].PersistentSlot? && found[j].TransactionSlot?
    ensures LastSlot(found, last)
    decreases |found| - j
  {
    if n :| j < n < |found| && found[n].TransactionSlot? {
      last := LastSlotExists(found, i, n);
    } else {
      last := j;
      MovedFrom(found, i, j);
    }
  }

  // ----- the two together -----

  /** What the caller of a range deletion expects to see afterwards. */
  ghost predicate RangeGone(p: seq<Setting>, t0: seq<Setting>, t: seq<Setting>, m: Key -> bool) {
    forall k: Key :: View(p, t, k) == if m(k) then None else View(p, t0, k)
  }

  /** A visible key the transaction has not written, below one that it has. */
  ghost predicate UnwrittenBelowWritten(p: seq<Setting>, t: seq<Setting>, m: Key -> bool) {
    exists a: Key, b: Key :: a < b && m(a) && m(b)
      && View(p, t, a).Some? && View(p, t, b).Some?
      && Lookup(t, a).None? && Lookup(t, b).Some?
  }

  lemma ShiftedMeans(found: seq<Ptr>, p: seq<Setting>, t: seq<Setting>, m: Key -> bool)
    requires Sorted(p) && Live(p) && Sorted(t) && FoundIn(found, p, t, m)
    requires Shifted(found)
    ensures UnwrittenBelowWritten(p, t, m)
  {
    var i, j :| 0 <= i < j < |found| && found[i].PersistentSlot? && found[j].TransactionSlot?;
    var a, b := KeyAt(found[i], p, t), KeyAt(found[j], p, t);
    assert found[i] in found && found[j] in found;
    FoundIsVisible(found, p, t, m, a);
    FoundIsVisible(found, p, t, m, b);
    LookupIn(t, t[found[j].i]);
    assert a < b;
  }

  lemma UnwrittenShifts(found: seq<Ptr>, p: seq<Setting>, t: seq<Setting>, m: Key -> bool)
    requires Sorted(p) && Live(p) && Sorted(t) && FoundIn(found, p, t, m)
    requires UnwrittenBelowWritten(p, t, m)
    ensures Shifted(found)
  {
    var a: Key, b: Key :| a < b && m(a) && m(b)
      && View(p, t, a).Some? && View(p, t, b).Some?
      && Lookup(t, a).None? && Lookup(t, b).Some?;
    var x, y := PersistentSlot(FindIndex(p, a)), TransactionSlot(FindIndex(t, b));
    assert x in found && y in found;
    var i :| 0 <= i < |found| && found[i] == x;
    var j :| 0 <= j < |found| && found[j] == y;
    assert i < j;
  }

  lemma ClearedIsGone(found: seq<Ptr>, p: seq<Setting>, t0: seq<Setting>, t: seq<Setting>, m: Key -> bool)
    requires Sorted(p) && Live(p) && Sorted(t0) && Sorted(t) && FoundIn(found, p, t0, m)
    requires Cleared(found, |found|, p, t0, t)
    ensures RangeGone(p, t0, t, m)
  {
    assert found[..|found|] == found;
    forall k: Key ensures View(p, t, k) == if m(k) then None else View(p, t0, k) {
      assert ClearedKey(found, |found|, p, t0, t, k);
      PointsToIffVisible(found, p, t0, m, k);
    }
  }

  lemma PointsToIffVisible(found: seq<Ptr>, p: seq<Setting>, t: seq<Setting>, m: Key -> bool, k: Key)
    requires Sorted(p) && Live(p) && Sorted(t) && FoundIn(found, p, t, m)
    ensures PointsTo(found, x => KeyAt(x, p, t), k) <==> m(k) && View(p, t, k).Some?
  {
    FoundIsVisible(found, p, t, m, k);
    if PointsTo(found, x => KeyAt(x, p, t), k) {
      var i :| 0 <= i < |found| && KeyAt(found[i], p, t) == k;
      assert found[i] in found;
    }
    if x :| x in found && KeyAt(x, p, t) == k {
      var i :| 0 <= i < |found| && found[i] == x;
    }
  }

  lemma {:induction false} ShiftedRangeStays(found: seq<Ptr>, p: seq<Setting>, t: seq<Setting>, m: Key -> bool)
    requires Sorted(p) && Live(p) && Sorted(t) && FoundIn(found, p, t, m) && Shifted(found)
    requires Addressable(found, p, t) && Reached(found, 0, p, t, t)
    ensures !RangeGone(p, t, DeleteFound(found, 0, p, t, t), m)
  {
    var i, j :| 0 <= i < j < |found| && found[i].PersistentSlot? && found[j].TransactionSlot?;
    var last := LastSlotExists(found, i, j);
    var s := found[last].i;
    assert found[last] in found;
    IndexUnique(t, s);
    EscapedToEnd(found, 0, last, p, t, t);
    assert View(p, DeleteFound(found, 0, p, t, t), t[s].key).Some? && m(t[s].key);
  }

  lemma {:induction false} UnshiftedRangeGoes(found: seq<Ptr>, p: seq<Setting>, t: seq<Setting>, m: Key -> bool)
    requires Sorted(p) && Live(p) && Sorted(t) && FoundIn(found, p, t, m) && !Shifted(found)
    requires Addressable(found, p, t) && Reached(found, 0, p, t, t)
    ensures RangeGone(p, t, DeleteFound(found, 0, p, t, t), m)
  {
    forall k: Key ensures ClearedKey(found, 0, p, t, t, k) {}
    ClearedToEnd(found, 0, p, t, t);
    ClearedIsGone(found, p, t, DeleteFound(found, 0, p, t, t), m);
  }

  /** A range deletion does what it says exactly when no matching key that the transaction
      has only inherited lies below a matching key that it has written itself. */
  lemma {:induction false} RangeDeletionCorrectIff(found: seq<Ptr>, p: seq<Setting>, t: seq<Setting>, m: Key -> bool)
    requires Sorted(p) && Live(p) && Sorted(t) && FoundIn(found, p, t, m)
    ensures Addressable(found, p, t) && Reached(found, 0, p, t, t)
    ensures RangeGone(p, t, DeleteFound(found, 0, p, t, t), m) <==> !UnwrittenBelowWritten(p, t, m)
  {
    FoundAddressable(found, p, t, m);
    if Shifted(found) {
      ShiftedMeans(found, p, t, m);
      ShiftedRangeStays(found, p, t, m);
    } else {
      if UnwrittenBelowWritten(p, t, m) { UnwrittenShifts(found, p, t, m); }
      UnshiftedRangeGoes(found, p, t, m);
    }
  }

  /** Such a range: key 3 is persistent, key 5 was created in the transaction. Deleting
      everything deletes 3, then 3 once more through the slot 5 was in; 5 stays. */
  lemma CreatedKeySurvives(a: Setting, b: Setting)
    requires a.key == 3 && b.key == 5 && !a.IsDeleted() && !b.IsDeleted()
    ensures var found := [PersistentSlot(0), TransactionSlot(0)];
            && Addressable(found, [a], [b]) && Reached(found, 0, [a], [b], [b])
            && DeleteFound(found, 0, [a], [b], [b]) == [Setting(3, a.meta, Deleted), b]
  {
    var p, t, found := [a], [b], [PersistentSlot(0), TransactionSlot(0)];
    var gone := Setting(3, a.meta, Deleted);
    assert FindIndex(t, 3) < 0;
    var t1 := Next(found, 0, p, t, t);
    assert LowerBound(t, 3) == 0;
    assert t1 == [gone, b];
    assert Next(found, 1, p, t, t1) == t1;
    assert DeleteFound(found, 2, p, t, t1) == t1;
  }
}

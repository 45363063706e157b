/** What a session sees while it is inside a transaction: its own settings laid over the
    persistent ones (cenrepsrv/srvrepos_noc.h GetSetting and FindSettings, with the array
    operations Find and Merge of common/src/datatype.cpp). */
module Overlay {
  import opened Errors
  import opened Settings
  import opened Merge

  /** GetSetting: the transaction's entry, placeholder or not, hides the persistent one. */
  function GetSetting(p: seq<Setting>, t: seq<Setting>, readWrite: bool, k: Key): Option<Setting> {
    if |t| > 0 && readWrite && Lookup(t, k).Some? then Lookup(t, k) else Lookup(p, k)
  }

  /** What a read operation makes of it: a placeholder reads as not found. */
  function Visible(s: Option<Setting>): Option<Setting> {
    if s.Some? && s.value.IsDeleted() then None else s
  }

  function View(p: seq<Setting>, t: seq<Setting>, k: Key): Option<Setting> {
    Visible(GetSetting(p, t, true, k))
  }

  /** MOperationLogic::Get: the value, when the type asked for is the type stored. */
  function ViewValue(s: Option<Setting>): Option<Value> {
    if s.Some? then Some(s.value.value) else None
  }

  // ----- a commit against the view it publishes -----

  /** The entry of this key is dropped by the comparison although it differs. */
  predicate Masked(p: Option<Setting>, t: Option<Setting>) {
    && p.Some? && t.Some?
    && !t.value.IsDeleted()
    && Same(p.value, t.value)
    && p != t
  }

  /** After an error-free merge each key holds what the transaction saw, except for
      exactly the masked ones, which keep their old setting. */
  lemma CommitPublishesView(p: seq<Setting>, t: seq<Setting>, d: set<Key>, failAt: int, k: Key)
    requires Sorted(p) && Live(p) && Sorted(t)
    requires MergeAll(p, t, d, failAt).err == KErrNone
    ensures var p' := MergeAll(p, t, d, failAt).items;
            && (Lookup(p', k) == View(p, t, k) <==> !Masked(Lookup(p, k), Lookup(t, k)))
            && (Masked(Lookup(p, k), Lookup(t, k)) ==> Lookup(p', k) == Lookup(p, k))
  {
    MergeAt(p, t, d, failAt, k);
  }

  /** The same for values alone: the one value the commit loses is an empty string
      that replaced an integer zero. */
  lemma CommitPublishesValues(p: seq<Setting>, t: seq<Setting>, d: set<Key>, failAt: int, k: Key)
    requires Sorted(p) && Live(p) && Sorted(t)
    requires MergeAll(p, t, d, failAt).err == KErrNone
    ensures ViewValue(Lookup(MergeAll(p, t, d, failAt).items, k)) == ViewValue(View(p, t, k))
       <==> !(ViewValue(Lookup(p, k)) == Some(Int(0)) && ViewValue(Lookup(t, k)) == Some(Str("")))
  {
    CommitPublishesView(p, t, d, failAt, k);
  }

  /** Such a transaction: the integer 0 under key 7 is deleted and created as an empty
      string. The commit succeeds, reports no change and leaves the integer. */
  lemma EmptyStringOverZeroIsLost(meta: Meta, d: set<Key>)
    ensures var p := [Setting(7, meta, Int(0))];
            var t := [Setting(7, meta, Str(""))];
            && ViewValue(View(p, t, 7)) == Some(Str(""))
            && MergeAll(p, t, d, -1) == MergeState(p, [], d, KErrNone)
  {
    var p := [Setting(7, meta, Int(0))];
    var t := [Setting(7, meta, Str(""))];
    assert Lookup(t, 7) == Some(t[0]);
    var m := MergeState(p, t, d, KErrNone);
    assert MergeStep(m, 0, false) == MergeState(p, [], d, KErrNone);
    assert MergeFrom(m, 1, -1) == MergeFrom(MergeStep(m, 0, false), 0, -1);
  }

  /** A merge keeps the persistent array sorted and free of placeholders. */
  lemma MergeKeepsLive(p: seq<Setting>, t: seq<Setting>, d: set<Key>, failAt: int)
    requires Sorted(p) && Live(p) && Sorted(t)
    requires MergeAll(p, t, d, failAt).err == KErrNone
    ensures var r := MergeAll(p, t, d, failAt).items; Sorted(r) && Live(r)
  {
    var r := MergeAll(p, t, d, failAt).items;
    forall i | 0 <= i < |r| ensures !r[i].IsDeleted() {
      LookupIn(r, r[i]);
      MergeAt(p, t, d, failAt, r[i].key);
    }
  }

  predicate HasKey(s: seq<Setting>, k: Key) {
    exists x :: x in s && x.key == k
  }

  lemma KeptHasKey(p: seq<Setting>, t: seq<Setting>, k: Key)
    requires Sorted(t)
    ensures HasKey(Kept(p, t), k) <==> Lookup(t, k).Some? && Changing(Lookup(p, k), Lookup(t, k).value)
  {
    if HasKey(Kept(p, t), k) {
      var x :| x in Kept(p, t) && x.key == k;
      LookupIn(t, x);
    } else if Lookup(t, k).Some? {
      assert Lookup(t, k).value in t;
    }
  }

  /** The keys left in the change list, which are the ones notified and counted, are
      exactly the keys whose persistent setting differs after the merge. */
  lemma ChangesAreTheDifference(p: seq<Setting>, t: seq<Setting>, d: set<Key>, failAt: int, k: Key)
    requires Sorted(p) && Live(p) && Sorted(t)
    requires MergeAll(p, t, d, failAt).err == KErrNone
    ensures var r := MergeAll(p, t, d, failAt);
            HasKey(r.changes, k) <==> Lookup(r.items, k) != Lookup(p, k)
  {
    MergeAt(p, t, d, failAt, k);
    KeptHasKey(p, t, k);
  }
}

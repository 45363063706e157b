/** The write operations of a session inside a transaction, on the transaction's own array
    (common/inc/operations.h). Each yields the new array and the error it leaves with. */
module Operations {
  import opened Errors
  import opened Settings
  import opened Overlay

  type Stored = v: Value | !v.Deleted? witness Int(0)

  datatype Outcome = Outcome(own: seq<Setting>, err: int)

  /** SetSettingL. newMeta is the metadata a setting created here would get. */
  function SetSetting(p: seq<Setting>, t: seq<Setting>, k: Key, v: Stored, newMeta: Meta): (r: Outcome)
    requires Sorted(t)
    ensures Sorted(r.own)
  {
    var i := FindIndex(t, k);
    if i >= 0 then
      if t[i].IsDeleted() then Outcome(t[i := Setting(k, t[i].meta, v)], KErrNone)
      else if !t[i].SameType(v) then Outcome(t, KErrArgument)
      else Outcome(t[i := Setting(k, t[i].meta.(clean := false), v)], KErrNone)
    else match GetSetting(p, t, true, k)
      case None => Outcome(OrderedInsert(t, Setting(k, newMeta, v)), KErrNone)
      case Some(ns) =>
        if !ns.SameType(v) then Outcome(t, KErrArgument)
        else Outcome(OrderedInsert(t, Setting(k, ns.meta.(clean := false), v)), KErrNone)
  }

  /** CreateSettingL. */
  function CreateSetting(p: seq<Setting>, t: seq<Setting>, k: Key, v: Stored, newMeta: Meta): (r: Outcome)
    requires Sorted(t)
    ensures Sorted(r.own)
  {
    match GetSetting(p, t, true, k)
    case Some(s) =>
      var i := FindIndex(t, k);
      if !s.IsDeleted() || i < 0 then Outcome(t, KErrAlreadyExists)
      else Outcome(t[i := Setting(k, t[i].meta, v)], KErrNone)
    case None => Outcome(OrderedInsert(t, Setting(k, newMeta, v)), KErrNone)
  }

  /** DeleteSettingL: the setting becomes a placeholder, or one is put in. */
  function DeleteSetting(p: seq<Setting>, t: seq<Setting>, k: Key): (r: Outcome)
    requires Sorted(t)
    ensures Sorted(r.own)
  {
    var i := FindIndex(t, k);
    if i >= 0 then
      if t[i].IsDeleted() then Outcome(t, KErrNotFound)
      else Outcome(t[i := Setting(k, t[i].meta, Deleted)], KErrNone)
    else match GetSetting(p, t, true, k)
      case None => Outcome(t, KErrNotFound)
      case Some(s) => Outcome(OrderedInsert(t, Setting(k, s.meta, Deleted)), KErrNone)
  }

  // ----- what they do to the session's view -----

  lemma ViewAfterInsert(p: seq<Setting>, t: seq<Setting>, x: Setting, k: Key)
    requires Sorted(t) && FindIndex(t, x.key) < 0
    ensures View(p, OrderedInsert(t, x), k) == if k == x.key then Visible(Some(x)) else View(p, t, k)
  {
    LookupInsert(t, x, k);
  }

  lemma ViewAfterReplace(p: seq<Setting>, t: seq<Setting>, i: nat, x: Setting, k: Key)
    requires Sorted(t) && i < |t| && t[i].key == x.key
    ensures View(p, t[i := x], k) == if k == x.key then Visible(Some(x)) else View(p, t, k)
  {
    LookupReplace(t, i, x, k);
  }

  /** Setting a visible key needs the same type; setting any other key creates it. Nothing
      else in the view changes, and nothing at all after an error. */
  lemma SetChangesView(p: seq<Setting>, t: seq<Setting>, k: Key, v: Stored, newMeta: Meta, other: Key)
    requires Sorted(p) && Live(p) && Sorted(t)
    ensures var r := SetSetting(p, t, k, v, newMeta);
            && (r.err == KErrArgument <==> View(p, t, k).Some? && !View(p, t, k).value.SameType(v))
            && (r.err == KErrNone || (r.err == KErrArgument && r.own == t))
            && (r.err == KErrNone ==> ViewValue(View(p, r.own, k)) == Some(v))
            && (r.err == KErrNone && other != k ==> View(p, r.own, other) == View(p, t, other))
  {
    var i := FindIndex(t, k);
    var r := SetSetting(p, t, k, v, newMeta);
    if r.err == KErrNone {
      if i >= 0 {
        ViewAfterReplace(p, t, i, r.own[i], k);
        ViewAfterReplace(p, t, i, r.own[i], other);
      } else {
        var s := Lookup(p, k);
        var x := Setting(k, if s.None? then newMeta else s.value.meta.(clean := false), v);
        ViewAfterInsert(p, t, x, k);
        ViewAfterInsert(p, t, x, other);
      }
    }
  }

  /** Creating succeeds exactly when the key is not visible. */
  lemma CreateChangesView(p: seq<Setting>, t: seq<Setting>, k: Key, v: Stored, newMeta: Meta, other: Key)
    requires Sorted(p) && Live(p) && Sorted(t)
    ensures var r := CreateSetting(p, t, k, v, newMeta);
            && (r.err == KErrNone <==> View(p, t, k).None?)
            && (r.err == KErrNone || (r.err == KErrAlreadyExists && r.own == t))
            && (r.err == KErrNone ==> ViewValue(View(p, r.own, k)) == Some(v))
            && (r.err == KErrNone && other != k ==> View(p, r.own, other) == View(p, t, other))
  {
    var i := FindIndex(t, k);
    var r := CreateSetting(p, t, k, v, newMeta);
    if r.err == KErrNone {
      if i >= 0 {
        ViewAfterReplace(p, t, i, r.own[i], k);
        ViewAfterReplace(p, t, i, r.own[i], other);
      } else {
        ViewAfterInsert(p, t, Setting(k, newMeta, v), k);
        ViewAfterInsert(p, t, Setting(k, newMeta, v), other);
      }
    }
  }

  /** Deleting succeeds exactly when the key is visible. */
  lemma DeleteChangesView(p: seq<Setting>, t: seq<Setting>, k: Key, other: Key)
    requires Sorted(p) && Live(p) && Sorted(t)
    ensures var r := DeleteSetting(p, t, k);
            && (r.err == KErrNone <==> View(p, t, k).Some?)
            && (r.err == KErrNone || (r.err == KErrNotFound && r.own == t))
            && (r.err == KErrNone ==> View(p, r.own, k) == None)
            && (r.err == KErrNone && other != k ==> View(p, r.own, other) == View(p, t, other))
  {
    var i := FindIndex(t, k);
    var r := DeleteSetting(p, t, k);
    if r.err == KErrNone {
      if i >= 0 {
        ViewAfterReplace(p, t, i, r.own[i], k);
        ViewAfterReplace(p, t, i, r.own[i], other);
      } else {
        var x := Setting(k, Lookup(p, k).value.meta, Deleted);
        ViewAfterInsert(p, t, x, k);
        ViewAfterInsert(p, t, x, other);
      }
    }
  }
}

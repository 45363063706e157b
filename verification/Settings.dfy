/** Settings and the sorted arrays the central repository keeps them in
    (common/inc/setting.inl, common/inc/datatype.inl, common/src/datatype.cpp). */
module Settings {
  import opened Errors

  type Key = k: int | 0 <= k <= 0xFFFF_FFFF

  /** The value union of a setting together with its type bits. A deleted setting
      is a placeholder that only ever lives in a transaction's own array. */
  datatype Value = Int(i: int) | Real(r: real) | Str(s: string) | Deleted

  /** The metadata bits other than the type: the "still the default value" bit,
      the backup bit, and whatever else the creator asked for. */
  datatype Meta = Meta(clean: bool, backup: bool, rest: nat)

  datatype Setting = Setting(key: Key, meta: Meta, value: Value) {
    predicate IsDeleted() { value.Deleted? }

    predicate SameType(v: Value) {
      || (value.Int? && v.Int?)
      || (value.Real? && v.Real?)
      || (value.Str? && v.Str?)
    }
  }

  /** An integer zero, an empty string and a placeholder all leave the value union
      zero, and the comparison below looks at nothing but the pointer. */
  predicate ZeroUnion(v: Value) {
    v == Int(0) || v == Str("") || v.Deleted?
  }

  /** TServerSetting::operator==, target on the left. Metadata does not take part. */
  predicate Same(target: Setting, source: Setting) {
    match source.value
    case Int(_) => target.value == source.value
    case Real(_) => target.value == source.value
    case Str(s) => if s == "" then ZeroUnion(target.value) else target.value == source.value
    case Deleted => false
  }

  /** The array invariant: strictly ascending keys. */
  predicate Sorted(s: seq<Setting>) {
    forall i, j :: 0 <= i < j < |s| ==> s[i].key < s[j].key
  }

  /** What the array of a repository, as opposed to a transaction, also satisfies. */
  predicate Live(s: seq<Setting>) {
    forall i :: 0 <= i < |s| ==> !s[i].IsDeleted()
  }

  /** FindInUnsignedKeyOrder: the index of a key, or KErrNotFound. */
  function FindIndex(s: seq<Setting>, k: Key): (r: int)
    ensures -1 <= r < |s|
    ensures r >= 0 ==> s[r].key == k
    ensures r < 0 ==> forall i :: 0 <= i < |s| ==> s[i].key != k
  {
    if s == [] then KErrNotFound
    else if s[|s| - 1].key == k then |s| - 1
    else FindIndex(s[..|s| - 1], k)
  }

  /** Where an ordered insertion puts a key. */
  function LowerBound(s: seq<Setting>, k: Key): (r: nat)
    requires Sorted(s)
    ensures r <= |s|
    ensures forall i :: 0 <= i < r ==> s[i].key < k
    ensures forall i :: r <= i < |s| ==> k <= s[i].key
  {
    if s == [] then 0
    else if s[|s| - 1].key < k then |s|
    else LowerBound(s[..|s| - 1], k)
  }

  function OrderedInsert(s: seq<Setting>, x: Setting): (r: seq<Setting>)
    requires Sorted(s)
    requires FindIndex(s, x.key) < 0
    ensures Sorted(r)
  {
    var at := LowerBound(s, x.key);
    s[..at] + [x] + s[at..]
  }

  function DeleteElement(s: seq<Setting>, i: nat): (r: seq<Setting>)
    requires i < |s|
    ensures Sorted(s) ==> Sorted(r)
  {
    s[..i] + s[i + 1..]
  }

  function Lookup(s: seq<Setting>, k: Key): (r: Option<Setting>)
    ensures r.Some? ==> r.value in s && r.value.key == k
    ensures r.None? <==> FindIndex(s, k) < 0
  {
    var i := FindIndex(s, k);
    if i < 0 then None else Some(s[i])
  }

  lemma LookupIn(s: seq<Setting>, x: Setting)
    requires Sorted(s) && x in s
    ensures Lookup(s, x.key) == Some(x)
  {
    var i :| 0 <= i < |s| && s[i] == x;
    var j := FindIndex(s, x.key);
    assert s[j].key == s[i].key;
  }

  lemma LookupInsert(s: seq<Setting>, x: Setting, k: Key)
    requires Sorted(s) && FindIndex(s, x.key) < 0
    ensures Lookup(OrderedInsert(s, x), k) == if k == x.key then Some(x) else Lookup(s, k)
  {
    var r := OrderedInsert(s, x);
    var at := LowerBound(s, x.key);
    assert s == s[..at] + s[at..];
    if k == x.key {
      LookupIn(r, x);
    } else if Lookup(s, k).Some? {
      LookupIn(r, Lookup(s, k).value);
    } else if Lookup(r, k).Some? {
      LookupIn(s, Lookup(r, k).value);
    }
  }

  lemma LookupDelete(s: seq<Setting>, i: nat, k: Key)
    requires Sorted(s) && i < |s|
    ensures Lookup(DeleteElement(s, i), k) == if k == s[i].key then None else Lookup(s, k)
  {
    var r := DeleteElement(s, i);
    assert s == s[..i] + [s[i]] + s[i + 1..];
    if k == s[i].key {
      assert forall j :: 0 <= j < |r| ==> r[j].key != k;
    } else if Lookup(s, k).Some? {
      LookupIn(r, Lookup(s, k).value);
    } else if Lookup(r, k).Some? {
      LookupIn(s, Lookup(r, k).value);
    }
  }

  lemma LookupReplace(s: seq<Setting>, i: nat, x: Setting, k: Key)
    requires Sorted(s) && i < |s| && x.key == s[i].key
    ensures Sorted(s[i := x])
    ensures Lookup(s[i := x], k) == if k == x.key then Some(x) else Lookup(s, k)
  {
    var r := s[i := x];
    assert r[i] == x;
    if k == x.key {
      LookupIn(r, x);
    } else if Lookup(s, k).Some? {
      var j := FindIndex(s, k);
      assert r[j] == s[j];
      LookupIn(r, s[j]);
    } else {
      assert forall j :: 0 <= j < |r| ==> r[j].key == s[j].key;
    }
  }

  /** A sorted array is determined by what it answers to lookups. */
  lemma {:induction false} LookupDetermines(s: seq<Setting>, t: seq<Setting>)
    requires Sorted(s) && Sorted(t)
    requires forall k: Key :: Lookup(s, k) == Lookup(t, k)
    ensures s == t
  {
    assert |s| > 0 ==> Lookup(s, s[0].key).Some?;
    assert |t| > 0 ==> Lookup(t, t[0].key).Some?;
    if s != [] {
      LastDetermined(s, t);
      LastDetermined(t, s);
      var s', t' := s[..|s| - 1], t[..|t| - 1];
      forall k: Key ensures Lookup(s', k) == Lookup(t', k) {
        LookupDelete(s, |s| - 1, k);
        LookupDelete(t, |t| - 1, k);
        assert DeleteElement(s, |s| - 1) == s' && DeleteElement(t, |t| - 1) == t';
      }
      LookupDetermines(s', t');
    }
  }

  lemma LastDetermined(s: seq<Setting>, t: seq<Setting>)
    requires Sorted(s) && Sorted(t) && s != [] && t != []
    requires forall k: Key :: Lookup(s, k) == Lookup(t, k)
    ensures t[|t| - 1] in s && s[|s| - 1] in t
    ensures s[|s| - 1] == t[|t| - 1]
  {
    var a, b := s[|s| - 1], t[|t| - 1];
    LookupIn(s, a);
    LookupIn(t, b);
    assert Lookup(t, a.key) == Some(a) && Lookup(s, b.key) == Some(b);
    assert a.key <= b.key && b.key <= a.key;
  }
}

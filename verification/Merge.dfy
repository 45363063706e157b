/** RSettingsArray::MergeTransaction (common/src/datatype.cpp): how a transaction's own
    settings, placeholders included, are folded into the persistent array at commit. */
module Merge {
  import opened Errors
  import opened Settings

  /** The three arrays the merge updates and the error it stops with. The sorted,
      duplicate-free array of deleted keys kept for backup is modelled as a set. */
  datatype MergeState = MergeState(items: seq<Setting>, changes: seq<Setting>, deleted: set<Key>, err: int)

  /** One iteration: element i of the changes against the persistent array. oom says
      whether the allocation this iteration may need fails. */
  function MergeStep(m: MergeState, i: nat, oom: bool): (r: MergeState)
    requires Sorted(m.items) && i < |m.changes|
    ensures Sorted(r.items)
    ensures i <= |r.changes| && r.changes[..i] == m.changes[..i]
    ensures r.err != KErrNone ==> r.changes == m.changes
  {
    var source := m.changes[i];
    var target := FindIndex(m.items, source.key);
    if target == KErrNotFound then
      if source.IsDeleted() then
        m.(changes := DeleteElement(m.changes, i), err := KErrNone)
      else if oom then
        m.(err := KErrNoMemory)
      else
        m.(items := OrderedInsert(m.items, source), deleted := m.deleted - {source.key}, err := KErrNone)
    else if source.IsDeleted() then
      var backup := m.items[target].meta.backup;
      var err := if !backup then KErrNone
                 else if source.key in m.deleted then KErrAlreadyExists
                 else if oom then KErrNoMemory
                 else KErrNone;
      m.(items := DeleteElement(m.items, target),
         deleted := if backup && err == KErrNone then m.deleted + {source.key} else m.deleted,
         err := err)
    else if !Same(m.items[target], source) then
      if oom then m.(err := KErrNoMemory) else m.(items := m.items[target := source], err := KErrNone)
    else
      m.(changes := DeleteElement(m.changes, i), err := KErrNone)
  }

  /** The loop: indices n-1 down to 0, until an error. */
  function MergeFrom(m: MergeState, n: nat, failAt: int): (r: MergeState)
    requires Sorted(m.items) && n <= |m.changes|
    ensures Sorted(r.items)
    decreases n
  {
    if n == 0 || m.err != KErrNone then m
    else MergeFrom(MergeStep(m, n - 1, failAt == n - 1), n - 1, failAt)
  }

  function MergeAll(items: seq<Setting>, changes: seq<Setting>, deleted: set<Key>, failAt: int): (r: MergeState)
    requires Sorted(items)
    ensures Sorted(r.items)
  {
    MergeFrom(MergeState(items, changes, deleted, KErrNone), |changes|, failAt)
  }

  method MergeTransaction(items: seq<Setting>, changes: seq<Setting>, deleted: set<Key>, failAt: int)
    returns (items': seq<Setting>, changes': seq<Setting>, deleted': set<Key>, err: int)
    requires Sorted(items)
    ensures MergeState(items', changes', deleted', err) == MergeAll(items, changes, deleted, failAt)
  {
    items', changes', deleted', err := items, changes, deleted, KErrNone;
    var i := |changes| - 1;
    while i >= 0 && err == KErrNone
      invariant -1 <= i < |changes'|
      invariant Sorted(items')
      invariant MergeFrom(MergeState(items', changes', deleted', err), i + 1, failAt)
             == MergeAll(items, changes, deleted, failAt)
      decreases i, err == KErrNone
    {
      ghost var m := MergeState(items', changes', deleted', err);
      var source := changes'[i];
      var target := FindIndex(items', source.key);
      if target == KErrNotFound {
        if source.IsDeleted() {
          changes' := DeleteElement(changes', i);
        } else if failAt == i {
          err := KErrNoMemory;
        } else {
          items' := OrderedInsert(items', source);
          deleted' := deleted' - {source.key};
        }
      } else if source.IsDeleted() {
        if items'[target].meta.backup {
          if source.key in deleted' {
            err := KErrAlreadyExists;
          } else if failAt == i {
            err := KErrNoMemory;
          } else {
            deleted' := deleted' + {source.key};
          }
        }
        items' := DeleteElement(items', target);
      } else if !Same(items'[target], source) {
        if failAt == i {
          err := KErrNoMemory;
        } else {
          items' := items'[target := source];
        }
      } else {
        changes' := DeleteElement(changes', i);
      }
      assert MergeState(items', changes', deleted', err) == MergeStep(m, i, failAt == i);
      i := i - 1;
    }
  }

  // ----- what the merge means, key by key -----

  /** What becomes of one key: p is its persistent setting, t the transaction's. */
  function Publish(p: Option<Setting>, t: Option<Setting>): Option<Setting> {
    match t
    case None => p
    case Some(s) =>
      if s.IsDeleted() then None
      else if p.Some? && Same(p.value, s) then p
      else t
  }

  /** Whether the transaction's entry changes anything. */
  predicate Changing(p: Option<Setting>, s: Setting) {
    if p.None? then !s.IsDeleted() else s.IsDeleted() || !Same(p.value, s)
  }

  /** Whether a key is on the deleted list afterwards. */
  predicate ListedAfter(p: Option<Setting>, t: Option<Setting>, listed: bool) {
    match t
    case None => listed
    case Some(s) =>
      if s.IsDeleted() then listed || (p.Some? && p.value.meta.backup)
      else listed && p.Some?
  }

  /** A placeholder whose key is on the deleted list although the key exists and is
      backed up: inserting it again fails with KErrAlreadyExists. */
  predicate Blocked(p: Option<Setting>, s: Setting, deleted: set<Key>) {
    s.IsDeleted() && p.Some? && p.value.meta.backup && s.key in deleted
  }

  /** The entries of t that change something, in order. */
  function Kept(p: seq<Setting>, t: seq<Setting>): (r: seq<Setting>)
    ensures forall x :: x in r <==> x in t && Changing(Lookup(p, x.key), x)
  {
    if t == [] then []
    else
      var last := t[|t| - 1];
      assert t == t[..|t| - 1] + [last];
      Kept(p, t[..|t| - 1]) + if Changing(Lookup(p, last.key), last) then [last] else []
  }

  lemma {:induction false} KeptFrame(p: seq<Setting>, p': seq<Setting>, t: seq<Setting>)
    requires forall x :: x in t ==> Lookup(p, x.key) == Lookup(p', x.key)
    ensures Kept(p, t) == Kept(p', t)
  {
    if t != [] {
      var last := t[|t| - 1];
      assert last in t;
      KeptFrame(p, p', t[..|t| - 1]);
    }
  }

  lemma LookupPrefix(t: seq<Setting>, n: nat, k: Key)
    requires Sorted(t) && 0 < n <= |t|
    ensures Lookup(t[..n], k) == if k == t[n - 1].key then Some(t[n - 1]) else Lookup(t[..n - 1], k)
    ensures k == t[n - 1].key ==> Lookup(t[..n - 1], k) == None
  {
    assert t[..n][..n - 1] == t[..n - 1];
  }

  /** The effect of one error-free iteration, stated without its case split. */
  ghost predicate Effect(m: MergeState, i: nat, m': MergeState)
    requires i < |m.changes|
  {
    && Sorted(m'.items) && i <= |m'.changes|
    && m'.changes[..i] == m.changes[..i]
    && (Sorted(m.changes) ==> Sorted(m'.changes))
    && m'.changes[i..] == (if Changing(Lookup(m.items, m.changes[i].key), m.changes[i]) then [m.changes[i]] else [])
                          + m.changes[i + 1..]
    && (forall k: Key :: Lookup(m'.items, k) ==
          if k == m.changes[i].key then Publish(Lookup(m.items, k), Some(m.changes[i])) else Lookup(m.items, k))
    && (forall k: Key :: k in m'.deleted <==>
          if k == m.changes[i].key then ListedAfter(Lookup(m.items, k), Some(m.changes[i]), k in m.deleted)
          else k in m.deleted)
  }

  lemma StepLookup(m: MergeState, i: nat, oom: bool, k: Key)
    requires Sorted(m.items) && i < |m.changes|
    requires MergeStep(m, i, oom).err == KErrNone
    ensures var r := MergeStep(m, i, oom);
            Lookup(r.items, k) == if k == m.changes[i].key then Publish(Lookup(m.items, k), Some(m.changes[i]))
                                  else Lookup(m.items, k)
  {
    var source := m.changes[i];
    var target := FindIndex(m.items, source.key);
    if target < 0 {
      if !source.IsDeleted() { LookupInsert(m.items, source, k); }
    } else if source.IsDeleted() {
      LookupDelete(m.items, target, k);
    } else if !Same(m.items[target], source) {
      LookupReplace(m.items, target, source, k);
    }
  }

  lemma StepChanges(m: MergeState, i: nat, oom: bool)
    requires Sorted(m.items) && i < |m.changes|
    requires MergeStep(m, i, oom).err == KErrNone
    ensures MergeStep(m, i, oom).changes
            == if Changing(Lookup(m.items, m.changes[i].key), m.changes[i]) then m.changes
               else DeleteElement(m.changes, i)
  {
  }

  lemma {:induction false} StepDeleted(m: MergeState, i: nat, oom: bool, k: Key)
    requires Sorted(m.items) && i < |m.changes|
    requires MergeStep(m, i, oom).err == KErrNone
    ensures k in MergeStep(m, i, oom).deleted <==>
            if k == m.changes[i].key then ListedAfter(Lookup(m.items, k), Some(m.changes[i]), k in m.deleted)
            else k in m.deleted
  {
    var source := m.changes[i];
    var target := FindIndex(m.items, source.key);
    if target < 0 {
      assert MergeStep(m, i, oom).deleted == if source.IsDeleted() then m.deleted else m.deleted - {source.key};
    } else if source.IsDeleted() {
      assert MergeStep(m, i, oom).deleted
          == if m.items[target].meta.backup then m.deleted + {source.key} else m.deleted;
    } else {
      assert MergeStep(m, i, oom).deleted == m.deleted;
    }
  }

  lemma StepEffect(m: MergeState, i: nat, oom: bool)
    requires Sorted(m.items) && i < |m.changes|
    requires MergeStep(m, i, oom).err == KErrNone
    ensures Effect(m, i, MergeStep(m, i, oom))
  {
    var m' := MergeStep(m, i, oom);
    StepChanges(m, i, oom);
    forall k: Key
      ensures Lookup(m'.items, k) ==
        if k == m.changes[i].key then Publish(Lookup(m.items, k), Some(m.changes[i])) else Lookup(m.items, k)
      ensures k in m'.deleted <==>
        if k == m.changes[i].key then ListedAfter(Lookup(m.items, k), Some(m.changes[i]), k in m.deleted)
        else k in m.deleted
    {
      StepLookup(m, i, oom, k);
      StepDeleted(m, i, oom, k);
    }
  }

  lemma NoErrorBefore(m: MergeState, n: nat, failAt: int)
    requires Sorted(m.items) && n <= |m.changes|
    requires MergeFrom(m, n, failAt).err == KErrNone
    ensures m.err == KErrNone
  {
  }

  /** An error is reported before anything is dropped from the list at that point, so the
      list of changes the caller counts is never empty after an error. */
  lemma {:induction false} ErrorKeepsChanges(m: MergeState, n: nat, failAt: int)
    requires Sorted(m.items) && n <= |m.changes|
    requires m.err == KErrNone
    ensures var r := MergeFrom(m, n, failAt);
            r.err != KErrNone ==> |r.changes| > 0
    decreases n
  {
    if n > 0 {
      var m' := MergeStep(m, n - 1, failAt == n - 1);
      if m'.err == KErrNone { ErrorKeepsChanges(m', n - 1, failAt); }
    }
  }

  /** What a whole error-free merge of the first n entries has done. */
  ghost predicate Merged(m: MergeState, n: nat, r: MergeState)
    requires n <= |m.changes|
  {
    && Sorted(r.items)
    && r.changes == Kept(m.items, m.changes[..n]) + m.changes[n..]
    && (forall k: Key :: Lookup(r.items, k) == Publish(Lookup(m.items, k), Lookup(m.changes[..n], k)))
    && (forall k: Key :: k in r.deleted
          <==> ListedAfter(Lookup(m.items, k), Lookup(m.changes[..n], k), k in m.deleted))
  }

  lemma MergedNone(m: MergeState)
    requires Sorted(m.items)
    ensures Merged(m, 0, m)
  {
  }

  lemma MergedMoreAt(m: MergeState, m': MergeState, n: nat, r: MergeState, k: Key)
    requires Sorted(m.changes) && 0 < n <= |m.changes|
    requires Effect(m, n - 1, m')
    requires Merged(m', n - 1, r)
    ensures Lookup(r.items, k) == Publish(Lookup(m.items, k), Lookup(m.changes[..n], k))
    ensures k in r.deleted <==> ListedAfter(Lookup(m.items, k), Lookup(m.changes[..n], k), k in m.deleted)
  {
    LookupPrefix(m.changes, n, k);
    assert m'.changes[..n - 1] == m.changes[..n - 1];
  }

  lemma Associates(a: seq<Setting>, b: seq<Setting>, c: seq<Setting>)
    ensures a + (b + c) == (a + b) + c
  {
  }

  lemma MergedMoreChanges(m: MergeState, m': MergeState, n: nat)
    requires Sorted(m.changes) && 0 < n <= |m.changes|
    requires Effect(m, n - 1, m')
    ensures Kept(m'.items, m'.changes[..n - 1]) + m'.changes[n - 1..]
         == Kept(m.items, m.changes[..n]) + m.changes[n..]
  {
    var pre := m.changes[..n - 1];
    assert m.changes[..n][..n - 1] == pre;
    KeptFrame(m.items, m'.items, pre);
    var last := if Changing(Lookup(m.items, m.changes[n - 1].key), m.changes[n - 1]) then [m.changes[n - 1]] else [];
    Associates(Kept(m.items, pre), last, m.changes[n..]);
  }

  lemma MergedMore(m: MergeState, m': MergeState, n: nat, r: MergeState)
    requires Sorted(m.changes) && 0 < n <= |m.changes|
    requires Effect(m, n - 1, m')
    requires Merged(m', n - 1, r)
    ensures Merged(m, n, r)
  {
    MergedMoreChanges(m, m', n);
    forall k: Key
      ensures Lookup(r.items, k) == Publish(Lookup(m.items, k), Lookup(m.changes[..n], k))
      ensures k in r.deleted <==> ListedAfter(Lookup(m.items, k), Lookup(m.changes[..n], k), k in m.deleted)
    {
      MergedMoreAt(m, m', n, r, k);
    }
  }

  lemma MergeFromNext(m: MergeState, n: nat, failAt: int)
    requires Sorted(m.items) && 0 < n <= |m.changes|
    requires MergeFrom(m, n, failAt).err == KErrNone
    ensures var m' := MergeStep(m, n - 1, failAt == n - 1);
            && m'.err == KErrNone && n - 1 <= |m'.changes|
            && MergeFrom(m, n, failAt) == MergeFrom(m', n - 1, failAt)
  {
    NoErrorBefore(m, n, failAt);
    NoErrorBefore(MergeStep(m, n - 1, failAt == n - 1), n - 1, failAt);
  }

  lemma {:induction false} MergeMeans(m: MergeState, n: nat, failAt: int)
    requires Sorted(m.items) && Sorted(m.changes) && n <= |m.changes|
    requires MergeFrom(m, n, failAt).err == KErrNone
    ensures Merged(m, n, MergeFrom(m, n, failAt))
    decreases n
  {
    if n == 0 {
      MergedNone(m);
    } else {
      var m' := MergeStep(m, n - 1, failAt == n - 1);
      MergeFromNext(m, n, failAt);
      StepEffect(m, n - 1, failAt == n - 1);
      MergeMeans(m', n - 1, failAt);
      MergedMore(m, m', n, MergeFrom(m', n - 1, failAt));
    }
  }

  /** A whole error-free merge, at one key. */
  lemma MergeAt(p: seq<Setting>, t: seq<Setting>, d: set<Key>, failAt: int, k: Key)
    requires Sorted(p) && Sorted(t)
    requires MergeAll(p, t, d, failAt).err == KErrNone
    ensures var r := MergeAll(p, t, d, failAt);
            && r.changes == Kept(p, t)
            && Lookup(r.items, k) == Publish(Lookup(p, k), Lookup(t, k))
            && (k in r.deleted <==> ListedAfter(Lookup(p, k), Lookup(t, k), k in d))
  {
    MergeMeans(MergeState(p, t, d, KErrNone), |t|, failAt);
    assert t[..|t|] == t;
  }

  /** The iteration that ends the merge: an insertion into the deleted list that is blocked, or
      an entry that needs memory when there is none. */
  predicate FailsAt(p: Option<Setting>, s: Setting, deleted: set<Key>, oom: bool) {
    || Blocked(p, s, deleted)
    || (oom && Changing(p, s) && (s.IsDeleted() ==> p.value.meta.backup))
  }

  lemma {:induction false} StepFails(m: MergeState, i: nat, oom: bool)
    requires Sorted(m.items) && i < |m.changes|
    ensures var e, s := MergeStep(m, i, oom).err, m.changes[i];
            && (e != KErrNone <==> FailsAt(Lookup(m.items, s.key), s, m.deleted, oom))
            && (e != KErrNone ==>
                  e == if Blocked(Lookup(m.items, s.key), s, m.deleted) then KErrAlreadyExists else KErrNoMemory)
  {
  }

  lemma {:induction false} FailureKeepsDeleted(m: MergeState, i: nat, oom: bool, k: Key)
    requires Sorted(m.items) && i < |m.changes| && MergeStep(m, i, oom).err != KErrNone
    ensures k in MergeStep(m, i, oom).deleted <==> k in m.deleted
  {
  }

  /** Where the merge of the first n entries stops, or -1. */
  function Stop(p: seq<Setting>, t: seq<Setting>, d: set<Key>, n: nat, failAt: int): (r: int)
    requires n <= |t|
    ensures -1 <= r < n
  {
    if n == 0 then -1
    else if FailsAt(Lookup(p, t[n - 1].key), t[n - 1], d, failAt == n - 1) then n - 1
    else Stop(p, t, d, n - 1, failAt)
  }

  /** It is the last entry that fails. */
  lemma {:induction false} StopIsLast(p: seq<Setting>, t: seq<Setting>, d: set<Key>, n: nat, failAt: int, i: nat)
    requires i < n <= |t|
    ensures var f := Stop(p, t, d, n, failAt);
            i >= f ==> (FailsAt(Lookup(p, t[i].key), t[i], d, failAt == i) <==> i == f)
  {
    if i < n - 1 { StopIsLast(p, t, d, n - 1, failAt, i); }
  }

  lemma EffectKeepsFails(m: MergeState, i: nat, m': MergeState, j: nat, oom: bool)
    requires Sorted(m.changes) && i < |m.changes| && j < i
    requires Effect(m, i, m')
    ensures m'.changes[j] == m.changes[j]
    ensures Blocked(Lookup(m'.items, m.changes[j].key), m.changes[j], m'.deleted)
        <==> Blocked(Lookup(m.items, m.changes[j].key), m.changes[j], m.deleted)
    ensures FailsAt(Lookup(m'.items, m.changes[j].key), m.changes[j], m'.deleted, oom)
        <==> FailsAt(Lookup(m.items, m.changes[j].key), m.changes[j], m.deleted, oom)
  {
    assert m'.changes[..i][j] == m.changes[..i][j];
  }

  lemma {:induction false} EffectKeepsStop(m: MergeState, i: nat, m': MergeState, n: nat, failAt: int)
    requires Sorted(m.changes) && n <= i < |m.changes| && Effect(m, i, m')
    ensures Stop(m'.items, m'.changes, m'.deleted, n, failAt) == Stop(m.items, m.changes, m.deleted, n, failAt)
    decreases n
  {
    if n > 0 {
      EffectKeepsFails(m, i, m', n - 1, failAt == n - 1);
      EffectKeepsStop(m, i, m', n - 1, failAt);
    }
  }

  /** The entry for a key, if it is one of those from f + 1 to n - 1. */
  function Effective(t: seq<Setting>, f: int, n: nat, k: Key): (r: Option<Setting>)
    requires -1 <= f && n <= |t|
  {
    var i := FindIndex(t, k);
    if f < i < n then Some(t[i]) else None
  }

  lemma {:induction false} SameIndex(t: seq<Setting>, t': seq<Setting>, n: nat, k: Key)
    requires Sorted(t) && Sorted(t') && n <= |t| && n <= |t'| && t'[..n] == t[..n]
    ensures 0 <= FindIndex(t, k) < n || 0 <= FindIndex(t', k) < n ==> FindIndex(t, k) == FindIndex(t', k)
  {
    var i, j := FindIndex(t, k), FindIndex(t', k);
    if 0 <= i < n { assert t'[..n][i] == t[..n][i]; }
    if 0 <= j < n { assert t'[..n][j] == t[..n][j]; }
  }

  lemma {:induction false} EffectiveBefore(t: seq<Setting>, t': seq<Setting>, f: int, n: nat, k: Key)
    requires Sorted(t) && Sorted(t') && -1 <= f < n - 1 < |t| && n - 1 <= |t'| && t'[..n - 1] == t[..n - 1]
    ensures k != t[n - 1].key ==> Effective(t', f, n - 1, k) == Effective(t, f, n, k)
    ensures k == t[n - 1].key ==> Effective(t', f, n - 1, k) == None && Effective(t, f, n, k) == Some(t[n - 1])
  {
    var i, j := FindIndex(t, k), FindIndex(t', k);
    SameIndex(t, t', n - 1, k);
    if 0 <= j < n - 1 { assert t'[..n - 1][j] == t[..n - 1][j]; }
  }

  /** The merge of the first n entries has stopped at f, or nowhere, in r. */
  ghost predicate Ended(m: MergeState, n: nat, f: int, k: Key, r: MergeState)
    requires n <= |m.changes| && (f == -1 || 0 <= f < n)
  {
    && (r.err != KErrNone <==> f >= 0)
    && (f >= 0 ==> r.err == if Blocked(Lookup(m.items, m.changes[f].key), m.changes[f], m.deleted)
                            then KErrAlreadyExists else KErrNoMemory)
    && (k in r.deleted <==> ListedAfter(Lookup(m.items, k), Effective(m.changes, f, n, k), k in m.deleted))
  }

  lemma {:induction false} EndedHere(m: MergeState, n: nat, k: Key, r: MergeState)
    requires 0 < n <= |m.changes| && (k in r.deleted <==> k in m.deleted)
    requires r.err == if Blocked(Lookup(m.items, m.changes[n - 1].key), m.changes[n - 1], m.deleted)
                      then KErrAlreadyExists else KErrNoMemory
    ensures Ended(m, n, n - 1, k, r)
  {
  }

  lemma {:induction false} EndedMore(m: MergeState, m': MergeState, n: nat, f: int, k: Key, r: MergeState)
    requires Sorted(m.changes) && -1 <= f < n - 1 < |m.changes| && Effect(m, n - 1, m')
    requires Ended(m', n - 1, f, k, r)
    ensures Ended(m, n, f, k, r)
  {
    if f >= 0 { EffectKeepsFails(m, n - 1, m', f, false); }
    EffectiveBefore(m.changes, m'.changes, f, n, k);
  }

  /** Whether and why the merge fails, and the list it then leaves: only the entries after the one
      it stopped at have had their effect. */
  lemma {:induction false} MergeStops(m: MergeState, n: nat, failAt: int, k: Key)
    requires Sorted(m.items) && Sorted(m.changes) && n <= |m.changes| && m.err == KErrNone
    ensures Ended(m, n, Stop(m.items, m.changes, m.deleted, n, failAt), k, MergeFrom(m, n, failAt))
    decreases n
  {
    if n > 0 {
      var oom := failAt == n - 1;
      var m' := MergeStep(m, n - 1, oom);
      var f := Stop(m.items, m.changes, m.deleted, n, failAt);
      StepFails(m, n - 1, oom);
      if m'.err != KErrNone {
        FailureKeepsDeleted(m, n - 1, oom, k);
        EndedHere(m, n, k, m');
      } else {
        StepEffect(m, n - 1, oom);
        EffectKeepsStop(m, n - 1, m', n - 1, failAt);
        MergeStops(m', n - 1, failAt, k);
        EndedMore(m, m', n, f, k, MergeFrom(m', n - 1, failAt));
      }
    }
  }

  /** The entry for a key, if it has had its effect when the merge ends. */
  function Processed(p: seq<Setting>, t: seq<Setting>, d: set<Key>, failAt: int, k: Key): Option<Setting> {
    Effective(t, Stop(p, t, d, |t|, failAt), |t|, k)
  }

  /** The deleted list after any merge, failed or not, at one key. */
  lemma {:induction false} DeletedAfterMerge(p: seq<Setting>, t: seq<Setting>, d: set<Key>, failAt: int, k: Key)
    requires Sorted(p) && Sorted(t)
    ensures var r := MergeAll(p, t, d, failAt);
            && (k in r.deleted <==> ListedAfter(Lookup(p, k), Processed(p, t, d, failAt, k), k in d))
            && (r.err == KErrNone ==> Processed(p, t, d, failAt, k) == Lookup(t, k))
  {
    MergeStops(MergeState(p, t, d, KErrNone), |t|, failAt, k);
  }

  ghost predicate AnyBlocked(m: MergeState, n: nat)
    requires n <= |m.changes|
  {
    exists i :: 0 <= i < n && Blocked(Lookup(m.items, m.changes[i].key), m.changes[i], m.deleted)
  }

  /** Without a memory failure the merge fails exactly when an entry is blocked. */
  lemma {:induction false} MergeFailsIffBlocked(m: MergeState, n: nat)
    requires Sorted(m.items) && Sorted(m.changes) && n <= |m.changes| && m.err == KErrNone
    ensures MergeFrom(m, n, -1).err != KErrNone <==> AnyBlocked(m, n)
    ensures AnyBlocked(m, n) ==> MergeFrom(m, n, -1).err == KErrAlreadyExists
  {
    MergeStops(m, n, -1, 0);
    var f := Stop(m.items, m.changes, m.deleted, n, -1);
    if f >= 0 { StopIsLast(m.items, m.changes, m.deleted, n, -1, f); }
    if i :| 0 <= i < n && Blocked(Lookup(m.items, m.changes[i].key), m.changes[i], m.deleted) {
      StopIsLast(m.items, m.changes, m.deleted, n, -1, i);
    }
  }
}

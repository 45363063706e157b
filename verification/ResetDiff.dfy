/** What a reset to default contents changes, and does to the repository, as functions
    (cenrepsrv/shrepos.cpp ResetAllNoPersistL, srvsubsess.cpp ResetAllL). */
module ResetDiff {
  import opened Errors
  import opened Settings
  import opened Merge
  import opened Locks
  import opened Transactions
  import opened Commits

  /** The key is in one array only, or in both with different settings. */
  predicate Differs(incoming: Option<Setting>, stale: Option<Setting>) {
    if incoming.Some? && stale.Some? then !Same(incoming.value, stale.value) else incoming != stale
  }

  /** Settings of the same key count as different when their values are, but for one case:
      an integer zero that comes in for an empty string goes unnoticed. */
  lemma DiffersOnValues(incoming: Setting, stale: Setting)
    requires !incoming.IsDeleted() && !stale.IsDeleted()
    ensures Differs(Some(incoming), Some(stale))
       <==> incoming.value != stale.value && !(incoming.value == Int(0) && stale.value == Str(""))
  {
  }

  /** The keys are those on which the arrays differ, each once, in order. */
  ghost predicate Told(keys: seq<Key>, incoming: seq<Setting>, stale: seq<Setting>) {
    && (forall i, j :: 0 <= i < j < |keys| ==> keys[i] < keys[j])
    && (forall k: Key :: k in keys <==> Differs(Lookup(incoming, k), Lookup(stale, k)))
  }

  predicate Below(s: seq<Setting>, k: Key) {
    forall x :: x in s ==> x.key < k
  }

  /** Settings with one more key, above all the others, in one array or both. */
  lemma ToldMore(keys: seq<Key>, f: seq<Setting>, s: seq<Setting>, f': seq<Setting>, s': seq<Setting>, key: Key)
    requires Told(keys, f, s) && Below(f, key) && Below(s, key)
    requires f' == f || (f' != [] && f == f'[..|f'| - 1] && f'[|f'| - 1].key == key)
    requires s' == s || (s' != [] && s == s'[..|s'| - 1] && s'[|s'| - 1].key == key)
    ensures Told(if Differs(Lookup(f', key), Lookup(s', key)) then keys + [key] else keys, f', s')
  {
    var keys' := if Differs(Lookup(f', key), Lookup(s', key)) then keys + [key] else keys;
    assert Lookup(f, key) == None && Lookup(s, key) == None;
    forall k | k in keys ensures k < key {
      assert Differs(Lookup(f, k), Lookup(s, k));
    }
    forall k: Key ensures k in keys' <==> Differs(Lookup(f', k), Lookup(s', k)) {
      if k != key {
        assert Lookup(f', k) == Lookup(f, k) && Lookup(s', k) == Lookup(s, k);
        assert k in keys' <==> k in keys;
      } else {
        assert Differs(Lookup(f', k), Lookup(s', k)) ==> keys'[|keys|] == key;
      }
    }
    forall i, j | 0 <= i < j < |keys'| ensures keys'[i] < keys'[j] {
      if j == |keys| { assert keys'[i] in keys; }
    }
  }

  lemma BelowPrefix(s: seq<Setting>, n: nat, key: Key)
    requires Sorted(s) && n <= |s| && (n > 0 ==> s[n - 1].key < key)
    ensures Below(s[..n], key)
  {
    forall x | x in s[..n] ensures x.key < key {
      var i :| 0 <= i < n && s[i] == x;
    }
  }

  /** The scans before the last step, and the key that step looked at. */
  function Before(incoming: seq<Setting>, a: nat, stale: seq<Setting>, b: nat): (r: (nat, nat, Key))
    requires a <= |incoming| && b <= |stale| && (a, b) != (0, 0)
    ensures r.0 <= a && r.1 <= b && r.0 + r.1 < a + b
  {
    if b == 0 || (a > 0 && incoming[a - 1].key > stale[b - 1].key) then (a - 1, b, incoming[a - 1].key)
    else if a == 0 || incoming[a - 1].key < stale[b - 1].key then (a, b - 1, stale[b - 1].key)
    else (a - 1, b - 1, stale[b - 1].key)
  }

  /** What has been notified when the scans stand at a and b. */
  function DiffKeys(incoming: seq<Setting>, a: nat, stale: seq<Setting>, b: nat): seq<Key>
    requires a <= |incoming| && b <= |stale|
    decreases a + b
  {
    if (a, b) == (0, 0) then []
    else
      var (a', b', key) := Before(incoming, a, stale, b);
      var same := a' < a && b' < b && Same(incoming[a'], stale[b']);
      if same then DiffKeys(incoming, a', stale, b') else DiffKeys(incoming, a', stale, b') + [key]
  }

  lemma LookupAbove(s: seq<Setting>, n: nat, key: Key)
    requires Sorted(s) && n <= |s| && (n > 0 ==> s[n - 1].key < key)
    ensures Lookup(s[..n], key) == None
  {
  }

  lemma DiffKeysStep(incoming: seq<Setting>, a: nat, stale: seq<Setting>, b: nat)
    requires Sorted(incoming) && Sorted(stale) && a <= |incoming| && b <= |stale| && (a, b) != (0, 0)
    ensures var (a', b', key) := Before(incoming, a, stale, b);
            DiffKeys(incoming, a, stale, b)
            == if Differs(Lookup(incoming[..a], key), Lookup(stale[..b], key)) then DiffKeys(incoming, a', stale, b') + [key]
               else DiffKeys(incoming, a', stale, b')
  {
    var (a', b', key) := Before(incoming, a, stale, b);
    if a' == a { LookupAbove(incoming, a, key); } else { LookupPrefix(incoming, a, key); }
    if b' == b { LookupAbove(stale, b, key); } else { LookupPrefix(stale, b, key); }
  }

  lemma ToldStep(keys: seq<Key>, incoming: seq<Setting>, a: nat, stale: seq<Setting>, b: nat)
    requires Sorted(incoming) && Sorted(stale) && a <= |incoming| && b <= |stale| && (a, b) != (0, 0)
    requires var (a', b', _) := Before(incoming, a, stale, b); Told(keys, incoming[..a'], stale[..b'])
    ensures var key := Before(incoming, a, stale, b).2;
            Told(if Differs(Lookup(incoming[..a], key), Lookup(stale[..b], key)) then keys + [key] else keys,
                 incoming[..a], stale[..b])
  {
    var (a', b', key) := Before(incoming, a, stale, b);
    BelowPrefix(incoming, a', key);
    BelowPrefix(stale, b', key);
    assert incoming[..a][..a'] == incoming[..a'] && stale[..b][..b'] == stale[..b'];
    ToldMore(keys, incoming[..a'], stale[..b'], incoming[..a], stale[..b], key);
  }

  lemma {:induction false} DiffKeysTold(incoming: seq<Setting>, a: nat, stale: seq<Setting>, b: nat)
    requires Sorted(incoming) && Sorted(stale) && a <= |incoming| && b <= |stale|
    ensures Told(DiffKeys(incoming, a, stale, b), incoming[..a], stale[..b])
    decreases a + b
  {
    if (a, b) != (0, 0) {
      var (a', b', key) := Before(incoming, a, stale, b);
      DiffKeysTold(incoming, a', stale, b');
      DiffKeysStep(incoming, a, stale, b);
      ToldStep(DiffKeys(incoming, a', stale, b'), incoming, a, stale, b);
    }
  }

  /** The whole reset: everyone is locked out, the array is replaced, the file written. */
  function ResetRepo(r: Repo, incoming: seq<Setting>, env: Env): (Repo, int) {
    var told := DiffKeys(incoming, |incoming|, r.settings, |r.settings|);
    CommitChanges(r.(info := FailAll(r.info, -1), settings := incoming, deleted := {},
                     notified := r.notified + told), env)
  }

  lemma AllTold(incoming: seq<Setting>, stale: seq<Setting>)
    requires Sorted(incoming) && Sorted(stale)
    ensures Told(DiffKeys(incoming, |incoming|, stale, |stale|), incoming, stale)
  {
    DiffKeysTold(incoming, |incoming|, stale, |stale|);
    assert incoming[..|incoming|] == incoming && stale[..|stale|] == stale;
  }

  lemma AllLockedOut(s: Info)
    requires LockInv(s)
    ensures var r := FailAll(s, -1);
            LockInv(r) && !TransactionActive(r) && forall e :: e in r.queue ==> !e.Active()
  {
    FailAllMeans(s, -1);
    FailUpToBalances(s, |s.queue|, -1);
    FailUpToQueueOk(s, |s.queue|, -1);
    var r := FailAll(s, -1);
    forall e | e in r.queue ensures !e.Active() {
      var j :| 0 <= j < |r.queue| && r.queue[j] == e;
      assert WellFormed(s.queue[j]);
    }
  }

  /** A reset leaves nobody in an active transaction; the notified keys are exactly those whose
      settings differ; and either the file holds the new contents and no deleted keys, or it
      is as it was and memory will be reloaded. */
  lemma {:induction false} ResetEffect(r: Repo, incoming: seq<Setting>, env: Env)
    requires Valid(r) && Sorted(incoming) && Live(incoming)
    ensures var (r', err) := ResetRepo(r, incoming, env);
            var told := DiffKeys(incoming, |incoming|, r.settings, |r.settings|);
            && Valid(r') && (forall e :: e in r'.info.queue ==> !e.Active())
            && r'.notified == r.notified + told && Told(told, incoming, r.settings)
            && (if err == KErrNone then !r'.inconsistent && r'.disk == Disk(Some(File(incoming, {})), r.disk.defaults)
                else r'.inconsistent && r'.disk == r.disk)
  {
    AllLockedOut(r.info);
    SortedEntries(FailAll(r.info, -1).queue);
    AllTold(incoming, r.settings);
  }
}

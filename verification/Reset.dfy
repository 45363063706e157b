/** Resetting a whole repository to its default contents (cenrepsrv/shrepos.cpp
    ResetAllNoPersistL, srvrepos_noc.cpp and srvsubsess.cpp ResetAllL). */
module Reset {
  import opened Settings
  import opened Locks
  import opened Transactions
  import opened Commits
  import opened SharedRepository
  import opened ResetDiff

  /** Everything one scan has passed is below what the other has not. */
  predicate Abreast(incoming: seq<Setting>, a: nat, stale: seq<Setting>, b: nat) {
    && a <= |incoming| && b <= |stale|
    && (0 < b && a < |incoming| ==> stale[b - 1].key < incoming[a].key)
    && (0 < a && b < |stale| ==> incoming[a - 1].key < stale[b].key)
  }

  method Notify(repo: SharedRepository, key: Key, ghost before: seq<Key>, ghost told: seq<Key>)
    requires repo.notified == before + told
    modifies repo`notified
    ensures repo.notified == before + (told + [key])
  {
    repo.notified := repo.notified + [key];
  }

  /** The scans, notifying each key as they come to it: first until one array ends. */
  method NotifyWhileBoth(repo: SharedRepository, incoming: seq<Setting>) returns (newIndex: nat, index: nat)
    requires Sorted(incoming) && Sorted(repo.settings)
    modifies repo`notified
    ensures Abreast(incoming, newIndex, repo.settings, index)
    ensures newIndex == |incoming| || index == |repo.settings|
    ensures repo.notified == old(repo.notified) + DiffKeys(incoming, newIndex, repo.settings, index)
  {
    var stale := repo.settings;
    ghost var before := repo.notified;
    newIndex, index := 0, 0;
    while newIndex < |incoming| && index < |stale|
      invariant Abreast(incoming, newIndex, stale, index)
      invariant repo.notified == before + DiffKeys(incoming, newIndex, stale, index)
      decreases |incoming| - newIndex + |stale| - index
      modifies repo`notified
    {
      newIndex, index := NotifyLower(repo, incoming, newIndex, index, before);
    }
  }

  /** One turn: past the lower of two keys, or past both when they are equal. */
  method NotifyLower(repo: SharedRepository, incoming: seq<Setting>, a: nat, b: nat, ghost before: seq<Key>)
    returns (newIndex: nat, index: nat)
    requires Sorted(incoming) && Sorted(repo.settings) && Abreast(incoming, a, repo.settings, b)
    requires a < |incoming| && b < |repo.settings|
    requires repo.notified == before + DiffKeys(incoming, a, repo.settings, b)
    modifies repo`notified
    ensures Abreast(incoming, newIndex, repo.settings, index)
    ensures a <= newIndex && b <= index && a + b < newIndex + index
    ensures repo.notified == before + DiffKeys(incoming, newIndex, repo.settings, index)
  {
    newIndex, index := a, b;
    var newKey, key := incoming[newIndex].key, repo.settings[index].key;
    if newKey < key {
      Notify(repo, newKey, before, DiffKeys(incoming, newIndex, repo.settings, index));
      newIndex := newIndex + 1;
    } else if newKey == key {
      if !Same(incoming[newIndex], repo.settings[index]) {
        Notify(repo, key, before, DiffKeys(incoming, newIndex, repo.settings, index));
      }
      newIndex, index := newIndex + 1, index + 1;
    } else {
      Notify(repo, key, before, DiffKeys(incoming, newIndex, repo.settings, index));
      index := index + 1;
    }
  }

  /** Then to the end of the other. */
  method NotifyDifferences(repo: SharedRepository, incoming: seq<Setting>)
    requires Sorted(incoming) && Sorted(repo.settings)
    modifies repo`notified
    ensures repo.notified == old(repo.notified) + DiffKeys(incoming, |incoming|, repo.settings, |repo.settings|)
  {
    ghost var before := repo.notified;
    var newIndex, index := NotifyWhileBoth(repo, incoming);
    NotifyIncoming(repo, incoming, newIndex, index, before);
    NotifyStale(repo, incoming, index, before);
  }

  method NotifyIncoming(repo: SharedRepository, incoming: seq<Setting>, from: nat, index: nat, ghost before: seq<Key>)
    requires Sorted(incoming) && Sorted(repo.settings) && Abreast(incoming, from, repo.settings, index)
    requires from == |incoming| || index == |repo.settings|
    requires repo.notified == before + DiffKeys(incoming, from, repo.settings, index)
    modifies repo`notified
    ensures Abreast(incoming, |incoming|, repo.settings, index)
    ensures repo.notified == before + DiffKeys(incoming, |incoming|, repo.settings, index)
  {
    var newIndex := from;
    while newIndex < |incoming|
      invariant Abreast(incoming, newIndex, repo.settings, index)
      invariant newIndex == |incoming| || index == |repo.settings|
      invariant repo.notified == before + DiffKeys(incoming, newIndex, repo.settings, index)
      modifies repo`notified
    {
      Notify(repo, incoming[newIndex].key, before, DiffKeys(incoming, newIndex, repo.settings, index));
      newIndex := newIndex + 1;
    }
  }

  lemma PastStale(incoming: seq<Setting>, stale: seq<Setting>, b: nat)
    requires Sorted(incoming) && Sorted(stale) && b < |stale| && Abreast(incoming, |incoming|, stale, b)
    ensures DiffKeys(incoming, |incoming|, stale, b + 1) == DiffKeys(incoming, |incoming|, stale, b) + [stale[b].key]
    ensures Abreast(incoming, |incoming|, stale, b + 1)
  {
  }

  method NotifyStale(repo: SharedRepository, incoming: seq<Setting>, from: nat, ghost before: seq<Key>)
    requires Sorted(incoming) && Sorted(repo.settings) && Abreast(incoming, |incoming|, repo.settings, from)
    requires repo.notified == before + DiffKeys(incoming, |incoming|, repo.settings, from)
    modifies repo`notified
    ensures repo.notified == before + DiffKeys(incoming, |incoming|, repo.settings, |repo.settings|)
  {
    var index := from;
    while index < |repo.settings|
      invariant Abreast(incoming, |incoming|, repo.settings, index)
      invariant repo.notified == before + DiffKeys(incoming, |incoming|, repo.settings, index)
      modifies repo`notified
    {
      PastStale(incoming, repo.settings, index);
      Notify(repo, repo.settings[index].key, before, DiffKeys(incoming, |incoming|, repo.settings, index));
      index := index + 1;
    }
  }

  method ResetAllNoPersist(repo: SharedRepository, incoming: seq<Setting>)
    requires Sorted(incoming) && Sorted(repo.settings) && !TransactionActive(repo.info.State())
    modifies repo
    ensures Told(DiffKeys(incoming, |incoming|, old(repo.settings), |old(repo.settings)|), incoming, old(repo.settings))
    ensures repo.State() == old(repo.State()).(settings := incoming, deleted := {}, inconsistent := false,
              notified := old(repo.notified) + DiffKeys(incoming, |incoming|, old(repo.settings), |old(repo.settings)|))
  {
    repo.inconsistent := true;
    NotifyDifferences(repo, incoming);
    AllTold(incoming, repo.settings);
    repo.settings, repo.deleted := incoming, {};
    repo.inconsistent := false;
  }

  /** The whole reset, as a session outside a transaction asks for it. If the file cannot be
      written the observers have been told already. */
  method ResetAll(repo: SharedRepository, incoming: seq<Setting>, env: Env) returns (err: int)
    requires repo.info.Valid() && Transactions.Valid(repo.State()) && Sorted(incoming)
    modifies repo, repo.info`pess, repo.info`conc, repo.info.queue
    ensures (repo.State(), err) == ResetRepo(old(repo.State()), incoming, env)
  {
    LockOutAll(repo);
    ResetAllNoPersist(repo, incoming);
    err := repo.CommitToFile(env);
  }

  method LockOutAll(repo: SharedRepository)
    requires repo.info.Valid() && LockInv(repo.info.State())
    modifies repo.info`pess, repo.info`conc, repo.info.queue
    ensures repo.info.State() == FailAll(old(repo.info.State()), -1)
    ensures LockInv(repo.info.State()) && !TransactionActive(repo.info.State())
    ensures EntriesSorted(repo.info.State().queue)
    ensures forall e :: e in repo.info.State().queue ==> !e.Active()
  {
    ghost var s := repo.info.State();
    AllLockedOut(s);
    repo.FailAllTransactions(null, -1);
    SortedEntries(FailAll(s, -1).queue);
  }
}

/** The list of idle repositories of the cache, as a value (cenrepsrv/cachemgr.h, cachemgr.cpp). A
    repository may be on it twice, and may have been unloaded since. */
module IdleList {
  import opened Sequences
  import opened Settings
  import opened Locks
  import opened Transactions

  /** A repository in memory. Its size is measured once, when it is loaded. */
  class OpenRep {
    const uid: int
    const size: nat
    var settings: seq<Setting>
    var deleted: set<Key>
    var inconsistent: bool

    constructor (uid: int, size: nat, disk: Disk)
      ensures this.uid == uid && this.size == size && Mirrors(disk) && !inconsistent
    {
      this.uid, this.size := uid, size;
      settings, deleted, inconsistent := disk.Contents(), disk.Deleted(), false;
    }

    /** Memory equals the file, unless a reload is due. */
    ghost predicate Mirrors(disk: Disk)
      reads this
    {
      !inconsistent ==> settings == disk.Contents()
    }

    function AsRepo(disk: Disk): Repo
      reads this
    {
      Repo(settings, deleted, inconsistent, Info(0, 0, []), disk, [])
    }
  }

  /** An idle repository and the time at which it may be unloaded. */
  datatype Idle = Idle(time: int, rep: OpenRep)

  // ----- sizes -----

  function SumTo(s: seq<Idle>, n: nat): (r: nat)
    requires n <= |s|
  {
    if n == 0 then 0 else SumTo(s, n - 1) + s[n - 1].rep.size
  }

  function Sum(s: seq<Idle>): (r: nat) {
    SumTo(s, |s|)
  }

  lemma {:induction false} SumToWithout(s: seq<Idle>, i: nat, n: nat)
    requires i < |s| && n < |s|
    ensures SumTo(Without(s, i), n) == if n <= i then SumTo(s, n) else SumTo(s, n + 1) - s[i].rep.size
  {
    if n > 0 { SumToWithout(s, i, n - 1); }
  }

  lemma SumWithout(s: seq<Idle>, i: nat)
    requires i < |s|
    ensures Sum(Without(s, i)) == Sum(s) - s[i].rep.size
  {
    SumToWithout(s, i, |s| - 1);
  }

  lemma {:induction false} SumToInserted(s: seq<Idle>, i: nat, x: Idle, n: nat)
    requires i <= |s| && n <= |s| + 1
    ensures SumTo(Inserted(s, i, x), n) == if n <= i then SumTo(s, n) else SumTo(s, n - 1) + x.rep.size
  {
    if n > 0 { SumToInserted(s, i, x, n - 1); }
  }

  lemma SumInserted(s: seq<Idle>, i: nat, x: Idle)
    requires i <= |s|
    ensures Sum(Inserted(s, i, x)) == Sum(s) + x.rep.size
  {
    SumToInserted(s, i, x, |s| + 1);
  }

  lemma {:induction false} SumOfTwo(a: Idle, b: Idle)
    ensures Sum([a, b]) == a.rep.size + b.rep.size
  {
    var s := [a, b];
    assert SumTo(s, 2) == SumTo(s, 1) + b.rep.size == SumTo(s, 0) + a.rep.size + b.rep.size;
  }

  lemma {:induction false} SumSuffix(s: seq<Idle>, n: nat, k: nat)
    requires n + k <= |s|
    ensures SumTo(s[n..], k) == SumTo(s, n + k) - SumTo(s, n)
  {
    if k > 0 { SumSuffix(s, n, k - 1); }
  }

  /** One list is a rearrangement of the other. */
  predicate Rearranged(a: seq<Idle>, b: seq<Idle>) {
    multiset(a) == multiset(b)
  }

  lemma RearrangedLength(a: seq<Idle>, b: seq<Idle>)
    requires Rearranged(a, b)
    ensures |a| == |b|
  {
    assert |multiset(a)| == |a| && |multiset(b)| == |b|;
  }

  lemma {:induction false} SumRearranged(a: seq<Idle>, b: seq<Idle>)
    requires Rearranged(a, b)
    ensures Sum(a) == Sum(b)
    decreases |a|
  {
    RearrangedLength(a, b);
    if a != [] {
      var n := |a| - 1;
      assert a[n] in multiset(b);
      var i :| 0 <= i < |b| && b[i] == a[n];
      WithoutSlices(a, n);
      WithoutSlices(b, i);
      SumWithout(a, n);
      SumWithout(b, i);
      SumRearranged(Without(a, n), Without(b, i));
    }
  }

  // ----- whose entries -----

  predicate RepAt(s: seq<Idle>, i: nat, rep: OpenRep)
    requires i < |s|
  {
    s[i].rep == rep
  }

  predicate HasRep(s: seq<Idle>, rep: OpenRep) {
    exists i :: 0 <= i < |s| && RepAt(s, i, rep)
  }

  lemma HasRepIn(s: seq<Idle>, rep: OpenRep)
    ensures HasRep(s, rep) <==> exists x :: x in s && x.rep == rep
  {
    if HasRep(s, rep) {
      var i :| 0 <= i < |s| && RepAt(s, i, rep);
      assert s[i] in s;
    }
    if x :| x in s && x.rep == rep {
      var i :| 0 <= i < |s| && s[i] == x;
      assert RepAt(s, i, rep);
    }
  }

  lemma HasRepRearranged(a: seq<Idle>, b: seq<Idle>, rep: OpenRep)
    requires Rearranged(a, b)
    ensures HasRep(a, rep) <==> HasRep(b, rep)
  {
    HasRepIn(a, rep);
    HasRepIn(b, rep);
    assert forall x :: x in a <==> x in multiset(a);
    assert forall x :: x in b <==> x in multiset(b);
  }

  predicate Differ(s: seq<Idle>, i: nat, j: nat)
    requires i < |s| && j < |s|
  {
    s[i].rep != s[j].rep
  }

  predicate DistinctReps(s: seq<Idle>) {
    forall i, j :: 0 <= i < j < |s| ==> Differ(s, i, j)
  }

  lemma TwiceNotDistinct(s: seq<Idle>, x: Idle)
    requires multiset(s)[x] >= 2
    ensures !DistinctReps(s)
  {
    var i, j := TwiceOut(s, x);
    assert !Differ(s, i, j);
  }

  lemma DistinctRearranged(a: seq<Idle>, b: seq<Idle>)
    requires Rearranged(a, b) && DistinctReps(b)
    ensures DistinctReps(a)
  {
    forall i, j | 0 <= i < j < |a| ensures Differ(a, i, j) {
      if a[i] == a[j] {
        TwiceIn(a, i, j);
        TwiceNotDistinct(b, a[i]);
      } else {
        assert a[i] in multiset(b) && a[j] in multiset(b);
        var k :| 0 <= k < |b| && b[k] == a[i];
        var l :| 0 <= l < |b| && b[l] == a[j];
        assert if k < l then Differ(b, k, l) else Differ(b, l, k);
      }
    }
  }

  lemma DistinctWithout(s: seq<Idle>, i: nat)
    requires DistinctReps(s) && i < |s|
    ensures DistinctReps(Without(s, i)) && !HasRep(Without(s, i), s[i].rep)
  {
    var r := Without(s, i);
    forall a, b | 0 <= a < b < |r| ensures Differ(r, a, b) {
      assert Differ(s, if a < i then a else a + 1, if b < i then b else b + 1);
    }
    forall k | 0 <= k < |r| ensures !RepAt(r, k, s[i].rep) {
      assert if k < i then Differ(s, k, i) else Differ(s, i, k + 1);
    }
  }

  lemma DistinctInserted(s: seq<Idle>, at: nat, x: Idle)
    requires DistinctReps(s) && at <= |s|
    ensures DistinctReps(Inserted(s, at, x)) <==> !HasRep(s, x.rep)
  {
    var r := Inserted(s, at, x);
    if HasRep(s, x.rep) {
      var i :| 0 <= i < |s| && RepAt(s, i, x.rep);
      assert if i < at then !Differ(r, i, at) else !Differ(r, at, i + 1);
    } else {
      forall a, b | 0 <= a < b < |r| ensures Differ(r, a, b) {
        if a == at { assert !RepAt(s, b - 1, x.rep); }
        else if b == at { assert !RepAt(s, a, x.rep); }
        else { assert Differ(s, if a < at then a else a - 1, if b < at then b else b - 1); }
      }
    }
  }

  /** The last entry of a repository, or -1. */
  function LastTo(s: seq<Idle>, rep: OpenRep, n: nat): (r: int)
    requires n <= |s|
    ensures -1 <= r < n && (r >= 0 ==> s[r].rep == rep)
  {
    if n == 0 then -1 else if s[n - 1].rep == rep then n - 1 else LastTo(s, rep, n - 1)
  }

  lemma {:induction false} LastFound(s: seq<Idle>, rep: OpenRep, n: nat, i: nat)
    requires i < n <= |s| && s[i].rep == rep
    ensures i <= LastTo(s, rep, n)
  {
    if i < n - 1 { LastFound(s, rep, n - 1, i); }
  }

  lemma LastHas(s: seq<Idle>, rep: OpenRep)
    ensures HasRep(s, rep) <==> LastTo(s, rep, |s|) >= 0
  {
    if HasRep(s, rep) {
      var i :| 0 <= i < |s| && RepAt(s, i, rep);
      LastFound(s, rep, |s|, i);
    }
    if LastTo(s, rep, |s|) >= 0 { assert RepAt(s, LastTo(s, rep, |s|), rep); }
  }

  // ----- the order of the times -----

  predicate InOrder(s: seq<Idle>, i: nat, j: nat)
    requires i < |s| && j < |s|
  {
    s[i].time <= s[j].time
  }

  /** TimerEvictionSortOrder. */
  predicate TimeSorted(s: seq<Idle>) {
    forall i, j :: 0 <= i < j < |s| ==> InOrder(s, i, j)
  }

  lemma SortedWithout(s: seq<Idle>, i: nat)
    requires TimeSorted(s) && i < |s|
    ensures TimeSorted(Without(s, i))
  {
    var r := Without(s, i);
    forall a, b | 0 <= a < b < |r| ensures InOrder(r, a, b) {
      assert InOrder(s, if a < i then a else a + 1, if b < i then b else b + 1);
    }
  }

  lemma SortedSuffix(s: seq<Idle>, n: nat)
    requires TimeSorted(s) && n <= |s|
    ensures TimeSorted(s[n..])
  {
    forall a, b | 0 <= a < b < |s| - n ensures InOrder(s[n..], a, b) { assert InOrder(s, a + n, b + n); }
  }

  /** InsertInOrderAllowRepeats: behind everything that is not later. */
  function PlaceTo(s: seq<Idle>, time: int, n: nat): (r: nat)
    requires n <= |s|
    ensures r <= n && (r > 0 ==> s[r - 1].time <= time)
  {
    if n == 0 || s[n - 1].time <= time then n else PlaceTo(s, time, n - 1)
  }

  lemma {:induction false} PlaceBefore(s: seq<Idle>, time: int, n: nat, i: nat)
    requires i < n <= |s| && PlaceTo(s, time, n) <= i
    ensures s[i].time > time
  {
    if i < n - 1 { PlaceBefore(s, time, n - 1, i); }
  }

  function ByTime(s: seq<Idle>, x: Idle): seq<Idle> {
    Inserted(s, PlaceTo(s, x.time, |s|), x)
  }

  lemma ByTimeSorted(s: seq<Idle>, x: Idle)
    requires TimeSorted(s)
    ensures TimeSorted(ByTime(s, x))
  {
    var i, r := PlaceTo(s, x.time, |s|), ByTime(s, x);
    forall a, b | 0 <= a < b < |r| ensures InOrder(r, a, b) {
      if a == i {
        PlaceBefore(s, x.time, |s|, b - 1);
      } else if b != i {
        assert InOrder(s, if a < i then a else a - 1, if b < i then b else b - 1);
      } else if a < i - 1 {
        assert InOrder(s, a, i - 1);
      }
    }
  }

  method InsertByTime(s: seq<Idle>, x: Idle) returns (r: seq<Idle>)
    requires TimeSorted(s)
    ensures r == ByTime(s, x) && TimeSorted(r)
  {
    var i := |s|;
    while i > 0 && s[i - 1].time > x.time
      invariant 0 <= i <= |s| && PlaceTo(s, x.time, i) == PlaceTo(s, x.time, |s|)
    {
      i := i - 1;
    }
    ByTimeSorted(s, x);
    r := Inserted(s, i, x);
  }

  /** The first n entries, sorted. */
  function SortedTo(s: seq<Idle>, n: nat): (r: seq<Idle>)
    requires n <= |s|
    ensures |r| == n
  {
    if n == 0 then [] else ByTime(SortedTo(s, n - 1), s[n - 1])
  }

  lemma {:induction false} SortedToMeans(s: seq<Idle>, n: nat)
    requires n <= |s|
    ensures TimeSorted(SortedTo(s, n)) && Rearranged(SortedTo(s, n), s[..n])
  {
    if n > 0 {
      SortedToMeans(s, n - 1);
      var t := SortedTo(s, n - 1);
      ByTimeSorted(t, s[n - 1]);
      InsertedSlices(t, PlaceTo(t, s[n - 1].time, |t|), s[n - 1]);
      assert s[..n] == s[..n - 1] + [s[n - 1]];
    }
  }

  method SortByTime(s: seq<Idle>) returns (r: seq<Idle>)
    ensures r == SortedTo(s, |s|) && TimeSorted(r) && Rearranged(r, s)
  {
    r := [];
    for i := 0 to |s|
      invariant r == SortedTo(s, i) && TimeSorted(r)
    {
      SortedToMeans(s, i);
      r := InsertByTime(r, s[i]);
    }
    SortedToMeans(s, |s|);
    assert s[..|s|] == s;
  }

  lemma SortMeans(s: seq<Idle>)
    ensures TimeSorted(SortedTo(s, |s|)) && Rearranged(SortedTo(s, |s|), s)
  {
    SortedToMeans(s, |s|);
    assert s[..|s|] == s;
  }

  // ----- the open list -----

  predicate SameUid(s: seq<OpenRep>, i: nat, j: nat)
    requires i < |s| && j < |s|
  {
    s[i].uid == s[j].uid
  }

  predicate OneByUid(s: seq<OpenRep>) {
    forall i, j :: 0 <= i < j < |s| ==> !SameUid(s, i, j)
  }

  lemma UidNames(s: seq<OpenRep>)
    requires OneByUid(s)
    ensures forall a, b :: a in s && b in s && a.uid == b.uid ==> a == b
  {
    forall i, j | 0 <= i < j < |s| ensures s[i].uid != s[j].uid { assert !SameUid(s, i, j); }
  }

  lemma OneWithout(s: seq<OpenRep>, k: nat)
    requires OneByUid(s) && k < |s|
    ensures OneByUid(Without(s, k)) && forall r :: r in Without(s, k) <==> r in s && r != s[k]
  {
    var t := Without(s, k);
    forall i, j | 0 <= i < j < |t| ensures !SameUid(t, i, j) {
      assert !SameUid(s, if i < k then i else i + 1, if j < k then j else j + 1);
    }
    forall m | 0 <= m < |s| && m != k ensures s[m] != s[k] {
      assert if m < k then !SameUid(s, m, k) else !SameUid(s, k, m);
    }
    forall r | r in s && r != s[k] ensures r in t {
      var m :| 0 <= m < |s| && s[m] == r;
      assert t[if m < k then m else m - 1] == r;
    }
    forall m | 0 <= m < |t| ensures t[m] in s && t[m] != s[k] { assert t[m] == s[if m < k then m else m + 1]; }
  }

  /** Where a repository is in the open list, or -1. */
  function IndexFrom(s: seq<OpenRep>, rep: OpenRep, i: nat): (r: int)
    requires i <= |s|
    ensures -1 <= r < |s| && (r >= 0 ==> i <= r && s[r] == rep)
    decreases |s| - i
  {
    if i == |s| then -1 else if s[i] == rep then i else IndexFrom(s, rep, i + 1)
  }

  function IndexOf(s: seq<OpenRep>, rep: OpenRep): (r: int)
    ensures -1 <= r < |s| && (r >= 0 ==> s[r] == rep)
  {
    IndexFrom(s, rep, 0)
  }

  lemma {:induction false} IndexFound(s: seq<OpenRep>, rep: OpenRep, i: nat, j: nat)
    requires i <= j < |s| && s[j] == rep
    ensures i <= IndexFrom(s, rep, i) <= j
    decreases j - i
  {
    if i < j { IndexFound(s, rep, i + 1, j); }
  }

  lemma IndexIn(s: seq<OpenRep>, rep: OpenRep)
    ensures IndexOf(s, rep) >= 0 <==> rep in s
  {
    if rep in s {
      var j :| 0 <= j < |s| && s[j] == rep;
      IndexFound(s, rep, 0, j);
    }
  }

  lemma IndexIs(s: seq<OpenRep>, rep: OpenRep, j: nat)
    requires OneByUid(s) && j < |s| && s[j] == rep
    ensures IndexOf(s, rep) == j
  {
    IndexFound(s, rep, 0, j);
    forall m | 0 <= m < |s| && m != j ensures s[m] != rep {
      assert if m < j then !SameUid(s, m, j) else !SameUid(s, j, m);
    }
  }
}

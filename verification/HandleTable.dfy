/** The table of a database session's server objects, with its list of free entries threaded
    through it and a wrapping tag on each entry (sdbms/SD_SESS.CPP, SD_STD.H, SD_STD.INL). */
module HandleTable {
  import opened Errors

  const EDbsFree := 0
  const EDbsMaxType := 6
  const EIndexGranularity := 8
  const KDbsIndexLimit := 16384
  const MagicRange := 16

  type Kind = k: nat | 0 < k <= EDbsMaxType witness 1

  /** word is the object of an entry in use, and the next free entry of a free one. */
  datatype Entry = Entry(word: int, kind: nat, policy: bool, magic: nat)

  datatype Table = Table(entries: seq<Entry>, free: int)

  function MakeHandle(ix: int, magic: nat, kind: nat): int {
    (ix * MagicRange + magic) * 16 + kind
  }

  function IndexOf(handle: int): int { handle / 256 }

  /** Object: the entry a handle names, or None, which panics the client. */
  function Resolve(t: Table, handle: int): Option<nat> {
    var ix := IndexOf(handle);
    if 0 <= ix < |t.entries|
       && MakeHandle(ix, t.entries[ix].magic, t.entries[ix].kind) == handle
       && t.entries[ix].policy
    then Some(ix) else None
  }

  // ----- the free list -----

  /** Following the list from an entry visits l and ends at the end of the table. */
  predicate Follows(es: seq<Entry>, from: int, l: seq<int>)
    decreases |l|
  {
    if l == [] then from == |es|
    else l[0] == from && 0 <= from < |es| && es[from].kind == EDbsFree && Follows(es, es[from].word, l[1..])
  }

  /** l is every free entry, once. */
  ghost predicate AllFree(es: seq<Entry>, l: seq<int>) {
    && (forall i, j :: 0 <= i < j < |l| ==> l[i] != l[j])
    && (forall ix :: ix in l <==> 0 <= ix < |es| && es[ix].kind == EDbsFree)
  }

  ghost predicate FreeList(t: Table, l: seq<int>) {
    Follows(t.entries, t.free, l) && AllFree(t.entries, l)
  }

  ghost predicate Valid(t: Table) {
    && |t.entries| <= KDbsIndexLimit
    && (forall i :: 0 <= i < |t.entries| ==> t.entries[i].kind <= EDbsMaxType)
    && exists l :: FreeList(t, l)
  }

  lemma {:induction false} FollowsFrame(es: seq<Entry>, es': seq<Entry>, from: int, l: seq<int>)
    requires Follows(es, from, l) && |es'| == |es|
    requires forall ix :: ix in l && 0 <= ix < |es| ==> es'[ix] == es[ix]
    ensures Follows(es', from, l)
    decreases |l|
  {
    if l != [] {
      assert l[0] in l;
      FollowsFrame(es, es', es[from].word, l[1..]);
    }
  }

  // ----- growing -----

  /** The entries AllocL adds: chained in order, the memory they take having any old tags. */
  function Grown(es: seq<Entry>, size: nat, junk: seq<nat>): (r: seq<Entry>)
    requires |es| <= size && |junk| == size - |es|
    ensures |r| == size && r[..|es|] == es
    ensures forall i :: |es| <= i < size ==> r[i] == Entry(i + 1, EDbsFree, false, junk[i - |es|])
  {
    es + seq(size - |es|, i requires 0 <= i < size - |es| => Entry(|es| + i + 1, EDbsFree, false, junk[i]))
  }

  /** What ReAllocL finds in the new entries, or None when it fails. */
  predicate Memory(junk: Option<seq<nat>>) {
    junk.Some? ==> |junk.value| == EIndexGranularity
  }

  function Alloc(t: Table, junk: Option<seq<nat>>): (Table, int)
    requires Memory(junk)
  {
    if t.free != |t.entries| then (t, KErrNone)
    else if |t.entries| + EIndexGranularity > KDbsIndexLimit || junk == None then (t, KErrNoMemory)
    else (Table(Grown(t.entries, |t.entries| + EIndexGranularity, junk.value), t.free), KErrNone)
  }

  function Chain(from: int, to: int): (r: seq<int>)
    requires from <= to
    ensures |r| == to - from && forall i :: 0 <= i < |r| ==> r[i] == from + i
  {
    seq(to - from, i => from + i)
  }

  lemma {:induction false} ChainFollows(es: seq<Entry>, from: nat)
    requires from <= |es|
    requires forall i :: from <= i < |es| ==> es[i].kind == EDbsFree && es[i].word == i + 1
    ensures Follows(es, from, Chain(from, |es|))
    decreases |es| - from
  {
    if from < |es| {
      ChainFollows(es, from + 1);
      assert Chain(from, |es|)[1..] == Chain(from + 1, |es|);
    }
  }

  /** The table grows only when no entry is free; afterwards one is, and no object has moved. */
  lemma AllocKeeps(t: Table, junk: Option<seq<nat>>)
    requires Valid(t) && Memory(junk)
    ensures var (t', err) := Alloc(t, junk);
            && Valid(t')
            && |t'.entries| >= |t.entries| && t'.entries[..|t.entries|] == t.entries
            && (|t'.entries| > |t.entries| ==> forall ix :: 0 <= ix < |t.entries| ==> t.entries[ix].kind != EDbsFree)
            && (err == KErrNone <==> 0 <= t'.free < |t'.entries|)
            && (err == KErrNone ==> t'.entries[t'.free].kind == EDbsFree)
            && (err != KErrNone ==> t' == t && (|t.entries| > KDbsIndexLimit - EIndexGranularity || junk == None))
  {
    var l: seq<int> :| FreeList(t, l);
    var (t', err) := Alloc(t, junk);
    if t.free == |t.entries| {
      assert l == [];
      if err == KErrNone {
        var n := |t.entries|;
        ChainFollows(t'.entries, n);
        var l' := Chain(n, |t'.entries|);
        forall ix ensures ix in l' <==> 0 <= ix < |t'.entries| && t'.entries[ix].kind == EDbsFree {
          if 0 <= ix < n { assert t'.entries[..n][ix] == t.entries[ix]; }
          if n <= ix < |t'.entries| { assert l'[ix - n] == ix; }
        }
        assert FreeList(t', l');
        forall ix | 0 <= ix < |t'.entries| ensures t'.entries[ix].kind <= EDbsMaxType {
          if ix < n { assert t'.entries[..n][ix] == t.entries[ix]; }
        }
      }
    } else {
      assert FreeList(t', l);
    }
  }

  // ----- adding and freeing -----

  function Added(e: Entry, obj: int, kind: Kind, policy: bool): Entry {
    Entry(obj, kind, policy, (e.magic + 1) % MagicRange)
  }

  function Add(t: Table, obj: int, kind: Kind, policy: bool): (Table, int)
    requires 0 <= t.free < |t.entries|
  {
    var e := t.entries[t.free];
    var e' := Added(e, obj, kind, policy);
    (Table(t.entries[t.free := e'], e.word), MakeHandle(t.free, e'.magic, kind))
  }

  function FreeEntry(t: Table, ix: nat): Table
    requires ix < |t.entries|
  {
    Table(t.entries[ix := Entry(t.free, EDbsFree, false, t.entries[ix].magic)], ix)
  }

  /** A free entry is there to be used, and the entries in use keep their objects. */
  lemma AddKeeps(t: Table, obj: int, kind: Kind, policy: bool)
    requires Valid(t) && 0 <= t.free < |t.entries|
    ensures t.entries[t.free].kind == EDbsFree
    ensures Valid(Add(t, obj, kind, policy).0)
  {
    var l: seq<int> :| FreeList(t, l);
    var t' := Add(t, obj, kind, policy).0;
    var rest := l[1..];
    assert l == [t.free] + rest;
    FollowsFrame(t.entries, t'.entries, t'.free, rest);
    forall ix ensures ix in rest <==> 0 <= ix < |t'.entries| && t'.entries[ix].kind == EDbsFree {
      assert ix in l <==> ix == t.free || ix in rest;
    }
    assert FreeList(t', rest);
  }

  lemma FreeKeeps(t: Table, ix: nat)
    requires Valid(t) && ix < |t.entries| && t.entries[ix].kind != EDbsFree
    ensures Valid(FreeEntry(t, ix))
  {
    var l: seq<int> :| FreeList(t, l);
    var t' := FreeEntry(t, ix);
    var l': seq<int> := [ix] + l;
    FollowsFrame(t.entries, t'.entries, t.free, l);
    assert l'[1..] == l;
    forall k ensures k in l' <==> 0 <= k < |t'.entries| && t'.entries[k].kind == EDbsFree {
      assert k in l' <==> k == ix || k in l;
    }
    assert FreeList(t', l');
  }

  // ----- handles -----

  predicate Live(t: Table, ix: int) {
    0 <= ix < |t.entries| && t.entries[ix].kind != EDbsFree
  }

  function HandleOf(t: Table, ix: nat): int
    requires ix < |t.entries|
  {
    MakeHandle(ix, t.entries[ix].magic, t.entries[ix].kind)
  }

  /** A handle is its index, tag and type, and nothing else. */
  lemma HandleFields(ix: nat, magic: nat, kind: nat, ix': nat, magic': nat, kind': nat)
    requires magic < MagicRange && magic' < MagicRange && kind < 16 && kind' < 16
    ensures MakeHandle(ix, magic, kind) == MakeHandle(ix', magic', kind') <==> (ix, magic, kind) == (ix', magic', kind')
    ensures IndexOf(MakeHandle(ix, magic, kind)) == ix
  {
  }

  /** No live entry has the handle that stands for the session itself. */
  lemma NotTheSession(ix: nat, magic: nat, kind: Kind)
    requires magic < MagicRange
    ensures MakeHandle(ix, magic, kind) != MakeHandle(KDbsIndexLimit / 2, 0, EDbsFree)
  {
    HandleFields(ix, magic, kind, KDbsIndexLimit / 2, 0, EDbsFree);
  }

  // ----- runs -----

  datatype Op =
    | NewObject(obj: int, kind: Kind, policy: bool, junk: Option<seq<nat>>)
    | CloseObject(ix: nat)

  /** A request that may return an object makes room first; a close has found its entry. */
  ghost predicate Step(t: Table, op: Op, t': Table) {
    match op
    case NewObject(obj, kind, policy, junk) =>
      && Memory(junk)
      && var (t1, err) := Alloc(t, junk);
         if err != KErrNone then t' == t1
         else 0 <= t1.free < |t1.entries| && t' == Add(t1, obj, kind, policy).0
    case CloseObject(ix) => Live(t, ix) && t' == FreeEntry(t, ix)
  }

  /** Whether the step puts an object into entry ix. */
  predicate Uses(t: Table, op: Op, ix: nat) {
    op.NewObject? && t.free == ix
    && (t.free != |t.entries| || (|t.entries| + EIndexGranularity <= KDbsIndexLimit && op.junk.Some?))
  }

  ghost predicate Run(ts: seq<Table>, ops: seq<Op>) {
    && |ts| == |ops| + 1 && ts[0] == Table([], 0)
    && forall i :: 0 <= i < |ops| ==> StepAt(ts, ops, i)
  }

  ghost predicate StepAt(ts: seq<Table>, ops: seq<Op>, i: nat)
    requires |ts| == |ops| + 1 && i < |ops|
  {
    Step(ts[i], ops[i], ts[i + 1])
  }

  lemma StepKeeps(t: Table, op: Op, t': Table)
    requires Valid(t) && Step(t, op, t')
    ensures Valid(t')
  {
    match op
    case NewObject(obj, kind, policy, junk) =>
      AllocKeeps(t, junk);
      if Alloc(t, junk).1 == KErrNone { AddKeeps(Alloc(t, junk).0, obj, kind, policy); }
    case CloseObject(ix) => FreeKeeps(t, ix);
  }

  lemma {:induction false} RunKeeps(ts: seq<Table>, ops: seq<Op>, n: nat)
    requires Run(ts, ops) && n < |ts|
    ensures Valid(ts[n])
  {
    if n == 0 {
      assert FreeList(ts[0], []);
    } else {
      RunKeeps(ts, ops, n - 1);
      assert StepAt(ts, ops, n - 1);
      StepKeeps(ts[n - 1], ops[n - 1], ts[n]);
    }
  }

  /** How often entry ix is given an object in steps i to j - 1. */
  function Reuses(ts: seq<Table>, ops: seq<Op>, ix: nat, i: nat, j: nat): nat
    requires i <= j <= |ops| < |ts|
    decreases j
  {
    if i == j then 0
    else Reuses(ts, ops, ix, i, j - 1) + if Uses(ts[j - 1], ops[j - 1], ix) then 1 else 0
  }

  /** What one step does to an entry that exists. */
  lemma StepEntry(t: Table, op: Op, t': Table, ix: nat)
    requires Valid(t) && Step(t, op, t') && ix < |t.entries|
    ensures ix < |t'.entries|
    ensures t'.entries[ix].magic == if Uses(t, op, ix) then (t.entries[ix].magic + 1) % MagicRange else t.entries[ix].magic
    ensures Uses(t, op, ix) ==> t.entries[ix].kind == EDbsFree && t'.entries[ix].kind != EDbsFree
    ensures !Uses(t, op, ix) && Live(t', ix) ==> t'.entries[ix] == t.entries[ix]
  {
    match op
    case NewObject(obj, kind, policy, junk) =>
      AllocKeeps(t, junk);
      var (t1, err) := Alloc(t, junk);
      assert t1.entries[..|t.entries|][ix] == t.entries[ix];
      if err == KErrNone { AddKeeps(t1, obj, kind, policy); }
    case CloseObject(_) =>
  }

  lemma CountMore(x: nat, n: nat, more: bool)
    ensures var m := (x + n) % MagicRange;
            (if more then (m + 1) % MagicRange else m) == (x + (n + if more then 1 else 0)) % MagicRange
  {
  }

  lemma {:induction false} TagCounts(ts: seq<Table>, ops: seq<Op>, ix: nat, i: nat, j: nat)
    requires Run(ts, ops) && i <= j <= |ops| && ix < |ts[i].entries| && ts[i].entries[ix].magic < MagicRange
    ensures ix < |ts[j].entries|
    ensures ts[j].entries[ix].magic == (ts[i].entries[ix].magic + Reuses(ts, ops, ix, i, j)) % MagicRange
    ensures Reuses(ts, ops, ix, i, j) == 0 && Live(ts[j], ix) ==> ts[j].entries[ix] == ts[i].entries[ix]
    decreases j
  {
    if i < j {
      TagCounts(ts, ops, ix, i, j - 1);
      RunKeeps(ts, ops, j - 1);
      assert StepAt(ts, ops, j - 1);
      StepEntry(ts[j - 1], ops[j - 1], ts[j], ix);
      CountMore(ts[i].entries[ix].magic, Reuses(ts, ops, ix, i, j - 1), Uses(ts[j - 1], ops[j - 1], ix));
    }
  }

  /** A step gives entry ix an object of a type, and its handle is h. */
  ghost predicate Issued(ts: seq<Table>, ops: seq<Op>, i: nat, ix: nat, h: int)
    requires |ts| == |ops| + 1
  {
    && i < |ops| && Uses(ts[i], ops[i], ix)
    && ix < |ts[i + 1].entries| && h == HandleOf(ts[i + 1], ix)
  }

  lemma UsedEntry(t: Table, op: Op, t': Table, ix: nat)
    requires Valid(t) && Step(t, op, t') && Uses(t, op, ix)
    ensures ix < |t'.entries|
    ensures t'.entries[ix] == Entry(op.obj, op.kind, op.policy, t'.entries[ix].magic)
    ensures t'.entries[ix].magic < MagicRange
  {
    AllocKeeps(t, op.junk);
  }

  /** Freshness, exactly. A handle that step i issued for an entry is accepted in a later state
      if and only if the entry is in use, by an object with a policy and of the same type, and
      has been used again a multiple of sixteen times since. */
  lemma HandleResolvesIff(ts: seq<Table>, ops: seq<Op>, i: nat, j: nat, ix: nat, h: int)
    requires Run(ts, ops) && i < j <= |ops| && Issued(ts, ops, i, ix, h)
    ensures Resolve(ts[j], h) == Some(ix)
       <==> Live(ts[j], ix) && ts[j].entries[ix].policy && ts[j].entries[ix].kind == ops[i].kind
            && Reuses(ts, ops, ix, i + 1, j) % MagicRange == 0
    ensures Resolve(ts[j], h) == Some(ix) || Resolve(ts[j], h) == None
  {
    var i' := i + 1;
    RunKeeps(ts, ops, i);
    assert StepAt(ts, ops, i);
    UsedEntry(ts[i], ops[i], ts[i'], ix);
    TagCounts(ts, ops, ix, i', j);
    RunKeeps(ts, ops, j);
    var e, e' := ts[i'].entries[ix], ts[j].entries[ix];
    HandleFields(ix, e.magic, e.kind, ix, e'.magic, e'.kind);
    SameTag(e.magic, Reuses(ts, ops, ix, i', j));
  }

  lemma SameTag(magic: nat, n: nat)
    requires magic < MagicRange
    ensures (magic + n) % MagicRange == magic <==> n % MagicRange == 0
  {
  }

  /** So a stale handle is rejected until its entry has been used again sixteen times, and a
      good one names its own object until the entry is freed. */
  lemma StaleHandleRejected(ts: seq<Table>, ops: seq<Op>, i: nat, j: nat, ix: nat, h: int)
    requires Run(ts, ops) && i < j <= |ops| && Issued(ts, ops, i, ix, h)
    requires Reuses(ts, ops, ix, i + 1, j) < MagicRange
    ensures Resolve(ts[j], h).Some? ==>
              Resolve(ts[j], h) == Some(ix) && ts[j].entries[ix] == ts[i + 1].entries[ix]
              && ts[j].entries[ix].word == ops[i].obj
  {
    HandleResolvesIff(ts, ops, i, j, ix, h);
    var i' := i + 1;
    RunKeeps(ts, ops, i);
    assert StepAt(ts, ops, i);
    UsedEntry(ts[i], ops[i], ts[i'], ix);
    TagCounts(ts, ops, ix, i', j);
  }

  /** Two live entries never share a handle, whatever their tags were to begin with. */
  lemma {:induction false} LiveTags(ts: seq<Table>, ops: seq<Op>, n: nat, ix: nat)
    requires Run(ts, ops) && n < |ts| && Live(ts[n], ix)
    ensures ts[n].entries[ix].magic < MagicRange
  {
    if n > 0 {
      RunKeeps(ts, ops, n - 1);
      assert StepAt(ts, ops, n - 1);
      var t, t' := ts[n - 1], ts[n];
      if Uses(t, ops[n - 1], ix) {
        UsedEntry(t, ops[n - 1], t', ix);
      } else {
        NotUsed(t, ops[n - 1], t', ix);
        StepEntry(t, ops[n - 1], t', ix);
        LiveTags(ts, ops, n - 1, ix);
      }
    }
  }

  lemma NotUsed(t: Table, op: Op, t': Table, ix: nat)
    requires Valid(t) && Step(t, op, t') && Live(t', ix) && !Uses(t, op, ix)
    ensures ix < |t.entries|
  {
    if op.NewObject? { AllocKeeps(t, op.junk); }
  }

  lemma LiveHandlesDistinct(ts: seq<Table>, ops: seq<Op>, n: nat, ix: nat, ix': nat)
    requires Run(ts, ops) && n < |ts| && Live(ts[n], ix) && Live(ts[n], ix')
    ensures HandleOf(ts[n], ix) == HandleOf(ts[n], ix') <==> ix == ix'
  {
    LiveTags(ts, ops, n, ix);
    LiveTags(ts, ops, n, ix');
    RunKeeps(ts, ops, n);
    var e, e' := ts[n].entries[ix], ts[n].entries[ix'];
    HandleFields(ix, e.magic, e.kind, ix', e'.magic, e'.kind);
  }

  // ----- the session object -----

  class Session {
    var entries: seq<Entry>
    var free: int

    function State(): Table
      reads this
    {
      Table(entries, free)
    }

    constructor ()
      ensures State() == Table([], 0)
    {
      entries, free := [], 0;
    }

    /** ReAllocL leaves old memory in the new entries; the loop chains them. */
    method AllocL(junk: Option<seq<nat>>) returns (err: int)
      requires Valid(State()) && Memory(junk)
      modifies this
      ensures (State(), err) == Alloc(old(State()), junk)
    {
      if free == |entries| {
        var size := |entries| + EIndexGranularity;
        if size > KDbsIndexLimit || junk == None { return KErrNoMemory; }
        var found := junk.value;
        ghost var es := entries;
        entries := entries + seq(EIndexGranularity, i requires 0 <= i < EIndexGranularity => Entry(0, 0, false, found[i]));
        var ii := free;
        while ii < size
          invariant free == |es| <= ii <= size == |entries| && entries[..|es|] == es
          invariant forall i :: |es| <= i < ii ==> entries[i] == Entry(i + 1, EDbsFree, false, found[i - |es|])
          invariant forall i :: ii <= i < size ==> entries[i].magic == found[i - |es|]
          modifies this`entries
        {
          entries := entries[ii := Entry(ii + 1, EDbsFree, false, entries[ii].magic)];
          ii := ii + 1;
        }
        assert entries == Grown(es, size, found);
      }
      return KErrNone;
    }

    method DoAdd(obj: int, kind: Kind, policy: bool) returns (handle: int)
      requires Valid(State()) && 0 <= free < |entries|
      modifies this
      ensures (State(), handle) == Add(old(State()), obj, kind, policy)
    {
      var ix := free;
      var e := entries[ix];
      AddKeeps(State(), obj, kind, policy);
      assert e.kind == EDbsFree;
      free := e.word;
      var magic := (e.magic + 1) % MagicRange;
      entries := entries[ix := Entry(obj, kind, policy, magic)];
      return MakeHandle(ix, magic, kind);
    }

    method Free(ix: nat)
      requires Valid(State()) && Live(State(), ix)
      modifies this
      ensures State() == FreeEntry(old(State()), ix)
    {
      var e := entries[ix];
      entries := entries[ix := Entry(free, EDbsFree, false, e.magic)];
      free := ix;
    }

    method Object(handle: int) returns (e: Option<nat>)
      ensures e == Resolve(State(), handle)
    {
      e := None;
      var ix := IndexOf(handle);
      if 0 <= ix < |entries| {
        if MakeHandle(ix, entries[ix].magic, entries[ix].kind) == handle { e := Some(ix); }
      }
      if e.Some? && !entries[e.value].policy { e := None; }
    }

    method CountResources() returns (alloc: nat)
      ensures alloc == |set ix: int | 0 <= ix < |entries| && entries[ix].kind != EDbsFree|
    {
      alloc := 0;
      var e := |entries|;
      ghost var counted: set<int> := {};
      while e > 0
        invariant 0 <= e <= |entries| && alloc == |counted|
        invariant counted == set ix: int | e <= ix < |entries| && entries[ix].kind != EDbsFree
      {
        e := e - 1;
        if entries[e].kind != EDbsFree {
          counted := counted + {e};
          alloc := alloc + 1;
        }
      }
    }

    /** The destructor releases every object once, by descending type: streams and cursors
        before the databases they belong to. */
    method Release() returns (released: seq<int>)
      requires Valid(State())
      modifies this
      ensures forall ix :: ix in released <==> Live(old(State()), ix)
      ensures forall i, j :: 0 <= i < j < |released| ==> Released(old(entries), released[i], released[j])
      ensures forall ix :: 0 <= ix < |entries| ==> entries[ix].kind == EDbsFree
    {
      ghost var es := entries;
      released := [];
      var kind := EDbsMaxType;
      while kind > EDbsFree
        invariant 0 <= kind <= EDbsMaxType && |entries| == |es|
        invariant forall ix :: ix in released <==> 0 <= ix < |es| && es[ix].kind > kind
        invariant forall i, j :: 0 <= i < j < |released| ==> Released(es, released[i], released[j])
        invariant forall ix :: 0 <= ix < |es| ==> if es[ix].kind > kind then entries[ix].kind == EDbsFree else entries[ix] == es[ix]
      {
        released := ReleaseKind(kind, es, released);
        kind := kind - 1;
      }
    }

    method ReleaseKind(kind: Kind, ghost es: seq<Entry>, before: seq<int>) returns (released: seq<int>)
      requires |entries| == |es|
      requires forall ix :: ix in before <==> 0 <= ix < |es| && es[ix].kind > kind
      requires forall i, j :: 0 <= i < j < |before| ==> Released(es, before[i], before[j])
      requires forall ix :: 0 <= ix < |es| ==> if es[ix].kind > kind then entries[ix].kind == EDbsFree else entries[ix] == es[ix]
      modifies this`entries
      ensures |entries| == |es|
      ensures forall ix :: ix in released <==> 0 <= ix < |es| && es[ix].kind >= kind
      ensures forall i, j :: 0 <= i < j < |released| ==> Released(es, released[i], released[j])
      ensures forall ix :: 0 <= ix < |es| ==> if es[ix].kind >= kind then entries[ix].kind == EDbsFree else entries[ix] == es[ix]
    {
      released := before;
      var e := |entries|;
      while e > 0
        invariant 0 <= e <= |entries| == |es|
        invariant forall ix :: ix in released <==> 0 <= ix < |es| && (es[ix].kind > kind || (es[ix].kind == kind && ix >= e))
        invariant forall i, j :: 0 <= i < j < |released| ==> Released(es, released[i], released[j])
        invariant forall ix :: 0 <= ix < |es| ==>
          if es[ix].kind > kind || (es[ix].kind == kind && ix >= e) then entries[ix].kind == EDbsFree else entries[ix] == es[ix]
      {
        e := e - 1;
        if entries[e].kind == kind {
          assert forall ix :: ix in released ==> Released(es, ix, e);
          released := released + [e];
          entries := entries[e := entries[e].(kind := EDbsFree, policy := false)];
        }
      }
    }
  }

  /** Released earlier than another: of a higher type, or of the same and further up. */
  predicate Released(es: seq<Entry>, ix: int, later: int) {
    && 0 <= ix < |es| && 0 <= later < |es|
    && (es[ix].kind > es[later].kind || (es[ix].kind == es[later].kind && ix > later))
  }
}

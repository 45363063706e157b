/** A byte file with a read and a write cursor that move independently: what a client of a
    remote stream is meant to see. */
module FlatFile {
  import opened Errors

  type byte = b: int | 0 <= b < 256

  /** The bytes at a position, as many as there are up to a length. */
  function Slice(f: seq<byte>, pos: nat, len: nat): (r: seq<byte>)
    requires pos <= |f|
    ensures |r| <= len
  {
    f[pos..if pos + len < |f| then pos + len else |f|]
  }

  /** Overwriting from a position on, and beyond the end. */
  function WriteAt(f: seq<byte>, pos: nat, d: seq<byte>): (r: seq<byte>)
    requires pos <= |f|
    ensures |r| == if pos + |d| < |f| then |f| else pos + |d|
  {
    seq(if pos + |d| < |f| then |f| else pos + |d|, (i: nat) requires i < pos + |d| || i < |f| =>
      if pos <= i < pos + |d| then d[i - pos] else f[i])
  }

  lemma WriteTwice(f: seq<byte>, pos: nat, a: seq<byte>, b: seq<byte>)
    requires pos <= |f|
    ensures WriteAt(WriteAt(f, pos, a), pos + |a|, b) == WriteAt(f, pos, a + b)
  {
  }

  lemma SliceTwice(f: seq<byte>, pos: nat, a: nat, b: nat)
    requires pos + a <= |f|
    ensures Slice(f, pos, a) + Slice(f, pos + a, b) == Slice(f, pos, a + b)
  {
  }

  datatype Flat = Flat(contents: seq<byte>, r: int, w: int)

  predicate FlatOk(s: Flat) {
    0 <= s.r <= |s.contents| && 0 <= s.w <= |s.contents|
  }

  datatype Location = Beginning | Mark | End

  datatype Op =
    | Read(len: nat)
    | Write(d: seq<byte>)
    | SeekRead(from: Location, offset: int)
    | SeekWrite(from: Location, offset: int)
    | SeekBoth(from: Location, offset: int)
    | Synch

  datatype Answer = Bytes(d: seq<byte>) | Moved(pos: nat) | AtEof | Done

  /** Where a seek goes before the ends of the file limit it. */
  function Target(s: Flat, from: Location, mark: int, offset: int): int {
    match from
    case Beginning => offset
    case Mark => mark + offset
    case End => |s.contents| + offset
  }

  /** A seek is limited to the file, and reports when it was. */
  function Limit(s: Flat, target: int): (r: (nat, Answer))
    ensures r.0 <= |s.contents|
  {
    if target < 0 then (0, AtEof)
    else if target > |s.contents| then (|s.contents|, AtEof)
    else (target, Moved(target))
  }

  /** A seek of either cursor, or of both to the same position. */
  function SeekFlat(s: Flat, read: bool, write: bool, from: Location, offset: int): (r: (Flat, Answer))
    requires FlatOk(s)
    ensures FlatOk(r.0)
  {
    var mark := if from != Mark then 0 else if read then s.r else s.w;
    var (pos, a) := Limit(s, Target(s, from, mark, offset));
    (s.(r := if read then pos else s.r, w := if write then pos else s.w), a)
  }

  /** d is what reading up to len bytes gives, and s1 what it leaves. */
  predicate IsRead(s: Flat, len: nat, s1: Flat, d: seq<byte>)
    requires FlatOk(s)
  {
    d == Slice(s.contents, s.r, len) && s1 == s.(r := s.r + |d|)
  }

  function Written(s: Flat, d: seq<byte>): (r: Flat)
    requires FlatOk(s)
    ensures FlatOk(r)
  {
    s.(contents := WriteAt(s.contents, s.w, d), w := s.w + |d|)
  }

  function StepFlat(s: Flat, op: Op): (r: (Flat, Answer))
    requires FlatOk(s)
    ensures FlatOk(r.0)
  {
    match op
    case Read(len) =>
      var d := Slice(s.contents, s.r, len); (s.(r := s.r + |d|), Bytes(d))
    case Write(d) => (Written(s, d), Done)
    case SeekRead(from, offset) => SeekFlat(s, true, false, from, offset)
    case SeekWrite(from, offset) => SeekFlat(s, false, true, from, offset)
    case SeekBoth(from, offset) => SeekFlat(s, true, true, from, offset)
    case Synch => (s, Done)
  }

  /** A write in two pieces. */
  lemma WriteSteps(s: Flat, d: seq<byte>, i: nat, j: nat)
    requires FlatOk(s) && i <= j <= |d|
    ensures Written(Written(s, d[..i]), d[i..j]) == Written(s, d[..j])
    ensures j == |d| ==> Written(Written(s, d[..i]), d[i..]) == Written(s, d)
  {
    WriteTwice(s.contents, s.w, d[..i], d[i..j]);
    assert d[..i] + d[i..j] == d[..j];
    if j == |d| { assert d[..j] == d && d[i..j] == d[i..]; }
  }

  /** A read in two pieces, the first of them not cut short. */
  lemma ReadSteps(s: Flat, s1: Flat, x: seq<byte>, b: nat, s2: Flat, y: seq<byte>)
    requires FlatOk(s) && IsRead(s, |x|, s1, x) && IsRead(s1, b, s2, y)
    ensures IsRead(s, |x| + b, s2, x + y)
  {
    SliceTwice(s.contents, s.r, |x|, b);
  }

  /** Asking for more at the end of the file changes nothing. */
  lemma ReadToEnd(s: Flat, s1: Flat, x: seq<byte>, len: nat)
    requires FlatOk(s) && IsRead(s, |x|, s1, x)
    requires s1.r == |s1.contents| && |x| <= len
    ensures IsRead(s, len, s1, x)
  {
  }

  /** The answers to the first operations of a sequence, and the state they leave. */
  function RunFlat(s: Flat, ops: seq<Op>): (r: (Flat, seq<Answer>))
    requires FlatOk(s)
    ensures FlatOk(r.0) && |r.1| == |ops|
  {
    if ops == [] then (s, [])
    else
      var n := |ops| - 1;
      var (s1, answers) := RunFlat(s, ops[..n]);
      var (s2, a) := StepFlat(s1, ops[n]);
      (s2, answers + [a])
  }

  lemma RunFlatMore(s: Flat, ops: seq<Op>, op: Op)
    requires FlatOk(s)
    ensures var (s1, answers) := RunFlat(s, ops);
            var (s2, a) := StepFlat(s1, op);
            RunFlat(s, ops + [op]) == (s2, answers + [a])
  {
    assert (ops + [op])[..|ops|] == ops;
  }

  /** Other bytes in place of those of a last read are another run. */
  lemma OneMoreRead(s: Flat, ops: seq<Op>, len: nat, d: seq<byte>)
    requires FlatOk(s)
    ensures var (s1, answers) := RunFlat(s, ops);
            answers + [Bytes(d)] == RunFlat(s, ops + [Read(len)]).1 <==> d == Slice(s1.contents, s1.r, len)
  {
    RunFlatMore(s, ops, Read(len));
    var (s1, answers) := RunFlat(s, ops);
    var d1 := Slice(s1.contents, s1.r, len);
    assert (answers + [Bytes(d)])[|ops|] == Bytes(d) && (answers + [Bytes(d1)])[|ops|] == Bytes(d1);
  }

  /** Where the read cursor is at the first read of a sequence, if there is one. */
  function FirstReadAt(s: Flat, ops: seq<Op>): (r: Option<int>)
    requires FlatOk(s)
  {
    if ops == [] then None
    else
      var n := |ops| - 1;
      var before := FirstReadAt(s, ops[..n]);
      if before.Some? || !ops[n].Read? then before else Some(RunFlat(s, ops[..n]).0.r)
  }

  lemma FirstReadMore(s: Flat, ops: seq<Op>, op: Op)
    requires FlatOk(s)
    ensures FirstReadAt(s, ops + [op])
         == if FirstReadAt(s, ops).Some? || !op.Read? then FirstReadAt(s, ops) else Some(RunFlat(s, ops).0.r)
  {
    assert (ops + [op])[..|ops|] == ops;
  }

  lemma {:induction false} FirstReadStays(s: Flat, ops: seq<Op>, n: nat)
    requires FlatOk(s) && n <= |ops|
    ensures FirstReadAt(s, ops[..n]).Some? ==> FirstReadAt(s, ops) == FirstReadAt(s, ops[..n])
    decreases |ops|
  {
    if n < |ops| {
      FirstReadStays(s, ops[..|ops| - 1], n);
      assert ops[..|ops| - 1][..n] == ops[..n];
    } else {
      assert ops[..n] == ops;
    }
  }

  /** What was written is what is read back, wherever the cursors were. */
  lemma ReadBack(s: Flat, d: seq<byte>, s1: Flat, back: seq<byte>)
    requires FlatOk(s) && IsRead(Written(s, d).(r := s.w), |d|, s1, back)
    ensures back == d
  {
    assert Slice(WriteAt(s.contents, s.w, d), s.w, |d|) == d;
  }
}

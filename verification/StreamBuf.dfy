/** The client's buffer over a stream object of the server, and that object over the file
    (sdbms/SD_BUF.CPP, SD_STD.INL, SD_SESS.CPP NewStreamL, store/USTRM/US_BUF.CPP). */
module StreamBuf {
  import opened Errors
  import opened FlatFile

  function Min(a: int, b: int): int { if a < b then a else b }

  /** The host stream in the server: a file with two cursors. */
  class Host {
    var file: seq<byte>
    var r: nat
    var w: nat

    ghost predicate Valid()
      reads this
    {
      r <= |file| && w <= |file|
    }

    constructor (file: seq<byte>)
      ensures Valid() && this.file == file && r == 0 && w == 0
    {
      this.file, r, w := file, 0, 0;
    }

    method Read(len: nat) returns (d: seq<byte>)
      requires Valid()
      modifies this`r
      ensures Valid() && d == Slice(file, old(r), len) && r == old(r) + |d|
    {
      d := Slice(file, r, len);
      r := r + |d|;
    }

    method Write(d: seq<byte>)
      requires Valid()
      modifies this`file, this`w
      ensures Valid() && file == WriteAt(old(file), old(w), d) && w == old(w) + |d|
    {
      file := WriteAt(file, w, d);
      w := w + |d|;
    }
  }

  /** HDbsStream: remembers where the host's cursors are, to save seeks. */
  class ServerStream {
    const host: Host
    const ioSize: nat
    var rPos: int
    var wPos: int

    ghost predicate ReadsRight()
      reads this, host
    {
      rPos >= 0 ==> host.r == rPos
    }

    ghost predicate Valid()
      reads this, host
    {
      host.Valid() && ioSize > 0 && (wPos >= 0 ==> host.w == wPos)
    }

    constructor (host: Host, readPos: int, ioSize: nat)
      requires host.Valid() && host.w == 0 && ioSize > 0
      ensures Valid() && this.host == host && rPos == readPos && this.ioSize == ioSize
    {
      this.host, this.ioSize := host, ioSize;
      rPos, wPos := readPos, 0;
    }

    /** Reads from the host's cursor, a transfer buffer at a time. */
    method ReadChunks(len: nat) returns (d: seq<byte>)
      requires host.Valid() && ioSize > 0
      modifies host`r
      ensures host.Valid() && d == Slice(host.file, old(host.r), len) && host.r == old(host.r) + |d|
    {
      ghost var start := host.r;
      var tfr := len;
      d := [];
      while true
        invariant 0 <= tfr <= len && |d| == len - tfr
        invariant host.Valid() && host.r == start + |d| && d == Slice(host.file, start, len - tfr)
        decreases tfr
        modifies host`r
      {
        var size: nat := Min(tfr, ioSize);
        SliceTwice(host.file, start, |d|, size);
        var read := host.Read(size);
        if |read| == 0 { break; }
        d, tfr := d + read, tfr - |read|;
        if tfr == 0 { break; }
        if |read| < ioSize { break; }
      }
    }

    /** Reads from pos, unless pos is the position remembered and that is wrong. */
    method ReadL(pos: nat, len: nat) returns (d: seq<byte>)
      requires Valid() && (pos == rPos || pos <= |host.file|)
      modifies this`rPos, host`r
      ensures Valid() && (old(ReadsRight()) || old(rPos) != pos ==> ReadsRight())
      ensures d == Slice(host.file, if old(rPos) == pos then old(host.r) else pos, len)
      ensures rPos == pos + |d| && host.r == |d| + if old(rPos) == pos then old(host.r) else pos
    {
      if pos != rPos { host.r := pos; }
      rPos := -1;
      d := ReadChunks(len);
      rPos := pos + |d|;
    }

    /** Writes at the host's cursor, a transfer buffer at a time. */
    method WriteChunks(d: seq<byte>)
      requires host.Valid() && ioSize > 0
      modifies host`file, host`w
      ensures host.Valid() && host.file == WriteAt(old(host.file), old(host.w), d) && host.w == old(host.w) + |d|
    {
      ghost var file, pos := host.file, host.w;
      var offset := 0;
      while true
        invariant offset <= |d| && host.Valid() && host.w == pos + offset
        invariant host.file == WriteAt(file, pos, d[..offset])
        decreases |d| - offset
        modifies host`file, host`w
      {
        var chunk := d[offset..Min(offset + ioSize, |d|)];
        if |chunk| == 0 { break; }
        WriteTwice(file, pos, d[..offset], chunk);
        assert d[..offset] + chunk == d[..offset + |chunk|];
        host.Write(chunk);
        offset := offset + |chunk|;
        if |chunk| < ioSize { break; }
      }
      assert d[..offset] == d;
    }

    method WriteL(pos: nat, d: seq<byte>)
      requires Valid() && pos <= |host.file|
      modifies this`wPos, host`file, host`w
      ensures Valid() && host.file == WriteAt(old(host.file), pos, d)
    {
      if pos != wPos { host.w := pos; }
      wPos := -1;
      WriteChunks(d);
      wPos := pos + |d|;
    }
  }

  const KUnknown := -1

  /** The bytes of a file before a position. */
  ghost predicate Holds(area: seq<byte>, f: seq<byte>, at: int) {
    |area| <= at <= |f| && forall i {:trigger area[i]} :: 0 <= i < |area| ==> area[i] == f[at - |area| + i]
  }

  /** Any part of it is found where it belongs. */
  lemma HoldsPart(area: seq<byte>, f: seq<byte>, at: int, from: nat, len: nat)
    requires Holds(area, f, at) && from + len <= |area|
    ensures area[from..from + len] == Slice(f, at - |area| + from, len)
  {
  }

  /** HDbsBuf. One buffer serves as read area and as write area, both starting at its base;
      pointers are offsets from there. stream is null when everything came with the first
      bufferful. */
  class ClientBuf {
    const stream: ServerStream?
    const data: array<byte>
    var rPtr: nat
    var rEnd: nat
    var wPtr: nat
    var wEnd: nat
    var rPos: int
    var wPos: int
    var ext: int

    ghost function File(): seq<byte>
      reads this, data, stream, if stream == null then {} else {stream.host}
    {
      if stream != null then stream.host.file
      else if 0 <= ext <= data.Length then data[..ext] else []
    }

    /** The areas lie in the buffer, and at most one of them is not empty. */
    ghost predicate Areas()
      reads this, data
    {
      && rPtr <= rEnd <= data.Length && wPtr <= wEnd <= data.Length
      && (rEnd == 0 || wEnd == 0)
    }

    /** The write position is one of the file, and the extent is known or not. */
    ghost predicate Linked()
      reads this, data, stream, if stream == null then {} else {stream.host}
    {
      && data.Length > 0 && Areas()
      && (stream != null ==> stream.Valid())
      && 0 <= wPos <= |File()|
    }

    /** The file with the outstanding writes. */
    ghost function Contents(): seq<byte>
      reads this, data, stream, if stream == null then {} else {stream.host}
      requires Linked()
    {
      if wPtr == 0 then File() else WriteAt(File(), wPos, data[..wPtr])
    }

    /** What the client sees. */
    ghost function State(): Flat
      reads this, data, stream, if stream == null then {} else {stream.host}
      requires Linked()
    {
      Flat(Contents(), rPos + rPtr - rEnd, wPos + wPtr)
    }

    /** Where the bytes of the next server read really come from. */
    ghost function ServerStart(): int
      reads this, data, stream, if stream == null then {} else {stream.host}
    {
      if stream != null && stream.rPos == rPos then stream.host.r else rPos
    }

    /** The state with the position that bytes really come from: reads follow this one. */
    ghost function TrueState(): Flat
      reads this, data, stream, if stream == null then {} else {stream.host}
      requires Linked()
    {
      Flat(Contents(), ServerStart() + rPtr - rEnd, wPos + wPtr)
    }

    /** The read area holds what the file does before the true position. */
    ghost predicate Coherent()
      reads this, data, stream, if stream == null then {} else {stream.host}
    {
      && Linked() && rPos >= 0
      && rEnd <= ServerStart() <= |Contents()|
      && (rEnd > 0 ==> Holds(data[..rEnd], File(), ServerStart()))
      && (stream == null ==> ext == rEnd == rPos && wEnd == 0)
    }

    /** And the client's positions and the known extent are those of the file. */
    ghost predicate Valid()
      reads this, data, stream, if stream == null then {} else {stream.host}
    {
      && Coherent() && rEnd <= rPos <= |Contents()| && ExtRight() && (rEnd > 0 ==> Right())
    }

    ghost predicate ExtRight()
      reads this, data, stream, if stream == null then {} else {stream.host}
    {
      ext == KUnknown || ext == |File()|
    }

    /** The server remembers its host's read position rightly. */
    ghost predicate Right()
      reads this, data, stream, if stream == null then {} else {stream.host}
    {
      stream == null || stream.ReadsRight()
    }

    /** The next read is not from the position the server remembers wrongly. */
    ghost predicate ReadOk()
      reads this, data, stream, if stream == null then {} else {stream.host}
    {
      Right() || rPos != stream.rPos
    }

    /** The client's positions are the true ones. */
    ghost predicate Sound()
      reads this, data, stream, if stream == null then {} else {stream.host}
    {
      Coherent() && ReadOk() && ExtRight() && (rEnd > 0 ==> Right())
    }

    /** The position the server remembers, and its host's: only reads change them. */
    ghost function Remembered(): (int, int)
      reads this, data, stream, if stream == null then {} else {stream.host}
    {
      if stream == null then (0, 0) else (stream.rPos, stream.host.r)
    }

    lemma StateOk()
      requires Coherent()
      ensures FlatOk(TrueState())
      ensures Valid() ==> FlatOk(State()) && (ReadOk() <==> State() == TrueState())
      ensures Sound() <==> Valid() && ReadOk()
    {
    }

    // ----- the server -----

    /** Reads at the read position, and learns the extent from a short read. */
    method IpcReadL(len: nat) returns (d: seq<byte>)
      requires Coherent() && stream != null && rEnd == 0 && wEnd == 0
      modifies this`rPos, this`ext, stream, stream.host
      ensures Coherent() && File() == old(File())
      ensures IsRead(old(TrueState()), len, TrueState(), d)
      ensures d == Slice(File(), old(ServerStart()), len) && ServerStart() == old(ServerStart()) + |d|
      ensures old(Sound()) ==> Sound() && (len > 0 ==> Right())
      ensures len > 0 ==> stream.rPos == rPos
    {
      if len == 0 { return []; }
      d := stream.ReadL(rPos, len);
      if |d| < len { ext := rPos + |d|; }
      rPos := rPos + |d|;
    }

    /** Writes at the write position; the extent stays known only if it grows. */
    method IpcWriteL(d: seq<byte>)
      requires Linked() && (d == [] || stream != null)
      modifies this`wPos, this`ext, stream, if stream == null then {} else {stream.host}
      ensures Linked() && wPos == old(wPos) + |d| && Remembered() == old(Remembered())
      ensures File() == if d == [] then old(File()) else WriteAt(old(File()), old(wPos), d)
      ensures d == [] ==> ext == old(ext)
      ensures old(ExtRight()) ==> ExtRight()
    {
      if |d| == 0 { return; }
      var known := ext;
      ext := KUnknown;
      var pos := wPos;
      stream.WriteL(pos, d);
      pos := pos + |d|;
      if known >= 0 && pos > known { ext := pos; }
      wPos := pos;
    }

    method EndL() returns (end: int)
      requires Valid()
      modifies this`ext
      ensures Valid() && State() == old(State()) && end == |State().contents|
    {
      if ext < 0 { ext := |stream.host.file|; }
      end := if ext > wPos + wPtr then ext else wPos + wPtr;
    }

    // ----- filling and emptying the areas -----

    /** Sends what the write area holds and empties it. */
    method Flush()
      requires Coherent()
      modifies this`wPos, this`ext, this`wPtr, this`wEnd, stream, if stream == null then {} else {stream.host}
      ensures Coherent() && TrueState() == old(TrueState()) && State() == old(State()) && wEnd == 0
      ensures (old(Valid()) ==> Valid()) && Remembered() == old(Remembered())
    {
      IpcWriteL(data[..wPtr]);
      wPtr, wEnd := 0, 0;
    }

    /** Forgets what is left in the read area. */
    method DropRead()
      requires Valid() && stream != null
      modifies this`rPos, this`rPtr, this`rEnd
      ensures Valid() && State() == old(State()) && rEnd == 0
    {
      rPos := rPos + rPtr - rEnd;
      rPtr, rEnd := 0, 0;
    }

    /** Empties both areas when everything read has been taken. */
    method Empty()
      requires Coherent() && rPtr == rEnd && stream != null
      modifies this, stream, stream.host
      ensures Coherent() && TrueState() == old(TrueState()) && rEnd == wEnd == 0
      ensures old(Sound()) ==> Sound()
    {
      rPtr, rEnd := 0, 0;
      Flush();
    }

    method CopyIn(at: nat, d: seq<byte>)
      requires at + |d| <= data.Length
      modifies data
      ensures data[..at + |d|] == old(data[..at]) + d
    {
      forall i | 0 <= i < |d| { data[at + i] := d[i]; }
      assert forall i :: 0 <= i < at ==> data[..at + |d|][i] == old(data[..at])[i];
      assert forall i :: 0 <= i < |d| ==> data[..at + |d|][at + i] == d[i];
    }

    method Refill()
      requires Coherent() && stream != null && rEnd == 0 && wEnd == 0
      modifies this`rPos, this`rPtr, this`rEnd, this`ext, data, stream, stream.host
      ensures Coherent() && TrueState() == old(TrueState()) && rPtr == 0
      ensures old(Sound()) ==> Sound() && Right()
      ensures rEnd == 0 ==> TrueState().r == |TrueState().contents|
    {
      var d := IpcReadL(data.Length);
      Load(d);
    }

    /** Makes the bytes last read the read area. */
    method Load(d: seq<byte>)
      requires Coherent() && stream != null && rEnd == wEnd == 0 && |d| <= data.Length
      requires Holds(d, File(), ServerStart())
      modifies this`rPtr, this`rEnd, data
      ensures Coherent() && Contents() == old(Contents()) && rPtr == 0 && rEnd == |d|
    {
      CopyIn(0, d);
      rPtr, rEnd := 0, |d|;
    }

    /** Fills the read area, after sending what was written to it. */
    method UnderflowL() returns (len: nat)
      requires Coherent() && rPtr == rEnd
      modifies this, data, stream, if stream == null then {} else {stream.host}
      ensures Coherent() && TrueState() == old(TrueState()) && len == rEnd - rPtr
      ensures old(Sound()) ==> Sound() && Right()
      ensures len == 0 ==> TrueState().r == |TrueState().contents|
    {
      if stream == null { return 0; }
      Empty();
      Refill();
      return rEnd;
    }

    /** Makes the whole buffer the write area. */
    method OverflowL()
      requires Valid() && wPtr == wEnd && stream != null
      modifies this, stream, stream.host
      ensures Valid() && State() == old(State()) && wPtr == 0 && wEnd == data.Length
      ensures Remembered() == old(Remembered())
    {
      DropRead();
      Flush();
      wEnd := data.Length;
    }

    // ----- the operations -----

    lemma NextBytes(len: nat)
      requires Coherent() && len <= rEnd - rPtr
      ensures data[..rEnd][rPtr..rPtr + len] == Slice(TrueState().contents, TrueState().r, len)
    {
      if len > 0 { HoldsPart(data[..rEnd], File(), ServerStart(), rPtr, len); }
    }

    /** Copies out of the read area. */
    method Take(len: nat) returns (d: seq<byte>)
      requires Coherent() && len <= rEnd - rPtr
      modifies this`rPtr
      ensures Coherent() && |d| == len && IsRead(old(TrueState()), len, TrueState(), d)
      ensures old(Sound()) ==> Sound()
    {
      d := data[..rEnd][rPtr..rPtr + len];
      NextBytes(len);
      rPtr := rPtr + len;
    }

    method Append(d: seq<byte>)
      requires Linked() && 0 < |d| <= wEnd - wPtr && stream != null && FlatOk(State())
      modifies this`wPtr, data
      ensures Linked() && File() == old(File()) && State() == Written(old(State()), d)
    {
      WriteTwice(File(), wPos, data[..wPtr], d);
      CopyIn(wPtr, d);
      wPtr := wPtr + |d|;
    }

    /** Copies into the write area. */
    method Put(d: seq<byte>)
      requires Valid() && 0 < |d| <= wEnd - wPtr && stream != null
      modifies this`wPtr, data
      ensures Valid() && State() == Written(old(State()), d)
    {
      Append(d);
    }

    /** d is what a read of |d| bytes in state s gives, and the present state what it leaves. */
    ghost predicate HasRead(s: Flat, d: seq<byte>)
      requires FlatOk(s)
      reads this, data, stream, if stream == null then {} else {stream.host}
    {
      Coherent() && IsRead(s, |d|, TrueState(), d)
    }

    method TakeMore(ghost s: Flat, d: seq<byte>, left: nat) returns (d': seq<byte>, left': nat)
      requires FlatOk(s) && HasRead(s, d) && rPtr < rEnd
      modifies this`rPtr
      ensures HasRead(s, d') && (left > 0 ==> left' < left) && (old(Sound()) ==> Sound())
      ensures |d'| + left' == |d| + left && (left' > 0 ==> rPtr == rEnd)
    {
      var n: nat := Min(left, rEnd - rPtr);
      ghost var s1 := TrueState();
      var more := Take(n);
      ReadSteps(s, s1, d, n, TrueState(), more);
      return d + more, left - n;
    }

    method TakeAndFill(ghost s: Flat, d: seq<byte>, left: nat) returns (d': seq<byte>, left': nat, avail: nat)
      requires FlatOk(s) && HasRead(s, d) && rPtr < rEnd && left > 0
      modifies this, data, stream, if stream == null then {} else {stream.host}
      ensures HasRead(s, d') && left' < left && |d'| + left' == |d| + left
      ensures old(Sound() && Right()) ==> Sound() && Right()
      ensures left' > 0 ==> avail == rEnd - rPtr && (avail == 0 ==> TrueState().r == |TrueState().contents|)
    {
      d', left' := TakeMore(s, d, left);
      avail := 0;
      if left' > 0 { avail := UnderflowL(); }
    }

    /** TStreamBuf::DoReadL. */
    method BaseReadL(len: nat) returns (d: seq<byte>)
      requires Coherent() && len > 0
      modifies this, data, stream, if stream == null then {} else {stream.host}
      ensures Coherent() && FlatOk(old(TrueState())) && IsRead(old(TrueState()), len, TrueState(), d)
      ensures old(Sound()) ==> Sound() && Right()
    {
      StateOk();
      ghost var s, sound := TrueState(), Sound();
      var left := len;
      var avail := rEnd - rPtr;
      d := [];
      if avail == 0 { avail := UnderflowL(); }
      while avail > 0
        invariant HasRead(s, d) && avail == rEnd - rPtr && 0 < left == len - |d|
        invariant sound ==> Sound() && Right()
        invariant avail == 0 ==> TrueState().r == |TrueState().contents|
        decreases left
      {
        d, left, avail := TakeAndFill(s, d, left);
        if left == 0 { return; }
      }
      ReadToEnd(s, TrueState(), d, len);
    }

    ghost predicate HasWritten(s: Flat, d: seq<byte>)
      requires FlatOk(s)
      reads this, data, stream, if stream == null then {} else {stream.host}
    {
      Valid() && State() == Written(s, d)
    }

    method PutMore(ghost s: Flat, d: seq<byte>, done: nat) returns (done': nat)
      requires FlatOk(s) && done < |d| && HasWritten(s, d[..done]) && wPtr < wEnd
      modifies this`wPtr, data
      ensures done < done' <= |d| && HasWritten(s, d[..done']) && (done' < |d| ==> wPtr == wEnd)
    {
      var n: nat := Min(|d| - done, wEnd - wPtr);
      done' := done + n;
      WriteSteps(s, d, done, done');
      Put(d[done..done']);
    }

    /** TStreamBuf::DoWriteL. */
    method BaseWriteL(d: seq<byte>)
      requires Valid() && stream != null && d != []
      modifies this, data, stream, stream.host
      ensures Valid() && FlatOk(old(State())) && State() == Written(old(State()), d)
      ensures Remembered() == old(Remembered())
    {
      StateOk();
      ghost var s := State();
      var done := 0;
      if wEnd == wPtr { OverflowL(); }
      while true
        invariant done < |d| && wPtr < wEnd && HasWritten(s, d[..done]) && Remembered() == old(Remembered())
        decreases |d| - done
      {
        done := PutMore(s, d, done);
        if done == |d| { break; }
        OverflowL();
      }
      assert d[..done] == d;
    }

    /** DoReadL: what the area holds, then a bufferful at a time, or directly if that much is
        asked for. It reads at the true position, which is the client's when ReadOk. */
    method DoReadL(len: nat) returns (d: seq<byte>)
      requires Coherent() && len > 0
      modifies this, data, stream, if stream == null then {} else {stream.host}
      ensures Coherent() && FlatOk(old(TrueState())) && IsRead(old(TrueState()), len, TrueState(), d)
      ensures old(Sound()) ==> Sound() && Right()
    {
      StateOk();
      ghost var s := TrueState();
      var left := len;
      d := [];
      if rPtr < rEnd {
        d, left := TakeMore(s, d, len);
        if left == 0 { return; }
      }
      d := ReadRest(s, d, left);
    }

    method ReadRest(ghost s: Flat, d: seq<byte>, left: nat) returns (d': seq<byte>)
      requires FlatOk(s) && HasRead(s, d) && left > 0 && rPtr == rEnd
      modifies this, data, stream, if stream == null then {} else {stream.host}
      ensures Coherent() && IsRead(s, |d| + left, TrueState(), d')
      ensures old(Sound()) ==> Sound() && Right()
    {
      ghost var s1 := TrueState();
      var rest;
      if left < data.Length { rest := BaseReadL(left); } else { rest := ReadDirect(left); }
      ReadSteps(s, s1, d, left, TrueState(), rest);
      return d + rest;
    }

    method ReadDirect(len: nat) returns (d: seq<byte>)
      requires Coherent() && len > 0 && rPtr == rEnd
      modifies this, stream, if stream == null then {} else {stream.host}
      ensures Coherent() && FlatOk(old(TrueState())) && IsRead(old(TrueState()), len, TrueState(), d)
      ensures old(Sound()) ==> Sound() && Right()
    {
      if stream == null { return []; }
      StateOk();
      Empty();
      d := IpcReadL(len);
    }

    /** DoWriteL: into the area, then a bufferful at a time, or directly if that much is left. */
    method DoWriteL(d: seq<byte>)
      requires Valid() && stream != null && d != []
      modifies this, data, stream, stream.host
      ensures Valid() && FlatOk(old(State())) && State() == Written(old(State()), d)
      ensures Remembered() == old(Remembered())
    {
      StateOk();
      ghost var s := State();
      var done := 0;
      if wPtr < wEnd {
        done := PutMore(s, d, done);
        if done == |d| {
          assert d[..done] == d;
          return;
        }
      }
      ghost var s1 := State();
      StateOk();
      WriteSteps(s, d, done, |d|);
      if |d| - done < data.Length {
        BaseWriteL(d[done..]);
      } else {
        WriteDirect(d[done..]);
      }
    }

    method WriteDirect(d: seq<byte>)
      requires Valid() && stream != null && wPtr == wEnd && d != []
      modifies this, stream, stream.host
      ensures Valid() && FlatOk(old(State())) && State() == Written(old(State()), d)
      ensures Remembered() == old(Remembered())
    {
      ghost var s := State();
      Flush();
      DropRead();
      StateOk();
      assert State() == s && File() == s.contents && wPos == s.w;
      IpcWriteL(d);
    }

    /** DoSynchL. */
    method DoSynchL()
      requires Valid() && stream != null
      modifies this, stream, stream.host
      ensures Valid() && State() == old(State()) && Remembered() == old(Remembered())
      ensures File() == State().contents
    {
      DropRead();
      ext := KUnknown;
      Flush();
    }

    // ----- seeking -----

    /** Within the read area only the pointer moves. */
    method MoveRead(pos: nat)
      requires Valid() && pos <= |State().contents|
      modifies this`rPos, this`rPtr, this`rEnd
      ensures Valid() && State() == old(State()).(r := pos)
    {
      var lag: int := pos - rPos;
      if 0 - rEnd <= lag <= 0 {
        rPtr := rEnd + lag;
      } else {
        rPos := pos;
        rPtr, rEnd := 0, 0;
      }
    }

    method MoveWrite(pos: nat)
      requires Valid() && pos <= |State().contents|
      modifies this, stream, if stream == null then {} else {stream.host}
      ensures Valid() && State() == old(State()).(w := pos) && Remembered() == old(Remembered())
    {
      if pos != wPos + wPtr {
        Flush();
        wPos := pos;
      }
    }

    /** Where a seek goes, and its answer. */
    method SeekTarget(mark: int, from: Location, offset: int) returns (pos: nat, a: Answer)
      requires Valid()
      modifies this`ext
      ensures Valid() && FlatOk(old(State())) && State() == old(State())
      ensures (pos, a) == Limit(State(), Target(State(), from, mark, offset))
    {
      StateOk();
      var end := EndL();
      var to := offset;
      match from {
        case Beginning =>
        case Mark => to := to + mark;
        case End => to := to + end;
      }
      if to < 0 {
        pos, a := 0, AtEof;
      } else if to > end {
        pos, a := end, AtEof;
      } else {
        pos, a := to, Moved(to);
      }
    }

    /** DoSeekL. A limited seek still moves, and then leaves with KErrEof. */
    method DoSeekL(read: bool, write: bool, from: Location, offset: int) returns (a: Answer)
      requires Valid() && (read || write) && (from == Mark ==> !(read && write))
      modifies this, stream, if stream == null then {} else {stream.host}
      ensures Valid() && FlatOk(old(State())) && Remembered() == old(Remembered())
      ensures (State(), a) == SeekFlat(old(State()), read, write, from, offset)
    {
      var pos;
      pos, a := SeekTarget(if from != Mark then 0 else if read then rPos + rPtr - rEnd else wPos + wPtr, from, offset);
      if read { MoveRead(pos); }
      if write { MoveWrite(pos); }
    }

    // ----- every run -----

    /** Without a server stream nothing can be written or synchronised. */
    ghost predicate Served(op: Op) {
      match op
      case Read(len) => len > 0
      case Write(d) => stream != null && d != []
      case SeekBoth(from, _) => from != Mark
      case Synch => stream != null
      case _ => true
    }

    /** The client sees what is truly read, unless it is about to read from the position the
        server remembers wrongly. */
    method ReadSound(len: nat) returns (d: seq<byte>)
      requires Valid() && ReadOk() && len > 0
      modifies this, data, stream, if stream == null then {} else {stream.host}
      ensures Valid() && Right() && FlatOk(old(State())) && IsRead(old(State()), len, State(), d)
    {
      StateOk();
      d := DoReadL(len);
      StateOk();
    }

    method Perform(op: Op) returns (a: Answer)
      requires Valid() && Served(op) && (op.Read? ==> ReadOk())
      modifies this, data, stream, if stream == null then {} else {stream.host}
      ensures Valid() && FlatOk(old(State())) && (State(), a) == StepFlat(old(State()), op)
      ensures if op.Read? then Right() else Remembered() == old(Remembered())
    {
      StateOk();
      match op {
        case Read(len) =>
          var d := ReadSound(len);
          a := Bytes(d);
        case Write(d) =>
          DoWriteL(d);
          a := Done;
        case SeekRead(from, offset) =>
          a := DoSeekL(true, false, from, offset);
        case SeekWrite(from, offset) =>
          a := DoSeekL(false, true, from, offset);
        case SeekBoth(from, offset) =>
          a := DoSeekL(true, true, from, offset);
        case Synch =>
          DoSynchL();
          a := Done;
      }
    }

    /** The operations so far, in state s, gave these answers and led here; the server is right
        about its host, or nothing has been read yet. */
    ghost predicate HasRun(s: Flat, ops: seq<Op>, answers: seq<Answer>, remembered: (int, int))
      requires FlatOk(s)
      reads this, data, stream, if stream == null then {} else {stream.host}
    {
      && Valid() && (State(), answers) == RunFlat(s, ops)
      && (Right() || FirstReadAt(s, ops) == None)
      && (FirstReadAt(s, ops) == None ==> Remembered() == remembered)
    }

    method PerformMore(ghost s: Flat, ghost ops: seq<Op>, answers: seq<Answer>, op: Op, ghost remembered: (int, int))
      returns (answers': seq<Answer>)
      requires FlatOk(s) && HasRun(s, ops, answers, remembered) && Served(op)
      requires Right() || FirstReadAt(s, ops + [op]) != Some(remembered.0)
      modifies this, data, stream, if stream == null then {} else {stream.host}
      ensures HasRun(s, ops + [op], answers', remembered)
    {
      RunFlatMore(s, ops, op);
      FirstReadMore(s, ops, op);
      var a := Perform(op);
      return answers + [a];
    }

    method PerformEach(ops: seq<Op>, ghost s: Flat, ghost remembered: (int, int)) returns (answers: seq<Answer>)
      requires Valid() && State() == s && Remembered() == remembered && FlatOk(s)
      requires forall i :: 0 <= i < |ops| ==> Served(ops[i])
      requires Right() || FirstReadAt(s, ops) != Some(remembered.0)
      modifies this, data, stream, if stream == null then {} else {stream.host}
      ensures HasRun(s, ops, answers, remembered)
      decreases |ops|
    {
      if ops == [] { return []; }
      var n := |ops| - 1;
      FirstReadStays(s, ops, n);
      assert ops == ops[..n] + [ops[n]];
      answers := PerformEach(ops[..n], s, remembered);
      answers := PerformMore(s, ops[..n], answers, ops[n], remembered);
    }

    /** Refinement: any sequence of operations is answered as the flat file answers it, and
        leaves what it leaves. On a stream whose server is wrong about its host's read position,
        as it is on every stream opened to write, the first read must be from another position
        than the one remembered. */
    method PerformAll(ops: seq<Op>) returns (answers: seq<Answer>)
      requires Valid() && forall i :: 0 <= i < |ops| ==> Served(ops[i])
      requires FlatOk(State()) && (Right() || FirstReadAt(State(), ops) != Some(stream.rPos))
      modifies this, data, stream, if stream == null then {} else {stream.host}
      ensures Valid() && (State(), answers) == RunFlat(old(State()), ops)
      ensures if FirstReadAt(old(State()), ops) == None then Remembered() == old(Remembered()) else Right()
    {
      answers := PerformEach(ops, State(), Remembered());
    }

    method ReadFirst(len: nat) returns (d: seq<byte>)
      requires Valid() && stream != null && Remembered() == (data.Length, 0) && len > 0
      modifies this, data, stream, stream.host
      ensures FlatOk(old(State()))
      ensures d == Slice(old(State()).contents, if old(State()).r == data.Length then 0 else old(State()).r, len)
    {
      StateOk();
      d := DoReadL(len);
    }

    /** The first read of a stream opened to write, exactly: after any operations that read
        nothing, it gives the bytes at the cursor, but for one position of the cursor, the end of
        a first bufferful, where it gives those at the beginning. */
    method PerformFirstRead(ops: seq<Op>, len: nat) returns (answers: seq<Answer>)
      requires Valid() && stream != null && Remembered() == (data.Length, 0)
      requires FlatOk(State()) && FirstReadAt(State(), ops) == None && len > 0
      requires forall i :: 0 <= i < |ops| ==> Served(ops[i])
      modifies this, data, stream, stream.host
      ensures var (s, before) := RunFlat(old(State()), ops);
              answers == before + [Bytes(Slice(s.contents, if s.r == data.Length then 0 else s.r, len))]
      ensures var s := RunFlat(old(State()), ops).0;
              answers == RunFlat(old(State()), ops + [Read(len)]).1
              <==> s.r != data.Length || Slice(s.contents, 0, len) == Slice(s.contents, data.Length, len)
    {
      ghost var s := State();
      var before := PerformAll(ops);
      ghost var s1 := State();
      StateOk();
      var d := ReadFirst(len);
      OneMoreRead(s, ops, len, d);
      answers := before + [Bytes(d)];
    }

    method WriteAndReturn(d: seq<byte>)
      requires Valid() && stream != null && d != []
      modifies this, data, stream, stream.host
      ensures Valid() && FlatOk(old(State())) && State() == Written(old(State()), d).(r := old(State()).w)
      ensures Remembered() == old(Remembered())
    {
      StateOk();
      var at := wPos + wPtr;
      DoWriteL(d);
      var _ := DoSeekL(true, false, Beginning, at);
    }

    /** What was written is what is read back, whether the server has it already or not. */
    method WriteAndReadBack(d: seq<byte>) returns (back: seq<byte>)
      requires Valid() && stream != null && d != [] && (Right() || State().w != stream.rPos)
      modifies this, data, stream, stream.host
      ensures Valid() && back == d
    {
      StateOk();
      ghost var s := State();
      WriteAndReturn(d);
      back := ReadSound(|d|);
      ReadBack(s, d, State(), back);
    }

    /** ConstructL: the first bufferful came with the reply. */
    constructor (stream: ServerStream?, first: seq<byte>, extent: int, size: nat)
      requires size > 0 && |first| <= size
      ensures fresh(data) && this.stream == stream
      ensures data.Length == size && data[..|first|] == first
      ensures rPtr == wPtr == wEnd == 0 && wPos == 0 && ext == extent
      ensures rEnd == rPos == |first|
    {
      this.stream := stream;
      data := new byte[size](i => if 0 <= i < |first| then first[i] else 0);
      rPtr, rEnd, rPos := 0, |first|, |first|;
      wPtr, wEnd, wPos := 0, 0, 0;
      ext := extent;
      new;
      assert data[..|first|] == first;
    }
  }

  /** NewStreamL and the client's end of it. extent is the file's length for a stream to read,
      and -1 for one to write. */
  method OpenStream(host: Host, extent: int, size: nat, ioSize: nat) returns (buf: ClientBuf)
    requires host.Valid() && host.r == host.w == 0 && size > 0 && ioSize > 0
    requires extent == |host.file| || extent == KUnknown
    modifies host`r
    ensures fresh(buf) && fresh(buf.data) && (buf.stream != null ==> fresh(buf.stream) && buf.stream.host == host)
    ensures if extent >= 0 then buf.Right() else buf.Remembered() == (size, 0)
    ensures buf.stream == null <==> 0 <= extent <= size
    ensures buf.data.Length == size && buf.Valid() && buf.State() == Flat(old(host.file), 0, 0)
  {
    var first := [];
    if extent > 0 { first := host.Read(Min(extent, size)); }
    var stream: ServerStream? := null;
    if extent < 0 || extent > size { stream := new ServerStream(host, size, ioSize); }
    buf := new ClientBuf(stream, first, extent, size);
    assert forall i :: 0 <= i < |first| ==> buf.data[i] == buf.data[..|first|][i];
    assert stream == null ==> host.file == first;
  }
}

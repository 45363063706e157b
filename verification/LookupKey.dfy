/** A multi-column key on its way to the server: the client packs the texts its columns point at
    behind the columns and turns the pointers into offsets, the server turns them back
    (sdbms/SD_OBJ.CPP TDbsParam::PrepareLC, SD_SESS.CPP CDbsSession::LookupKeyLC). */
module LookupKey {
  import opened FlatFile

  datatype ColumnType = Text8 | Text16 | Plain

  /** A column is a union: word is the address of a text, and len its length in characters,
      or word is the value itself. */
  datatype Column = Column(kind: ColumnType, word: int, len: nat) {
    predicate IsText() { kind != Plain }

    function Width(): nat {
      if kind == Text8 then len else if kind == Text16 then 2 * len else 0
    }

    function At(ptr: int): Column {
      if IsText() then Column(kind, ptr, len) else this
    }
  }

  /** A text that is not empty lies in the memory. */
  predicate Readable(c: Column, mem: seq<byte>) {
    c.Width() == 0 || 0 <= c.word <= c.word + c.Width() <= |mem|
  }

  predicate ReadableAt(cols: seq<Column>, i: nat, mem: seq<byte>)
    requires i < |cols|
  {
    Readable(cols[i], mem)
  }

  predicate AllReadable(cols: seq<Column>, mem: seq<byte>) {
    forall i :: 0 <= i < |cols| ==> ReadableAt(cols, i, mem)
  }

  /** The bytes of a column's text in a memory. */
  function Bytes(c: Column, mem: seq<byte>): (r: seq<byte>)
    requires Readable(c, mem)
    ensures |r| == c.Width()
  {
    seq(c.Width(), k requires 0 <= k < c.Width() => mem[c.word + k])
  }

  /** The memory holds these bytes from a position on. */
  predicate Has(mem: seq<byte>, at: int, d: seq<byte>) {
    0 <= at && at + |d| <= |mem| && mem[at..at + |d|] == d
  }

  /** The bytes of text in the first n columns. */
  function Total(cols: seq<Column>, n: nat): nat
    requires n <= |cols|
  {
    if n == 0 then 0 else Total(cols, n - 1) + cols[n - 1].Width()
  }

  function Texts(cols: seq<Column>, mem: seq<byte>, n: nat): (r: seq<byte>)
    requires n <= |cols| && AllReadable(cols, mem)
    ensures |r| == Total(cols, n)
  {
    if n == 0 then []
    else
      assert ReadableAt(cols, n - 1, mem);
      Texts(cols, mem, n - 1) + Bytes(cols[n - 1], mem)
  }

  /** Where the text of column i goes, counted from the beginning of a key of this size. */
  function Offset(cols: seq<Column>, size: nat, i: nat): nat
    requires i <= |cols|
  {
    size + Total(cols, i)
  }

  function Moved(cols: seq<Column>, size: nat, i: nat): Column
    requires i < |cols|
  {
    cols[i].At(Offset(cols, size, i))
  }

  /** The packed columns: without any text nothing is relocated. */
  function Packed(cols: seq<Column>, size: nat): (r: seq<Column>)
    ensures |r| == |cols|
  {
    if Total(cols, |cols|) == 0 then cols
    else seq(|cols|, i requires 0 <= i < |cols| => Moved(cols, size, i))
  }

  /** The columns in the server, for a message of a length that was read to an address. */
  function Unpacked(cols: seq<Column>, size: nat, length: nat, base: int): (r: seq<Column>)
    ensures |r| == |cols|
  {
    if size < length then seq(|cols|, i requires 0 <= i < |cols| => Rebased(cols[i], base)) else cols
  }

  function Rebased(c: Column, base: int): Column {
    c.At(base + c.word)
  }

  // ----- the client -----

  method TextSize(cols: seq<Column>) returns (tsize: nat)
    requires cols != []
    ensures tsize == Total(cols, |cols|)
  {
    tsize := 0;
    var iter := 0;
    while iter < |cols|
      invariant 0 <= iter <= |cols| && tsize == Total(cols, iter)
    {
      match cols[iter].kind {
        case Text8 => tsize := tsize + cols[iter].len;
        case Text16 => tsize := tsize + cols[iter].len * 2;
        case Plain =>
      }
      iter := iter + 1;
    }
  }

  /** The first |d| bytes of the area. */
  ghost predicate Begins(area: array<byte>, d: seq<byte>)
    reads area
  {
    |d| <= area.Length && forall k :: 0 <= k < |d| ==> area[k] == d[k]
  }

  /** Mem::Copy. */
  method CopyText(area: array<byte>, at: nat, d: seq<byte>, ghost before: seq<byte>)
    requires at + |d| <= area.Length && |before| == at && Begins(area, before)
    modifies area
    ensures Begins(area, before + d)
  {
    forall k | 0 <= k < |d| { area[at + k] := d[k]; }
  }

  /** The first n columns have been relocated. */
  ghost predicate Relocated(key: array<Column>, cols: seq<Column>, size: nat, n: nat)
    reads key
  {
    && n <= |cols| == key.Length
    && (forall i {:trigger key[i]} :: 0 <= i < n ==> key[i] == Moved(cols, size, i))
    && (forall i {:trigger key[i]} :: n <= i < |cols| ==> key[i] == cols[i])
  }

  ghost predicate Progress(key: array<Column>, area: array<byte>, cols: seq<Column>, size: nat, mem: seq<byte>,
                           n: nat, text: nat)
    reads key, area
  {
    && Relocated(key, cols, size, n) && text == Total(cols, n)
    && AllReadable(cols, mem) && area.Length == Total(cols, |cols|) && Begins(area, Texts(cols, mem, n))
  }

  /** What the switch does with one column, at the place of its text. */
  method MoveColumn(key: array<Column>, area: array<byte>, iter: nat, text: nat, size: nat, mem: seq<byte>,
                    ghost before: seq<byte>)
    requires iter < key.Length && Readable(key[iter], mem) && |before| == text
    requires Begins(area, before) && text + key[iter].Width() <= area.Length
    modifies key, area
    ensures Begins(area, before + Bytes(old(key[iter]), mem))
    ensures forall i :: 0 <= i < key.Length ==> key[i] == if i == iter then old(key[i]).At(size + text) else old(key[i])
  {
    var c := key[iter];
    if c.IsText() {
      CopyText(area, text, Bytes(c, mem), before);
      key[iter] := c.At(size + text);
    } else {
      assert before + Bytes(c, mem) == before;
    }
  }

  method MoveText(key: array<Column>, area: array<byte>, iter: nat, text0: nat,
                  ghost cols: seq<Column>, size: nat, mem: seq<byte>) returns (text: nat)
    requires iter < |cols| && Progress(key, area, cols, size, mem, iter, text0)
    modifies key, area
    ensures Progress(key, area, cols, size, mem, iter + 1, text)
  {
    assert ReadableAt(cols, iter, mem);
    NextText(cols, mem, iter);
    ghost var before := Texts(cols, mem, iter);
    text := text0 + key[iter].Width();
    MoveColumn(key, area, iter, text0, size, mem, before);
  }

  lemma NextText(cols: seq<Column>, mem: seq<byte>, n: nat)
    requires n < |cols| && AllReadable(cols, mem) && ReadableAt(cols, n, mem)
    ensures Total(cols, n + 1) == Total(cols, n) + cols[n].Width() <= Total(cols, |cols|)
    ensures Texts(cols, mem, n + 1) == Texts(cols, mem, n) + Bytes(cols[n], mem)
  {
    TotalGrows(cols, n + 1, |cols|);
  }

  method MoveAll(key: array<Column>, area: array<byte>, ghost cols: seq<Column>, size: nat, mem: seq<byte>)
    requires Progress(key, area, cols, size, mem, 0, 0)
    modifies key, area
    ensures Progress(key, area, cols, size, mem, |cols|, area.Length)
  {
    var iter, text := 0, 0;
    while iter < key.Length
      invariant 0 <= iter <= |cols| && Progress(key, area, cols, size, mem, iter, text)
    {
      text := MoveText(key, area, iter, text, cols, size, mem);
      iter := iter + 1;
    }
    assert iter == |cols| && text == area.Length;
  }

  /** The allocated key: its columns, and the area for the texts behind them. */
  method PrepareLC(cols: seq<Column>, size: nat, mem: seq<byte>) returns (key: array<Column>, area: array<byte>)
    requires cols != [] && AllReadable(cols, mem)
    ensures fresh(key) && fresh(area)
    ensures key[..] == Packed(cols, size) && area[..] == Texts(cols, mem, |cols|)
  {
    var tsize := TextSize(cols);
    key := new Column[|cols|](i requires 0 <= i < |cols| => cols[i]);
    area := new byte[tsize];
    if tsize > 0 {
      MoveAll(key, area, cols, size, mem);
      assert area[..] == Texts(cols, mem, |cols|);
    } else {
      assert key[..] == cols;
    }
  }

  // ----- the server -----

  method LookupKeyLC(key: array<Column>, size: nat, length: nat, base: int)
    requires key.Length > 0
    modifies key
    ensures key[..] == Unpacked(old(key[..]), size, length, base)
  {
    if size < length {
      var iter := 0;
      while iter < key.Length
        invariant 0 <= iter <= key.Length
        invariant forall i :: 0 <= i < key.Length ==>
          key[i] == if i < iter then Rebased(old(key[i]), base) else old(key[i])
      {
        match key[iter].kind {
          case Text8 => key[iter] := Column(Text8, base + key[iter].word, key[iter].len);
          case Text16 => key[iter] := Column(Text16, base + key[iter].word, key[iter].len);
          case Plain =>
        }
        iter := iter + 1;
      }
    }
  }

  // ----- the two together -----

  lemma {:induction false} TotalGrows(cols: seq<Column>, i: nat, n: nat)
    requires i <= n <= |cols|
    ensures Total(cols, i) <= Total(cols, n)
    decreases n
  {
    if i < n { TotalGrows(cols, i, n - 1); }
  }

  lemma {:induction false} TextsAt(cols: seq<Column>, mem: seq<byte>, i: nat, n: nat)
    requires i < n <= |cols| && AllReadable(cols, mem) && ReadableAt(cols, i, mem)
    ensures Has(Texts(cols, mem, n), Total(cols, i), Bytes(cols[i], mem))
    decreases n
  {
    if i < n - 1 { TextsAt(cols, mem, i, n - 1); }
  }

  /** Every offset lies in the packed buffer, and the texts do not overlap. */
  lemma {:induction false} Regions(cols: seq<Column>, size: nat, i: nat, j: nat)
    requires i < j < |cols|
    ensures size <= Offset(cols, size, i)
    ensures Offset(cols, size, i) + cols[i].Width() <= Offset(cols, size, j)
    ensures Offset(cols, size, j) + cols[j].Width() <= size + Total(cols, |cols|)
  {
    TotalGrows(cols, i + 1, j);
    TotalGrows(cols, j + 1, |cols|);
  }

  lemma {:induction false} Arrives(cols: seq<Column>, size: nat, base: int, i: nat, c: Column)
    requires i < |cols| && c == Unpacked(Packed(cols, size), size, size + Total(cols, |cols|), base)[i]
    ensures c == if Total(cols, |cols|) == 0 then cols[i] else cols[i].At(base + size + Total(cols, i))
  {
  }

  /** The column is the one that was sent but for its address, and the same text is there. */
  ghost predicate SameColumn(c: Column, mem: seq<byte>, sent: Column, sentMem: seq<byte>) {
    && c == sent.At(c.word)
    && Readable(c, mem) && Readable(sent, sentMem) && Bytes(c, mem) == Bytes(sent, sentMem)
  }

  lemma {:induction false} SameMoved(c: Column, mem: seq<byte>, server: seq<byte>, from: nat, at: nat, area: seq<byte>)
    requires Readable(c, mem) && Has(area, at, Bytes(c, mem)) && Has(server, from, area)
    ensures SameColumn(c.At(from + at), server, c, mem)
  {
    var c', text := c.At(from + at), Bytes(c, mem);
    forall j | from + at <= j < from + at + |text| ensures server[j] == text[j - from - at] {
      assert server[j] == area[j - from];
    }
    assert Bytes(c', server) == text;
  }

  lemma {:induction false} SameWithoutText(c: Column, mem: seq<byte>, server: seq<byte>)
    requires c.Width() == 0
    ensures SameColumn(c, server, c, mem)
  {
    assert Bytes(c, mem) == [] == Bytes(c, server);
  }

  /** Round trip: each column arrives with its type, length and value, and its text reads the
      same in the server as it did in the client, also when there is no text at all. The message
      lies in the server's memory at base. */
  lemma {:induction false} RoundTrip(cols: seq<Column>, size: nat, mem: seq<byte>, server: seq<byte>, base: nat, i: nat, c: Column)
    requires i < |cols| && AllReadable(cols, mem)
    requires Has(server, base + size, Texts(cols, mem, |cols|))
    requires c == Unpacked(Packed(cols, size), size, size + Total(cols, |cols|), base)[i]
    ensures SameColumn(c, server, cols[i], mem)
  {
    Arrives(cols, size, base, i, c);
    SameSent(cols, mem, server, base + size, i, c);
  }

  lemma {:induction false} SameSent(cols: seq<Column>, mem: seq<byte>, server: seq<byte>, from: nat, i: nat, c: Column)
    requires i < |cols| && AllReadable(cols, mem) && Has(server, from, Texts(cols, mem, |cols|))
    requires c == if Total(cols, |cols|) == 0 then cols[i] else cols[i].At(from + Total(cols, i))
    ensures SameColumn(c, server, cols[i], mem)
  {
    assert ReadableAt(cols, i, mem);
    TextsAt(cols, mem, i, |cols|);
    SameArrived(cols[i], mem, server, from, Total(cols, i), Texts(cols, mem, |cols|), c);
  }

  lemma {:induction false} SameArrived(sent: Column, mem: seq<byte>, server: seq<byte>, from: nat, at: nat,
                                       area: seq<byte>, c: Column)
    requires Readable(sent, mem) && Has(area, at, Bytes(sent, mem)) && Has(server, from, area)
    requires c == if |area| == 0 then sent else sent.At(from + at)
    ensures SameColumn(c, server, sent, mem)
  {
    if |area| == 0 {
      SameWithoutText(sent, mem, server);
    } else {
      SameMoved(sent, mem, server, from, at, area);
    }
  }

  /** Nothing keeps a 16-bit text at an even offset: it is at one exactly when the key and the
      8-bit texts before it are an even number of bytes. */
  lemma {:induction false} EvenOffset(cols: seq<Column>, size: nat, i: nat)
    requires i <= |cols|
    ensures Offset(cols, size, i) % 2 == (size + EightBit(cols, i)) % 2
  {
    if i > 0 { EvenOffset(cols, size, i - 1); }
  }

  function EightBit(cols: seq<Column>, n: nat): nat
    requires n <= |cols|
  {
    if n == 0 then 0 else EightBit(cols, n - 1) + if cols[n - 1].kind == Text8 then cols[n - 1].len else 0
  }
}

/** The command line of the conversion tool, unquoted in the buffer it is scanned in
    (SPConv/cn_cmdparse.cpp). */
module CmdParse {

  type Text = seq<char>

  // ----- what a command line means -----

  function SkipBlanks(s: Text): (r: Text)
    ensures |r| <= |s| && r == s[|s| - |r|..]
    ensures r != [] ==> r[0] != ' '
  {
    if s != [] && s[0] == ' ' then SkipBlanks(s[1..]) else s
  }

  /** An argument up to the next blank, and what follows it. */
  function Bare(s: Text): (r: (Text, Text))
    ensures |r.0| + |r.1| == |s|
  {
    if s == [] || s[0] == ' ' then ([], s)
    else var (text, rest) := Bare(s[1..]); ([s[0]] + text, rest)
  }

  /** An argument after its opening quote, a doubled quote standing for one. */
  function Quoted(s: Text): (r: (Text, Text))
    ensures |r.0| + |r.1| <= |s|
  {
    if s == [] then ([], [])
    else if s[0] != '\"' then var (text, rest) := Quoted(s[1..]); ([s[0]] + text, rest)
    else if |s| > 1 && s[1] == '\"' then var (text, rest) := Quoted(s[2..]); (['\"'] + text, rest)
    else ([], s[1..])
  }

  function Argument(s: Text): (r: (Text, Text))
    requires s != [] && s[0] != ' '
    ensures |r.1| < |s|
  {
    if s[0] == '\"' then Quoted(s[1..]) else Bare(s)
  }

  function Parse(s: Text): seq<Text>
    decreases |s|
  {
    var s1 := SkipBlanks(s);
    if s1 == [] then []
    else var (text, rest) := Argument(s1); [text] + Parse(rest)
  }

  function Upper(up: char -> char, s: Text): (r: Text)
    ensures |r| == |s| && forall i :: 0 <= i < |s| ==> r[i] == up(s[i])
  {
    seq(|s|, i requires 0 <= i < |s| => up(s[i]))
  }

  // ----- printing -----

  function Doubled(s: Text): Text {
    if s == [] then [] else (if s[0] == '\"' then ['\"', '\"'] else [s[0]]) + Doubled(s[1..])
  }

  function Quote(s: Text): Text {
    ['\"'] + Doubled(s) + ['\"']
  }

  function Blanks(n: nat): (r: Text)
    ensures |r| == n && forall i :: 0 <= i < n ==> r[i] == ' '
  {
    seq(n, _ => ' ')
  }

  /** Quoted arguments with at least one blank after each. */
  function Print(args: seq<Text>, gaps: seq<nat>): Text
    requires |gaps| == |args|
  {
    if args == [] then [] else Before(args[0], gaps[0], Print(args[1..], gaps[1..]))
  }

  function Before(arg: Text, gap: nat, rest: Text): Text {
    Quote(arg) + (Blanks(gap + 1) + rest)
  }

  lemma {:induction false} QuotedDoubled(s: Text, rest: Text)
    requires rest == [] || rest[0] != '\"'
    ensures Quoted(Doubled(s) + ['\"'] + rest) == (s, rest)
  {
    var line := Doubled(s) + ['\"'] + rest;
    if s == [] {
      assert line == ['\"'] + rest;
    } else {
      QuotedDoubled(s[1..], rest);
      var tail := Doubled(s[1..]) + ['\"'] + rest;
      assert line == (if s[0] == '\"' then ['\"', '\"'] else [s[0]]) + tail;
      assert [s[0]] + s[1..] == s;
    }
  }

  lemma {:induction false} BlanksSkipped(n: nat, rest: Text)
    ensures SkipBlanks(Blanks(n) + rest) == SkipBlanks(rest)
    ensures Parse(Blanks(n) + rest) == Parse(rest)
    decreases n
  {
    if n > 0 {
      assert (Blanks(n) + rest)[1..] == Blanks(n - 1) + rest;
      BlanksSkipped(n - 1, rest);
    } else {
      assert Blanks(n) + rest == rest;
    }
  }

  lemma ParseOpened(tail: Text)
    ensures Parse(['\"'] + tail) == [Quoted(tail).0] + Parse(Quoted(tail).1)
  {
    var line := ['\"'] + tail;
    assert line[1..] == tail;
    assert SkipBlanks(line) == line;
  }

  lemma QuoteOpens(s: Text, rest: Text)
    ensures Quote(s) + rest == ['\"'] + (Doubled(s) + ['\"'] + rest)
  {
  }

  lemma ParseQuoted(s: Text, rest: Text)
    requires rest == [] || rest[0] != '\"'
    ensures Parse(Quote(s) + rest) == [s] + Parse(rest)
  {
    QuotedDoubled(s, rest);
    ParseOpened(Doubled(s) + ['\"'] + rest);
    QuoteOpens(s, rest);
  }

  lemma ParseFirst(arg: Text, gap: nat, rest: Text)
    ensures Parse(Before(arg, gap, rest)) == [arg] + Parse(rest)
  {
    ParseQuoted(arg, Blanks(gap + 1) + rest);
    BlanksSkipped(gap + 1, rest);
  }

  lemma PrintFirst(args: seq<Text>, gaps: seq<nat>)
    requires |gaps| == |args| > 0
    ensures Print(args, gaps) == Before(args[0], gaps[0], Print(args[1..], gaps[1..]))
  {
  }

  lemma HeadTail<T>(s: seq<T>)
    requires s != []
    ensures [s[0]] + s[1..] == s
  {
  }

  lemma {:induction false} ParsePrint(args: seq<Text>, gaps: seq<nat>)
    requires |gaps| == |args|
    ensures Parse(Print(args, gaps)) == args
    decreases |args|
  {
    if args != [] {
      PrintFirst(args, gaps);
      ParseFirst(args[0], gaps[0], Print(args[1..], gaps[1..]));
      ParsePrint(args[1..], gaps[1..]);
      HeadTail(args);
    }
  }

  /** Round trip: whatever the arguments are, empty ones and ones with blanks and quotes among
      them, parsing the quoted line gives them back, however wide the gaps. */
  lemma RoundTrip(args: seq<Text>, gaps: seq<nat>, lead: nat)
    requires |gaps| == |args|
    ensures Parse(Blanks(lead) + Print(args, gaps)) == args
  {
    BlanksSkipped(lead, Print(args, gaps));
    ParsePrint(args, gaps);
  }

  // ----- the scan -----

  /** From scan to its end the buffer holds rest. */
  ghost predicate Ahead(buf: array<char>, scan: nat, rest: Text)
    reads buf
  {
    scan + |rest| == buf.Length && forall k :: 0 <= k < |rest| ==> buf[scan + k] == rest[k]
  }

  ghost predicate Holds(buf: array<char>, at: nat, text: Text)
    reads buf
  {
    at + |text| <= buf.Length && forall k :: 0 <= k < |text| ==> buf[at + k] == text[k]
  }

  method SkipLeading(buf: array<char>, scan0: nat, ghost rest0: Text) returns (scan: nat)
    requires Ahead(buf, scan0, rest0)
    ensures scan0 <= scan && Ahead(buf, scan, SkipBlanks(rest0))
  {
    ghost var rest := rest0;
    scan := scan0;
    while scan < buf.Length && buf[scan] == ' '
      invariant scan0 <= scan && Ahead(buf, scan, rest) && SkipBlanks(rest) == SkipBlanks(rest0)
      decreases buf.Length - scan
    {
      assert buf[scan + 0] == rest[0];
      scan, rest := scan + 1, rest[1..];
    }
    assert rest != [] ==> buf[scan + 0] == rest[0];
  }

  /** *out++ = *scan++ never touches what is still to be read. */
  method Shift(buf: array<char>, scan: nat, out: nat, ghost rest: Text, ghost at: nat, ghost text: Text)
    requires rest != [] && Ahead(buf, scan, rest) && Holds(buf, at, text) && at + |text| == out <= scan
    modifies buf
    ensures Ahead(buf, scan + 1, rest[1..]) && Holds(buf, at, text + [rest[0]])
    ensures forall k :: 0 <= k < at ==> buf[k] == old(buf[k])
  {
    assert buf[scan + 0] == rest[0];
    buf[out] := buf[scan];
  }

  lemma Assoc<T>(a: seq<T>, c: T, b: seq<T>)
    ensures a + ([c] + b) == (a + [c]) + b
  {
  }

  method TakeBare(buf: array<char>, scan0: nat, out0: nat, ghost rest0: Text) returns (scan: nat, out: nat)
    requires Ahead(buf, scan0, rest0) && out0 <= scan0
    modifies buf
    ensures out <= scan && Ahead(buf, scan, Bare(rest0).1)
    ensures out == out0 + |Bare(rest0).0| && Holds(buf, out0, Bare(rest0).0)
    ensures forall k :: 0 <= k < out0 ==> buf[k] == old(buf[k])
  {
    scan, out := scan0, out0;
    ghost var rest, text := rest0, [];
    assert [] + Bare(rest0).0 == Bare(rest0).0;
    while scan < buf.Length && buf[scan] != ' '
      invariant Ahead(buf, scan, rest) && Holds(buf, out0, text) && out0 + |text| == out <= scan
      invariant Bare(rest0) == (text + Bare(rest).0, Bare(rest).1)
      invariant forall k :: 0 <= k < out0 ==> buf[k] == old(buf[k])
      decreases |rest|
    {
      assert buf[scan + 0] == rest[0];
      Shift(buf, scan, out, rest, out0, text);
      Assoc(text, rest[0], Bare(rest[1..]).0);
      text, rest := text + [rest[0]], rest[1..];
      scan, out := scan + 1, out + 1;
    }
    assert rest != [] ==> buf[scan + 0] == rest[0];
  }

  /** All up to the next quote. */
  method TakeToQuote(buf: array<char>, scan0: nat, out0: nat, ghost rest0: Text, ghost at: nat, ghost text0: Text)
    returns (scan: nat, out: nat, ghost rest: Text, ghost text: Text)
    requires Ahead(buf, scan0, rest0) && Holds(buf, at, text0) && at + |text0| == out0 <= scan0
    modifies buf
    ensures Ahead(buf, scan, rest) && Holds(buf, at, text) && at + |text| == out <= scan
    ensures rest != [] ==> rest[0] == '\"'
    ensures |rest| <= |rest0|
    ensures (text0 + Quoted(rest0).0, Quoted(rest0).1) == (text + Quoted(rest).0, Quoted(rest).1)
    ensures forall k :: 0 <= k < at ==> buf[k] == old(buf[k])
  {
    scan, out, rest, text := scan0, out0, rest0, text0;
    while scan < buf.Length && buf[scan] != '\"'
      invariant Ahead(buf, scan, rest) && Holds(buf, at, text) && at + |text| == out <= scan
      invariant |rest| <= |rest0|
      invariant (text0 + Quoted(rest0).0, Quoted(rest0).1) == (text + Quoted(rest).0, Quoted(rest).1)
      invariant forall k :: 0 <= k < at ==> buf[k] == old(buf[k])
      decreases |rest|
    {
      assert buf[scan + 0] == rest[0];
      Shift(buf, scan, out, rest, at, text);
      Assoc(text, rest[0], Quoted(rest[1..]).0);
      text, rest := text + [rest[0]], rest[1..];
      scan, out := scan + 1, out + 1;
    }
    assert rest != [] ==> buf[scan + 0] == rest[0];
  }

  /** One quote-or-double sequence; more says that a doubled quote was transferred. */
  method TakeSequence(buf: array<char>, scan0: nat, out0: nat, ghost rest0: Text, ghost at: nat, ghost text0: Text)
    returns (scan: nat, out: nat, more: bool, ghost rest: Text, ghost text: Text)
    requires Ahead(buf, scan0, rest0) && Holds(buf, at, text0) && at + |text0| == out0 <= scan0
    modifies buf
    ensures Ahead(buf, scan, rest) && Holds(buf, at, text) && at + |text| == out <= scan
    ensures if more then
              |rest| < |rest0|
              && (text0 + Quoted(rest0).0, Quoted(rest0).1) == (text + Quoted(rest).0, Quoted(rest).1)
            else (text0 + Quoted(rest0).0, Quoted(rest0).1) == (text, rest)
    ensures forall k :: 0 <= k < at ==> buf[k] == old(buf[k])
  {
    scan, out, rest, text := TakeToQuote(buf, scan0, out0, rest0, at, text0);
    ghost var atQuote := rest;
    if scan < buf.Length {
      scan, rest := scan + 1, rest[1..];
    }
    assert rest != [] ==> buf[scan + 0] == rest[0];
    more := scan < buf.Length && buf[scan] == '\"';
    if more {
      Shift(buf, scan, out, rest, at, text);
      DoubledQuote(atQuote, text);
      text, rest := text + [rest[0]], rest[1..];
      scan, out := scan + 1, out + 1;
    } else {
      assert text + [] == text;
    }
  }

  lemma DoubledQuote(s: Text, text: Text)
    requires |s| > 1 && s[0] == s[1] == '\"'
    ensures s[1..][1..] == s[2..]
    ensures text + Quoted(s).0 == (text + ['\"']) + Quoted(s[2..]).0
  {
    Assoc(text, '\"', Quoted(s[2..]).0);
  }

  method TakeQuoted(buf: array<char>, scan0: nat, out0: nat, ghost rest0: Text) returns (scan: nat, out: nat)
    requires Ahead(buf, scan0, rest0) && out0 <= scan0
    modifies buf
    ensures out <= scan && Ahead(buf, scan, Quoted(rest0).1)
    ensures out == out0 + |Quoted(rest0).0| && Holds(buf, out0, Quoted(rest0).0)
    ensures forall k :: 0 <= k < out0 ==> buf[k] == old(buf[k])
  {
    scan, out := scan0, out0;
    ghost var rest, text := rest0, [];
    var more := true;
    assert [] + Quoted(rest0).0 == Quoted(rest0).0;
    while more
      invariant Ahead(buf, scan, rest) && Holds(buf, out0, text) && out0 + |text| == out <= scan
      invariant Quoted(rest0) == if more then (text + Quoted(rest).0, Quoted(rest).1) else (text, rest)
      invariant forall k :: 0 <= k < out0 ==> buf[k] == old(buf[k])
      decreases if more then |rest| + 1 else 0
    {
      scan, out, more, rest, text := TakeSequence(buf, scan, out, rest, out0, text);
    }
  }

  /** Upper-casing one piece of the buffer. */
  method UpperCase(buf: array<char>, start: nat, end: nat, up: char -> char)
    requires start <= end <= buf.Length
    modifies buf
    ensures forall k :: 0 <= k < buf.Length ==> buf[k] == if start <= k < end then up(old(buf[k])) else old(buf[k])
  {
    for i := start to end
      invariant forall k :: 0 <= k < buf.Length ==> buf[k] == if start <= k < i then up(old(buf[k])) else old(buf[k])
    {
      buf[i] := up(buf[i]);
    }
  }

  /** An argument as the caller sees it: a piece of the buffer. */
  datatype Piece = Piece(start: nat, end: nat)

  ghost predicate Arg(buf: array<char>, p: Piece, limit: nat, text: Text)
    reads buf
  {
    p.start <= p.end <= limit && p.end - p.start == |text| && Holds(buf, p.start, text)
  }

  /** One argument: scanned, unquoted, upper-cased. */
  method TakeArgument(buf: array<char>, scan0: nat, out0: nat, up: char -> char, ghost rest0: Text)
    returns (scan: nat, out: nat)
    requires Ahead(buf, scan0, rest0) && out0 <= scan0 && rest0 != [] && rest0[0] != ' '
    modifies buf
    ensures out <= scan && Ahead(buf, scan, Argument(rest0).1)
    ensures Arg(buf, Piece(out0, out), out, Upper(up, Argument(rest0).0))
    ensures forall k :: 0 <= k < out0 ==> buf[k] == old(buf[k])
  {
    scan := scan0;
    assert buf[scan + 0] == rest0[0];
    if buf[scan] == '\"' {
      scan, out := TakeQuoted(buf, scan + 1, out0, rest0[1..]);
    } else {
      scan, out := TakeBare(buf, scan, out0, rest0);
    }
    UpperCase(buf, out0, out, up);
  }

  /** The next argument, if there is one, and what is still to come. */
  method ScanOne(buf: array<char>, scan0: nat, out0: nat, up: char -> char, ghost rest0: Text)
    returns (scan: nat, out: nat, found: bool, ghost text: Text, ghost rest: Text)
    requires Ahead(buf, scan0, rest0) && out0 <= scan0
    modifies buf
    ensures Ahead(buf, scan, rest) && out0 <= out <= scan
    ensures Parse(rest0) == if found then [text] + Parse(rest) else []
    ensures found ==> |rest| < |rest0| && Arg(buf, Piece(out0, out), out, Upper(up, text))
    ensures forall k :: 0 <= k < out0 ==> buf[k] == old(buf[k])
  {
    rest := SkipBlanks(rest0);
    scan := SkipLeading(buf, scan0, rest0);
    out, text := out0, [];
    found := scan < buf.Length;
    if found {
      text, rest := Argument(rest).0, Argument(rest).1;
      scan, out := TakeArgument(buf, scan, out0, up, SkipBlanks(rest0));
    }
  }

  ghost predicate Pieces(buf: array<char>, args: seq<Piece>, limit: nat, up: char -> char, texts: seq<Text>)
    reads buf
  {
    |args| == |texts| && forall i :: 0 <= i < |args| ==> Arg(buf, args[i], limit, Upper(up, texts[i]))
  }

  /** The loop: the arguments so far, the text ahead, and what all of it means. */
  ghost predicate Scanned(buf: array<char>, scan: nat, out: nat, up: char -> char,
                          args: seq<Piece>, texts: seq<Text>, rest: Text, all: seq<Text>)
    reads buf
  {
    Ahead(buf, scan, rest) && out <= scan && Pieces(buf, args, out, up, texts) && texts + Parse(rest) == all
  }

  method ScanKeeping(buf: array<char>, scan0: nat, out0: nat, up: char -> char, ghost rest0: Text,
                     ghost args: seq<Piece>, ghost texts: seq<Text>)
    returns (scan: nat, out: nat, found: bool, ghost text: Text, ghost rest: Text)
    requires Ahead(buf, scan0, rest0) && out0 <= scan0 && Pieces(buf, args, out0, up, texts)
    modifies buf
    ensures Pieces(buf, args, out0, up, texts)
    ensures Ahead(buf, scan, rest) && out0 <= out <= scan
    ensures Parse(rest0) == if found then [text] + Parse(rest) else []
    ensures found ==> |rest| < |rest0| && Arg(buf, Piece(out0, out), out, Upper(up, text))
  {
    scan, out, found, text, rest := ScanOne(buf, scan0, out0, up, rest0);
    forall i | 0 <= i < |args| ensures Arg(buf, args[i], out0, Upper(up, texts[i])) {
      assert old(Arg(buf, args[i], out0, Upper(up, texts[i])));
    }
  }

  method ScanMore(buf: array<char>, scan0: nat, out0: nat, up: char -> char, args0: seq<Piece>,
                  ghost texts0: seq<Text>, ghost rest0: Text, ghost all: seq<Text>)
    returns (scan: nat, out: nat, found: bool, args: seq<Piece>, ghost texts: seq<Text>, ghost rest: Text)
    requires Scanned(buf, scan0, out0, up, args0, texts0, rest0, all)
    modifies buf
    ensures if found then Scanned(buf, scan, out, up, args, texts, rest, all) && |rest| < |rest0|
            else out <= buf.Length && Pieces(buf, args, out, up, all)
  {
    ghost var text;
    scan, out, found, text, rest := ScanKeeping(buf, scan0, out0, up, rest0, args0, texts0);
    if found {
      Assoc(texts0, text, Parse(rest));
      PiecesMore(buf, args0, out0, Piece(out0, out), out, up, texts0, text);
      args, texts := args0 + [Piece(out0, out)], texts0 + [text];
    } else {
      args, texts := args0, texts0;
      assert texts0 + [] == texts0;
      PiecesLimit(buf, args0, out0, buf.Length, up, texts0);
    }
  }

  lemma PiecesLimit(buf: array<char>, args: seq<Piece>, limit0: nat, limit: nat, up: char -> char, texts: seq<Text>)
    requires Pieces(buf, args, limit0, up, texts) && limit0 <= limit
    ensures Pieces(buf, args, limit, up, texts)
  {
  }

  lemma PiecesMore(buf: array<char>, args: seq<Piece>, limit0: nat, p: Piece, limit: nat, up: char -> char,
                   texts: seq<Text>, text: Text)
    requires Pieces(buf, args, limit0, up, texts) && limit0 <= limit && Arg(buf, p, limit, Upper(up, text))
    ensures Pieces(buf, args + [p], limit, up, texts + [text])
  {
  }

  /** The whole scan: unquoting in place gives the upper-cased arguments of the original line,
      each still in its piece of the buffer at the end. */
  method ConstructL(buf: array<char>, up: char -> char) returns (args: seq<Piece>)
    modifies buf
    ensures Pieces(buf, args, buf.Length, up, Parse(old(buf[..])))
  {
    ghost var texts: seq<Text>, rest, all := [], buf[..], Parse(buf[..]);
    var scan: nat, out: nat, found := 0, 0, true;
    args := [];
    assert texts + all == all;
    while scan < buf.Length && found
      invariant if found then Scanned(buf, scan, out, up, args, texts, rest, all)
                else out <= buf.Length && Pieces(buf, args, out, up, all)
      decreases found, |rest|
    {
      scan, out, found, args, texts, rest := ScanMore(buf, scan, out, up, args, texts, rest, all);
    }
    if found {
      assert rest == [] && Parse(rest) == [] && texts + [] == texts;
    }
  }
}

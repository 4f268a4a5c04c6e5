/** The line-placement protocol of lab5/zad3.  A producer sends the blocks of its input
    file through a FIFO as frames: an 11-byte header, the line number right-aligned in ten
    columns and a ':', then the block ending in a newline.  A consumer reads what the FIFO
    holds, splits it into messages at the newlines and appends each payload to the given
    line of its output file, padding the file with empty lines when it is shorter. */
module FrameCodec {
  import opened Common

  /** The largest line number a producer accepts. */
  const MAXLINE: nat := 100000
  /** The header: ten columns of line number and the ':'. */
  const HEADER_LEN: nat := 11

  // ---------------------------------------------------------------- the producer

  /** The arguments <fifo> <line num> <in file> <block size>: the line number in
      1..MAXLINE and the block size, at least 0; None is the usage message and exit code 2. */
  function ProducerArgs(argv: seq<string>): (r: Option<(nat, nat)>)
    ensures r.Some? <==>
      |argv| == 5 && ParseLong(argv[4]).Some? && ParseLong(argv[4]).value >= 0 &&
      ParseLong(argv[2]).Some? && 1 <= ParseLong(argv[2]).value <= MAXLINE
    ensures r.Some? ==> r.value.0 == ParseLong(argv[2]).value && r.value.1 == ParseLong(argv[4]).value
  {
    if |argv| != 5 then None
    else match (ParseLong(argv[2]), ParseLong(argv[4]))
      case (Some(n), Some(b)) => if b >= 0 && 1 <= n <= MAXLINE then Some((n as nat, b as nat)) else None
      case _ => None
  }

  function DigitChar(d: nat): (c: char)
    requires d < 10
    ensures IsDigitChar(c) && c as int - '0' as int == d
  {
    ('0' as int + d) as char
  }

  /** n in decimal, without leading zeros. */
  function Decimal(n: nat): (s: string)
    ensures 1 <= |s| && forall i :: 0 <= i < |s| ==> IsDigitChar(s[i])
  {
    if n < 10 then [DigitChar(n)] else Decimal(n / 10) + [DigitChar(n % 10)]
  }

  /** Reading the decimal digits back gives the number. */
  lemma {:induction false} DecimalValue(n: nat)
    ensures DigitsValue(Decimal(n)) == n
  {
    if n >= 10 {
      DecimalValue(n / 10);
      var s := Decimal(n);
      assert s[..|s| - 1] == Decimal(n / 10);
    }
  }

  function Pow10(k: nat): nat {
    if k == 0 then 1 else 10 * Pow10(k - 1)
  }

  lemma {:induction false} DecimalLength(n: nat, k: nat)
    requires 1 <= k && n < Pow10(k)
    ensures |Decimal(n)| <= k
  {
    if n >= 10 {
      DecimalLength(n / 10, k - 1);
    }
  }

  /** A line number has at most six digits. */
  lemma DecimalWidth(n: nat)
    requires n <= MAXLINE
    ensures |Decimal(n)| <= 6
  {
    assert Pow10(1) == 10;
    assert Pow10(2) == 100;
    assert Pow10(3) == 1000;
    assert Pow10(4) == 10000;
    assert Pow10(5) == 100000;
    assert Pow10(6) == 1000000;
    DecimalLength(n, 6);
  }

  /** k copies of c: the blanks that pad the header, the empty lines that pad the file. */
  function Repeat(c: char, k: nat): (s: string)
    ensures |s| == k && forall i :: 0 <= i < k ==> s[i] == c
  {
    seq(k, _ => c)
  }

  /** sprintf(buf, "% 10ld:", lineno): the line number right-aligned in ten columns, then
      ':'.  The blank the space flag puts before a positive number lies inside the padding,
      since a line number has at most six digits. */
  function Header(lineno: nat): (h: string)
    requires 1 <= lineno <= MAXLINE
    ensures |h| == HEADER_LEN && h[10] == ':'
    ensures forall i :: 0 <= i < 10 ==> h[i] == ' ' || IsDigitChar(h[i])
  {
    DecimalWidth(lineno);
    Repeat(' ', 10 - |Decimal(lineno)|) + Decimal(lineno) + ":"
  }

  /** The block with a '\n' appended unless its last byte is one. */
  function Terminated(chunk: string): (t: string)
    requires chunk != []
    ensures |chunk| <= |t| <= |chunk| + 1 && t[..|chunk|] == chunk && t[|t| - 1] == '\n'
    ensures |t| == |chunk| <==> chunk[|chunk| - 1] == '\n'
  {
    if chunk[|chunk| - 1] != '\n' then chunk + "\n" else chunk
  }

  /** The frame sent for one block. */
  function Frame(lineno: nat, chunk: string): string
    requires 1 <= lineno <= MAXLINE && chunk != []
  {
    Header(lineno) + Terminated(chunk)
  }

  /** The producer's loop after the argument check.  Each element of `blocks` is what one
      read() of at most blocksize bytes stored after the header; the loop ends at the
      first read that returns 0, which is not listed.  Each frame is the buffer's header
      and block, with the newline written in place after a block that lacks one, and fits
      in the blocksize + 12 bytes of the buffer. */
  method Produce(lineno: nat, blocksize: nat, blocks: seq<string>) returns (frames: seq<string>)
    requires 1 <= lineno <= MAXLINE
    requires forall k :: 0 <= k < |blocks| ==> 0 < |blocks[k]| <= blocksize
    ensures |frames| == |blocks|
    ensures forall k :: 0 <= k < |blocks| ==>
      frames[k] == Frame(lineno, blocks[k]) && |frames[k]| <= blocksize + 12
  {
    var buf := new char[blocksize + 12];
    var header := Header(lineno);
    forall j | 0 <= j < HEADER_LEN {
      buf[j] := header[j];
    }
    frames := [];
    for k := 0 to |blocks|
      invariant buf[..HEADER_LEN] == header
      invariant |frames| == k
      invariant forall k' :: 0 <= k' < k ==>
        frames[k'] == Frame(lineno, blocks[k']) && |frames[k']| <= blocksize + 12
    {
      var chunk := blocks[k];
      var nread := |chunk|;
      forall j | 0 <= j < nread {
        buf[HEADER_LEN + j] := chunk[j];
      }
      assert buf[HEADER_LEN..HEADER_LEN + nread] == chunk;
      if buf[HEADER_LEN + nread - 1] != '\n' {
        buf[HEADER_LEN + nread] := '\n';
        nread := nread + 1;
      }
      assert buf[HEADER_LEN..HEADER_LEN + nread] == Terminated(chunk);
      assert buf[..HEADER_LEN + nread] == header + Terminated(chunk);
      frames := frames + [buf[..HEADER_LEN + nread]];
    }
  }

  // ---------------------------------------------------------------- the consumer

  /** The arguments <fifo> <out file> <block size>, the block size at least 0; None is the
      usage message and exit code 2. */
  function ConsumerArgs(argv: seq<string>): (r: Option<nat>)
    ensures r.Some? <==> |argv| == 4 && ParseLong(argv[3]).Some? && ParseLong(argv[3]).value >= 0
    ensures r.Some? ==> r.value == ParseLong(argv[3]).value
  {
    if |argv| == 4 && ParseLong(argv[3]).Some? && ParseLong(argv[3]).value >= 0
    then Some(ParseLong(argv[3]).value as nat) else None
  }

  /** How the consumer's start ends: it reaches its copy loop, or it exits with a code
      after perror reports a message. */
  datatype Start = Running | Exit(code: int, message: string)

  /** The start as written.  The second open check tests the FIFO's descriptor again,
      so a failed open of the output file is only noticed by the first statement of the
      loop: flock on descriptor -1 fails, and lock reports a failed file lock and exits
      with 1. */
  function ConsumerStartAsWritten(fifofd: int, outfd: int): (r: Start)
    ensures r.Running? <==> fifofd >= 0 && outfd >= 0
    ensures r.Exit? ==> r.code == 1
    ensures fifofd >= 0 && outfd < 0 ==> r.message == "Failed to acquire file lock"
  {
    if fifofd < 0 then Exit(1, "Failed to open fifo")
    else if fifofd < 0 then Exit(1, "Failed to open output file")
    else if outfd < 0 then Exit(1, "Failed to acquire file lock")
    else Running
  }

  /** The evident intent: each open is checked and reported under its own message. */
  function ConsumerStart(fifofd: int, outfd: int): (r: Start)
    ensures r.Running? <==> fifofd >= 0 && outfd >= 0
    ensures r.Exit? ==> r.code == 1
    ensures r.Exit? ==> (r.message == "Failed to open fifo" <==> fifofd < 0)
    ensures fifofd >= 0 && outfd < 0 ==> r.message == "Failed to open output file"
  {
    if fifofd < 0 then Exit(1, "Failed to open fifo")
    else if outfd < 0 then Exit(1, "Failed to open output file")
    else Running
  }

  /** The two starts run and exit alike, with code 1; they differ only in the message
      for an output file that failed to open. */
  lemma ConsumerStartMessageOnly(fifofd: int, outfd: int)
    ensures ConsumerStart(fifofd, outfd).Running? == ConsumerStartAsWritten(fifofd, outfd).Running?
    ensures ConsumerStart(fifofd, outfd).Exit? ==>
      ConsumerStart(fifofd, outfd).code == ConsumerStartAsWritten(fifofd, outfd).code
    ensures ConsumerStart(fifofd, outfd) != ConsumerStartAsWritten(fifofd, outfd) <==> fifofd >= 0 && outfd < 0
  {
  }

  /** A FIFO that opens and an output file that does not: the check as written lets the
      consumer reach its loop, where it exits with 1 reporting a failed file lock instead
      of the failed open. */
  lemma OpenCheckMissesOutput()
    ensures ConsumerStartAsWritten(3, -1) == Exit(1, "Failed to acquire file lock")
    ensures ConsumerStart(3, -1) == Exit(1, "Failed to open output file")
  {
  }

  /** memchr / rawmemchr: the first index of c in s, if any. */
  function Find(s: string, c: char): (r: Option<nat>)
    ensures r.Some? ==> r.value < |s| && s[r.value] == c && forall j :: 0 <= j < r.value ==> s[j] != c
    ensures r.None? ==> forall j :: 0 <= j < |s| ==> s[j] != c
  {
    if s == [] then None
    else if s[0] == c then Some(0)
    else match Find(s[1..], c)
      case None => None
      case Some(k) => Some(k + 1)
  }

  /** What the consumer makes of one message: the payload for a line, invalid data, or a
      failed assert on the position of the ':'. */
  datatype Decoded = Message(lineno: nat, payload: string) | BadData | BadHeader

  /** One message, up to and including its first '\n': it must hold a ':', the first ':'
      must be at index 10, and atoi of the header must be positive.  The payload follows
      the ':' and ends with the message's newline. */
  function Decode(msg: string): (d: Decoded)
    requires msg != []
    ensures d.BadData? <==> Find(msg, ':').None? || (Find(msg, ':') == Some(10) && Atoi(msg) <= 0)
    ensures d.BadHeader? <==> Find(msg, ':').Some? && Find(msg, ':') != Some(10)
    ensures d.Message? ==> d.lineno == Atoi(msg) >= 1 && |msg| >= HEADER_LEN && d.payload == msg[HEADER_LEN..]
  {
    match Find(msg, ':')
    case None => BadData
    case Some(c) =>
      if c != 10 then BadHeader
      else if Atoi(msg) <= 0 then BadData
      else Message(Atoi(msg), msg[HEADER_LEN..])
  }

  /** How one pass of the consumer's main loop ends. */
  datatype Outcome =
    | Finished(out: string)                  // nothing was read: the FIFO is closed
    | Placed(out: string)                    // every message read was placed
    | Rejected(out: string, echoed: string)  // invalid data: `echoed` goes to stdout, exit 1
    | Aborted(out: string)                   // the assert on the ':' position fails

  /** The index of the n-th '\n' of s, counting from 1. */
  function NthNewline(s: string, n: nat): (i: nat)
    requires 1 <= n <= Count(s, '\n')
    ensures i < |s| && s[i] == '\n' && Count(s[..i], '\n') == n - 1
    decreases |s|
  {
    if Count(s[..|s| - 1], '\n') >= n then
      var i := NthNewline(s[..|s| - 1], n);
      assert s[..|s| - 1][..i] == s[..i];
      i
    else
      |s| - 1
  }

  /** The n-th newline is the only newline with n - 1 newlines before it. */
  lemma {:induction false} NthNewlineUnique(s: string, n: nat, j: nat)
    requires 1 <= n && j < |s| && s[j] == '\n' && Count(s[..j], '\n') == n - 1
    ensures n <= Count(s, '\n') && NthNewline(s, n) == j
    decreases |s|
  {
    assert s[..j + 1][..j] == s[..j];
    CountPrefix(s, j + 1, |s|, '\n');
    assert s[..|s|] == s;
    var t := s[..|s| - 1];
    if j < |s| - 1 {
      assert t[..j] == s[..j];
      CountPrefix(s, j + 1, |s| - 1, '\n');
      assert s[..|s| - 1] == t[..|t|];
      NthNewlineUnique(t, n, j);
    } else {
      assert t == s[..j];
    }
  }

  /** Placing `payload` at the end of line `lineno` of the output file: when the file has
      at least lineno newlines, the payload takes the place of the lineno-th newline;
      otherwise the file is padded with newlines up to lineno - 1 lines and the payload
      appended. */
  function Place(out: string, lineno: nat, payload: string): string
    requires lineno >= 1
  {
    if Count(out, '\n') >= lineno then
      var i := NthNewline(out, lineno);
      out[..i] + payload + out[i + 1..]
    else
      out + Repeat('\n', lineno - 1 - Count(out, '\n')) + payload
  }

  /** Where the payload lands in the placed file. */
  function PayloadStart(out: string, lineno: nat): nat
    requires lineno >= 1
  {
    if Count(out, '\n') >= lineno then NthNewline(out, lineno)
    else |out| + (lineno - 1 - Count(out, '\n'))
  }

  /** The payload lands after exactly lineno - 1 newlines, so at the end of line lineno,
      and taking it out again and putting back one newline gives the old file, padded to
      lineno lines: every other byte keeps its place in order. */
  lemma PlaceOnLine(out: string, lineno: nat, payload: string)
    requires lineno >= 1
    ensures var r := Place(out, lineno, payload); var j := PayloadStart(out, lineno);
      j + |payload| <= |r| && r[j..j + |payload|] == payload && Count(r[..j], '\n') == lineno - 1 &&
      r[..j] + "\n" + r[j + |payload|..] ==
        (if Count(out, '\n') >= lineno then out else out + Repeat('\n', lineno - Count(out, '\n')))
  {
    var c := Count(out, '\n');
    var r := Place(out, lineno, payload);
    var j := PayloadStart(out, lineno);
    if c >= lineno {
      var a, b := out[..j], out[j + 1..];
      assert r == a + payload + b;
      ThreeParts(a, payload, b);
      assert out == a + "\n" + b;
    } else {
      var pad := Repeat('\n', lineno - 1 - c);
      var a := out + pad;
      assert r == a + payload + [];
      ThreeParts(a, payload, []);
      CountAppend(out, pad, '\n');
      CountAll(pad);
      assert a + "\n" == out + Repeat('\n', lineno - c);
    }
  }

  /** A string made only of newlines has as many newlines as bytes. */
  lemma {:induction false} CountAll(s: string)
    requires forall i :: 0 <= i < |s| ==> s[i] == '\n'
    ensures Count(s, '\n') == |s|
  {
    if s != [] {
      CountAll(s[..|s| - 1]);
    }
  }

  lemma Count3(a: string, b: string, c: string, x: char)
    ensures Count(a + b + c, x) == Count(a, x) + Count(b, x) + Count(c, x)
  {
    CountAppend(a, b, x);
    CountAppend(a + b, c, x);
  }

  lemma CountNewline()
    ensures Count("\n", '\n') == 1
  {
    assert "\n"[..0] == [];
  }

  /** A payload with one newline, its last byte, leaves the file with max(lines, lineno)
      newlines. */
  lemma PlaceCount(out: string, lineno: nat, payload: string)
    requires lineno >= 1 && Count(payload, '\n') == 1
    ensures Count(Place(out, lineno, payload), '\n') ==
      (if Count(out, '\n') >= lineno then Count(out, '\n') else lineno)
  {
    if Count(out, '\n') >= lineno {
      PlaceCountInside(out, lineno, payload);
    } else {
      PlaceCountPadded(out, lineno, payload);
    }
  }

  /** The payload takes the place of a newline and brings one. */
  lemma PlaceCountInside(out: string, lineno: nat, payload: string)
    requires lineno >= 1 && Count(payload, '\n') == 1 && Count(out, '\n') >= lineno
    ensures Count(Place(out, lineno, payload), '\n') == Count(out, '\n')
  {
    var i := NthNewline(out, lineno);
    var a, b := out[..i], out[i + 1..];
    assert Place(out, lineno, payload) == a + payload + b;
    assert out == a + "\n" + b;
    Count3(a, "\n", b, '\n');
    Count3(a, payload, b, '\n');
    CountNewline();
  }

  /** The padding brings the missing newlines but one, and the payload brings that one. */
  lemma PlaceCountPadded(out: string, lineno: nat, payload: string)
    requires lineno >= 1 && Count(payload, '\n') == 1 && Count(out, '\n') < lineno
    ensures Count(Place(out, lineno, payload), '\n') == lineno
  {
    var pad := Repeat('\n', lineno - 1 - Count(out, '\n'));
    assert Place(out, lineno, payload) == out + pad + payload;
    CountAll(pad);
    Count3(out, pad, payload, '\n');
  }

  /** Placing a payload that ends in '\n' keeps a file that ends in '\n' (or is empty)
      ending in '\n'. */
  lemma PlaceEndsInNewline(out: string, lineno: nat, payload: string)
    requires lineno >= 1 && payload != [] && payload[|payload| - 1] == '\n'
    requires out == [] || out[|out| - 1] == '\n'
    ensures Place(out, lineno, payload) != [] && Place(out, lineno, payload)[|Place(out, lineno, payload)| - 1] == '\n'
  {
    var r := Place(out, lineno, payload);
    if Count(out, '\n') >= lineno {
      var i := NthNewline(out, lineno);
      if i + 1 < |out| {
        assert r[|r| - 1] == out[|out| - 1];
      } else {
        assert r[|r| - 1] == payload[|payload| - 1];
      }
    }
  }

  /** What the consumer does with the bytes one pass of its read loop collected. */
  function Receive(data: string, out: string): Outcome {
    if data == [] then Finished(out)
    else if data[|data| - 1] != '\n' then Rejected(out, data)
    else Messages(data, out)
  }

  /** The messages of a buffer that ends in '\n', each up to its first '\n', placed one
      after another; invalid data stops the pass and echoes the offending message. */
  function Messages(data: string, out: string): Outcome
    requires data != [] && data[|data| - 1] == '\n'
    decreases |data|
  {
    var e := Find(data, '\n').value + 1;
    match Decode(data[..e])
    case BadData => Rejected(out, data[..e])
    case BadHeader => Aborted(out)
    case Message(n, payload) =>
      var out2 := Place(out, n, payload);
      if e == |data| then Placed(out2) else Messages(data[e..], out2)
  }

  /** The newline-counting loop and the insert or append that follows it. */
  method PlaceLine(out: string, lineno: nat, payload: string) returns (res: string)
    requires lineno >= 1
    ensures res == Place(out, lineno, payload)
  {
    var curline := 0;
    var i := 0;
    while i < |out| && curline < lineno
      invariant i <= |out| && curline == Count(out[..i], '\n') && curline <= lineno
      invariant curline == lineno ==> i > 0 && out[i - 1] == '\n' && Count(out[..i - 1], '\n') == lineno - 1
    {
      assert out[..i + 1][..i] == out[..i];
      if out[i] == '\n' {
        curline := curline + 1;
      }
      i := i + 1;
    }
    if curline == lineno {
      i := i - 1;
      NthNewlineUnique(out, lineno, i);
      res := out[..i] + payload + out[i + 1..];
    } else {
      assert out[..i] == out;
      res := out;
      ghost var c := curline;
      while curline < lineno - 1
        invariant c <= curline <= lineno - 1 && res == out + Repeat('\n', curline - c)
      {
        assert Repeat('\n', curline - c) + "\n" == Repeat('\n', curline + 1 - c);
        res := res + "\n";
        curline := curline + 1;
      }
      res := res + payload;
    }
  }

  /** A guard that keeps the recursive Messages out of the loop's context: only the
      step lemmas below mention Recall and so open Pending. */
  ghost predicate Recall(k: nat) {
    true
  }

  /** The messages still in the buffer, placed on `out`, give the pass's outcome. */
  ghost predicate Pending(data: string, out: string, want: Outcome) {
    data != [] && data[|data| - 1] == '\n' &&
    forall k: nat {:trigger Recall(k)} :: Recall(k) ==> Messages(data, out) == want
  }

  lemma PendingStart(data: string, out: string)
    requires data != [] && data[|data| - 1] == '\n'
    ensures Pending(data, out, Receive(data, out))
  {
  }

  /** memchr(buf, c, n), and rawmemchr when c is known to occur: the index of the first c
      among the first n bytes, or n when there is none. */
  method MemChr(buf: array<char>, n: nat, c: char) returns (i: nat)
    requires n <= buf.Length
    ensures i == if Find(buf[..n], c).Some? then Find(buf[..n], c).value else n
  {
    i := 0;
    while i < n && buf[i] != c
      invariant i <= n && forall j :: 0 <= j < i ==> buf[j] != c
    {
      i := i + 1;
    }
    ghost var s := buf[..n];
    assert forall j :: 0 <= j < i ==> s[j] != c;
  }

  /** The first message ends the pass: invalid data or a failed assert. */
  lemma StopAt(data: string, out: string, want: Outcome, e: nat)
    requires Pending(data, out, want) && 0 < e <= |data| && Find(data, '\n') == Some(e - 1)
    ensures Decode(data[..e]).BadData? ==> want == Rejected(out, data[..e])
    ensures Decode(data[..e]).BadHeader? ==> want == Aborted(out)
  {
    assert Recall(0);
  }

  /** The first message is placed, and it was the last one. */
  lemma PlaceLast(data: string, out: string, want: Outcome, e: nat, n: nat, payload: string)
    requires Pending(data, out, want) && e == |data| && Find(data, '\n') == Some(e - 1)
    requires Decode(data[..e]) == Message(n, payload)
    ensures want == Placed(Place(out, n, payload))
  {
    PendingIs(data, out, want);
    MessagesStep(data, out, e, n, payload);
  }

  /** The first message is placed, and the rest of the buffer follows. */
  lemma PlaceRest(data: string, out: string, want: Outcome, e: nat, n: nat, payload: string)
    requires Pending(data, out, want) && 0 < e < |data| && Find(data, '\n') == Some(e - 1)
    requires Decode(data[..e]) == Message(n, payload)
    ensures Pending(data[e..], Place(out, n, payload), want)
  {
    PendingIs(data, out, want);
    MessagesStep(data, out, e, n, payload);
    PendingRest(data, e, Place(out, n, payload), want);
  }

  lemma PendingIs(data: string, out: string, want: Outcome)
    requires Pending(data, out, want)
    ensures Messages(data, out) == want
  {
    assert Recall(0);
  }

  lemma PendingRest(data: string, e: nat, out: string, want: Outcome)
    requires 0 < e < |data| && data[|data| - 1] == '\n' && Messages(data[e..], out) == want
    ensures Pending(data[e..], out, want)
  {
    assert data[e..][|data[e..]| - 1] == data[|data| - 1];
  }


  /** Messages places the first message and goes on with the rest of the buffer. */
  lemma MessagesStep(data: string, out: string, e: nat, n: nat, payload: string)
    requires data != [] && data[|data| - 1] == '\n' && 0 < e <= |data| && Find(data, '\n') == Some(e - 1)
    requires Decode(data[..e]) == Message(n, payload)
    ensures Messages(data, out) ==
      if e == |data| then Placed(Place(out, n, payload)) else Messages(data[e..], Place(out, n, payload))
  {
  }

  /** memmove(buf, buf + e, n - e): the bytes from e up to n move to the front. */
  method MemMove(buf: array<char>, e: nat, n: nat)
    requires e <= n <= buf.Length
    modifies buf
    ensures buf[..n - e] == old(buf[e..n])
  {
    ghost var moving := buf[e..n];
    forall j | 0 <= j < n - e {
      buf[j] := buf[e + j];
    }
    ghost var moved := buf[..n - e];
    assert forall j :: 0 <= j < n - e ==> moved[j] == moving[j];
  }

  /** One pass of the consumer's loop over the p0 bytes its read loop collected in buf:
      the check that they end in '\n', then the repeat over coalesced messages, each found
      with rawmemchr and memchr, placed, and moved out of the buffer with memmove. */
  method Consume(buf: array<char>, p0: nat, out0: string) returns (r: Outcome)
    requires p0 <= buf.Length
    modifies buf
    ensures r == Receive(old(buf[..p0]), out0)
  {
    if p0 == 0 {
      return Finished(out0);
    }
    if buf[p0 - 1] != '\n' {
      return Rejected(out0, buf[..p0]);
    }
    ghost var want := Receive(buf[..p0], out0);
    PendingStart(buf[..p0], out0);
    var p := p0;
    var out := out0;
    while true
      invariant 0 < p <= buf.Length && Pending(buf[..p], out, want)
      decreases p
    {
      ghost var data := buf[..p];
      var origp := p;
      var e := MemChr(buf, p, '\n');
      e := e + 1;
      ghost var msg := data[..e];
      assert buf[..e] == msg;
      var d := DecodeMessage(buf, e);
      StopAt(data, out, want, e);
      match d
      case BadData =>
        return Rejected(out, buf[..e]);
      case BadHeader =>
        return Aborted(out);
      case Message(lineno, payload) =>
        ghost var before := out;
        out := PlaceLine(out, lineno, payload);
        if origp == e {
          PlaceLast(data, before, want, e, lineno, payload);
          return Placed(out);
        }
        PlaceRest(data, before, want, e, lineno, payload);
        MemMove(buf, e, origp);
        p := origp - e;
    }
  }

  /** The checks the consumer makes on the message buf[..e]: memchr for the ':', its
      position, and atoi of the header; the payload runs from the ':' on. */
  method DecodeMessage(buf: array<char>, e: nat) returns (d: Decoded)
    requires 0 < e <= buf.Length
    ensures d == Decode(buf[..e])
  {
    var colon := MemChr(buf, e, ':');
    if colon == e {
      return BadData;
    }
    if colon != 10 {
      return BadHeader;
    }
    var lineno := Atoi(buf[..e]);
    if lineno <= 0 {
      return BadData;
    }
    return Message(lineno, buf[HEADER_LEN..e]);
  }

  // ---------------------------------------------------------------- round trip

  /** The header holds its ':' at index 10, after blanks and digits only, so memchr
      finds it there whatever follows the header; and it holds no newline. */
  lemma HeaderColon(lineno: nat, rest: string)
    requires 1 <= lineno <= MAXLINE
    ensures Find(Header(lineno) + rest, ':') == Some(10)
    ensures forall i :: 0 <= i < HEADER_LEN ==> (Header(lineno) + rest)[i] != '\n'
  {
    var h := Header(lineno);
    var s := h + rest;
    assert forall i :: 0 <= i < HEADER_LEN ==> s[i] == h[i];
  }

  /** The number in a header is read back by atoi, whatever follows the header. */
  lemma HeaderParses(lineno: nat, rest: string)
    requires 1 <= lineno <= MAXLINE
    ensures Atoi(Header(lineno) + rest) == lineno
  {
    var d := Decimal(lineno);
    DecimalWidth(lineno);
    var k := 10 - |d|;
    var t := ":" + rest;
    var s := d + t;
    assert Header(lineno) + rest == Repeat(' ', k) + s;
    AtoiSpaces(k, s);
    DigitRunStops(d, t);
    DigitsAtoi(s, |d|);
    assert s[..|d|] == d;
    DecimalValue(lineno);
  }

  /** atoi of a string that starts with a digit reads its digit run. */
  lemma DigitsAtoi(s: string, n: nat)
    requires s != [] && IsDigitChar(s[0]) && n == DigitRun(s)
    ensures Atoi(s) == DigitsValue(s[..n])
  {
  }

  /** atoi skips leading blanks. */
  lemma {:induction false} AtoiSpaces(k: nat, s: string)
    ensures Atoi(Repeat(' ', k) + s) == Atoi(s)
  {
    if k > 0 {
      assert (Repeat(' ', k) + s)[1..] == Repeat(' ', k - 1) + s;
      AtoiSpaces(k - 1, s);
    } else {
      assert Repeat(' ', k) + s == s;
    }
  }

  /** The digit run of digits followed by a non-digit ends there. */
  lemma {:induction false} DigitRunStops(d: string, t: string)
    requires forall i :: 0 <= i < |d| ==> IsDigitChar(d[i])
    requires t != [] && !IsDigitChar(t[0])
    ensures DigitRun(d + t) == |d|
  {
    if d != [] {
      assert (d + t)[1..] == d[1..] + t;
      DigitRunStops(d[1..], t);
    }
  }

  /** A block is sendable in one message when it holds no newline before its end. */
  predicate OneLine(chunk: string) {
    chunk != [] && forall j :: 0 <= j < |chunk| - 1 ==> chunk[j] != '\n'
  }

  /** The consumer decodes a frame the producer built back into its line number and the
      newline-terminated block, and finds the frame's end at its only newline. */
  lemma FrameDecodes(lineno: nat, chunk: string)
    requires 1 <= lineno <= MAXLINE && OneLine(chunk)
    ensures Find(Frame(lineno, chunk), '\n') == Some(|Frame(lineno, chunk)| - 1)
    ensures Decode(Frame(lineno, chunk)) == Message(lineno, Terminated(chunk))
  {
    var t := Terminated(chunk);
    var f := Header(lineno) + t;
    HeaderColon(lineno, t);
    HeaderParses(lineno, t);
    forall j | 0 <= j < |f| - 1
      ensures f[j] != '\n'
    {
      if j >= HEADER_LEN {
        assert f[j] == t[j - HEADER_LEN];
        assert j - HEADER_LEN < |chunk| - 1 || (j - HEADER_LEN == |chunk| - 1 && |t| > |chunk|);
      }
    }
    assert f[HEADER_LEN..] == t;
  }

  /** Messages a producer can send: a line number it accepts and a block. */
  predicate Sendable(msgs: seq<(nat, string)>) {
    forall k :: 0 <= k < |msgs| ==> 1 <= msgs[k].0 <= MAXLINE && OneLine(msgs[k].1)
  }

  /** The frames of a sequence of (line number, block) messages, back to back. */
  function Frames(msgs: seq<(nat, string)>): string
    requires Sendable(msgs)
  {
    if msgs == [] then [] else Frame(msgs[0].0, msgs[0].1) + Frames(msgs[1..])
  }

  /** The output after placing the blocks of msgs in order. */
  function PlaceAll(out: string, msgs: seq<(nat, string)>): string
    requires Sendable(msgs)
    decreases |msgs|
  {
    if msgs == [] then out else PlaceAll(Place(out, msgs[0].0, Terminated(msgs[0].1)), msgs[1..])
  }

  /** A first message that decodes is placed before the rest of the buffer. */
  lemma MessagesHead(f: string, rest: string, out: string, n: nat, payload: string)
    requires f != [] && Find(f, '\n') == Some(|f| - 1) && Decode(f) == Message(n, payload)
    requires rest == [] || rest[|rest| - 1] == '\n'
    ensures f + rest != [] && (f + rest)[|f + rest| - 1] == '\n'
    ensures Messages(f + rest, out) ==
      if rest == [] then Placed(Place(out, n, payload)) else Messages(rest, Place(out, n, payload))
  {
    var data := f + rest;
    assert forall j :: 0 <= j < |f| ==> data[j] == f[j];
    assert Find(data, '\n') == Some(|f| - 1);
    assert data[..|f|] == f;
    assert data[|f|..] == rest;
  }

  /** However many frames the FIFO coalesced into one read, the consumer places each
      block at its line, one after another in the order they were sent. */
  lemma {:induction false} FramesReceived(msgs: seq<(nat, string)>, out: string)
    requires msgs != [] && Sendable(msgs)
    ensures Receive(Frames(msgs), out) == Placed(PlaceAll(out, msgs))
    decreases |msgs|
  {
    var (n, chunk) := msgs[0];
    var f := Frame(n, chunk);
    var rest := Frames(msgs[1..]);
    var out2 := Place(out, n, Terminated(chunk));
    assert Frames(msgs) == f + rest;
    assert PlaceAll(out, msgs) == PlaceAll(out2, msgs[1..]);
    FrameDecodes(n, chunk);
    if |msgs| == 1 {
      assert rest == [];
      assert PlaceAll(out2, msgs[1..]) == out2;
    } else {
      FramesReceived(msgs[1..], out2);
    }
    MessagesHead(f, rest, out, n, Terminated(chunk));
  }
}

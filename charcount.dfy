/** The character counter of lab2/zad2: `interpret_char` turns the first argument
    into a byte (a plain character or a C-like escape), and the main loop counts the
    bytes equal to it and the lines containing it, over the chunks the reads return.
    Strings are byte sequences; a C string holds no NUL byte. */
module CharCount {
  import opened Common

  const BACKSLASH: byte := 92

  predicate NoNulBytes(s: seq<byte>) {
    forall i :: 0 <= i < |s| ==> s[i] != 0
  }

  predicate IsOctal(b: byte) {
    48 <= b <= 55
  }

  /** The first digit of an octal escape: '0' to '3'. */
  predicate IsLowOctal(b: byte) {
    48 <= b <= 51
  }

  /** The value of a string of octal digits. */
  function OctalValue(d: seq<byte>): nat
    requires forall i :: 0 <= i < |d| ==> IsOctal(d[i])
  {
    if d == [] then 0 else assert IsOctal(d[|d| - 1]); 8 * OctalValue(d[..|d| - 1]) + (d[|d| - 1] as int - 48)
  }

  /** Two or three octal digits starting with 0 to 3 fit a byte. */
  lemma OctalBound(d: seq<byte>)
    requires 1 <= |d| <= 3 && IsLowOctal(d[0]) && forall i :: 0 <= i < |d| ==> IsOctal(d[i])
    ensures OctalValue(d) < (if |d| == 1 then 4 else if |d| == 2 then 32 else 256)
  {
    if |d| > 1 {
      OctalBound(d[..|d| - 1]);
    }
  }

  /** The one-letter escapes \r \n \t \b \v \a \f \\ and their bytes. */
  const ESCAPES: map<byte, byte> :=
    map[114 := 13, 110 := 10, 116 := 9, 98 := 8, 118 := 11, 97 := 7, 102 := 12, 92 := 92]

  /** What the text after a backslash stands for: a lone digit 0 to 3 is the NUL
      byte, two or three octal digits starting with 0 to 3 are their value, and a
      lone escape letter is its control character. */
  function EscapeMeaning(t: seq<byte>): Option<byte> {
    if |t| == 1 && IsLowOctal(t[0]) then Some(0)
    else if 2 <= |t| <= 3 && IsLowOctal(t[0]) && forall i :: 0 <= i < |t| ==> IsOctal(t[i]) then
      OctalBound(t);
      Some(OctalValue(t) as byte)
    else if |t| == 1 && t[0] in ESCAPES then Some(ESCAPES[t[0]])
    else None
  }

  /** The byte an argument names: a single character other than a backslash is that
      byte, a backslash starts an escape, and anything else names nothing. */
  function Meaning(s: seq<byte>): Option<byte> {
    if s == [] then None
    else if s[0] == BACKSLASH then EscapeMeaning(s[1..])
    else if |s| == 1 then Some(s[0])
    else None
  }

  /** The backslash branch of interpret_char, with its loop over up to three octal
      digits accumulated in a uint8_t (`val <<= 3` truncates modulo 256).  After the
      loop, anything left after the digits makes the result -1. */
  method InterpretEscape(t: seq<byte>) returns (r: int)
    requires NoNulBytes(t)
    ensures r == (if EscapeMeaning(t).Some? then EscapeMeaning(t).value as int else -1)
  {
    if |t| == 0 {
      return -1;
    }
    var c := t[0];
    if IsLowOctal(c) {
      if |t| == 1 {
        return 0;
      }
      var val := 0;
      var i := 0;
      while i < |t| && i < 3
        invariant 0 <= i <= 3 && i <= |t|
        invariant forall j :: 0 <= j < i ==> IsOctal(t[j])
        invariant val == OctalValue(t[..i])
      {
        if t[i] < 48 || t[i] > 55 {
          assert !(forall j :: 0 <= j < |t| ==> IsOctal(t[j]));
          return -1;
        }
        assert t[..i + 1][..i] == t[..i];
        if i > 0 {
          OctalBound(t[..i]);
        }
        val := (val * 8) % 256 + (t[i] as int - 48);
        i := i + 1;
      }
      if |t| > i {
        return -1;
      }
      assert t[..i] == t;
      return val;
    }
    if |t| > 1 {
      return -1;
    }
    if c in ESCAPES {
      return ESCAPES[c] as int;
    }
    return -1;
  }

  /** `(int)(unsigned)(c)` for a plain `char` c, which is signed on the usual ABIs: a
      byte from 128 on becomes negative. */
  function SignedChar(b: byte): int {
    if b < 128 then b else b - 256
  }

  /** interpret_char as written: a single plain character goes through the signed
      `char`, so a byte from 128 on gives a negative result. */
  method InterpretCharAsWritten(s: seq<byte>) returns (r: int)
    requires NoNulBytes(s)
    ensures Meaning(s).None? ==> r == -1
    ensures Meaning(s).Some? ==> r == (if s[0] != BACKSLASH then SignedChar(s[0]) else Meaning(s).value)
  {
    if |s| == 0 {
      return -1;
    }
    if s[0] == BACKSLASH {
      r := InterpretEscape(s[1..]);
      return;
    }
    if |s| > 1 {
      return -1;
    }
    return SignedChar(s[0]);
  }

  /** A one-byte argument 0xC8 is accepted (it is not -1), but its value -56 fails
      the range assert in main, and 0xFF comes out as -1, the usage error. */
  method SignedCharCounterexample() returns (accepted: int, refused: int)
    ensures accepted == -56 && accepted != -1 && !(0 <= accepted < 256)
    ensures refused == -1 && Meaning([255]) == Some(255)
  {
    accepted := InterpretCharAsWritten([200]);
    refused := InterpretCharAsWritten([255]);
  }

  /** interpret_char with the character read as unsigned: the byte its argument names,
      or -1. */
  method InterpretChar(s: seq<byte>) returns (r: int)
    requires NoNulBytes(s)
    ensures r == (if Meaning(s).Some? then Meaning(s).value as int else -1)
    ensures -1 <= r < 256
  {
    if |s| == 0 {
      return -1;
    }
    if s[0] == BACKSLASH {
      r := InterpretEscape(s[1..]);
      return;
    }
    if |s| > 1 {
      return -1;
    }
    return s[0];
  }

  /** A plain character names itself; anything after it is refused. */
  lemma MeaningPlain()
    ensures Meaning([]) == None
    ensures forall b: byte :: b != BACKSLASH ==> Meaning([b]) == Some(b)
    ensures forall b: byte, c: byte :: b != BACKSLASH ==> Meaning([b, c]) == None
    ensures Meaning([BACKSLASH]) == None
  {
  }

  /** Octal escapes take one to three digits and at most the value 255. */
  lemma MeaningOctal()
    ensures Meaning([BACKSLASH, 49]) == Some(0)
    ensures Meaning([BACKSLASH, 49, 50]) == Some(10)
    ensures Meaning([BACKSLASH, 51, 55, 55]) == Some(255)
    ensures Meaning([BACKSLASH, 48, 49, 50, 51]) == None
    ensures Meaning([BACKSLASH, 52, 48]) == None
    ensures Meaning([BACKSLASH, 48, 56]) == None
  {
    assert [BACKSLASH, 49, 50][1..] == [49, 50];
    assert [49, 50][..1] == [49];
    assert OctalValue([49]) == 1 by { assert [49][..0] == []; }
    assert [BACKSLASH, 51, 55, 55][1..] == [51, 55, 55];
    assert [51, 55, 55][..2] == [51, 55];
    assert [51, 55][..1] == [51];
  }

  /** The named escapes stand alone. */
  lemma MeaningNamed()
    ensures Meaning([BACKSLASH, 110]) == Some(10)
    ensures Meaning([BACKSLASH, 110, 110]) == None
    ensures Meaning([BACKSLASH, 120]) == None
  {
  }

  /** How the program's start ends: the usage message and exit code 2, the counting
      run for a byte, or the failed range assert that aborts the program. */
  datatype Start = Usage | Run(chr: byte) | AssertFails

  /** main's start as written, with interpret_char reading a plain character as a
      signed `char`: a single byte 0xFF comes out as -1, the usage error, and a single
      byte from 0x80 to 0xFE as a negative value that fails the range assert; every
      other argument starts as StartUp does. */
  method StartUpAsWritten(args: seq<seq<byte>>) returns (o: Start)
    requires forall i :: 0 <= i < |args| ==> NoNulBytes(args[i])
    ensures |args| == 2 && |args[0]| == 1 && args[0][0] >= 128 ==>
      o == (if args[0][0] == 255 then Usage else AssertFails)
    ensures !(|args| == 2 && |args[0]| == 1 && args[0][0] >= 128) ==>
      o == (if |args| != 2 || Meaning(args[0]).None? then Usage else Run(Meaning(args[0]).value))
  {
    if |args| != 2 {
      return Usage;
    }
    var chr := InterpretCharAsWritten(args[0]);
    if chr == -1 {
      return Usage;
    }
    if !(0 <= chr < 256) {
      return AssertFails;
    }
    return Run(chr as byte);
  }

  /** main's start with the character read as unsigned: exactly two arguments and a
      character that names a byte, else the usage message and exit code 2; the range
      assert always holds. */
  method StartUp(args: seq<seq<byte>>) returns (o: Start)
    requires forall i :: 0 <= i < |args| ==> NoNulBytes(args[i])
    ensures o == Usage <==> |args| != 2 || Meaning(args[0]).None?
    ensures o.Run? ==> o.chr == Meaning(args[0]).value
    ensures o != AssertFails
  {
    if |args| != 2 {
      return Usage;
    }
    var chr := InterpretChar(args[0]);
    if chr == -1 {
      return Usage;
    }
    return Run(chr);
  }

  /** The number of lines that contain the byte c. */
  function LinesWith(ls: seq<seq<byte>>, c: byte): nat {
    if ls == [] then 0 else LinesWith(ls[..|ls| - 1], c) + (if c in ls[|ls| - 1] then 1 else 0)
  }

  /** The state of the counting loop after a prefix of the input, with the counters
      unbounded: matched lines, matched bytes, and the `freshline` flag. */
  datatype Counts = Counts(lines: nat, bytes: nat, freshLine: bool)

  function Step(st: Counts, b: byte, c: byte): Counts {
    var matched := b == c;
    Counts(st.lines + (if matched && st.freshLine then 1 else 0),
           st.bytes + (if matched then 1 else 0),
           if b == NEWLINE then true else if matched then false else st.freshLine)
  }

  function Scan(s: seq<byte>, c: byte): Counts {
    if s == [] then Counts(0, 0, true) else Step(Scan(s[..|s| - 1], c), s[|s| - 1], c)
  }

  /** The `freshline` flag is set exactly when the current line, if still open, holds
      no c yet. */
  lemma {:induction false} ScanFreshLine(s: seq<byte>, c: byte)
    ensures Scan(s, c).freshLine <==> !OpenLine(Lines(s)) || c !in Lines(s)[|Lines(s)| - 1]
  {
    if s != [] {
      var init := s[..|s| - 1];
      var b := s[|s| - 1];
      ScanFreshLine(init, c);
      LinesLast(s);
      var prev := Lines(init);
      var ls := Lines(s);
      assert ls == AddByte(prev, b);
      if OpenLine(prev) {
        var last := prev[|prev| - 1];
        assert ls[|ls| - 1] == last + [b];
        assert c in last + [b] <==> c in last || b == c;
      } else {
        assert ls[|ls| - 1] == [b];
        assert c in [b] <==> b == c;
      }
    }
  }

  /** The flag counts every line containing c once: the scan agrees with the split. */
  lemma {:induction false} ScanCountsLines(s: seq<byte>, c: byte)
    ensures Scan(s, c).bytes == Count(s, c)
    ensures Scan(s, c).lines == LinesWith(Lines(s), c)
  {
    if s != [] {
      var init := s[..|s| - 1];
      var b := s[|s| - 1];
      ScanCountsLines(init, c);
      ScanFreshLine(init, c);
      var prev := Lines(init);
      if OpenLine(prev) {
        var last := prev[|prev| - 1];
        assert Lines(s)[..|Lines(s)| - 1] == prev[..|prev| - 1];
        assert LinesWith(prev, c) == LinesWith(prev[..|prev| - 1], c) + (if c in last then 1 else 0);
        assert c in last + [b] <==> c in last || b == c;
      } else {
        assert Lines(s)[..|Lines(s)| - 1] == prev;
        assert c in [b] <==> b == c;
      }
    }
  }

  /** The machine counters hold the unbounded counts modulo 2^32. */
  predicate Tracks(matchlines: nat, matchbytes: nat, freshline: bool, st: Counts) {
    matchlines == st.lines % U32_LIMIT && matchbytes == st.bytes % U32_LIMIT && freshline == st.freshLine
  }

  lemma ScanSnoc(p: seq<byte>, b: byte, c: byte)
    ensures Scan(p + [b], c) == Step(Scan(p, c), b, c)
  {
    assert (p + [b])[..|p|] == p;
  }

  lemma ScanNext(done: seq<byte>, buf: seq<byte>, i: nat, c: byte)
    requires i < |buf|
    ensures Scan(done + buf[..i + 1], c) == Step(Scan(done + buf[..i], c), buf[i], c)
  {
    assert done + buf[..i + 1] == (done + buf[..i]) + [buf[i]];
    ScanSnoc(done + buf[..i], buf[i], c);
  }

  /** An unsigned counter incremented in place keeps tracking its count. */
  lemma ModInc(n: nat)
    ensures (n % U32_LIMIT + 1) % U32_LIMIT == (n + 1) % U32_LIMIT
  {
  }

  /** The inner loop of main over one buffer the read filled. */
  method CountChunk(buf: seq<byte>, chr: byte, lines0: nat, bytes0: nat, fresh0: bool, ghost done: seq<byte>)
    returns (matchlines: nat, matchbytes: nat, freshline: bool)
    requires Tracks(lines0, bytes0, fresh0, Scan(done, chr))
    ensures Tracks(matchlines, matchbytes, freshline, Scan(done + buf, chr))
  {
    matchlines, matchbytes, freshline := lines0, bytes0, fresh0;
    var i := 0;
    assert done + buf[..i] == done;
    while i < |buf|
      invariant 0 <= i <= |buf|
      invariant Tracks(matchlines, matchbytes, freshline, Scan(done + buf[..i], chr))
    {
      ScanNext(done, buf, i, chr);
      ghost var st := Scan(done + buf[..i], chr);
      ModInc(st.lines);
      ModInc(st.bytes);
      if buf[i] == chr {
        matchbytes := (matchbytes + 1) % U32_LIMIT;
        if freshline {
          matchlines := (matchlines + 1) % U32_LIMIT;
        }
        freshline := false;
      }
      if buf[i] == NEWLINE {
        freshline := true;
      }
      i := i + 1;
    }
    assert buf[..i] == buf;
  }

  /** The counting loop of main over the chunks successive reads return (the read
      returning 0 ends it).  `matchlines` and `matchbytes` are `unsigned`, so they
      count modulo 2^32: the bytes equal to chr, and the lines holding one. */
  method CountMatches(chunks: seq<seq<byte>>, chr: byte) returns (matchlines: nat, matchbytes: nat)
    ensures matchbytes == Count(Flatten(chunks), chr) % U32_LIMIT
    ensures matchlines == LinesWith(Lines(Flatten(chunks)), chr) % U32_LIMIT
  {
    matchlines, matchbytes := 0, 0;
    var freshline := true;
    var k := 0;
    while k < |chunks|
      invariant 0 <= k <= |chunks|
      invariant Tracks(matchlines, matchbytes, freshline, Scan(Flatten(chunks[..k]), chr))
    {
      assert chunks[..k + 1][..k] == chunks[..k];
      matchlines, matchbytes, freshline := CountChunk(chunks[k], chr, matchlines, matchbytes, freshline, Flatten(chunks[..k]));
      k := k + 1;
    }
    assert chunks[..k] == chunks;
    ScanCountsLines(Flatten(chunks), chr);
  }
}

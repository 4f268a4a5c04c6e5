/** lab8: the argument check of an image filter working on Netpbm files, and the first
    state of its header parser, which recognises the magic number P1 to P6.  The later
    header states and the pixel data are not part of this model. */
module Pnm {
  import opened Common

  /** How the work is split between the threads. */
  datatype PartType = Numbers | Block

  /** The command-line name of each partition type. */
  function PartTypeName(t: PartType): string {
    match t
    case Numbers => "num"
    case Block => "blk"
  }

  /** parse_partype(str, &out): whether str names a partition type, and *out after the
      call, which is written only on success. */
  function ParsePartType(s: string, out: PartType): (r: (bool, PartType))
    ensures r.0 <==> (s == "num" || s == "blk")
    ensures r.0 ==> PartTypeName(r.1) == s
    ensures !r.0 ==> r.1 == out
  {
    if s == "num" then (true, Numbers)
    else if s == "blk" then (true, Block)
    else (false, out)
  }

  /** Every partition type is recognised by its own name, whatever *out held. */
  lemma PartTypeRoundTrip(t: PartType, out: PartType)
    ensures ParsePartType(PartTypeName(t), out) == (true, t)
  {
    match t
    case Numbers =>
    case Block =>
      assert PartTypeName(t) != "num";
  }

  /** The settings main takes from its four arguments. */
  datatype Config = Config(threads: int, partType: PartType, input: string, output: string)

  /** main's argument check: exactly four arguments, a thread count that is a whole
      decimal number of at least 1, and a partition type; the two file names are
      opened afterwards.  The checks run left to right and stop at the first failure. */
  function ParseArgs(argv: seq<string>): (r: Option<Config>)
    ensures r.Some? <==>
      |argv| == 5 && ParseLong(argv[1]).Some? && ParseLong(argv[1]).value >= 1 &&
      (argv[2] == "num" || argv[2] == "blk")
    ensures r.Some? ==>
      r.value.threads >= 1 && PartTypeName(r.value.partType) == argv[2] &&
      r.value.input == argv[3] && r.value.output == argv[4]
  {
    if |argv| != 5 then None
    else match ParseLong(argv[1])
      case None => None
      case Some(threads) =>
        if threads < 1 then None
        else
          var (ok, partType) := ParsePartType(argv[2], Numbers);
          if !ok then None else Some(Config(threads, partType, argv[3], argv[4]))
  }

  /** The decimal digits of n, most significant first, with no leading zero. */
  function Decimal(n: nat): (s: string)
    ensures |s| > 0 && forall i :: 0 <= i < |s| ==> IsDigitChar(s[i])
  {
    var last := ('0' as int + n % 10) as char;
    if n < 10 then [last] else Decimal(n / 10) + [last]
  }

  lemma {:induction false} DecimalValue(n: nat)
    ensures DigitsValue(Decimal(n)) == n
  {
    var s := Decimal(n);
    if n >= 10 {
      assert s[..|s| - 1] == Decimal(n / 10);
      DecimalValue(n / 10);
    }
  }

  /** Every setting with at least one thread is accepted back from the command line that
      spells it out. */
  lemma ArgsRoundTrip(program: string, c: Config)
    requires c.threads >= 1
    ensures ParseArgs([program, Decimal(c.threads), PartTypeName(c.partType), c.input, c.output]) == Some(c)
  {
    DecimalValue(c.threads);
    PartTypeRoundTrip(c.partType, Numbers);
  }

  /** The three Netpbm image kinds. */
  datatype Kind = Bitmap | Graymap | Pixmap

  /** A Netpbm format: its kind, and whether the pixels are binary or plain text. */
  datatype Format = Format(kind: Kind, binary: bool)

  /** The magic digit of a format: P1, P2, P3 for plain bitmaps, graymaps and pixmaps,
      P4, P5, P6 for their binary forms. */
  function MagicDigit(f: Format): (d: byte)
    ensures '1' as int <= d <= '6' as int
    ensures f.binary <==> d >= '4' as int
  {
    var k := match f.kind case Bitmap => 1 case Graymap => 2 case Pixmap => 3;
    '0' as int + k + (if f.binary then 3 else 0)
  }

  /** The switch on the second magic byte. */
  function FormatOf(d: byte): (f: Option<Format>)
    ensures f.Some? <==> '1' as int <= d <= '6' as int
  {
    if d == '1' as int then Some(Format(Bitmap, false))
    else if d == '2' as int then Some(Format(Graymap, false))
    else if d == '3' as int then Some(Format(Pixmap, false))
    else if d == '4' as int then Some(Format(Bitmap, true))
    else if d == '5' as int then Some(Format(Graymap, true))
    else if d == '6' as int then Some(Format(Pixmap, true))
    else None
  }

  /** The magic digit and the format determine each other. */
  lemma MagicDigitRoundTrip(f: Format, d: byte)
    ensures FormatOf(d) == Some(f) <==> MagicDigit(f) == d
  {
  }

  /** Bitmaps have no maxval field. */
  function HasMaxval(f: Format): (b: bool)
    ensures b <==> !(MagicDigit(f) == '1' as int || MagicDigit(f) == '4' as int)
  {
    f.kind != Bitmap
  }

  /** Colour samples per pixel: three for pixmaps, one otherwise. */
  function Channels(f: Format): (n: nat)
    ensures n == 3 <==> (MagicDigit(f) == '3' as int || MagicDigit(f) == '6' as int)
    ensures n != 3 ==> n == 1
  {
    if f.kind == Pixmap then 3 else 1
  }

  /** What state 0 of the header parser does with the buffered bytes. */
  datatype Step = MoreData | BadFormat | Parsed(format: Format)

  /** State 0 on the len bytes buffered from position p: fewer than three ask for more
      data; otherwise the bytes must be 'P', a digit 1 to 6 and white space. */
  function MagicStep(bytes: seq<byte>, p: nat, len: int): (s: Step)
    requires len < 3 || p + 3 <= |bytes|
    ensures s.MoreData? <==> len < 3
    ensures s.Parsed? ==>
      bytes[p..p + 3] == ['P' as int, MagicDigit(s.format), bytes[p + 2]] && IsSpace(bytes[p + 2])
  {
    if len < 3 then MoreData
    else if bytes[p] != 'P' as int then BadFormat
    else match FormatOf(bytes[p + 1])
      case None => BadFormat
      case Some(f) => if IsSpace(bytes[p + 2]) then Parsed(f) else BadFormat
  }

  /** Every format is recognised from its magic number followed by any white space,
      whatever follows. */
  lemma MagicStepAccepts(f: Format, ws: byte, rest: seq<byte>)
    requires IsSpace(ws)
    ensures MagicStep(['P' as int, MagicDigit(f), ws] + rest, 0, 3 + |rest|) == Parsed(f)
  {
    MagicDigitRoundTrip(f, MagicDigit(f));
  }

  /** Case 0 of the header parser: the cursor p moves over the magic number, setting
      binary, hasmaxval and, for bitmaps, maxval (which otherwise keeps its value), and
      the parser moves on to state 1 (the width). */
  method Magic(buf: array<byte>, p0: nat, len: int, maxval0: int)
    returns (step: Step, state: int, p: nat, binary: bool, hasMaxval: bool, maxval: int, channels: nat)
    requires len <= 0 || p0 + len <= buf.Length
    ensures step == MagicStep(buf[..], p0, len)
    ensures state == (if step.Parsed? then 1 else 0)
    ensures step.MoreData? ==> p == p0
    ensures step.Parsed? ==>
      p == p0 + 3 && binary == step.format.binary && hasMaxval == HasMaxval(step.format) &&
      maxval == (if hasMaxval then maxval0 else 1) && channels == Channels(step.format)
  {
    state, p, binary, hasMaxval, maxval, channels := 0, p0, false, false, maxval0, 1;
    if len < 3 {
      return MoreData, state, p, binary, hasMaxval, maxval, channels;
    }
    var b := buf[p];
    p := p + 1;
    if b != 'P' as int {
      return BadFormat, state, p, binary, hasMaxval, maxval, channels;
    }
    var d := buf[p];
    p := p + 1;
    if d == '1' as int {
      binary, hasMaxval, maxval, channels := false, false, 1, 1;
    } else if d == '2' as int {
      binary, hasMaxval, channels := false, true, 1;
    } else if d == '3' as int {
      binary, hasMaxval, channels := false, true, 3;
    } else if d == '4' as int {
      binary, hasMaxval, maxval, channels := true, false, 1, 1;
    } else if d == '5' as int {
      binary, hasMaxval, channels := true, true, 1;
    } else if d == '6' as int {
      binary, hasMaxval, channels := true, true, 3;
    } else {
      return BadFormat, state, p, binary, hasMaxval, maxval, channels;
    }
    var w := buf[p];
    p := p + 1;
    if !IsSpace(w) {
      return BadFormat, state, p, binary, hasMaxval, maxval, channels;
    }
    step, state := Parsed(FormatOf(d).value), 1;
  }

  /** The channel count as written: a bool, so both 1 and 3 store true. */
  function ChannelsAsWritten(f: Format): (b: bool) {
    Channels(f) != 0
  }

  /** Stored in a bool, the channel count no longer tells a pixmap from a graymap. */
  lemma ChannelsAsWrittenCollapse(f: Format, g: Format)
    ensures ChannelsAsWritten(f) == ChannelsAsWritten(g)
    ensures ChannelsAsWritten(Format(Pixmap, true)) == ChannelsAsWritten(Format(Graymap, true))
  {
  }

  /** With the count kept as a number, it tells exactly the pixmaps apart. */
  lemma ChannelsDistinguish(f: Format, g: Format)
    requires f.kind == Pixmap && g.kind != Pixmap
    ensures Channels(f) != Channels(g)
  {
  }

  /** How the header loop as written ends: at a step, or by reading past the buffer. */
  datatype LoopEnd = Stop(step: Step) | Overrun

  /** The header loop as written: case 0 never changes state and len is never reduced,
      so after a magic number the loop parses the following bytes as another one. */
  function HeaderLoopAsWritten(bytes: seq<byte>, p: nat, len: int): (r: LoopEnd)
    decreases |bytes| - p
  {
    if len >= 3 && p + 3 > |bytes| then Overrun
    else match MagicStep(bytes, p, len)
      case Parsed(_) => HeaderLoopAsWritten(bytes, p + 3, len)
      case s => Stop(s)
  }

  /** As written, the header loop never gets past state 0. */
  lemma {:induction false} HeaderLoopNeverParses(bytes: seq<byte>, p: nat, len: int)
    ensures !(HeaderLoopAsWritten(bytes, p, len).Stop? && HeaderLoopAsWritten(bytes, p, len).step.Parsed?)
    decreases |bytes| - p
  {
    if !(len >= 3 && p + 3 > |bytes|) && MagicStep(bytes, p, len).Parsed? {
      HeaderLoopNeverParses(bytes, p + 3, len);
    }
  }

  /** "P1\n1 1\n1\n", a one-pixel plain bitmap: the loop as written rejects it, while
      the magic number it starts with is recognised. */
  lemma HeaderLoopRejectsBitmap()
    ensures var bytes := [80, 49, 10, 49, 32, 49, 10, 49, 10];
      HeaderLoopAsWritten(bytes, 0, 9) == Stop(BadFormat) &&
      MagicStep(bytes, 0, 9) == Parsed(Format(Bitmap, false))
  {
    var bytes: seq<byte> := [80, 49, 10, 49, 32, 49, 10, 49, 10];
    assert MagicStep(bytes, 0, 9) == Parsed(Format(Bitmap, false));
    assert MagicStep(bytes, 3, 9) == BadFormat;
  }
}

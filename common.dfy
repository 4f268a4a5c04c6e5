/** Definitions shared by several of the exercises: optional values, bytes, the
    C library's character classes and decimal parsing, powers of two, counting. */
module Common {

  datatype Option<T> = None | Some(value: T)

  /** An unsigned 8-bit byte, as read from a file or a pipe. */
  type byte = x: int | 0 <= x < 256

  const NEWLINE: byte := 10

  /** C's isspace() in the "C" locale: space, \t, \n, \v, \f and \r. */
  predicate IsSpace(b: int) {
    b == 32 || 9 <= b <= 13
  }

  predicate IsDigitChar(c: char) {
    '0' <= c <= '9'
  }

  predicate IsSpaceChar(c: char) {
    IsSpace(c as int)
  }

  /** The value of a non-empty string of decimal digits. */
  function DigitsValue(s: string): (n: nat)
    requires forall i :: 0 <= i < |s| ==> IsDigitChar(s[i])
  {
    if s == [] then 0
    else
      assert IsDigitChar(s[|s| - 1]);
      10 * DigitsValue(s[..|s| - 1]) + (s[|s| - 1] as int - '0' as int)
  }

  /** The exercises' parse_int(str, &out) with a whole-string check: strtol in base 10
      must consume the whole, non-empty argument.  strtol skips leading white space and
      takes an optional sign; overflow (errno = ERANGE) is not modelled. */
  function ParseLong(s: string): (r: Option<int>)
    ensures r.Some? ==> |s| > 0
    ensures (|s| > 0 && forall i :: 0 <= i < |s| ==> IsDigitChar(s[i])) ==> r == Some(DigitsValue(s))
  {
    if |s| == 0 then None else ParseSigned(s)
  }

  /** strtol's grammar (white space, optional sign, digits) followed by the end of the string. */
  function ParseSigned(s: string): (r: Option<int>)
    ensures (|s| > 0 && forall i :: 0 <= i < |s| ==> IsDigitChar(s[i])) ==> r == Some(DigitsValue(s))
  {
    if |s| == 0 then None
    else if IsSpaceChar(s[0]) then ParseSigned(s[1..])
    else if s[0] == '-' || s[0] == '+' then
      (if |s| > 1 && forall i :: 1 <= i < |s| ==> IsDigitChar(s[i])
       then Some(if s[0] == '-' then 0 - DigitsValue(s[1..]) else DigitsValue(s[1..]))
       else None)
    else if forall i :: 0 <= i < |s| ==> IsDigitChar(s[i]) then Some(DigitsValue(s))
    else None
  }

  /** The number of decimal digits s starts with. */
  function DigitRun(s: string): (n: nat)
    ensures n <= |s| && forall i :: 0 <= i < n ==> IsDigitChar(s[i])
    ensures n < |s| ==> !IsDigitChar(s[n])
  {
    if s != [] && IsDigitChar(s[0]) then 1 + DigitRun(s[1..]) else 0
  }

  /** C's atoi: leading white space, an optional sign, then the longest run of digits
      that follows; 0 when there is none.  Overflow, undefined in C, is not modelled. */
  function Atoi(s: string): int {
    if s != [] && IsSpaceChar(s[0]) then Atoi(s[1..])
    else if s != [] && (s[0] == '-' || s[0] == '+') then
      var v := DigitsValue(s[1..][..DigitRun(s[1..])]);
      if s[0] == '-' then 0 - v else v
    else DigitsValue(s[..DigitRun(s)])
  }

  function Pow2(k: nat): (r: nat)
    ensures r >= 1
  {
    if k == 0 then 1 else 2 * Pow2(k - 1)
  }

  lemma {:induction false} Pow2Add(a: nat, b: nat)
    ensures Pow2(a + b) == Pow2(a) * Pow2(b)
  {
    if a > 0 {
      Pow2Add(a - 1, b);
    }
  }

  lemma {:induction false} Pow2Monotone(a: nat, b: nat)
    requires a <= b
    ensures Pow2(a) <= Pow2(b)
  {
    if a < b {
      Pow2Monotone(a, b - 1);
    }
  }

  const U32_LIMIT: nat := 0x1_0000_0000
  const U64_LIMIT: nat := 0x1_0000_0000_0000_0000

  lemma Pow2Of8()
    ensures Pow2(8) == 256
  {
    assert Pow2(4) == 16 by { assert Pow2(2) == 4; }
    Pow2Add(4, 4);
  }

  lemma Pow2Of16()
    ensures Pow2(16) == 0x1_0000
  {
    Pow2Of8();
    Pow2Add(8, 8);
  }

  lemma Pow2Of32()
    ensures Pow2(32) == U32_LIMIT
  {
    Pow2Of16();
    Pow2Add(16, 16);
  }

  lemma Pow2Limits()
    ensures Pow2(32) == U32_LIMIT && Pow2(64) == U64_LIMIT
  {
    Pow2Of32();
    Pow2Add(32, 32);
  }

  /** Bitwise AND of two naturals, bit by bit from the lowest. */
  function And(a: nat, b: nat): nat {
    if a == 0 || b == 0 then 0
    else 2 * And(a / 2, b / 2) + (if a % 2 == 1 && b % 2 == 1 then 1 else 0)
  }

  /** The lowest set bit of a positive number. */
  function LowBit(x: nat): (r: nat)
    requires x > 0
    ensures 1 <= r <= x
  {
    if x % 2 == 1 then 1 else 2 * LowBit(x / 2)
  }

  /** The position of the highest set bit of a positive number. */
  function Log2(x: nat): nat
    requires x > 0
  {
    if x == 1 then 0 else 1 + Log2(x / 2)
  }

  lemma {:induction false} Log2Bounds(x: nat)
    requires x > 0
    ensures Pow2(Log2(x)) <= x < Pow2(Log2(x) + 1)
  {
    if x > 1 {
      Log2Bounds(x / 2);
    }
  }

  lemma {:induction false} Log2OfPow2(k: nat)
    ensures Log2(Pow2(k)) == k
  {
    if k > 0 {
      assert Pow2(k) / 2 == Pow2(k - 1);
      Log2OfPow2(k - 1);
    }
  }

  predicate IsPow2(x: nat) {
    x > 0 && x == Pow2(Log2(x))
  }

  lemma {:induction false} AndSelf(a: nat)
    ensures And(a, a) == a
  {
    if a > 0 {
      AndSelf(a / 2);
    }
  }

  /** `x & (x - 1)` clears the lowest set bit. */
  lemma {:induction false} AndPred(x: nat)
    requires x > 0
    ensures And(x, x - 1) == x - LowBit(x)
  {
    if x % 2 == 1 {
      if x > 1 {
        assert (x - 1) / 2 == x / 2;
        AndSelf(x / 2);
      }
    } else {
      assert (x - 1) / 2 == x / 2 - 1;
      AndPred(x / 2);
    }
  }

  /** Clearing the lowest set bit keeps the highest one, unless it was the only one. */
  lemma {:induction false} Log2ClearLow(x: nat)
    requires x > 0 && x - LowBit(x) > 0
    ensures Log2(x - LowBit(x)) == Log2(x)
  {
    if x % 2 == 1 {
      assert (x - 1) / 2 == x / 2;
    } else {
      Log2ClearLow(x / 2);
      assert (x - LowBit(x)) / 2 == x / 2 - LowBit(x / 2);
    }
  }

  /** A number that is its own lowest set bit is a power of two. */
  lemma {:induction false} LowBitPow2(x: nat)
    requires x > 0 && LowBit(x) == x
    ensures IsPow2(x)
  {
    if x % 2 == 0 {
      LowBitPow2(x / 2);
    }
  }

  /** Number of occurrences of x in s. */
  function Count<T(==)>(s: seq<T>, x: T): (n: nat)
    ensures n <= |s|
  {
    if s == [] then 0 else Count(s[..|s| - 1], x) + (if s[|s| - 1] == x then 1 else 0)
  }

  /** Occurrences in a concatenation add up. */
  lemma {:induction false} CountAppend<T>(s: seq<T>, t: seq<T>, x: T)
    ensures Count(s + t, x) == Count(s, x) + Count(t, x)
  {
    if t != [] {
      assert (s + t)[..|s + t| - 1] == s + t[..|t| - 1];
      CountAppend(s, t[..|t| - 1], x);
    } else {
      assert s + t == s;
    }
  }

  /** A longer prefix holds at least as many occurrences. */
  lemma {:induction false} CountPrefix<T>(s: seq<T>, a: nat, b: nat, x: T)
    requires a <= b <= |s|
    ensures Count(s[..a], x) <= Count(s[..b], x)
  {
    if a < b {
      assert s[..b][..b - 1] == s[..b - 1];
      CountPrefix(s, a, b - 1, x);
    }
  }

  /** A sequence that agrees with b from index e on is b[e..]. */
  lemma SuffixOf<T>(a: seq<T>, b: seq<T>, e: nat)
    requires e <= |b| && |a| == |b| - e && forall j :: 0 <= j < |a| ==> a[j] == b[e + j]
    ensures a == b[e..]
  {
  }

  /** The three parts of a + b + c, cut back out. */
  lemma ThreeParts<T>(a: seq<T>, b: seq<T>, c: seq<T>)
    ensures (a + b + c)[..|a|] == a && (a + b + c)[|a|..|a| + |b|] == b && (a + b + c)[|a| + |b|..] == c
  {
  }

  /** The part of s + t after s is t. */
  lemma AppendTail<T>(s: seq<T>, t: seq<T>)
    ensures (s + t)[|s|..|s + t|] == t
  {
  }

  /** Equal sequences stay equal with an empty slice appended. */
  lemma SameEmpty<T>(s: seq<T>, x: seq<T>, y: seq<T>, a: nat, b: nat)
    requires a <= |s| && b <= |s| && x == y + []
    ensures x + s[a..a] == y + s[b..b]
  {
    assert s[a..a] == s[b..b] == [];
    assert y + [] == y;
  }

  /** x, which is before followed by s[a..c], is before and s[a..b] followed by s[b..c]. */
  lemma Regroup<T>(s: seq<T>, x: seq<T>, before: seq<T>, a: nat, b: nat, c: nat)
    requires a <= b <= c <= |s| && x == before + s[a..c]
    ensures x + s[c..c] == (before + s[a..b]) + s[b..c]
  {
    JoinSlices(s, before, a, b, c);
    assert s[c..c] == [];
  }

  /** Sequences made of equal parts are equal. */
  lemma SameParts<T>(x: seq<T>, y: seq<T>, a: seq<T>, b: seq<T>, c: seq<T>, d: seq<T>)
    requires x == a + b && y == c + d && a == c && b == d
    ensures x == y
  {
  }

  lemma ConcatAssoc<T>(a: seq<T>, b: seq<T>, c: seq<T>)
    ensures a + (b + c) == (a + b) + c
  {
  }

  /** Appending the two parts of a slice one after the other appends the slice. */
  lemma JoinSlices<T>(s: seq<T>, before: seq<T>, a: nat, b: nat, c: nat)
    requires a <= b <= c <= |s|
    ensures before + s[a..c] == (before + s[a..b]) + s[b..c]
  {
    SliceSplit(s, a, b, c);
    ConcatAssoc(before, s[a..b], s[b..c]);
  }

  /** Cutting a slice at b splits it into its two parts. */
  lemma SliceSplit<T>(s: seq<T>, a: nat, b: nat, c: nat)
    requires a <= b <= c <= |s|
    ensures s[a..c] == s[a..b] + s[b..c]
  {
  }

  lemma {:induction false} CountUpdate<T>(s: seq<T>, i: nat, y: T, x: T)
    requires i < |s|
    ensures Count(s[i := y], x) == Count(s, x) - (if s[i] == x then 1 else 0) + (if y == x then 1 else 0)
  {
    if i < |s| - 1 {
      assert s[i := y][..|s| - 1] == s[..|s| - 1][i := y];
      CountUpdate(s[..|s| - 1], i, y, x);
    } else {
      assert s[i := y][..|s| - 1] == s[..|s| - 1];
    }
  }

  lemma {:induction false} CountPositive<T>(s: seq<T>, i: nat)
    requires i < |s|
    ensures Count(s, s[i]) >= 1
  {
    if i < |s| - 1 {
      CountPositive(s[..|s| - 1], i);
    }
  }

  lemma {:induction false} CountAbsent<T>(s: seq<T>, x: T)
    requires forall i :: 0 <= i < |s| ==> s[i] != x
    ensures Count(s, x) == 0
  {
    if s != [] {
      CountAbsent(s[..|s| - 1], x);
    }
  }

  /** Whether the last line of a split is still open: it has not reached its newline. */
  predicate OpenLine(ls: seq<seq<byte>>) {
    ls != [] && ls[|ls| - 1] != [] && ls[|ls| - 1][|ls[|ls| - 1]| - 1] != NEWLINE
  }

  /** The input as lines: each line ends with its newline, except perhaps the last. */
  function Lines(s: seq<byte>): (ls: seq<seq<byte>>)
    ensures forall k :: 0 <= k < |ls| ==> ls[k] != []
  {
    if s == [] then [] else AddByte(Lines(s[..|s| - 1]), s[|s| - 1])
  }

  /** One more byte extends the open last line, or starts a new line. */
  function AddByte(ls: seq<seq<byte>>, b: byte): (r: seq<seq<byte>>)
    requires forall k :: 0 <= k < |ls| ==> ls[k] != []
    ensures forall k :: 0 <= k < |r| ==> r[k] != []
  {
    if OpenLine(ls) then ls[..|ls| - 1] + [ls[|ls| - 1] + [b]] else ls + [[b]]
  }

  function Flatten(ls: seq<seq<byte>>): seq<byte> {
    if ls == [] then [] else Flatten(ls[..|ls| - 1]) + ls[|ls| - 1]
  }

  /** The lines put together again are the input. */
  lemma {:induction false} LinesFlatten(s: seq<byte>)
    ensures Flatten(Lines(s)) == s
  {
    if s != [] {
      var init := s[..|s| - 1];
      LinesFlatten(init);
      var prev := Lines(init);
      if OpenLine(prev) {
        var front := prev[..|prev| - 1];
        var last := prev[|prev| - 1];
        assert Flatten(prev) == Flatten(front) + last;
        assert Lines(s)[..|Lines(s)| - 1] == front;
        assert Flatten(Lines(s)) == Flatten(front) + (last + [s[|s| - 1]]);
      } else {
        assert Lines(s)[..|Lines(s)| - 1] == prev;
      }
    }
  }

  /** Every line but the last ends with a newline, and no line holds a newline
      before its end. */
  lemma {:induction false} LinesShape(s: seq<byte>)
    ensures forall k :: 0 <= k < |Lines(s)| - 1 ==> Lines(s)[k][|Lines(s)[k]| - 1] == NEWLINE
    ensures forall k, j :: 0 <= k < |Lines(s)| && 0 <= j < |Lines(s)[k]| - 1 ==> Lines(s)[k][j] != NEWLINE
  {
    if s != [] {
      LinesShape(s[..|s| - 1]);
    }
  }

  /** The last line of a split is open exactly when the input does not end with a
      newline. */
  lemma LinesLast(s: seq<byte>)
    ensures s != [] ==> Lines(s) != [] && Lines(s)[|Lines(s)| - 1][|Lines(s)[|Lines(s)| - 1]| - 1] == s[|s| - 1]
    ensures OpenLine(Lines(s)) <==> s != [] && s[|s| - 1] != NEWLINE
  {
  }

  /** A non-empty run of bytes with a newline at most at its end is one line. */
  lemma {:induction false} SingleLine(t: seq<byte>)
    requires t != [] && forall j :: 0 <= j < |t| - 1 ==> t[j] != NEWLINE
    ensures Lines(t) == [t]
  {
    var init := t[..|t| - 1];
    assert init + [t[|t| - 1]] == t;
    if |t| > 1 {
      SingleLine(init);
      assert OpenLine([init]);
    } else {
      assert init == [];
    }
  }

  lemma AddByteAppend(ls: seq<seq<byte>>, lt: seq<seq<byte>>, b: byte)
    requires forall k :: 0 <= k < |ls| ==> ls[k] != []
    requires forall k :: 0 <= k < |lt| ==> lt[k] != []
    requires !OpenLine(ls)
    ensures AddByte(ls + lt, b) == ls + AddByte(lt, b)
  {
    if lt == [] {
      assert ls + lt == ls;
    } else {
      assert (ls + lt)[|ls + lt| - 1] == lt[|lt| - 1];
      assert (ls + lt)[..|ls + lt| - 1] == ls + lt[..|lt| - 1];
    }
  }

  /** Splitting is compositional at a line boundary. */
  lemma {:induction false} LinesAppend(s: seq<byte>, t: seq<byte>)
    requires s == [] || s[|s| - 1] == NEWLINE
    ensures Lines(s + t) == Lines(s) + Lines(t)
  {
    if t == [] {
      assert s + t == s;
    } else {
      var init := t[..|t| - 1];
      LinesAppend(s, init);
      assert (s + t)[..|s + t| - 1] == s + init;
      LinesLast(s);
      AddByteAppend(Lines(s), Lines(init), t[|t| - 1]);
    }
  }

  // ---------------------------------------------------------------- shell words

  /** s without its newlines. */
  function Joined(s: string): (r: string)
    ensures |r| <= |s|
    ensures forall i :: 0 <= i < |r| ==> r[i] != '\n'
  {
    if s == [] then [] else (if s[0] == '\n' then [] else [s[0]]) + Joined(s[1..])
  }

  /** A string without newlines is its own Joined. */
  lemma {:induction false} JoinedNoNewline(s: string)
    requires forall i :: 0 <= i < |s| ==> s[i] != '\n'
    ensures Joined(s) == s
  {
    if s != [] {
      JoinedNoNewline(s[1..]);
    }
  }

  /** Quote removal, as section 2.2.1 of the POSIX.1-2017 Shell Command Language
      describes it for a word quoted with backslashes only: a backslash stands for the
      character after it, except that a backslash followed by a newline is a line
      continuation, and both are removed. */
  function ShellUnquote(s: string): string {
    if s == [] then []
    else if s[0] == '\\' && |s| >= 2 then (if s[1] == '\n' then [] else [s[1]]) + ShellUnquote(s[2..])
    else [s[0]] + ShellUnquote(s[1..])
  }

  /** Whether some word of s begins with an unquoted `~`, which section 2.6.1 of the
      same standard (Tilde Expansion) may replace by a home directory.  A word begins
      at the start of s when `start` holds, and after an unquoted space; a line
      continuation leaves that state as it was. */
  predicate TildeAtStart(s: string, start: bool) {
    if s == [] then false
    else if s[0] == '\\' && |s| >= 2 then TildeAtStart(s[2..], start && s[1] == '\n')
    else if start && s[0] == '~' then true
    else TildeAtStart(s[1..], s[0] == ' ')
  }

  lemma JoinedOne(c: char)
    ensures Joined([c]) == if c == '\n' then [] else [c]
  {
    assert [c][1..] == [];
  }

  lemma {:induction false} JoinedAppend(s: string, t: string)
    ensures Joined(s + t) == Joined(s) + Joined(t)
  {
    if s != [] {
      assert (s + t)[0] == s[0] && (s + t)[1..] == s[1..] + t;
      JoinedAppend(s[1..], t);
    } else {
      assert s + t == t;
    }
  }
}

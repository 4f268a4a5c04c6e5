/** The directory walker of lab3/zad3: the capacity rounding `next_size`, the sized
    string `struct sizedstr` that holds the current path, the permission macro
    HAVEPERMS, the decision `process` makes for one directory entry, and the
    skipping of `.` and `..` in `walk`.  The content search itself and the
    process tree are not modelled. */
module SizedPath {
  import opened Common

  /** A C string holds no NUL character. */
  predicate NoNul(s: string) {
    forall i :: 0 <= i < |s| ==> s[i] != '\0'
  }

  /** next_size on a 64-bit size_t: the next capacity of the form 2^k - 1 that is
      above x and at least 7.  `x << 1` and `x--` wrap modulo 2^64 as in C; the assert
      that `x + 1` did not wrap to 0 is the precondition. */
  method NextSize(x0: nat) returns (r: nat)
    requires x0 < U64_LIMIT - 1
    ensures x0 < r < U64_LIMIT && r >= 7
    ensures IsPow2(r + 1)
    ensures forall k: nat :: Pow2(k) - 1 > x0 && Pow2(k) - 1 >= 7 ==> r <= Pow2(k) - 1
    ensures r == 7 || (r + 1) / 2 - 1 <= x0
  {
    var x := x0 + 1;
    if x < 7 {
      assert Pow2(3) == 8;
      Log2OfPow2(3);
      return 7;
    }
    while And(x, x - 1) != 0
      invariant 0 < x <= x0 + 1 && Log2(x) == Log2(x0 + 1)
      decreases x
    {
      AndPred(x);
      Log2ClearLow(x);
      x := And(x, x - 1);
    }
    RoundUp(x, x0);
    x := Shl64(x);
    x := Dec64(x);
    r := x;
  }

  /** When the clearing loop stops, x is the highest power of two up to x0 + 1. */
  lemma TopBit(x: nat, x0: nat)
    requires 0 < x && And(x, x - 1) == 0 && Log2(x) == Log2(x0 + 1)
    ensures x == Pow2(Log2(x0 + 1))
    ensures Pow2(Log2(x0 + 1)) <= x0 + 1 < Pow2(Log2(x0 + 1) + 1)
  {
    AndPred(x);
    LowBitPow2(x);
    Log2Bounds(x0 + 1);
  }

  /** What the doubling and decrement after the loop make of the highest power of two. */
  lemma RoundUp(x: nat, x0: nat)
    requires 7 <= x0 + 1 < U64_LIMIT
    requires 0 < x && And(x, x - 1) == 0 && Log2(x) == Log2(x0 + 1)
    ensures var r := Dec64(Shl64(x));
      x0 < r < U64_LIMIT && r >= 7 && IsPow2(r + 1) &&
      (r + 1) / 2 - 1 <= x0 &&
      forall k: nat :: Pow2(k) - 1 > x0 && Pow2(k) - 1 >= 7 ==> r <= Pow2(k) - 1
  {
    TopBit(x, x0);
    RoundUpFacts(x0, x, Log2(x0 + 1));
  }

  /** `x <<= 1` on a 64-bit size_t. */
  function Shl64(x: nat): nat {
    (x * 2) % U64_LIMIT
  }

  /** `x--` on a 64-bit size_t. */
  function Dec64(x: nat): nat {
    (x - 1) % U64_LIMIT
  }

  /** Doubling and decrementing give 2x - 1 whenever 2x <= 2^64, even though the
      doubling wraps to 0 when 2x == 2^64. */
  lemma ShlDec(x: nat)
    requires 0 < 2 * x <= U64_LIMIT
    ensures Dec64(Shl64(x)) == 2 * x - 1
  {
    if 2 * x == U64_LIMIT {
      assert Shl64(x) == 0;
    } else {
      assert Shl64(x) == 2 * x;
    }
  }

  /** 2^(L+1) - 1 is the smallest value of the form 2^k - 1 above x0 when
      2^L <= x0 + 1 < 2^(L+1). */
  lemma AllOnesMinimal(x0: nat, L: nat)
    requires Pow2(L) <= x0 + 1 < Pow2(L + 1)
    ensures forall k: nat :: Pow2(k) - 1 > x0 ==> Pow2(L + 1) - 1 <= Pow2(k) - 1
  {
    forall k: nat | Pow2(k) - 1 > x0
      ensures Pow2(L + 1) - 1 <= Pow2(k) - 1
    {
      if k <= L {
        Pow2Monotone(k, L);
      } else {
        Pow2Monotone(L + 1, k);
      }
    }
  }

  /** The value next_size computes from the highest power of two 2^L <= x0 + 1. */
  lemma RoundUpFacts(x0: nat, x: nat, L: nat)
    requires 7 <= x0 + 1 < U64_LIMIT && x == Pow2(L) && x <= x0 + 1 < Pow2(L + 1)
    ensures var r := Dec64(Shl64(x));
      x0 < r < U64_LIMIT && r >= 7 && IsPow2(r + 1) &&
      (r + 1) / 2 - 1 <= x0 &&
      forall k: nat :: Pow2(k) - 1 > x0 && Pow2(k) - 1 >= 7 ==> r <= Pow2(k) - 1
  {
    Pow2Limits();
    if L >= 64 {
      Pow2Monotone(64, L);
      assert false;
    }
    Pow2Monotone(L + 1, 64);
    AllOnesValue(x, L);
    AllOnesMinimal(x0, L);
  }

  /** Doubling 2^L and taking one gives 2^(L+1) - 1, all ones below bit L + 1. */
  lemma AllOnesValue(x: nat, L: nat)
    requires x == Pow2(L) && Pow2(L + 1) <= U64_LIMIT
    ensures Dec64(Shl64(x)) == Pow2(L + 1) - 1 && IsPow2(Pow2(L + 1))
  {
    ShlDec(x);
    Log2OfPow2(L + 1);
  }

  /** The position of the last `/` in a path. */
  function LastSlash(s: string): (r: Option<nat>)
    ensures r.Some? ==> r.value < |s| && s[r.value] == '/'
    ensures r.Some? ==> forall j :: r.value < j < |s| ==> s[j] != '/'
    ensures r.None? ==> forall j :: 0 <= j < |s| ==> s[j] != '/'
  {
    if s == [] then None
    else if s[|s| - 1] == '/' then Some(|s| - 1)
    else LastSlash(s[..|s| - 1])
  }

  /** The path one level down: ss_push. */
  function PathPush(p: string, name: string): string {
    p + "/" + name
  }

  /** The path one level up and the name removed: ss_pop, None without a `/`. */
  function PathPop(p: string): Option<(string, string)> {
    match LastSlash(p)
    case None => None
    case Some(k) => Some((p[..k], p[k + 1..]))
  }

  lemma {:induction false} LastSlashAfterName(p: string, name: string)
    requires forall j :: 0 <= j < |name| ==> name[j] != '/'
    ensures LastSlash(p + "/" + name) == Some(|p|)
  {
    if name != [] {
      var s := p + "/" + name;
      assert s[..|s| - 1] == p + "/" + name[..|name| - 1];
      LastSlashAfterName(p, name[..|name| - 1]);
    }
  }

  /** What walk relies on: popping after pushing a name without `/` gives back the
      path it started from, and the name. */
  lemma PushPop(p: string, name: string)
    requires forall j :: 0 <= j < |name| ==> name[j] != '/'
    ensures PathPop(PathPush(p, name)) == Some((p, name))
  {
    LastSlashAfterName(p, name);
    var s := p + "/" + name;
    assert s[..|p|] == p && s[|p| + 1..] == name;
  }

  /** struct sizedstr: a NUL-terminated buffer of cap + 1 bytes holding `len` of them. */
  class SizedStr {
    var cap: nat
    var len: nat
    var data: array<char>

    ghost predicate Valid()
      reads this, data
    {
      data.Length == cap + 1 && len <= cap && data[len] == '\0' && NoNul(data[..len])
    }

    ghost function Contents(): string
      reads this, data
      requires Valid()
    {
      data[..len]
    }

    /** ss_alloc: an empty string with room for n characters and the NUL. */
    constructor Alloc(n: nat)
      ensures Valid() && fresh(data) && cap == n && len == 0 && Contents() == []
    {
      cap, len := n, 0;
      data := new char[n + 1](_ => '\0');
    }

    /** ss_realloc: a larger zeroed buffer into which strcpy copies the old string. */
    method Realloc(newlen: nat)
      requires Valid() && newlen > cap
      modifies this
      ensures Valid() && fresh(data)
      ensures cap == newlen && len == old(len) && Contents() == old(Contents())
    {
      var bigger := new char[newlen + 1](_ => '\0');
      var i := 0;
      while i < len
        modifies bigger
        invariant 0 <= i <= len
        invariant forall j :: 0 <= j < i ==> bigger[j] == data[j]
        invariant forall j :: len <= j <= newlen ==> bigger[j] == '\0'
      {
        bigger[i] := data[i];
        i := i + 1;
      }
      assert bigger[..len] == data[..len];
      data := bigger;
      cap := newlen;
    }

    /** ss_ensure: room for n characters.  When the capacity is too small it becomes
        next_size(n - 1), keeping the contents if `keep` (ss_realloc) and starting
        empty otherwise (ss_free then ss_alloc). */
    method Ensure(n: nat, keep: bool)
      requires Valid() && n < U64_LIMIT
      modifies this
      ensures Valid() && cap >= n
      ensures n <= old(cap) ==> cap == old(cap) && len == old(len) && data == old(data)
      ensures n > old(cap) ==> fresh(data) && cap >= 7 && IsPow2(cap + 1) && (cap == 7 || (cap + 1) / 2 - 1 < n)
      ensures keep || n <= old(cap) ==> Contents() == old(Contents())
      ensures !keep && n > old(cap) ==> Contents() == []
    {
      if n > cap {
        var wanted := NextSize(n - 1);
        assert wanted >= n;
        if keep {
          Realloc(wanted);
        } else {
          cap, len := wanted, 0;
          data := new char[wanted + 1](_ => '\0');
        }
      }
    }

    /** ss_assign: the string becomes a copy of s. */
    method Assign(s: string)
      requires Valid() && NoNul(s) && |s| < U64_LIMIT
      modifies this, data
      ensures Valid() && Contents() == s && cap >= |s|
      ensures data == old(data) || fresh(data)
    {
      Ensure(|s|, false);
      StrCpy(data, 0, s);
      len := |s|;
      assert data[..len] == s;
    }

    /** ss_push: `/` and the name appended, growing the buffer as needed. */
    method Push(name: string)
      requires Valid() && NoNul(name) && len + |name| + 1 < U64_LIMIT
      modifies this, data
      ensures Valid() && Contents() == PathPush(old(Contents()), name)
      ensures len == old(len) + 1 + |name| && (data == old(data) || fresh(data))
    {
      ghost var before := Contents();
      Ensure(len + |name| + 1, true);
      StrCpy(data, len, "/" + name);
      assert data[..len + 1 + |name|] == data[..len] + data[len..len + 1 + |name|];
      len := len + 1 + |name|;
    }

    /** ss_pop: strrchr finds the last `/`, which becomes the NUL; the rest of the
        path is returned.  Without a `/` nothing changes and NULL is returned. */
    method Pop() returns (suffix: Option<string>)
      requires Valid()
      modifies this, data
      ensures Valid() && cap == old(cap) && data == old(data)
      ensures PathPop(old(Contents())).None? ==> suffix.None? && len == old(len) && Contents() == old(Contents())
      ensures PathPop(old(Contents())).Some? ==>
        suffix == Some(PathPop(old(Contents())).value.1) && Contents() == PathPop(old(Contents())).value.0
    {
      ghost var before := Contents();
      var i := len;
      while i > 0 && data[i - 1] != '/'
        invariant 0 <= i <= len
        invariant forall j :: i <= j < len ==> data[j] != '/'
        invariant LastSlash(before) == LastSlash(before[..i])
      {
        assert before[..i][..i - 1] == before[..i - 1];
        i := i - 1;
      }
      if i == 0 {
        assert before[..0] == [];
        return None;
      }
      var k := i - 1;
      assert LastSlash(before) == Some(k) by {
        assert before[..i][i - 1] == '/';
      }
      suffix := Some(data[k + 1..len]);
      data[k] := '\0';
      len := k;
      assert data[..len] == before[..k];
    }
  }

  /** strcpy(a + at, s): the characters of s and a NUL written from `at` on; what lies
      before `at` is unchanged. */
  method StrCpy(a: array<char>, at: nat, s: string)
    requires at + |s| < a.Length
    modifies a
    ensures a[..at] == old(a[..at]) && a[at..at + |s|] == s && a[at + |s|] == '\0'
  {
    var i := 0;
    while i < |s|
      invariant 0 <= i <= |s|
      invariant a[..at] == old(a[..at])
      invariant forall j :: 0 <= j < i ==> a[at + j] == s[j]
    {
      a[at + i] := s[i];
      i := i + 1;
    }
    a[at + |s|] := '\0';
    assert a[at..at + |s|] == s;
  }

  /** A `char` of a C string, reading the NUL past its end. */
  function CharAt(s: string, i: nat): char {
    if i < |s| then s[i] else '\0'
  }

  /** The test in walk that skips the `.` and `..` entries. */
  function IsDotEntry(name: string): (r: bool)
    ensures NoNul(name) ==> (r <==> name == "." || name == "..")
  {
    CharAt(name, 0) == '.' && (CharAt(name, 1) == '\0' || (CharAt(name, 1) == '.' && CharAt(name, 2) == '\0'))
  }

  /** The owner, group and other bits of <sys/stat.h> for reading (4), writing (2)
      and executing (1). */
  datatype PermKind = R | W | X

  function KindBit(k: PermKind): bv32 {
    match k
    case R => 4
    case W => 2
    case X => 1
  }

  /** What lstat reports about an entry that process needs. */
  datatype Stat = Stat(uid: int, gid: int, mode: bv32)

  predicate IsReg(mode: bv32) { mode & 0xF000 == 0x8000 }
  predicate IsDir(mode: bv32) { mode & 0xF000 == 0x4000 }

  /** HAVEPERMS(sb, kind) for the effective uid and gid of the walker. */
  function HavePerms(sb: Stat, uid: int, gid: int, k: PermKind): bool {
    if sb.uid == uid then sb.mode & (KindBit(k) << 6) > 0
    else if sb.gid == gid then sb.mode & (KindBit(k) << 3) > 0
    else sb.mode & KindBit(k) > 0
  }

  /** The octal digit of the mode that applies to the walker: the owner's when it
      owns the file, else the group's when it is in the file's group, else the
      others'. */
  function ClassDigit(sb: Stat, uid: int, gid: int): (d: bv32)
    ensures d < 8
  {
    var shift: bv32 := if sb.uid == uid then 6 else if sb.gid == gid then 3 else 0;
    (sb.mode >> shift) & 7
  }

  /** HAVEPERMS tests exactly one bit, the one of the applicable class only. */
  lemma HavePermsClass(sb: Stat, uid: int, gid: int, k: PermKind)
    ensures HavePerms(sb, uid, gid, k) <==> ClassDigit(sb, uid, gid) & KindBit(k) != 0
  {
  }

  /** The owner is judged by the owner bits alone: it is refused what the group and
      all others may do. */
  lemma OwnerBitsOnly()
    ensures !HavePerms(Stat(1000, 1000, 0x803F), 1000, 1000, R)
    ensures HavePerms(Stat(1000, 1000, 0x803F), 1001, 1000, R)
    ensures HavePerms(Stat(1000, 1000, 0x803F), 1001, 1001, R)
  {
  }

  /** The extensions of common binary files, tested in this order. */
  const BINARY_EXTENSIONS: seq<string> := [".o", ".png", ".gz", ".zip", ".core"]

  predicate OccursAt(hay: string, needle: string, i: nat) {
    i + |needle| <= |hay| && hay[i..i + |needle|] == needle
  }

  /** strstr: the first occurrence of needle in hay at or after `from`. */
  function FindFrom(hay: string, needle: string, from: nat): (r: Option<nat>)
    requires from <= |hay|
    ensures r.Some? ==> from <= r.value && OccursAt(hay, needle, r.value)
    ensures r.Some? ==> forall j :: from <= j < r.value ==> !OccursAt(hay, needle, j)
    ensures r.None? ==> forall j :: from <= j <= |hay| ==> !OccursAt(hay, needle, j)
    decreases |hay| - from
  {
    if OccursAt(hay, needle, from) then Some(from)
    else if from == |hay| then None
    else FindFrom(hay, needle, from + 1)
  }

  /** `(ptr = strstr(path, ext)) != NULL && *(ptr + |ext|) == '\0'`: the first
      occurrence of the extension ends the path. */
  predicate FirstOccurrenceEnds(path: string, ext: string) {
    var i := FindFrom(path, ext, 0);
    i.Some? && i.value + |ext| == |path|
  }

  /** The name filter of process as written. */
  predicate SkippedAsWritten(path: string) {
    exists e :: e in BINARY_EXTENSIONS && FirstOccurrenceEnds(path, e)
  }

  predicate EndsWith(path: string, ext: string) {
    |ext| <= |path| && path[|path| - |ext|..] == ext
  }

  /** The filter as intended: the path ends in one of the extensions. */
  predicate Skipped(path: string) {
    exists e :: e in BINARY_EXTENSIONS && EndsWith(path, e)
  }

  lemma FirstOccurrenceEndsWith(path: string, e: string)
    requires FirstOccurrenceEnds(path, e)
    ensures EndsWith(path, e)
  {
    var i := FindFrom(path, e, 0).value;
    assert path[|path| - |e|..] == path[i..i + |e|];
  }

  /** The filter as written skips only paths the intended filter skips. */
  lemma SkippedAsWrittenSound(path: string)
    requires SkippedAsWritten(path)
    ensures Skipped(path)
  {
    var e :| e in BINARY_EXTENSIONS && FirstOccurrenceEnds(path, e);
    FirstOccurrenceEndsWith(path, e);
  }

  lemma FirstDotO()
    ensures FindFrom("./a.o.o", ".o", 0) == Some(3)
  {
    var p := "./a.o.o";
    assert p[3..5] == ".o";
    assert p[0..2][1] == '/' && p[1..3][0] == '/' && p[2..4][0] == 'a';
  }

  lemma OnlyDotO(e: string)
    requires e in BINARY_EXTENSIONS && e != ".o"
    ensures !EndsWith("./a.o.o", e)
  {
    var p := "./a.o.o";
    assert p[3..][1] == 'o' && p[4..][0] == 'o' && p[2..][0] == 'a';
  }

  /** An object file whose name already contains ".o" earlier is searched: the first
      occurrence of ".o" in "./a.o.o" is not at the end. */
  lemma SkippedAsWrittenMissesRepeat()
    ensures !SkippedAsWritten("./a.o.o")
    ensures Skipped("./a.o.o")
  {
    var p := "./a.o.o";
    FirstDotO();
    forall e | e in BINARY_EXTENSIONS
      ensures !FirstOccurrenceEnds(p, e)
    {
      if e != ".o" {
        OnlyDotO(e);
        if FirstOccurrenceEnds(p, e) {
          FirstOccurrenceEndsWith(p, e);
        }
      }
    }
    assert p[5..] == ".o";
    assert ".o" in BINARY_EXTENSIONS && EndsWith(p, ".o");
  }

  /** Any name with one of the extensions appended is skipped by the intended filter. */
  lemma SkippedAnyStem(stem: string, e: string)
    requires e in BINARY_EXTENSIONS
    ensures Skipped(stem + e)
  {
    assert (stem + e)[|stem + e| - |e|..] == e;
  }

  /** What process decides for one entry: whether to search the file's contents,
      whether a shebang must be checked first, and whether to recurse into it. */
  datatype Outcome = Outcome(search: bool, shebangCheck: bool, recurse: bool)

  /** process's decision for an lstat result, given whether the extension filter
      calls the name binary: a failed lstat gives nothing; a readable regular file is
      searched unless it is not executable and its name looks binary (an executable one
      is searched after a shebang check); a readable and searchable directory is
      recursed into. */
  function Classify(st: Option<Stat>, binaryName: bool, uid: int, gid: int): (o: Outcome)
    ensures st.None? ==> o == Outcome(false, false, false)
    ensures o.recurse <==>
      st.Some? && IsDir(st.value.mode) && HavePerms(st.value, uid, gid, R) && HavePerms(st.value, uid, gid, X)
    ensures o.search <==>
      (st.Some? && IsReg(st.value.mode) && HavePerms(st.value, uid, gid, R) &&
       (st.value.mode & 0x49 != 0 || !binaryName))
    ensures o.shebangCheck <==> o.search && st.value.mode & 0x49 != 0
    ensures !(o.search && o.recurse)
  {
    match st
    case None => Outcome(false, false, false)
    case Some(sb) =>
      var readable := IsReg(sb.mode) && HavePerms(sb, uid, gid, R);
      var executable := sb.mode & 0x49 != 0;
      var search := readable && (executable || !binaryName);
      Outcome(search, search && executable,
              IsDir(sb.mode) && HavePerms(sb, uid, gid, R) && HavePerms(sb, uid, gid, X))
  }

  /** process as written, with the first-occurrence extension filter. */
  function Process(st: Option<Stat>, path: string, uid: int, gid: int): (o: Outcome)
    ensures st.None? ==> o == Outcome(false, false, false)
    ensures o.recurse <==>
      st.Some? && IsDir(st.value.mode) && HavePerms(st.value, uid, gid, R) && HavePerms(st.value, uid, gid, X)
    ensures o.search <==>
      (st.Some? && IsReg(st.value.mode) && HavePerms(st.value, uid, gid, R) &&
       (st.value.mode & 0x49 != 0 || !SkippedAsWritten(path)))
    ensures o.shebangCheck <==> o.search && st.value.mode & 0x49 != 0
    ensures !(o.search && o.recurse)
  {
    Classify(st, SkippedAsWritten(path), uid, gid)
  }

  /** process with the intended filter: a non-executable file whose name ends in one
      of the extensions is never searched. */
  function ProcessIntended(st: Option<Stat>, path: string, uid: int, gid: int): (o: Outcome)
    ensures o.recurse == Process(st, path, uid, gid).recurse
    ensures o.search <==>
      (st.Some? && IsReg(st.value.mode) && HavePerms(st.value, uid, gid, R) &&
       (st.value.mode & 0x49 != 0 || !Skipped(path)))
    ensures o.shebangCheck <==> o.search && st.value.mode & 0x49 != 0
  {
    Classify(st, Skipped(path), uid, gid)
  }

  /** The correction only stops searches: whatever the intended process searches or
      recurses into, process as written does too, and the two differ only on a
      non-executable file that ends in an extension without its first occurrence
      ending the path. */
  lemma ProcessIntendedSearchesLess(st: Option<Stat>, path: string, uid: int, gid: int)
    ensures ProcessIntended(st, path, uid, gid).search ==> Process(st, path, uid, gid).search
    ensures ProcessIntended(st, path, uid, gid).search != Process(st, path, uid, gid).search ==>
      st.value.mode & 0x49 == 0 && Skipped(path) && !SkippedAsWritten(path)
  {
    if SkippedAsWritten(path) {
      SkippedAsWrittenSound(path);
    }
  }

  /** A readable, non-executable object file "./a.o.o" is searched by process as
      written and not by the intended one. */
  lemma ProcessSearchesObject()
    ensures Process(Some(Stat(0, 0, 0x81A4)), "./a.o.o", 0, 0).search
    ensures !ProcessIntended(Some(Stat(0, 0, 0x81A4)), "./a.o.o", 0, 0).search
  {
    SkippedAsWrittenMissesRepeat();
  }

  /** One entry of walk's loop: `.` and `..` are skipped; any other name is pushed
      onto the current path, processed and popped again (the pop finds the `/` the
      push added, as asserted).  A child is forked for a directory to recurse into
      while depth > 1.  `st` is what lstat reports for the pushed path. */
  method WalkEntry(ss: SizedStr, name: string, st: Option<Stat>, uid: int, gid: int, depth: int)
    returns (fork: bool)
    requires ss.Valid() && NoNul(name) && forall j :: 0 <= j < |name| ==> name[j] != '/'
    requires ss.len + |name| + 1 < U64_LIMIT
    modifies ss, ss.data
    ensures ss.Valid() && ss.Contents() == old(ss.Contents())
    ensures fork <==>
      (name != "." && name != ".." && Process(st, PathPush(old(ss.Contents()), name), uid, gid).recurse && depth > 1)
  {
    if IsDotEntry(name) {
      return false;
    }
    ghost var before := ss.Contents();
    ss.Push(name);
    fork := Process(st, ss.data[..ss.len], uid, gid).recurse && depth > 1;
    PushPop(before, name);
    var popped := ss.Pop();
    assert popped.Some?;
  }
}

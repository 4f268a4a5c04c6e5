/** The open-addressing hash map of lab5/zad1: the string hash hashfn, the probe of
    _hash_get_cell over a power-of-two table with an odd stride, and the branch of hash_add
    that rewrites the value of a key already present.  Keys are C strings, the bytes before
    their NUL; values are opaque pointers, modelled as integers with 0 for NULL. */
module HashProbe {
  import opened Common

  // ---------------------------------------------------------------- hashfn

  /** The 64-bit unsigned arithmetic of hashfn and the probe, on naturals below 2^64. */
  const SEED: nat := 0xB5F3EC974D101806
  const PART: nat := 0x5555555555555555

  /** Bitwise exclusive or, bit by bit from the lowest. */
  function Xor(a: nat, b: nat): nat {
    if a == 0 then b
    else if b == 0 then a
    else 2 * Xor(a / 2, b / 2) + (if a % 2 != b % 2 then 1 else 0)
  }

  /** Bitwise or. */
  function Or(a: nat, b: nat): nat {
    if a == 0 then b
    else if b == 0 then a
    else 2 * Or(a / 2, b / 2) + (if a % 2 == 1 || b % 2 == 1 then 1 else 0)
  }

  /** The lowest bit of a ^ b and the rest. */
  lemma XorBits(a: nat, b: nat)
    ensures Xor(a, b) % 2 == (if a % 2 != b % 2 then 1 else 0)
    ensures Xor(a, b) / 2 == Xor(a / 2, b / 2)
  {
    if a == 0 {
      assert Xor(a / 2, b / 2) == b / 2;
    } else if b == 0 {
      assert Xor(a / 2, b / 2) == a / 2;
    } else {
      var r, bit := Xor(a / 2, b / 2), if a % 2 != b % 2 then 1 else 0;
      assert Xor(a, b) == 2 * r + bit;
    }
  }

  lemma {:induction false} XorComm(a: nat, b: nat)
    ensures Xor(a, b) == Xor(b, a)
    decreases a + b
  {
    if a != 0 && b != 0 {
      XorComm(a / 2, b / 2);
    }
  }

  lemma {:induction false} XorAssoc(a: nat, b: nat, c: nat)
    ensures Xor(Xor(a, b), c) == Xor(a, Xor(b, c))
    decreases a + b + c
  {
    if a + b + c > 0 {
      XorAssoc(a / 2, b / 2, c / 2);
      var l, r := Xor(Xor(a, b), c), Xor(a, Xor(b, c));
      XorBits(a, b);
      XorBits(Xor(a, b), c);
      XorBits(b, c);
      XorBits(a, Xor(b, c));
      assert l / 2 == r / 2 && l % 2 == r % 2;
    }
  }

  /** Exclusive or stays within n bits. */
  lemma {:induction false} XorBound(a: nat, b: nat, n: nat)
    requires a < Pow2(n) && b < Pow2(n)
    ensures Xor(a, b) < Pow2(n)
  {
    if a != 0 && b != 0 {
      XorBound(a / 2, b / 2, n - 1);
    }
  }

  /** (unsigned)*str: the char, signed on the usual ABIs, sign-extended to 32 bits. */
  function Unsigned(c: byte): (w: nat)
    ensures w < U32_LIMIT
  {
    if c < 0x80 then c else c + 0xFFFF_FF00
  }

  /** part ^= (unsigned)c << (8 * i) at i == 0. */
  function XorStep(part: nat, c: byte): nat {
    Xor(part, Unsigned(c))
  }

  /** s folded from the left with f, starting from z. */
  function Fold<A, R>(f: (R, A) -> R, z: R, s: seq<A>): R {
    if s == [] then z else f(Fold(f, z, s[..|s| - 1]), s[|s| - 1])
  }

  /** The exclusive or of all the (unsigned) characters. */
  function XorAll(s: seq<byte>): nat {
    Fold(XorStep, 0, s)
  }

  /** part once the inner loop has XORed in all of s. */
  function Part(s: seq<byte>): nat {
    Xor(PART, XorAll(s))
  }

  lemma PartSnoc(s: seq<byte>, c: byte)
    ensures Part(s + [c]) == Xor(Part(s), Unsigned(c))
  {
    assert (s + [c])[..|s|] == s;
    XorAssoc(PART, XorAll(s), Unsigned(c));
  }

  /** x << k in an unsigned integer below limit: one doubling at a time, dropping the
      bit shifted out at the top. */
  function Shl(x: nat, k: nat, limit: nat): (r: nat)
    requires limit > 0
    ensures k > 0 ==> r < limit
  {
    if k == 0 then x else (2 * Shl(x, k - 1, limit)) % limit
  }

  /** x >> k: one halving at a time. */
  function Shr(x: nat, k: nat): (r: nat)
    ensures r <= x
  {
    if k == 0 then x else Shr(x, k - 1) / 2
  }

  /** ret ^= ret << k, in 64 bits. */
  function XorShl(x: nat, k: nat): nat {
    Xor(x, Shl(x, k, U64_LIMIT))
  }

  /** ret ^= ret >> k. */
  function XorShr(x: nat, k: nat): nat {
    Xor(x, Shr(x, k))
  }

  /** One xorshift round: shifts by 13 left, 7 right and 17 left. */
  function Mix(x: nat): nat {
    XorShl(XorShr(XorShl(x, 13), 7), 17)
  }

  /** The one pass of the outer loop: ret ^= part, then the xorshift round. */
  function Round(part: nat): nat {
    Mix(Xor(SEED, part))
  }

  /** What hashfn returns: the seed for the empty string; otherwise, since the inner loop
      never increments i, every character is XORed unshifted into one part, the inner loop
      runs to the end of the string and the outer loop runs once. */
  function Hash(key: seq<byte>): nat {
    if key == [] then SEED else Round(Part(key))
  }

  /** A C string's bytes: no NUL among them. */
  predicate CString(s: seq<byte>) {
    forall i :: 0 <= i < |s| ==> s[i] != 0
  }

  /** hashfn: the outer loop, which runs once for a non-empty string, and the xorshift
      round after each part. */
  method HashFn(key: seq<byte>) returns (ret: nat)
    requires CString(key)
    ensures ret == Hash(key)
    ensures key == [] ==> ret == 0xB5F3EC974D101806
  {
    ret := SEED;
    var pos := 0;
    while pos < |key|
      invariant pos == 0 || pos == |key|
      invariant pos == 0 ==> ret == SEED
      invariant pos > 0 ==> ret == Round(Part(key))
    {
      var part := PART;
      var i := 0;
      while i < 8 && pos < |key|
        invariant i == 0 && pos <= |key|
        invariant part == Part(key[..pos])
      {
        PartStep(key, pos);
        // the 32-bit shift by 8 * i, with i never incremented
        part := Xor(part, Shl(Unsigned(key[pos]), 8 * i, U32_LIMIT));
        pos := pos + 1;
      }
      assert key[..pos] == key;
      ret := Xor(ret, part);
      ret := XorShl(ret, 13);
      ret := XorShr(ret, 7);
      ret := XorShl(ret, 17);
    }
  }

  /** One pass of the inner loop at i == 0 extends part by the next character. */
  lemma PartStep(key: seq<byte>, pos: nat)
    requires pos < |key|
    ensures Part(key[..pos + 1]) == Xor(Part(key[..pos]), Unsigned(key[pos]))
  {
    assert key[..pos + 1] == key[..pos] + [key[pos]];
    PartSnoc(key[..pos], key[pos]);
  }

  /** Every hash is a 64-bit value. */
  lemma HashBound(key: seq<byte>)
    ensures Hash(key) < U64_LIMIT
  {
    Pow2Limits();
    if key != [] {
      var x := XorAll(key);
      XorAllBound(key);
      assert PART < Pow2(64) && SEED < Pow2(64);
      XorBound(PART, x, 64);
      XorBound(SEED, Part(key), 64);
      var a := Xor(SEED, Part(key));
      ShiftsBound(a);
    }
  }

  /** The exclusive or of 32-bit values stays within 32 bits. */
  lemma {:induction false} XorAllBound(s: seq<byte>)
    ensures XorAll(s) < U32_LIMIT
  {
    if s != [] {
      var init := s[..|s| - 1];
      XorAllBound(init);
      Pow2Limits();
      XorBound(XorAll(init), Unsigned(s[|s| - 1]), 32);
    }
  }

  /** The xorshift round keeps a 64-bit value within 64 bits. */
  lemma ShiftsBound(a: nat)
    requires a < U64_LIMIT
    ensures Mix(a) < U64_LIMIT
  {
    XorShlBound(a, 13);
    XorShrBound(XorShl(a, 13), 7);
    XorShlBound(XorShr(XorShl(a, 13), 7), 17);
  }

  lemma XorShlBound(x: nat, k: nat)
    requires x < U64_LIMIT && k > 0
    ensures XorShl(x, k) < U64_LIMIT
  {
    Pow2Limits();
    XorBound(x, Shl(x, k, U64_LIMIT), 64);
  }

  lemma XorShrBound(x: nat, k: nat)
    requires x < U64_LIMIT
    ensures XorShr(x, k) < U64_LIMIT
  {
    Pow2Limits();
    XorBound(x, Shr(x, k), 64);
  }

  /** f(f(r, a), b) == f(f(r, b), a): the order of the last two steps does not matter. */
  ghost predicate RightCommutes<A(!new), R(!new)>(f: (R, A) -> R) {
    forall r, a, b :: f(f(r, a), b) == f(f(r, b), a)
  }

  /** Cutting out element j < |t| - 1 commutes with dropping the last element. */
  lemma CutBeforeLast<T>(t: seq<T>, j: nat)
    requires j < |t| - 1
    ensures t[..j] + t[j + 1..] == (t[..|t| - 1][..j] + t[..|t| - 1][j + 1..]) + [t[|t| - 1]]
  {
  }

  /** With right-commuting steps, element j can be folded in last. */
  lemma {:induction false} FoldRemove<A(!new), R(!new)>(f: (R, A) -> R, z: R, t: seq<A>, j: nat)
    requires RightCommutes(f) && j < |t|
    ensures Fold(f, z, t) == f(Fold(f, z, t[..j] + t[j + 1..]), t[j])
  {
    var last := |t| - 1;
    if j < last {
      var u, y := t[..last], t[last];
      FoldRemove(f, z, u, j);
      var r := u[..j] + u[j + 1..];
      CutBeforeLast(t, j);
      var ry := r + [y];
      assert ry[..|ry| - 1] == r;
      assert u[j] == t[j];
    } else {
      assert t[..j] + t[j + 1..] == t[..last];
    }
  }

  /** With right-commuting steps, the fold does not depend on the order of the elements. */
  lemma {:induction false} FoldPermutation<A(!new), R(!new)>(f: (R, A) -> R, z: R, s: seq<A>, t: seq<A>)
    requires RightCommutes(f) && multiset(s) == multiset(t)
    ensures Fold(f, z, s) == Fold(f, z, t)
    decreases |s|
  {
    if s != [] {
      var x := s[|s| - 1];
      RemoveAt(s, |s| - 1);
      assert x in multiset(t);
      var j :| 0 <= j < |t| && t[j] == x;
      RemoveAt(t, j);
      FoldPermutation(f, z, s[..|s| - 1], t[..j] + t[j + 1..]);
      FoldRemove(f, z, t, j);
      assert s[..|s| - 1] + s[|s|..] == s[..|s| - 1];
    } else {
      assert |t| == |multiset(t)| == 0;
    }
  }

  /** Cutting out element j removes one copy of it from the multiset. */
  lemma RemoveAt<A>(t: seq<A>, j: nat)
    requires j < |t|
    ensures multiset(t[..j] + t[j + 1..]) == multiset(t) - multiset([t[j]])
  {
    assert t == t[..j] + [t[j]] + t[j + 1..];
  }

  /** XORing characters into part commutes. */
  lemma XorStepCommutes()
    ensures RightCommutes(XorStep)
  {
    forall part, a, b
      ensures XorStep(XorStep(part, a), b) == XorStep(XorStep(part, b), a)
    {
      XorAssoc(part, Unsigned(a), Unsigned(b));
      XorComm(Unsigned(a), Unsigned(b));
      XorAssoc(part, Unsigned(b), Unsigned(a));
    }
  }

  /** Any two strings with the same characters in any order hash alike. */
  lemma HashPermutation(s: seq<byte>, t: seq<byte>)
    requires multiset(s) == multiset(t)
    ensures Hash(s) == Hash(t)
  {
    XorStepCommutes();
    FoldPermutation(XorStep, 0, s, t);
    assert |s| == |multiset(s)| == |multiset(t)| == |t|;
  }

  /** "ab" and "ba" collide. */
  lemma HashCollides()
    ensures Hash([97, 98]) == Hash([98, 97])
  {
    assert multiset([97, 98]) == multiset([98, 97]);
    HashPermutation([97, 98], [98, 97]);
  }

  // ---------------------------------------------------------------- the probe

  /** A cell of the table: its key (None for NULL) and its value. */
  datatype Cell = Cell(key: Option<seq<byte>>, val: int)

  /** The number of cells holding a key. */
  function Occupied(cells: seq<Cell>): (n: nat)
    ensures n <= |cells|
  {
    if cells == [] then 0 else Occupied(cells[..|cells| - 1]) + (if cells[|cells| - 1].key.Some? then 1 else 0)
  }

  /** A cell without a key, which exists when fewer cells than all are occupied. */
  ghost function FreeCell(cells: seq<Cell>): (i: nat)
    requires Occupied(cells) < |cells|
    ensures i < |cells| && cells[i].key.None?
  {
    if cells[|cells| - 1].key.None? then |cells| - 1
    else
      var i := FreeCell(cells[..|cells| - 1]);
      assert cells[..|cells| - 1][i] == cells[i];
      i
  }

  /** _hash_get_cell's stride: ((hash >> 5) - hash) | 1 in 64-bit unsigned arithmetic. */
  function Stride(hash: nat): nat {
    Or((hash / 32 - hash) % U64_LIMIT, 1)
  }

  /** The stride is odd. */
  lemma StrideOdd(hash: nat)
    ensures Stride(hash) % 2 == 1
  {
  }

  /** The index after k steps from start with stride s, wrapping at 2^64. */
  function Walk(start: nat, s: nat, k: nat): nat {
    if k == 0 then start % U64_LIMIT else (Walk(start, s, k - 1) + s) % U64_LIMIT
  }

  /** idx after k steps: it starts at hash and grows by the stride. */
  function Idx(hash: nat, k: nat): nat {
    Walk(hash, Stride(hash), k)
  }

  /** The walk in closed form. */
  lemma {:induction false} WalkClosed(start: nat, s: nat, k: nat)
    ensures Walk(start, s, k) == (start + k * s) % U64_LIMIT
  {
    if k > 0 {
      WalkClosed(start, s, k - 1);
      var x := start + (k - 1) * s;
      MulSucc(k, s);
      ModAdd(x, s);
    }
  }

  lemma MulSucc(k: nat, s: nat)
    requires k > 0
    ensures k * s == (k - 1) * s + s
  {
  }

  /** idx after k steps, in closed form. */
  lemma IdxClosed(hash: nat, k: nat)
    ensures Idx(hash, k) == (hash + k * Stride(hash)) % U64_LIMIT
  {
    WalkClosed(hash, Stride(hash), k);
  }

  lemma IdxStart(hash: nat)
    requires hash < U64_LIMIT
    ensures Idx(hash, 0) == hash
  {
  }

  lemma SlotAt(hash: nat, size: nat, k: nat, idx: nat)
    requires size > 0 && idx == Idx(hash, k)
    ensures And(idx, size - 1) == ProbeSlot(hash, size, k) < size
  {
  }

  lemma IdxStep(hash: nat, k: nat)
    ensures Idx(hash, k + 1) == (Idx(hash, k) + Stride(hash)) % U64_LIMIT
  {
  }

  lemma ModAdd(x: nat, d: nat)
    ensures (x % U64_LIMIT + d) % U64_LIMIT == (x + d) % U64_LIMIT
  {
  }

  /** The cell the k-th step of the probe looks at: idx & mask. */
  function ProbeSlot(hash: nat, size: nat, k: nat): (slot: nat)
    requires size > 0
    ensures slot < size
  {
    AndBound(Idx(hash, k), size - 1);
    And(Idx(hash, k), size - 1)
  }

  lemma {:induction false} AndBound(a: nat, b: nat)
    ensures And(a, b) <= b
  {
    if a != 0 && b != 0 {
      AndBound(a / 2, b / 2);
    }
  }

  /** The low n bits of x. */
  function LowBits(x: nat, n: nat): (r: nat)
    ensures r < Pow2(n)
  {
    if n == 0 then 0 else x % 2 + 2 * LowBits(x / 2, n - 1)
  }

  /** Masking with 2^n - 1 keeps the low n bits. */
  lemma {:induction false} AndMask(x: nat, n: nat)
    ensures And(x, Pow2(n) - 1) == LowBits(x, n)
  {
    if n > 0 && x > 0 {
      assert (Pow2(n) - 1) / 2 == Pow2(n - 1) - 1;
      AndMask(x / 2, n - 1);
    } else if n > 0 {
      assert LowBits(0, n) == 2 * LowBits(0, n - 1);
      ZeroLow(n - 1);
    }
  }

  lemma {:induction false} ZeroLow(n: nat)
    ensures LowBits(0, n) == 0
  {
    if n > 0 {
      ZeroLow(n - 1);
    }
  }

  /** Adding a multiple of 2^n leaves the low n bits alone. */
  lemma {:induction false} LowBitsShift(x: nat, d: nat, n: nat)
    requires DivPow2(d, n)
    ensures LowBits(x + d, n) == LowBits(x, n)
  {
    if n > 0 {
      assert (x + d) % 2 == x % 2 && (x + d) / 2 == x / 2 + d / 2;
      LowBitsShift(x / 2, d / 2, n - 1);
    }
  }

  /** q 2^n is a multiple of 2^n. */
  lemma {:induction false} MulPow2(q: nat, n: nat)
    ensures DivPow2(q * Pow2(n), n)
  {
    if n > 0 {
      var t := q * Pow2(n - 1);
      assert q * Pow2(n) == 2 * t;
      MulPow2(q, n - 1);
    }
  }

  /** A multiple of 2^m is a multiple of 2^n for n <= m. */
  lemma {:induction false} DivPow2Weaken(d: nat, m: nat, n: nat)
    requires n <= m && DivPow2(d, m)
    ensures DivPow2(d, n)
  {
    if n > 0 {
      DivPow2Weaken(d / 2, m - 1, n - 1);
    }
  }

  /** The wrap-around at 2^64 leaves the low n <= 64 bits alone. */
  lemma LowBitsWrap(x: nat, n: nat)
    requires n <= 64
    ensures LowBits(x % U64_LIMIT, n) == LowBits(x, n)
  {
    var q := x / U64_LIMIT;
    var d := q * U64_LIMIT;
    assert x % U64_LIMIT + d == x;
    Pow2Limits();
    MulPow2(q, 64);
    DivPow2Weaken(d, 64, n);
    LowBitsShift(x % U64_LIMIT, d, n);
  }

  /** d is a multiple of 2^n. */
  predicate DivPow2(d: nat, n: nat) {
    n == 0 || (d % 2 == 0 && DivPow2(d / 2, n - 1))
  }

  /** Two numbers with the same low n bits differ by a multiple of 2^n. */
  lemma {:induction false} LowBitsDiff(a: nat, d: nat, n: nat)
    requires LowBits(a + d, n) == LowBits(a, n)
    ensures DivPow2(d, n)
  {
    if n > 0 {
      assert (a + d) % 2 == a % 2;
      assert d % 2 == 0;
      assert (a + d) / 2 == a / 2 + d / 2;
      LowBitsDiff(a / 2, d / 2, n - 1);
    }
  }

  /** An odd factor does not help a product become a multiple of 2^n. */
  lemma {:induction false} OddCancel(d: nat, c: nat, n: nat)
    requires c % 2 == 1 && DivPow2(d * c, n)
    ensures DivPow2(d, n)
  {
    if n > 0 {
      var q := d / 2;
      EvenFactor(d, c);
      assert d == 2 * q;
      assert d * c == 2 * (q * c);
      assert (d * c) / 2 == q * c;
      OddCancel(q, c, n - 1);
    }
  }

  lemma EvenFactor(d: nat, c: nat)
    requires c % 2 == 1 && (d * c) % 2 == 0
    ensures d % 2 == 0
  {
    var q, r := d / 2, d % 2;
    assert d * c == 2 * (q * c) + r * c;
    assert (d * c) % 2 == (r * c) % 2;
  }

  /** A positive multiple of 2^n is at least 2^n. */
  lemma {:induction false} DivPow2Bound(d: nat, n: nat)
    requires d > 0 && DivPow2(d, n)
    ensures d >= Pow2(n)
  {
    if n > 0 {
      DivPow2Bound(d / 2, n - 1);
    }
  }

  /** Within 2^n steps of an odd stride the low n bits never repeat. */
  lemma Distinct(h: nat, c: nat, n: nat, k1: nat, k2: nat)
    requires c % 2 == 1 && k1 < k2 < Pow2(n)
    ensures LowBits(h + k1 * c, n) != LowBits(h + k2 * c, n)
  {
    var a := h + k1 * c;
    var d := (k2 - k1) * c;
    assert h + k2 * c == a + d;
    if LowBits(a + d, n) == LowBits(a, n) {
      LowBitsDiff(a, d, n);
      OddCancel(k2 - k1, c, n);
      DivPow2Bound(k2 - k1, n);
    }
  }

  /** The probe's cell after k steps, for a table of 2^n cells with n <= 64. */
  lemma ProbeLow(hash: nat, n: nat, k: nat)
    requires n <= 64
    ensures ProbeSlot(hash, Pow2(n), k) == LowBits(hash + k * Stride(hash), n)
  {
    var x := hash + k * Stride(hash);
    IdxClosed(hash, k);
    MaskWrap(x, n);
  }

  /** Masking the wrapped index with 2^n - 1 keeps the low n bits of the unwrapped one. */
  lemma MaskWrap(x: nat, n: nat)
    requires n <= 64
    ensures And(x % U64_LIMIT, Pow2(n) - 1) == LowBits(x, n)
  {
    AndMask(x % U64_LIMIT, n);
    LowBitsWrap(x, n);
  }

  /** In a table of 2^n cells the first 2^n steps of the probe look at distinct cells. */
  lemma ProbeDistinct(hash: nat, n: nat, k1: nat, k2: nat)
    requires n <= 64 && k1 < k2 < Pow2(n)
    ensures ProbeSlot(hash, Pow2(n), k1) != ProbeSlot(hash, Pow2(n), k2)
  {
    ProbeLow(hash, n, k1);
    ProbeLow(hash, n, k2);
    StrideOdd(hash);
    Distinct(hash, Stride(hash), n, k1, k2);
  }

  /** The cells a probe of size steps looks at. */
  ghost function Visited(hash: nat, size: nat, k: nat): set<nat>
    requires size > 0
  {
    set j | 0 <= j < k :: ProbeSlot(hash, size, j)
  }

  /** Distinct steps look at as many cells as there are steps. */
  lemma {:induction false} VisitedCount(hash: nat, n: nat, k: nat)
    requires n <= 64 && k <= Pow2(n)
    ensures |Visited(hash, Pow2(n), k)| == k
  {
    if k > 0 {
      VisitedCount(hash, n, k - 1);
      var s := ProbeSlot(hash, Pow2(n), k - 1);
      assert Visited(hash, Pow2(n), k) == Visited(hash, Pow2(n), k - 1) + {s};
      forall j | 0 <= j < k - 1
        ensures ProbeSlot(hash, Pow2(n), j) != s
      {
        ProbeDistinct(hash, n, j, k - 1);
      }
    }
  }

  /** The numbers below k. */
  ghost function Below(k: nat): (r: set<nat>)
    ensures |r| == k
    ensures forall j: nat :: j in r <==> j < k
  {
    if k == 0 then {}
    else
      var r := Below(k - 1);
      assert k - 1 !in r;
      r + {k - 1}
  }

  /** A subset is no larger than its superset. */
  lemma {:induction false} SubsetCount<T>(a: set<T>, b: set<T>)
    requires a <= b
    ensures |a| <= |b|
    decreases b
  {
    if b != {} {
      var x :| x in b;
      SubsetCount(a - {x}, b - {x});
    }
  }

  /** In a table of 2^n cells the probe looks at every cell within 2^n steps. */
  lemma ProbeCovers(hash: nat, n: nat, t: nat)
    requires n <= 64 && t < Pow2(n)
    ensures exists k :: 0 <= k < Pow2(n) && ProbeSlot(hash, Pow2(n), k) == t
  {
    var size := Pow2(n);
    var v := Visited(hash, size, size);
    VisitedCount(hash, n, size);
    if t !in v {
      var rest := Below(size) - {t};
      assert v <= rest;
      SubsetCount(v, rest);
      assert false;
    }
  }

  /** The corrected assert, (size & (size - 1)) == 0. */
  predicate PowerOfTwo(size: nat)
    requires size > 0
  {
    And(size, size - 1) == 0
  }

  /** The assert as written: == binds tighter than &, so it reads
      size & ((size - 1) == 0), which holds only for size 1. */
  predicate PowerOfTwoAsWritten(size: nat) {
    And(size, if size - 1 == 0 then 1 else 0) != 0
  }

  /** The assert as written rejects every table but one of a single cell, a power of two
      such as 8 among them. */
  lemma PowerOfTwoAsWrittenRejects(size: nat)
    requires size > 0
    ensures PowerOfTwoAsWritten(size) <==> size == 1
    ensures !PowerOfTwoAsWritten(8)
  {
    assert And(8, 0) == 0;
    if size == 1 {
      assert And(1, 1) == 2 * And(0, 0) + 1;
    }
  }

  /** The corrected assert holds exactly for the powers of two. */
  lemma PowerOfTwoIsPow2(size: nat)
    requires size > 0
    ensures PowerOfTwo(size) <==> IsPow2(size)
  {
    AndPred(size);
    if IsPow2(size) {
      LowBitOfPow2(Log2(size));
    } else if LowBit(size) == size {
      LowBitPow2(size);
    }
  }

  lemma {:induction false} LowBitOfPow2(k: nat)
    ensures LowBit(Pow2(k)) == Pow2(k)
  {
    if k > 0 {
      assert Pow2(k) / 2 == Pow2(k - 1);
      LowBitOfPow2(k - 1);
    }
  }

  /** What _hash_get_cell asserts of the map: a non-empty table, fewer elements than cells,
      a power-of-two size (as corrected), and elems counting at least the occupied cells. */
  predicate Probeable(cells: seq<Cell>, elems: nat) {
    |cells| > 0 && elems < |cells| && PowerOfTwo(|cells|) && |cells| < U32_LIMIT &&
    Occupied(cells) <= elems
  }

  /** The first k cells on the probe path of hash hold keys other than key. */
  ghost predicate Passed(cells: seq<Cell>, hash: nat, key: seq<byte>, k: nat)
    requires |cells| > 0
  {
    forall j :: 0 <= j < k ==>
      cells[ProbeSlot(hash, |cells|, j)].key.Some? && cells[ProbeSlot(hash, |cells|, j)].key != Some(key)
  }

  lemma PassOne(cells: seq<Cell>, hash: nat, key: seq<byte>, k: nat)
    requires |cells| > 0 && Passed(cells, hash, key, k)
    requires cells[ProbeSlot(hash, |cells|, k)].key.Some? && cells[ProbeSlot(hash, |cells|, k)].key != Some(key)
    ensures Passed(cells, hash, key, k + 1)
  {
  }

  /** _hash_get_cell: it returns the first cell on the key's probe path that is empty or
      holds the key.  The cells before it on the path hold other keys, and the probe ends
      within size steps. */
  method GetCell(table: array<Cell>, elems: nat, key: seq<byte>) returns (slot: nat, ghost steps: nat)
    requires CString(key) && Probeable(table[..], elems)
    ensures steps < table.Length && slot == ProbeSlot(Hash(key), table.Length, steps) < table.Length
    ensures table[slot].key.None? || table[slot].key == Some(key)
    ensures Passed(table[..], Hash(key), key, steps)
  {
    var hash := HashFn(key);
    HashBound(key);
    slot, steps := Probe(table, elems, key, hash);
  }

  /** The probe loop of _hash_get_cell for a given hash: the index starts at the hash
      and advances by the odd stride, wrapping at 64 bits, and its low bits select the
      cell. */
  method Probe(table: array<Cell>, elems: nat, key: seq<byte>, hash: nat) returns (slot: nat, ghost steps: nat)
    requires hash < U64_LIMIT && Probeable(table[..], elems)
    ensures steps < table.Length && slot == ProbeSlot(hash, table.Length, steps) < table.Length
    ensures table[slot].key.None? || table[slot].key == Some(key)
    ensures Passed(table[..], hash, key, steps)
  {
    var size := table.Length;
    var mask: nat := size - 1;
    var inc: nat := Stride(hash);
    IdxStart(hash);
    var idx: nat := hash;
    ghost var last := ProbeFindsFree(table[..], elems, hash);
    steps := 0;
    while true
      invariant steps <= last && idx == Idx(hash, steps)
      invariant Passed(table[..], hash, key, steps)
      decreases last - steps
    {
      SlotAt(hash, size, steps, idx);
      slot := And(idx, mask);
      if table[slot].key.None? || table[slot].key == Some(key) {
        return;
      }
      PassOne(table[..], hash, key, steps);
      IdxStep(hash, steps);
      idx := (idx + inc) % U64_LIMIT;
      steps := steps + 1;
    }
  }

  /** In a table fit for probing, some step within size looks at an empty cell. */
  lemma ProbeFindsFree(cells: seq<Cell>, elems: nat, hash: nat) returns (last: nat)
    requires Probeable(cells, elems)
    ensures last < |cells| && cells[ProbeSlot(hash, |cells|, last)].key.None?
  {
    var size := |cells|;
    PowerOfTwoIsPow2(size);
    var n := Log2(size);
    Pow2Limits();
    if n > 32 {
      Pow2Monotone(32, n);
    }
    var free := FreeCell(cells);
    ProbeCovers(hash, n, free);
    last :| 0 <= last < size && ProbeSlot(hash, size, last) == free;
  }

  /** hash_add when the key is present: GetCell's cell gets the new value, after the old
      one is passed to the value destructor if there is one and the old value is not NULL
      (returned as `freed`).  For a key not present the source does nothing yet. */
  method HashAdd(table: array<Cell>, elems: nat, key: seq<byte>, val: int, hasValFree: bool)
    returns (slot: nat, freed: Option<int>)
    requires CString(key) && Probeable(table[..], elems)
    modifies table
    ensures slot < table.Length
    ensures old(table[slot]).key.None? || old(table[slot]).key == Some(key)
    ensures old(table[slot]).key == Some(key) ==>
      table[..] == old(table[..])[slot := Cell(Some(key), val)] &&
      freed == (if hasValFree && old(table[slot]).val != 0 then Some(old(table[slot]).val) else None)
    ensures old(table[slot]).key.None? ==> table[..] == old(table[..]) && freed.None?
  {
    ghost var steps;
    slot, steps := GetCell(table, elems, key);
    freed := None;
    if table[slot].key.Some? {
      if hasValFree && table[slot].val != 0 {
        freed := Some(table[slot].val);
      }
      table[slot] := table[slot].(val := val);
    }
  }
}

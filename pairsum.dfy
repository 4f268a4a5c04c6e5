/** The parallel integrator of lab3/zad2.  Each of `workers` child processes sums the
    integrand over the samples s = offset, offset + workers, ... below `samples`, and the
    parent adds up the children's results.  Both sums go through the same pairwise
    summation: a binary counter `mask` whose bit i, when set, means that accum[i] holds
    the sum of a block of 2^i consecutive values.  The floating-point integrand is the
    parameter f (f(s) stands for func(s / (samples - 1))) and the values are exact reals,
    so rounding is not modelled. */
module PairSum {
  import opened Common

  /** The bins of accum: 8 * sizeof(int). */
  const BINS: nat := 32

  /** The number of trailing zero bits of a positive number. */
  function TrailingZeros(v: nat): nat
    requires v > 0
  {
    if v % 2 == 1 then 0 else 1 + TrailingZeros(v / 2)
  }

  /** What is left of v once its trailing zero bits are shifted out. */
  function OddPart(v: nat): nat
    requires v > 0
  {
    if v % 2 == 1 then v else OddPart(v / 2)
  }

  /** v is 2^TrailingZeros(v) times an odd number. */
  lemma {:induction false} TrailingZerosSplit(v: nat)
    requires v > 0
    ensures v == Pow2(TrailingZeros(v)) * OddPart(v) && OddPart(v) % 2 == 1
  {
    if v % 2 == 0 {
      TrailingZerosSplit(v / 2);
      var p, q := Pow2(TrailingZeros(v / 2)), OddPart(v / 2);
      assert v == 2 * (p * q);
      assert 2 * (p * q) == (2 * p) * q;
    }
  }

  /** 2^TrailingZeros(v) divides v, so it is at most v. */
  lemma {:induction false} TrailingZerosPow(v: nat)
    requires v > 0
    ensures Pow2(TrailingZeros(v)) <= v
  {
    if v % 2 == 0 {
      TrailingZerosPow(v / 2);
    }
  }

  /** A number below 2^32 has fewer than 32 trailing zero bits. */
  lemma TrailingZerosBound(v: nat)
    requires 0 < v < U32_LIMIT
    ensures TrailingZeros(v) < BINS
  {
    TrailingZerosPow(v);
    Pow2Limits();
    if TrailingZeros(v) >= BINS {
      Pow2Monotone(BINS, TrailingZeros(v));
    }
  }

  /** ctz: shifts value right until its low bit is set; 32 for 0. */
  method Ctz(value: nat) returns (r: nat)
    requires value < U32_LIMIT
    ensures value == 0 ==> r == BINS
    ensures value > 0 ==> r == TrailingZeros(value) && r < BINS
    ensures value > 0 ==> value == Pow2(r) * OddPart(value) && OddPart(value) % 2 == 1
  {
    if value == 0 {
      return BINS;
    }
    r := 0;
    var v := value;
    while v % 2 == 0
      invariant 0 < v && TrailingZeros(value) == r + TrailingZeros(v)
      decreases v
    {
      r, v := r + 1, v / 2;
    }
    TrailingZerosBound(value);
    TrailingZerosSplit(value);
  }

  /** Bit i of m: (m >> i) & 1. */
  predicate Bit(m: nat, i: nat) {
    if i == 0 then m % 2 == 1 else Bit(m / 2, i - 1)
  }

  /** 0 has no bit set. */
  lemma {:induction false} NoBits(i: nat)
    ensures !Bit(0, i)
  {
    if i > 0 {
      NoBits(i - 1);
    }
  }

  /** The value of the low i bits of m. */
  function Low(m: nat, i: nat): nat {
    if i == 0 then 0 else m % 2 + 2 * Low(m / 2, i - 1)
  }

  /** The low i + 1 bits are the low i bits plus bit i. */
  lemma {:induction false} LowStep(m: nat, i: nat)
    ensures Low(m, i + 1) == Low(m, i) + (if Bit(m, i) then Pow2(i) else 0)
  {
    if i > 0 {
      LowStep(m / 2, i - 1);
    }
  }

  /** The low i bits of m are below 2^i and at most m, and all of m when m < 2^i. */
  lemma {:induction false} LowBound(m: nat, i: nat)
    ensures Low(m, i) < Pow2(i) && Low(m, i) <= m
    ensures m < Pow2(i) ==> Low(m, i) == m
  {
    if i > 0 {
      LowBound(m / 2, i - 1);
    }
  }

  /** ++mask with b = ctz(mask + 1): the bits below b are set in mask and clear after the
      increment, bit b goes from clear to set, and the bits above b do not change. */
  lemma {:induction false} Increment(m: nat, i: nat)
    ensures i <= TrailingZeros(m + 1) ==> Low(m, i) == Pow2(i) - 1 && Low(m + 1, i) == 0
    ensures i < TrailingZeros(m + 1) ==> Bit(m, i)
    ensures i == TrailingZeros(m + 1) ==> !Bit(m, i) && Bit(m + 1, i)
    ensures i > TrailingZeros(m + 1) ==> Bit(m + 1, i) == Bit(m, i) && Low(m + 1, i) == Low(m, i) + 1
  {
    if m % 2 == 1 && i > 0 {
      assert (m + 1) / 2 == m / 2 + 1;
      Increment(m / 2, i - 1);
    } else if i > 0 {
      assert (m + 1) / 2 == m / 2;
    }
  }

  /** The sum of values[a..b]. */
  function SumRange(values: seq<real>, a: nat, b: nat): real
    requires a <= b <= |values|
    decreases b - a
  {
    if a == b then 0.0 else SumRange(values, a, b - 1) + values[b - 1]
  }

  lemma {:induction false} SumSplit(values: seq<real>, a: nat, b: nat, c: nat)
    requires a <= b <= c <= |values|
    ensures SumRange(values, a, c) == SumRange(values, a, b) + SumRange(values, b, c)
    decreases c - b
  {
    if b < c {
      SumSplit(values, a, b, c - 1);
    }
  }

  /** Appending a value leaves the sums of the old ranges alone. */
  lemma {:induction false} SumAppend(values: seq<real>, v: real, a: nat, b: nat)
    requires a <= b <= |values|
    ensures SumRange(values + [v], a, b) == SumRange(values, a, b)
    decreases b - a
  {
    if a < b {
      SumAppend(values, v, a, b - 1);
    }
  }

  /** The counter invariant after folding `values`: mask counts them, and for each set
      bit i, accum[i] is the sum of the block of 2^i values that bit stands for, which
      ends where the blocks of the lower set bits begin. */
  ghost predicate Blocks(acc: seq<real>, values: seq<real>, mask: nat) {
    |acc| == BINS && mask == |values| &&
    forall i: nat :: i < BINS && Bit(mask, i) ==> Block(acc, values, mask, i)
  }

  /** accum[i] holds the block of bit i of mask: the values from mask - Low(mask, i + 1)
      up to mask - Low(mask, i). */
  ghost predicate Block(acc: seq<real>, values: seq<real>, mask: nat, i: nat) {
    i < |acc| && Low(mask, i) <= Low(mask, i + 1) <= mask <= |values| &&
    acc[i] == SumRange(values, mask - Low(mask, i + 1), mask - Low(mask, i))
  }

  /** The sum of accum[i] over the set bits i < k of mask. */
  function BitsSum(acc: seq<real>, mask: nat, k: nat): real
    requires k <= |acc|
  {
    if k == 0 then 0.0 else BitsSum(acc, mask, k - 1) + (if Bit(mask, k - 1) then acc[k - 1] else 0.0)
  }

  /** The blocks of the set bits below k together hold the last Low(mask, k) values. */
  lemma {:induction false} BitsSumSuffix(acc: seq<real>, values: seq<real>, mask: nat, k: nat)
    requires Blocks(acc, values, mask) && k <= BINS
    ensures Low(mask, k) <= mask
    ensures BitsSum(acc, mask, k) == SumRange(values, mask - Low(mask, k), mask)
  {
    LowBound(mask, k);
    if k > 0 {
      BitsSumSuffix(acc, values, mask, k - 1);
      LowStep(mask, k - 1);
      if Bit(mask, k - 1) {
        SumSplit(values, mask - Low(mask, k), mask - Low(mask, k - 1), mask);
      }
    }
  }

  /** The final loop's sum over the set bits is the sum of everything folded. */
  lemma TotalIsSum(acc: seq<real>, values: seq<real>, mask: nat)
    requires Blocks(acc, values, mask) && mask < U32_LIMIT
    ensures BitsSum(acc, mask, BINS) == SumRange(values, 0, |values|)
  {
    BitsSumSuffix(acc, values, mask, BINS);
    Pow2Limits();
    LowBound(mask, BINS);
  }

  /** After ++mask the bits below ctz(mask) are clear. */
  lemma LowerBinsClear(mask: nat, i: nat)
    requires i < TrailingZeros(mask + 1)
    ensures !Bit(mask + 1, i)
  {
    Increment(mask, i + 1);
    LowStep(mask + 1, i);
  }

  /** The new bin b = ctz(mask + 1), v plus the bins below b, is the sum of the last 2^b
      values, the block bit b stands for in mask + 1. */
  lemma NewBin(acc: seq<real>, values: seq<real>, mask: nat, v: real)
    requires Blocks(acc, values, mask) && TrailingZeros(mask + 1) < BINS
    ensures Low(mask + 1, TrailingZeros(mask + 1)) == 0
    ensures Low(mask + 1, TrailingZeros(mask + 1) + 1) == Pow2(TrailingZeros(mask + 1)) <= mask + 1
    ensures v + BitsSum(acc, mask, TrailingZeros(mask + 1)) ==
      SumRange(values + [v], mask + 1 - Pow2(TrailingZeros(mask + 1)), mask + 1)
  {
    var b := TrailingZeros(mask + 1);
    Increment(mask, b);
    LowStep(mask + 1, b);
    LowBound(mask + 1, b + 1);
    BitsSumSuffix(acc, values, mask, b);
    SumAppend(values, v, mask + 1 - Pow2(b), mask);
  }

  /** A bin above ctz(mask + 1) keeps its block. */
  lemma HigherBin(acc: seq<real>, values: seq<real>, mask: nat, v: real, i: nat)
    requires Blocks(acc, values, mask) && TrailingZeros(mask + 1) < i < BINS && Bit(mask + 1, i)
    ensures Low(mask + 1, i) <= Low(mask + 1, i + 1) <= mask + 1
    ensures acc[i] == SumRange(values + [v], mask + 1 - Low(mask + 1, i + 1), mask + 1 - Low(mask + 1, i))
  {
    Increment(mask, i);
    Increment(mask, i + 1);
    SumAppend(values, v, mask - Low(mask, i + 1), mask - Low(mask, i));
  }

  /** A fresh accumulator holds no blocks. */
  lemma NoBlocks(acc: seq<real>)
    requires |acc| == BINS
    ensures Blocks(acc, [], 0)
  {
    forall i: nat | i < BINS
      ensures !Bit(0, i)
    {
      NoBits(i);
    }
  }

  /** Folding v into bin b = ctz(mask + 1), as v plus the bins below b, keeps the counter
      invariant for mask + 1. */
  lemma PushKeeps(acc: seq<real>, values: seq<real>, mask: nat, v: real, acc2: seq<real>)
    requires Blocks(acc, values, mask) && TrailingZeros(mask + 1) < BINS
    requires acc2 == acc[TrailingZeros(mask + 1) := v + BitsSum(acc, mask, TrailingZeros(mask + 1))]
    ensures Blocks(acc2, values + [v], mask + 1)
  {
    var b := TrailingZeros(mask + 1);
    var mask2, values2 := mask + 1, values + [v];
    forall i: nat | i < BINS && Bit(mask2, i)
      ensures Block(acc2, values2, mask2, i)
    {
      if i < b {
        LowerBinsClear(mask, i);
      } else if i == b {
        NewBin(acc, values, mask, v);
      } else {
        HigherBin(acc, values, mask, v, i);
      }
    }
  }

  /** The body of the fold loops: ++mask, bin = ctz(mask), accum[bin] = v, then the bins
      below bin are added into it. */
  method Push(accum: array<real>, mask: nat, v: real, ghost values: seq<real>) returns (mask2: nat)
    requires Blocks(accum[..], values, mask) && mask + 1 < U32_LIMIT
    modifies accum
    ensures mask2 == mask + 1 && Blocks(accum[..], values + [v], mask2)
  {
    ghost var acc := accum[..];
    mask2 := mask + 1;
    var bin := Ctz(mask2);
    accum[bin] := v;
    for i := 0 to bin
      invariant accum[..] == acc[bin := v + BitsSum(acc, mask, i)]
    {
      Increment(mask, i);
      accum[bin] := accum[bin] + accum[i];
    }
    PushKeeps(acc, values, mask, v, accum[..]);
  }

  /** The final loop: the sum of accum[i] over the set bits i of mask. */
  method Total(accum: array<real>, mask: nat) returns (res: real)
    requires accum.Length == BINS
    ensures res == BitsSum(accum[..], mask, BINS)
  {
    res := 0.0;
    for i := 0 to BINS
      invariant res == BitsSum(accum[..], mask, i)
    {
      if Bit(mask, i) {
        res := res + accum[i];
      }
    }
  }

  /** s is one of the samples worker `offset` handles: offset, offset + workers, ... */
  predicate Handles(offset: nat, workers: nat, s: nat)
    decreases s
  {
    s == offset || (workers > 0 && s >= offset + workers && Handles(offset, workers, s - workers))
  }

  /** The worker that handles sample s: s modulo workers. */
  function Owner(s: nat, workers: nat): (o: nat)
    requires workers > 0
    ensures o < workers
  {
    if s < workers then s else Owner(s - workers, workers)
  }

  /** Every sample is handled by exactly one worker: the one Owner names. */
  lemma {:induction false} HandledOnce(offset: nat, workers: nat, s: nat)
    requires offset < workers
    ensures Handles(offset, workers, s) <==> offset == Owner(s, workers)
  {
    if s >= workers {
      HandledOnce(offset, workers, s - workers);
    }
  }

  /** Two samples of the same worker are at least `workers` apart. */
  lemma {:induction false} HandledApart(offset: nat, workers: nat, x: nat, y: nat)
    requires workers > 0 && Handles(offset, workers, x) && Handles(offset, workers, y) && x < y
    ensures x + workers <= y
    decreases x + y
  {
    if y != offset && x != y - workers {
      if x < y - workers {
        HandledApart(offset, workers, x, y - workers);
      } else {
        HandledApart(offset, workers, y - workers, x);
      }
    }
  }

  /** The sum of f over the samples below n that worker `offset` handles. */
  function Share(f: int -> real, offset: nat, workers: nat, n: nat): real {
    if n == 0 then 0.0
    else Share(f, offset, workers, n - 1) + (if Handles(offset, workers, n - 1) then f(n - 1) else 0.0)
  }

  /** A range without samples of the worker adds nothing to its share. */
  lemma {:induction false} ShareFlat(f: int -> real, offset: nat, workers: nat, a: nat, b: nat)
    requires a <= b && forall x :: a <= x < b ==> !Handles(offset, workers, x)
    ensures Share(f, offset, workers, b) == Share(f, offset, workers, a)
  {
    if a < b {
      ShareFlat(f, offset, workers, a, b - 1);
    }
  }

  /** From one sample of the worker to its next, the share grows by f of that sample. */
  lemma ShareStep(f: int -> real, offset: nat, workers: nat, s: nat)
    requires workers > 0 && Handles(offset, workers, s)
    ensures Share(f, offset, workers, s + workers) == Share(f, offset, workers, s) + f(s)
  {
    forall x | s + 1 <= x < s + workers
      ensures !Handles(offset, workers, x)
    {
      if Handles(offset, workers, x) {
        HandledApart(offset, workers, s, x);
      }
    }
    ShareFlat(f, offset, workers, s + 1, s + workers);
  }

  /** child: worker `offset` folds f(s) for its samples s and returns their sum. */
  method Child(offset: nat, samples: nat, workers: nat, f: int -> real) returns (res: real)
    requires offset < workers && samples < U32_LIMIT
    ensures res == Share(f, offset, workers, samples)
  {
    var accum := new real[BINS];
    var mask: nat := 0;
    ghost var values: seq<real> := [];
    NoBlocks(accum[..]);
    var s: nat := offset;
    forall x | 0 <= x < offset
      ensures !Handles(offset, workers, x)
    {
    }
    ShareFlat(f, offset, workers, 0, offset);
    while s < samples
      invariant Handles(offset, workers, s) && mask + offset <= s && mask <= samples
      invariant s > samples ==> s - workers < samples
      invariant Blocks(accum[..], values, mask)
      invariant SumRange(values, 0, mask) == Share(f, offset, workers, s)
      decreases samples - s
    {
      mask := Push(accum, mask, f(s), values);
      SumAppend(values, f(s), 0, |values|);
      values := values + [f(s)];
      ShareStep(f, offset, workers, s);
      s := s + workers;
    }
    forall x | samples <= x < s
      ensures !Handles(offset, workers, x)
    {
      if Handles(offset, workers, x) && x != s {
        HandledApart(offset, workers, x, s);
      }
    }
    ShareFlat(f, offset, workers, samples, s);
    res := Total(accum, mask);
    TotalIsSum(accum[..], values, mask);
  }

  /** The parent's loop: it folds the workers' results in order and sums the bins. */
  method Gather(results: seq<real>) returns (final: real)
    requires |results| < U32_LIMIT
    ensures final == SumRange(results, 0, |results|)
  {
    var accum := new real[BINS];
    var mask: nat := 0;
    NoBlocks(accum[..]);
    for r := 0 to |results|
      invariant mask == r && Blocks(accum[..], results[..r], mask)
    {
      mask := Push(accum, mask, results[r], results[..r]);
      assert results[..r] + [results[r]] == results[..r + 1];
    }
    final := Total(accum, mask);
    assert results[..|results|] == results;
    TotalIsSum(accum[..], results, mask);
  }

  /** The sum of f over all samples below n. */
  function SumAll(f: int -> real, n: nat): real {
    if n == 0 then 0.0 else SumAll(f, n - 1) + f(n - 1)
  }

  /** The sum of the shares of workers 0 .. k-1. */
  function Shares(f: int -> real, workers: nat, n: nat, k: nat): real {
    if k == 0 then 0.0 else Shares(f, workers, n, k - 1) + Share(f, k - 1, workers, n)
  }

  /** Sample n goes to the share of its owner only. */
  lemma {:induction false} SharesStep(f: int -> real, workers: nat, n: nat, k: nat)
    requires 0 < workers && k <= workers
    ensures Shares(f, workers, n + 1, k) ==
      Shares(f, workers, n, k) + (if Owner(n, workers) < k then f(n) else 0.0)
  {
    if k > 0 {
      SharesStep(f, workers, n, k - 1);
      HandledOnce(k - 1, workers, n);
    }
  }

  /** Before any sample every share is empty. */
  lemma {:induction false} SharesNone(f: int -> real, workers: nat, k: nat)
    ensures Shares(f, workers, 0, k) == 0.0
  {
    if k > 0 {
      SharesNone(f, workers, k - 1);
    }
  }

  /** Together the workers' shares are the sum over all samples. */
  lemma {:induction false} SharesCoverAll(f: int -> real, workers: nat, n: nat)
    requires workers > 0
    ensures Shares(f, workers, n, workers) == SumAll(f, n)
  {
    if n > 0 {
      SharesCoverAll(f, workers, n - 1);
      SharesStep(f, workers, n - 1, workers);
    } else {
      SharesNone(f, workers, workers);
    }
  }

  /** The parent's sum of the results of workers 0 .. k-1 is the sum of their shares. */
  lemma {:induction false} GatherShares(f: int -> real, workers: nat, n: nat, results: seq<real>, k: nat)
    requires k <= |results| == workers
    requires forall r :: 0 <= r < workers ==> results[r] == Share(f, r, workers, n)
    ensures SumRange(results, 0, k) == Shares(f, workers, n, k)
  {
    if k > 0 {
      GatherShares(f, workers, n, results, k - 1);
    }
  }

  /** The arguments: exactly two, whole numbers, samples > 1 and workers > 0. */
  function ParseArgs(argv: seq<string>): (r: Option<(nat, nat)>)
    ensures r.Some? ==> |argv| == 3 && r.value.0 > 1 && r.value.1 > 0
    ensures r.Some? ==> ParseLong(argv[1]) == Some(r.value.0 as int) && ParseLong(argv[2]) == Some(r.value.1 as int)
    ensures r.None? ==>
      (|argv| != 3 || ParseLong(argv[1]).None? || ParseLong(argv[1]).value <= 1 ||
       ParseLong(argv[2]).None? || ParseLong(argv[2]).value <= 0)
  {
    if |argv| != 3 then None
    else match (ParseLong(argv[1]), ParseLong(argv[2]))
      case (Some(s), Some(w)) => if s > 1 && w > 0 then Some((s as nat, w as nat)) else None
      case _ => None
  }

  /** main after the argument check: each worker computes its share, the parent gathers
      them, and the printed result is their sum divided by samples, the sum of f over all
      samples. */
  method Integrate(samples: nat, workers: nat, f: int -> real) returns (result: real)
    requires samples > 1 && workers > 0
    requires samples < U32_LIMIT && workers < U32_LIMIT
    ensures result == SumAll(f, samples) / (samples as real)
  {
    var results: seq<real> := [];
    for i := 0 to workers
      invariant |results| == i
      invariant forall r :: 0 <= r < i ==> results[r] == Share(f, r, workers, samples)
    {
      var res := Child(i, samples, workers, f);
      results := results + [res];
    }
    var final := Gather(results);
    GatherShares(f, workers, samples, results, workers);
    SharesCoverAll(f, workers, samples);
    assert final == SumAll(f, samples);
    result := final / (samples as real);
  }
}

/**
 * Addresses, block addresses and table indices of the Markov prefetcher.
 *
 * The prefetcher computes a block address as `addr & ~(blkSize - 1)` and a
 * table index as `(addr >> lBlkSize) & (num_entries - 1)` on 64-bit unsigned
 * addresses. The model states both with division and remainder by powers of
 * two; `BitAnd` is a definition of bitwise AND on naturals, and the lemmas
 * `IndexIsMask` and `BlockAddrIsMask` show that the two forms agree.
 */
module Addressing {

  /** A byte address; the source's `Addr` is a 64-bit unsigned integer. */
  type Addr = nat

  /** Width in bits of the source's `Addr`. */
  const AddrBits: nat := 64

  function Pow2(k: nat): (r: nat)
    ensures r >= 1
  {
    if k == 0 then 1 else 2 * Pow2(k - 1)
  }

  /** n is 1, 2, 4, 8, ... */
  predicate IsPowerOfTwo(n: nat)
  {
    n == 1 || (n >= 2 && n % 2 == 0 && IsPowerOfTwo(n / 2))
  }

  lemma {:induction false} Pow2Monotone(k: nat, k': nat)
    requires k <= k'
    ensures Pow2(k) <= Pow2(k')
  {
    if k < k' {
      Pow2Monotone(k, k' - 1);
    }
  }

  /** Bitwise AND of two naturals, bit by bit from the least significant. */
  function BitAnd(x: nat, y: nat): (r: nat)
  {
    if x == 0 || y == 0 then 0
    else 2 * BitAnd(x / 2, y / 2) + (if x % 2 == 1 && y % 2 == 1 then 1 else 0)
  }

  /**
   * The block address of `a`: the largest multiple of `blkSize` not above
   * `a` (`a` with its low `lBlkSize` bits cleared, for `blkSize` = 2^lBlkSize).
   */
  function BlockAddr(a: Addr, blkSize: nat): (b: Addr)
    requires blkSize > 0
    ensures b <= a && a - b < blkSize
  {
    a - a % blkSize
  }

  /** The table index of `a`: the block number of `a` modulo the table size. */
  function TableIndex(a: Addr, blkSize: nat, numEntries: nat): (i: nat)
    requires blkSize > 0 && numEntries > 0
    ensures i < numEntries
  {
    (a / blkSize) % numEntries
  }

  // ---------------------------------------------------------------------
  // Arithmetic helpers
  // ---------------------------------------------------------------------

  lemma MulAtLeast(a: nat, d: nat)
    requires a >= 1
    ensures a * d >= d
  {
    assert a * d == (a - 1) * d + d;
  }

  lemma MulSub(q: nat, q': nat, d: nat)
    requires q >= q'
    ensures q * d - q' * d == (q - q') * d
  {
  }

  /** Euclidean division is determined by quotient and remainder bounds. */
  lemma DivModUnique(x: nat, d: nat, q: nat, r: nat)
    requires d > 0 && r < d && x == q * d + r
    ensures x / d == q && x % d == r
  {
    var q', r' := x / d, x % d;
    assert x == q' * d + r';
    if q' < q {
      MulSub(q, q', d);
      MulAtLeast(q - q', d);
      assert false;
    } else if q' > q {
      MulSub(q', q, d);
      MulAtLeast(q' - q, d);
      assert false;
    }
  }

  /** Remainder by 2m in terms of remainder of x / 2 by m. */
  lemma ModDouble(x: nat, m: nat)
    requires m > 0
    ensures x % (2 * m) == 2 * ((x / 2) % m) + x % 2
    ensures x / (2 * m) == (x / 2) / m
  {
    var q, b := (x / 2) / m, (x / 2) % m;
    assert x / 2 == q * m + b;
    assert x == q * (2 * m) + (2 * b + x % 2);
    DivModUnique(x, 2 * m, q, 2 * b + x % 2);
  }

  /** A power of two above 1 is twice a power of two. */
  lemma HalfPowerOfTwo(n: nat)
    requires IsPowerOfTwo(n) && n > 1
    ensures IsPowerOfTwo(n / 2) && n == 2 * (n / 2)
  {
  }

  lemma HalfEven(y: nat, z: nat)
    requires y == 2 * z
    ensures y / 2 == z && y % 2 == 0
  {
  }

  lemma HalfOdd(y: nat, z: nat)
    requires y == 2 * z + 1
    ensures y / 2 == z && y % 2 == 1
  {
  }

  /** x - x % 2n in terms of x / 2. */
  lemma ClearArith(x: nat, n: nat)
    requires n > 0
    ensures x % (2 * n) <= x
    ensures x - x % (2 * n) == 2 * (x / 2 - (x / 2) % n)
  {
    ModDouble(x, n);
    var a, b := x % (2 * n), (x / 2) % n;
    assert a == 2 * b + x % 2;
    assert x == 2 * (x / 2) + x % 2;
  }

  lemma KeepAllBits(x: nat, p: nat)
    requires x < p
    ensures x % p == x && x % 1 == 0
  {
    DivModUnique(x, p, 0, x);
    DivModUnique(x, 1, x, 0);
  }

  lemma {:induction false} Pow2IsPowerOfTwo(k: nat)
    ensures IsPowerOfTwo(Pow2(k))
  {
    if k > 0 {
      Pow2IsPowerOfTwo(k - 1);
      assert Pow2(k) / 2 == Pow2(k - 1);
    }
  }

  // ---------------------------------------------------------------------
  // The masks of the source agree with the model's arithmetic
  // ---------------------------------------------------------------------

  /** One bit of `MaskLowBits`: from `x / 2` and half the modulus to `x`. */
  lemma MaskLowBitsStep(x: nat, m: nat, n: nat)
    requires m > 0 && n == 2 * m && x > 0
    requires BitAnd(x / 2, m - 1) == (x / 2) % m
    ensures BitAnd(x, n - 1) == x % n
  {
    HalfOdd(n - 1, m - 1);
    assert BitAnd(x, n - 1) == 2 * BitAnd(x / 2, m - 1) + x % 2;
    ModDouble(x, m);
  }

  /** Masking with n - 1 keeps the remainder by n, for a power of two n. */
  lemma {:induction false} MaskLowBits(x: nat, n: nat)
    requires IsPowerOfTwo(n)
    ensures n > 0 && BitAnd(x, n - 1) == x % n
  {
    if n == 1 || x == 0 {
    } else {
      HalfPowerOfTwo(n);
      MaskLowBits(x / 2, n / 2);
      MaskLowBitsStep(x, n / 2, n);
    }
  }

  /** Masking with an even mask drops the lowest bit. */
  lemma BitAndEven(x: nat, y: nat)
    requires y % 2 == 0
    ensures BitAnd(x, y) == 2 * BitAnd(x / 2, y / 2)
  {
  }

  /** One bit of `ClearLowBits`: from `x / 2` and half masks to `x`. */
  lemma ClearLowBitsStep(x: nat, m: nat, n: nat, bigP: nat, p: nat)
    requires 0 < n <= m && bigP == 2 * m && p == 2 * n
    requires 0 < x < bigP
    requires BitAnd(x / 2, m - n) == x / 2 - (x / 2) % n
    ensures BitAnd(x, bigP - p) == x - x % p
  {
    HalfEven(bigP - p, m - n);
    BitAndEven(x, bigP - p);
    ClearArith(x, n);
  }

  /**
   * Masking a value below the power of two `bigP` with `bigP - p`, the
   * complement of `p - 1` within that width, clears the bits below `p`.
   */
  lemma {:induction false} ClearLowBits(x: nat, bigP: nat, p: nat)
    requires IsPowerOfTwo(bigP) && IsPowerOfTwo(p) && p <= bigP && x < bigP
    ensures BitAnd(x, bigP - p) == x - x % p
  {
    if p == 1 {
      MaskLowBits(x, bigP);
      KeepAllBits(x, bigP);
    } else if x == 0 {
    } else if p == bigP {
      KeepAllBits(x, bigP);
    } else {
      HalfPowerOfTwo(bigP);
      HalfPowerOfTwo(p);
      var m, n := bigP / 2, p / 2;
      assert x / 2 < m;
      ClearLowBits(x / 2, m, n);
      ClearLowBitsStep(x, m, n, bigP, p);
    }
  }

  /**
   * The source's index `(a >> lBlkSize) & (num_entries - 1)`, where the
   * shift is division by `blkSize` = 2^lBlkSize, is `TableIndex` when
   * `num_entries` is a power of two.
   */
  lemma IndexIsMask(a: Addr, blkSize: nat, numEntries: nat)
    requires blkSize > 0 && numEntries > 0 && IsPowerOfTwo(numEntries)
    ensures BitAnd(a / blkSize, numEntries - 1) == TableIndex(a, blkSize, numEntries)
  {
    MaskLowBits(a / blkSize, numEntries);
  }

  /**
   * The source's block address `a & ~(blkSize - 1)` on a `w`-bit address,
   * where `~(blkSize - 1)` is 2^w - blkSize, is `BlockAddr` for every block
   * size 2^lBlkSize up to 2^w; the source's `Addr` has `w` = `AddrBits`.
   */
  lemma BlockAddrIsMask(a: Addr, w: nat, lBlkSize: nat)
    requires a < Pow2(w) && lBlkSize <= w
    ensures Pow2(lBlkSize) <= Pow2(w)
    ensures BitAnd(a, Pow2(w) - Pow2(lBlkSize)) == BlockAddr(a, Pow2(lBlkSize))
  {
    Pow2Monotone(lBlkSize, w);
    Pow2IsPowerOfTwo(lBlkSize);
    Pow2IsPowerOfTwo(w);
    var bigP, p := Pow2(w), Pow2(lBlkSize);
    ClearLowBits(a, bigP, p);
  }

  /** `BlockAddrIsMask` for the source's 64-bit addresses. */
  lemma BlockAddrIsMask64(a: Addr, lBlkSize: nat)
    requires a < Pow2(AddrBits) && lBlkSize <= AddrBits
    ensures Pow2(lBlkSize) <= Pow2(AddrBits)
    ensures BitAnd(a, Pow2(AddrBits) - Pow2(lBlkSize)) == BlockAddr(a, Pow2(lBlkSize))
  {
    BlockAddrIsMask(a, AddrBits, lBlkSize);
  }

  // ---------------------------------------------------------------------
  // Raw versus block-masked addresses
  // ---------------------------------------------------------------------

  /** Clearing the block offset does not change the table index. */
  lemma IndexIgnoresBlockOffset(a: Addr, blkSize: nat, numEntries: nat)
    requires blkSize > 0 && numEntries > 0
    ensures TableIndex(BlockAddr(a, blkSize), blkSize, numEntries) == TableIndex(a, blkSize, numEntries)
  {
    DivModUnique(a - a % blkSize, blkSize, a / blkSize, 0);
  }

  /** Two addresses in the same block share a table index. */
  lemma SameBlockSameIndex(a: Addr, a': Addr, blkSize: nat, numEntries: nat)
    requires blkSize > 0 && numEntries > 0
    requires BlockAddr(a, blkSize) == BlockAddr(a', blkSize)
    ensures TableIndex(a, blkSize, numEntries) == TableIndex(a', blkSize, numEntries)
  {
    IndexIgnoresBlockOffset(a, blkSize, numEntries);
    IndexIgnoresBlockOffset(a', blkSize, numEntries);
  }

  /** A block address is a multiple of the block size, and its own block address. */
  lemma BlockAddrAligned(a: Addr, blkSize: nat)
    requires blkSize > 0
    ensures BlockAddr(a, blkSize) % blkSize == 0
    ensures BlockAddr(BlockAddr(a, blkSize), blkSize) == BlockAddr(a, blkSize)
  {
    DivModUnique(a - a % blkSize, blkSize, a / blkSize, 0);
  }
}

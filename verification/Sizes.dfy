/** Chunk sizes, request padding and bin indices of the mspace allocator
    (64-bit `size_t`, FOOTERS on, as the library is built). */
module Sizes {

  const SIZE_T_RANGE: nat := 0x1_0000_0000_0000_0000
  const MIN_CHUNK: nat := 32
  const CHUNK_OVERHEAD: nat := 16
  const MIN_LARGE: nat := 256
  const NTREEBINS: nat := 32
  const NSMALLBINS: nat := 32
  const MAX_SMALL_REQUEST: nat := 224
  const MIN_REQUEST: nat := 15
  const MAX_REQUEST: nat := 0x1_0000_0000_0000_0000 - 128
  const MAX_SIZE_T: nat := 0xFFFF_FFFF_FFFF_FFFF
  /** Above this size the x86 form of the index macro drops high bits. */
  const INDEX_LIMIT: nat := 0x100_0000_0000

  function Pow2(n: nat): (r: nat)
    ensures r >= 1
  {
    if n == 0 then 1 else 2 * Pow2(n - 1)
  }

  lemma {:induction false} Pow2Add(m: nat, n: nat)
    ensures Pow2(m + n) == Pow2(m) * Pow2(n)
  {
    if m > 0 {
      Pow2Add(m - 1, n);
      assert Pow2(m + n) == 2 * (Pow2(m - 1) * Pow2(n));
    }
  }

  lemma {:induction false} Pow2Monotone(m: nat, n: nat)
    requires m <= n
    ensures Pow2(m) <= Pow2(n)
    decreases n - m
  {
    if m < n { Pow2Monotone(m + 1, n); }
  }

  lemma Pow2Byte()
    ensures Pow2(6) == 64 && Pow2(7) == 128 && Pow2(8) == 256
  {
    assert Pow2(3) == 8;
    assert Pow2(6) == 64;
  }

  lemma Pow2Double(n: nat, p: nat)
    requires Pow2(n) == p
    ensures Pow2(2 * n) == p * p
  {
    Pow2Add(n, n);
  }

  lemma Pow2Word()
    ensures Pow2(16) == 0x1_0000 && Pow2(63) == 0x8000_0000_0000_0000 && Pow2(64) == SIZE_T_RANGE
  {
    Pow2Byte();
    Pow2Double(8, 256);
    Pow2Double(16, 0x1_0000);
    Pow2Double(32, 0x1_0000_0000);
    assert Pow2(64) == 2 * Pow2(63);
  }

  /** Position of the highest set bit: 31 - __builtin_clz. */
  function Log2(x: nat): (k: nat)
    requires x > 0
    ensures Pow2(k) <= x < Pow2(k + 1)
  {
    if x == 1 then 0 else 1 + Log2(x / 2)
  }

  /** Bit `k` of `s`. */
  function BitAt(s: nat, k: nat): (b: nat)
    ensures b < 2
  {
    if k == 0 then s % 2 else BitAt(s / 2, k - 1)
  }

  /** `compute_tree_index` on x86: the shifted size is narrowed to 32 bits. */
  function TreeIndex(s: nat): (i: nat)
    ensures i < NTREEBINS
  {
    var x := (s / 256) % 0x1_0000_0000;
    if x == 0 then 0
    else if x > 0xFFFF then NTREEBINS - 1
    else
      Log2Bound(x);
      2 * Log2(x) + BitAt(s, Log2(x) + 7)
  }

  lemma Log2Bound(x: nat)
    requires 0 < x <= 0xFFFF
    ensures Log2(x) <= 15
  {
    if Log2(x) > 15 {
      assert Pow2(16) == 0x1_0000 by { Pow2Word(); }
      Pow2Monotone(16, Log2(x));
    }
  }

  /** `minsize_for_tree_index`. */
  function MinSize(i: nat): nat {
    Pow2(i / 2 + 8) + if i % 2 == 1 then Pow2(i / 2 + 7) else 0
  }

  lemma MulMonotone(a: nat, b: nat, c: nat)
    requires a <= b
    ensures a * c <= b * c
  {
  }

  lemma DivIs(a: nat, h: nat, q: nat)
    requires h > 0 && q * h <= a < (q + 1) * h
    ensures a / h == q
  {
    var d := a / h;
    assert d * h <= a < (d + 1) * h;
    if d < q { MulMonotone(d + 1, q, h); }
    if d > q { MulMonotone(q + 1, d, h); }
  }

  lemma MinSizeStep(i: nat)
    ensures MinSize(i + 1) == MinSize(i) + Pow2(i / 2 + 7)
  {
    if i % 2 == 0 {
      assert (i + 1) / 2 == i / 2;
    } else {
      assert (i + 1) / 2 == i / 2 + 1;
    }
  }

  lemma {:induction false} MinSizeMonotone(i: nat, j: nat)
    requires i <= j
    ensures MinSize(i) <= MinSize(j)
    decreases j - i
  {
    if i < j {
      MinSizeStep(i);
      MinSizeMonotone(i + 1, j);
    }
  }

  /** The bit below the leading one splits its octave in two halves. */
  lemma {:induction false} SecondBit(s: nat, k: nat)
    requires Pow2(k + 1) <= s < 2 * Pow2(k + 1)
    ensures BitAt(s, k) == if s < 3 * Pow2(k) then 0 else 1
  {
    if k > 0 { SecondBit(s / 2, k - 1); }
  }

  lemma OctaveOf(s: nat) returns (k: nat)
    requires 0 < s / 256 <= 0xFFFF
    ensures k == Log2(s / 256) && k <= 15 && Pow2(k + 8) <= s < 2 * Pow2(k + 8)
  {
    k := Log2(s / 256);
    Log2Bound(s / 256);
    assert Pow2(k + 8) == 256 * Pow2(k) by { Pow2Add(8, k); }
    assert Pow2(k + 1) == 2 * Pow2(k);
  }

  lemma MinSizeAt(k: nat, h: nat)
    requires h == Pow2(k + 7)
    ensures MinSize(2 * k) == 2 * h && MinSize(2 * k + 1) == 3 * h && MinSize(2 * k + 2) == 4 * h
  {
    assert (2 * k) / 2 == k && (2 * k + 1) / 2 == k && (2 * k + 2) / 2 == k + 1;
  }

  lemma TreeIndexForm(s: nat, k: nat)
    requires 0 < s / 256 <= 0xFFFF && k == Log2(s / 256)
    ensures TreeIndex(s) == 2 * k + BitAt(s, k + 7)
  {
    hide Log2, BitAt;
    var x := s / 256;
    assert x % 0x1_0000_0000 == x;
  }

  lemma TreeIndexHalf(s: nat) returns (k: nat)
    requires 0 < s / 256 <= 0xFFFF
    ensures k <= 15
    ensures if s < 3 * Pow2(k + 7) then TreeIndex(s) == 2 * k else TreeIndex(s) == 2 * k + 1
    ensures 2 * Pow2(k + 7) <= s < 4 * Pow2(k + 7)
  {
    k := OctaveOf(s);
    TreeIndexForm(s, k);
    SecondBit(s, k + 7);
    assert Pow2(k + 8) == 2 * Pow2(k + 7);
  }

  lemma TreeIndexMiddle(s: nat)
    requires 0 < s / 256 <= 0xFFFF
    ensures TreeIndex(s) < NTREEBINS
    ensures MinSize(TreeIndex(s)) <= s < MinSize(TreeIndex(s) + 1)
  {
    var k := TreeIndexHalf(s);
    MinSizeAt(k, Pow2(k + 7));
  }

  lemma LastBinLow()
    ensures MinSize(31) == 0xC0_0000
  {
    Pow2Byte();
    Pow2Double(8, 256);
    Pow2Add(16, 6);
    assert Pow2(23) == 2 * Pow2(22);
    assert MinSize(31) == Pow2(23) + Pow2(22);
  }

  /** The index macro and the bin-boundary macro agree: a size lands in the
      bin whose [minsize(i), minsize(i+1)) range holds it. */
  lemma TreeIndexRange(s: nat)
    requires MIN_LARGE <= s < INDEX_LIMIT
    ensures TreeIndex(s) < NTREEBINS
    ensures MinSize(TreeIndex(s)) <= s
    ensures TreeIndex(s) < NTREEBINS - 1 ==> s < MinSize(TreeIndex(s) + 1)
  {
    if s / 256 <= 0xFFFF {
      hide TreeIndex, MinSize;
      TreeIndexMiddle(s);
    } else {
      LastBinLow();
      TreeIndexLast(s);
    }
  }

  lemma TreeIndexLast(s: nat)
    requires 0xFFFF < s / 256 && s < INDEX_LIMIT
    ensures TreeIndex(s) == NTREEBINS - 1
  {
    assert (s / 256) % 0x1_0000_0000 == s / 256;
  }

  /** Halving commutes with reduction. */
  lemma HalfMod(s: nat, p: nat)
    requires p > 0
    ensures (s % (2 * p)) / 2 == (s / 2) % p && (s % (2 * p)) % 2 == s % 2
  {
    var q, r := s / (2 * p), s % (2 * p);
    assert s == q * (2 * p) + r;
    assert q * (2 * p) == 2 * (q * p);
    assert s / 2 == q * p + r / 2;
    ModSplit(s / 2, q, r / 2, p);
  }

  lemma {:induction false} BitAtMod(s: nat, m: nat, k: nat)
    requires k < m
    ensures BitAt(s % Pow2(m), k) == BitAt(s, k)
  {
    assert Pow2(m) == 2 * Pow2(m - 1);
    HalfMod(s, Pow2(m - 1));
    if k > 0 { BitAtMod(s / 2, m - 1, k - 1); }
  }

  lemma ByteMod(s: nat)
    ensures s % INDEX_LIMIT / 256 == (s / 256) % 0x1_0000_0000
  {
    var q, t := s / INDEX_LIMIT, s % INDEX_LIMIT;
    assert s == 256 * (q * 0x1_0000_0000 + t / 256) + t % 256;
    assert s / 256 == q * 0x1_0000_0000 + t / 256;
  }

  /** The index depends on the low 40 bits of the size only. */
  lemma IndexOfLow(s: nat)
    ensures s % INDEX_LIMIT / 256 == (s / 256) % 0x1_0000_0000
    ensures TreeIndex(s % INDEX_LIMIT) == TreeIndex(s)
  {
    ByteMod(s);
    var x := (s / 256) % 0x1_0000_0000;
    assert x % 0x1_0000_0000 == x;
    if 0 < x <= 0xFFFF {
      Log2Bound(x);
      LowPower();
      BitAtMod(s, 40, Log2(x) + 7);
    }
  }

  lemma LowPower()
    ensures Pow2(40) == INDEX_LIMIT
  {
    Pow2Byte();
    Pow2Double(8, 256);
    Pow2Double(16, 0x1_0000);
    Pow2Add(32, 8);
  }

  /** The bin a size is filed in holds its size range. */
  predicate WellFiled(s: nat) {
    MinSize(TreeIndex(s)) <= s && (TreeIndex(s) < NTREEBINS - 1 ==> s < MinSize(TreeIndex(s) + 1))
  }

  /** A size is filed in the last bin exactly when its shifted and narrowed value
      reaches that bin. */
  lemma FiledLast(s: nat)
    ensures TreeIndex(s) == NTREEBINS - 1 <==> (s / 256) % 0x1_0000_0000 >= 0xC000
  {
    var t := s % INDEX_LIMIT;
    IndexOfLow(s);
    LastBinLow();
    if t >= MIN_LARGE {
      TreeIndexRange(t);
      if TreeIndex(t) < NTREEBINS - 1 { MinSizeMonotone(TreeIndex(t) + 1, NTREEBINS - 1); }
    }
  }

  /** Exactly which sizes the index macro files where the boundary macro says:
      those below 2^40, and those whose narrowed value still reaches the last bin. */
  lemma TreeIndexExactly(s: nat)
    requires s >= MIN_LARGE
    ensures WellFiled(s) <==> s < INDEX_LIMIT || (s / 256) % 0x1_0000_0000 >= 0xC000
  {
    if s < INDEX_LIMIT {
      TreeIndexRange(s);
    } else {
      FiledLast(s);
      LastBinLow();
      if TreeIndex(s) < NTREEBINS - 1 { MinSizeMonotone(TreeIndex(s) + 1, NTREEBINS - 1); }
    }
  }

  /** Bins are ordered by size. */
  lemma TreeIndexMonotone(s: nat, s': nat)
    requires MIN_LARGE <= s < INDEX_LIMIT && MIN_LARGE <= s' < INDEX_LIMIT
    requires TreeIndex(s) < TreeIndex(s')
    ensures s < s'
  {
    hide TreeIndex, MinSize;
    TreeIndexRange(s);
    TreeIndexRange(s');
    MinSizeMonotone(TreeIndex(s) + 1, TreeIndex(s'));
  }

  /** Number of size bits a treebin resolves, and the least size of its range;
      the last bin resolves the whole word. */
  function BinBits(i: nat): nat { if i == NTREEBINS - 1 then 64 else i / 2 + 7 }

  function BinLow(i: nat): nat { if i == NTREEBINS - 1 then 0 else MinSize(i) }

  /** `leftshift_for_tree_index`. */
  function LeftShift(i: nat): (n: nat)
    requires i < NTREEBINS
  {
    if i == NTREEBINS - 1 then 0 else 63 - (i / 2 + 6)
  }

  function Shl(x: nat, n: nat): nat { (x * Pow2(n)) % SIZE_T_RANGE }

  /** A word shifted left by one. */
  function Shl1(x: nat): nat { 2 * x % SIZE_T_RANGE }

  function TopBit(x: nat): nat { (x / 0x8000_0000_0000_0000) % 2 }

  lemma ModSplit(a: nat, q: nat, r: nat, m: nat)
    requires m > 0 && a == q * m + r && r < m
    ensures a % m == r
  {
    DivIs(a, m, q);
    assert a % m == a - (a / m) * m;
  }

  lemma MulLess(a: nat, b: nat, c: nat)
    requires a < b && c > 0
    ensures a * c < b * c
  {
  }

  /** `x` shifted left by `n` without loss. */
  function Align(x: nat, n: nat): nat {
    if n == 0 then x else 2 * Align(x, n - 1)
  }

  lemma {:induction false} AlignIsMul(x: nat, n: nat)
    ensures Align(x, n) == x * Pow2(n)
  {
    if n > 0 { AlignIsMul(x, n - 1); }
  }

  /** `s` lies in [lo, lo + 2^k) and `w` is its offset there, left-aligned. */
  predicate WalkWord(w: nat, s: nat, lo: nat, k: nat) {
    k <= 64 && lo <= s < lo + Pow2(k) && w == Align(s - lo, 64 - k)
  }

  lemma ShlSplit(s: nat, lo: nat, q: nat, p: nat, c: nat)
    requires p * c == SIZE_T_RANGE && lo == q * p && lo <= s < lo + p && c > 0
    ensures (s * c) % SIZE_T_RANGE == (s - lo) * c
  {
    MulLess(s - lo, p, c);
    assert lo * c == q * (p * c);
    assert s * c == lo * c + (s - lo) * c;
    ModSplit(s * c, q, (s - lo) * c, SIZE_T_RANGE);
  }

  lemma BinLowMultiple(i: nat)
    requires i < NTREEBINS
    ensures BinBits(i) <= 64 && LeftShift(i) == 64 - BinBits(i)
    ensures BinLow(i) == (if i == NTREEBINS - 1 then 0 else 2 + i % 2) * Pow2(BinBits(i))
  {
    if i < NTREEBINS - 1 {
      assert Pow2(i / 2 + 8) == 2 * Pow2(BinBits(i));
    }
  }

  lemma WordParts(b: nat)
    requires b <= 64
    ensures Pow2(b) * Pow2(64 - b) == SIZE_T_RANGE
  {
    Pow2Word();
    Pow2Add(b, 64 - b);
  }

  /** The walk's shifted size starts as the offset of the size in its bin,
      left-aligned in the word. */
  lemma WalkStart(s: nat, i: nat)
    requires i < NTREEBINS && BinLow(i) <= s < BinLow(i) + Pow2(BinBits(i))
    ensures WalkWord(Shl(s, LeftShift(i)), s, BinLow(i), BinBits(i))
  {
    hide BinLow, BinBits, Align;
    var b := BinBits(i);
    BinLowMultiple(i);
    var q := if i == NTREEBINS - 1 then 0 else 2 + i % 2;
    WordParts(b);
    ShlSplit(s, BinLow(i), q, Pow2(b), Pow2(64 - b));
    AlignIsMul(s - BinLow(i), 64 - b);
  }

  lemma TopBitLow(x: nat)
    requires x < 0x8000_0000_0000_0000
    ensures TopBit(x) == 0 && Shl1(x) == 2 * x
  {
  }

  lemma TopBitHigh(x: nat)
    requires x < 0x8000_0000_0000_0000
    ensures TopBit(x + 0x8000_0000_0000_0000) == 1 && Shl1(x + 0x8000_0000_0000_0000) == 2 * x
  {
  }

  lemma HalfStep(off: nat, p: nat, c: nat)
    requires p * c == 0x8000_0000_0000_0000 && off < 2 * p && c > 0
    ensures TopBit(off * c) == (if off < p then 0 else 1)
    ensures Shl1(off * c) == if off < p then off * (2 * c) else (off - p) * (2 * c)
  {
    hide TopBit, Shl1;
    if off < p {
      MulLess(off, p, c);
      TopBitLow(off * c);
      assert 2 * (off * c) == off * (2 * c);
    } else {
      var hi := (off - p) * c;
      MulLess(off - p, p, c);
      assert off * c == hi + 0x8000_0000_0000_0000;
      TopBitHigh(hi);
      assert 2 * hi == (off - p) * (2 * c);
    }
  }

  /** One level of the walk: the sign bit says in which half of the interval
      [lo, lo + 2^k) the size lies, and shifting re-aligns the remaining bits. */
  lemma WalkStep(s: nat, lo: nat, k: nat, w: nat)
    requires 1 <= k && WalkWord(w, s, lo, k)
    ensures TopBit(w) == (if s < lo + Pow2(k - 1) then 0 else 1)
    ensures WalkWord(Shl1(w), s, if TopBit(w) == 0 then lo else lo + Pow2(k - 1), k - 1)
  {
    var off, p, c := s - lo, Pow2(k - 1), Pow2(64 - k);
    WordHalves(k);
    AlignIsMul(off, 64 - k);
    HalfStep(off, p, c);
    AlignIsMul(if off < p then off else off - p, 65 - k);
    assert Pow2(65 - k) == 2 * c;
  }

  lemma WordHalves(k: nat)
    requires 1 <= k <= 64
    ensures Pow2(k - 1) * Pow2(64 - k) == 0x8000_0000_0000_0000
  {
    Pow2Word();
    Pow2Add(k - 1, 64 - k);
  }

  /** `pad_request` and the request-to-chunk-size rule of `mspace_malloc`. */
  function ChunkSizeFor(bytes: nat): (nb: nat)
    requires bytes < SIZE_T_RANGE
    ensures bytes < MAX_REQUEST ==> nb % 16 == 0 && MIN_CHUNK <= nb && bytes + CHUNK_OVERHEAD <= nb
    ensures bytes < MAX_REQUEST ==> nb == MIN_CHUNK || nb < bytes + CHUNK_OVERHEAD + 16
    ensures bytes >= MAX_REQUEST ==> nb == MAX_SIZE_T
    ensures bytes <= MAX_SMALL_REQUEST <==> nb < MIN_LARGE
  {
    if bytes <= MAX_SMALL_REQUEST then
      if bytes < MIN_REQUEST then MIN_CHUNK else (bytes + CHUNK_OVERHEAD + 15) / 16 * 16
    else if bytes >= MAX_REQUEST then MAX_SIZE_T
    else (bytes + CHUNK_OVERHEAD + 15) / 16 * 16
  }

  /** A request is padded to the least chunk size that holds it. */
  lemma PaddedLeast(bytes: nat, m: nat)
    requires bytes < MAX_REQUEST && m % 16 == 0 && MIN_CHUNK <= m && bytes + CHUNK_OVERHEAD <= m
    ensures ChunkSizeFor(bytes) <= m
  {
  }

  /** Unsigned subtraction of `size_t` values. */
  function Sub64(a: nat, b: nat): (r: nat)
    requires a < SIZE_T_RANGE && b < SIZE_T_RANGE
    ensures r < SIZE_T_RANGE
    ensures b <= a ==> r == a - b
    ensures a < b ==> r == a + SIZE_T_RANGE - b
  {
    (a - b) % SIZE_T_RANGE
  }
}

/** The 32-bit bin maps of the allocator.  The allocator's state keeps a map as
    the set of its marked indices; the word-level lemmas below show that the
    `left_bits` and `least_bit` tricks on a map word find the bit that
    `NextMarked` finds on the set. */
module BinMaps {

  /** Least marked index from `i` on; 32 when there is none. */
  function FirstFrom(m: set<nat>, i: nat): (r: nat)
    requires i <= 32
    ensures i <= r <= 32
    ensures r < 32 ==> r in m
    ensures forall j :: i <= j < r ==> j !in m
    decreases 32 - i
  {
    if i == 32 || i in m then i else FirstFrom(m, i + 1)
  }

  /** Least marked index above `i`; 32 when there is none. */
  function NextMarked(m: set<nat>, i: nat): (r: nat)
    requires i < 32
    ensures i < r <= 32
    ensures r < 32 ==> r in m
    ensures forall j :: i < j < r ==> j !in m
  {
    FirstFrom(m, i + 1)
  }

  function LeastBit(x: bv32): bv32 { x & (0 - x) }

  function LeftBits(x: bv32): bv32 { (x << 1) | (0 - (x << 1)) }

  predicate OneBit(x: bv32) { x != 0 && x & (x - 1) == 0 }

  /** The mask `left_bits(b)` keeps exactly the map's bits above `b`. */
  lemma LeftBitsKeep(m: bv32, b: bv32, c: bv32)
    requires OneBit(b) && OneBit(c)
    ensures (LeftBits(b) & m) & c == if c > b then m & c else 0
  {
    if c > b {
      assert (LeftBits(b) & m) & c == m & c;
    } else {
      assert (LeftBits(b) & m) & c == 0;
    }
  }

  lemma LeastIsBit(x: bv32)
    requires x != 0
    ensures OneBit(LeastBit(x)) && x & LeastBit(x) == LeastBit(x)
  {
    assert OneBit(LeastBit(x));
  }

  lemma LeastIsLeast(x: bv32, c: bv32)
    requires OneBit(c) && x & c != 0
    ensures LeastBit(x) <= c
  {
  }

  /** The word search: the least bit of the masked map lies above `b`, is in
      the map, and no other map bit lies between; an empty mask means no map
      bit lies above `b`. */
  lemma WordSearch(m: bv32, b: bv32, c: bv32)
    requires OneBit(b) && OneBit(c) && c > b && m & c != 0
    ensures LeftBits(b) & m != 0
    ensures LeastBit(LeftBits(b) & m) <= c
  {
    LeftBitsKeep(m, b, c);
    LeastIsLeast(LeftBits(b) & m, c);
  }

  lemma WordSearchHit(m: bv32, b: bv32)
    requires OneBit(b) && LeftBits(b) & m != 0
    ensures var l := LeastBit(LeftBits(b) & m); OneBit(l) && l > b && m & l == l
  {
    var x := LeftBits(b) & m;
    LeastIsBit(x);
    LeftBitsKeep(m, b, LeastBit(x));
  }

  // ----- words and sets -----

  /** `idx2bit`. */
  function Bit(j: nat): bv32 { if j == 0 then 1 else Bit(j - 1) << 1 }

  predicate Has(m: bv32, b: bv32) { m & b != 0 }

  /** `left_bits(idx2bit(i)) & map`. */
  function Above(m: bv32, b: bv32): bv32 { LeftBits(b) & m }

  lemma AboveHit(m: bv32, b: bv32)
    requires OneBit(b) && Above(m, b) != 0
    ensures var l := LeastBit(Above(m, b)); OneBit(l) && l > b && Has(m, l)
  {
    WordSearchHit(m, b);
  }

  lemma AboveFirst(m: bv32, b: bv32, c: bv32)
    requires OneBit(b) && OneBit(c) && c > b && Has(m, c)
    ensures Above(m, b) != 0 && LeastBit(Above(m, b)) <= c
  {
    WordSearch(m, b, c);
  }

  lemma WholeHit(m: bv32)
    requires m != 0
    ensures OneBit(LeastBit(m)) && Has(m, LeastBit(m))
  {
    LeastIsBit(m);
  }

  lemma WholeFirst(m: bv32, c: bv32)
    requires OneBit(c) && Has(m, c)
    ensures LeastBit(m) <= c
  {
    LeastIsLeast(m, c);
  }

  /** The indices a map word marks. */
  function Marked(m: bv32): set<nat> { set j | 0 <= j < 32 && Has(m, Bit(j)) }

  lemma LastBit()
    ensures Bit(31) == 0x8000_0000
  {
    assert Bit(8) == 0x100;
    assert Bit(16) == 0x1_0000;
    assert Bit(24) == 0x100_0000;
    assert Bit(31) == 0x8000_0000;
  }

  lemma Doubled(p: bv32)
    requires OneBit(p)
    ensures p < 0x8000_0000 ==> OneBit(p << 1) && p < p << 1
    ensures p >= 0x8000_0000 ==> p << 1 == 0
  {
  }

  lemma BelowDoubled(p: bv32, q: bv32)
    requires OneBit(p) && OneBit(q) && q < p << 1
    ensures q <= p
  {
  }

  lemma {:induction false} ZeroStays(j: nat, k: nat)
    requires j <= k && Bit(j) == 0
    ensures Bit(k) == 0
    decreases k - j
  {
    if j < k { ZeroStays(j + 1, k); }
  }

  /** The single bits ascend. */
  lemma {:induction false} BitStep(j: nat)
    requires j < 32
    ensures OneBit(Bit(j)) && (j < 31 ==> Bit(j) < Bit(j + 1))
  {
    if j > 0 {
      BitStep(j - 1);
      Doubled(Bit(j - 1));
    }
    Doubled(Bit(j));
    if j < 31 && Bit(j) >= 0x8000_0000 {
      ZeroStays(j + 1, 31);
      LastBit();
    }
  }

  lemma {:induction false} BitOrder(j: nat, k: nat)
    requires j < k < 32
    ensures Bit(j) < Bit(k)
  {
    BitStep(k - 1);
    if j < k - 1 { BitOrder(j, k - 1); }
  }

  lemma FirstBit(l: bv32, k: nat)
    requires OneBit(l) && l <= Bit(k) && l != Bit(k)
    ensures k > 0 && Bit(k) == Bit(k - 1) << 1
  {
  }

  /** Every single bit is the bit of an index. */
  lemma {:induction false} IndexOf(l: bv32, k: nat) returns (j: nat)
    requires k < 32 && OneBit(l) && l <= Bit(k)
    ensures j <= k && Bit(j) == l
  {
    j := k;
    if l != Bit(k) {
      FirstBit(l, k);
      hide Bit;
      BitStep(k - 1);
      BelowDoubled(Bit(k - 1), l);
      j := IndexOf(l, k - 1);
    }
  }

  lemma BitBound(l: bv32)
    requires OneBit(l)
    ensures l <= 0x8000_0000
  {
  }

  lemma IsMarked(m: bv32, j: nat)
    ensures j in Marked(m) <==> j < 32 && Has(m, Bit(j))
  {
    hide Has, Bit;
  }

  /** A single bit of the word is the bit of a marked index. */
  lemma BitFound(m: bv32, l: bv32) returns (j: nat)
    requires OneBit(l) && Has(m, l)
    ensures j < 32 && Bit(j) == l && j in Marked(m)
  {
    LastBit();
    BitBound(l);
    hide Has, Bit, OneBit;
    j := IndexOf(l, 31);
    IsMarked(m, j);
  }

  /** The bits of two indices, one not above the other. */
  lemma BitIndex(j: nat, k: nat)
    requires j < 32 && k < 32
    ensures Bit(j) <= Bit(k) <==> j <= k
  {
    if j < k { BitOrder(j, k); }
    if k < j { BitOrder(k, j); }
  }

  /** The word tricks are the set search: the least bit of the masked map is the
      bit of the next marked index, and the masked map is empty when there is none. */
  lemma WordIsSet(m: bv32, i: nat)
    requires i < 32
    ensures var w := Above(m, Bit(i)); var r := NextMarked(Marked(m), i);
      if w == 0 then r == 32 else r < 32 && LeastBit(w) == Bit(r)
  {
    hide Bit, Marked, Above, LeastBit, OneBit, Has;
    BitStep(i);
    var b, r := Bit(i), NextMarked(Marked(m), i);
    if r < 32 {
      BitIndex(r, i);
      BitStep(r);
      IsMarked(m, r);
      AboveFirst(m, b, Bit(r));
    }
    if Above(m, b) != 0 {
      AboveHit(m, b);
      var j := BitFound(m, LeastBit(Above(m, b)));
      BitIndex(j, i);
      if r < 32 { BitIndex(j, r); }
    }
  }

  /** The least bit of a whole map is the bit of its first marked index. */
  lemma LeastIsFirst(m: bv32)
    requires m != 0
    ensures var r := FirstFrom(Marked(m), 0); r < 32 && LeastBit(m) == Bit(r)
  {
    hide Bit, Marked, LeastBit, OneBit, Has;
    WholeHit(m);
    var r := FirstFrom(Marked(m), 0);
    var j := BitFound(m, LeastBit(m));
    IsMarked(m, r);
    BitStep(r);
    WholeFirst(m, Bit(r));
    BitIndex(j, r);
  }
}

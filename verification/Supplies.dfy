/** What chunks are handed out from, and which of them a request or a release
    changes. */
module Supplies {
  import opened Sizes
  import opened Links
  import opened Tries
  import opened TreeBins
  import opened Bins
  import opened Heap

  /** The lists of the small bins (front first), the size of every binned chunk, the
      designated victim and top. */
  datatype Supply = Supply(small: seq<seq<nat>>, bins: map<nat, nat>, dv: nat, dvsize: nat, top: nat, topsize: nat)

  /** A smallest binned chunk of size at least `z`. */
  ghost predicate BestFit(bins: map<nat, nat>, p: nat, z: nat) {
    && p in bins && z <= bins[p]
    && forall a :: a in bins && z <= bins[a] ==> bins[p] <= bins[a]
  }

  /** A chunk from a small bin is the one at the front. */
  predicate InFront(s: Supply, p: nat)
    requires p in s.bins
  {
    s.bins[p] < MIN_LARGE ==>
      var i := s.bins[p] / 8;
      i < |s.small| && s.small[i] != [] && p == s.small[i][0]
  }

  /** A tree chunk is the one in the tree, which has a parent, not one chained behind. */
  ghost predicate NotChained(m: LinkMap, bins: map<nat, nat>, p: nat) {
    p in bins && MIN_LARGE <= bins[p] ==> p in m && m[p].up != NULL
  }

  lemma NotBinned(m: LinkMap, bins: map<nat, nat>, p: nat)
    requires p !in bins
    ensures NotChained(m, bins, p)
  {
  }

  // ----- where a request is served from -----

  /** Some binned chunk fits and is preferred to the designated victim: the victim
      does not fit, or the chunk has exactly the size of a small request, or it is
      smaller than the victim when the request is large. */
  ghost predicate BinServes(s: Supply, nb: nat) {
    exists a :: a in s.bins && nb <= s.bins[a] &&
      (s.dvsize < nb || if nb < MIN_LARGE then s.bins[a] == nb else s.bins[a] < s.dvsize)
  }

  /** `p` leaves its bin. What `nb` leaves of it, if a chunk, is the new designated
      victim, and the old one is binned. */
  ghost predicate RestToVictim(s: Supply, p: nat, nb: nat, s': Supply) {
    && p in s.bins && nb <= s.bins[p] && s'.top == s.top && s'.topsize == s.topsize
    && var rest := s.bins[p] - nb;
    if rest < MIN_CHUNK then s'.bins == s.bins - {p} && s'.dv == s.dv && s'.dvsize == s.dvsize
    else
      && s'.dv == p + nb && s'.dvsize == rest
      && s'.bins == if s.dvsize == 0 then s.bins - {p} else (s.bins - {p})[s.dv := s.dvsize]
  }

  /** `p` leaves its bin, and what `nb` leaves of it, if a chunk, is binned. */
  ghost predicate RestToBin(s: Supply, p: nat, nb: nat, s': Supply) {
    && p in s.bins && nb <= s.bins[p] && s'.top == s.top && s'.topsize == s.topsize
    && s'.dv == s.dv && s'.dvsize == s.dvsize
    && var rest := s.bins[p] - nb;
    s'.bins == if rest < MIN_CHUNK then s.bins - {p} else (s.bins - {p})[p + nb := rest]
  }

  /** The designated victim gives its front, or all when too little would be left. */
  ghost predicate VictimCut(s: Supply, nb: nat, s': Supply) {
    && nb <= s.dvsize && s'.bins == s.bins && s'.top == s.top && s'.topsize == s.topsize
    && if s.dvsize - nb < MIN_CHUNK then s'.dv == NULL && s'.dvsize == 0
       else s'.dv == s.dv + nb && s'.dvsize == s.dvsize - nb
  }

  /** Top gives its front. */
  ghost predicate TopCut(s: Supply, nb: nat, s': Supply) {
    && nb < s.topsize && s'.bins == s.bins && s'.dv == s.dv && s'.dvsize == s.dvsize
    && s'.top == s.top + nb && s'.topsize == s.topsize - nb
  }

  /** The designated victim serves when it fits, else top. */
  ghost predicate ServedElse(s: Supply, nb: nat, p: nat, s': Supply) {
    if nb <= s.dvsize then p == s.dv && VictimCut(s, nb, s') else p == s.top && TopCut(s, nb, s')
  }

  /** Chunk `p` serves the request: a best fit of the bins where a bin serves, else
      the designated victim, else top. */
  ghost predicate ServedBy(s: Supply, nb: nat, p: nat, s': Supply) {
    if BinServes(s, nb) then
      && BestFit(s.bins, p, nb) && InFront(s, p)
      && if nb < MIN_LARGE then RestToVictim(s, p, nb, s') else RestToBin(s, p, nb, s')
    else ServedElse(s, nb, p, s')
  }

  /** Nothing serves the request. */
  ghost predicate NothingServes(s: Supply, nb: nat) {
    !BinServes(s, nb) && s.dvsize < nb && s.topsize <= nb
  }

  lemma ServedSmall(s: Supply, nb: nat, p: nat, s': Supply)
    requires nb < MIN_LARGE && BestFit(s.bins, p, nb) && (s.dvsize < nb || s.bins[p] == nb) && InFront(s, p)
    requires RestToVictim(s, p, nb, s')
    ensures BinServes(s, nb) && ServedBy(s, nb, p, s')
  {
  }

  lemma TreeInFront(s: Supply, p: nat)
    requires BestFit(s.bins, p, MIN_LARGE)
    ensures InFront(s, p)
  {
  }

  lemma VictimFirst(s: Supply, nb: nat)
    requires nb < MIN_LARGE && nb <= s.dvsize && forall a :: a in s.bins ==> s.bins[a] != nb
    ensures !BinServes(s, nb)
  {
  }

  lemma RestBinned(s: Supply, p: nat, nb: nat, s': Supply)
    requires p in s.bins && nb <= s.bins[p] && s' == s.(small := s'.small, bins := s'.bins)
    requires s'.bins == if s.bins[p] - nb < MIN_CHUNK then s.bins - {p} else (s.bins - {p})[p + nb := s.bins[p] - nb]
    ensures RestToBin(s, p, nb, s')
  {
  }

  lemma ServedLarge(s: Supply, nb: nat, p: nat, s': Supply)
    requires MIN_LARGE <= nb && BinServes(s, nb) && BestFit(s.bins, p, nb) && RestToBin(s, p, nb, s')
    ensures ServedBy(s, nb, p, s')
  {
  }

  lemma ServedRest(s: Supply, nb: nat, p: nat, s': Supply)
    requires !BinServes(s, nb) && ServedElse(s, nb, p, s')
    ensures ServedBy(s, nb, p, s')
  {
  }

  lemma NoneFits(s: Supply, nb: nat)
    requires forall a :: a in s.bins ==> s.bins[a] < nb
    ensures !BinServes(s, nb)
  {
  }

  lemma NothingIs(s: Supply, nb: nat)
    ensures NothingServes(s, nb) <==> !BinServes(s, nb) && s.dvsize < nb && s.topsize <= nb
  {
  }

  /** Nothing serves a request only when no free chunk is big enough. */
  lemma NothingFits(cs: ChunkMap, s: Supply, nb: nat)
    requires FreeMatch(cs, s.bins, s.dv, s.dvsize) && NothingServes(s, nb)
    ensures forall a :: a in cs && !cs[a].used ==> cs[a].size < nb
  {
    forall a | a in cs && !cs[a].used ensures cs[a].size < nb { assert a in s.bins || cs[a].size == s.dvsize; }
  }

  /** A large request takes a smallest of all free chunks that fit, and top only when
      none does. */
  lemma BestOfAll(cs: ChunkMap, s: Supply, nb: nat, p: nat, s': Supply)
    requires FreeMatch(cs, s.bins, s.dv, s.dvsize) && s.top !in cs && MIN_LARGE <= nb && ServedBy(s, nb, p, s')
    ensures p != s.top ==> p in cs && !cs[p].used && nb <= cs[p].size
    ensures p != s.top ==> forall a :: a in cs && !cs[a].used && nb <= cs[a].size ==> cs[p].size <= cs[a].size
    ensures p == s.top ==> forall a :: a in cs && !cs[a].used ==> cs[a].size < nb
  {
    if BinServes(s, nb) {
      var a :| a in s.bins && nb <= s.bins[a] && (s.dvsize < nb || s.bins[a] < s.dvsize);
    } else if s.dvsize < nb {
      forall a | a in cs && !cs[a].used ensures cs[a].size < nb { assert a in s.bins || cs[a].size == s.dvsize; }
    }
  }

  // ----- small bins -----

  /** All sizes being multiples of 16, a marked bin of the two looked at holds exactly
      the size requested. */
  lemma ExactBin(b: BinState, f: FreeLists, nb: nat, i: nat)
    requires BinsOk(b, f) && nb % 16 == 0 && MIN_CHUNK <= nb < MIN_LARGE && (i == nb / 8 || i == nb / 8 + 1)
    requires i in b.smallmap && forall a :: a in f.bins ==> f.bins[a] % 16 == 0
    ensures i == nb / 8 && i < |f.small| && f.small[i] != [] && f.small[i][0] in f.bins && f.bins[f.small[i][0]] == nb
    ensures BestFit(f.bins, f.small[i][0], nb)
  {
    MarkedFront(b, f, i);
  }

  lemma MarkedFront(b: BinState, f: FreeLists, i: nat)
    requires BinsOk(b, f) && i in b.smallmap
    ensures i < NSMALLBINS == |f.small| && f.small[i] != [] && f.small[i][0] in f.bins && f.bins[f.small[i][0]] == 8 * i
  {
    hide SmallOk;
    SmallBinAt(b, f, i);
    assert f.small[i][0] in f.small[i];
  }

  lemma NoneExact(b: BinState, f: FreeLists, nb: nat)
    requires BinsOk(b, f) && nb < MIN_LARGE && nb / 8 !in b.smallmap
    ensures forall a :: a in f.bins ==> f.bins[a] != nb
  {
    forall a | a in f.bins ensures f.bins[a] != nb {
      if f.bins[a] == nb {
        var pos := SmallBinOf(b, f, a);
        SmallBinAt(b, f, nb / 8);
      }
    }
  }

  /** The next marked small bin holds best fits. */
  lemma NextIsBest(b: BinState, f: FreeLists, nb: nat, i: nat, p: nat)
    requires BinsOk(b, f) && nb / 8 < i < NSMALLBINS && nb % 8 == 0 && nb < MIN_LARGE
    requires p in f.bins && f.bins[p] == 8 * i
    requires forall j :: nb / 8 <= j < i ==> j !in b.smallmap
    ensures BestFit(f.bins, p, nb)
  {
    forall a | a in f.bins && nb <= f.bins[a] ensures 8 * i <= f.bins[a] {
      if f.bins[a] < MIN_LARGE {
        var pos := SmallBinOf(b, f, a);
        SmallBinAt(b, f, f.bins[a] / 8);
        assert f.bins[a] / 8 >= i;
      }
    }
  }

  /** Where no small bin serves, a smallest tree chunk is a best fit. */
  lemma TreeIsBest(b: BinState, f: FreeLists, nb: nat, p: nat)
    requires BinsOk(b, f) && nb < MIN_LARGE && BestFit(f.bins, p, MIN_LARGE)
    requires forall j :: nb / 8 <= j < NSMALLBINS ==> j !in b.smallmap
    ensures BestFit(f.bins, p, nb)
  {
    forall a | a in f.bins && nb <= f.bins[a] ensures MIN_LARGE <= f.bins[a] {
      if f.bins[a] < MIN_LARGE {
        var pos := SmallBinOf(b, f, a);
        SmallBinAt(b, f, f.bins[a] / 8);
      }
    }
  }

  // ----- where a released chunk goes -----

  /** [q, e) is the chunk `p` with the free chunks before and after it. */
  ghost predicate FreeBlock(h: HeapState, p: nat, q: nat, e: nat) {
    && Block(h.chunks, q, p, e)
    && (forall a :: a in h.chunks && a + h.chunks[a].size == q ==> h.chunks[a].used)
    && (e == h.top || (e in h.chunks && h.chunks[e].used))
  }

  predicate VictimIn(s: Supply, q: nat, e: nat) { s.dvsize != 0 && q <= s.dv < e }

  /** The block joins top, or is the designated victim if that was part of it, or is
      binned; nothing outside it changes. */
  ghost predicate BlockFreed(s: Supply, q: nat, e: nat, s': Supply) {
    if e == s.top then
      && s'.top == q && s'.topsize == s.topsize + (e - q) && LeftOut(s.bins, s'.bins, q, e)
      && if VictimIn(s, q, e) then s'.dv == NULL && s'.dvsize == 0 else s'.dv == s.dv && s'.dvsize == s.dvsize
    else
      && s'.top == s.top && s'.topsize == s.topsize
      && if VictimIn(s, q, e) then s'.dv == q && s'.dvsize == e - q && LeftOut(s.bins, s'.bins, q, e)
         else
           && s'.dv == s.dv && s'.dvsize == s.dvsize
           && q in s'.bins && s'.bins[q] == e - q && LeftOut(s.bins, s'.bins - {q}, q, e)
  }

  /** The order within small bins does not matter here. */
  lemma ListsAside(s: Supply, t: Supply, q: nat, e: nat, s': Supply)
    requires BlockFreed(s, q, e, s') && t == s.(small := t.small)
    ensures BlockFreed(t, q, e, s')
  {
  }

  lemma BlockBinned(s: Supply, rest: map<nat, nat>, q: nat, e: nat, s': Supply)
    requires LeftOut(s.bins, rest, q, e) && q < e && e != s.top && !VictimIn(s, q, e)
    requires s' == s.(small := s'.small, bins := rest[q := e - q])
    ensures BlockFreed(s, q, e, s')
  {
    assert q !in rest;
    assert rest[q := e - q] - {q} == rest;
  }

  lemma BlockVictim(s: Supply, q: nat, e: nat, s': Supply)
    requires LeftOut(s.bins, s'.bins, q, e) && q < e && e != s.top && VictimIn(s, q, e)
    requires s' == s.(small := s'.small, bins := s'.bins, dv := q, dvsize := e - q)
    ensures BlockFreed(s, q, e, s')
  {
  }

  lemma BlockToTop(s: Supply, q: nat, s': Supply)
    requires LeftOut(s.bins, s'.bins, q, s.top) && q <= s.top
    requires s' == Supply(s'.small, s'.bins, if VictimIn(s, q, s.top) then NULL else s.dv,
      if VictimIn(s, q, s.top) then 0 else s.dvsize, q, s.topsize + (s.top - q))
    ensures BlockFreed(s, q, s.top, s')
  {
  }
}

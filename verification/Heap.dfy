/** The chunks of a segment and their boundary tags. */
module Heap {
  import opened Sizes
  import opened Links

  datatype Chunk = Chunk(size: nat, used: bool)

  /** A chunk's `head` word. */
  datatype Head = Head(size: nat, cinuse: bool, pinuse: bool)

  /** The `prev_foot` word: a free predecessor's size, or the owner mark that
      FOOTERS puts behind a chunk in use. */
  datatype Foot = SizeFoot(size: nat) | OwnerFoot

  type ChunkMap = map<nat, Chunk>

  /** Chunks between `first` and the top chunk, with the tag words. */
  datatype HeapState = HeapState(chunks: ChunkMap, head: map<nat, Head>, foot: map<nat, Foot>, first: nat, top: nat,
    topsize: nat)

  /** Chunk addresses and sizes are multiples of the alignment. */
  ghost predicate Aligned(cs: ChunkMap) {
    forall a :: a in cs ==> a % 16 == 0 && cs[a].size % 16 == 0
  }

  /** A chunk ends where another begins, or at the top chunk. */
  predicate Adjoins(cs: ChunkMap, top: nat, a: nat)
    requires a in cs
  {
    a + cs[a].size == top || a + cs[a].size in cs
  }

  /** Two chunks do not overlap. */
  predicate Disjoint(cs: ChunkMap, a: nat, b: nat)
    requires a in cs && b in cs
  {
    a == b || a + cs[a].size <= b || b + cs[b].size <= a
  }

  predicate InPlace(cs: ChunkMap, first: nat, top: nat, a: nat)
    requires a in cs
  {
    first <= a && MIN_CHUNK <= cs[a].size && a + cs[a].size <= top && Adjoins(cs, top, a)
  }

  /** The chunks tile [first, top): they do not overlap and leave no gap. */
  ghost predicate Tiled(cs: ChunkMap, first: nat, top: nat) {
    && (if first == top then cs == map[] else first in cs)
    && (forall a {:trigger InPlace(cs, first, top, a)} :: a in cs ==> InPlace(cs, first, top, a))
    && (forall a, b {:trigger Disjoint(cs, a, b)} :: a in cs && b in cs ==> Disjoint(cs, a, b))
  }

  function FootFor(c: Chunk): Foot { if c.used then OwnerFoot else SizeFoot(c.size) }

  /** The tag words after chunk `a` carry its in-use bit and, when it is free,
      its size; a free chunk is followed by a chunk in use, never by top. */
  predicate TagOk(h: HeapState, a: nat)
    requires a in h.chunks
  {
    var n := a + h.chunks[a].size;
    && n in h.head && h.head[n].pinuse == h.chunks[a].used
    && n in h.foot && h.foot[n] == FootFor(h.chunks[a])
    && (!h.chunks[a].used ==> n in h.chunks && h.chunks[n].used)
  }

  /** The head word of a chunk. */
  predicate HeadOk(h: HeapState, a: nat)
    requires a in h.chunks
  {
    a in h.head && h.head[a].size == h.chunks[a].size && h.head[a].cinuse == h.chunks[a].used
  }

  ghost predicate Tagged(h: HeapState) {
    && (forall a {:trigger TagOk(h, a)} :: a in h.chunks ==> TagOk(h, a) && HeadOk(h, a))
    && h.first in h.head && h.head[h.first].pinuse
    && h.top in h.head && h.head[h.top] == Head(h.topsize, false, true)
  }

  /** The heap invariant: tiling, boundary tags, no two adjacent free chunks. */
  ghost predicate HeapOk(h: HeapState) {
    && FIRST_CHUNK <= h.first <= h.top && h.first % 16 == 0 && h.top % 16 == 0 && 0 < h.topsize
    && h.top + h.topsize - h.first < INDEX_LIMIT
    && Tiled(h.chunks, h.first, h.top) && Aligned(h.chunks) && Tagged(h)
  }

  // ----- walking the chunks -----

  /** Every address below top lies in a chunk: the walk over `next_chunk`
      from the first chunk reaches it. */
  lemma {:induction false} OwnerFrom(cs: ChunkMap, first: nat, top: nat, a: nat, x: nat) returns (o: nat)
    requires Tiled(cs, first, top) && a in cs && a <= x < top
    ensures o in cs && o <= x < o + cs[o].size
    decreases top - a
  {
    if x < a + cs[a].size {
      o := a;
    } else {
      assert InPlace(cs, first, top, a);
      o := OwnerFrom(cs, first, top, a + cs[a].size, x);
    }
  }

  lemma OwnerOf(cs: ChunkMap, first: nat, top: nat, x: nat) returns (o: nat)
    requires Tiled(cs, first, top) && first <= x < top
    ensures o in cs && o <= x < o + cs[o].size
  {
    o := OwnerFrom(cs, first, top, first, x);
  }

  /** The physical predecessor of a chunk or of top. */
  lemma Predecessor(cs: ChunkMap, first: nat, top: nat, p: nat) returns (q: nat)
    requires Tiled(cs, first, top) && (p in cs || p == top) && first < p
    ensures q in cs && q < p && q + cs[q].size == p
  {
    assert p in cs ==> InPlace(cs, first, top, p);
    q := OwnerOf(cs, first, top, p - 1);
    assert InPlace(cs, first, top, q) && (p in cs ==> Disjoint(cs, p, q));
  }

  /** The predecessor is free exactly when the PINUSE bit is clear, and then
      `prev_foot` leads to it. */
  lemma PrevFree(h: HeapState, p: nat)
    requires HeapOk(h) && p in h.chunks && p in h.head && !h.head[p].pinuse
    ensures p in h.foot && h.foot[p].SizeFoot? && h.foot[p].size <= p
    ensures var q := p - h.foot[p].size;
      q in h.chunks && !h.chunks[q].used && h.chunks[q].size == h.foot[p].size && q + h.chunks[q].size == p
  {
    hide Aligned;
    assert InPlace(h.chunks, h.first, h.top, p);
    var q := Predecessor(h.chunks, h.first, h.top, p);
    assert TagOk(h, q);
  }

  lemma PrevUsed(h: HeapState, p: nat)
    requires HeapOk(h) && p in h.head && h.head[p].pinuse
    ensures forall q :: q in h.chunks && q + h.chunks[q].size == p ==> h.chunks[q].used
  {
    hide Aligned, Tiled;
    forall q | q in h.chunks && q + h.chunks[q].size == p ensures h.chunks[q].used { assert TagOk(h, q); }
  }

  lemma NextPlace(h: HeapState, p: nat)
    requires HeapOk(h) && p in h.chunks
    ensures var n := p + h.chunks[p].size;
      && p < n && n in h.head && n in h.foot
      && (if n == h.top then !h.head[n].cinuse && n !in h.chunks
          else n in h.chunks && h.head[n].cinuse == h.chunks[n].used)
  {
    hide Aligned;
    var n := p + h.chunks[p].size;
    assert TagOk(h, p) && InPlace(h.chunks, h.first, h.top, p) && (n in h.chunks ==> TagOk(h, n));
    TopNotChunk(h.chunks, h.first, h.top);
  }

  lemma TopNotChunk(cs: ChunkMap, first: nat, top: nat)
    requires Tiled(cs, first, top)
    ensures top !in cs
  {
    assert top in cs ==> InPlace(cs, first, top, top);
  }

  /** Neighbours of a free chunk are in use. */
  lemma FreeNeighbours(h: HeapState, p: nat)
    requires HeapOk(h) && p in h.chunks && !h.chunks[p].used
    ensures var n := p + h.chunks[p].size; n in h.chunks && h.chunks[n].used && n in h.head && n in h.foot
    ensures forall a :: a in h.chunks && a + h.chunks[a].size == p ==> h.chunks[a].used
    ensures p in h.head && h.head[p].pinuse
  {
    hide Aligned;
    assert TagOk(h, p) && InPlace(h.chunks, h.first, h.top, p);
    forall a | a in h.chunks && a + h.chunks[a].size == p ensures h.chunks[a].used { assert TagOk(h, a); }
    if h.first < p {
      var q := Predecessor(h.chunks, h.first, h.top, p);
      assert TagOk(h, q);
    }
  }

  /** A chunk is determined by its end, and does not end inside another. */
  lemma SameNext(cs: ChunkMap, first: nat, top: nat, a: nat, b: nat)
    requires Tiled(cs, first, top) && a in cs && b in cs
    ensures a != b ==> a + cs[a].size != b + cs[b].size && !(b < a + cs[a].size < b + cs[b].size)
    ensures a < b ==> a + cs[a].size <= b
  {
    assert Disjoint(cs, a, b) && InPlace(cs, first, top, a) && InPlace(cs, first, top, b);
  }

  lemma InsideNotChunk(cs: ChunkMap, first: nat, top: nat, p: nat, r: nat)
    requires Tiled(cs, first, top) && p in cs && p < r < p + cs[p].size
    ensures r !in cs && r != top
  {
    assert r in cs ==> Disjoint(cs, p, r);
    assert InPlace(cs, first, top, p);
  }

  // ----- what a call leaves alone -----

  /** A tag word at `x` that only a change of the chunk boundaries may write. */
  ghost predicate Boundary(h: HeapState, x: nat) { x in h.chunks || x == h.top }

  ghost predicate TagsKept(h: HeapState, h': HeapState) {
    forall x :: !Boundary(h, x) && !Boundary(h', x) ==> SameWord(h.head, h'.head, x) && SameWord(h.foot, h'.foot, x)
  }

  /** The call did not write into the chunk at `a`: not its size, not a word of
      its payload, by way of neither tags nor links. */
  ghost predicate ChunkKept(h: HeapState, m: LinkMap, h': HeapState, m': LinkMap, a: nat)
    requires a in h.chunks
  {
    && a in h.head && a in h'.head && h'.head[a].size == h.head[a].size == h.chunks[a].size
    && (forall x :: a <= x < a + h.chunks[a].size ==> SameWord(m, m', x))
    && (forall x :: a < x < a + h.chunks[a].size ==> SameWord(h.head, h'.head, x) && SameWord(h.foot, h'.foot, x))
  }

  /** No word of a payload that stays in use is written. */
  ghost predicate PayloadsKept(h: HeapState, m: LinkMap, h': HeapState, m': LinkMap) {
    forall a :: a in Live(h.chunks) && a in Live(h'.chunks) ==> ChunkKept(h, m, h', m', a)
  }

  lemma ChunkKeptJoin(h0: HeapState, m0: LinkMap, h1: HeapState, m1: LinkMap, h2: HeapState, m2: LinkMap, a: nat)
    requires a in h0.chunks && a in h1.chunks && h0.chunks[a].size == h1.chunks[a].size
    requires ChunkKept(h0, m0, h1, m1, a) && ChunkKept(h1, m1, h2, m2, a)
    ensures ChunkKept(h0, m0, h2, m2, a)
  {
    forall x | a <= x < a + h0.chunks[a].size
      ensures SameWord(m0, m2, x) && (x != a ==> SameWord(h0.head, h2.head, x) && SameWord(h0.foot, h2.foot, x))
    {
      assert SameWord(m0, m1, x) && SameWord(m1, m2, x);
      if x != a {
        assert SameWord(h0.head, h1.head, x) && SameWord(h1.head, h2.head, x);
        assert SameWord(h0.foot, h1.foot, x) && SameWord(h1.foot, h2.foot, x);
      }
    }
  }

  /** Inside a chunk in use there is no boundary and no binned chunk. */
  lemma InsideUsed(h: HeapState, bins: map<nat, nat>, dv: nat, dvsize: nat, a: nat, x: nat)
    requires HeapOk(h) && FreeMatch(h.chunks, bins, dv, dvsize)
    requires a in h.chunks && h.chunks[a].used && a <= x < a + h.chunks[a].size
    ensures x !in bins && (x != a ==> !Boundary(h, x))
  {
    hide Aligned, Tagged;
    if x != a { InsideNotChunk(h.chunks, h.first, h.top, a, x); }
  }

  // ----- allocation -----

  /** `set_inuse_and_pinuse` on a free chunk. */
  function UsedWhole(h: HeapState, p: nat): HeapState
    requires p in h.chunks && p + h.chunks[p].size in h.head
  {
    var s := h.chunks[p].size;
    var head1 := h.head[p := Head(s, true, true)];
    h.(chunks := h.chunks[p := Chunk(s, true)],
       head := head1[p + s := head1[p + s].(pinuse := true)],
       foot := h.foot[p + s := OwnerFoot])
  }

  lemma RetaggedTiled(cs: ChunkMap, first: nat, top: nat, p: nat, u: bool)
    requires Tiled(cs, first, top) && p in cs
    ensures Tiled(cs[p := Chunk(cs[p].size, u)], first, top)
  {
    var cs' := cs[p := Chunk(cs[p].size, u)];
    forall a | a in cs' ensures InPlace(cs', first, top, a) { assert InPlace(cs, first, top, a); }
    forall a, b | a in cs' && b in cs' ensures Disjoint(cs', a, b) { assert Disjoint(cs, a, b); }
  }

  lemma UseWhole(h: HeapState, p: nat)
    requires HeapOk(h) && p in h.chunks && !h.chunks[p].used
    ensures p + h.chunks[p].size in h.head && HeapOk(UsedWhole(h, p)) && TagsKept(h, UsedWhole(h, p))
  {
    hide Tiled;
    FreeNeighbours(h, p);
    var h' := UsedWhole(h, p);
    RetaggedTiled(h.chunks, h.first, h.top, p, true);
    TopNotChunk(h.chunks, h.first, h.top);
    forall a | a in h'.chunks ensures TagOk(h', a) && HeadOk(h', a) {
      assert TagOk(h, a);
      SameNext(h.chunks, h.first, h.top, a, p);
    }
  }

  /** Front part used, remainder free. */
  function SplitChunks(cs: ChunkMap, p: nat, nb: nat): ChunkMap
    requires p in cs && nb <= cs[p].size
  {
    cs[p := Chunk(nb, true)][p + nb := Chunk(cs[p].size - nb, false)]
  }

  /** `set_size_and_pinuse_of_inuse_chunk` on the front part and
      `set_size_and_pinuse_of_free_chunk` on the remainder. */
  function UsedFront(h: HeapState, p: nat, nb: nat): HeapState
    requires p in h.chunks && nb <= h.chunks[p].size
  {
    var s, r := h.chunks[p].size, p + nb;
    h.(chunks := SplitChunks(h.chunks, p, nb),
       head := h.head[p := Head(nb, true, true)][r := Head(s - nb, false, true)],
       foot := h.foot[r := OwnerFoot][p + s := SizeFoot(s - nb)])
  }

  lemma SplitTiled(cs: ChunkMap, first: nat, top: nat, p: nat, nb: nat)
    requires Tiled(cs, first, top) && p in cs && MIN_CHUNK <= nb && nb + MIN_CHUNK <= cs[p].size
    ensures Tiled(SplitChunks(cs, p, nb), first, top)
  {
    var cs', r := SplitChunks(cs, p, nb), p + nb;
    InsideNotChunk(cs, first, top, p, r);
    assert InPlace(cs, first, top, p);
    forall a | a in cs' ensures InPlace(cs', first, top, a) {
      if a != r { assert InPlace(cs, first, top, a); }
    }
    forall a, b | a in cs' && b in cs' ensures Disjoint(cs', a, b) {
      assert Disjoint(cs, if a == r then p else a, if b == r then p else b);
    }
  }

  lemma SplitAligned(cs: ChunkMap, p: nat, nb: nat)
    requires Aligned(cs) && p in cs && nb % 16 == 0 && nb <= cs[p].size
    ensures Aligned(SplitChunks(cs, p, nb))
  {
  }

  lemma UseFront(h: HeapState, p: nat, nb: nat)
    requires HeapOk(h) && p in h.chunks && !h.chunks[p].used
    requires nb % 16 == 0 && MIN_CHUNK <= nb && nb + MIN_CHUNK <= h.chunks[p].size
    ensures HeapOk(UsedFront(h, p, nb)) && p + nb !in h.chunks && TagsKept(h, UsedFront(h, p, nb))
  {
    hide Tiled, Aligned, TagOk, HeadOk;
    FreeNeighbours(h, p);
    SplitTiled(h.chunks, h.first, h.top, p, nb);
    SplitAligned(h.chunks, p, nb);
    InsideNotChunk(h.chunks, h.first, h.top, p, p + nb);
    TopNotChunk(h.chunks, h.first, h.top);
    forall a | a in UsedFront(h, p, nb).chunks
      ensures TagOk(UsedFront(h, p, nb), a) && HeadOk(UsedFront(h, p, nb), a)
    {
      UseFrontTag(h, p, nb, a);
    }
  }

  lemma UseFrontTag(h: HeapState, p: nat, nb: nat, a: nat)
    requires HeapOk(h) && p in h.chunks && !h.chunks[p].used
    requires MIN_CHUNK <= nb && nb + MIN_CHUNK <= h.chunks[p].size
    requires a in UsedFront(h, p, nb).chunks
    ensures TagOk(UsedFront(h, p, nb), a) && HeadOk(UsedFront(h, p, nb), a)
  {
    hide Tiled, Aligned;
    FreeNeighbours(h, p);
    InsideNotChunk(h.chunks, h.first, h.top, p, p + nb);
    assert TagOk(h, p);
    if a != p && a != p + nb {
      assert TagOk(h, a);
      SameNext(h.chunks, h.first, h.top, a, p);
    }
  }

  /** The front of top, with the rest as the new top. */
  function UsedTop(h: HeapState, nb: nat): HeapState
    requires nb <= h.topsize
  {
    var r := h.top + nb;
    HeapState(h.chunks[h.top := Chunk(nb, true)],
      h.head[r := Head(h.topsize - nb, false, true)][h.top := Head(nb, true, true)],
      h.foot[r := OwnerFoot], h.first, r, h.topsize - nb)
  }

  lemma TopTiled(cs: ChunkMap, first: nat, top: nat, nb: nat)
    requires Tiled(cs, first, top) && first <= top && MIN_CHUNK <= nb
    ensures Tiled(cs[top := Chunk(nb, true)], first, top + nb)
  {
    var cs' := cs[top := Chunk(nb, true)];
    forall a | a in cs' ensures InPlace(cs', first, top + nb, a) {
      if a != top { assert InPlace(cs, first, top, a); }
    }
    forall a, b | a in cs' && b in cs' ensures Disjoint(cs', a, b) {
      if a != top { assert InPlace(cs, first, top, a); }
      if b != top { assert InPlace(cs, first, top, b); }
      if a != top && b != top { assert Disjoint(cs, a, b); }
    }
  }

  lemma TopAligned(cs: ChunkMap, top: nat, nb: nat)
    requires Aligned(cs) && top % 16 == 0 && nb % 16 == 0
    ensures Aligned(cs[top := Chunk(nb, true)]) && (top + nb) % 16 == 0
  {
  }

  lemma UseTop(h: HeapState, nb: nat)
    requires HeapOk(h) && nb % 16 == 0 && MIN_CHUNK <= nb < h.topsize
    ensures HeapOk(UsedTop(h, nb)) && h.top !in h.chunks && TagsKept(h, UsedTop(h, nb))
  {
    hide Tiled, Aligned;
    TopTiled(h.chunks, h.first, h.top, nb);
    TopAligned(h.chunks, h.top, nb);
    TopNotChunk(h.chunks, h.first, h.top);
    forall a | a in UsedTop(h, nb).chunks ensures TagOk(UsedTop(h, nb), a) && HeadOk(UsedTop(h, nb), a) {
      if a != h.top {
        assert TagOk(h, a);
        ChunkFits(h, a);
      }
    }
  }

  lemma ChunkFits(h: HeapState, a: nat)
    requires HeapOk(h) && a in h.chunks
    ensures h.first <= a && MIN_CHUNK <= h.chunks[a].size && a + h.chunks[a].size <= h.top
    ensures a % 16 == 0 && h.chunks[a].size % 16 == 0 && FIRST_CHUNK <= a && h.chunks[a].size < INDEX_LIMIT
    ensures a in h.head && h.head[a].size == h.chunks[a].size && h.head[a].cinuse == h.chunks[a].used
  {
    assert InPlace(h.chunks, h.first, h.top, a) && TagOk(h, a);
  }

  // ----- freeing -----

  /** The chunks from `q` up to `e` become one free chunk. */
  function Fused(cs: ChunkMap, q: nat, e: nat): ChunkMap
    requires q <= e
  {
    (map a | a in cs && !(q <= a < e) :: cs[a])[q := Chunk(e - q, false)]
  }

  lemma FusedTiled(cs: ChunkMap, first: nat, top: nat, q: nat, e: nat)
    requires Tiled(cs, first, top) && q in cs && e in cs && q < e
    ensures Tiled(Fused(cs, q, e), first, top)
  {
    var cs' := Fused(cs, q, e);
    assert Disjoint(cs, q, e) && InPlace(cs, first, top, q) && InPlace(cs, first, top, e);
    forall a | a in cs' ensures InPlace(cs', first, top, a) {
      FusedFits(cs, first, top, q, e, a);
    }
    forall a, b | a in cs' && b in cs' ensures Disjoint(cs', a, b) {
      assert Disjoint(cs, a, b);
      FusedApart(cs, first, top, q, e, a);
      FusedApart(cs, first, top, q, e, b);
    }
  }

  lemma FusedFits(cs: ChunkMap, first: nat, top: nat, q: nat, e: nat, a: nat)
    requires Tiled(cs, first, top) && q in cs && e in cs && q < e && a in Fused(cs, q, e)
    ensures InPlace(Fused(cs, q, e), first, top, a)
  {
    assert Disjoint(cs, q, e) && InPlace(cs, first, top, q) && InPlace(cs, first, top, e) && InPlace(cs, first, top, a);
    if a != q { FusedApart(cs, first, top, q, e, a); }
  }

  /** A chunk outside [q, e) does not reach into it. */
  lemma FusedApart(cs: ChunkMap, first: nat, top: nat, q: nat, e: nat, a: nat)
    requires Tiled(cs, first, top) && q in cs && e in cs && q < e && a in Fused(cs, q, e)
    ensures a < q ==> a + cs[a].size <= q
    ensures a != q ==> a in cs && (a < q || e <= a) && Fused(cs, q, e)[a] == cs[a] && !(q < a + cs[a].size <= e)
  {
    if a != q { assert Disjoint(cs, a, q) && InPlace(cs, first, top, a) && InPlace(cs, first, top, q); }
  }

  lemma FusedAligned(cs: ChunkMap, q: nat, e: nat)
    requires Aligned(cs) && q in cs && e in cs && q < e
    ensures Aligned(Fused(cs, q, e))
  {
  }

  /** `set_free_with_pinuse` and `set_size_and_pinuse_of_free_chunk` after
      consolidation: the successor `e` sees a free chunk of size e - q. */
  function FreedHeap(h: HeapState, q: nat, e: nat): HeapState
    requires q <= e && e in h.head
  {
    h.(chunks := Fused(h.chunks, q, e),
       head := h.head[e := h.head[e].(pinuse := false)][q := Head(e - q, false, true)],
       foot := h.foot[e := SizeFoot(e - q)])
  }

  lemma FuseHeap(h: HeapState, q: nat, e: nat)
    requires HeapOk(h) && q in h.chunks && e in h.chunks && q < e && h.chunks[e].used
    requires forall a :: a in h.chunks && a + h.chunks[a].size == q ==> h.chunks[a].used
    ensures e in h.head && HeapOk(FreedHeap(h, q, e)) && TagsKept(h, FreedHeap(h, q, e))
  {
    hide Tiled, Aligned, Disjoint;
    FusedTiled(h.chunks, h.first, h.top, q, e);
    FusedAligned(h.chunks, q, e);
    TopNotChunk(h.chunks, h.first, h.top);
    assert TagOk(h, q) && TagOk(h, e);
    ChunkFits(h, q);
    forall a | a in Fused(h.chunks, q, e) ensures TagOk(FreedHeap(h, q, e), a) && HeadOk(FreedHeap(h, q, e), a) {
      FuseTag(h, q, e, a);
    }
  }

  lemma FuseTag(h: HeapState, q: nat, e: nat, a: nat)
    requires HeapOk(h) && q in h.chunks && e in h.chunks && q < e && h.chunks[e].used && e in h.head
    requires forall a :: a in h.chunks && a + h.chunks[a].size == q ==> h.chunks[a].used
    requires a in Fused(h.chunks, q, e)
    ensures TagOk(FreedHeap(h, q, e), a) && HeadOk(FreedHeap(h, q, e), a)
  {
    hide Tiled, Aligned, Disjoint;
    FusedApart(h.chunks, h.first, h.top, q, e, a);
    if a != q { assert TagOk(h, a); }
  }

  /** Everything from `q` on joins the top chunk. */
  function Below(cs: ChunkMap, q: nat): ChunkMap { map a | a in cs && a < q :: cs[a] }

  function FreedTop(h: HeapState, q: nat): HeapState
    requires q <= h.top
  {
    var t := h.top + h.topsize - q;
    HeapState(Below(h.chunks, q), h.head[q := Head(t, false, true)], h.foot, h.first, q, t)
  }

  lemma BelowTiled(cs: ChunkMap, first: nat, top: nat, q: nat)
    requires Tiled(cs, first, top) && q in cs
    ensures Tiled(Below(cs, q), first, q)
  {
    var cs' := Below(cs, q);
    assert InPlace(cs, first, top, q);
    forall a | a in cs' ensures InPlace(cs', first, q, a) {
      assert InPlace(cs, first, top, a) && Disjoint(cs, a, q);
    }
    forall a, b | a in cs' && b in cs' ensures Disjoint(cs', a, b) { assert Disjoint(cs, a, b); }
  }

  lemma FuseTop(h: HeapState, q: nat)
    requires HeapOk(h) && q in h.chunks
    requires forall a :: a in h.chunks && a + h.chunks[a].size == q ==> h.chunks[a].used
    ensures q <= h.top && HeapOk(FreedTop(h, q)) && TagsKept(h, FreedTop(h, q))
  {
    hide Tiled;
    ChunkFits(h, q);
    BelowTiled(h.chunks, h.first, h.top, q);
    forall a | a in Below(h.chunks, q) ensures TagOk(FreedTop(h, q), a) && HeadOk(FreedTop(h, q), a) {
      assert TagOk(h, a);
      SameNext(h.chunks, h.first, h.top, a, q);
    }
  }

  // ----- chunks and free lists -----

  /** The chunks in use, with their sizes. */
  function Live(cs: ChunkMap): map<nat, nat> { map a | a in cs && cs[a].used :: cs[a].size }

  /** Every free chunk is the designated victim or is binned under its size,
      never both, and nothing else is. */
  ghost predicate FreeMatch(cs: ChunkMap, bins: map<nat, nat>, dv: nat, dvsize: nat) {
    && (forall a :: a in cs && !cs[a].used ==>
         if dvsize != 0 && a == dv then cs[a].size == dvsize else a in bins && bins[a] == cs[a].size)
    && (forall a :: a in bins ==> a in cs && !cs[a].used && cs[a].size == bins[a])
    && (if dvsize == 0 then dv == NULL else dv in cs && !cs[dv].used && dv !in bins)
  }

  lemma NotLive(cs: ChunkMap)
    ensures forall a :: a in cs && !cs[a].used ==> a !in Live(cs)
  {
  }

  lemma MatchBin(cs: ChunkMap, bins: map<nat, nat>, dv: nat, dvsize: nat, p: nat)
    requires FreeMatch(cs, bins, dv, dvsize) && p in bins
    ensures p in cs && !cs[p].used && cs[p].size == bins[p]
  {
  }

  lemma MatchDv(h: HeapState, bins: map<nat, nat>, dv: nat, dvsize: nat)
    requires HeapOk(h) && FreeMatch(h.chunks, bins, dv, dvsize)
    ensures dvsize == 0 ==> dv == NULL
    ensures dvsize != 0 ==> dv in h.chunks && !h.chunks[dv].used && h.chunks[dv].size == dvsize && dv !in bins
    ensures dvsize != 0 ==> dv >= FIRST_CHUNK && MIN_CHUNK <= dvsize && dvsize % 16 == 0
  {
    if dvsize != 0 { ChunkFits(h, dv); }
  }

  lemma UseWholeMatch(cs: ChunkMap, bins: map<nat, nat>, dv: nat, dvsize: nat, p: nat)
    requires FreeMatch(cs, bins, dv, dvsize) && p in cs && !cs[p].used
    ensures var cs' := cs[p := Chunk(cs[p].size, true)];
      && (p in bins ==> FreeMatch(cs', bins - {p}, dv, dvsize))
      && (p !in bins ==> FreeMatch(cs', bins, NULL, 0))
      && Live(cs') == Live(cs)[p := cs[p].size]
  {
  }

  /** Splitting takes the chunk out of its bin and leaves the remainder for a
      bin or for the designated victim. */
  lemma SplitMatch(cs: ChunkMap, bins: map<nat, nat>, dv: nat, dvsize: nat, p: nat, nb: nat)
    requires FreeMatch(cs, bins, dv, dvsize) && p in cs && !cs[p].used && p in bins
    requires 0 < nb < cs[p].size && p + nb !in cs
    ensures var cs' := SplitChunks(cs, p, nb); var r := p + nb; var rs := cs[p].size - nb;
      && r in cs' && cs'[r] == Chunk(rs, false)
      && r !in bins && FreeMatch(cs', (bins - {p})[r := rs], dv, dvsize)
      && (dvsize == 0 && r != NULL ==> FreeMatch(cs', bins - {p}, r, rs))
      && (dvsize != 0 && r != NULL ==> FreeMatch(cs', (bins - {p})[dv := dvsize], r, rs))
      && Live(cs') == Live(cs)[p := nb]
  {
  }

  lemma SplitDvMatch(cs: ChunkMap, bins: map<nat, nat>, dv: nat, dvsize: nat, nb: nat)
    requires FreeMatch(cs, bins, dv, dvsize) && 0 < nb < dvsize && dv + nb !in cs
    ensures FreeMatch(SplitChunks(cs, dv, nb), bins, dv + nb, dvsize - nb)
    ensures Live(SplitChunks(cs, dv, nb)) == Live(cs)[dv := nb]
  {
  }

  lemma TopMatch(cs: ChunkMap, bins: map<nat, nat>, dv: nat, dvsize: nat, top: nat, nb: nat)
    requires FreeMatch(cs, bins, dv, dvsize) && top !in cs
    ensures FreeMatch(cs[top := Chunk(nb, true)], bins, dv, dvsize)
    ensures Live(cs[top := Chunk(nb, true)]) == Live(cs)[top := nb]
  {
  }

  /** After fusing [q, e): what was free in there has left bins and victim,
      and the new chunk is binned, or is the victim. */
  lemma FusedMatch(cs: ChunkMap, bins: map<nat, nat>, dv: nat, dvsize: nat, q: nat, e: nat,
      bins': map<nat, nat>, dv': nat, dvsize': nat)
    requires FreeMatch(cs, bins, dv, dvsize) && q in cs && q < e && 0 < q
    requires forall a :: a in bins' && a != q ==> a in bins && bins'[a] == bins[a] && !(q <= a < e)
    requires forall a :: a in bins && !(q <= a < e) ==> a in bins'
    requires if dvsize != 0 && q <= dv < e then dv' == q && dvsize' == e - q && q !in bins'
             else dv' == dv && dvsize' == dvsize && q in bins' && bins'[q] == e - q
    ensures FreeMatch(Fused(cs, q, e), bins', dv', dvsize')
  {
  }

  lemma FusedLive(cs: ChunkMap, q: nat, e: nat, p: nat)
    requires q < e && p in cs && q <= p < e && cs[p].used
    requires forall a :: a in cs && q <= a < e && a != p ==> !cs[a].used
    ensures Live(Fused(cs, q, e)) == Live(cs) - {p}
  {
  }

  lemma BelowMatch(cs: ChunkMap, bins: map<nat, nat>, dv: nat, dvsize: nat, q: nat, bins': map<nat, nat>, dv': nat,
      dvsize': nat)
    requires FreeMatch(cs, bins, dv, dvsize)
    requires forall a :: a in bins' ==> a in bins && bins'[a] == bins[a] && a < q
    requires forall a :: a in bins && a < q ==> a in bins'
    requires if dvsize != 0 && q <= dv then dv' == NULL && dvsize' == 0 else dv' == dv && dvsize' == dvsize
    ensures FreeMatch(Below(cs, q), bins', dv', dvsize')
  {
  }

  lemma BelowLive(cs: ChunkMap, q: nat, p: nat)
    requires p in cs && q <= p && cs[p].used && forall a :: a in cs && q <= a && a != p ==> !cs[a].used
    ensures Live(Below(cs, q)) == Live(cs) - {p}
  {
  }

  lemma NothingKept(h: HeapState, m: LinkMap, bins: map<nat, nat>)
    ensures TagsKept(h, h) && LinkKept(m, m, bins, bins)
  {
  }

  /** Tag and link words written only at boundaries and in bins miss every
      payload that stays in use. */
  lemma PayloadsMissed(h: HeapState, m: LinkMap, bins: map<nat, nat>, dv: nat, dvsize: nat,
      h': HeapState, m': LinkMap, bins': map<nat, nat>, dv': nat, dvsize': nat)
    requires HeapOk(h) && FreeMatch(h.chunks, bins, dv, dvsize)
    requires HeapOk(h') && FreeMatch(h'.chunks, bins', dv', dvsize')
    requires TagsKept(h, h') && LinkKept(m, m', bins, bins')
    requires forall a :: a in Live(h.chunks) && a in Live(h'.chunks) ==> Live(h'.chunks)[a] == Live(h.chunks)[a]
    ensures PayloadsKept(h, m, h', m')
  {
    hide HeapOk, FreeMatch, Boundary;
    forall a | a in Live(h.chunks) && a in Live(h'.chunks) ensures ChunkKept(h, m, h', m', a) {
      var z := Live(h.chunks)[a];
      assert Live(h'.chunks)[a] == z;
      ChunkFits(h, a);
      ChunkFits(h', a);
      forall x | a <= x < a + z
        ensures SameWord(m, m', x) && (x != a ==> SameWord(h.head, h'.head, x) && SameWord(h.foot, h'.foot, x))
      {
        InsideUsed(h, bins, dv, dvsize, a, x);
        InsideUsed(h', bins', dv', dvsize', a, x);
      }
    }
  }

  // ----- what the tiling means for callers -----

  /** Payload of a chunk in use: behind its two tag words, up to the next
      chunk, whose first word is the footer. */
  predicate InPayload(cs: ChunkMap, a: nat, x: nat)
    requires a in cs
  {
    a + CHUNK_OVERHEAD <= x < a + cs[a].size
  }

  /** Payloads of different chunks share no address, and lie in the segment. */
  lemma PayloadsApart(h: HeapState, a: nat, b: nat, x: nat)
    requires HeapOk(h) && a in h.chunks && b in h.chunks && a != b && InPayload(h.chunks, a, x)
    ensures !InPayload(h.chunks, b, x) && h.first <= x < h.top
  {
    assert Disjoint(h.chunks, a, b) && InPlace(h.chunks, h.first, h.top, a);
  }

  /** Bytes held by chunks from address `a` on. */
  function BytesFrom(cs: ChunkMap, first: nat, top: nat, a: nat): nat
    requires a <= top
    decreases top - a
  {
    if a in cs && 0 < cs[a].size && a + cs[a].size <= top then
      cs[a].size + BytesFrom(cs, first, top, a + cs[a].size)
    else 0
  }

  /** Conservation: chunk sizes and top add up to the segment. */
  lemma {:induction false} BytesConserved(cs: ChunkMap, first: nat, top: nat, a: nat)
    requires Tiled(cs, first, top) && (a in cs || a == top) && a <= top
    ensures BytesFrom(cs, first, top, a) == top - a
    decreases top - a
  {
    if a in cs {
      assert InPlace(cs, first, top, a);
      BytesConserved(cs, first, top, a + cs[a].size);
    }
  }

  lemma HeadsOfBins(h: HeapState, bins: map<nat, nat>, dv: nat, dvsize: nat)
    requires HeapOk(h) && FreeMatch(h.chunks, bins, dv, dvsize)
    ensures forall a :: a in bins ==> a in h.head && h.head[a].size == bins[a]
  {
    forall a | a in bins ensures a in h.head && h.head[a].size == bins[a] { assert TagOk(h, a); }
  }

  lemma TopNotBinned(h: HeapState, bins: map<nat, nat>, dv: nat, dvsize: nat)
    requires HeapOk(h) && FreeMatch(h.chunks, bins, dv, dvsize)
    ensures h.top !in bins
  {
    TopNotChunk(h.chunks, h.first, h.top);
  }

  lemma SizesAligned(h: HeapState, bins: map<nat, nat>, dv: nat, dvsize: nat)
    requires HeapOk(h) && FreeMatch(h.chunks, bins, dv, dvsize)
    ensures forall a :: a in bins ==> bins[a] % 16 == 0
  {
    hide Tiled, Tagged;
  }

  lemma DvSmallerThanWord(h: HeapState, bins: map<nat, nat>, dv: nat, dvsize: nat)
    requires HeapOk(h) && FreeMatch(h.chunks, bins, dv, dvsize)
    ensures dvsize < INDEX_LIMIT && h.topsize < INDEX_LIMIT
  {
    if dvsize != 0 { ChunkFits(h, dv); }
  }

  /** Binned chunks other than the one being served keep their head words. */
  lemma KeepHeads(cs: ChunkMap, bins: map<nat, nat>, dv: nat, dvsize: nat, h': HeapState, v: nat, r: nat)
    requires FreeMatch(cs, bins, dv, dvsize) && HeapOk(h') && v in bins && r !in cs && r in h'.chunks
    requires FreeMatch(h'.chunks, (bins - {v})[r := h'.chunks[r].size], dv, dvsize)
    ensures forall a :: a in bins && a != v ==> a in h'.head && h'.head[a].size == bins[a]
    ensures r >= FIRST_CHUNK && r !in bins && h'.chunks[r].size % 16 == 0
      && MIN_CHUNK <= h'.chunks[r].size < INDEX_LIMIT
  {
    HeadsOfBins(h', (bins - {v})[r := h'.chunks[r].size], dv, dvsize);
    ChunkFits(h', r);
  }

  lemma TopBounds(h: HeapState)
    requires HeapOk(h)
    ensures FIRST_CHUNK <= h.top && h.top !in h.chunks
  {
    TopNotChunk(h.chunks, h.first, h.top);
  }

  lemma TopUsed(h: HeapState, nb: nat)
    requires h.top !in h.chunks && nb <= h.topsize
    ensures var h' := UsedTop(h, nb);
      && h'.chunks == h.chunks[h.top := Chunk(nb, true)] && h'.first == h.first
      && h'.top == h.top + nb && h'.topsize == h.topsize - nb
      && h'.head == h.head[h.top + nb := Head(h.topsize - nb, false, true)][h.top := Head(nb, true, true)]
      && h'.foot == h.foot[h.top + nb := OwnerFoot]
    ensures h.top !in Live(h.chunks)
  {
  }

  lemma MatchFree(cs: ChunkMap, bins: map<nat, nat>, dv: nat, dvsize: nat, q: nat)
    requires FreeMatch(cs, bins, dv, dvsize) && q in cs && !cs[q].used && q != NULL
    ensures q != dv ==> q in bins && bins[q] == cs[q].size
    ensures q == dv ==> dvsize != 0 && cs[q].size == dvsize && q !in bins
  {
  }

  /** [q, e) is a block being freed: it starts at a chunk and `p` is the only
      chunk in use inside. */
  ghost predicate Block(cs: ChunkMap, q: nat, p: nat, e: nat) {
    && q in cs && 0 < q <= p < e && p in cs && cs[p].used
    && (forall a :: a in cs && q <= a < e && a != p ==> !cs[a].used)
  }

  /** `bins'` is `bins` without what lies in [q, e). */
  ghost predicate LeftOut(bins: map<nat, nat>, bins': map<nat, nat>, q: nat, e: nat) {
    && (forall a :: a in bins' ==> a in bins && bins'[a] == bins[a] && !(q <= a < e))
    && (forall a :: a in bins && !(q <= a < e) ==> a in bins')
  }

  lemma BlockLive(cs: ChunkMap, q: nat, p: nat, e: nat)
    requires Block(cs, q, p, e)
    ensures Live(Fused(cs, q, e)) == Live(cs) - {p}
  {
    FusedLive(cs, q, e, p);
  }

  lemma BlockSize(h: HeapState, q: nat, p: nat, e: nat)
    requires HeapOk(h) && Block(h.chunks, q, p, e) && e in h.chunks
    ensures FIRST_CHUNK <= q < e && (e - q) % 16 == 0 && MIN_CHUNK <= e - q < INDEX_LIMIT && e in h.head
  {
    ChunkFits(h, q);
    ChunkFits(h, e);
    assert Disjoint(h.chunks, q, e);
  }

  /** The chunk `p` with what was consolidated before it. */
  lemma BackBlock(h: HeapState, bins: map<nat, nat>, dv: nat, dvsize: nat, q: nat, p: nat, bins': map<nat, nat>)
    requires HeapOk(h) && FreeMatch(h.chunks, bins, dv, dvsize) && p in h.chunks && h.chunks[p].used && q in h.chunks
      && 0 < q
    requires q == p || (q < p && !h.chunks[q].used && q + h.chunks[q].size == p)
    requires bins' == if q == p || (dvsize != 0 && q == dv) then bins else bins - {q}
    ensures var e := p + h.chunks[p].size;
      Block(h.chunks, q, p, e) && LeftOut(bins, bins', q, e) && (dvsize != 0 && q <= dv < e ==> dv == q)
  {
    hide Aligned, TagOk;
    var e := p + h.chunks[p].size;
    ChunkFits(h, p);
    ChunkFits(h, q);
    forall a | a in h.chunks && q <= a < e ensures a == q || a == p {
      assert Disjoint(h.chunks, a, q) && Disjoint(h.chunks, a, p) && InPlace(h.chunks, h.first, h.top, a);
    }
  }

  /** The block grown by the free chunk after it. */
  lemma ForwardBlock(h: HeapState, bins: map<nat, nat>, dv: nat, dvsize: nat, q: nat, p: nat, next: nat,
      bins': map<nat, nat>)
    requires HeapOk(h) && FreeMatch(h.chunks, bins, dv, dvsize) && Block(h.chunks, q, p, next)
    requires next in h.chunks && !h.chunks[next].used
    requires LeftOut(bins, bins', q, next) && (dvsize != 0 && q <= dv < next ==> dv == q)
    ensures dvsize == 0 || next != dv ==> next in bins' && bins'[next] == h.chunks[next].size
    ensures var e := next + h.chunks[next].size;
      && Block(h.chunks, q, p, e)
      && (if dvsize != 0 && next == dv then LeftOut(bins, bins', q, e)
          else LeftOut(bins, bins' - {next}, q, e) && (dvsize != 0 && q <= dv < e ==> dv == q))
  {
    hide Aligned, TagOk;
    var e := next + h.chunks[next].size;
    forall a | a in h.chunks && next <= a < e ensures a == next {
      assert Disjoint(h.chunks, a, next) && InPlace(h.chunks, h.first, h.top, a);
    }
    assert forall a :: a in h.chunks && q <= a < e ==> q <= a < next || a == next;
    assert next < e by { ChunkFits(h, next); }
    forall a | a in bins' && a != next ensures !(q <= a < e) { assert a in bins && a in h.chunks; }
  }

  /** Below top, the block is everything from `q` on. */
  lemma BlockTop(h: HeapState, bins: map<nat, nat>, dv: nat, dvsize: nat, q: nat, p: nat)
    requires HeapOk(h) && FreeMatch(h.chunks, bins, dv, dvsize) && Block(h.chunks, q, p, h.top)
    ensures Live(Below(h.chunks, q)) == Live(h.chunks) - {p}
    ensures forall a :: a in bins ==> a < h.top
    ensures dvsize != 0 ==> dv < h.top
  {
    hide Aligned, TagOk;
    forall a | a in h.chunks ensures a < h.top { assert InPlace(h.chunks, h.first, h.top, a); }
    BelowLive(h.chunks, q, p);
  }

  /** The designated victim grows backward over the block. */
  lemma FusedDv(cs: ChunkMap, bins: map<nat, nat>, dv: nat, dvsize: nat, q: nat, p: nat, e: nat, bins': map<nat, nat>)
    requires FreeMatch(cs, bins, dv, dvsize) && Block(cs, q, p, e) && LeftOut(bins, bins', q, e)
    requires dvsize != 0 && q <= dv < e
    ensures FreeMatch(Fused(cs, q, e), bins', q, e - q)
  {
    FusedMatch(cs, bins, dv, dvsize, q, e, bins', q, e - q);
  }

  /** The block in its bin, or as the designated victim. */
  lemma SettledMatch(cs: ChunkMap, bins: map<nat, nat>, dv: nat, dvsize: nat, q: nat, e: nat, rest: map<nat, nat>,
      bins': map<nat, nat>, dv': nat, dvsize': nat)
    requires FreeMatch(cs, bins, dv, dvsize) && q in cs && q < e && 0 < q && LeftOut(bins, rest, q, e)
    requires if dvsize != 0 && q <= dv < e then dv' == q && dvsize' == e - q && bins' == rest
             else dv' == dv && dvsize' == dvsize && bins' == rest[q := e - q]
    ensures FreeMatch(Fused(cs, q, e), bins', dv', dvsize')
  {
    hide Fused;
    FusedMatch(cs, bins, dv, dvsize, q, e, bins', dv', dvsize');
  }

  lemma FreedTopIs(h: HeapState, q: nat)
    requires q <= h.top
    ensures var h' := FreedTop(h, q); var t := h.top + h.topsize - q;
      && h'.chunks == Below(h.chunks, q) && h'.head == h.head[q := Head(t, false, true)]
      && h'.foot == h.foot && h'.first == h.first && h'.top == q && h'.topsize == t
  {
  }

  /** The fused chunk is not binned yet, and binned chunks keep their heads. */
  lemma FreshFree(h: HeapState, bins: map<nat, nat>, dv: nat, dvsize: nat, q: nat, e: nat, p: nat, bins': map<nat, nat>)
    requires HeapOk(h) && FreeMatch(h.chunks, bins, dv, dvsize) && Block(h.chunks, q, p, e) && e in h.head
    requires LeftOut(bins, bins', q, e)
    ensures q !in bins' && q >= FIRST_CHUNK
    ensures var head' := h.head[e := h.head[e].(pinuse := false)][q := Head(e - q, false, true)];
      forall a :: a in bins' ==> a in head' && head'[a].size == bins'[a]
  {
    HeadsOfBins(h, bins, dv, dvsize);
    ChunkFits(h, q);
  }
}

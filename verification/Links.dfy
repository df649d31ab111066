/** The link words of free chunks (`fd`, `bk`, `child`, `parent`, `index`) as
    explicit memory, and what they mean: circular rings and linked tries. */
module Links {
  import opened Tries

  const NULL: nat := 0
  /** Bin headers live inside the `malloc_state`, below every chunk. */
  const FIRST_CHUNK: nat := 1024

  /** The word at `x` is the same in both memories. */
  ghost predicate SameWord<T>(m: map<nat, T>, m': map<nat, T>, x: nat) {
    (x in m <==> x in m') && (x in m ==> m'[x] == m[x])
  }

  function SmallHdr(i: nat): nat { 16 + 16 * i }

  function TreeHdr(i: nat): nat { 544 + 8 * i }

  datatype Link = Link(fd: nat, bk: nat, c0: nat, c1: nat, up: nat, index: nat)

  type LinkMap = map<nat, Link>

  /** The link words a change of the bins may write: headers, and chunks that are
      binned before or after. */
  ghost predicate LinkKept(m: LinkMap, m': LinkMap, bins: map<nat, nat>, bins': map<nat, nat>) {
    forall x :: x >= FIRST_CHUNK && x !in bins && x !in bins' ==> SameWord(m, m', x)
  }

  lemma LinkKeptJoin(m0: LinkMap, m1: LinkMap, m2: LinkMap, b0: map<nat, nat>, b1: map<nat, nat>, b2: map<nat, nat>)
    requires LinkKept(m0, m1, b0, b1) && LinkKept(m1, m2, b1, b2)
    requires forall x :: x in b1 ==> x in b0 || x in b2
    ensures LinkKept(m0, m2, b0, b2)
  {
    forall x | x >= FIRST_CHUNK && x !in b0 && x !in b2 ensures SameWord(m0, m2, x) {
      assert SameWord(m0, m1, x) && SameWord(m1, m2, x);
    }
  }

  // ----- rings -----

  /** Position `k` follows position `j` in a circle of `n`. */
  predicate Next(n: nat, j: int, k: int) {
    0 <= j < n && 0 <= k < n && k == if j + 1 == n then 0 else j + 1
  }

  /** `ring` is the circular doubly linked list read along `fd`. */
  ghost predicate Ring(m: LinkMap, ring: seq<nat>) {
    && (forall k :: 0 <= k < |ring| ==> ring[k] in m)
    && (forall j, k {:trigger Next(|ring|, j, k)} :: Next(|ring|, j, k) ==>
         m[ring[j]].fd == ring[k] && m[ring[k]].bk == ring[j])
  }

  function WithFd(m: LinkMap, a: nat, p: nat): LinkMap
    requires a in m
  {
    m[a := m[a].(fd := p)]
  }

  function WithBk(m: LinkMap, a: nat, p: nat): LinkMap
    requires a in m
  {
    m[a := m[a].(bk := p)]
  }

  /** Links agree except in `fd` and `bk`. */
  predicate SameTree(l: Link, l': Link) { l' == l.(fd := l'.fd, bk := l'.bk) }

  /** The stores that link `x` between `t` and `f`, the node after it. */
  function Inserted(m: LinkMap, x: nat, t: nat, f: nat): LinkMap
    requires x in m && t in m && f in m
  {
    WithFd(WithBk(m[x := m[x].(fd := f, bk := t)], f, x), t, x)
  }

  lemma InsertedAt(m: LinkMap, x: nat, t: nat, f: nat, b: nat)
    requires x in m && t in m && f in m && x != t && x != f
    ensures var m' := Inserted(m, x, t, f);
      && m'.Keys == m.Keys
      && (b in m ==> m'[b] == m[b].(fd := if b == x then f else if b == t then x else m[b].fd,
                                    bk := if b == x then t else if b == f then x else m[b].bk))
  {
  }

  /** The front of a bin: `x` goes right after the ring's first element; a
      one-element ring may carry stale links. */
  lemma RingInsert(m: LinkMap, ring: seq<nat>, x: nat, f: nat)
    requires ring != [] && Distinct(ring) && x !in ring && x in m
    requires ring[0] in m && (|ring| > 1 ==> Ring(m, ring))
    requires f == if |ring| == 1 then ring[0] else ring[1]
    ensures f in m
    ensures Ring(Inserted(m, x, ring[0], f), [ring[0], x] + ring[1..]) && Distinct([ring[0], x] + ring[1..])
  {
    var n, r', m' := |ring|, [ring[0], x] + ring[1..], Inserted(m, x, ring[0], f);
    forall j, k | Next(n + 1, j, k) ensures m'[r'[j]].fd == r'[k] && m'[r'[k]].bk == r'[j] {
      InsertedAt(m, x, ring[0], f, r'[j]);
      InsertedAt(m, x, ring[0], f, r'[k]);
      if j >= 2 { assert Next(n, j - 1, if k == 0 then 0 else k - 1); }
    }
  }

  /** The stores that unlink `x` from its neighbours. */
  function Unlinked(m: LinkMap, x: nat): LinkMap
    requires x in m && m[x].fd in m && m[x].bk in m
  {
    WithFd(WithBk(m, m[x].fd, m[x].bk), m[x].bk, m[x].fd)
  }

  lemma UnlinkedAt(m: LinkMap, x: nat, b: nat)
    requires x in m && m[x].fd in m && m[x].bk in m && b in m
    ensures Unlinked(m, x).Keys == m.Keys
    ensures Unlinked(m, x)[b] == m[b].(fd := if b == m[x].bk then m[x].fd else m[b].fd,
                                       bk := if b == m[x].fd then m[x].bk else m[b].bk)
  {
  }

  lemma RingNeighbours(m: LinkMap, ring: seq<nat>, k: nat)
    requires Ring(m, ring) && Distinct(ring) && k < |ring|
    ensures m[ring[k]].fd == ring[if k + 1 == |ring| then 0 else k + 1]
    ensures m[ring[k]].bk == ring[if k == 0 then |ring| - 1 else k - 1]
  {
    assert Next(|ring|, k, if k + 1 == |ring| then 0 else k + 1);
    assert Next(|ring|, if k == 0 then |ring| - 1 else k - 1, k);
  }

  function Without(ring: seq<nat>, k: nat): (r: seq<nat>)
    requires k < |ring|
    ensures |r| == |ring| - 1
    ensures forall j :: 0 <= j < |r| ==> r[j] == if j < k then ring[j] else ring[j + 1]
  {
    ring[..k] + ring[k + 1..]
  }

  lemma WithoutMembers(ring: seq<nat>, k: nat, a: nat)
    requires k < |ring| && Distinct(ring)
    ensures Distinct(Without(ring, k))
    ensures a in Without(ring, k) <==> a in ring && a != ring[k]
  {
    var r := Without(ring, k);
    if a in ring && a != ring[k] {
      var j :| 0 <= j < |ring| && ring[j] == a;
      assert r[if j < k then j else j - 1] == a;
    }
  }

  lemma RingRemove(m: LinkMap, ring: seq<nat>, k: nat)
    requires Ring(m, ring) && Distinct(ring) && k < |ring| && |ring| > 1
    ensures m[ring[k]].fd in m && m[ring[k]].bk in m
    ensures Ring(Unlinked(m, ring[k]), Without(ring, k))
  {
    RingNeighbours(m, ring, k);
    var n, r', m' := |ring|, Without(ring, k), Unlinked(m, ring[k]);
    UnlinkedAt(m, ring[k], ring[k]);
    forall i, j | Next(n - 1, i, j) ensures m'[r'[i]].fd == r'[j] && m'[r'[j]].bk == r'[i] {
      var i', j' := if i < k then i else i + 1, if j < k then j else j + 1;
      assert r'[i] == ring[i'] && r'[j] == ring[j'];
      UnlinkedAt(m, ring[k], ring[i']);
      UnlinkedAt(m, ring[k], ring[j']);
      RingNeighbours(m, ring, i');
      RingNeighbours(m, ring, j');
    }
  }

  lemma RingRotate(m: LinkMap, ring: seq<nat>)
    requires Ring(m, ring) && Distinct(ring) && ring != []
    ensures var r' := [ring[|ring| - 1]] + ring[..|ring| - 1]; Ring(m, r') && Distinct(r')
  {
    var n := |ring|;
    var r' := [ring[n - 1]] + ring[..n - 1];
    forall i, j | Next(n, i, j) ensures m[r'[i]].fd == r'[j] && m[r'[j]].bk == r'[i] {
      assert Next(n, if i == 0 then n - 1 else i - 1, if j == 0 then n - 1 else j - 1);
    }
  }

  lemma RingFrame(m: LinkMap, m': LinkMap, ring: seq<nat>)
    requires Ring(m, ring)
    requires forall a :: a in ring && a in m ==> a in m' && m'[a].fd == m[a].fd && m'[a].bk == m[a].bk
    ensures Ring(m', ring)
  {
  }

  // ----- linked tries -----

  function Root(t: Trie): nat { if t.Nil? || t.ring == [] then NULL else t.ring[0] }

  /** The ring of one trie node: only its first chunk, the one in the tree,
      has a parent and children. */
  ghost predicate NodeLinked(m: LinkMap, ring: seq<nat>, up: nat, c0: nat, c1: nat, i: nat) {
    && ring != [] && Ring(m, ring)
    && (forall k :: 0 <= k < |ring| ==> ring[k] in m && ring[k] >= FIRST_CHUNK && m[ring[k]].index == i)
    && (forall k :: 1 <= k < |ring| ==> m[ring[k]].up == NULL && m[ring[k]].c0 == NULL && m[ring[k]].c1 == NULL)
    && m[ring[0]].up == up && m[ring[0]].c0 == c0 && m[ring[0]].c1 == c1
  }

  /** The link words spell out the trie `t` of bin `i`, hung below `up`. */
  ghost predicate Linked(m: LinkMap, t: Trie, up: nat, i: nat) {
    t.Nil? ||
    (&& NodeLinked(m, t.ring, up, Root(t.l), Root(t.r), i)
     && Linked(m, t.l, t.ring[0], i) && Linked(m, t.r, t.ring[0], i))
  }

  lemma NodeFrame(m: LinkMap, m': LinkMap, ring: seq<nat>, up: nat, c0: nat, c1: nat, i: nat)
    requires NodeLinked(m, ring, up, c0, c1, i)
    requires forall a :: a in Members(ring) && a in m ==> a in m' && m'[a] == m[a]
    ensures NodeLinked(m', ring, up, c0, c1, i)
  {
    assert forall k :: 0 <= k < |ring| ==> ring[k] in Members(ring);
    RingFrame(m, m', ring);
  }

  lemma {:induction false} LinkedFrame(m: LinkMap, m': LinkMap, t: Trie, up: nat, i: nat)
    requires Linked(m, t, up, i)
    requires forall a :: a in Addrs(t) && a in m ==> a in m' && m'[a] == m[a]
    ensures Linked(m', t, up, i)
  {
    if t.Node? {
      NodeFrame(m, m', t.ring, up, Root(t.l), Root(t.r), i);
      LinkedFrame(m, m', t.l, t.ring[0], i);
      LinkedFrame(m, m', t.r, t.ring[0], i);
    }
  }

  lemma {:induction false} LinkedAddr(m: LinkMap, t: Trie, up: nat, i: nat, a: nat)
    requires Linked(m, t, up, i) && a in Addrs(t)
    ensures a in m && a >= FIRST_CHUNK && m[a].index == i
  {
    if a in t.ring {
      var k :| 0 <= k < |t.ring| && t.ring[k] == a;
    } else if a in Addrs(t.l) {
      LinkedAddr(m, t.l, t.ring[0], i, a);
    } else {
      LinkedAddr(m, t.r, t.ring[0], i, a);
    }
  }

  /** What the chunk in the tree hangs below. */
  function UpAt(t: Trie, a: nat, up: nat): nat
    requires a in Addrs(t)
  {
    if a in t.ring then up
    else if a in Addrs(t.l) then UpAt(t.l, a, Root(t))
    else UpAt(t.r, a, Root(t))
  }

  lemma {:induction false} SubAtLinked(m: LinkMap, t: Trie, a: nat, up: nat, i: nat)
    requires Linked(m, t, up, i) && a in Addrs(t)
    ensures Linked(m, SubAt(t, a), UpAt(t, a, up), i)
    ensures UpAt(t, a, up) == up || UpAt(t, a, up) in Addrs(t)
  {
    if a !in t.ring {
      assert t.ring[0] in Addrs(t);
      SubAtLinked(m, if a in Addrs(t.l) then t.l else t.r, a, t.ring[0], i);
    }
  }

  /** The parent's child slot that held the old subtree root gets the new one. */
  function Relink(l: Link, old': nat, new': nat): Link {
    if old' == new' then l else if l.c0 == old' then l.(c0 := new') else l.(c1 := new')
  }

  /** The parent slot is rewritten and everything outside the subtree is kept. */
  ghost predicate Outside(m: LinkMap, m': LinkMap, t: Trie, a: nat, s: Trie, up: nat)
    requires a in Addrs(t)
  {
    forall b :: b in Addrs(t) && b !in Addrs(SubAt(t, a)) && b in m ==>
      b in m' && m'[b] == if b == UpAt(t, a, up) then Relink(m[b], Root(SubAt(t, a)), Root(s)) else m[b]
  }

  lemma UpInside(m: LinkMap, c: Trie, a: nat, up: nat, i: nat)
    requires Linked(m, c, up, i) && a in Addrs(c) && a !in c.ring && up !in Addrs(c)
    ensures UpAt(c, a, up) != up
  {
    var d := if a in Addrs(c.l) then c.l else c.r;
    SubAtLinked(m, d, a, c.ring[0], i);
    assert c.ring[0] in Members(c.ring);
  }

  /** Away from the parent slot a node of the path keeps its links. */
  lemma GraftHead(m: LinkMap, m': LinkMap, t: Trie, c: Trie, a: nat, s: Trie, up: nat, i: nat, k: nat)
    requires Linked(m, t, up, i) && Apart(t) && a in Addrs(t) && a !in t.ring && k < |t.ring|
    requires c == if a in Addrs(t.l) then t.l else t.r
    requires Outside(m, m', t, a, s, up)
    ensures t.ring[k] in m' && m'[t.ring[k]] ==
      if k == 0 && a in c.ring then Relink(m[t.ring[0]], Root(c), Root(s)) else m[t.ring[k]]
  {
    SubAtAddrs(c, a);
    SubAtLinked(m, c, a, t.ring[0], i);
    assert t.ring[k] in Members(t.ring) && t.ring[0] in Members(t.ring);
    if a !in c.ring { UpInside(m, c, a, t.ring[0], i); }
  }

  lemma GraftRing(m: LinkMap, m': LinkMap, t: Trie, c: Trie, a: nat, s: Trie, up: nat, i: nat)
    requires Linked(m, t, up, i) && Apart(t) && a in Addrs(t) && a !in t.ring
    requires c == if a in Addrs(t.l) then t.l else t.r
    requires Outside(m, m', t, a, s, up)
    ensures Ring(m', t.ring)
    ensures forall k :: 0 <= k < |t.ring| ==> (t.ring[k] in m' && m'[t.ring[k]] ==
      if k == 0 && a in c.ring then Relink(m[t.ring[0]], Root(c), Root(s)) else m[t.ring[k]])
  {
    forall k | 0 <= k < |t.ring| ensures t.ring[k] in m' && m'[t.ring[k]] ==
      if k == 0 && a in c.ring then Relink(m[t.ring[0]], Root(c), Root(s)) else m[t.ring[k]]
    {
      GraftHead(m, m', t, c, a, s, up, i, k);
    }
    RingFrame(m, m', t.ring);
  }

  lemma GraftSibling(m: LinkMap, m': LinkMap, t: Trie, c: Trie, o: Trie, a: nat, s: Trie, up: nat, i: nat)
    requires Linked(m, t, up, i) && Apart(t) && a in Addrs(t) && a !in t.ring
    requires (c, o) == if a in Addrs(t.l) then (t.l, t.r) else (t.r, t.l)
    requires Outside(m, m', t, a, s, up)
    ensures Linked(m', o, t.ring[0], i)
  {
    var h := t.ring[0];
    assert h in Members(t.ring);
    SubAtAddrs(c, a);
    SubAtLinked(m, c, a, h, i);
    forall b | b in Addrs(o) && b in m ensures b in m' && m'[b] == m[b] {
      assert b in Addrs(t) && b !in Addrs(c);
    }
    LinkedFrame(m, m', o, h, i);
  }

  lemma GraftChild(m: LinkMap, m': LinkMap, t: Trie, c: Trie, a: nat, s: Trie, up: nat)
    requires a in Addrs(t) && a !in t.ring && t.ring != []
    requires c == if a in Addrs(t.l) then t.l else t.r
    requires Outside(m, m', t, a, s, up)
    ensures Outside(m, m', c, a, s, t.ring[0])
  {
    forall b | b in Addrs(c) && b !in Addrs(SubAt(c, a)) && b in m
      ensures b in m' && m'[b] == if b == UpAt(c, a, t.ring[0]) then Relink(m[b], Root(SubAt(c, a)), Root(s)) else m[b]
    {
      assert b in Addrs(t);
    }
  }

  lemma GraftNode(m: LinkMap, m': LinkMap, t: Trie, c: Trie, c': Trie, a: nat, s: Trie, up: nat, i: nat)
    requires Linked(m, t, up, i) && Apart(t) && a in Addrs(t) && a !in t.ring
    requires c == if a in Addrs(t.l) then t.l else t.r
    requires Root(c') == if a in c.ring then Root(s) else Root(c)
    requires Outside(m, m', t, a, s, up)
    ensures NodeLinked(m', t.ring, up, if a in Addrs(t.l) then Root(c') else Root(t.l),
      if a in Addrs(t.l) then Root(t.r) else Root(c'), i)
  {
    GraftRing(m, m', t, c, a, s, up, i);
    if t.l.Node? { RootIn(m, t.l, t.ring[0], i); }
    RootIn(m, c, t.ring[0], i);
  }

  /** Replacing a located subtree in memory replaces it in the trie. */
  lemma {:induction false} GraftLinked(m: LinkMap, m': LinkMap, t: Trie, a: nat, s: Trie, up: nat, i: nat)
    requires Linked(m, t, up, i) && Apart(t) && a in Addrs(t)
    requires Linked(m', s, UpAt(t, a, up), i)
    requires Outside(m, m', t, a, s, up)
    ensures Linked(m', Graft(t, a, s), up, i)
    ensures Root(Graft(t, a, s)) == if a in t.ring then Root(s) else Root(t)
  {
    if a !in t.ring {
      if a in Addrs(t.l) {
        GraftSibling(m, m', t, t.l, t.r, a, s, up, i);
        GraftChild(m, m', t, t.l, a, s, up);
        GraftLinked(m, m', t.l, a, s, t.ring[0], i);
        GraftNode(m, m', t, t.l, Graft(t.l, a, s), a, s, up, i);
      } else {
        GraftSibling(m, m', t, t.r, t.l, a, s, up, i);
        GraftChild(m, m', t, t.r, a, s, up);
        GraftLinked(m, m', t.r, a, s, t.ring[0], i);
        GraftNode(m, m', t, t.r, Graft(t.r, a, s), a, s, up, i);
      }
    }
  }

  lemma RootIn(m: LinkMap, t: Trie, up: nat, i: nat)
    requires Linked(m, t, up, i) && t.Node?
    ensures t.ring != [] && Root(t) == t.ring[0] && Root(t) in Addrs(t) && Root(t) in m
  {
    assert t.ring[0] in Members(t.ring);
  }
}

/** The bitwise tries that hold large free chunks, as values: one node per
    distinct size, a ring of same-sized chunks at each node. */
module Tries {
  import opened Sizes

  /** `ring[0]` is the chunk that sits in the tree. */
  datatype Trie = Nil | Node(ring: seq<nat>, size: nat, l: Trie, r: Trie)

  function Members(ring: seq<nat>): set<nat> { set a | a in ring }

  predicate Distinct(ring: seq<nat>) {
    forall i, j :: 0 <= i < j < |ring| ==> ring[i] != ring[j]
  }

  function Addrs(t: Trie): set<nat> {
    if t.Nil? then {} else Members(t.ring) + Addrs(t.l) + Addrs(t.r)
  }

  function SizeSet(t: Trie): set<nat> {
    if t.Nil? then {} else {t.size} + SizeSet(t.l) + SizeSet(t.r)
  }

  /** Every chunk of the trie has the size of its node. */
  predicate Fits(t: Trie, sizes: map<nat, nat>) {
    t.Nil? ||
    (&& (forall a :: a in t.ring ==> a in sizes && sizes[a] == t.size)
     && Fits(t.l, sizes) && Fits(t.r, sizes))
  }

  /** No chunk occurs twice. */
  predicate Apart(t: Trie) {
    t.Nil? ||
    (&& t.ring != [] && Distinct(t.ring)
     && Members(t.ring) !! Addrs(t.l) && Members(t.ring) !! Addrs(t.r) && Addrs(t.l) !! Addrs(t.r)
     && Apart(t.l) && Apart(t.r))
  }

  /** The trie rule for the size interval [lo, lo + 2^k): the left subtree
      takes the lower half, the right subtree the upper half, and no size has
      two nodes. */
  predicate Spans(t: Trie, lo: nat, k: nat) {
    t.Nil? ||
    (&& lo <= t.size < lo + Pow2(k)
     && t.size !in SizeSet(t.l) && t.size !in SizeSet(t.r)
     && if k == 0 then t.l.Nil? && t.r.Nil?
        else Spans(t.l, lo, k - 1) && Spans(t.r, lo + Pow2(k - 1), k - 1))
  }

  lemma {:induction false} SizesInInterval(t: Trie, lo: nat, k: nat, s: nat)
    requires Spans(t, lo, k) && s in SizeSet(t)
    ensures lo <= s < lo + Pow2(k)
  {
    if s != t.size {
      if s in SizeSet(t.l) {
        SizesInInterval(t.l, lo, k - 1, s);
      } else {
        SizesInInterval(t.r, lo + Pow2(k - 1), k - 1, s);
      }
    }
  }

  /** Every size of the left subtree is below every size of the right one. */
  lemma LeftBelowRight(t: Trie, lo: nat, k: nat, s: nat, s': nat)
    requires Spans(t, lo, k) && t.Node? && s in SizeSet(t.l) && s' in SizeSet(t.r)
    ensures s < s'
  {
    SizesInInterval(t.l, lo, k - 1, s);
    SizesInInterval(t.r, lo + Pow2(k - 1), k - 1, s');
  }

  lemma {:induction false} FitsSize(t: Trie, sizes: map<nat, nat>, a: nat)
    requires Fits(t, sizes) && a in Addrs(t)
    ensures a in sizes && sizes[a] in SizeSet(t)
  {
    if a !in t.ring {
      if a in Addrs(t.l) {
        FitsSize(t.l, sizes, a);
      } else {
        FitsSize(t.r, sizes, a);
      }
    }
  }

  /** A size in the trie is the size of some chunk of it. */
  lemma {:induction false} SizeHasChunk(t: Trie, sizes: map<nat, nat>, s: nat) returns (a: nat)
    requires Fits(t, sizes) && Apart(t) && s in SizeSet(t)
    ensures a in Addrs(t) && a in sizes && sizes[a] == s
  {
    if s == t.size {
      a := t.ring[0];
    } else if s in SizeSet(t.l) {
      a := SizeHasChunk(t.l, sizes, s);
    } else {
      a := SizeHasChunk(t.r, sizes, s);
    }
  }

  lemma {:induction false} FitsFrame(t: Trie, sizes: map<nat, nat>, sizes': map<nat, nat>)
    requires Fits(t, sizes)
    requires forall a :: a in Addrs(t) && a in sizes ==> a in sizes' && sizes'[a] == sizes[a]
    ensures Fits(t, sizes')
  {
    if t.Node? {
      forall a | a in t.ring ensures a in sizes' && sizes'[a] == t.size {
        assert a in Addrs(t);
      }
      FitsFrame(t.l, sizes, sizes');
      FitsFrame(t.r, sizes, sizes');
    }
  }

  // ----- locating and replacing the subtree whose node holds a chunk -----

  function SubAt(t: Trie, a: nat): (s: Trie)
    requires a in Addrs(t)
    ensures s.Node? && a in s.ring
  {
    if a in t.ring then t
    else if a in Addrs(t.l) then SubAt(t.l, a)
    else SubAt(t.r, a)
  }

  function Graft(t: Trie, a: nat, s: Trie): Trie
    requires a in Addrs(t)
  {
    if a in t.ring then s
    else if a in Addrs(t.l) then t.(l := Graft(t.l, a, s))
    else t.(r := Graft(t.r, a, s))
  }

  /** The size interval [LoAt, LoAt + 2^KAt) of that subtree. */
  function KAt(t: Trie, a: nat, k: nat): nat
    requires a in Addrs(t)
  {
    if a in t.ring || k == 0 then k
    else KAt(if a in Addrs(t.l) then t.l else t.r, a, k - 1)
  }

  function LoAt(t: Trie, a: nat, lo: nat, k: nat): nat
    requires a in Addrs(t)
  {
    if a in t.ring || k == 0 then lo
    else if a in Addrs(t.l) then LoAt(t.l, a, lo, k - 1)
    else LoAt(t.r, a, lo + Pow2(k - 1), k - 1)
  }

  predicate SpansAt(t: Trie, a: nat, lo: nat, k: nat, s: Trie)
    requires a in Addrs(t)
  {
    Spans(s, LoAt(t, a, lo, k), KAt(t, a, k))
  }

  lemma {:induction false} SubAtAddrs(t: Trie, a: nat)
    requires a in Addrs(t)
    ensures Addrs(SubAt(t, a)) <= Addrs(t)
  {
    if a !in t.ring {
      SubAtAddrs(if a in Addrs(t.l) then t.l else t.r, a);
    }
  }

  lemma {:induction false} SubAtApart(t: Trie, a: nat)
    requires a in Addrs(t) && Apart(t)
    ensures Apart(SubAt(t, a))
  {
    if a !in t.ring {
      SubAtApart(if a in Addrs(t.l) then t.l else t.r, a);
    }
  }

  lemma {:induction false} SubAtFits(t: Trie, a: nat, sizes: map<nat, nat>)
    requires a in Addrs(t) && Fits(t, sizes)
    ensures Fits(SubAt(t, a), sizes)
  {
    if a !in t.ring {
      SubAtFits(if a in Addrs(t.l) then t.l else t.r, a, sizes);
    }
  }

  lemma {:induction false} SubAtSizes(t: Trie, a: nat)
    requires a in Addrs(t)
    ensures SizeSet(SubAt(t, a)) <= SizeSet(t)
  {
    if a !in t.ring {
      SubAtSizes(if a in Addrs(t.l) then t.l else t.r, a);
    }
  }

  lemma {:induction false} SubAtSpans(t: Trie, a: nat, lo: nat, k: nat)
    requires a in Addrs(t) && Spans(t, lo, k)
    ensures SpansAt(t, a, lo, k, SubAt(t, a))
  {
    if a !in t.ring {
      if a in Addrs(t.l) {
        SubAtSpans(t.l, a, lo, k - 1);
      } else {
        SubAtSpans(t.r, a, lo + Pow2(k - 1), k - 1);
      }
    }
  }

  lemma {:induction false} GraftAddrs(t: Trie, a: nat, s: Trie, b: nat)
    requires a in Addrs(t) && Apart(t)
    ensures b in Addrs(Graft(t, a, s)) <==> b in Addrs(s) || (b in Addrs(t) && b !in Addrs(SubAt(t, a)))
  {
    if a !in t.ring {
      SubAtAddrs(if a in Addrs(t.l) then t.l else t.r, a);
      GraftAddrs(if a in Addrs(t.l) then t.l else t.r, a, s, b);
    }
  }

  lemma {:induction false} GraftApart(t: Trie, a: nat, s: Trie)
    requires a in Addrs(t) && Apart(t) && Apart(s)
    requires forall b :: b in Addrs(s) && b in Addrs(t) ==> b in Addrs(SubAt(t, a))
    ensures Apart(Graft(t, a, s))
  {
    if a !in t.ring {
      var c := if a in Addrs(t.l) then t.l else t.r;
      SubAtAddrs(c, a);
      GraftApart(c, a, s);
      forall b ensures b in Addrs(Graft(c, a, s)) ==> b in Addrs(s) || b in Addrs(c) {
        GraftAddrs(c, a, s, b);
      }
    }
  }

  lemma {:induction false} GraftFits(t: Trie, a: nat, s: Trie, sizes: map<nat, nat>)
    requires a in Addrs(t) && Fits(t, sizes) && Fits(s, sizes)
    ensures Fits(Graft(t, a, s), sizes)
  {
    if a !in t.ring {
      GraftFits(if a in Addrs(t.l) then t.l else t.r, a, s, sizes);
    }
  }

  lemma {:induction false} GraftSizes(t: Trie, a: nat, s: Trie, x: nat)
    requires a in Addrs(t)
    requires x in SizeSet(Graft(t, a, s))
    ensures x in SizeSet(s) || x in SizeSet(t)
  {
    if a !in t.ring && x != t.size {
      var c := if a in Addrs(t.l) then t.l else t.r;
      if x in SizeSet(Graft(c, a, s)) { GraftSizes(c, a, s, x); }
    }
  }

  /** Sizes outside the located subtree do not occur inside it. */
  lemma {:induction false} GraftSpans(t: Trie, a: nat, s: Trie, lo: nat, k: nat)
    requires a in Addrs(t) && Spans(t, lo, k) && SpansAt(t, a, lo, k, s)
    requires forall x :: x in SizeSet(s) && x in SizeSet(t) ==> x in SizeSet(SubAt(t, a))
    ensures Spans(Graft(t, a, s), lo, k)
  {
    if a !in t.ring {
      var c := if a in Addrs(t.l) then t.l else t.r;
      SubAtSizes(c, a);
      GraftSpans(c, a, s, if a in Addrs(t.l) then lo else lo + Pow2(k - 1), k - 1);
      if t.size in SizeSet(Graft(c, a, s)) { GraftSizes(c, a, s, t.size); }
    }
  }

  /** Stepping from a located node to one of its children. */
  lemma {:induction false} ChildAt(t: Trie, a: nat, b: nat, lo: nat, k: nat)
    requires a in Addrs(t) && Apart(t) && Spans(t, lo, k)
    requires var s := SubAt(t, a); (s.l.Node? && b in s.l.ring) || (s.r.Node? && b in s.r.ring)
    ensures b in Addrs(t) && KAt(t, a, k) > 0 && KAt(t, b, k) == KAt(t, a, k) - 1
    ensures var s := SubAt(t, a); var lo' := LoAt(t, a, lo, k);
      if b in Addrs(s.l) then SubAt(t, b) == s.l && LoAt(t, b, lo, k) == lo'
      else SubAt(t, b) == s.r && LoAt(t, b, lo, k) == lo' + Pow2(KAt(t, b, k))
  {
    if a !in t.ring {
      var left := a in Addrs(t.l);
      SubAtAddrs(if left then t.l else t.r, a);
      ChildAt(if left then t.l else t.r, a, b, if left then lo else lo + Pow2(k - 1), k - 1);
    }
  }
}

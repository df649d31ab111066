/** Lists of ranges as sets of bytes: the progress of intersection, subtraction
    and union. */
module SetOps {
  import opened Ranges
  import opened RangeTree
  import opened Splays
  import opened Coalesce
  import opened Scans

  /** Each range of `out` lies in a range of `rs` and carries its record. */
  ghost predicate Pieces(out: seq<Range>, rs: seq<Range>) {
    forall p :: p in out ==> exists r :: r in rs && r.base <= p.base && p.End() <= r.End() && p.rec == r.rec
  }

  lemma PiecesGrow(out: seq<Range>, rs: seq<Range>, r: Range)
    requires Pieces(out, rs)
    ensures Pieces(out, rs + [r])
  {
  }

  lemma PiecesAdd(out: seq<Range>, rs: seq<Range>, p: Range, r: Range)
    requires Pieces(out, rs) && r in rs && r.base <= p.base && p.End() <= r.End() && p.rec == r.rec
    ensures Pieces(out + [p], rs)
  {
  }

  lemma PiecesEnd(out: seq<Range>, rs: seq<Range>, e: nat)
    requires Pieces(out, rs) && forall r :: r in rs ==> r.End() < e
    ensures EndsUnder(out, e)
  {
    forall i | 0 <= i < |out| ensures out[i].End() < e { assert out[i] in out; }
  }

  lemma NormalAppend(out: seq<Range>, p: Range)
    requires Normal(out) && EndsUnder(out, p.base) && p.size > 0
    ensures Normal(out + [p])
  {
    assert out + [p] + [] == out + [p];
    PartsJoin(out, p, []);
  }

  lemma CoversAppend(out: seq<Range>, p: Range, x: nat)
    ensures Covers(out + [p], x) <==> Covers(out, x) || p.Holds(x)
  {
    CoversConcat(out, [p], x);
    CoversOne(p, x);
  }

  /** Ranges `rs` have been cut down to the bytes that `keep` admits. */
  ghost predicate Kept(rs: seq<Range>, out: seq<Range>, keep: nat -> bool) {
    && Normal(out) && Pieces(out, rs)
    && forall x: nat :: Covers(out, x) <==> Covers(rs, x) && keep(x)
  }

  /** The same, with `r` done up to byte `b`. */
  ghost predicate Keeping(rs: seq<Range>, r: Range, b: nat, out: seq<Range>, keep: nat -> bool) {
    && Normal(out) && Pieces(out, rs + [r]) && r.base <= b <= r.End()
    && forall x: nat :: Covers(out, x) <==> (Covers(rs, x) || r.base <= x < b) && keep(x)
  }

  lemma KeepStart(rs: seq<Range>, r: Range, out: seq<Range>, keep: nat -> bool)
    requires Kept(rs, out, keep) && Normal(rs + [r])
    ensures Keeping(rs, r, r.base, out, keep) && EndsUnder(out, r.base)
  {
    PiecesGrow(out, rs, r);
    forall q | q in rs ensures q.End() < r.base {
      var i :| 0 <= i < |rs| && rs[i] == q;
      assert (rs + [r])[i] == q && (rs + [r])[|rs|] == r;
    }
    PiecesEnd(out, rs, r.base);
  }

  /** A stretch of admitted bytes is appended. */
  lemma KeepPiece(rs: seq<Range>, r: Range, b: nat, out: seq<Range>, keep: nat -> bool, c: Range, e: nat)
    requires Keeping(rs, r, b, out, keep) && EndsUnder(out, c.base)
    requires b <= c.base && c.size > 0 && c.End() <= e <= r.End() && c.rec == r.rec
    requires forall x: nat :: b <= x < e ==> (keep(x) <==> c.Holds(x))
    ensures Keeping(rs, r, e, out + [c], keep)
  {
    NormalAppend(out, c);
    PiecesAdd(out, rs + [r], c, r);
    forall x: nat ensures Covers(out + [c], x) <==> (Covers(rs, x) || r.base <= x < e) && keep(x) {
      CoversAppend(out, c, x);
    }
  }

  /** A stretch without admitted bytes is passed over. */
  lemma KeepNothing(rs: seq<Range>, r: Range, b: nat, out: seq<Range>, keep: nat -> bool, e: nat)
    requires Keeping(rs, r, b, out, keep) && b <= e <= r.End()
    requires forall x: nat :: b <= x < e ==> !keep(x)
    ensures Keeping(rs, r, e, out, keep)
  {
  }

  lemma KeepDone(rs: seq<Range>, r: Range, out: seq<Range>, keep: nat -> bool)
    requires Keeping(rs, r, r.End(), out, keep)
    ensures Kept(rs + [r], out, keep)
  {
    forall x: nat ensures Covers(rs + [r], x) <==> Covers(rs, x) || r.Holds(x) { CoversAppend(rs, r, x); }
  }

  /** Every range kept so far ends before byte `b`, or at `b`, and then `b` is
      not admitted. */
  ghost predicate Clean(out: seq<Range>, b: nat, keep: nat -> bool) {
    EndsUnder(out, b) || (EndsUnder(out, b + 1) && !keep(b))
  }

  lemma CleanFor(out: seq<Range>, b: nat, keep: nat -> bool, c: nat)
    requires Clean(out, b, keep) && b <= c && keep(c)
    ensures EndsUnder(out, c)
  {
  }

  lemma CleanAppend(out: seq<Range>, b: nat, keep: nat -> bool, c: Range)
    requires EndsUnder(out, c.base) && !keep(c.End())
    ensures Clean(out + [c], c.End(), keep)
  {
  }

  /** An overlap is kept: the range is done up to its end. */
  lemma OverlapKept(rs: seq<Range>, r: Range, b: nat, out: seq<Range>, keep: nat -> bool, o: Range)
    requires Keeping(rs, r, b, out, keep) && Clean(out, b, keep)
    requires b <= o.base && o.size > 0 && o.End() <= r.End() && keep(o.base)
    requires forall x: nat :: b <= x < o.End() ==> (keep(x) <==> o.Holds(x))
    requires o.End() < r.End() ==> !keep(o.End())
    ensures var c := Range(o.base, o.size, r.rec, 0);
      && EndsUnder(out, o.base) && Keeping(rs, r, o.End(), out + [c], keep)
      && (o.End() < r.End() ==> Clean(out + [c], o.End(), keep))
  {
    hide Keeping, Clean;
    var c := Range(o.base, o.size, r.rec, 0);
    CleanFor(out, b, keep, o.base);
    KeepPiece(rs, r, b, out, keep, c, o.End());
    if o.End() < r.End() { CleanAppend(out, b, keep, c); }
  }

  /** What one overlap found in `ref` says about the bytes it admits. */
  lemma ScanKeeps(ref: seq<Range>, q: Range, keep: nat -> bool)
    requires Normal(ref) && q.size > 0 && forall x: nat :: keep(x) <==> Covers(ref, x)
    ensures var k := Scan(ref, q);
      if k == |ref| then forall x: nat :: q.base <= x < q.End() ==> !keep(x)
      else
        && Hits(ref[k], q)
        && var c := Cut(ref[k], q);
        && c.size > 0 && q.base <= c.base && c.End() <= q.End() && keep(c.base)
        && (forall x: nat :: q.base <= x < c.End() ==> (keep(x) <==> c.Holds(x)))
        && (c.End() < q.End() ==> !keep(c.End()))
  {
    NormalSorted(ref);
    var k := Scan(ref, q);
    ScanBytes(ref, q, q.base);
    forall x: nat | q.base <= x < q.End() ensures
      if k == |ref| then !keep(x)
      else Hits(ref[k], q) && (x < Cut(ref[k], q).End() ==> (keep(x) <==> Cut(ref[k], q).Holds(x)))
    {
      ScanBytes(ref, q, x);
    }
    if k < |ref| {
      assert keep(Cut(ref[k], q).base);
      GapAfter(ref, k);
    }
  }

  lemma KeptNone(keep: nat -> bool, rs: seq<Range>)
    ensures Kept([], [], keep) && Pieces([], rs) && Normal([])
  {
  }

  lemma PiecesSelf(rs: seq<Range>)
    ensures Pieces(rs, rs)
  {
  }

  lemma KeptMeans(rs: seq<Range>, out: seq<Range>, keep: nat -> bool)
    requires Kept(rs, out, keep)
    ensures Normal(out) && Pieces(out, rs) && forall x: nat :: Covers(out, x) <==> Covers(rs, x) && keep(x)
  {
  }

  lemma TakeNormal(rs: seq<Range>, k: nat)
    requires Normal(rs) && k <= |rs|
    ensures Normal(rs[..k]) && forall i :: 0 <= i < k ==> rs[i].size > 0
  {
  }

  lemma CleanStart(out: seq<Range>, b: nat, keep: nat -> bool)
    requires EndsUnder(out, b)
    ensures Clean(out, b, keep)
  {
  }

  // ----- union -----

  /** The range is covered with a byte to spare on both sides. */
  ghost predicate Inside(rs: seq<Range>, q: Range) {
    q.base > 0 && forall x: nat :: q.base - 1 <= x <= q.End() ==> Covers(rs, x)
  }

  ghost predicate NoneInside(rs: seq<Range>, qs: seq<Range>) { forall q :: q in qs ==> !Inside(rs, q) }

  /** Ranges `done` have been added to `rs`. */
  ghost predicate Uniting(rs: seq<Range>, done: seq<Range>, out: seq<Range>) {
    && Normal(out)
    && (forall x: nat :: Covers(done, x) ==> Covers(out, x))
    && (forall x: nat :: Covers(out, x) ==> Covers(rs, x) || Covers(done, x))
  }

  lemma EarlierEnd(done: seq<Range>, n: Range, x: nat)
    requires Normal(done + [n]) && Covers(done, x)
    ensures x + 1 < n.base
  {
    var i :| 0 <= i < |done| && done[i].Holds(x);
    assert (done + [n])[i] == done[i] && (done + [n])[|done|] == n;
  }

  /** A lossy add means the new range is strictly inside what is there. */
  lemma LossyInside(out: seq<Range>, k: nat, n: Range)
    requires CanAdd(out, k, n) && Lossy(out, k, n)
    ensures Inside(out, n)
  {
    assert out[..k][k - 1].base < n.base;
    forall x: nat | n.base - 1 <= x <= n.End() ensures Covers(out, x) { CoversAt(out, x, k - 1); }
  }

  lemma InsideBefore(rs: seq<Range>, done: seq<Range>, n: Range, out: seq<Range>)
    requires Uniting(rs, done, out) && Normal(done + [n]) && Inside(out, n)
    ensures Inside(rs, n)
  {
    forall x: nat | n.base - 1 <= x <= n.End() ensures Covers(rs, x) {
      if Covers(done, x) { EarlierEnd(done, n, x); }
    }
  }

  lemma UniteStep(rs: seq<Range>, done: seq<Range>, n: Range, out: seq<Range>, k: nat, m: Range)
    requires Uniting(rs, done, out) && Normal(done + [n]) && CanAdd(out, k, m) && m.base == n.base && m.size == n.size
    ensures Uniting(rs, done + [n], Added(out, k, m))
    ensures Lossy(out, k, m) ==> Inside(rs, n)
  {
    hide Covers, Added, Inside, Normal;
    AddedNormal(out, k, m);
    InsideAlike(out, n, m);
    if Lossy(out, k, m) {
      LossyInside(out, k, m);
      InsideBefore(rs, done, n, out);
    }
    forall x: nat ensures
      && (Covers(Added(out, k, m), x) <==> (Covers(out, x) || n.Holds(x)) && !Lost(out, k, m, x))
      && (Covers(done + [n], x) <==> Covers(done, x) || n.Holds(x)) && (Covers(done, x) ==> !Lost(out, k, m, x))
    {
      AddedCovers(out, k, m, x);
      CoversAppend(done, n, x);
      if Covers(done, x) { EarlierEnd(done, n, x); }
    }
  }

  lemma InsideAlike(out: seq<Range>, n: Range, m: Range)
    requires m.base == n.base && m.size == n.size
    ensures Inside(out, n) <==> Inside(out, m)
  {
  }

  /** The first range added to nothing. */
  lemma FirstUnited(rs: seq<Range>, done: seq<Range>, n: Range, m: Range)
    requires Uniting(rs, done, []) && m.base == n.base && m.size == n.size && n.size > 0
    ensures Uniting(rs, done + [n], [m])
  {
    OneNormal(m);
    forall x: nat ensures (Covers(done + [n], x) ==> Covers([m], x)) && (Covers([m], x) ==> Covers(done + [n], x)) {
      CoversAppend(done, n, x);
      CoversOne(m, x);
      CoversNone(x);
    }
  }

  lemma UniteNone(rs: seq<Range>)
    requires Normal(rs)
    ensures Uniting(rs, [], rs)
  {
  }

  lemma UniteMeans(rs: seq<Range>, qs: seq<Range>, out: seq<Range>)
    requires Uniting(rs, qs, out)
    ensures forall x: nat :: (Covers(qs, x) ==> Covers(out, x)) && (Covers(out, x) ==> Covers(rs, x) || Covers(qs, x))
  {
  }

  /** The tree after ranges are added one by one, with new nodes from `n` on. */
  function AddedTrees(t: Tree, n: nat, qs: seq<Range>): Tree {
    if qs == [] then t
    else
      var k := |qs| - 1;
      AddedTree(AddedTrees(t, n, qs[..k]), n + k, qs[k].(task := 0))
  }

  /** Adding `q` to the tree meets the lossy case. */
  predicate LossyAdd(t: Tree, q: Range) {
    var k := SearchIndex(t, q.base);
    k < |Contents(t)| && Lossy(Contents(t), k, q)
  }

  /** No addition of the series meets it. */
  predicate NoneLossy(t: Tree, n: nat, qs: seq<Range>) {
    qs == [] || (NoneLossy(t, n, qs[..|qs| - 1]) && !LossyAdd(AddedTrees(t, n, qs[..|qs| - 1]), qs[|qs| - 1]))
  }

  /** So far nothing is lost, or a byte is that no later range brings back. */
  ghost predicate Fate(rs: seq<Range>, qs: seq<Range>, out: seq<Range>, lossless: bool) {
    if lossless then forall x: nat :: Covers(rs, x) ==> Covers(out, x)
    else exists x: nat :: Covers(rs, x) && !Covers(qs, x) && !Covers(out, x)
  }

  /** A lossy addition loses the byte just past the range added, for good: ranges in
      normal form do not touch. */
  lemma FateStep(rs: seq<Range>, qs: seq<Range>, i: nat, out: seq<Range>, k: nat, m: Range, lossless: bool)
    requires i < |qs| && Normal(qs) && Uniting(rs, qs[..i], out) && Fate(rs, qs, out, lossless)
    requires CanAdd(out, k, m) && m.base == qs[i].base && m.size == qs[i].size
    ensures Fate(rs, qs, Added(out, k, m), lossless && !Lossy(out, k, m))
  {
    hide Covers, Added, Normal;
    forall x: nat ensures Covers(Added(out, k, m), x) <==> (Covers(out, x) || m.Holds(x)) && !Lost(out, k, m, x) {
      AddedCovers(out, k, m, x);
    }
    forall x: nat ensures m.Holds(x) ==> Covers(qs, x) {
      if m.Holds(x) { CoversAt(qs, x, i); }
    }
    if !lossless {
      var x: nat :| Covers(rs, x) && !Covers(qs, x) && !Covers(out, x);
      assert !Covers(Added(out, k, m), x);
    } else if Lossy(out, k, m) {
      var x := m.End();
      Ordered(out, k, m);
      CoversAt(out, x, k - 1);
      GapAfter(qs, i);
      CoversPrefix(qs, i, x);
      assert Lost(out, k, m, x);
      assert Covers(rs, x) && !Covers(qs, x) && !Covers(Added(out, k, m), x);
    }
  }

  lemma CoversPrefix(qs: seq<Range>, i: nat, x: nat)
    requires i <= |qs|
    ensures Covers(qs[..i], x) ==> Covers(qs, x)
  {
    assert qs == qs[..i] + qs[i..];
    CoversConcat(qs[..i], qs[i..], x);
  }

  lemma FateFirst(rs: seq<Range>, qs: seq<Range>, i: nat, m: Range, lossless: bool)
    requires i < |qs| && Normal(qs) && Fate(rs, qs, [], lossless) && m.base == qs[i].base && m.size == qs[i].size
    ensures Fate(rs, qs, [m], lossless)
  {
    hide Covers;
    forall x: nat ensures !Covers([], x) && (Covers([m], x) ==> Covers(qs, x)) {
      CoversNone(x);
      CoversOne(m, x);
      if m.Holds(x) { CoversAt(qs, x, i); }
    }
  }

  lemma FateStart(rs: seq<Range>, qs: seq<Range>)
    ensures Fate(rs, qs, rs, true)
  {
  }

  lemma FateMeans(rs: seq<Range>, qs: seq<Range>, out: seq<Range>, lossless: bool)
    requires Fate(rs, qs, out, lossless)
    ensures (forall x: nat :: Covers(rs, x) ==> Covers(out, x)) <==> lossless
  {
  }

  lemma NoneAdded(t: Tree, n: nat)
    ensures AddedTrees(t, n, []) == t && NoneLossy(t, n, [])
  {
  }

  /** The next addition of the series. */
  lemma NextAdded(t: Tree, n: nat, qs: seq<Range>, i: nat)
    requires i < |qs|
    ensures AddedTrees(t, n, qs[..i + 1]) == AddedTree(AddedTrees(t, n, qs[..i]), n + i, qs[i].(task := 0))
    ensures NoneLossy(t, n, qs[..i + 1]) <==> NoneLossy(t, n, qs[..i]) && !LossyAdd(AddedTrees(t, n, qs[..i]), qs[i])
  {
    assert qs[..i + 1][..i] == qs[..i];
  }

  /** An empty tree loses nothing; otherwise only the extent of the range matters. */
  lemma LossyAddIs(t: Tree, q: Range, m: Range)
    requires q.base == m.base && q.size == m.size
    ensures t.Leaf? ==> !LossyAdd(t, q)
    ensures t.Node? ==>
      SearchIndex(t, m.base) < |Contents(t)| && (LossyAdd(t, q) <==> Lossy(Contents(t), SearchIndex(t, m.base), m))
  {
    if t.Node? { SearchIndexOf(t, m.base); }
  }

  /** Copies of ranges: the task is not copied. */
  function Copied(rs: seq<Range>): seq<Range> {
    seq(|rs|, i requires 0 <= i < |rs| => rs[i].(task := 0))
  }

  lemma CopiedNext(rs: seq<Range>, i: nat)
    requires i < |rs| && Normal(rs)
    ensures Copied(rs[..i + 1]) == Copied(rs[..i]) + [rs[i].(task := 0)] && EndsUnder(Copied(rs[..i]), rs[i].base)
  {
  }

  lemma CopiedCovers(rs: seq<Range>, x: nat)
    ensures Covers(Copied(rs), x) <==> Covers(rs, x)
  {
    if Covers(rs, x) {
      var i :| 0 <= i < |rs| && rs[i].Holds(x);
      CoversAt(Copied(rs), x, i);
    }
    if Covers(Copied(rs), x) {
      var i :| 0 <= i < |Copied(rs)| && Copied(rs)[i].Holds(x);
      CoversAt(rs, x, i);
    }
  }

  // ----- subtraction -----

  ghost function BytesOf(cut: seq<Range>): nat -> bool { (x: nat) => Covers(cut, x) }

  ghost function Outside(cut: seq<Range>): nat -> bool { (x: nat) => !Covers(cut, x) }

  ghost predicate AllKept(keep: nat -> bool, b: nat, e: nat) { forall x: nat :: b <= x < e ==> keep(x) }

  /** From `b` to `e`, the bytes before `c` are admitted and no others. */
  ghost predicate KeptUpTo(keep: nat -> bool, b: nat, c: nat, e: nat) {
    forall x: nat :: b <= x < e ==> (keep(x) <==> x < c)
  }

  lemma SubtractMeans(rs: seq<Range>, copy: seq<Range>, taken: seq<Range>, cut: seq<Range>, out: seq<Range>,
      keep: nat -> bool)
    requires Kept(rs, out, keep) && copy == Copied(rs)
    requires forall x: nat :: keep(x) <==> !Covers(cut, x)
    requires forall x: nat :: Covers(cut, x) <==> Covers(copy, x) && Covers(taken, x)
    ensures Normal(out) && Pieces(out, rs) && forall x: nat :: Covers(out, x) <==> Covers(rs, x) && !Covers(taken, x)
  {
    forall x: nat ensures Covers(copy, x) <==> Covers(rs, x) { CopiedCovers(rs, x); }
  }

  /** A piece cut out before an overlap is kept, or there is none. */
  lemma SpareStep(rs: seq<Range>, r: Range, b: nat, out: seq<Range>, keep: nat -> bool, c: nat, e: nat)
    requires Keeping(rs, r, b, out, keep) && EndsUnder(out, b) && KeptUpTo(keep, b, c, e) && b <= c < e <= r.End()
    ensures c > b ==>
      Keeping(rs, r, e, out + [Range(b, c - b, r.rec, 0)], keep) && EndsUnder(out + [Range(b, c - b, r.rec, 0)], e)
    ensures c == b ==> Keeping(rs, r, e, out, keep) && EndsUnder(out, e)
  {
    hide Keeping;
    if c > b {
      KeepPiece(rs, r, b, out, keep, Range(b, c - b, r.rec, 0), e);
    } else {
      KeepNothing(rs, r, b, out, keep, e);
    }
  }

  /** What is left of a range after its last overlap is kept. */
  lemma SpareRest(rs: seq<Range>, r: Range, b: nat, out: seq<Range>, keep: nat -> bool)
    requires Keeping(rs, r, b, out, keep) && EndsUnder(out, b) && AllKept(keep, b, r.End()) && b < r.End()
    ensures Keeping(rs, r, r.End(), out + [Range(b, r.End() - b, r.rec, 0)], keep)
  {
    hide Keeping;
    KeepPiece(rs, r, b, out, keep, Range(b, r.End() - b, r.rec, 0), r.End());
  }

  /** What one overlap found in `cut` says about the bytes outside it. */
  lemma ScanSpares(cut: seq<Range>, q: Range, keep: nat -> bool)
    requires Normal(cut) && q.size > 0 && forall x: nat :: keep(x) <==> !Covers(cut, x)
    ensures var k := Scan(cut, q);
      if k == |cut| then AllKept(keep, q.base, q.End())
      else
        && Hits(cut[k], q)
        && var c := Cut(cut[k], q);
        && c.size > 0 && q.base <= c.base && c.End() <= q.End()
        && KeptUpTo(keep, q.base, c.base, c.End())
  {
    NormalSorted(cut);
    var k := Scan(cut, q);
    ScanBytes(cut, q, q.base);
    forall x: nat | q.base <= x < q.End() ensures
      if k == |cut| then keep(x)
      else Hits(cut[k], q) && (x < Cut(cut[k], q).End() ==> (keep(x) <==> x < Cut(cut[k], q).base))
    {
      ScanBytes(cut, q, x);
    }
  }
}

/** Linked chains of channels. */
module Chains {
  import opened Ranges

  /** A null channel pointer. */
  const NONE: int := -1

  /** `channel_t`; `data` is what the posted patch holds. */
  datatype Channel = Channel(id: nat, data: seq<Range>, sender: nat, posted: bool, first: int, next: int)

  /** Member `k` points to the next one, the last to none. */
  predicate NextIs(cs: seq<Channel>, c: seq<nat>, k: nat) {
    k < |c| && c[k] < |cs| && cs[c[k]].next == (if k + 1 < |c| then c[k + 1] else NONE)
  }

  /** Chain `c` is linked in order, every member pointing to the first. */
  ghost predicate Linked(cs: seq<Channel>, c: seq<nat>) {
    && c != []
    && (forall k :: 0 <= k < |c| ==> c[k] < |cs| && cs[c[k]].first == c[0])
    && (forall k :: 0 <= k < |c| ==> NextIs(cs, c, k))
    && Distinct(c)
  }

  ghost predicate Distinct(c: seq<nat>) { forall j, k :: 0 <= j < k < |c| ==> c[j] != c[k] }

  ghost predicate NoCommon(c: seq<nat>, d: seq<nat>) { forall i :: i in c ==> i !in d }

  /** The channel is in no chain. */
  predicate Single(cs: seq<Channel>, i: nat) { i < |cs| && cs[i].first == NONE && cs[i].next == NONE }

  /** The pointers form exactly these chains. */
  ghost predicate Chained(cs: seq<Channel>, chains: set<seq<nat>>) {
    && (forall c :: c in chains ==> Linked(cs, c))
    && (forall c, d :: c in chains && d in chains && c != d ==> NoCommon(c, d))
    && (forall i :: 0 <= i < |cs| && !InSome(chains, i) ==> Single(cs, i))
  }

  ghost predicate InSome(chains: set<seq<nat>>, i: nat) { exists c :: c in chains && i in c }

  /** A chain, or a channel in none. */
  ghost predicate Piece(cs: seq<Channel>, chains: set<seq<nat>>, a: seq<nat>) {
    a in chains || (|a| == 1 && Single(cs, a[0]))
  }

  /** The channels once chain `b` hangs behind chain `a`. Only the last member of
      `a` and the members of `b` get the flag. */
  function Joined(cs: seq<Channel>, a: seq<nat>, b: seq<nat>, posted: bool): seq<Channel>
    requires a != [] && b != []
  {
    seq(|cs|, i requires 0 <= i < |cs| =>
      if i in b then cs[i].(first := a[0], posted := posted)
      else if i == a[|a| - 1] then cs[i].(first := a[0], next := b[0], posted := posted)
      else cs[i])
  }

  lemma MemberLinked(cs: seq<Channel>, c: seq<nat>, i: nat)
    requires Linked(cs, c) && i in c
    ensures i < |cs| && cs[i].first == c[0]
  {
  }

  /** What a piece looks like: as a chain but for a single channel's first. */
  lemma PieceLinks(cs: seq<Channel>, chains: set<seq<nat>>, a: seq<nat>)
    requires Chained(cs, chains) && Piece(cs, chains, a)
    ensures a != [] && Distinct(a) && forall k :: 0 <= k < |a| ==> a[k] < |cs|
    ensures forall k :: 0 <= k < |a| ==> NextIs(cs, a, k)
    ensures |a| == 1 || forall k :: 0 <= k < |a| ==> cs[a[k]].first == a[0]
    ensures forall c :: c in chains && c != a ==> NoCommon(c, a)
  {
    if a !in chains {
      forall c, i | c in chains && i in c ensures i !in a { MemberLinked(cs, c, i); }
    }
  }

  /** Where `connect_chain` starts from a member. */
  lemma PieceFirst(cs: seq<Channel>, chains: set<seq<nat>>, a: seq<nat>, i: nat)
    requires Chained(cs, chains) && Piece(cs, chains, a) && i in a
    ensures i < |cs| && (if cs[i].first != NONE then cs[i].first else i) == a[0]
  {
  }

  /** Two pieces joined make one chain, and no other chain changes. */
  lemma JoinedChained(cs: seq<Channel>, chains: set<seq<nat>>, a: seq<nat>, b: seq<nat>, posted: bool)
    requires Chained(cs, chains) && Piece(cs, chains, a) && Piece(cs, chains, b) && a != [] && b != [] && NoCommon(a, b)
    ensures Chained(Joined(cs, a, b, posted), chains - {a, b} + {a + b})
    ensures forall i :: 0 <= i < |cs| && i !in a + b ==> Joined(cs, a, b, posted)[i] == cs[i]
  {
    var cs', chains' := Joined(cs, a, b, posted), chains - {a, b} + {a + b};
    PieceLinks(cs, chains, a);
    PieceLinks(cs, chains, b);
    JoinedLinked(cs, chains, a, b, posted);
    forall c | c in chains && c != a && c != b ensures Linked(cs', c) && NoCommon(c, a + b) {
      OtherLinked(cs, c, a, b, posted);
    }
    forall i | 0 <= i < |cs'| && !InSome(chains', i) ensures Single(cs', i) {
      assert a + b in chains';
      assert i !in a + b;
      NotInSome(chains, a, b, i);
    }
  }

  lemma NotInSome(chains: set<seq<nat>>, a: seq<nat>, b: seq<nat>, i: nat)
    requires !InSome(chains - {a, b} + {a + b}, i)
    ensures !InSome(chains, i) && i !in a && i !in b
  {
    var rest := chains - {a, b} + {a + b};
    assert a + b in rest;
    assert i !in a + b;
    forall c | c in chains ensures i !in c {
      assert c in rest || c == a || c == b;
    }
  }

  lemma OtherLinked(cs: seq<Channel>, c: seq<nat>, a: seq<nat>, b: seq<nat>, posted: bool)
    requires Linked(cs, c) && a != [] && b != [] && NoCommon(c, a) && NoCommon(c, b)
    ensures Linked(Joined(cs, a, b, posted), c) && NoCommon(c, a + b)
  {
    forall k | 0 <= k < |c|
      ensures Joined(cs, a, b, posted)[c[k]] == cs[c[k]] && NextIs(Joined(cs, a, b, posted), c, k)
    {
      assert c[k] in c && a[|a| - 1] in a && NextIs(cs, c, k);
    }
  }

  lemma JoinedFront(cs: seq<Channel>, a: seq<nat>, b: seq<nat>, posted: bool, k: nat)
    requires k < |a| && b != [] && NoCommon(a, b) && Distinct(a) && a[k] < |cs|
    requires NextIs(cs, a, k)
    requires cs[a[k]].first == a[0] || |a| == 1
    ensures Joined(cs, a, b, posted)[a[k]].first == a[0]
    ensures NextIs(Joined(cs, a, b, posted), a + b, k)
  {
    assert a[k] in a;
  }

  lemma JoinedLength(cs: seq<Channel>, a: seq<nat>, b: seq<nat>, posted: bool)
    requires a != [] && b != []
    ensures |Joined(cs, a, b, posted)| == |cs|
  {
  }

  lemma JoinedBack(cs: seq<Channel>, a: seq<nat>, b: seq<nat>, posted: bool, k: nat)
    requires a != [] && k < |b| && b[k] < |cs| && NextIs(cs, b, k)
    ensures Joined(cs, a, b, posted)[b[k]].first == a[0]
    ensures NextIs(Joined(cs, a, b, posted), a + b, |a| + k)
  {
    assert b[k] in b;
  }

  lemma JoinedLinked(cs: seq<Channel>, chains: set<seq<nat>>, a: seq<nat>, b: seq<nat>, posted: bool)
    requires Chained(cs, chains) && Piece(cs, chains, a) && Piece(cs, chains, b) && a != [] && b != [] && NoCommon(a, b)
    ensures Linked(Joined(cs, a, b, posted), a + b)
  {
    hide Joined, Chained, Piece;
    var cs', c := Joined(cs, a, b, posted), a + b;
    assert |cs'| == |cs| by { JoinedLength(cs, a, b, posted); }
    PieceLinks(cs, chains, a);
    PieceLinks(cs, chains, b);
    forall k | 0 <= k < |c|
      ensures c[k] < |cs'| && cs'[c[k]].first == c[0] && NextIs(cs', c, k)
    {
      if k < |a| {
        JoinedFront(cs, a, b, posted, k);
        assert c[k] == a[k];
      } else {
        JoinedBack(cs, a, b, posted, k - |a|);
        assert c[k] == b[k - |a|];
      }
    }
    forall j, k | 0 <= j < k < |c| ensures c[j] != c[k] {
      assert j < |a| ==> c[j] in a;
      assert k >= |a| ==> c[k] in b;
    }
  }

  // ----- who is marked posted -----

  /** Every member of the list carries this flag. */
  ghost predicate Flagged(cs: seq<Channel>, c: seq<nat>, posted: bool) {
    forall i :: i in c && i < |cs| ==> cs[i].posted == posted
  }

  /** Joining gives every member of the new chain the flag exactly when all members
      of the head's chain but its last carried it already. */
  lemma JoinedFlags(cs: seq<Channel>, a: seq<nat>, b: seq<nat>, posted: bool)
    requires a != [] && b != [] && NoCommon(a, b) && Distinct(a) && (forall k :: 0 <= k < |a| ==> a[k] < |cs|)
    ensures Flagged(Joined(cs, a, b, posted), a + b, posted) <==> Flagged(cs, a[..|a| - 1], posted)
  {
    var now := Joined(cs, a, b, posted);
    var front := a[..|a| - 1];
    assert a == front + [a[|a| - 1]];
    forall i | i in front ensures i < |cs| && now[i] == cs[i] && i in a + b {
      var k :| 0 <= k < |front| && front[k] == i;
      assert a[k] == i && i in a;
    }
    if Flagged(cs, front, posted) {
      forall i | i in a + b && i < |now| ensures now[i].posted == posted {
        assert i in front || i == a[|a| - 1] || i in b;
      }
    }
    if Flagged(now, a + b, posted) {
      forall i | i in front && i < |cs| ensures cs[i].posted == posted { }
    }
  }

  /** When chain `a` carries one flag throughout and chain `b` another, joining them
      marks every member with either flag exactly when `a` has one member, or is
      posted, or `b` is not. */
  lemma JoinedFlagsExactly(cs: seq<Channel>, a: seq<nat>, b: seq<nat>, fa: bool, fb: bool)
    requires a != [] && b != [] && NoCommon(a, b) && Distinct(a) && (forall k :: 0 <= k < |a| ==> a[k] < |cs|)
    requires Flagged(cs, a, fa)
    ensures Flagged(Joined(cs, a, b, fa || fb), a + b, fa || fb) <==> |a| == 1 || fa || !fb
  {
    JoinedFlags(cs, a, b, fa || fb);
    var front := a[..|a| - 1];
    forall i | i in front ensures i in a && i < |cs| {
      var k :| 0 <= k < |front| && front[k] == i;
      assert a[k] == i;
    }
    if |a| > 1 { assert front[0] in front; }
  }

  /** An input: a chain of two channels without a post, joined with a posted one. The
      first channel is not marked, and who waits on it waits although the chain is
      posted. */
  lemma FirstMissed(x: Channel)
    ensures var open := Channel(1, [], 0, false, 0, 1);
      var cs := [open, open.(next := NONE), x.(posted := true, first := NONE, next := NONE)];
      var now := Joined(cs, [0, 1], [2], true);
      Chained(cs, {[0, 1]}) && Linked(now, [0, 1, 2]) && !now[0].posted && now[1].posted && now[2].posted
  {
    var open := Channel(1, [], 0, false, 0, 1);
    var cs := [open, open.(next := NONE), x.(posted := true, first := NONE, next := NONE)];
    assert NextIs(cs, [0, 1], 0) && NextIs(cs, [0, 1], 1);
    assert [0, 1] in {[0, 1]} && 0 in [0, 1] && 1 in [0, 1];
    forall i | 0 <= i < |cs| && !InSome({[0, 1]}, i) ensures Single(cs, i) {
      assert i !in [0, 1];
    }
    JoinedLinked(cs, {[0, 1]}, [0, 1], [2], true);
    assert [0, 1] + [2] == [0, 1, 2];
  }

  // ----- stores one at a time -----

  /** `b` hung behind last member `p`, and its first `j` members rewritten. */
  ghost predicate Joining(cs: seq<Channel>, now: seq<Channel>, head: nat, p: nat, b: seq<nat>, j: nat, posted: bool) {
    && j <= |b| && b != [] && |now| == |cs|
    && forall i :: 0 <= i < |cs| ==> (now[i] ==
         if i in b[..j] then cs[i].(first := head, posted := posted)
         else if i == p then cs[i].(first := head, next := b[0], posted := posted)
         else cs[i])
  }

  lemma JoiningStart(cs: seq<Channel>, head: nat, p: nat, b: seq<nat>, posted: bool)
    requires p < |cs| && b != []
    ensures Joining(cs, cs[p := cs[p].(first := head, next := b[0], posted := posted)], head, p, b, 0, posted)
  {
  }

  lemma JoiningStep(cs: seq<Channel>, now: seq<Channel>, head: nat, p: nat, b: seq<nat>, j: nat, posted: bool)
    requires Joining(cs, now, head, p, b, j, posted) && j < |b| && b[j] < |cs| && Distinct(b) && p !in b
    ensures now[b[j]].next == cs[b[j]].next
    ensures Joining(cs, now[b[j] := now[b[j]].(first := head, posted := posted)], head, p, b, j + 1, posted)
  {
    assert b[..j + 1] == b[..j] + [b[j]];
    assert b[j] in b && b[j] !in b[..j];
  }

  lemma JoiningDone(cs: seq<Channel>, now: seq<Channel>, a: seq<nat>, b: seq<nat>, posted: bool)
    requires a != [] && b != [] && Joining(cs, now, a[0], a[|a| - 1], b, |b|, posted)
    ensures now == Joined(cs, a, b, posted)
  {
    assert b[..|b|] == b;
  }

  // ----- which chain a channel is in -----

  ghost function PieceOf(chains: set<seq<nat>>, i: nat): (c: seq<nat>)
    ensures i in c
  {
    if InSome(chains, i) then
      var c :| c in chains && i in c;
      c
    else [i]
  }

  lemma PieceOfIs(cs: seq<Channel>, chains: set<seq<nat>>, i: nat)
    requires Chained(cs, chains) && i < |cs|
    ensures var c := PieceOf(chains, i);
      Piece(cs, chains, c) && c != []
        && (if InSome(chains, i) then cs[i].first == c[0] else c == [i] && cs[i].first == NONE)
  {
    if InSome(chains, i) { MemberLinked(cs, PieceOf(chains, i), i); }
  }

  /** Two different channels, not both in one chain, are in pieces apart. */
  lemma PiecesApart(cs: seq<Channel>, chains: set<seq<nat>>, i: nat, j: nat)
    requires Chained(cs, chains) && i < |cs| && j < |cs| && i != j
      && (cs[i].first == NONE || cs[i].first != cs[j].first)
    ensures NoCommon(PieceOf(chains, i), PieceOf(chains, j))
  {
    PieceOfIs(cs, chains, i);
    PieceOfIs(cs, chains, j);
    var c, d := PieceOf(chains, i), PieceOf(chains, j);
    if InSome(chains, i) && InSome(chains, j) {
      assert c != d;
    } else {
      PieceLinks(cs, chains, c);
      PieceLinks(cs, chains, d);
      forall k | k in c ensures k !in d {
        assert InSome(chains, i) ==> c in chains;
        assert InSome(chains, j) ==> d in chains;
      }
    }
  }

  /** Only other fields than the pointers differ. */
  ghost predicate SamePointers(cs: seq<Channel>, ds: seq<Channel>) {
    |cs| == |ds| && forall i :: 0 <= i < |cs| ==> cs[i].first == ds[i].first && cs[i].next == ds[i].next
  }

  lemma PointersChained(cs: seq<Channel>, ds: seq<Channel>, chains: set<seq<nat>>)
    requires Chained(cs, chains) && SamePointers(cs, ds)
    ensures Chained(ds, chains)
  {
    forall c | c in chains ensures Linked(ds, c) {
      forall k | 0 <= k < |c| ensures NextIs(ds, c, k) { assert NextIs(cs, c, k); }
    }
  }

  // ----- chaining two channels -----

  /** The second channel's chain leads when only it is in one. */
  predicate SecondLeads(cs: seq<Channel>, i: nat, j: nat)
    requires i < |cs| && j < |cs|
  {
    cs[i].first == NONE && cs[j].first != NONE
  }

  ghost function Front(cs: seq<Channel>, chains: set<seq<nat>>, i: nat, j: nat): (c: seq<nat>)
    requires i < |cs| && j < |cs|
    ensures c != []
  {
    if SecondLeads(cs, i, j) then PieceOf(chains, j) else PieceOf(chains, i)
  }

  ghost function Back(cs: seq<Channel>, chains: set<seq<nat>>, i: nat, j: nat): (c: seq<nat>)
    requires i < |cs| && j < |cs|
    ensures c != []
  {
    if SecondLeads(cs, i, j) then PieceOf(chains, i) else PieceOf(chains, j)
  }

  /** The pointers and chains after channels `i` and `j` were chained: the leading
      chain, followed by the other; a channel chained to itself is a chain of one. */
  ghost predicate ChainMade(cs: seq<Channel>, chains: set<seq<nat>>, i: nat, j: nat, cs': seq<Channel>,
      chains': set<seq<nat>>)
    requires i < |cs| && j < |cs|
  {
    var posted := cs[i].posted || cs[j].posted;
    var a, b := Front(cs, chains, i, j), Back(cs, chains, i, j);
    if i == j then cs' == cs[i := cs[i].(first := i, next := NONE, posted := posted)] && chains' == chains + {[i]}
    else cs' == Joined(cs, a, b, posted) && chains' == chains - {a, b} + {a + b}
  }

  lemma ChainOfOne(cs: seq<Channel>, chains: set<seq<nat>>, i: nat, posted: bool)
    requires Chained(cs, chains) && i < |cs| && cs[i].first == NONE
    ensures Chained(cs[i := cs[i].(first := i, next := NONE, posted := posted)], chains + {[i]})
  {
    var cs', chains' := cs[i := cs[i].(first := i, next := NONE, posted := posted)], chains + {[i]};
    forall c | c in chains ensures i !in c && Linked(cs', c) {
      if i in c { MemberLinked(cs, c, i); }
      forall k | 0 <= k < |c| ensures NextIs(cs', c, k) && c[k] != i { assert NextIs(cs, c, k) && c[k] in c; }
    }
    assert NextIs(cs', [i], 0);
    forall k | 0 <= k < |cs'| && !InSome(chains', k) ensures Single(cs', k) {
      assert [i] in chains' && i in [i];
      assert k != i;
      NotInFewer(chains, chains', k);
    }
  }

  lemma NotInFewer(chains: set<seq<nat>>, more: set<seq<nat>>, k: nat)
    requires chains <= more && !InSome(more, k)
    ensures !InSome(chains, k)
  {
    forall c | c in chains ensures k !in c { assert c in more; }
  }

  lemma PairJoined(cs: seq<Channel>, i: nat, j: nat, posted: bool)
    requires i < |cs| && j < |cs| && i != j && cs[j].next == NONE
    ensures var c := cs[i].(first := i, next := j, posted := posted);
      cs[i := c][j := cs[j].(first := i, next := NONE, posted := posted)] == Joined(cs, [i], [j], posted)
  {
  }

  lemma SinglePointers(cs: seq<Channel>, chains: set<seq<nat>>, i: nat)
    requires Chained(cs, chains) && i < |cs| && cs[i].first == NONE
    ensures cs[i].next == NONE
  {
    PieceOfIs(cs, chains, i);
  }

  /** Both pieces, ready to be joined. */
  lemma ReadyPieces(cs: seq<Channel>, chains: set<seq<nat>>, i: nat, j: nat)
    requires Chained(cs, chains) && i < |cs| && j < |cs| && i != j
      && (cs[i].first == NONE || cs[i].first != cs[j].first)
    ensures var a, b := Front(cs, chains, i, j), Back(cs, chains, i, j);
      && Piece(cs, chains, a) && Piece(cs, chains, b) && NoCommon(a, b)
      && (SecondLeads(cs, i, j) ==> a[0] == cs[j].first && i in b)
      && (!SecondLeads(cs, i, j) ==> j in b)
      && (!SecondLeads(cs, i, j) ==> if cs[i].first != NONE then a[0] == cs[i].first else a == [i] && b == [j])
  {
    PieceOfIs(cs, chains, i);
    PieceOfIs(cs, chains, j);
    PiecesApart(cs, chains, i, j);
    assert NoCommon(PieceOf(chains, j), PieceOf(chains, i));
  }

  // ----- joining a chain to itself -----

  /** The channel reached after `n` steps along the next pointers. */
  function Walk(cs: seq<Channel>, i: int, n: nat): int {
    if n == 0 then i
    else
      var w := Walk(cs, i, n - 1);
      if 0 <= w < |cs| then cs[w].next else NONE
  }

  /** With its last member linked to its own first, a chain has no end: following
      the pointers never meets a null one. */
  lemma {:induction false} SelfJoinNeverEnds(cs: seq<Channel>, a: seq<nat>, n: nat, posted: bool)
    requires Linked(cs, a)
    ensures var last := a[|a| - 1];
      Walk(cs[last := cs[last].(first := a[0], next := a[0], posted := posted)], a[0], n) in a
  {
    var last := a[|a| - 1];
    var cs' := cs[last := cs[last].(first := a[0], next := a[0], posted := posted)];
    if n > 0 {
      SelfJoinNeverEnds(cs, a, n - 1, posted);
      var k :| 0 <= k < |a| && a[k] == Walk(cs', a[0], n - 1);
      assert NextIs(cs, a, k);
      assert cs'[a[k]].next == if k + 1 < |a| then a[k + 1] else a[0];
    }
  }

  /** The channels and the pointer after `n` turns of the loop over the new chain. */
  function Looped(cs: seq<Channel>, head: int, posted: bool, ch: int, n: nat): (seq<Channel>, int) {
    if n == 0 then (cs, ch)
    else
      var (now, p) := Looped(cs, head, posted, ch, n - 1);
      if 0 <= p < |now| then (now[p := now[p].(first := head, posted := posted)], now[p].next) else (now, NONE)
  }

  /** The loop follows the pointers as they were: it stores into other fields only. */
  lemma {:induction false} LoopIsWalk(cs: seq<Channel>, head: int, posted: bool, ch: int, n: nat)
    ensures var now := Looped(cs, head, posted, ch, n).0;
      |now| == |cs| && forall i :: 0 <= i < |cs| ==> now[i].next == cs[i].next
    ensures Looped(cs, head, posted, ch, n).1 == Walk(cs, ch, n)
  {
    if n > 0 { LoopIsWalk(cs, head, posted, ch, n - 1); }
  }

  /** The loop comes to a null pointer. */
  ghost predicate LoopEnds(cs: seq<Channel>, head: int, posted: bool, ch: int) {
    exists n :: Looped(cs, head, posted, ch, n).1 == NONE
  }

  /** Along a chain whose last member is not written to, the walk ends. */
  lemma {:induction false} WalkAlong(cs: seq<Channel>, b: seq<nat>, n: nat)
    requires b != [] && n <= |b| && forall k :: 0 <= k < |b| ==> NextIs(cs, b, k)
    ensures Walk(cs, b[0], n) == if n < |b| then b[n] else NONE
  {
    if n > 0 {
      WalkAlong(cs, b, n - 1);
      assert NextIs(cs, b, n - 1);
    }
  }

  /** `connect_chain` ends exactly when the two chains differ: once the last member
      of the head's chain points to the first of the other, its second loop meets a
      null pointer if and only if that is another chain. */
  lemma ConnectEndsExactly(cs: seq<Channel>, chains: set<seq<nat>>, a: seq<nat>, b: seq<nat>, posted: bool)
    requires Chained(cs, chains) && a in chains && Piece(cs, chains, b)
    ensures a != [] && b != [] && a[|a| - 1] < |cs|
    ensures var last := a[|a| - 1];
      LoopEnds(cs[last := cs[last].(first := a[0], next := b[0], posted := posted)], a[0], posted, b[0]) <==> a != b
  {
    PieceLinks(cs, chains, a);
    PieceLinks(cs, chains, b);
    var last := a[|a| - 1];
    var joined := cs[last := cs[last].(first := a[0], next := b[0], posted := posted)];
    if a == b {
      forall n ensures Looped(joined, a[0], posted, b[0], n).1 != NONE {
        LoopIsWalk(joined, a[0], posted, b[0], n);
        SelfJoinNeverEnds(cs, a, n, posted);
      }
    } else {
      assert last in a;
      forall k | 0 <= k < |b| ensures NextIs(joined, b, k) {
        assert NextIs(cs, b, k) && b[k] in b;
      }
      WalkAlong(joined, b, |b|);
      LoopIsWalk(joined, a[0], posted, b[0], |b|);
    }
  }
}

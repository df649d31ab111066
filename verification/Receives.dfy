/** Receiving posted data: the later task wins, in whatever order it arrives. */
module Receives {
  import opened Ranges
  import opened RangeTree
  import opened Splays
  import opened Scans
  import opened SetOps
  import opened RangeMaps
  import opened TaskRanges
  import opened Records
  import opened Patches

  /** Everything received so far is stored, and is what memory holds there; the
      rest of memory is as it was in `start`. */
  ghost predicate Delivered(ns: seq<Range>, rs: seq<Range>, start: Memory, mem: Memory) {
    && Stored(ns, rs) && Backed(rs)
    && forall x: nat :: mem(x) == Applied(start, rs)(x)
  }

  /** A byte of a received range, and a byte outside. */
  lemma DeliveredByte(rs: seq<Range>, start: Memory, x: nat)
    requires Disjoint(rs) && Backed(rs)
    ensures !Covers(rs, x) ==> Applied(start, rs)(x) == start(x)
    ensures forall i :: 0 <= i < |rs| && rs[i].Holds(x) ==> Applied(start, rs)(x) == rs[i].rec[x - rs[i].base]
  {
    if !Covers(rs, x) { AppliedOff(start, rs, x); }
    forall i | 0 <= i < |rs| && rs[i].Holds(x) ensures Applied(start, rs)(x) == rs[i].rec[x - rs[i].base] {
      AppliedAt(start, rs, x, i);
    }
  }

  /** Every other stored range was there before. */
  lemma OthersKept(rs: seq<Range>, n: Range, o: Outcome, i: nat, rs': seq<Range>, j: nat)
    requires Recorded(rs, n, o, i, rs') && o.Done() && j < |rs'| && j != i
    ensures var k := if o.Added? && j > i then j - 1 else j; k < |rs| && rs[k] == rs'[j]
  {
  }

  lemma RecordedBacked(rs: seq<Range>, n: Range, o: Outcome, i: nat, rs': seq<Range>)
    requires Recorded(rs, n, o, i, rs') && o.Done() && Backed(rs) && |n.rec| == n.size
    ensures Backed(rs') && i < |rs'|
  {
    forall j | 0 <= j < |rs'| ensures |rs'[j].rec| == rs'[j].size {
      if j != i { OthersKept(rs, n, o, i, rs', j); }
    }
  }

  /** One receive, byte by byte: the approved record is copied in. */
  lemma ReceivedByte(rs: seq<Range>, n: Range, o: Outcome, i: nat, rs': seq<Range>, start: Memory, m: Memory, x: nat)
    requires Recorded(rs, n, o, i, rs') && o.Done() && Disjoint(rs) && Disjoint(rs') && Backed(rs) && Backed(rs')
      && i < |rs'|
    requires m(x) == Applied(start, rs)(x)
    ensures Wrote(m, rs'[i].base, rs'[i].rec)(x) == Applied(start, rs')(x)
  {
    hide Recorded, Disjoint, Applied;
    DeliveredByte(rs, start, x);
    DeliveredByte(rs', start, x);
    RecordedCovers(rs, n, o, i, rs', x);
    if Covers(rs', x) && !rs'[i].Holds(x) {
      var j :| 0 <= j < |rs'| && rs'[j].Holds(x);
      OthersKept(rs, n, o, i, rs', j);
    }
  }

  lemma DeliveredMeans(ns: seq<Range>, rs: seq<Range>, start: Memory, mem: Memory)
    requires Delivered(ns, rs, start, mem)
    ensures Sorted(rs) && Disjoint(rs) && Backed(rs) && Stored(ns, rs)
  {
    DisjointSorted(rs);
  }

  /** One receive, everywhere. */
  lemma DeliveredStep(ns: seq<Range>, n: Range, rs: seq<Range>, o: Outcome, i: nat, rs': seq<Range>, start: Memory,
      m: Memory)
    requires Delivered(ns, rs, start, m) && Tidy(ns + [n]) && Recorded(rs, n, o, i, rs') && |n.rec| == n.size
    ensures o.Done() && i < |rs'| && Delivered(ns + [n], rs', start, Wrote(m, rs'[i].base, rs'[i].rec))
  {
    hide Recorded, Tidy, Applied, Disjoint, Sorted;
    DeliveredMeans(ns, rs, start, m);
    StoredStep(ns, n, rs, o, i, rs');
    RecordedBacked(rs, n, o, i, rs');
    forall x: nat ensures Wrote(m, rs'[i].base, rs'[i].rec)(x) == Applied(start, rs')(x) {
      ReceivedByte(rs, n, o, i, rs', start, m, x);
    }
  }

  /** `receive_range`. */
  method ReceiveRange(received: RangeMap, range: Range, sender: nat, mem: Memory, ghost ns: seq<Range>,
      ghost start: Memory)
    returns (o: Outcome, mem': Memory, ghost i: nat)
    requires received.Valid() && Sorted(received.Ranges()) && Backed(received.Ranges())
    requires range.size > 0 && |range.rec| == range.size
    modifies received
    ensures o.Done() ==> received.Valid() && Sorted(received.Ranges()) && Backed(received.Ranges())
    ensures Recorded(old(received.Ranges()), range.(task := sender), o, i, received.Ranges())
    ensures var rs := received.Ranges();
      if o.Done() then i < |rs| && mem' == Wrote(mem, rs[i].base, rs[i].rec) else mem' == mem
    ensures Delivered(ns, old(received.Ranges()), start, mem) && Tidy(ns + [range.(task := sender)]) ==>
      o.Done() && Delivered(ns + [range.(task := sender)], received.Ranges(), start, mem')
  {
    hide Spells, Apart, Nodes, Contents, Recorded, Tidy, Applied, Disjoint, Sorted, Delivered, Backed;
    ghost var rs := received.Ranges();
    ghost var n := range.(task := sender);
    var p;
    o, p, i := AddRangeFromTask(received, range.base, range.size, range.rec, sender);
    mem' := mem;
    if Delivered(ns, rs, start, mem) && Tidy(ns + [n]) {
      DeliveredStep(ns, n, rs, o, i, received.Ranges(), start, mem);
    }
    if o.Done() {
      var approved := received.nodes[p].r;
      RecordedBacked(rs, n, o, i, received.Ranges());
      RecordedOrder(rs, n, o, i, received.Ranges());
      BackedAt(received.Ranges(), i);
      mem' := Wrote(mem, approved.base, approved.rec[..approved.size]);
      assert approved.rec[..approved.size] == approved.rec;
    }
  }

  lemma BackedAt(rs: seq<Range>, i: nat)
    requires Backed(rs) && i < |rs|
    ensures |rs[i].rec| == rs[i].size
  {
  }

  /** Receives in two different orders leave the same ranges stored and the same
      memory, when no task sends two versions of a range. */
  lemma ReceiveOrderIrrelevant(ns: seq<Range>, ms: seq<Range>, a: seq<Range>, b: seq<Range>, start: Memory, m: Memory,
      m': Memory)
    requires Delivered(ns, a, start, m) && Delivered(ms, b, start, m')
    requires DistinctSenders(ns) && multiset(ns) == multiset(ms)
    ensures a == b && forall x: nat :: m(x) == m'(x)
  {
    OrderIrrelevant(ns, ms, a, b);
  }
}

/** Posting to channels, chaining them and waiting on them. */
module Postwait {
  import opened Ranges
  import opened RangeTree
  import opened Splays
  import opened Scans
  import opened SetOps
  import opened RangeMaps
  import opened TaskRanges
  import opened Records
  import opened Patches
  import opened Receives
  import opened Chains

  /** Two channels of one chain. */
  predicate SameChain(cs: seq<Channel>, i: nat, j: nat)
    requires i < |cs| && j < |cs|
  {
    cs[i].first != NONE && cs[i].first == cs[j].first
  }

  /** `get_channel` finds the slot taken by another id. */
  predicate Refused(cs: seq<Channel>, id: nat)
    requires cs != []
  {
    cs[id % |cs|].id != 0 && cs[id % |cs|].id != id
  }

  /** The channels after `get_channel`. */
  function Claimed(cs: seq<Channel>, id: nat): seq<Channel>
    requires cs != []
  {
    var i := id % |cs|;
    if cs[i].id == 0 then cs[i := cs[i].(id := id, data := [])] else cs
  }

  function Slot(cs: seq<Channel>, id: nat): (i: nat)
    requires cs != []
    ensures i < |cs|
  {
    id % |cs|
  }

  /** The id's slot claimed by a post. */
  function Renamed(cs: seq<Channel>, id: nat): seq<Channel>
    requires cs != []
  {
    var i := id % |cs|;
    cs[i := cs[i].(id := id)]
  }

  /** The id's slot claimed and filled by a post. */
  function Filled(cs: seq<Channel>, id: nat, sender: nat, data: seq<Range>): seq<Channel>
    requires cs != []
  {
    var i := id % |cs|;
    cs[i := cs[i].(id := id, sender := sender, data := data)]
  }

  /** All members of a chain marked posted. */
  function Marked(cs: seq<Channel>, c: seq<nat>): seq<Channel> {
    seq(|cs|, i requires 0 <= i < |cs| => if i in c then cs[i].(posted := true) else cs[i])
  }

  /** The posted data are the filled bytes that were written; the write map keeps
      exactly the others. */
  ghost predicate SplitExactly(data: seq<Range>, local: seq<Range>, written: seq<Range>, rest: seq<Range>) {
    && (forall x: nat :: Covers(data, x) <==> Covers(local, x) && Covers(written, x))
    && (forall x: nat :: Covers(rest, x) <==> Covers(written, x) && !Covers(data, x))
  }

  /** Copying the data in puts the sender's bytes there, and nowhere else. */
  ghost predicate Carries(data: seq<Range>, mem: Memory) {
    && Normal(data) && Backed(data)
    && forall x: nat, m: Memory :: Applied(m, data)(x) == if Covers(data, x) then mem(x) else m(x)
  }

  /** What a channel holds is a patch: ranges in normal form with their buffers. */
  ghost predicate AllData(cs: seq<Channel>) {
    forall k :: 0 <= k < |cs| ==> Normal(cs[k].data) && Backed(cs[k].data)
  }

  /** Channels with the same data. */
  lemma SameData(cs: seq<Channel>, ds: seq<Channel>)
    requires AllData(cs) && |ds| == |cs| && forall k :: 0 <= k < |cs| ==> ds[k].data == cs[k].data || ds[k].data == []
    ensures AllData(ds)
  {
  }

  /** One channel is given other data. */
  lemma OneData(cs: seq<Channel>, ds: seq<Channel>, i: nat)
    requires AllData(cs) && |ds| == |cs| && i < |cs| && Normal(ds[i].data) && Backed(ds[i].data)
    requires forall k :: 0 <= k < |cs| && k != i ==> ds[k].data == cs[k].data
    ensures AllData(ds)
  {
  }

  lemma JoinedData(cs: seq<Channel>, a: seq<nat>, b: seq<nat>, posted: bool)
    requires AllData(cs) && a != [] && b != []
    ensures AllData(Joined(cs, a, b, posted))
  {
    SameData(cs, Joined(cs, a, b, posted));
  }

  class Switchboard {
    const channels: array<Channel>
    ghost var chains: set<seq<nat>>

    ghost predicate Valid()
      reads this, channels
    {
      channels.Length > 0 && Chained(channels[..], chains) && AllData(channels[..])
    }

    /** `postwait_init`, where the records are set to zero. */
    constructor (size: nat)
      requires size > 0
      ensures Valid() && fresh(channels) && channels.Length == size && chains == {}
    {
      channels := new Channel[size](_ => Channel(0, [], 0, false, NONE, NONE));
      chains := {};
    }

    /** `connect_chain`: chain `b` is hung behind chain `a`. */
    method Connect(head: nat, ch: nat, posted: bool, ghost a: seq<nat>, ghost b: seq<nat>)
      requires Valid() && Piece(channels[..], chains, a) && Piece(channels[..], chains, b) && NoCommon(a, b)
      requires a != [] && a[0] == head && ch in b
      modifies channels
      ensures channels[..] == Joined(old(channels[..]), a, b, posted)
    {
      hide Chained, Piece, Linked, InSome, AllData;
      ghost var cs := channels[..];
      PieceLinks(cs, chains, a);
      PieceLinks(cs, chains, b);
      PieceFirst(cs, chains, b, ch);
      var n: int := ch;
      if channels[ch].first != NONE { n := channels[ch].first; }
      var p := head;
      ghost var k := 0;
      while channels[p].next != NONE
        invariant k < |a| && p == a[k] && channels[..] == cs
        decreases |a| - k
      {
        assert NextIs(cs, a, k);
        p, k := channels[p].next, k + 1;
      }
      assert NextIs(cs, a, k) && k == |a| - 1;
      JoiningStart(cs, head, p, b, posted);
      channels[p] := channels[p].(first := head, next := n, posted := posted);
      ghost var j := 0;
      assert p in a;
      while n != NONE
        invariant j <= |b| && n == (if j < |b| then b[j] else NONE)
        invariant Joining(cs, channels[..], head, p, b, j, posted)
        decreases |b| - j
      {
        assert NextIs(cs, b, j);
        JoiningStep(cs, channels[..], head, p, b, j, posted);
        channels[n] := channels[n].(first := head, next := channels[n].next, posted := posted);
        n, j := channels[n].next, j + 1;
      }
      JoiningDone(cs, channels[..], a, b, posted);
    }

    /** `get_channel`: NONE when the slot is taken. */
    method GetChannel(id: nat) returns (ch: int)
      requires Valid()
      modifies channels
      ensures channels[..] == Claimed(old(channels[..]), id) && Valid()
      ensures ch != NONE ==> channels[Slot(old(channels[..]), id)].id == id
      ensures ch == if Refused(old(channels[..]), id) then NONE else Slot(old(channels[..]), id)
    {
      var i := id % channels.Length;
      if channels[i].id != 0 && channels[i].id != id { return NONE; }
      if channels[i].id == 0 {
        channels[i] := channels[i].(id := id, data := []);
      }
      ch := i;
      PointersChained(old(channels[..]), channels[..], chains);
    }

    /** `channel_chain`. It does not return when both channels already are in one
        chain, hence the second requirement. */
    method Chain(id1: nat, id2: nat) returns (ok: bool)
      requires Valid()
      requires var cs := channels[..];
        SameChain(cs, Slot(cs, id1), Slot(cs, id2)) ==> Refused(cs, id1) || Refused(Claimed(cs, id1), id2)
      modifies this`chains, channels
      ensures Valid()
      ensures var cs := old(channels[..]); ok <==> !Refused(cs, id1) && !Refused(Claimed(cs, id1), id2)
      ensures var cs := old(channels[..]); var ds := Claimed(Claimed(cs, id1), id2);
        if ok then ChainMade(ds, old(chains), Slot(cs, id1), Slot(cs, id2), channels[..], chains)
        else channels[..] == ds && chains == old(chains)
    {
      hide Chained, Piece, Linked, InSome, Joined, AllData;
      var c1 := GetChannel(id1);
      var c2 := GetChannel(id2);
      if c1 == NONE || c2 == NONE { return false; }
      var ch1: nat, ch2: nat := c1, c2;
      ghost var ds := channels[..];
      SlotsKept(old(channels[..]), id1, id2);
      var posted := channels[ch1].posted || channels[ch2].posted;
      ghost var a, b := Front(ds, chains, ch1, ch2), Back(ds, chains, ch1, ch2);
      if ch1 != ch2 { ReadyPieces(ds, chains, ch1, ch2); }
      if channels[ch1].first == NONE && channels[ch2].first == NONE {
        SinglePointers(ds, chains, ch1);
        SinglePointers(ds, chains, ch2);
        channels[ch1] := channels[ch1].(first := ch1, next := ch2, posted := posted);
        channels[ch2] := channels[ch2].(first := ch1, next := NONE, posted := posted);
        if ch1 == ch2 {
          ChainOfOne(ds, chains, ch1, posted);
          chains := chains + {[ch1]};
          SameData(ds, channels[..]);
          assert channels[..] == ds[ch1 := ds[ch1].(first := ch1, next := NONE, posted := posted)];
          return true;
        }
        PairJoined(ds, ch1, ch2, posted);
        ghost var c := ds[ch1].(first := ch1, next := ch2, posted := posted);
        assert channels[..] == ds[ch1 := c][ch2 := ds[ch2].(first := ch1, next := NONE, posted := posted)];
      } else if channels[ch1].first != NONE {
        Connect(channels[ch1].first, ch2, posted, a, b);
      } else {
        Connect(channels[ch2].first, ch1, posted, a, b);
      }
      JoinedChained(ds, chains, a, b, posted);
      JoinedData(ds, a, b, posted);
      chains := chains - {a, b} + {a + b};
      ok := true;
    }

    /** `channel_post`. An accepted post splits the written bytes exactly into the
        channel's data and what remains to be committed, and marks every channel of
        the chain posted. */
    method Post(id: nat, local_id: nat, local: RangeMap, writes: RangeMap, mem: Memory, task: nat)
      returns (accepted: bool, local_id': nat)
      requires Valid() && id > 0
      requires local.Valid() && Normal(local.Ranges()) && writes.Valid() && Normal(writes.Ranges()) && local != writes
      modifies channels, local, writes
      ensures Valid() && writes.Valid() && Normal(writes.Ranges()) && local.Valid() && Normal(local.Ranges())
      ensures var cs := old(channels[..]);
        accepted <==> (local_id == 0 || local_id == id) && !Refused(cs, id) && !cs[Slot(cs, id)].posted
      ensures !accepted ==> writes.Ranges() == old(writes.Ranges()) && local_id' == local_id
      ensures !accepted ==> var cs := old(channels[..]); var other := local_id != 0 && local_id != id;
        && channels[..] == (if other || Refused(cs, id) then cs else Renamed(cs, id))
        && (if other then local.Ranges() == old(local.Ranges())
            else forall x: nat :: Covers(local.Ranges(), x) <==>
              Covers(old(local.Ranges()), x) && Covers(old(writes.Ranges()), x))
      ensures accepted ==> local.Ranges() == [] && local_id' == 0
      ensures accepted ==> var ch := Slot(channels[..], id);
        && SplitExactly(channels[ch].data, old(local.Ranges()), old(writes.Ranges()), writes.Ranges())
        && Carries(channels[ch].data, mem)
        && channels[..] == Marked(Filled(old(channels[..]), id, task, channels[ch].data), PieceOf(chains, ch))
    {
      hide Chained, Piece, Linked, InSome, RangeMap.Valid, RangeMap.Ranges, Normal, Disjoint, Covers, Applied, Snapshot,
        SetOps.Pieces, Backed, Marked;
      hide SplitExactly, Carries, AllData;
      if local_id != 0 && local_id != id { return false, local_id; }
      local_id' := local_id;
      local.Intersect(writes);
      var index := id % channels.Length;
      ghost var cs := channels[..];
      if channels[index].id != 0 && channels[index].id != id { return false, local_id; }
      channels[index] := channels[index].(id := id);
      assert channels[..] == cs[index := cs[index].(id := id)];
      PointersChained(cs, channels[..], chains);
      SameData(cs, channels[..]);
      if channels[index].posted { return false, local_id; }
      ghost var posted, written := local.Ranges(), writes.Ranges();
      var patch := CreatePatch(local, mem);
      var data := patch.ToArray();
      channels[index] := channels[index].(sender := task, data := data);
      assert channels[..] == cs[index := cs[index].(id := id, sender := task, data := data)];
      PointersChained(cs, channels[..], chains);
      PatchFacts(posted, mem);
      OneData(cs, channels[..], index);
      MarkAll(index);
      MarkedData(cs[index := cs[index].(id := id, sender := task, data := data)], PieceOf(chains, index), index);
      writes.Subtract(local);
      PostSplits(data, old(local.Ranges()), written, posted, writes.Ranges());
      local.Clear();
      KeptNone((x: nat) => false, []);
      return true, 0;
    }

    /** The loop of `channel_post` that marks a channel's chain posted. */
    method MarkAll(index: nat)
      requires Valid() && index < channels.Length
      modifies channels
      ensures Valid()
      ensures channels[..] == Marked(old(channels[..]), PieceOf(chains, index))
    {
      hide Chained, Piece, Linked, InSome, Marked, AllData;
      ghost var cs, c := channels[..], PieceOf(chains, index);
      PieceOfIs(cs, chains, index);
      PieceLinks(cs, chains, c);
      MarkedNone(cs);
      if channels[index].first == NONE {
        MarkedNext(cs, c, 0);
        channels[index] := channels[index].(posted := true);
      } else {
        var ch: int := channels[index].first;
        ghost var j := 0;
        while ch != NONE
          invariant j <= |c| && ch == (if j < |c| then c[j] else NONE)
          invariant channels[..] == Marked(cs, c[..j])
          decreases |c| - j
        {
          assert NextIs(cs, c, j);
          MarkedNext(cs, c, j);
          channels[ch] := channels[ch].(posted := true);
          ch, j := channels[ch].next, j + 1;
        }
      }
      assert c[..|c|] == c;
      MarkedPointers(cs, c);
      SameData(cs, channels[..]);
      PointersChained(cs, channels[..], chains);
    }
  }

  lemma MarkedNone(cs: seq<Channel>)
    ensures Marked(cs, []) == cs
  {
  }

  lemma MarkedNext(cs: seq<Channel>, c: seq<nat>, j: nat)
    requires j < |c| && c[j] < |cs|
    ensures var now := Marked(cs, c[..j]);
      && |now| == |cs| && now[c[j]].next == cs[c[j]].next
      && now[c[j] := now[c[j]].(posted := true)] == Marked(cs, c[..j + 1])
  {
    assert c[..j + 1] == c[..j] + [c[j]];
  }

  lemma MarkedPointers(cs: seq<Channel>, c: seq<nat>)
    ensures SamePointers(cs, Marked(cs, c)) && |Marked(cs, c)| == |cs|
    ensures forall k :: 0 <= k < |cs| ==> Marked(cs, c)[k].data == cs[k].data
  {
  }

  lemma MarkedData(cs: seq<Channel>, c: seq<nat>, i: nat)
    requires i < |cs|
    ensures Marked(cs, c)[i].data == cs[i].data && |Marked(cs, c)| == |cs|
  {
  }

  lemma PostSplits(data: seq<Range>, local: seq<Range>, written: seq<Range>, posted: seq<Range>, rest: seq<Range>)
    requires forall x: nat :: Covers(data, x) <==> Covers(posted, x)
    requires forall x: nat :: Covers(posted, x) <==> Covers(local, x) && Covers(written, x)
    requires forall x: nat :: Covers(rest, x) <==> Covers(written, x) && !Covers(posted, x)
    ensures SplitExactly(data, local, written, rest)
  {
  }

  lemma PatchFacts(rs: seq<Range>, mem: Memory)
    requires Normal(rs)
    ensures Carries(Snapshot(rs, mem), mem) && Normal(Snapshot(rs, mem)) && Backed(Snapshot(rs, mem))
    ensures (forall x: nat :: Covers(Snapshot(rs, mem), x) <==> Covers(rs, x))
  {
    NormalSorted(rs);
    SnapshotAt(rs, mem);
    assert Normal(Snapshot(rs, mem));
    forall x: nat ensures Covers(Snapshot(rs, mem), x) <==> Covers(rs, x) { SnapshotCovers(rs, mem, x); }
    forall x: nat, m: Memory
      ensures Applied(m, Snapshot(rs, mem))(x) == if Covers(Snapshot(rs, mem), x) then mem(x) else m(x)
    {
      PatchRoundTrip(rs, mem, m, x);
      SnapshotCovers(rs, mem, x);
    }
  }

  /** An accepted post changes nothing that a commit would write: the data and the
      remaining writes together are the old writes. */
  lemma PostConserves(data: seq<Range>, local: seq<Range>, written: seq<Range>, rest: seq<Range>, mem: Memory,
      m: Memory, x: nat)
    requires SplitExactly(data, local, written, rest) && Carries(data, mem) && Disjoint(written) && Disjoint(rest)
    ensures Applied(Applied(m, Snapshot(rest, mem)), data)(x) == Applied(m, Snapshot(written, mem))(x)
  {
    PatchRoundTrip(rest, mem, m, x);
    PatchRoundTrip(written, mem, m, x);
  }

  // ----- waiting -----

  /** How a wait ends, when a post has come. */
  datatype WaitEnd = WrongChannel | NothingPosted | AccessedBefore | Received | Refusal(o: Outcome)

  /** The posted ranges as the receiver records them. */
  function Sent(data: seq<Range>, sender: nat): seq<Range> {
    seq(|data|, i requires 0 <= i < |data| => data[i].(task := sender))
  }

  lemma SentNext(data: seq<Range>, sender: nat, i: nat)
    requires i < |data|
    ensures Sent(data[..i + 1], sender) == Sent(data[..i], sender) + [data[i].(task := sender)]
    ensures Sent(data[..|data|], sender) == Sent(data, sender) && Sent(data[..0], sender) == []
  {
    assert data[..|data|] == data;
  }

  lemma TidySent(ns: seq<Range>, data: seq<Range>, sender: nat, i: nat)
    requires i < |data| && Tidy(ns + Sent(data, sender))
    ensures Tidy((ns + Sent(data[..i], sender)) + [data[i].(task := sender)])
  {
    var a, b := ns + Sent(data, sender), (ns + Sent(data[..i], sender)) + [data[i].(task := sender)];
    assert forall j :: 0 <= j < |b| ==> b[j] == a[j];
  }

  lemma DataNext(data: seq<Range>, i: nat)
    requires i < |data| && Normal(data) && Backed(data)
    ensures data[i].size > 0 && |data[i].rec| == data[i].size
  {
  }

  /** `assert_no_overlap`: a copy of the posted map is intersected with the other. */
  method NoOverlap(data: seq<Range>, other: RangeMap) returns (none: bool)
    requires Normal(data) && other.Valid() && Normal(other.Ranges())
    ensures none <==> forall x: nat :: !(Covers(data, x) && Covers(other.Ranges(), x))
  {
    hide Spells, RangeTree.Apart, Nodes, Contents, Normal, Covers, SetOps.Pieces, EndsUnder, SearchIndex,
      Coalesce.Added;
    var copy := new RangeMap();
    KeptNone((x: nat) => false, []);
    assert Copied(data[..0]) == [];
    for i := 0 to |data|
      invariant fresh(copy) && copy.Valid() && Normal(copy.Ranges()) && copy.Ranges() == Copied(data[..i])
    {
      TakeNormal(data, i + 1);
      CopiedNext(data, i);
      var _ := copy.AddRange(data[i].base, data[i].size, data[i].rec);
    }
    assert data[..|data|] == data;
    forall x: nat ensures Covers(Copied(data), x) <==> Covers(data, x) { CopiedCovers(data, x); }
    copy.Intersect(other);
    none := copy.size == 0;
    EmptyCovers(copy.Ranges());
  }

  lemma EmptyCovers(rs: seq<Range>)
    requires Normal(rs)
    ensures rs == [] <==> forall x: nat :: !Covers(rs, x)
  {
    if rs != [] { CoversAt(rs, rs[0].base, 0); }
  }

  /** Member `j` of the chain is the first that holds data. */
  ghost predicate FirstFilled(cs: seq<Channel>, c: seq<nat>, j: nat) {
    && j < |c| && c[j] < |cs| && cs[c[j]].data != []
    && forall k :: 0 <= k < j ==> c[k] < |cs| && cs[c[k]].data == []
  }

  ghost predicate NoneFilled(cs: seq<Channel>, c: seq<nat>) {
    forall i :: i in c ==> i < |cs| && cs[i].data == []
  }

  /** Who waits on a joined chain gets what the leading chain holds first, and what the
      other holds first only when the leading one is empty. */
  lemma JoinedFilled(cs: seq<Channel>, a: seq<nat>, b: seq<nat>, posted: bool, j: nat)
    requires a != [] && b != [] && (forall i :: i in a + b ==> i < |cs|)
    ensures FirstFilled(Joined(cs, a, b, posted), a + b, j) <==>
      if j < |a| then FirstFilled(cs, a, j) else NoneFilled(cs, a) && FirstFilled(cs, b, j - |a|)
  {
    var now, c := Joined(cs, a, b, posted), a + b;
    assert |now| == |cs| && forall i :: 0 <= i < |cs| ==> now[i].data == cs[i].data;
    assert forall k :: 0 <= k < |a| ==> c[k] == a[k] && a[k] in c;
    assert forall k :: 0 <= k < |b| ==> c[|a| + k] == b[k] && b[k] in c;
    if j >= |a| && FirstFilled(now, c, j) {
      forall i | i in a ensures i < |cs| && cs[i].data == [] {
        var k :| 0 <= k < |a| && a[k] == i;
        assert c[k] == i;
      }
      forall k | 0 <= k < j - |a| ensures cs[b[k]].data == [] { assert c[|a| + k] == b[k]; }
    }
    if j >= |a| && NoneFilled(cs, a) && FirstFilled(cs, b, j - |a|) {
      forall k | 0 <= k < j ensures now[c[k]].data == [] {
        if k < |a| { assert a[k] in a; } else { assert c[k] == b[k - |a|]; }
      }
    }
  }

  /** `channel_wait`, once the channel is posted. In a chain the first member with
      data is received. */
  method Wait(board: Switchboard, id: nat, received: RangeMap, accesses: RangeMap, writes: RangeMap, mem: Memory,
      ghost ns: seq<Range>, ghost start: Memory)
    returns (end: WaitEnd, mem': Memory, ghost ch: nat)
    requires board.Valid() && board.channels[id % board.channels.Length].posted
    requires accesses.Valid() && Normal(accesses.Ranges()) && writes.Valid() && Normal(writes.Ranges())
    requires received.Valid() && received !in {accesses, writes} && Delivered(ns, received.Ranges(), start, mem)
    modifies received
    ensures ch < board.channels.Length
    ensures end.WrongChannel? <==> board.channels[id % board.channels.Length].id != id
    ensures var slot := Slot(board.channels[..], id);
      !end.WrongChannel? && board.channels[slot].first == NONE ==> ch == slot && !end.NothingPosted?
    ensures var slot := Slot(board.channels[..], id); var c := PieceOf(board.chains, slot);
      !end.WrongChannel? && board.channels[slot].first != NONE ==>
        if end.NothingPosted? then NoneFilled(board.channels[..], c)
        else exists j: nat :: FirstFilled(board.channels[..], c, j) && ch == c[j]
    ensures !end.WrongChannel? && !end.NothingPosted? ==>
      (end.AccessedBefore? <==>
        exists x: nat ::
          Covers(board.channels[ch].data, x) && (Covers(accesses.Ranges(), x) || Covers(writes.Ranges(), x)))
    ensures end.AccessedBefore? || end.WrongChannel? || end.NothingPosted? ==>
      mem' == mem && received.Ranges() == old(received.Ranges())
    ensures var sent := Sent(board.channels[ch].data, board.channels[ch].sender);
      (end.Received? || end.Refusal?) && Tidy(ns + sent) ==>
        end.Received? && received.Valid() && Delivered(ns + sent, received.Ranges(), start, mem')
  {
    hide Chained, Piece, Linked, InSome, RangeMap.Valid, RangeMap.Ranges, Normal, Disjoint, Covers, Applied, Backed,
      Tidy, Delivered;
    ghost var cs := board.channels[..];
    var i := id % board.channels.Length;
    mem' := mem;
    ch := i;
    if board.channels[i].id != id { return WrongChannel, mem, i; }
    ghost var c := PieceOf(board.chains, i);
    PieceOfIs(cs, board.chains, i);
    PieceLinks(cs, board.chains, c);
    if board.channels[i].first != NONE {
      i := board.channels[i].first;
      ghost var j := 0;
      while board.channels[i].data == [] && board.channels[i].next != NONE
        invariant j < |c| && i == c[j] && forall k :: 0 <= k < j ==> board.channels[c[k]].data == []
        decreases |c| - j
      {
        assert NextIs(cs, c, j);
        i, j := board.channels[i].next, j + 1;
      }
      assert NextIs(cs, c, j) && c[j] in c;
      ch := i;
      if board.channels[i].data == [] { return NothingPosted, mem, i; }
      assert FirstFilled(cs, c, j);
    }
    var clear := NoOverlap(board.channels[i].data, accesses);
    if !clear { return AccessedBefore, mem, i; }
    clear := NoOverlap(board.channels[i].data, writes);
    if !clear { return AccessedBefore, mem, i; }
    var o;
    o, mem' := ReceiveAll(received, board.channels[i].data, board.channels[i].sender, mem, ns, start);
    end := if o.Done() then Received else Refusal(o);
  }

  /** The ranges of a posted map, received in turn. */
  method ReceiveAll(received: RangeMap, data: seq<Range>, sender: nat, mem: Memory, ghost ns: seq<Range>,
      ghost start: Memory)
    returns (o: Outcome, mem': Memory)
    requires received.Valid() && Delivered(ns, received.Ranges(), start, mem)
    requires Normal(data) && Backed(data)
    modifies received
    ensures o.Done() ==> received.Valid() && Sorted(received.Ranges())
    ensures Tidy(ns + Sent(data, sender)) ==>
      o.Done() && Delivered(ns + Sent(data, sender), received.Ranges(), start, mem')
  {
    hide RangeMap.Valid, RangeMap.Ranges, Normal, Disjoint, Sorted, Covers, Applied, Backed, Tidy, Delivered;
    mem' := mem;
    o := Added;
    ghost var tidy := Tidy(ns + Sent(data, sender));
    DeliveredMeans(ns, received.Ranges(), start, mem);
    assert ns + Sent(data[..0], sender) == ns;
    for n := 0 to |data|
      invariant o.Done() && received.Valid() && Sorted(received.Ranges()) && Backed(received.Ranges())
      invariant tidy ==> Delivered(ns + Sent(data[..n], sender), received.Ranges(), start, mem')
    {
      DataNext(data, n);
      SentNext(data, sender, n);
      if tidy { TidySent(ns, data, sender, n); }
      assert (ns + Sent(data[..n], sender)) + [data[n].(task := sender)] == ns + Sent(data[..n + 1], sender);
      ghost var place;
      o, mem', place := ReceiveRange(received, data[n], sender, mem', ns + Sent(data[..n], sender), start);
      if !o.Done() { return; }
    }
    assert data[..|data|] == data;
  }

  lemma SlotsKept(cs: seq<Channel>, id1: nat, id2: nat)
    requires cs != [] && !SameChain(cs, Slot(cs, id1), Slot(cs, id2))
    ensures var ds := Claimed(Claimed(cs, id1), id2);
      |ds| == |cs| && !SameChain(ds, Slot(cs, id1), Slot(cs, id2))
  {
  }
}

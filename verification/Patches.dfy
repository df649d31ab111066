/** Patches: the bytes of written ranges, copied out and copied in. */
module Patches {
  import opened Ranges
  import opened RangeTree
  import opened Scans
  import opened SetOps
  import opened RangeMaps

  /** The memory of a process, every address mapped. */
  type Memory = nat -> Byte

  /** `memcpy` out of memory. */
  function Read(m: Memory, base: nat, size: nat): Data {
    seq(size, i requires 0 <= i < size => m(base + i))
  }

  /** `memcpy` into memory. */
  function Wrote(m: Memory, base: nat, data: Data): Memory {
    (x: nat) => if base <= x < base + |data| then data[x - base] else m(x)
  }

  /** Every range carries a buffer of its own size. */
  ghost predicate Backed(rs: seq<Range>) { forall i :: 0 <= i < |rs| ==> |rs[i].rec| == rs[i].size }

  /** The ranges with what memory holds there. */
  function Snapshot(rs: seq<Range>, m: Memory): seq<Range> {
    seq(|rs|, i requires 0 <= i < |rs| => Range(rs[i].base, rs[i].size, Read(m, rs[i].base, rs[i].size), 0))
  }

  /** Buffers copied in, in order. */
  function Applied(m: Memory, rs: seq<Range>): Memory {
    if rs == [] then m else Applied(Wrote(m, rs[0].base, rs[0].rec), rs[1..])
  }

  lemma {:induction false} AppliedOff(m: Memory, rs: seq<Range>, x: nat)
    requires Backed(rs) && !Covers(rs, x)
    ensures Applied(m, rs)(x) == m(x)
  {
    if rs != [] {
      assert !rs[0].Holds(x);
      forall i | 0 <= i < |rs[1..]| ensures !rs[1..][i].Holds(x) { assert !rs[i + 1].Holds(x); }
      AppliedOff(Wrote(m, rs[0].base, rs[0].rec), rs[1..], x);
    }
  }

  lemma {:induction false} AppliedAt(m: Memory, rs: seq<Range>, x: nat, i: nat)
    requires Backed(rs) && Disjoint(rs) && i < |rs| && rs[i].Holds(x)
    ensures Applied(m, rs)(x) == rs[i].rec[x - rs[i].base]
  {
    var m' := Wrote(m, rs[0].base, rs[0].rec);
    if i == 0 {
      forall j | 0 <= j < |rs[1..]| ensures !rs[1..][j].Holds(x) { assert rs[0].End() <= rs[j + 1].base; }
      AppliedOff(m', rs[1..], x);
    } else {
      AppliedAt(m', rs[1..], x, i - 1);
    }
  }

  lemma SnapshotAt(rs: seq<Range>, m: Memory)
    ensures |Snapshot(rs, m)| == |rs| && Backed(Snapshot(rs, m))
    ensures forall i :: 0 <= i < |rs| ==>
      Snapshot(rs, m)[i].base == rs[i].base && Snapshot(rs, m)[i].size == rs[i].size
        && Snapshot(rs, m)[i].rec == Read(m, rs[i].base, rs[i].size)
  {
  }

  lemma SnapshotDisjoint(rs: seq<Range>, m: Memory)
    requires Disjoint(rs)
    ensures Disjoint(Snapshot(rs, m))
  {
    SnapshotAt(rs, m);
  }

  lemma SnapshotCovers(rs: seq<Range>, m: Memory, x: nat)
    ensures Covers(Snapshot(rs, m), x) <==> Covers(rs, x)
  {
    SnapshotAt(rs, m);
    var p := Snapshot(rs, m);
    if Covers(rs, x) {
      var i :| 0 <= i < |rs| && rs[i].Holds(x);
      CoversAt(p, x, i);
    }
    if Covers(p, x) {
      var i :| 0 <= i < |p| && p[i].Holds(x);
      CoversAt(rs, x, i);
    }
  }

  /** Round trip: a snapshot of `m` applied to `m2` puts back `m`'s bytes in the
      ranges, and touches nothing else. */
  lemma PatchRoundTrip(rs: seq<Range>, m: Memory, m2: Memory, x: nat)
    requires Disjoint(rs)
    ensures Applied(m2, Snapshot(rs, m))(x) == if Covers(rs, x) then m(x) else m2(x)
  {
    hide Disjoint, Snapshot, Backed;
    var p := Snapshot(rs, m);
    SnapshotAt(rs, m);
    SnapshotDisjoint(rs, m);
    SnapshotCovers(rs, m, x);
    if Covers(rs, x) {
      var i :| 0 <= i < |rs| && rs[i].Holds(x);
      assert p[i].Holds(x);
      AppliedAt(m2, p, x, i);
    } else {
      AppliedOff(m2, p, x);
    }
  }

  lemma SnapshotNext(rs: seq<Range>, m: Memory, i: nat)
    requires i < |rs| && Normal(rs)
    ensures rs[i].size > 0 && EndsUnder(Snapshot(rs[..i], m), rs[i].base)
    ensures Snapshot(rs[..i + 1], m)
      == Snapshot(rs[..i], m) + [Range(rs[i].base, rs[i].size, Read(m, rs[i].base, rs[i].size), 0)]
  {
  }

  /** `create_patch`. */
  method CreatePatch(changes: RangeMap, mem: Memory) returns (patch: RangeMap)
    requires changes.Valid() && Normal(changes.Ranges())
    ensures fresh(patch) && patch.Valid() && patch.Ranges() == Snapshot(changes.Ranges(), mem)
  {
    hide Normal, Snapshot, EndsUnder, Read, SearchIndex;
    patch := new RangeMap();
    var ranges := changes.ToArray();
    ghost var rs := ranges;
    KeptNone((x: nat) => false, rs);
    assert Snapshot([], mem) == [] by { SnapshotAt([], mem); }
    for i := 0 to |ranges|
      invariant fresh(patch) && patch.Valid() && Normal(patch.Ranges()) && patch.Ranges() == Snapshot(rs[..i], mem)
    {
      SnapshotNext(rs, mem, i);
      var data := Read(mem, ranges[i].base, ranges[i].size);
      var _ := patch.AddRange(ranges[i].base, ranges[i].size, data);
    }
    assert rs[..|rs|] == rs;
  }

  /** `apply_patch`. */
  method ApplyPatch(patch: RangeMap, mem: Memory) returns (mem': Memory)
    requires patch.Valid() && Backed(patch.Ranges())
    modifies patch
    ensures mem' == Applied(mem, old(patch.Ranges()))
    ensures patch.Valid() && patch.Ranges() == []
  {
    mem' := mem;
    var ranges := patch.ToArray();
    for i := 0 to |ranges|
      invariant patch.Valid() && patch.Ranges() == ranges
      invariant Applied(mem', ranges[i..]) == Applied(mem, ranges)
    {
      assert ranges[i].rec[..ranges[i].size] == ranges[i].rec;
      assert ranges[i..][0] == ranges[i] && ranges[i..][1..] == ranges[i + 1..];
      mem' := Wrote(mem', ranges[i].base, ranges[i].rec[..ranges[i].size]);
    }
    patch.Clear();
  }
}

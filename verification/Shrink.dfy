/** The in-place compaction of `perf/src/sigverify.rs`: surviving packets move into a prefix of the batches. */
module Shrink {
  import opened Packet
  import opened Batches

  // ---------------------------------------------------------------- surviving packets

  /** The packets that are not discarded, each as often as it occurs. */
  function Survivors(ps: seq<Packet>): multiset<Packet> {
    if ps == [] then multiset{}
    else Survivors(ps[..|ps| - 1]) + (if ps[|ps| - 1].discard then multiset{} else multiset{ps[|ps| - 1]})
  }

  function One(p: Packet, x: Packet): nat { if !p.discard && p == x then 1 else 0 }

  lemma SurvivorsLast(ps: seq<Packet>, x: Packet)
    requires ps != []
    ensures Survivors(ps)[x] == Survivors(ps[..|ps| - 1])[x] + One(ps[|ps| - 1], x)
  {
  }

  // ---------------------------------------------------------------- moving a packet

  function Put(bs: seq<seq<Packet>>, b: nat, i: nat, p: Packet): (r: seq<seq<Packet>>)
    requires b < |bs| && i < |bs[b]|
    ensures |r| == |bs| && forall k :: 0 <= k < |bs| ==> |r[k]| == |bs[k]|
    ensures r[b][i] == p
    ensures forall k, j :: 0 <= k < |bs| && 0 <= j < |bs[k]| && !(k == b && j == i) ==> r[k][j] == bs[k][j]
  {
    bs[b := bs[b][i := p]]
  }

  lemma {:induction false} SurvivorsUpdate(ps: seq<Packet>, i: nat, p: Packet, x: Packet)
    requires i < |ps|
    ensures Survivors(ps[i := p])[x] + One(ps[i], x) == Survivors(ps)[x] + One(p, x)
  {
    hide Survivors, One;
    var n := |ps| - 1;
    SurvivorsLast(ps, x);
    SurvivorsLast(ps[i := p], x);
    if i < n {
      SurvivorsUpdate(ps[..n], i, p, x);
      assert ps[i := p][..n] == ps[..n][i := p];
    } else {
      assert ps[i := p][..n] == ps[..n];
    }
  }

  /** Where slot `b, i` lies in the flattened view. */
  function At(bs: seq<seq<Packet>>, b: nat, i: nat): nat
    requires b < |bs|
  {
    |Flatten(bs[..b])| + i
  }

  lemma {:induction false} FlattenedAt(bs: seq<seq<Packet>>, b: nat, i: nat, p: Packet)
    requires b < |bs| && i < |bs[b]|
    ensures At(bs, b, i) < |Flatten(bs)| && Flatten(bs)[At(bs, b, i)] == bs[b][i]
    ensures Flatten(Put(bs, b, i, p)) == Flatten(bs)[At(bs, b, i) := p]
  {
    var n := |bs| - 1;
    if b < n {
      FlattenedAt(bs[..n], b, i, p);
      assert bs[..n][..b] == bs[..b];
      assert Put(bs, b, i, p)[..n] == Put(bs[..n], b, i, p);
    } else {
      assert Put(bs, b, i, p)[..n] == bs[..n];
    }
  }

  lemma PutSurvivors(bs: seq<seq<Packet>>, b: nat, i: nat, p: Packet, x: Packet)
    requires b < |bs| && i < |bs[b]|
    ensures Survivors(Flatten(Put(bs, b, i, p)))[x] + One(bs[b][i], x) == Survivors(Flatten(bs))[x] + One(p, x)
  {
    hide Survivors, Flatten, One, Put, At;
    FlattenedAt(bs, b, i, p);
    SurvivorsUpdate(Flatten(bs), At(bs, b, i), p, x);
  }

  /** Copies the packet at `b, i` over the one at `c, j` and discards the original. */
  function Move(bs: seq<seq<Packet>>, b: nat, i: nat, c: nat, j: nat): seq<seq<Packet>>
    requires c < b < |bs| && i < |bs[b]| && j < |bs[c]|
  {
    Put(Put(bs, c, j, bs[b][i]), b, i, bs[b][i].(discard := true))
  }

  lemma MoveKeeps(bs: seq<seq<Packet>>, b: nat, i: nat, c: nat, j: nat)
    requires c < b < |bs| && i < |bs[b]| && j < |bs[c]| && bs[c][j].discard
    ensures Survivors(Flatten(Move(bs, b, i, c, j))) == Survivors(Flatten(bs))
  {
    hide Survivors, Flatten;
    var p := bs[b][i];
    forall x: Packet ensures Survivors(Flatten(Move(bs, b, i, c, j)))[x] == Survivors(Flatten(bs))[x] {
      PutSurvivors(bs, c, j, p, x);
      PutSurvivors(Put(bs, c, j, p), b, i, p.(discard := true), x);
    }
  }

  lemma PutShape(bs: seq<seq<Packet>>, b: nat, i: nat, p: Packet)
    requires b < |bs| && i < |bs[b]|
    ensures Shape(Put(bs, b, i, p)) == Shape(bs)
  {
  }

  // ---------------------------------------------------------------- the two cursors

  predicate Full(batch: seq<Packet>, n: nat) {
    forall j :: 0 <= j < n && j < |batch| ==> !batch[j].discard
  }

  /** Every slot before the fill cursor holds a survivor. */
  ghost predicate FullBefore(bs: seq<seq<Packet>>, c: nat, j: nat) {
    && (forall k :: 0 <= k < c && k < |bs| ==> Full(bs[k], |bs[k]|))
    && (c < |bs| ==> Full(bs[c], j))
  }

  /** Every slot from batch `last` on, up to the scan cursor `b, i`, is discarded. */
  ghost predicate EmptyFrom(bs: seq<seq<Packet>>, last: nat, b: nat, i: nat) {
    forall k, j :: last <= k < |bs| && 0 <= j < |bs[k]| && (k < b || (k == b && j < i)) ==> bs[k][j].discard
  }

  predicate HoldsSurvivor(batch: seq<Packet>) {
    exists j :: 0 <= j < |batch| && !batch[j].discard
  }

  /** What the loops keep when slot `b, i` is next to be scanned and `c, j` is next to be filled. */
  ghost predicate Compacting(was: seq<seq<Packet>>, bs: seq<seq<Packet>>, b: nat, i: nat, c: nat, j: nat, last: nat) {
    && Shape(bs) == Shape(was) && Survivors(Flatten(bs)) == Survivors(Flatten(was))
    && c <= b && (c == b ==> j == 0)
    && FullBefore(bs, c, j)
    && EmptyFrom(bs, last, b, i)
    && last <= c + 1 && last <= |bs|
    && (last > 0 ==> HoldsSurvivor(bs[last - 1]))
  }

  /** Advances the fill cursor to the next discarded slot in a batch before `b`. */
  method FindSpot(bs: seq<seq<Packet>>, b: nat, c0: nat, j0: nat) returns (c: nat, j: nat, found: bool)
    requires c0 <= b < |bs| && (c0 == b ==> j0 == 0) && FullBefore(bs, c0, j0)
    ensures c0 <= c <= b && FullBefore(bs, c, j)
    ensures found ==> c < b && j < |bs[c]| && bs[c][j].discard
    ensures !found ==> c == b && j == 0
  {
    c, j, found := c0, j0, false;
    while c < b && !found
      invariant c0 <= c <= b && FullBefore(bs, c, j) && (c == b ==> j == 0)
      invariant found ==> c < b && j < |bs[c]| && bs[c][j].discard
      decreases b - c, if found then 0 else 1
    {
      while j < |bs[c]|
        invariant FullBefore(bs, c, j) && !found
      {
        if bs[c][j].discard {
          found := true;
          break;
        }
        j := j + 1;
      }
      if j >= |bs[c]| {
        c, j := c + 1, 0;
      }
    }
  }

  lemma SkipDiscarded(was: seq<seq<Packet>>, bs: seq<seq<Packet>>, b: nat, i: nat, c: nat, j: nat, last: nat)
    requires Compacting(was, bs, b, i, c, j, last) && b < |bs| && i < |bs[b]| && bs[b][i].discard
    ensures Compacting(was, bs, b, i + 1, c, j, last)
  {
  }

  lemma StayInPlace(was: seq<seq<Packet>>, bs: seq<seq<Packet>>, b: nat, i: nat, c: nat, j: nat, last: nat)
    requires Compacting(was, bs, b, i, c, j, last) && b < |bs| && i < |bs[b]| && !bs[b][i].discard
    requires FullBefore(bs, b, 0)
    ensures Compacting(was, bs, b, i + 1, b, 0, b + 1)
  {
  }

  lemma MoveDown(was: seq<seq<Packet>>, bs: seq<seq<Packet>>, b: nat, i: nat, c: nat, j: nat, last: nat, c': nat, j': nat)
    requires Compacting(was, bs, b, i, c, j, last) && b < |bs| && i < |bs[b]| && !bs[b][i].discard
    requires c <= c' < b && j' < |bs[c']| && bs[c'][j'].discard && FullBefore(bs, c', j')
    ensures Compacting(was, Move(bs, b, i, c', j'), b, i + 1, c', j', c' + 1)
  {
    hide Survivors, Flatten, Shape;
    var bs': seq<seq<Packet>> := Move(bs, b, i, c', j');
    MoveKeeps(bs, b, i, c', j');
    PutShape(bs, c', j', bs[b][i]);
    PutShape(Put(bs, c', j', bs[b][i]), b, i, bs[b][i].(discard := true));
    assert !bs'[c'][j'].discard;
    assert FullBefore(bs', c', j');
    assert EmptyFrom(bs', c' + 1, b, i + 1);
  }

  class BatchVec {
    var batches: seq<seq<Packet>>

    constructor (batches: seq<seq<Packet>>)
      ensures this.batches == batches
    {
      this.batches := batches;
    }

    method ShrinkBatches()
      modifies this
      ensures |batches| <= |old(batches)| && Shape(batches) == Shape(old(batches)[..|batches|])
      ensures Survivors(Flatten(batches)) == Survivors(Flatten(old(batches)))
      ensures Compact(batches)
    {
      hide Survivors, Flatten, Shape, FullBefore, EmptyFrom;
      ghost var was := batches;
      var validBatch: nat, validPacket: nat, last: nat := 0, 0, 0;
      assert Compacting(was, batches, 0, 0, 0, 0, 0) by { NothingScanned(was); }
      for b := 0 to |batches|
        invariant |batches| == |was| && Compacting(was, batches, b, 0, validBatch, validPacket, last)
      {
        ghost var size := |batches[b]|;
        for i := 0 to |batches[b]|
          invariant |batches| == |was| && |batches[b]| == size
          invariant Compacting(was, batches, b, i, validBatch, validPacket, last)
        {
          if batches[b][i].discard {
            SkipDiscarded(was, batches, b, i, validBatch, validPacket, last);
            continue;
          }
          var c, j, found := FindSpot(batches, b, validBatch, validPacket);
          if found {
            MoveDown(was, batches, b, i, validBatch, validPacket, last, c, j);
            batches := Put(batches, c, j, batches[b][i]);
            batches := Put(batches, b, i, batches[b][i].(discard := true));
            last := c + 1;
          } else {
            StayInPlace(was, batches, b, i, validBatch, validPacket, last);
            last := b + 1;
          }
          validBatch, validPacket := c, j;
        }
        NextBatch(was, batches, b, validBatch, validPacket, last);
      }
      Truncate(was, batches, validBatch, validPacket, last);
      batches := batches[..last];
    }
  }

  /** Every batch but the last is full of survivors, and the last holds at least one. */
  ghost predicate Compact(bs: seq<seq<Packet>>) {
    && (forall k :: 0 <= k < |bs| - 1 ==> Full(bs[k], |bs[k]|))
    && (bs != [] ==> HoldsSurvivor(bs[|bs| - 1]))
  }

  lemma NothingScanned(was: seq<seq<Packet>>)
    ensures Compacting(was, was, 0, 0, 0, 0, 0)
  {
  }

  lemma NextBatch(was: seq<seq<Packet>>, bs: seq<seq<Packet>>, b: nat, c: nat, j: nat, last: nat)
    requires b < |bs| && Compacting(was, bs, b, |bs[b]|, c, j, last)
    ensures Compacting(was, bs, b + 1, 0, c, j, last)
  {
  }

  lemma {:induction false} EmptyTail(bs: seq<seq<Packet>>, last: nat)
    requires last <= |bs| && EmptyFrom(bs, last, |bs|, 0)
    ensures Survivors(Flatten(bs[..last])) == Survivors(Flatten(bs))
    decreases |bs|
  {
    hide Survivors;
    if last == |bs| {
      assert bs[..last] == bs;
    } else {
      var n := |bs| - 1;
      EmptyTail(bs[..n], last);
      assert bs[..n][..last] == bs[..last];
      NoneKept(Flatten(bs[..n]), bs[n]);
    }
  }

  lemma {:induction false} NoneKept(ps: seq<Packet>, qs: seq<Packet>)
    requires forall j :: 0 <= j < |qs| ==> qs[j].discard
    ensures Survivors(ps + qs) == Survivors(ps)
  {
    if qs == [] {
      assert ps + qs == ps;
    } else {
      var n := |qs| - 1;
      NoneKept(ps, qs[..n]);
      assert (ps + qs)[..|ps + qs| - 1] == ps + qs[..n];
    }
  }

  lemma Truncate(was: seq<seq<Packet>>, bs: seq<seq<Packet>>, c: nat, j: nat, last: nat)
    requires Compacting(was, bs, |bs|, 0, c, j, last)
    ensures |bs| == |was| && Shape(bs[..last]) == Shape(was[..last]) && Compact(bs[..last])
    ensures Survivors(Flatten(bs[..last])) == Survivors(Flatten(was))
  {
    hide Survivors, Flatten, Shape;
    EmptyTail(bs, last);
    ShapeTake(bs, was, last);
  }

  lemma ShapeTake(a: seq<seq<Packet>>, b: seq<seq<Packet>>, n: nat)
    requires Shape(a) == Shape(b) && n <= |a|
    ensures |a| == |b| && Shape(a[..n]) == Shape(b[..n])
  {
    assert |a| == |Shape(a)| && |b| == |Shape(b)|;
    assert Shape(a[..n]) == Shape(a)[..n] && Shape(b[..n]) == Shape(b)[..n];
  }

  // ---------------------------------------------------------------- no shorter prefix would do

  lemma {:induction false} AllSurvive(bs: seq<seq<Packet>>)
    requires forall k :: 0 <= k < |bs| ==> Full(bs[k], |bs[k]|)
    ensures |Survivors(Flatten(bs))| == |Flatten(bs)|
  {
    if bs != [] {
      var n := |bs| - 1;
      AllSurvive(bs[..n]);
      FullSurvives(Flatten(bs[..n]), bs[n]);
    }
  }

  lemma {:induction false} FullSurvives(ps: seq<Packet>, qs: seq<Packet>)
    requires Full(qs, |qs|)
    ensures |Survivors(ps + qs)| == |Survivors(ps)| + |qs|
  {
    if qs == [] {
      assert ps + qs == ps;
    } else {
      var n := |qs| - 1;
      FullSurvives(ps, qs[..n]);
      assert (ps + qs)[..|ps + qs| - 1] == ps + qs[..n];
    }
  }

  lemma {:induction false} SurvivorsGrow(ps: seq<Packet>, qs: seq<Packet>)
    ensures |Survivors(ps + qs)| >= |Survivors(ps)| + (if HoldsSurvivor(qs) then 1 else 0)
  {
    if qs == [] {
      assert ps + qs == ps;
    } else {
      var n := |qs| - 1;
      SurvivorsGrow(ps, qs[..n]);
      assert (ps + qs)[..|ps + qs| - 1] == ps + qs[..n] && (ps + qs)[|ps + qs| - 1] == qs[n];
      if HoldsSurvivor(qs) && qs[n].discard {
        var j :| 0 <= j < |qs| && !qs[j].discard;
        assert !qs[..n][j].discard;
      }
    }
  }

  /** A compact list has more survivors than its batches but the last have room for. */
  lemma CompactIsMinimal(bs: seq<seq<Packet>>)
    requires Compact(bs) && bs != []
    ensures |Survivors(Flatten(bs))| > |Flatten(bs[..|bs| - 1])|
  {
    var n := |bs| - 1;
    AllSurvive(bs[..n]);
    SurvivorsGrow(Flatten(bs[..n]), bs[n]);
  }

  // ---------------------------------------------------------------- both kinds of batches

  datatype PacketBatch = Bytes(packets: seq<Packet>) | Pinned(packets: seq<Packet>)

  function BytesOf(bs: seq<PacketBatch>): seq<seq<Packet>> {
    if bs == [] then []
    else BytesOf(bs[..|bs| - 1]) + (if bs[|bs| - 1].Bytes? then [bs[|bs| - 1].packets] else [])
  }

  function PinnedOf(bs: seq<PacketBatch>): seq<seq<Packet>> {
    if bs == [] then []
    else PinnedOf(bs[..|bs| - 1]) + (if bs[|bs| - 1].Pinned? then [bs[|bs| - 1].packets] else [])
  }

  method SplitBatches(bs: seq<PacketBatch>) returns (bytes: seq<seq<Packet>>, pinned: seq<seq<Packet>>)
    ensures bytes == BytesOf(bs) && pinned == PinnedOf(bs)
  {
    bytes, pinned := [], [];
    for i := 0 to |bs|
      invariant bytes == BytesOf(bs[..i]) && pinned == PinnedOf(bs[..i])
    {
      assert bs[..i + 1][..i] == bs[..i];
      match bs[i]
      case Bytes(packets) => bytes := bytes + [packets];
      case Pinned(packets) => pinned := pinned + [packets];
    }
    assert bs[..|bs|] == bs;
  }

  /** Each kind keeps its survivors, packed into a prefix of its own batches. */
  method ShrinkAll(bs: seq<PacketBatch>) returns (r: seq<PacketBatch>)
    ensures Survivors(Flatten(BytesOf(r))) == Survivors(Flatten(BytesOf(bs)))
    ensures Survivors(Flatten(PinnedOf(r))) == Survivors(Flatten(PinnedOf(bs)))
    ensures Compact(BytesOf(r)) && Compact(PinnedOf(r)) && r == Join(BytesOf(r), PinnedOf(r))
    ensures |BytesOf(r)| <= |BytesOf(bs)| && Shape(BytesOf(r)) == Shape(BytesOf(bs)[..|BytesOf(r)|])
    ensures |PinnedOf(r)| <= |PinnedOf(bs)| && Shape(PinnedOf(r)) == Shape(PinnedOf(bs)[..|PinnedOf(r)|])
  {
    var bytes, pinned := SplitBatches(bs);
    var b := new BatchVec(bytes);
    b.ShrinkBatches();
    var p := new BatchVec(pinned);
    p.ShrinkBatches();
    r := Join(b.batches, p.batches);
    JoinSplits(b.batches, p.batches);
  }

  function AsBytes(bs: seq<seq<Packet>>): seq<PacketBatch> {
    seq(|bs|, i requires 0 <= i < |bs| => Bytes(bs[i]))
  }

  function AsPinned(bs: seq<seq<Packet>>): seq<PacketBatch> {
    seq(|bs|, i requires 0 <= i < |bs| => Pinned(bs[i]))
  }

  function Join(bytes: seq<seq<Packet>>, pinned: seq<seq<Packet>>): seq<PacketBatch> {
    AsBytes(bytes) + AsPinned(pinned)
  }

  lemma OfPush(bs: seq<PacketBatch>, b: PacketBatch)
    ensures BytesOf(bs + [b]) == BytesOf(bs) + (if b.Bytes? then [b.packets] else [])
    ensures PinnedOf(bs + [b]) == PinnedOf(bs) + (if b.Pinned? then [b.packets] else [])
  {
    assert (bs + [b])[..|bs|] == bs;
  }

  lemma {:induction false} BytesSplit(bytes: seq<seq<Packet>>)
    ensures BytesOf(AsBytes(bytes)) == bytes && PinnedOf(AsBytes(bytes)) == []
  {
    if bytes != [] {
      var m := |bytes| - 1;
      BytesSplit(bytes[..m]);
      OfPush(AsBytes(bytes[..m]), Bytes(bytes[m]));
      assert AsBytes(bytes) == AsBytes(bytes[..m]) + [Bytes(bytes[m])];
      assert bytes == bytes[..m] + [bytes[m]];
    }
  }

  lemma {:induction false} PinnedSplit(before: seq<PacketBatch>, pinned: seq<seq<Packet>>)
    ensures BytesOf(before + AsPinned(pinned)) == BytesOf(before)
    ensures PinnedOf(before + AsPinned(pinned)) == PinnedOf(before) + pinned
  {
    hide BytesOf, PinnedOf;
    if pinned == [] {
      assert before + AsPinned(pinned) == before;
    } else {
      var m := |pinned| - 1;
      PinnedSplit(before, pinned[..m]);
      OfPush(before + AsPinned(pinned[..m]), Pinned(pinned[m]));
      assert before + AsPinned(pinned) == before + AsPinned(pinned[..m]) + [Pinned(pinned[m])];
      assert PinnedOf(before) + pinned == PinnedOf(before) + pinned[..m] + [pinned[m]];
    }
  }

  lemma JoinSplits(bytes: seq<seq<Packet>>, pinned: seq<seq<Packet>>)
    ensures BytesOf(Join(bytes, pinned)) == bytes && PinnedOf(Join(bytes, pinned)) == pinned
  {
    hide BytesOf, PinnedOf, AsBytes, AsPinned;
    BytesSplit(bytes);
    PinnedSplit(AsBytes(bytes), pinned);
    assert [] + pinned == pinned;
  }
}

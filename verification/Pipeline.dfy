/** The batch-level entry points of `perf/src/sigverify.rs`, which update packets in place. */
module Pipeline {
  import opened Prelude
  import opened Packet
  import opened Offsets
  import opened Sigverify
  import opened Batches
  import opened GpuVerify

  /** The foreign kernel: results for the lanes it is given. */
  type Kernel = Lanes -> seq<nat>

  /** The kernel returns one result a lane and is faithful to the packets in memory. */
  ghost predicate KernelFaithful(ed: Ed25519, mem: seq<byte>, kernel: Kernel) {
    forall l: Lanes :: l.Valid() ==> |kernel(l)| == |l.sigs| && Faithful(ed, mem, l, kernel(l))
  }

  method CpuBatch(ed: Ed25519, batch: seq<Packet>, reject: bool) returns (r: seq<Packet>)
    ensures r == CpuAll(ed, batch, reject)
  {
    hide CpuPacket, GetPacketOffsets, PacketVerifies;
    r := batch;
    for i := 0 to |batch|
      invariant |r| == |batch| && r[i..] == batch[i..] && r[..i] == CpuAll(ed, batch, reject)[..i]
    {
      var p := CpuOne(ed, r[i], reject);
      r := r[i := p];
    }
  }

  method CpuOne(ed: Ed25519, packet: Packet, reject: bool) returns (p: Packet)
    ensures p == CpuPacket(ed, packet, reject)
  {
    hide GetPacketOffsets, PacketVerifies;
    p := packet;
    if !packet.discard {
      var ok;
      p, ok := VerifyPacket(ed, packet, reject);
      if !ok {
        p := p.(discard := true);
      }
    }
  }

  /** The lanes of one packet, pushed one signature at a time. */
  method PushLanes(l: Lanes, o: PacketOffsets, size: nat, current: nat) returns (r: Lanes)
    requires l.Valid()
    ensures r == l.Plus(PacketLanes(o, size, current))
  {
    ghost var all := PacketLanes(o, size, current);
    var sigOffset, pubkeyOffset := Saturate32(o.sigStart), Saturate32(o.pubkeyStart);
    var end := SaturatingAdd(current, size) % (U32_MAX + 1);
    r := l;
    for i := 0 to o.sigLen
      invariant sigOffset == Saturate32(o.sigStart + SIGNATURE_BYTES * i)
      invariant pubkeyOffset == Saturate32(o.pubkeyStart + PUBKEY_BYTES * i)
      invariant r == l.Plus(Lanes(all.sigs[..i], all.keys[..i], all.msgs[..i], all.sizes[..i]))
    {
      var msgSize := if end >= o.msgStart then end - o.msgStart else 0;
      r := Lanes(r.sigs + [sigOffset], r.keys + [pubkeyOffset], r.msgs + [o.msgStart], r.sizes + [msgSize]);
      assert all.sigs[..i + 1] == all.sigs[..i] + [sigOffset] && all.keys[..i + 1] == all.keys[..i] + [pubkeyOffset];
      assert all.msgs[..i + 1] == all.msgs[..i] + [o.msgStart] && all.sizes[..i + 1] == all.sizes[..i] + [msgSize];
      sigOffset := Saturate32(sigOffset + SIGNATURE_BYTES);
      pubkeyOffset := Saturate32(pubkeyOffset + PUBKEY_BYTES);
    }
    assert all == Lanes(all.sigs[..o.sigLen], all.keys[..o.sigLen], all.msgs[..o.sigLen], all.sizes[..o.sigLen]);
  }

  /** The plan grows by what the next packet of a batch adds. */
  lemma PlanNext(before: seq<Packet>, batch: seq<Packet>, i: nat, stride: nat, reject: bool)
    requires i < |batch|
    ensures var at := Place(|before| + i, stride);
            var plan, (p, o) := PlanAll(before + batch[..i], stride, reject), GetPacketOffsets(batch[i], at, reject);
            && PlanAll(before + batch[..i + 1], stride, reject)
               == Plan(plan.packets + [p], plan.lanes.Plus(PacketLanes(o, p.size, at)), plan.sigLens + [o.sigLen])
            && Place(|before| + i + 1, stride) == SaturatingAdd(at, stride)
  {
    hide GetPacketOffsets, PlanAll, PlanPacket, PacketLanes, Place, SaturatingAdd;
    var ps := before + batch[..i];
    assert before + batch[..i + 1] == ps + [batch[i]];
    PlanPush(ps, batch[i], stride, reject);
    PlanPacketParts(batch[i], Place(|ps|, stride), reject);
    PlaceNext(|ps|, stride);
  }

  /** The packets of one batch, after all packets `before` it. */
  method PlanBatch(batch: seq<Packet>, ghost before: seq<Packet>, l: Lanes, at: nat, stride: nat, reject: bool)
    returns (r: seq<Packet>, lanes: Lanes, lens: seq<nat>, current: nat)
    requires l == PlanAll(before, stride, reject).lanes && at == Place(|before|, stride)
    ensures var plan, was := PlanAll(before + batch, stride, reject), PlanAll(before, stride, reject);
            && plan == Plan(was.packets + r, lanes, was.sigLens + lens)
            && |r| == |batch| && current == Place(|before + batch|, stride)
  {
    hide GetPacketOffsets, PlanAll, PlanPacket, PacketLanes, Place, SaturatingAdd;
    ghost var was := PlanAll(before, stride, reject);
    r, lanes, lens, current := batch, l, [], at;
    assert before + batch[..0] == before;
    for i := 0 to |batch|
      invariant |r| == |batch| && r[i..] == batch[i..] && current == Place(|before| + i, stride)
      invariant PlanAll(before + batch[..i], stride, reject) == Plan(was.packets + r[..i], lanes, was.sigLens + lens)
    {
      PlanNext(before, batch, i, stride, reject);
      assert r[i] == batch[i];
      var (p, o) := GetPacketOffsets(r[i], current, reject);
      lanes := PushLanes(lanes, o, p.size, current);
      current := SaturatingAdd(current, stride);
      lens := lens + [o.sigLen];
      r := r[i := p];
    }
    assert batch[..|batch|] == batch && r[..|batch|] == r;
  }

  function MarkBatches(bs: seq<seq<Packet>>, rvs: seq<seq<nat>>): seq<seq<Packet>> {
    seq(|bs|, b requires 0 <= b < |bs| => if b < |rvs| then MarkBatch(bs[b], rvs[b]) else bs[b])
  }

  function MarkBatch(ps: seq<Packet>, rvs: seq<nat>): seq<Packet> {
    seq(|ps|, i requires 0 <= i < |ps| => if i < |rvs| then MarkPacket(ps[i], rvs[i]) else ps[i])
  }

  /** Marking changes nothing but the flag, never clears it, and sets it exactly where there is a verdict and it is zero;
      packets without a verdict stay as they are. */
  lemma MarkExactly(bs: seq<seq<Packet>>, rvs: seq<seq<nat>>, b: nat, i: nat)
    requires b < |bs| && i < |bs[b]|
    ensures |MarkBatches(bs, rvs)| == |bs| && |MarkBatches(bs, rvs)[b]| == |bs[b]|
    ensures var p, r := bs[b][i], MarkBatches(bs, rvs)[b][i];
            && r == p.(discard := r.discard)
            && (r.discard <==> p.discard || (b < |rvs| && i < |rvs[b]| && rvs[b][i] == 0))
  {
  }

  lemma MarkBatchesLast(bs: seq<seq<Packet>>, rvs: seq<seq<nat>>)
    requires bs != [] && |bs| == |rvs|
    ensures var n := |bs| - 1;
            MarkBatches(bs, rvs) == MarkBatches(bs[..n], rvs[..n]) + [MarkBatch(bs[n], rvs[n])]
  {
    hide MarkBatch;
  }

  lemma MarkBatchesShape(bs: seq<seq<Packet>>, rvs: seq<seq<nat>>)
    ensures Shape(MarkBatches(bs, rvs)) == Shape(bs)
  {
    hide MarkPacket;
  }

  lemma MarkAppend(ps: seq<Packet>, rvs: seq<nat>, batch: seq<Packet>, own: seq<nat>)
    requires |ps| == |rvs| && |batch| == |own|
    ensures Mark(ps + batch, rvs + own) == Mark(ps, rvs) + MarkBatch(batch, own)
  {
    hide MarkPacket;
  }

  /** Lists of the same shape agree on their last batches and on those before. */
  lemma ShapeLast<S, T>(a: seq<seq<S>>, b: seq<seq<T>>)
    requires Shape(a) == Shape(b)
    ensures |a| == |b|
    ensures a != [] ==> |a[|a| - 1]| == |b[|a| - 1]| && Shape(a[..|a| - 1]) == Shape(b[..|a| - 1])
  {
    assert |a| == |Shape(a)| && |b| == |Shape(b)|;
    if a != [] {
      var n := |a| - 1;
      assert |a[n]| == Shape(a)[n] && |b[n]| == Shape(b)[n];
      assert Shape(a[..n]) == Shape(a)[..n] && Shape(b[..n]) == Shape(b)[..n];
    }
  }

  lemma {:induction false} MarkFlattened(bs: seq<seq<Packet>>, rvs: seq<seq<nat>>)
    requires Shape(bs) == Shape(rvs)
    ensures |Flatten(bs)| == |Flatten(rvs)|
    ensures Shape(MarkBatches(bs, rvs)) == Shape(bs)
    ensures Flatten(MarkBatches(bs, rvs)) == Mark(Flatten(bs), Flatten(rvs))
  {
    hide MarkPacket, Shape, MarkBatch;
    MarkBatchesShape(bs, rvs);
    ShapeLast(bs, rvs);
    if bs != [] {
      var n := |bs| - 1;
      MarkFlattened(bs[..n], rvs[..n]);
      MarkBatchesLast(bs, rvs);
      FlattenPush(MarkBatches(bs[..n], rvs[..n]), MarkBatch(bs[n], rvs[n]));
      MarkAppend(Flatten(bs[..n]), Flatten(rvs[..n]), bs[n], rvs[n]);
    }
  }

  lemma CpuAppend(ed: Ed25519, ps: seq<Packet>, qs: seq<Packet>, reject: bool)
    ensures CpuAll(ed, ps + qs, reject) == CpuAll(ed, ps, reject) + CpuAll(ed, qs, reject)
  {
    hide CpuPacket;
  }

  /** Every packet of every batch gets the flags that verifying it alone gives. */
  function CpuBatches(ed: Ed25519, bs: seq<seq<Packet>>, reject: bool): seq<seq<Packet>> {
    seq(|bs|, b requires 0 <= b < |bs| => CpuAll(ed, bs[b], reject))
  }

  lemma CpuBatchesShape(ed: Ed25519, bs: seq<seq<Packet>>, reject: bool)
    ensures Shape(CpuBatches(ed, bs, reject)) == Shape(bs)
  {
    hide CpuPacket;
  }

  lemma {:induction false} CpuFlattened(ed: Ed25519, bs: seq<seq<Packet>>, reject: bool)
    ensures Flatten(CpuBatches(ed, bs, reject)) == CpuAll(ed, Flatten(bs), reject)
  {
    hide CpuAll;
    if bs == [] {
      NothingToVerify(ed, 0, reject, []);
    } else {
      var n := |bs| - 1;
      CpuFlattened(ed, bs[..n], reject);
      CpuAppend(ed, Flatten(bs[..n]), bs[n], reject);
      assert CpuBatches(ed, bs, reject)[..n] == CpuBatches(ed, bs[..n], reject);
    }
  }

  /** Batches of the same shape whose packets, one after the other, are as the CPU leaves them are as the CPU leaves
      them. */
  lemma CpuNested(ed: Ed25519, bs: seq<seq<Packet>>, was: seq<seq<Packet>>, reject: bool)
    requires Shape(bs) == Shape(was) && Flatten(bs) == CpuAll(ed, Flatten(was), reject)
    ensures bs == CpuBatches(ed, was, reject)
  {
    hide CpuAll, CpuBatches, Shape, Flatten;
    CpuFlattened(ed, was, reject);
    CpuBatchesShape(ed, was, reject);
    FlattenInjective(bs, CpuBatches(ed, was, reject));
  }

  /** Whether the kernel is used: for enough packets, nearly all of which are valid. */
  predicate OnGpu(validCount: nat, total: nat) {
    total != 0 && 100 * validCount % (U64_MAX + 1) / total >= 90 && validCount >= 64
  }

  class PacketBatches {
    var batches: seq<seq<Packet>>

    constructor (batches: seq<seq<Packet>>)
      ensures this.batches == batches
    {
      this.batches := batches;
    }

    method Ed25519VerifyCpu(ed: Ed25519, reject: bool)
      modifies this
      ensures batches == CpuBatches(ed, old(batches), reject)
    {
      hide CpuAll;
      ghost var was := batches;
      for b := 0 to |batches|
        invariant |batches| == |was| && batches[b..] == was[b..]
        invariant batches[..b] == CpuBatches(ed, was, reject)[..b]
      {
        var batch := CpuBatch(ed, batches[b], reject);
        batches := batches[b := batch];
      }
    }

    method GenerateOffsets(stride: nat, reject: bool) returns (lanes: Lanes, sigLens: seq<seq<nat>>)
      modifies this
      ensures Shape(batches) == old(Shape(batches))
      ensures PlanAll(old(Flatten(batches)), stride, reject) == Plan(Flatten(batches), lanes, Flatten(sigLens))
    {
      hide PlanAll, Place, Flatten, Shape;
      ghost var was := batches;
      lanes, sigLens := NO_LANES, [];
      var current := 0;
      NothingToPlan(stride, reject);
      FlattenNone<Packet>();
      FlattenNone<nat>();
      for b := 0 to |batches|
        invariant |batches| == |was| && batches[b..] == was[b..] && Shape(batches) == Shape(was)
        invariant current == Place(|Flatten(was[..b])|, stride)
        invariant PlanAll(Flatten(was[..b]), stride, reject) == Plan(Flatten(batches[..b]), lanes, Flatten(sigLens))
      {
        var batch, lens;
        batch, lanes, lens, current := PlanBatch(batches[b], Flatten(was[..b]), lanes, current, stride, reject);
        FlattenTake(was, b);
        ReplaceBatch(batches, b, batch);
        batches := batches[b := batch];
        FlattenPush(sigLens, lens);
        sigLens := sigLens + [lens];
      }
      assert batches[..|batches|] == batches && was[..|was|] == was;
    }

    /** With or without a GPU, whichever path the thresholds choose, the flags are those of the CPU path. */
    method Ed25519Verify(ed: Ed25519, api: Option<Kernel>, stride: nat, reject: bool, validCount: u64, ghost mem: seq<byte>)
      requires api.Some? && OnGpu(validCount, |Flatten(batches)|) ==>
                 && KernelFaithful(ed, mem, api.value) && AllStored(mem, Flatten(batches), stride, reject)
                 && AllAddressable(Flatten(batches), stride, reject)
      modifies this
      ensures batches == CpuBatches(ed, old(batches), reject)
    {
      hide PlanAll, CpuAll, CpuBatches, Flatten, Shape, Verdicts, Faithful, AllStored, AllAddressable, Mark;
      if api.None? {
        Ed25519VerifyCpu(ed, reject);
        return;
      }
      var total := CountPackets(batches);
      if total == 0 {
        NothingToVerify(ed, stride, reject, []);
        CpuNested(ed, batches, batches, reject);
        return;
      }
      if 100 * validCount % (U64_MAX + 1) / total < 90 || validCount < 64 {
        Ed25519VerifyCpu(ed, reject);
        return;
      }
      ghost var was, ps := batches, Flatten(batches);
      var lanes, sigLens := GenerateOffsets(stride, reject);
      var out := api.value(lanes);
      GpuAgreesWithCpu(ed, mem, ps, stride, reject, out);
      GpuAllParts(ps, stride, reject, out);
      var lens, ps' := Flatten(sigLens), Flatten(batches);
      var zeros := seq(|ps'|, _ => 0);
      assert lens[..|lens|] == lens && zeros[|lens|..] == [];
      var rvs := CopyReturnValues(lens, out, zeros);
      assert rvs == Verdicts(lens, out);
      FlattenLength(batches);
      UnflattenFlattens(rvs, Shape(batches));
      var nested := Unflatten(rvs, Shape(batches));
      MarkFlattened(batches, nested);
      MarkDisabled(nested);
      CpuNested(ed, batches, was, reject);
    }

    method MarkDisabled(rvs: seq<seq<nat>>)
      modifies this
      ensures batches == MarkBatches(old(batches), rvs)
    {
      ghost var was := batches;
      for b := 0 to if |batches| <= |rvs| then |batches| else |rvs|
        invariant |batches| == |was| && batches[b..] == was[b..]
        invariant batches[..b] == MarkBatches(was, rvs)[..b]
      {
        var batch := batches[b];
        for i := 0 to if |batch| <= |rvs[b]| then |batch| else |rvs[b]|
          invariant |batch| == |was[b]| && batch[i..] == was[b][i..]
          invariant batch[..i] == MarkBatch(was[b], rvs[b])[..i]
        {
          if !batch[i].discard {
            batch := batch[i := batch[i].(discard := rvs[b][i] == 0)];
          }
        }
        assert batch == MarkBatch(was[b], rvs[b]);
        batches := batches[b := batch];
      }
    }
  }

  method CountPackets(bs: seq<seq<Packet>>) returns (n: nat)
    ensures n == |Flatten(bs)|
  {
    n := 0;
    for b := 0 to |bs|
      invariant n == |Flatten(bs[..b])|
    {
      FlattenTake(bs, b);
      n := n + |bs[b]|;
    }
    assert bs[..|bs|] == bs;
  }

  lemma GpuAllParts(ps: seq<Packet>, stride: nat, reject: bool, out: seq<nat>)
    requires |PlanAll(ps, stride, reject).lanes.sigs| <= |out|
    ensures var plan := PlanAll(ps, stride, reject);
            Covers(plan.sigLens, out) && GpuAll(ps, stride, reject, out) == Mark(plan.packets, Verdicts(plan.sigLens, out))
  {
  }

  lemma NothingToPlan(stride: nat, reject: bool)
    ensures PlanAll([], stride, reject) == NO_PLAN && Place(0, stride) == 0
  {
  }
}

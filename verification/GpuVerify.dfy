/** The GPU path of `perf/src/sigverify.rs`, and why it leaves the same flags as the CPU path. */
module GpuVerify {
  import opened Prelude
  import opened Packet
  import opened Offsets
  import opened Sigverify
  import opened Batches

  // ---------------------------------------------------------------- lanes

  /** The offset vectors handed to the kernel: one lane for each signature. */
  datatype Lanes = Lanes(sigs: seq<nat>, keys: seq<nat>, msgs: seq<nat>, sizes: seq<nat>) {
    predicate Valid() { |keys| == |sigs| && |msgs| == |sigs| && |sizes| == |sigs| }

    function Plus(l: Lanes): Lanes { Lanes(sigs + l.sigs, keys + l.keys, msgs + l.msgs, sizes + l.sizes) }
  }

  const NO_LANES := Lanes([], [], [], [])

  function Saturate32(n: nat): nat { if n <= U32_MAX then n else U32_MAX }

  /** The message size that the source computes by a saturating sum, a truncation and a saturating difference. */
  function MessageSize(msgStart: nat, size: nat, current: nat): nat {
    var end := SaturatingAdd(current, size) % (U32_MAX + 1);
    if end >= msgStart then end - msgStart else 0
  }

  function PacketLanes(o: PacketOffsets, size: nat, current: nat): (l: Lanes)
    ensures l.Valid() && |l.sigs| == o.sigLen
  {
    Lanes(seq(o.sigLen, i requires 0 <= i => Saturate32(o.sigStart + SIGNATURE_BYTES * i)),
          seq(o.sigLen, i requires 0 <= i => Saturate32(o.pubkeyStart + PUBKEY_BYTES * i)),
          seq(o.sigLen, _ => o.msgStart),
          seq(o.sigLen, _ => MessageSize(o.msgStart, size, current)))
  }

  /** Every lane offset is the true one where 32 bits hold it, and the largest number they hold elsewhere; the message
      ends at the true end, wrapped to 32 bits, and is empty where that lies before its start. */
  lemma LanesAsWritten(o: PacketOffsets, size: nat, current: nat, i: nat)
    requires i < o.sigLen && current + size <= U64_MAX
    ensures var l := PacketLanes(o, size, current);
            && l.sigs[i] == Min(o.sigStart + 64 * i, U32_MAX) && l.keys[i] == Min(o.pubkeyStart + 32 * i, U32_MAX)
            && l.msgs[i] == o.msgStart
            && var end := (current + size) % 0x1_0000_0000; l.sizes[i] == if end < o.msgStart then 0 else end - o.msgStart
  {
  }

  /** What flattening makes of a packet list: packets with their vote flags set, lanes and lane counts. */
  datatype Plan = Plan(packets: seq<Packet>, lanes: Lanes, sigLens: seq<nat>) {
    function Plus(q: Plan): Plan { Plan(packets + q.packets, lanes.Plus(q.lanes), sigLens + q.sigLens) }
  }

  const NO_PLAN := Plan([], NO_LANES, [])

  function PlanPacket(p: Packet, current: nat, reject: bool): Plan {
    var (p', o) := GetPacketOffsets(p, current, reject);
    Plan([p'], PacketLanes(o, p.size, current), [o.sigLen])
  }

  /** The running offset of packet `k`. */
  function Place(k: nat, stride: nat): nat { if k * stride <= U64_MAX then k * stride else U64_MAX }

  lemma PlaceNext(k: nat, stride: nat)
    ensures Place(k + 1, stride) == SaturatingAdd(Place(k, stride), stride)
  {
    assert (k + 1) * stride == k * stride + stride;
  }

  function PlanAll(ps: seq<Packet>, stride: nat, reject: bool): (plan: Plan)
    ensures |plan.packets| == |ps| == |plan.sigLens|
    ensures plan.lanes.Valid() && |plan.lanes.sigs| == Sum(plan.sigLens)
  {
    if ps == [] then NO_PLAN
    else
      var n := |ps| - 1;
      var before, now := PlanAll(ps[..n], stride, reject), PlanPacket(ps[n], Place(n, stride), reject);
      assert (before.sigLens + now.sigLens)[..n] == before.sigLens;
      before.Plus(now)
  }

  lemma PlanPush(ps: seq<Packet>, p: Packet, stride: nat, reject: bool)
    ensures PlanAll(ps + [p], stride, reject)
         == PlanAll(ps, stride, reject).Plus(PlanPacket(p, Place(|ps|, stride), reject))
  {
    assert (ps + [p])[..|ps|] == ps;
  }

  // ---------------------------------------------------------------- verdicts

  /** The verdict on a packet with `n` lanes: the first `n` results are all 1, and there is at least one. */
  function Verdict(n: nat, out: seq<nat>): nat {
    if n != 0 && (forall i :: 0 <= i < n && i < |out| ==> out[i] == 1) then 1 else 0
  }

  /** No packet's lanes start beyond the results; only there would the source panic. */
  predicate Covers(lens: seq<nat>, out: seq<nat>) {
    lens == [] || Sum(lens[..|lens| - 1]) <= |out|
  }

  function Verdicts(lens: seq<nat>, out: seq<nat>): (rvs: seq<nat>)
    requires Covers(lens, out)
    ensures |rvs| == |lens|
    decreases |lens|
  {
    if lens == [] then []
    else
      var n := |lens| - 1;
      Verdicts(lens[..n], out) + [Verdict(lens[n], out[Sum(lens[..n])..])]
  }

  lemma {:induction false} CoversPrefix(lens: seq<nat>, out: seq<nat>, j: nat)
    requires j <= |lens| && Covers(lens, out)
    ensures Covers(lens[..j], out)
  {
    if j < |lens| {
      CoversPrefix(lens[..|lens| - 1], out, j);
      assert lens[..|lens| - 1][..j] == lens[..j];
    } else {
      assert lens[..j] == lens;
    }
  }

  /** Folds the flat kernel results back onto packets; both nested lists are read through their flattened views. */
  method CopyReturnValues(sigLens: seq<nat>, out: seq<nat>, rvs: seq<nat>) returns (r: seq<nat>)
    requires Covers(sigLens[..Min(|sigLens|, |rvs|)], out)
    ensures var m := Min(|sigLens|, |rvs|); r == Verdicts(sigLens[..m], out) + rvs[m..]
  {
    var m := Min(|sigLens|, |rvs|);
    hide Verdicts;
    assert Verdicts([], out) == [];
    r := rvs;
    var offset := 0;
    for j := 0 to m
      invariant |r| == |rvs| && offset == Sum(sigLens[..j]) && Covers(sigLens[..j], out)
      invariant r == Verdicts(sigLens[..j], out) + rvs[j..]
    {
      var k := sigLens[j];
      CoversPrefix(sigLens[..m], out, j + 1);
      assert sigLens[..m][..j + 1] == sigLens[..j + 1] == sigLens[..j] + [k] && sigLens[..j + 1][..j] == sigLens[..j];
      VerdictsPush(sigLens[..j], k, out);
      var all := AllOnes(k, out[offset..]);
      var rv := if k != 0 && all then 1 else 0;
      assert rv == Verdict(k, out[offset..]);
      UpdateNext(Verdicts(sigLens[..j], out), rvs, j, rv);
      r := r[j := rv];
      offset := offset + k;
    }
  }

  lemma UpdateNext(done: seq<nat>, all: seq<nat>, j: nat, x: nat)
    requires |done| == j < |all|
    ensures (done + all[j..])[j := x] == done + [x] + all[j + 1..]
  {
  }

  method AllOnes(k: nat, out: seq<nat>) returns (all: bool)
    ensures all <==> forall i :: 0 <= i < k && i < |out| ==> out[i] == 1
  {
    all := true;
    for i := 0 to if k <= |out| then k else |out|
      invariant all <==> forall m :: 0 <= m < i ==> out[m] == 1
    {
      all := all && out[i] == 1;
    }
  }

  function MarkPacket(p: Packet, rv: nat): Packet {
    if p.discard then p else p.(discard := rv == 0)
  }

  function Mark(ps: seq<Packet>, rvs: seq<nat>): seq<Packet>
    requires |ps| == |rvs|
  {
    seq(|ps|, i requires 0 <= i < |ps| => MarkPacket(ps[i], rvs[i]))
  }

  // ---------------------------------------------------------------- agreement

  /** What the kernel checks for lane `i`, reading the packets laid out in memory. */
  predicate LaneVerifies(ed: Ed25519, mem: seq<byte>, l: Lanes, i: nat)
    requires l.Valid() && i < |l.sigs|
  {
    && l.sigs[i] + SIGNATURE_BYTES <= |mem| && l.keys[i] + PUBKEY_BYTES <= |mem| && l.msgs[i] + l.sizes[i] <= |mem|
    && ed(mem[l.sigs[i]..l.sigs[i] + SIGNATURE_BYTES], mem[l.keys[i]..l.keys[i] + PUBKEY_BYTES],
          mem[l.msgs[i]..l.msgs[i] + l.sizes[i]])
  }

  /** The kernel wrote 1 exactly on the lanes that verify. */
  ghost predicate Faithful(ed: Ed25519, mem: seq<byte>, l: Lanes, out: seq<nat>) {
    && l.Valid() && |l.sigs| <= |out|
    && forall i :: 0 <= i < |l.sigs| ==> (out[i] == 1 <==> LaneVerifies(ed, mem, l, i))
  }

  /** Verifying the packet takes signatures: it is kept, parses, and is a vote if only votes are wanted. */
  predicate HasLanes(p: Packet, reject: bool) { GetPacketOffsets(p, 0, reject).1.sigLen != 0 }

  /** The packet lies at `at` in memory. */
  predicate Stored(mem: seq<byte>, p: Packet, at: nat) {
    p.Sized() && at + p.size <= |mem| && mem[at..at + p.size] == p.buffer
  }

  /** Packets that matter lie in memory, `stride` apart. */
  predicate AllStored(mem: seq<byte>, ps: seq<Packet>, stride: nat, reject: bool) {
    forall j :: 0 <= j < |ps| && HasLanes(ps[j], reject) ==> Stored(mem, ps[j], Place(j, stride))
  }

  /** 32 bits address the end of the packet, if it matters. */
  predicate Addressable(p: Packet, at: nat, reject: bool) { HasLanes(p, reject) ==> at + p.size <= U32_MAX }

  predicate AllAddressable(ps: seq<Packet>, stride: nat, reject: bool) {
    forall j :: 0 <= j < |ps| ==> Addressable(ps[j], Place(j, stride), reject)
  }

  lemma SubslicesAgree(mem: seq<byte>, s: seq<byte>, at: nat, i: nat, j: nat)
    requires at + |s| <= |mem| && mem[at..at + |s|] == s && i <= j <= |s|
    ensures mem[at + i..at + j] == s[i..j]
  {
    forall k | 0 <= k < j - i ensures mem[at + i..at + j][k] == s[i..j][k] {
      assert mem[at..at + |s|][i + k] == s[i + k];
    }
  }

  /** The offsets of an addressable packet are those at zero, shifted. */
  lemma AddressableOffsets(p: Packet, current: nat, reject: bool)
    requires Addressable(p, current, reject)
    ensures var (p0, o0) := GetPacketOffsets(p, 0, reject);
            GetPacketOffsets(p, current, reject) == (p0, if o0.sigLen == 0 then NO_OFFSETS else o0.Shift(current))
  {
    hide GetPacketOffsets, ParseOffsets;
    PlacementIndependent(p, current, reject);
    OffsetsAreParsed(p, reject);
    if HasLanes(p, reject) {
      GoodOffsets(p, reject);
    }
  }

  /** What lane `i` of an addressable packet names. */
  lemma LaneAt(o: PacketOffsets, size: nat, current: nat, i: nat)
    requires i < o.sigLen && o.msgStart <= size && current + size <= U32_MAX
    requires o.sigStart + SIGNATURE_BYTES * i <= size && o.pubkeyStart + PUBKEY_BYTES * i <= size
    ensures var l := PacketLanes(o.Shift(current), size, current);
            && l.sigs[i] == current + (o.sigStart + SIGNATURE_BYTES * i)
            && l.keys[i] == current + (o.pubkeyStart + PUBKEY_BYTES * i)
            && l.msgs[i] == current + o.msgStart && l.sizes[i] == size - o.msgStart
  {
  }

  /** A lane verifies exactly when the CPU verifies the signature it stands for. */
  lemma LaneAgrees(ed: Ed25519, mem: seq<byte>, p: Packet, current: nat, reject: bool, i: nat)
    requires Stored(mem, p, current) && current + p.size <= U32_MAX
    requires i < GetPacketOffsets(p, current, reject).1.sigLen
    ensures var (p0, o0) := GetPacketOffsets(p, 0, reject);
            LaneVerifies(ed, mem, PacketLanes(GetPacketOffsets(p, current, reject).1, p.size, current), i) <==>
            SignatureVerifies(ed, p0, o0, i)
  {
    hide GetPacketOffsets, PacketLanes;
    AddressableOffsets(p, current, reject);
    GoodOffsets(p, reject);
    var o, s := GetPacketOffsets(p, 0, reject).1, p.buffer;
    LaneAt(o, p.size, current, i);
    var sig, key := o.sigStart + SIGNATURE_BYTES * i, o.pubkeyStart + PUBKEY_BYTES * i;
    SubslicesAgree(mem, s, current, sig, sig + SIGNATURE_BYTES);
    SubslicesAgree(mem, s, current, key, key + PUBKEY_BYTES);
    SubslicesAgree(mem, s, current, o.msgStart, |s|);
    assert s[o.msgStart..|s|] == s[o.msgStart..];
  }

  function CpuPacket(ed: Ed25519, p: Packet, reject: bool): Packet {
    if p.discard then p
    else GetPacketOffsets(p, 0, reject).0.(discard := !PacketVerifies(ed, p, reject))
  }

  function CpuAll(ed: Ed25519, ps: seq<Packet>, reject: bool): seq<Packet> {
    seq(|ps|, i requires 0 <= i < |ps| => CpuPacket(ed, ps[i], reject))
  }

  /** What the GPU path makes of a packet, given the results of its lanes. */
  function GpuPacket(p: Packet, current: nat, reject: bool, out: seq<nat>): Packet {
    var (p', o) := GetPacketOffsets(p, current, reject);
    MarkPacket(p', Verdict(o.sigLen, out))
  }

  /** Marking one packet by the results of its lanes leaves what the CPU leaves. */
  lemma PacketAgrees(ed: Ed25519, mem: seq<byte>, p: Packet, current: nat, reject: bool, out: seq<nat>)
    requires HasLanes(p, reject) ==> Stored(mem, p, current)
    requires Addressable(p, current, reject) && Faithful(ed, mem, PlanPacket(p, current, reject).lanes, out)
    ensures GpuPacket(p, current, reject, out) == CpuPacket(ed, p, reject)
  {
    hide GetPacketOffsets, SignatureVerifies, LaneVerifies;
    AddressableOffsets(p, current, reject);
    var o, p0 := GetPacketOffsets(p, current, reject).1, GetPacketOffsets(p, 0, reject).0;
    var o0 := GetPacketOffsets(p, 0, reject).1;
    if p.discard {
      DiscardedUntouched(p, 0, reject);
    } else if o0.sigLen != 0 {
      GoodOffsets(p, reject);
    }
    forall i | 0 <= i < o.sigLen ensures out[i] == 1 <==> SignatureVerifies(ed, p0, o0, i) {
      LaneAgrees(ed, mem, p, current, reject, i);
    }
  }

  // ---------------------------------------------------------------- disagreement

  /** Accepts exactly one message, under any signature and key. */
  function OnlyMessage(message: seq<byte>): Ed25519 { (_, _, m) => m == message }

  function Message(p: Packet, reject: bool): seq<byte> {
    var start := GetPacketOffsets(p, 0, reject).1.msgStart;
    if start <= |p.buffer| then p.buffer[start..] else []
  }

  /** The truncated size is short of the message. */
  lemma SizeFallsShort(start: nat, size: nat, current: nat)
    requires start < size && current + size > U32_MAX
    ensures MessageSize(current + start, size, current) < size - start
  {
  }

  lemma CpuAcceptsMessage(p: Packet, reject: bool)
    requires p.Sized() && HasLanes(p, reject)
    ensures !CpuPacket(OnlyMessage(Message(p, reject)), p, reject).discard
  {
    hide GetPacketOffsets;
    GoodOffsets(p, reject);
  }

  /** Beyond 32 bits the lanes of a packet, if it gets any, are made to check another message. */
  lemma LanesReject(mem: seq<byte>, p: Packet, current: nat, reject: bool, i: nat)
    requires p.Sized() && HasLanes(p, reject) && current + p.size > U32_MAX
    requires i < GetPacketOffsets(p, current, reject).1.sigLen
    ensures !LaneVerifies(OnlyMessage(Message(p, reject)), mem,
                          PacketLanes(GetPacketOffsets(p, current, reject).1, p.size, current), i)
  {
    hide GetPacketOffsets, ParseOffsets;
    PlacementIndependent(p, current, reject);
    OffsetsAreParsed(p, reject);
    GoodOffsets(p, reject);
    SizeFallsShort(GetPacketOffsets(p, 0, reject).1.msgStart, p.size, current);
  }

  /** ... so that a packet that the CPU accepts is discarded. */
  lemma GpuDiscards(mem: seq<byte>, p: Packet, current: nat, reject: bool, out: seq<nat>)
    requires p.Sized() && HasLanes(p, reject) && current + p.size > U32_MAX
    requires Faithful(OnlyMessage(Message(p, reject)), mem, PlanPacket(p, current, reject).lanes, out)
    ensures GpuPacket(p, current, reject, out).discard
  {
    hide GetPacketOffsets, LaneVerifies;
    var o := GetPacketOffsets(p, current, reject).1;
    if o.sigLen != 0 {
      LanesReject(mem, p, current, reject, 0);
      assert out[0] != 1;
    }
  }

  lemma FaithfulSplit(ed: Ed25519, mem: seq<byte>, a: Lanes, b: Lanes, out: seq<nat>)
    requires a.Valid() && b.Valid() && Faithful(ed, mem, a.Plus(b), out)
    ensures Faithful(ed, mem, a, out) && Faithful(ed, mem, b, out[|a.sigs|..])
  {
    var l, n := a.Plus(b), |a.sigs|;
    forall i | 0 <= i < n ensures LaneVerifies(ed, mem, a, i) == LaneVerifies(ed, mem, l, i) {
    }
    forall i | 0 <= i < |b.sigs| ensures LaneVerifies(ed, mem, b, i) == LaneVerifies(ed, mem, l, n + i) {
      assert b.sigs[i] == l.sigs[n + i] && b.keys[i] == l.keys[n + i];
      assert b.msgs[i] == l.msgs[n + i] && b.sizes[i] == l.sizes[n + i];
    }
    forall i | 0 <= i < |b.sigs| ensures out[n..][i] == 1 <==> LaneVerifies(ed, mem, b, i) {
      assert out[n..][i] == out[n + i];
    }
  }

  /** The flags that the GPU path leaves on a flat list of packets. */
  function GpuAll(ps: seq<Packet>, stride: nat, reject: bool, out: seq<nat>): seq<Packet>
    requires |PlanAll(ps, stride, reject).lanes.sigs| <= |out|
  {
    var plan := PlanAll(ps, stride, reject);
    LanesCover(plan.sigLens, out);
    Mark(plan.packets, Verdicts(plan.sigLens, out))
  }

  lemma LanesCover(lens: seq<nat>, out: seq<nat>)
    requires Sum(lens) <= |out|
    ensures Covers(lens, out)
  {
  }

  lemma GpuPush(ps: seq<Packet>, p: Packet, stride: nat, reject: bool, out: seq<nat>)
    requires |PlanAll(ps + [p], stride, reject).lanes.sigs| <= |out|
    ensures var before := PlanAll(ps, stride, reject);
            && |before.lanes.sigs| <= |out|
            && GpuAll(ps + [p], stride, reject, out) ==
               GpuAll(ps, stride, reject, out)
               + [GpuPacket(p, Place(|ps|, stride), reject, out[|before.lanes.sigs|..])]
  {
    hide PlanAll, PlanPacket, GetPacketOffsets, MarkPacket, Verdicts, Mark, Place, Verdict;
    var before, at := PlanAll(ps, stride, reject), Place(|ps|, stride);
    PlanPush(ps, p, stride, reject);
    PlanPacketParts(p, at, reject);
    var now := PlanPacket(p, at, reject);
    LanesCover(before.sigLens, out);
    VerdictsPush(before.sigLens, now.sigLens[0], out);
    MarkPush(before.packets, now.packets[0], Verdicts(before.sigLens, out),
             Verdict(now.sigLens[0], out[|before.lanes.sigs|..]));
  }

  /** The results that concern packet `j`, and what they make of it. */
  lemma {:induction false} GpuAt(ed: Ed25519, mem: seq<byte>, ps: seq<Packet>, stride: nat, reject: bool, out: seq<nat>,
                                 j: nat)
    returns (own: seq<nat>)
    requires Faithful(ed, mem, PlanAll(ps, stride, reject).lanes, out) && j < |ps|
    ensures Faithful(ed, mem, PlanPacket(ps[j], Place(j, stride), reject).lanes, own)
    ensures |GpuAll(ps, stride, reject, out)| == |ps|
    ensures GpuAll(ps, stride, reject, out)[j] == GpuPacket(ps[j], Place(j, stride), reject, own)
    decreases |ps|
  {
    hide GpuAll, PlanAll, PlanPacket, GpuPacket, Place, Faithful;
    var n := |ps| - 1;
    var before, at := PlanAll(ps[..n], stride, reject), Place(n, stride);
    assert ps == ps[..n] + [ps[n]];
    FaithfulLength(ed, mem, PlanAll(ps, stride, reject).lanes, out);
    PlanPush(ps[..n], ps[n], stride, reject);
    PlanPacketParts(ps[n], at, reject);
    FaithfulSplit(ed, mem, before.lanes, PlanPacket(ps[n], at, reject).lanes, out);
    GpuPush(ps[..n], ps[n], stride, reject, out);
    GpuLength(ps[..n], stride, reject, out);
    if j == n {
      own := out[|before.lanes.sigs|..];
    } else {
      own := GpuAt(ed, mem, ps[..n], stride, reject, out, j);
    }
  }

  lemma FaithfulLength(ed: Ed25519, mem: seq<byte>, l: Lanes, out: seq<nat>)
    requires Faithful(ed, mem, l, out)
    ensures |l.sigs| <= |out|
  {
  }

  lemma GpuLength(ps: seq<Packet>, stride: nat, reject: bool, out: seq<nat>)
    requires |PlanAll(ps, stride, reject).lanes.sigs| <= |out|
    ensures |GpuAll(ps, stride, reject, out)| == |ps|
  {
  }

  /** Planning, verifying all lanes and marking leaves the same flags on every packet as the CPU. */
  lemma GpuAgreesWithCpu(ed: Ed25519, mem: seq<byte>, ps: seq<Packet>, stride: nat, reject: bool, out: seq<nat>)
    requires AllStored(mem, ps, stride, reject) && AllAddressable(ps, stride, reject)
    requires Faithful(ed, mem, PlanAll(ps, stride, reject).lanes, out)
    ensures GpuAll(ps, stride, reject, out) == CpuAll(ed, ps, reject)
  {
    hide GpuAll, PlanAll, PlanPacket, GpuPacket, CpuPacket, Place, Faithful, HasLanes, Stored, Addressable;
    FaithfulLength(ed, mem, PlanAll(ps, stride, reject).lanes, out);
    GpuLength(ps, stride, reject, out);
    forall j | 0 <= j < |ps| ensures GpuAll(ps, stride, reject, out)[j] == CpuPacket(ed, ps[j], reject) {
      var own := GpuAt(ed, mem, ps, stride, reject, out, j);
      assert Addressable(ps[j], Place(j, stride), reject);
      PacketAgrees(ed, mem, ps[j], Place(j, stride), reject, own);
    }
  }

  /** What a faithful kernel returns. */
  function Results(ed: Ed25519, mem: seq<byte>, l: Lanes): seq<nat>
    requires l.Valid()
  {
    seq(|l.sigs|, i requires 0 <= i < |l.sigs| => if LaneVerifies(ed, mem, l, i) then 1 else 0)
  }

  lemma ResultsFaithful(ed: Ed25519, mem: seq<byte>, l: Lanes)
    requires l.Valid()
    ensures Faithful(ed, mem, l, Results(ed, mem, l))
  {
  }

  /** The paths leave the same flags for this signature scheme, whatever a faithful kernel returns. */
  ghost predicate PathsAgree(ed: Ed25519, mem: seq<byte>, ps: seq<Packet>, stride: nat, reject: bool) {
    forall out :: Faithful(ed, mem, PlanAll(ps, stride, reject).lanes, out) ==>
      GpuAll(ps, stride, reject, out) == CpuAll(ed, ps, reject)
  }

  /** A packet that 32 bits do not address separates the paths. */
  lemma UnaddressableDisagrees(mem: seq<byte>, ps: seq<Packet>, stride: nat, reject: bool, j: nat)
    requires AllStored(mem, ps, stride, reject) && j < |ps| && !Addressable(ps[j], Place(j, stride), reject)
    ensures !PathsAgree(OnlyMessage(Message(ps[j], reject)), mem, ps, stride, reject)
  {
    hide GpuAll, PlanAll, PlanPacket, GpuPacket, CpuPacket, Place, Faithful, HasLanes, OnlyMessage, Message, Results;
    var ed, at, l := OnlyMessage(Message(ps[j], reject)), Place(j, stride), PlanAll(ps, stride, reject).lanes;
    var out := Results(ed, mem, l);
    ResultsFaithful(ed, mem, l);
    var own := GpuAt(ed, mem, ps, stride, reject, out, j);
    GpuDiscards(mem, ps[j], at, reject, own);
    CpuAcceptsMessage(ps[j], reject);
    assert CpuAll(ed, ps, reject)[j] == CpuPacket(ed, ps[j], reject);
  }

  /** The paths agree for every signature scheme exactly when 32 bits address the end of every packet that matters. */
  lemma AgreesExactly(mem: seq<byte>, ps: seq<Packet>, stride: nat, reject: bool)
    requires AllStored(mem, ps, stride, reject)
    ensures (forall ed: Ed25519 :: PathsAgree(ed, mem, ps, stride, reject)) <==> AllAddressable(ps, stride, reject)
  {
    hide Addressable, LaneVerifies, Place, GpuAll, PlanAll, CpuAll;
    if AllAddressable(ps, stride, reject) {
      forall ed: Ed25519 ensures PathsAgree(ed, mem, ps, stride, reject) {
        forall out | Faithful(ed, mem, PlanAll(ps, stride, reject).lanes, out)
          ensures GpuAll(ps, stride, reject, out) == CpuAll(ed, ps, reject)
        {
          GpuAgreesWithCpu(ed, mem, ps, stride, reject, out);
        }
      }
    } else {
      var j :| 0 <= j < |ps| && !Addressable(ps[j], Place(j, stride), reject);
      UnaddressableDisagrees(mem, ps, stride, reject, j);
    }
  }

  lemma NothingToVerify(ed: Ed25519, stride: nat, reject: bool, out: seq<nat>)
    ensures GpuAll([], stride, reject, out) == CpuAll(ed, [], reject) == []
  {
  }

  lemma PlanPacketParts(p: Packet, current: nat, reject: bool)
    ensures var plan, (p', o) := PlanPacket(p, current, reject), GetPacketOffsets(p, current, reject);
            && plan == Plan([p'], PacketLanes(o, p.size, current), [o.sigLen])
            && plan.lanes.Valid() && |plan.lanes.sigs| == o.sigLen
  {
  }

  lemma VerdictsPush(lens: seq<nat>, n: nat, out: seq<nat>)
    requires Covers(lens, out) && Sum(lens) <= |out|
    ensures Sum(lens + [n]) == Sum(lens) + n && Covers(lens + [n], out)
    ensures Verdicts(lens + [n], out) == Verdicts(lens, out) + [Verdict(n, out[Sum(lens)..])]
  {
    assert (lens + [n])[..|lens|] == lens;
  }

  lemma MarkPush(ps: seq<Packet>, p: Packet, rvs: seq<nat>, rv: nat)
    requires |ps| == |rvs|
    ensures Mark(ps + [p], rvs + [rv]) == Mark(ps, rvs) + [MarkPacket(p, rv)]
  {
  }
}

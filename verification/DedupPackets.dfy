/** The deduplicator of `perf/src/deduper.rs` as one thread drives it over the packets of its batches. */
module DedupPackets {
  import opened Prelude
  import opened Packet
  import opened Batches
  import opened Concurrent = Deduper
  import opened Pipeline

  // ---------------------------------------------------------------- bits in words

  /** The word `1 << k`. */
  function Mask(k: nat): bv64
    requires k < 64
  {
    if k == 0 then 1 else Mask(k - 1) << 1
  }

  function And(word: bv64, mask: bv64): bv64 {
    word & mask
  }

  function Or(word: bv64, mask: bv64): bv64 {
    word | mask
  }

  predicate IsSet(words: seq<bv64>, p: nat) {
    p / 64 < |words| && And(words[p / 64], Mask(p % 64)) != 0
  }

  lemma ShiftAnd(x: bv64, y: bv64)
    ensures (x << 1) & (y << 1) == (x & y) << 1 && 1 & (x << 1) == 0
  {
  }

  lemma {:induction false} MasksApart(a: nat, b: nat)
    requires a < b < 64
    ensures Mask(a) & Mask(b) == 0
  {
    if a == 0 {
      ShiftAnd(Mask(b - 1), 0);
    } else {
      ShiftAnd(Mask(a - 1), Mask(b - 1));
      MasksApart(a - 1, b - 1);
    }
  }

  lemma Shifts(x: bv64)
    ensures (x << 1) << 1 == x << 2 && (x << 2) << 2 == x << 4 && (x << 4) << 4 == x << 8
  {
  }

  lemma MaskOne(k: nat)
    requires k < 63
    ensures Mask(k + 1) == Mask(k) << 1
  {
  }

  lemma MaskTwo(k: nat)
    requires k < 62
    ensures Mask(k + 2) == Mask(k) << 2
  {
    hide Mask;
    MaskOne(k);
    MaskOne(k + 1);
    Shifts(Mask(k));
  }

  lemma MaskFour(k: nat)
    requires k < 60
    ensures Mask(k + 4) == Mask(k) << 4
  {
    hide Mask;
    MaskTwo(k);
    MaskTwo(k + 2);
    Shifts(Mask(k));
  }

  lemma MaskEight(k: nat)
    requires k < 56
    ensures Mask(k + 8) == Mask(k) << 8
  {
    hide Mask;
    MaskFour(k);
    MaskFour(k + 4);
    Shifts(Mask(k));
  }

  lemma TopMask()
    ensures Mask(63) != 0
  {
    assert Mask(7) == 0x80 by { assert Mask(3) == 8; assert Mask(5) == 0x20; }
    hide Mask;
    MaskEight(7); MaskEight(15); MaskEight(23); MaskEight(31); MaskEight(39); MaskEight(47); MaskEight(55);
  }

  lemma {:induction false} MaskNonzero(k: nat)
    requires k < 64
    ensures Mask(k) != 0
    decreases 63 - k
  {
    if k == 63 {
      TopMask();
    } else {
      MaskNonzero(k + 1);
    }
  }

  lemma Apart(a: nat, b: nat)
    requires a < 64 && b < 64 && a != b
    ensures And(Mask(a), Mask(b)) == 0
  {
    hide Mask;
    if a < b {
      MasksApart(a, b);
    } else {
      MasksApart(b, a);
    }
  }

  lemma OrApart(w: bv64, m: bv64, n: bv64)
    requires And(m, n) == 0
    ensures And(Or(w, m), n) == And(w, n)
  {
  }

  lemma OrSame(w: bv64, m: bv64)
    ensures And(Or(w, m), m) == m
  {
  }

  lemma OrMask(w: bv64, a: nat, b: nat)
    requires a < 64 && b < 64
    ensures And(Or(w, Mask(a)), Mask(b)) != 0 <==> And(w, Mask(b)) != 0 || a == b
  {
    hide Mask, And, Or;
    if a == b {
      MaskNonzero(a);
      OrSame(w, Mask(a));
    } else {
      Apart(a, b);
      OrApart(w, Mask(a), Mask(b));
    }
  }

  /** The positions of the set bits. */
  ghost function Bits(words: seq<bv64>): set<nat> {
    set p: nat | 0 <= p < 64 * |words| && IsSet(words, p)
  }

  /** Or-ing a mask into its word sets exactly one bit. */
  lemma SetBit(words: seq<bv64>, p: nat)
    requires p / 64 < |words|
    ensures Bits(words[p / 64 := Or(words[p / 64], Mask(p % 64))]) == Bits(words) + {p}
  {
    hide Mask, And, Or;
    var words' := words[p / 64 := Or(words[p / 64], Mask(p % 64))];
    forall q: nat | q < 64 * |words| ensures IsSet(words', q) <==> IsSet(words, q) || q == p {
      if q / 64 == p / 64 {
        OrMask(words[p / 64], p % 64, q % 64);
        assert q == p <==> q % 64 == p % 64;
      }
    }
  }

  /** There are enough words, and the counter is the number of set bits. */
  ghost predicate Counted(numBits: nat, words: seq<bv64>, popcount: nat) {
    |words| == (numBits + 63) / 64 && popcount == |Bits(words)|
  }

  /** The words after an or of the bit at `p`, and whether that bit was clear. */
  function OrBit(words: seq<bv64>, p: nat): (seq<bv64>, bool)
    requires p / 64 < |words|
  {
    var index, mask := p / 64, Mask(p % 64);
    (words[index := Or(words[index], mask)], And(words[index], mask) == 0)
  }

  lemma OrBitCounts(numBits: nat, words: seq<bv64>, popcount: nat, p: nat)
    requires Counted(numBits, words, popcount) && p < numBits
    ensures p / 64 < |words|
    ensures var (words', isNew) := OrBit(words, p);
            && Bits(words') == Bits(words) + {p} && (isNew <==> p !in Bits(words))
            && Counted(numBits, words', if isNew then popcount + 1 else popcount)
  {
    hide Bits, Mask, And, Or;
    WordIndex(p, numBits);
    SetBit(words, p);
    IsSetDef(words, p);
    AddOne(Bits(words), p);
  }

  // ---------------------------------------------------------------- the filter

  class Deduper {
    const hashing: Hashing
    var words: seq<bv64>
    var popcount: nat

    ghost function Set(): set<nat>
      reads this
    {
      Bits(words)
    }

    ghost predicate Valid()
      reads this
    {
      Counted(hashing.numBits, words, popcount)
    }

    /** The source panics when the size would overflow. */
    constructor (hashing: Hashing)
      requires hashing.numBits + 63 <= U64_MAX
      ensures Valid() && Set() == {} && this.hashing == hashing
    {
      this.hashing := hashing;
      words := seq((hashing.numBits + 63) / 64, _ => 0);
      popcount := 0;
      new;
      assert forall p :: !IsSet(words, p);
    }

    /** The atomic or, and the counter increment it leads to. */
    method FetchOr(p: nat) returns (isNew: bool)
      requires Valid() && p < hashing.numBits
      modifies this
      ensures Valid() && Set() == old(Set()) + {p} && (isNew <==> p !in old(Set()))
    {
      hide Bits, Counted, OrBit;
      OrBitCounts(hashing.numBits, words, popcount, p);
      var (words', clear) := OrBit(words, p);
      words, isNew := words', clear;
      if isNew {
        popcount := popcount + 1;
      }
    }

    /** Reports a duplicate exactly when all bits of the data were set already, and sets them. */
    method Dedup(data: Data) returns (out: bool)
      requires Valid() && hashing.numBits > 0
      modifies this
      ensures Valid() && Set() == old(Set()) + hashing.Positions(data)
      ensures out <==> hashing.Positions(data) <= old(Set())
    {
      hide Bits, Counted;
      ghost var was := Set();
      out := true;
      PrefixNext(hashing, data, 0);
      for i := 0 to hashing.k
        invariant Valid() && Set() == was + hashing.Prefix(data, i)
        invariant out <==> hashing.Prefix(data, i) <= was
      {
        PrefixNext(hashing, data, i);
        var isNew := FetchOr(hashing.Position(i, data));
        if isNew {
          out := false;
        }
      }
    }
  }

  lemma AddOne(s: set<nat>, p: nat)
    ensures |s + {p}| == |s| + (if p in s then 0 else 1)
  {
    if p in s {
      assert s + {p} == s;
    }
  }

  lemma WordIndex(p: nat, n: nat)
    requires p < n
    ensures p / 64 < (n + 63) / 64
  {
  }

  lemma IsSetDef(words: seq<bv64>, p: nat)
    requires p / 64 < |words|
    ensures p in Bits(words) <==> And(words[p / 64], Mask(p % 64)) != 0
  {
    hide Mask, And;
  }

  // ---------------------------------------------------------------- packets

  /** The bits set once the packets have been seen. */
  ghost function Seen(h: Hashing, bits: set<nat>, ps: seq<Packet>): set<nat>
    requires h.numBits > 0
  {
    if ps == [] then bits
    else
      var p := ps[|ps| - 1];
      Seen(h, bits, ps[..|ps| - 1]) + (if p.discard then {} else h.Positions(p.buffer))
  }

  /** A packet is discarded exactly when it was already, or all its bits are set. */
  ghost function Deduplicated(h: Hashing, bits: set<nat>, p: Packet): Packet
    requires h.numBits > 0
  {
    p.(discard := p.discard || h.Positions(p.buffer) <= bits)
  }

  /** Every packet, deduplicated against those before it. */
  ghost function DedupAll(h: Hashing, bits: set<nat>, ps: seq<Packet>): (r: seq<Packet>)
    requires h.numBits > 0
    ensures |r| == |ps|
  {
    if ps == [] then []
    else
      var n := |ps| - 1;
      DedupAll(h, bits, ps[..n]) + [Deduplicated(h, Seen(h, bits, ps[..n]), ps[n])]
  }

  function Discarded(ps: seq<Packet>): nat {
    if ps == [] then 0 else Discarded(ps[..|ps| - 1]) + (if ps[|ps| - 1].discard then 1 else 0)
  }

  lemma DedupNone(h: Hashing, bits: set<nat>)
    requires h.numBits > 0
    ensures Seen(h, bits, []) == bits && DedupAll(h, bits, []) == [] && Discarded([]) == 0
  {
  }

  lemma DedupPush(h: Hashing, bits: set<nat>, ps: seq<Packet>, p: Packet)
    requires h.numBits > 0
    ensures Seen(h, bits, ps + [p]) == Seen(h, bits, ps) + (if p.discard then {} else h.Positions(p.buffer))
    ensures DedupAll(h, bits, ps + [p]) == DedupAll(h, bits, ps) + [Deduplicated(h, Seen(h, bits, ps), p)]
  {
    assert (ps + [p])[..|ps|] == ps;
  }

  lemma {:induction false} DiscardedAppend(ps: seq<Packet>, qs: seq<Packet>)
    ensures Discarded(ps + qs) == Discarded(ps) + Discarded(qs)
  {
    if qs == [] {
      assert ps + qs == ps;
    } else {
      DiscardedAppend(ps, qs[..|qs| - 1]);
      assert (ps + qs)[..|ps + qs| - 1] == ps + qs[..|qs| - 1];
    }
  }

  lemma DiscardedOne(p: Packet)
    ensures Discarded([p]) == if p.discard then 1 else 0
  {
    assert [p][..0] == [];
  }

  method DedupOne(d: Deduper, packet: Packet) returns (p: Packet)
    requires d.Valid() && d.hashing.numBits > 0
    modifies d
    ensures d.Valid()
    ensures d.Set() == old(d.Set()) + (if packet.discard then {} else d.hashing.Positions(packet.buffer))
    ensures p == Deduplicated(d.hashing, old(d.Set()), packet)
  {
    hide Bits, Counted;
    p := packet;
    if !p.discard {
      var duplicate := d.Dedup(p.buffer);
      if duplicate {
        p := p.(discard := true);
      }
    }
  }

  /** The packets of one batch, after all packets `before` it. */
  method DedupBatch(d: Deduper, batch: seq<Packet>, ghost bits: set<nat>, ghost before: seq<Packet>)
    returns (r: seq<Packet>, discards: nat)
    requires d.Valid() && d.hashing.numBits > 0 && d.Set() == Seen(d.hashing, bits, before)
    modifies d
    ensures d.Valid() && d.Set() == Seen(d.hashing, bits, before + batch)
    ensures DedupAll(d.hashing, bits, before + batch) == DedupAll(d.hashing, bits, before) + r
    ensures |r| == |batch| && discards == Discarded(r)
  {
    hide Bits, Counted, Seen, Deduplicated, DedupAll, Discarded;
    r, discards := batch, 0;
    DedupNone(d.hashing, bits);
    assert before + batch[..0] == before;
    for i := 0 to |batch|
      invariant d.Valid() && |r| == |batch| && r[i..] == batch[i..]
      invariant d.Set() == Seen(d.hashing, bits, before + batch[..i]) && discards == Discarded(r[..i])
      invariant DedupAll(d.hashing, bits, before + batch[..i]) == DedupAll(d.hashing, bits, before) + r[..i]
    {
      assert before + batch[..i + 1] == before + batch[..i] + [batch[i]];
      DedupPush(d.hashing, bits, before + batch[..i], batch[i]);
      var p := DedupOne(d, r[i]);
      DiscardedAppend(r[..i], [p]);
      DiscardedOne(p);
      r := r[i := p];
      discards := discards + (if p.discard then 1 else 0);
      assert r[..i + 1] == r[..i] + [p];
    }
    assert batch[..|batch|] == batch && r[..|batch|] == r;
  }

  /** Deduplicates the packets of all batches in place, in order, and counts those that are discarded then. */
  method DedupAndCountDiscards(d: Deduper, b: PacketBatches) returns (discards: nat)
    requires d.Valid() && d.hashing.numBits > 0
    modifies d, b
    ensures d.Valid() && Shape(b.batches) == old(Shape(b.batches))
    ensures d.Set() == Seen(d.hashing, old(d.Set()), old(Flatten(b.batches)))
    ensures Flatten(b.batches) == DedupAll(d.hashing, old(d.Set()), old(Flatten(b.batches)))
    ensures discards == Discarded(Flatten(b.batches))
  {
    hide Bits, Counted, Seen, DedupAll, Discarded, Flatten, Shape;
    ghost var was, bits := b.batches, d.Set();
    discards := 0;
    DedupNone(d.hashing, bits);
    FlattenNone<Packet>();
    for i := 0 to |b.batches|
      invariant d.Valid() && |b.batches| == |was| && b.batches[i..] == was[i..] && Shape(b.batches) == Shape(was)
      invariant d.Set() == Seen(d.hashing, bits, Flatten(was[..i]))
      invariant Flatten(b.batches[..i]) == DedupAll(d.hashing, bits, Flatten(was[..i]))
      invariant discards == Discarded(Flatten(b.batches[..i]))
    {
      var batch, n := DedupBatch(d, b.batches[i], bits, Flatten(was[..i]));
      FlattenTake(was, i);
      DiscardedAppend(Flatten(b.batches[..i]), batch);
      ReplaceBatch(b.batches, i, batch);
      b.batches := b.batches[i := batch];
      discards := discards + n;
    }
    assert b.batches[..|was|] == b.batches && was[..|was|] == was;
  }

  // ---------------------------------------------------------------- what survives

  lemma {:induction false} DedupAt(h: Hashing, bits: set<nat>, ps: seq<Packet>, i: nat)
    requires h.numBits > 0 && i < |ps|
    ensures DedupAll(h, bits, ps)[i] == Deduplicated(h, Seen(h, bits, ps[..i]), ps[i])
  {
    hide Seen, Deduplicated;
    var n := |ps| - 1;
    if i < n {
      DedupAt(h, bits, ps[..n], i);
      assert ps[..n][..i] == ps[..i];
    }
  }

  lemma {:induction false} SeenGrows(h: Hashing, bits: set<nat>, ps: seq<Packet>, i: nat)
    requires h.numBits > 0 && i < |ps| && !ps[i].discard
    ensures h.Positions(ps[i].buffer) <= Seen(h, bits, ps)
  {
    if i + 1 < |ps| {
      SeenGrows(h, bits, ps[..|ps| - 1], i);
    }
  }

  /** A packet is discarded only if it was, or if each of its bits was set at the start or for a packet before it. */
  lemma {:induction false} SeenExactly(h: Hashing, bits: set<nat>, ps: seq<Packet>, p: nat)
    requires h.numBits > 0
    ensures p in Seen(h, bits, ps) <==>
            p in bits || exists j :: 0 <= j < |ps| && !ps[j].discard && p in h.Positions(ps[j].buffer)
  {
    if ps != [] {
      var n := |ps| - 1;
      SeenExactly(h, bits, ps[..n], p);
      if exists j :: 0 <= j < n && !ps[j].discard && p in h.Positions(ps[j].buffer) {
        var j :| 0 <= j < n && !ps[j].discard && p in h.Positions(ps[j].buffer);
        assert ps[..n][j] == ps[j];
      }
    }
  }

  /** Deduplication changes nothing but the flag of kept packets, and sets it exactly when every bit was set at the start
      or for a kept packet before. */
  lemma DiscardedExactly(h: Hashing, bits: set<nat>, ps: seq<Packet>, i: nat)
    requires h.numBits > 0 && i < |ps|
    ensures var r := DedupAll(h, bits, ps)[i];
            && r == ps[i].(discard := r.discard)
            && (r.discard <==> || ps[i].discard
                               || forall p :: p in h.Positions(ps[i].buffer) ==>
                                    p in bits || exists j :: 0 <= j < i && !ps[j].discard && p in h.Positions(ps[j].buffer))
  {
    hide Seen, DedupAll;
    DedupAt(h, bits, ps, i);
    forall p ensures p in Seen(h, bits, ps[..i]) <==>
                     p in bits || exists j :: 0 <= j < i && !ps[j].discard && p in h.Positions(ps[j].buffer) {
      SeenExactly(h, bits, ps[..i], p);
    }
  }

  ghost function DiscardedAt(ps: seq<Packet>): set<nat> { set i: nat | i < |ps| && ps[i].discard }

  /** The count is the number of places at which packets are discarded. */
  lemma {:induction false} DiscardedCounts(ps: seq<Packet>)
    ensures Discarded(ps) == |DiscardedAt(ps)|
  {
    if ps == [] {
      assert DiscardedAt(ps) == {};
    } else {
      var n := |ps| - 1;
      DiscardedCounts(ps[..n]);
      assert DiscardedAt(ps) == DiscardedAt(ps[..n]) + (if ps[n].discard then {n} else {});
    }
  }

  /** Survivors of a deduplication have pairwise different bytes. */
  lemma SurvivorsDistinct(h: Hashing, bits: set<nat>, ps: seq<Packet>, i: nat, j: nat)
    requires h.numBits > 0 && i < j < |ps|
    requires !DedupAll(h, bits, ps)[i].discard && !DedupAll(h, bits, ps)[j].discard
    ensures ps[i].buffer != ps[j].buffer
  {
    hide Seen, DedupAll;
    DedupAt(h, bits, ps, i);
    DedupAt(h, bits, ps, j);
    SeenGrows(h, bits, ps[..j], i);
  }
}

/** Signature verification of `perf/src/sigverify.rs` on the CPU, packet by packet. */
module Sigverify {
  import opened Prelude
  import opened Packet
  import opened Offsets
  import opened Batches
  import Wire

  /** Ed25519 verification (section 5.1.7 of RFC 8032): any predicate of signature, key and message. */
  type Ed25519 = (seq<byte>, seq<byte>, seq<byte>) -> bool

  // ---------------------------------------------------------------- one packet on the CPU

  predicate SignatureVerifies(ed: Ed25519, p: Packet, o: PacketOffsets, i: nat) {
    var sig := p.Slice(o.sigStart + SIGNATURE_BYTES * i, o.sigStart + SIGNATURE_BYTES * i + SIGNATURE_BYTES);
    var key := p.Slice(o.pubkeyStart + PUBKEY_BYTES * i, o.pubkeyStart + PUBKEY_BYTES * i + PUBKEY_BYTES);
    var message := p.From(o.msgStart);
    sig.Some? && key.Some? && message.Some? && ed(sig.value, key.value, message.value)
  }

  predicate PacketVerifies(ed: Ed25519, p: Packet, reject: bool) {
    var (p', o) := GetPacketOffsets(p, 0, reject);
    && !p.discard && o.sigLen != 0 && o.msgStart < p.size
    && forall i :: 0 <= i < o.sigLen ==> SignatureVerifies(ed, p', o, i)
  }

  /** Also returns the packet, whose simple-vote flag may have been set. */
  method VerifyPacket(ed: Ed25519, packet: Packet, reject: bool) returns (p: Packet, ok: bool)
    ensures ok <==> PacketVerifies(ed, packet, reject)
    ensures p == if packet.discard then packet else GetPacketOffsets(packet, 0, reject).0
  {
    hide GetPacketOffsets;
    p := packet;
    if packet.discard {
      return packet, false;
    }
    var (flagged, o) := GetPacketOffsets(packet, 0, reject);
    p := flagged;
    var sigStart, pubkeyStart := o.sigStart, o.pubkeyStart;
    if o.sigLen == 0 {
      return p, false;
    }
    if p.size <= o.msgStart {
      return p, false;
    }
    for i := 0 to o.sigLen
      invariant sigStart == o.sigStart + SIGNATURE_BYTES * i && pubkeyStart == o.pubkeyStart + PUBKEY_BYTES * i
      invariant forall j :: 0 <= j < i ==> SignatureVerifies(ed, p, o, j)
    {
      var sigEnd, pubkeyEnd := sigStart + SIGNATURE_BYTES, pubkeyStart + PUBKEY_BYTES;
      var signature, pubkey, message := p.Slice(sigStart, sigEnd), p.Slice(pubkeyStart, pubkeyEnd), p.From(o.msgStart);
      if signature.None? || pubkey.None? || message.None? || !ed(signature.value, pubkey.value, message.value) {
        assert !SignatureVerifies(ed, p, o, i);
        return p, false;
      }
      sigStart, pubkeyStart := sigEnd, pubkeyEnd;
    }
    ok := true;
  }

  /** A packet that parses fails only on a bad signature, or for not being a vote when votes are wanted; every read stays
      inside the packet. */
  lemma OnlyBadSignaturesFail(ed: Ed25519, p: Packet, reject: bool)
    requires p.Sized() && ParseOffsets(p).Ok?
    ensures var o := ParseOffsets(p).value;
            PacketVerifies(ed, p, reject) <==>
            && (reject ==> GetPacketOffsets(p, 0, false).0.simpleVote)
            && forall i :: 0 <= i < o.sigLen ==> SignatureVerifies(ed, p, o, i)
    ensures var s, o := p.buffer, ParseOffsets(p).value;
            forall i :: 0 <= i < o.sigLen ==>
              var sig, key := o.sigStart + SIGNATURE_BYTES * i, o.pubkeyStart + PUBKEY_BYTES * i;
              && sig + SIGNATURE_BYTES <= o.msgStart < |s| && key + PUBKEY_BYTES <= |s|
              && (SignatureVerifies(ed, p, o, i) <==>
                  ed(s[sig..sig + SIGNATURE_BYTES], s[key..key + PUBKEY_BYTES], s[o.msgStart..]))
  {
    OffsetsSound(p);
    OffsetsShift(p, 0);
    hide ParseOffsets, DoGetPacketOffsets, CheckSimpleVote;
    var p', o := GetPacketOffsets(p, 0, reject).0, ParseOffsets(p).value;
    forall i | 0 <= i < o.sigLen ensures SignatureVerifies(ed, p', o, i) <==> SignatureVerifies(ed, p, o, i) {
    }
  }

  /** A serialized transaction verifies exactly when each of its signatures verifies its message under its key, and it
      is a vote if votes are wanted. */
  lemma TransactionVerifies(ed: Ed25519, t: Wire.Transaction, p: Packet, reject: bool)
    requires t.Valid() && p.buffer == t.Bytes() && p.Sized() && !p.discard && p.size <= U64_MAX
    ensures PacketVerifies(ed, p, reject) <==>
            && (reject ==> p.simpleVote || t.SimpleVote())
            && forall i :: 0 <= i < |t.head.signatures| ==>
                 ed(t.head.signatures[i], t.head.keys[i], t.Bytes()[|t.head.Counted()|..])
  {
    hide ParseOffsets, PacketVerifies, SignatureVerifies, GetPacketOffsets, Flatten;
    var h, s := t.head, p.buffer;
    assert h.Bytes() <= s;
    Wire.HeadParses(h, p);
    Wire.ParseInvertsSerialization(t, p, false);
    OnlyBadSignaturesFail(ed, p, reject);
    Wire.FlattenWide(h.signatures, SIGNATURE_BYTES);
    var o := h.Offsets();
    forall i | 0 <= i < o.sigLen
      ensures SignatureVerifies(ed, p, o, i) <==> ed(h.signatures[i], h.keys[i], s[|h.Counted()|..])
    {
      Wire.OffsetsNameFields(h, s, i);
    }
  }
}

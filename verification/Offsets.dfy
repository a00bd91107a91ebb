/** The wire parser of `perf/src/sigverify.rs`: where the fields of a transaction lie inside a packet. */
module Offsets {
  import opened Prelude
  import opened Packet
  import ShortVec

  const SIGNATURE_BYTES := 64
  const PUBKEY_BYTES := 32
  const HASH_BYTES := 32
  const MESSAGE_HEADER_LENGTH := 3
  const MESSAGE_VERSION_PREFIX := 128

  /** The address of the vote program. */
  const VOTE_ID: seq<byte> := [
    7, 97, 72, 29, 53, 116, 116, 187, 124, 77, 118, 36, 235, 211, 189, 179,
    216, 53, 94, 115, 209, 16, 67, 252, 13, 163, 83, 128, 0, 0, 0, 0]

  datatype PacketOffsets = PacketOffsets(sigLen: nat, sigStart: nat, msgStart: nat, pubkeyStart: nat, pubkeyLen: nat) {
    function Shift(d: nat): PacketOffsets {
      this.(sigStart := sigStart + d, msgStart := msgStart + d, pubkeyStart := pubkeyStart + d)
    }
  }

  datatype PacketError =
    InvalidLen | InvalidPubkeyLen | InvalidShortVec | InvalidSignatureLen | MismatchSignatureLen | PayerNotWritable
    | InvalidProgramIdIndex | InvalidProgramLen | UnsupportedVersion

  type Parsed<T> = Result<T, PacketError>

  // ---------------------------------------------------------------- checked reads

  function Require(holds: bool, e: PacketError): Parsed<()> { if holds then Ok(()) else Err(e) }

  /** A `usize` result of checked arithmetic. */
  function Checked(n: nat, e: PacketError): Parsed<nat> { if n <= U64_MAX then Ok(n) else Err(e) }

  /** `u32::try_from`. */
  function Narrow(n: nat): Parsed<nat> { if n <= U32_MAX then Ok(n) else Err(InvalidLen) }

  function ReadByte(p: Packet, i: nat, e: PacketError): Parsed<byte> {
    var b := p.Byte(i);
    if b.Some? then Ok(b.value) else Err(e)
  }

  function ReadLen(p: Packet, from: nat, e: PacketError): Parsed<(nat, nat)> {
    var bytes := p.From(from);
    if bytes.None? then Err(e)
    else
      var len := ShortVec.Decode(bytes.value);
      if len.Some? then Ok(len.value) else Err(e)
  }

  // ---------------------------------------------------------------- do_get_packet_offsets

  /** Where the message header starts: after the prefix byte of a version 0 message. */
  function HeaderOffset(p: Packet, msgStart: nat): Parsed<nat> {
    var _ :- Require(msgStart < p.size, InvalidSignatureLen);
    var prefix :- ReadByte(p, msgStart, InvalidSignatureLen);
    if prefix < MESSAGE_VERSION_PREFIX then Ok(msgStart)
    else if prefix == MESSAGE_VERSION_PREFIX then Checked(msgStart + 1, InvalidLen)
    else Err(UnsupportedVersion)
  }

  /** The header must charge a writable payer and require as many signatures as there are. */
  function CheckHeader(p: Packet, header: nat, sigLen: nat): Parsed<()> {
    var _ :- Checked(header + 1 + MESSAGE_HEADER_LENGTH, InvalidSignatureLen);
    var _ :- Require(header + 1 + MESSAGE_HEADER_LENGTH <= p.size, InvalidSignatureLen);
    var required :- ReadByte(p, header, InvalidSignatureLen);
    var readonly :- ReadByte(p, header + 1, InvalidSignatureLen);
    var _ :- Require(required > readonly, PayerNotWritable);
    Require(required == sigLen, MismatchSignatureLen)
  }

  /** A length that was read is the encoding that stands there. */
  lemma ReadLenSound(p: Packet, from: nat, e: PacketError)
    requires ReadLen(p, from, e).Ok?
    ensures var (n, k) := ReadLen(p, from, e).value;
            && !p.discard && n <= 0xFFFF && 1 <= k <= 3 && from + k <= |p.buffer|
            && p.buffer[from..from + k] == ShortVec.Encode(n)
  {
    var s := p.buffer[from..];
    ShortVec.EncodeDecoded(s);
    var k := ShortVec.Decode(s).value.1;
    assert s[..k] == p.buffer[from..from + k];
  }

  lemma HeaderOffsetSound(p: Packet, msgStart: nat)
    requires HeaderOffset(p, msgStart).Ok?
    ensures msgStart < |p.buffer| && msgStart < p.size && p.buffer[msgStart] <= MESSAGE_VERSION_PREFIX
    ensures HeaderOffset(p, msgStart).value
         == if p.buffer[msgStart] == MESSAGE_VERSION_PREFIX then msgStart + 1 else msgStart
  {
  }

  lemma CheckHeaderSound(p: Packet, header: nat, sigLen: nat)
    requires CheckHeader(p, header, sigLen).Ok?
    ensures header + 4 <= p.size && header + 1 < |p.buffer| && p.buffer[header] == sigLen > p.buffer[header + 1]
  {
  }

  /** Everything that does not depend on where the packet is placed. */
  function ParseOffsets(p: Packet): Parsed<PacketOffsets> {
    var _ :- Require(1 + SIGNATURE_BYTES <= p.size, InvalidLen);
    var (sigLen, sigSize) :- ReadLen(p, 0, InvalidShortVec);
    var msgStart :- Checked(sigLen * SIGNATURE_BYTES + sigSize, InvalidLen);
    var header :- HeaderOffset(p, msgStart);
    var _ :- CheckHeader(p, header, sigLen);
    var (pubkeyLen, pubkeyLenSize) :- ReadLen(p, header + MESSAGE_HEADER_LENGTH, InvalidShortVec);
    var pubkeyStart :- Checked(header + MESSAGE_HEADER_LENGTH + pubkeyLenSize, InvalidPubkeyLen);
    var keysEnd :- Checked(pubkeyLen * PUBKEY_BYTES + pubkeyStart, InvalidPubkeyLen);
    var _ :- Require(keysEnd <= p.size, InvalidPubkeyLen);
    var _ :- Require(pubkeyLen >= sigLen, InvalidPubkeyLen);
    Ok(PacketOffsets(sigLen, sigSize, msgStart, pubkeyStart, pubkeyLen))
  }

  function DoGetPacketOffsets(p: Packet, current: nat): Parsed<PacketOffsets> {
    var o :- ParseOffsets(p);
    var sigStart :- Checked(current + o.sigStart, InvalidLen);
    var msgStart :- Checked(current + o.msgStart, InvalidLen);
    var pubkeyStart :- Checked(current + o.pubkeyStart, InvalidLen);
    var sigLen :- Narrow(o.sigLen);
    var sigStart' :- Narrow(sigStart);
    var msgStart' :- Narrow(msgStart);
    var pubkeyStart' :- Narrow(pubkeyStart);
    var pubkeyLen :- Narrow(o.pubkeyLen);
    Ok(PacketOffsets(sigLen, sigStart', msgStart', pubkeyStart', pubkeyLen))
  }

  /** Whenever parsing succeeds there is a signature, the fields follow one another, every signer has a key and all
      keys lie inside the packet. */
  lemma OffsetsSound(p: Packet)
    requires ParseOffsets(p).Ok?
    ensures var o := ParseOffsets(p).value;
            && !p.discard
            && 1 <= o.sigLen <= 255 && o.sigLen <= o.pubkeyLen <= 0xFFFF
            && 1 <= o.sigStart <= 3
            && o.msgStart == o.sigStart + SIGNATURE_BYTES * o.sigLen < o.pubkeyStart <= o.msgStart + 7
            && o.pubkeyStart + PUBKEY_BYTES * o.pubkeyLen <= p.size
  {
    hide ReadLen, HeaderOffset, CheckHeader, ShortVec.Encode;
    ReadLenSound(p, 0, InvalidShortVec);
    var msgStart := ParseOffsets(p).value.msgStart;
    HeaderOffsetSound(p, msgStart);
    var header := HeaderOffset(p, msgStart).value;
    CheckHeaderSound(p, header, ParseOffsets(p).value.sigLen);
    ReadLenSound(p, header + MESSAGE_HEADER_LENGTH, InvalidShortVec);
  }

  /** The result at an offset is the result at zero, shifted; it fails only where a 32-bit offset cannot hold it. */
  lemma OffsetsShift(p: Packet, current: nat)
    ensures DoGetPacketOffsets(p, 0) == ParseOffsets(p)
    ensures DoGetPacketOffsets(p, current) ==
            match ParseOffsets(p)
            case Err(e) => Err(e)
            case Ok(o) => if current + o.pubkeyStart <= U32_MAX then Ok(o.Shift(current)) else Err(InvalidLen)
  {
    if ParseOffsets(p).Ok? {
      OffsetsSound(p);
    }
  }

  // ---------------------------------------------------------------- simple votes

  /** `Ok(true)` where the source sets the simple-vote flag. */
  function CheckSimpleVote(p: Packet, o: PacketOffsets, current: nat): Parsed<bool> {
    var _ :- Require(o.sigLen <= 2, InvalidSignatureLen);
    var _ :- Require(current <= o.msgStart, InvalidLen);
    var prefix :- ReadByte(p, o.msgStart - current, InvalidLen);
    if prefix >= MESSAGE_VERSION_PREFIX then Ok(false)
    else
      var _ :- Require(current <= o.pubkeyStart, InvalidLen);
      CheckInstruction(p, o.pubkeyStart - current, o.pubkeyLen)
  }

  function CheckInstruction(p: Packet, pubkeyStart: nat, pubkeyLen: nat): Parsed<bool> {
    var lenOffset :- Checked(pubkeyLen * PUBKEY_BYTES + pubkeyStart + HASH_BYTES, InvalidLen);
    var _ :- Require(lenOffset + 1 <= p.size, InvalidLen);
    var (count, countSize) :- ReadLen(p, lenOffset, InvalidLen);
    var _ :- Require(count == 1, InvalidProgramLen);
    var start :- Checked(lenOffset + countSize, InvalidLen);
    var _ :- Require(start + 1 <= p.size, InvalidLen);
    var index :- ReadByte(p, start, InvalidLen);
    var _ :- Require(index < pubkeyLen, InvalidProgramIdIndex);
    var keyStart :- Checked(index * PUBKEY_BYTES + pubkeyStart, InvalidLen);
    var key := p.Slice(keyStart, keyStart + PUBKEY_BYTES);
    if key.None? then Err(InvalidLen) else Ok(key.value == VOTE_ID)
  }

  const NO_OFFSETS := PacketOffsets(0, 0, 0, 0, 0)

  /** The packet with its simple-vote flag updated, and its offsets; all zero to make verification fail. */
  function GetPacketOffsets(p: Packet, current: nat, rejectNonVote: bool): (r: (Packet, PacketOffsets))
    ensures r.0 == p.(simpleVote := r.0.simpleVote) && (p.simpleVote ==> r.0.simpleVote)
  {
    match DoGetPacketOffsets(p, current)
    case Err(_) => (p, NO_OFFSETS)
    case Ok(o) =>
      var p' := if CheckSimpleVote(p, o, current) == Ok(true) then p.(simpleVote := true) else p;
      if !rejectNonVote || p'.simpleVote then (p', o) else (p', NO_OFFSETS)
  }

  lemma SimpleVoteShift(p: Packet, o: PacketOffsets, current: nat)
    ensures CheckSimpleVote(p, o.Shift(current), current) == CheckSimpleVote(p, o, 0)
  {
  }

  /** Where 32 bits address its keys, placing a packet elsewhere changes neither its flag nor the outcome, and shifts
      its offsets; beyond, it is given up untouched. */
  lemma PlacementIndependent(p: Packet, current: nat, reject: bool)
    ensures var (p0, o0) := GetPacketOffsets(p, 0, reject);
            GetPacketOffsets(p, current, reject) ==
            if ParseOffsets(p).Ok? && current + ParseOffsets(p).value.pubkeyStart > U32_MAX then (p, NO_OFFSETS)
            else (p0, if o0.sigLen == 0 then NO_OFFSETS else o0.Shift(current))
  {
    OffsetsShift(p, current);
    if ParseOffsets(p).Ok? {
      OffsetsSound(p);
      SimpleVoteShift(p, ParseOffsets(p).value, current);
    }
  }

  /** Only packets that parse have offsets, and those are the parsed ones; without them only the verdict can differ. */
  lemma OffsetsAreParsed(p: Packet, reject: bool)
    ensures var (p0, o0) := GetPacketOffsets(p, 0, reject);
            if o0.sigLen != 0 then ParseOffsets(p) == Ok(o0)
            else ParseOffsets(p).Err? || p0 == p
  {
    OffsetsShift(p, 0);
    if ParseOffsets(p).Ok? {
      OffsetsSound(p);
    }
  }

  /** A discarded packet is left alone. */
  lemma DiscardedUntouched(p: Packet, current: nat, reject: bool)
    requires p.discard
    ensures GetPacketOffsets(p, current, reject) == (p, NO_OFFSETS)
  {
  }

  /** Non-zero offsets are sound. */
  lemma GoodOffsets(p: Packet, reject: bool)
    requires GetPacketOffsets(p, 0, reject).1.sigLen != 0
    ensures var o := GetPacketOffsets(p, 0, reject).1;
            && !p.discard && o.sigLen <= o.pubkeyLen
            && o.msgStart == o.sigStart + SIGNATURE_BYTES * o.sigLen < o.pubkeyStart
            && o.pubkeyStart + PUBKEY_BYTES * o.pubkeyLen <= p.size
  {
    hide ParseOffsets, CheckSimpleVote;
    OffsetsShift(p, 0);
    if ParseOffsets(p).Ok? {
      OffsetsSound(p);
    }
  }
}

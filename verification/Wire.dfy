/** Serialized transactions: the parser finds exactly the fields that serialization put there. */
module Wire {
  import opened Prelude
  import opened Packet
  import opened Offsets
  import opened Batches
  import ShortVec

  // ---------------------------------------------------------------- arrays of fields of equal width

  predicate AllWide(parts: seq<seq<byte>>, w: nat) {
    forall i :: 0 <= i < |parts| ==> |parts[i]| == w
  }

  lemma {:induction false} FlattenWide(parts: seq<seq<byte>>, w: nat)
    requires AllWide(parts, w)
    ensures |Flatten(parts)| == w * |parts|
  {
    if parts != [] {
      FlattenWide(parts[..|parts| - 1], w);
      assert w * |parts| == w * (|parts| - 1) + w;
    }
  }

  lemma {:induction false} FlattenAt(parts: seq<seq<byte>>, w: nat, i: nat)
    requires AllWide(parts, w) && i < |parts|
    ensures 0 <= w * i <= w * i + w <= |Flatten(parts)| && Flatten(parts)[w * i..w * i + w] == parts[i]
  {
    var n := |parts| - 1;
    FlattenWide(parts[..n], w);
    FlattenWide(parts, w);
    assert w * (n + 1) == w * n + w;
    if i < n {
      FlattenAt(parts[..n], w, i);
    }
  }

  /** A field of an array that starts at `start`. */
  lemma FieldAt(s: seq<byte>, start: nat, parts: seq<seq<byte>>, w: nat, i: nat)
    requires AllWide(parts, w) && i < |parts|
    requires start <= start + |Flatten(parts)| <= |s| && s[start..start + |Flatten(parts)|] == Flatten(parts)
    ensures 0 <= w * i && start + w * i + w <= |s| && s[start + w * i..start + w * i + w] == parts[i]
  {
    FlattenAt(parts, w, i);
    var at, n := w * i, |Flatten(parts)|;
    assert s[start..start + n][at..at + w] == s[start + at..start + at + w];
  }

  /** The `n` fields of width `w` at the start of `s`. */
  function Fields(s: seq<byte>, w: nat, n: nat): (parts: seq<seq<byte>>)
    requires w * n <= |s|
    ensures |parts| == n && AllWide(parts, w)
  {
    if n == 0 then []
    else
      assert w * n == w * (n - 1) + w;
      Fields(s, w, n - 1) + [s[w * (n - 1)..w * n]]
  }

  lemma {:induction false} FlattenFields(s: seq<byte>, w: nat, n: nat)
    requires w * n <= |s|
    ensures Flatten(Fields(s, w, n)) == s[..w * n]
  {
    if n > 0 {
      assert w * n == w * (n - 1) + w;
      FlattenFields(s, w, n - 1);
    }
  }

  lemma FlattenFieldsAt(s: seq<byte>, start: nat, w: nat, n: nat)
    requires 0 <= start + w * n <= |s| && start <= |s|
    ensures w * n <= |s[start..]| && Flatten(Fields(s[start..], w, n)) == s[start..start + w * n]
  {
    FlattenFields(s[start..], w, n);
  }

  lemma Glue(s: seq<byte>, i: nat, j: nat, before: seq<byte>, piece: seq<byte>)
    requires i <= j <= |s| && s[..i] == before && s[i..j] == piece
    ensures s[..j] == before + piece
  {
  }

  // ---------------------------------------------------------------- transaction heads

  /** Signatures, version, message header and account keys. */
  datatype Head = Head(signatures: seq<seq<byte>>, version: Option<byte>, required: byte, readonlySigned: byte,
                       readonlyUnsigned: byte, keys: seq<seq<byte>>)
  {
    /** The field widths of the format; a legacy header byte leaves the version bit clear. */
    predicate Shaped() {
      && AllWide(signatures, SIGNATURE_BYTES) && AllWide(keys, PUBKEY_BYTES)
      && |signatures| <= 0xFFFF && |keys| <= 0xFFFF
      && (if version.Some? then version.value < MESSAGE_VERSION_PREFIX else required < MESSAGE_VERSION_PREFIX)
    }

    /** Legacy or version 0, a writable payer, the required signatures, and a key for each of them. */
    predicate Valid() {
      && Shaped() && (version.None? || version.value == 0)
      && required > readonlySigned && required == |signatures| <= |keys|
    }

    function Version(): seq<byte> {
      if version.Some? && version.value < MESSAGE_VERSION_PREFIX then [MESSAGE_VERSION_PREFIX + version.value] else []
    }

    function Counted(): seq<byte>
      requires |signatures| <= 0xFFFF
    {
      ShortVec.Encode(|signatures|) + Flatten(signatures)
    }

    function Header(): seq<byte> { [required, readonlySigned, readonlyUnsigned] }

    function Bytes(): seq<byte>
      requires Shaped()
    {
      Counted() + Version() + Header() + ShortVec.Encode(|keys|) + Flatten(keys)
    }

    function Offsets(): PacketOffsets
      requires Shaped()
    {
      var sigSize := |ShortVec.Encode(|signatures|)|;
      var msgStart := sigSize + SIGNATURE_BYTES * |signatures|;
      PacketOffsets(|signatures|, sigSize, msgStart,
                    msgStart + |Version()| + MESSAGE_HEADER_LENGTH + |ShortVec.Encode(|keys|)|, |keys|)
    }

    /** What the parser makes of it: its offsets, or the first check that fails. */
    function Outcome(): Parsed<PacketOffsets>
      requires Shaped()
    {
      if version.Some? && version.value != 0 then Err(UnsupportedVersion)
      else if required <= readonlySigned then Err(PayerNotWritable)
      else if required != |signatures| then Err(MismatchSignatureLen)
      else if |keys| < |signatures| then Err(InvalidPubkeyLen)
      else Ok(Offsets())
    }
  }

  lemma PieceAt(before: seq<byte>, piece: seq<byte>, s: seq<byte>)
    requires before + piece <= s
    ensures before <= s && |before| + |piece| <= |s| && s[|before|..|before| + |piece|] == piece
  {
    assert (before + piece)[|before|..] == piece && s[..|before| + |piece|] == before + piece;
  }

  /** Where each field of a head lies in a buffer that starts with it. */
  lemma HeadLayout(h: Head, s: seq<byte>)
    requires h.Shaped() && h.Bytes() <= s
    ensures var o, n := h.Offsets(), |h.signatures|; var header := o.msgStart + |h.Version()|;
            && |h.Bytes()| == o.pubkeyStart + PUBKEY_BYTES * |h.keys| <= |s|
            && s[0..o.sigStart] == ShortVec.Encode(n)
            && s[o.sigStart..o.msgStart] == Flatten(h.signatures)
            && s[o.msgStart] == (if h.version.Some? then MESSAGE_VERSION_PREFIX + h.version.value else h.required)
            && s[header] == h.required && s[header + 1] == h.readonlySigned
            && s[header + MESSAGE_HEADER_LENGTH..o.pubkeyStart] == ShortVec.Encode(|h.keys|)
            && s[o.pubkeyStart..o.pubkeyStart + PUBKEY_BYTES * |h.keys|] == Flatten(h.keys)
  {
    hide ShortVec.Encode, ShortVec.Decode;
    FlattenWide(h.signatures, SIGNATURE_BYTES);
    FlattenWide(h.keys, PUBKEY_BYTES);
    var a, b := ShortVec.Encode(|h.signatures|), h.Counted();
    var c := b + h.Version();
    var d := c + h.Header();
    var e := d + ShortVec.Encode(|h.keys|);
    PieceAt(e, Flatten(h.keys), s);
    PieceAt(d, ShortVec.Encode(|h.keys|), s);
    PieceAt(c, h.Header(), s);
    assert s[|c|..|c| + 3][0] == s[|c|] && s[|c|..|c| + 3][1] == s[|c| + 1];
    PieceAt(b, h.Version(), s);
    PieceAt(a, Flatten(h.signatures), s);
  }

  lemma HeaderParses(h: Head, p: Packet)
    requires h.Shaped() && h.Bytes() <= p.buffer && p.Sized() && !p.discard
    ensures var msgStart, n := h.Offsets().msgStart, |h.signatures|; var header := msgStart + |h.Version()|;
            && HeaderOffset(p, msgStart) ==
               (if h.version.Some? && h.version.value != 0 then Err(UnsupportedVersion) else Ok(header))
            && CheckHeader(p, header, n) ==
               (if h.required <= h.readonlySigned then Err(PayerNotWritable)
                else if h.required != n then Err(MismatchSignatureLen) else Ok(()))
  {
    hide ShortVec.Encode, Flatten;
    HeadLayout(h, p.buffer);
  }

  lemma LengthsParse(h: Head, p: Packet, e: PacketError)
    requires h.Shaped() && h.Bytes() <= p.buffer && p.Sized() && !p.discard
    ensures var n, m, o := |h.signatures|, |h.keys|, h.Offsets();
            && ReadLen(p, 0, e) == Ok((n, |ShortVec.Encode(n)|))
            && ReadLen(p, o.msgStart + |h.Version()| + MESSAGE_HEADER_LENGTH, e) == Ok((m, |ShortVec.Encode(m)|))
  {
    hide ShortVec.Encode, ShortVec.Decode;
    HeadLayout(h, p.buffer);
    ShortVec.DecodeEncoded(p.buffer, 0, |h.signatures|);
    ShortVec.DecodeEncoded(p.buffer, h.Offsets().msgStart + |h.Version()| + MESSAGE_HEADER_LENGTH, |h.keys|);
  }

  /** A buffer that starts with a head parses to the offsets of its fields, or to the first check that the head fails;
      a head with a signature is always long enough for the first check of all. */
  lemma HeadParses(h: Head, p: Packet)
    requires h.Shaped() && h.Bytes() <= p.buffer && p.Sized() && !p.discard
    ensures ParseOffsets(p) == if p.size < 1 + SIGNATURE_BYTES then Err(InvalidLen) else h.Outcome()
    ensures h.signatures != [] ==> p.size >= 1 + SIGNATURE_BYTES
  {
    hide ShortVec.Encode, Flatten, ReadLen, HeaderOffset, CheckHeader;
    HeaderParses(h, p);
    LengthsParse(h, p, InvalidShortVec);
    assert h.Offsets().pubkeyStart + PUBKEY_BYTES * |h.keys| <= p.size by { HeadLayout(h, p.buffer); }
    assert h.Offsets().msgStart < p.size by { HeadLayout(h, p.buffer); }
  }

  /** Those offsets name exactly the signatures and keys. */
  lemma OffsetsNameFields(h: Head, s: seq<byte>, i: nat)
    requires h.Shaped() && h.Bytes() <= s
    ensures var o := h.Offsets();
            && (i < o.sigLen ==> var at := o.sigStart + SIGNATURE_BYTES * i;
                                 at + SIGNATURE_BYTES <= |s| && s[at..at + SIGNATURE_BYTES] == h.signatures[i])
            && (i < o.pubkeyLen ==> var at := o.pubkeyStart + PUBKEY_BYTES * i;
                                    at + PUBKEY_BYTES <= |s| && s[at..at + PUBKEY_BYTES] == h.keys[i])
  {
    hide ShortVec.Encode, ShortVec.Decode;
    HeadLayout(h, s);
    var o := h.Offsets();
    FlattenWide(h.signatures, SIGNATURE_BYTES);
    FlattenWide(h.keys, PUBKEY_BYTES);
    if i < o.sigLen {
      FieldAt(s, o.sigStart, h.signatures, SIGNATURE_BYTES, i);
    }
    if i < o.pubkeyLen {
      FieldAt(s, o.pubkeyStart, h.keys, PUBKEY_BYTES, i);
    }
  }

  // ---------------------------------------------------------------- truncated heads

  /** The error for a valid head of which only the first `n` bytes are there. */
  function TruncationError(h: Head, n: nat): PacketError
    requires h.Shaped()
  {
    var o := h.Offsets();
    if n < 1 + SIGNATURE_BYTES then InvalidLen
    else if n < o.msgStart + |h.Version()| + MESSAGE_HEADER_LENGTH + 1 then InvalidSignatureLen
    else if n < o.pubkeyStart then InvalidShortVec
    else InvalidPubkeyLen
  }

  lemma TruncatedCount(h: Head, p: Packet, e: PacketError)
    requires h.Shaped() && p.buffer <= h.Bytes() && |p.buffer| >= h.Offsets().sigStart && !p.discard
    ensures ReadLen(p, 0, e) == Ok((|h.signatures|, h.Offsets().sigStart))
  {
    hide ShortVec.Encode, ShortVec.Decode, Flatten;
    HeadLayout(h, h.Bytes());
    var k := h.Offsets().sigStart;
    assert p.buffer[0..k] == h.Bytes()[0..k];
    ShortVec.DecodeEncoded(p.buffer, 0, |h.signatures|);
  }

  /** The number of keys is read exactly when all of it is there. */
  lemma TruncatedKeys(h: Head, p: Packet, e: PacketError)
    requires h.Shaped() && p.buffer <= h.Bytes() && !p.discard
    requires h.Offsets().msgStart + |h.Version()| + MESSAGE_HEADER_LENGTH <= |p.buffer|
    ensures var o := h.Offsets();
            ReadLen(p, o.msgStart + |h.Version()| + MESSAGE_HEADER_LENGTH, e) ==
            if |p.buffer| < o.pubkeyStart then Err(e) else Ok((|h.keys|, |ShortVec.Encode(|h.keys|)|))
  {
    hide ShortVec.Encode, ShortVec.Decode, Flatten;
    HeadLayout(h, h.Bytes());
    var s, o, n := h.Bytes(), h.Offsets(), |p.buffer|;
    var at := o.msgStart + |h.Version()| + MESSAGE_HEADER_LENGTH;
    if n < o.pubkeyStart {
      assert p.buffer[at..] == s[at..o.pubkeyStart][..n - at];
      ShortVec.TruncatedFails(p.buffer[at..], |h.keys|);
    } else {
      assert p.buffer[at..o.pubkeyStart] == s[at..o.pubkeyStart];
      ShortVec.DecodeEncoded(p.buffer, at, |h.keys|);
    }
  }

  lemma TruncatedHeader(h: Head, p: Packet)
    requires h.Valid() && p.buffer <= h.Bytes() && p.Sized() && !p.discard && p.size <= U64_MAX
    ensures var o, n := h.Offsets(), |h.signatures|;
            if p.size <= o.msgStart then HeaderOffset(p, o.msgStart) == Err(InvalidSignatureLen)
            else
              && HeaderOffset(p, o.msgStart) == Ok(o.msgStart + |h.Version()|)
              && CheckHeader(p, o.msgStart + |h.Version()|, n) ==
                 if p.size < o.msgStart + |h.Version()| + MESSAGE_HEADER_LENGTH + 1 then Err(InvalidSignatureLen)
                 else Ok(())
  {
    hide ShortVec.Encode, Flatten;
    HeadLayout(h, h.Bytes());
  }

  /** Every proper prefix of a valid head is rejected, with the error of what is missing first. */
  lemma TruncationExactly(h: Head, p: Packet)
    requires h.Valid() && p.buffer < h.Bytes() && p.Sized() && !p.discard && p.size <= U64_MAX
    ensures ParseOffsets(p) == Err(TruncationError(h, p.size))
  {
    hide ShortVec.Encode, Flatten, ReadLen, HeaderOffset, CheckHeader;
    var o := h.Offsets();
    assert |h.Bytes()| == o.pubkeyStart + PUBKEY_BYTES * |h.keys| by { HeadLayout(h, h.Bytes()); }
    if p.size >= 1 + SIGNATURE_BYTES {
      TruncatedCount(h, p, InvalidShortVec);
      TruncatedHeader(h, p);
      if p.size >= o.msgStart + |h.Version()| + MESSAGE_HEADER_LENGTH + 1 {
        TruncatedKeys(h, p, InvalidShortVec);
      }
    }
  }

  /** A packet long enough for a signature whose first length is not one is rejected for that. */
  lemma BadCountRejected(p: Packet)
    requires p.size >= 1 + SIGNATURE_BYTES && !p.discard && ShortVec.Decode(p.buffer).None?
    ensures ParseOffsets(p) == Err(InvalidShortVec)
  {
    assert p.buffer[0..] == p.buffer;
  }

  // ---------------------------------------------------------------- only heads parse

  /** What a successful parse has seen. */
  lemma ParseSaw(p: Packet)
    requires ParseOffsets(p).Ok? && p.Sized()
    ensures var s, o := p.buffer, ParseOffsets(p).value;
            && o.msgStart == o.sigStart + SIGNATURE_BYTES * o.sigLen && o.msgStart + 3 < o.pubkeyStart
            && o.pubkeyStart + PUBKEY_BYTES * o.pubkeyLen <= |s|
            && o.sigLen <= o.pubkeyLen <= 0xFFFF
            && s[..o.sigStart] == ShortVec.Encode(o.sigLen)
            && s[o.msgStart] <= MESSAGE_VERSION_PREFIX
            && var header := if s[o.msgStart] == MESSAGE_VERSION_PREFIX then o.msgStart + 1 else o.msgStart;
               && header + 3 < o.pubkeyStart && s[header] == o.sigLen > s[header + 1]
               && s[header + 3..o.pubkeyStart] == ShortVec.Encode(o.pubkeyLen)
  {
    hide ReadLen, HeaderOffset, CheckHeader, ShortVec.Encode;
    var s, o := p.buffer, ParseOffsets(p).value;
    ReadLenSound(p, 0, InvalidShortVec);
    HeaderOffsetSound(p, o.msgStart);
    var header := HeaderOffset(p, o.msgStart).value;
    CheckHeaderSound(p, header, o.sigLen);
    ReadLenSound(p, header + MESSAGE_HEADER_LENGTH, InvalidShortVec);
  }

  /** The head that starts at the front of `s`, given where its fields lie. */
  function HeadAt(s: seq<byte>, o: PacketOffsets): Head
    requires o.msgStart + 3 < o.pubkeyStart
    requires o.sigStart + SIGNATURE_BYTES * o.sigLen <= |s| && o.pubkeyStart + PUBKEY_BYTES * o.pubkeyLen <= |s|
  {
    var prefix := s[o.msgStart];
    var version := if prefix >= MESSAGE_VERSION_PREFIX then Some(prefix - MESSAGE_VERSION_PREFIX) else None;
    var header := if version.Some? then o.msgStart + 1 else o.msgStart;
    Head(Fields(s[o.sigStart..], SIGNATURE_BYTES, o.sigLen), version, s[header], s[header + 1], s[header + 2],
         Fields(s[o.pubkeyStart..], PUBKEY_BYTES, o.pubkeyLen))
  }

  /** Five pieces that follow one another are a prefix. */
  lemma GlueFive(s: seq<byte>, a: seq<byte>, b: seq<byte>, c: seq<byte>, d: seq<byte>, e: seq<byte>)
    requires |a| + |b| + |c| + |d| + |e| <= |s|
    requires s[..|a|] == a && s[|a|..|a| + |b|] == b && s[|a| + |b|..|a| + |b| + |c|] == c
    requires s[|a| + |b| + |c|..|a| + |b| + |c| + |d|] == d
    requires s[|a| + |b| + |c| + |d|..|a| + |b| + |c| + |d| + |e|] == e
    ensures a + b + c + d + e <= s
  {
    var i, j, k, l := |a| + |b|, |a| + |b| + |c|, |a| + |b| + |c| + |d|, |a| + |b| + |c| + |d| + |e|;
    Glue(s, |a|, i, a, b);
    Glue(s, i, j, a + b, c);
    Glue(s, j, k, a + b + c, d);
    Glue(s, k, l, a + b + c + d, e);
  }

  lemma HeadAtBytes(s: seq<byte>, o: PacketOffsets, h: Head)
    requires o.msgStart + 3 < o.pubkeyStart
    requires o.msgStart == o.sigStart + SIGNATURE_BYTES * o.sigLen
    requires o.pubkeyStart + PUBKEY_BYTES * o.pubkeyLen <= |s|
    requires h == HeadAt(s, o) && h.Valid()
    requires s[..o.sigStart] == ShortVec.Encode(o.sigLen)
    requires var header := o.msgStart + |h.Version()|;
             && header + 3 < o.pubkeyStart && s[header + 3..o.pubkeyStart] == ShortVec.Encode(o.pubkeyLen)
    requires s[o.msgStart] <= MESSAGE_VERSION_PREFIX
    ensures h.Bytes() <= s
  {
    hide ShortVec.Encode, Flatten, Fields, HeadAt;
    FlattenFieldsAt(s, o.sigStart, SIGNATURE_BYTES, o.sigLen);
    FlattenFieldsAt(s, o.pubkeyStart, PUBKEY_BYTES, o.pubkeyLen);
    HeadAtFields(s, o);
    Glue(s, o.sigStart, o.msgStart, ShortVec.Encode(o.sigLen), Flatten(h.signatures));
    GlueFive(s, h.Counted(), h.Version(), h.Header(), ShortVec.Encode(o.pubkeyLen), Flatten(h.keys));
  }

  lemma HeadAtFields(s: seq<byte>, o: PacketOffsets)
    requires HeadAt.requires(s, o)
    ensures var h := HeadAt(s, o); var header := o.msgStart + |h.Version()|;
            && h.signatures == Fields(s[o.sigStart..], SIGNATURE_BYTES, o.sigLen) && |h.signatures| == o.sigLen
            && h.keys == Fields(s[o.pubkeyStart..], PUBKEY_BYTES, o.pubkeyLen) && |h.keys| == o.pubkeyLen
            && h.version == (if s[o.msgStart] >= MESSAGE_VERSION_PREFIX then Some(s[o.msgStart] - MESSAGE_VERSION_PREFIX) else None)
            && s[header..header + 3] == h.Header()
            && s[o.msgStart..header] == h.Version() && s[header] == h.required && s[header + 1] == h.readonlySigned
  {
  }

  /** A packet that parses starts with a valid head, and the offsets are those of that head. */
  lemma ParsedIsHead(p: Packet) returns (h: Head)
    requires p.Sized() && ParseOffsets(p).Ok?
    ensures h.Valid() && h.Bytes() <= p.buffer && h.Offsets() == ParseOffsets(p).value
  {
    hide ShortVec.Encode, ParseOffsets, Flatten, Fields, HeadAt;
    ParseSaw(p);
    var s, o := p.buffer, ParseOffsets(p).value;
    h := HeadAt(s, o);
    HeadAtFields(s, o);
    assert |s[..o.sigStart]| == o.sigStart;
    HeadAtBytes(s, o, h);
  }

  /** A packet parses exactly when it starts with a valid head. */
  lemma ParsesExactlyHeads(p: Packet)
    requires p.Sized() && !p.discard
    ensures ParseOffsets(p).Ok? <==> exists h: Head :: h.Valid() && h.Bytes() <= p.buffer
  {
    if ParseOffsets(p).Ok? {
      var h := ParsedIsHead(p);
    }
    forall h: Head | h.Valid() && h.Bytes() <= p.buffer ensures ParseOffsets(p).Ok? {
      HeadParses(h, p);
    }
  }

  // ---------------------------------------------------------------- simple votes

  /** Legacy, at most two signatures, and, after a blockhash, a single instruction for the vote program. */
  predicate VoteBefore(h: Head, tail: seq<byte>) {
    && h.version.None? && |h.signatures| <= 2
    && |tail| >= HASH_BYTES + 2 && tail[HASH_BYTES] == 1
    && tail[HASH_BYTES + 1] < |h.keys| && h.keys[tail[HASH_BYTES + 1]] == VOTE_ID
  }

  /** A count of one is the byte one. */
  lemma ReadOne(p: Packet, at: nat, e: PacketError)
    requires !p.discard
    ensures ReadLen(p, at, e).Ok? && ReadLen(p, at, e).value.0 == 1 <==> at < |p.buffer| && p.buffer[at] == 1
    ensures ReadLen(p, at, e).Ok? && ReadLen(p, at, e).value.0 == 1 ==> ReadLen(p, at, e).value.1 == 1
  {
    if ReadLen(p, at, e).Ok? {
      ReadLenSound(p, at, e);
      var (n, k) := ReadLen(p, at, e).value;
      assert p.buffer[at..at + k][0] == p.buffer[at];
    }
    if at < |p.buffer| && p.buffer[at] == 1 {
      assert p.buffer[at..][0] == 1;
    }
  }

  lemma InstructionExactly(p: Packet, pubkeyStart: nat, pubkeyLen: nat)
    requires p.Sized() && !p.discard && p.size <= U64_MAX && pubkeyStart + PUBKEY_BYTES * pubkeyLen <= p.size
    ensures var at := pubkeyStart + PUBKEY_BYTES * pubkeyLen + HASH_BYTES;
            CheckInstruction(p, pubkeyStart, pubkeyLen) == Ok(true) <==>
            && at + 2 <= p.size && p.buffer[at] == 1 && p.buffer[at + 1] < pubkeyLen
            && var key := pubkeyStart + PUBKEY_BYTES * p.buffer[at + 1] as int;
               p.buffer[key..key + PUBKEY_BYTES] == VOTE_ID
  {
    hide ReadLen, VOTE_ID;
    ReadOne(p, pubkeyStart + PUBKEY_BYTES * pubkeyLen + HASH_BYTES, InvalidLen);
  }

  /** A packet that starts with a head is a simple vote exactly when what follows the head makes it one. */
  lemma VoteExactly(h: Head, p: Packet)
    requires h.Valid() && h.Bytes() <= p.buffer && p.Sized() && !p.discard && p.size <= U64_MAX
    ensures CheckSimpleVote(p, h.Offsets(), 0) == Ok(true) <==> VoteBefore(h, p.buffer[|h.Bytes()|..])
  {
    hide ShortVec.Encode, Flatten, CheckInstruction, VOTE_ID;
    HeadLayout(h, p.buffer);
    var o, at := h.Offsets(), |h.Bytes()| + HASH_BYTES;
    InstructionExactly(p, o.pubkeyStart, o.pubkeyLen);
    if at + 2 <= p.size && p.buffer[at + 1] < |h.keys| {
      OffsetsNameFields(h, p.buffer, p.buffer[at + 1]);
    }
  }

  /** Every packet is treated by what it starts with: without a valid head it gets no offsets and keeps its flag; with
      one it is marked exactly when it is a simple vote, and gets the offsets of the head unless it is rejected for not
      being marked. */
  lemma OffsetsExactly(p: Packet, reject: bool)
    requires p.Sized() && p.size <= U64_MAX
    ensures p.discard || (forall h: Head :: h.Valid() ==> !(h.Bytes() <= p.buffer)) ==>
              GetPacketOffsets(p, 0, reject) == (p, NO_OFFSETS)
    ensures forall h: Head :: !p.discard && h.Valid() && h.Bytes() <= p.buffer ==>
              var vote := p.simpleVote || VoteBefore(h, p.buffer[|h.Bytes()|..]);
              GetPacketOffsets(p, 0, reject)
              == (p.(simpleVote := vote), if reject && !vote then NO_OFFSETS else h.Offsets())
  {
    hide ParseOffsets, CheckSimpleVote, VoteBefore;
    OffsetsShift(p, 0);
    if ParseOffsets(p).Ok? {
      OffsetsSound(p);
      var _ := ParsedIsHead(p);
    }
    forall h: Head | !p.discard && h.Valid() && h.Bytes() <= p.buffer
      ensures var vote := p.simpleVote || VoteBefore(h, p.buffer[|h.Bytes()|..]);
              GetPacketOffsets(p, 0, reject)
              == (p.(simpleVote := vote), if reject && !vote then NO_OFFSETS else h.Offsets())
    {
      HeadParses(h, p);
      VoteExactly(h, p);
    }
  }

  // ---------------------------------------------------------------- whole transactions

  datatype Instruction = Instruction(program: byte, body: seq<byte>) {
    function Bytes(): seq<byte> { [program] + body }
  }

  /** A whole transaction; a version 0 message ends in address lookups. */
  datatype Transaction = Transaction(head: Head, blockhash: seq<byte>, instructions: seq<Instruction>,
                                     lookups: seq<byte>)
  {
    predicate Valid() { head.Valid() && |blockhash| == HASH_BYTES && |instructions| <= 0xFFFF }

    function Body(): seq<byte> {
      Flatten(seq(|instructions|, i requires 0 <= i < |instructions| => instructions[i].Bytes())) + lookups
    }

    function Tail(): seq<byte>
      requires |instructions| <= 0xFFFF
    {
      blockhash + ShortVec.Encode(|instructions|) + Body()
    }

    function Bytes(): seq<byte>
      requires Valid()
    {
      head.Bytes() + Tail()
    }

    /** Legacy, at most two signatures, and a single instruction for the vote program. */
    predicate SimpleVote() {
      && head.version.None? && |head.signatures| <= 2 && |instructions| == 1
      && instructions[0].program < |head.keys| && head.keys[instructions[0].program] == VOTE_ID
    }
  }

  /** The byte after the blockhash is one exactly for a single instruction, whose program comes next. */
  lemma TailBytes(t: Transaction)
    requires t.Valid()
    ensures |t.Tail()| > HASH_BYTES && (t.Tail()[HASH_BYTES] == 1 <==> |t.instructions| == 1)
    ensures |t.instructions| == 1 ==> |t.Tail()| >= HASH_BYTES + 2 && t.Tail()[HASH_BYTES + 1] == t.instructions[0].program
  {
    var n := ShortVec.Encode(|t.instructions|);
    assert t.Tail()[HASH_BYTES] == n[0];
    if |t.instructions| == 1 {
      var parts := seq(1, i requires 0 <= i < 1 => t.instructions[i].Bytes());
      assert Flatten(parts) == Flatten([]) + parts[0] == parts[0];
      assert t.Body()[0] == t.instructions[0].program;
    }
  }

  lemma VoteInTransaction(t: Transaction)
    requires t.Valid()
    ensures VoteBefore(t.head, t.Tail()) <==> t.SimpleVote()
  {
    hide VOTE_ID, ShortVec.Encode;
    TailBytes(t);
  }

  /** For every serialized transaction the parser marks it exactly when it is a simple vote, and returns its offsets
      unless votes are wanted and it is none. */
  lemma ParseInvertsSerialization(t: Transaction, p: Packet, reject: bool)
    requires t.Valid() && p.buffer == t.Bytes() && p.Sized() && !p.discard && p.size <= U64_MAX
    ensures var vote := p.simpleVote || t.SimpleVote();
            GetPacketOffsets(p, 0, reject)
            == (p.(simpleVote := vote), if reject && !vote then NO_OFFSETS else t.head.Offsets())
  {
    hide GetPacketOffsets, VoteBefore;
    OffsetsExactly(p, reject);
    VoteInTransaction(t);
    assert t.head.Bytes() <= p.buffer && p.buffer[|t.head.Bytes()|..] == t.Tail();
  }
}

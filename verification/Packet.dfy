/** Network packets as `perf/src/packet.rs` shows them to the signature pipeline. */
module Packet {
  import opened Prelude

  /** The buffer, the size claimed by the metadata and the two flags that the pipeline reads and writes. */
  datatype Packet = Packet(buffer: seq<byte>, size: nat, discard: bool, simpleVote: bool) {

    /** The metadata claims exactly the bytes that are there. */
    predicate Sized() { size == |buffer| }

    /** A discarded packet shows no data. */
    function Byte(i: nat): Option<byte> {
      if discard || i >= |buffer| then None else Some(buffer[i])
    }

    function From(lo: nat): Option<seq<byte>> {
      if discard || lo > |buffer| then None else Some(buffer[lo..])
    }

    function Slice(lo: nat, hi: nat): Option<seq<byte>> {
      if discard || lo > hi || hi > |buffer| then None else Some(buffer[lo..hi])
    }
  }
}

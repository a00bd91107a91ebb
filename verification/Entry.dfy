/** Ledger entries of `entry/src/entry.rs`: what the entries that the generator emits mean. */
module Entry {
  import opened Prelude
  import M = MerkleTree
  import P = Poh

  datatype Transaction = Transaction(signatures: seq<seq<byte>>)

  datatype Entry = Entry(numHashes: nat, hash: Hash, transactions: seq<Transaction>)

  // ---------------------------------------------------------------- hashing transactions

  function Signatures(txs: seq<Transaction>): seq<seq<byte>> {
    if txs == [] then [] else Signatures(txs[..|txs| - 1]) + txs[|txs| - 1].signatures
  }

  function TransactionsHash(sha: Sha, txs: seq<Transaction>): Hash {
    var signatures := Signatures(txs);
    if signatures == [] then DEFAULT_HASH else M.Root(sha, M.Leaves(sha, signatures))
  }

  method HashTransactions(sha: Sha, txs: seq<Transaction>) returns (h: Hash)
    ensures h == TransactionsHash(sha, txs)
  {
    var signatures: seq<seq<byte>> := [];
    for i := 0 to |txs|
      invariant signatures == Signatures(txs[..i])
    {
      assert txs[..i + 1][..i] == txs[..i];
      signatures := signatures + txs[i].signatures;
    }
    assert txs[..|txs|] == txs;
    var tree := M.New(sha, signatures);
    M.LevelsPrefix(sha, M.Leaves(sha, signatures));
    var root := M.GetRoot(sha, tree);
    h := if root.Some? then root.value else DEFAULT_HASH;
  }

  /** All signatures of all transactions, in order. */
  lemma {:induction false} SignaturesAppend(a: seq<Transaction>, b: seq<Transaction>)
    ensures Signatures(a + b) == Signatures(a) + Signatures(b)
  {
    if b == [] {
      assert a + b == a;
    } else {
      SignaturesAppend(a, b[..|b| - 1]);
      assert (a + b)[..|a + b| - 1] == a + b[..|b| - 1];
    }
  }

  lemma SignaturesOne(t: Transaction)
    ensures Signatures([t]) == t.signatures
  {
    assert [t][..0] == [];
  }

  /** What an entry mixes into the chain: nothing for a tick. */
  function Mixin(sha: Sha, txs: seq<Transaction>): Option<Hash> {
    if txs == [] then None else Some(TransactionsHash(sha, txs))
  }

  // ---------------------------------------------------------------- next_hash and create_ticks

  /** The hash `numHashes` after `start`; `None` where the source panics. */
  function NextHashValue(sha: Sha, start: Hash, numHashes: nat, txs: seq<Transaction>): Option<Hash> {
    if numHashes == 0 && txs == [] then Some(start)
    else if numHashes == U64_MAX && txs != [] then None
    else Some(P.EntryHash(sha, start, if numHashes == 0 then 1 else numHashes, Mixin(sha, txs)))
  }

  /** Drives a low-power generator. The final `unwrap` fails only when transactions are to follow `u64::MAX` hashes. */
  method NextHash(sha: Sha, start: Hash, numHashes: u64, txs: seq<Transaction>) returns (h: Option<Hash>)
    ensures h == NextHashValue(sha, start, numHashes, txs)
  {
    if numHashes == 0 && txs == [] {
      return Some(start);
    }
    var poh := new P.Poh.NewWithSlotInfo(start, None, 0);
    var _ := poh.Hash(sha, if numHashes == 0 then 0 else numHashes - 1);
    var entry: Option<P.PohEntry>;
    if txs == [] {
      entry := poh.Tick(sha);
    } else {
      var mixin := HashTransactions(sha, txs);
      entry := poh.Record(sha, mixin);
    }
    h := if entry.Some? then Some(entry.value.hash) else None;
  }

  /** The hash is that of a history of as many hashes, of which the last takes the transactions; with transactions zero
      hashes count as one, and nothing at all leaves the hash alone. */
  lemma NextHashIsHistory(sha: Sha, start: Hash, numHashes: nat, txs: seq<Transaction>)
    requires txs != [] ==> numHashes < U64_MAX
    ensures var links := if txs == [] then P.Plain(numHashes)
                         else P.Plain(if numHashes == 0 then 0 else numHashes - 1) + [Some(TransactionsHash(sha, txs))];
            NextHashValue(sha, start, numHashes, txs) == Some(P.History(sha, start, links))
  {
    assert P.History(sha, start, []) == start;
    PlainEnds();
    hide TransactionsHash, P.History, P.EntryHash, P.Plain;
    var n := if numHashes == 0 then 1 else numHashes;
    if numHashes > 0 || txs != [] {
      P.EntryIsHistory(sha, start, [], n, Mixin(sha, txs));
      assert [] + P.Plain(n - 1) == P.Plain(n - 1);
      P.PlainAdd(n - 1, 1);
    }
  }

  lemma PlainEnds()
    ensures P.Plain(0) == [] && P.Plain(1) == [None]
  {
  }

  method NewEntry(sha: Sha, prev: Hash, numHashes: u64, txs: seq<Transaction>) returns (e: Option<Entry>)
    ensures e.None? <==> numHashes == U64_MAX && txs != []
    ensures e.Some? ==> Verifies(sha, prev, e.value) && e.value.transactions == txs
    ensures e.Some? ==> e.value.numHashes == if numHashes == 0 && txs != [] then 1 else numHashes
  {
    var n := if numHashes == 0 && txs != [] then 1 else numHashes;
    var hash := NextHash(sha, prev, n, txs);
    e := if hash.Some? then Some(Entry(n, hash.value, txs)) else None;
  }

  /** The entry hashes to what `next_hash` computes from its predecessor, without a panic. */
  predicate Verifies(sha: Sha, prev: Hash, e: Entry) {
    NextHashValue(sha, prev, e.numHashes, e.transactions) == Some(e.hash)
  }

  /** The entry, and the new value of the hash that the source overwrites. */
  method NextEntryMut(sha: Sha, start: Hash, numHashes: u64, txs: seq<Transaction>)
    returns (e: Option<Entry>, next: Hash)
    ensures e.None? <==> numHashes == U64_MAX && txs != []
    ensures e.Some? ==> Verifies(sha, start, e.value) && e.value.transactions == txs
    ensures e.Some? ==> e.value.numHashes == if numHashes == 0 && txs != [] then 1 else numHashes
    ensures next == if e.Some? then e.value.hash else start
  {
    e := NewEntry(sha, start, numHashes, txs);
    next := if e.Some? then e.value.hash else start;
  }

  /** Tick `i` is `(i + 1) * hashesPerTick` hashes after the start. */
  method CreateTicks(sha: Sha, numTicks: u64, hashesPerTick: u64, start: Hash) returns (es: seq<Entry>)
    ensures |es| == numTicks
    ensures forall i :: 0 <= i < numTicks ==>
              es[i] == Entry(hashesPerTick, P.Iterate(sha, TickPosition(i, hashesPerTick), start), [])
  {
    var hash := start;
    es := [];
    for k := 0 to numTicks
      invariant |es| == k && hash == P.Iterate(sha, k * hashesPerTick, start)
      invariant forall i :: 0 <= i < k ==>
                  es[i] == Entry(hashesPerTick, P.Iterate(sha, TickPosition(i, hashesPerTick), start), [])
    {
      P.IterateAdd(sha, k * hashesPerTick, hashesPerTick, start);
      assert k * hashesPerTick + hashesPerTick == TickPosition(k, hashesPerTick);
      var e;
      e, hash := NextEntryMut(sha, hash, hashesPerTick, []);
      es := es + [e.value];
    }
  }

  function TickPosition(i: nat, hashesPerTick: nat): nat { (i + 1) * hashesPerTick }

  /** The hash that a new ledger hands out: all ticks of slot 0 after the genesis hash; no ticks make it panic. */
  method BootstrapHash(sha: Sha, ticksPerSlot: u64, hashesPerTick: Option<u64>, genesis: Hash)
    returns (last: Option<Hash>)
    ensures last.None? <==> ticksPerSlot == 0
    ensures last.Some? ==>
              last.value == P.Iterate(sha, ticksPerSlot * (if hashesPerTick.Some? then hashesPerTick.value else 0), genesis)
  {
    var perTick := if hashesPerTick.Some? then hashesPerTick.value else 0;
    var entries := CreateTicks(sha, ticksPerSlot, perTick, genesis);
    last := if entries == [] then None else Some(entries[|entries| - 1].hash);
  }

  // ---------------------------------------------------------------- streaming refines batch

  /** Calls on the generator as a block producer makes them: it records non-empty lists of transactions. */
  datatype Call = Hash(max: nat) | Record(txs: seq<Transaction>) | Tick {
    predicate Valid() { Record? ==> txs != [] }

    function Lower(sha: Sha): P.Call {
      match this
      case Hash(max) => P.Call.Hash(max)
      case Record(txs) => P.Call.Record(TransactionsHash(sha, txs))
      case Tick => P.Call.Tick
    }
  }

  function Transactions(call: Call): seq<Transaction> { if call.Record? then call.txs else [] }

  predicate AllValid(calls: seq<Call>) {
    forall i :: 0 <= i < |calls| ==> calls[i].Valid()
  }

  function LowerAll(sha: Sha, calls: seq<Call>): seq<P.Call> {
    seq(|calls|, i requires 0 <= i < |calls| => calls[i].Lower(sha))
  }

  /** The ledger that a run writes: each emitted entry with the transactions of the call that emitted it. */
  function Ledger(sha: Sha, s: P.State, calls: seq<Call>): seq<Entry>
    requires s.Valid()
  {
    if calls == [] then []
    else
      var n := |calls| - 1;
      var now := P.Step(sha, P.Run(sha, s, LowerAll(sha, calls[..n])).0, calls[n].Lower(sha)).1;
      Ledger(sha, s, calls[..n]) +
      (if now == [] then [] else [Entry(now[0].entry.numHashes, now[0].entry.hash, Transactions(calls[n]))])
  }

  function Emit(sha: Sha, e: Entry): P.Emitted {
    P.Emitted(P.PohEntry(e.numHashes, e.hash), Mixin(sha, e.transactions))
  }

  /** The ledger is what the generator emitted. */
  lemma {:induction false} LedgerIsEmitted(sha: Sha, s: P.State, calls: seq<Call>)
    requires s.Valid() && AllValid(calls)
    ensures var es, ledger := P.Run(sha, s, LowerAll(sha, calls)).1, Ledger(sha, s, calls);
            |es| == |ledger| && forall i :: 0 <= i < |es| ==> es[i] == Emit(sha, ledger[i])
  {
    if calls != [] {
      var n := |calls| - 1;
      assert LowerAll(sha, calls)[..n] == LowerAll(sha, calls[..n]);
      LedgerIsEmitted(sha, s, calls[..n]);
    }
  }

  /** Whatever the calls, every entry of the ledger verifies against its predecessor, and no `unwrap` can fail. */
  lemma StreamingRefinesBatch(sha: Sha, s: P.State, calls: seq<Call>, i: nat)
    requires s.Valid() && s.numHashes == 0 && AllValid(calls) && i < |Ledger(sha, s, calls)|
    ensures var ledger := Ledger(sha, s, calls);
            Verifies(sha, if i == 0 then s.hash else ledger[i - 1].hash, ledger[i])
  {
    hide P.EntryHash, P.Run, Ledger, LowerAll, TransactionsHash;
    var lowered := LowerAll(sha, calls);
    LedgerIsEmitted(sha, s, calls);
    P.RunIsChained(sha, s, lowered);
    P.RunCountsFit(sha, s, lowered);
    var es := P.Run(sha, s, lowered).1;
    assert es[i] in es && es[i] == Emit(sha, Ledger(sha, s, calls)[i]);
  }
}

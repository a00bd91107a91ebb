/** What the last hash of a ledger commits to: the entries of `entry/src/poh.rs` and the transactions of
    `entry/src/entry.rs` together. */
module Ledger {
  import opened Prelude
  import M = MerkleTree
  import opened Poh
  import E = Entry

  // ---------------------------------------------------------------- entries from links

  /** At no point have more hashes been emitted since the last tick than a tick leaves room for. */
  ghost predicate TicksInTime(perTick: nat, es: seq<Emitted>) {
    forall i :: 0 <= i <= |es| ==> SinceTick(es[..i]) < perTick
  }

  ghost predicate Regular(perTick: nat, es: seq<Emitted>) {
    && TicksAreExact(perTick, es) && TicksInTime(perTick, es)
    && forall i :: 0 <= i < |es| ==> es[i].entry.numHashes >= 1
  }

  lemma RegularPrefix(perTick: nat, es: seq<Emitted>)
    requires Regular(perTick, es) && es != []
    ensures Regular(perTick, es[..|es| - 1])
  {
    var before := es[..|es| - 1];
    assert forall i :: 0 <= i <= |before| ==> before[..i] == es[..i];
  }

  lemma {:induction false} RunTicksInTime(sha: Sha, s: State, calls: seq<Call>)
    requires s.Valid() && s.numHashes == 0 && s.remaining == s.hashesPerTick
    ensures TicksInTime(s.hashesPerTick, Run(sha, s, calls).1)
  {
    hide Step, Balanced, SinceTick;
    var (s', es) := Run(sha, s, calls);
    RunNow(sha, s, calls);
    if calls != [] {
      var (s1, before) := Run(sha, s, calls[..|calls| - 1]);
      var now := Step(sha, s1, calls[|calls| - 1]).1;
      RunTicksInTime(sha, s, calls[..|calls| - 1]);
      StepEmitsOne(sha, s1, calls[|calls| - 1]);
      assert es == before + now;
      forall i | 0 <= i <= |es| ensures SinceTick(es[..i]) < s.hashesPerTick {
        if i <= |before| {
          assert es[..i] == before[..i];
        } else {
          assert es[..i] == es;
        }
      }
    }
  }

  lemma StepEmitsOne(sha: Sha, s: State, call: Call)
    requires s.Valid()
    ensures |Step(sha, s, call).1| <= 1
  {
  }

  lemma RunNow(sha: Sha, s: State, calls: seq<Call>)
    requires s.Valid() && s.numHashes == 0 && s.remaining == s.hashesPerTick
    ensures SinceTick(Run(sha, s, calls).1) < s.hashesPerTick
    ensures calls == [] ==> TicksInTime(s.hashesPerTick, Run(sha, s, calls).1)
  {
    RunBalances(sha, s, calls);
  }

  lemma RunIsRegular(sha: Sha, s: State, calls: seq<Call>)
    requires s.Valid() && s.numHashes == 0 && s.remaining == s.hashesPerTick && !s.LowPower()
    ensures Regular(s.hashesPerTick, Run(sha, s, calls).1)
  {
    hide Run, TicksInTime, TicksAreExact, SinceTick, TickCount;
    RunTicksInTime(sha, s, calls);
    RunBalances(sha, s, calls);
    RunCountsFit(sha, s, calls);
    var es := Run(sha, s, calls).1;
    forall i | 0 <= i < |es| ensures es[i].entry.numHashes >= 1 {
      assert es[i] in es;
    }
  }

  /** The links of the last entry come last: plain ones, then its mixin. */
  lemma LastLinks(es: seq<Emitted>)
    requires es != [] && es[|es| - 1].entry.numHashes >= 1
    ensures var before, e, links := es[..|es| - 1], es[|es| - 1], Links(es);
            && |links| == |Links(before)| + e.entry.numHashes
            && links[..|Links(before)|] == Links(before)
            && links[|links| - 1] == e.mixin
            && forall p :: |Links(before)| <= p < |links| - 1 ==> links[p] == None
  {
  }

  lemma {:induction false} LinksCount(es: seq<Emitted>)
    requires forall i :: 0 <= i < |es| ==> es[i].entry.numHashes >= 1
    ensures |Links(es)| == HashCount(es)
  {
    if es != [] {
      LinksCount(es[..|es| - 1]);
    }
  }

  lemma NoMultipleBetween(t: nat, u: nat, perTick: nat)
    ensures !(u * perTick < t * perTick < (u + 1) * perTick)
  {
    if t <= u {
      assert t * perTick <= u * perTick;
    } else {
      assert (u + 1) * perTick <= t * perTick;
    }
  }

  /** A tick is exactly full after an entry that is a tick, and not overfull after any other. */
  lemma LastFits(perTick: nat, es: seq<Emitted>)
    requires Regular(perTick, es) && es != []
    ensures var filled := SinceTick(es[..|es| - 1]) + es[|es| - 1].entry.numHashes;
            filled <= perTick && (es[|es| - 1].mixin.None? ==> filled == perTick)
  {
    assert es[..|es|] == es;
  }

  lemma LinksSum(perTick: nat, es: seq<Emitted>)
    requires Regular(perTick, es)
    ensures |Links(es)| == TickCount(es) * perTick + SinceTick(es)
  {
    LinksCount(es);
    ExactTicksSum(perTick, es);
  }

  /** The last entry lies between two multiples of a tick's hashes, and a tick ends on the upper one. */
  lemma Position(perTick: nat, es: seq<Emitted>) returns (u: nat)
    requires Regular(perTick, es) && es != []
    ensures u * perTick <= |Links(es[..|es| - 1])| && |Links(es)| <= (u + 1) * perTick
    ensures es[|es| - 1].mixin.None? ==> |Links(es)| == (u + 1) * perTick
  {
    hide Links, Regular, TickCount, SinceTick;
    RegularLast(perTick, es);
    RegularPrefix(perTick, es);
    LinksSum(perTick, es[..|es| - 1]);
    LastLinks(es);
    LastFits(perTick, es);
    u := TickCount(es[..|es| - 1]);
    assert (u + 1) * perTick == u * perTick + perTick;
  }

  /** Entries that stand for the same links cannot end in a shorter entry: it would need a tick out of time. */
  lemma NotShorter(perTick: nat, es: seq<Emitted>, fs: seq<Emitted>)
    requires Regular(perTick, es) && Regular(perTick, fs) && Links(es) == Links(fs) && es != [] && fs != []
    ensures es[|es| - 1].entry.numHashes >= fs[|fs| - 1].entry.numHashes
  {
    hide Links, Regular;
    var before, after := es[..|es| - 1], fs[..|fs| - 1];
    RegularLast(perTick, es);
    RegularLast(perTick, fs);
    LastLinks(es);
    LastLinks(fs);
    if |Links(before)| > |Links(after)| {
      var p := |Links(before)| - 1;
      assert before != [] by { NoLinks(before); }
      RegularPrefix(perTick, es);
      RegularLast(perTick, before);
      LastLinks(before);
      assert Links(es)[p] == Links(before)[p];
      var t := Position(perTick, before);
      var u := Position(perTick, fs);
      NoMultipleBetween(t + 1, u, perTick);
    }
  }

  lemma RegularLast(perTick: nat, es: seq<Emitted>)
    requires Regular(perTick, es) && es != []
    ensures es[|es| - 1].entry.numHashes >= 1
  {
  }

  lemma NoLinks(es: seq<Emitted>)
    ensures Links(es) == [] <==> es == []
  {
  }

  /** The links determine where entries end, how many hashes they count and what they mix in. */
  lemma {:induction false} LinksDetermineShape(perTick: nat, es: seq<Emitted>, fs: seq<Emitted>)
    requires Regular(perTick, es) && Regular(perTick, fs) && Links(es) == Links(fs)
    ensures |es| == |fs|
    ensures forall i :: 0 <= i < |es| ==>
              es[i].entry.numHashes == fs[i].entry.numHashes && es[i].mixin == fs[i].mixin
  {
    hide Links, Regular;
    NoLinks(es);
    NoLinks(fs);
    if es != [] {
      NotShorter(perTick, es, fs);
      NotShorter(perTick, fs, es);
      RegularLast(perTick, es);
      RegularLast(perTick, fs);
      LastLinks(es);
      LastLinks(fs);
      RegularPrefix(perTick, es);
      RegularPrefix(perTick, fs);
      LinksDetermineShape(perTick, es[..|es| - 1], fs[..|fs| - 1]);
    }
  }

  lemma SameNext(sha: Sha, start: Hash, es: seq<Emitted>, fs: seq<Emitted>, k: nat)
    requires Chained(sha, start, es) && Chained(sha, start, fs) && k < |es| == |fs|
    requires k > 0 ==> es[k - 1] == fs[k - 1]
    requires es[k].entry.numHashes == fs[k].entry.numHashes && es[k].mixin == fs[k].mixin
    ensures es[k] == fs[k]
  {
    hide EntryHash;
    assert es[k].entry.hash == EntryHash(sha, Previous(start, es, k), es[k].entry.numHashes, es[k].mixin);
    assert fs[k].entry.hash == EntryHash(sha, Previous(start, fs, k), fs[k].entry.numHashes, fs[k].mixin);
  }

  lemma ShapeDeterminesChain(sha: Sha, start: Hash, es: seq<Emitted>, fs: seq<Emitted>)
    requires Chained(sha, start, es) && Chained(sha, start, fs) && |es| == |fs|
    requires forall i :: 0 <= i < |es| ==>
               es[i].entry.numHashes == fs[i].entry.numHashes && es[i].mixin == fs[i].mixin
    ensures es == fs
  {
    hide Chained;
    for k := 0 to |es|
      invariant forall i :: 0 <= i < k ==> es[i] == fs[i]
    {
      SameNext(sha, start, es, fs, k);
    }
  }

  /** With a fixed number of hashes a tick, a run's last hash and hash count fix every entry of it, or yield a
      collision. */
  lemma RunsDetermine(sha: Sha, s: State, p: seq<Call>, t: State, q: seq<Call>) returns (x: seq<byte>, y: seq<byte>)
    requires s.Valid() && s.numHashes == 0 && s.remaining == s.hashesPerTick && !s.LowPower()
    requires t.Valid() && t.numHashes == 0 && t.remaining == t.hashesPerTick == s.hashesPerTick
    requires var es, fs := Run(sha, s, p).1, Run(sha, t, q).1;
             HashCount(es) == HashCount(fs) && Previous(s.hash, es, |es|) == Previous(t.hash, fs, |fs|)
    ensures (s.hash == t.hash && Run(sha, s, p).1 == Run(sha, t, q).1) ||
            (&& Collide(sha, x, y)
             && HashedByHistory(sha, s.hash, Links(Run(sha, s, p).1), x)
             && HashedByHistory(sha, t.hash, Links(Run(sha, t, q).1), y))
  {
    hide Run, Links, Regular, Chained, HashedByHistory, HashCount;
    var es, fs := Run(sha, s, p).1, Run(sha, t, q).1;
    x, y := RunsBind(sha, s, p, t, q);
    if s.hash == t.hash && Links(es) == Links(fs) {
      RunIsRegular(sha, s, p);
      RunIsRegular(sha, t, q);
      LinksDetermineShape(s.hashesPerTick, es, fs);
      RunIsChained(sha, s, p);
      RunIsChained(sha, t, q);
      ShapeDeterminesChain(sha, s.hash, es, fs);
    }
  }

  lemma RunNext(sha: Sha, s: State, calls: seq<Call>, call: Call)
    requires s.Valid()
    ensures var (s1, es) := Run(sha, s, calls);
            Run(sha, s, calls + [call]) == (Step(sha, s1, call).0, es + Step(sha, s1, call).1)
  {
    hide Step;
    assert (calls + [call])[..|calls|] == calls;
  }

  lemma RunTwo(sha: Sha, s: State, a: Call, b: Call)
    requires s.Valid()
    ensures var (s1, e1) := Step(sha, s, a);
            Run(sha, s, [a, b]) == (Step(sha, s1, b).0, e1 + Step(sha, s1, b).1)
  {
    assert Run(sha, s, []) == (s, []);
    hide Step, Run;
    RunNext(sha, s, [], a);
    RunNext(sha, s, [a], b);
    assert [] + [a] == [a] && [a] + [b] == [a, b] && [] + Step(sha, s, a).1 == Step(sha, s, a).1;
  }

  /** In low-power mode ticks end where the caller likes: one tick of two hashes and two ticks of one hash each end in
      the same hash. */
  lemma LowPowerTicksAmbiguous(sha: Sha, start: Hash)
    ensures var s := Fresh(start, None, 0);
            var es, fs := Run(sha, s, [Call.Hash(1), Tick]).1, Run(sha, s, [Tick, Tick]).1;
            && |es| == 1 && |fs| == 2 && HashCount(es) == HashCount(fs) == 2
            && Previous(start, es, 1) == Previous(start, fs, 2)
  {
    var s := Fresh(start, None, 0);
    RunTwo(sha, s, Call.Hash(1), Tick);
    RunTwo(sha, s, Tick, Tick);
    assert Iterate(sha, 1, start) == sha(start) by { assert Iterate(sha, 0, start) == start; }
  }

  // ---------------------------------------------------------------- transactions

  /** What the Merkle root of some signatures commits to. */
  function Committed(signatures: seq<seq<byte>>): seq<seq<byte>> {
    if signatures == [] then [] else M.Padded(signatures)
  }

  /** `x` is a string with the digest that stands for no signatures. */
  predicate HashesToDefault(sha: Sha, x: seq<byte>) { sha(x) == DEFAULT_HASH }

  /** Lists of transactions with equal hashes have the same signatures up to padding, or yield a collision, or one of
      them has no signatures and the tree of the other hashed a string to the default hash. */
  lemma TransactionsBind(sha: Sha, a: seq<E.Transaction>, b: seq<E.Transaction>) returns (x: seq<byte>, y: seq<byte>)
    requires E.TransactionsHash(sha, a) == E.TransactionsHash(sha, b)
    ensures || Committed(E.Signatures(a)) == Committed(E.Signatures(b))
            || (&& Collide(sha, x, y) && M.HashedByTree(sha, E.Signatures(a), x)
                && M.HashedByTree(sha, E.Signatures(b), y))
            || (HashesToDefault(sha, x) && M.HashedByTree(sha, E.Signatures(a), x) && E.Signatures(b) == [])
            || (HashesToDefault(sha, y) && E.Signatures(a) == [] && M.HashedByTree(sha, E.Signatures(b), y))
  {
    hide M.HashedByTree, M.Padded;
    var s, t := E.Signatures(a), E.Signatures(b);
    x, y := [], [];
    if s == [] && t != [] {
      y := M.RootIsHashed(sha, t);
    } else if s != [] && t == [] {
      x := M.RootIsHashed(sha, s);
    } else if Committed(s) != Committed(t) {
      x, y := M.RootsBind(sha, s, t);
    }
  }

  /** Equal but for how the signatures are divided over the transactions, and for the padding of the tree. */
  ghost predicate SameEntry(a: E.Entry, b: E.Entry) {
    && a.numHashes == b.numHashes && a.hash == b.hash
    && (a.transactions == [] <==> b.transactions == [])
    && Committed(E.Signatures(a.transactions)) == Committed(E.Signatures(b.transactions))
  }

  /** That difference is one that verification cannot see. */
  lemma SameEntryVerifies(sha: Sha, prev: Hash, a: E.Entry, b: E.Entry)
    requires SameEntry(a, b) && E.Verifies(sha, prev, a)
    ensures E.Verifies(sha, prev, b)
  {
    var x, y := E.Signatures(a.transactions), E.Signatures(b.transactions);
    if x != [] {
      M.PaddedPrefix(x);
      M.PaddingDeterminesRoot(sha, x, y);
    } else if y != [] {
      M.PaddedPrefix(y);
    }
  }

  ghost predicate SameLedger(ledger: seq<E.Entry>, other: seq<E.Entry>) {
    |ledger| == |other| && forall i :: 0 <= i < |ledger| ==> SameEntry(ledger[i], other[i])
  }

  /** `x` was hashed while the ledger was written. */
  ghost predicate HashedByLedger(sha: Sha, s: State, calls: seq<E.Call>, x: seq<byte>)
    requires s.Valid()
  {
    || HashedByHistory(sha, s.hash, Links(Run(sha, s, E.LowerAll(sha, calls)).1), x)
    || exists i :: 0 <= i < |E.Ledger(sha, s, calls)| &&
         M.HashedByTree(sha, E.Signatures(E.Ledger(sha, s, calls)[i].transactions), x)
  }

  lemma EntriesBind(sha: Sha, a: E.Entry, b: E.Entry) returns (x: seq<byte>, y: seq<byte>)
    requires E.Emit(sha, a) == E.Emit(sha, b) && !SameEntry(a, b)
    ensures var s, t := E.Signatures(a.transactions), E.Signatures(b.transactions);
            || (Collide(sha, x, y) && M.HashedByTree(sha, s, x) && M.HashedByTree(sha, t, y))
            || (HashesToDefault(sha, x) && M.HashedByTree(sha, s, x) && t == [])
            || (HashesToDefault(sha, y) && s == [] && M.HashedByTree(sha, t, y))
  {
    hide M.HashedByTree, Committed;
    x, y := TransactionsBind(sha, a.transactions, b.transactions);
  }

  /** The last hash of a ledger commits to the whole ledger: two block producers that count equally many hashes and
      arrive at the same hash wrote the same entries over the same signatures, or yield a collision, or one of them
      hashed a string to the default hash. */
  lemma LedgersBind(sha: Sha, s: State, p: seq<E.Call>, t: State, q: seq<E.Call>)
    returns (x: seq<byte>, y: seq<byte>)
    requires s.Valid() && s.numHashes == 0 && s.remaining == s.hashesPerTick && !s.LowPower() && E.AllValid(p)
    requires t.Valid() && t.numHashes == 0 && t.remaining == t.hashesPerTick == s.hashesPerTick && E.AllValid(q)
    requires var es, fs := Run(sha, s, E.LowerAll(sha, p)).1, Run(sha, t, E.LowerAll(sha, q)).1;
             HashCount(es) == HashCount(fs) && Previous(s.hash, es, |es|) == Previous(t.hash, fs, |fs|)
    ensures || (s.hash == t.hash && SameLedger(E.Ledger(sha, s, p), E.Ledger(sha, t, q)))
            || (Collide(sha, x, y) && HashedByLedger(sha, s, p, x) && HashedByLedger(sha, t, q, y))
            || (HashesToDefault(sha, x) && HashedByLedger(sha, s, p, x))
            || (HashesToDefault(sha, y) && HashedByLedger(sha, t, q, y))
  {
    hide Run, Links, HashedByHistory, E.Ledger, E.LowerAll, E.Emit, E.Signatures, SameEntry, M.HashedByTree, HashCount,
         HashesToDefault;
    var lp, lq := E.LowerAll(sha, p), E.LowerAll(sha, q);
    var ledger, other := E.Ledger(sha, s, p), E.Ledger(sha, t, q);
    x, y := RunsDetermine(sha, s, lp, t, lq);
    if s.hash == t.hash && Run(sha, s, lp).1 == Run(sha, t, lq).1 {
      E.LedgerIsEmitted(sha, s, p);
      E.LedgerIsEmitted(sha, t, q);
      if !SameLedger(ledger, other) {
        var i :| 0 <= i < |ledger| && !SameEntry(ledger[i], other[i]);
        x, y := EntriesBind(sha, ledger[i], other[i]);
      }
    }
  }
}

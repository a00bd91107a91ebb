/** The Proof of History generator of `entry/src/poh.rs`, and what every run of it keeps. */
module Poh {
  import opened Prelude

  const LOW_POWER_MODE := U64_MAX

  /** SHA-256 applied `n` times. */
  function Iterate(sha: Sha, n: nat, h: Hash): Hash {
    if n == 0 then h else sha(Iterate(sha, n - 1, h))
  }

  lemma {:induction false} IterateAdd(sha: Sha, m: nat, n: nat, h: Hash)
    ensures Iterate(sha, m + n, h) == Iterate(sha, n, Iterate(sha, m, h))
  {
    if n > 0 {
      IterateAdd(sha, m, n - 1, h);
    }
  }

  // ---------------------------------------------------------------- the generator

  datatype PohEntry = PohEntry(numHashes: nat, hash: Hash)

  datatype State = State(hash: Hash, numHashes: nat, hashesPerTick: nat, remaining: nat, tickNumber: nat) {
    predicate LowPower() { hashesPerTick == LOW_POWER_MODE }

    /** No subtraction in the source underflows and no hash counter overflows in a valid state. */
    predicate Valid() {
      && 1 < hashesPerTick <= U64_MAX
      && 1 <= remaining
      && numHashes + remaining <= hashesPerTick
    }
  }

  function Fresh(hash: Hash, hashesPerTick: Option<u64>, tickNumber: nat): State {
    var perTick := if hashesPerTick.Some? then hashesPerTick.value else LOW_POWER_MODE;
    State(hash, 0, perTick, perTick, tickNumber)
  }

  function HashStep(sha: Sha, s: State, max: nat): State
    requires s.Valid()
  {
    var n := Min(s.remaining - 1, max);
    s.(hash := Iterate(sha, n, s.hash), numHashes := s.numHashes + n, remaining := s.remaining - n)
  }

  function RecordStep(sha: Sha, s: State, mixin: Hash): (State, Option<PohEntry>)
    requires s.Valid()
  {
    if s.remaining == 1 then (s, None)
    else
      var hash := sha(s.hash + mixin);
      (s.(hash := hash, numHashes := 0, remaining := s.remaining - 1), Some(PohEntry(s.numHashes + 1, hash)))
  }

  function TickStep(sha: Sha, s: State): (State, Option<PohEntry>)
    requires s.Valid()
  {
    var hash := sha(s.hash);
    if !s.LowPower() && s.remaining != 1 then
      (s.(hash := hash, numHashes := s.numHashes + 1, remaining := s.remaining - 1), None)
    else
      (State(hash, 0, s.hashesPerTick, s.hashesPerTick, s.tickNumber + 1), Some(PohEntry(s.numHashes + 1, hash)))
  }

  class Poh {
    var hash: Hash
    var numHashes: u64
    var hashesPerTick: u64
    var remainingHashes: u64
    var tickNumber: u64

    ghost function Abs(): State
      reads this
    {
      State(hash, numHashes, hashesPerTick, remainingHashes, tickNumber)
    }

    /** The source panics unless more than one hash makes a tick. */
    constructor NewWithSlotInfo(hash: Hash, hashesPerTick: Option<u64>, tickNumber: u64)
      requires hashesPerTick.Some? ==> hashesPerTick.value > 1
      ensures Abs() == Fresh(hash, hashesPerTick, tickNumber) && Abs().Valid()
    {
      var perTick := if hashesPerTick.Some? then hashesPerTick.value else LOW_POWER_MODE;
      this.hash := hash;
      this.numHashes := 0;
      this.hashesPerTick := perTick;
      this.remainingHashes := perTick;
      this.tickNumber := tickNumber;
    }

    method Hash(sha: Sha, maxNumHashes: u64) returns (mustTick: bool)
      requires Abs().Valid()
      modifies this
      ensures Abs() == HashStep(sha, old(Abs()), maxNumHashes) && Abs().Valid()
      ensures mustTick <==> remainingHashes == 1
    {
      var n := Min(remainingHashes - 1, maxNumHashes);
      for i := 0 to n
        invariant Abs() == old(Abs()).(hash := Iterate(sha, i, old(hash)))
      {
        hash := sha(hash);
      }
      numHashes := numHashes + n;
      remainingHashes := remainingHashes - n;
      assert remainingHashes > 0;
      mustTick := remainingHashes == 1;
    }

    method Record(sha: Sha, mixin: Hash) returns (entry: Option<PohEntry>)
      requires Abs().Valid()
      modifies this
      ensures (Abs(), entry) == RecordStep(sha, old(Abs()), mixin) && Abs().Valid()
    {
      if remainingHashes == 1 {
        return None;
      }
      hash := sha(hash + mixin);
      var n := numHashes + 1;
      numHashes := 0;
      remainingHashes := remainingHashes - 1;
      entry := Some(PohEntry(n, hash));
    }

    method Tick(sha: Sha) returns (entry: Option<PohEntry>)
      requires Abs().Valid()
      requires tickNumber < U64_MAX || (hashesPerTick != LOW_POWER_MODE && remainingHashes != 1)
      modifies this
      ensures (Abs(), entry) == TickStep(sha, old(Abs())) && Abs().Valid()
    {
      hash := sha(hash);
      numHashes := numHashes + 1;
      remainingHashes := remainingHashes - 1;
      if hashesPerTick != LOW_POWER_MODE && remainingHashes != 0 {
        return None;
      }
      var n := numHashes;
      remainingHashes := hashesPerTick;
      numHashes := 0;
      tickNumber := tickNumber + 1;
      entry := Some(PohEntry(n, hash));
    }
  }

  // ---------------------------------------------------------------- runs

  datatype Call = Hash(max: nat) | Record(mixin: Hash) | Tick

  /** An emitted entry with what it mixed in; a tick mixes in nothing. */
  datatype Emitted = Emitted(entry: PohEntry, mixin: Option<Hash>)

  function Step(sha: Sha, s: State, call: Call): (r: (State, seq<Emitted>))
    requires s.Valid()
    ensures r.0.Valid()
  {
    match call
    case Hash(max) => (HashStep(sha, s, max), [])
    case Record(mixin) =>
      var (s', e) := RecordStep(sha, s, mixin);
      (s', if e.Some? then [Emitted(e.value, Some(mixin))] else [])
    case Tick =>
      var (s', e) := TickStep(sha, s);
      (s', if e.Some? then [Emitted(e.value, None)] else [])
  }

  /** The state after a run of calls and all entries emitted on the way. */
  function Run(sha: Sha, s: State, calls: seq<Call>): (r: (State, seq<Emitted>))
    requires s.Valid()
    ensures r.0.Valid()
  {
    if calls == [] then (s, [])
    else
      var (s', before) := Run(sha, s, calls[..|calls| - 1]);
      var (s'', now) := Step(sha, s', calls[|calls| - 1]);
      (s'', before + now)
  }

  /** The hash of an entry that follows `start` by `n >= 1` hashes, the last of which takes the mixin. */
  function EntryHash(sha: Sha, start: Hash, n: nat, mixin: Option<Hash>): Hash
    requires n >= 1
  {
    var h := Iterate(sha, n - 1, start);
    if mixin.Some? then sha(h + mixin.value) else sha(h)
  }

  /** Every entry hashes to what its predecessor, its hash count and its mixin prescribe. */
  ghost predicate Chained(sha: Sha, start: Hash, es: seq<Emitted>) {
    forall i :: 0 <= i < |es| ==>
      && es[i].entry.numHashes >= 1
      && es[i].entry.hash == EntryHash(sha, Previous(start, es, i), es[i].entry.numHashes, es[i].mixin)
  }

  function Previous(start: Hash, es: seq<Emitted>, i: nat): Hash
    requires i <= |es|
  {
    if i == 0 then start else es[i - 1].entry.hash
  }

  /** The entries so far form a chain, and the generator stands `numHashes` hashes after the last of them. */
  ghost predicate Standing(sha: Sha, start: Hash, s: State, es: seq<Emitted>) {
    Chained(sha, start, es) && s.hash == Iterate(sha, s.numHashes, Previous(start, es, |es|))
  }

  /** An emitted entry carries the hash that the generator stands at. */
  lemma EmittedHash(sha: Sha, last: Hash, s: State, call: Call)
    requires s.Valid() && s.hash == Iterate(sha, s.numHashes, last) && Step(sha, s, call).1 != []
    ensures var (s', now) := Step(sha, s, call);
            && |now| == 1 && s'.numHashes == 0 && s'.hash == now[0].entry.hash && now[0].entry.numHashes >= 1
            && s'.hash == EntryHash(sha, last, now[0].entry.numHashes, now[0].mixin)
  {
  }

  /** A step that emits nothing only adds plain hashes. */
  lemma SilentHash(sha: Sha, last: Hash, s: State, call: Call)
    requires s.Valid() && s.hash == Iterate(sha, s.numHashes, last) && Step(sha, s, call).1 == []
    ensures var s' := Step(sha, s, call).0; s'.hash == Iterate(sha, s'.numHashes, last)
  {
    if call.Hash? {
      IterateAdd(sha, s.numHashes, Min(s.remaining - 1, call.max), last);
    }
  }

  lemma StepStanding(sha: Sha, start: Hash, s: State, es: seq<Emitted>, call: Call)
    requires s.Valid() && Standing(sha, start, s, es)
    ensures Standing(sha, start, Step(sha, s, call).0, es + Step(sha, s, call).1)
  {
    hide Step, EntryHash, Chained;
    var s', now := Step(sha, s, call).0, Step(sha, s, call).1;
    var last := Previous(start, es, |es|);
    if now == [] {
      SilentHash(sha, last, s, call);
      assert es + now == es;
    } else {
      EmittedHash(sha, last, s, call);
      ChainExtends(sha, start, es, now[0]);
      assert now == [now[0]];
    }
  }

  /** ... in every run. */
  lemma {:induction false} RunIsChained(sha: Sha, s: State, calls: seq<Call>)
    requires s.Valid() && s.numHashes == 0
    ensures Standing(sha, s.hash, Run(sha, s, calls).0, Run(sha, s, calls).1)
  {
    if calls != [] {
      var (s1, es) := Run(sha, s, calls[..|calls| - 1]);
      RunIsChained(sha, s, calls[..|calls| - 1]);
      StepStanding(sha, s.hash, s1, es, calls[|calls| - 1]);
    }
  }

  lemma ChainExtends(sha: Sha, start: Hash, es: seq<Emitted>, e: Emitted)
    requires Chained(sha, start, es) && e.entry.numHashes >= 1
    requires e.entry.hash == EntryHash(sha, Previous(start, es, |es|), e.entry.numHashes, e.mixin)
    ensures Chained(sha, start, es + [e])
  {
    forall i | 0 <= i <= |es| ensures Previous(start, es + [e], i) == Previous(start, es, i) {
    }
  }

  // ---------------------------------------------------------------- accounting

  function HashCount(es: seq<Emitted>): nat {
    if es == [] then 0 else HashCount(es[..|es| - 1]) + es[|es| - 1].entry.numHashes
  }

  /** Hashes of the entries after the last tick. */
  function SinceTick(es: seq<Emitted>): nat {
    if es == [] || es[|es| - 1].mixin.None? then 0
    else SinceTick(es[..|es| - 1]) + es[|es| - 1].entry.numHashes
  }

  function TickCount(es: seq<Emitted>): nat {
    if es == [] then 0 else TickCount(es[..|es| - 1]) + (if es[|es| - 1].mixin.None? then 1 else 0)
  }

  /** Every tick of a run closes exactly `perTick` hashes. */
  ghost predicate TicksAreExact(perTick: nat, es: seq<Emitted>) {
    forall i :: 0 <= i < |es| && es[i].mixin.None? ==> SinceTick(es[..i]) + es[i].entry.numHashes == perTick
  }

  /** Hashes are neither lost nor made up: those pending, those emitted since the last tick and those remaining
      always make up one tick; outside low-power mode every tick closes exactly that many. */
  ghost predicate Balanced(firstTick: nat, s: State, es: seq<Emitted>) {
    && s.numHashes + SinceTick(es) + s.remaining == s.hashesPerTick
    && s.tickNumber == firstTick + TickCount(es)
    && (!s.LowPower() ==> TicksAreExact(s.hashesPerTick, es))
  }

  lemma StepBalanced(sha: Sha, firstTick: nat, s: State, es: seq<Emitted>, call: Call)
    requires s.Valid() && Balanced(firstTick, s, es)
    ensures Balanced(firstTick, Step(sha, s, call).0, es + Step(sha, s, call).1)
  {
    var (s', now) := Step(sha, s, call);
    if now == [] {
      assert es + now == es;
    } else {
      var all := es + now;
      assert all[..|all| - 1] == es;
      forall i | 0 <= i <= |es| ensures all[..i] == es[..i] {
      }
    }
  }

  /** Where ticks are exact, all hashes are those of whole ticks and those since the last one. */
  lemma {:induction false} ExactTicksSum(perTick: nat, es: seq<Emitted>)
    requires TicksAreExact(perTick, es)
    ensures HashCount(es) == TickCount(es) * perTick + SinceTick(es)
  {
    if es != [] {
      var n := |es| - 1;
      assert TicksAreExact(perTick, es[..n]) by {
        assert forall i :: 0 <= i <= n ==> es[..n][..i] == es[..i];
      }
      ExactTicksSum(perTick, es[..n]);
      if es[n].mixin.None? {
        assert (TickCount(es[..n]) + 1) * perTick == TickCount(es[..n]) * perTick + perTick;
      }
    }
  }

  /** ... in every run. */
  lemma {:induction false} RunBalances(sha: Sha, s: State, calls: seq<Call>)
    requires s.Valid() && s.numHashes == 0 && s.remaining == s.hashesPerTick
    ensures Run(sha, s, calls).0.hashesPerTick == s.hashesPerTick
    ensures Balanced(s.tickNumber, Run(sha, s, calls).0, Run(sha, s, calls).1)
  {
    if calls != [] {
      var (s1, es) := Run(sha, s, calls[..|calls| - 1]);
      RunBalances(sha, s, calls[..|calls| - 1]);
      StepBalanced(sha, s.tickNumber, s1, es, calls[|calls| - 1]);
    }
  }

  /** A record never takes the last hash of a tick, and no entry counts more hashes than a 64-bit counter holds. */
  lemma {:induction false} RunCountsFit(sha: Sha, s: State, calls: seq<Call>)
    requires s.Valid()
    ensures forall e :: e in Run(sha, s, calls).1 ==>
              1 <= e.entry.numHashes <= U64_MAX && (e.mixin.Some? ==> e.entry.numHashes < U64_MAX)
  {
    if calls != [] {
      RunCountsFit(sha, s, calls[..|calls| - 1]);
    }
  }

  // ---------------------------------------------------------------- history

  /** One hash of the history: plain, or with a mixin. */
  function Link(sha: Sha, h: Hash, mixin: Option<Hash>): Hash { sha(LinkInput(h, mixin)) }

  function LinkInput(h: Hash, mixin: Option<Hash>): seq<byte> {
    if mixin.Some? then h + mixin.value else h
  }

  function History(sha: Sha, start: Hash, links: seq<Option<Hash>>): Hash {
    if links == [] then start else Link(sha, History(sha, start, links[..|links| - 1]), links[|links| - 1])
  }

  lemma LinkInputInjective(h: Hash, m: Option<Hash>, h': Hash, m': Option<Hash>)
    requires LinkInput(h, m) == LinkInput(h', m')
    ensures h == h' && m == m'
  {
    assert |LinkInput(h, m)| == if m.Some? then 64 else 32;
    assert LinkInput(h, m)[..32] == h && LinkInput(h', m')[..32] == h';
    assert LinkInput(h, m)[32..] == if m.Some? then m.value else [];
    assert LinkInput(h', m')[32..] == if m'.Some? then m'.value else [];
  }

  /** `x` was hashed on the way. */
  ghost predicate HashedByHistory(sha: Sha, start: Hash, links: seq<Option<Hash>>, x: seq<byte>) {
    links != [] &&
    (|| x == LinkInput(History(sha, start, links[..|links| - 1]), links[|links| - 1])
     || HashedByHistory(sha, start, links[..|links| - 1], x))
  }

  /** The current hash fixes the whole past: equally many hashes that lead to it started from the same hash and mixed
      the same values in at the same places, or yield a collision. */
  lemma {:induction false} HistoryBinds(sha: Sha, a: Hash, p: seq<Option<Hash>>, b: Hash, q: seq<Option<Hash>>)
    returns (x: seq<byte>, y: seq<byte>)
    requires |p| == |q| && History(sha, a, p) == History(sha, b, q)
    ensures (a == b && p == q) ||
            (Collide(sha, x, y) && HashedByHistory(sha, a, p, x) && HashedByHistory(sha, b, q, y))
  {
    x, y := [], [];
    if p != [] {
      var n := |p| - 1;
      var h, h' := History(sha, a, p[..n]), History(sha, b, q[..n]);
      if LinkInput(h, p[n]) != LinkInput(h', q[n]) {
        x, y := LinkInput(h, p[n]), LinkInput(h', q[n]);
      } else {
        LinkInputInjective(h, p[n], h', q[n]);
        x, y := HistoryBinds(sha, a, p[..n], b, q[..n]);
        assert p == p[..n] + [p[n]] && q == q[..n] + [q[n]];
      }
    }
  }

  /** The hashes that the entries of a run stand for. */
  function Links(es: seq<Emitted>): seq<Option<Hash>> {
    if es == [] then []
    else
      var e := es[|es| - 1];
      Links(es[..|es| - 1]) + Plain(if e.entry.numHashes > 0 then e.entry.numHashes - 1 else 0) + [e.mixin]
  }

  function Plain(n: nat): seq<Option<Hash>> { seq(n, _ => None) }

  lemma {:induction false} PlainHistory(sha: Sha, start: Hash, links: seq<Option<Hash>>, n: nat)
    ensures History(sha, start, links + Plain(n)) == Iterate(sha, n, History(sha, start, links))
  {
    if n == 0 {
      assert links + Plain(0) == links;
    } else {
      PlainHistory(sha, start, links, n - 1);
      assert (links + Plain(n))[..|links + Plain(n)| - 1] == links + Plain(n - 1);
    }
  }

  lemma EntryIsHistory(sha: Sha, start: Hash, links: seq<Option<Hash>>, n: nat, mixin: Option<Hash>)
    requires n >= 1
    ensures History(sha, start, links + Plain(n - 1) + [mixin])
         == EntryHash(sha, History(sha, start, links), n, mixin)
  {
    var before := links + Plain(n - 1);
    PlainHistory(sha, start, links, n - 1);
    assert (before + [mixin])[..|before|] == before;
  }

  /** A chain of entries ends in the history of its links, one link for each hash it counts. */
  lemma {:induction false} ChainIsHistory(sha: Sha, start: Hash, es: seq<Emitted>)
    requires Chained(sha, start, es)
    ensures Previous(start, es, |es|) == History(sha, start, Links(es))
    ensures |Links(es)| == HashCount(es)
  {
    if es != [] {
      var n, e := |es| - 1, es[|es| - 1];
      assert Chained(sha, start, es[..n]) by {
        assert forall i :: 0 <= i <= n ==> Previous(start, es[..n], i) == Previous(start, es, i);
      }
      ChainIsHistory(sha, start, es[..n]);
      EntryIsHistory(sha, start, Links(es[..n]), e.entry.numHashes, e.mixin);
    }
  }

  /** All hashes of a run: those of the entries and those pending since the last of them. */
  function AllLinks(r: (State, seq<Emitted>)): seq<Option<Hash>> { Links(r.1) + Plain(r.0.numHashes) }

  lemma StandingIsHistory(sha: Sha, start: Hash, s: State, es: seq<Emitted>)
    requires Standing(sha, start, s, es)
    ensures s.hash == History(sha, start, AllLinks((s, es))) && |AllLinks((s, es))| == HashCount(es) + s.numHashes
  {
    ChainIsHistory(sha, start, es);
    PlainHistory(sha, start, Links(es), s.numHashes);
  }

  /** The current hash fixes the whole past: two runs of equally many hashes that stand at the same hash have the same
      history, or yield a collision. */
  lemma CurrentHashBinds(sha: Sha, s: State, p: seq<Call>, t: State, q: seq<Call>)
    returns (x: seq<byte>, y: seq<byte>)
    requires s.Valid() && t.Valid() && s.numHashes == t.numHashes == 0
    requires var (s', es), (t', fs) := Run(sha, s, p), Run(sha, t, q);
             HashCount(es) + s'.numHashes == HashCount(fs) + t'.numHashes && s'.hash == t'.hash
    ensures (s.hash == t.hash && AllLinks(Run(sha, s, p)) == AllLinks(Run(sha, t, q))) ||
            (&& Collide(sha, x, y)
             && HashedByHistory(sha, s.hash, AllLinks(Run(sha, s, p)), x)
             && HashedByHistory(sha, t.hash, AllLinks(Run(sha, t, q)), y))
  {
    hide Run, AllLinks, HashedByHistory, Standing, HashCount, History;
    RunIsChained(sha, s, p);
    RunIsChained(sha, t, q);
    StandingIsHistory(sha, s.hash, Run(sha, s, p).0, Run(sha, s, p).1);
    StandingIsHistory(sha, t.hash, Run(sha, t, q).0, Run(sha, t, q).1);
    x, y := HistoryBinds(sha, s.hash, AllLinks(Run(sha, s, p)), t.hash, AllLinks(Run(sha, t, q)));
  }

  /** Two runs that count equally many hashes and emit the same last hash have the same history, or yield a collision. */
  lemma RunsBind(sha: Sha, s: State, p: seq<Call>, t: State, q: seq<Call>) returns (x: seq<byte>, y: seq<byte>)
    requires s.Valid() && t.Valid() && s.numHashes == t.numHashes == 0
    requires var es, fs := Run(sha, s, p).1, Run(sha, t, q).1;
             HashCount(es) == HashCount(fs) && Previous(s.hash, es, |es|) == Previous(t.hash, fs, |fs|)
    ensures (s.hash == t.hash && Links(Run(sha, s, p).1) == Links(Run(sha, t, q).1)) ||
            (&& Collide(sha, x, y)
             && HashedByHistory(sha, s.hash, Links(Run(sha, s, p).1), x)
             && HashedByHistory(sha, t.hash, Links(Run(sha, t, q).1), y))
  {
    var es, fs := Run(sha, s, p).1, Run(sha, t, q).1;
    RunIsChained(sha, s, p);
    RunIsChained(sha, t, q);
    ChainIsHistory(sha, s.hash, es);
    ChainIsHistory(sha, t.hash, fs);
    x, y := HistoryBinds(sha, s.hash, Links(es), t.hash, Links(fs));
  }

  // ---------------------------------------------------------------- what every call does

  /** A generator as its position: all hashes so far, how many of them are pending, and how many belong to the tick that
      is being filled. */
  datatype Reference = Reference(links: seq<Option<Hash>>, pending: nat, inTick: nat)

  /** Hashes stop before the last one of a tick, which only a tick may take; a record is refused there; a tick always
      hashes, and closes the tick on its last hash, or anywhere in low-power mode. */
  function ReferenceStep(perTick: nat, lowPower: bool, r: Reference, call: Call): Reference
    requires r.inTick < perTick
  {
    match call
    case Hash(max) =>
      var n := Min(max, perTick - 1 - r.inTick);
      Reference(r.links + Plain(n), r.pending + n, r.inTick + n)
    case Record(mixin) =>
      if r.inTick == perTick - 1 then r else Reference(r.links + [Some(mixin)], 0, r.inTick + 1)
    case Tick =>
      if lowPower || r.inTick == perTick - 1 then Reference(r.links + [None], 0, 0)
      else Reference(r.links + [None], r.pending + 1, r.inTick + 1)
  }

  function ReferenceRun(perTick: nat, lowPower: bool, calls: seq<Call>): (r: Reference)
    requires perTick > 1
    ensures r.inTick < perTick
  {
    if calls == [] then Reference([], 0, 0)
    else ReferenceStep(perTick, lowPower, ReferenceRun(perTick, lowPower, calls[..|calls| - 1]), calls[|calls| - 1])
  }

  /** The generator stands where the reference does. */
  ghost predicate Follows(perTick: nat, s: State, es: seq<Emitted>, r: Reference) {
    && s.hashesPerTick == perTick && AllLinks((s, es)) == r.links && s.numHashes == r.pending
    && s.remaining == perTick - r.inTick
  }

  lemma LinksPush(es: seq<Emitted>, e: Emitted)
    requires e.entry.numHashes >= 1
    ensures Links(es + [e]) == Links(es) + Plain(e.entry.numHashes - 1) + [e.mixin]
  {
    assert (es + [e])[..|es|] == es;
  }

  lemma PlainAdd(m: nat, n: nat)
    ensures Plain(m) + Plain(n) == Plain(m + n) && Plain(0) == [] && Plain(1) == [None]
  {
  }

  lemma StepFollows(sha: Sha, perTick: nat, s: State, es: seq<Emitted>, r: Reference, call: Call)
    requires s.Valid() && r.inTick < perTick && Follows(perTick, s, es, r)
    ensures var (s', now) := Step(sha, s, call);
            Follows(perTick, s', es + now, ReferenceStep(perTick, s.LowPower(), r, call))
  {
    hide Links, Plain, Iterate;
    var (s', now) := Step(sha, s, call);
    PlainAdd(s.numHashes, if call.Hash? then s'.numHashes - s.numHashes else 1);
    PlainAdd(0, 0);
    if now == [] {
      assert es + now == es;
      assert Links(es) + Plain(s.numHashes) + Plain(1) == Links(es) + (Plain(s.numHashes) + Plain(1));
    } else {
      LinksPush(es, now[0]);
      assert now == [now[0]];
      assert Links(es + now) + [] == Links(es + now);
    }
  }

  /** Every run follows the reference: each call hashes, mixes in and emits exactly when it should. */
  lemma {:induction false} RunFollows(sha: Sha, s: State, calls: seq<Call>)
    requires s.Valid() && s.numHashes == 0 && s.remaining == s.hashesPerTick
    ensures Run(sha, s, calls).0.LowPower() == s.LowPower()
    ensures Follows(s.hashesPerTick, Run(sha, s, calls).0, Run(sha, s, calls).1,
                    ReferenceRun(s.hashesPerTick, s.LowPower(), calls))
  {
    hide Step, ReferenceStep, Follows;
    if calls == [] {
      NothingFollowed(s);
    } else {
      var before := calls[..|calls| - 1];
      RunFollows(sha, s, before);
      var (s1, es) := Run(sha, s, before);
      StepFollows(sha, s.hashesPerTick, s1, es, ReferenceRun(s.hashesPerTick, s.LowPower(), before), calls[|calls| - 1]);
      SamePerTick(sha, s1, calls[|calls| - 1]);
    }
  }

  lemma SamePerTick(sha: Sha, s: State, call: Call)
    requires s.Valid()
    ensures Step(sha, s, call).0.hashesPerTick == s.hashesPerTick
  {
  }

  lemma NothingFollowed(s: State)
    requires s.numHashes == 0 && s.remaining == s.hashesPerTick
    ensures Follows(s.hashesPerTick, s, [], Reference([], 0, 0))
  {
  }

  /** Outside low-power mode the place in the tick is the position itself, counted in ticks. */
  lemma {:induction false} PlaceInTick(perTick: nat, calls: seq<Call>)
    requires perTick > 1
    ensures var r := ReferenceRun(perTick, false, calls); r.inTick == |r.links| % perTick
  {
    if calls != [] {
      PlaceInTick(perTick, calls[..|calls| - 1]);
      var r := ReferenceRun(perTick, false, calls[..|calls| - 1]);
      var r' := ReferenceRun(perTick, false, calls);
      Remainder(|r.links|, |r'.links| - |r.links|, perTick);
    }
  }

  lemma Remainder(a: nat, b: nat, m: nat)
    requires m > 1 && a % m + b <= m
    ensures (a + b) % m == if a % m + b == m then 0 else a % m + b
  {
    var q := a / m;
    assert a == q * m + a % m;
    if a % m + b == m {
      assert a + b == (q + 1) * m;
      RemainderIsUnique(a + b, q + 1, 0, m);
    } else {
      RemainderIsUnique(a + b, q, a % m + b, m);
    }
  }

  /** A new generator mixes in and emits as its configuration says, and its hash is that of its whole history. */
  lemma GeneratorExactly(sha: Sha, hash: Hash, hashesPerTick: Option<u64>, tickNumber: nat, calls: seq<Call>)
    requires hashesPerTick.Some? ==> hashesPerTick.value > 1
    ensures var perTick := if hashesPerTick.Some? then hashesPerTick.value else U64_MAX;
            var r, (s, es) := ReferenceRun(perTick, perTick == U64_MAX, calls),
                              Run(sha, Fresh(hash, hashesPerTick, tickNumber), calls);
            && Links(es) + Plain(s.numHashes) == r.links && s.numHashes == r.pending
            && s.hash == History(sha, hash, r.links)
            && s.tickNumber == tickNumber + TickCount(es)
  {
    hide Run, ReferenceRun, Links, Plain, History, TickCount, Standing;
    var s0 := Fresh(hash, hashesPerTick, tickNumber);
    RunFollows(sha, s0, calls);
    RunIsChained(sha, s0, calls);
    RunBalances(sha, s0, calls);
    StandingIsHistory(sha, hash, Run(sha, s0, calls).0, Run(sha, s0, calls).1);
  }
}

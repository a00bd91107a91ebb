/** The Bloom-filter deduplicator of `perf/src/deduper.rs`, bit by atomic bit, in every interleaving. */
module Deduper {
  import opened Prelude

  type Data = seq<byte>

  /** The `k` seeded hash functions and the number of bits they address. */
  datatype Hashing = Hashing(k: nat, numBits: nat, hash: (nat, Data) -> nat) {
    function Position(i: nat, data: Data): nat
      requires numBits > 0
    {
      hash(i, data) % numBits
    }

    /** The positions of the first `n` hashes. */
    function Prefix(data: Data, n: nat): (s: set<nat>)
      requires numBits > 0
      ensures forall p :: p in s ==> p < numBits
    {
      set i | 0 <= i < n :: Position(i, data)
    }

    function Positions(data: Data): set<nat>
      requires numBits > 0
    {
      Prefix(data, k)
    }
  }

  lemma PrefixNext(h: Hashing, data: Data, n: nat)
    requires h.numBits > 0
    ensures h.Prefix(data, 0) == {} && h.Prefix(data, n + 1) == h.Prefix(data, n) + {h.Position(n, data)}
  {
  }

  /** Hash `i` of the data leaves the remainder `p`. */
  ghost predicate Addresses(h: Hashing, data: Data, i: nat, p: nat) {
    p < h.numBits && exists q: nat :: IsSum(h.hash(i, data), q, h.numBits, p)
  }

  predicate IsSum(n: nat, q: nat, m: nat, r: nat) { n == q * m + r }

  /** A bit is addressed exactly when one of the hashes leaves it as its remainder. */
  lemma AddressedExactly(h: Hashing, data: Data, p: nat)
    requires h.numBits > 0
    ensures p in h.Positions(data) <==> exists i: nat :: i < h.k && Addresses(h, data, i, p)
  {
    forall i: nat ensures h.Position(i, data) == p <==> Addresses(h, data, i, p) {
      PositionExactly(h, data, i, p);
    }
  }

  lemma PositionExactly(h: Hashing, data: Data, i: nat, p: nat)
    requires h.numBits > 0
    ensures h.Position(i, data) == p <==> Addresses(h, data, i, p)
  {
    var n, m := h.hash(i, data), h.numBits;
    assert IsSum(n, n / m, m, n % m);
    if Addresses(h, data, i, p) {
      var q: nat :| IsSum(n, q, m, p);
      RemainderIsUnique(n, q, p, m);
    }
  }

  // ---------------------------------------------------------------- concurrent calls

  /** A call that has tried `next` bits; it owes the counter one increment between setting a bit and counting it. */
  datatype Call =
    | Busy(data: Data, next: nat, out: bool, owes: bool)
    | Returned(data: Data, duplicate: bool)
  {
    /** What the call would answer now, or has answered. */
    predicate SaysDuplicate() { if Busy? then out else duplicate }
  }

  /** The set bits, each with the call that set it, the counter, and all calls ever begun. */
  datatype State = State(setter: map<nat, nat>, popcount: nat, calls: seq<Call>)

  datatype Move = Begin(data: Data) | Access(call: nat)

  /** Some thread begins a call, or performs the next atomic access of one. */
  function Next(h: Hashing, s: State, m: Move): State
    requires h.numBits > 0
  {
    match m
    case Begin(data) => s.(calls := s.calls + [Busy(data, 0, true, false)])
    case Access(c) => if c < |s.calls| && s.calls[c].Busy? then Step(h, s, c) else s
  }

  function Step(h: Hashing, s: State, c: nat): State
    requires h.numBits > 0 && c < |s.calls| && s.calls[c].Busy?
  {
    var Busy(data, next, out, owes) := s.calls[c];
    if owes then s.(popcount := s.popcount + 1, calls := s.calls[c := Busy(data, next, out, false)])
    else if next < h.k then
      var p := h.Position(next, data);
      if p in s.setter then s.(calls := s.calls[c := Busy(data, next + 1, out, false)])
      else s.(setter := s.setter[p := c], calls := s.calls[c := Busy(data, next + 1, false, true)])
    else s.(calls := s.calls[c := Returned(data, out)])
  }

  function Run(h: Hashing, s: State, schedule: seq<Move>): State
    requires h.numBits > 0
  {
    if schedule == [] then s else Next(h, Run(h, s, schedule[..|schedule| - 1]), schedule[|schedule| - 1])
  }

  const INITIAL := State(map[], 0, [])

  // ---------------------------------------------------------------- what every interleaving keeps

  function Owes(call: Call): nat { if call.Busy? && call.owes then 1 else 0 }

  function Owed(calls: seq<Call>): nat {
    if calls == [] then 0 else Owed(calls[..|calls| - 1]) + Owes(calls[|calls| - 1])
  }

  lemma {:induction false} OwedUpdate(calls: seq<Call>, c: nat, call: Call)
    requires c < |calls|
    ensures Owed(calls[c := call]) + Owes(calls[c]) == Owed(calls) + Owes(call)
  {
    var n := |calls| - 1;
    if c < n {
      OwedUpdate(calls[..n], c, call);
      assert calls[c := call][..n] == calls[..n][c := call];
    } else {
      assert calls[c := call][..n] == calls[..n];
    }
  }

  lemma OwedPush(calls: seq<Call>, call: Call)
    ensures Owed(calls + [call]) == Owed(calls) + Owes(call)
  {
    assert (calls + [call])[..|calls|] == calls;
  }

  /** All bits that the call has passed are set; it owes a count only for a bit it set. */
  ghost predicate CallOk(h: Hashing, bits: set<nat>, call: Call)
    requires h.numBits > 0
  {
    match call
    case Busy(data, next, out, owes) => next <= h.k && h.Prefix(data, next) <= bits && (owes ==> !out)
    case Returned(data, _) => h.Positions(data) <= bits
  }

  /** Every set bit was set by a call whose data addresses it. */
  ghost predicate SettersOk(h: Hashing, s: State)
    requires h.numBits > 0
  {
    forall p :: p in s.setter ==> s.setter[p] < |s.calls| && p in h.Positions(s.calls[s.setter[p]].data)
  }

  /** A call says that its data is new exactly when it has set a bit itself. */
  ghost predicate Answers(s: State, c: nat)
    requires c < |s.calls|
  {
    s.calls[c].SaysDuplicate() <==> forall p :: p in s.setter ==> s.setter[p] != c
  }

  ghost predicate Valid(h: Hashing, s: State)
    requires h.numBits > 0
  {
    && |s.setter.Keys| == s.popcount + Owed(s.calls)
    && SettersOk(h, s)
    && (forall c :: 0 <= c < |s.calls| ==> CallOk(h, s.setter.Keys, s.calls[c]))
    && (forall c :: 0 <= c < |s.calls| ==> Answers(s, c))
  }

  lemma BeginValid(h: Hashing, s: State, data: Data)
    requires h.numBits > 0 && Valid(h, s)
    ensures Valid(h, Next(h, s, Begin(data)))
  {
    var s' := Next(h, s, Begin(data));
    var call := Busy(data, 0, true, false);
    PrefixNext(h, data, 0);
    OwedPush(s.calls, call);
    forall c | 0 <= c < |s'.calls| ensures CallOk(h, s.setter.Keys, s'.calls[c]) && Answers(s', c) {
      if c < |s.calls| {
        assert CallOk(h, s.setter.Keys, s.calls[c]) && Answers(s, c);
      }
    }
  }

  /** A call that only moves on, with the same answer and the same data, keeps everything. */
  lemma MoveOnValid(h: Hashing, s: State, c: nat, popcount: nat, call: Call)
    requires h.numBits > 0 && Valid(h, s) && c < |s.calls| && CallOk(h, s.setter.Keys, call)
    requires call.data == s.calls[c].data && call.SaysDuplicate() == s.calls[c].SaysDuplicate()
    requires popcount + Owes(call) == s.popcount + Owes(s.calls[c])
    ensures Valid(h, s.(popcount := popcount, calls := s.calls[c := call]))
  {
    hide Owed, Owes, CallOk;
    var s' := s.(popcount := popcount, calls := s.calls[c := call]);
    OwedUpdate(s.calls, c, call);
    forall d | 0 <= d < |s'.calls| ensures Answers(s', d) {
      assert Answers(s, d);
    }
  }

  lemma SetBitAnswers(s: State, c: nat, p: nat, call: Call)
    requires c < |s.calls| && p !in s.setter && !call.SaysDuplicate()
    requires forall d :: 0 <= d < |s.calls| ==> Answers(s, d)
    ensures var s' := s.(setter := s.setter[p := c], calls := s.calls[c := call]);
            forall d :: 0 <= d < |s.calls| ==> Answers(s', d)
  {
    var s' := s.(setter := s.setter[p := c], calls := s.calls[c := call]);
    forall d | 0 <= d < |s.calls| ensures Answers(s', d) {
      assert Answers(s, d);
      if d == c {
        assert p in s'.setter && s'.setter[p] == c;
      } else {
        assert forall q :: q in s'.setter && s'.setter[q] == d ==> q in s.setter && s.setter[q] == d;
        assert forall q :: q in s.setter && s.setter[q] == d ==> q in s'.setter && s'.setter[q] == d;
      }
    }
  }

  lemma CallOkGrows(h: Hashing, bits: set<nat>, p: nat, call: Call)
    requires h.numBits > 0 && CallOk(h, bits, call)
    ensures CallOk(h, bits + {p}, call)
  {
  }

  /** The call after it has passed the next bit. */
  lemma PassedOk(h: Hashing, bits: set<nat>, call: Call, out: bool, owes: bool)
    requires h.numBits > 0 && call.Busy? && CallOk(h, bits, call) && call.next < h.k && (owes ==> !out)
    ensures CallOk(h, bits + {h.Position(call.next, call.data)}, Busy(call.data, call.next + 1, out, owes))
    ensures h.Position(call.next, call.data) in h.Positions(call.data)
  {
    PrefixNext(h, call.data, call.next);
  }

  lemma SetBitSetters(h: Hashing, s: State, c: nat, p: nat, call: Call)
    requires h.numBits > 0 && SettersOk(h, s) && c < |s.calls| && p in h.Positions(call.data)
    requires call.data == s.calls[c].data
    ensures SettersOk(h, s.(setter := s.setter[p := c], calls := s.calls[c := call]))
  {
  }

  /** Setting a bit makes the call answer that its data is new, and the other calls no different. */
  lemma SetBitValid(h: Hashing, s: State, c: nat, p: nat)
    requires h.numBits > 0 && Valid(h, s) && c < |s.calls| && s.calls[c].Busy? && !s.calls[c].owes
    requires s.calls[c].next < h.k && p == h.Position(s.calls[c].next, s.calls[c].data) && p !in s.setter
    ensures var call := Busy(s.calls[c].data, s.calls[c].next + 1, false, true);
            Valid(h, s.(setter := s.setter[p := c], calls := s.calls[c := call]))
  {
    hide Owed, SettersOk, CallOk, Answers;
    var call := Busy(s.calls[c].data, s.calls[c].next + 1, false, true);
    var s' := s.(setter := s.setter[p := c], calls := s.calls[c := call]);
    assert s'.setter.Keys == s.setter.Keys + {p};
    PassedOk(h, s.setter.Keys, s.calls[c], false, true);
    OwedUpdate(s.calls, c, call);
    SetBitAnswers(s, c, p, call);
    SetBitSetters(h, s, c, p, call);
    forall d | 0 <= d < |s'.calls| ensures CallOk(h, s'.setter.Keys, s'.calls[d]) {
      CallOkGrows(h, s.setter.Keys, p, s.calls[d]);
    }
  }

  lemma CallIsOk(h: Hashing, s: State, c: nat)
    requires h.numBits > 0 && Valid(h, s) && c < |s.calls|
    ensures CallOk(h, s.setter.Keys, s.calls[c])
  {
  }

  /** A call may stop owing, and may return after its last bit. */
  lemma SettledOk(h: Hashing, bits: set<nat>, call: Call)
    requires h.numBits > 0 && call.Busy? && CallOk(h, bits, call)
    ensures CallOk(h, bits, call.(owes := false))
    ensures call.next >= h.k ==> CallOk(h, bits, Returned(call.data, call.out))
  {
  }

  lemma AccessValid(h: Hashing, s: State, c: nat)
    requires h.numBits > 0 && Valid(h, s) && c < |s.calls| && s.calls[c].Busy?
    ensures Valid(h, Step(h, s, c))
  {
    hide Valid, CallOk;
    var Busy(data, next, out, owes) := s.calls[c];
    CallIsOk(h, s, c);
    SettledOk(h, s.setter.Keys, s.calls[c]);
    if owes {
      MoveOnValid(h, s, c, s.popcount + 1, Busy(data, next, out, false));
    } else if next < h.k {
      var p := h.Position(next, data);
      if p in s.setter {
        PassedOk(h, s.setter.Keys, s.calls[c], out, false);
        assert s.setter.Keys + {p} == s.setter.Keys;
        MoveOnValid(h, s, c, s.popcount, Busy(data, next + 1, out, false));
      } else {
        SetBitValid(h, s, c, p);
      }
    } else {
      MoveOnValid(h, s, c, s.popcount, Returned(data, out));
    }
  }

  lemma {:induction false} RunKeepsValid(h: Hashing, s: State, schedule: seq<Move>)
    requires h.numBits > 0 && Valid(h, s)
    ensures Valid(h, Run(h, s, schedule))
  {
    hide Valid, Step;
    if schedule != [] {
      var before, m := Run(h, s, schedule[..|schedule| - 1]), schedule[|schedule| - 1];
      RunKeepsValid(h, s, schedule[..|schedule| - 1]);
      if m.Begin? {
        BeginValid(h, before, m.data);
      } else if m.call < |before.calls| && before.calls[m.call].Busy? {
        AccessValid(h, before, m.call);
      }
    }
  }

  lemma RunValid(h: Hashing, schedule: seq<Move>)
    requires h.numBits > 0
    ensures Valid(h, Run(h, INITIAL, schedule))
  {
    assert Valid(h, INITIAL);
    hide Valid, Run;
    RunKeepsValid(h, INITIAL, schedule);
  }

  // ---------------------------------------------------------------- answers

  /** In every interleaving a call that has returned reports a duplicate exactly when it set no bit itself; all bits of
      its data are set then. */
  lemma AnswersExactly(h: Hashing, schedule: seq<Move>, c: nat)
    requires h.numBits > 0
    requires var s := Run(h, INITIAL, schedule); c < |s.calls| && s.calls[c].Returned?
    ensures var s := Run(h, INITIAL, schedule);
            && h.Positions(s.calls[c].data) <= s.setter.Keys
            && (s.calls[c].duplicate <==> forall p :: p in s.setter ==> s.setter[p] != c)
  {
    RunValid(h, schedule);
    var s := Run(h, INITIAL, schedule);
    assert CallOk(h, s.setter.Keys, s.calls[c]) && Answers(s, c);
  }

  /** Bits stay set, by whom they were set, and calls keep their data. */
  ghost predicate Later(s: State, s': State) {
    && |s.calls| <= |s'.calls| && (forall c :: 0 <= c < |s.calls| ==> s'.calls[c].data == s.calls[c].data)
    && (forall p :: p in s.setter ==> p in s'.setter && s'.setter[p] == s.setter[p])
  }

  lemma {:induction false} RunIsLater(h: Hashing, s: State, schedule: seq<Move>)
    requires h.numBits > 0
    ensures Later(s, Run(h, s, schedule))
  {
    if schedule != [] {
      RunIsLater(h, s, schedule[..|schedule| - 1]);
    }
  }

  /** Where all bits of its data were set when a call began, it sets none. */
  lemma {:induction false} KnownDataSetsNothing(h: Hashing, s: State, schedule: seq<Move>, d: nat)
    requires h.numBits > 0 && d < |s.calls| && h.Positions(s.calls[d].data) <= s.setter.Keys
    requires s.calls[d].SaysDuplicate()
    ensures d < |Run(h, s, schedule).calls| && Run(h, s, schedule).calls[d].SaysDuplicate()
  {
    hide Run;
    if schedule == [] {
      assert Run(h, s, schedule) == s by { RunNone(h, s); }
    } else {
      var before := Run(h, s, schedule[..|schedule| - 1]);
      KnownDataSetsNothing(h, s, schedule[..|schedule| - 1], d);
      RunIsLater(h, s, schedule[..|schedule| - 1]);
      RunLast(h, s, schedule);
    }
  }

  lemma RunNone(h: Hashing, s: State)
    requires h.numBits > 0
    ensures Run(h, s, []) == s
  {
  }

  lemma RunLast(h: Hashing, s: State, schedule: seq<Move>)
    requires h.numBits > 0 && schedule != []
    ensures Run(h, s, schedule) == Next(h, Run(h, s, schedule[..|schedule| - 1]), schedule[|schedule| - 1])
  {
  }

  /** Between resets, in every interleaving: a call that begins after a call on equal data has returned reports a
      duplicate. */
  lemma RepeatsAreDuplicates(h: Hashing, before: seq<Move>, after: seq<Move>, c: nat)
    requires h.numBits > 0
    requires var s := Run(h, INITIAL, before); c < |s.calls| && s.calls[c].Returned?
    ensures var s := Run(h, INITIAL, before);
            var s' := Run(h, Next(h, s, Begin(s.calls[c].data)), after);
            var d := |s.calls|;
            d < |s'.calls| && s'.calls[d].data == s.calls[c].data && s'.calls[d].SaysDuplicate()
  {
    hide Run;
    AnswersExactly(h, before, c);
    var s := Run(h, INITIAL, before);
    var s1 := Next(h, s, Begin(s.calls[c].data));
    RunIsLater(h, s1, after);
    KnownDataSetsNothing(h, s1, after, |s.calls|);
  }

  /** The counter never runs ahead of the set bits, which never exceed the filter, and is exact once no call is in
      flight. */
  lemma PopcountExact(h: Hashing, schedule: seq<Move>)
    requires h.numBits > 0
    ensures var s := Run(h, INITIAL, schedule);
            && s.popcount <= |s.setter.Keys| <= h.numBits
            && ((forall c :: 0 <= c < |s.calls| ==> s.calls[c].Returned?) ==> s.popcount == |s.setter.Keys|)
  {
    RunValid(h, schedule);
    var s := Run(h, INITIAL, schedule);
    assert s.setter.Keys <= Below(h.numBits);
    SubsetSize(s.setter.Keys, Below(h.numBits));
    if forall c :: 0 <= c < |s.calls| ==> s.calls[c].Returned? {
      NothingOwed(s.calls);
    }
  }

  lemma {:induction false} NothingOwed(calls: seq<Call>)
    requires forall c :: 0 <= c < |calls| ==> Owes(calls[c]) == 0
    ensures Owed(calls) == 0
  {
    if calls != [] {
      NothingOwed(calls[..|calls| - 1]);
    }
  }

  function Below(n: nat): (s: set<nat>)
    ensures forall p: nat :: p in s <==> p < n
    ensures |s| == n
  {
    if n == 0 then {} else Below(n - 1) + {n - 1}
  }

  lemma SubsetSize<T>(a: set<T>, b: set<T>)
    requires a <= b
    ensures |a| <= |b|
  {
    assert b == a + (b - a);
  }

  /** Data is lost only to a false positive: if no call on `x` answers that it is new, but one has returned, then each
      of its bits was set by a call on other data, which answers that its data is new. */
  lemma LostOnlyToOthers(h: Hashing, schedule: seq<Move>, x: Data, c: nat)
    requires h.numBits > 0
    requires var s := Run(h, INITIAL, schedule);
             && c < |s.calls| && s.calls[c].Returned? && s.calls[c].data == x
             && forall d :: 0 <= d < |s.calls| && s.calls[d].data == x ==> s.calls[d].SaysDuplicate()
    ensures var s := Run(h, INITIAL, schedule);
            forall p :: p in h.Positions(x) ==>
              && p in s.setter && s.setter[p] < |s.calls|
              && var other := s.calls[s.setter[p]];
                 other.data != x && !other.SaysDuplicate() && p in h.Positions(other.data)
  {
    hide Run;
    RunValid(h, schedule);
    AnswersExactly(h, schedule, c);
    var s := Run(h, INITIAL, schedule);
    forall p | p in h.Positions(x)
      ensures && p in s.setter && s.setter[p] < |s.calls|
              && var other := s.calls[s.setter[p]];
                 other.data != x && !other.SaysDuplicate() && p in h.Positions(other.data)
    {
      assert Answers(s, s.setter[p]);
    }
  }

  // ---------------------------------------------------------------- how often data is let through

  /** The calls on `x` that say it is new, and the bits that calls on `x` have set. */
  ghost function NewCalls(s: State, x: Data): set<nat> {
    set c: nat | c < |s.calls| && s.calls[c].data == x && !s.calls[c].SaysDuplicate()
  }

  ghost function BitsSetFor(s: State, x: Data): set<nat> {
    set p | p in s.setter && s.setter[p] < |s.calls| && s.calls[s.setter[p]].data == x
  }

  lemma {:induction false} ImageSize(s: State, bits: set<nat>, calls: set<nat>)
    requires forall p :: p in bits ==> p in s.setter
    requires forall c :: c in calls ==> exists p :: p in bits && s.setter[p] == c
    ensures |calls| <= |bits|
    decreases |bits|
  {
    if bits == {} {
      assert calls == {};
    } else {
      var p :| p in bits;
      var c := s.setter[p];
      forall d | d in calls - {c} ensures exists q :: q in bits - {p} && s.setter[q] == d {
        var q :| q in bits && s.setter[q] == d;
        assert q in bits - {p};
      }
      ImageSize(s, bits - {p}, calls - {c});
      assert |calls| <= |calls - {c}| + 1 by {
        if c in calls {
          assert calls == (calls - {c}) + {c};
        } else {
          assert calls - {c} == calls;
        }
      }
    }
  }

  /** In every interleaving data is let through at most as often as bits were set for it, which are some of its own. */
  lemma LetThroughAtMost(h: Hashing, schedule: seq<Move>, x: Data)
    requires h.numBits > 0
    ensures var s := Run(h, INITIAL, schedule);
            |NewCalls(s, x)| <= |BitsSetFor(s, x)| <= |h.Positions(x)| && BitsSetFor(s, x) <= h.Positions(x)
  {
    hide Run;
    RunValid(h, schedule);
    var s := Run(h, INITIAL, schedule);
    forall c | c in NewCalls(s, x) ensures exists p :: p in BitsSetFor(s, x) && s.setter[p] == c {
      assert Answers(s, c);
      var p :| p in s.setter && s.setter[p] == c;
      assert p in BitsSetFor(s, x);
    }
    ImageSize(s, BitsSetFor(s, x), NewCalls(s, x));
    SubsetSize(BitsSetFor(s, x), h.Positions(x));
  }

  // ---------------------------------------------------------------- every call returns

  /** At most how many more accesses the call makes. */
  function Left(h: Hashing, call: Call): nat {
    if call.Returned? then 0
    else 1 + (if call.owes then 1 else 0) + (if call.next < h.k then 2 * (h.k - call.next) else 0)
  }

  function Accesses(schedule: seq<Move>, c: nat): nat {
    if schedule == [] then 0
    else Accesses(schedule[..|schedule| - 1], c) + (if schedule[|schedule| - 1] == Access(c) then 1 else 0)
  }

  /** Whatever the others do, every access brings a call closer to its return. */
  lemma {:induction false} AccessesBringCloser(h: Hashing, s: State, schedule: seq<Move>, c: nat)
    requires h.numBits > 0 && c < |s.calls|
    ensures var s' := Run(h, s, schedule);
            && c < |s'.calls|
            && (s'.calls[c].Busy? ==> Left(h, s'.calls[c]) + Accesses(schedule, c) <= Left(h, s.calls[c]))
  {
    if schedule != [] {
      AccessesBringCloser(h, s, schedule[..|schedule| - 1], c);
    }
  }

  /** Calls are wait-free: after twice as many accesses as there are hashes and one more, a call has returned. */
  lemma CallsReturn(h: Hashing, s: State, data: Data, schedule: seq<Move>)
    requires h.numBits > 0 && Accesses(schedule, |s.calls|) > 2 * h.k
    ensures var s' := Run(h, Next(h, s, Begin(data)), schedule);
            |s.calls| < |s'.calls| && s'.calls[|s.calls|].Returned? && s'.calls[|s.calls|].data == data
  {
    hide Run;
    var s1 := Next(h, s, Begin(data));
    AccessesBringCloser(h, s1, schedule, |s.calls|);
    RunIsLater(h, s1, schedule);
  }

  /** The bits that the call has tried. */
  ghost function Tried(h: Hashing, call: Call): set<nat>
    requires h.numBits > 0
  {
    if call.Busy? then h.Prefix(call.data, call.next) else h.Positions(call.data)
  }

  /** The call has set exactly what was missing of what it tried, and answers accordingly. */
  ghost predicate Alone(h: Hashing, bits: set<nat>, s: State, c: nat)
    requires h.numBits > 0
  {
    && c < |s.calls| && s.setter.Keys == bits + Tried(h, s.calls[c])
    && (s.calls[c].SaysDuplicate() <==> Tried(h, s.calls[c]) <= bits)
    && (s.calls[c].Busy? ==> s.calls[c].next <= h.k)
  }

  lemma AloneStep(h: Hashing, bits: set<nat>, s: State, c: nat)
    requires h.numBits > 0 && Alone(h, bits, s, c)
    ensures Alone(h, bits, Next(h, s, Access(c)), c)
  {
    if s.calls[c].Busy? {
      PrefixNext(h, s.calls[c].data, s.calls[c].next);
    }
  }

  lemma {:induction false} AloneRun(h: Hashing, bits: set<nat>, s: State, c: nat, schedule: seq<Move>)
    requires h.numBits > 0 && Alone(h, bits, s, c) && forall i :: 0 <= i < |schedule| ==> schedule[i] == Access(c)
    ensures Alone(h, bits, Run(h, s, schedule), c)
  {
    hide Alone, Next;
    if schedule != [] {
      AloneRun(h, bits, s, c, schedule[..|schedule| - 1]);
      AloneStep(h, bits, Run(h, s, schedule[..|schedule| - 1]), c);
    }
  }

  /** A call that runs alone reports a duplicate exactly when all bits of its data were set, and sets them. */
  lemma AloneExactly(h: Hashing, s: State, data: Data, schedule: seq<Move>)
    requires h.numBits > 0 && forall i :: 0 <= i < |schedule| ==> schedule[i] == Access(|s.calls|)
    requires |schedule| > 2 * h.k
    ensures var s' := Run(h, Next(h, s, Begin(data)), schedule);
            && |s.calls| < |s'.calls| && s'.setter.Keys == s.setter.Keys + h.Positions(data)
            && s'.calls[|s.calls|] == Returned(data, h.Positions(data) <= s.setter.Keys)
  {
    hide Run;
    var s1 := Next(h, s, Begin(data));
    PrefixNext(h, data, 0);
    AllAccesses(schedule, |s.calls|);
    CallsReturn(h, s, data, schedule);
    AloneRun(h, s.setter.Keys, s1, |s.calls|, schedule);
  }

  lemma {:induction false} AllAccesses(schedule: seq<Move>, c: nat)
    requires forall i :: 0 <= i < |schedule| ==> schedule[i] == Access(c)
    ensures Accesses(schedule, c) == |schedule|
  {
    if schedule != [] {
      AllAccesses(schedule[..|schedule| - 1], c);
    }
  }
}

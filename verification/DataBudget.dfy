/** The lock-free byte budget of `perf/src/data_budget.rs`, step by atomic step, in every interleaving. */
module DataBudget {
  import opened Prelude

  // ---------------------------------------------------------------- the sequential budget

  datatype Budget = Budget(bytes: nat, asof: nat)

  /** What a caller can observe of one operation. */
  datatype Event =
    | Take(size: nat, ok: bool)
    | Gate(duration: nat, now: nat, ok: bool)
    | Refill(from: nat, to: nat)
    | Read(bytes: nat)

  /** The event is what a budget used by nobody else would have shown. */
  predicate Legal(b: Budget, e: Event) {
    match e
    case Take(size, ok) => ok <==> size <= b.bytes
    case Gate(duration, now, ok) => ok <==> SaturatingAdd(b.asof, duration) <= now
    case Refill(from, _) => from == b.bytes
    case Read(bytes) => bytes == b.bytes
  }

  function Apply(b: Budget, e: Event): Budget
    requires Legal(b, e)
  {
    match e
    case Take(size, ok) => if ok then b.(bytes := b.bytes - size) else b
    case Gate(_, now, ok) => if ok then b.(asof := now) else b
    case Refill(_, to) => b.(bytes := to)
    case Read(_) => b
  }

  /** Plays events one after the other; `None` when one of them is not legal. */
  function Replay(b: Budget, log: seq<Event>): Option<Budget> {
    if log == [] then Some(b)
    else
      var b' := Replay(b, log[..|log| - 1]);
      if b'.Some? && Legal(b'.value, log[|log| - 1]) then Some(Apply(b'.value, log[|log| - 1])) else None
  }

  // ---------------------------------------------------------------- calls

  /** Where a call stands; `since` is the length of the log when it began, the other indices are its events. */
  datatype Call =
    | TakeStart(since: nat, size: nat)
    | TakeLoop(since: nat, size: nat, seen: nat)
    | TakeDone(since: nat, size: nat, ok: bool, at: nat, seen: nat)
    | GateStart(since: nat, duration: nat, now: nat, updater: nat -> nat)
    | GateLoop(since: nat, duration: nat, now: nat, updater: nat -> nat, seen: nat)
    | RefillStart(since: nat, duration: nat, now: nat, updater: nat -> nat, gate: nat)
    | RefillLoop(since: nat, duration: nat, now: nat, updater: nat -> nat, gate: nat, seen: nat)
    | ReadStart(since: nat, duration: nat, now: nat, updater: nat -> nat, gate: nat, refill: Option<nat>)
    | UpdateDone(since: nat, duration: nat, now: nat, updater: nat -> nat, gate: nat, refill: Option<nat>, at: nat,
                 result: nat)
  {
    predicate Returned() { TakeDone? || UpdateDone? }

    /** The indices of the events that the call has performed. */
    function Events(): set<nat> {
      match this
      case TakeDone(_, _, _, at, _) => {at}
      case RefillStart(_, _, _, _, gate) => {gate}
      case RefillLoop(_, _, _, _, gate, _) => {gate}
      case ReadStart(_, _, _, _, gate, refill) => if refill.Some? then {gate, refill.value} else {gate}
      case UpdateDone(_, _, _, _, gate, refill, at, _) =>
        if refill.Some? then {gate, refill.value, at} else {gate, at}
      case _ => {}
    }

    /** Bytes that the caller was granted. */
    function Granted(): nat { if TakeDone? && ok then size else 0 }
  }

  /** Shared memory, the log of all events so far with the call that performed each, and all calls ever begun. */
  datatype State = State(budget: Budget, log: seq<Event>, owners: seq<nat>, calls: seq<Call>)

  /** Some thread begins a call, or performs the next atomic access of one; a compare-and-swap may fail spuriously. */
  datatype Move =
    | BeginTake(size: nat)
    | BeginUpdate(duration: nat, now: nat, updater: nat -> nat)
    | Access(call: nat, spurious: bool)

  /** A call that has just read `seen` from `bytes` during a take. */
  function TakeSaw(since: nat, size: nat, seen: nat, at: nat): (Call, seq<Event>) {
    if seen < size then (TakeDone(since, size, false, at, seen), [Take(size, false)])
    else (TakeLoop(since, size, seen), [])
  }

  /** A call that has just read `seen` from `asof` during an update. */
  function GateSaw(since: nat, duration: nat, now: nat, f: nat -> nat, seen: nat, at: nat): (Call, seq<Event>) {
    if SaturatingAdd(seen, duration) <= now then (GateLoop(since, duration, now, f, seen), [])
    else (ReadStart(since, duration, now, f, at, None), [Gate(duration, now, false)])
  }

  /** The budget, the call and the event, if any, after one access of the call. */
  function Step(b: Budget, at: nat, call: Call, spurious: bool): (Budget, Call, seq<Event>) {
    match call
    case TakeStart(since, size) =>
      var (call', e) := TakeSaw(since, size, b.bytes, at);
      (b, call', e)
    case TakeLoop(since, size, seen) =>
      if !spurious && b.bytes == seen && size <= seen then
        (b.(bytes := seen - size), TakeDone(since, size, true, at, seen), [Take(size, true)])
      else
        var (call', e) := TakeSaw(since, size, b.bytes, at);
        (b, call', e)
    case GateStart(since, duration, now, f) =>
      var (call', e) := GateSaw(since, duration, now, f, b.asof, at);
      (b, call', e)
    case GateLoop(since, duration, now, f, seen) =>
      if !spurious && b.asof == seen then
        (b.(asof := now), RefillStart(since, duration, now, f, at), [Gate(duration, now, true)])
      else
        var (call', e) := GateSaw(since, duration, now, f, b.asof, at);
        (b, call', e)
    case RefillStart(since, duration, now, f, gate) => (b, RefillLoop(since, duration, now, f, gate, b.bytes), [])
    case RefillLoop(since, duration, now, f, gate, seen) =>
      if !spurious && b.bytes == seen then
        (b.(bytes := f(seen)), ReadStart(since, duration, now, f, gate, Some(at)), [Refill(seen, f(seen))])
      else (b, RefillLoop(since, duration, now, f, gate, b.bytes), [])
    case ReadStart(since, duration, now, f, gate, refill) =>
      (b, UpdateDone(since, duration, now, f, gate, refill, at, b.bytes), [Read(b.bytes)])
    case _ => (b, call, [])
  }

  function Next(s: State, m: Move): State {
    match m
    case BeginTake(size) => s.(calls := s.calls + [TakeStart(|s.log|, size)])
    case BeginUpdate(duration, now, f) => s.(calls := s.calls + [GateStart(|s.log|, duration, now, f)])
    case Access(c, spurious) =>
      if c >= |s.calls| then s
      else
        var (b, call, e) := Step(s.budget, |s.log|, s.calls[c], spurious);
        State(b, s.log + e, s.owners + seq(|e|, _ => c), s.calls[c := call])
  }

  /** A schedule of the accesses of all threads, in the order in which memory sees them. */
  function Run(s: State, schedule: seq<Move>): State {
    if schedule == [] then s else Next(Run(s, schedule[..|schedule| - 1]), schedule[|schedule| - 1])
  }

  function Initial(b: Budget): State { State(b, [], [], []) }

  // ---------------------------------------------------------------- linearizability

  /** What is true of a call: the test it passed last, and the events that it has performed, in order. */
  ghost predicate CallOk(log: seq<Event>, call: Call) {
    match call
    case TakeStart(since, _) => since <= |log|
    case TakeLoop(since, size, seen) => since <= |log| && size <= seen
    case TakeDone(since, size, ok, at, seen) =>
      since <= at < |log| && log[at] == Take(size, ok) && (ok <==> size <= seen)
    case GateStart(since, _, _, _) => since <= |log|
    case GateLoop(since, duration, now, _, seen) => since <= |log| && SaturatingAdd(seen, duration) <= now
    case RefillStart(since, duration, now, _, gate) =>
      since <= gate < |log| && log[gate] == Gate(duration, now, true)
    case RefillLoop(since, duration, now, _, gate, _) =>
      since <= gate < |log| && log[gate] == Gate(duration, now, true)
    case ReadStart(since, duration, now, f, gate, refill) => Updated(log, since, duration, now, f, gate, refill, |log|)
    case UpdateDone(since, duration, now, f, gate, refill, at, result) =>
      at < |log| && log[at] == Read(result) && Updated(log, since, duration, now, f, gate, refill, at)
  }

  /** An update first passed or failed the gate, and refilled exactly when it passed. */
  ghost predicate Updated(log: seq<Event>, since: nat, duration: nat, now: nat, f: nat -> nat, gate: nat,
                          refill: Option<nat>, end: nat) {
    && since <= gate < end <= |log| && log[gate] == Gate(duration, now, refill.Some?)
    && (refill.Some? ==> gate < refill.value < end && log[refill.value].Refill?
                         && log[refill.value].to == f(log[refill.value].from))
  }

  /** Every event belongs to exactly one call: the call that performed it points at it, and no other does. */
  ghost predicate Owned(s: State) {
    && |s.owners| == |s.log|
    && (forall k: nat :: k < |s.log| ==> s.owners[k] < |s.calls| && k in s.calls[s.owners[k]].Events())
    && (forall c :: 0 <= c < |s.calls| ==> Performed(s.owners, c, s.calls[c].Events()))
  }

  ghost predicate Performed(owners: seq<nat>, c: nat, events: set<nat>) {
    forall k :: k in events ==> k < |owners| && owners[k] == c
  }

  /** The log replays, from the initial budget, to the memory as it is; every call points at its events, and the events
      are those of the calls, each of exactly one. */
  ghost predicate Linearized(b0: Budget, s: State) {
    && Replay(b0, s.log) == Some(s.budget)
    && (forall c :: 0 <= c < |s.calls| ==> CallOk(s.log, s.calls[c]))
    && Owned(s)
  }

  lemma CallStays(log: seq<Event>, e: seq<Event>, call: Call)
    requires CallOk(log, call)
    ensures CallOk(log + e, call)
  {
  }

  /** An access performs at most one event, legal at that very moment; the call keeps pointing at its events and adds
      exactly that one. */
  lemma StepIsLegal(b: Budget, log: seq<Event>, call: Call, spurious: bool)
    requires CallOk(log, call)
    ensures var (b', call', e) := Step(b, |log|, call, spurious);
            && |e| <= 1 && CallOk(log + e, call')
            && (if e == [] then b' == b else Legal(b, e[0]) && b' == Apply(b, e[0]))
            && call'.Events() == call.Events() + (if e == [] then {} else {|log|})
  {
  }

  lemma ReplayPush(b: Budget, log: seq<Event>, e: Event)
    ensures Replay(b, log + [e]) ==
            var b' := Replay(b, log); if b'.Some? && Legal(b'.value, e) then Some(Apply(b'.value, e)) else None
  {
    assert (log + [e])[..|log|] == log;
  }

  lemma BeginLinearized(b0: Budget, s: State, call: Call)
    requires Linearized(b0, s) && CallOk(s.log, call) && call.Events() == {}
    ensures Linearized(b0, s.(calls := s.calls + [call]))
  {
    hide CallOk, Replay, Owned;
    BeginOwned(s, call);
  }

  lemma BeginOwned(s: State, call: Call)
    requires Owned(s) && call.Events() == {}
    ensures Owned(s.(calls := s.calls + [call]))
  {
    hide Call.Events;
    var calls := s.calls + [call];
    forall k: nat | k < |s.log| ensures s.owners[k] < |calls| && k in calls[s.owners[k]].Events() {
      assert calls[s.owners[k]] == s.calls[s.owners[k]];
    }
    forall d | 0 <= d < |calls| ensures Performed(s.owners, d, calls[d].Events()) {
      if d < |s.calls| {
        assert calls[d] == s.calls[d];
      }
    }
  }

  /** A call that performs the next event, or none, leaves every event with exactly one call. */
  lemma AccessOwned(s: State, c: nat, call: Call, b: Budget, e: seq<Event>)
    requires Owned(s) && c < |s.calls| && |e| <= 1
    requires call.Events() == s.calls[c].Events() + (if e == [] then {} else {|s.log|})
    ensures Owned(State(b, s.log + e, s.owners + seq(|e|, _ => c), s.calls[c := call]))
  {
    hide Call.Events;
    var owners, calls := s.owners + seq(|e|, _ => c), s.calls[c := call];
    forall k: nat | k < |s.log + e| ensures owners[k] < |calls| && k in calls[owners[k]].Events() {
      if k < |s.log| {
        assert k in s.calls[s.owners[k]].Events();
      }
    }
    forall d | 0 <= d < |calls| ensures Performed(owners, d, calls[d].Events()) {
      assert Performed(s.owners, d, s.calls[d].Events());
    }
  }

  lemma AccessLinearized(b0: Budget, s: State, c: nat, spurious: bool)
    requires Linearized(b0, s)
    ensures Linearized(b0, Next(s, Access(c, spurious)))
  {
    hide CallOk, Step, Replay, Owned, Call.Events, Legal, Apply;
    if c < |s.calls| {
      var (b, call, e) := Step(s.budget, |s.log|, s.calls[c], spurious);
      StepIsLegal(s.budget, s.log, s.calls[c], spurious);
      AccessOwned(s, c, call, b, e);
      if e == [] {
        assert s.log + e == s.log;
      } else {
        ReplayPush(b0, s.log, e[0]);
        assert e == [e[0]];
      }
      var calls := s.calls[c := call];
      forall d | 0 <= d < |calls| ensures CallOk(s.log + e, calls[d]) {
        CallStays(s.log, e, s.calls[d]);
      }
    }
  }

  lemma NextLinearized(b0: Budget, s: State, m: Move)
    requires Linearized(b0, s)
    ensures Linearized(b0, Next(s, m))
  {
    hide Linearized, Step;
    match m
    case BeginTake(size) => BeginLinearized(b0, s, TakeStart(|s.log|, size));
    case BeginUpdate(duration, now, f) => BeginLinearized(b0, s, GateStart(|s.log|, duration, now, f));
    case Access(c, spurious) => AccessLinearized(b0, s, c, spurious);
  }

  lemma {:induction false} RunKeepsLinearized(b0: Budget, s: State, schedule: seq<Move>)
    requires Linearized(b0, s)
    ensures Linearized(b0, Run(s, schedule))
  {
    hide Linearized, Next;
    if schedule != [] {
      var k := |schedule| - 1;
      RunKeepsLinearized(b0, s, schedule[..k]);
      NextLinearized(b0, Run(s, schedule[..k]), schedule[k]);
    }
  }

  /** Every interleaving, with any spurious failures, looks like the same operations done one at a time, each performed
      by exactly one call, between its start and its end. */
  lemma RunLinearized(b0: Budget, schedule: seq<Move>)
    ensures Linearized(b0, Run(Initial(b0), schedule))
  {
    hide Run;
    RunKeepsLinearized(b0, Initial(b0), schedule);
  }

  /** Two callers never share an event. */
  lemma NoEventTwice(b0: Budget, schedule: seq<Move>, c: nat, d: nat)
    requires var s := Run(Initial(b0), schedule); c < |s.calls| && d < |s.calls| && c != d
    ensures var s := Run(Initial(b0), schedule); s.calls[c].Events() !! s.calls[d].Events()
  {
    hide Run, Call.Events, CallOk, Replay;
    RunLinearized(b0, schedule);
    var s := Run(Initial(b0), schedule);
    assert Performed(s.owners, c, s.calls[c].Events()) && Performed(s.owners, d, s.calls[d].Events());
  }

  // ---------------------------------------------------------------- real time

  /** Calls stay; what has returned, and when a call began, never changes. */
  ghost predicate Later(s: State, s': State) {
    && |s.calls| <= |s'.calls|
    && forall c :: 0 <= c < |s.calls| ==>
         && s'.calls[c].since == s.calls[c].since && (s.calls[c].Returned() ==> s'.calls[c] == s.calls[c])
  }

  lemma StepKeepsStart(b: Budget, at: nat, call: Call, spurious: bool)
    ensures var call' := Step(b, at, call, spurious).1;
            call'.since == call.since && (call.Returned() ==> call' == call)
  {
  }

  lemma NextIsLater(s: State, m: Move)
    ensures Later(s, Next(s, m))
  {
    hide Step;
    if m.Access? && m.call < |s.calls| {
      StepKeepsStart(s.budget, |s.log|, s.calls[m.call], m.spurious);
    }
  }

  lemma {:induction false} RunIsLater(s: State, schedule: seq<Move>)
    ensures Later(s, Run(s, schedule))
  {
    hide Next;
    if schedule != [] {
      RunIsLater(s, schedule[..|schedule| - 1]);
      NextIsLater(Run(s, schedule[..|schedule| - 1]), schedule[|schedule| - 1]);
    }
  }

  lemma EventsInCall(log: seq<Event>, call: Call, k: nat)
    requires CallOk(log, call) && k in call.Events()
    ensures call.since <= k < |log|
  {
  }

  /** The order of events respects real time: a call that returned before another began comes first. */
  lemma RealTimeOrder(b0: Budget, before: seq<Move>, begin: Move, after: seq<Move>, c: nat, j: nat, k: nat)
    requires !begin.Access? && c < |Run(Initial(b0), before).calls| && Run(Initial(b0), before).calls[c].Returned()
    requires var s := Run(Next(Run(Initial(b0), before), begin), after);
             && c < |Run(Initial(b0), before).calls| < |s.calls|
             && j in s.calls[c].Events() && k in s.calls[|Run(Initial(b0), before).calls|].Events()
    ensures j < k
  {
    hide Run, CallOk, Call.Events, Replay, Owned;
    var s0 := Run(Initial(b0), before);
    var s1 := Next(s0, begin);
    var s2 := Run(s1, after);
    var d := |s0.calls|;
    RunLinearized(b0, before);
    NextLinearized(b0, s0, begin);
    RunKeepsLinearized(b0, s1, after);
    RunIsLater(s1, after);
    assert s1.calls[c] == s0.calls[c] == s2.calls[c] && s2.calls[d].since == |s0.log|;
    EventsInCall(s0.log, s0.calls[c], j);
    EventsInCall(s2.log, s2.calls[d], k);
  }

  // ---------------------------------------------------------------- undisturbed calls

  /** The value that the next compare-and-swap expects is still there. */
  predicate Current(b: Budget, call: Call) {
    match call
    case TakeLoop(_, _, seen) => seen == b.bytes
    case GateLoop(_, _, _, _, seen) => seen == b.asof
    case RefillLoop(_, _, _, _, _, seen) => seen == b.bytes
    case _ => true
  }

  /** At most how many more accesses a call needs when nobody interferes. */
  function Left(b: Budget, call: Call): nat {
    match call
    case TakeStart(_, _) => 2
    case GateStart(_, _, _, _) => 5
    case GateLoop(_, _, _, _, _) => if Current(b, call) then 4 else 5
    case RefillStart(_, _, _, _, _) => 3
    case RefillLoop(_, _, _, _, _, _) => if Current(b, call) then 2 else 3
    case TakeLoop(_, _, _) => if Current(b, call) then 1 else 2
    case ReadStart(_, _, _, _, _, _) => 1
    case _ => 0
  }

  lemma StepBringsCloser(b: Budget, log: seq<Event>, call: Call)
    requires CallOk(log, call) && !call.Returned()
    ensures var (b', call', _) := Step(b, |log|, call, false); Left(b', call') < Left(b, call)
  {
  }

  /** A call that runs alone, without spurious failures, from wherever it stands, returns within five accesses. */
  lemma {:induction false} UndisturbedReturns(b0: Budget, s: State, c: nat, n: nat)
    requires Linearized(b0, s) && c < |s.calls| && n >= Left(s.budget, s.calls[c])
    ensures var s' := Run(s, seq(n, _ => Access(c, false))); c < |s'.calls| && s'.calls[c].Returned()
    ensures Left(s.budget, s.calls[c]) <= 5
    decreases n
  {
    hide Linearized, Step, CallOk;
    if n == 0 {
    } else if s.calls[c].Returned() {
      RunIsLater(s, seq(n, _ => Access(c, false)));
    } else {
      var s1 := Next(s, Access(c, false));
      assert CallOk(s.log, s.calls[c]) by { CallIsOk(b0, s, c); }
      StepBringsCloser(s.budget, s.log, s.calls[c]);
      AccessLinearized(b0, s, c, false);
      UndisturbedReturns(b0, s1, c, n - 1);
      RunFirst(s, Access(c, false), seq(n - 1, _ => Access(c, false)));
      assert [Access(c, false)] + seq(n - 1, _ => Access(c, false)) == seq(n, _ => Access(c, false));
    }
  }

  lemma CallIsOk(b0: Budget, s: State, c: nat)
    requires Linearized(b0, s) && c < |s.calls|
    ensures CallOk(s.log, s.calls[c])
  {
  }

  lemma {:induction false} RunFirst(s: State, m: Move, schedule: seq<Move>)
    ensures Run(s, [m] + schedule) == Run(Next(s, m), schedule)
  {
    hide Next;
    var all := [m] + schedule;
    if schedule == [] {
      assert all == [m] && [m][..0] == [];
      assert Run(s, [m]) == Next(Run(s, []), m);
    } else {
      assert all[..|all| - 1] == [m] + schedule[..|schedule| - 1];
      RunFirst(s, m, schedule[..|schedule| - 1]);
    }
  }

  /** A take that runs alone gets its bytes exactly when there are enough, also when there are just enough. */
  lemma AloneTake(b: Budget, at: nat, size: nat, since: nat)
    ensures var (b1, call, _) := Step(b, at, TakeStart(since, size), false);
            var (b2, call2, _) := Step(b1, at, call, false);
            && call2.TakeDone? && call2.size == size && (call2.ok <==> size <= b.bytes)
            && b2 == b.(bytes := if size <= b.bytes then b.bytes - size else b.bytes)
  {
  }

  /** An update that runs alone refills exactly when its time has come, and returns the bytes there are then. */
  lemma AloneUpdate(b: Budget, at: nat, duration: nat, now: nat, f: nat -> nat, since: nat)
    ensures var (b1, c1, _) := Step(b, at, GateStart(since, duration, now, f), false);
            var (b2, c2, _) := Step(b1, at, c1, false);
            var (b3, c3, _) := Step(b2, at, c2, false);
            var (b4, c4, _) := Step(b3, at, c3, false);
            var (b5, c5, _) := Step(b4, at, c4, false);
            var due := Min(b.asof + duration, U64_MAX) <= now;
            && c5.UpdateDone? && c5.result == b5.bytes && c5.refill.Some? == due
            && b5 == if due then Budget(f(b.bytes), now) else b
  {
  }

  // ---------------------------------------------------------------- accounting

  function Taken(log: seq<Event>): nat {
    if log == [] then 0
    else Taken(log[..|log| - 1]) + (match log[|log| - 1] case Take(size, true) => size case _ => 0)
  }

  /** The net change of all refills. */
  function Refilled(log: seq<Event>): int {
    if log == [] then 0
    else Refilled(log[..|log| - 1]) + (match log[|log| - 1] case Refill(from, to) => to - from case _ => 0)
  }

  /** What all callers together were granted. */
  function Granted(calls: seq<Call>): nat {
    if calls == [] then 0 else Granted(calls[..|calls| - 1]) + calls[|calls| - 1].Granted()
  }

  lemma {:induction false} GrantedUpdate(calls: seq<Call>, c: nat, call: Call)
    requires c < |calls|
    ensures Granted(calls[c := call]) == Granted(calls) - calls[c].Granted() + call.Granted()
  {
    hide Call.Granted;
    var n := |calls| - 1;
    if c == n {
      assert calls[c := call][..n] == calls[..n];
    } else {
      assert calls[c := call][..n] == calls[..n][c := call];
      GrantedUpdate(calls[..n], c, call);
    }
  }

  lemma TakenPush(log: seq<Event>, e: Event)
    ensures Taken(log + [e]) == Taken(log) + (match e case Take(size, true) => size case _ => 0)
  {
    assert (log + [e])[..|log|] == log;
  }

  lemma StepGrants(b: Budget, at: nat, call: Call, spurious: bool)
    ensures var (_, call', e) := Step(b, at, call, spurious);
            && |e| <= 1
            && call'.Granted() == call.Granted()
                                  + (if e == [] then 0 else match e[0] case Take(size, true) => size case _ => 0)
  {
  }

  lemma BeginGrants(calls: seq<Call>, call: Call)
    requires call.Granted() == 0
    ensures Granted(calls + [call]) == Granted(calls)
  {
    assert (calls + [call])[..|calls|] == calls;
  }

  /** What was granted to callers is what was taken, step by step. */
  lemma NextGrants(s: State, m: Move)
    requires Granted(s.calls) == Taken(s.log)
    ensures Granted(Next(s, m).calls) == Taken(Next(s, m).log)
  {
    hide Step, Granted, Taken;
    match m
    case BeginTake(size) => BeginGrants(s.calls, TakeStart(|s.log|, size));
    case BeginUpdate(duration, now, f) => BeginGrants(s.calls, GateStart(|s.log|, duration, now, f));
    case Access(c, spurious) =>
      if c < |s.calls| {
        AccessGrants(s, c, spurious);
      }
  }

  lemma AccessGrants(s: State, c: nat, spurious: bool)
    requires c < |s.calls| && Granted(s.calls) == Taken(s.log)
    ensures var (_, call, e) := Step(s.budget, |s.log|, s.calls[c], spurious);
            Granted(s.calls[c := call]) == Taken(s.log + e)
  {
    hide Step, Granted, Taken, Call.Granted;
    var (_, call, e) := Step(s.budget, |s.log|, s.calls[c], spurious);
    StepGrants(s.budget, |s.log|, s.calls[c], spurious);
    GrantedUpdate(s.calls, c, call);
    if e == [] {
      assert s.log + e == s.log;
    } else {
      TakenPush(s.log, e[0]);
      assert e == [e[0]];
    }
  }

  lemma {:induction false} RunGrants(b0: Budget, schedule: seq<Move>)
    ensures var s := Run(Initial(b0), schedule); Granted(s.calls) == Taken(s.log)
  {
    hide Next;
    if schedule != [] {
      RunGrants(b0, schedule[..|schedule| - 1]);
      NextGrants(Run(Initial(b0), schedule[..|schedule| - 1]), schedule[|schedule| - 1]);
    }
  }

  /** Bytes are what was there, plus the refill changes, minus the successful takes. */
  lemma {:induction false} BytesAccounted(b: Budget, log: seq<Event>)
    requires Replay(b, log).Some?
    ensures Replay(b, log).value.bytes == b.bytes + Refilled(log) - Taken(log)
  {
    if log != [] {
      BytesAccounted(b, log[..|log| - 1]);
    }
  }

  /** In every interleaving, bytes are what was there, plus the refill changes, minus what callers were granted. */
  lemma BudgetConserved(b0: Budget, schedule: seq<Move>)
    ensures var s := Run(Initial(b0), schedule);
            s.budget.bytes == b0.bytes + Refilled(s.log) - Granted(s.calls) >= 0
  {
    hide Run, Granted, Taken, Refilled;
    RunLinearized(b0, schedule);
    RunGrants(b0, schedule);
    BytesAccounted(b0, Run(Initial(b0), schedule).log);
  }

  // ---------------------------------------------------------------- the refill gate

  /** A passed gate moves `asof` forward by at least its duration exactly when that time does not saturate. */
  lemma GateProgress(b: Budget, duration: nat, now: u64)
    requires Legal(b, Gate(duration, now, true)) && b.asof <= U64_MAX
    ensures Apply(b, Gate(duration, now, true)).asof >= b.asof
    ensures Apply(b, Gate(duration, now, true)).asof >= b.asof + duration <==> b.asof + duration <= U64_MAX
  {
  }

  /** Close to the end of time a gate passes early. */
  lemma GatePassesEarly()
    ensures var b := Budget(0, U64_MAX - 1);
            Legal(b, Gate(5, U64_MAX, true)) && Apply(b, Gate(5, U64_MAX, true)).asof < b.asof + 5
  {
  }

  function Passed(log: seq<Event>): nat {
    if log == [] then 0
    else Passed(log[..|log| - 1]) + (match log[|log| - 1] case Gate(_, _, true) => 1 case _ => 0)
  }

  ghost predicate GatesAtLeast(log: seq<Event>, duration: nat) {
    forall i :: 0 <= i < |log| && log[i].Gate? ==> log[i].duration >= duration && log[i].now < U64_MAX
  }

  /** Refills are rate limited: each takes up its own stretch of time of at least the duration. */
  lemma {:induction false} RefillsRateLimited(b: Budget, log: seq<Event>, duration: nat)
    requires Replay(b, log).Some? && GatesAtLeast(log, duration)
    ensures Replay(b, log).value.asof >= b.asof + Passed(log) * duration
  {
    if log != [] {
      var n := |log| - 1;
      RefillsRateLimited(b, log[..n], duration);
      assert (Passed(log[..n]) + 1) * duration == Passed(log[..n]) * duration + duration;
    }
  }

  /** ... in every interleaving. */
  lemma RunRateLimited(b0: Budget, schedule: seq<Move>, duration: nat)
    requires GatesAtLeast(Run(Initial(b0), schedule).log, duration)
    ensures var s := Run(Initial(b0), schedule); s.budget.asof >= b0.asof + Passed(s.log) * duration
  {
    RunLinearized(b0, schedule);
    RefillsRateLimited(b0, Run(Initial(b0), schedule).log, duration);
  }
}

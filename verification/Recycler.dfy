/** The object pool of `perf/src/recycler.rs` and the rounded moving average that decides when it shrinks. */
module Recycler {
  import opened Prelude

  const SHRINK_SIZE := 1024
  const SHRINK_WINDOW := 16384
  const SIZE_FACTOR_AFTER_SHRINK := SHRINK_SIZE * SHRINK_WINDOW

  function SaturatingMul(a: nat, b: nat): nat { if a * b <= U64_MAX then a * b else U64_MAX }

  /** The moving sum after an allocation that sees `len` pooled objects. */
  function NextFactor(factor: nat, len: nat): nat {
    SaturatingAdd(SaturatingAdd(SaturatingMul(factor, SHRINK_WINDOW - 1), SHRINK_WINDOW / 2) / SHRINK_WINDOW, len)
  }

  // ---------------------------------------------------------------- the pool

  datatype Pool<T> = Pool(gc: seq<T>, total: nat, reuse: nat, freed: nat, maxGc: nat, sizeFactor: nat)

  /** A pooled object is handed out reset; a new one is made when the pool is empty. */
  function AllocateStep<T>(p: Pool<T>, newObject: T, reset: T -> T): (Pool<T>, T) {
    var factor := NextFactor(p.sizeFactor, |p.gc|);
    if p.gc == [] then (p.(sizeFactor := factor, total := p.total + 1), newObject)
    else
      var n := |p.gc| - 1;
      (p.(sizeFactor := factor, gc := p.gc[..n], reuse := p.reuse + 1), reset(p.gc[n]))
  }

  predicate Shrinks<T>(p: Pool<T>) {
    |p.gc| + 1 > SHRINK_SIZE && p.sizeFactor >= SIZE_FACTOR_AFTER_SHRINK
  }

  function RecycleStep<T>(p: Pool<T>, x: T): Pool<T> {
    var gc := p.gc + [x];
    var q := if Shrinks(p) then
               p.(gc := gc[..SHRINK_SIZE], freed := p.freed + (|gc| - SHRINK_SIZE),
                  sizeFactor := SIZE_FACTOR_AFTER_SHRINK)
             else p.(gc := gc);
    if |q.gc| > q.maxGc then q.(maxGc := |q.gc|) else q
  }

  class Recycler<T> {
    var gc: seq<T>
    var total: nat
    var reuse: nat
    var freed: nat
    var maxGc: nat
    var sizeFactor: nat

    ghost function Abs(): Pool<T>
      reads this
    {
      Pool(gc, total, reuse, freed, maxGc, sizeFactor)
    }

    constructor ()
      ensures Abs() == Empty<T>()
    {
      gc, total, reuse, freed, maxGc, sizeFactor := [], 0, 0, 0, 0, 0;
    }

    method Allocate(newObject: T, reset: T -> T) returns (x: T)
      modifies this
      ensures (Abs(), x) == AllocateStep(old(Abs()), newObject, reset)
    {
      sizeFactor := NextFactor(sizeFactor, |gc|);
      if gc != [] {
        x := reset(gc[|gc| - 1]);
        gc := gc[..|gc| - 1];
        reuse := reuse + 1;
        return;
      }
      total := total + 1;
      x := newObject;
    }

    method Recycle(x: T)
      modifies this
      ensures Abs() == RecycleStep(old(Abs()), x)
    {
      gc := gc + [x];
      if |gc| > SHRINK_SIZE && sizeFactor >= SIZE_FACTOR_AFTER_SHRINK {
        freed := freed + (|gc| - SHRINK_SIZE);
        gc := gc[..SHRINK_SIZE];
        sizeFactor := SIZE_FACTOR_AFTER_SHRINK;
      }
      if |gc| > maxGc {
        maxGc := |gc|;
      }
    }
  }

  function Empty<T>(): Pool<T> { Pool([], 0, 0, 0, 0, 0) }

  // ---------------------------------------------------------------- runs

  datatype Op<!T> = Allocate(newObject: T, reset: T -> T) | Recycle(x: T)

  function Step<T>(p: Pool<T>, op: Op<T>): Pool<T> {
    match op
    case Allocate(newObject, reset) => AllocateStep(p, newObject, reset).0
    case Recycle(x) => RecycleStep(p, x)
  }

  function Run<T>(p: Pool<T>, ops: seq<Op<T>>): Pool<T> {
    if ops == [] then p else Step(Run(p, ops[..|ops| - 1]), ops[|ops| - 1])
  }

  function Allocations<T>(ops: seq<Op<T>>): nat {
    if ops == [] then 0 else Allocations(ops[..|ops| - 1]) + (if ops[|ops| - 1].Allocate? then 1 else 0)
  }

  function Recycles<T>(ops: seq<Op<T>>): nat {
    if ops == [] then 0 else Recycles(ops[..|ops| - 1]) + (if ops[|ops| - 1].Recycle? then 1 else 0)
  }

  /** Every object ever made is outstanding (allocated and not recycled), pooled or freed. */
  lemma {:induction false} ObjectsConserved<T>(ops: seq<Op<T>>)
    ensures var p := Run(Empty(), ops);
            && p.total == (Allocations(ops) - Recycles(ops)) + |p.gc| + p.freed
            && p.total + p.reuse == Allocations(ops)
  {
    hide NextFactor;
    if ops != [] {
      ObjectsConserved(ops[..|ops| - 1]);
    }
  }

  /** What an operation takes out of the pool to hand out, and what it lets go. */
  function TakenBy<T>(p: Pool<T>, op: Op<T>): seq<T> {
    if op.Allocate? && p.gc != [] then [p.gc[|p.gc| - 1]] else []
  }

  function DroppedBy<T>(p: Pool<T>, op: Op<T>): seq<T> {
    if op.Recycle? && Shrinks(p) then (p.gc + [op.x])[SHRINK_SIZE..] else []
  }

  function Taken<T>(p: Pool<T>, ops: seq<Op<T>>): seq<T> {
    if ops == [] then [] else Taken(p, ops[..|ops| - 1]) + TakenBy(Run(p, ops[..|ops| - 1]), ops[|ops| - 1])
  }

  function Dropped<T>(p: Pool<T>, ops: seq<Op<T>>): seq<T> {
    if ops == [] then [] else Dropped(p, ops[..|ops| - 1]) + DroppedBy(Run(p, ops[..|ops| - 1]), ops[|ops| - 1])
  }

  function Recycled<T>(ops: seq<Op<T>>): seq<T> {
    if ops == [] then []
    else Recycled(ops[..|ops| - 1]) + (if ops[|ops| - 1].Recycle? then [ops[|ops| - 1].x] else [])
  }

  ghost function Count<T>(s: seq<T>, x: T): nat { multiset(s)[x] }

  lemma CountSplit<T>(s: seq<T>, n: nat, x: T)
    requires n <= |s|
    ensures Count(s, x) == Count(s[..n], x) + Count(s[n..], x)
  {
    assert s == s[..n] + s[n..];
  }

  lemma RecycleKeepsObjects<T>(p: Pool<T>, y: T, x: T)
    ensures Count(RecycleStep(p, y).gc, x) + Count(DroppedBy(p, Recycle(y)), x)
         == Count(p.gc, x) + (if y == x then 1 else 0)
  {
    var gc := p.gc + [y];
    assert Count([y], x) == (if y == x then 1 else 0) && Count<T>([], x) == 0;
    hide Count;
    CountSplit(gc, |p.gc|, x);
    assert gc[..|p.gc|] == p.gc && gc[|p.gc|..] == [y];
    if Shrinks(p) {
      CountSplit(gc, SHRINK_SIZE, x);
    }
  }

  lemma AllocateKeepsObjects<T>(p: Pool<T>, op: Op<T>, x: T)
    requires op.Allocate?
    ensures Count(Step(p, op).gc, x) + Count(TakenBy(p, op), x) == Count(p.gc, x)
  {
    hide NextFactor;
    assert Count<T>([], x) == 0;
    hide Count;
    if p.gc != [] {
      var n := |p.gc| - 1;
      CountSplit(p.gc, n, x);
      assert p.gc[n..] == [p.gc[n]];
    }
  }

  lemma StepKeepsObjects<T>(p: Pool<T>, op: Op<T>, x: T)
    ensures Count(Step(p, op).gc, x) + Count(TakenBy(p, op), x) + Count(DroppedBy(p, op), x)
         == Count(p.gc, x) + (if op.Recycle? && op.x == x then 1 else 0)
  {
    hide NextFactor, AllocateStep, RecycleStep;
    assert Count<T>([], x) == 0;
    hide Count;
    if op.Recycle? {
      RecycleKeepsObjects(p, op.x, x);
    } else {
      AllocateKeepsObjects(p, op, x);
    }
  }

  /** No object is handed out twice for being recycled once: in every run, what was pooled and recycled is still
      pooled, was handed out or was let go, each as often. */
  lemma {:induction false} PoolKeepsObjects<T>(p: Pool<T>, ops: seq<Op<T>>, x: T)
    ensures Count(Run(p, ops).gc, x) + Count(Taken(p, ops), x) + Count(Dropped(p, ops), x)
         == Count(p.gc, x) + Count(Recycled(ops), x)
  {
    hide Step, TakenBy, DroppedBy;
    if ops != [] {
      PoolKeepsObjects(p, ops[..|ops| - 1], x);
      StepKeepsObjects(Run(p, ops[..|ops| - 1]), ops[|ops| - 1], x);
    }
  }

  /** Recycling pools the object and leaves the sum alone while the pool does not grow beyond `SHRINK_SIZE`, or the sum is
      below the threshold. */
  lemma RecycleOnlyPools<T>(p: Pool<T>, x: T)
    requires |p.gc| < SHRINK_SIZE || p.sizeFactor < SIZE_FACTOR_AFTER_SHRINK
    ensures var q := RecycleStep(p, x);
            q == p.(gc := p.gc + [x], maxGc := if |p.gc| + 1 > p.maxGc then |p.gc| + 1 else p.maxGc)
  {
  }

  /** The object recycled last is handed out first, unless recycling it shrank the pool, which lets it go. */
  lemma ReuseIsLifo<T>(p: Pool<T>, x: T, newObject: T, reset: T -> T)
    ensures var (q, y) := AllocateStep(RecycleStep(p, x), newObject, reset);
            if Shrinks(p) then y == reset(p.gc[SHRINK_SIZE - 1]) && q.gc == p.gc[..SHRINK_SIZE - 1]
            else y == reset(x) && q.gc == p.gc
  {
    hide NextFactor;
    if Shrinks(p) {
      assert (p.gc + [x])[..SHRINK_SIZE] == p.gc[..SHRINK_SIZE];
    }
  }

  /** How many pooled objects the allocation at `i` sees. */
  function Seen<T>(p: Pool<T>, ops: seq<Op<T>>, i: nat): nat
    requires i < |ops|
  {
    |Run(p, ops[..i]).gc|
  }

  /** Either every allocation sees more than `SHRINK_SIZE` pooled objects, or none does. */
  ghost predicate AllSee<T>(p: Pool<T>, ops: seq<Op<T>>, backlog: bool) {
    forall i :: 0 <= i < |ops| && ops[i].Allocate? ==> (Seen(p, ops, i) > SHRINK_SIZE <==> backlog)
  }

  lemma AllSeePrefix<T>(p: Pool<T>, ops: seq<Op<T>>, n: nat, backlog: bool)
    requires n <= |ops| && AllSee(p, ops, backlog)
    ensures AllSee(p, ops[..n], backlog)
  {
    forall i | 0 <= i < n && ops[..n][i].Allocate? ensures Seen(p, ops[..n], i) > SHRINK_SIZE <==> backlog {
      assert ops[..n][..i] == ops[..i];
      assert Seen(p, ops, i) > SHRINK_SIZE <==> backlog;
    }
  }

  // ---------------------------------------------------------------- the average

  /** Rounding makes a whole band of sums stand still under a constant load; a sum so large that its product saturates
      stands still at one value only. */
  lemma FixedBand(factor: u64, len: nat)
    ensures NextFactor(factor, len) == factor <==>
            if factor * (SHRINK_WINDOW - 1) + SHRINK_WINDOW / 2 <= U64_MAX then
              SHRINK_WINDOW * len - SHRINK_WINDOW / 2 < factor <= SHRINK_WINDOW * len + SHRINK_WINDOW / 2
            else factor == SaturatingAdd(U64_MAX / SHRINK_WINDOW, len)
  {
  }

  /** In every allocation, also one that finds the pool empty, the new sum is the exact update rounded to the nearest
      unit, while nothing saturates. */
  lemma AllocationRounds<T>(p: Pool<T>, newObject: T, reset: T -> T)
    requires p.sizeFactor * (SHRINK_WINDOW - 1) + SHRINK_WINDOW / 2 <= U64_MAX
    requires (p.sizeFactor * (SHRINK_WINDOW - 1) + SHRINK_WINDOW / 2) / SHRINK_WINDOW + |p.gc| <= U64_MAX
    ensures var sum := AllocateStep(p, newObject, reset).0.sizeFactor;
            -(SHRINK_WINDOW / 2) <
            SHRINK_WINDOW * sum - ((SHRINK_WINDOW - 1) * p.sizeFactor + SHRINK_WINDOW * |p.gc|) <= SHRINK_WINDOW / 2
  {
  }

  /** An allocation that finds the pool empty lowers the sum, until it is at most half the window. */
  lemma EmptyLowers(factor: u64)
    ensures NextFactor(factor, 0) <= factor
    ensures factor > SHRINK_WINDOW / 2 ==> NextFactor(factor, 0) < factor
  {
  }

  /** The sum decays while the pool runs dry: allocations that all find it empty bring the sum down to half the window,
      each by at least one. */
  lemma {:induction false} EmptyPoolDecays<T>(p: Pool<T>, ops: seq<Op<T>>)
    requires p.sizeFactor <= U64_MAX
    requires forall i :: 0 <= i < |ops| && ops[i].Allocate? ==> Seen(p, ops, i) == 0
    ensures Run(p, ops).sizeFactor <= p.sizeFactor
    ensures Run(p, ops).sizeFactor <= SHRINK_WINDOW / 2 || Run(p, ops).sizeFactor + Allocations(ops) <= p.sizeFactor
  {
    hide NextFactor;
    if ops != [] {
      var n := |ops| - 1;
      forall i | 0 <= i < n && ops[..n][i].Allocate? ensures Seen(p, ops[..n], i) == 0 {
        assert ops[..n][..i] == ops[..i];
        assert Seen(p, ops, i) == 0;
      }
      EmptyPoolDecays(p, ops[..n]);
      if ops[n].Allocate? {
        assert Seen(p, ops, n) == |Run(p, ops[..n]).gc|;
        EmptyLowers(Run(p, ops[..n]).sizeFactor);
      }
    }
  }

  /** The lower end of the band for a load of `SHRINK_SIZE`: where rising sums come to rest, short of the threshold. */
  const RESTING := SIZE_FACTOR_AFTER_SHRINK - SHRINK_WINDOW / 2 + 1

  lemma LightLoadRests(factor: nat, len: nat)
    requires factor <= RESTING && len <= SHRINK_SIZE
    ensures NextFactor(factor, len) <= RESTING < SIZE_FACTOR_AFTER_SHRINK
  {
  }

  lemma HeavyLoadClimbs(factor: nat, len: nat)
    requires len > SHRINK_SIZE
    ensures NextFactor(factor, len) >= SIZE_FACTOR_AFTER_SHRINK || NextFactor(factor, len) > factor
  {
  }

  /** From an empty pool nothing is ever freed unless some allocation saw more than `SHRINK_SIZE` pooled objects. */
  lemma {:induction false} NoShrinkUnderLightLoad<T>(ops: seq<Op<T>>)
    requires AllSee(Empty(), ops, false)
    ensures Run(Empty(), ops).freed == 0 && Run(Empty(), ops).sizeFactor <= RESTING
  {
    hide NextFactor;
    if ops != [] {
      var n := |ops| - 1;
      AllSeePrefix(Empty(), ops, n, false);
      NoShrinkUnderLightLoad(ops[..n]);
      var p := Run(Empty(), ops[..n]);
      if ops[n].Allocate? {
        assert Seen(Empty(), ops, n) == |p.gc|;
        LightLoadRests(p.sizeFactor, |p.gc|);
      } else {
        LightLoadRests(p.sizeFactor, 0);
      }
    }
  }

  lemma LightLoadStays(factor: nat, len: nat)
    requires factor <= SIZE_FACTOR_AFTER_SHRINK && len <= SHRINK_SIZE
    ensures NextFactor(factor, len) <= SIZE_FACTOR_AFTER_SHRINK
  {
  }

  /** A pool that has just shrunk starts over: while no allocation sees more than `SHRINK_SIZE` pooled objects, the sum
      does not rise above the threshold again. */
  lemma {:induction false} CalmAfterShrink<T>(p: Pool<T>, x: T, ops: seq<Op<T>>)
    requires Shrinks(p) && AllSee(RecycleStep(p, x), ops, false)
    ensures Run(RecycleStep(p, x), ops).sizeFactor <= SIZE_FACTOR_AFTER_SHRINK
  {
    hide NextFactor;
    var q := RecycleStep(p, x);
    if ops != [] {
      var n := |ops| - 1;
      AllSeePrefix(q, ops, n, false);
      CalmAfterShrink(p, x, ops[..n]);
      if ops[n].Allocate? {
        assert Seen(q, ops, n) == |Run(q, ops[..n]).gc|;
        LightLoadStays(Run(q, ops[..n]).sizeFactor, |Run(q, ops[..n]).gc|);
      }
    }
  }

  lemma StepMaximum<T>(p: Pool<T>, op: Op<T>)
    requires |p.gc| <= p.maxGc
    ensures var q := Step(p, op); q.maxGc == if |q.gc| > p.maxGc then |q.gc| else p.maxGc
  {
    hide NextFactor;
  }

  /** How long the pool is after the first `i` operations. */
  function Length<T>(ops: seq<Op<T>>, i: nat): nat
    requires i <= |ops|
  {
    |Run(Empty(), ops[..i]).gc|
  }

  lemma LengthPrefix<T>(ops: seq<Op<T>>, n: nat, i: nat)
    requires i <= n <= |ops|
    ensures Length(ops[..n], i) == Length(ops, i)
  {
    assert ops[..n][..i] == ops[..i];
  }

  ghost predicate IsMaximum<T>(ops: seq<Op<T>>, max: nat) {
    (forall i :: 0 <= i <= |ops| ==> Length(ops, i) <= max) && exists i :: 0 <= i <= |ops| && Length(ops, i) == max
  }

  lemma MaximumNext<T>(ops: seq<Op<T>>, max: nat)
    requires ops != [] && IsMaximum(ops[..|ops| - 1], max)
    ensures IsMaximum(ops, Max(max, Length(ops, |ops|)))
  {
    hide Length;
    var n := |ops| - 1;
    forall i | 0 <= i <= n ensures Length(ops[..n], i) == Length(ops, i) {
      LengthPrefix(ops, n, i);
    }
    var i :| 0 <= i <= n && Length(ops[..n], i) == max;
    assert Length(ops, i) == max;
  }

  function Max(a: nat, b: nat): nat { if a < b then b else a }

  /** The recorded maximum is the greatest length that the pool has ever had. */
  lemma {:induction false} MaximumExact<T>(ops: seq<Op<T>>)
    ensures IsMaximum(ops, Run(Empty<T>(), ops).maxGc)
  {
    assert ops[..|ops|] == ops;
    hide Step, IsMaximum;
    if ops == [] {
      NothingPooled<T>();
    } else {
      var n := |ops| - 1;
      MaximumExact(ops[..n]);
      var p := Run(Empty<T>(), ops[..n]);
      assert |p.gc| <= p.maxGc by { MaximumBounds(ops[..n], p.maxGc); }
      StepMaximum(p, ops[n]);
      MaximumNext(ops, p.maxGc);
    }
  }

  lemma NothingPooled<T>()
    ensures IsMaximum<T>([], Run(Empty<T>(), []).maxGc)
  {
    assert Length<T>([], 0) == 0;
  }

  lemma MaximumBounds<T>(ops: seq<Op<T>>, max: nat)
    requires IsMaximum(ops, max)
    ensures |Run(Empty(), ops).gc| <= max
  {
    assert ops[..|ops|] == ops;
    assert Length(ops, |ops|) <= max;
  }

  /** As long as every allocation sees more, each moves the sum towards the threshold, despite rounding. */
  lemma {:induction false} HeavyLoadReachesThreshold<T>(p: Pool<T>, ops: seq<Op<T>>)
    requires AllSee(p, ops, true)
    ensures Run(p, ops).sizeFactor >= SIZE_FACTOR_AFTER_SHRINK || Run(p, ops).sizeFactor >= Allocations(ops)
  {
    hide NextFactor;
    if ops != [] {
      var n := |ops| - 1;
      AllSeePrefix(p, ops, n, true);
      HeavyLoadReachesThreshold(p, ops[..n]);
      var q := Run(p, ops[..n]);
      if ops[n].Allocate? {
        assert Seen(p, ops, n) == |q.gc|;
        HeavyLoadClimbs(q.sizeFactor, |q.gc|);
      }
    }
  }

  /** ... so that after as many allocations as the threshold counts, the next full pool shrinks to its limit. */
  lemma HeavyLoadShrinks<T>(p: Pool<T>, ops: seq<Op<T>>, x: T)
    requires AllSee(p, ops, true) && Allocations(ops) >= SIZE_FACTOR_AFTER_SHRINK
    requires |Run(p, ops).gc| >= SHRINK_SIZE
    ensures |RecycleStep(Run(p, ops), x).gc| == SHRINK_SIZE
    ensures RecycleStep(Run(p, ops), x).freed == Run(p, ops).freed + |Run(p, ops).gc| + 1 - SHRINK_SIZE
  {
    HeavyLoadReachesThreshold(p, ops);
  }
}

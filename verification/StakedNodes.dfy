/** The stake aggregates of `streamer/src/streamer.rs`, which must agree with the lookups. */
module StakedNodes {
  import opened Prelude

  type Pubkey = seq<byte>
  type Stakes = map<Pubkey, nat>

  // ---------------------------------------------------------------- sums over maps

  ghost function Sum(m: Stakes): nat {
    if m == map[] then 0
    else
      var k :| k in m;
      m[k] + Sum(m - {k})
  }

  /** The sum does not depend on the order in which a map is walked. */
  lemma {:induction false} SumWithout(m: Stakes, k: Pubkey)
    requires k in m
    ensures Sum(m) == m[k] + Sum(m - {k})
    decreases |m|
  {
    var c :| c in m && Sum(m) == m[c] + Sum(m - {c});
    if c != k {
      SumWithout(m - {c}, k);
      SumWithout(m - {k}, c);
      assert m - {c} - {k} == m - {k} - {c};
    }
  }

  lemma SumWith(m: Stakes, k: Pubkey, v: nat)
    requires k !in m
    ensures Sum(m[k := v]) == Sum(m) + v
  {
    SumWithout(m[k := v], k);
    assert m[k := v] - {k} == m;
  }

  // ---------------------------------------------------------------- lookups

  function GetNodeStake(stakes: Stakes, overrides: Stakes, k: Pubkey): Option<nat> {
    var stake := if k in overrides then Some(overrides[k]) else if k in stakes then Some(stakes[k]) else None;
    if stake.Some? && stake.value > 0 then stake else None
  }

  /** An override decides alone, also when it takes the stake away; a stake of zero counts as none. */
  lemma OverridesDecide(stakes: Stakes, overrides: Stakes, k: Pubkey, v: nat)
    ensures GetNodeStake(stakes, overrides, k) == Some(v) <==>
            v > 0 && ((k in overrides && overrides[k] == v) || (k !in overrides && k in stakes && stakes[k] == v))
    ensures GetNodeStake(stakes, overrides, k).None? <==>
            (k in overrides ==> overrides[k] == 0) && (k !in overrides && k in stakes ==> stakes[k] == 0)
  {
  }

  /** All keys that have a stake, with that stake. */
  function Present(stakes: Stakes, overrides: Stakes): Stakes {
    map k | k in stakes.Keys + overrides.Keys && GetNodeStake(stakes, overrides, k).Some?
      :: GetNodeStake(stakes, overrides, k).value
  }

  /** All known keys, with zero for those without a stake. */
  function Known(stakes: Stakes, overrides: Stakes): Stakes {
    map k | k in stakes.Keys + overrides.Keys
      :: var s := GetNodeStake(stakes, overrides, k); if s.Some? then s.value else 0
  }

  function Positive(m: Stakes): Stakes { map k | k in m && m[k] > 0 :: m[k] }

  lemma {:induction false} PositiveSum(m: Stakes)
    ensures Sum(Positive(m)) == Sum(m)
    decreases |m|
  {
    if m != map[] {
      var k :| k in m;
      PositiveSum(m - {k});
      SumWithout(m, k);
      if m[k] > 0 {
        SumWithout(Positive(m), k);
        assert Positive(m) - {k} == Positive(m - {k});
      } else {
        assert Positive(m) == Positive(m - {k});
      }
    } else {
      assert Positive(m) == map[];
    }
  }

  // ---------------------------------------------------------------- aggregates

  datatype Stats = Stats(total: nat, min: nat, max: nat)

  ghost predicate IsLeast(m: Stakes, v: nat) {
    (exists k :: k in m && m[k] == v) && forall k :: k in m ==> v <= m[k]
  }

  ghost predicate IsGreatest(m: Stakes, v: nat) {
    (exists k :: k in m && m[k] == v) && forall k :: k in m ==> m[k] <= v
  }

  /** The 64-bit sum and the extremes of a map; zeros for an empty one. */
  ghost predicate Summarizes(m: Stakes, s: Stats) {
    && s.total == Sum(m) % (U64_MAX + 1)
    && (if m == map[] then s.min == 0 && s.max == 0 else IsLeast(m, s.min) && IsGreatest(m, s.max))
  }

  lemma WrappedSum(a: nat, v: nat)
    ensures (a % (U64_MAX + 1) + v) % (U64_MAX + 1) == (a + v) % (U64_MAX + 1)
  {
  }

  lemma ExtremesWith(m: Stakes, min: nat, max: nat, k: Pubkey, v: nat)
    requires k !in m && (m != map[] ==> IsLeast(m, min) && IsGreatest(m, max))
    ensures IsLeast(m[k := v], if m == map[] || v < min then v else min)
    ensures IsGreatest(m[k := v], if m == map[] || v > max then v else max)
  {
    var m' := m[k := v];
    assert k in m' && m'[k] == v;
    if m != map[] {
      var a :| a in m && m[a] == min;
      var b :| b in m && m[b] == max;
      assert a in m' && m'[a] == min && b in m' && m'[b] == max;
    }
  }

  lemma SummarizesOneMore(m: Stakes, s: Stats, k: Pubkey, v: nat)
    requires Summarizes(m, s) && k !in m
    ensures Summarizes(m[k := v], Stats((s.total + v) % (U64_MAX + 1),
                                        if m == map[] || v < s.min then v else s.min,
                                        if m == map[] || v > s.max then v else s.max))
  {
    hide Sum, IsLeast, IsGreatest;
    SumWith(m, k, v);
    WrappedSum(Sum(m), v);
    ExtremesWith(m, s.min, s.max, k, v);
    assert k in m[k := v];
  }

  /** What has been summed up once only `rest` of `src` is left. */
  ghost function Visited(src: Stakes, rest: Stakes, done: Stakes): Stakes { done + Positive(src - rest.Keys) }

  lemma VisitOne(src: Stakes, rest: Stakes, done: Stakes, k: Pubkey)
    requires src.Keys !! done.Keys && k in rest && rest.Keys <= src.Keys && rest[k] == src[k]
    ensures var before := Visited(src, rest, done);
            k !in before && Visited(src, rest - {k}, done) == if src[k] > 0 then before[k := src[k]] else before
  {
    var seen := src - rest.Keys;
    assert src - (rest - {k}).Keys == seen[k := src[k]];
    PositiveWith(seen, k, src[k]);
    hide Positive;
    assert k !in Positive(seen) && k !in done;
  }

  lemma PositiveWith(m: Stakes, k: Pubkey, v: nat)
    requires k !in m
    ensures k !in Positive(m) && Positive(m[k := v]) == if v > 0 then Positive(m)[k := v] else Positive(m)
  {
  }

  lemma VisitEnds(src: Stakes, done: Stakes)
    ensures Visited(src, src, done) == done && Visited(src, map[], done) == done + Positive(src)
  {
  }

  /** Adds the positive values of `src`, visited in any order, to what has been summed up so far. */
  method Accumulate(src: Stakes, ghost done: Stakes, s0: Stats, seen0: bool) returns (s: Stats, seen: bool)
    requires src.Keys !! done.Keys && Summarizes(done, s0) && (seen0 <==> done != map[])
    ensures Summarizes(done + Positive(src), s) && (seen <==> done + Positive(src) != map[])
  {
    hide Summarizes, Positive, Visited;
    s, seen := s0, seen0;
    var rest := src;
    VisitEnds(src, done);
    while rest != map[]
      invariant rest.Keys <= src.Keys && forall k :: k in rest ==> rest[k] == src[k]
      invariant Summarizes(Visited(src, rest, done), s) && (seen <==> Visited(src, rest, done) != map[])
      decreases |rest|
    {
      var k :| k in rest;
      var v := rest[k];
      VisitOne(src, rest, done, k);
      if v > 0 {
        SummarizesOneMore(Visited(src, rest, done), s, k, v);
        s := Stats((s.total + v) % (U64_MAX + 1), if !seen || v < s.min then v else s.min,
                   if !seen || v > s.max then v else s.max);
        seen := true;
        assert k in Visited(src, rest, done)[k := v];
      }
      rest := rest - {k};
    }
  }

  /** The values of the stakes that are not overridden, then those of the overrides. */
  method CalculateStakeStats(stakes: Stakes, overrides: Stakes) returns (s: Stats)
    ensures Summarizes(Present(stakes, overrides), s)
  {
    hide Summarizes, Positive, Present;
    var base := stakes - overrides.Keys;
    var seen;
    assert Summarizes(map[], Stats(0, 0, 0)) by { NothingSummarized(); }
    s, seen := Accumulate(base, map[], Stats(0, 0, 0), false);
    PresentParts(stakes, overrides);
    s, seen := Accumulate(overrides, map[] + Positive(base), s, seen);
  }

  lemma NothingSummarized()
    ensures Summarizes(map[], Stats(0, 0, 0))
  {
  }

  lemma PresentParts(stakes: Stakes, overrides: Stakes)
    ensures var base := map[] + Positive(stakes - overrides.Keys);
            overrides.Keys !! base.Keys && base + Positive(overrides) == Present(stakes, overrides)
  {
    var base := map[] + Positive(stakes - overrides.Keys);
    var all := base + Positive(overrides);
    assert forall k :: k in all <==> k in Present(stakes, overrides);
  }

  class StakedNodes {
    var stakes: Stakes
    var overrides: Stakes
    var totalStake: nat
    var minStake: nat
    var maxStake: nat

    /** The aggregates are those of the lookups. */
    ghost predicate Valid()
      reads this
    {
      Summarizes(Present(stakes, overrides), Stats(totalStake, minStake, maxStake))
    }

    constructor (stakes: Stakes, overrides: Stakes)
      ensures Valid() && this.stakes == stakes && this.overrides == overrides
    {
      var s := CalculateStakeStats(stakes, overrides);
      this.stakes, this.overrides := stakes, overrides;
      totalStake, minStake, maxStake := s.total, s.min, s.max;
    }

    method UpdateStakeMap(stakes: Stakes)
      modifies this
      ensures Valid() && this.stakes == stakes && overrides == old(overrides)
    {
      var s := CalculateStakeStats(stakes, overrides);
      totalStake, minStake, maxStake := s.total, s.min, s.max;
      this.stakes := stakes;
    }
  }

  lemma PresentIsPositive(stakes: Stakes, overrides: Stakes)
    ensures Present(stakes, overrides) == Positive(Known(stakes, overrides))
    ensures forall k :: k in Present(stakes, overrides) <==> GetNodeStake(stakes, overrides, k).Some?
    ensures forall k, v :: (k in Present(stakes, overrides) && Present(stakes, overrides)[k] == v) <==>
                           GetNodeStake(stakes, overrides, k) == Some(v)
  {
  }

  /** The total is the sum of all lookups, exactly when that fits 64 bits. */
  lemma TotalAgrees(stakes: Stakes, overrides: Stakes, s: Stats)
    requires Summarizes(Present(stakes, overrides), s)
    ensures s.total == Sum(Known(stakes, overrides)) <==> Sum(Known(stakes, overrides)) <= U64_MAX
  {
    hide Present, Positive, Known, Sum;
    PresentIsPositive(stakes, overrides);
    PositiveSum(Known(stakes, overrides));
  }

  /** The extremes are the least and greatest lookups, or zero when there are none. */
  lemma ExtremesAgree(stakes: Stakes, overrides: Stakes, s: Stats)
    requires Summarizes(Present(stakes, overrides), s)
    ensures if exists k :: GetNodeStake(stakes, overrides, k).Some? then
              && (exists k :: GetNodeStake(stakes, overrides, k) == Some(s.min))
              && (exists k :: GetNodeStake(stakes, overrides, k) == Some(s.max))
              && (forall k, v :: GetNodeStake(stakes, overrides, k) == Some(v) ==> s.min <= v <= s.max)
            else s.min == 0 && s.max == 0
  {
    hide Present, Positive, Known, Sum, GetNodeStake;
    PresentIsPositive(stakes, overrides);
    var m := Present(stakes, overrides);
    if m != map[] {
      var a :| a in m && m[a] == s.min;
      var b :| b in m && m[b] == s.max;
      assert GetNodeStake(stakes, overrides, a) == Some(s.min) && GetNodeStake(stakes, overrides, b) == Some(s.max);
    }
  }
}

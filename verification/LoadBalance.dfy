/**
 * The load-balancing group: a moving average of response times per resolver,
 * inflated by failures and seeded anew by the next success, and a weighted
 * choice among the resolvers not tried yet. Averages are real numbers of
 * microseconds, durations integers of nanoseconds.
 */
module LoadBalance {
  const INITIAL_RTT := 100_000.0
  const MIN_SAMPLE := 1_000
  const MIN_WEIGHT_RTT := 1_000.0
  const THRESHOLD := 2
  const EXPLORATION := 0.05
  const MAX_INT32 := 0x7fff_ffff

  datatype Stats = Stats(ema: real, count: nat, fails: int, inflated: bool)

  const NEW := Stats(0.0, 0, 0, false)

  /** A duration in whole microseconds, at least one. */
  function Sample(d: int): (us: real)
    ensures us >= 1.0
  {
    ((if d < MIN_SAMPLE then MIN_SAMPLE else d) / 1000) as real
  }

  function Blend(us: real, ema: real): real
  {
    0.1 * us + 0.9 * ema
  }

  function Max(a: real, b: real): real
  {
    if a > b then a else b
  }

  /** A 32-bit counter. */
  function Inc32(n: int): int
  {
    if n == MAX_INT32 then -MAX_INT32 - 1 else n + 1
  }

  // ----- one resolver's statistics -----

  function OnSuccess(s: Stats, d: int): Stats
  {
    var us := Sample(d);
    Stats(if s.count == 0 || s.inflated then us else Blend(us, s.ema), s.count + 1, 0, false)
  }

  predicate Penalized(penalty: int, s: Stats)
  {
    penalty > 0 && Inc32(s.fails) >= THRESHOLD
  }

  function OnFailure(penalty: int, s: Stats, elapsed: int): Stats
  {
    var us := Sample(if Penalized(penalty, s) then penalty else elapsed);
    var s' := s.(count := s.count + 1, fails := Inc32(s.fails));
    if s.count == 0 then s'.(ema := Max(us, INITIAL_RTT), inflated := true)
    else if Penalized(penalty, s) || Blend(us, s.ema) > s.ema then s'.(ema := Blend(us, s.ema), inflated := true)
    else s'
  }

  function Weight(s: Stats): real
  {
    if s.count > 0 && s.ema > 0.0 then INITIAL_RTT / Max(s.ema, MIN_WEIGHT_RTT) else 1.0
  }

  datatype Outcome = Outcome(ok: bool, elapsed: int)

  function Update(penalty: int, s: Stats, o: Outcome): Stats
  {
    if o.ok then OnSuccess(s, o.elapsed) else OnFailure(penalty, s, o.elapsed)
  }

  function Run(penalty: int, events: seq<Outcome>): Stats
  {
    if events == [] then NEW else Update(penalty, Run(penalty, events[..|events| - 1]), events[|events| - 1])
  }

  /** After every run, the average is that of at least one sample. */
  lemma {:induction false} RunPositive(penalty: int, events: seq<Outcome>)
    ensures Run(penalty, events).count == |events|
    ensures events != [] ==> Run(penalty, events).ema >= 1.0
  {
    hide Sample;
    if events == [] {
    } else {
      RunPositive(penalty, events[..|events| - 1]);
    }
  }

  /** A weight is never zero, and never more than a hundred times that of an unknown resolver. */
  lemma WeightBounds(s: Stats)
    ensures 0.0 < Weight(s) <= 100.0
  {
    if s.count > 0 && s.ema > 0.0 {
      var m := Max(s.ema, MIN_WEIGHT_RTT);
      assert INITIAL_RTT <= 100.0 * m;
      QuotientBound(INITIAL_RTT, m, 100.0);
    }
  }

  lemma QuotientBound(a: real, m: real, c: real)
    requires a > 0.0 && m > 0.0 && a <= c * m
    ensures 0.0 < a / m <= c
  {
    var q := a / m;
    assert q * m == a;
    assert q > c ==> q * m > c * m;
  }

  /** A slower average never weighs more. */
  lemma WeightMonotone(s: Stats, s': Stats)
    requires s.count > 0 && s'.count > 0 && 0.0 < s.ema <= s'.ema
    ensures Weight(s') <= Weight(s)
  {
    var m, m' := Max(s.ema, MIN_WEIGHT_RTT), Max(s'.ema, MIN_WEIGHT_RTT);
    var q := INITIAL_RTT / m;
    assert q * m == INITIAL_RTT && m <= m';
    assert q > 0.0 by { QuotientBound(INITIAL_RTT, m, 100.0); }
    assert INITIAL_RTT <= q * m';
    QuotientBound(INITIAL_RTT, m', q);
  }

  /** A failure lowers a known average exactly when it is penalised with less than that average. */
  lemma FailureRaisesIff(penalty: int, s: Stats, elapsed: int)
    requires s.count > 0
    ensures OnFailure(penalty, s, elapsed).ema >= s.ema <==> !(Penalized(penalty, s) && Sample(penalty) < s.ema)
  {
    hide Sample;
  }

  /** Such runs exist: after one answer in half a second, two failures under a penalty of a tenth lower the average. */
  lemma PenaltyCanLower()
    ensures
      var events := [Outcome(true, 500_000_000), Outcome(false, 1_000_000), Outcome(false, 1_000_000)];
      var before, after := Run(100_000_000, events[..2]), Run(100_000_000, events);
      before.ema == 500_000.0 && after.ema == 460_000.0 && after.inflated
  {
    var p := 100_000_000;
    var ok, failed := Outcome(true, 500_000_000), Outcome(false, 1_000_000);
    var events := [ok, failed, failed];
    assert events[..2] == [ok, failed] && [ok, failed][..1] == [ok] && [ok][..0] == [];
    assert Sample(500_000_000) == 500_000.0 && Sample(1_000_000) == 1_000.0 && Sample(p) == 100_000.0;
    assert Run(p, [ok]) == OnSuccess(NEW, 500_000_000) == Stats(500_000.0, 1, 0, false);
    assert Run(p, [ok, failed]) == Stats(500_000.0, 2, 1, false);
    assert Run(p, events) == OnFailure(p, Stats(500_000.0, 2, 1, false), 1_000_000);
  }

  /** A first failure gives no advantage over a resolver nothing is known of. */
  lemma FirstFailure(penalty: int, elapsed: int)
    ensures Weight(OnFailure(penalty, NEW, elapsed)) <= Weight(NEW)
  {
    hide Sample;
    var s := OnFailure(penalty, NEW, elapsed);
    assert s.ema >= INITIAL_RTT;
    QuotientBound(INITIAL_RTT, Max(s.ema, MIN_WEIGHT_RTT), 1.0);
  }

  // ----- what the flag means -----

  /** The samples of the successes of a run. */
  function Successes(events: seq<Outcome>): seq<real>
  {
    if events == [] then []
    else
      var e := events[|events| - 1];
      Successes(events[..|events| - 1]) + if e.ok then [Sample(e.elapsed)] else []
  }

  /** The moving average of some samples, the first one being its seed. */
  function Average(xs: seq<real>): real
    requires xs != []
  {
    if |xs| == 1 then xs[0] else Blend(xs[|xs| - 1], Average(xs[..|xs| - 1]))
  }

  /** Unless it is flagged, the average is that of the latest successes alone, failures left out. */
  lemma {:induction false} UnflaggedIsAverage(penalty: int, events: seq<Outcome>) returns (k: nat)
    requires events != [] && !Run(penalty, events).inflated
    ensures k < |Successes(events)| && Run(penalty, events).ema == Average(Successes(events)[k..])
  {
    hide Sample;
    var front, e := events[..|events| - 1], events[|events| - 1];
    var s := Run(penalty, front);
    RunPositive(penalty, front);
    var xs := Successes(front);
    if e.ok {
      var us := Sample(e.elapsed);
      if s.count == 0 || s.inflated {
        k := |xs|;
        assert Successes(events)[k..] == [us];
      } else {
        k := UnflaggedIsAverage(penalty, front);
        AverageSnoc(xs[k..], us);
        assert Successes(events)[k..] == xs[k..] + [us];
      }
    } else {
      k := UnflaggedIsAverage(penalty, front);
      assert Successes(events) == xs;
    }
  }

  lemma AverageSnoc(xs: seq<real>, us: real)
    requires xs != []
    ensures Average(xs + [us]) == Blend(us, Average(xs))
  {
    assert (xs + [us])[..|xs|] == xs;
  }

  /** So it lies within the range of what was measured. */
  lemma UnflaggedWithin(penalty: int, events: seq<Outcome>, lo: real, hi: real)
    requires events != [] && !Run(penalty, events).inflated
    requires forall i :: 0 <= i < |Successes(events)| ==> lo <= Successes(events)[i] <= hi
    ensures lo <= Run(penalty, events).ema <= hi
  {
    hide Run, Successes;
    var k := UnflaggedIsAverage(penalty, events);
    AverageWithin(Successes(events)[k..], lo, hi);
  }

  lemma {:induction false} AverageWithin(xs: seq<real>, lo: real, hi: real)
    requires xs != [] && forall i :: 0 <= i < |xs| ==> lo <= xs[i] <= hi
    ensures lo <= Average(xs) <= hi
  {
    if |xs| <= 1 {
    } else {
      AverageWithin(xs[..|xs| - 1], lo, hi);
    }
  }

  // ----- picking -----

  function Sum(ws: seq<real>): real
  {
    if ws == [] then 0.0 else Sum(ws[..|ws| - 1]) + ws[|ws| - 1]
  }

  lemma SumSnoc(ws: seq<real>, i: nat)
    requires i < |ws|
    ensures Sum(ws[..i + 1]) == Sum(ws[..i]) + ws[i]
  {
    assert ws[..i + 1][..i] == ws[..i];
  }

  lemma NoSum(ws: seq<real>)
    ensures Sum(ws[..0]) == 0.0
  {
  }

  /** The draw falls into a position's share of the total. */
  ghost predicate Drawn(ws: seq<real>, at: real, i: nat)
  {
    i < |ws| && at <= Sum(ws[..i + 1]) && (i == 0 || Sum(ws[..i]) < at)
  }

  lemma {:induction false} SumMonotone(ws: seq<real>, i: nat, j: nat)
    requires i <= j <= |ws| && forall k :: 0 <= k < |ws| ==> ws[k] > 0.0
    ensures Sum(ws[..i]) <= Sum(ws[..j])
  {
    if i >= j {
    } else {
      SumMonotone(ws, i, j - 1);
      SumSnoc(ws, j - 1);
    }
  }

  /** Shares do not overlap, so the draw decides. */
  lemma DrawnUnique(ws: seq<real>, at: real, i: nat, j: nat)
    requires (forall k :: 0 <= k < |ws| ==> ws[k] > 0.0) && Drawn(ws, at, i) && Drawn(ws, at, j)
    ensures i == j
  {
    if i < j {
      SumMonotone(ws, i + 1, j);
    } else if j < i {
      SumMonotone(ws, j + 1, i);
    }
  }

  /** The three random numbers of one pick, each at least zero and less than one. */
  datatype Draws = Draws(explore: real, uniform: real, weighted: real)

  predicate DrawsOk(d: Draws)
  {
    0.0 <= d.explore < 1.0 && 0.0 <= d.uniform < 1.0 && 0.0 <= d.weighted < 1.0
  }

  ghost function Weights(stats: seq<Stats>, remaining: seq<nat>): seq<real>
    requires forall i :: 0 <= i < |remaining| ==> remaining[i] < |stats|
  {
    seq(|remaining|, i requires 0 <= i < |remaining| => Weight(stats[remaining[i]]))
  }

  /** The last element takes the place of the one taken out. */
  function SwapRemove(xs: seq<nat>, pos: nat): seq<nat>
    requires pos < |xs|
  {
    xs[pos := xs[|xs| - 1]][..|xs| - 1]
  }

  lemma SwapRemoved(xs: seq<nat>, pos: nat)
    requires pos < |xs| && forall i, j :: 0 <= i < j < |xs| ==> xs[i] != xs[j]
    ensures
      var ys := SwapRemove(xs, pos);
      && |ys| == |xs| - 1
      && (forall i, j :: 0 <= i < j < |ys| ==> ys[i] != ys[j])
      && (forall x :: x in ys <==> x in xs && x != xs[pos])
  {
    var ys := SwapRemove(xs, pos);
    forall x | x in xs && x != xs[pos] ensures x in ys {
      var i :| 0 <= i < |xs| && xs[i] == x;
      assert ys[if i == |xs| - 1 then pos else i] == x;
    }
  }

  class Group {
    const penalty: int
    const stats: array<Stats>

    constructor (penalty: int, n: nat)
      ensures this.penalty == penalty && stats.Length == n && fresh(stats)
      ensures forall i :: 0 <= i < n ==> stats[i] == NEW
    {
      this.penalty := penalty;
      stats := new Stats[n](_ => NEW);
    }

    /** pick: now and then any position alike, otherwise the one whose share the draw falls into. */
    method Pick(remaining: seq<nat>, d: Draws) returns (pos: nat)
      requires remaining != [] && DrawsOk(d) && forall i :: 0 <= i < |remaining| ==> remaining[i] < stats.Length
      ensures pos < |remaining|
      ensures d.explore < EXPLORATION ==> pos == (d.uniform * |remaining| as real).Floor
      ensures d.explore >= EXPLORATION ==>
                var ws := Weights(stats[..], remaining); Drawn(ws, Share(d.weighted, Sum(ws)), pos)
    {
      hide Weight, Sum, Share;
      if d.explore < EXPLORATION {
        FloorBound(d.uniform, |remaining|);
        return (d.uniform * |remaining| as real).Floor;
      }
      ghost var ws := Weights(stats[..], remaining);
      var weights: seq<real> := [];
      var total := 0.0;
      assert Sum(ws[..0]) == 0.0 by { NoSum(ws); }
      for i := 0 to |remaining|
        invariant weights == ws[..i] && total == Sum(ws[..i])
      {
        var weight := Weight(stats[remaining[i]]);
        SumSnoc(ws, i);
        weights := weights + [weight];
        total := total + weight;
      }
      assert weights == ws && total == Sum(ws);
      forall k | 0 <= k < |ws| ensures ws[k] > 0.0 {
        WeightBounds(stats[remaining[k]]);
      }
      SumMonotone(ws, 0, |ws|);
      NoSum(ws);
      assert ws[..|ws|] == ws;
      ShareBound(d.weighted, total);
      pos := Select(weights, Share(d.weighted, total));
    }

    method UpdateOnSuccess(idx: nat, d: int)
      requires idx < stats.Length
      modifies stats
      ensures stats[..] == old(stats[..])[idx := OnSuccess(old(stats[idx]), d)]
    {
      var us := ((if d < MIN_SAMPLE then MIN_SAMPLE else d) / 1000) as real;
      var s := stats[idx];
      var ema := if s.count == 0 || s.inflated then us else 0.1 * us + 0.9 * s.ema;
      stats[idx] := Stats(ema, s.count + 1, 0, false);
    }

    method UpdateOnFailure(idx: nat, elapsed: int) returns (penalized: bool)
      requires idx < stats.Length
      modifies stats
      ensures stats[..] == old(stats[..])[idx := OnFailure(penalty, old(stats[idx]), elapsed)]
      ensures penalized == Penalized(penalty, old(stats[idx]))
    {
      var s := stats[idx];
      s := s.(fails := Inc32(s.fails));
      penalized := penalty > 0 && s.fails >= THRESHOLD;
      var d := elapsed;
      if penalized {
        d := penalty;
      }
      if d < MIN_SAMPLE {
        d := MIN_SAMPLE;
      }
      var us := (d / 1000) as real;
      if s.count == 0 {
        s := s.(ema := Max(us, INITIAL_RTT), inflated := true);
      } else {
        var newEma := 0.1 * us + 0.9 * s.ema;
        if penalized || newEma > s.ema {
          s := s.(ema := newEma, inflated := true);
        }
      }
      stats[idx] := s.(count := s.count + 1);
    }

    /**
     * Resolve: tries resolvers until one succeeds, none of them twice. Gives the
     * resolvers in the order tried; the last one's reply is the group's.
     */
    method Resolve(outcomes: seq<Outcome>, draws: seq<Draws>) returns (tried: seq<nat>, ok: bool)
      requires |outcomes| == |draws| == stats.Length && forall i :: 0 <= i < |draws| ==> DrawsOk(draws[i])
      modifies stats
      ensures forall i :: 0 <= i < |tried| ==> tried[i] < |outcomes|
      ensures forall i, j :: 0 <= i < j < |tried| ==> tried[i] != tried[j]
      ensures forall i :: 0 <= i < |tried| ==> (outcomes[tried[i]].ok <==> ok && i == |tried| - 1)
      ensures ok ==> tried != []
      ensures !ok ==> forall r :: 0 <= r < |outcomes| ==> r in tried
      ensures forall r :: 0 <= r < |outcomes| ==>
                stats[r] == if r in tried then Update(penalty, old(stats[r]), outcomes[r]) else old(stats[r])
    {
      hide OnSuccess, OnFailure, Weights, Drawn;
      var remaining: seq<nat> := seq(|outcomes|, i => i);
      tried, ok := [], false;
      forall r | 0 <= r < |outcomes| ensures r in remaining {
        assert remaining[r] == r;
      }
      while |remaining| > 0
        invariant |tried| + |remaining| == |outcomes| && !ok
        invariant forall r :: 0 <= r < |outcomes| ==> (r in tried <==> r !in remaining)
        invariant forall r :: r in remaining ==> r < |outcomes|
        invariant forall i, j :: 0 <= i < j < |remaining| ==> remaining[i] != remaining[j]
        invariant forall i :: 0 <= i < |tried| ==> tried[i] < |outcomes| && !outcomes[tried[i]].ok
        invariant forall i, j :: 0 <= i < j < |tried| ==> tried[i] != tried[j]
        invariant forall r :: 0 <= r < |outcomes| ==>
                    stats[r] == if r in tried then Update(penalty, old(stats[r]), outcomes[r]) else old(stats[r])
        decreases |remaining|
      {
        assert forall i :: 0 <= i < |remaining| ==> remaining[i] in remaining;
        var pos := Pick(remaining, draws[|tried|]);
        var idx := remaining[pos];
        var o := outcomes[idx];
        if o.ok {
          UpdateOnSuccess(idx, o.elapsed);
          tried, ok := tried + [idx], true;
          return;
        }
        var _ := UpdateOnFailure(idx, o.elapsed);
        tried := tried + [idx];
        SwapRemoved(remaining, pos);
        remaining := SwapRemove(remaining, pos);
      }
    }
  }

  /** The second loop of pick. */
  method Select(weights: seq<real>, at: real) returns (pos: nat)
    requires weights != [] && at <= Sum(weights)
    ensures Drawn(weights, at, pos)
  {
    hide Sum;
    NoSum(weights);
    assert weights[..|weights|] == weights;
    pos := |weights| - 1;
    var selected := at;
    for i := 0 to |weights|
      invariant selected == at - Sum(weights[..i])
      invariant i > 0 ==> selected > 0.0
    {
      SumSnoc(weights, i);
      selected := selected - weights[i];
      if selected <= 0.0 {
        return i;
      }
    }
    assert false;
  }

  /** Where in the total a random number falls. */
  function Share(x: real, total: real): real
  {
    x * total
  }

  lemma MulMonotone(x: real, y: real, m: real)
    requires x <= y && m >= 0.0
    ensures x * m <= y * m
  {
  }

  lemma ShareBound(x: real, total: real)
    requires 0.0 <= x < 1.0 && total >= 0.0
    ensures Share(x, total) <= total
  {
    MulMonotone(x, 1.0, total);
  }

  lemma FloorBound(x: real, n: nat)
    requires 0.0 <= x < 1.0 && n > 0
    ensures 0 <= (x * n as real).Floor < n
  {
    assert 0.0 <= x * n as real < n as real;
  }
}

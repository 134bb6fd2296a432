/** Nearest-rank percentiles of the query latencies, with exact arithmetic. */
module Percentiles {

  function Ceil(x: real): int {
    -((-x).Floor)
  }

  function Max(a: int, b: int): int {
    if a < b then b else a
  }

  function Min(a: int, b: int): int {
    if a < b then a else b
  }

  function Rank(n: nat, pct: real): real {
    n as real * pct / 100.0
  }

  function Percentile(data: seq<int>, pct: real): int
    requires data != []
  {
    var idx := Max(0, Ceil(Rank(|data|, pct)) - 1);
    data[Min(idx, |data| - 1)]
  }

  datatype Latencies = Latencies(p50: int, p95: int, p99: int)

  /** `vals` is what the query returns, ordered by latency. */
  function LatencyPercentiles(vals: seq<int>): Latencies {
    if vals == [] then Latencies(0, 0, 0)
    else Latencies(Percentile(vals, 50.0), Percentile(vals, 95.0), Percentile(vals, 99.0))
  }

  predicate Sorted(data: seq<int>) {
    forall i, j :: 0 <= i < j < |data| ==> data[i] <= data[j]
  }

  function CountAtMost(data: seq<int>, v: int): nat {
    if data == [] then 0 else (if data[0] <= v then 1 else 0) + CountAtMost(data[1..], v)
  }

  function CountBelow(data: seq<int>, v: int): nat {
    CountAtMost(data, v - 1)
  }

  /** In a sorted list, the number of values at most `v` is the index at which they end. */
  lemma {:induction false} CountIsIndex(data: seq<int>, v: int, k: nat)
    requires Sorted(data) && k <= |data|
    ensures (forall i :: 0 <= i < k ==> data[i] <= v) ==> k <= CountAtMost(data, v)
    ensures (forall i :: k <= i < |data| ==> v < data[i]) ==> CountAtMost(data, v) <= k
    ensures CountAtMost(data, v) <= |data|
  {
    if data != [] {
      CountIsIndex(data[1..], v, if k == 0 then 0 else k - 1);
      assert k > 0 ==> forall i :: 0 <= i < |data| - 1 ==> data[1..][i] == data[i + 1];
    }
  }

  lemma {:induction false} CountMonotone(data: seq<int>, v: int, w: int)
    requires v <= w
    ensures CountAtMost(data, v) <= CountAtMost(data, w)
  {
    if data != [] {
      CountMonotone(data[1..], v, w);
    }
  }

  /** A value of the list that has at least `rank` values at or below it and fewer strictly below it. */
  predicate HasRank(data: seq<int>, v: int, rank: real) {
    v in data && rank <= CountAtMost(data, v) as real && (CountBelow(data, v) as real) < rank
  }

  lemma RankWithin(n: nat, pct: real)
    requires 0 < n && 0.0 < pct <= 100.0
    ensures 1 <= Ceil(Rank(n, pct)) <= n
  {
    assert 0.0 < n as real * pct <= n as real * 100.0;
  }

  lemma PercentileHasRank(data: seq<int>, pct: real)
    requires Sorted(data) && data != [] && 0.0 < pct <= 100.0
    ensures HasRank(data, Percentile(data, pct), Rank(|data|, pct))
  {
    var k := Ceil(Rank(|data|, pct)) - 1;
    RankWithin(|data|, pct);
    hide Rank;
    var p := data[k];
    CountIsIndex(data, p, k + 1);
    CountIsIndex(data, p - 1, k);
  }

  lemma RankUnique(data: seq<int>, v: int, w: int, rank: real)
    requires HasRank(data, v, rank) && HasRank(data, w, rank)
    ensures v == w
  {
    if v < w {
      CountMonotone(data, v, w - 1);
    } else if w < v {
      CountMonotone(data, w, v - 1);
    }
  }

  /** The percentile is the one value of that rank. */
  lemma NearestRank(data: seq<int>, pct: real, v: int)
    requires Sorted(data) && data != [] && 0.0 < pct <= 100.0
    ensures v == Percentile(data, pct) <==>
      && v in data && |data| as real * pct / 100.0 <= CountAtMost(data, v) as real
      && CountAtMost(data, v - 1) as real < |data| as real * pct / 100.0
  {
    hide Percentile;
    PercentileHasRank(data, pct);
    if HasRank(data, v, Rank(|data|, pct)) {
      RankUnique(data, v, Percentile(data, pct), Rank(|data|, pct));
    }
  }

  /** The three reported values have the ranks of 50, 95 and 99 percent; without any query they are zero. */
  lemma LatencyRanks(vals: seq<int>)
    requires Sorted(vals)
    ensures vals == [] ==> LatencyPercentiles(vals) == Latencies(0, 0, 0)
    ensures vals != [] ==>
      var l, n := LatencyPercentiles(vals), |vals| as real;
      HasRank(vals, l.p50, n * 0.5) && HasRank(vals, l.p95, n * 0.95) && HasRank(vals, l.p99, n * 0.99)
  {
    if vals != [] {
      PercentileHasRank(vals, 50.0);
      PercentileHasRank(vals, 95.0);
      PercentileHasRank(vals, 99.0);
      assert Rank(|vals|, 50.0) == |vals| as real * 0.5;
      assert Rank(|vals|, 95.0) == |vals| as real * 0.95;
      assert Rank(|vals|, 99.0) == |vals| as real * 0.99;
      hide HasRank, Percentile, Rank;
    }
  }

  lemma PercentileMonotone(data: seq<int>, low: real, high: real)
    requires Sorted(data) && data != [] && low <= high
    ensures Percentile(data, low) <= Percentile(data, high)
  {
    assert |data| as real * low <= |data| as real * high;
    assert Rank(|data|, low) <= Rank(|data|, high);
  }

  lemma LatenciesOrdered(vals: seq<int>)
    requires Sorted(vals)
    ensures var l := LatencyPercentiles(vals); l.p50 <= l.p95 <= l.p99
  {
    if vals != [] {
      PercentileMonotone(vals, 50.0, 95.0);
      PercentileMonotone(vals, 95.0, 99.0);
    }
  }
}

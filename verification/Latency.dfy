/** Ingest latency percentiles of apps/root-task/src/observe.rs: a ring of recent samples and its order statistics. */
module Latency {

  const U32_MAX: nat := 0xFFFF_FFFF

  function Back(s: seq<nat>, n: nat): seq<nat> {
    if |s| <= n then s else s[|s| - n..]
  }

  // ----- sorting -----

  function Inserted(x: nat, s: seq<nat>): (r: seq<nat>)
    ensures |r| == |s| + 1
    decreases |s|
  {
    if s == [] || x <= s[0] then [x] + s else [s[0]] + Inserted(x, s[1..])
  }

  function Sorted(s: seq<nat>): (r: seq<nat>)
    ensures |r| == |s|
    decreases |s|
  {
    if s == [] then [] else Inserted(s[0], Sorted(s[1..]))
  }

  predicate Ascending(s: seq<nat>) {
    forall i, j :: 0 <= i <= j < |s| ==> s[i] <= s[j]
  }

  lemma {:induction false} InsertedAscends(x: nat, s: seq<nat>)
    requires Ascending(s)
    ensures Ascending(Inserted(x, s))
    ensures Inserted(x, s)[0] == x || (s != [] && Inserted(x, s)[0] == s[0])
    decreases |s|
  {
    if s != [] && x > s[0] {
      InsertedAscends(x, s[1..]);
    }
  }

  lemma {:induction false} SortedAscends(s: seq<nat>)
    ensures Ascending(Sorted(s))
    decreases |s|
  {
    if s != [] {
      SortedAscends(s[1..]);
      InsertedAscends(s[0], Sorted(s[1..]));
    }
  }

  lemma {:induction false} InsertedElements(x: nat, s: seq<nat>)
    ensures multiset(Inserted(x, s)) == multiset(s) + multiset{x}
    decreases |s|
  {
    if s != [] && x > s[0] {
      InsertedElements(x, s[1..]);
      assert s == [s[0]] + s[1..];
    }
  }

  lemma {:induction false} SortedElements(s: seq<nat>)
    ensures multiset(Sorted(s)) == multiset(s)
    decreases |s|
  {
    if s != [] {
      SortedElements(s[1..]);
      InsertedElements(s[0], Sorted(s[1..]));
      assert s == [s[0]] + s[1..];
    }
  }

  // ----- order statistics -----

  /** How many samples are below a bound. */
  function Below(s: seq<nat>, bound: nat): nat
    decreases |s|
  {
    if s == [] then 0 else (if s[0] < bound then 1 else 0) + Below(s[1..], bound)
  }

  /** `v` is the sample of rank `k`: at most `k` samples are below it and more than `k` are at most it. */
  predicate HasRank(s: seq<nat>, k: nat, v: nat) {
    Below(s, v) <= k < Below(s, v + 1)
  }

  lemma {:induction false} BelowMonotone(s: seq<nat>, a: nat, b: nat)
    requires a <= b
    ensures Below(s, a) <= Below(s, b) <= |s|
    decreases |s|
  {
    if s != [] {
      BelowMonotone(s[1..], a, b);
    }
  }

  /** No two values have the same rank, and ranks order values. */
  lemma {:induction false} RankOrders(s: seq<nat>, j: nat, v: nat, k: nat, w: nat)
    requires HasRank(s, j, v) && HasRank(s, k, w) && j <= k
    ensures v <= w
  {
    if v > w {
      BelowMonotone(s, w + 1, v);
    }
  }

  lemma {:induction false} InsertedBelow(x: nat, s: seq<nat>, bound: nat)
    ensures Below(Inserted(x, s), bound) == Below(s, bound) + if x < bound then 1 else 0
    decreases |s|
  {
    if s == [] || x <= s[0] {
      assert ([x] + s)[1..] == s;
    } else {
      InsertedBelow(x, s[1..], bound);
      assert ([s[0]] + Inserted(x, s[1..]))[1..] == Inserted(x, s[1..]);
    }
  }

  lemma {:induction false} SortedBelow(s: seq<nat>, bound: nat)
    ensures Below(Sorted(s), bound) == Below(s, bound)
    decreases |s|
  {
    if s != [] {
      SortedBelow(s[1..], bound);
      InsertedBelow(s[0], Sorted(s[1..]), bound);
    }
  }

  lemma {:induction false} NoneBelow(s: seq<nat>, bound: nat)
    requires Ascending(s) && (s == [] || bound <= s[0])
    ensures Below(s, bound) == 0
    decreases |s|
  {
    if s != [] {
      NoneBelow(s[1..], bound);
    }
  }

  lemma {:induction false} RankInAscending(s: seq<nat>, k: nat)
    requires Ascending(s) && k < |s|
    ensures HasRank(s, k, s[k])
    decreases |s|
  {
    if k == 0 {
      NoneBelow(s, s[0]);
    } else {
      RankInAscending(s[1..], k - 1);
      assert s[1..][k - 1] == s[k] && s[0] <= s[k];
    }
  }

  // ----- percentiles -----

  function Index(count: nat, pct: nat): nat
    requires count > 0
  {
    (count - 1) * pct / 100
  }

  /** The percentile of the most recent `capacity` samples. */
  function Percentile(history: seq<nat>, capacity: nat, pct: nat): nat {
    var recent := Back(history, capacity);
    if recent == [] then 0
    else
      var idx := Index(|recent|, pct);
      if idx < |recent| then Sorted(recent)[idx] else 0
  }

  lemma {:induction false} IndexInRange(count: nat, pct: nat)
    requires count > 0 && pct <= 100
    ensures Index(count, pct) < count
  {
    Product(count - 1, pct, 100);
  }

  lemma {:induction false} Product(a: nat, b: nat, c: nat)
    requires b <= c
    ensures a * b <= a * c
    decreases a
  {
    if a > 0 {
      Product(a - 1, b, c);
      assert a * b == (a - 1) * b + b && a * c == (a - 1) * c + c;
    }
  }

  lemma {:induction false} IndexMonotone(count: nat, p: nat, q: nat)
    requires count > 0 && p <= q
    ensures Index(count, p) <= Index(count, q)
  {
    Product(count - 1, p, q);
  }

  /** Up to 100, a percentile is the recent sample whose rank is its index, whatever order the ring holds them in. */
  lemma {:induction false} PercentileHasRank(history: seq<nat>, capacity: nat, pct: nat)
    requires history != [] && capacity > 0 && pct <= 100
    ensures var recent := Back(history, capacity);
            && recent != []
            && HasRank(recent, (|recent| - 1) * pct / 100, Percentile(history, capacity, pct))
            && Percentile(history, capacity, pct) in recent
  {
    var recent := Back(history, capacity);
    var idx := Index(|recent|, pct);
    IndexInRange(|recent|, pct);
    hide Index, Sorted, Below;
    var sorted := Sorted(recent);
    RankInSorted(recent, idx);
    SortedElements(recent);
    assert sorted[idx] in multiset(sorted);
  }

  /** Without samples, and past the last of them, the answer is 0. */
  lemma {:induction false} PercentileOutside(history: seq<nat>, capacity: nat, pct: nat)
    ensures var count := |Back(history, capacity)|;
            count == 0 || (count - 1) * pct / 100 >= count ==> Percentile(history, capacity, pct) == 0
  {
    hide Sorted;
  }

  /** Percentiles do not decrease: in particular the 50th is at most the 95th. */
  lemma {:induction false} PercentileMonotone(history: seq<nat>, capacity: nat, p: nat, q: nat)
    requires p <= q <= 100
    ensures Percentile(history, capacity, p) <= Percentile(history, capacity, q)
  {
    if history != [] && capacity > 0 {
      var recent := Back(history, capacity);
      PercentileHasRank(history, capacity, p);
      PercentileHasRank(history, capacity, q);
      IndexMonotone(|recent|, p, q);
      hide Index, Percentile, HasRank;
      RankOrders(recent, Index(|recent|, p), Percentile(history, capacity, p),
                 Index(|recent|, q), Percentile(history, capacity, q));
    }
  }

  // ----- the ring -----

  /** The samples a ring holds, oldest first. */
  function Held(samples: seq<nat>, len: nat, next: nat): seq<nat>
    requires len <= |samples| && next <= |samples|
  {
    if len < |samples| then samples[..len] else samples[next..] + samples[..next]
  }

  lemma {:induction false} BackPush(history: seq<nat>, n: nat, x: nat)
    requires n > 0
    ensures var back := Back(history, n);
            Back(history + [x], n) == if |back| < n then back + [x] else back[1..] + [x]
  {}

  lemma {:induction false} FillStep(samples: seq<nat>, len: nat, x: nat)
    requires len < |samples|
    ensures Held(samples[len := x], len + 1, 0) == Held(samples, len, 0) + [x]
  {
    var samples' := samples[len := x];
    assert samples'[..len + 1] == samples[..len] + [x];
    if len + 1 == |samples| {
      assert samples'[0..] + samples'[..0] == samples'[..len + 1];
    }
  }

  lemma {:induction false} WrapStep(samples: seq<nat>, next: nat, x: nat)
    requires next < |samples|
    ensures Held(samples[next := x], |samples|, (next + 1) % |samples|) == Held(samples, |samples|, next)[1..] + [x]
  {
    var samples' := samples[next := x];
    var before, after := samples[..next], samples[next + 1..];
    assert samples' == before + [x] + after;
    assert Held(samples, |samples|, next)[1..] == after + before;
    if next + 1 < |samples| {
      assert (next + 1) % |samples| == next + 1;
      assert samples'[next + 1..] == after && samples'[..next + 1] == before + [x];
    } else {
      assert (next + 1) % |samples| == 0;
      assert samples'[0..] + samples'[..0] == samples';
      assert after == [];
    }
  }

  lemma {:induction false} BelowConcat(a: seq<nat>, b: seq<nat>, bound: nat)
    ensures Below(a + b, bound) == Below(a, bound) + Below(b, bound)
    decreases |a|
  {
    if a == [] {
      assert a + b == b;
    } else {
      assert (a + b)[1..] == a[1..] + b;
      BelowConcat(a[1..], b, bound);
    }
  }

  lemma {:induction false} HeldBelow(samples: seq<nat>, len: nat, next: nat, bound: nat)
    requires len <= |samples| && next <= |samples|
    ensures Below(Held(samples, len, next), bound) == Below(samples[..len], bound)
  {
    if len == |samples| {
      BelowConcat(samples[next..], samples[..next], bound);
      BelowConcat(samples[..next], samples[next..], bound);
      assert samples[..next] + samples[next..] == samples == samples[..len];
    }
  }

  lemma {:induction false} RankInSorted(s: seq<nat>, k: nat)
    requires k < |s|
    ensures HasRank(s, k, Sorted(s)[k])
  {
    hide Sorted, Below;
    SortedAscends(s);
    RankInAscending(Sorted(s), k);
    SortedBelow(s, Sorted(s)[k]);
    SortedBelow(s, Sorted(s)[k] + 1);
  }

  /** Sorting the ring as it lies in memory gives the recent samples in order. */
  lemma {:induction false} HeldSorted(samples: seq<nat>, len: nat, next: nat, k: nat)
    requires k < len <= |samples| && next <= |samples|
    ensures Sorted(samples[..len])[k] == Sorted(Held(samples, len, next))[k]
  {
    hide Sorted, Below, Held;
    var held, laid := Held(samples, len, next), samples[..len];
    HeldLen(samples, len, next);
    var v, w := Sorted(laid)[k], Sorted(held)[k];
    RankInSorted(laid, k);
    RankInSorted(held, k);
    HeldBelow(samples, len, next, v);
    HeldBelow(samples, len, next, v + 1);
    RankOrders(held, k, v, k, w);
    RankOrders(held, k, w, k, v);
  }

  lemma {:induction false} HeldLen(samples: seq<nat>, len: nat, next: nat)
    requires len <= |samples| && next <= |samples|
    ensures |Held(samples, len, next)| == len
  {}

  class LatencySamples {
    const samples: array<nat>
    var len: nat
    var next: nat
    /** Every sample ever recorded, oldest first. */
    ghost var history: seq<nat>

    /** The ring holds the most recent samples, as many as fit. */
    ghost predicate Valid()
      reads this, samples
    {
      && len <= samples.Length
      && (len < samples.Length ==> next == 0)
      && (if samples.Length == 0 then next == 0 else next < samples.Length)
      && Held(samples[..], len, next) == Back(history, samples.Length)
    }

    constructor (capacity: nat)
      ensures Valid() && samples.Length == capacity && history == [] && fresh(samples)
    {
      samples := new nat[capacity];
      len, next, history := 0, 0, [];
    }

    method Record(sample: nat)
      requires Valid()
      modifies this, samples
      ensures Valid() && history == old(history) + [sample]
    {
      history := history + [sample];
      if samples.Length == 0 {
        return;
      }
      ghost var before := samples[..];
      BackPush(old(history), samples.Length, sample);
      HeldLen(before, len, next);
      hide Held, Back;
      if len < samples.Length {
        FillStep(before, len, sample);
        samples[len] := sample;
        assert samples[..] == before[len := sample];
        len := len + 1;
        if len == samples.Length {
          next := 0;
        }
        return;
      }
      WrapStep(before, next, sample);
      samples[next] := sample;
      assert samples[..] == before[next := sample];
      next := (next + 1) % samples.Length;
    }

    method RecordMs(latencyMs: nat)
      requires Valid()
      modifies this, samples
      ensures Valid() && history == old(history) + [if latencyMs <= U32_MAX then latencyMs else U32_MAX]
    {
      Record(if latencyMs <= U32_MAX then latencyMs else U32_MAX);
    }

    method GetPercentile(pct: nat) returns (r: nat)
      requires Valid()
      ensures r == Percentile(history, samples.Length, pct)
    {
      hide Held, Sorted;
      HeldLen(samples[..], len, next);
      if len == 0 {
        return 0;
      }
      var count := len;
      assert samples[..][..count] == samples[..count];
      var scratch := Sorted(samples[..count]) + seq(samples.Length - count, _ => 0);
      var idx := Index(count, pct);
      hide Index;
      if idx < count {
        HeldSorted(samples[..], len, next, idx);
      }
      return if idx < |scratch| then scratch[idx] else 0;
    }
  }
}

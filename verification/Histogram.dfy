/** The benchmark's log-linear latency histogram: 64 linear sub-buckets per power of two. */
module Histograms {
  import opened Bytes

  const SUB: nat := 64
  const SLOTS: nat := 4096
  const LAST: nat := 4095

  // Magnitudes

  /** The position of the highest set bit. */
  function Mag(v: nat): (m: nat) {
    if v < 2 then 0 else 1 + Mag(v / 2)
  }

  lemma {:induction false} MagBounds(v: nat)
    requires v > 0
    ensures Pow2(Mag(v)) <= v < Pow2(Mag(v) + 1)
  {
    if v >= 2 {
      MagBounds(v / 2);
    }
  }

  lemma {:induction false} Pow2Mono(a: nat, b: nat)
    requires a <= b
    ensures Pow2(a) <= Pow2(b)
  {
    if a < b {
      Pow2Mono(a, b - 1);
    }
  }

  lemma {:induction false} Pow2Add(a: nat, b: nat)
    ensures Pow2(a + b) == Pow2(a) * Pow2(b)
  {
    if a > 0 {
      Pow2Add(a - 1, b);
    }
  }

  lemma MagIs(v: nat, m: nat)
    requires Pow2(m) <= v < Pow2(m + 1)
    ensures Mag(v) == m
  {
    MagBounds(v);
    if Mag(v) < m {
      Pow2Mono(Mag(v) + 1, m);
    } else if Mag(v) > m {
      Pow2Mono(m + 1, Mag(v));
    }
  }

  lemma Pow2Sizes()
    ensures Pow2(1) == 2 && Pow2(6) == 64 && Pow2(7) == 128 && Pow2(63) * 2 == U64 && Pow2(64) == U64
  {
    Pow2Values();
    Pow2Add(32, 32);
    assert Pow2(64) == 2 * Pow2(63);
    assert Pow2(6) == 64 && Pow2(7) == 128;
  }

  /** Shifts left until the top bit is set; 64 for zero. */
  method LeadingZeros64(x: nat) returns (n: nat)
    requires x < U64
    ensures x == 0 ==> n == 64
    ensures x > 0 ==> n == 63 - Mag(x)
  {
    hide Pow2, Mag;
    n := 0;
    if x == 0 {
      return 64;
    }
    Pow2Sizes();
    var y := x;
    MagBounds(x);
    if Mag(x) > 63 {
      Pow2Mono(64, Mag(x));
    }
    while y < Pow2(63)
      invariant n <= 63 && 0 < y < U64 && Pow2(Mag(x) + n) <= y < Pow2(Mag(x) + n + 1) && Mag(x) + n <= 63
      decreases 63 - n
    {
      Pow2Add(1, Mag(x) + n);
      Pow2Add(1, Mag(x) + n + 1);
      y := y * 2;
      n := n + 1;
    }
    if Mag(x) + n < 63 {
      Pow2Mono(Mag(x) + n + 1, 63);
    }
  }

  // Buckets

  /** The bucket of a value. */
  function Index(v: nat): (i: nat) {
    if v < SUB then v
    else
      MagAtLeast(v);
      var shift := Mag(v) - 6;
      var i := (shift + 1) * SUB + (v / Pow2(shift)) % SUB;
      if i >= SLOTS then LAST else i
  }

  /** The value a bucket is reported as; 64-bit arithmetic. */
  function Value(i: nat): (v: nat) {
    if i < SUB then i else (SUB + i % SUB) * Pow2(i / SUB - 1) % U64
  }

  lemma Pow2Grows(a: nat, b: nat)
    ensures a <= b ==> Pow2(a) <= Pow2(b)
  {
    if a <= b {
      Pow2Mono(a, b);
    }
  }

  lemma MagAtLeast(v: nat)
    requires v >= SUB
    ensures Mag(v) >= 6
  {
    MagBounds(v);
    Pow2Sizes();
    Pow2Grows(Mag(v) + 1, 6);
  }

  lemma MagAtMost(v: nat)
    requires 0 < v < U64
    ensures Mag(v) <= 63
  {
    MagBounds(v);
    Pow2Sizes();
    Pow2Grows(64, Mag(v));
  }

  lemma IndexLarge(v: nat, s: nat, q: nat)
    requires v >= SUB && s == Mag(v) - 6 && q == v / Pow2(s) && SUB <= q < 2 * SUB && s <= 57
    ensures Index(v) == s * SUB + q < SLOTS
  {
    hide Pow2, Mag;
    assert q % SUB == q - SUB;
  }

  lemma IndexSmall(v: nat)
    requires v < SUB
    ensures Index(v) == v && Value(v) == v
  {
  }

  /** A large value is q * 2^s plus a remainder, with q between 64 and 127. */
  lemma Split(v: nat) returns (s: nat, q: nat, r: nat)
    requires SUB <= v < U64
    ensures s + 6 == Mag(v) && s <= 57 && SUB <= q < 2 * SUB && r < Pow2(s) && v == q * Pow2(s) + r && q == v / Pow2(s)
    ensures Index(v) == s * SUB + q < SLOTS
  {
    hide Pow2, Mag, Index;
    MagAtLeast(v);
    MagAtMost(v);
    MagBounds(v);
    Pow2Sizes();
    s := Mag(v) - 6;
    Pow2Add(6, s);
    Pow2Add(7, s);
    Quotient(v, Pow2(s), 64);
    q, r := v / Pow2(s), v % Pow2(s);
    IndexLarge(v, s, q);
  }

  lemma Quotient(v: nat, p: nat, n: nat)
    requires p > 0 && n * p <= v < 2 * n * p
    ensures n <= v / p < 2 * n && v == (v / p) * p + v % p
  {
    var q := v / p;
    assert v == q * p + v % p;
    if q < n {
      Times(q + 1, n, p);
    } else if q >= 2 * n {
      Times(2 * n, q, p);
    }
  }

  lemma Times(a: nat, b: nat, p: nat)
    requires a <= b
    ensures a * p <= b * p
  {
    var d := b - a;
    assert b * p == a * p + d * p;
  }

  lemma Below(s: nat, q: nat)
    requires s <= 57 && q <= 128
    ensures q * Pow2(s) <= U64 && (q < 128 ==> q * Pow2(s) < U64)
  {
    hide Pow2;
    Pow2Sizes();
    Pow2Mono(s, 57);
    Pow2Add(7, 57);
    Times(q, 128, Pow2(s));
    if q < 128 {
      Times(q + 1, 128, Pow2(s));
      assert (q + 1) * Pow2(s) == q * Pow2(s) + Pow2(s);
    }
  }

  lemma ValueOfSplit(s: nat, q: nat)
    requires s <= 57 && SUB <= q < 2 * SUB
    ensures Value(s * SUB + q) == q * Pow2(s) < U64
  {
    hide Pow2, Value;
    Places(s, q);
    ValueLarge(s * SUB + q);
    Below(s, q);
    Reduced(q * Pow2(s));
  }

  lemma Places(s: nat, q: nat)
    requires SUB <= q < 2 * SUB
    ensures (s * SUB + q) / SUB == s + 1 && (s * SUB + q) % SUB == q - SUB
  {
  }

  lemma ValueLarge(i: nat)
    requires i >= SUB
    ensures Value(i) == (SUB + i % SUB) * Pow2(i / SUB - 1) % U64
  {
  }

  lemma Reduced(v: nat)
    requires v < U64
    ensures v % U64 == v
  {
  }

  /** The reported value never exceeds the recorded one and is short of it by less than 1/64. */
  lemma BucketError(v: nat)
    requires v < U64
    ensures Index(v) < SLOTS
    ensures var w := Value(Index(v)); w == v || (w <= v && 64 * v < 65 * w)
  {
    if v < SUB {
      IndexSmall(v);
    } else {
      hide Pow2, Mag, Index, Value;
      var s, q, r := Split(v);
      ValueOfSplit(s, q);
      Times(64, q, Pow2(s));
    }
  }

  lemma SplitMonotone(v: nat, w: nat)
    requires SUB <= v <= w < U64
    ensures Index(v) <= Index(w)
  {
    hide Pow2, Mag, Index;
    var t, p, x := Split(w);
    var s, q, r := Split(v);
    MagBounds(v);
    MagBounds(w);
    if s > t {
      Pow2Mono(Mag(w) + 1, Mag(v));
    } else if s == t {
      if q > p {
        Times(p + 1, q, Pow2(s));
      }
    } else {
      assert s * SUB + SUB <= t * SUB;
    }
  }

  /** Larger values never go to smaller buckets. */
  lemma IndexMonotone(v: nat, w: nat)
    requires v <= w < U64
    ensures Index(v) <= Index(w)
  {
    hide Pow2, Mag, Index;
    if v >= SUB {
      SplitMonotone(v, w);
    } else {
      IndexSmall(v);
      if w < SUB {
        IndexSmall(w);
      } else {
        var t, p, x := Split(w);
      }
    }
  }

  /** Every bucket that can be hit reports a value of its own. */
  lemma IndexOfValue(i: nat)
    requires i < 59 * SUB
    ensures Value(i) < U64 && Index(Value(i)) == i
  {
    if i < SUB {
      IndexSmall(i);
    } else {
      hide Pow2, Mag, Index, Value;
      var s, q := i / SUB - 1, SUB + i % SUB;
      assert i == s * SUB + q;
      ValueOfSplit(s, q);
      var v := q * Pow2(s);
      MagOfProduct(s, q);
      Exact(q, Pow2(s));
      IndexLarge(v, s, q);
    }
  }

  lemma MagOfProduct(s: nat, q: nat)
    requires SUB <= q < 2 * SUB
    ensures Mag(q * Pow2(s)) == s + 6 && q * Pow2(s) >= SUB
  {
    hide Pow2, Mag;
    Pow2Sizes();
    Pow2Add(6, s);
    Pow2Add(7, s);
    Times(64, q, Pow2(s));
    Times(q + 1, 128, Pow2(s));
    assert (q + 1) * Pow2(s) == q * Pow2(s) + Pow2(s);
    MagIs(q * Pow2(s), s + 6);
    Times(1, Pow2(s), 64);
  }

  lemma Exact(q: nat, p: nat)
    requires p > 0
    ensures q * p / p == q
  {
    var n := q * p;
    var x := n / p;
    assert n == x * p + n % p;
    if x < q {
      Times(x + 1, q, p);
    } else if x > q {
      Times(q + 1, x, p);
    }
  }

  // Counting

  ghost function CountIf(s: seq<nat>, p: nat -> bool): (n: nat) {
    if s == [] then 0 else (if p(s[0]) then 1 else 0) + CountIf(s[1..], p)
  }

  lemma {:induction false} CountJoin(s: seq<nat>, t: seq<nat>, p: nat -> bool)
    ensures CountIf(s + t, p) == CountIf(s, p) + CountIf(t, p)
  {
    if s == [] {
      assert s + t == t;
    } else {
      assert (s + t)[1..] == s[1..] + t;
      CountJoin(s[1..], t, p);
    }
  }

  /** A weaker property holds at least as often. */
  lemma {:induction false} CountMore(s: seq<nat>, p: nat -> bool, q: nat -> bool)
    requires forall i :: 0 <= i < |s| && p(s[i]) ==> q(s[i])
    ensures CountIf(s, p) <= CountIf(s, q)
  {
    if s != [] {
      CountMore(s[1..], p, q);
    }
  }

  lemma {:induction false} CountEither(s: seq<nat>, p: nat -> bool, q: nat -> bool, r: nat -> bool)
    requires forall i :: 0 <= i < |s| ==> (r(s[i]) <==> p(s[i]) || q(s[i])) && !(p(s[i]) && q(s[i]))
    ensures CountIf(s, r) == CountIf(s, p) + CountIf(s, q)
  {
    if s != [] {
      CountEither(s[1..], p, q, r);
    }
  }

  lemma {:induction false} CountAll(s: seq<nat>, p: nat -> bool)
    requires forall i :: 0 <= i < |s| ==> p(s[i])
    ensures CountIf(s, p) == |s|
  {
    if s != [] {
      CountAll(s[1..], p);
    }
  }

  lemma {:induction false} CountNone(s: seq<nat>, p: nat -> bool)
    requires forall i :: 0 <= i < |s| ==> !p(s[i])
    ensures CountIf(s, p) == 0
  {
    if s != [] {
      CountNone(s[1..], p);
    }
  }

  function In(i: nat): (r: nat -> bool) {
    (v: nat) => Index(v) == i
  }

  /** In one of the first i buckets. */
  function Under(i: nat): (r: nat -> bool) {
    (v: nat) => Index(v) < i
  }

  function AtMost(x: nat): (r: nat -> bool) {
    (v: nat) => v <= x
  }

  function Less(x: nat): (r: nat -> bool) {
    (v: nat) => v < x
  }

  /** x is the k-th smallest sample. */
  ghost predicate IsRank(s: seq<nat>, k: nat, x: nat) {
    x in s && CountIf(s, Less(x)) < k <= CountIf(s, AtMost(x))
  }

  ghost predicate Samples(s: seq<nat>) {
    forall i :: 0 <= i < |s| ==> s[i] < U64
  }

  /** There is a k-th smallest sample for every k there could be one for, and only one. */
  lemma {:induction false} RankExists(s: seq<nat>, k: nat) returns (x: nat)
    requires 1 <= k <= |s|
    ensures IsRank(s, k, x)
  {
    CountNone(s, Less(0));
    x := Smallest(s, k, 0);
  }

  lemma {:induction false} Smallest(s: seq<nat>, k: nat, from: nat) returns (x: nat)
    requires 1 <= k <= |s| && CountIf(s, Less(from)) < k
    ensures IsRank(s, k, x)
    decreases Top(s) + 1 - from
  {
    if CountIf(s, AtMost(from)) >= k {
      x := from;
      if x !in s {
        CountMore(s, AtMost(x), Less(x));
      }
    } else {
      if from >= Top(s) {
        TopIs(s);
        CountAll(s, AtMost(from));
      }
      CountMore(s, Less(from + 1), AtMost(from));
      x := Smallest(s, k, from + 1);
    }
  }

  ghost function Top(s: seq<nat>): (t: nat) {
    if s == [] then 0 else if s[0] > Top(s[1..]) then s[0] else Top(s[1..])
  }

  lemma {:induction false} TopIs(s: seq<nat>)
    ensures forall i :: 0 <= i < |s| ==> s[i] <= Top(s)
  {
    if s != [] {
      TopIs(s[1..]);
      forall i | 0 <= i < |s| ensures s[i] <= Top(s) {
        if i > 0 {
          assert s[i] == s[1..][i - 1];
        }
      }
    }
  }

  lemma RankUnique(s: seq<nat>, k: nat, x: nat, y: nat)
    requires IsRank(s, k, x) && IsRank(s, k, y)
    ensures x == y
  {
    if x < y {
      CountMore(s, AtMost(x), Less(y));
    } else if y < x {
      CountMore(s, AtMost(y), Less(x));
    }
  }

  /** The first bucket at which k samples have been seen is the bucket of the k-th smallest. */
  lemma ScanFindsRank(s: seq<nat>, k: nat, i: nat, x: nat)
    requires Samples(s) && IsRank(s, k, x) && CountIf(s, Under(i)) < k <= CountIf(s, Under(i + 1))
    ensures Index(x) == i
  {
    hide Index;
    if Index(x) < i {
      forall j | 0 <= j < |s| && AtMost(x)(s[j]) ensures Under(i)(s[j]) {
        IndexMonotone(s[j], x);
      }
      CountMore(s, AtMost(x), Under(i));
    } else if Index(x) > i {
      forall j | 0 <= j < |s| && Under(i + 1)(s[j]) ensures Less(x)(s[j]) {
        if s[j] >= x {
          IndexMonotone(x, s[j]);
        }
      }
      CountMore(s, Under(i + 1), Less(x));
    }
  }

  // The histogram

  method Bucket(v: nat) returns (i: nat)
    requires v < U64
    ensures i == Index(v) < SLOTS
  {
    hide Pow2, Mag;
    if v < SUB {
      return v;
    }
    var zeros := LeadingZeros64(v);
    MagAtLeast(v);
    var shift := 63 - zeros - 6;
    var sub := (v / Pow2(shift)) % SUB;
    i := (shift + 1) * SUB + sub;
    if i >= SLOTS {
      i := LAST;
    }
    BucketError(v);
  }

  ghost function Total(s: seq<nat>): (t: nat) {
    if s == [] then 0 else s[0] + Total(s[1..])
  }

  lemma {:induction false} TotalJoin(s: seq<nat>, t: seq<nat>)
    ensures Total(s + t) == Total(s) + Total(t)
  {
    if s == [] {
      assert s + t == t;
    } else {
      assert (s + t)[1..] == s[1..] + t;
      TotalJoin(s[1..], t);
    }
  }

  lemma WrapAdd(a: nat, b: nat)
    ensures (a % U64 + b % U64) % U64 == (a + b) % U64 && (a % U64 + b) % U64 == (a + b) % U64
  {
  }

  /** The smallest and largest sample, as the fields start out when there is none. */
  ghost predicate Extremes(s: seq<nat>, min: nat, max: nat) {
    if s == [] then min == U64 - 1 && max == 0
    else min in s && max in s && forall i :: 0 <= i < |s| ==> min <= s[i] <= max
  }

  class Histogram {
    const counts: array<nat>
    var total: nat
    var sum: nat
    var min: nat
    var max: nat
    /** Everything recorded, in order. */
    ghost var samples: seq<nat>

    ghost predicate Counts(s: seq<nat>)
      reads counts
    {
      counts.Length == SLOTS && forall i :: 0 <= i < SLOTS ==> counts[i] == CountIf(s, In(i))
    }

    ghost predicate Valid()
      reads this, counts
    {
      && Counts(samples) && Samples(samples) && total == |samples| && sum == Total(samples) % U64
      && Extremes(samples, min, max)
    }

    constructor ()
      ensures Valid() && samples == [] && fresh(counts)
    {
      counts := new nat[SLOTS](_ => 0);
      total, sum, min, max, samples := 0, 0, U64 - 1, 0, [];
    }

    /** One observation; a negative duration counts as zero. */
    method Record(d: int)
      requires Valid() && d < U64
      modifies this, counts
      ensures Valid() && samples == old(samples) + [if d < 0 then 0 else d]
    {
      hide Index, Total, Samples, Extremes, Counts;
      var v := if d < 0 then 0 else d;
      var at := Bucket(v);
      Bump(at, v);
      TotalJoin(samples, [v]);
      TotalOne(v);
      WrapAdd(Total(samples), v);
      OneSample(v);
      SamplesJoin(samples, [v]);
      ExtremesJoin(samples, [v], min, max, v, v);
      total, sum := total + 1, (sum + v) % U64;
      if v < min {
        min := v;
      }
      if v > max {
        max := v;
      }
      samples := samples + [v];
    }

    method Bump(at: nat, v: nat)
      requires Counts(samples) && at == Index(v) < SLOTS
      modifies counts
      ensures Counts(samples + [v])
    {
      hide Index;
      forall i | 0 <= i < SLOTS
        ensures CountIf(samples + [v], In(i)) == CountIf(samples, In(i)) + (if i == at then 1 else 0)
      {
        CountJoin(samples, [v], In(i));
      }
      counts[at] := counts[at] + 1;
    }

    /** Folds another histogram in: the same as having recorded its samples here as well. */
    method Merge(o: Histogram)
      requires Valid() && o.Valid()
      modifies this, counts
      ensures Valid() && samples == old(samples) + old(o.samples)
    {
      hide Index, Total, Samples, Extremes, Counts;
      ghost var mine, theirs := samples, o.samples;
      AddCounts(o);
      TotalJoin(mine, theirs);
      WrapAdd(Total(mine), Total(theirs));
      SamplesJoin(mine, theirs);
      ExtremesJoin(mine, theirs, min, max, o.min, o.max);
      total, sum := total + o.total, (sum + o.sum) % U64;
      if o.min < min {
        min := o.min;
      }
      if o.max > max {
        max := o.max;
      }
      samples := mine + theirs;
    }

    method AddCounts(o: Histogram)
      requires Counts(samples) && o.Counts(o.samples)
      modifies counts
      ensures Counts(samples + o.samples)
    {
      hide Index, CountIf;
      for i := 0 to SLOTS
        invariant forall j :: 0 <= j < i ==> counts[j] == CountIf(samples + o.samples, In(j))
        invariant forall j :: i <= j < SLOTS ==>
          counts[j] == CountIf(samples, In(j)) && o.counts[j] == CountIf(o.samples, In(j))
      {
        CountJoin(samples, o.samples, In(i));
        counts[i] := counts[i] + o.counts[i];
      }
    }

    /** The cumulative scan. It reports the bucket of the exact order statistic: the sample with a
        share of at least q of all samples up to it and less than that below it. */
    method Quantile(q: real) returns (v: nat, ghost x: nat)
      requires Valid() && q >= 0.0
      ensures total == 0 ==> v == 0
      ensures total > 0 && q > 1.0 ==> v == max
      ensures total > 0 && q <= 1.0 ==> x in samples && v <= x && (v == x || 64 * x < 65 * v)
      ensures total > 0 && q <= 1.0 ==> CountIf(samples, AtMost(x)) as real >= q * |samples| as real
      ensures total > 0 && q <= 1.0 ==>
        CountIf(samples, Less(x)) == 0 || (CountIf(samples, Less(x)) as real) < q * |samples| as real
    {
      hide Index, Value, CountIf, AtMost, Less, IsRank, Target, Counts, Extremes, Total;
      v := Scan(q);
      x := v;
      if total > 0 {
        if q > 1.0 {
          TargetBeyond(q, total);
        } else {
          x := QuantileError(samples, q, v);
        }
      }
    }

    method Scan(q: real) returns (v: nat)
      requires Valid() && q >= 0.0
      ensures total == 0 ==> v == 0
      ensures total > 0 && Target(q, total) > total ==> v == max
      ensures total > 0 ==> forall x :: IsRank(samples, Target(q, total), x) ==> v == Value(Index(x))
    {
      hide Index, Value, CountIf;
      if total == 0 {
        return 0;
      }
      var target := Target(q, total);
      var seen := 0;
      NoneUnder(samples);
      for i := 0 to SLOTS
        invariant seen == CountIf(samples, Under(i)) < target
      {
        UnderNext(samples, i);
        seen := seen + counts[i];
        if seen >= target {
          forall x | IsRank(samples, target, x) ensures Index(x) == i {
            ScanFindsRank(samples, target, i, x);
          }
          EnoughOnlyUpTo(samples, target, Under(i + 1));
          return Value(i);
        }
      }
      AllUnder(samples);
      forall x | IsRank(samples, target, x) ensures false {
        EnoughOnlyUpTo(samples, target, AtMost(x));
      }
      v := max;
    }
  }

  /** The rank asked for: the ceiling of q * total, at least 1. */
  function Target(q: real, total: nat): (k: nat)
    requires q >= 0.0
  {
    var x := q * total as real;
    var c := if x.Floor as real == x then x.Floor else x.Floor + 1;
    if c <= 0 then 1 else c
  }

  lemma TargetBeyond(q: real, total: nat)
    requires q > 1.0 && total > 0
    ensures Target(q, total) > total
  {
    hide Target;
    Ceiling(q, total, total);
    MoreThanTotal(q, total as real);
  }

  lemma MoreThanTotal(q: real, t: real)
    requires q > 1.0 && t > 0.0
    ensures q * t > t
  {
    assert (q - 1.0) * t > 0.0;
    assert (q - 1.0) * t == q * t - t;
  }

  /** The sample at the rank asked for is the one with a share of at least q up to it, and less below. */
  lemma TargetMeans(s: seq<nat>, q: real, x: nat)
    requires q >= 0.0
    ensures IsRank(s, Target(q, |s|), x) <==>
            && x in s && CountIf(s, AtMost(x)) as real >= q * |s| as real
            && (CountIf(s, Less(x)) == 0 || (CountIf(s, Less(x)) as real) < q * |s| as real)
  {
    hide CountIf, Target, Less;
    if x in s {
      CountSome(s, AtMost(x), x);
    }
    Ceiling(q, |s|, CountIf(s, AtMost(x)));
    Ceiling(q, |s|, CountIf(s, Less(x)));
  }

  lemma Ceiling(q: real, total: nat, n: nat)
    requires q >= 0.0
    ensures Target(q, total) <= n <==> n > 0 && n as real >= q * total as real
  {
    CeilingAtMost(q * total as real, n);
  }

  lemma CeilingAtMost(x: real, n: nat)
    ensures (if x.Floor as real == x then x.Floor else x.Floor + 1) <= n <==> x <= n as real
  {
    if x > n as real {
      assert x.Floor >= n;
    }
  }

  lemma {:induction false} CountSome(s: seq<nat>, p: nat -> bool, x: nat)
    requires x in s && p(x)
    ensures CountIf(s, p) > 0
  {
    if s[0] != x {
      CountSome(s[1..], p, x);
    }
  }

  lemma TotalOne(v: nat)
    ensures Total([v]) == v
  {
    assert [v][1..] == [];
  }

  lemma OneSample(v: nat)
    requires v < U64
    ensures Samples([v]) && Extremes([v], v, v)
  {
  }

  lemma ExtremesJoin(s: seq<nat>, t: seq<nat>, min: nat, max: nat, min': nat, max': nat)
    requires Samples(s) && Samples(t) && Extremes(s, min, max) && Extremes(t, min', max')
    ensures Extremes(s + t, if min' < min then min' else min, if max' > max then max' else max)
  {
    forall x | x in s ensures x in s + t {}
    forall x | x in t ensures x in s + t {}
  }

  lemma SamplesJoin(s: seq<nat>, t: seq<nat>)
    requires Samples(s) && Samples(t)
    ensures Samples(s + t)
  {
  }

  lemma NoneUnder(s: seq<nat>)
    ensures CountIf(s, Under(0)) == 0
  {
    CountNone(s, Under(0));
  }

  lemma UnderNext(s: seq<nat>, i: nat)
    ensures CountIf(s, Under(i + 1)) == CountIf(s, Under(i)) + CountIf(s, In(i))
  {
    CountEither(s, Under(i), In(i), Under(i + 1));
  }

  lemma AllUnder(s: seq<nat>)
    requires Samples(s)
    ensures CountIf(s, Under(SLOTS)) == |s|
  {
    forall i | 0 <= i < |s| ensures Under(SLOTS)(s[i]) {
      BucketError(s[i]);
    }
    CountAll(s, Under(SLOTS));
  }

  lemma {:induction false} EnoughOnlyUpTo(s: seq<nat>, k: nat, p: nat -> bool)
    requires CountIf(s, p) >= k
    ensures k <= |s|
  {
    CountAtMost(s, p);
  }

  lemma {:induction false} CountAtMost(s: seq<nat>, p: nat -> bool)
    ensures CountIf(s, p) <= |s|
  {
    if s != [] {
      CountAtMost(s[1..], p);
    }
  }

  /** Within 1/64 of the truth, for every set of samples and every quantile up to 1. */
  lemma QuantileError(s: seq<nat>, q: real, v: nat) returns (x: nat)
    requires Samples(s) && s != [] && 0.0 <= q <= 1.0
    requires forall y :: IsRank(s, Target(q, |s|), y) ==> v == Value(Index(y))
    ensures x in s && v == Value(Index(x)) && v <= x && (v == x || 64 * x < 65 * v)
    ensures CountIf(s, AtMost(x)) as real >= q * |s| as real
    ensures CountIf(s, Less(x)) == 0 || (CountIf(s, Less(x)) as real) < q * |s| as real
  {
    hide Index, Value, CountIf, AtMost, Less, IsRank, Target;
    TargetInRange(q, |s|);
    x := RankExists(s, Target(q, |s|));
    TargetMeans(s, q, x);
    BucketError(x);
  }

  lemma ShareOfTotal(q: real, t: real)
    requires 0.0 <= q <= 1.0 && t >= 0.0
    ensures 0.0 <= q * t <= t
  {
    assert (1.0 - q) * t >= 0.0;
    assert (1.0 - q) * t == t - q * t;
  }

  /** The ceiling of a real between 0 and n is between 0 and n. */
  lemma CeilingWithin(x: real, n: nat)
    requires 0.0 <= x <= n as real
    ensures 0 <= x.Floor <= n && (x.Floor == n ==> x.Floor as real == x)
  {
  }

  lemma TargetInRange(q: real, total: nat)
    requires 0.0 <= q <= 1.0 && total > 0
    ensures 1 <= Target(q, total) <= total
  {
    var t := total as real;
    ShareOfTotal(q, t);
    CeilingWithin(q * t, total);
  }
}

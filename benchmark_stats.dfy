/** The statistics half of `BenchmarkUtils`: run an operation a given number of times,
    sort the elapsed times, and report their truncated mean and the 95th and 99th
    percentiles; count the successes of a boolean operation; and the file names the
    summaries are written under. The stopwatch and the operation are inputs: `op(k)` is
    what the k-th invocation (from 0) does, returning a value or throwing. */
module BenchmarkStats {

  import opened Wrappers

  /** What one invocation of a caller-supplied operation does. */
  datatype Call<T> = Returned(value: T) | Threw

  /** `SummaryResult` without its timestamp. */
  datatype Summary = Summary(name: string, iterations: int, meanMs: int, p95Ms: int, p99Ms: int)

  /** `SuccessSummaryResult` without its timestamp. */
  datatype SuccessSummary = SuccessSummary(name: string, iterations: int, successCount: int, successRate: real)

  /** The first n invocations all return. */
  ghost predicate AllReturn<T>(op: nat -> Call<T>, n: int) {
    forall k: nat :: k < n ==> op(k).Returned?
  }

  /** The values of the first n invocations, in invocation order. */
  ghost function Samples<T>(op: nat -> Call<T>, n: nat): (s: seq<T>)
    requires AllReturn(op, n)
    ensures |s| == n && forall k :: 0 <= k < n ==> s[k] == op(k).value
  {
    if n == 0 then [] else Samples(op, n - 1) + [op(n - 1).value]
  }

  ghost predicate IsSorted(s: seq<int>) {
    forall i, j :: 0 <= i <= j < |s| ==> s[i] <= s[j]
  }

  // ---------------------------------------------------------------------------
  // Sorting the samples
  // ---------------------------------------------------------------------------

  /** `elapsedSamplesMs.Sort()`: an ascending in-place sort (insertion sort here; the
      result is the same for any correct sort, since sorted permutations are unique). */
  method SortSamples(a: array<int>)
    modifies a
    ensures IsSorted(a[..]) && multiset(a[..]) == multiset(old(a[..]))
  {
    if a.Length == 0 {
      return;
    }
    for i := 1 to a.Length
      invariant forall p, q :: 0 <= p <= q < i ==> a[p] <= a[q]
      invariant multiset(a[..]) == multiset(old(a[..]))
    {
      SinkInto(a, i);
    }
  }

  /** Moves a[i] down into the sorted prefix a[..i], leaving a[..i+1] sorted. */
  method SinkInto(a: array<int>, i: int)
    requires 0 < i < a.Length && forall p, q :: 0 <= p <= q < i ==> a[p] <= a[q]
    modifies a
    ensures forall p, q :: 0 <= p <= q <= i ==> a[p] <= a[q]
    ensures multiset(a[..]) == multiset(old(a[..]))
  {
    var j := i;
    while j > 0 && a[j - 1] > a[j]
      invariant 0 <= j <= i
      invariant multiset(a[..]) == multiset(old(a[..]))
      invariant forall p, q :: 0 <= p <= q <= i && p != j && q != j ==> a[p] <= a[q]
      invariant forall q :: j < q <= i ==> a[j] <= a[q]
    {
      Swap(a, j);
      j := j - 1;
    }
  }

  /** Exchanges a[j - 1] and a[j]. */
  method Swap(a: array<int>, j: int)
    requires 0 < j < a.Length
    modifies a
    ensures a[j - 1] == old(a[j]) && a[j] == old(a[j - 1])
    ensures forall k :: 0 <= k < a.Length && k != j - 1 && k != j ==> a[k] == old(a[k])
    ensures multiset(a[..]) == multiset(old(a[..]))
  {
    a[j - 1], a[j] := a[j], a[j - 1];
  }

  // ---------------------------------------------------------------------------
  // Mean
  // ---------------------------------------------------------------------------

  function Sum(s: seq<int>): int {
    if |s| == 0 then 0 else Sum(s[..|s| - 1]) + s[|s| - 1]
  }

  /** C#'s `(long)` cast of a quotient: division truncating toward zero. */
  function TruncDiv(a: int, n: int): (q: int)
    requires n > 0
    ensures a >= 0 ==> q * n <= a < (q + 1) * n
    ensures a < 0 ==> (q - 1) * n < a <= q * n
  {
    if a >= 0 then a / n else -((-a) / n)
  }

  /** `(long)elapsedSamplesMs.Average()`. */
  function Mean(s: seq<int>): int
    requires |s| > 0
  {
    TruncDiv(Sum(s), |s|)
  }

  lemma {:induction false} SumBounds(s: seq<int>, lo: int, hi: int)
    requires forall k :: 0 <= k < |s| ==> lo <= s[k] <= hi
    ensures |s| * lo <= Sum(s) <= |s| * hi
  {
    if |s| > 0 {
      SumBounds(s[..|s| - 1], lo, hi);
    }
  }

  /** The truncated mean of sorted samples lies between the smallest and the largest. */
  lemma MeanWithin(s: seq<int>)
    requires |s| > 0 && IsSorted(s)
    ensures s[0] <= Mean(s) <= s[|s| - 1]
  {
    var n := |s|;
    SumBounds(s, s[0], s[n - 1]);
    var q := Mean(s);
    if Sum(s) >= 0 {
      assert q * n <= Sum(s) <= n * s[n - 1];
      assert (q + 1) * n > Sum(s) >= n * s[0];
      ProductOrder(q, s[n - 1], n);
      ProductOrder(s[0], q + 1, n);
    } else {
      assert (q - 1) * n < Sum(s) <= q * n;
      ProductOrder(q - 1, s[n - 1], n);
      ProductOrder(s[0], q, n);
    }
  }

  lemma ProductOrder(x: int, y: int, n: int)
    requires n > 0
    ensures x * n <= y * n ==> x <= y
    ensures x * n < y * n ==> x < y
  {
    if x > y {
      assert x * n - y * n == (x - y) * n;
    }
  }

  // ---------------------------------------------------------------------------
  // Percentile
  // ---------------------------------------------------------------------------

  /** `Math.Ceiling`, for a real. */
  function Ceiling(x: real): (c: int)
    ensures x <= c as real < x + 1.0
    ensures c == x.Floor || c == x.Floor + 1
  {
    -((-x).Floor)
  }

  /** `Math.Round(x)`: to the nearest integer, a tie going to the even neighbour. */
  function RoundHalfEven(x: real): (r: int)
    ensures x - 0.5 <= r as real <= x + 0.5
  {
    var f := x.Floor;
    var frac := x - f as real;
    if frac < 0.5 then f
    else if frac > 0.5 then f + 1
    else if f % 2 == 0 then f else f + 1
  }

  lemma RoundIntegral(k: int)
    ensures RoundHalfEven(k as real) == k
  {
  }

  lemma RoundMonotone(x: real, y: real)
    requires x <= y
    ensures RoundHalfEven(x) <= RoundHalfEven(y)
  {
    var fx, fy := x.Floor, y.Floor;
    if fx == fy {
      assert x - fx as real <= y - fy as real;
    } else {
      assert fx + 1 <= fy;
    }
  }

  /** Between two integers, the rounded value stays between them. */
  lemma RoundWithin(x: real, a: int, b: int)
    requires a as real <= x <= b as real
    ensures a <= RoundHalfEven(x) <= b
  {
    RoundIntegral(a);
    RoundIntegral(b);
    RoundMonotone(a as real, x);
    RoundMonotone(x, b as real);
  }

  /** `lower * (1 - weight) + upper * weight`. */
  function Interpolate(lower: int, upper: int, w: real): real {
    lower as real * (1.0 - w) + upper as real * w
  }

  lemma InterpolateForm(lower: int, upper: int, w: real)
    ensures Interpolate(lower, upper, w) == lower as real + w * (upper - lower) as real
  {
  }

  lemma InterpolateMonotone(lower: int, upper: int, w1: real, w2: real)
    requires lower <= upper && w1 <= w2
    ensures Interpolate(lower, upper, w1) <= Interpolate(lower, upper, w2)
  {
    InterpolateForm(lower, upper, w1);
    InterpolateForm(lower, upper, w2);
    var d := (upper - lower) as real;
    assert (w2 - w1) * d >= 0.0;
    assert w2 * d - w1 * d == (w2 - w1) * d;
  }

  lemma InterpolateWithin(lower: int, upper: int, w: real)
    requires lower <= upper && 0.0 <= w <= 1.0
    ensures lower as real <= Interpolate(lower, upper, w) <= upper as real
  {
    InterpolateMonotone(lower, upper, 0.0, w);
    InterpolateMonotone(lower, upper, w, 1.0);
  }

  lemma ScaleWithin(p: real, m: nat)
    requires 0.0 <= p <= 1.0
    ensures 0.0 <= p * m as real <= m as real
  {
    assert m as real - p * m as real == (1.0 - p) * m as real;
  }

  lemma ScaleMonotone(p: real, q: real, m: nat)
    requires p <= q
    ensures p * m as real <= q * m as real
  {
    assert q * m as real - p * m as real == (q - p) * m as real;
  }

  /** `percentile * (sortedSamples.Count - 1)`. */
  function Rank(p: real, n: nat): (r: real)
    requires 0.0 <= p <= 1.0 && n > 0
    ensures 0.0 <= r <= (n - 1) as real
  {
    ScaleWithin(p, n - 1);
    p * (n - 1) as real
  }

  lemma RankMonotone(p: real, q: real, n: nat)
    requires 0.0 <= p <= q <= 1.0 && n > 0
    ensures Rank(p, n) <= Rank(q, n)
  {
    var m: nat := n - 1;
    ScaleMonotone(p, q, m);
    calc {
      Rank(p, n);
    ==
      p * m as real;
    <=
      q * m as real;
    ==
      Rank(q, n);
    }
  }

  /** `Percentile(sortedSamples, percentile)`: 0 for no samples, else the value at the
      rank p * (N - 1). */
  function Percentile(s: seq<int>, p: real): (r: int)
    requires 0.0 <= p <= 1.0
    ensures |s| == 0 ==> r == 0
  {
    if |s| == 0 then 0 else PercentileAt(s, Rank(p, |s|))
  }

  /** At a whole rank, the sample there; otherwise the linear interpolation between the
      samples either side of the rank, rounded half to even. */
  function PercentileAt(s: seq<int>, rank: real): int
    requires 0.0 <= rank <= (|s| - 1) as real
  {
    var lowerIndex := rank.Floor;
    var upperIndex := Ceiling(rank);
    if lowerIndex == upperIndex then s[lowerIndex]
    else
      var weight := rank - lowerIndex as real;
      RoundHalfEven(Interpolate(s[lowerIndex], s[upperIndex], weight))
  }

  /** The unrounded value at a rank: interpolation between the sample at the rank's floor
      and the next one (the last one at the top rank). */
  function ValueAt(s: seq<int>, rank: real): real
    requires 0.0 <= rank <= (|s| - 1) as real
  {
    var lo := rank.Floor;
    var hi := if lo + 1 < |s| then lo + 1 else lo;
    Interpolate(s[lo], s[hi], rank - lo as real)
  }

  /** Both branches round `ValueAt` (a whole rank interpolates with weight 0). */
  lemma PercentileIsRoundedValue(s: seq<int>, rank: real)
    requires 0.0 <= rank <= (|s| - 1) as real
    ensures PercentileAt(s, rank) == RoundHalfEven(ValueAt(s, rank))
  {
    var lo := rank.Floor;
    if lo == Ceiling(rank) {
      assert rank - lo as real == 0.0;
      InterpolateAtZero(s[lo], if lo + 1 < |s| then s[lo + 1] else s[lo]);
      RoundIntegral(s[lo]);
    }
  }

  lemma InterpolateAtZero(a: int, b: int)
    ensures Interpolate(a, b, 0.0) == a as real
  {
  }

  lemma ValueWithin(s: seq<int>, rank: real)
    requires IsSorted(s) && 0.0 <= rank <= (|s| - 1) as real
    ensures s[rank.Floor] as real <= ValueAt(s, rank)
    ensures rank.Floor + 1 < |s| ==> ValueAt(s, rank) <= s[rank.Floor + 1] as real
    ensures ValueAt(s, rank) <= s[|s| - 1] as real
  {
    var lo := rank.Floor;
    var hi := if lo + 1 < |s| then lo + 1 else lo;
    InterpolateWithin(s[lo], s[hi], rank - lo as real);
  }

  lemma ValueMonotone(s: seq<int>, r1: real, r2: real)
    requires IsSorted(s) && 0.0 <= r1 <= r2 <= (|s| - 1) as real
    ensures ValueAt(s, r1) <= ValueAt(s, r2)
  {
    var lo1, lo2 := r1.Floor, r2.Floor;
    ValueWithin(s, r1);
    ValueWithin(s, r2);
    if lo1 == lo2 {
      var hi := if lo1 + 1 < |s| then lo1 + 1 else lo1;
      InterpolateMonotone(s[lo1], s[hi], r1 - lo1 as real, r2 - lo1 as real);
    } else {
      assert lo1 + 1 <= lo2 && s[lo1 + 1] <= s[lo2];
    }
  }

  /** Sorted samples: every percentile lies between the smallest and the largest sample. */
  lemma PercentileWithin(s: seq<int>, p: real)
    requires IsSorted(s) && |s| > 0 && 0.0 <= p <= 1.0
    ensures s[0] <= Percentile(s, p) <= s[|s| - 1]
  {
    var rank := Rank(p, |s|);
    PercentileIsRoundedValue(s, rank);
    ValueWithin(s, rank);
    RoundWithin(ValueAt(s, rank), s[0], s[|s| - 1]);
  }

  /** Sorted samples: a higher percentile is never smaller (so p95 <= p99). */
  lemma PercentileMonotone(s: seq<int>, p: real, q: real)
    requires IsSorted(s) && 0.0 <= p <= q <= 1.0
    ensures Percentile(s, p) <= Percentile(s, q)
  {
    if |s| > 0 {
      var r1, r2 := Rank(p, |s|), Rank(q, |s|);
      RankMonotone(p, q, |s|);
      PercentileIsRoundedValue(s, r1);
      PercentileIsRoundedValue(s, r2);
      ValueMonotone(s, r1, r2);
      RoundMonotone(ValueAt(s, r1), ValueAt(s, r2));
    }
  }

  /** A whole rank k picks the k-th sample exactly; in particular one sample is its own
      percentile. */
  lemma PercentileAtWholeRank(s: seq<int>, p: real, k: int)
    requires 0.0 <= p <= 1.0 && 0 <= k < |s| && Rank(p, |s|) == k as real
    ensures Percentile(s, p) == s[k]
  {
  }

  lemma PercentileOfOne(x: int, p: real)
    requires 0.0 <= p <= 1.0
    ensures Percentile([x], p) == x
  {
    assert Rank(p, 1) == 0.0;
    PercentileAtWholeRank([x], p, 0);
  }

  // ---------------------------------------------------------------------------
  // The two measurement loops
  // ---------------------------------------------------------------------------

  /** The summary of sorted samples. */
  function SummaryOf(name: string, iterations: int, sorted: seq<int>): Summary
    requires |sorted| > 0
  {
    Summary(name, iterations, Mean(sorted), Percentile(sorted, 0.95), Percentile(sorted, 0.99))
  }

  /** The summary's statistics lie between the fastest and the slowest sample, and the
      95th percentile does not exceed the 99th. */
  lemma SummaryBounds(name: string, iterations: int, sorted: seq<int>)
    requires |sorted| > 0 && IsSorted(sorted)
    ensures var m := SummaryOf(name, iterations, sorted);
      sorted[0] <= m.meanMs <= sorted[|sorted| - 1]
      && sorted[0] <= m.p95Ms <= m.p99Ms <= sorted[|sorted| - 1]
  {
    MeanWithin(sorted);
    PercentileWithin(sorted, 0.95);
    PercentileWithin(sorted, 0.99);
    PercentileMonotone(sorted, 0.95, 0.99);
  }

  /** `MeasureManyAsync`, statistics part: rejects a non-positive iteration count before
      invoking anything; otherwise invokes the operation once per iteration, in order,
      collecting each elapsed time, and stops at the first invocation that throws. */
  method MeasureMany(name: string, iterations: int, op: nat -> Call<int>,
                     resultsDirectory: Option<string>, defaultDirectory: string)
    returns (r: Result<Summary>, calls: nat, sorted: seq<int>, written: Option<Artifacts>)
    ensures iterations <= 0 ==> r == Err(ArgumentOutOfRange("iterations")) && calls == 0
    ensures written == if r.Ok? then Some(ArtifactsFor(name, resultsDirectory, defaultDirectory)) else None
    ensures r.Ok? <==> iterations > 0 && AllReturn(op, iterations)
    ensures r.Ok? ==>
      (calls == iterations && IsSorted(sorted)
       && multiset(sorted) == multiset(Samples(op, iterations))
       && r.value == SummaryOf(name, iterations, sorted))
    ensures r.Err? && iterations > 0 ==>
      (r.error == OperationFaulted && 1 <= calls <= iterations && AllReturn(op, calls - 1) && op(calls - 1).Threw?)
  {
    if iterations <= 0 {
      return Err(ArgumentOutOfRange("iterations")), 0, [], None;
    }
    var samples: seq<int> := [];
    calls := 0;
    while calls < iterations
      invariant 0 <= calls <= iterations && AllReturn(op, calls) && samples == Samples(op, calls)
    {
      var t := op(calls);
      calls := calls + 1;
      if t.Threw? {
        return Err(OperationFaulted), calls, [], None;
      }
      samples := samples + [t.value];
    }
    var a := new int[|samples|](k requires 0 <= k < |samples| => samples[k]);
    assert a[..] == samples;
    SortSamples(a);
    sorted := a[..];
    r := Ok(SummaryOf(name, iterations, sorted));
    written := Some(ArtifactsFor(name, resultsDirectory, defaultDirectory));
  }

  /** How many of the first n invocations return true. */
  ghost function Successes(op: nat -> Call<bool>, n: nat): (c: nat)
    requires AllReturn(op, n)
    ensures c <= n
  {
    if n == 0 then 0 else Successes(op, n - 1) + (if op(n - 1).value then 1 else 0)
  }

  /** `MeasureSuccessAsync`, statistics part: the iteration guard, one invocation per
      iteration, and the fraction of them that returned true. */
  method MeasureSuccess(name: string, iterations: int, op: nat -> Call<bool>,
                        resultsDirectory: Option<string>, defaultDirectory: string)
    returns (r: Result<SuccessSummary>, calls: nat, written: Option<Artifacts>)
    ensures iterations <= 0 ==> r == Err(ArgumentOutOfRange("iterations")) && calls == 0
    ensures written == if r.Ok? then Some(ArtifactsFor(name, resultsDirectory, defaultDirectory)) else None
    ensures r.Ok? <==> iterations > 0 && AllReturn(op, iterations)
    ensures r.Ok? ==>
      (calls == iterations && r.value.name == name && r.value.iterations == iterations
       && r.value.successCount == Successes(op, iterations)
       && r.value.successRate == r.value.successCount as real / iterations as real
       && 0 <= r.value.successCount <= iterations && 0.0 <= r.value.successRate <= 1.0)
    ensures r.Err? && iterations > 0 ==>
      (r.error == OperationFaulted && 1 <= calls <= iterations && AllReturn(op, calls - 1) && op(calls - 1).Threw?)
  {
    if iterations <= 0 {
      return Err(ArgumentOutOfRange("iterations")), 0, None;
    }
    var successCount := 0;
    calls := 0;
    while calls < iterations
      invariant 0 <= calls <= iterations && AllReturn(op, calls) && successCount == Successes(op, calls)
    {
      var t := op(calls);
      calls := calls + 1;
      if t.Threw? {
        return Err(OperationFaulted), calls, None;
      }
      if t.value {
        successCount := successCount + 1;
      }
    }
    var rate := if iterations == 0 then 0.0 else successCount as real / iterations as real;
    RateWithin(successCount, iterations);
    r := Ok(SuccessSummary(name, iterations, successCount, rate));
    written := Some(ArtifactsFor(name, resultsDirectory, defaultDirectory));
  }

  lemma RateWithin(c: int, n: int)
    requires 0 <= c <= n && n > 0
    ensures 0.0 <= c as real / n as real <= 1.0
  {
  }

  /** An operation that always returns true has success rate 1. */
  lemma {:induction false} AllSucceed(op: nat -> Call<bool>, n: nat)
    requires forall k: nat :: k < n ==> op(k) == Returned(true)
    ensures AllReturn(op, n) && Successes(op, n) == n
  {
    if n > 0 {
      AllSucceed(op, n - 1);
    }
  }

  // ---------------------------------------------------------------------------
  // Artifact names
  // ---------------------------------------------------------------------------

  /** `s.Replace(from, to)` for characters. */
  function Replace(s: string, from: char, to: char): (r: string)
    ensures |r| == |s|
    ensures forall k :: 0 <= k < |s| ==> r[k] == (if s[k] == from then to else s[k])
  {
    if |s| == 0 then [] else Replace(s[..|s| - 1], from, to) + [if s[|s| - 1] == from then to else s[|s| - 1]]
  }

  /** `name.Replace('/', '_').Replace('\\', '_')`. */
  function SafeName(name: string): string {
    Replace(Replace(name, '/', '_'), '\\', '_')
  }

  /** The safe name keeps the length and every other character, and puts '_' for every
      path separator, so none is left. */
  lemma SafeNameChars(name: string)
    ensures |SafeName(name)| == |name|
    ensures forall k :: 0 <= k < |name| ==>
      SafeName(name)[k] == (if name[k] == '/' || name[k] == '\\' then '_' else name[k])
    ensures '/' !in SafeName(name) && '\\' !in SafeName(name)
  {
  }

  lemma SafeNameIdempotent(name: string)
    ensures SafeName(SafeName(name)) == SafeName(name)
  {
    SafeNameChars(name);
    SafeNameChars(SafeName(name));
  }

  /** Where `WriteOutputs` and `WriteTheory` put the summary: the given results directory
      (or the default one), and the files safeName-summary.json and safeName-summary.md. */
  datatype Artifacts = Artifacts(directory: string, jsonFile: string, markdownFile: string)

  function ArtifactsFor(name: string, resultsDirectory: Option<string>, defaultDirectory: string): (a: Artifacts)
    ensures a.directory == (if resultsDirectory.Some? then resultsDirectory.value else defaultDirectory)
    ensures a.jsonFile == SafeName(name) + "-summary.json" && a.markdownFile == SafeName(name) + "-summary.md"
  {
    Artifacts(resultsDirectory.GetOr(defaultDirectory), SafeName(name) + "-summary.json", SafeName(name) + "-summary.md")
  }

  /** Names that differ only in a '/' or '\\' against a '_' at one position share their
      artifact files. */
  lemma SeparatorsCollide(name: string, k: int, sep: char)
    requires 0 <= k < |name| && (sep == '/' || sep == '\\')
    ensures SafeName(name[k := sep]) == SafeName(name[k := '_'])
  {
    var a, c := name[k := sep], name[k := '_'];
    SafeNameChars(a);
    SafeNameChars(c);
    assert forall i :: 0 <= i < |name| ==> SafeName(a)[i] == SafeName(c)[i];
  }

  // ---------------------------------------------------------------------------
  // Key order of a theory summary
  // ---------------------------------------------------------------------------

  /** Ordinal string order: a proper prefix comes first, otherwise the first differing
      character decides. */
  predicate Below(a: string, b: string) {
    if |a| == 0 then |b| > 0
    else |b| > 0 && (a[0] < b[0] || (a[0] == b[0] && Below(a[1..], b[1..])))
  }

  lemma {:induction false} BelowIrreflexive(a: string)
    ensures !Below(a, a)
  {
    if |a| > 0 {
      BelowIrreflexive(a[1..]);
    }
  }

  lemma {:induction false} BelowTransitive(a: string, b: string, c: string)
    requires Below(a, b) && Below(b, c)
    ensures Below(a, c)
  {
    if |a| > 0 && a[0] == b[0] && b[0] == c[0] {
      BelowTransitive(a[1..], b[1..], c[1..]);
    }
  }

  lemma {:induction false} BelowTotal(a: string, b: string)
    requires a != b
    ensures Below(a, b) || Below(b, a)
  {
    if |a| > 0 && |b| > 0 && a[0] == b[0] {
      assert a == [a[0]] + a[1..] && b == [b[0]] + b[1..];
      BelowTotal(a[1..], b[1..]);
    }
  }

  ghost predicate Ascending(ks: seq<string>) {
    forall i, j :: 0 <= i < j < |ks| ==> Below(ks[i], ks[j])
  }

  /** Inserts k, not yet present, into an ascending sequence. */
  function Insert(ks: seq<string>, k: string): (r: seq<string>)
    requires Ascending(ks) && k !in ks
    ensures Ascending(r) && |r| == |ks| + 1 && forall x :: x in r <==> x in ks || x == k
  {
    if |ks| == 0 then [k]
    else if Below(k, ks[0]) then
      forall j | 0 < j < |ks| ensures Below(k, ks[j]) {
        BelowTransitive(k, ks[0], ks[j]);
      }
      [k] + ks
    else
      BelowTotal(k, ks[0]);
      var rest := Insert(ks[1..], k);
      forall j | 0 <= j < |rest| ensures Below(ks[0], rest[j]) {
        assert rest[j] in rest;
        if rest[j] != k {
          var i :| 0 <= i < |ks[1..]| && ks[1..][i] == rest[j];
          assert ks[i + 1] == rest[j];
        }
      }
      [ks[0]] + rest
  }

  /** `t.Data.OrderBy(k => k.Key)`: the keys of the theory data, each once, in ascending
      order. */
  method OrderKeys(keys: set<string>) returns (ordered: seq<string>)
    ensures Ascending(ordered) && |ordered| == |keys| && forall x :: x in ordered <==> x in keys
  {
    ordered := [];
    var rest := keys;
    while rest != {}
      invariant rest <= keys && Ascending(ordered) && |ordered| + |rest| == |keys|
      invariant forall x :: x in ordered <==> x in keys && x !in rest
      decreases |rest|
    {
      var k :| k in rest;
      ordered := Insert(ordered, k);
      rest := rest - {k};
    }
  }

  lemma {:induction false} BelowAsymmetric(a: string, b: string)
    ensures !(Below(a, b) && Below(b, a))
  {
    if |a| > 0 && |b| > 0 && a[0] == b[0] {
      BelowAsymmetric(a[1..], b[1..]);
    }
  }

  /** Two ascending sequences with the same keys are the same sequence: the order of the
      Markdown lines is determined by the keys alone. */
  lemma {:induction false} AscendingUnique(a: seq<string>, b: seq<string>)
    requires Ascending(a) && Ascending(b) && forall x :: x in a <==> x in b
    ensures a == b
  {
    if |a| > 0 || |b| > 0 {
      assert |a| > 0 && |b| > 0 by {
        assert |a| > 0 ==> a[0] in a;
        assert |b| > 0 ==> b[0] in b;
      }
      assert a[0] == b[0] by {
        assert a[0] in a && b[0] in b;
        var i :| 0 <= i < |b| && b[i] == a[0];
        var j :| 0 <= j < |a| && a[j] == b[0];
        BelowAsymmetric(a[0], b[0]);
      }
      forall x
        ensures x in a[1..] <==> x in b[1..]
      {
        BelowIrreflexive(x);
        if x in a[1..] {
          var i :| 0 <= i < |a[1..]| && a[1..][i] == x;
          assert a[i + 1] == x && Below(a[0], x) && x in b;
          var k :| 0 <= k < |b| && b[k] == x;
          assert b[1..][k - 1] == x;
        }
        if x in b[1..] {
          var j :| 0 <= j < |b[1..]| && b[1..][j] == x;
          assert b[j + 1] == x && Below(b[0], x) && x in a;
          var k :| 0 <= k < |a| && a[k] == x;
          assert a[1..][k - 1] == x;
        }
      }
      AscendingUnique(a[1..], b[1..]);
      assert a == [a[0]] + a[1..] && b == [b[0]] + b[1..];
    }
  }
}

/** The histogram (histogram.cpp) over real numbers: bucket search and running counts against naive
    counting of the observed values. */
module Histograms {

  /** The number of values up to a bound. */
  ghost function CountUpTo(values: seq<real>, bound: real): nat {
    if |values| == 0 then 0 else CountUpTo(values[1..], bound) + (if values[0] <= bound then 1 else 0)
  }

  ghost function Sum(values: seq<real>): real {
    if |values| == 0 then 0.0 else Sum(values[..|values| - 1]) + values[|values| - 1]
  }

  predicate StrictlySorted(b: seq<real>) {
    forall i, j :: 0 <= i < j < |b| ==> b[i] < b[j]
  }

  /** Bucket `i` takes the values above the boundary before it, up to its own. The last one has no
      boundary of its own. */
  predicate InBucket(b: seq<real>, i: nat, v: real)
    requires i <= |b|
  {
    (i > 0 ==> b[i - 1] < v) && (i < |b| ==> v <= b[i])
  }

  ghost function CountIn(values: seq<real>, b: seq<real>, i: nat): nat
    requires i <= |b|
  {
    if |values| == 0 then 0 else CountIn(values[1..], b, i) + (if InBucket(b, i, values[0]) then 1 else 0)
  }

  /** A bucket's own count is the difference of two naive counts. */
  lemma {:induction false} CountInIsDifference(values: seq<real>, b: seq<real>, i: nat)
    requires StrictlySorted(b) && i <= |b|
    ensures (if i < |b| then CountUpTo(values, b[i]) else |values|)
         == (if i > 0 then CountUpTo(values, b[i - 1]) else 0) + CountIn(values, b, i)
    decreases |values|
  {
    if |values| > 0 {
      CountInIsDifference(values[1..], b, i);
    }
  }

  lemma {:induction false} CountInSnoc(values: seq<real>, v: real, b: seq<real>, i: nat)
    requires i <= |b|
    ensures CountIn(values + [v], b, i) == CountIn(values, b, i) + (if InBucket(b, i, v) then 1 else 0)
    decreases |values|
  {
    if |values| == 0 {
      assert values + [v] == [v];
    } else {
      assert (values + [v])[1..] == values[1..] + [v];
      CountInSnoc(values[1..], v, b, i);
    }
  }

  /** One more value counts in the bucket that bisection finds, and in no other. */
  lemma CountsAfter(values: seq<real>, v: real, b: seq<real>, index: nat)
    requires StrictlySorted(b) && index <= |b|
    requires (forall i :: 0 <= i < index ==> b[i] < v) && (forall i :: index <= i < |b| ==> v <= b[i])
    ensures forall i :: 0 <= i <= |b| ==> CountIn(values + [v], b, i) == CountIn(values, b, i) + (if i == index then 1 else 0)
  {
    hide CountIn;
    forall i | 0 <= i <= |b|
      ensures CountIn(values + [v], b, i) == CountIn(values, b, i) + (if i == index then 1 else 0)
    {
      CountInSnoc(values, v, b, i);
      assert InBucket(b, i, v) <==> i == index;
    }
  }

  lemma SumSnoc(values: seq<real>, v: real)
    ensures Sum(values + [v]) == Sum(values) + v
  {
    assert (values + [v])[..|values|] == values;
  }

  /** `std::lower_bound`: the first boundary that is not below the value. */
  method LowerBound(b: seq<real>, v: real) returns (first: nat)
    requires StrictlySorted(b)
    ensures first <= |b|
    ensures forall i :: 0 <= i < first ==> b[i] < v
    ensures forall i :: first <= i < |b| ==> v <= b[i]
  {
    first := 0;
    var count := |b|;
    while count > 0
      invariant 0 <= count && first + count <= |b|
      invariant forall i :: 0 <= i < first ==> b[i] < v
      invariant forall i :: first + count <= i < |b| ==> v <= b[i]
    {
      var step := count / 2;
      if b[first + step] < v {
        first, count := first + step + 1, count - (step + 1);
      } else {
        count := step;
      }
    }
  }

  /** One bucket of the collected metric; no upper bound stands for infinity. */
  datatype Bucket = Upto(cumulativeCount: nat, upperBound: real) | Unbounded(cumulativeCount: nat)

  class Histogram {
    const boundaries: seq<real>
    const bucketCounts: array<nat>
    var sum: real
    ghost var values: seq<real>  // observed since the last reset

    ghost predicate Valid()
      reads this, bucketCounts
    {
      && StrictlySorted(boundaries) && bucketCounts.Length == |boundaries| + 1
      && sum == Sum(values)
      && forall i :: 0 <= i < bucketCounts.Length ==> bucketCounts[i] == CountIn(values, boundaries, i)
    }

    constructor Make(boundaries: seq<real>)
      requires StrictlySorted(boundaries)
      ensures Valid() && values == [] && this.boundaries == boundaries && fresh(bucketCounts)
    {
      this.boundaries := boundaries;
      bucketCounts := new nat[|boundaries| + 1](_ => 0);
      sum, values := 0.0, [];
    }

    /** The C++ constructor: it throws, here gives null, unless the boundaries strictly increase,
        which it finds out by looking at neighbours. */
    static method New(boundaries: seq<real>) returns (h: Histogram?)
      ensures h == null <==> !StrictlySorted(boundaries)
      ensures h != null ==> h.Valid() && h.values == [] && h.boundaries == boundaries && fresh(h)
    {
      h := null;
      var i := 0;
      while i + 1 < |boundaries|
        invariant 0 <= i && (i == 0 || i < |boundaries|) && h == null
        invariant forall j, k :: 0 <= j < k <= i && k < |boundaries| ==> boundaries[j] < boundaries[k]
      {
        if boundaries[i] >= boundaries[i + 1] {
          return;
        }
        i := i + 1;
      }
      h := new Histogram.Make(boundaries);
    }

    method Observe(value: real)
      requires Valid()
      modifies this, bucketCounts
      ensures Valid() && values == old(values) + [value]
    {
      hide CountIn, Sum, StrictlySorted;
      var bucketIndex := LowerBound(boundaries, value);
      CountsAfter(values, value, boundaries, bucketIndex);
      SumSnoc(values, value);
      sum := sum + value;
      bucketCounts[bucketIndex] := bucketCounts[bucketIndex] + 1;
      values := values + [value];
    }

    method Reset()
      requires Valid()
      modifies this, bucketCounts
      ensures Valid() && values == []
    {
      var i := 0;
      while i < bucketCounts.Length
        modifies bucketCounts
        invariant 0 <= i <= bucketCounts.Length
        invariant forall j :: 0 <= j < i ==> bucketCounts[j] == 0
      {
        bucketCounts[i] := 0;
        i := i + 1;
      }
      sum := 0.0;
      values := [];
    }

    /** Each bucket shows the number of observed values up to its boundary, the last one all of
        them, and no bucket shows less than the one before. */
    method Collect() returns (buckets: seq<Bucket>, sampleCount: nat, sampleSum: real)
      requires Valid()
      ensures |buckets| == |boundaries| + 1
      ensures forall i :: 0 <= i < |boundaries| ==> buckets[i] == Upto(CountUpTo(values, boundaries[i]), boundaries[i])
      ensures buckets[|boundaries|] == Unbounded(|values|)
      ensures forall i, j :: 0 <= i < j < |buckets| ==> buckets[i].cumulativeCount <= buckets[j].cumulativeCount
      ensures sampleCount == |values| && sampleSum == Sum(values)
    {
      buckets, sampleCount := [], 0;
      var i := 0;
      while i < bucketCounts.Length
        invariant 0 <= i <= bucketCounts.Length && |buckets| == i
        invariant sampleCount == if i == 0 then 0 else buckets[i - 1].cumulativeCount
        invariant forall k :: 0 <= k < i && k < |boundaries| ==> buckets[k] == Upto(CountUpTo(values, boundaries[k]), boundaries[k])
        invariant i == bucketCounts.Length ==> buckets[|boundaries|] == Unbounded(|values|)
        invariant forall j, k :: 0 <= j < k < i ==> buckets[j].cumulativeCount <= buckets[k].cumulativeCount
      {
        CountInIsDifference(values, boundaries, i);
        sampleCount := sampleCount + bucketCounts[i];
        buckets := buckets + [if i == |boundaries| then Unbounded(sampleCount) else Upto(sampleCount, boundaries[i])];
        i := i + 1;
      }
      sampleSum := sum;
    }
  }
}

/** Splitting the tests into evaluation batches (ci/e2e/evaluate.py). */
module Batches {
  import opened Basics

  const MAX_BATCH := 8

  function CeilDiv(n: int, d: int): (r: int)
    requires d > 0
    ensures (r - 1) * d < n <= r * d
  {
    assert -n == (-n / d) * d + (-n % d);
    assert (-(-n / d)) * d == -((-n / d) * d);
    -(-n / d)
  }

  /** How many batches there are without a batch size. */
  function BatchCount(n: int, workers: int): (count: int)
    requires n > 0 && workers > 0
    ensures 1 <= count <= n && count >= (if workers <= n then workers else n)
    ensures n <= count * 8
    ensures forall c :: c >= (if workers <= n then workers else n) && n <= c * 8 ==> count <= c
  {
    var needed := CeilDiv(n, MAX_BATCH);
    var count := if workers >= needed then workers else needed;
    if count <= n then count else n
  }

  /** The batches are the tests in order, cut into pieces. */
  ghost predicate CutsUp(tests: seq<string>, batches: seq<seq<string>>)
  {
    Flatten(batches) == tests && forall i :: 0 <= i < |batches| ==> batches[i] != []
  }

  /** The loop over the sizes, the first `extra` of which are one larger than `base`. */
  method CutEvenly(tests: seq<string>, count: int, base: int, extra: int) returns (batches: seq<seq<string>>)
    requires count > 0 && base > 0 && 0 <= extra < count && |tests| == count * base + extra
    ensures CutsUp(tests, batches) && |batches| == count
    ensures forall i :: 0 <= i < count ==> |batches[i]| == base + if i < extra then 1 else 0
  {
    batches := [];
    var start := 0;
    for i := 0 to count
      invariant start == i * base + (if i < extra then i else extra) <= |tests|
      invariant |batches| == i && Flatten(batches) == tests[..start]
      invariant forall k :: 0 <= k < i ==> |batches[k]| == base + if k < extra then 1 else 0
    {
      var size := base + if i < extra then 1 else 0;
      RoomLeft(count, base, extra, i);
      var batch := tests[start..start + size];
      assert tests[..start] + batch == tests[..start + size];
      assert (batches + [batch])[..i] == batches;
      batches := batches + [batch];
      start := start + size;
    }
    assert tests[..start] == tests;
  }

  lemma RoomLeft(count: int, base: int, extra: int, i: int)
    requires 0 <= i < count && base > 0 && 0 <= extra < count
    ensures (i + 1) * base == i * base + base
    ensures (i + 1) * base + (if i + 1 < extra then i + 1 else extra) <= count * base + extra
  {
    assert (count - (i + 1)) * base >= 0;
    assert (count - (i + 1)) * base == count * base - (i + 1) * base;
  }

  /** The loop over equal sizes, whose last slice may be short. */
  method CutBySize(tests: seq<string>, size: int) returns (batches: seq<seq<string>>)
    requires tests != [] && size > 0
    ensures CutsUp(tests, batches) && |batches| == CeilDiv(|tests|, size)
    ensures forall i :: 0 <= i < |batches| - 1 ==> |batches[i]| == size
    ensures 1 <= |batches[|batches| - 1]| <= size
  {
    var count := CeilDiv(|tests|, size);
    batches := [];
    var start := 0;
    for i := 0 to count
      invariant start == i * size && i <= count
      invariant |batches| == i && Flatten(batches) == tests[..if start <= |tests| then start else |tests|]
      invariant forall k :: 0 <= k < i ==> 1 <= |batches[k]| <= size
      invariant forall k :: 0 <= k < i && k < count - 1 ==> |batches[k]| == size
    {
      StartInside(count, size, i);
      var end := if start + size <= |tests| then start + size else |tests|;
      var batch := tests[start..end];
      assert tests[..start] + batch == tests[..end];
      assert (batches + [batch])[..i] == batches;
      batches := batches + [batch];
      start := start + size;
    }
    assert tests[..|tests|] == tests;
  }

  lemma Scaled(a: int, b: int, d: int)
    requires a <= b && d >= 0
    ensures a * d <= b * d
  {
  }

  lemma StartInside(count: int, size: int, i: int)
    requires 0 <= i < count && size > 0
    ensures i * size <= (count - 1) * size
    ensures i < count - 1 ==> i * size + size <= (count - 1) * size
    ensures (i + 1) * size == i * size + size
  {
    Scaled(i, count - 1, size);
    if i < count - 1 {
      Scaled(i + 1, count - 1, size);
    }
  }

  lemma SmallBatches(n: int, count: int)
    requires 1 <= count <= n <= count * MAX_BATCH
    ensures 1 <= n / count <= MAX_BATCH && n == count * (n / count) + n % count
    ensures n / count == MAX_BATCH ==> n % count == 0
  {
    var base := n / count;
    assert n == count * base + n % count;
    assert base <= 0 ==> base * count <= 0 * count by {
      if base <= 0 {
        Scaled(base, 0, count);
      }
    }
    assert base > MAX_BATCH ==> (MAX_BATCH + 1) * count <= base * count by {
      if base > MAX_BATCH {
        Scaled(MAX_BATCH + 1, base, count);
      }
    }
  }

  /** `split`. */
  method Split(tests: seq<string>, workers: int, batchSize: Option<int>)
    returns (r: Result<seq<seq<string>>, string>)
    ensures r.Failure? <==> workers < 1 || (batchSize.Some? && batchSize.value < 1)
    ensures r.Success? ==> CutsUp(tests, r.value)
    ensures r.Success? && batchSize.None? && tests != [] ==>
      && |r.value| == BatchCount(|tests|, workers)
      && (forall i :: 0 <= i < |r.value| ==> 1 <= |r.value[i]| <= 8)
      && (forall i, j :: 0 <= i < |r.value| && 0 <= j < |r.value| ==> |r.value[i]| <= |r.value[j]| + 1)
    ensures r.Success? && batchSize.Some? && tests != [] ==>
      && (forall i :: 0 <= i < |r.value| - 1 ==> |r.value[i]| == batchSize.value)
      && |r.value| == CeilDiv(|tests|, batchSize.value)
  {
    if workers < 1 || (batchSize.Some? && batchSize.value < 1) {
      return Failure("workers and batch_size must be at least 1");
    }
    if tests == [] {
      return Success([]);
    }
    var batches;
    if batchSize.None? {
      var count := BatchCount(|tests|, workers);
      SmallBatches(|tests|, count);
      batches := CutEvenly(tests, count, |tests| / count, |tests| % count);
    } else {
      batches := CutBySize(tests, batchSize.value);
    }
    r := Success(batches);
  }
}

// How the driver spreads the divisions over threads: `cycle` full batches of nThread consecutive
// division indices, then one extra batch with the `remain` indices left over.

module Batches {

  /** The indices 0 .. n-1 in order. */
  function Iota(n: nat): (r: seq<int>)
    ensures |r| == n && forall i | 0 <= i < n :: r[i] == i
  {
    seq(n, i => i)
  }

  /** The indices a .. b-1 in order. */
  function Span(a: int, b: int): (r: seq<int>)
    requires a <= b
    ensures |r| == b - a && forall i | 0 <= i < b - a :: r[i] == a + i
  {
    seq(b - a, i => a + i)
  }

  /** The batches run one after the other, as one sequence of indices. */
  function Flatten(batches: seq<seq<int>>): seq<int> {
    if |batches| == 0 then [] else Flatten(batches[..|batches| - 1]) + batches[|batches| - 1]
  }

  /**
   * cycle = nDivision / nThread and remain = nDivision - nThread * cycle, with C++ integer division
   * on non-negative operands: remain is the remainder of the division.
   */
  function CycleRemain(nDivision: nat, nThread: int): (r: (int, int))
    requires nThread > 0
    ensures r.0 >= 0 && nThread * r.0 + r.1 == nDivision && 0 <= r.1 < nThread
  {
    var cycle := nDivision / nThread;
    (cycle, nDivision - nThread * cycle)
  }

  lemma IotaSpan(a: nat, b: nat)
    requires a <= b
    ensures Iota(a) + Span(a, b) == Iota(b)
  {
    assert forall i | 0 <= i < b :: (Iota(a) + Span(a, b))[i] == i;
  }

  /**
   * The batches the driver launches: in cycle c the threads for indices c * nThread .. (c + 1) * nThread - 1,
   * then, when remain > 0, one more batch for cycle * nThread .. nDivision - 1. Run in order, they are
   * the indices 0 .. nDivision-1; no batch is empty or holds more than nThread indices, and only the
   * last can hold fewer.
   */
  method Plan(nDivision: nat, nThread: int) returns (batches: seq<seq<int>>)
    requires nThread > 0
    ensures Flatten(batches) == Iota(nDivision)
    ensures |batches| == CycleRemain(nDivision, nThread).0 + (if CycleRemain(nDivision, nThread).1 > 0 then 1 else 0)
    ensures forall b | 0 <= b < |batches| :: 0 < |batches[b]| <= nThread
    ensures forall b | 0 <= b < |batches| - 1 :: |batches[b]| == nThread
    ensures forall b, k | 0 <= b < |batches| && 0 <= k < |batches[b]| :: 0 <= batches[b][k] < nDivision
  {
    var (cycle, remain) := CycleRemain(nDivision, nThread);
    batches := [];
    var start := 0;
    for c := 0 to cycle
      invariant |batches| == c && start == nThread * c
      invariant Flatten(batches) == Iota(start)
      invariant forall b | 0 <= b < c :: |batches[b]| == nThread
    {
      var batch := Batch(start, start + nThread);
      Append(batches, batch);
      IotaSpan(start, start + nThread);
      batches := batches + [batch];
      start := start + nThread;
      NextCycle(nThread, c);
    }
    if remain > 0 {
      var batch := Batch(start, nDivision);
      Append(batches, batch);
      IotaSpan(start, nDivision);
      batches := batches + [batch];
    }
    forall b, k | 0 <= b < |batches| && 0 <= k < |batches[b]|
      ensures 0 <= batches[b][k] < nDivision
    {
      InFlatten(batches, b, k);
    }
  }

  /** The threads of one batch, created for the indices first .. last-1 in order. */
  method Batch(first: int, last: int) returns (batch: seq<int>)
    requires first <= last
    ensures batch == Span(first, last)
  {
    batch := [];
    for p := first to last
      invariant batch == Span(first, p)
    {
      batch := batch + [p];
    }
  }

  /** Whatever a batch holds is among the flattened indices. */
  lemma {:induction false} InFlatten(batches: seq<seq<int>>, b: int, k: int)
    requires 0 <= b < |batches| && 0 <= k < |batches[b]|
    ensures batches[b][k] in Flatten(batches)
  {
    if b < |batches| - 1 {
      InFlatten(batches[..|batches| - 1], b, k);
    }
  }

  lemma NextCycle(n: int, c: int)
    ensures n * c + n == n * (c + 1)
  {
  }

  lemma Append(batches: seq<seq<int>>, batch: seq<int>)
    ensures Flatten(batches + [batch]) == Flatten(batches) + batch
  {
    assert (batches + [batch])[..|batches|] == batches;
  }

  /** Every division index appears exactly once among the batches, and nothing else appears. */
  lemma {:induction false} IotaOnce(n: nat)
    ensures forall k :: multiset(Iota(n))[k] == if 0 <= k < n then 1 else 0
  {
    if n > 0 {
      IotaOnce(n - 1);
      assert Iota(n) == Iota(n - 1) + [n - 1];
    }
  }
}

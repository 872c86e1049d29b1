// The operator string: slot encoding, the counters n and nw, and how the basis state
// propagates through off-diagonal operators.

module Operators {
  import opened Lattice

  /** Slot encoding: -1 is the identity, 2*b a diagonal and 2*b + 1 an off-diagonal operator on bond b. */
  const Identity := -1

  predicate ValidOps(ops: seq<int>, nBonds: int) {
    forall p | 0 <= p < |ops| :: ops[p] == Identity || 0 <= ops[p] < 2 * nBonds
  }

  function BondOf(x: int): int {
    x / 2
  }

  predicate IsOffDiagonal(x: int) {
    x >= 0 && x % 2 == 1
  }

  /** `x ^ 1` on a non-negative slot: swaps diagonal and off-diagonal, keeps the bond. */
  function ToggleType(x: int): (r: int)
    requires x >= 0
    ensures r >= 0 && BondOf(r) == BondOf(x) && r % 2 != x % 2
  {
    if x % 2 == 0 then x + 1 else x - 1
  }

  function Occupied(x: int): nat {
    if x != Identity then 1 else 0
  }

  function WeakOccupied(x: int): nat {
    if x != Identity && IsWeakBond(BondOf(x)) then 1 else 0
  }

  /** n: the number of non-identity slots. */
  function CountOps(ops: seq<int>): nat {
    if |ops| == 0 then 0 else CountOps(ops[..|ops| - 1]) + Occupied(ops[|ops| - 1])
  }

  /** nw: the number of non-identity slots whose bond is weak. */
  function CountWeak(ops: seq<int>): nat {
    if |ops| == 0 then 0 else CountWeak(ops[..|ops| - 1]) + WeakOccupied(ops[|ops| - 1])
  }

  /** Overwriting one slot changes each counter by the difference of that slot's contributions. */
  lemma {:induction false} CountUpdate(ops: seq<int>, i: int, x: int)
    requires 0 <= i < |ops|
    ensures CountOps(ops[i := x]) == CountOps(ops) - Occupied(ops[i]) + Occupied(x)
    ensures CountWeak(ops[i := x]) == CountWeak(ops) - WeakOccupied(ops[i]) + WeakOccupied(x)
  {
    var last := |ops| - 1;
    if i == last {
      assert ops[i := x][..last] == ops[..last];
    } else {
      assert ops[i := x][..last] == ops[..last][i := x];
      CountUpdate(ops[..last], i, x);
    }
  }

  /** 0 <= nw <= n <= M. */
  lemma {:induction false} CountBounds(ops: seq<int>)
    ensures CountWeak(ops) <= CountOps(ops) <= |ops|
  {
    if |ops| > 0 {
      CountBounds(ops[..|ops| - 1]);
    }
  }

  /** Slots that keep their identity-ness and their bond keep both counters. */
  predicate SameShape(a: seq<int>, b: seq<int>) {
    |a| == |b| &&
    forall p | 0 <= p < |a| :: (a[p] == Identity <==> b[p] == Identity) && (a[p] != Identity ==> BondOf(a[p]) == BondOf(b[p]))
  }

  lemma {:induction false} CountsOfSameShape(a: seq<int>, b: seq<int>)
    requires SameShape(a, b)
    ensures CountOps(a) == CountOps(b) && CountWeak(a) == CountWeak(b)
  {
    if |a| > 0 {
      var last := |a| - 1;
      assert SameShape(a[..last], b[..last]);
      CountsOfSameShape(a[..last], b[..last]);
    }
  }

  /** k identity slots: the padding appended when the cut-off grows. */
  function Padding(k: nat): (r: seq<int>)
    ensures |r| == k && forall p | 0 <= p < k :: r[p] == Identity
  {
    seq(k, _ => Identity)
  }

  /** Identity slots appended to a valid string leave it valid. */
  lemma ValidOpsPadding(ops: seq<int>, k: nat, nBonds: int)
    requires ValidOps(ops, nBonds)
    ensures ValidOps(ops + Padding(k), nBonds)
  {
    var padded := ops + Padding(k);
    forall p | 0 <= p < |padded|
      ensures padded[p] == Identity || 0 <= padded[p] < 2 * nBonds
    {
      if p < |ops| {
        assert padded[p] == ops[p];
      } else {
        assert padded[p] == Padding(k)[p - |ops|];
      }
    }
  }

  /** Appending identity slots (growing the cut-off) leaves both counters unchanged. */
  lemma {:induction false} CountsOfPadding(ops: seq<int>, k: nat)
    ensures CountOps(ops + Padding(k)) == CountOps(ops)
    ensures CountWeak(ops + Padding(k)) == CountWeak(ops)
  {
    var padded := ops + Padding(k);
    if k == 0 {
      assert padded == ops;
    } else {
      assert padded[..|padded| - 1] == ops + Padding(k - 1);
      assert padded[|padded| - 1] == Identity;
      CountsOfPadding(ops, k - 1);
    }
  }

  /**
   * The basis state just before slot p, obtained from the state before slot 0 by flipping
   * both spins of every off-diagonal operator in slots 0 .. p-1.
   */
  function Propagate(sp: seq<int>, ops: seq<int>, L: int, p: int): (r: seq<int>)
    requires L >= 2 && |sp| == L && ValidOps(ops, L) && 0 <= p <= |ops|
    ensures |r| == L
  {
    if p == 0 then sp
    else
      var before := Propagate(sp, ops, L, p - 1);
      if IsOffDiagonal(ops[p - 1]) then FlipBond(before, BondOf(ops[p - 1]), L) else before
  }

  /** Propagation keeps every spin in {-1, +1}. */
  lemma {:induction false} PropagateKeepsSpins(sp: seq<int>, ops: seq<int>, L: int, p: int)
    requires L >= 2 && |sp| == L && ValidOps(ops, L) && 0 <= p <= |ops|
    requires ValidSpins(sp)
    ensures ValidSpins(Propagate(sp, ops, L, p))
  {
    if p > 0 {
      PropagateKeepsSpins(sp, ops, L, p - 1);
      if IsOffDiagonal(ops[p - 1]) {
        FlipBondKeepsSpins(Propagate(sp, ops, L, p - 1), BondOf(ops[p - 1]), L);
      }
    }
  }

  /** Propagation reads only the off-diagonal slots. */
  lemma {:induction false} PropagateSameOffDiagonal(sp: seq<int>, a: seq<int>, b: seq<int>, L: int, p: int)
    requires L >= 2 && |sp| == L && ValidOps(a, L) && ValidOps(b, L) && 0 <= p <= |a| && p <= |b|
    requires forall q | 0 <= q < p :: IsOffDiagonal(a[q]) == IsOffDiagonal(b[q]) && (IsOffDiagonal(a[q]) ==> a[q] == b[q])
    ensures Propagate(sp, a, L, p) == Propagate(sp, b, L, p)
  {
    if p > 0 {
      PropagateSameOffDiagonal(sp, a, b, L, p - 1);
    }
  }
}

// Periodic dimerized chain: sites, bonds, couplings and the spin configuration.

module Lattice {

  /** Site at the far end of bond b on a ring of L sites (bond b joins b and b + 1 mod L). */
  function NextSite(b: int, L: int): int
    requires L > 0
  {
    (b + 1) % L
  }

  /** Even-indexed bonds carry the weak coupling Jw, odd-indexed ones the strong coupling 1. */
  predicate IsWeakBond(b: int) {
    b % 2 == 0
  }

  function Coupling(b: int, jw: real): real {
    if IsWeakBond(b) then jw else 1.0
  }

  predicate IsSpin(x: int) {
    x == 1 || x == -1
  }

  predicate ValidSpins(sp: seq<int>) {
    forall i | 0 <= i < |sp| :: IsSpin(sp[i])
  }

  /** The two ends of a bond are distinct sites of the ring as soon as it has two sites. */
  lemma BondEndsDistinct(b: int, L: int)
    requires L >= 2 && 0 <= b < L
    ensures 0 <= NextSite(b, L) < L && NextSite(b, L) != b
  {
    if b + 1 < L {
      assert NextSite(b, L) == b + 1;
    } else {
      assert NextSite(b, L) == 0;
    }
  }

  /** Both spins of bond b reversed: the action of an off-diagonal operator on the basis state. */
  function FlipBond(sp: seq<int>, b: int, L: int): (r: seq<int>)
    requires L >= 2 && |sp| == L && 0 <= b < L
    ensures |r| == L
  {
    sp[b := -sp[b]][NextSite(b, L) := -sp[NextSite(b, L)]]
  }

  lemma {:induction false} FlipBondKeepsSpins(sp: seq<int>, b: int, L: int)
    requires L >= 2 && |sp| == L && 0 <= b < L && ValidSpins(sp)
    ensures ValidSpins(FlipBond(sp, b, L))
    ensures FlipBond(sp, b, L)[b] == -sp[b]
    ensures FlipBond(sp, b, L)[NextSite(b, L)] == -sp[NextSite(b, L)]
    ensures forall i | 0 <= i < L && i != b && i != NextSite(b, L) :: FlipBond(sp, b, L)[i] == sp[i]
  {
    BondEndsDistinct(b, L);
  }
}

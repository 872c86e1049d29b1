// The linked vertex list: four legs per slot (4p, 4p+1 below the operator, 4p+2, 4p+3 above
// it; the odd legs sit on the second site of the bond), and for every site the cyclic
// imaginary-time sequence of the operators acting on it.

module Vertices {
  import opened Lattice
  import opened Operators

  /** Slot p holds an operator acting on site s. */
  predicate Touches(ops: seq<int>, L: int, p: int, s: int)
    requires L > 0 && 0 <= p < |ops|
  {
    ops[p] != Identity && (BondOf(ops[p]) == s || NextSite(BondOf(ops[p]), L) == s)
  }

  /** 0 when s is the first site of the bond in slot p, 1 when it is the second. */
  function Column(ops: seq<int>, p: int, s: int): int
    requires 0 <= p < |ops|
  {
    if BondOf(ops[p]) == s then 0 else 1
  }

  /** The leg through which site s enters the operator in slot p. */
  function LowerLeg(ops: seq<int>, p: int, s: int): int
    requires 0 <= p < |ops|
  {
    4 * p + Column(ops, p, s)
  }

  /** The leg through which site s leaves the operator in slot p. */
  function UpperLeg(ops: seq<int>, p: int, s: int): int
    requires 0 <= p < |ops|
  {
    4 * p + 2 + Column(ops, p, s)
  }

  predicate IsUpper(w: int) {
    w % 4 >= 2
  }

  /** The site a leg belongs to. */
  function LegSite(ops: seq<int>, L: int, w: int): int
    requires L > 0 && 0 <= w < 4 * |ops|
  {
    if w % 2 == 0 then BondOf(ops[w / 4]) else NextSite(BondOf(ops[w / 4]), L)
  }

  lemma LegsOfSite(ops: seq<int>, L: int, q: int, s: int)
    requires L >= 2 && ValidOps(ops, L) && 0 <= q < |ops| && Touches(ops, L, q, s)
    ensures 0 <= LowerLeg(ops, q, s) < 4 * |ops| && LowerLeg(ops, q, s) / 4 == q
    ensures UpperLeg(ops, q, s) == LowerLeg(ops, q, s) + 2 && UpperLeg(ops, q, s) / 4 == q
    ensures !IsUpper(LowerLeg(ops, q, s)) && IsUpper(UpperLeg(ops, q, s))
    ensures LegSite(ops, L, LowerLeg(ops, q, s)) == s && LegSite(ops, L, UpperLeg(ops, q, s)) == s
    ensures 0 <= s < L
  {
    BondEndsDistinct(BondOf(ops[q]), L);
  }

  lemma SiteOfLeg(ops: seq<int>, L: int, w: int)
    requires L >= 2 && ValidOps(ops, L) && 0 <= w < 4 * |ops| && ops[w / 4] != Identity
    ensures 0 <= LegSite(ops, L, w) < L && Touches(ops, L, w / 4, LegSite(ops, L, w))
    ensures w == if IsUpper(w) then UpperLeg(ops, w / 4, LegSite(ops, L, w)) else LowerLeg(ops, w / 4, LegSite(ops, L, w))
  {
    BondEndsDistinct(BondOf(ops[w / 4]), L);
  }

  /** The last slot before p whose operator acts on s, or -1. */
  function Before(ops: seq<int>, L: int, p: int, s: int): (r: int)
    requires L > 0 && 0 <= p <= |ops|
    ensures -1 <= r < p
    ensures r != -1 ==> Touches(ops, L, r, s)
    ensures forall q | r < q < p :: !Touches(ops, L, q, s)
  {
    if p == 0 then -1
    else if Touches(ops, L, p - 1, s) then p - 1
    else Before(ops, L, p - 1, s)
  }

  /** The first slot before p whose operator acts on s, or -1. */
  function FirstIn(ops: seq<int>, L: int, p: int, s: int): (r: int)
    requires L > 0 && 0 <= p <= |ops|
    ensures -1 <= r < p
    ensures r != -1 ==> Touches(ops, L, r, s)
    ensures forall q | 0 <= q < p && (r == -1 || q < r) :: !Touches(ops, L, q, s)
  {
    if p == 0 then -1
    else if FirstIn(ops, L, p - 1, s) != -1 then FirstIn(ops, L, p - 1, s)
    else if Touches(ops, L, p - 1, s) then p - 1
    else -1
  }

  /** The value vLast[s] holds once the slots before p have been scanned. */
  function LastLeg(ops: seq<int>, L: int, p: int, s: int): (r: int)
    requires L > 0 && 0 <= p <= |ops|
    ensures -1 <= r < 4 * p
  {
    var q := Before(ops, L, p, s);
    if q == -1 then -1 else UpperLeg(ops, q, s)
  }

  /** The value vFirst[s] holds once the slots before p have been scanned. */
  function FirstLeg(ops: seq<int>, L: int, p: int, s: int): (r: int)
    requires L > 0 && 0 <= p <= |ops|
    ensures -1 <= r < 4 * p
  {
    var q := FirstIn(ops, L, p, s);
    if q == -1 then -1 else LowerLeg(ops, q, s)
  }

  /** The operator acting on s just before slot q in periodic imaginary time. */
  function PrevCyc(ops: seq<int>, L: int, q: int, s: int): (r: int)
    requires L > 0 && 0 <= q < |ops| && Touches(ops, L, q, s)
    ensures 0 <= r < |ops| && Touches(ops, L, r, s)
  {
    if Before(ops, L, q, s) != -1 then Before(ops, L, q, s) else Before(ops, L, |ops|, s)
  }

  /** Leg w is linked: to another leg of the same site, on the other side of its operator, and back. */
  ghost predicate Linked(ops: seq<int>, L: int, X: seq<int>, w: int)
    requires L > 0 && |X| == 4 * |ops| && 0 <= w < |X|
  {
    0 <= X[w] < |X| && X[w] != w && X[X[w]] == w &&
    LegSite(ops, L, X[w]) == LegSite(ops, L, w) && IsUpper(X[w]) != IsUpper(w)
  }

  ghost predicate Paired(ops: seq<int>, L: int, X: seq<int>)
    requires L > 0 && |X| == 4 * |ops|
  {
    forall w {:trigger Linked(ops, L, X, w)} | 0 <= w < |X| && X[w] != -1 :: Linked(ops, L, X, w)
  }

  /**
   * The vertex list of an operator string: identity legs are -1; every leg of an operator is
   * linked (an involution without fixed points that keeps the site and swaps the side), and the
   * lower leg of an operator on site s is linked to the upper leg of the previous operator on s,
   * cyclically.
   */
  ghost predicate IsVertexList(ops: seq<int>, L: int, X: seq<int>)
    requires L >= 2 && ValidOps(ops, L)
  {
    |X| == 4 * |ops| &&
    forall w | 0 <= w < |X| ::
      if ops[w / 4] == Identity then X[w] == -1
      else
        Linked(ops, L, X, w) &&
        (!IsUpper(w) ==> X[w] == UpperLeg(ops, PrevCyc(ops, L, w / 4, LegSite(ops, L, w)), LegSite(ops, L, w)))
  }

  /** An operator string has exactly one vertex list; hence rebuilding it is idempotent. */
  lemma VertexListUnique(ops: seq<int>, L: int, X: seq<int>, Y: seq<int>)
    requires L >= 2 && ValidOps(ops, L)
    requires IsVertexList(ops, L, X) && IsVertexList(ops, L, Y)
    ensures X == Y
  {
    forall w | 0 <= w < |X|
      ensures X[w] == Y[w]
    {
      if ops[w / 4] != Identity && IsUpper(w) {
        var u := X[w];
        assert X[u] == w;
        assert ops[u / 4] != Identity;
        assert !IsUpper(u);
        assert Y[u] == X[u];
        assert Y[Y[u]] == u;
      }
    }
  }

  /** Number of linked legs (entries that are not negative). */
  function CountLinked(X: seq<int>): nat {
    if |X| == 0 then 0 else CountLinked(X[..|X| - 1]) + (if X[|X| - 1] >= 0 then 1 else 0)
  }

  lemma CountLinkedSnoc(X: seq<int>, k: nat)
    requires k < |X|
    ensures CountLinked(X[..k + 1]) == CountLinked(X[..k]) + (if X[k] >= 0 then 1 else 0)
  {
    assert X[..k + 1][..k] == X[..k];
  }

  lemma {:induction false} CountLinkedPrefix(ops: seq<int>, L: int, X: seq<int>, k: nat)
    requires L >= 2 && ValidOps(ops, L) && IsVertexList(ops, L, X) && k <= |ops|
    ensures CountLinked(X[..4 * k]) == 4 * CountOps(ops[..k])
  {
    if k > 0 {
      CountLinkedPrefix(ops, L, X, k - 1);
      var p := k - 1;
      assert ops[..k][..p] == ops[..p];
      CountLinkedSnoc(X, 4 * p);
      CountLinkedSnoc(X, 4 * p + 1);
      CountLinkedSnoc(X, 4 * p + 2);
      CountLinkedSnoc(X, 4 * p + 3);
      assert (4 * p) / 4 == p && (4 * p + 1) / 4 == p && (4 * p + 2) / 4 == p && (4 * p + 3) / 4 == p;
      if ops[p] == Identity {
        assert X[4 * p] == -1 && X[4 * p + 1] == -1 && X[4 * p + 2] == -1 && X[4 * p + 3] == -1;
      } else {
        assert Linked(ops, L, X, 4 * p) && Linked(ops, L, X, 4 * p + 1);
        assert Linked(ops, L, X, 4 * p + 2) && Linked(ops, L, X, 4 * p + 3);
      }
    }
  }

  /** Exactly 4n legs are linked: four per operator, none for an identity slot. */
  lemma LinkedLegCount(ops: seq<int>, L: int, X: seq<int>)
    requires L >= 2 && ValidOps(ops, L) && IsVertexList(ops, L, X)
    ensures CountLinked(X) == 4 * CountOps(ops)
  {
    CountLinkedPrefix(ops, L, X, |ops|);
    assert X[..4 * |ops|] == X;
    assert ops[..|ops|] == ops;
  }

  // ---------------------------------------------------------------------------------------
  // The construction: a forward scan of the slots, then the periodic closing of each site.
  // ---------------------------------------------------------------------------------------

  /** Link leg `leg` to the previous upper leg `a` when there is one (`a > -1`). */
  function Attach(X: seq<int>, a: int, leg: int): seq<int>
    requires 0 <= leg < |X|
  {
    if 0 <= a < |X| then X[a := leg][leg := a] else X
  }

  /** vFirst[s] is set to `leg` when site s had no operator yet (`a == -1`). */
  function AttachFirst(F: seq<int>, s: int, a: int, leg: int): seq<int>
    requires 0 <= s < |F|
  {
    if a > -1 then F else F[s := leg]
  }

  /** Link the first and the last leg of a site once the scan is over. */
  function Join(X: seq<int>, f: int, l: int): seq<int> {
    if 0 <= f < |X| && 0 <= l < |X| then X[f := l][l := f] else X
  }

  /** State of leg w once slots 0 .. p-1 have been scanned. */
  ghost predicate ScannedLeg(ops: seq<int>, L: int, p: int, X: seq<int>, w: int)
    requires L >= 2 && ValidOps(ops, L) && 0 <= p <= |ops| && |X| == 4 * |ops| && 0 <= w < |X|
  {
    if w / 4 >= p || ops[w / 4] == Identity then X[w] == -1
    else if IsUpper(w) then (X[w] == -1 <==> Before(ops, L, p, LegSite(ops, L, w)) == w / 4)
    else X[w] == LastLeg(ops, L, w / 4, LegSite(ops, L, w))
  }

  /** Loop invariant of the forward scan over slots 0 .. p-1. */
  ghost predicate Scanned(ops: seq<int>, L: int, p: int, X: seq<int>, F: seq<int>, La: seq<int>)
    requires L >= 2 && ValidOps(ops, L) && 0 <= p <= |ops|
  {
    |X| == 4 * |ops| && |F| == L && |La| == L &&
    (forall s | 0 <= s < L :: F[s] == FirstLeg(ops, L, p, s) && La[s] == LastLeg(ops, L, p, s)) &&
    (forall w | 0 <= w < |X| :: ScannedLeg(ops, L, p, X, w)) &&
    Paired(ops, L, X)
  }

  lemma ScanStart(ops: seq<int>, L: int, X: seq<int>, F: seq<int>, La: seq<int>)
    requires L >= 2 && ValidOps(ops, L)
    requires |X| == 4 * |ops| && (forall w | 0 <= w < |X| :: X[w] == -1)
    requires |F| == L && |La| == L && (forall s | 0 <= s < L :: F[s] == -1 && La[s] == -1)
    ensures Scanned(ops, L, 0, X, F, La)
  {
  }

  /** An identity slot changes nothing. */
  lemma ScanIdentity(ops: seq<int>, L: int, p: int, X: seq<int>, F: seq<int>, La: seq<int>)
    requires L >= 2 && ValidOps(ops, L) && 0 <= p < |ops| && ops[p] == Identity
    requires Scanned(ops, L, p, X, F, La)
    ensures Scanned(ops, L, p + 1, X, F, La)
  {
    var p1 := p + 1;
    forall w | 0 <= w < |X|
      ensures ScannedLeg(ops, L, p1, X, w)
    {
      assert ScannedLeg(ops, L, p, X, w);
      if w / 4 < p && ops[w / 4] != Identity {
        SiteOfLeg(ops, L, w);
      }
    }
  }

  /** vLast[s] during the scan: -1, or the upper leg on s of the last operator on s. */
  lemma LastLegFacts(ops: seq<int>, L: int, p: int, s: int)
    requires L >= 2 && ValidOps(ops, L) && 0 <= p <= |ops|
    ensures -1 <= LastLeg(ops, L, p, s) < 4 * p
    ensures LastLeg(ops, L, p, s) != -1 ==>
      var a := LastLeg(ops, L, p, s);
      0 <= s < L && IsUpper(a) && LegSite(ops, L, a) == s && a / 4 == Before(ops, L, p, s) &&
      ops[a / 4] != Identity && a == UpperLeg(ops, a / 4, s)
  {
    var q := Before(ops, L, p, s);
    if q != -1 {
      LegsOfSite(ops, L, q, s);
    }
  }

  /** Two successive `Attach` calls change exactly the two new pairs of legs. */
  lemma AttachTwice(X: seq<int>, a0: int, a1: int, l0: int, l1: int)
    requires 0 <= l0 < |X| && 0 <= l1 < |X| && l0 != l1
    requires -1 <= a0 < |X| && -1 <= a1 < |X|
    requires a0 != l0 && a0 != l1 && a1 != l0 && a1 != l1 && (a0 != -1 ==> a0 != a1)
    ensures var X' := Attach(Attach(X, a0, l0), a1, l1);
      |X'| == |X| && X'[l0] == (if a0 == -1 then X[l0] else a0) && X'[l1] == (if a1 == -1 then X[l1] else a1) &&
      (a0 != -1 ==> X'[a0] == l0) && (a1 != -1 ==> X'[a1] == l1) &&
      (forall w | 0 <= w < |X| && w != l0 && w != l1 && w != a0 && w != a1 :: X'[w] == X[w])
  {
  }

  /** The hypotheses about one leg before and after scanning the operator in slot p. */
  ghost predicate ScanStepLeg(ops: seq<int>, L: int, p: int, X: seq<int>, X': seq<int>, w: int)
    requires L >= 2 && ValidOps(ops, L) && 0 <= p < |ops| && ops[p] != Identity
    requires |X| == 4 * |ops| && |X'| == |X| && 0 <= w < |X|
  {
    var a0, a1 := LastLeg(ops, L, p, BondOf(ops[p])), LastLeg(ops, L, p, NextSite(BondOf(ops[p]), L));
    ScannedLeg(ops, L, p, X, w) &&
    X'[4 * p] == a0 && X'[4 * p + 1] == a1 &&
    (a0 != -1 ==> X'[a0] == 4 * p) && (a1 != -1 ==> X'[a1] == 4 * p + 1) &&
    (w != 4 * p && w != 4 * p + 1 && w != a0 && w != a1 ==> X'[w] == X[w])
  }

  /** One leg after scanning the operator in slot p. */
  lemma ScanOperatorLeg(ops: seq<int>, L: int, p: int, X: seq<int>, X': seq<int>, w: int)
    requires L >= 2 && ValidOps(ops, L) && 0 <= p < |ops| && ops[p] != Identity
    requires |X| == 4 * |ops| && |X'| == |X| && 0 <= w < |X|
    requires ScanStepLeg(ops, L, p, X, X', w)
    ensures ScannedLeg(ops, L, p + 1, X', w)
  {
    var s0, s1 := BondOf(ops[p]), NextSite(BondOf(ops[p]), L);
    BondEndsDistinct(s0, L);
    var q := w / 4;
    if q < p && ops[q] != Identity {
      if IsUpper(w) {
        ScanEarlierUpper(ops, L, p, X, X', w);
      } else {
        ScanEarlierLower(ops, L, p, X, X', w);
      }
    } else if q == p {
      ScanOwnLeg(ops, L, p, X, X', w);
    } else {
      ScanUntouchedLeg(ops, L, p, X, X', w);
    }
  }

  /** A lower leg of an earlier operator keeps its link: it is none of the legs slot p links. */
  lemma ScanEarlierLower(ops: seq<int>, L: int, p: int, X: seq<int>, X': seq<int>, w: int)
    requires L >= 2 && ValidOps(ops, L) && 0 <= p < |ops| && ops[p] != Identity
    requires |X| == 4 * |ops| && |X'| == |X| && 0 <= w < |X|
    requires w / 4 < p && ops[w / 4] != Identity && !IsUpper(w)
    requires ScanStepLeg(ops, L, p, X, X', w)
    ensures ScannedLeg(ops, L, p + 1, X', w)
  {
    var s0, s1 := BondOf(ops[p]), NextSite(BondOf(ops[p]), L);
    SiteOfLeg(ops, L, w);
    LastLegFacts(ops, L, p, s0);
    LastLegFacts(ops, L, p, s1);
  }

  /** A leg of an identity slot, or of a slot after p, stays unlinked. */
  lemma ScanUntouchedLeg(ops: seq<int>, L: int, p: int, X: seq<int>, X': seq<int>, w: int)
    requires L >= 2 && ValidOps(ops, L) && 0 <= p < |ops| && ops[p] != Identity
    requires |X| == 4 * |ops| && |X'| == |X| && 0 <= w < |X|
    requires w / 4 > p || (w / 4 < p && ops[w / 4] == Identity)
    requires ScanStepLeg(ops, L, p, X, X', w)
    ensures ScannedLeg(ops, L, p + 1, X', w)
  {
    var s0, s1 := BondOf(ops[p]), NextSite(BondOf(ops[p]), L);
    LastLegFacts(ops, L, p, s0);
    LastLegFacts(ops, L, p, s1);
  }

  /** An upper leg of an earlier operator stays open exactly while no later operator touches its site. */
  lemma ScanEarlierUpper(ops: seq<int>, L: int, p: int, X: seq<int>, X': seq<int>, w: int)
    requires L >= 2 && ValidOps(ops, L) && 0 <= p < |ops| && ops[p] != Identity
    requires |X| == 4 * |ops| && |X'| == |X| && 0 <= w < |X|
    requires w / 4 < p && ops[w / 4] != Identity && IsUpper(w)
    requires ScanStepLeg(ops, L, p, X, X', w)
    ensures ScannedLeg(ops, L, p + 1, X', w)
  {
    var s0, s1 := BondOf(ops[p]), NextSite(BondOf(ops[p]), L);
    BondEndsDistinct(s0, L);
    var q := w / 4;
    SiteOfLeg(ops, L, w);
    var s := LegSite(ops, L, w);
    LastLegFacts(ops, L, p, s);
    LastLegFacts(ops, L, p, s0);
    LastLegFacts(ops, L, p, s1);
    if s == s0 || s == s1 {
      assert Touches(ops, L, p, s);
      assert Before(ops, L, p + 1, s) == p;
      if Before(ops, L, p, s) == q {
        assert w == LastLeg(ops, L, p, s);
      } else {
        assert w != 4 * p && w != 4 * p + 1;
      }
    } else {
      assert !Touches(ops, L, p, s);
      assert Before(ops, L, p + 1, s) == Before(ops, L, p, s);
    }
  }

  /** The four legs of the operator in slot p itself. */
  lemma ScanOwnLeg(ops: seq<int>, L: int, p: int, X: seq<int>, X': seq<int>, w: int)
    requires L >= 2 && ValidOps(ops, L) && 0 <= p < |ops| && ops[p] != Identity
    requires |X| == 4 * |ops| && |X'| == |X| && 0 <= w < |X| && w / 4 == p
    requires ScanStepLeg(ops, L, p, X, X', w)
    ensures ScannedLeg(ops, L, p + 1, X', w)
  {
    var s0, s1 := BondOf(ops[p]), NextSite(BondOf(ops[p]), L);
    BondEndsDistinct(s0, L);
    LegsOfSite(ops, L, p, s0);
    LegsOfSite(ops, L, p, s1);
    LastLegFacts(ops, L, p, s0);
    LastLegFacts(ops, L, p, s1);
    if w == 4 * p + 2 {
      assert LegSite(ops, L, w) == s0 && Touches(ops, L, p, s0);
    } else if w == 4 * p + 3 {
      assert LegSite(ops, L, w) == s1 && Touches(ops, L, p, s1);
    } else if w == 4 * p {
      assert LegSite(ops, L, w) == s0;
    } else {
      assert w == 4 * p + 1 && LegSite(ops, L, w) == s1;
    }
  }

  /** The pointers vFirst and vLast after scanning the operator in slot p. */
  lemma ScanOperatorEnds(ops: seq<int>, L: int, p: int, F: seq<int>, La: seq<int>, F': seq<int>, La': seq<int>)
    requires L >= 2 && ValidOps(ops, L) && 0 <= p < |ops| && ops[p] != Identity
    requires |F| == L && |La| == L
    requires forall s | 0 <= s < L :: F[s] == FirstLeg(ops, L, p, s) && La[s] == LastLeg(ops, L, p, s)
    requires var s0, s1 := BondOf(ops[p]), NextSite(BondOf(ops[p]), L);
      0 <= s0 < L && 0 <= s1 < L &&
      F' == AttachFirst(AttachFirst(F, s0, La[s0], 4 * p), s1, La[s1], 4 * p + 1) &&
      La' == La[s0 := 4 * p + 2][s1 := 4 * p + 3]
    ensures |F'| == L && |La'| == L
    ensures forall s | 0 <= s < L :: F'[s] == FirstLeg(ops, L, p + 1, s) && La'[s] == LastLeg(ops, L, p + 1, s)
  {
    var s0, s1 := BondOf(ops[p]), NextSite(BondOf(ops[p]), L);
    BondEndsDistinct(s0, L);
    LegsOfSite(ops, L, p, s0);
    LegsOfSite(ops, L, p, s1);
    var p1 := p + 1;
    forall s | 0 <= s < L
      ensures F'[s] == FirstLeg(ops, L, p1, s) && La'[s] == LastLeg(ops, L, p1, s)
    {
      if s == s0 || s == s1 {
        assert Touches(ops, L, p, s);
        assert LastLeg(ops, L, p, s) == -1 <==> FirstLeg(ops, L, p, s) == -1;
      } else {
        assert !Touches(ops, L, p, s);
      }
    }
  }

  /** Scanning an operator slot links each of its lower legs to the last upper leg of its site. */
  lemma ScanOperator(ops: seq<int>, L: int, p: int, X: seq<int>, F: seq<int>, La: seq<int>,
                     X': seq<int>, F': seq<int>, La': seq<int>)
    requires L >= 2 && ValidOps(ops, L) && 0 <= p < |ops| && ops[p] != Identity
    requires Scanned(ops, L, p, X, F, La)
    requires var s0, s1 := BondOf(ops[p]), NextSite(BondOf(ops[p]), L);
      0 <= s0 < L && 0 <= s1 < L &&
      X' == Attach(Attach(X, La[s0], 4 * p), La[s1], 4 * p + 1) &&
      F' == AttachFirst(AttachFirst(F, s0, La[s0], 4 * p), s1, La[s1], 4 * p + 1) &&
      La' == La[s0 := 4 * p + 2][s1 := 4 * p + 3]
    ensures Scanned(ops, L, p + 1, X', F', La')
  {
    var s0, s1 := BondOf(ops[p]), NextSite(BondOf(ops[p]), L);
    BondEndsDistinct(s0, L);
    LastLegFacts(ops, L, p, s0);
    LastLegFacts(ops, L, p, s1);
    var a0, a1 := La[s0], La[s1];
    assert ScannedLeg(ops, L, p, X, 4 * p) && ScannedLeg(ops, L, p, X, 4 * p + 1);
    assert a0 != -1 ==> ScannedLeg(ops, L, p, X, a0) && X[a0] == -1;
    assert a1 != -1 ==> ScannedLeg(ops, L, p, X, a1) && X[a1] == -1;
    AttachTwice(X, a0, a1, 4 * p, 4 * p + 1);
    ScanOperatorEnds(ops, L, p, F, La, F', La');
    assert TwoLinks(ops, L, p, X, X');
    ScanFinish(ops, L, p, X, X', F', La');
  }

  /** The scanned state after slot p, assembled from the two links and the new site pointers. */
  lemma ScanFinish(ops: seq<int>, L: int, p: int, X: seq<int>, X': seq<int>, F': seq<int>, La': seq<int>)
    requires L >= 2 && ValidOps(ops, L) && 0 <= p < |ops| && ops[p] != Identity && |X| == 4 * |ops|
    requires forall w | 0 <= w < |X| :: ScannedLeg(ops, L, p, X, w)
    requires Paired(ops, L, X) && X[4 * p] == -1 && X[4 * p + 1] == -1
    requires var a0, a1 := LastLeg(ops, L, p, BondOf(ops[p])), LastLeg(ops, L, p, NextSite(BondOf(ops[p]), L));
      (a0 != -1 ==> X[a0] == -1) && (a1 != -1 ==> X[a1] == -1)
    requires TwoLinks(ops, L, p, X, X')
    requires |F'| == L && |La'| == L
    requires forall s | 0 <= s < L :: F'[s] == FirstLeg(ops, L, p + 1, s) && La'[s] == LastLeg(ops, L, p + 1, s)
    ensures Scanned(ops, L, p + 1, X', F', La')
  {
    ScanAllLegs(ops, L, p, p + 1, X, X');
    ScanOperatorPaired(ops, L, p, X, X');
  }

  /** The vertex list after linking the two lower legs of slot p to the last upper legs of their sites. */
  ghost predicate TwoLinks(ops: seq<int>, L: int, p: int, X: seq<int>, X': seq<int>)
    requires L >= 2 && ValidOps(ops, L) && 0 <= p < |ops| && ops[p] != Identity && |X| == 4 * |ops|
  {
    var a0, a1 := LastLeg(ops, L, p, BondOf(ops[p])), LastLeg(ops, L, p, NextSite(BondOf(ops[p]), L));
    |X'| == |X| && X'[4 * p] == a0 && X'[4 * p + 1] == a1 &&
    (a0 != -1 ==> X'[a0] == 4 * p) && (a1 != -1 ==> X'[a1] == 4 * p + 1) &&
    (forall w | 0 <= w < |X| && w != 4 * p && w != 4 * p + 1 && w != a0 && w != a1 :: X'[w] == X[w])
  }

  /** Every leg is in its scanned state after slot p once the two links are made. */
  lemma ScanAllLegs(ops: seq<int>, L: int, p: int, p1: int, X: seq<int>, X': seq<int>)
    requires L >= 2 && ValidOps(ops, L) && 0 <= p < |ops| && ops[p] != Identity && |X| == 4 * |ops|
    requires p1 == p + 1
    requires forall w | 0 <= w < |X| :: ScannedLeg(ops, L, p, X, w)
    requires TwoLinks(ops, L, p, X, X')
    ensures forall w | 0 <= w < |X'| :: ScannedLeg(ops, L, p1, X', w)
  {
    forall w | 0 <= w < |X'|
      ensures ScannedLeg(ops, L, p1, X', w)
    {
      assert ScannedLeg(ops, L, p, X, w);
      assert ScanStepLeg(ops, L, p, X, X', w);
      ScanOperatorLeg(ops, L, p, X, X', w);
    }
  }

  /** The two new links of slot p keep every link a proper pairing. */
  lemma ScanOperatorPaired(ops: seq<int>, L: int, p: int, X: seq<int>, X': seq<int>)
    requires L >= 2 && ValidOps(ops, L) && 0 <= p < |ops| && ops[p] != Identity
    requires |X| == 4 * |ops| && Paired(ops, L, X)
    requires X[4 * p] == -1 && X[4 * p + 1] == -1
    requires var a0, a1 := LastLeg(ops, L, p, BondOf(ops[p])), LastLeg(ops, L, p, NextSite(BondOf(ops[p]), L));
      (a0 != -1 ==> X[a0] == -1) && (a1 != -1 ==> X[a1] == -1)
    requires TwoLinks(ops, L, p, X, X')
    ensures Paired(ops, L, X')
  {
    var s0, s1 := BondOf(ops[p]), NextSite(BondOf(ops[p]), L);
    BondEndsDistinct(s0, L);
    LastLegFacts(ops, L, p, s0);
    LastLegFacts(ops, L, p, s1);
    LegsOfSite(ops, L, p, s0);
    LegsOfSite(ops, L, p, s1);
    var a0, a1 := LastLeg(ops, L, p, s0), LastLeg(ops, L, p, s1);
    forall w | 0 <= w < |X'| && X'[w] != -1
      ensures Linked(ops, L, X', w)
    {
      if w != 4 * p && w != 4 * p + 1 && w != a0 && w != a1 {
        assert Linked(ops, L, X, w);
      }
    }
  }

  /** State of leg w once the sites below i have been closed periodically. */
  ghost predicate ClosedLeg(ops: seq<int>, L: int, i: int, X: seq<int>, w: int)
    requires L >= 2 && ValidOps(ops, L) && |X| == 4 * |ops| && 0 <= w < |X|
  {
    if ops[w / 4] == Identity then X[w] == -1
    else
      var s := LegSite(ops, L, w);
      if IsUpper(w) then (X[w] == -1 <==> (Before(ops, L, |ops|, s) == w / 4 && s >= i))
      else X[w] == (if Before(ops, L, w / 4, s) == -1 && s < i then LastLeg(ops, L, |ops|, s) else LastLeg(ops, L, w / 4, s))
  }

  /** Loop invariant of the periodic closing over sites 0 .. i-1. */
  ghost predicate Closed(ops: seq<int>, L: int, i: int, X: seq<int>, F: seq<int>, La: seq<int>)
    requires L >= 2 && ValidOps(ops, L)
  {
    |X| == 4 * |ops| && |F| == L && |La| == L &&
    (forall s | 0 <= s < L :: F[s] == FirstLeg(ops, L, |ops|, s) && La[s] == LastLeg(ops, L, |ops|, s)) &&
    (forall w | 0 <= w < |X| :: ClosedLeg(ops, L, i, X, w)) &&
    Paired(ops, L, X)
  }

  lemma CloseStart(ops: seq<int>, L: int, X: seq<int>, F: seq<int>, La: seq<int>)
    requires L >= 2 && ValidOps(ops, L)
    requires Scanned(ops, L, |ops|, X, F, La)
    ensures Closed(ops, L, 0, X, F, La)
  {
    forall w | 0 <= w < |X|
      ensures ClosedLeg(ops, L, 0, X, w)
    {
      assert ScannedLeg(ops, L, |ops|, X, w);
      if ops[w / 4] != Identity {
        SiteOfLeg(ops, L, w);
      }
    }
  }

  /**
   * vFirst[s] and vLast[s] are -1 together, exactly when no operator of the scanned slots acts
   * on s; otherwise both are legs of those slots.
   */
  lemma SiteEnds(ops: seq<int>, L: int, p: int, s: int)
    requires L >= 2 && ValidOps(ops, L) && 0 <= p <= |ops|
    ensures FirstLeg(ops, L, p, s) == -1 <==> LastLeg(ops, L, p, s) == -1
    ensures FirstLeg(ops, L, p, s) == -1 <==> forall q | 0 <= q < p :: !Touches(ops, L, q, s)
    ensures -1 <= FirstLeg(ops, L, p, s) < 4 * p && -1 <= LastLeg(ops, L, p, s) < 4 * p
  {
    var qf, ql := FirstIn(ops, L, p, s), Before(ops, L, p, s);
    if qf != -1 {
      LegsOfSite(ops, L, qf, s);
    }
    if ql != -1 {
      LegsOfSite(ops, L, ql, s);
    }
  }

  /** The first operator on a site has no predecessor in the scan, and no other operator is first. */
  lemma FirstHasNoBefore(ops: seq<int>, L: int, q: int, s: int)
    requires L > 0 && 0 <= q < |ops| && Touches(ops, L, q, s)
    ensures Before(ops, L, q, s) == -1 <==> FirstIn(ops, L, |ops|, s) == q
  {
  }

  /** Closing site i links its first lower leg to its last upper leg. */
  lemma CloseSite(ops: seq<int>, L: int, i: int, X: seq<int>, F: seq<int>, La: seq<int>, X': seq<int>)
    requires L >= 2 && ValidOps(ops, L) && 0 <= i < L
    requires Closed(ops, L, i, X, F, La)
    requires X' == (if F[i] != -1 then Join(X, F[i], La[i]) else X)
    ensures Closed(ops, L, i + 1, X', F, La)
  {
    var i1 := i + 1;
    if F[i] == -1 {
      forall w | 0 <= w < |X|
        ensures ClosedLeg(ops, L, i1, X', w)
      {
        assert ClosedLeg(ops, L, i, X, w);
        if ops[w / 4] != Identity {
          SiteOfLeg(ops, L, w);
          assert LegSite(ops, L, w) != i;
        }
      }
    } else {
      var qf := FirstIn(ops, L, |ops|, i);
      var ql := Before(ops, L, |ops|, i);
      var f, l := F[i], La[i];
      LegsOfSite(ops, L, qf, i);
      LegsOfSite(ops, L, ql, i);
      FirstHasNoBefore(ops, L, qf, i);
      assert f == LowerLeg(ops, qf, i) && l == UpperLeg(ops, ql, i);
      assert ClosedLeg(ops, L, i, X, f) && ClosedLeg(ops, L, i, X, l);
      assert X[f] == -1 && X[l] == -1;
      assert X'[f] == l && X'[l] == f;
      assert forall w | 0 <= w < |X| && w != f && w != l :: X'[w] == X[w];
      forall w | 0 <= w < |X|
        ensures ClosedLeg(ops, L, i1, X', w)
      {
        assert ClosedLeg(ops, L, i, X, w);
        if ops[w / 4] != Identity && w != f && w != l {
          SiteOfLeg(ops, L, w);
          var s := LegSite(ops, L, w);
          if s == i && !IsUpper(w) {
            // w is not the first lower leg of site i, so its operator has a predecessor on i.
            FirstHasNoBefore(ops, L, w / 4, s);
            assert w / 4 != qf;
            assert Before(ops, L, w / 4, s) != -1;
          }
        }
      }
      forall w | 0 <= w < |X'| && X'[w] != -1
        ensures Linked(ops, L, X', w)
      {
        if w != f && w != l {
          assert Linked(ops, L, X, w);
          var u := X[w];
          assert u != f && u != l;
        }
      }
    }
  }

  lemma CloseEnd(ops: seq<int>, L: int, X: seq<int>, F: seq<int>, La: seq<int>)
    requires L >= 2 && ValidOps(ops, L)
    requires Closed(ops, L, L, X, F, La)
    ensures IsVertexList(ops, L, X)
  {
    forall w | 0 <= w < |X|
      ensures if ops[w / 4] == Identity then X[w] == -1
              else Linked(ops, L, X, w) &&
                   (!IsUpper(w) ==> X[w] == UpperLeg(ops, PrevCyc(ops, L, w / 4, LegSite(ops, L, w)), LegSite(ops, L, w)))
    {
      assert ClosedLeg(ops, L, L, X, w);
      if ops[w / 4] != Identity {
        SiteOfLeg(ops, L, w);
        var s := LegSite(ops, L, w);
        var q := PrevCyc(ops, L, w / 4, s);
        LegsOfSite(ops, L, q, s);
        if !IsUpper(w) {
          assert X[w] == UpperLeg(ops, q, s);
        }
        assert X[w] != -1;
        assert Linked(ops, L, X, w);
      }
    }
  }
}

// The SSE engine of the periodic dimerized Heisenberg chain: the operator string, the spins,
// the linked vertex list, and the Monte Carlo sweep (diagonal update, vertex list, loop update)
// over them. The pseudo-random draws are supplied by the caller as sequences of raw generator
// outputs, one per place where the engine consumes one.

module Engine {
  import opened Lattice
  import opened Operators
  import opened Vertices
  import opened Loops

  /** Largest value of the C library generator (glibc). */
  const RandMax := 2147483647

  /** getRandBond: a raw draw reduced to a bond index. */
  function RandBond(draw: nat, nBonds: int): (b: int)
    requires nBonds > 0
    ensures 0 <= b < nBonds
  {
    draw % nBonds
  }

  /** getRandProb: a raw draw scaled into the unit interval. */
  function RandProb(draw: nat): (r: real)
    ensures 0.0 <= r < 1.0
  {
    (draw % RandMax) as real / RandMax as real
  }

  /** Integer power x^k (the `pow(alpha_inv, nw)` of a measurement). */
  function Power(x: real, k: nat): real {
    if k == 0 then 1.0 else x * Power(x, k - 1)
  }

  /** A weight alpha in (0, 1] raised to any power stays in (0, 1]. */
  lemma {:induction false} PowerInUnit(x: real, k: nat)
    requires 0.0 < x <= 1.0
    ensures 0.0 < Power(x, k) <= 1.0
  {
    if k > 0 {
      PowerInUnit(x, k - 1);
      var r := Power(x, k - 1);
      assert x * r <= 1.0 * r by {
        assert (1.0 - x) * r >= 0.0;
      }
    }
  }

  /**
   * What the diagonal update does to one slot, given the basis state `sp` just below it:
   * an identity slot may receive a diagonal operator on the drawn bond, a diagonal operator may be
   * removed, and an off-diagonal operator is kept.
   */
  function DiagSlot(x: int, sp: seq<int>, L: int, draw: nat, accept: bool): (r: int)
    requires L >= 2 && |sp| == L && (x == Identity || 0 <= x < 2 * L)
    ensures r == Identity || 0 <= r < 2 * L
    ensures IsOffDiagonal(x) ==> r == x
    ensures x == Identity && r != x ==>
      r % 2 == 0 && BondOf(r) == RandBond(draw, L) && sp[BondOf(r)] != sp[NextSite(BondOf(r), L)] && accept
    ensures x != Identity && r != x ==> x % 2 == 0 && r == Identity && accept
    ensures !IsOffDiagonal(x) && accept && (x == Identity ==> sp[RandBond(draw, L)] != sp[NextSite(RandBond(draw, L), L)]) ==> r != x
  {
    if x == Identity then
      var b := RandBond(draw, L);
      if sp[b] != sp[NextSite(b, L)] && accept then 2 * b else Identity
    else if x % 2 == 0 then
      if accept then Identity else x
    else
      x
  }

  /** The operator string the diagonal update produces: DiagSlot of every slot and the state just below it. */
  function DiagString(ops: seq<int>, sp: seq<int>, L: int, bondDraws: seq<nat>, accept: seq<bool>): (r: seq<int>)
    requires L >= 2 && |sp| == L && ValidOps(ops, L) && |bondDraws| == |ops| && |accept| == |ops|
    ensures |r| == |ops| && ValidOps(r, L)
    ensures forall p | 0 <= p < |ops| && IsOffDiagonal(ops[p]) :: r[p] == ops[p]
  {
    seq(|ops|, p requires 0 <= p < |ops| => DiagSlot(ops[p], Propagate(sp, ops, L, p), L, bondDraws[p], accept[p]))
  }

  /**
   * The state of diagUpdate after slots 0 .. p-1: those slots hold DiagSlot of their original
   * content and the state below them, the rest are untouched, and the spins are the initial
   * state propagated through the first p slots.
   */
  ghost predicate DiagDone(O0: seq<int>, S0: seq<int>, L: int, bondDraws: seq<nat>, accept: seq<bool>, p: int,
                           ops: seq<int>, sp: seq<int>)
  {
    L >= 2 && |S0| == L && ValidOps(O0, L) && |bondDraws| == |O0| && |accept| == |O0| && 0 <= p <= |O0| &&
    |ops| == |O0| &&
    (forall q {:trigger ops[q]} | 0 <= q < p :: ops[q] == DiagSlot(O0[q], Propagate(S0, O0, L, q), L, bondDraws[q], accept[q])) &&
    (forall q {:trigger ops[q]} | p <= q < |O0| :: ops[q] == O0[q]) &&
    sp == Propagate(S0, O0, L, p)
  }

  /** One slot of diagUpdate extends its invariant by one. */
  lemma DiagDoneStep(O0: seq<int>, S0: seq<int>, L: int, bondDraws: seq<nat>, accept: seq<bool>, p: int,
                     ops: seq<int>, sp: seq<int>, ops': seq<int>, sp': seq<int>)
    requires L >= 2 && |S0| == L && ValidOps(O0, L) && |bondDraws| == |O0| && |accept| == |O0| && 0 <= p < |O0|
    requires DiagDone(O0, S0, L, bondDraws, accept, p, ops, sp)
    requires ValidOps(ops, L)
    requires ops' == ops[p := DiagSlot(ops[p], sp, L, bondDraws[p], accept[p])]
    requires sp' == if IsOffDiagonal(ops[p]) then FlipBond(sp, BondOf(ops[p]), L) else sp
    ensures DiagDone(O0, S0, L, bondDraws, accept, p + 1, ops', sp')
  {
    assert ops[p] == O0[p];
  }

  /** After the last slot, the string is DiagString of the original one and the state is the propagated one. */
  lemma DiagDoneEnd(O0: seq<int>, S0: seq<int>, L: int, bondDraws: seq<nat>, accept: seq<bool>, ops: seq<int>, sp: seq<int>)
    requires L >= 2 && |S0| == L && ValidOps(O0, L) && |bondDraws| == |O0| && |accept| == |O0|
    requires DiagDone(O0, S0, L, bondDraws, accept, |O0|, ops, sp)
    ensures ops == DiagString(O0, S0, L, bondDraws, accept) && sp == Propagate(S0, O0, L, |O0|)
  {
  }

  /** The mark of the loop walked from the even leg v: -2 (flipped) when v's coin is below one half, else -1. */
  function CoinMark(loopDraws: seq<nat>, v: int): int
    requires 0 <= v < 2 * |loopDraws|
  {
    if RandProb(loopDraws[v / 2]) < 0.5 then -2 else -1
  }

  /** Leg w lies on the loop cycles[R[w]] and carries the mark of that loop's starting leg. */
  ghost predicate LegCoin(X0: seq<int>, X: seq<int>, loopDraws: seq<nat>, cycles: seq<seq<int>>, R: seq<int>, w: int) {
    0 <= w < |X| && w < |R| && 0 <= R[w] < |cycles| && LoopFrom(X0, cycles[R[w]]) && w in cycles[R[w]] &&
    0 <= cycles[R[w]][0] < 2 * |loopDraws| && X[w] == CoinMark(loopDraws, cycles[R[w]][0])
  }

  /** Every linked leg visited so far carries the coin mark of the loop it lies on. */
  ghost predicate Coins(X0: seq<int>, X: seq<int>, loopDraws: seq<nat>, cycles: seq<seq<int>>, R: seq<int>) {
    |X| == |X0| && |R| == |X0| &&
    forall w | 0 <= w < |X0| && X0[w] >= 0 && X[w] < 0 :: LegCoin(X0, X, loopDraws, cycles, R, w)
  }

  /**
   * The marks loopUpdate leaves on the vertex list X0: every linked leg has been visited, and it
   * carries the coin mark of the least leg of a closed walk through it.
   */
  ghost predicate LoopMarks(X0: seq<int>, X: seq<int>, loopDraws: seq<nat>) {
    |X| == |X0| && (forall w | 0 <= w < |X0| && X0[w] >= 0 :: X[w] < 0) &&
    exists cycles: seq<seq<int>>, R: seq<int> :: Coins(X0, X, loopDraws, cycles, R)
  }

  /** R with every leg of W sent to loop k. */
  function Reassign(R: seq<int>, W: set<int>, k: int): (r: seq<int>)
    ensures |r| == |R| && forall w | 0 <= w < |R| :: r[w] == if w in W then k else R[w]
  {
    seq(|R|, w requires 0 <= w < |R| => if w in W then k else R[w])
  }

  /** Marking one more walked loop with its coin mark extends the invariant by that loop. */
  lemma CoinStep(X0: seq<int>, Xs: seq<int>, X: seq<int>, loopDraws: seq<nat>, cycles: seq<seq<int>>, R: seq<int>,
                 W: set<int>, c: seq<int>, mark: int)
    requires Coins(X0, Xs, loopDraws, cycles, R) && MarksOf(Xs, X, W, mark)
    requires LoopFrom(X0, c) && 0 <= c[0] < 2 * |loopDraws| && mark == CoinMark(loopDraws, c[0])
    requires forall w :: w in W ==> w in c
    ensures Coins(X0, X, loopDraws, cycles + [c], Reassign(R, W, |cycles|))
  {
    var cycles', R' := cycles + [c], Reassign(R, W, |cycles|);
    forall w | 0 <= w < |X0| && X0[w] >= 0 && X[w] < 0
      ensures LegCoin(X0, X, loopDraws, cycles', R', w)
    {
      if w in W {
        assert R'[w] == |cycles| && cycles'[|cycles|] == c;
      } else {
        assert X[w] == Xs[w] && R'[w] == R[w];
        assert LegCoin(X0, Xs, loopDraws, cycles, R, w);
        assert cycles'[R[w]] == cycles[R[w]];
      }
    }
  }

  /**
   * A walk from the unvisited even leg v, marked with v's coin, closes a loop whose least leg is v:
   * the invariant extends by that loop and v itself carries its coin.
   */
  lemma CoinVisit(X0: seq<int>, Xs: seq<int>, X: seq<int>, loopDraws: seq<nat>, cycles: seq<seq<int>>, R: seq<int>,
                  W: set<int>, c: seq<int>, v: int)
    requires EvenDone(Xs, v) && v % 2 == 0 && 0 <= v < 2 * |loopDraws|
    requires Coins(X0, Xs, loopDraws, cycles, R) && MarksOf(Xs, X, W, CoinMark(loopDraws, v))
    requires forall w {:trigger OnLoop(X0, Xs, W, w)} | w in W :: OnLoop(X0, Xs, W, w)
    requires Cycle(X0, c) && c[0] == v && forall w :: w in W <==> w in c
    ensures Coins(X0, X, loopDraws, cycles + [c], Reassign(R, W, |cycles|))
    ensures X[v] == CoinMark(loopDraws, v)
  {
    LeastStart(X0, Xs, W, c, v);
    assert LoopFrom(X0, c);
    CoinStep(X0, Xs, X, loopDraws, cycles, R, W, c, CoinMark(loopDraws, v));
    assert v in W;
  }

  /** Once every linked leg is marked, the coin invariant is the final marking loopUpdate promises. */
  lemma CoinsMarks(X0: seq<int>, X: seq<int>, loopDraws: seq<nat>, cycles: seq<seq<int>>, R: seq<int>)
    requires Coins(X0, X, loopDraws, cycles, R)
    requires forall w | 0 <= w < |X| :: X[w] == -1 || X[w] == -2
    ensures LoopMarks(X0, X, loopDraws)
  {
  }

  /** loopUpdate's last loop: a site follows the mark of its first leg in `ops`, or its own coin when free. */
  function FlipSites(ops: seq<int>, L: int, X: seq<int>, siteDraws: seq<nat>, sp: seq<int>): seq<int>
    requires L > 0 && |sp| == L && |siteDraws| == L && |X| == 4 * |ops|
  {
    seq(L, i requires 0 <= i < L =>
      var f := FirstLeg(ops, L, |ops|, i);
      if (f != -1 && X[f] == -2) || (f == -1 && RandProb(siteDraws[i]) < 0.5) then -sp[i] else sp[i])
  }

  /**
   * One sweep of updateConfig, from the string O and state S to the string O2, the state S2 and
   * the final marks X2. The diagonal update gives D = DiagString(O, S, ...). On the vertex list
   * of D every loop is marked by its coin. The type bits of D are toggled on the sides of flipped
   * loops. The state propagated through O has each site flipped with its loop or by its coin.
   */
  ghost predicate Swept(L: int, O: seq<int>, S: seq<int>, bondDraws: seq<nat>, accept: seq<bool>,
                        loopDraws: seq<nat>, siteDraws: seq<nat>, O2: seq<int>, S2: seq<int>, X2: seq<int>)
  {
    L >= 2 && |S| == L && ValidOps(O, L) && |bondDraws| == |O| && |accept| == |O| &&
    |loopDraws| == 2 * |O| && |siteDraws| == L && |X2| == 4 * |O| &&
    var D := DiagString(O, S, L, bondDraws, accept);
    (exists X0 :: IsVertexList(D, L, X0) && LoopMarks(X0, X2, loopDraws)) &&
    TypeBits(D, O2, X2) &&
    S2 == FlipSites(D, L, X2, siteDraws, Propagate(S, O, L, |O|))
  }

  /** The pieces updateConfig produces, one per phase, assemble into a Swept step. */
  lemma SweptIntro(L: int, O: seq<int>, S: seq<int>, bondDraws: seq<nat>, accept: seq<bool>,
                   loopDraws: seq<nat>, siteDraws: seq<nat>, D: seq<int>, S1: seq<int>, X0: seq<int>, vf: seq<int>,
                   O2: seq<int>, S2: seq<int>, X2: seq<int>)
    requires L >= 2 && |S| == L && ValidOps(O, L) && |bondDraws| == |O| && |accept| == |O|
    requires |loopDraws| == 2 * |O| && |siteDraws| == L && |X2| == 4 * |O|
    requires D == DiagString(O, S, L, bondDraws, accept) && S1 == Propagate(S, O, L, |O|) && |S1| == L
    requires IsVertexList(D, L, X0) && LoopMarks(X0, X2, loopDraws) && TypeBits(D, O2, X2)
    requires |vf| == L && forall i | 0 <= i < L :: vf[i] == FirstLeg(D, L, |D|, i) && -1 <= vf[i] < |X2|
    requires |S2| == L && forall i | 0 <= i < L ::
      S2[i] == if (vf[i] != -1 && X2[vf[i]] == -2) || (vf[i] == -1 && RandProb(siteDraws[i]) < 0.5) then -S1[i] else S1[i]
    ensures Swept(L, O, S, bondDraws, accept, loopDraws, siteDraws, O2, S2, X2)
  {
    var F := FlipSites(D, L, X2, siteDraws, S1);
    forall i | 0 <= i < L
      ensures S2[i] == F[i]
    {
    }
    assert S2 == F;
    assert IsVertexList(D, L, X0) && LoopMarks(X0, X2, loopDraws);
  }

  /** The string adjustM leaves: padded with identities up to n + n/3 slots when that exceeds its length. */
  function Adjusted(ops: seq<int>): (r: seq<int>)
    ensures |r| >= |ops| && r[..|ops|] == ops && forall p | |ops| <= p < |r| :: r[p] == Identity
    ensures |r| == if |ops| < CountOps(ops) + CountOps(ops) / 3 then CountOps(ops) + CountOps(ops) / 3 else |ops|
  {
    var n := CountOps(ops);
    if |ops| < n + n / 3 then ops + Padding(n + n / 3 - |ops|) else ops
  }

  class HeisenbergSSE {
    const L: int
    const nQ: int
    const nBonds: int
    const beta: real
    const Jw: real
    const alpha_inv: real

    const bSites: array2<int>
    const Js: array<real>
    const isWeakBond: array<bool>
    const spins: array<int>
    const vFirst: array<int>
    const vLast: array<int>

    var n: int
    var nw: int
    var M: int
    var opString: array<int>
    var vertexList: array<int>

    var zzRatio: real
    var nMeasure: int

    /** The ring: bond b joins sites b and b + 1 (mod L); even bonds are weak (Jw), odd ones strong (1). */
    ghost predicate Topology()
      reads bSites, Js, isWeakBond
    {
      L >= 2 && nQ == L && nBonds == L &&
      bSites.Length0 == L && bSites.Length1 == 2 && Js.Length == L && isWeakBond.Length == L &&
      forall b | 0 <= b < L ::
        bSites[b, 0] == b && bSites[b, 1] == NextSite(b, L) &&
        Js[b] == Coupling(b, Jw) && isWeakBond[b] == IsWeakBond(b)
    }

    /** The engine invariant: sizes, valid slots, spins in {-1, +1}, and n, nw the two counts. */
    ghost predicate Valid()
      reads this, bSites, Js, isWeakBond, spins, opString
    {
      Topology() &&
      spins.Length == L && vFirst.Length == L && vLast.Length == L &&
      opString.Length == M && vertexList.Length == 4 * M &&
      ValidSpins(spins[..]) && ValidOps(opString[..], L) &&
      n == CountOps(opString[..]) && nw == CountWeak(opString[..]) &&
      spins != vFirst && spins != vLast && vFirst != vLast &&
      opString != vertexList && opString != spins && opString != vFirst && opString != vLast &&
      vertexList != spins && vertexList != vFirst && vertexList != vLast
    }

    /** 0 <= nw <= n <= M. */
    lemma CounterBounds()
      requires Valid()
      ensures 0 <= nw <= n <= M
    {
      CountBounds(opString[..]);
    }

    /**
     * The chain of l sites with l bonds, the empty operator string of 20 slots, and a random
     * initial basis state (spin up exactly when the draw exceeds one half).
     */
    constructor (l: int, a_inv: real, bt: real, jw: real, spinDraws: seq<nat>)
      requires l >= 2 && |spinDraws| == l
      ensures Valid()
      ensures L == l && beta == bt && Jw == jw && alpha_inv == a_inv
      ensures n == 0 && nw == 0 && M == 20
      ensures forall p | 0 <= p < M :: opString[p] == Identity
      ensures forall i | 0 <= i < L :: spins[i] == if RandProb(spinDraws[i]) > 0.5 then 1 else -1
      ensures fresh(spins) && fresh(opString) && fresh(vertexList) && fresh(vFirst) && fresh(vLast)
    {
      L := l;
      nQ := l;
      nBonds := l;
      beta := bt;
      Jw := jw;
      alpha_inv := a_inv;
      n := 0;
      nw := 0;
      M := 20;
      var bs, js, weak := MakeBonds(l, jw);
      var sp := InitialSpins(l, spinDraws);
      var ops := IdentityString(20);
      CountsOfPadding([], 20);
      assert ops[..] == [] + Padding(20);
      bSites, Js, isWeakBond := bs, js, weak;
      spins := sp;
      opString := ops;
      vFirst := new int[l];
      vLast := new int[l];
      vertexList := new int[4 * 20];
    }

    /** The bond table: both sites of every bond, its coupling and whether it is weak. */
    static method MakeBonds(l: int, jw: real) returns (bs: array2<int>, js: array<real>, weak: array<bool>)
      requires l >= 2
      ensures fresh(bs) && fresh(js) && fresh(weak)
      ensures bs.Length0 == l && bs.Length1 == 2 && js.Length == l && weak.Length == l
      ensures forall b | 0 <= b < l ::
        bs[b, 0] == b && bs[b, 1] == NextSite(b, l) && js[b] == Coupling(b, jw) && weak[b] == IsWeakBond(b)
    {
      js := new real[l];
      weak := new bool[l];
      bs := new int[l, 2];
      for i := 0 to l
        invariant forall b | 0 <= b < i ::
          bs[b, 0] == b && bs[b, 1] == NextSite(b, l) && js[b] == Coupling(b, jw) && weak[b] == IsWeakBond(b)
      {
        bs[i, 0] := i;
        bs[i, 1] := (i + 1) % l;
        if i % 2 == 0 {
          js[i] := jw;
          weak[i] := true;
        } else {
          js[i] := 1.0;
          weak[i] := false;
        }
      }
    }

    /** The initial basis state: spin i is up exactly when its draw exceeds one half. */
    static method InitialSpins(l: int, spinDraws: seq<nat>) returns (sp: array<int>)
      requires |spinDraws| == l
      ensures fresh(sp) && sp.Length == l && ValidSpins(sp[..])
      ensures forall i | 0 <= i < l :: sp[i] == if RandProb(spinDraws[i]) > 0.5 then 1 else -1
    {
      sp := new int[l];
      for i := 0 to l
        invariant forall j | 0 <= j < i :: sp[j] == if RandProb(spinDraws[j]) > 0.5 then 1 else -1
      {
        sp[i] := if RandProb(spinDraws[i]) > 0.5 then 1 else -1;
      }
    }

    /** An operator string of k identity slots. */
    static method IdentityString(k: nat) returns (ops: array<int>)
      ensures fresh(ops) && ops.Length == k && forall p | 0 <= p < k :: ops[p] == Identity
    {
      ops := new int[k];
      for i := 0 to k
        invariant forall j | 0 <= j < i :: ops[j] == Identity
      {
        ops[i] := -1;
      }
    }

    /**
     * diagUpdate: one pass over the slots, carrying the basis state upward. Each slot ends as
     * DiagSlot of its old content and the state just below it; the final state is the initial one
     * propagated through all the (unchanged) off-diagonal operators; n and nw stay the counts.
     */
    method DiagUpdate(bondDraws: seq<nat>, accept: seq<bool>)
      requires Valid()
      requires |bondDraws| == M && |accept| == M
      modifies this`n, this`nw, opString, spins
      ensures Valid()
      ensures opString[..] == DiagString(old(opString[..]), old(spins[..]), L, bondDraws, accept)
      ensures spins[..] == Propagate(old(spins[..]), old(opString[..]), L, M)
    {
      ghost var O0, S0 := opString[..], spins[..];
      DiagLoop(bondDraws, accept, O0, S0);
      DiagDoneEnd(O0, S0, L, bondDraws, accept, opString[..], spins[..]);
    }

    /** The loop of diagUpdate: slot by slot from the bottom, each with the invariant carried one further. */
    method DiagLoop(bondDraws: seq<nat>, accept: seq<bool>, ghost O0: seq<int>, ghost S0: seq<int>)
      requires Valid() && |bondDraws| == M && |accept| == M && O0 == opString[..] && S0 == spins[..]
      modifies this`n, this`nw, opString, spins
      ensures Valid() && DiagDone(O0, S0, L, bondDraws, accept, |O0|, opString[..], spins[..])
    {
      for p := 0 to M
        invariant Valid() && DiagDone(O0, S0, L, bondDraws, accept, p, opString[..], spins[..])
      {
        DiagAt(p, bondDraws, accept, O0, S0);
      }
    }

    /** Slot p of diagUpdate, with the loop invariant carried from p to p + 1. */
    method DiagAt(p: int, bondDraws: seq<nat>, accept: seq<bool>, ghost O0: seq<int>, ghost S0: seq<int>)
      requires Valid() && 0 <= p < M && DiagDone(O0, S0, L, bondDraws, accept, p, opString[..], spins[..])
      modifies this`n, this`nw, opString, spins
      ensures Valid() && DiagDone(O0, S0, L, bondDraws, accept, p + 1, opString[..], spins[..])
    {
      ghost var ops, sp := opString[..], spins[..];
      DiagStep(p, bondDraws[p], accept[p]);
      DiagDoneStep(O0, S0, L, bondDraws, accept, p, ops, sp, opString[..], spins[..]);
    }

    /** The body of diagUpdate for slot p. */
    method DiagStep(p: int, draw: nat, accept: bool)
      requires Valid() && 0 <= p < M
      modifies this`n, this`nw, opString, spins
      ensures Valid()
      ensures opString[..] == old(opString[..])[p := DiagSlot(old(opString[p]), old(spins[..]), L, draw, accept)]
      ensures spins[..] == if IsOffDiagonal(old(opString[p])) then FlipBond(old(spins[..]), BondOf(old(opString[p])), L)
                           else old(spins[..])
    {
      var opstring_p := opString[p];
      if opstring_p < 0 {
        InsertDiagonal(p, draw, accept);
      } else if opstring_p % 2 == 0 {
        RemoveDiagonal(p, accept);
      } else {
        FlipSpins(opstring_p / 2);
      }
    }

    /** An identity slot: a diagonal operator on a random bond is inserted if its two spins are antiparallel and the move is accepted. */
    method InsertDiagonal(p: int, draw: nat, accept: bool)
      requires Valid() && 0 <= p < M && opString[p] == Identity
      modifies this`n, this`nw, opString
      ensures Valid() && opString[..] == old(opString[..])[p := DiagSlot(Identity, spins[..], L, draw, accept)]
    {
      var newBond := RandBond(draw, nBonds);
      ghost var sp := spins[..];
      assert bSites[newBond, 0] == newBond && bSites[newBond, 1] == NextSite(newBond, L);
      assert DiagSlot(Identity, sp, L, draw, accept) ==
        if sp[newBond] != sp[NextSite(newBond, L)] && accept then 2 * newBond else Identity;
      if spins[bSites[newBond, 0]] != spins[bSites[newBond, 1]] {
        if accept {
          assert isWeakBond[newBond] == IsWeakBond(BondOf(2 * newBond));
          var nw' := nw;
          if isWeakBond[newBond] {
            nw' := nw + 1;
          }
          SetSlot(p, 2 * newBond, n + 1, nw');
          return;
        }
      }
      assert opString[..] == opString[..][p := Identity];
    }

    /** A diagonal slot: the operator is removed if the move is accepted. */
    method RemoveDiagonal(p: int, accept: bool)
      requires Valid() && 0 <= p < M && opString[p] >= 0 && opString[p] % 2 == 0
      modifies this`n, this`nw, opString
      ensures Valid() && opString[..] == old(opString[..])[p := DiagSlot(old(opString[p]), spins[..], L, 0, accept)]
    {
      var theBond := opString[p] / 2;
      if accept {
        var nw' := nw;
        if isWeakBond[theBond] {
          nw' := nw - 1;
        }
        SetSlot(p, -1, n - 1, nw');
      } else {
        assert opString[..] == opString[..][p := opString[p]];
      }
    }

    /** A slot of the string is overwritten and the two counters are set to their new values. */
    method SetSlot(p: int, x: int, n': int, nw': int)
      requires Valid() && 0 <= p < M && (x == Identity || 0 <= x < 2 * L)
      requires n' == n - Occupied(opString[p]) + Occupied(x)
      requires nw' == nw - WeakOccupied(opString[p]) + WeakOccupied(x)
      modifies this`n, this`nw, opString
      ensures Valid() && opString[..] == old(opString[..])[p := x]
    {
      ghost var before := opString[..];
      opString[p] := x;
      n, nw := n', nw';
      CountUpdate(before, p, x);
      assert opString[..] == before[p := x];
    }

    /** The off-diagonal case of diagUpdate: both spins of the bond are reversed. */
    method FlipSpins(b: int)
      requires Valid() && 0 <= b < L
      modifies spins
      ensures Valid() && spins[..] == FlipBond(old(spins[..]), b, L)
    {
      ghost var sp := spins[..];
      FlipBondKeepsSpins(sp, b, L);
      BondEndsDistinct(b, L);
      spins[bSites[b, 0]] := -spins[bSites[b, 0]];
      spins[bSites[b, 1]] := -spins[bSites[b, 1]];
      assert spins[..] == FlipBond(sp, b, L);
    }

    /**
     * makeVertexList: every leg of every operator is linked to the neighbouring leg on the same
     * site in periodic imaginary time, identity legs are -1, and vFirst/vLast hold the first lower
     * and the last upper leg of every site (-1 for a site no operator touches).
     */
    method MakeVertexList()
      requires Valid()
      modifies vertexList, vFirst, vLast
      ensures Valid()
      ensures IsVertexList(opString[..], L, vertexList[..])
      ensures forall s | 0 <= s < L ::
        vFirst[s] == FirstLeg(opString[..], L, M, s) && vLast[s] == LastLeg(opString[..], L, M, s)
    {
      ghost var ops := opString[..];
      for v := 0 to 4 * M
        invariant forall w | 0 <= w < v :: vertexList[w] == -1
      {
        vertexList[v] := -1;
      }
      for s := 0 to nQ
        invariant forall t | 0 <= t < s :: vFirst[t] == -1 && vLast[t] == -1
        invariant forall w | 0 <= w < 4 * M :: vertexList[w] == -1
      {
        vFirst[s] := -1;
        vLast[s] := -1;
      }
      ScanStart(ops, L, vertexList[..], vFirst[..], vLast[..]);
      ScanSlots();
      CloseStart(ops, L, vertexList[..], vFirst[..], vLast[..]);
      CloseSites();
      CloseEnd(ops, L, vertexList[..], vFirst[..], vLast[..]);
    }

    /** The forward scan of makeVertexList: links each operator to the previous one on both its sites. */
    method ScanSlots()
      requires Valid() && Scanned(opString[..], L, 0, vertexList[..], vFirst[..], vLast[..])
      modifies vertexList, vFirst, vLast
      ensures Scanned(opString[..], L, M, vertexList[..], vFirst[..], vLast[..])
    {
      ghost var ops := opString[..];
      for p := 0 to M
        invariant Scanned(ops, L, p, vertexList[..], vFirst[..], vLast[..])
      {
        var opstring_p := opString[p];
        if opstring_p != -1 {
          ScanAt(p, opstring_p / 2, ops);
        } else {
          ScanIdentity(ops, L, p, vertexList[..], vFirst[..], vLast[..]);
        }
      }
    }

    /** The forward scan at the operator in slot p: the scan invariant advances past slot p. */
    method ScanAt(p: int, b_p: int, ghost ops: seq<int>)
      requires Topology() && vFirst.Length == L && vLast.Length == L && vertexList.Length == 4 * |ops|
      requires vertexList != vFirst && vertexList != vLast && vFirst != vLast
      requires ValidOps(ops, L) && 0 <= p < |ops| && ops[p] != Identity && b_p == BondOf(ops[p])
      requires Scanned(ops, L, p, vertexList[..], vFirst[..], vLast[..])
      modifies vertexList, vFirst, vLast
      ensures Scanned(ops, L, p + 1, vertexList[..], vFirst[..], vLast[..])
    {
      ghost var X, F, La := vertexList[..], vFirst[..], vLast[..];
      LastLegFacts(ops, L, p, b_p);
      LastLegFacts(ops, L, p, NextSite(b_p, L));
      ScanSlot(p, b_p);
      ScanOperator(ops, L, p, X, F, La, vertexList[..], vFirst[..], vLast[..]);
    }

    /**
     * The forward scan at the operator in slot p, on bond b_p: its two lower legs are linked to the
     * last upper legs of the bond's two sites, and its two upper legs become those sites' last legs.
     */
    method ScanSlot(p: int, b_p: int)
      requires Topology() && vFirst.Length == L && vLast.Length == L && 0 <= 4 * p + 1 < vertexList.Length
      requires vertexList != vFirst && vertexList != vLast && vFirst != vLast && 0 <= b_p < L
      requires -1 <= vLast[b_p] < 4 * p && -1 <= vLast[NextSite(b_p, L)] < 4 * p
      modifies vertexList, vFirst, vLast
      ensures var s0, s1, La := b_p, NextSite(b_p, L), old(vLast[..]);
        vertexList[..] == Attach(Attach(old(vertexList[..]), La[s0], 4 * p), La[s1], 4 * p + 1) &&
        vFirst[..] == AttachFirst(AttachFirst(old(vFirst[..]), s0, La[s0], 4 * p), s1, La[s1], 4 * p + 1) &&
        vLast[..] == La[s0 := 4 * p + 2][s1 := 4 * p + 3]
    {
      var s0 := bSites[b_p, 0];
      var s1 := bSites[b_p, 1];
      BondEndsDistinct(b_p, L);
      ghost var La := vLast[..];
      LinkLeg(s0, 4 * p);
      assert vLast[s1] == La[s1];
      LinkLeg(s1, 4 * p + 1);
    }

    /**
     * One site of one operator in the forward scan: the new lower leg is linked to the site's
     * last upper leg (or becomes its first leg), and the new upper leg becomes its last leg.
     */
    method LinkLeg(s: int, leg: int)
      requires 0 <= s < vLast.Length == vFirst.Length && 0 <= leg < vertexList.Length
      requires -1 <= vLast[s] < vertexList.Length && vLast[s] != leg
      requires vertexList != vFirst && vertexList != vLast && vFirst != vLast
      modifies vertexList, vFirst, vLast
      ensures vertexList[..] == Attach(old(vertexList[..]), old(vLast[s]), leg)
      ensures vFirst[..] == AttachFirst(old(vFirst[..]), s, old(vLast[s]), leg)
      ensures vLast[..] == old(vLast[..])[s := leg + 2]
    {
      var s_vLast := vLast[s];
      if s_vLast > -1 {
        vertexList[s_vLast] := leg;
        vertexList[leg] := s_vLast;
      } else {
        vFirst[s] := leg;
      }
      vLast[s] := leg + 2;
    }

    /** The periodic closing of makeVertexList: links the last upper leg of each site to its first lower leg. */
    method CloseSites()
      requires Valid() && Closed(opString[..], L, 0, vertexList[..], vFirst[..], vLast[..])
      modifies vertexList
      ensures Closed(opString[..], L, L, vertexList[..], vFirst[..], vLast[..])
    {
      ghost var ops := opString[..];
      for s := 0 to nQ
        invariant Closed(ops, L, s, vertexList[..], vFirst[..], vLast[..])
      {
        CloseOne(s);
      }
    }

    /** The periodic closing of site s. */
    method CloseOne(s: int)
      requires Valid() && 0 <= s < L && Closed(opString[..], L, s, vertexList[..], vFirst[..], vLast[..])
      modifies vertexList
      ensures Closed(opString[..], L, s + 1, vertexList[..], vFirst[..], vLast[..])
    {
      ghost var ops := opString[..];
      var s_vFirst := vFirst[s];
      var s_vLast := vLast[s];
      ghost var X := vertexList[..];
      SiteEnds(ops, L, M, s);
      if s_vFirst != -1 {
        vertexList[s_vFirst] := s_vLast;
        vertexList[s_vLast] := s_vFirst;
      }
      assert vertexList[..] == if s_vFirst != -1 then Join(X, s_vFirst, s_vLast) else X;
      CloseSite(ops, L, s, X, vFirst[..], vLast[..], vertexList[..]);
    }

    /**
     * One do-while walk of loopUpdate from the even leg v: it goes round the loop of v, marking
     * every leg on it with -2 (flip) or -1, and, when flipping, toggles the type bit of a slot once
     * per side of the slot the loop passes through. The legs are visited in the order of `path`,
     * a closed walk from v.
     */
    method Walk(v: int, flip: bool, ghost X0: seq<int>) returns (ghost W: set<int>, ghost path: seq<int>)
      requires Pairing(X0) && |X0| == vertexList.Length == 4 * opString.Length && opString != vertexList
      requires Marked(X0, vertexList[..])
      requires forall w | 0 <= w < |X0| :: X0[w] >= 0 ==> opString[w / 4] >= 0
      requires 0 <= v < |X0| && vertexList[v] >= 0
      modifies vertexList, opString
      ensures v in W
      ensures Cycle(X0, path) && path[0] == v && forall w :: w in W <==> w in path
      ensures forall w {:trigger OnLoop(X0, old(vertexList[..]), W, w)} | w in W :: OnLoop(X0, old(vertexList[..]), W, w)
      ensures MarksOf(old(vertexList[..]), vertexList[..], W, if flip then -2 else -1)
      ensures SidesToggled(old(opString[..]), opString[..], W, flip)
    {
      ghost var Xs, Os := vertexList[..], opString[..];
      ghost var legs := seq(|X0|, w => w);
      ghost var Range := set w | w in legs;
      var mark := if flip then -2 else -1;
      var v_head := v;
      var v_tail := -1;
      var going := true;
      W, path := {}, [];
      while going
        invariant 0 <= v_head < |X0| && W <= Range
        invariant Path(X0, path) && (forall w :: w in W <==> w in path) && (W == {} <==> path == [])
        invariant path != [] ==> path[0] == v && path[|path| - 1] == v_tail
        invariant W == {} ==> v_head == v && going
        invariant W != {} ==> WalkInv(X0, Xs, v, W, v_tail, v_head)
        invariant going <==> W == {} || v_head != v
        invariant MarksOf(Xs, vertexList[..], W, mark)
        invariant SidesToggled(Os, opString[..], W, flip)
        decreases Range - W
      {
        ghost var h := v_head;
        v_tail, v_head := WalkStep(v, v_head, v_tail, mark, flip, X0, Xs, Os, W);
        assert legs[h] == h && legs[v_tail] == v_tail;
        PathSnoc(X0, path, h, v_tail);
        W, path := W + {h, v_tail}, path + [h, v_tail];
        going := v_head != v;
      }
      WalkEnd(X0, Xs, v, W, v_tail);
    }

    /** One pass of the do-while loop of a walk: the path grows by the head h and its mate. */
    method WalkStep(v: int, h: int, t: int, mark: int, flip: bool,
                    ghost X0: seq<int>, ghost Xs: seq<int>, ghost Os: seq<int>, ghost W: set<int>)
      returns (t': int, h': int)
      requires Pairing(X0) && |X0| == vertexList.Length == 4 * opString.Length && opString != vertexList
      requires Marked(X0, Xs) && |Os| == opString.Length
      requires forall w | 0 <= w < |X0| :: X0[w] >= 0 ==> Os[w / 4] >= 0
      requires 0 <= v < |X0| && Xs[v] >= 0 && mark == (if flip then -2 else -1) && 0 <= h < |X0|
      requires W == {} ==> h == v
      requires W != {} ==> WalkInv(X0, Xs, v, W, t, h) && h != v
      requires MarksOf(Xs, vertexList[..], W, mark) && SidesToggled(Os, opString[..], W, flip)
      modifies vertexList, opString
      ensures h !in W && t' !in W && t' == Mate(h) && 0 <= t' < |X0| && 0 <= h' < |X0| && h' == X0[t']
      ensures WalkInv(X0, Xs, v, W + {h, t'}, t', h')
      ensures MarksOf(Xs, vertexList[..], W + {h, t'}, mark) && SidesToggled(Os, opString[..], W + {h, t'}, flip)
    {
      if W == {} {
        WalkStart(X0, Xs, v);
      } else {
        WalkNext(X0, Xs, v, W, t, h);
      }
      ghost var m := Mate(h);
      assert vertexList[m] == X0[m];
      t', h' := Advance(h, mark, flip, Xs, Os, W);
    }

    /** One step of a walk, with the marks and type bits of the walk so far extended by the new pair. */
    method Advance(h: int, mark: int, flip: bool, ghost Xs: seq<int>, ghost Os: seq<int>, ghost W: set<int>)
      returns (t: int, next: int)
      requires 0 <= h < vertexList.Length == 4 * opString.Length && vertexList != opString
      requires |Os| == opString.Length && h !in W && Mate(h) !in W && Os[h / 4] >= 0
      requires mark == if flip then -2 else -1
      requires MarksOf(Xs, vertexList[..], W, mark) && SidesToggled(Os, opString[..], W, flip)
      modifies vertexList, opString
      ensures t == Mate(h) && 0 <= t < vertexList.Length && next == old(vertexList[Mate(h)])
      ensures MarksOf(Xs, vertexList[..], W + {h, t}, mark) && SidesToggled(Os, opString[..], W + {h, t}, flip)
    {
      SidesToggledSign(Os, opString[..], W, flip, h / 4);
      ghost var O, X := opString[..], vertexList[..];
      t, next := StepWalk(h, mark, flip);
      ToggleSide(Os, O, W, flip, h, opString[..]);
      MarkPair(Xs, X, W, mark, h, t);
    }

    /**
     * One pass of the do-while body of loopUpdate from head h: marks h and its mate, toggles the
     * type bit of their slot when flipping, and returns the mate and the leg it is linked to.
     */
    method StepWalk(h: int, mark: int, flip: bool) returns (t: int, next: int)
      requires 0 <= h < vertexList.Length == 4 * opString.Length && vertexList != opString
      requires flip ==> opString[h / 4] >= 0
      modifies vertexList, opString
      ensures t == Mate(h) && 0 <= t < vertexList.Length && next == old(vertexList[Mate(h)])
      ensures vertexList[..] == old(vertexList[..])[h := mark][t := mark]
      ensures opString[..] == if flip then old(opString[..])[h / 4 := ToggleType(old(opString[h / 4]))] else old(opString[..])
    {
      MateBound(h, vertexList.Length);
      if flip {
        opString[h / 4] := ToggleType(opString[h / 4]);
      }
      vertexList[h] := mark;
      t := Mate(h);
      next := vertexList[t];
      vertexList[t] := mark;
    }

    /**
     * loopUpdate, on a freshly built vertex list: every loop is walked once from its first even
     * leg and flipped when that leg's coin says so. Afterwards every leg is marked (-2 on flipped
     * loops, -1 elsewhere), each loop with one mark; a slot's type bit is toggled exactly when
     * one of its two sides lies on a flipped loop, so bonds, n and nw are unchanged; a site's spin
     * flips with its loop, or with its own coin when no operator touches it.
     */
    method LoopUpdate(loopDraws: seq<nat>, siteDraws: seq<nat>)
      requires Valid() && IsVertexList(opString[..], L, vertexList[..])
      requires forall s | 0 <= s < L :: vFirst[s] == FirstLeg(opString[..], L, M, s)
      requires |loopDraws| == 2 * M && |siteDraws| == L
      modifies opString, vertexList, spins
      ensures Valid()
      ensures forall s | 0 <= s < L :: -1 <= vFirst[s] < 4 * M
      ensures TypeBits(old(opString[..]), opString[..], vertexList[..])
      ensures forall w | 0 <= w < 4 * M :: vertexList[w] == -1 || vertexList[w] == -2
      ensures forall w | 0 <= w < 4 * M :: old(vertexList[w]) == -1 ==> vertexList[w] == -1
      ensures forall w | 0 <= w < 4 * M && old(vertexList[w]) >= 0 ::
        0 <= old(vertexList[w]) < 4 * M && vertexList[old(vertexList[w])] == vertexList[w] && vertexList[Mate(w)] == vertexList[w]
      ensures LoopMarks(old(vertexList[..]), vertexList[..], loopDraws)
      ensures forall i | 0 <= i < L ::
        spins[i] == if (vFirst[i] != -1 && vertexList[vFirst[i]] == -2) || (vFirst[i] == -1 && RandProb(siteDraws[i]) < 0.5)
                    then -old(spins[i]) else old(spins[i])
    {
      MarkLoops(loopDraws);
      FlipFreeSpins(siteDraws);
    }

    /**
     * The loop part of loopUpdate: every leg ends up marked, each loop by the coin of its first
     * even leg, with the type bits of the flipped loops toggled; the spins are left alone.
     */
    method MarkLoops(loopDraws: seq<nat>)
      requires Valid() && IsVertexList(opString[..], L, vertexList[..])
      requires forall s | 0 <= s < L :: vFirst[s] == FirstLeg(opString[..], L, M, s)
      requires |loopDraws| == 2 * M
      modifies opString, vertexList
      ensures Valid()
      ensures forall s | 0 <= s < L :: -1 <= vFirst[s] < 4 * M
      ensures TypeBits(old(opString[..]), opString[..], vertexList[..])
      ensures forall w | 0 <= w < 4 * M :: vertexList[w] == -1 || vertexList[w] == -2
      ensures forall w | 0 <= w < 4 * M :: old(vertexList[w]) == -1 ==> vertexList[w] == -1
      ensures forall w | 0 <= w < 4 * M && old(vertexList[w]) >= 0 ::
        0 <= old(vertexList[w]) < 4 * M && vertexList[old(vertexList[w])] == vertexList[w] && vertexList[Mate(w)] == vertexList[w]
      ensures LoopMarks(old(vertexList[..]), vertexList[..], loopDraws)
    {
      ghost var X0, O0 := vertexList[..], opString[..];
      LoopStart(O0, L, X0);
      ghost var cycles, R := WalkAll(loopDraws, X0, O0);
      AllMarked(X0, vertexList[..]);
      CoinsMarks(X0, vertexList[..], loopDraws, cycles, R);
      TypeBitsSameShape(O0, opString[..], vertexList[..], L);
    }

    /**
     * The main loop of loopUpdate: a walk from every even leg not yet visited, flipped by its coin.
     * Each walk is recorded in `cycles`, and R[w] is the walk that visited leg w.
     */
    method WalkAll(loopDraws: seq<nat>, ghost X0: seq<int>, ghost O0: seq<int>)
      returns (ghost cycles: seq<seq<int>>, ghost R: seq<int>)
      requires opString.Length == M && vertexList.Length == 4 * M && |loopDraws| == 2 * M && opString != vertexList
      requires X0 == vertexList[..] && O0 == opString[..] && Pairing(X0)
      requires Marked(X0, X0) && TypeBits(O0, O0, X0)
      requires forall w | 0 <= w < |X0| :: X0[w] >= 0 ==> O0[w / 4] >= 0
      modifies vertexList, opString
      ensures Marked(X0, vertexList[..]) && TypeBits(O0, opString[..], vertexList[..])
      ensures EvenDone(vertexList[..], 4 * M)
      ensures Coins(X0, vertexList[..], loopDraws, cycles, R)
    {
      cycles, R := [], seq(4 * M, _ => 0);
      var v := 0;
      while v < 4 * M
        invariant 0 <= v <= 4 * M && v % 2 == 0
        invariant Marked(X0, vertexList[..]) && TypeBits(O0, opString[..], vertexList[..])
        invariant EvenDone(vertexList[..], v)
        invariant Coins(X0, vertexList[..], loopDraws, cycles, R)
      {
        cycles, R := VisitLeg(v, loopDraws, X0, O0, cycles, R);
        v := v + 2;
      }
    }

    /**
     * One iteration of the main loop of loopUpdate: unless leg v was visited, walks its loop and
     * marks it -2 or -1 as v's coin says; a visited v changes nothing.
     */
    method VisitLeg(v: int, loopDraws: seq<nat>, ghost X0: seq<int>, ghost O0: seq<int>,
                    ghost cycles: seq<seq<int>>, ghost R: seq<int>)
      returns (ghost cycles': seq<seq<int>>, ghost R': seq<int>)
      requires opString.Length == M && vertexList.Length == 4 * M && opString != vertexList
      requires 0 <= v < 4 * M && v % 2 == 0
      requires |X0| == 4 * M && |O0| == M && Pairing(X0) && forall w | 0 <= w < |X0| :: X0[w] >= 0 ==> O0[w / 4] >= 0
      requires Marked(X0, vertexList[..]) && TypeBits(O0, opString[..], vertexList[..]) && EvenDone(vertexList[..], v)
      requires |loopDraws| == 2 * M && Coins(X0, vertexList[..], loopDraws, cycles, R)
      modifies vertexList, opString
      ensures Marked(X0, vertexList[..]) && TypeBits(O0, opString[..], vertexList[..]) && EvenDone(vertexList[..], v + 2)
      ensures Coins(X0, vertexList[..], loopDraws, cycles', R')
      ensures old(vertexList[v]) >= 0 ==> vertexList[v] == CoinMark(loopDraws, v)
      ensures old(vertexList[v]) < 0 ==> vertexList[..] == old(vertexList[..]) && opString[..] == old(opString[..])
    {
      ghost var Xs := vertexList[..];
      cycles', R' := cycles, R;
      if vertexList[v] >= 0 {
        var flip := RandProb(loopDraws[v / 2]) < 0.5;
        ghost var Os := opString[..];
        forall w | 0 <= w < |X0| && X0[w] >= 0
          ensures Os[w / 4] >= 0
        {
          assert O0[w / 4] >= 0;
        }
        var W, path := Walk(v, flip, X0);
        MarkLoop(X0, O0, Xs, Os, W, if flip then -2 else -1, vertexList[..], opString[..]);
        EvenDoneStep(Xs, vertexList[..], W, if flip then -2 else -1, v);
        assert (if flip then -2 else -1) == CoinMark(loopDraws, v);
        CoinVisit(X0, Xs, vertexList[..], loopDraws, cycles, R, W, path, v);
        cycles', R' := cycles + [path], Reassign(R, W, |cycles|);
      } else {
        EvenDoneStep(Xs, Xs, {}, -1, v);
      }
    }

    /** The last loop of loopUpdate: a site follows its loop's mark, or its own coin when free. */
    method FlipFreeSpins(siteDraws: seq<nat>)
      requires Valid() && |siteDraws| == L
      requires forall s | 0 <= s < L :: -1 <= vFirst[s] < 4 * M
      modifies spins
      ensures Valid()
      ensures forall i | 0 <= i < L ::
        spins[i] == if (vFirst[i] != -1 && vertexList[vFirst[i]] == -2) || (vFirst[i] == -1 && RandProb(siteDraws[i]) < 0.5)
                    then -old(spins[i]) else old(spins[i])
    {
      for i := 0 to nQ
        invariant Valid()
        invariant forall j | 0 <= j < i ::
          spins[j] == if (vFirst[j] != -1 && vertexList[vFirst[j]] == -2) || (vFirst[j] == -1 && RandProb(siteDraws[j]) < 0.5)
                      then -old(spins[j]) else old(spins[j])
        invariant forall j | i <= j < L :: spins[j] == old(spins[j])
      {
        if vFirst[i] != -1 {
          if vertexList[vFirst[i]] == -2 {
            spins[i] := -spins[i];
          }
        } else {
          if RandProb(siteDraws[i]) < 0.5 {
            spins[i] := -spins[i];
          }
        }
      }
    }

    /**
     * adjustM: when n + n/3 exceeds the cut-off, the string grows to that length, keeping its
     * slots and padding with identities, and the vertex list is reallocated; otherwise nothing
     * changes. M never decreases and n, nw stay the counts.
     */
    method AdjustM()
      requires Valid()
      modifies this`M, this`opString, this`vertexList
      ensures Valid()
      ensures M == if old(M) < old(n) + old(n) / 3 then old(n) + old(n) / 3 else old(M)
      ensures old(M) <= M
      ensures opString[..] == old(opString[..]) + Padding(M - old(M))
      ensures opString[..] == Adjusted(old(opString[..]))
      ensures old(M) < M ==> fresh(opString) && fresh(vertexList)
      ensures old(M) == M ==> opString == old(opString) && vertexList == old(vertexList)
    {
      var newM := n + n / 3;
      if M < newM {
        Grow(newM);
      } else {
        assert opString[..] == opString[..] + Padding(0);
      }
    }

    /** The growing branch of adjustM: the padded copy of the string and a new vertex list of 4 * newM legs. */
    method Grow(newM: int)
      requires Valid() && M < newM
      modifies this`M, this`opString, this`vertexList
      ensures Valid() && M == newM && fresh(opString) && fresh(vertexList)
      ensures opString[..] == old(opString[..]) + Padding(newM - old(M))
    {
      var grown := Grown(opString, newM);
      CountsOfPadding(opString[..], newM - M);
      ValidOpsPadding(opString[..], newM - M, L);
      opString := grown;
      M := newM;
      vertexList := new int[4 * M];
    }

    /** The reallocation of adjustM: a copy of the slots, then the new string with identities after them. */
    static method Grown(ops: array<int>, newM: int) returns (grown: array<int>)
      requires ops.Length <= newM
      ensures fresh(grown) && grown[..] == ops[..] + Padding(newM - ops.Length)
    {
      var m := ops.Length;
      var copy := new int[m];
      for i := 0 to m
        invariant forall j | 0 <= j < i :: copy[j] == ops[j]
      {
        copy[i] := ops[i];
      }
      grown := new int[newM];
      for i := 0 to m
        invariant forall j | 0 <= j < m :: copy[j] == ops[j]
        invariant forall j | 0 <= j < i :: grown[j] == copy[j]
      {
        grown[i] := copy[i];
      }
      for i := m to newM
        invariant forall j | 0 <= j < m :: copy[j] == ops[j]
        invariant forall j | 0 <= j < m :: grown[j] == copy[j]
        invariant forall j | m <= j < i :: grown[j] == Identity
      {
        grown[i] := -1;
      }
      ghost var padded := ops[..] + Padding(newM - m);
      forall j | 0 <= j < newM
        ensures grown[j] == padded[j]
      {
        if j < m {
          assert copy[j] == ops[j];
        }
      }
      assert grown[..] == padded;
    }

    /**
     * updateConfig: one sweep. The invariant holds after it, and the new string, spins and marks
     * are the ones Swept describes: the diagonal update's string with the type bits of the flipped
     * loops toggled, each loop marked by its own coin, and each site's spin (propagated through the
     * whole string) flipped with its loop or its own coin.
     */
    method UpdateConfig(bondDraws: seq<nat>, accept: seq<bool>, loopDraws: seq<nat>, siteDraws: seq<nat>)
      requires Valid()
      requires |bondDraws| == M && |accept| == M && |loopDraws| == 2 * M && |siteDraws| == L
      modifies this`n, this`nw, opString, spins, vertexList, vFirst, vLast
      ensures Valid()
      ensures M == old(M)
      ensures Swept(L, old(opString[..]), old(spins[..]), bondDraws, accept, loopDraws, siteDraws,
                    opString[..], spins[..], vertexList[..])
      ensures SameShape(DiagString(old(opString[..]), old(spins[..]), L, bondDraws, accept), opString[..])
      ensures forall w | 0 <= w < 4 * M :: vertexList[w] == -1 || vertexList[w] == -2
    {
      ghost var O0, S0 := opString[..], spins[..];
      DiagUpdate(bondDraws, accept);
      MakeVertexList();
      ghost var O, S1, X0, vf := opString[..], spins[..], vertexList[..], vFirst[..];
      assert O == DiagString(O0, S0, L, bondDraws, accept) && S1 == Propagate(S0, O0, L, |O0|) && |S1| == L;
      assert IsVertexList(O, L, X0) && |vf| == L && forall i | 0 <= i < L :: vf[i] == FirstLeg(O, L, |O|, i);
      LoopUpdate(loopDraws, siteDraws);
      assert vFirst[..] == vf;
      TypeBitsSameShape(O, opString[..], vertexList[..], L);
      SweptIntro(L, O0, S0, bondDraws, accept, loopDraws, siteDraws, O, S1, X0, vf, opString[..], spins[..], vertexList[..]);
    }

    /** iniMeasure: a fresh accumulator. */
    method IniMeasure()
      modifies this`zzRatio, this`nMeasure
      ensures zzRatio == 0.0 && nMeasure == 0
    {
      zzRatio := 0.0;
      nMeasure := 0;
    }

    /** measure: adds the reweighting factor alpha^nw of the current configuration. */
    method Measure()
      requires Valid()
      modifies this`zzRatio, this`nMeasure
      ensures zzRatio == old(zzRatio) + Power(alpha_inv, nw) && nMeasure == old(nMeasure) + 1
    {
      CounterBounds();
      zzRatio := zzRatio + Power(alpha_inv, nw);
      nMeasure := nMeasure + 1;
    }

    /** statisticize: the mean of the measured factors. */
    method Statisticize()
      requires nMeasure > 0
      modifies this`zzRatio
      ensures zzRatio == old(zzRatio) / nMeasure as real
    {
      zzRatio := zzRatio / nMeasure as real;
    }
  }
}

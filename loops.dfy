// The loop update on sequences: the graph whose edges are the vertex-list links and the
// pairs of legs on one side of an operator (leg w and its mate w ^ 1), the walk around one
// cycle of that graph, and the marks a sequence of walks leaves behind.

module Loops {
  import opened Lattice
  import opened Operators
  import opened Vertices

  /** `w ^ 1`: the other leg on the same side of the same operator. */
  function Mate(w: int): (r: int)
    requires w >= 0
    ensures r >= 0 && r != w && r / 4 == w / 4 && r % 4 / 2 == w % 4 / 2 && r / 2 == w / 2
  {
    if w % 2 == 0 then w + 1 else w - 1
  }

  /** Leg w is unlinked together with its mate, or linked to a leg other than itself and its mate, and back. */
  ghost predicate PairedLeg(X0: seq<int>, w: int)
    requires |X0| % 4 == 0 && 0 <= w < |X0|
  {
    (X0[w] == -1 <==> X0[Mate(w)] == -1) &&
    (X0[w] == -1 || (0 <= X0[w] < |X0| && X0[w] != w && X0[w] != Mate(w) && X0[X0[w]] == w))
  }

  /** The vertex list seen as a graph: a perfect matching on the linked legs, closed under Mate. */
  ghost predicate Pairing(X0: seq<int>) {
    |X0| % 4 == 0 && forall w | 0 <= w < |X0| :: PairedLeg(X0, w)
  }

  /** Every vertex list is such a graph: links never join two legs on the same side of a slot. */
  lemma VertexListPairing(ops: seq<int>, L: int, X: seq<int>)
    requires L >= 2 && ValidOps(ops, L) && IsVertexList(ops, L, X)
    ensures Pairing(X)
    ensures forall w | 0 <= w < |X| :: X[w] >= 0 <==> ops[w / 4] != Identity
  {
    forall w | 0 <= w < |X|
      ensures PairedLeg(X, w) && (X[w] >= 0 <==> ops[w / 4] != Identity)
    {
      var m := Mate(w);
      if ops[w / 4] != Identity {
        assert Linked(ops, L, X, w) && Linked(ops, L, X, m);
        assert IsUpper(m) == IsUpper(w);
      }
    }
  }

  /** Leg w, its mate and its partner are all still as built. */
  ghost predicate Unmarked(X0: seq<int>, X: seq<int>, w: int)
    requires |X| == |X0| && |X0| % 4 == 0 && 0 <= w < |X0| && 0 <= X0[w] < |X0|
  {
    X[w] == X0[w] && X[Mate(w)] == X0[Mate(w)] && X[X0[w]] == X0[X0[w]]
  }

  /** Leg w, its mate and its partner all carry the same mark, -1 or -2. */
  ghost predicate MarkedLeg(X0: seq<int>, X: seq<int>, w: int)
    requires |X| == |X0| && |X0| % 4 == 0 && 0 <= w < |X0| && 0 <= X0[w] < |X0|
  {
    (X[w] == -1 || X[w] == -2) && X[Mate(w)] == X[w] && X[X0[w]] == X[w]
  }

  /** An unlinked leg stays -1; a linked one is unvisited or visited together with its whole loop. */
  ghost predicate LegState(X0: seq<int>, X: seq<int>, w: int)
    requires Pairing(X0) && |X| == |X0| && 0 <= w < |X0|
  {
    assert PairedLeg(X0, w);
    if X0[w] == -1 then X[w] == -1 else Unmarked(X0, X, w) || MarkedLeg(X0, X, w)
  }

  /** Between two walks, every leg is in one of the states above. */
  ghost predicate Marked(X0: seq<int>, X: seq<int>)
    requires Pairing(X0)
  {
    |X| == |X0| && forall w | 0 <= w < |X0| :: LegState(X0, X, w)
  }

  /** The type bit of slot p has been toggled exactly when one of its two sides lies on a flipped loop. */
  ghost predicate TypeBits(O0: seq<int>, O: seq<int>, X: seq<int>) {
    |O| == |O0| && |X| == 4 * |O0| &&
    forall p | 0 <= p < |O0| ::
      if (X[4 * p] == -2) != (X[4 * p + 2] == -2) then O0[p] >= 0 && O[p] == ToggleType(O0[p])
      else O[p] == O0[p]
  }

  lemma MateBound(w: int, size: int)
    requires 0 <= w < size && size % 4 == 0
    ensures 0 <= Mate(w) < size && Mate(Mate(w)) == w
  {
  }

  /** The two legs {w, w ^ 1} are one side of slot w / 4: its lower side or its upper side. */
  lemma MateSide(w: int)
    requires w >= 0
    ensures w % 4 < 2 ==> (w == 4 * (w / 4) || Mate(w) == 4 * (w / 4)) && w != 4 * (w / 4) + 2 && Mate(w) != 4 * (w / 4) + 2
    ensures w % 4 >= 2 ==> (w == 4 * (w / 4) + 2 || Mate(w) == 4 * (w / 4) + 2) && w != 4 * (w / 4) && Mate(w) != 4 * (w / 4)
  {
  }

  /** Toggling the type bit twice restores the slot. */
  lemma ToggleTwice(x: int)
    requires x >= 0
    ensures ToggleType(ToggleType(x)) == x
  {
  }

  /** Changing only type bits keeps the shape of the string, hence n and nw. */
  lemma TypeBitsSameShape(O0: seq<int>, O: seq<int>, X: seq<int>, L: int)
    requires TypeBits(O0, O, X) && ValidOps(O0, L)
    ensures SameShape(O0, O) && ValidOps(O, L)
    ensures CountOps(O) == CountOps(O0) && CountWeak(O) == CountWeak(O0)
  {
    assert SameShape(O0, O);
    CountsOfSameShape(O0, O);
  }

  // ---------------------------------------------------------------------------------------
  // One walk: the legs visited so far (W), the start leg v, the last tail t and the next head h.
  // ---------------------------------------------------------------------------------------

  /** A visited leg: linked, unmarked when the walk began, and visited together with its mate. */
  ghost predicate Visited(X0: seq<int>, Xs: seq<int>, W: set<int>, w: int)
    requires Pairing(X0) && |Xs| == |X0|
  {
    0 <= w < |X0| && X0[w] >= 0 && Xs[w] == X0[w] && Mate(w) in W
  }

  /** A visited leg other than the two open ends of the path has its partner inside the path. */
  ghost predicate Inner(X0: seq<int>, W: set<int>, v: int, t: int, w: int) {
    0 <= w < |X0| && 0 <= X0[w] && X0[w] in W && X0[w] != v && X0[w] != t
  }

  /**
   * W is a path v = h0, mate(h0) = t0, h1 = X0[t0], ..., tk = t: closed under Mate, and every
   * visited leg except the two open ends v and t has its partner among the visited legs.
   */
  ghost predicate WalkInv(X0: seq<int>, Xs: seq<int>, v: int, W: set<int>, t: int, h: int)
    requires Pairing(X0) && |Xs| == |X0|
  {
    (forall w {:trigger Visited(X0, Xs, W, w)} | w in W :: Visited(X0, Xs, W, w)) &&
    v in W && t in W && t != v && 0 <= t < |X0| && h == X0[t] &&
    AllInner(X0, W, v, t)
  }

  /** Every visited leg other than the open ends v and t is inner. */
  ghost predicate AllInner(X0: seq<int>, W: set<int>, v: int, t: int) {
    forall w {:trigger Inner(X0, W, v, t, w)} | w in W && w != v && w != t :: Inner(X0, W, v, t, w)
  }

  /** The first step from v visits v and its mate. */
  lemma WalkStart(X0: seq<int>, Xs: seq<int>, v: int)
    requires Pairing(X0) && Marked(X0, Xs)
    requires 0 <= v < |X0| && Xs[v] >= 0
    ensures X0[v] >= 0 && Xs[v] == X0[v] && Xs[Mate(v)] == X0[Mate(v)] && 0 <= Mate(v) < |X0|
    ensures 0 <= X0[Mate(v)] < |X0|
    ensures WalkInv(X0, Xs, v, {v, Mate(v)}, Mate(v), X0[Mate(v)])
  {
    var m := Mate(v);
    MateBound(v, |X0|);
    assert PairedLeg(X0, v) && LegState(X0, Xs, v);
    assert Unmarked(X0, Xs, v);
    assert PairedLeg(X0, m);
    assert Mate(m) == v;
    var W := {v, m};
    assert Visited(X0, Xs, W, v) && Visited(X0, Xs, W, m);
  }

  /** While the walk has not returned to v, its next head and that head's mate are unvisited. */
  lemma WalkNext(X0: seq<int>, Xs: seq<int>, v: int, W: set<int>, t: int, h: int)
    requires Pairing(X0) && Marked(X0, Xs) && WalkInv(X0, Xs, v, W, t, h) && h != v
    ensures 0 <= h < |X0| && h !in W && Mate(h) !in W && 0 <= Mate(h) < |X0|
    ensures X0[h] >= 0 && Xs[h] == X0[h] && Xs[Mate(h)] == X0[Mate(h)] && 0 <= X0[Mate(h)] < |X0|
    ensures WalkInv(X0, Xs, v, W + {h, Mate(h)}, Mate(h), X0[Mate(h)])
  {
    WalkNextFresh(X0, Xs, v, W, t, h);
    WalkExtend(X0, Xs, v, W, t, h);
  }

  /** The next head is linked back to the tail t, and neither it nor its mate has been visited. */
  lemma WalkNextFresh(X0: seq<int>, Xs: seq<int>, v: int, W: set<int>, t: int, h: int)
    requires Pairing(X0) && Marked(X0, Xs) && WalkInv(X0, Xs, v, W, t, h) && h != v
    ensures 0 <= h < |X0| && X0[h] == t && h !in W && Mate(h) !in W && 0 <= Mate(h) < |X0|
    ensures X0[h] >= 0 && Xs[h] == X0[h] && Xs[Mate(h)] == X0[Mate(h)] && 0 <= X0[Mate(h)] < |X0|
  {
    assert Visited(X0, Xs, W, t);
    assert PairedLeg(X0, t);
    assert 0 <= h < |X0| && X0[h] == t;
    MateBound(h, |X0|);
    assert h != t;
    assert h in W ==> Inner(X0, W, v, t, h);
    assert Mate(h) in W ==> Visited(X0, Xs, W, Mate(h));
    assert LegState(X0, Xs, t);
    assert Unmarked(X0, Xs, t);
    assert PairedLeg(X0, h) && LegState(X0, Xs, h);
    assert Unmarked(X0, Xs, h);
    assert PairedLeg(X0, Mate(h));
  }

  /** Adding the fresh head h and its mate to the path moves the open end from t to the mate. */
  lemma WalkExtend(X0: seq<int>, Xs: seq<int>, v: int, W: set<int>, t: int, h: int)
    requires Pairing(X0) && |Xs| == |X0| && WalkInv(X0, Xs, v, W, t, h) && h != v
    requires 0 <= h < |X0| && X0[h] == t && h !in W && Mate(h) !in W && 0 <= Mate(h) < |X0|
    requires X0[h] >= 0 && Xs[h] == X0[h] && Xs[Mate(h)] == X0[Mate(h)] && 0 <= X0[Mate(h)] < |X0|
    ensures WalkInv(X0, Xs, v, W + {h, Mate(h)}, Mate(h), X0[Mate(h)])
  {
    MateBound(h, |X0|);
    ExtendVisited(X0, Xs, W, h);
    assert Visited(X0, Xs, W, t) && PairedLeg(X0, t);
    ExtendInner(X0, v, W, t, h, Mate(h));
  }

  lemma ExtendVisited(X0: seq<int>, Xs: seq<int>, W: set<int>, h: int)
    requires Pairing(X0) && |Xs| == |X0|
    requires forall w {:trigger Visited(X0, Xs, W, w)} | w in W :: Visited(X0, Xs, W, w)
    requires 0 <= h < |X0| && 0 <= Mate(h) < |X0| && Mate(Mate(h)) == h
    requires X0[h] >= 0 && Xs[h] == X0[h] && Xs[Mate(h)] == X0[Mate(h)] && X0[Mate(h)] >= 0
    ensures forall w {:trigger Visited(X0, Xs, W + {h, Mate(h)}, w)} | w in W + {h, Mate(h)} ::
      Visited(X0, Xs, W + {h, Mate(h)}, w)
  {
    var m := Mate(h);
    var W' := W + {h, m};
    forall w | w in W'
      ensures Visited(X0, Xs, W', w)
    {
      if w != h && w != m {
        assert Visited(X0, Xs, W, w);
      }
    }
  }

  lemma ExtendInner(X0: seq<int>, v: int, W: set<int>, t: int, h: int, m: int)
    requires AllInner(X0, W, v, t)
    requires 0 <= h < |X0| && 0 <= t < |X0| && t in W && X0[h] == t && X0[t] == h && h !in W && m !in W && m != h
    requires h != v && t != v
    ensures AllInner(X0, W + {h, m}, v, m)
  {
    var W' := W + {h, m};
    forall w | w in W' && w != v && w != m
      ensures Inner(X0, W', v, m, w)
    {
      if w != h && w != t {
        assert w in W && Inner(X0, W, v, t, w);
      }
    }
  }

  /** Once the walk is back at v, the visited legs form a closed loop. */
  lemma WalkEnd(X0: seq<int>, Xs: seq<int>, v: int, W: set<int>, t: int)
    requires Pairing(X0) && |Xs| == |X0| && WalkInv(X0, Xs, v, W, t, v)
    ensures forall w {:trigger OnLoop(X0, Xs, W, w)} | w in W :: OnLoop(X0, Xs, W, w)
  {
    forall w {:trigger OnLoop(X0, Xs, W, w)} | w in W
      ensures OnLoop(X0, Xs, W, w)
    {
      assert Visited(X0, Xs, W, w);
      if w == v {
        assert Visited(X0, Xs, W, t) && PairedLeg(X0, t);
        assert X0[v] == t;
      } else if w != t {
        assert Inner(X0, W, v, t, w);
      }
    }
  }

  /** A leg of a finished walk: unmarked when the walk began, with its partner and its mate on the loop. */
  ghost predicate OnLoop(X0: seq<int>, Xs: seq<int>, W: set<int>, w: int) {
    0 <= w < |X0| && w < |Xs| && X0[w] >= 0 && Xs[w] == X0[w] && X0[w] in W && Mate(w) in W
  }

  /** During a walk: the visited legs carry the walk's mark, the others are as before the walk. */
  ghost predicate MarksOf(Xs: seq<int>, X: seq<int>, W: set<int>, mark: int) {
    |X| == |Xs| && forall w | 0 <= w < |Xs| :: X[w] == if w in W then mark else Xs[w]
  }

  /** Marking one more pair of legs {h, t} extends the visited set by them. */
  lemma {:induction false} MarkPair(Xs: seq<int>, X: seq<int>, W: set<int>, mark: int, h: int, t: int)
    requires MarksOf(Xs, X, W, mark) && 0 <= h < |X| && 0 <= t < |X|
    ensures MarksOf(Xs, X[h := mark][t := mark], W + {h, t}, mark)
  {
    var X' := X[h := mark][t := mark];
    forall w | 0 <= w < |Xs|
      ensures X'[w] == if w in W + {h, t} then mark else Xs[w]
    {
      if w != h && w != t {
        assert X'[w] == X[w];
      }
    }
  }

  /** Every even leg below v has been visited by some walk. */
  predicate EvenDone(X: seq<int>, v: int) {
    forall w | 0 <= w < v && w < |X| && w % 2 == 0 :: X[w] < 0
  }

  /** Marking a walk that went through v (or skipping a visited v) moves the scan past v. */
  lemma {:induction false} EvenDoneStep(Xs: seq<int>, X: seq<int>, W: set<int>, mark: int, v: int)
    requires MarksOf(Xs, X, W, mark) && mark < 0 && EvenDone(Xs, v) && 0 <= v < |Xs| && v % 2 == 0
    requires v in W || Xs[v] < 0
    ensures EvenDone(X, v + 2)
  {
    forall w | 0 <= w < v + 2 && w < |X| && w % 2 == 0
      ensures X[w] < 0
    {
      if w in W {
      } else if w < v {
      } else {
        assert w == v;
      }
    }
  }

  /** During a walk: the type bit of slot p is toggled exactly when one side of p, not both, has been visited. */
  ghost predicate SidesToggled(Os: seq<int>, O: seq<int>, W: set<int>, flip: bool) {
    |O| == |Os| &&
    forall p | 0 <= p < |Os| ::
      if flip && ((4 * p in W) != (4 * p + 2 in W)) then Os[p] >= 0 && O[p] == ToggleType(Os[p]) else O[p] == Os[p]
  }

  /** A slot whose type bit may have been toggled still holds an operator. */
  lemma SidesToggledSign(Os: seq<int>, O: seq<int>, W: set<int>, flip: bool, p: int)
    requires SidesToggled(Os, O, W, flip) && 0 <= p < |Os| && Os[p] >= 0
    ensures O[p] >= 0
  {
  }

  /** Visiting one more side {h, h ^ 1} of slot h / 4 and toggling that slot keeps the correspondence. */
  lemma {:induction false} ToggleSide(Os: seq<int>, O: seq<int>, W: set<int>, flip: bool, h: int, O': seq<int>)
    requires SidesToggled(Os, O, W, flip)
    requires 0 <= h < 4 * |Os| && h !in W && Mate(h) !in W && Os[h / 4] >= 0
    requires O' == if flip then O[h / 4 := ToggleType(O[h / 4])] else O
    ensures SidesToggled(Os, O', W + {h, Mate(h)}, flip)
  {
    var W', p0 := W + {h, Mate(h)}, h / 4;
    MateSide(h);
    forall p | 0 <= p < |Os|
      ensures if flip && ((4 * p in W') != (4 * p + 2 in W')) then Os[p] >= 0 && O'[p] == ToggleType(Os[p]) else O'[p] == Os[p]
    {
      if p == p0 {
        ToggleTwice(Os[p]);
      } else {
        assert (4 * p in W') == (4 * p in W) && (4 * p + 2 in W') == (4 * p + 2 in W);
      }
    }
  }

  /**
   * Marking a closed loop of unvisited legs with one mark, and toggling the type bits the way the
   * walk does, keeps both invariants of the loop update.
   */
  lemma MarkLoop(X0: seq<int>, O0: seq<int>, Xs: seq<int>, Os: seq<int>, W: set<int>, mark: int,
                 X: seq<int>, O: seq<int>)
    requires Pairing(X0) && Marked(X0, Xs) && TypeBits(O0, Os, Xs)
    requires mark == -1 || mark == -2
    requires forall w {:trigger OnLoop(X0, Xs, W, w)} | w in W :: OnLoop(X0, Xs, W, w)
    requires |Xs| == |X0| && MarksOf(Xs, X, W, mark)
    requires forall w | 0 <= w < |X0| :: X0[w] >= 0 ==> Os[w / 4] >= 0
    requires SidesToggled(Os, O, W, mark == -2)
    ensures Marked(X0, X) && TypeBits(O0, O, X)
  {
    forall w | 0 <= w < |X0|
      ensures LegState(X0, X, w)
    {
      assert PairedLeg(X0, w) && LegState(X0, Xs, w);
      assert w in W ==> OnLoop(X0, Xs, W, w);
      if X0[w] != -1 {
        var m := Mate(w);
        if w in W {
          assert OnLoop(X0, Xs, W, w);
          assert X[w] == mark && X[m] == mark && X[X0[w]] == mark;
          assert MarkedLeg(X0, X, w);
        } else {
          assert X0[X0[w]] == w && Mate(m) == w;
          assert X0[w] in W ==> OnLoop(X0, Xs, W, X0[w]);
          assert m in W ==> OnLoop(X0, Xs, W, m);
          assert X0[w] !in W && m !in W;
          assert X[w] == Xs[w] && X[m] == Xs[m] && X[X0[w]] == Xs[X0[w]];
          if Unmarked(X0, Xs, w) {
            assert Unmarked(X0, X, w);
          } else {
            assert MarkedLeg(X0, Xs, w);
            assert MarkedLeg(X0, X, w);
          }
        }
      }
    }
    forall p | 0 <= p < |O0|
      ensures if (X[4 * p] == -2) != (X[4 * p + 2] == -2) then O0[p] >= 0 && O[p] == ToggleType(O0[p])
              else O[p] == O0[p]
    {
      var lo, hi := 4 * p, 4 * p + 2;
      assert lo / 4 == p && hi / 4 == p;
      if lo in W || hi in W {
        assert lo in W ==> OnLoop(X0, Xs, W, lo);
        assert hi in W ==> OnLoop(X0, Xs, W, hi);
        assert Os[p] >= 0;
        ToggleTwice(Os[p]);
        if Os[p] != O0[p] {
          ToggleTwice(O0[p]);
        }
      }
    }
  }

  /**
   * Once every even leg has been visited, every leg is: links are all replaced by -1 or -2,
   * unlinked legs stay -1, and each loop carries a single mark.
   */
  lemma AllMarked(X0: seq<int>, X: seq<int>)
    requires Pairing(X0) && Marked(X0, X)
    requires EvenDone(X, |X|)
    ensures forall w | 0 <= w < |X| :: X[w] == -1 || X[w] == -2
    ensures forall w | 0 <= w < |X| :: X0[w] == -1 ==> X[w] == -1
    ensures forall w | 0 <= w < |X| && X0[w] >= 0 :: 0 <= X0[w] < |X| && X[X0[w]] == X[w] && X[Mate(w)] == X[w]
  {
    forall w | 0 <= w < |X|
      ensures (X[w] == -1 || X[w] == -2) && (X0[w] == -1 ==> X[w] == -1)
      ensures X0[w] >= 0 ==> 0 <= X0[w] < |X| && X[X0[w]] == X[w] && X[Mate(w)] == X[w]
    {
      assert PairedLeg(X0, w) && LegState(X0, X, w);
      if X0[w] >= 0 {
        var e := if w % 2 == 0 then w else Mate(w);
        MateBound(w, |X0|);
        assert PairedLeg(X0, Mate(w));
        assert e % 2 == 0 && X[e] < 0 && X0[e] >= 0;
        assert !Unmarked(X0, X, w);
      }
    }
  }

  /** Before the first walk: nothing is marked and no type bit is toggled. */
  lemma LoopStart(ops: seq<int>, L: int, X0: seq<int>)
    requires L >= 2 && ValidOps(ops, L) && IsVertexList(ops, L, X0)
    ensures Pairing(X0) && Marked(X0, X0) && TypeBits(ops, ops, X0)
    ensures forall w | 0 <= w < |X0| :: X0[w] >= 0 ==> ops[w / 4] >= 0
  {
    VertexListPairing(ops, L, X0);
    forall w | 0 <= w < |X0|
      ensures LegState(X0, X0, w)
    {
      assert PairedLeg(X0, w);
    }
  }

  // ---------------------------------------------------------------------------------------
  // The legs of one walk in the order they are visited.
  // ---------------------------------------------------------------------------------------

  /** Entries 2i and 2i + 1 of the walk c are a leg and its mate w ^ 1. */
  ghost predicate PairAt(c: seq<int>, i: int) {
    0 <= i && 2 * i + 1 < |c| && c[2 * i] >= 0 && c[2 * i + 1] == Mate(c[2 * i])
  }

  /** Entry 2i + 2 of the walk c is the leg linked to entry 2i + 1. */
  ghost predicate LinkAt(X0: seq<int>, c: seq<int>, i: int) {
    0 <= i && 2 * i + 2 < |c| && 0 <= c[2 * i + 1] < |X0| && c[2 * i + 2] == X0[c[2 * i + 1]]
  }

  /**
   * c is an open walk of the loop graph: a leg, its mate, the leg linked to that mate, its mate,
   * and so on.
   */
  ghost predicate Path(X0: seq<int>, c: seq<int>) {
    |c| % 2 == 0 &&
    (forall i | 0 <= i < |c| :: 0 <= c[i] < |X0|) &&
    (forall i {:trigger PairAt(c, i)} | 0 <= i < |c| / 2 :: PairAt(c, i)) &&
    (forall i {:trigger LinkAt(X0, c, i)} | 0 <= i < |c| / 2 - 1 :: LinkAt(X0, c, i))
  }

  /** A closed walk: the leg linked to the last entry is the first one again. */
  ghost predicate Cycle(X0: seq<int>, c: seq<int>) {
    Path(X0, c) && |c| >= 2 && X0[c[|c| - 1]] == c[0]
  }

  /**
   * A loop as loopUpdate walks it: a closed walk that starts from an even leg, the least leg on
   * it.
   */
  ghost predicate LoopFrom(X0: seq<int>, c: seq<int>) {
    Cycle(X0, c) && c[0] % 2 == 0 && forall i | 0 <= i < |c| :: c[0] <= c[i]
  }

  /** A walk grows by the leg linked to its last entry and that leg's mate. */
  lemma PathSnoc(X0: seq<int>, c: seq<int>, h: int, t: int)
    requires Path(X0, c) && 0 <= h < |X0| && 0 <= t < |X0| && t == Mate(h)
    requires |c| > 0 ==> h == X0[c[|c| - 1]]
    ensures Path(X0, c + [h, t])
  {
    var c' := c + [h, t];
    var k := |c| / 2;
    forall i | 0 <= i < |c'|
      ensures 0 <= c'[i] < |X0|
    {
      if i < |c| {
        assert c'[i] == c[i];
      }
    }
    forall i {:trigger PairAt(c', i)} | 0 <= i < |c'| / 2
      ensures PairAt(c', i)
    {
      if i < k {
        assert PairAt(c, i);
        assert c'[2 * i] == c[2 * i] && c'[2 * i + 1] == c[2 * i + 1];
      } else {
        assert c'[2 * i] == h && c'[2 * i + 1] == t;
      }
    }
    forall i {:trigger LinkAt(X0, c', i)} | 0 <= i < |c'| / 2 - 1
      ensures LinkAt(X0, c', i)
    {
      if i < k - 1 {
        assert LinkAt(X0, c, i);
        assert c'[2 * i + 1] == c[2 * i + 1] && c'[2 * i + 2] == c[2 * i + 2];
      } else {
        assert c'[2 * i + 1] == c[|c| - 1] && c'[2 * i + 2] == h;
      }
    }
  }

  /**
   * A walk started from the even leg v, once all even legs below v have been visited, visits no
   * leg below v: every leg it visits was unvisited, and so is its mate, one of the two being even.
   */
  lemma LeastStart(X0: seq<int>, Xs: seq<int>, W: set<int>, c: seq<int>, v: int)
    requires EvenDone(Xs, v) && v % 2 == 0 && |Xs| == |X0|
    requires forall w {:trigger OnLoop(X0, Xs, W, w)} | w in W :: OnLoop(X0, Xs, W, w)
    requires forall w :: w in c ==> w in W
    ensures forall i | 0 <= i < |c| :: v <= c[i]
  {
    forall i | 0 <= i < |c|
      ensures v <= c[i]
    {
      var w := c[i];
      assert w in W && OnLoop(X0, Xs, W, w);
      if w % 2 == 1 {
        var m := Mate(w);
        assert m == w - 1 && m in W && OnLoop(X0, Xs, W, m);
      }
    }
  }
}

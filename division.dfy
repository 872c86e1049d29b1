// The division schedule of the driver: the couplings Jw > Jw_copy > ... > Jw0 at which one
// reweighting step is run, and the weight alpha of each step. `pow` is the C library power
// function, taken as an arbitrary function on reals.

module Division {

  /** Upper clamp of a step weight. */
  const AlphaCap := 0.99999

  function Max(a: real, b: real): (r: real)
    ensures r >= a && r >= b && (r == a || r == b)
  {
    if a >= b then a else b
  }

  function Min(a: real, b: real): (r: real)
    ensures r <= a && r <= b && (r == a || r == b)
  {
    if a <= b then a else b
  }

  function Dist(a: real, b: real): (r: real)
    ensures r >= 0.0 && (r == a - b || r == b - a)
  {
    if a >= b then a - b else b - a
  }

  /**
   * The clamp of doDivision: below epsilon becomes epsilon, above the cap becomes the cap. When
   * epsilon does not exceed the cap, the result is the point of [epsilon, cap] nearest alpha.
   */
  function Clamp(alpha: real, eps: real): (r: real)
    ensures eps <= AlphaCap ==> eps <= r <= AlphaCap
    ensures eps <= AlphaCap ==> forall y {:trigger Dist(y, alpha)} | eps <= y <= AlphaCap :: Dist(r, alpha) <= Dist(y, alpha)
    ensures Min(eps, AlphaCap) <= r <= Max(eps, AlphaCap)
  {
    if alpha < eps then eps
    else if alpha > AlphaCap then AlphaCap
    else alpha
  }

  /** The exponent 1 / (Lambda * beta * Jw * L): the expected number of operators is about Lambda beta Jw L. */
  function Exponent(lambda: real, beta: real, jw: real, L: int): (r: real)
    requires lambda > 0.0 && beta > 0.0 && jw > 0.0 && L > 0
    ensures r > 0.0
  {
    var lb := lambda * beta;
    var lbj := lb * jw;
    var d := lbj * L as real;
    assert lb > 0.0 && lbj > 0.0 && d > 0.0;
    1.0 / d
  }

  /** The weight doDivision gives the step that starts at coupling jw. */
  function StepAlpha(pow: (real, real) -> real, eps: real, lambda: real, beta: real, jw: real, L: int): (r: real)
    requires lambda > 0.0 && beta > 0.0 && jw > 0.0 && L > 0
    ensures Min(eps, AlphaCap) <= r <= Max(eps, AlphaCap)
  {
    Clamp(pow(eps, Exponent(lambda, beta, jw, L)), eps)
  }

  /**
   * While the coupling exceeds jw0 > 0, a step by a weight of at most q < 1 lowers it by at
   * least delta = (1 - q) * jw0: the measure that bounds the number of steps drops.
   */
  lemma StepShrinks(jw: real, alpha: real, q: real, jw0: real, delta: real)
    requires jw > jw0 > 0.0 && 0.0 < alpha <= q < 1.0 && delta == (1.0 - q) * jw0
    ensures delta > 0.0 && 0 <= Gap(jw, jw0, delta) && Gap(jw * alpha, jw0, delta) < Gap(jw, jw0, delta)
  {
    Positive(1.0 - q, jw0);
    var next := jw * alpha;
    StepAtLeast(jw, alpha, q, jw0);
    var A, B := (jw - jw0) / delta, (next - jw0) / delta;
    SubDiv(jw - jw0, next - jw0, delta);
    AtLeastOne(jw - next, delta);
    AtLeastZero(jw - jw0, delta);
    FloorDrop(A, B);
  }

  /** A step by a weight of at most q lowers a coupling above jw0 by at least (1 - q) * jw0. */
  lemma StepAtLeast(jw: real, alpha: real, q: real, jw0: real)
    requires jw > jw0 > 0.0 && 0.0 < alpha <= q < 1.0
    ensures jw - jw * alpha >= (1.0 - q) * jw0
  {
    MulMono(jw, alpha, q);
    Distrib(jw, q);
    MulMono(1.0 - q, jw0, jw);
    calc {
      jw - jw * alpha;
    >= jw - jw * q;
    == (1.0 - q) * jw;
    >= (1.0 - q) * jw0;
    }
  }

  lemma Distrib(a: real, q: real)
    ensures a - a * q == (1.0 - q) * a
  {
  }

  /** Two non-negative reals at least 1 apart have distinct floors, in the same order. */
  lemma FloorDrop(A: real, B: real)
    requires A >= 0.0 && A - B >= 1.0
    ensures 0 <= A.Floor && B.Floor < A.Floor
  {
    assert B.Floor as real <= B && A < A.Floor as real + 1.0;
  }

  /** The number of steps of size delta that fit between jw and jw0. */
  function Gap(jw: real, jw0: real, delta: real): int
    requires delta > 0.0
  {
    ((jw - jw0) / delta).Floor
  }

  lemma Positive(a: real, b: real)
    requires a > 0.0 && b > 0.0
    ensures a * b > 0.0
  {
  }

  lemma MulMono(a: real, b: real, c: real)
    requires a > 0.0 && b <= c
    ensures a * b <= a * c
  {
  }

  lemma MulLess(a: real, b: real)
    requires a > 0.0 && b < 1.0
    ensures a * b < a
  {
  }

  lemma SubDiv(x: real, y: real, d: real)
    requires d > 0.0
    ensures x / d - y / d == (x - y) / d
  {
  }

  lemma AtLeastOne(x: real, d: real)
    requires d > 0.0 && x >= d
    ensures x / d >= 1.0
  {
  }

  lemma AtLeastZero(x: real, d: real)
    requires d > 0.0 && x >= 0.0
    ensures x / d >= 0.0
  {
  }

  /** Each recorded weight is the clamped weight of its coupling. */
  ghost predicate Weights(pow: (real, real) -> real, eps: real, lambda: real, beta: real, L: int, jws: seq<real>, alphas: seq<real>)
    requires lambda > 0.0 && beta > 0.0 && L > 0
  {
    |alphas| == |jws| &&
    forall i {:trigger WeightAt(pow, eps, lambda, beta, L, jws, alphas, i)} | 0 <= i < |jws| ::
      WeightAt(pow, eps, lambda, beta, L, jws, alphas, i)
  }

  /** Weight i is the clamped weight of coupling i. */
  ghost predicate WeightAt(pow: (real, real) -> real, eps: real, lambda: real, beta: real, L: int,
                           jws: seq<real>, alphas: seq<real>, i: int)
    requires lambda > 0.0 && beta > 0.0 && L > 0
  {
    0 <= i < |jws| && i < |alphas| && jws[i] > 0.0 && alphas[i] == StepAlpha(pow, eps, lambda, beta, jws[i], L)
  }

  lemma WeightsSnoc(pow: (real, real) -> real, eps: real, lambda: real, beta: real, L: int,
                    jws: seq<real>, alphas: seq<real>, j: real)
    requires lambda > 0.0 && beta > 0.0 && L > 0 && j > 0.0
    requires Weights(pow, eps, lambda, beta, L, jws, alphas)
    ensures Weights(pow, eps, lambda, beta, L, jws + [j], alphas + [StepAlpha(pow, eps, lambda, beta, j, L)])
  {
    var jws', alphas' := jws + [j], alphas + [StepAlpha(pow, eps, lambda, beta, j, L)];
    forall i {:trigger WeightAt(pow, eps, lambda, beta, L, jws', alphas', i)} | 0 <= i < |jws'|
      ensures WeightAt(pow, eps, lambda, beta, L, jws', alphas', i)
    {
      if i < |jws| {
        assert WeightAt(pow, eps, lambda, beta, L, jws, alphas, i);
        assert jws'[i] == jws[i] && alphas'[i] == alphas[i];
      }
    }
  }

  /** Every recorded coupling exceeds jw0. */
  ghost predicate Above(jws: seq<real>, jw0: real) {
    forall i | 0 <= i < |jws| :: jws[i] > jw0
  }

  lemma AboveSnoc(jws: seq<real>, jw0: real, j: real)
    requires Above(jws, jw0) && j > jw0
    ensures Above(jws + [j], jw0)
  {
    var jws' := jws + [j];
    forall i | 0 <= i < |jws'|
      ensures jws'[i] > jw0
    {
      if i < |jws| {
        assert jws'[i] == jws[i];
      }
    }
  }

  /** Each recorded coupling is the previous one times the previous weight. */
  ghost predicate Steps(jws: seq<real>, alphas: seq<real>) {
    |alphas| == |jws| && forall i {:trigger StepAt(jws, alphas, i)} | 0 <= i < |jws| - 1 :: StepAt(jws, alphas, i)
  }

  /** Coupling i + 1 is coupling i times weight i. */
  ghost predicate StepAt(jws: seq<real>, alphas: seq<real>, i: int) {
    0 <= i < |jws| - 1 && i < |alphas| && jws[i + 1] == jws[i] * alphas[i]
  }

  lemma StepsSnoc(jws: seq<real>, alphas: seq<real>, j: real, a: real)
    requires Steps(jws, alphas) && (|jws| > 0 ==> j == jws[|jws| - 1] * alphas[|jws| - 1])
    ensures Steps(jws + [j], alphas + [a])
  {
    var jws', alphas' := jws + [j], alphas + [a];
    forall i {:trigger StepAt(jws', alphas', i)} | 0 <= i < |jws'| - 1
      ensures StepAt(jws', alphas', i)
    {
      assert jws'[i] == jws[i] && alphas'[i] == alphas[i];
      if i < |jws| - 1 {
        assert StepAt(jws, alphas, i);
        assert jws'[i + 1] == jws[i + 1];
      }
    }
  }

  /** The state of doDivision's loop: the lists so far and the current coupling jwCopy. */
  ghost predicate Schedule(pow: (real, real) -> real, eps: real, lambda: real, beta: real, L: int,
                           jw: real, jw0: real, jws: seq<real>, alphas: seq<real>, jwCopy: real)
    requires lambda > 0.0 && beta > 0.0 && L > 0
  {
    |alphas| == |jws| &&
    (|jws| == 0 ==> jwCopy == jw) &&
    (|jws| > 0 ==> jws[0] == jw && jwCopy == jws[|jws| - 1] * alphas[|jws| - 1]) &&
    Above(jws, jw0) && Weights(pow, eps, lambda, beta, L, jws, alphas) && Steps(jws, alphas)
  }

  /** One pass of the loop body keeps the loop state. */
  lemma ScheduleStep(pow: (real, real) -> real, eps: real, lambda: real, beta: real, L: int,
                     jw: real, jw0: real, jws: seq<real>, alphas: seq<real>, jwCopy: real)
    requires jw0 > 0.0 && lambda > 0.0 && beta > 0.0 && L > 0 && jwCopy > jw0
    requires Schedule(pow, eps, lambda, beta, L, jw, jw0, jws, alphas, jwCopy)
    ensures var alpha := StepAlpha(pow, eps, lambda, beta, jwCopy, L);
      Schedule(pow, eps, lambda, beta, L, jw, jw0, jws + [jwCopy], alphas + [alpha], jwCopy * alpha)
  {
    var alpha := StepAlpha(pow, eps, lambda, beta, jwCopy, L);
    StepsSnoc(jws, alphas, jwCopy, alpha);
    WeightsSnoc(pow, eps, lambda, beta, L, jws, alphas, jwCopy);
    AboveSnoc(jws, jw0, jwCopy);
    var jws', alphas' := jws + [jwCopy], alphas + [alpha];
    assert jws'[0] == (if |jws| == 0 then jwCopy else jws[0]);
    assert jws'[|jws'| - 1] == jwCopy && alphas'[|jws'| - 1] == alpha;
  }

  /**
   * doDivision: starting from Jw, record the coupling and its clamped weight, and multiply the
   * coupling by the weight, while it still exceeds Jw0. The two lists have the same length, every
   * recorded coupling exceeds Jw0, each one is the previous times its weight, and the coupling after
   * the last step no longer exceeds Jw0.
   */
  method DoDivision(jw: real, jw0: real, eps: real, lambda: real, beta: real, L: int, pow: (real, real) -> real)
    returns (alphas: seq<real>, jws: seq<real>)
    requires jw0 > 0.0 && 0.0 < eps < 1.0 && lambda > 0.0 && beta > 0.0 && L > 0
    ensures |alphas| == |jws|
    ensures |jws| == 0 <==> jw <= jw0
    ensures |jws| > 0 ==> jws[0] == jw && jws[|jws| - 1] * alphas[|jws| - 1] <= jw0
    ensures Above(jws, jw0)
    ensures Weights(pow, eps, lambda, beta, L, jws, alphas)
    ensures Steps(jws, alphas)
  {
    ghost var q := Max(eps, AlphaCap);
    ghost var delta := (1.0 - q) * jw0;
    Positive(1.0 - q, jw0);
    var jwCopy := jw;
    alphas, jws := [], [];
    while jwCopy > jw0
      invariant Schedule(pow, eps, lambda, beta, L, jw, jw0, jws, alphas, jwCopy)
      decreases Gap(jwCopy, jw0, delta)
    {
      alphas, jws, jwCopy := DivisionStep(pow, eps, lambda, beta, L, jw, jw0, jws, alphas, jwCopy, q, delta);
    }
    ScheduleDone(pow, eps, lambda, beta, L, jw, jw0, jws, alphas, jwCopy);
  }

  /** One pass of doDivision's loop body: record the coupling and its weight, then scale the coupling. */
  method DivisionStep(pow: (real, real) -> real, eps: real, lambda: real, beta: real, L: int, jw: real, jw0: real,
                      jws: seq<real>, alphas: seq<real>, jwCopy: real, ghost q: real, ghost delta: real)
    returns (alphas': seq<real>, jws': seq<real>, next: real)
    requires jw0 > 0.0 && 0.0 < eps < 1.0 && lambda > 0.0 && beta > 0.0 && L > 0 && jwCopy > jw0
    requires q == Max(eps, AlphaCap) && delta == (1.0 - q) * jw0
    requires Schedule(pow, eps, lambda, beta, L, jw, jw0, jws, alphas, jwCopy)
    ensures Schedule(pow, eps, lambda, beta, L, jw, jw0, jws', alphas', next)
    ensures delta > 0.0 && 0 <= Gap(jwCopy, jw0, delta) && Gap(next, jw0, delta) < Gap(jwCopy, jw0, delta)
  {
    ScheduleStep(pow, eps, lambda, beta, L, jw, jw0, jws, alphas, jwCopy);
    jws' := jws + [jwCopy];
    var alpha := pow(eps, Exponent(lambda, beta, jwCopy, L));
    alpha := Clamp(alpha, eps);
    assert alpha == StepAlpha(pow, eps, lambda, beta, jwCopy, L);
    alphas' := alphas + [alpha];
    next := jwCopy * alpha;
    StepShrinks(jwCopy, alpha, q, jw0, delta);
  }

  /** When the loop stops, its state gives the postcondition of doDivision. */
  lemma ScheduleDone(pow: (real, real) -> real, eps: real, lambda: real, beta: real, L: int,
                     jw: real, jw0: real, jws: seq<real>, alphas: seq<real>, jwCopy: real)
    requires lambda > 0.0 && beta > 0.0 && L > 0 && jwCopy <= jw0
    requires Schedule(pow, eps, lambda, beta, L, jw, jw0, jws, alphas, jwCopy)
    ensures |alphas| == |jws| && (|jws| == 0 <==> jw <= jw0)
    ensures |jws| > 0 ==> jws[0] == jw && jws[|jws| - 1] * alphas[|jws| - 1] <= jw0
    ensures Above(jws, jw0) && Weights(pow, eps, lambda, beta, L, jws, alphas) && Steps(jws, alphas)
  {
  }

  /** Every weight doDivision records lies in [min(epsilon, cap), max(epsilon, cap)], inside (0, 1). */
  lemma WeightsInUnit(pow: (real, real) -> real, eps: real, lambda: real, beta: real, L: int,
                      jws: seq<real>, alphas: seq<real>)
    requires 0.0 < eps < 1.0 && lambda > 0.0 && beta > 0.0 && L > 0
    requires Weights(pow, eps, lambda, beta, L, jws, alphas)
    ensures 0.0 < Min(eps, AlphaCap) && Max(eps, AlphaCap) < 1.0
    ensures forall i | 0 <= i < |alphas| :: Min(eps, AlphaCap) <= alphas[i] <= Max(eps, AlphaCap)
  {
    forall i | 0 <= i < |alphas|
      ensures Min(eps, AlphaCap) <= alphas[i] <= Max(eps, AlphaCap)
    {
      assert WeightAt(pow, eps, lambda, beta, L, jws, alphas, i);
    }
  }

  lemma StepDown(jws: seq<real>, alphas: seq<real>, k: int)
    requires Steps(jws, alphas) && 0 <= k < |jws| - 1 && jws[k] > 0.0 && alphas[k] < 1.0
    ensures jws[k + 1] < jws[k]
  {
    assert StepAt(jws, alphas, k);
    MulLess(jws[k], alphas[k]);
  }

  /** The recorded couplings strictly decrease: each weight lies in (0, 1). */
  lemma {:induction false} CouplingsDecrease(jws: seq<real>, alphas: seq<real>, i: int, j: int)
    requires |alphas| == |jws| && forall k | 0 <= k < |jws| :: jws[k] > 0.0 && 0.0 < alphas[k] < 1.0
    requires Steps(jws, alphas)
    requires 0 <= i < j < |jws|
    ensures jws[j] < jws[i]
    decreases j - i
  {
    var k := j - 1;
    StepDown(jws, alphas, k);
    if i < k {
      CouplingsDecrease(jws, alphas, i, k);
    }
  }
}

// The driver's estimate of ln(Z / Z_ref): the product of the per-division ratios Z_{k+1}/Z_k, folded
// into a running product that is moved into the logarithm whenever it drops below 1e-10, so
// that the product never underflows.

module Telescope {

  /** The running product is flushed into the logarithm once it falls below this threshold. */
  const Floor: real := 0.0000000001

  /** The product of all ratios, multiplied in order. */
  function Product(rs: seq<real>): real {
    if |rs| == 0 then 1.0 else Product(rs[..|rs| - 1]) * rs[|rs| - 1]
  }

  predicate AllPositive(rs: seq<real>) {
    forall i | 0 <= i < |rs| :: rs[i] > 0.0
  }

  ghost predicate Splits(log: real -> real, a: real, b: real) {
    log(a * b) == log(a) + log(b)
  }

  /** `log` turns products of positive numbers into sums, as the natural logarithm does. */
  ghost predicate LogHom(log: real -> real) {
    forall a, b {:trigger Splits(log, a, b)} | a > 0.0 && b > 0.0 :: Splits(log, a, b)
  }

  lemma LogMul(log: real -> real, a: real, b: real)
    requires LogHom(log) && a > 0.0 && b > 0.0
    ensures log(a * b) == log(a) + log(b)
  {
    assert Splits(log, a, b);
  }

  /** Such a function sends 1 to 0, so flushing the product and restarting at 1 loses nothing. */
  lemma LogOne(log: real -> real)
    requires LogHom(log)
    ensures log(1.0) == 0.0
  {
    LogMul(log, 1.0, 1.0);
  }

  /** A product of positive ratios is positive. */
  lemma {:induction false} ProductPositive(rs: seq<real>)
    requires AllPositive(rs)
    ensures Product(rs) > 0.0
  {
    if |rs| > 0 {
      ProductPositive(rs[..|rs| - 1]);
      var p, r := Product(rs[..|rs| - 1]), rs[|rs| - 1];
      assert p * r > 0.0 by { PositiveProduct(p, r); }
    }
  }

  lemma PositiveProduct(p: real, r: real)
    requires p > 0.0 && r > 0.0
    ensures p * r > 0.0
  {
  }

  /** A product of ratios in (0, 1] stays in (0, 1]. */
  lemma {:induction false} ProductInUnit(rs: seq<real>)
    requires forall i | 0 <= i < |rs| :: 0.0 < rs[i] <= 1.0
    ensures 0.0 < Product(rs) <= 1.0
  {
    if |rs| > 0 {
      ProductInUnit(rs[..|rs| - 1]);
      var p, r := Product(rs[..|rs| - 1]), rs[|rs| - 1];
      PositiveProduct(p, r);
      assert p * r <= p * 1.0 by { ShrinkBy(p, r); }
    }
  }

  lemma ShrinkBy(p: real, r: real)
    requires p > 0.0 && r <= 1.0
    ensures p * r <= p * 1.0
  {
  }

  lemma ProductSnoc(rs: seq<real>, i: int)
    requires 0 <= i < |rs|
    ensures Product(rs[..i + 1]) == Product(rs[..i]) * rs[i]
  {
    assert rs[..i + 1][..i] == rs[..i];
  }

  /** One iteration of the fold: multiply r in, and flush the product into lnz once it is below the threshold. */
  method Absorb(log: real -> real, lnz: real, z: real, r: real) returns (lnz': real, z': real)
    requires LogHom(log)
    ensures Floor <= z'
    ensures lnz' + log(z') == lnz + log(z * r)
  {
    lnz', z' := lnz, z * r;
    if z' < Floor {
      LogOne(log);
      lnz', z' := lnz' + log(z'), 1.0;
    }
  }

  /** Multiplying one more ratio into the running product keeps lnz + log(z) equal to log of the prefix product. */
  lemma FoldStep(log: real -> real, lnz: real, z: real, p: real, r: real)
    requires LogHom(log) && z > 0.0 && p > 0.0 && r > 0.0
    requires lnz + log(z) == log(p)
    ensures lnz + log(z * r) == log(p * r)
  {
    LogMul(log, z, r);
    LogMul(log, p, r);
  }

  /**
   * The fold over Ratios[0 .. nDivision-1]: multiply each ratio into zzBatchRatio, and whenever that
   * product drops below 1e-10 add its logarithm to lnzLnzSubtrc and restart it at 1; at the end
   * add the logarithm of what is left. The flushes telescope away: the result is the logarithm
   * of the whole product, and the running product never sits below the threshold.
   */
  method LnProduct(ratios: seq<real>, log: real -> real) returns (lnz: real)
    requires AllPositive(ratios) && LogHom(log)
    ensures lnz == log(Product(ratios))
  {
    lnz := 0.0;
    var z := 1.0;
    ghost var prefix := 1.0;
    LogOne(log);
    for i := 0 to |ratios|
      invariant Floor <= z && prefix == Product(ratios[..i]) && prefix > 0.0
      invariant lnz + log(z) == log(prefix)
    {
      var r := ratios[i];
      FoldStep(log, lnz, z, prefix, r);
      ProductSnoc(ratios, i);
      PositiveProduct(prefix, r);
      prefix := prefix * r;
      lnz, z := Absorb(log, lnz, z, r);
    }
    assert ratios[..|ratios|] == ratios;
    lnz := lnz + log(z);
  }
}

/** Polynomials over a field of characteristic two, as coefficient sequences, lowest degree first. */
module Polynomials {
  import opened Char2Field

  /** The value at `x` by Horner's rule. */
  function Eval<F(!new)>(f: Field<F>, p: seq<F>, x: F): F {
    if p == [] then f.zero else f.add(f.mul(Eval(f, p[1..], x), x), p[0])
  }

  /** The textbook meaning: the sum of the first `k` terms `p[i] * x^i`. */
  function PowerSum<F(!new)>(f: Field<F>, p: seq<F>, x: F, k: nat): F
    requires k <= |p|
  {
    if k == 0 then f.zero else f.add(PowerSum(f, p, x, k - 1), f.mul(p[k - 1], Power(f, x, k - 1)))
  }

  ghost predicate Distinct<T>(xs: seq<T>) {
    forall i, j :: 0 <= i < j < |xs| ==> xs[i] != xs[j]
  }

  ghost predicate AllZero<F(!new)>(f: Field<F>, p: seq<F>) {
    forall i :: 0 <= i < |p| ==> p[i] == f.zero
  }

  // ---- Horner's rule computes the power sum -------------------------------------------------

  lemma {:induction false} PowerSumShift<F(!new)>(f: Field<F>, p: seq<F>, x: F, k: nat)
    requires f.Laws() && k < |p|
    ensures PowerSum(f, p, x, k + 1) == f.add(f.mul(PowerSum(f, p[1..], x, k), x), p[0])
  {
    var p0 := p[0];
    if k == 0 {
      TimesZero(f, x);
      assert PowerSum(f, p, x, 1) == f.add(PowerSum(f, p, x, 0), f.mul(p0, Power(f, x, 0)));
      assert f.At(p0, f.zero, p0);
    } else {
      PowerSumShift(f, p, x, k - 1);
      var s, t, w := PowerSum(f, p[1..], x, k - 1), p[k], Power(f, x, k - 1);
      Distribute(f, x, s, f.mul(t, w));
      assert f.At(t, w, x);
      assert f.At(f.mul(s, x), p0, f.mul(t, f.mul(w, x)));
      assert f.At(p0, f.mul(t, f.mul(w, x)), p0);
      assert f.At(f.mul(s, x), f.mul(t, f.mul(w, x)), p0);
    }
  }

  /** Horner's rule equals the sum of `p[i] * x^i` over all coefficients. */
  lemma {:induction false} HornerIsPowerSum<F(!new)>(f: Field<F>, p: seq<F>, x: F)
    requires f.Laws()
    ensures Eval(f, p, x) == PowerSum(f, p, x, |p|)
  {
    if p != [] {
      HornerIsPowerSum(f, p[1..], x);
      PowerSumShift(f, p, x, |p| - 1);
    }
  }

  lemma EvalAtZero<F(!new)>(f: Field<F>, p: seq<F>)
    requires f.Laws() && p != []
    ensures Eval(f, p, f.zero) == p[0]
  {
    TimesZero(f, Eval(f, p[1..], f.zero));
    assert f.At(f.zero, p[0], p[0]) && f.At(p[0], f.zero, f.zero);
  }

  // ---- A non-zero polynomial has fewer roots than coefficients ------------------------------

  /** The quotient of `p` by `(x - r)`, by synthetic division. */
  function Quotient<F(!new)>(f: Field<F>, p: seq<F>, r: F): (q: seq<F>)
    ensures |q| == if p == [] then 0 else |p| - 1
  {
    if |p| <= 1 then [] else [Eval(f, p[1..], r)] + Quotient(f, p[1..], r)
  }

  lemma {:induction false} DivisionIdentity<F(!new)>(f: Field<F>, p: seq<F>, r: F, x: F)
    requires f.Laws()
    ensures Eval(f, p, x) == f.add(f.mul(Eval(f, Quotient(f, p, r), x), f.add(x, r)), Eval(f, p, r))
  {
    if p == [] {
      TimesZero(f, f.add(x, r));
      assert f.At(f.zero, f.zero, f.zero);
    } else if |p| == 1 {
      TimesZero(f, x); TimesZero(f, r); TimesZero(f, f.add(x, r));
      assert Eval(f, p[1..], x) == Eval(f, p[1..], r) == f.zero;
      Cancel(f, f.zero, p[0]);
      assert f.At(f.zero, f.zero, p[0]);
    } else {
      var t := p[1..];
      var q := Quotient(f, t, r);
      DivisionIdentity(f, t, r, x);
      var qx, tr, tx := Eval(f, q, x), Eval(f, t, r), Eval(f, t, x);
      assert Quotient(f, p, r)[1..] == q;
      assert Eval(f, Quotient(f, p, r), x) == f.add(f.mul(qx, x), tr);
      DivisionStep(f, qx, tr, x, r, p[0]);
    }
  }

  /** With t(x) = q(x)(x+r) + t(r): t(x)x + c = (q(x)x + t(r))(x+r) + (t(r)r + c). */
  lemma DivisionStep<F(!new)>(f: Field<F>, qx: F, tr: F, x: F, r: F, c: F)
    requires f.Laws()
    ensures f.add(f.mul(f.add(f.mul(qx, f.add(x, r)), tr), x), c)
         == f.add(f.mul(f.add(f.mul(qx, x), tr), f.add(x, r)), f.add(f.mul(tr, r), c))
  {
    var d := f.add(x, r);
    Distribute(f, x, f.mul(qx, d), tr);
    Distribute(f, d, f.mul(qx, x), tr);
    Distribute(f, tr, x, r);
    assert f.At(qx, d, x) && f.At(qx, x, d) && f.At(d, x, d);
    var u, v, w := f.mul(f.mul(qx, x), d), f.mul(tr, x), f.mul(tr, r);
    Cancel(f, w, c);
    assert f.At(u, f.add(v, w), f.add(w, c)) && f.At(v, w, f.add(w, c)) && f.At(u, v, c);
  }

  lemma {:induction false} QuotientZero<F(!new)>(f: Field<F>, p: seq<F>, r: F)
    requires f.Laws() && AllZero(f, Quotient(f, p, r)) && Eval(f, p, r) == f.zero
    ensures AllZero(f, p)
  {
    if p != [] {
      var t := p[1..];
      if |p| > 1 {
        assert Quotient(f, p, r)[0] == Eval(f, t, r);
        assert Quotient(f, p, r)[1..] == Quotient(f, t, r);
        QuotientZero(f, t, r);
      }
      TimesZero(f, r);
      assert f.At(f.zero, p[0], p[0]) && f.At(p[0], f.zero, f.zero);
      forall i | 0 <= i < |p| ensures p[i] == f.zero {
        if i > 0 { assert p[i] == t[i - 1]; }
      }
    }
  }

  /** A polynomial that vanishes at as many distinct points as it has coefficients is zero. */
  lemma {:induction false} RootBound<F(!new)>(f: Field<F>, p: seq<F>, xs: seq<F>)
    requires f.Laws() && Distinct(xs) && |p| <= |xs|
    requires forall i :: 0 <= i < |xs| ==> Eval(f, p, xs[i]) == f.zero
    ensures AllZero(f, p)
    decreases |xs|
  {
    if p != [] {
      var r, rest := xs[0], xs[1..];
      var q := Quotient(f, p, r);
      forall i | 0 <= i < |rest| ensures Eval(f, q, rest[i]) == f.zero {
        var x := rest[i];
        assert x == xs[i + 1] && x != r;
        DivisionIdentity(f, p, r, x);
        var product := f.mul(Eval(f, q, x), f.add(x, r));
        assert f.At(product, f.zero, f.zero);
        Cancel(f, x, r);
        assert f.At(f.add(x, r), Eval(f, q, x), x);
        NoZeroDivisors(f, f.add(x, r), Eval(f, q, x));
      }
      RootBound(f, q, rest);
      QuotientZero(f, p, r);
    }
  }

  // ---- Polynomial arithmetic ----------------------------------------------------------------

  /** The sum of two polynomials of equal length. */
  function Plus<F(!new)>(f: Field<F>, p: seq<F>, q: seq<F>): (s: seq<F>)
    requires |p| == |q|
    ensures |s| == |p|
  {
    if p == [] then [] else [f.add(p[0], q[0])] + Plus(f, p[1..], q[1..])
  }

  function Scale<F(!new)>(f: Field<F>, c: F, p: seq<F>): (s: seq<F>)
    ensures |s| == |p|
  {
    if p == [] then [] else [f.mul(c, p[0])] + Scale(f, c, p[1..])
  }

  function Zeros<F(!new)>(f: Field<F>, n: nat): (s: seq<F>)
    ensures |s| == n
  {
    if n == 0 then [] else [f.zero] + Zeros(f, n - 1)
  }

  /** `p` times `(x - r)`. */
  function TimesLinear<F(!new)>(f: Field<F>, p: seq<F>, r: F): (s: seq<F>)
    ensures |s| == |p| + 1
  {
    Plus(f, [f.zero] + p, Scale(f, r, p) + [f.zero])
  }

  lemma {:induction false} PlusAt<F(!new)>(f: Field<F>, p: seq<F>, q: seq<F>, i: nat)
    requires |p| == |q| && i < |p|
    ensures Plus(f, p, q)[i] == f.add(p[i], q[i])
  {
    if i > 0 { PlusAt(f, p[1..], q[1..], i - 1); }
  }

  lemma {:induction false} EvalPlus<F(!new)>(f: Field<F>, p: seq<F>, q: seq<F>, x: F)
    requires f.Laws() && |p| == |q|
    ensures Eval(f, Plus(f, p, q), x) == f.add(Eval(f, p, x), Eval(f, q, x))
  {
    if p == [] {
      assert f.At(f.zero, f.zero, f.zero);
    } else {
      assert Plus(f, p, q)[1..] == Plus(f, p[1..], q[1..]);
      EvalPlus(f, p[1..], q[1..], x);
      var a, b := Eval(f, p[1..], x), Eval(f, q[1..], x);
      Distribute(f, x, a, b);
      Interchange(f, f.mul(a, x), f.mul(b, x), p[0], q[0]);
    }
  }

  lemma {:induction false} EvalScale<F(!new)>(f: Field<F>, c: F, p: seq<F>, x: F)
    requires f.Laws()
    ensures Eval(f, Scale(f, c, p), x) == f.mul(c, Eval(f, p, x))
  {
    if p == [] {
      TimesZero(f, c);
    } else {
      assert Scale(f, c, p)[1..] == Scale(f, c, p[1..]);
      EvalScale(f, c, p[1..], x);
      var a := Eval(f, p[1..], x);
      assert f.At(c, a, x);
      Distribute(f, c, f.mul(a, x), p[0]);
    }
  }

  lemma {:induction false} EvalPad<F(!new)>(f: Field<F>, p: seq<F>, x: F)
    requires f.Laws()
    ensures Eval(f, p + [f.zero], x) == Eval(f, p, x)
  {
    if p == [] {
      TimesZero(f, x);
      assert f.At(f.zero, f.zero, f.zero);
      assert (p + [f.zero])[1..] == [];
    } else {
      assert (p + [f.zero])[1..] == p[1..] + [f.zero];
      EvalPad(f, p[1..], x);
    }
  }

  lemma EvalTimesLinear<F(!new)>(f: Field<F>, p: seq<F>, r: F, x: F)
    requires f.Laws()
    ensures Eval(f, TimesLinear(f, p, r), x) == f.mul(f.add(x, r), Eval(f, p, x))
  {
    EvalPlus(f, [f.zero] + p, Scale(f, r, p) + [f.zero], x);
    EvalPad(f, Scale(f, r, p), x);
    EvalScale(f, r, p, x);
    var v := Eval(f, p, x);
    assert ([f.zero] + p)[1..] == p;
    assert f.At(f.mul(v, x), f.zero, f.zero) && f.At(v, x, x);
    Distribute(f, v, x, r);
  }

  // ---- Lagrange interpolation ---------------------------------------------------------------

  /** The `i`-th basis value at `x`: the product over `j < k`, `j != i`, of (x - xs[j]) / (xs[i] - xs[j]). */
  function Basis<F(!new)>(f: Field<F>, xs: seq<F>, i: nat, k: nat, x: F): F
    requires i < |xs| && k <= |xs|
  {
    if k == 0 then f.one
    else if k - 1 == i then Basis(f, xs, i, k - 1, x)
    else f.mul(Basis(f, xs, i, k - 1, x),
               f.mul(f.add(x, xs[k - 1]), f.inv(f.add(xs[i], xs[k - 1]))))
  }

  /** The interpolation formula, summed over the first `k` samples. */
  function Lagrange<F(!new)>(f: Field<F>, xs: seq<F>, ys: seq<F>, k: nat, x: F): F
    requires |xs| == |ys| && k <= |xs|
  {
    if k == 0 then f.zero
    else f.add(Lagrange(f, xs, ys, k - 1, x), f.mul(ys[k - 1], Basis(f, xs, k - 1, |xs|, x)))
  }

  /** Coefficients of the `i`-th basis polynomial. */
  function BasisPoly<F(!new)>(f: Field<F>, xs: seq<F>, i: nat, k: nat): (p: seq<F>)
    requires i < |xs| && k <= |xs|
    ensures |p| == if i < k then k else k + 1
  {
    if k == 0 then [f.one]
    else if k - 1 == i then BasisPoly(f, xs, i, k - 1)
    else Scale(f, f.inv(f.add(xs[i], xs[k - 1])), TimesLinear(f, BasisPoly(f, xs, i, k - 1), xs[k - 1]))
  }

  /** Coefficients of the interpolation polynomial, as many as there are samples. */
  function LagrangePoly<F(!new)>(f: Field<F>, xs: seq<F>, ys: seq<F>, k: nat): (p: seq<F>)
    requires |xs| == |ys| && k <= |xs|
    ensures |p| == |xs|
  {
    if k == 0 then Zeros(f, |xs|)
    else Plus(f, LagrangePoly(f, xs, ys, k - 1), Scale(f, ys[k - 1], BasisPoly(f, xs, k - 1, |xs|)))
  }

  lemma {:induction false} EvalBasisPoly<F(!new)>(f: Field<F>, xs: seq<F>, i: nat, k: nat, x: F)
    requires f.Laws() && i < |xs| && k <= |xs|
    ensures Eval(f, BasisPoly(f, xs, i, k), x) == Basis(f, xs, i, k, x)
  {
    if k == 0 {
      TimesZero(f, x);
      assert Eval(f, [f.one][1..], x) == f.zero;
      assert f.At(f.zero, f.one, f.one) && f.At(f.one, f.zero, f.zero);
    } else {
      EvalBasisPoly(f, xs, i, k - 1, x);
      if k - 1 != i {
        var c, d := f.inv(f.add(xs[i], xs[k - 1])), f.add(x, xs[k - 1]);
        var b := Basis(f, xs, i, k - 1, x);
        EvalTimesLinear(f, BasisPoly(f, xs, i, k - 1), xs[k - 1], x);
        EvalScale(f, c, TimesLinear(f, BasisPoly(f, xs, i, k - 1), xs[k - 1]), x);
        assert f.At(c, d, b) && f.At(f.mul(d, c), b, b) && f.At(d, c, b);
      }
    }
  }

  lemma {:induction false} EvalZeros<F(!new)>(f: Field<F>, n: nat, x: F)
    requires f.Laws()
    ensures Eval(f, Zeros(f, n), x) == f.zero
  {
    if n > 0 {
      assert Zeros(f, n)[1..] == Zeros(f, n - 1);
      EvalZeros(f, n - 1, x);
      TimesZero(f, x);
      assert f.At(f.zero, f.zero, f.zero);
    }
  }

  lemma EvalCombination<F(!new)>(f: Field<F>, p: seq<F>, c: F, q: seq<F>, x: F)
    requires f.Laws() && |p| == |q|
    ensures Eval(f, Plus(f, p, Scale(f, c, q)), x) == f.add(Eval(f, p, x), f.mul(c, Eval(f, q, x)))
  {
    EvalPlus(f, p, Scale(f, c, q), x);
    EvalScale(f, c, q, x);
  }

  lemma LagrangePolyStep<F(!new)>(f: Field<F>, xs: seq<F>, ys: seq<F>, k: nat, x: F)
    requires f.Laws() && |xs| == |ys| && 0 < k <= |xs|
    ensures Eval(f, LagrangePoly(f, xs, ys, k), x)
         == f.add(Eval(f, LagrangePoly(f, xs, ys, k - 1), x), f.mul(ys[k - 1], Basis(f, xs, k - 1, |xs|, x)))
  {
    EvalCombination(f, LagrangePoly(f, xs, ys, k - 1), ys[k - 1], BasisPoly(f, xs, k - 1, |xs|), x);
    EvalBasisPoly(f, xs, k - 1, |xs|, x);
  }

  lemma {:induction false} EvalLagrangePoly<F(!new)>(f: Field<F>, xs: seq<F>, ys: seq<F>, k: nat, x: F)
    requires f.Laws() && |xs| == |ys| && k <= |xs|
    ensures Eval(f, LagrangePoly(f, xs, ys, k), x) == Lagrange(f, xs, ys, k, x)
  {
    if k == 0 {
      EvalZeros(f, |xs|, x);
    } else {
      EvalLagrangePoly(f, xs, ys, k - 1, x);
      LagrangePolyStep(f, xs, ys, k, x);
    }
  }

  /** A basis value is one at its own sample and zero at every other sample. */
  lemma {:induction false} BasisAtSample<F(!new)>(f: Field<F>, xs: seq<F>, i: nat, k: nat, m: nat)
    requires f.Laws() && Distinct(xs) && i < |xs| && k <= |xs| && m < |xs|
    ensures m == i ==> Basis(f, xs, i, k, xs[m]) == f.one
    ensures m != i && m < k ==> Basis(f, xs, i, k, xs[m]) == f.zero
  {
    if k > 0 {
      BasisAtSample(f, xs, i, k - 1, m);
      if k - 1 != i {
        var b, d, e := Basis(f, xs, i, k - 1, xs[m]), f.add(xs[m], xs[k - 1]), f.add(xs[i], xs[k - 1]);
        if m == i {
          Cancel(f, xs[i], xs[k - 1]);
          assert f.At(e, e, e) && f.At(b, b, b) && f.Inverts(e);
        } else if m == k - 1 {
          Cancel(f, xs[m], xs[m]);
          TimesZero(f, f.inv(e));
          TimesZero(f, b);
        } else if m < k - 1 {
          TimesZero(f, f.mul(d, f.inv(e)));
        }
      }
    }
  }

  lemma {:induction false} LagrangeAtSample<F(!new)>(f: Field<F>, xs: seq<F>, ys: seq<F>, k: nat, m: nat)
    requires f.Laws() && Distinct(xs) && |xs| == |ys| && k <= |xs| && m < |xs|
    ensures Lagrange(f, xs, ys, k, xs[m]) == if m < k then ys[m] else f.zero
  {
    if k > 0 {
      LagrangeAtSample(f, xs, ys, k - 1, m);
      BasisAtSample(f, xs, k - 1, |xs|, m);
      assert f.At(ys[k - 1], f.one, f.one);
      TimesZero(f, ys[k - 1]);
      assert f.At(ys[m], f.zero, f.zero) && f.At(f.zero, ys[m], ys[m]) && f.At(f.zero, f.zero, f.zero);
    }
  }

  // ---- Main results -------------------------------------------------------------------------

  /** Two polynomials of equal length that agree at as many distinct points are the same. */
  lemma Uniqueness<F(!new)>(f: Field<F>, p: seq<F>, q: seq<F>, xs: seq<F>)
    requires f.Laws() && Distinct(xs) && |p| == |q| <= |xs|
    requires forall i :: 0 <= i < |xs| ==> Eval(f, p, xs[i]) == Eval(f, q, xs[i])
    ensures p == q
  {
    var d := Plus(f, p, q);
    forall i | 0 <= i < |xs| ensures Eval(f, d, xs[i]) == f.zero {
      EvalPlus(f, p, q, xs[i]);
      Cancel(f, Eval(f, p, xs[i]), Eval(f, q, xs[i]));
    }
    RootBound(f, d, xs);
    forall i | 0 <= i < |p| ensures p[i] == q[i] {
      assert d[i] == f.zero;
      PlusAt(f, p, q, i);
      Cancel(f, p[i], q[i]);
    }
  }

  lemma {:induction false} PadTo<F(!new)>(f: Field<F>, p: seq<F>, n: nat) returns (q: seq<F>)
    requires f.Laws() && |p| <= n
    ensures |q| == n && p <= q && forall x :: Eval(f, q, x) == Eval(f, p, x)
    decreases n
  {
    if |p| == n {
      q := p;
    } else {
      var r := PadTo(f, p, n - 1);
      q := r + [f.zero];
      forall x ensures Eval(f, q, x) == Eval(f, p, x) { EvalPad(f, r, x); }
    }
  }

  /** Interpolating the values of a polynomial with at most n coefficients at n distinct points gives
      that polynomial's value at every point. */
  lemma LagrangeExact<F(!new)>(f: Field<F>, p: seq<F>, xs: seq<F>, ys: seq<F>, x: F)
    requires f.Laws() && Distinct(xs) && |xs| == |ys| && |p| <= |xs|
    requires forall i :: 0 <= i < |xs| ==> ys[i] == Eval(f, p, xs[i])
    ensures Lagrange(f, xs, ys, |xs|, x) == Eval(f, p, x)
  {
    var q := PadTo(f, p, |xs|);
    var l := LagrangePoly(f, xs, ys, |xs|);
    forall i | 0 <= i < |xs| ensures Eval(f, q, xs[i]) == Eval(f, l, xs[i]) {
      EvalLagrangePoly(f, xs, ys, |xs|, xs[i]);
      LagrangeAtSample(f, xs, ys, |xs|, i);
    }
    Uniqueness(f, q, l, xs);
    EvalLagrangePoly(f, xs, ys, |xs|, x);
  }

  /** Exactly one coefficient vector of length n passes through n points with distinct abscissae. */
  lemma ThroughPoints<F(!new)>(f: Field<F>, xs: seq<F>, ys: seq<F>) returns (p: seq<F>)
    requires f.Laws() && Distinct(xs) && |xs| == |ys|
    ensures |p| == |xs| && forall i :: 0 <= i < |xs| ==> Eval(f, p, xs[i]) == ys[i]
    ensures forall q: seq<F> :: |q| == |xs| && (forall i :: 0 <= i < |xs| ==> Eval(f, q, xs[i]) == ys[i]) ==> q == p
  {
    p := LagrangePoly(f, xs, ys, |xs|);
    forall i | 0 <= i < |xs| ensures Eval(f, p, xs[i]) == ys[i] {
      EvalLagrangePoly(f, xs, ys, |xs|, xs[i]);
      LagrangeAtSample(f, xs, ys, |xs|, i);
    }
    forall q: seq<F> | |q| == |xs| && (forall i :: 0 <= i < |xs| ==> Eval(f, q, xs[i]) == ys[i])
      ensures q == p
    {
      Uniqueness(f, q, p, xs);
    }
  }
}

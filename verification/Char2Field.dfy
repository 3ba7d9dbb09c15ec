/** Fields of characteristic two, with the operations as data so that proofs about polynomials
    never look inside the byte arithmetic. `GF256` supplies the only instance. */
module Char2Field {

  datatype Field<!F(!new)> = Field(zero: F, one: F, add: (F, F) -> F, mul: (F, F) -> F, inv: F -> F) {

    /** Names the elements at which the laws are wanted; `assert f.At(x, y, z)` instantiates them. */
    predicate At(x: F, y: F, z: F) { true }

    /** A commutative ring in which every element is its own negative. */
    ghost predicate RingLaws() {
      forall x, y, z {:trigger At(x, y, z)} :: At(x, y, z) ==> AddLaws(x, y, z) && MulLaws(x, y, z)
    }

    ghost predicate AddLaws(x: F, y: F, z: F) {
      && add(add(x, y), z) == add(x, add(y, z))
      && add(x, y) == add(y, x)
      && add(x, zero) == x
      && add(x, x) == zero
    }

    ghost predicate MulLaws(x: F, y: F, z: F) {
      && mul(mul(x, y), z) == mul(x, mul(y, z))
      && mul(x, y) == mul(y, x)
      && mul(x, one) == x
      && mul(x, add(y, z)) == add(mul(x, y), mul(x, z))
    }

    ghost predicate Inverts(x: F) { x != zero ==> mul(x, inv(x)) == one }

    ghost predicate Laws() {
      RingLaws() && one != zero && forall x :: Inverts(x)
    }
  }

  lemma Distribute<F(!new)>(f: Field<F>, x: F, y: F, z: F)
    requires f.RingLaws()
    ensures f.mul(x, f.add(y, z)) == f.add(f.mul(x, y), f.mul(x, z))
    ensures f.mul(f.add(y, z), x) == f.add(f.mul(y, x), f.mul(z, x))
  {
    assert f.At(x, y, z) && f.At(x, f.add(y, z), z) && f.At(x, z, y);
  }

  lemma TimesZero<F(!new)>(f: Field<F>, x: F)
    requires f.RingLaws()
    ensures f.mul(x, f.zero) == f.zero && f.mul(f.zero, x) == f.zero
  {
    assert f.At(x, x, x) && f.At(x, f.zero, f.zero);
    assert f.At(f.mul(x, x), x, x);
  }

  /** Adding the same element twice changes nothing, so addition is its own inverse. */
  lemma Cancel<F(!new)>(f: Field<F>, x: F, y: F)
    requires f.RingLaws()
    ensures f.add(x, f.add(x, y)) == y
    ensures f.add(x, y) == f.zero <==> x == y
  {
    assert f.At(x, x, y) && f.At(y, x, x) && f.At(f.zero, y, y) && f.At(x, f.zero, y);
  }

  lemma Interchange<F(!new)>(f: Field<F>, a: F, b: F, c: F, d: F)
    requires f.RingLaws()
    ensures f.add(f.add(a, b), f.add(c, d)) == f.add(f.add(a, c), f.add(b, d))
  {
    assert f.At(a, b, f.add(c, d)) && f.At(b, c, d) && f.At(c, b, d) && f.At(a, c, f.add(b, d));
  }

  lemma NoZeroDivisors<F(!new)>(f: Field<F>, x: F, y: F)
    requires f.Laws() && x != f.zero && f.mul(x, y) == f.zero
    ensures y == f.zero
  {
    assert f.At(x, f.inv(x), y) && f.At(f.inv(x), x, y) && f.At(y, f.one, y);
    TimesZero(f, f.inv(x));
    assert f.Inverts(x);
  }


  // ---- Powers and the Frobenius map ---------------------------------------------------------

  function Power<F(!new)>(f: Field<F>, x: F, n: nat): F {
    if n == 0 then f.one else f.mul(Power(f, x, n - 1), x)
  }

  lemma {:induction false} PowerAdd<F(!new)>(f: Field<F>, x: F, m: nat, n: nat)
    requires f.RingLaws()
    ensures Power(f, x, m + n) == f.mul(Power(f, x, m), Power(f, x, n))
  {
    if n == 0 {
      assert f.At(Power(f, x, m), x, x);
    } else {
      PowerAdd(f, x, m, n - 1);
      assert f.At(Power(f, x, m), Power(f, x, n - 1), x);
    }
  }

  /** Squaring, `k` times. */
  function Frobenius<F(!new)>(f: Field<F>, k: nat, x: F): F {
    if k == 0 then x else Frobenius(f, k - 1, f.mul(x, x))
  }

  lemma SquareHom<F(!new)>(f: Field<F>, x: F, y: F)
    requires f.RingLaws()
    ensures f.mul(f.add(x, y), f.add(x, y)) == f.add(f.mul(x, x), f.mul(y, y))
    ensures f.mul(f.mul(x, y), f.mul(x, y)) == f.mul(f.mul(x, x), f.mul(y, y))
  {
    var xy := f.mul(x, y);
    Distribute(f, f.add(x, y), x, y);
    Distribute(f, x, x, y);
    Distribute(f, y, x, y);
    assert f.At(x, y, y) && f.At(y, x, y);
    assert f.At(f.mul(x, x), xy, f.add(xy, f.mul(y, y)));
    Cancel(f, xy, f.mul(y, y));
    assert f.At(x, y, xy) && f.At(y, xy, xy) && f.At(y, x, y) && f.At(x, f.mul(y, y), x) && f.At(x, x, f.mul(y, y));
    assert f.At(x, f.mul(x, f.mul(y, y)), x) && f.At(y, y, x);
  }

  lemma {:induction false} FrobeniusHom<F(!new)>(f: Field<F>, k: nat, x: F, y: F)
    requires f.RingLaws()
    ensures Frobenius(f, k, f.add(x, y)) == f.add(Frobenius(f, k, x), Frobenius(f, k, y))
    ensures Frobenius(f, k, f.mul(x, y)) == f.mul(Frobenius(f, k, x), Frobenius(f, k, y))
  {
    if k > 0 {
      SquareHom(f, x, y);
      FrobeniusHom(f, k - 1, f.mul(x, x), f.mul(y, y));
    }
  }

  /** Horner steps: what squaring does to `low + t * rest`, and that fixed points extend along them. */
  lemma FrobeniusOfHornerStep<F(!new)>(f: Field<F>, k: nat, low: F, t: F, rest: F)
    requires f.RingLaws()
    ensures var b := f.add(low, f.mul(t, rest));
            && f.mul(b, b) == f.add(f.mul(low, low), f.mul(f.mul(t, t), f.mul(rest, rest)))
            && (Frobenius(f, k, low) == low && Frobenius(f, k, t) == t && Frobenius(f, k, rest) == rest
                ==> Frobenius(f, k, b) == b)
  {
    SquareHom(f, low, f.mul(t, rest));
    SquareHom(f, t, rest);
    FrobeniusHom(f, k, low, f.mul(t, rest));
    FrobeniusHom(f, k, t, rest);
  }

  lemma {:induction false} FrobeniusUnits<F(!new)>(f: Field<F>, k: nat)
    requires f.RingLaws()
    ensures Frobenius(f, k, f.zero) == f.zero && Frobenius(f, k, f.one) == f.one
  {
    if k > 0 {
      TimesZero(f, f.zero);
      assert f.At(f.one, f.one, f.one);
      FrobeniusUnits(f, k - 1);
    }
  }

  function TwoTo(k: nat): nat { if k == 0 then 1 else TwoTo(k - 1) + TwoTo(k - 1) }

  lemma {:induction false} TwoToPositive(k: nat)
    ensures TwoTo(k) >= 1
  {
    if k > 0 { TwoToPositive(k - 1); }
  }

  lemma {:induction false} PowerOfSquare<F(!new)>(f: Field<F>, x: F, n: nat)
    requires f.RingLaws()
    ensures Power(f, f.mul(x, x), n) == Power(f, x, n + n)
  {
    if n > 0 {
      PowerOfSquare(f, x, n - 1);
      assert Power(f, x, n + n - 1) == f.mul(Power(f, x, n + n - 2), x);
      assert f.At(Power(f, x, n + n - 2), x, x);
    }
  }

  lemma {:induction false} FrobeniusIsPower<F(!new)>(f: Field<F>, k: nat, x: F)
    requires f.RingLaws()
    ensures Frobenius(f, k, x) == Power(f, x, TwoTo(k))
  {
    if k == 0 {
      assert f.At(f.one, x, x) && f.At(x, x, x);
      assert Power(f, x, 1) == f.mul(Power(f, x, 0), x);
    } else {
      FrobeniusIsPower(f, k - 1, f.mul(x, x));
      PowerOfSquare(f, x, TwoTo(k - 1));
    }
  }

  /** When x^m = x and zero and one are the only idempotents, x^(m-2) inverts every non-zero x. */
  lemma IdempotentInverse<F(!new)>(f: Field<F>, x: F, m: nat)
    requires f.RingLaws() && m >= 2 && Power(f, x, m) == x && x != f.zero
    requires forall e :: f.mul(e, e) == e ==> e == f.zero || e == f.one
    ensures f.mul(x, Power(f, x, m - 2)) == f.one
  {
    var e := Power(f, x, m - 1);
    assert f.At(x, Power(f, x, m - 2), x);
    PowerAdd(f, x, m, m - 2);
    PowerAdd(f, x, m - 1, m - 1);
    TimesZero(f, x);
  }
}

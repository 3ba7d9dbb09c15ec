/** Multiplication by shifting and adding, over any operations that satisfy the few laws it needs.
    From the laws alone the product is commutative, associative and distributes over addition. */
module ShiftAndAdd {

  /** `step` multiplies by the indeterminate; `low` and `down` read an element bit by bit. */
  datatype Shifts<!F(!new)> = Shifts(zero: F, add: (F, F) -> F, step: F -> F, low: F -> bool, down: F -> F) {

    /** Names the elements at which the laws are wanted; `assert s.At(x, y, z)` instantiates them. */
    predicate At(x: F, y: F, z: F) { true }

    ghost predicate Laws() {
      && !low(zero) && down(zero) == zero
      && (forall x, y, z {:trigger At(x, y, z)} :: At(x, y, z) ==> LawsAt(x, y, z))
    }

    ghost predicate LawsAt(x: F, y: F, z: F) {
      && add(add(x, y), z) == add(x, add(y, z))
      && add(x, y) == add(y, x)
      && add(x, zero) == x
      && add(x, x) == zero
      && step(add(x, y)) == add(step(x), step(y))
    }
  }

  function Pick<F(!new)>(s: Shifts<F>, b: F, v: F): F {
    if s.low(b) then v else s.zero
  }

  /** The sum of `step^i(a)` over the set bits i < n of `b`. */
  function Product<F(!new)>(s: Shifts<F>, n: nat, a: F, b: F): F {
    if n == 0 then s.zero else s.add(Pick(s, b, a), Product(s, n - 1, s.step(a), s.down(b)))
  }

  lemma Interchange<F(!new)>(s: Shifts<F>, a: F, b: F, c: F, d: F)
    requires s.Laws()
    ensures s.add(s.add(a, b), s.add(c, d)) == s.add(s.add(a, c), s.add(b, d))
  {
    assert s.At(a, b, s.add(c, d)) && s.At(b, c, d) && s.At(c, b, d) && s.At(a, c, s.add(b, d));
  }

  lemma StepZero<F(!new)>(s: Shifts<F>)
    requires s.Laws()
    ensures s.step(s.zero) == s.zero && s.add(s.zero, s.zero) == s.zero
  {
    assert s.At(s.zero, s.zero, s.zero);
    assert s.At(s.step(s.zero), s.zero, s.zero);
  }

  lemma {:induction false} ProductAddLeft<F(!new)>(s: Shifts<F>, n: nat, a: F, c: F, b: F)
    requires s.Laws()
    ensures Product(s, n, s.add(a, c), b) == s.add(Product(s, n, a, b), Product(s, n, c, b))
  {
    StepZero(s);
    if n > 0 {
      assert s.At(a, c, c);
      ProductAddLeft(s, n - 1, s.step(a), s.step(c), s.down(b));
      Interchange(s, Pick(s, b, a), Pick(s, b, c),
                  Product(s, n - 1, s.step(a), s.down(b)), Product(s, n - 1, s.step(c), s.down(b)));
    }
  }

  lemma {:induction false} ProductStepLeft<F(!new)>(s: Shifts<F>, n: nat, a: F, b: F)
    requires s.Laws()
    ensures Product(s, n, s.step(a), b) == s.step(Product(s, n, a, b))
  {
    StepZero(s);
    if n > 0 {
      ProductStepLeft(s, n - 1, s.step(a), s.down(b));
      assert s.At(Pick(s, b, a), Product(s, n - 1, s.step(a), s.down(b)), a);
    }
  }

  lemma {:induction false} ProductZero<F(!new)>(s: Shifts<F>, n: nat, a: F)
    requires s.Laws()
    ensures Product(s, n, s.zero, a) == s.zero && Product(s, n, a, s.zero) == s.zero
  {
    StepZero(s);
    if n > 0 {
      ProductZero(s, n - 1, s.down(a));
      ProductZero(s, n - 1, s.step(a));
    }
  }

  /** Two factors applied to the same element may be applied in either order. */
  lemma {:induction false} Exchange<F(!new)>(s: Shifts<F>, m: nat, n: nat, v: F, a: F, b: F)
    requires s.Laws()
    ensures Product(s, m, Product(s, n, v, b), a) == Product(s, n, Product(s, m, v, a), b)
    decreases n
  {
    if n == 0 {
      ProductZero(s, m, a);
    } else {
      ProductAddLeft(s, m, Pick(s, b, v), Product(s, n - 1, s.step(v), s.down(b)), a);
      ProductZero(s, m, a);
      Exchange(s, m, n - 1, s.step(v), a, s.down(b));
      ProductStepLeft(s, m, v, a);
    }
  }

  /** With a left unit the product is commutative and associative. */
  lemma CommutesAndAssociates<F(!new)>(s: Shifts<F>, n: nat, one: F, a: F, b: F, c: F)
    requires s.Laws()
    requires forall x :: Product(s, n, one, x) == x
    ensures Product(s, n, a, b) == Product(s, n, b, a)
    ensures Product(s, n, Product(s, n, a, b), c) == Product(s, n, a, Product(s, n, b, c))
  {
    Exchange(s, n, n, one, a, b);
    Exchange(s, n, n, b, c, a);
    Exchange(s, n, n, one, a, Product(s, n, b, c));
  }
}

/** Arithmetic in GF(2^8) modulo x^8 + x^4 + x^3 + x + 1 (section 4.2 of FIPS 197). */
module GF256 {
  import opened ShiftAndAdd
  import opened Char2Field

  type byte = bv8

  function Add(a: byte, b: byte): byte { a ^ b }

  /** Multiplication by x, reduced (the xtime operation of section 4.2.1 of FIPS 197). */
  function Xtime(a: byte): byte { (a << 1) ^ (if a & 0x80 != 0 then 0x1B else 0) }

  /** Doubling in sixteen bits, less the modulus 0x11B when the result has degree eight. */
  lemma XtimeReduces(a: byte)
    ensures var w := (a as bv16) << 1;
            Xtime(a) as bv16 == if w & 0x100 != 0 then w ^ 0x11B else w
  {}

  const BYTES: Shifts<byte> := Shifts(0, (x, y) => Add(x, y), a => Xtime(a), b => b & 1 != 0, b => b >> 1)

  /** The product: the sum of x^i * a over the set bits i of `b`. */
  function Mul(a: byte, b: byte): byte { Product(BYTES, 8, a, b) }

  /** a^254, which is the inverse of every non-zero byte. */
  function Inv(a: byte): byte { Power(RING, a, TwoTo(8) - 2) }

  const RING: Field<byte> := Field(0, 1, (x, y) => Add(x, y), (x, y) => Mul(x, y), x => x)

  // ---- Addition -----------------------------------------------------------------------------

  lemma AddAssociative(x: byte, y: byte, z: byte)
    ensures Add(Add(x, y), z) == Add(x, Add(y, z))
  {}

  lemma AddBasics(x: byte, y: byte)
    ensures Add(x, y) == Add(y, x) && Add(x, 0) == x && Add(x, x) == 0
  {}

  lemma XtimeAdd(a: byte, b: byte)
    ensures Xtime(Add(a, b)) == Add(Xtime(a), Xtime(b))
  {
    assert (a ^ b) << 1 == (a << 1) ^ (b << 1);
    assert (a ^ b) & 0x80 == (a & 0x80) ^ (b & 0x80);
    assert a & 0x80 == 0 || a & 0x80 == 0x80;
    assert b & 0x80 == 0 || b & 0x80 == 0x80;
  }

  lemma ByteLaws()
    ensures BYTES.Laws()
  {
    forall x, y, z ensures BYTES.LawsAt(x, y, z) {
      AddAssociative(x, y, z);
      AddBasics(x, y);
      XtimeAdd(x, y);
    }
  }

  // ---- Multiplication: 1 is a unit, so the generic results apply ----------------------------

  lemma OneLeft(b: byte)
    ensures Mul(1, b) == b
  {}

  lemma MulCommutesAndAssociates(a: byte, b: byte, c: byte)
    ensures Mul(a, b) == Mul(b, a)
    ensures Mul(Mul(a, b), c) == Mul(a, Mul(b, c))
  {
    ByteLaws();
    forall x ensures Product(BYTES, 8, 1, x) == x { OneLeft(x); }
    CommutesAndAssociates(BYTES, 8, 1, a, b, c);
  }

  lemma MulDistributes(a: byte, b: byte, c: byte)
    ensures Mul(a, Add(b, c)) == Add(Mul(a, b), Mul(a, c))
  {
    ByteLaws();
    MulCommutesAndAssociates(a, b, b);
    MulCommutesAndAssociates(a, c, c);
    MulCommutesAndAssociates(a, Add(b, c), b);
    ProductAddLeft(BYTES, 8, b, c, a);
    assert Mul(Add(b, c), a) == BYTES.add(Mul(b, a), Mul(c, a));
  }

  lemma OneRight(a: byte)
    ensures Mul(a, 1) == a
  {}

  lemma AddLawsHold(x: byte, y: byte, z: byte)
    ensures RING.AddLaws(x, y, z)
  {}

  lemma MulLawsHold(x: byte, y: byte, z: byte)
    ensures RING.MulLaws(x, y, z)
  {
    assert RING.mul(RING.mul(x, y), z) == RING.mul(x, RING.mul(y, z)) && RING.mul(x, y) == RING.mul(y, x) by {
      MulCommutesAndAssociates(x, y, z);
    }
    assert RING.mul(x, RING.one) == x by { OneRight(x); }
    assert RING.mul(x, RING.add(y, z)) == RING.add(RING.mul(x, y), RING.mul(x, z)) by { MulDistributes(x, y, z); }
  }

  lemma RingLaws()
    ensures RING.RingLaws()
  {
    forall x, y, z ensures RING.AddLaws(x, y, z) && RING.MulLaws(x, y, z) {
      AddLawsHold(x, y, z);
      MulLawsHold(x, y, z);
    }
  }

  // ---- Inverses: a^256 = a, so a^255 is idempotent, and the only idempotents are 0 and 1 -----

  /** Shifting `b` right `n` times leaves nothing. */
  predicate Exhausted(n: nat, b: byte) { if n == 0 then b == 0 else Exhausted(n - 1, b >> 1) }

  lemma ByteExhausted(b: byte)
    ensures Exhausted(8, b)
  {
    var b1 := b >> 1; var b2 := b1 >> 1; var b3 := b2 >> 1; var b4 := b3 >> 1;
    var b5 := b4 >> 1; var b6 := b5 >> 1; var b7 := b6 >> 1;
    assert Exhausted(0, b7 >> 1);
    assert Exhausted(2, b6);
    assert Exhausted(4, b4);
    assert Exhausted(6, b2);
  }

  lemma MulTwo(a: byte)
    ensures Mul(2, a) == Xtime(a)
  {
    ByteLaws();
    OneLeft(a);
    ProductStepLeft(BYTES, 8, 1, a);
    assert BYTES.step(1) == 2;
  }

  lemma LowAndRest(b: byte)
    ensures b == Add(b & 1, Xtime(b >> 1)) && (b & 1 == 0 || b & 1 == 1)
  {}

  /** Squaring is linear: it maps x^i to the residue of x^(2i). */
  function Square(b: byte): byte {
    (if b & 1 != 0 then 1 else 0) ^ (if b & 2 != 0 then 4 else 0)
    ^ (if b & 4 != 0 then 0x10 else 0) ^ (if b & 8 != 0 then 0x40 else 0)
    ^ (if b & 0x10 != 0 then 0x1B else 0) ^ (if b & 0x20 != 0 then 0x6C else 0)
    ^ (if b & 0x40 != 0 then 0xAB else 0) ^ (if b & 0x80 != 0 then 0x9A else 0)
  }

  lemma SquareStep(b: byte)
    ensures Square(b) == Add(b & 1, Xtime(Xtime(Square(b >> 1))))
  {
    // Which of the folded bits are set decides the residue.
    if b & 0x10 != 0 {
      if b & 0x40 != 0 {} else {}
    } else {
      if b & 0x40 != 0 {} else {}
    }
  }

  lemma {:induction false} MulIsSquare(n: nat, b: byte)
    requires Exhausted(n, b)
    ensures Mul(b, b) == Square(b)
  {
    RingLaws();
    if n == 0 {
      TimesZero(RING, 0);
      assert RING.mul(0, 0) == 0;
    } else {
      var low, rest := b & 1, b >> 1;
      MulIsSquare(n - 1, rest);
      HornerStep(b);
      FrobeniusOfHornerStep(RING, 0, low, 2, rest);
      assert Mul(b, b) == Add(Mul(low, low), Mul(Mul(2, 2), Mul(rest, rest)));
      FrobeniusUnits(RING, 1);
      MulTwoSquared(Square(rest));
      SquareStep(b);
    }
  }

  lemma HornerStep(b: byte)
    ensures b == RING.add(b & 1, RING.mul(2, b >> 1)) && Mul(b & 1, b & 1) == b & 1
  {
    LowAndRest(b);
    MulTwo(b >> 1);
    OneLeft(b & 1);
    RingLaws();
    TimesZero(RING, 0);
    assert RING.mul(0, 0) == 0;
  }

  lemma MulTwoSquared(a: byte)
    ensures Mul(Mul(2, 2), a) == Xtime(Xtime(a))
  {
    MulCommutesAndAssociates(2, 2, a);
    MulTwo(a);
    MulTwo(Xtime(a));
  }

  lemma SquareOf(b: byte)
    ensures RING.mul(b, b) == Square(b)
  {
    ByteExhausted(b);
    MulIsSquare(8, b);
  }

  lemma OnlyIdempotents(e: byte)
    requires Square(e) == e
    ensures e == 0 || e == 1
  {}

  lemma FrobeniusTwo()
    ensures Frobenius(RING, 8, 2) == 2
  {
    SquareOf(2); SquareOf(4); SquareOf(0x10); SquareOf(0x1B);
    SquareOf(0x5E); SquareOf(0xE4); SquareOf(0x4D); SquareOf(0xFA);
    assert Frobenius(RING, 4, 0x5E) == Frobenius(RING, 0, 2);
  }

  /** If `k` squarings fix x, they fix every byte. */
  lemma {:induction false} FrobeniusFixes(k: nat, n: nat, b: byte)
    requires Exhausted(n, b) && Frobenius(RING, k, 2) == 2
    ensures Frobenius(RING, k, b) == b
  {
    RingLaws();
    FrobeniusUnits(RING, k);
    if n > 0 {
      HornerStep(b);
      FrobeniusFixes(k, n - 1, b >> 1);
      LowAndRest(b);
      FrobeniusOfHornerStep(RING, k, b & 1, 2, b >> 1);
    }
  }

  lemma FixedPower(k: nat, a: byte)
    requires Frobenius(RING, k, 2) == 2
    ensures Power(RING, a, TwoTo(k)) == a
  {
    RingLaws();
    ByteExhausted(a);
    FrobeniusFixes(k, 8, a);
    FrobeniusIsPower(RING, k, a);
  }

  lemma OnlyUnitsIdempotent()
    ensures forall e :: RING.mul(e, e) == e ==> e == RING.zero || e == RING.one
  {
    forall e | RING.mul(e, e) == e ensures e == RING.zero || e == RING.one { SquareOf(e); OnlyIdempotents(e); }
  }

  lemma PowerInverts(m: nat, a: byte)
    requires a != 0 && m >= 2 && Power(RING, a, m) == a
    ensures Mul(a, Power(RING, a, m - 2)) == 1
  {
    RingLaws();
    OnlyUnitsIdempotent();
    IdempotentInverse(RING, a, m);
    assert RING.mul(a, Power(RING, a, m - 2)) == 1;
  }

  /** a^254 is the inverse of a. */
  lemma Inverts(a: byte)
    requires a != 0
    ensures Mul(a, Inv(a)) == 1
  {
    FrobeniusTwo();
    FixedPower(8, a);
    assert TwoTo(8) == 256;
    PowerInverts(TwoTo(8), a);
  }

  /** Names the bytes at which the operations of `GF` are wanted. */
  predicate Link(a: byte, b: byte) { true }

  ghost predicate IsByteField(f: Field<byte>) {
    && f.zero == 0 && f.one == 1 && f.Laws()
    && forall a, b {:trigger Link(a, b)} :: Link(a, b) ==>
         f.add(a, b) == Add(a, b) && f.mul(a, b) == Mul(a, b) && f.inv(a) == Inv(a)
  }

  lemma ByteFieldExists()
    ensures exists f :: IsByteField(f)
  {
    var f := Field(0, 1, (x, y) => Add(x, y), (x, y) => Mul(x, y), x => Inv(x));
    RingLaws();
    forall x, y, z ensures f.AddLaws(x, y, z) && f.MulLaws(x, y, z) {
      assert RING.At(x, y, z);
    }
    forall x ensures f.Inverts(x) {
      if x != 0 { Inverts(x); }
    }
    assert IsByteField(f);
  }

  /** The field of bytes: the operations are the ones above, and `Link` says where to look at them. */
  ghost function GF(): (f: Field<byte>)
    ensures IsByteField(f)
  {
    ByteFieldExists();
    var f :| IsByteField(f);
    f
  }

  // ---- The code -----------------------------------------------------------------------------

  lemma HornerMul(a: byte, c: byte)
    ensures Mul(a, c) == Add(if c & 1 != 0 then a else 0, Xtime(Mul(a, c >> 1)))
  {
    var low, rest := c & 1, c >> 1;
    LowAndRest(c);
    MulTwo(rest);
    MulDistributes(a, low, Xtime(rest));
    OneRight(a);
    RingLaws();
    TimesZero(RING, a);
    assert RING.mul(a, 0) == 0;
    MulCommutesAndAssociates(a, 2, rest);
    MulCommutesAndAssociates(2, a, rest);
    MulTwo(Mul(a, rest));
  }

  function RoundValue(a: byte, c: byte, r: byte): byte {
    Add(Add((0 - (c & 1)) & a, (0 - (r >> 7)) & 0x1B), r + r)
  }

  lemma RoundAdds(a: byte, c: byte, r: byte)
    ensures RoundValue(a, c, r) == Add(if c & 1 != 0 then a else 0, Xtime(r))
  {}

  lemma RoundForm(a: byte, c: byte, r: byte)
    ensures ((0 - (c & 1)) & a) ^ ((0 - (r >> 7)) & 0x1B) ^ (r + r) == RoundValue(a, c, r)
  {}

  /** One round of the loop: from the product with b >> (i + 1) to the product with b >> i. */
  lemma Round(a: byte, b: byte, i: byte, r: byte, next: byte)
    requires i < 8 && r == Mul(a, b >> (i + 1))
    requires next == ((0 - ((b >> i) & 1)) & a) ^ ((0 - (r >> 7)) & 0x1B) ^ (r + r)
    ensures next == Mul(a, b >> i)
  {
    RoundForm(a, b >> i, r);
    RoundProduct(a, b, i, r);
  }

  lemma RoundProduct(a: byte, b: byte, i: byte, r: byte)
    requires i < 8 && r == Mul(a, b >> (i + 1))
    ensures RoundValue(a, b >> i, r) == Mul(a, b >> i)
  {
    ShiftOnce(b, i);
    HornerMul(a, b >> i);
    RoundAdds(a, b >> i, r);
  }

  lemma ShiftOnce(b: byte, i: byte)
    requires i < 8
    ensures (b >> i) >> 1 == b >> (i + 1)
  {}

  lemma ShiftedOut(a: byte, b: byte)
    ensures Mul(a, b >> (8 as byte)) == 0
  {}

  /** Shift-and-add from the top bit down, without branches on the operands. */
  method Mult(a: byte, b: byte) returns (r: byte)
    ensures r == Mul(a, b)
  {
    r := 0;
    var i: byte := 8;
    ShiftedOut(a, b);
    while i > 0
      invariant i <= 8 && r == Mul(a, b >> i)
    {
      i := i - 1;
      ghost var before := r;
      r := ((0 - ((b >> i) & 1)) & a) ^ ((0 - (r >> 7)) & 0x1B) ^ (r + r);
      Round(a, b, i, before, r);
    }
  }

  lemma PowerStep(a: byte, m: nat, n: nat)
    ensures Mul(Power(RING, a, m), Power(RING, a, n)) == Power(RING, a, m + n)
  {
    RingLaws();
    PowerAdd(RING, a, m, n);
  }

  /** `Mult`, with what it does to exponents. */
  method MultPowers(ghost a: byte, ghost m: nat, ghost n: nat, u: byte, v: byte) returns (r: byte, ghost k: nat)
    requires u == Power(RING, a, m) && v == Power(RING, a, n)
    ensures k == m + n && r == Power(RING, a, k)
  {
    r := Mult(u, v);
    k := m + n;
    PowerStep(a, m, n);
  }

  /** An addition chain for a^254. */
  method Inverse(a: byte) returns (r: byte)
    ensures r == Inv(a)
    ensures a != 0 ==> Mul(a, r) == 1
  {
    assert a == Power(RING, a, 1) by { OneLeft(a); }
    var b, m := MultPowers(a, 1, 1, a, a);
    var c, n := MultPowers(a, 1, m, a, b);
    b, m := MultPowers(a, n, n, c, c);
    b, m := MultPowers(a, m, m, b, b);
    c, n := MultPowers(a, m, n, b, c);
    b, m := MultPowers(a, m, m, b, b);
    b, m := MultPowers(a, m, m, b, b);
    b, m := MultPowers(a, m, n, b, c);
    b, m := MultPowers(a, m, m, b, b);
    b, m := MultPowers(a, 1, m, a, b);
    r, m := MultPowers(a, m, m, b, b);
    assert m == TwoTo(8) - 2;
    if a != 0 { Inverts(a); }
  }

  /** The code panics on a zero divisor; callers must exclude it. */
  method Div(a: byte, b: byte) returns (r: byte)
    requires b != 0
    ensures r == Mul(a, Inv(b))
    ensures Mul(r, b) == a
  {
    var inv := Inverse(b);
    r := Mult(a, inv);
    RingLaws();
    TimesZero(RING, inv);
    assert RING.mul(0, inv) == 0;
    r := if a == 0 then 0 else r;
    MulCommutesAndAssociates(a, inv, b);
    MulCommutesAndAssociates(b, inv, b);
    OneRight(a);
  }
}

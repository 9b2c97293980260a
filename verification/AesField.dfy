/** Multiplication in the AES field: GF(2) polynomials modulo x^8+x^4+x^3+x+1. */
module AesField {
  import opened Gf2
  import opened Words

  function Xor(a: bv8, b: bv8): bv8 {
    a ^ b
  }

  /** What is added when x times `a` overflows. */
  function Reduce(a: bv8): bv8 {
    if a & 0x80 != 0 then 0x1b else 0
  }

  /** x times `a`. */
  function XTime(a: bv8): bv8 {
    Xor(a << 1, Reduce(a))
  }

  /** `a` times the coefficient b_0. */
  function Low(a: bv8, b: bv8): bv8 {
    if b & 1 == 1 then a else 0
  }

  function Half(b: bv8): bv8 {
    b >> 1
  }

  /** The product of two field elements. */
  function Gf(a: bv8, b: bv8): bv8
    decreases b
  {
    if b == 0 then 0 else Xor(Low(a, b), Gf(XTime(a), Half(b)))
  }

  lemma GfUnfold(a: bv8, b: bv8)
    ensures Gf(a, b) == Xor(Low(a, b), Gf(XTime(a), Half(b)))
  {
    if b == 0 {
      assert Half(b) == 0;
    }
  }

  lemma GfZero(a: bv8)
    ensures Gf(a, 0) == 0
  {
  }

  lemma XorLaws(a: bv8, b: bv8, c: bv8)
    ensures Xor(a, Xor(b, c)) == Xor(Xor(a, b), c) && Xor(Xor(a, b), c) == Xor(Xor(a, c), b)
    ensures Xor(0, a) == a && Xor(a, 0) == a && Xor(a, a) == 0
  {
  }

  lemma XorParts(l1: bv8, g1: bv8, l2: bv8, g2: bv8)
    ensures Xor(Xor(l1, g1), Xor(l2, g2)) == Xor(Xor(l1, l2), Xor(g1, g2))
  {
    hide Xor;
    XorLaws(Xor(l1, g1), l2, g2);
    XorLaws(l1, g1, l2);
    XorLaws(Xor(l1, l2), g1, g2);
  }

  lemma ReduceXor(a: bv8, c: bv8)
    ensures Reduce(Xor(a, c)) == Xor(Reduce(a), Reduce(c)) && Xor(a, c) << 1 == Xor(a << 1, c << 1)
  {
  }

  lemma XTimeXor(a: bv8, c: bv8)
    ensures XTime(Xor(a, c)) == Xor(XTime(a), XTime(c))
  {
    hide Xor, Reduce;
    ReduceXor(a, c);
    XorParts(a << 1, Reduce(a), c << 1, Reduce(c));
  }

  lemma LowXor(a: bv8, c: bv8, b: bv8)
    ensures Low(Xor(a, c), b) == Xor(Low(a, b), Low(c, b))
    ensures Low(b, Xor(a, c)) == Xor(Low(b, a), Low(b, c))
  {
  }

  lemma LowXTime(a: bv8, b: bv8)
    ensures Low(XTime(a), b) == XTime(Low(a, b)) && XTime(0) == 0
  {
  }

  lemma HalfXor(b: bv8, c: bv8)
    ensures Half(Xor(b, c)) == Xor(Half(b), Half(c))
    ensures Xor(0, 0) == 0
  {
  }

  lemma {:induction false} GfXorLeft(a: bv8, c: bv8, b: bv8)
    ensures Gf(Xor(a, c), b) == Xor(Gf(a, b), Gf(c, b))
    decreases b
  {
    hide Gf, XTime, Low, Xor;
    if b == 0 {
      GfZero(a);
      GfZero(c);
      GfZero(Xor(a, c));
      HalfXor(0, 0);
    } else {
      GfUnfold(a, b);
      GfUnfold(c, b);
      GfUnfold(Xor(a, c), b);
      LowXor(a, c, b);
      XTimeXor(a, c);
      GfXorLeft(XTime(a), XTime(c), Half(b));
      XorParts(Low(a, b), Gf(XTime(a), Half(b)), Low(c, b), Gf(XTime(c), Half(b)));
    }
  }

  lemma {:induction false} GfXTimeLeft(a: bv8, b: bv8)
    ensures Gf(XTime(a), b) == XTime(Gf(a, b))
    decreases b
  {
    hide Gf, XTime, Low, Xor;
    if b == 0 {
      GfZero(a);
      GfZero(XTime(a));
      LowXTime(a, b);
    } else {
      GfUnfold(a, b);
      GfUnfold(XTime(a), b);
      GfXTimeLeft(XTime(a), Half(b));
      XTimeXor(Low(a, b), Gf(XTime(a), Half(b)));
      LowXTime(a, b);
    }
  }

  lemma HalvesShrink(b: bv8, c: bv8)
    ensures b | c != 0 ==> Half(b) | Half(c) < b | c
    ensures b | c == 0 ==> b == 0 && c == 0
  {
  }

  lemma {:induction false} GfXorRight(a: bv8, b: bv8, c: bv8)
    ensures Gf(a, Xor(b, c)) == Xor(Gf(a, b), Gf(a, c))
    decreases b | c
  {
    hide Gf, XTime, Low, Xor, Half;
    HalvesShrink(b, c);
    HalfXor(b, c);
    if b | c == 0 {
      GfZero(a);
    } else {
      GfUnfold(a, b);
      GfUnfold(a, c);
      GfUnfold(a, Xor(b, c));
      LowXor(b, c, a);
      GfXorRight(XTime(a), Half(b), Half(c));
      XorParts(Low(a, b), Gf(XTime(a), Half(b)), Low(a, c), Gf(XTime(a), Half(c)));
    }
  }

  lemma LowOne(b: bv8)
    ensures Xor(Low(1, b), XTime(Half(b))) == b && XTime(1) == 2
  {
  }

  lemma {:induction false} GfOneLeft(b: bv8)
    ensures Gf(1, b) == b
    decreases b
  {
    hide Gf, XTime, Low, Xor;
    if b == 0 {
      GfZero(1);
    } else {
      GfUnfold(1, b);
      GfOneLeft(Half(b));
      GfXTimeLeft(1, Half(b));
      LowOne(b);
    }
  }

  lemma Constants()
    ensures XTime(1) == 2 && XTime(2) == 4 && XTime(4) == 8
    ensures Xor(2, 1) == 3 && Xor(8, 1) == 9 && Xor(9, 2) == 0xb && Xor(9, 4) == 0xd
    ensures Xor(8, 4) == 0xc && Xor(0xc, 2) == 0xe
  {
  }

  /** The multipliers of the two mixing steps, as repeated doublings. */
  lemma Multipliers(b: bv8)
    ensures var b2 := XTime(b); var b4 := XTime(b2); var b8 := XTime(b4);
            && Gf(2, b) == b2 && Gf(3, b) == Xor(b2, b)
            && Gf(0x9, b) == Xor(b8, b) && Gf(0xb, b) == Xor(Xor(b8, b), b2)
            && Gf(0xd, b) == Xor(Xor(b8, b), b4) && Gf(0xe, b) == Xor(Xor(b8, b4), b2)
  {
    hide Gf, XTime, Low, Xor;
    Constants();
    GfOneLeft(b);
    GfXTimeLeft(1, b);
    GfXTimeLeft(2, b);
    GfXTimeLeft(4, b);
    GfXorLeft(2, 1, b);
    GfXorLeft(8, 1, b);
    GfXorLeft(9, 2, b);
    GfXorLeft(9, 4, b);
    GfXorLeft(8, 4, b);
    GfXorLeft(0xc, 2, b);
  }

  /** The polynomial of a field element, and the modulus of section 4.2 of FIPS 197. */
  function PolyOf(a: bv8): Poly {
    Bits(a as bv64)
  }

  const MODULUS: bv64 := 0x11b

  function Wide(a: bv8): bv64 {
    a as bv64
  }

  function TopTimes(a: bv8, w: bv64): bv64 {
    if a & 0x80 != 0 then w else 0
  }

  function Xor64(x: bv64, y: bv64): bv64 {
    x ^ y
  }

  function Double(x: bv64): bv64 {
    x << 1
  }

  /** The multiple of the modulus that the reductions subtract. */
  function Quotient(a: bv8, b: bv8): bv64
    decreases b
  {
    if b == 0 then 0 else Xor64(TopTimes(a, Wide(Half(b))), Quotient(XTime(a), Half(b)))
  }

  lemma QuotientUnfold(a: bv8, b: bv8)
    ensures Quotient(a, b) == Xor64(TopTimes(a, Wide(Half(b))), Quotient(XTime(a), Half(b)))
  {
    if b == 0 {
      assert Half(b) == 0;
    }
  }

  /** Doubling overflows into the modulus. */
  lemma DoubleIsXTime(a: bv8)
    ensures Double(Wide(a)) == Xor64(Wide(XTime(a)), TopTimes(a, MODULUS))
  {
  }

  lemma Wides(a: bv8, b: bv8)
    ensures Wide(Xor(a, b)) == Wide(a) ^ Wide(b)
    ensures Wide(Half(b)) == Wide(b) >> 1
    ensures Wide(a) & 1 == 1 <==> a & 1 == 1
  {
  }

  lemma PolyXor(a: bv8, b: bv8)
    ensures IsSum(PolyOf(Xor(a, b)), PolyOf(a), PolyOf(b))
  {
    Wides(a, b);
    XorIsSum(Wide(a), Wide(b), Wide(Xor(a, b)));
  }

  lemma PolyHalf(b: bv8, k: nat)
    ensures Coef(PolyOf(Half(b)), k) == Coef(PolyOf(b), k + 1)
  {
    Wides(0, b);
    ShrCoef(Wide(b), Wide(Half(b)), k);
  }

  lemma PolyLow(b: bv8)
    ensures Coef(PolyOf(b), 0) == (b & 1 == 1)
  {
    Wides(0, b);
    LowCoef(Wide(b));
  }

  /** A byte has eight coefficients. */
  lemma ByteDegree(a: bv8, k: nat)
    requires k >= 8
    ensures !Coef(PolyOf(a), k)
  {
    hide Bits, BitAt;
    if k < 64 {
      IndexFrom(k, 8);
      CoefAt(Wide(a), k, k as bv6);
      HighBit(a, k as bv6);
    }
  }

  lemma HighBit(a: bv8, j: bv6)
    requires j >= 8
    ensures !BitAt(Wide(a), j)
  {
  }

  lemma PolyDouble(a: bv8)
    ensures IsShift(Bits(Double(Wide(a))), PolyOf(a))
  {
    hide Bits, Double;
    forall k: nat ensures Coef(Bits(Double(Wide(a))), k) == (k > 0 && Coef(PolyOf(a), k - 1)) {
      if k < 64 {
        DoubleCoef(Wide(a), k);
      } else {
        ByteDegree(a, k - 1);
      }
    }
  }

  lemma DoubleCoef(w: bv64, k: nat)
    requires k < 64
    ensures Coef(Bits(Double(w)), k) == (k > 0 && Coef(Bits(w), k - 1))
  {
    hide Bits;
    ShlCoef(w, Double(w), k);
  }

  lemma Xor64IsSum(x: bv64, y: bv64)
    ensures IsSum(Bits(Xor64(x, y)), Bits(x), Bits(y))
  {
    hide Bits;
    XorIsSum(x, y, Xor64(x, y));
  }

  lemma TopProduct(a: bv8, w: bv64, v: bv64, k: nat)
    ensures ProductCoef(Bits(TopTimes(a, w)), Bits(v), k) == ProductCoef(Bits(w), Bits(TopTimes(a, v)), k)
  {
    hide Bits, ProductCoef;
    if a & 0x80 == 0 {
      forall j: nat ensures !Coef(Bits(0), j) {
        ZeroCoef(j);
      }
      ProductWithZero(Bits(w), Bits(0), k);
      ProductWithZero(Bits(v), Bits(0), k);
    }
  }

  /** What the loop computes is the remainder of the polynomial product. */
  lemma {:induction false} GfDivides(a: bv8, b: bv8, k: nat)
    ensures ProductCoef(PolyOf(a), PolyOf(b), k)
            == (Coef(PolyOf(Gf(a, b)), k) != ProductCoef(Bits(MODULUS), Bits(Quotient(a, b)), k))
    decreases b
  {
    hide *;
    if b == 0 {
      GfZero(a);
      QuotientZero(a);
      forall j: nat ensures !Coef(Bits(0), j) {
        ZeroCoef(j);
      }
      PolyOfZero();
      ProductWithZero(PolyOf(a), Bits(0), k);
      ProductWithZero(Bits(MODULUS), Bits(0), k);
    } else {
      var a2, b2 := XTime(a), Half(b);
      GfUnfold(a, b);
      QuotientUnfold(a, b);
      HalfShrinks(b);
      GfDivides(a2, b2, k);
      GfDividesStep(a, b, a2, b2, k);
      var reduced, rest := TopTimes(a, Wide(b2)), Quotient(a2, b2);
      Xor64IsSum(reduced, rest);
      ProductSumRight(Bits(MODULUS), Bits(Xor64(reduced, rest)), Bits(reduced), Bits(rest), k);
      PolyXor(Low(a, b), Gf(a2, b2));
      SumCoef(PolyOf(Gf(a, b)), PolyOf(Low(a, b)), PolyOf(Gf(a2, b2)), k);
    }
  }

  lemma SumCoef(s: Poly, p: Poly, q: Poly, k: nat)
    requires IsSum(s, p, q)
    ensures Coef(s, k) == (Coef(p, k) != Coef(q, k))
  {
  }

  lemma QuotientZero(a: bv8)
    ensures Quotient(a, 0) == 0
  {
  }

  lemma PolyOfZero()
    ensures PolyOf(0) == Bits(0)
  {
  }

  lemma HalfShrinks(b: bv8)
    requires b != 0
    ensures Half(b) < b
  {
  }

  lemma LowPoly(a: bv8, b: bv8, k: nat)
    ensures Coef(PolyOf(Low(a, b)), k) == (Coef(PolyOf(b), 0) && Coef(PolyOf(a), k))
  {
    hide Bits;
    PolyLow(b);
    ZeroCoef(k);
  }

  /** a*b = b_0*a + xtime(a)*(b/x) + (the overflow of x*a)*(b/x). */
  lemma GfDividesStep(a: bv8, b: bv8, a2: bv8, b2: bv8, k: nat)
    requires a2 == XTime(a) && b2 == Half(b)
    ensures ProductCoef(PolyOf(a), PolyOf(b), k)
            == (Coef(PolyOf(Low(a, b)), k)
                != (ProductCoef(PolyOf(a2), PolyOf(b2), k)
                    != ProductCoef(Bits(MODULUS), Bits(TopTimes(a, Wide(b2))), k)))
  {
    hide *;
    var xa := Double(Wide(a));
    PolyDouble(a);
    forall j: nat ensures Coef(PolyOf(b2), j) == Coef(PolyOf(b), j + 1) {
      PolyHalf(b, j);
    }
    ProductPeel(PolyOf(a), PolyOf(b), Bits(xa), PolyOf(b2), k);
    LowPoly(a, b, k);
    var overflow := TopTimes(a, MODULUS);
    DoubleIsXTime(a);
    PolyIsBits(a2);
    PolyIsBits(b2);
    Xor64IsSum(Wide(a2), overflow);
    ProductSumLeft(Bits(xa), PolyOf(a2), Bits(overflow), PolyOf(b2), k);
    TopProduct(a, MODULUS, Wide(b2), k);
  }

  lemma PolyIsBits(a: bv8)
    ensures PolyOf(a) == Bits(Wide(a))
  {
  }

  lemma ModulusDegree()
    ensures HasDegree(Bits(MODULUS), 8)
  {
    hide Bits;
    CoefAt(MODULUS, 8, 8);
    assert BitAt(MODULUS, 8);
    forall k: nat | k > 8 ensures !Coef(Bits(MODULUS), k) {
      if k < 64 {
        IndexFrom(k, 9);
        CoefAt(MODULUS, k, k as bv6);
        ModulusHigh(k as bv6);
      }
    }
  }

  lemma ModulusHigh(j: bv6)
    requires j >= 9
    ensures !BitAt(MODULUS, j)
  {
  }

  /** The product of two field elements is the remainder of their polynomial
      product, and it is the only byte that is. */
  lemma GfIsRemainder(a: bv8, b: bv8, r: bv8)
    ensures IsRemainder(PolyOf(r), PolyOf(a), PolyOf(b), Bits(MODULUS)) <==> r == Gf(a, b)
  {
    hide *;
    forall k: nat
      ensures ProductCoef(PolyOf(a), PolyOf(b), k)
              == (Coef(PolyOf(Gf(a, b)), k) != ProductCoef(Bits(MODULUS), Bits(Quotient(a, b)), k))
    {
      GfDivides(a, b, k);
    }
    RemainderFrom(Bits(MODULUS), Bits(Quotient(a, b)), PolyOf(Gf(a, b)), PolyOf(a), PolyOf(b));
    if IsRemainder(PolyOf(r), PolyOf(a), PolyOf(b), Bits(MODULUS)) {
      ModulusDegree();
      forall k: nat | k >= 8 ensures !Coef(PolyOf(r), k) && !Coef(PolyOf(Gf(a, b)), k) {
        ByteDegree(r, k);
        ByteDegree(Gf(a, b), k);
      }
      RemainderUnique(PolyOf(r), PolyOf(Gf(a, b)), PolyOf(a), PolyOf(b), Bits(MODULUS), 8);
      PolyIsBits(r);
      PolyIsBits(Gf(a, b));
      BitsInjective(Wide(r), Wide(Gf(a, b)));
      WideByteInjective(r, Gf(a, b));
    }
  }

  lemma RemainderFrom(m: Poly, q: Poly, r: Poly, a: Poly, b: Poly)
    requires forall k: nat :: ProductCoef(a, b, k) == (Coef(r, k) != ProductCoef(m, q, k))
    ensures IsRemainder(r, a, b, m)
  {
    assert Divides(m, q, r, a, b);
  }

  lemma WideByteInjective(a: bv8, b: bv8)
    requires Wide(a) == Wide(b)
    ensures a == b
  {
  }

  lemma GfCommutes(a: bv8, b: bv8)
    ensures Gf(a, b) == Gf(b, a)
  {
    hide *;
    GfIsRemainder(a, b, Gf(a, b));
    RemainderCommutes(PolyOf(Gf(a, b)), PolyOf(a), PolyOf(b), Bits(MODULUS));
    GfIsRemainder(b, a, Gf(a, b));
  }

  /** One round of the loop, seen on bytes. */
  method Round(a: bv32, b: bv32, res: bv32) returns (a': bv32, b': bv32, res': bv32)
    requires a < 0x100 && b < 0x100 && res < 0x100
    ensures a' < 0x100 && b' < 0x100 && res' < 0x100
    ensures a' as bv8 == XTime(a as bv8) && b' as bv8 == Half(b as bv8) && b' == b >> 1
    ensures res' as bv8 == Xor(res as bv8, Low(a as bv8, b as bv8))
  {
    res' := res;
    if b & 1 != 0 {
      res' := res ^ a;
    }
    a' := a << 1;
    b' := b >> 1;
    if a' >= 256 {
      a' := a' ^ 0x11b;
    }
  }

  /** The loop of gf_mul, on 32-bit integers. */
  method GfMul(a0: bv32, b0: bv32) returns (res: bv32)
    requires a0 < 0x100 && b0 < 0x100
    ensures res < 0x100 && res as bv8 == Gf(a0 as bv8, b0 as bv8)
  {
    hide *;
    var a, b := a0, b0;
    res := 0;
    XorLaws(Gf(a as bv8, b as bv8), 0, 0);
    while b != 0
      invariant a < 0x100 && b < 0x100 && res < 0x100
      invariant Xor(res as bv8, Gf(a as bv8, b as bv8)) == Gf(a0 as bv8, b0 as bv8)
      decreases b
    {
      ghost var a1, b1, r1 := a as bv8, b as bv8, res as bv8;
      a, b, res := Round(a, b, res);
      GfUnfold(a1, b1);
      XorLaws(r1, Low(a1, b1), Gf(XTime(a1), Half(b1)));
    }
    GfZero(a as bv8);
    XorLaws(res as bv8, 0, 0);
  }
}

/** The carry-less multiplication instruction. */
module Pclmulqdq {
  import opened Gf2
  import opened Words

  /** A 128-bit register as its two 64-bit words. */
  datatype Xmm = Xmm(lo: bv64, hi: bv64)

  /** The coefficient of x^k in a register. */
  predicate XmmCoef(x: Xmm, k: nat) {
    if k < 64 then Coef(Bits(x.lo), k) else Coef(Bits(x.hi), k - 64)
  }

  /** The register holds the polynomial product of `a` and `b`, all of it. */
  ghost predicate IsXmmProduct(r: Xmm, a: Poly, b: Poly) {
    forall k: nat :: XmmCoef(r, k) == ProductCoef(a, b, k)
  }

  function XorWord(x: bv64, y: bv64): bv64 {
    x ^ y
  }

  function Xor(x: Xmm, y: Xmm): Xmm {
    Xmm(XorWord(x.lo, y.lo), XorWord(x.hi, y.hi))
  }

  /** The two-word shift of PCLMULQDQ. */
  function ShiftLeft(x: Xmm): Xmm {
    Xmm(x.lo << 1, (x.hi << 1) | (x.lo >> 63))
  }

  lemma XorWords(x: Xmm, y: Xmm)
    ensures Xor(x, y).lo == XorWord(x.lo, y.lo) && Xor(x, y).hi == XorWord(x.hi, y.hi)
  {
    hide XorWord;
  }

  lemma XorWordCoef(x: bv64, y: bv64, k: nat)
    ensures Coef(Bits(XorWord(x, y)), k) == (Coef(Bits(x), k) != Coef(Bits(y), k))
  {
    hide Bits, Coef;
    XorCoef(x, y, XorWord(x, y), k);
  }

  lemma XorCoeffs(x: Xmm, y: Xmm, z: Xmm, k: nat)
    requires z == Xor(x, y)
    ensures XmmCoef(z, k) == (XmmCoef(x, k) != XmmCoef(y, k))
  {
    hide Bits, Coef, Xor, XorWord;
    XorWords(x, y);
    if k < 64 {
      XorWordCoef(x.lo, y.lo, k);
    } else {
      XorWordCoef(x.hi, y.hi, k - 64);
    }
  }

  lemma ShiftLow(x: Xmm, z: Xmm, k: nat)
    requires z.lo == x.lo << 1 && k < 64
    ensures XmmCoef(z, k) == (k > 0 && XmmCoef(x, k - 1))
  {
    hide Bits, Coef;
    ShlCoef(x.lo, z.lo, k);
  }

  lemma ShiftHigh(x: Xmm, z: Xmm, k: nat)
    requires z.hi == (x.hi << 1) | (x.lo >> 63) && 64 <= k < 128
    ensures XmmCoef(z, k) == XmmCoef(x, k - 1)
  {
    hide Bits, Coef;
    CarryCoef(x.hi, x.lo, z.hi, k - 64);
  }

  lemma ShiftCoeffs(x: Xmm, k: nat)
    requires k < 128
    ensures XmmCoef(ShiftLeft(x), k) == (k > 0 && XmmCoef(x, k - 1))
  {
    hide Bits, XmmCoef;
    if k < 64 {
      ShiftLow(x, ShiftLeft(x), k);
    } else {
      ShiftHigh(x, ShiftLeft(x), k);
    }
  }

  /** Register `x` holds x^n times the word with coefficients `p`. */
  ghost predicate HoldsShifted(x: Xmm, p: Poly, n: nat) {
    forall k: nat :: k < 128 ==> XmmCoef(x, k) == (k >= n && Coef(p, k - n))
  }

  /** Register `x` holds the first `n` partial products. */
  ghost predicate HoldsPartial(x: Xmm, a: Poly, b: Poly, n: nat) {
    forall k: nat :: k < 128 ==> XmmCoef(x, k) == Convolve(a, b, k, if n < k + 1 then n else k + 1)
  }

  lemma ShiftOnce(x: Xmm, p: Poly, n: nat)
    requires HoldsShifted(x, p, n)
    ensures HoldsShifted(ShiftLeft(x), p, n + 1)
  {
    hide Bits;
    forall k: nat | k < 128 ensures XmmCoef(ShiftLeft(x), k) == (k >= n + 1 && Coef(p, k - n - 1)) {
      ShiftCoeffs(x, k);
    }
  }

  lemma AddPartial(r: Xmm, r': Xmm, x: Xmm, a: Poly, b: Poly, n: nat)
    requires HoldsPartial(r, a, b, n) && HoldsShifted(x, a, n)
    requires r' == if Coef(b, n) then Xor(r, x) else r
    ensures HoldsPartial(r', a, b, n + 1)
  {
    hide Bits, Xor, XmmCoef;
    forall k: nat | k < 128
      ensures XmmCoef(r', k) == Convolve(a, b, k, if n + 1 < k + 1 then n + 1 else k + 1)
    {
      XorCoeffs(r, x, Xor(r, x), k);
    }
  }

  lemma StartShifted(w: bv64)
    ensures HoldsShifted(Xmm(w, 0), Bits(w), 0)
  {
    hide Bits;
    forall k: nat | k < 128 ensures XmmCoef(Xmm(w, 0), k) == Coef(Bits(w), k) {
      if k >= 64 {
        ZeroCoef(k - 64);
      }
    }
  }

  lemma StartPartial(a: Poly, b: Poly)
    ensures HoldsPartial(Xmm(0, 0), a, b, 0)
  {
    hide Bits;
    forall k: nat | k < 128 ensures !XmmCoef(Xmm(0, 0), k) {
      ZeroCoef(if k < 64 then k else k - 64);
    }
  }

  /** Once nothing is left of `b`, the partial sum is the whole product. */
  lemma PartialIsProduct(r: Xmm, a: Poly, b: Poly, n: nat)
    requires HoldsPartial(r, a, b, n) && |a| == |b| == 64
    requires forall j: nat :: j >= n ==> !Coef(b, j)
    ensures IsXmmProduct(r, a, b)
  {
    hide Bits;
    forall k: nat ensures XmmCoef(r, k) == ProductCoef(a, b, k) {
      if k >= 128 {
        ProductDegree(a, b, k, k + 1);
      } else if n < k + 1 {
        ConvolveTail(a, b, k, n, k + 1);
      }
    }
  }

  /** The word holds what is left of `p` after dividing by x^n. */
  ghost predicate HoldsRest(w: bv64, p: Poly, n: nat) {
    forall j: nat :: Coef(Bits(w), j) == Coef(p, n + j)
  }

  lemma RestStart(w: bv64)
    ensures HoldsRest(w, Bits(w), 0)
  {
    hide Bits;
  }

  lemma RestLow(w: bv64, p: Poly, n: nat)
    requires HoldsRest(w, p, n)
    ensures (w & 1 == 1) == Coef(p, n)
  {
    hide Bits;
    LowCoef(w);
    assert Coef(Bits(w), 0) == Coef(p, n + 0);
  }

  lemma RestDrop(w: bv64, z: bv64, p: Poly, n: nat)
    requires HoldsRest(w, p, n) && z == w >> 1
    ensures HoldsRest(z, p, n + 1)
  {
    hide Bits;
    forall j: nat {:trigger Coef(Bits(z), j)} ensures Coef(Bits(z), j) == Coef(p, n + 1 + j) {
      ShrCoef(w, z, j);
      assert Coef(Bits(w), j + 1) == Coef(p, n + (j + 1));
    }
  }

  lemma RestIsZero(p: Poly, n: nat)
    requires HoldsRest(0, p, n)
    ensures forall j: nat :: j >= n ==> !Coef(p, j)
  {
    hide Bits;
    forall j: nat | j >= n ensures !Coef(p, j) {
      ZeroCoef(j - n);
      assert Coef(Bits(0), j - n) == Coef(p, n + (j - n));
    }
  }

  lemma RestDone(b: bv64, p: Poly, n: nat)
    requires HoldsRest(b, p, n) && |p| == 64 && n <= 64 && (b == 0 || n == 64)
    ensures forall j: nat :: j >= n ==> !Coef(p, j)
  {
    if b == 0 {
      RestIsZero(p, n);
    }
  }

  /** The loop of PCLMULQDQ from round `n` on: `a` is shifted, `b` is used up bit
      by bit, and `r` collects the partial products. */
  function Accumulate(a: Xmm, b: bv64, r: Xmm, n: nat): Xmm
    requires n <= 64
    decreases 64 - n
  {
    if b == 0 || n == 64 then r
    else Accumulate(ShiftLeft(a), b >> 1, if b & 1 == 1 then Xor(r, a) else r, n + 1)
  }

  /** The carry-less product of two words. */
  function Clmul(x: bv64, y: bv64): Xmm {
    Accumulate(Xmm(x, 0), y, Xmm(0, 0), 0)
  }

  lemma AccumulateStep(a: Xmm, b: bv64, r: Xmm, n: nat, a': Xmm, b': bv64, r': Xmm)
    requires n < 64 && b != 0
    requires a' == ShiftLeft(a) && b' == b >> 1 && r' == if b & 1 == 1 then Xor(r, a) else r
    ensures Accumulate(a, b, r, n) == Accumulate(a', b', r', n + 1)
  {
    hide ShiftLeft, Xor;
  }

  lemma AccumulateDone(a: Xmm, b: bv64, r: Xmm, n: nat)
    requires n <= 64 && (b == 0 || n == 64)
    ensures Accumulate(a, b, r, n) == r
  {
  }

  lemma {:induction false} AccumulateIsProduct(a: Xmm, b: bv64, r: Xmm, n: nat, pa: Poly, pb: Poly)
    requires n <= 64 && |pa| == |pb| == 64
    requires HoldsShifted(a, pa, n) && HoldsPartial(r, pa, pb, n) && HoldsRest(b, pb, n)
    ensures IsXmmProduct(Accumulate(a, b, r, n), pa, pb)
    decreases 64 - n
  {
    hide *;
    if b == 0 || n == 64 {
      AccumulateDone(a, b, r, n);
      RestDone(b, pb, n);
      PartialIsProduct(r, pa, pb, n);
    } else {
      var a', b', r' := ShiftLeft(a), b >> 1, if b & 1 == 1 then Xor(r, a) else r;
      AccumulateStep(a, b, r, n, a', b', r');
      RestLow(b, pb, n);
      AddPartial(r, r', a, pa, pb, n);
      ShiftOnce(a, pa, n);
      RestDrop(b, b', pb, n);
      AccumulateIsProduct(a', b', r', n + 1, pa, pb);
    }
  }

  lemma ClmulIs(x: bv64, y: bv64)
    ensures Clmul(x, y) == Accumulate(Xmm(x, 0), y, Xmm(0, 0), 0)
  {
  }

  /** The product holds every coefficient of the polynomial product: the loop may
      stop early, and the two-word shift loses nothing. */
  lemma ClmulIsProduct(x: bv64, y: bv64)
    ensures IsXmmProduct(Clmul(x, y), Bits(x), Bits(y))
  {
    hide *;
    StartShifted(x);
    StartPartial(Bits(x), Bits(y));
    RestStart(y);
    ClmulIs(x, y);
    AccumulateIsProduct(Xmm(x, 0), y, Xmm(0, 0), 0, Bits(x), Bits(y));
  }

  /** The instruction, on the two selected words. */
  method Pclmulqdq(op1: Xmm, op2: Xmm, imm8: bv8) returns (r: Xmm)
    ensures IsXmmProduct(r, Bits(if imm8 & 1 == 1 then op1.hi else op1.lo),
                         Bits(if (imm8 >> 4) & 1 == 1 then op2.hi else op2.lo))
    ensures r == Clmul(if imm8 & 1 == 1 then op1.hi else op1.lo, if (imm8 >> 4) & 1 == 1 then op2.hi else op2.lo)
  {
    hide *;
    var w := if imm8 & 1 == 1 then op1.hi else op1.lo;
    var a := Xmm(w, 0);
    var b := if (imm8 >> 4) & 1 == 1 then op2.hi else op2.lo;
    ghost var result := Clmul(w, b);
    ClmulIs(w, b);
    ClmulIsProduct(w, b);
    r := Xmm(0, 0);
    var n := 0;
    while b != 0 && n < 64
      decreases 64 - n
      invariant 0 <= n <= 64
      invariant Accumulate(a, b, r, n) == result
    {
      ghost var a0, b0, r0 := a, b, r;
      if b & 1 == 1 {
        r := Xor(r, a);
      }
      a := ShiftLeft(a);
      b := b >> 1;
      AccumulateStep(a0, b0, r0, n, a, b, r);
      n := n + 1;
    }
    AccumulateDone(a, b, r, n);
  }

  /** The product determines the register. */
  lemma ProductUnique(r: Xmm, r': Xmm, a: Poly, b: Poly)
    requires IsXmmProduct(r, a, b) && IsXmmProduct(r', a, b)
    ensures r == r'
  {
    hide Bits;
    forall k: nat
      ensures Coef(Bits(r.lo), k) == Coef(Bits(r'.lo), k) && Coef(Bits(r.hi), k) == Coef(Bits(r'.hi), k)
    {
      assert XmmCoef(r, k) == XmmCoef(r', k);
      assert XmmCoef(r, k + 64) == XmmCoef(r', k + 64);
    }
    BitsInjective(r.lo, r'.lo);
    BitsInjective(r.hi, r'.hi);
  }

  lemma ClmulCommutes(x: bv64, y: bv64)
    ensures Clmul(x, y) == Clmul(y, x)
  {
    hide *;
    ClmulIsProduct(x, y);
    ClmulIsProduct(y, x);
    forall k: nat ensures XmmCoef(Clmul(y, x), k) == ProductCoef(Bits(x), Bits(y), k) {
      ProductCommutes(Bits(x), Bits(y), k);
      CoefOf(Clmul(y, x), Bits(y), Bits(x), k);
    }
    ProductFrom(Clmul(y, x), Bits(x), Bits(y));
    ProductUnique(Clmul(x, y), Clmul(y, x), Bits(x), Bits(y));
  }

  lemma ClmulDistributes(x: bv64, y: bv64, z: bv64)
    ensures Clmul(x, y ^ z) == Xor(Clmul(x, y), Clmul(x, z))
  {
    hide *;
    var r1, r2 := Clmul(x, y), Clmul(x, z);
    ClmulIsProduct(x, y);
    ClmulIsProduct(x, z);
    ClmulIsProduct(x, y ^ z);
    XorIsSum(y, z, y ^ z);
    forall k: nat ensures XmmCoef(Xor(r1, r2), k) == ProductCoef(Bits(x), Bits(y ^ z), k) {
      XorCoeffs(r1, r2, Xor(r1, r2), k);
      CoefOf(r1, Bits(x), Bits(y), k);
      CoefOf(r2, Bits(x), Bits(z), k);
      ProductSumRight(Bits(x), Bits(y ^ z), Bits(y), Bits(z), k);
    }
    ProductFrom(Xor(r1, r2), Bits(x), Bits(y ^ z));
    ProductUnique(Clmul(x, y ^ z), Xor(r1, r2), Bits(x), Bits(y ^ z));
  }

  lemma CoefOf(r: Xmm, a: Poly, b: Poly, k: nat)
    requires IsXmmProduct(r, a, b)
    ensures XmmCoef(r, k) == ProductCoef(a, b, k)
  {
  }

  lemma ProductFrom(r: Xmm, a: Poly, b: Poly)
    requires forall k: nat :: XmmCoef(r, k) == ProductCoef(a, b, k)
    ensures IsXmmProduct(r, a, b)
  {
  }

  /** The top bit of the result is always zero. */
  lemma ClmulTopBit(x: bv64, y: bv64)
    ensures !BitAt(Clmul(x, y).hi, 63)
  {
    hide Bits, Clmul, BitAt;
    ClmulIsProduct(x, y);
    ProductDegree(Bits(x), Bits(y), 127, 128);
    CoefOf(Clmul(x, y), Bits(x), Bits(y), 127);
    CoefAt(Clmul(x, y).hi, 63, 63);
  }
}

/** 64-bit words read as polynomials: bit k is the coefficient of x^k. */
module Words {
  import opened Gf2

  predicate BitAt(w: bv64, k: bv6) {
    (w >> k) & 1 == 1
  }

  /** The low `n` coefficients of a word. */
  function LowBits(w: bv64, n: nat): (p: Poly)
    requires n <= 64
    ensures |p| == n
    decreases n
  {
    if n == 0 then [] else LowBits(w, n - 1) + [BitAt(w, (n - 1) as bv6)]
  }

  /** The 64 coefficients of a word. */
  function Bits(w: bv64): (p: Poly)
    ensures |p| == 64
  {
    LowBits(w, 64)
  }

  lemma {:induction false} LowBitsAt(w: bv64, n: nat, k: nat, j: bv6)
    requires k < n <= 64 && j == k as bv6
    ensures LowBits(w, n)[k] == BitAt(w, j)
    decreases n
  {
    if k < n - 1 {
      LowBitsAt(w, n - 1, k, j);
    }
  }

  lemma BitAtXor(x: bv64, y: bv64, z: bv64, k: bv6)
    requires z == x ^ y
    ensures BitAt(z, k) == (BitAt(x, k) != BitAt(y, k))
  {
  }

  lemma BitAtShl(w: bv64, k: bv6)
    ensures BitAt(w << 1, k) == (k > 0 && BitAt(w, k - 1))
  {
  }

  lemma BitAtShr(w: bv64, k: bv6)
    ensures BitAt(w >> 1, k) == (k < 63 && BitAt(w, k + 1))
  {
  }

  lemma IndexUp(j: bv6)
    requires j < 63
    ensures (j + 1) as nat == j as nat + 1
  {
  }

  lemma IndexStep(k: nat)
    requires 0 < k < 64
    ensures (k as bv6) == ((k - 1) as bv6) + 1 && (k as bv6) > 0
  {
    var j := (k - 1) as bv6;
    assert j as nat == k - 1;
    IndexUp(j);
    assert ((j + 1) as nat) as bv6 == j + 1;
  }

  lemma IndexFrom(k: nat, m: bv6)
    requires m as nat <= k < 64
    ensures k as bv6 >= m
  {
  }

  lemma CoefAt(w: bv64, k: nat, j: bv6)
    requires k < 64 && j == k as bv6
    ensures Coef(Bits(w), k) == BitAt(w, j)
  {
    LowBitsAt(w, 64, k, j);
  }

  lemma XorCoef(x: bv64, y: bv64, z: bv64, k: nat)
    requires z == x ^ y
    ensures Coef(Bits(z), k) == (Coef(Bits(x), k) != Coef(Bits(y), k))
  {
    hide Bits, BitAt;
    if k < 64 {
      var j := k as bv6;
      CoefAt(x, k, j);
      CoefAt(y, k, j);
      CoefAt(z, k, j);
      BitAtXor(x, y, z, j);
    }
  }

  lemma XorIsSum(x: bv64, y: bv64, z: bv64)
    requires z == x ^ y
    ensures IsSum(Bits(z), Bits(x), Bits(y))
  {
    hide Bits;
    forall k: nat ensures Coef(Bits(z), k) == (Coef(Bits(x), k) != Coef(Bits(y), k)) {
      XorCoef(x, y, z, k);
    }
  }

  lemma ShlCoef(w: bv64, z: bv64, k: nat)
    requires k < 64 && z == w << 1
    ensures Coef(Bits(z), k) == (k > 0 && Coef(Bits(w), k - 1))
  {
    hide Bits, BitAt;
    var j := k as bv6;
    CoefAt(z, k, j);
    BitAtShl(w, j);
    if k > 0 {
      IndexStep(k);
      CoefAt(w, k - 1, j - 1);
    }
  }

  lemma ShrCoef(w: bv64, z: bv64, k: nat)
    requires z == w >> 1
    ensures Coef(Bits(z), k) == Coef(Bits(w), k + 1)
  {
    hide Bits, BitAt;
    if k < 63 {
      var j := k as bv6;
      CoefAt(z, k, j);
      IndexStep(k + 1);
      CoefAt(w, k + 1, j + 1);
      BitAtShr(w, j);
    } else if k == 63 {
      CoefAt(z, 63, 63);
      BitAtShr(w, 63);
    }
  }

  lemma LowCoef(w: bv64)
    ensures Coef(Bits(w), 0) == (w & 1 == 1)
  {
    CoefAt(w, 0, 0);
    assert w >> 0 == w;
  }

  lemma ZeroCoef(k: nat)
    ensures !Coef(Bits(0), k)
  {
    if k < 64 {
      CoefAt(0, k, k as bv6);
      BitAtZero(k as bv6);
    }
  }

  lemma BitAtZero(k: bv6)
    ensures !BitAt(0, k)
  {
  }

  /** The bit that leaves the low word is the one that enters the high word. */
  lemma CarryCoef(hi: bv64, lo: bv64, z: bv64, k: nat)
    requires k < 64 && z == (hi << 1) | (lo >> 63)
    ensures Coef(Bits(z), k) == if k == 0 then Coef(Bits(lo), 63) else Coef(Bits(hi), k - 1)
  {
    hide Bits, BitAt;
    var j := k as bv6;
    CoefAt(z, k, j);
    CarryAt(hi, lo, j);
    CoefAt(lo, 63, 63);
    if k > 0 {
      IndexStep(k);
      CoefAt(hi, k - 1, j - 1);
    }
  }

  lemma CarryAt(hi: bv64, lo: bv64, k: bv6)
    ensures BitAt((hi << 1) | (lo >> 63), k) == if k == 0 then BitAt(lo, 63) else BitAt(hi, k - 1)
  {
  }

  /** A word is determined by its coefficients. */
  lemma BitsInjective(x: bv64, y: bv64)
    requires Same(Bits(x), Bits(y))
    ensures x == y
  {
    AgreeAll(x, y, 64);
    AgreeDone(x, y);
  }

  /** The bits below `n` agree. */
  predicate AgreeBelow(x: bv64, y: bv64, n: bv7)
    requires n <= 64
  {
    (x ^ y) << (64 - n) == 0
  }

  lemma AgreeDone(x: bv64, y: bv64)
    requires AgreeBelow(x, y, 64)
    ensures x == y
  {
    assert (x ^ y) << 0 == x ^ y;
  }

  lemma AgreeStart(x: bv64, y: bv64)
    ensures AgreeBelow(x, y, 0)
  {
    assert (x ^ y) << 64 == 0;
  }

  lemma AgreeStep(x: bv64, y: bv64, n: bv7, k: bv6)
    requires n < 64 && k == n as bv6 && AgreeBelow(x, y, n) && BitAt(x, k) == BitAt(y, k)
    ensures AgreeBelow(x, y, n + 1)
  {
  }

  lemma {:induction false} AgreeAll(x: bv64, y: bv64, n: bv7)
    requires n <= 64
    requires Same(Bits(x), Bits(y))
    ensures AgreeBelow(x, y, n)
    decreases n
  {
    hide Bits, BitAt, AgreeBelow;
    if n > 0 {
      var m := n - 1;
      AgreeAll(x, y, m);
      var k: bv6 := m as bv6;
      assert (k as nat) as bv6 == k;
      CoefAt(x, k as nat, k);
      CoefAt(y, k as nat, k);
      assert Coef(Bits(x), k as nat) == Coef(Bits(y), k as nat);
      AgreeStep(x, y, m, k);
    } else {
      AgreeStart(x, y);
    }
  }
}

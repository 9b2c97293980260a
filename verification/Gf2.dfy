/** Polynomials over GF(2), as the list of their coefficients from x^0 up. */
module Gf2 {
  type Poly = seq<bool>

  predicate Coef(p: Poly, k: nat) {
    k < |p| && p[k]
  }

  /** Polynomials that differ only in leading zeros are the same. */
  ghost predicate Same(p: Poly, q: Poly) {
    forall k: nat :: Coef(p, k) == Coef(q, k)
  }

  /** The first `i` terms of the sum b_0*a_k + b_1*a_(k-1) + ... */
  predicate Convolve(a: Poly, b: Poly, k: nat, i: nat)
    requires i <= k + 1
    decreases i
  {
    if i == 0 then false
    else Convolve(a, b, k, i - 1) != (Coef(b, i - 1) && Coef(a, k - (i - 1)))
  }

  /** The coefficient of x^k in the product. */
  predicate ProductCoef(a: Poly, b: Poly, k: nat) {
    Convolve(a, b, k, k + 1)
  }

  /** `s` is the sum of `p` and `q`. */
  ghost predicate IsSum(s: Poly, p: Poly, q: Poly) {
    forall k: nat :: Coef(s, k) == (Coef(p, k) != Coef(q, k))
  }

  /** `t` is x times `p`. */
  ghost predicate IsShift(t: Poly, p: Poly) {
    forall k: nat :: Coef(t, k) == (k > 0 && Coef(p, k - 1))
  }

  lemma {:induction false} ConvolveSumLeft(s: Poly, a: Poly, c: Poly, b: Poly, k: nat, i: nat)
    requires IsSum(s, a, c) && i <= k + 1
    ensures Convolve(s, b, k, i) == (Convolve(a, b, k, i) != Convolve(c, b, k, i))
    decreases i
  {
    if i > 0 {
      ConvolveSumLeft(s, a, c, b, k, i - 1);
    }
  }

  /** The first `i` terms and, read from the other end, the last `k + 1 - i`. */
  lemma {:induction false} ConvolveReversed(a: Poly, b: Poly, k: nat, i: nat)
    requires i <= k + 1
    ensures ProductCoef(a, b, k) == (Convolve(a, b, k, i) != Convolve(b, a, k, k + 1 - i))
    decreases k + 1 - i
  {
    if i < k + 1 {
      ConvolveReversed(a, b, k, i + 1);
    }
  }

  lemma ProductCommutes(a: Poly, b: Poly, k: nat)
    ensures ProductCoef(a, b, k) == ProductCoef(b, a, k)
  {
    ConvolveReversed(a, b, k, 0);
  }

  lemma ProductSumLeft(s: Poly, a: Poly, c: Poly, b: Poly, k: nat)
    requires IsSum(s, a, c)
    ensures ProductCoef(s, b, k) == (ProductCoef(a, b, k) != ProductCoef(c, b, k))
  {
    ConvolveSumLeft(s, a, c, b, k, k + 1);
  }

  lemma ProductSumRight(a: Poly, s: Poly, b: Poly, c: Poly, k: nat)
    requires IsSum(s, b, c)
    ensures ProductCoef(a, s, k) == (ProductCoef(a, b, k) != ProductCoef(a, c, k))
  {
    ProductCommutes(a, s, k);
    ProductCommutes(a, b, k);
    ProductCommutes(a, c, k);
    ProductSumLeft(s, b, c, a, k);
  }

  /** The terms from `n` on are zero when `b` has no coefficient there. */
  lemma {:induction false} ConvolveTail(a: Poly, b: Poly, k: nat, n: nat, i: nat)
    requires n <= i <= k + 1
    requires forall j :: n <= j < i ==> !Coef(b, j)
    ensures Convolve(a, b, k, i) == Convolve(a, b, k, n)
    decreases i
  {
    if i > n {
      ConvolveTail(a, b, k, n, i - 1);
    }
  }

  /** Degrees add: with |a| and |b| coefficients there are |a| + |b| - 1 at most. */
  lemma {:induction false} ProductDegree(a: Poly, b: Poly, k: nat, i: nat)
    requires |a| + |b| <= k + 1 && i <= k + 1
    ensures !Convolve(a, b, k, i)
    decreases i
  {
    if i > 0 {
      ProductDegree(a, b, k, i - 1);
    }
  }

  /** Peeling off the term of x^0: a*b = b_0*a + (x*a)*(b/x). */
  lemma {:induction false} ConvolvePeel(a: Poly, b: Poly, xa: Poly, b': Poly, k: nat, i: nat)
    requires IsShift(xa, a) && (forall j: nat :: Coef(b', j) == Coef(b, j + 1)) && i <= k
    ensures Convolve(a, b, k, i + 1) == ((Coef(b, 0) && Coef(a, k)) != Convolve(xa, b', k, i))
    decreases i
  {
    if i > 0 {
      ConvolvePeel(a, b, xa, b', k, i - 1);
    }
  }

  lemma ProductPeel(a: Poly, b: Poly, xa: Poly, b': Poly, k: nat)
    requires IsShift(xa, a) && (forall j: nat :: Coef(b', j) == Coef(b, j + 1))
    ensures ProductCoef(a, b, k) == ((Coef(b, 0) && Coef(a, k)) != ProductCoef(xa, b', k))
  {
    ConvolvePeel(a, b, xa, b', k, k);
    assert !Coef(xa, 0);
  }

  lemma ProductWithZero(a: Poly, z: Poly, k: nat)
    requires forall j: nat :: !Coef(z, j)
    ensures !ProductCoef(a, z, k) && !ProductCoef(z, a, k)
  {
    ConvolveTail(a, z, k, 0, k + 1);
    ProductCommutes(a, z, k);
  }

  ghost predicate HasDegree(p: Poly, d: nat) {
    Coef(p, d) && forall j: nat :: j > d ==> !Coef(p, j)
  }

  /** The leading coefficient of a product is the product of the leading ones. */
  lemma {:induction false} ConvolveLeading(a: Poly, b: Poly, da: nat, db: nat, i: nat)
    requires HasDegree(a, da) && HasDegree(b, db) && i <= da + db + 1
    ensures Convolve(a, b, da + db, i) == (i > db)
    decreases i
  {
    if i > 0 {
      ConvolveLeading(a, b, da, db, i - 1);
    }
  }

  lemma {:induction false} DegreeExists(p: Poly, n: nat) returns (d: nat)
    requires exists k: nat :: k < n && Coef(p, k)
    requires forall k: nat :: k >= n ==> !Coef(p, k)
    ensures HasDegree(p, d)
    decreases n
  {
    if Coef(p, n - 1) {
      d := n - 1;
    } else {
      d := DegreeExists(p, n - 1);
    }
  }

  function Sum(p: Poly, q: Poly): (s: Poly)
    ensures IsSum(s, p, q)
  {
    seq(if |p| < |q| then |q| else |p|, k requires k >= 0 => Coef(p, k) != Coef(q, k))
  }

  /** a*b = r + m*q. */
  ghost predicate Divides(m: Poly, q: Poly, r: Poly, a: Poly, b: Poly) {
    forall k: nat :: ProductCoef(a, b, k) == (Coef(r, k) != ProductCoef(m, q, k))
  }

  /** `r` is what remains of the product a*b after subtracting a multiple of `m`. */
  ghost predicate IsRemainder(r: Poly, a: Poly, b: Poly, m: Poly) {
    exists q: Poly :: Divides(m, q, r, a, b)
  }

  /** Below the degree of the modulus there is only one remainder. */
  lemma RemainderUnique(r: Poly, r': Poly, a: Poly, b: Poly, m: Poly, d: nat)
    requires HasDegree(m, d) && IsRemainder(r, a, b, m) && IsRemainder(r', a, b, m)
    requires forall k: nat :: k >= d ==> !Coef(r, k) && !Coef(r', k)
    ensures Same(r, r')
  {
    var q: Poly :| Divides(m, q, r, a, b);
    var q': Poly :| Divides(m, q', r', a, b);
    var s := Sum(q, q');
    forall k: nat ensures ProductCoef(m, s, k) == (Coef(r, k) != Coef(r', k)) {
      ProductSumRight(m, s, q, q', k);
      assert ProductCoef(a, b, k) == ProductCoef(a, b, k);
    }
    if e: nat :| Coef(s, e) {
      assert e < |s|;
      var ds := DegreeExists(s, |s|);
      ConvolveLeading(m, s, d, ds, d + ds + 1);
      assert ProductCoef(m, s, d + ds);
      assert false;
    } else {
      forall k: nat ensures Coef(r, k) == Coef(r', k) {
        ProductWithZero(m, s, k);
      }
    }
  }

  lemma RemainderCommutes(r: Poly, a: Poly, b: Poly, m: Poly)
    requires IsRemainder(r, a, b, m)
    ensures IsRemainder(r, b, a, m)
  {
    var q: Poly :| Divides(m, q, r, a, b);
    forall k: nat ensures ProductCoef(b, a, k) == (Coef(r, k) != ProductCoef(m, q, k)) {
      ProductCommutes(a, b, k);
    }
    assert Divides(m, q, r, b, a);
  }
}

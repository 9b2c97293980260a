/** Facts about remainders, and bit masks on natural numbers. */
module Arithmetic {
  lemma ModStep(x: int, p: int)
    requires p > 0
    ensures (x + p) % p == x % p
  {
    var q, r := x / p, x % p;
    assert x + p == p * (q + 1) + r;
    RemainderUnique(x + p, p, q + 1, r);
  }

  lemma MulAtLeast(p: int, d: int)
    requires p > 0 && d >= 1
    ensures p * d >= p
  {
    assert p * d == p * (d - 1) + p;
    assert p * (d - 1) >= 0;
  }

  lemma QuotientUnique(p: int, q: int, r: int, q0: int, r0: int)
    requires p > 0 && p * q + r == p * q0 + r0 && 0 <= r < p && 0 <= r0 < p
    ensures q == q0 && r == r0
  {
    if q > q0 {
      MulAtLeast(p, q - q0);
    } else if q < q0 {
      MulAtLeast(p, q0 - q);
    }
  }

  lemma RemainderUnique(x: int, p: int, q: int, r: int)
    requires p > 0 && x == p * q + r && 0 <= r < p
    ensures x % p == r
  {
    QuotientUnique(p, q, r, x / p, x % p);
  }

  lemma ModSmall(x: int, p: int)
    requires 0 <= x < p
    ensures x % p == x
  {
  }

  lemma MultipleHasNoRemainder(p: int, q: int)
    requires p > 0
    ensures (p * q) % p == 0
  {
    RemainderUnique(p * q, p, q, 0);
  }

  /** x & ~m */
  function AndNot(x: nat, m: nat): (r: nat)
    ensures r <= x
    decreases x
  {
    if x == 0 then 0
    else 2 * AndNot(x / 2, m / 2) + (if x % 2 == 1 && m % 2 == 0 then 1 else 0)
  }

  predicate PowerOfTwo(s: nat) {
    s == 1 || (s > 1 && s % 2 == 0 && PowerOfTwo(s / 2))
  }

  lemma {:induction false} AndNotZero(x: nat)
    ensures AndNot(x, 0) == x
    decreases x
  {
    if x > 0 {
      AndNotZero(x / 2);
    }
  }

  /** A remainder in two digits. */
  lemma SplitRemainder(x: nat, p: nat, q: nat)
    requires p > 0 && q > 0
    ensures p * q > 0 && x % (p * q) == p * ((x / p) % q) + x % p
  {
    var k, r := (x / p) / q, (x / p) % q;
    MulAtLeast(p, q);
    MulAtLeast(p, q - r);
    assert x / p == q * k + r;
    assert p * (q * k) == (p * q) * k;
    assert p * (q - r) == p * q - p * r;
    RemainderUnique(x, p * q, k, p * r + x % p);
  }

  lemma HalvedRemainder(x: nat, t: nat)
    requires t > 0
    ensures x % (2 * t) == 2 * ((x / 2) % t) + x % 2
  {
    SplitRemainder(x, 2, t);
  }

  lemma MaskStep(x: nat, t: nat)
    requires t > 0
    ensures AndNot(x, 2 * t - 1) == 2 * AndNot(x / 2, t - 1)
  {
    assert (2 * t - 1) / 2 == t - 1 && (2 * t - 1) % 2 == 1;
  }

  /** Masking off the bits below a power of two rounds down to a multiple of it. */
  lemma {:induction false} MaskRounds(x: nat, s: nat)
    requires PowerOfTwo(s)
    ensures AndNot(x, s - 1) == x - x % s
    decreases s
  {
    hide AndNot;
    if s == 1 {
      AndNotZero(x);
    } else {
      var t := s / 2;
      HalvedRemainder(x, t);
      MaskStep(x, t);
      MaskRounds(x / 2, t);
    }
  }
}

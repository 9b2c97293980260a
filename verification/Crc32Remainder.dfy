/** The checksum is the one of section 3.2.9 of IEEE 802.3: complement the first
    32 bits of the message, multiply by x^32, divide by the generator, and
    complement the remainder. */
module Crc32Remainder {
  import opened Gf2
  import W = Words
  import opened Crc32
  import T = Crc32Theory

  /** x^32 plus the terms of POLY. */
  const GENERATOR: bv64 := 0x1_04c1_1db7

  function Zeros(n: nat): (s: seq<bool>)
    ensures |s| == n
  {
    seq(n, _ => false)
  }

  function Ones(n: nat): (s: seq<bool>)
    ensures |s| == n
  {
    seq(n, _ => true)
  }

  /** The bits that are divided: the message and 32 zeros, the first 32 of all
      these complemented. */
  function Dividend(m: seq<bool>): (s: seq<bool>)
    ensures |s| == |m| + 32
  {
    T.XorBits(m + Zeros(32), Ones(32) + Zeros(|m|))
  }

  /** A bit sequence as a polynomial, the first bit being the leading one. */
  function PolyOfBits(s: seq<bool>): (p: Poly)
    ensures |p| == |s|
  {
    seq(|s|, k requires 0 <= k < |s| => s[|s| - 1 - k])
  }

  function Wide(c: bv32): bv64 {
    c as bv64
  }

  function BitWord(b: bool): bv32 {
    if b then 1 else 0
  }

  /** Long division, bringing down one bit at a time. */
  function Divide(s: seq<bool>): bv32
    decreases |s|
  {
    if s == [] then 0 else Xor(Step(Divide(s[..|s| - 1])), BitWord(s[|s| - 1]))
  }

  /** The quotient of that division. */
  function Quotient(s: seq<bool>): Poly
    decreases |s|
  {
    if s == [] then [] else [Top(Divide(s[..|s| - 1]))] + Quotient(s[..|s| - 1])
  }

  lemma DivideSnoc(s: seq<bool>, b: bool, t: seq<bool>)
    requires t == s + [b]
    ensures Divide(t) == Xor(Step(Divide(s)), BitWord(b))
  {
    assert t[..|t| - 1] == s;
  }

  lemma Zero()
    ensures Xor(0, 0) == 0 && Step(0) == 0 && BitWord(false) == 0
  {
  }

  lemma BitWordXor(a: bool, b: bool)
    ensures BitWord(a != b) == Xor(BitWord(a), BitWord(b))
  {
  }

  lemma {:induction false} DivideXor(s: seq<bool>, t: seq<bool>)
    requires |s| == |t|
    ensures Divide(T.XorBits(s, t)) == Xor(Divide(s), Divide(t))
    decreases |s|
  {
    hide Xor, Step, BitWord;
    if s == [] {
      Zero();
    } else {
      var n := |s| - 1;
      var x := T.XorBits(s, t);
      assert x[..n] == T.XorBits(s[..n], t[..n]);
      DivideXor(s[..n], t[..n]);
      BitWordXor(s[n], t[n]);
      StepXor(Divide(s[..n]), Divide(t[..n]));
      XorParts(Step(Divide(s[..n])), Step(Divide(t[..n])), BitWord(s[n]), BitWord(t[n]));
    }
  }

  /** Bringing down more bits: the old remainder steps on, the new bits add up. */
  lemma {:induction false} DivideAppend(s: seq<bool>, t: seq<bool>)
    ensures Divide(s + t) == Xor(Steps(Divide(s), |t|), Divide(t))
    decreases |t|
  {
    hide Xor, Step, BitWord;
    if t == [] {
      assert s + t == s;
      XorCancel(Divide(s), 0);
    } else {
      var n := |t| - 1;
      var init, b := t[..n], t[n];
      DivideSnoc(s + init, b, s + t);
      DivideSnoc(init, b, t);
      DivideAppend(s, init);
      StepXor(Steps(Divide(s), n), Divide(init));
      T.StepsAdd(Divide(s), n, 1);
      assert Steps(Steps(Divide(s), n), 1) == Step(Steps(Divide(s), n)) by {
        StepsUnfold(Steps(Divide(s), n), 1);
      }
      XorAssoc(Step(Steps(Divide(s), n)), Step(Divide(init)), BitWord(b));
    }
  }

  lemma {:induction false} DivideZeros(n: nat)
    ensures Divide(Zeros(n)) == 0
    decreases n
  {
    hide Xor, Step, BitWord;
    Zero();
    if n > 0 {
      DivideZeros(n - 1);
      DivideSnoc(Zeros(n - 1), false, Zeros(n));
    }
  }

  lemma {:induction false} ZeroSteps(n: nat)
    ensures Steps(0, n) == 0
    decreases n
  {
    hide Step;
    Zero();
    if n > 0 {
      ZeroSteps(n - 1);
    }
  }

  /** x^32 leaves the low terms of the generator. */
  lemma OneSteps()
    ensures Steps(1, 32) == POLY
  {
    hide Step, Steps;
    LowStepsShift(1);
    LowStepsShift(0x100);
    LowStepsShift(0x1_0000);
    Steps8(0x100_0000);
    LastEight();
    T.StepsAdd(1, 8, 8);
    T.StepsAdd(1, 16, 8);
    T.StepsAdd(1, 24, 8);
  }

  lemma LastEight()
    ensures Step(Step(Step(Step(Step(Step(Step(Step(0x100_0000)))))))) == POLY
  {
  }

  /** The bit-serial register is the division of the message times x^32. */
  lemma {:induction false} SerialDivides(m: seq<bool>)
    ensures Serial(0, m) == Steps(Divide(m), 32)
    decreases |m|
  {
    hide Xor, Step, Feed, BitWord, Steps, Serial;
    if m == [] {
      ZeroSteps(32);
      SerialEmpty(0);
    } else {
      var n := |m| - 1;
      var init, b := m[..n], m[n];
      assert m == init + [b];
      SerialDivides(init);
      SerialAppend(0, init, [b]);
      SerialOne(Serial(0, init), b);
      FeedAsTap(Serial(0, init), b);
      StepsXor(Step(Divide(init)), BitWord(b), 32);
      StepsUnfold(Divide(init), 33);
      T.StepsAdd(Divide(init), 32, 1);
      StepsUnfold(Steps(Divide(init), 32), 1);
      SerialEmpty(Step(Steps(Divide(init), 32)));
      BitSteps(b);
    }
  }

  lemma SerialOne(c: bv32, b: bool)
    ensures Serial(c, [b]) == Feed(c, b)
  {
    hide Feed;
    assert [b][1..] == [];
    SerialEmpty(Feed(c, b));
  }

  lemma BitSteps(b: bool)
    ensures Steps(BitWord(b), 32) == Tap(b)
  {
    hide Steps;
    OneSteps();
    ZeroSteps(32);
  }

  lemma OnesAppend(m: nat, n: nat, d: bv32, e: bv32, r: bv32)
    requires Divide(Ones(m)) == d && Divide(Ones(n)) == e && r == Xor(Steps(d, n), e)
    ensures Divide(Ones(m + n)) == r
  {
    DivideAppend(Ones(m), Ones(n));
    assert Ones(m + n) == Ones(m) + Ones(n);
  }

  lemma SmallSteps()
    ensures Xor(Steps(1, 1), 1) == 3 && Xor(Steps(3, 2), 3) == 0xf && Xor(Steps(0xf, 4), 0xf) == 0xff
  {
    hide Step;
    QuietStep(1);
    QuietStep(3);
    QuietStep(6);
    QuietStep(0xf);
    QuietStep(0x1e);
    QuietStep(0x3c);
    QuietStep(0x78);
    StepsUnfold(3, 2);
    StepsUnfold(0xf, 4);
    StepsUnfold(0x3c, 2);
  }

  lemma OnesRegister()
    ensures Divide(Ones(32)) == 0xffff_ffff
  {
    hide Steps, Step, Xor;
    assert Divide(Ones(1)) == 1 by {
      DivideZeros(0);
      DivideSnoc([], true, Ones(1));
      Zero();
      XorCancel(1, 0);
      XorZeroLeft(1);
      BitWordTrue();
    }
    SmallSteps();
    OnesAppend(1, 1, 1, 1, 3);
    OnesAppend(2, 2, 3, 3, 0xf);
    OnesAppend(4, 4, 0xf, 0xf, 0xff);
    LowStepsShift(0xff);
    LowStepsShift(0xffff);
    LowStepsShift(0xff_ffff);
    XorTables();
    OnesAppend(8, 8, 0xff, 0xff, 0xffff);
    OnesAppend(16, 8, 0xffff, 0xff, 0xff_ffff);
    OnesAppend(24, 8, 0xff_ffff, 0xff, 0xffff_ffff);
  }

  lemma BitWordTrue()
    ensures BitWord(true) == 1
  {
  }

  lemma XorTables()
    ensures Xor(0xff00, 0xff) == 0xffff && Xor(0xff_ff00, 0xff) == 0xff_ffff && Xor(0xffff_ff00, 0xff) == 0xffff_ffff
  {
  }

  lemma {:induction false} SerialZeros(c: bv32, n: nat)
    ensures Serial(c, Zeros(n)) == Steps(c, n)
    decreases n
  {
    hide Xor, Step, Feed;
    if n > 0 {
      assert Zeros(n)[1..] == Zeros(n - 1);
      FeedAsTap(c, false);
      XorCancel(Step(c), 0);
      SerialZeros(Step(c), n - 1);
    }
  }

  /** Preloading with ones complements the first 32 bits of the dividend. */
  lemma SerialIsDivision(m: seq<bool>)
    ensures Serial(0xffff_ffff, m) == Divide(Dividend(m))
  {
    hide Xor, Serial, Divide, Steps;
    DivideXor(m + Zeros(32), Ones(32) + Zeros(|m|));
    DivideAppend(m, Zeros(32));
    DivideAppend(Ones(32), Zeros(|m|));
    DivideZeros(32);
    DivideZeros(|m|);
    OnesRegister();
    SerialDivides(m);
    XorCancel(Steps(Divide(m), 32), 0);
    XorCancel(Steps(0xffff_ffff, |m|), 0);
    T.SerialXor(0, 0xffff_ffff, m, Zeros(|m|));
    SerialZeros(0xffff_ffff, |m|);
    assert T.XorBits(m, Zeros(|m|)) == m;
    XorZeroLeft(0xffff_ffff);
  }

  // The division as a statement about polynomials.

  /** Multiplying by one changes nothing. */
  lemma ProductOne(p: Poly, k: nat)
    ensures ProductCoef(p, [true], k) == Coef(p, k)
  {
    ConvolveTail(p, [true], k, 1, k + 1);
    assert Convolve(p, [true], k, 0) == false;
  }

  /** Appending a low coefficient to the quotient. */
  lemma ProductCons(m: Poly, t: bool, q: Poly, k: nat)
    ensures ProductCoef(m, [t] + q, k) == ((t && Coef(m, k)) != (k > 0 && ProductCoef(m, q, k - 1)))
  {
    var xm := [false] + m;
    var q' := [t] + q;
    forall j: nat ensures Coef(q, j) == Coef(q', j + 1) {
    }
    ProductPeel(m, q', xm, q, k);
    ProductShift(m, q, xm, k);
  }

  lemma {:induction false} ConvolveShift(m: Poly, q: Poly, xm: Poly, k: nat, i: nat)
    requires IsShift(xm, m) && 1 <= k && i <= k
    ensures Convolve(xm, q, k, i) == Convolve(m, q, k - 1, i)
    decreases i
  {
    if i > 0 {
      ConvolveShift(m, q, xm, k, i - 1);
    }
  }

  lemma ProductShift(m: Poly, q: Poly, xm: Poly, k: nat)
    requires IsShift(xm, m)
    ensures ProductCoef(xm, q, k) == (k > 0 && ProductCoef(m, q, k - 1))
  {
    assert !Coef(xm, k - k);
    if k > 0 {
      ConvolveShift(m, q, xm, k, k);
    } else {
      assert !Convolve(xm, q, 0, 0);
    }
  }

  function WordPoly(c: bv32): Poly {
    W.Bits(Wide(c))
  }

  function Wide1(b: bool): bv64 {
    if b then 1 else 0
  }

  lemma WideXor(x: bv32, y: bv32)
    ensures Wide(Xor(x, y)) == Wide(x) ^ Wide(y)
  {
  }

  lemma WideBit(b: bool)
    ensures Wide(BitWord(b)) == Wide1(b)
  {
  }

  lemma XorWordCoef(x: bv32, y: bv32, k: nat)
    ensures Coef(WordPoly(Xor(x, y)), k) == (Coef(WordPoly(x), k) != Coef(WordPoly(y), k))
  {
    hide W.Bits;
    WideXor(x, y);
    W.XorCoef(Wide(x), Wide(y), Wide(Xor(x, y)), k);
  }

  lemma WideHigh(c: bv32, k: nat)
    requires k >= 32
    ensures !Coef(WordPoly(c), k)
  {
    hide W.Bits, W.BitAt;
    if k < 64 {
      W.IndexFrom(k, 32);
      W.CoefAt(Wide(c), k, k as bv6);
      WideBitHigh(c, k as bv6);
    }
  }

  lemma WideBitHigh(c: bv32, j: bv6)
    requires j >= 32
    ensures !W.BitAt(Wide(c), j)
  {
  }

  lemma ShiftBit(c: bv32, j: bv6)
    ensures W.BitAt(Wide(Shift(c)), j) == (0 < j < 32 && W.BitAt(Wide(c), j - 1))
  {
  }

  lemma TopIsBit(c: bv32)
    ensures Top(c) == W.BitAt(Wide(c), 31)
  {
  }

  lemma TapBit(b: bool, j: bv6)
    ensures W.BitAt(Wide(Tap(b)), j) == (b && j < 32 && W.BitAt(GENERATOR, j))
  {
  }

  lemma GeneratorBits(j: bv6)
    ensures j == 32 ==> W.BitAt(GENERATOR, j)
    ensures j > 32 ==> !W.BitAt(GENERATOR, j)
  {
  }

  lemma IndexBelow(k: nat)
    requires k < 32
    ensures k as bv6 < 32
  {
  }

  /** The coefficients after a shift, and those the shifted-out bit adds. */
  lemma ShiftedCoef(c: bv32, k: nat)
    requires k < 32
    ensures Coef(WordPoly(Shift(c)), k) == (k > 0 && Coef(WordPoly(c), k - 1))
    ensures Coef(WordPoly(Tap(Top(c))), k) == (Top(c) && Coef(W.Bits(GENERATOR), k))
  {
    hide W.Bits, W.BitAt, Shift, Tap, Top, Wide;
    var j := k as bv6;
    IndexBelow(k);
    W.CoefAt(Wide(Shift(c)), k, j);
    W.CoefAt(Wide(Tap(Top(c))), k, j);
    W.CoefAt(GENERATOR, k, j);
    ShiftBit(c, j);
    TapBit(Top(c), j);
    if k > 0 {
      W.IndexStep(k);
      W.CoefAt(Wide(c), k - 1, j - 1);
    }
  }

  lemma TopCoef(c: bv32)
    ensures Top(c) == Coef(WordPoly(c), 31)
  {
    hide W.Bits, Top;
    W.CoefAt(Wide(c), 31, 31);
    TopIsBit(c);
  }

  lemma GeneratorTop(k: nat)
    requires k >= 32
    ensures Coef(W.Bits(GENERATOR), k) == (k == 32)
  {
    hide W.Bits, W.BitAt;
    if k < 64 {
      W.IndexFrom(k, 32);
      if k > 32 {
        W.IndexFrom(k, 33);
      }
      W.CoefAt(GENERATOR, k, k as bv6);
      GeneratorBits(k as bv6);
    }
  }

  lemma Wide1Coef(b: bool, k: nat)
    ensures Coef(WordPoly(BitWord(b)), k) == (b && k == 0)
  {
    hide W.Bits;
    WideBit(b);
    if !b {
      W.ZeroCoef(k);
    } else if k == 0 {
      W.LowCoef(1);
    } else {
      assert (1 as bv64) >> 1 == 0;
      W.ShrCoef(1, 0, k - 1);
      W.ZeroCoef(k - 1);
    }
  }

  /** One step of the division: the register times x, the new bit, and the
      generator if the register overflows. */
  lemma StepCoef(c: bv32, b: bool, k: nat)
    ensures Coef(WordPoly(Xor(Step(c), BitWord(b))), k)
            == ((if k == 0 then b else Coef(WordPoly(c), k - 1)) != (Top(c) && Coef(W.Bits(GENERATOR), k)))
  {
    hide W.Bits, Xor, Step, BitWord, Wide, Top, Tap, Shift, WordPoly;
    StepAsTap(c);
    XorWordCoef(Step(c), BitWord(b), k);
    XorWordCoef(Shift(c), Tap(Top(c)), k);
    Wide1Coef(b, k);
    if k < 32 {
      ShiftedCoef(c, k);
    } else {
      WideHigh(Shift(c), k);
      WideHigh(Tap(Top(c)), k);
      GeneratorTop(k);
      TopCoef(c);
      if k > 32 {
        WideHigh(c, k - 1);
      }
    }
  }

  /** Long division: dividend = remainder + generator * quotient. */
  lemma {:induction false} DivideLeaves(s: seq<bool>, k: nat)
    ensures Coef(PolyOfBits(s), k)
            == (Coef(WordPoly(Divide(s)), k) != ProductCoef(W.Bits(GENERATOR), Quotient(s), k))
    decreases |s|
  {
    hide W.Bits, Xor, Step, BitWord, Top, ProductCoef, Wide;
    if s == [] {
      assert Wide(0) == 0 by { WideZero(); }
      W.ZeroCoef(k);
      ProductWithZero(W.Bits(GENERATOR), [], k);
    } else {
      var n := |s| - 1;
      var init := s[..n];
      StepCoef(Divide(init), s[n], k);
      ProductCons(W.Bits(GENERATOR), Top(Divide(init)), Quotient(init), k);
      if k > 0 {
        DivideLeaves(init, k - 1);
        assert k - 1 < n ==> PolyOfBits(s)[k] == PolyOfBits(init)[k - 1];
      }
    }
  }

  lemma WideZero()
    ensures Wide(0) == 0
  {
  }

  lemma GeneratorDegree()
    ensures HasDegree(W.Bits(GENERATOR), 32)
  {
    hide W.Bits;
    GeneratorTop(32);
    forall k: nat | k > 32 ensures !Coef(W.Bits(GENERATOR), k) {
      GeneratorTop(k);
    }
  }

  lemma WideWordInjective(c: bv32, d: bv32)
    requires Wide(c) == Wide(d)
    ensures c == d
  {
  }

  /** The remainder of a bit sequence is what long division leaves, and nothing
      else of 32 bits is. */
  lemma DivideIsRemainder(s: seq<bool>, r: bv32)
    ensures IsRemainder(WordPoly(r), PolyOfBits(s), [true], W.Bits(GENERATOR)) <==> r == Divide(s)
  {
    hide W.Bits, Divide, Quotient, Wide, PolyOfBits, ProductCoef, Coef;
    var p, g, d := PolyOfBits(s), W.Bits(GENERATOR), Divide(s);
    forall k: nat ensures ProductCoef(p, [true], k) == (Coef(WordPoly(d), k) != ProductCoef(g, Quotient(s), k)) {
      ProductOne(p, k);
      DivideLeaves(s, k);
    }
    assert Divides(g, Quotient(s), WordPoly(d), p, [true]);
    if IsRemainder(WordPoly(r), p, [true], g) {
      GeneratorDegree();
      forall k: nat | k >= 32 ensures !Coef(WordPoly(r), k) && !Coef(WordPoly(d), k) {
        WideHigh(r, k);
        WideHigh(d, k);
      }
      RemainderUnique(WordPoly(r), WordPoly(d), p, [true], g, 32);
      W.BitsInjective(Wide(r), Wide(d));
      WideWordInjective(r, d);
    }
  }

  lemma NotNot(c: bv32)
    ensures Not(Not(c)) == c
  {
  }

  /** The checksum of a buffer is the complement of the remainder, modulo the
      generator, of the message times x^32 with its first 32 bits complemented. */
  lemma CrcIsRemainder(buf: seq<bv8>, r: bv32)
    ensures IsRemainder(WordPoly(r), PolyOfBits(Dividend(MessageBits(buf))), [true], W.Bits(GENERATOR))
            <==> BitSerialCrc(buf) == Not(r)
  {
    hide W.Bits, Divide, Dividend, Wide, PolyOfBits, Not, MessageBits;
    var m := MessageBits(buf);
    SerialIsDivision(m);
    DivideIsRemainder(Dividend(m), r);
    NotNot(r);
    NotNot(Divide(Dividend(m)));
  }
}

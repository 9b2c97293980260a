/** The AES transformations of a 16-byte state, byte 4*c + r in row r, column c. */
module AesState {
  import opened AesField
  import opened AesTables

  type State = s: seq<bv8> | |s| == 16 witness seq(16, _ => 0)
  type Column = s: seq<bv8> | |s| == 4 witness [0, 0, 0, 0]

  function ShiftRows(s: State): State {
    [s[0x0], s[0x5], s[0xA], s[0xF], s[0x4], s[0x9], s[0xE], s[0x3],
     s[0x8], s[0xD], s[0x2], s[0x7], s[0xC], s[0x1], s[0x6], s[0xB]]
  }

  function InvShiftRows(s: State): State {
    [s[0x0], s[0xD], s[0xA], s[0x7], s[0x4], s[0x1], s[0xE], s[0xB],
     s[0x8], s[0x5], s[0x2], s[0xF], s[0xC], s[0x9], s[0x6], s[0x3]]
  }

  function SubBytes(s: State): (t: State)
    ensures forall i :: 0 <= i < 16 ==> t[i] == Sub(s[i])
  {
    seq(16, i requires 0 <= i < 16 => Sub(s[i]))
  }

  function InvSubBytes(s: State): (t: State)
    ensures forall i :: 0 <= i < 16 ==> t[i] == InvSub(s[i])
  {
    seq(16, i requires 0 <= i < 16 => InvSub(s[i]))
  }

  function XorState(s: State, k: State): (t: State)
    ensures forall i :: 0 <= i < 16 ==> t[i] == Xor(s[i], k[i])
  {
    seq(16, i requires 0 <= i < 16 => Xor(s[i], k[i]))
  }

  function Xor4(a: bv8, b: bv8, c: bv8, d: bv8): bv8 {
    Xor(Xor(Xor(a, b), c), d)
  }

  function MixColumn(c: Column): Column {
    [Xor4(Gf(2, c[0]), Gf(3, c[1]), c[2], c[3]),
     Xor4(c[0], Gf(2, c[1]), Gf(3, c[2]), c[3]),
     Xor4(c[0], c[1], Gf(2, c[2]), Gf(3, c[3])),
     Xor4(Gf(3, c[0]), c[1], c[2], Gf(2, c[3]))]
  }

  function InvMixColumn(c: Column): Column {
    [Xor4(Gf(0xE, c[0]), Gf(0xB, c[1]), Gf(0xD, c[2]), Gf(0x9, c[3])),
     Xor4(Gf(0x9, c[0]), Gf(0xE, c[1]), Gf(0xB, c[2]), Gf(0xD, c[3])),
     Xor4(Gf(0xD, c[0]), Gf(0x9, c[1]), Gf(0xE, c[2]), Gf(0xB, c[3])),
     Xor4(Gf(0xB, c[0]), Gf(0xD, c[1]), Gf(0x9, c[2]), Gf(0xE, c[3]))]
  }

  function Col(s: State, j: nat): Column
    requires j < 4
  {
    s[4 * j..4 * j + 4]
  }

  /** Mixes the four columns one by one. */
  function MixColumns(s: State): State {
    MixColumn(Col(s, 0)) + MixColumn(Col(s, 1)) + MixColumn(Col(s, 2)) + MixColumn(Col(s, 3))
  }

  function InvMixColumns(s: State): State {
    InvMixColumn(Col(s, 0)) + InvMixColumn(Col(s, 1)) + InvMixColumn(Col(s, 2)) + InvMixColumn(Col(s, 3))
  }

  /** Row r moves left by r places (section 5.1.2 of FIPS 197). */
  lemma ShiftRowsRotates(s: State, r: nat, c: nat)
    requires r < 4 && c < 4
    ensures ShiftRows(s)[4 * c + r] == s[4 * ((c + r) % 4) + r]
  {
    assert r in {0, 1, 2, 3} && c in {0, 1, 2, 3};
  }

  lemma ShiftRowsUndone(s: State)
    ensures InvShiftRows(ShiftRows(s)) == s && ShiftRows(InvShiftRows(s)) == s
  {
  }

  lemma SubBytesUndone(s: State)
    ensures InvSubBytes(SubBytes(s)) == s
  {
    forall i | 0 <= i < 16 ensures InvSubBytes(SubBytes(s))[i] == s[i] {
      InvSubSub(s[i]);
    }
  }

  /** Substituting and shifting rows commute, so the order the instructions use
      is the order of the standard. */
  lemma SubShift(s: State)
    ensures SubBytes(ShiftRows(s)) == ShiftRows(SubBytes(s))
  {
    hide Sub;
    forall i | 0 <= i < 16 ensures SubBytes(ShiftRows(s))[i] == ShiftRows(SubBytes(s))[i] {
      assert i in {0, 1, 2, 3, 4, 5, 6, 7, 8, 9, 10, 11, 12, 13, 14, 15};
    }
  }

  lemma InvSubShift(s: State)
    ensures InvSubBytes(InvShiftRows(s)) == InvShiftRows(InvSubBytes(s))
  {
    hide InvSub;
    forall i | 0 <= i < 16 ensures InvSubBytes(InvShiftRows(s))[i] == InvShiftRows(InvSubBytes(s))[i] {
      assert i in {0, 1, 2, 3, 4, 5, 6, 7, 8, 9, 10, 11, 12, 13, 14, 15};
    }
  }

  lemma SubShiftCommute(s: State)
    ensures SubBytes(ShiftRows(s)) == ShiftRows(SubBytes(s))
    ensures InvSubBytes(InvShiftRows(s)) == InvShiftRows(InvSubBytes(s))
  {
    hide Sub, InvSub;
    SubShift(s);
    InvSubShift(s);
  }

  lemma XorStateTwice(s: State, k: State)
    ensures XorState(XorState(s, k), k) == s
  {
    forall i | 0 <= i < 16 ensures XorState(XorState(s, k), k)[i] == s[i] {
      XorTwice(s[i], k[i]);
    }
  }

  lemma XorTwice(a: bv8, b: bv8)
    ensures Xor(Xor(a, b), b) == a
  {
  }

  /** The coefficients of the polynomial that a column is multiplied by. */
  const MIX: Column := [2, 1, 1, 3]
  const INV_MIX: Column := [0xe, 9, 0xd, 0xb]

  /** Coefficient i of the product of two columns modulo x^4 + 1 (section 4.3 of
      FIPS 197), the columns read as polynomials over the field. */
  function RingCoef(a: Column, c: Column, i: nat): bv8
    requires i < 4
  {
    Xor4(Gf(a[i], c[0]), Gf(a[(i + 3) % 4], c[1]), Gf(a[(i + 2) % 4], c[2]), Gf(a[(i + 1) % 4], c[3]))
  }

  /** Both mixing steps are products in that ring (sections 5.1.3 and 5.3.3). */
  lemma MixIsRingProduct(c: Column, i: nat)
    requires i < 4
    ensures MixColumn(c)[i] == RingCoef(MIX, c, i)
    ensures InvMixColumn(c)[i] == RingCoef(INV_MIX, c, i)
  {
    hide Gf, Xor;
    GfOneLeft(c[0]);
    GfOneLeft(c[1]);
    GfOneLeft(c[2]);
    GfOneLeft(c[3]);
    assert i in {0, 1, 2, 3};
  }

  /** The first row of each mixing step; the other rows are the same on the
      rotated column. */
  function Mix0(a: bv8, b: bv8, c: bv8, d: bv8): bv8 {
    Xor4(Gf(2, a), Gf(3, b), c, d)
  }

  function InvMix0(a: bv8, b: bv8, c: bv8, d: bv8): bv8 {
    Xor4(Gf(0xE, a), Gf(0xB, b), Gf(0xD, c), Gf(0x9, d))
  }

  lemma Xor4Rotates(a: bv8, b: bv8, c: bv8, d: bv8)
    ensures Xor4(a, b, c, d) == Xor4(b, c, d, a)
  {
  }

  lemma Rotations(c: Column)
    ensures MixColumn(c) == [Mix0(c[0], c[1], c[2], c[3]), Mix0(c[1], c[2], c[3], c[0]),
                             Mix0(c[2], c[3], c[0], c[1]), Mix0(c[3], c[0], c[1], c[2])]
    ensures InvMixColumn(c) == [InvMix0(c[0], c[1], c[2], c[3]), InvMix0(c[1], c[2], c[3], c[0]),
                                InvMix0(c[2], c[3], c[0], c[1]), InvMix0(c[3], c[0], c[1], c[2])]
  {
    hide Gf, Xor4;
    Xor4Rotates(c[0], Gf(2, c[1]), Gf(3, c[2]), c[3]);
    Xor4Rotates(c[0], c[1], Gf(2, c[2]), Gf(3, c[3]));
    Xor4Rotates(c[1], Gf(2, c[2]), Gf(3, c[3]), c[0]);
    Xor4Rotates(Gf(3, c[0]), c[1], c[2], Gf(2, c[3]));
    Xor4Rotates(c[1], c[2], Gf(2, c[3]), Gf(3, c[0]));
    Xor4Rotates(c[2], Gf(2, c[3]), Gf(3, c[0]), c[1]);
    Xor4Rotates(Gf(0x9, c[0]), Gf(0xE, c[1]), Gf(0xB, c[2]), Gf(0xD, c[3]));
    Xor4Rotates(Gf(0xD, c[0]), Gf(0x9, c[1]), Gf(0xE, c[2]), Gf(0xB, c[3]));
    Xor4Rotates(Gf(0x9, c[1]), Gf(0xE, c[2]), Gf(0xB, c[3]), Gf(0xD, c[0]));
    Xor4Rotates(Gf(0xB, c[0]), Gf(0xD, c[1]), Gf(0x9, c[2]), Gf(0xE, c[3]));
    Xor4Rotates(Gf(0xD, c[1]), Gf(0x9, c[2]), Gf(0xE, c[3]), Gf(0xB, c[0]));
    Xor4Rotates(Gf(0x9, c[2]), Gf(0xE, c[3]), Gf(0xB, c[0]), Gf(0xD, c[1]));
  }

  lemma GfXor4(k: bv8, a: bv8, b: bv8, c: bv8, d: bv8)
    ensures Gf(k, Xor4(a, b, c, d)) == Xor4(Gf(k, a), Gf(k, b), Gf(k, c), Gf(k, d))
  {
    hide Gf, Xor;
    GfXorRight(k, a, b);
    GfXorRight(k, Xor(a, b), c);
    GfXorRight(k, Xor(Xor(a, b), c), d);
  }

  /** E*2 + B + D + 9*3 is 1, and the other three sums of products are 0. */
  lemma MultiplierSums(x: bv8)
    ensures Xor4(Gf(0xE, Gf(2, x)), Gf(0xB, x), Gf(0xD, x), Gf(0x9, Gf(3, x))) == x
    ensures Xor4(Gf(0xE, Gf(3, x)), Gf(0xB, Gf(2, x)), Gf(0xD, x), Gf(0x9, x)) == 0
    ensures Xor4(Gf(0xE, x), Gf(0xB, Gf(3, x)), Gf(0xD, Gf(2, x)), Gf(0x9, x)) == 0
    ensures Xor4(Gf(0xE, x), Gf(0xB, x), Gf(0xD, Gf(3, x)), Gf(0x9, Gf(2, x))) == 0
  {
    hide Gf, XTime, Xor, Xor4;
    var x1 := XTime(x);
    var x2 := XTime(x1);
    var x3 := XTime(x2);
    var x4 := XTime(x3);
    Multipliers(x);
    Multipliers(x1);
    Multipliers(Xor(x1, x));
    XTimeXor(x1, x);
    XTimeXor(x2, x1);
    XTimeXor(x3, x2);
    DoublingSumOne(x, x1, x2, x3, x4);
    DoublingSumTwo(x, x1, x2, x3, x4);
    DoublingSumThree(x, x1, x2, x3, x4);
    DoublingSumFour(x, x1, x2, x3, x4);
  }

  lemma DoublingSumOne(x: bv8, x1: bv8, x2: bv8, x3: bv8, x4: bv8)
    ensures Xor4(Xor(Xor(x4, x3), x2), Xor(Xor(x3, x), x1), Xor(Xor(x3, x), x2), Xor(Xor(x4, x3), Xor(x1, x))) == x
  {
  }

  lemma DoublingSumTwo(x: bv8, x1: bv8, x2: bv8, x3: bv8, x4: bv8)
    ensures Xor4(Xor(Xor(Xor(x4, x3), Xor(x3, x2)), Xor(x2, x1)), Xor(Xor(x4, x1), x2), Xor(Xor(x3, x), x2), Xor(x3, x))
            == 0
  {
  }

  lemma DoublingSumThree(x: bv8, x1: bv8, x2: bv8, x3: bv8, x4: bv8)
    ensures Xor4(Xor(Xor(x3, x2), x1), Xor(Xor(Xor(x4, x3), Xor(x1, x)), Xor(x2, x1)), Xor(Xor(x4, x1), x3), Xor(x3, x))
            == 0
  {
  }

  lemma DoublingSumFour(x: bv8, x1: bv8, x2: bv8, x3: bv8, x4: bv8)
    ensures Xor4(Xor(Xor(x3, x2), x1), Xor(Xor(x3, x), x1), Xor(Xor(Xor(x4, x3), Xor(x1, x)), Xor(x3, x2)), Xor(x4, x1))
            == 0
  {
  }

  lemma Xor4Add(p0: bv8, p1: bv8, p2: bv8, p3: bv8, q0: bv8, q1: bv8, q2: bv8, q3: bv8)
    ensures Xor(Xor4(p0, p1, p2, p3), Xor4(q0, q1, q2, q3)) == Xor4(Xor(p0, q0), Xor(p1, q1), Xor(p2, q2), Xor(p3, q3))
  {
    hide Xor;
    XorParts(p0, p1, q0, q1);
    XorParts(Xor(p0, p1), p2, Xor(q0, q1), q2);
    XorParts(Xor(Xor(p0, p1), p2), p3, Xor(Xor(q0, q1), q2), q3);
  }

  /** Sixteen terms summed by rows or along rotated columns. */
  lemma SumByColumns(p0: bv8, p1: bv8, p2: bv8, p3: bv8, q0: bv8, q1: bv8, q2: bv8, q3: bv8,
                     r0: bv8, r1: bv8, r2: bv8, r3: bv8, s0: bv8, s1: bv8, s2: bv8, s3: bv8)
    ensures Xor4(Xor4(p0, p1, p2, p3), Xor4(q0, q1, q2, q3), Xor4(r0, r1, r2, r3), Xor4(s0, s1, s2, s3))
            == Xor4(Xor4(p0, q3, r2, s1), Xor4(p1, q0, r3, s2), Xor4(p2, q1, r0, s3), Xor4(p3, q2, r1, s0))
  {
    hide Xor;
    Xor4Rotates(q3, q0, q1, q2);
    Xor4Rotates(r0, r1, r2, r3);
    Xor4Rotates(r1, r2, r3, r0);
    Xor4Rotates(s0, s1, s2, s3);
    Xor4Add(p0, p1, p2, p3, q3, q0, q1, q2);
    Xor4Add(Xor(p0, q3), Xor(p1, q0), Xor(p2, q1), Xor(p3, q2), r2, r3, r0, r1);
    Xor4Add(Xor(Xor(p0, q3), r2), Xor(Xor(p1, q0), r3), Xor(Xor(p2, q1), r0), Xor(Xor(p3, q2), r1), s1, s2, s3, s0);
  }

  lemma XorZeros(a: bv8)
    ensures Xor4(a, 0, 0, 0) == a
  {
  }

  lemma InvMix0Undoes(a: bv8, b: bv8, c: bv8, d: bv8)
    ensures InvMix0(Mix0(a, b, c, d), Mix0(b, c, d, a), Mix0(c, d, a, b), Mix0(d, a, b, c)) == a
  {
    hide Gf, XTime, Xor, Xor4;
    GfXor4(0xE, Gf(2, a), Gf(3, b), c, d);
    GfXor4(0xB, Gf(2, b), Gf(3, c), d, a);
    GfXor4(0xD, Gf(2, c), Gf(3, d), a, b);
    GfXor4(0x9, Gf(2, d), Gf(3, a), b, c);
    SumByColumns(Gf(0xE, Gf(2, a)), Gf(0xE, Gf(3, b)), Gf(0xE, c), Gf(0xE, d),
                 Gf(0xB, Gf(2, b)), Gf(0xB, Gf(3, c)), Gf(0xB, d), Gf(0xB, a),
                 Gf(0xD, Gf(2, c)), Gf(0xD, Gf(3, d)), Gf(0xD, a), Gf(0xD, b),
                 Gf(0x9, Gf(2, d)), Gf(0x9, Gf(3, a)), Gf(0x9, b), Gf(0x9, c));
    MultiplierSums(a);
    MultiplierSums(b);
    MultiplierSums(c);
    MultiplierSums(d);
    XorZeros(a);
  }

  lemma InvMixColumnUndoes(c: Column)
    ensures InvMixColumn(MixColumn(c)) == c
  {
    hide Mix0, InvMix0, MixColumn, InvMixColumn;
    Rotations(c);
    Rotations(MixColumn(c));
    InvMix0Undoes(c[0], c[1], c[2], c[3]);
    InvMix0Undoes(c[1], c[2], c[3], c[0]);
    InvMix0Undoes(c[2], c[3], c[0], c[1]);
    InvMix0Undoes(c[3], c[0], c[1], c[2]);
  }

  /** Inverse mixing undoes mixing on every state. */
  lemma InvMixColumnsUndoes(s: State)
    ensures InvMixColumns(MixColumns(s)) == s
  {
    hide MixColumn, InvMixColumn;
    var m := MixColumns(s);
    forall j: nat | j < 4 ensures Col(m, j) == MixColumn(Col(s, j)) {
      assert j in {0, 1, 2, 3};
    }
    InvMixColumnUndoes(Col(s, 0));
    InvMixColumnUndoes(Col(s, 1));
    InvMixColumnUndoes(Col(s, 2));
    InvMixColumnUndoes(Col(s, 3));
    assert s == Col(s, 0) + Col(s, 1) + Col(s, 2) + Col(s, 3);
  }

  /** Multiplying by 2 or 3 may be done before or after another multiplication. */
  lemma MultipliersSwap(k: bv8, x: bv8)
    ensures Gf(2, Gf(k, x)) == Gf(k, Gf(2, x)) && Gf(3, Gf(k, x)) == Gf(k, Gf(3, x))
  {
    hide *;
    Multipliers(x);
    Multipliers(Gf(k, x));
    GfCommutes(k, XTime(x));
    GfXTimeLeft(x, k);
    GfCommutes(x, k);
    GfXorRight(k, XTime(x), x);
  }

  lemma Xor4Swap(a: bv8, b: bv8, c: bv8, d: bv8)
    ensures Xor4(a, d, c, b) == Xor4(a, b, c, d)
  {
    hide Xor;
    XorLaws(Xor(a, d), c, b);
    XorLaws(a, d, b);
    XorLaws(Xor(a, b), d, c);
  }

  lemma Xor4Permutes(a: bv8, b: bv8, c: bv8, d: bv8)
    ensures Xor4(a, d, c, b) == Xor4(a, b, c, d) && Xor4(b, a, d, c) == Xor4(a, b, c, d)
    ensures Xor4(c, b, a, d) == Xor4(a, b, c, d) && Xor4(d, c, b, a) == Xor4(a, b, c, d)
  {
    hide Xor4;
    Xor4Swap(a, b, c, d);
    Xor4Swap(b, c, d, a);
    Xor4Swap(c, d, a, b);
    Xor4Swap(d, a, b, c);
    Xor4Rotates(a, b, c, d);
    Xor4Rotates(b, c, d, a);
    Xor4Rotates(c, d, a, b);
  }

  lemma SwappedSums(x: bv8)
    ensures Xor4(Gf(2, Gf(0xE, x)), Gf(3, Gf(0x9, x)), Gf(0xD, x), Gf(0xB, x)) == x
    ensures Xor4(Gf(2, Gf(0xB, x)), Gf(3, Gf(0xE, x)), Gf(0x9, x), Gf(0xD, x)) == 0
    ensures Xor4(Gf(2, Gf(0xD, x)), Gf(3, Gf(0xB, x)), Gf(0xE, x), Gf(0x9, x)) == 0
    ensures Xor4(Gf(2, Gf(0x9, x)), Gf(3, Gf(0xD, x)), Gf(0xB, x), Gf(0xE, x)) == 0
  {
    hide Gf, XTime, Xor, Xor4;
    MultiplierSums(x);
    MultipliersSwap(0xE, x);
    MultipliersSwap(0xB, x);
    MultipliersSwap(0xD, x);
    MultipliersSwap(0x9, x);
    Xor4Permutes(Gf(0xE, Gf(2, x)), Gf(0xB, x), Gf(0xD, x), Gf(0x9, Gf(3, x)));
    Xor4Permutes(Gf(0xE, Gf(3, x)), Gf(0xB, Gf(2, x)), Gf(0xD, x), Gf(0x9, x));
    Xor4Permutes(Gf(0xE, x), Gf(0xB, Gf(3, x)), Gf(0xD, Gf(2, x)), Gf(0x9, x));
    Xor4Permutes(Gf(0xE, x), Gf(0xB, x), Gf(0xD, Gf(3, x)), Gf(0x9, Gf(2, x)));
  }

  lemma Mix0Undoes(a: bv8, b: bv8, c: bv8, d: bv8)
    ensures Mix0(InvMix0(a, b, c, d), InvMix0(b, c, d, a), InvMix0(c, d, a, b), InvMix0(d, a, b, c)) == a
  {
    hide Gf, XTime, Xor, Xor4;
    GfXor4(2, Gf(0xE, a), Gf(0xB, b), Gf(0xD, c), Gf(0x9, d));
    GfXor4(3, Gf(0xE, b), Gf(0xB, c), Gf(0xD, d), Gf(0x9, a));
    SumByColumns(Gf(2, Gf(0xE, a)), Gf(2, Gf(0xB, b)), Gf(2, Gf(0xD, c)), Gf(2, Gf(0x9, d)),
                 Gf(3, Gf(0xE, b)), Gf(3, Gf(0xB, c)), Gf(3, Gf(0xD, d)), Gf(3, Gf(0x9, a)),
                 Gf(0xE, c), Gf(0xB, d), Gf(0xD, a), Gf(0x9, b),
                 Gf(0xE, d), Gf(0xB, a), Gf(0xD, b), Gf(0x9, c));
    SwappedSums(a);
    SwappedSums(b);
    SwappedSums(c);
    SwappedSums(d);
    XorZeros(a);
  }

  lemma MixColumnUndoes(c: Column)
    ensures MixColumn(InvMixColumn(c)) == c
  {
    hide Mix0, InvMix0, MixColumn, InvMixColumn;
    Rotations(c);
    Rotations(InvMixColumn(c));
    Mix0Undoes(c[0], c[1], c[2], c[3]);
    Mix0Undoes(c[1], c[2], c[3], c[0]);
    Mix0Undoes(c[2], c[3], c[0], c[1]);
    Mix0Undoes(c[3], c[0], c[1], c[2]);
  }

  /** And mixing undoes inverse mixing. */
  lemma MixColumnsUndoes(s: State)
    ensures MixColumns(InvMixColumns(s)) == s
  {
    hide MixColumn, InvMixColumn;
    var m := InvMixColumns(s);
    forall j: nat | j < 4 ensures Col(m, j) == InvMixColumn(Col(s, j)) {
      assert j in {0, 1, 2, 3};
    }
    MixColumnUndoes(Col(s, 0));
    MixColumnUndoes(Col(s, 1));
    MixColumnUndoes(Col(s, 2));
    MixColumnUndoes(Col(s, 3));
    assert s == Col(s, 0) + Col(s, 1) + Col(s, 2) + Col(s, 3);
  }
}

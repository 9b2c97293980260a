/** The substitution table is the one of section 5.1.1 of FIPS 197: the inverse in
    the field, zero standing for itself, and then an affine map over the bits. */
module AesSbox {
  import opened AesField
  import opened AesTables

  /** b_i + b_(i+4) + b_(i+5) + b_(i+6) + b_(i+7) + c_i, the indices modulo 8. */
  function Affine(b: bv8): bv8 {
    b ^ ((b << 1) | (b >> 7)) ^ ((b << 2) | (b >> 6)) ^ ((b << 3) | (b >> 5)) ^ ((b << 4) | (b >> 4)) ^ 0x63
  }

  function InvAffine(s: bv8): bv8 {
    ((s << 1) | (s >> 7)) ^ ((s << 3) | (s >> 5)) ^ ((s << 6) | (s >> 2)) ^ 0x05
  }

  lemma AffineUndone(s: bv8)
    ensures Affine(InvAffine(s)) == s
  {
  }

  /** `a` if bit m of `b` is set. */
  function Part(a: bv8, b: bv8, m: bv8): bv8 {
    if b & m != 0 then a else 0
  }

  /** The field product with all eight rounds written out. */
  function Product(a: bv8, b: bv8): bv8 {
    var a1 := XTime(a);
    var a2 := XTime(a1);
    var a3 := XTime(a2);
    var a4 := XTime(a3);
    var a5 := XTime(a4);
    var a6 := XTime(a5);
    var a7 := XTime(a6);
    Xor(Part(a, b, 0x01), Xor(Part(a1, b, 0x02), Xor(Part(a2, b, 0x04), Xor(Part(a3, b, 0x08),
    Xor(Part(a4, b, 0x10), Xor(Part(a5, b, 0x20), Xor(Part(a6, b, 0x40), Part(a7, b, 0x80))))))))
  }

  lemma Halvings(b: bv8)
    ensures b >> 1 == Half(b) && b >> 2 == Half(b >> 1) && b >> 3 == Half(b >> 2) && b >> 4 == Half(b >> 3)
    ensures b >> 5 == Half(b >> 4) && b >> 6 == Half(b >> 5) && b >> 7 == Half(b >> 6) && Half(b >> 7) == 0
  {
  }

  lemma Parts(a: bv8, b: bv8)
    ensures Low(a, b) == Part(a, b, 0x01) && Low(a, b >> 1) == Part(a, b, 0x02)
    ensures Low(a, b >> 2) == Part(a, b, 0x04) && Low(a, b >> 3) == Part(a, b, 0x08)
    ensures Low(a, b >> 4) == Part(a, b, 0x10) && Low(a, b >> 5) == Part(a, b, 0x20)
    ensures Low(a, b >> 6) == Part(a, b, 0x40) && Low(a, b >> 7) == Part(a, b, 0x80)
  {
  }

  lemma ProductIsGf(a: bv8, b: bv8)
    ensures Product(a, b) == Gf(a, b)
  {
    hide Gf, XTime, Low, Half, Xor, Part;
    var a1 := XTime(a);
    var a2 := XTime(a1);
    var a3 := XTime(a2);
    var a4 := XTime(a3);
    var a5 := XTime(a4);
    var a6 := XTime(a5);
    var a7 := XTime(a6);
    Halvings(b);
    GfUnfold(a, b);
    GfUnfold(a1, b >> 1);
    GfUnfold(a2, b >> 2);
    GfUnfold(a3, b >> 3);
    GfUnfold(a4, b >> 4);
    GfUnfold(a5, b >> 5);
    GfUnfold(a6, b >> 6);
    GfUnfold(a7, b >> 7);
    GfZero(XTime(a7));
    XorLaws(Low(a7, b >> 7), 0, 0);
    Parts(a, b);
    Parts(a1, b);
    Parts(a2, b);
    Parts(a3, b);
    Parts(a4, b);
    Parts(a5, b);
    Parts(a6, b);
    Parts(a7, b);
  }

  /** `v` is the affine image of the inverse of `x`. */
  predicate IsImage(x: bv8, v: bv8) {
    if x == 0 then InvAffine(v) == 0 else Product(x, InvAffine(v)) == 1
  }

  predicate ImageAt(n: int, v: int) {
    0 <= n < 0x100 && 0 <= v < 0x100 && IsImage(n as bv8, v as bv8)
  }

  // All entries, one row after the other.

  lemma Row0()
    ensures ImageAt(0x00, 0x63) && ImageAt(0x01, 0x7c) && ImageAt(0x02, 0x77) && ImageAt(0x03, 0x7b)
    ensures ImageAt(0x04, 0xf2) && ImageAt(0x05, 0x6b) && ImageAt(0x06, 0x6f) && ImageAt(0x07, 0xc5)
    ensures ImageAt(0x08, 0x30) && ImageAt(0x09, 0x01) && ImageAt(0x0a, 0x67) && ImageAt(0x0b, 0x2b)
    ensures ImageAt(0x0c, 0xfe) && ImageAt(0x0d, 0xd7) && ImageAt(0x0e, 0xab) && ImageAt(0x0f, 0x76)
  {
  }

  lemma Row1()
    ensures ImageAt(0x10, 0xca) && ImageAt(0x11, 0x82) && ImageAt(0x12, 0xc9) && ImageAt(0x13, 0x7d)
    ensures ImageAt(0x14, 0xfa) && ImageAt(0x15, 0x59) && ImageAt(0x16, 0x47) && ImageAt(0x17, 0xf0)
    ensures ImageAt(0x18, 0xad) && ImageAt(0x19, 0xd4) && ImageAt(0x1a, 0xa2) && ImageAt(0x1b, 0xaf)
    ensures ImageAt(0x1c, 0x9c) && ImageAt(0x1d, 0xa4) && ImageAt(0x1e, 0x72) && ImageAt(0x1f, 0xc0)
  {
  }

  lemma Row2()
    ensures ImageAt(0x20, 0xb7) && ImageAt(0x21, 0xfd) && ImageAt(0x22, 0x93) && ImageAt(0x23, 0x26)
    ensures ImageAt(0x24, 0x36) && ImageAt(0x25, 0x3f) && ImageAt(0x26, 0xf7) && ImageAt(0x27, 0xcc)
    ensures ImageAt(0x28, 0x34) && ImageAt(0x29, 0xa5) && ImageAt(0x2a, 0xe5) && ImageAt(0x2b, 0xf1)
    ensures ImageAt(0x2c, 0x71) && ImageAt(0x2d, 0xd8) && ImageAt(0x2e, 0x31) && ImageAt(0x2f, 0x15)
  {
  }

  lemma Row3()
    ensures ImageAt(0x30, 0x04) && ImageAt(0x31, 0xc7) && ImageAt(0x32, 0x23) && ImageAt(0x33, 0xc3)
    ensures ImageAt(0x34, 0x18) && ImageAt(0x35, 0x96) && ImageAt(0x36, 0x05) && ImageAt(0x37, 0x9a)
    ensures ImageAt(0x38, 0x07) && ImageAt(0x39, 0x12) && ImageAt(0x3a, 0x80) && ImageAt(0x3b, 0xe2)
    ensures ImageAt(0x3c, 0xeb) && ImageAt(0x3d, 0x27) && ImageAt(0x3e, 0xb2) && ImageAt(0x3f, 0x75)
  {
  }

  lemma Row4()
    ensures ImageAt(0x40, 0x09) && ImageAt(0x41, 0x83) && ImageAt(0x42, 0x2c) && ImageAt(0x43, 0x1a)
    ensures ImageAt(0x44, 0x1b) && ImageAt(0x45, 0x6e) && ImageAt(0x46, 0x5a) && ImageAt(0x47, 0xa0)
    ensures ImageAt(0x48, 0x52) && ImageAt(0x49, 0x3b) && ImageAt(0x4a, 0xd6) && ImageAt(0x4b, 0xb3)
    ensures ImageAt(0x4c, 0x29) && ImageAt(0x4d, 0xe3) && ImageAt(0x4e, 0x2f) && ImageAt(0x4f, 0x84)
  {
  }

  lemma Row5()
    ensures ImageAt(0x50, 0x53) && ImageAt(0x51, 0xd1) && ImageAt(0x52, 0x00) && ImageAt(0x53, 0xed)
    ensures ImageAt(0x54, 0x20) && ImageAt(0x55, 0xfc) && ImageAt(0x56, 0xb1) && ImageAt(0x57, 0x5b)
    ensures ImageAt(0x58, 0x6a) && ImageAt(0x59, 0xcb) && ImageAt(0x5a, 0xbe) && ImageAt(0x5b, 0x39)
    ensures ImageAt(0x5c, 0x4a) && ImageAt(0x5d, 0x4c) && ImageAt(0x5e, 0x58) && ImageAt(0x5f, 0xcf)
  {
  }

  lemma Row6()
    ensures ImageAt(0x60, 0xd0) && ImageAt(0x61, 0xef) && ImageAt(0x62, 0xaa) && ImageAt(0x63, 0xfb)
    ensures ImageAt(0x64, 0x43) && ImageAt(0x65, 0x4d) && ImageAt(0x66, 0x33) && ImageAt(0x67, 0x85)
    ensures ImageAt(0x68, 0x45) && ImageAt(0x69, 0xf9) && ImageAt(0x6a, 0x02) && ImageAt(0x6b, 0x7f)
    ensures ImageAt(0x6c, 0x50) && ImageAt(0x6d, 0x3c) && ImageAt(0x6e, 0x9f) && ImageAt(0x6f, 0xa8)
  {
  }

  lemma Row7()
    ensures ImageAt(0x70, 0x51) && ImageAt(0x71, 0xa3) && ImageAt(0x72, 0x40) && ImageAt(0x73, 0x8f)
    ensures ImageAt(0x74, 0x92) && ImageAt(0x75, 0x9d) && ImageAt(0x76, 0x38) && ImageAt(0x77, 0xf5)
    ensures ImageAt(0x78, 0xbc) && ImageAt(0x79, 0xb6) && ImageAt(0x7a, 0xda) && ImageAt(0x7b, 0x21)
    ensures ImageAt(0x7c, 0x10) && ImageAt(0x7d, 0xff) && ImageAt(0x7e, 0xf3) && ImageAt(0x7f, 0xd2)
  {
  }

  lemma Row8()
    ensures ImageAt(0x80, 0xcd) && ImageAt(0x81, 0x0c) && ImageAt(0x82, 0x13) && ImageAt(0x83, 0xec)
    ensures ImageAt(0x84, 0x5f) && ImageAt(0x85, 0x97) && ImageAt(0x86, 0x44) && ImageAt(0x87, 0x17)
    ensures ImageAt(0x88, 0xc4) && ImageAt(0x89, 0xa7) && ImageAt(0x8a, 0x7e) && ImageAt(0x8b, 0x3d)
    ensures ImageAt(0x8c, 0x64) && ImageAt(0x8d, 0x5d) && ImageAt(0x8e, 0x19) && ImageAt(0x8f, 0x73)
  {
  }

  lemma Row9()
    ensures ImageAt(0x90, 0x60) && ImageAt(0x91, 0x81) && ImageAt(0x92, 0x4f) && ImageAt(0x93, 0xdc)
    ensures ImageAt(0x94, 0x22) && ImageAt(0x95, 0x2a) && ImageAt(0x96, 0x90) && ImageAt(0x97, 0x88)
    ensures ImageAt(0x98, 0x46) && ImageAt(0x99, 0xee) && ImageAt(0x9a, 0xb8) && ImageAt(0x9b, 0x14)
    ensures ImageAt(0x9c, 0xde) && ImageAt(0x9d, 0x5e) && ImageAt(0x9e, 0x0b) && ImageAt(0x9f, 0xdb)
  {
  }

  lemma Rowa()
    ensures ImageAt(0xa0, 0xe0) && ImageAt(0xa1, 0x32) && ImageAt(0xa2, 0x3a) && ImageAt(0xa3, 0x0a)
    ensures ImageAt(0xa4, 0x49) && ImageAt(0xa5, 0x06) && ImageAt(0xa6, 0x24) && ImageAt(0xa7, 0x5c)
    ensures ImageAt(0xa8, 0xc2) && ImageAt(0xa9, 0xd3) && ImageAt(0xaa, 0xac) && ImageAt(0xab, 0x62)
    ensures ImageAt(0xac, 0x91) && ImageAt(0xad, 0x95) && ImageAt(0xae, 0xe4) && ImageAt(0xaf, 0x79)
  {
  }

  lemma Rowb()
    ensures ImageAt(0xb0, 0xe7) && ImageAt(0xb1, 0xc8) && ImageAt(0xb2, 0x37) && ImageAt(0xb3, 0x6d)
    ensures ImageAt(0xb4, 0x8d) && ImageAt(0xb5, 0xd5) && ImageAt(0xb6, 0x4e) && ImageAt(0xb7, 0xa9)
    ensures ImageAt(0xb8, 0x6c) && ImageAt(0xb9, 0x56) && ImageAt(0xba, 0xf4) && ImageAt(0xbb, 0xea)
    ensures ImageAt(0xbc, 0x65) && ImageAt(0xbd, 0x7a) && ImageAt(0xbe, 0xae) && ImageAt(0xbf, 0x08)
  {
  }

  lemma Rowc()
    ensures ImageAt(0xc0, 0xba) && ImageAt(0xc1, 0x78) && ImageAt(0xc2, 0x25) && ImageAt(0xc3, 0x2e)
    ensures ImageAt(0xc4, 0x1c) && ImageAt(0xc5, 0xa6) && ImageAt(0xc6, 0xb4) && ImageAt(0xc7, 0xc6)
    ensures ImageAt(0xc8, 0xe8) && ImageAt(0xc9, 0xdd) && ImageAt(0xca, 0x74) && ImageAt(0xcb, 0x1f)
    ensures ImageAt(0xcc, 0x4b) && ImageAt(0xcd, 0xbd) && ImageAt(0xce, 0x8b) && ImageAt(0xcf, 0x8a)
  {
  }

  lemma Rowd()
    ensures ImageAt(0xd0, 0x70) && ImageAt(0xd1, 0x3e) && ImageAt(0xd2, 0xb5) && ImageAt(0xd3, 0x66)
    ensures ImageAt(0xd4, 0x48) && ImageAt(0xd5, 0x03) && ImageAt(0xd6, 0xf6) && ImageAt(0xd7, 0x0e)
    ensures ImageAt(0xd8, 0x61) && ImageAt(0xd9, 0x35) && ImageAt(0xda, 0x57) && ImageAt(0xdb, 0xb9)
    ensures ImageAt(0xdc, 0x86) && ImageAt(0xdd, 0xc1) && ImageAt(0xde, 0x1d) && ImageAt(0xdf, 0x9e)
  {
  }

  lemma Rowe()
    ensures ImageAt(0xe0, 0xe1) && ImageAt(0xe1, 0xf8) && ImageAt(0xe2, 0x98) && ImageAt(0xe3, 0x11)
    ensures ImageAt(0xe4, 0x69) && ImageAt(0xe5, 0xd9) && ImageAt(0xe6, 0x8e) && ImageAt(0xe7, 0x94)
    ensures ImageAt(0xe8, 0x9b) && ImageAt(0xe9, 0x1e) && ImageAt(0xea, 0x87) && ImageAt(0xeb, 0xe9)
    ensures ImageAt(0xec, 0xce) && ImageAt(0xed, 0x55) && ImageAt(0xee, 0x28) && ImageAt(0xef, 0xdf)
  {
  }

  lemma Rowf()
    ensures ImageAt(0xf0, 0x8c) && ImageAt(0xf1, 0xa1) && ImageAt(0xf2, 0x89) && ImageAt(0xf3, 0x0d)
    ensures ImageAt(0xf4, 0xbf) && ImageAt(0xf5, 0xe6) && ImageAt(0xf6, 0x42) && ImageAt(0xf7, 0x68)
    ensures ImageAt(0xf8, 0x41) && ImageAt(0xf9, 0x99) && ImageAt(0xfa, 0x2d) && ImageAt(0xfb, 0x0f)
    ensures ImageAt(0xfc, 0xb0) && ImageAt(0xfd, 0x54) && ImageAt(0xfe, 0xbb) && ImageAt(0xff, 0x16)
  {
  }

  lemma Entries0(r: nat, c: nat)
    requires 0 <= r < 4 && c < 16
    ensures Square(SBOX) && ImageAt(16 * r + c, SBOX[r][c])
  {
    hide ImageAt;
    TablesSquare();
    Row0();
    Row1();
    Row2();
    Row3();
  }

  lemma Entries1(r: nat, c: nat)
    requires 4 <= r < 8 && c < 16
    ensures Square(SBOX) && ImageAt(16 * r + c, SBOX[r][c])
  {
    hide ImageAt;
    TablesSquare();
    Row4();
    Row5();
    Row6();
    Row7();
  }

  lemma Entries2(r: nat, c: nat)
    requires 8 <= r < 12 && c < 16
    ensures Square(SBOX) && ImageAt(16 * r + c, SBOX[r][c])
  {
    hide ImageAt;
    TablesSquare();
    Row8();
    Row9();
    Rowa();
    Rowb();
  }

  lemma Entries3(r: nat, c: nat)
    requires 12 <= r < 16 && c < 16
    ensures Square(SBOX) && ImageAt(16 * r + c, SBOX[r][c])
  {
    hide ImageAt;
    TablesSquare();
    Rowc();
    Rowd();
    Rowe();
    Rowf();
  }

  lemma EntryIsImage(r: nat, c: nat)
    requires r < 16 && c < 16
    ensures Square(SBOX) && ImageAt(16 * r + c, SBOX[r][c])
  {
    hide *;
    if
    case r < 4 => Entries0(r, c);
    case 4 <= r < 8 => Entries1(r, c);
    case 8 <= r < 12 => Entries2(r, c);
    case 12 <= r => Entries3(r, c);
  }

  /** Every byte is replaced by the affine image of its inverse in the field. */
  lemma SubIsInverseThenAffine(x: bv8)
    ensures var y := InvAffine(Sub(x));
            && Sub(x) == Affine(y)
            && (if x == 0 then y == 0 else Gf(x, y) == 1)
  {
    hide SBOX, Product, Gf, Affine, InvAffine;
    TablesSquare();
    var n := x as int;
    EntryIsImage(n / 16, n % 16);
    ByteBack(x);
    AffineUndone(Sub(x));
    ProductIsGf(x, InvAffine(Sub(x)));
  }
}

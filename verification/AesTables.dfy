/** The substitution tables, sixteen entries to a row. */
module AesTables {
  import opened Machine

  const SBOX: seq<seq<u8>> := [
    [0x63, 0x7c, 0x77, 0x7b, 0xf2, 0x6b, 0x6f, 0xc5, 0x30, 0x01, 0x67, 0x2b, 0xfe, 0xd7, 0xab, 0x76],
    [0xca, 0x82, 0xc9, 0x7d, 0xfa, 0x59, 0x47, 0xf0, 0xad, 0xd4, 0xa2, 0xaf, 0x9c, 0xa4, 0x72, 0xc0],
    [0xb7, 0xfd, 0x93, 0x26, 0x36, 0x3f, 0xf7, 0xcc, 0x34, 0xa5, 0xe5, 0xf1, 0x71, 0xd8, 0x31, 0x15],
    [0x04, 0xc7, 0x23, 0xc3, 0x18, 0x96, 0x05, 0x9a, 0x07, 0x12, 0x80, 0xe2, 0xeb, 0x27, 0xb2, 0x75],
    [0x09, 0x83, 0x2c, 0x1a, 0x1b, 0x6e, 0x5a, 0xa0, 0x52, 0x3b, 0xd6, 0xb3, 0x29, 0xe3, 0x2f, 0x84],
    [0x53, 0xd1, 0x00, 0xed, 0x20, 0xfc, 0xb1, 0x5b, 0x6a, 0xcb, 0xbe, 0x39, 0x4a, 0x4c, 0x58, 0xcf],
    [0xd0, 0xef, 0xaa, 0xfb, 0x43, 0x4d, 0x33, 0x85, 0x45, 0xf9, 0x02, 0x7f, 0x50, 0x3c, 0x9f, 0xa8],
    [0x51, 0xa3, 0x40, 0x8f, 0x92, 0x9d, 0x38, 0xf5, 0xbc, 0xb6, 0xda, 0x21, 0x10, 0xff, 0xf3, 0xd2],
    [0xcd, 0x0c, 0x13, 0xec, 0x5f, 0x97, 0x44, 0x17, 0xc4, 0xa7, 0x7e, 0x3d, 0x64, 0x5d, 0x19, 0x73],
    [0x60, 0x81, 0x4f, 0xdc, 0x22, 0x2a, 0x90, 0x88, 0x46, 0xee, 0xb8, 0x14, 0xde, 0x5e, 0x0b, 0xdb],
    [0xe0, 0x32, 0x3a, 0x0a, 0x49, 0x06, 0x24, 0x5c, 0xc2, 0xd3, 0xac, 0x62, 0x91, 0x95, 0xe4, 0x79],
    [0xe7, 0xc8, 0x37, 0x6d, 0x8d, 0xd5, 0x4e, 0xa9, 0x6c, 0x56, 0xf4, 0xea, 0x65, 0x7a, 0xae, 0x08],
    [0xba, 0x78, 0x25, 0x2e, 0x1c, 0xa6, 0xb4, 0xc6, 0xe8, 0xdd, 0x74, 0x1f, 0x4b, 0xbd, 0x8b, 0x8a],
    [0x70, 0x3e, 0xb5, 0x66, 0x48, 0x03, 0xf6, 0x0e, 0x61, 0x35, 0x57, 0xb9, 0x86, 0xc1, 0x1d, 0x9e],
    [0xe1, 0xf8, 0x98, 0x11, 0x69, 0xd9, 0x8e, 0x94, 0x9b, 0x1e, 0x87, 0xe9, 0xce, 0x55, 0x28, 0xdf],
    [0x8c, 0xa1, 0x89, 0x0d, 0xbf, 0xe6, 0x42, 0x68, 0x41, 0x99, 0x2d, 0x0f, 0xb0, 0x54, 0xbb, 0x16]
  ]

  const INV_SBOX: seq<seq<u8>> := [
    [0x52, 0x09, 0x6a, 0xd5, 0x30, 0x36, 0xa5, 0x38, 0xbf, 0x40, 0xa3, 0x9e, 0x81, 0xf3, 0xd7, 0xfb],
    [0x7c, 0xe3, 0x39, 0x82, 0x9b, 0x2f, 0xff, 0x87, 0x34, 0x8e, 0x43, 0x44, 0xc4, 0xde, 0xe9, 0xcb],
    [0x54, 0x7b, 0x94, 0x32, 0xa6, 0xc2, 0x23, 0x3d, 0xee, 0x4c, 0x95, 0x0b, 0x42, 0xfa, 0xc3, 0x4e],
    [0x08, 0x2e, 0xa1, 0x66, 0x28, 0xd9, 0x24, 0xb2, 0x76, 0x5b, 0xa2, 0x49, 0x6d, 0x8b, 0xd1, 0x25],
    [0x72, 0xf8, 0xf6, 0x64, 0x86, 0x68, 0x98, 0x16, 0xd4, 0xa4, 0x5c, 0xcc, 0x5d, 0x65, 0xb6, 0x92],
    [0x6c, 0x70, 0x48, 0x50, 0xfd, 0xed, 0xb9, 0xda, 0x5e, 0x15, 0x46, 0x57, 0xa7, 0x8d, 0x9d, 0x84],
    [0x90, 0xd8, 0xab, 0x00, 0x8c, 0xbc, 0xd3, 0x0a, 0xf7, 0xe4, 0x58, 0x05, 0xb8, 0xb3, 0x45, 0x06],
    [0xd0, 0x2c, 0x1e, 0x8f, 0xca, 0x3f, 0x0f, 0x02, 0xc1, 0xaf, 0xbd, 0x03, 0x01, 0x13, 0x8a, 0x6b],
    [0x3a, 0x91, 0x11, 0x41, 0x4f, 0x67, 0xdc, 0xea, 0x97, 0xf2, 0xcf, 0xce, 0xf0, 0xb4, 0xe6, 0x73],
    [0x96, 0xac, 0x74, 0x22, 0xe7, 0xad, 0x35, 0x85, 0xe2, 0xf9, 0x37, 0xe8, 0x1c, 0x75, 0xdf, 0x6e],
    [0x47, 0xf1, 0x1a, 0x71, 0x1d, 0x29, 0xc5, 0x89, 0x6f, 0xb7, 0x62, 0x0e, 0xaa, 0x18, 0xbe, 0x1b],
    [0xfc, 0x56, 0x3e, 0x4b, 0xc6, 0xd2, 0x79, 0x20, 0x9a, 0xdb, 0xc0, 0xfe, 0x78, 0xcd, 0x5a, 0xf4],
    [0x1f, 0xdd, 0xa8, 0x33, 0x88, 0x07, 0xc7, 0x31, 0xb1, 0x12, 0x10, 0x59, 0x27, 0x80, 0xec, 0x5f],
    [0x60, 0x51, 0x7f, 0xa9, 0x19, 0xb5, 0x4a, 0x0d, 0x2d, 0xe5, 0x7a, 0x9f, 0x93, 0xc9, 0x9c, 0xef],
    [0xa0, 0xe0, 0x3b, 0x4d, 0xae, 0x2a, 0xf5, 0xb0, 0xc8, 0xeb, 0xbb, 0x3c, 0x83, 0x53, 0x99, 0x61],
    [0x17, 0x2b, 0x04, 0x7e, 0xba, 0x77, 0xd6, 0x26, 0xe1, 0x69, 0x14, 0x63, 0x55, 0x21, 0x0c, 0x7d]
  ]

  predicate Square(t: seq<seq<u8>>) {
    |t| == 16 && forall r :: 0 <= r < 16 ==> |t[r]| == 16
  }

  lemma TablesSquare()
    ensures Square(SBOX) && Square(INV_SBOX)
  {
  }

  function Lookup(t: seq<seq<u8>>, x: u8): u8
    requires Square(t)
  {
    t[x / 16][x % 16]
  }

  function Sub(x: bv8): bv8 {
    TablesSquare();
    Lookup(SBOX, x as int) as bv8
  }

  function InvSub(x: bv8): bv8 {
    TablesSquare();
    Lookup(INV_SBOX, x as int) as bv8
  }

  /** `t` takes the entry of `s` in row `r`, column `c` back to its index. */
  predicate Undoes(s: seq<seq<u8>>, t: seq<seq<u8>>, r: nat, c: nat)
    requires Square(s) && Square(t) && r < 16 && c < 16
  {
    Lookup(t, s[r][c]) == 16 * r + c
  }

  // Row by row, every entry is found again in the inverse table.

  lemma Row0(s: seq<seq<u8>>, t: seq<seq<u8>>, c: nat)
    requires s == SBOX && t == INV_SBOX && c < 16
    ensures Square(s) && Square(t) && Undoes(s, t, 0, c)
  {
    TablesSquare();
    assert c in {0, 1, 2, 3, 4, 5, 6, 7, 8, 9, 10, 11, 12, 13, 14, 15};
  }

  lemma Row1(s: seq<seq<u8>>, t: seq<seq<u8>>, c: nat)
    requires s == SBOX && t == INV_SBOX && c < 16
    ensures Square(s) && Square(t) && Undoes(s, t, 1, c)
  {
    TablesSquare();
    assert c in {0, 1, 2, 3, 4, 5, 6, 7, 8, 9, 10, 11, 12, 13, 14, 15};
  }

  lemma Row2(s: seq<seq<u8>>, t: seq<seq<u8>>, c: nat)
    requires s == SBOX && t == INV_SBOX && c < 16
    ensures Square(s) && Square(t) && Undoes(s, t, 2, c)
  {
    TablesSquare();
    assert c in {0, 1, 2, 3, 4, 5, 6, 7, 8, 9, 10, 11, 12, 13, 14, 15};
  }

  lemma Row3(s: seq<seq<u8>>, t: seq<seq<u8>>, c: nat)
    requires s == SBOX && t == INV_SBOX && c < 16
    ensures Square(s) && Square(t) && Undoes(s, t, 3, c)
  {
    TablesSquare();
    assert c in {0, 1, 2, 3, 4, 5, 6, 7, 8, 9, 10, 11, 12, 13, 14, 15};
  }

  lemma Row4(s: seq<seq<u8>>, t: seq<seq<u8>>, c: nat)
    requires s == SBOX && t == INV_SBOX && c < 16
    ensures Square(s) && Square(t) && Undoes(s, t, 4, c)
  {
    TablesSquare();
    assert c in {0, 1, 2, 3, 4, 5, 6, 7, 8, 9, 10, 11, 12, 13, 14, 15};
  }

  lemma Row5(s: seq<seq<u8>>, t: seq<seq<u8>>, c: nat)
    requires s == SBOX && t == INV_SBOX && c < 16
    ensures Square(s) && Square(t) && Undoes(s, t, 5, c)
  {
    TablesSquare();
    assert c in {0, 1, 2, 3, 4, 5, 6, 7, 8, 9, 10, 11, 12, 13, 14, 15};
  }

  lemma Row6(s: seq<seq<u8>>, t: seq<seq<u8>>, c: nat)
    requires s == SBOX && t == INV_SBOX && c < 16
    ensures Square(s) && Square(t) && Undoes(s, t, 6, c)
  {
    TablesSquare();
    assert c in {0, 1, 2, 3, 4, 5, 6, 7, 8, 9, 10, 11, 12, 13, 14, 15};
  }

  lemma Row7(s: seq<seq<u8>>, t: seq<seq<u8>>, c: nat)
    requires s == SBOX && t == INV_SBOX && c < 16
    ensures Square(s) && Square(t) && Undoes(s, t, 7, c)
  {
    TablesSquare();
    assert c in {0, 1, 2, 3, 4, 5, 6, 7, 8, 9, 10, 11, 12, 13, 14, 15};
  }

  lemma Row8(s: seq<seq<u8>>, t: seq<seq<u8>>, c: nat)
    requires s == SBOX && t == INV_SBOX && c < 16
    ensures Square(s) && Square(t) && Undoes(s, t, 8, c)
  {
    TablesSquare();
    assert c in {0, 1, 2, 3, 4, 5, 6, 7, 8, 9, 10, 11, 12, 13, 14, 15};
  }

  lemma Row9(s: seq<seq<u8>>, t: seq<seq<u8>>, c: nat)
    requires s == SBOX && t == INV_SBOX && c < 16
    ensures Square(s) && Square(t) && Undoes(s, t, 9, c)
  {
    TablesSquare();
    assert c in {0, 1, 2, 3, 4, 5, 6, 7, 8, 9, 10, 11, 12, 13, 14, 15};
  }

  lemma Rowa(s: seq<seq<u8>>, t: seq<seq<u8>>, c: nat)
    requires s == SBOX && t == INV_SBOX && c < 16
    ensures Square(s) && Square(t) && Undoes(s, t, 10, c)
  {
    TablesSquare();
    assert c in {0, 1, 2, 3, 4, 5, 6, 7, 8, 9, 10, 11, 12, 13, 14, 15};
  }

  lemma Rowb(s: seq<seq<u8>>, t: seq<seq<u8>>, c: nat)
    requires s == SBOX && t == INV_SBOX && c < 16
    ensures Square(s) && Square(t) && Undoes(s, t, 11, c)
  {
    TablesSquare();
    assert c in {0, 1, 2, 3, 4, 5, 6, 7, 8, 9, 10, 11, 12, 13, 14, 15};
  }

  lemma Rowc(s: seq<seq<u8>>, t: seq<seq<u8>>, c: nat)
    requires s == SBOX && t == INV_SBOX && c < 16
    ensures Square(s) && Square(t) && Undoes(s, t, 12, c)
  {
    TablesSquare();
    assert c in {0, 1, 2, 3, 4, 5, 6, 7, 8, 9, 10, 11, 12, 13, 14, 15};
  }

  lemma Rowd(s: seq<seq<u8>>, t: seq<seq<u8>>, c: nat)
    requires s == SBOX && t == INV_SBOX && c < 16
    ensures Square(s) && Square(t) && Undoes(s, t, 13, c)
  {
    TablesSquare();
    assert c in {0, 1, 2, 3, 4, 5, 6, 7, 8, 9, 10, 11, 12, 13, 14, 15};
  }

  lemma Rowe(s: seq<seq<u8>>, t: seq<seq<u8>>, c: nat)
    requires s == SBOX && t == INV_SBOX && c < 16
    ensures Square(s) && Square(t) && Undoes(s, t, 14, c)
  {
    TablesSquare();
    assert c in {0, 1, 2, 3, 4, 5, 6, 7, 8, 9, 10, 11, 12, 13, 14, 15};
  }

  lemma Rowf(s: seq<seq<u8>>, t: seq<seq<u8>>, c: nat)
    requires s == SBOX && t == INV_SBOX && c < 16
    ensures Square(s) && Square(t) && Undoes(s, t, 15, c)
  {
    TablesSquare();
    assert c in {0, 1, 2, 3, 4, 5, 6, 7, 8, 9, 10, 11, 12, 13, 14, 15};
  }

  lemma EntryUndone(r: nat, c: nat)
    requires r < 16 && c < 16
    ensures Square(SBOX) && Square(INV_SBOX) && Undoes(SBOX, INV_SBOX, r, c)
  {
    hide *;
    var s, t := SBOX, INV_SBOX;
    if
    case r == 0 => Row0(s, t, c);
    case r == 1 => Row1(s, t, c);
    case r == 2 => Row2(s, t, c);
    case r == 3 => Row3(s, t, c);
    case r == 4 => Row4(s, t, c);
    case r == 5 => Row5(s, t, c);
    case r == 6 => Row6(s, t, c);
    case r == 7 => Row7(s, t, c);
    case r == 8 => Row8(s, t, c);
    case r == 9 => Row9(s, t, c);
    case r == 10 => Rowa(s, t, c);
    case r == 11 => Rowb(s, t, c);
    case r == 12 => Rowc(s, t, c);
    case r == 13 => Rowd(s, t, c);
    case r == 14 => Rowe(s, t, c);
    case r == 15 => Rowf(s, t, c);
  }

  lemma SubAsInt(x: bv8)
    ensures Square(SBOX) && Sub(x) as int == Lookup(SBOX, x as int)
  {
    hide SBOX, Lookup;
    TablesSquare();
    ByteRoundTrip(Lookup(SBOX, x as int));
  }

  lemma EntryOf(n: u8)
    ensures Square(SBOX) && Square(INV_SBOX) && Lookup(INV_SBOX, Lookup(SBOX, n)) == n
  {
    hide SBOX, INV_SBOX;
    EntryUndone(n / 16, n % 16);
  }

  /** The inverse table undoes the table on every byte. */
  lemma InvSubSub(x: bv8)
    ensures InvSub(Sub(x)) == x
  {
    hide SBOX, INV_SBOX, Lookup, Sub;
    SubAsInt(x);
    EntryOf(x as int);
    ByteBack(x);
  }

  lemma ByteUp(b: bv8)
    requires b < 255
    ensures (b + 1) as int == b as int + 1
  {
  }

  lemma ByteBack(b: bv8)
    ensures (b as int) as bv8 == b
  {
  }

  lemma {:induction false} ByteRoundTrip(v: int)
    requires 0 <= v < 0x100
    ensures (v as bv8) as int == v
    decreases v
  {
    if v > 0 {
      ByteRoundTrip(v - 1);
      var b := (v - 1) as bv8;
      ByteUp(b);
      ByteBack(b + 1);
    }
  }
}

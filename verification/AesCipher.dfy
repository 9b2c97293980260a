/** The AES instructions, and the equivalent inverse cipher built from them. */
module AesCipher {
  import opened AesField
  import opened AesTables
  import opened AesState

  /** What the five instructions compute. */
  function AesEnc(s: State, k: State): State {
    XorState(MixColumns(SubBytes(ShiftRows(s))), k)
  }

  function AesEncLast(s: State, k: State): State {
    XorState(SubBytes(ShiftRows(s)), k)
  }

  function AesDec(s: State, k: State): State {
    XorState(InvMixColumns(InvSubBytes(InvShiftRows(s))), k)
  }

  function AesDecLast(s: State, k: State): State {
    XorState(InvSubBytes(InvShiftRows(s)), k)
  }

  function AesImc(k: State): State {
    InvMixColumns(k)
  }

  /** Encryption rounds with the keys `ks`, in order. */
  function Rounds(s: State, ks: seq<State>): State
    decreases |ks|
  {
    if ks == [] then s else AesEnc(Rounds(s, ks[..|ks| - 1]), ks[|ks| - 1])
  }

  function Encrypt(plain: State, first: State, ks: seq<State>, last: State): State {
    AesEncLast(Rounds(XorState(plain, first), ks), last)
  }

  /** Decryption rounds with the transformed keys, from the last back to the first. */
  function InvRounds(s: State, ks: seq<State>): State
    decreases |ks|
  {
    if ks == [] then s else InvRounds(AesDec(s, AesImc(ks[|ks| - 1])), ks[..|ks| - 1])
  }

  function Decrypt(cipher: State, first: State, ks: seq<State>, last: State): State {
    AesDecLast(InvRounds(XorState(cipher, last), ks), first)
  }

  /** Byte substitution and row shifting, both undone. */
  lemma SubShiftUndone(s: State)
    ensures InvSubBytes(InvShiftRows(SubBytes(ShiftRows(s)))) == s
  {
    hide *;
    SubShiftCommute(s);
    ShiftRowsUndone(SubBytes(s));
    SubBytesUndone(s);
  }

  lemma InvMixColumnLinear(c: Column, d: Column, e: Column)
    requires forall i :: 0 <= i < 4 ==> e[i] == Xor(c[i], d[i])
    ensures forall i :: 0 <= i < 4 ==> InvMixColumn(e)[i] == Xor(InvMixColumn(c)[i], InvMixColumn(d)[i])
  {
    hide Gf, Xor, Xor4;
    forall i | 0 <= i < 4
      ensures Gf(0xE, e[i]) == Xor(Gf(0xE, c[i]), Gf(0xE, d[i])) && Gf(0xB, e[i]) == Xor(Gf(0xB, c[i]), Gf(0xB, d[i]))
      ensures Gf(0xD, e[i]) == Xor(Gf(0xD, c[i]), Gf(0xD, d[i])) && Gf(0x9, e[i]) == Xor(Gf(0x9, c[i]), Gf(0x9, d[i]))
    {
      GfXorRight(0xE, c[i], d[i]);
      GfXorRight(0xB, c[i], d[i]);
      GfXorRight(0xD, c[i], d[i]);
      GfXorRight(0x9, c[i], d[i]);
    }
    Xor4Add(Gf(0xE, c[0]), Gf(0xB, c[1]), Gf(0xD, c[2]), Gf(0x9, c[3]),
            Gf(0xE, d[0]), Gf(0xB, d[1]), Gf(0xD, d[2]), Gf(0x9, d[3]));
    Xor4Add(Gf(0x9, c[0]), Gf(0xE, c[1]), Gf(0xB, c[2]), Gf(0xD, c[3]),
            Gf(0x9, d[0]), Gf(0xE, d[1]), Gf(0xB, d[2]), Gf(0xD, d[3]));
    Xor4Add(Gf(0xD, c[0]), Gf(0x9, c[1]), Gf(0xE, c[2]), Gf(0xB, c[3]),
            Gf(0xD, d[0]), Gf(0x9, d[1]), Gf(0xE, d[2]), Gf(0xB, d[3]));
    Xor4Add(Gf(0xB, c[0]), Gf(0xD, c[1]), Gf(0x9, c[2]), Gf(0xE, c[3]),
            Gf(0xB, d[0]), Gf(0xD, d[1]), Gf(0x9, d[2]), Gf(0xE, d[3]));
  }

  /** Inverse mixing distributes over adding a round key. */
  lemma InvMixColumnsLinear(s: State, k: State)
    ensures InvMixColumns(XorState(s, k)) == XorState(InvMixColumns(s), InvMixColumns(k))
  {
    hide InvMixColumn, Xor;
    var e := XorState(s, k);
    InvMixColumnLinear(Col(s, 0), Col(k, 0), Col(e, 0));
    InvMixColumnLinear(Col(s, 1), Col(k, 1), Col(e, 1));
    InvMixColumnLinear(Col(s, 2), Col(k, 2), Col(e, 2));
    InvMixColumnLinear(Col(s, 3), Col(k, 3), Col(e, 3));
  }

  /** One decryption round undoes one encryption round, one substitution later. */
  lemma DecRoundUndoes(s: State, k: State)
    ensures AesDec(SubBytes(ShiftRows(AesEnc(s, k))), AesImc(k)) == SubBytes(ShiftRows(s))
  {
    hide SubBytes, ShiftRows, InvSubBytes, InvShiftRows, MixColumns, InvMixColumns, XorState;
    var m := MixColumns(SubBytes(ShiftRows(s)));
    var y := XorState(m, k);
    SubShiftUndone(y);
    InvMixColumnsLinear(y, k);
    XorStateTwice(m, k);
    InvMixColumnsUndoes(SubBytes(ShiftRows(s)));
  }

  lemma {:induction false} InvRoundsUndo(s: State, ks: seq<State>)
    ensures InvRounds(SubBytes(ShiftRows(Rounds(s, ks))), ks) == SubBytes(ShiftRows(s))
    decreases |ks|
  {
    hide SubBytes, ShiftRows, AesEnc, AesDec, AesImc;
    if ks != [] {
      var init, k := ks[..|ks| - 1], ks[|ks| - 1];
      DecRoundUndoes(Rounds(s, init), k);
      InvRoundsUndo(s, init);
    }
  }

  /** The equivalent inverse cipher (section 5.3.5 of FIPS 197) recovers every
      plaintext, for any number of rounds and any round keys. */
  lemma DecryptEncrypt(plain: State, first: State, ks: seq<State>, last: State)
    ensures Decrypt(Encrypt(plain, first, ks, last), first, ks, last) == plain
  {
    hide SubBytes, ShiftRows, InvSubBytes, InvShiftRows, XorState, InvRounds, Rounds;
    var s := XorState(plain, first);
    XorStateTwice(SubBytes(ShiftRows(Rounds(s, ks))), last);
    InvRoundsUndo(s, ks);
    SubShiftUndone(s);
    XorStateTwice(plain, first);
  }

  /** The round of section 5.1 of FIPS 197: bytes are substituted before rows
      are shifted. */
  lemma AesEncIsStandardRound(s: State, k: State)
    ensures AesEnc(s, k) == XorState(MixColumns(ShiftRows(SubBytes(s))), k)
  {
    hide *;
    SubShiftCommute(s);
    assert AesEnc(s, k) == XorState(MixColumns(SubBytes(ShiftRows(s))), k) by {
      AesEncDef(s, k);
    }
  }

  /** The other rounds: the last one does not mix columns, and the decryption rounds are
      those of the equivalent inverse cipher (section 5.3.5). */
  lemma OtherRoundsAreStandard(s: State, k: State)
    ensures AesEncLast(s, k) == XorState(ShiftRows(SubBytes(s)), k)
    ensures AesDec(s, k) == XorState(InvMixColumns(InvShiftRows(InvSubBytes(s))), k)
    ensures AesDecLast(s, k) == XorState(InvShiftRows(InvSubBytes(s)), k)
  {
    hide SubBytes, ShiftRows, InvSubBytes, InvShiftRows, InvMixColumns, XorState;
    SubShiftCommute(s);
  }

  lemma AesEncDef(s: State, k: State)
    ensures AesEnc(s, k) == XorState(MixColumns(SubBytes(ShiftRows(s))), k)
  {
  }

  // The transformations of cpu/aes.cc, in place.

  /** Writes the four bytes of column `j`. */
  method StoreColumn(state: array<bv8>, j: nat, c: Column)
    requires state.Length == 16 && j < 4
    modifies state
    ensures state[4 * j] == c[0] && state[4 * j + 1] == c[1] && state[4 * j + 2] == c[2] && state[4 * j + 3] == c[3]
    ensures forall k :: 0 <= k < 16 && !(4 * j <= k < 4 * j + 4) ==> state[k] == old(state[k])
  {
    state[4 * j], state[4 * j + 1], state[4 * j + 2], state[4 * j + 3] := c[0], c[1], c[2], c[3];
  }

  method ShiftRowsInPlace(state: array<bv8>)
    requires state.Length == 16
    modifies state
    ensures state[..] == ShiftRows(old(state[..]))
  {
    var tmp := state[..];
    StoreColumn(state, 0, [tmp[0x0], tmp[0x5], tmp[0xA], tmp[0xF]]);
    StoreColumn(state, 1, [tmp[0x4], tmp[0x9], tmp[0xE], tmp[0x3]]);
    StoreColumn(state, 2, [tmp[0x8], tmp[0xD], tmp[0x2], tmp[0x7]]);
    StoreColumn(state, 3, [tmp[0xC], tmp[0x1], tmp[0x6], tmp[0xB]]);
  }

  method InvShiftRowsInPlace(state: array<bv8>)
    requires state.Length == 16
    modifies state
    ensures state[..] == InvShiftRows(old(state[..]))
  {
    var tmp := state[..];
    StoreColumn(state, 0, [tmp[0x0], tmp[0xD], tmp[0xA], tmp[0x7]]);
    StoreColumn(state, 1, [tmp[0x4], tmp[0x1], tmp[0xE], tmp[0xB]]);
    StoreColumn(state, 2, [tmp[0x8], tmp[0x5], tmp[0x2], tmp[0xF]]);
    StoreColumn(state, 3, [tmp[0xC], tmp[0x9], tmp[0x6], tmp[0x3]]);
  }

  method SubBytesInPlace(state: array<bv8>)
    requires state.Length == 16
    modifies state
    ensures state[..] == SubBytes(old(state[..]))
  {
    hide Sub;
    for i := 0 to 16
      invariant forall k :: 0 <= k < i ==> state[k] == Sub(old(state[k]))
      invariant forall k :: i <= k < 16 ==> state[k] == old(state[k])
    {
      state[i] := Sub(state[i]);
    }
  }

  method InvSubBytesInPlace(state: array<bv8>)
    requires state.Length == 16
    modifies state
    ensures state[..] == InvSubBytes(old(state[..]))
  {
    hide InvSub;
    for i := 0 to 16
      invariant forall k :: 0 <= k < i ==> state[k] == InvSub(old(state[k]))
      invariant forall k :: i <= k < 16 ==> state[k] == old(state[k])
    {
      state[i] := InvSub(state[i]);
    }
  }

  /** gf_mul on two bytes. */
  method GfBytes(a: bv8, b: bv8) returns (r: bv8)
    ensures r == Gf(a, b)
  {
    hide Gf;
    var wide := GfMul(a as bv32, b as bv32);
    r := wide as bv8;
  }

  method MixColumnOf(c: Column) returns (m: Column)
    ensures m == MixColumn(c)
  {
    hide Gf, Xor4;
    var twice0 := GfBytes(2, c[0]);
    var twice1 := GfBytes(2, c[1]);
    var twice2 := GfBytes(2, c[2]);
    var twice3 := GfBytes(2, c[3]);
    var thrice0 := GfBytes(3, c[0]);
    var thrice1 := GfBytes(3, c[1]);
    var thrice2 := GfBytes(3, c[2]);
    var thrice3 := GfBytes(3, c[3]);
    m := [Xor4(twice0, thrice1, c[2], c[3]),
          Xor4(c[0], twice1, thrice2, c[3]),
          Xor4(c[0], c[1], twice2, thrice3),
          Xor4(thrice0, c[1], c[2], twice3)];
  }

  method InvMixTerm(p: bv8, a: bv8, q: bv8, b: bv8, r: bv8, c: bv8, s: bv8, d: bv8) returns (m: bv8)
    ensures m == Xor4(Gf(p, a), Gf(q, b), Gf(r, c), Gf(s, d))
  {
    hide Gf, Xor4;
    var x := GfBytes(p, a);
    var y := GfBytes(q, b);
    var z := GfBytes(r, c);
    var w := GfBytes(s, d);
    m := Xor4(x, y, z, w);
  }

  method InvMixColumnOf(c: Column) returns (m: Column)
    ensures m == InvMixColumn(c)
  {
    hide Gf, Xor4;
    var m0 := InvMixTerm(0xE, c[0], 0xB, c[1], 0xD, c[2], 0x9, c[3]);
    var m1 := InvMixTerm(0x9, c[0], 0xE, c[1], 0xB, c[2], 0xD, c[3]);
    var m2 := InvMixTerm(0xD, c[0], 0x9, c[1], 0xE, c[2], 0xB, c[3]);
    var m3 := InvMixTerm(0xB, c[0], 0xD, c[1], 0x9, c[2], 0xE, c[3]);
    m := [m0, m1, m2, m3];
  }

  method MixColumnsInPlace(state: array<bv8>)
    requires state.Length == 16
    modifies state
    ensures state[..] == MixColumns(old(state[..]))
  {
    hide MixColumn;
    var tmp := state[..];
    for j := 0 to 4
      invariant forall k: nat :: k < j ==> state[4 * k..4 * k + 4] == MixColumn(Col(tmp, k))
    {
      var m := MixColumnOf(Col(tmp, j));
      StoreColumn(state, j, m);
    }
    assert state[..] == state[0..4] + state[4..8] + state[8..12] + state[12..16];
    assert state[4 * 0..4 * 0 + 4] == MixColumn(Col(tmp, 0)) && state[4 * 1..4 * 1 + 4] == MixColumn(Col(tmp, 1));
    assert state[4 * 2..4 * 2 + 4] == MixColumn(Col(tmp, 2)) && state[4 * 3..4 * 3 + 4] == MixColumn(Col(tmp, 3));
  }

  method InvMixColumnsInPlace(state: array<bv8>)
    requires state.Length == 16
    modifies state
    ensures state[..] == InvMixColumns(old(state[..]))
  {
    hide InvMixColumn;
    var tmp := state[..];
    for j := 0 to 4
      invariant forall k: nat :: k < j ==> state[4 * k..4 * k + 4] == InvMixColumn(Col(tmp, k))
    {
      var m := InvMixColumnOf(Col(tmp, j));
      StoreColumn(state, j, m);
    }
    assert state[..] == state[0..4] + state[4..8] + state[8..12] + state[12..16];
    assert state[4 * 0..4 * 0 + 4] == InvMixColumn(Col(tmp, 0)) && state[4 * 1..4 * 1 + 4] == InvMixColumn(Col(tmp, 1));
    assert state[4 * 2..4 * 2 + 4] == InvMixColumn(Col(tmp, 2)) && state[4 * 3..4 * 3 + 4] == InvMixColumn(Col(tmp, 3));
  }

  method XorInPlace(state: array<bv8>, k: State)
    requires state.Length == 16
    modifies state
    ensures state[..] == XorState(old(state[..]), k)
  {
    hide Xor;
    for i := 0 to 16
      invariant forall j :: 0 <= j < i ==> state[j] == Xor(old(state[j]), k[j])
      invariant forall j :: i <= j < 16 ==> state[j] == old(state[j])
    {
      state[i] := Xor(state[i], k[i]);
    }
  }

  // The instructions: read the operands, transform a copy, write the result.

  method LoadOperand(op: State) returns (state: array<bv8>)
    ensures fresh(state) && state.Length == 16 && state[..] == op
  {
    state := new bv8[16](i requires 0 <= i < 16 => op[i]);
  }

  method ExecuteAesEnc(op1: State, op2: State) returns (dst: State)
    ensures dst == AesEnc(op1, op2)
  {
    hide SubBytes, ShiftRows, MixColumns, XorState;
    var state := LoadOperand(op1);
    ShiftRowsInPlace(state);
    SubBytesInPlace(state);
    MixColumnsInPlace(state);
    XorInPlace(state, op2);
    dst := state[..];
  }

  method ExecuteAesEncLast(op1: State, op2: State) returns (dst: State)
    ensures dst == AesEncLast(op1, op2)
  {
    hide SubBytes, ShiftRows, XorState;
    var state := LoadOperand(op1);
    ShiftRowsInPlace(state);
    SubBytesInPlace(state);
    XorInPlace(state, op2);
    dst := state[..];
  }

  method ExecuteAesDec(op1: State, op2: State) returns (dst: State)
    ensures dst == AesDec(op1, op2)
  {
    hide InvSubBytes, InvShiftRows, InvMixColumns, XorState;
    var state := LoadOperand(op1);
    InvShiftRowsInPlace(state);
    InvSubBytesInPlace(state);
    InvMixColumnsInPlace(state);
    XorInPlace(state, op2);
    dst := state[..];
  }

  method ExecuteAesDecLast(op1: State, op2: State) returns (dst: State)
    ensures dst == AesDecLast(op1, op2)
  {
    hide InvSubBytes, InvShiftRows, XorState;
    var state := LoadOperand(op1);
    InvShiftRowsInPlace(state);
    InvSubBytesInPlace(state);
    XorInPlace(state, op2);
    dst := state[..];
  }

  method ExecuteAesImc(op: State) returns (dst: State)
    ensures dst == AesImc(op)
  {
    hide InvMixColumns;
    var state := LoadOperand(op);
    InvMixColumnsInPlace(state);
    dst := state[..];
  }
}

/** What a reader finds in the fields and strings of the SMBIOS structures, and that the
    handles they hold lead to each other. Offsets are those of section 7 of DSP0134. */
module SmbiosFields {
  import opened Machine
  import opened SmbiosParts
  import opened SmbiosTable

  function Ascii(s: string): (b: Bytes)
    requires forall i :: 0 <= i < |s| ==> s[i] as int < 0x80
    ensures |b| == |s| && forall i :: 0 <= i < |s| ==> b[i] == s[i] as int
  {
    seq(|s|, i requires 0 <= i < |s| => s[i] as int)
  }

  /** The position of the first NUL at or behind q. */
  function StringEnd(b: Bytes, q: nat): (e: nat)
    requires q <= |b|
    ensures q <= e <= |b|
    decreases |b| - q
  {
    if q == |b| || b[q] == 0 then q else StringEnd(b, q + 1)
  }

  /** String `n`, counted from one, of the strings from `at` on. */
  function Text(b: Bytes, at: nat, n: nat): Bytes
    requires at <= |b|
    decreases n
  {
    var e := StringEnd(b, at);
    if n <= 1 then b[at..e] else if e == |b| then [] else Text(b, e + 1, n - 1)
  }

  lemma {:induction false} StringEndIs(b: Bytes, q: nat, e: nat)
    requires q <= e < |b| && b[e] == 0 && forall k :: q <= k < e ==> b[k] != 0
    ensures StringEnd(b, q) == e
    decreases e - q
  {
    if q < e {
      StringEndIs(b, q + 1, e);
    }
  }

  lemma TextFrom(b: Bytes, q: nat, e: nat, n: nat)
    requires q <= e < |b| && b[e] == 0 && forall k :: q <= k < e ==> b[k] != 0
    ensures Text(b, q, n) == if n <= 1 then b[q..e] else Text(b, e + 1, n - 1)
  {
    StringEndIs(b, q, e);
  }

  /** The BIOS states its vendor, version and date, and that it fills the memory from its
      starting segment up to 1 MB. */
  lemma BiosInformation()
    ensures var b := Type0();
            && Text(b, b[1], b[4]) == Ascii("The Bochs Project")
            && Text(b, b[1], b[5]) == Ascii("Bochs")
            && Text(b, b[1], b[8]) == Ascii("01/01/2007")
            && Field16(b, 6) * 16 + (b[9] as int + 1) * 0x1_0000 == 0x10_0000
  {
    hide Type0, StringEnd;
    var b := Type0();
    BiosBytes();
    BiosTexts();
    hide Ascii, Text, Field16;
    TextFrom(b, 24, 41, 1);
    TextFrom(b, 24, 41, 2);
    TextFrom(b, 24, 41, 3);
    TextFrom(b, 42, 47, 1);
    TextFrom(b, 42, 47, 2);
    TextFrom(b, 48, 58, 1);
  }

  lemma BiosBytes()
    ensures var b := Type0();
            && b[24..41] == [0x54, 0x68, 0x65, 0x20, 0x42, 0x6f, 0x63, 0x68, 0x73,
                             0x20, 0x50, 0x72, 0x6f, 0x6a, 0x65, 0x63, 0x74]
            && b[42..47] == [0x42, 0x6f, 0x63, 0x68, 0x73]
            && b[48..58] == [0x30, 0x31, 0x2f, 0x30, 0x31, 0x2f, 0x32, 0x30, 0x30, 0x37]
            && b[1] == 24 && b[4] == 1 && b[5] == 2 && b[8] == 3 && b[9] == 1 && b[6] == 0 && b[7] == 0xe0
            && b[41] == 0 && b[47] == 0 && b[58] == 0 && Field16(b, 6) == 0xe000
    ensures forall k :: 24 <= k < 41 || 42 <= k < 47 || 48 <= k < 58 ==> Type0()[k] != 0
  {
    var b := Type0();
    assert forall k :: 24 <= k < 41 ==> b[k] == b[24..41][k - 24];
    assert forall k :: 42 <= k < 47 ==> b[k] == b[42..47][k - 42];
    assert forall k :: 48 <= k < 58 ==> b[k] == b[48..58][k - 48];
  }

  lemma BiosTexts()
    ensures Ascii("The Bochs Project") == [0x54, 0x68, 0x65, 0x20, 0x42, 0x6f, 0x63, 0x68, 0x73,
                                           0x20, 0x50, 0x72, 0x6f, 0x6a, 0x65, 0x63, 0x74]
    ensures Ascii("Bochs") == [0x42, 0x6f, 0x63, 0x68, 0x73]
    ensures Ascii("01/01/2007") == [0x30, 0x31, 0x2f, 0x30, 0x31, 0x2f, 0x32, 0x30, 0x30, 0x37]
  {
  }

  /** The characteristics that the BIOS claims: ISA, PCI, APM, flash, shadowing, boot from
      CD, selectable boot, EDD, the four kinds of floppy services, keyboard, serial and
      printer services. */
  const CLAIMED: set<nat> := {4, 7, 10, 11, 12, 15, 16, 19, 22, 23, 24, 25, 27, 28, 29}

  /** Bit k of a byte. */
  predicate Bit(x: u8, k: nat) {
    x / (if k == 0 then 1 else if k == 1 then 2 else if k == 2 then 4 else if k == 3 then 8
         else if k == 4 then 16 else if k == 5 then 32 else if k == 6 then 64 else 128) % 2 == 1
  }

  /** Bit k of byte j of the characteristics, which stand at offset 10, is set if and only
      if characteristic 8 * j + k is claimed. */
  lemma BiosCharacteristics(j: nat, k: nat)
    requires j < 8 && k < 8
    ensures 8 * j + k in CLAIMED <==> Bit(Type0()[10 + j], k)
  {
    hide Type0, Bit;
    CharacteristicBytes();
    Claims(j, k);
  }

  lemma CharacteristicBytes()
    ensures var b := Type0(); b[10] == 0x90 && b[11] == 0x9c && b[12] == 0xc9 && b[13] == 0x3b
    ensures forall k :: 14 <= k < 18 ==> Type0()[k] == 0
  {
  }

  lemma Claims(j: nat, k: nat)
    requires j < 8 && k < 8
    ensures 8 * j + k in CLAIMED <==>
            Bit(if j == 0 then 0x90 else if j == 1 then 0x9c else if j == 2 then 0xc9 else if j == 3 then 0x3b else 0, k)
  {
    assert k in {0, 1, 2, 3, 4, 5, 6, 7};
  }

  /** The fields that are the same on every platform: kinds, states, strings that are not
      given, and codes for what is unknown. */
  lemma ConstantFields(pf: Platform, uuid: Bytes, devices: nat, mb: nat, i: nat)
    requires |uuid| == 16
    ensures Type0()[18..24] == [1, 0, 1, 0, 0xff, 0xff]
    ensures Type1(uuid)[4..8] == [0, 0, 0, 0] && Type1(uuid)[24..27] == [6, 0, 0]
    ensures Type3()[5] == 1 && Type3()[9] == Type3()[10] == Type3()[11] == 3 && Type3()[12] == 2
    ensures forall k :: k == 4 || 6 <= k < 9 || 13 <= k < 20 ==> Type3()[k] == 0
    ensures Type4(pf, i)[4..8] == [1, 3, 1, 0] && Type4(pf, i)[24..26] == [0x41, 1]
    ensures forall k :: 16 <= k < 24 ==> Type4(pf, i)[k] == 0
    ensures forall k :: 26 <= k < 32 ==> Type4(pf, i)[k] == 0xff
    ensures Type16(mb, devices)[4..7] == [3, 3, 1] && Field16(Type16(mb, devices), 11) == 0xfffe
    ensures Field16(Type17(mb, i), 6) == 0xfffe && Field16(Type17(mb, i), 8) == Field16(Type17(mb, i), 10) == 64
    ensures Type17(mb, i)[14..21] == [9, 0, 1, 0, 7, 0, 0]
    ensures Type19(mb, i)[14] == 1 && Type20(mb, i)[16..19] == [1, 0, 0]
    ensures forall k :: 4 <= k < 11 ==> Type32()[k] == 0
  {
    hide Le32;
  }

  lemma SystemUuid(uuid: Bytes)
    requires |uuid| == 16
    ensures Type1(uuid)[8..24] == uuid
  {
  }

  /** A processor's identity, and its socket's name as long as that is not cut short. */
  lemma ProcessorFields(pf: Platform, cpu: nat)
    ensures var b := Type4(pf, cpu);
            && Field32(b, 8) == pf.cpuSignature && Field32(b, 12) == pf.cpuFeatures
            && b[5] == 3 && b[24] == 0x41
            && (cpu < 208 ==> Text(b, b[1], b[4]) == Ascii("CPU ") + [cpu + 0x30])
  {
    hide Le16, Le32, Field32;
    var b := Type4(pf, cpu);
    assert b[8..12] == Le32(pf.cpuSignature) && b[12..16] == Le32(pf.cpuFeatures);
    Field32At(b, 8, pf.cpuSignature);
    Field32At(b, 12, pf.cpuFeatures);
    if cpu < 208 {
      var t := b[32..];
      assert forall k :: 32 <= k < 39 ==> b[k] == t[k - 32];
      TextFrom(b, 32, 37, 1);
      assert b[32..37] == Ascii("CPU ") + [cpu + 0x30];
    }
  }

  /** The memory array states the capacity in KB and the number of its devices, each in
      the width of its field. */
  lemma ArrayFields(memsize: nat, devices: nat)
    ensures var b := Type16(memsize, devices);
            && Field32(b, 7) == memsize * 1024 % 0x1_0000_0000 && Field16(b, 13) == devices % 0x1_0000
            && b[4] == 3 && b[5] == 3
  {
    hide Le16, Le32, Field16, Field32;
    var b := Type16(memsize, devices);
    assert b[7..11] == Le32(memsize * 1024) && b[13..15] == Le16(devices);
    Field32At(b, 7, memsize * 1024);
    Field16At(b, 13, devices);
  }

  /** The number that decimal digits stand for. */
  function Value(digits: Bytes): int
    decreases |digits|
  {
    if digits == [] then 0 else Value(digits[..|digits| - 1]) * 10 + digits[|digits| - 1] - 0x30
  }

  lemma {:induction false} DecimalReads(n: nat)
    ensures Value(Decimal(n)) == n && (Decimal(n)[0] == 0x30 <==> n == 0)
    ensures |Decimal(n)| <= 2 <==> n < 100
  {
    if n < 10 {
      assert Decimal(n)[..0] == [];
    } else {
      DecimalReads(n / 10);
      assert Decimal(n)[..|Decimal(n)| - 1] == Decimal(n / 10);
      if n < 100 {
        assert |Decimal(n / 10)| == 1;
      } else {
        assert n / 10 >= 10 && |Decimal(n / 10)| >= 2 by {
          TwoDigits(n / 10);
        }
      }
    }
  }

  lemma TwoDigits(n: nat)
    requires n >= 10
    ensures |Decimal(n)| >= 2
  {
  }

  lemma LocatorIs(i: nat)
    ensures var n := |Locator(i)| - 5; n <= |Decimal(i)| && Locator(i) == Ascii("DIMM ") + Decimal(i)[..n]
    ensures |Locator(i)| == if |Decimal(i)| <= 2 then 5 + |Decimal(i)| else 7
  {
    hide Decimal;
    assert Ascii("DIMM ") == [0x44, 0x49, 0x4d, 0x4d, 0x20];
  }

  /** A memory device is named "DIMM" and its number, of which two digits are kept. */
  lemma DeviceName(mb: nat, i: nat)
    ensures var b := Type17(mb, i);
            var name := Text(b, b[1], b[16]);
            && 6 <= |name| <= 7 && |name| - 5 <= |Decimal(i)|
            && name[..5] == Ascii("DIMM ") && name[5..] == Decimal(i)[..|name| - 5]
            && (i < 100 ==> Value(name[5..]) == i)
            && (i >= 100 ==> |name| == 7)
  {
    hide Le16, Decimal, Value, Locator;
    var b := Type17(mb, i);
    var t := b[21..];
    assert forall k :: 21 <= k < |b| ==> b[k] == t[k - 21];
    TextFrom(b, 21, |b| - 2, 1);
    assert b[21..|b| - 2] == Locator(i);
    DecimalReads(i);
    LocatorIs(i);
    if i < 100 {
      assert Decimal(i)[..|Decimal(i)|] == Decimal(i);
    }
  }

  /** The handles that memory structures hold: of the array they belong to, and of the
      device and the range that a device's range stands for. */
  lemma HeldHandles(mb: nat, i: nat)
    ensures Field16(Type17(mb, i), 4) == 0x1000 && Field16(Type19(mb, i), 12) == 0x1000
    ensures Field16(Type20(mb, i), 12) == (0x1100 + i) % 0x1_0000
    ensures Field16(Type20(mb, i), 14) == (0x1300 + i) % 0x1_0000
  {
    hide Le16, Le32, Field16;
    assert Type17(mb, i)[4..6] == Le16(0x1000) && Type19(mb, i)[12..14] == Le16(0x1000);
    assert Type20(mb, i)[12..14] == Le16(0x1100 + i) && Type20(mb, i)[14..16] == Le16(0x1300 + i);
    Field16At(Type17(mb, i), 4, 0x1000);
    Field16At(Type19(mb, i), 12, 0x1000);
    Field16At(Type20(mb, i), 12, 0x1100 + i);
    Field16At(Type20(mb, i), 14, 0x1300 + i);
  }

  /** In the whole table every held handle is that of the structure it should lead to: a
      device's and a range's array, and a device range's device and range. */
  lemma HandlesLead(pf: Platform, i: nat)
    requires |pf.uuid| == 16 && i < NumDevices(pf.memsize)
    ensures var t, owner, device := Table(pf), 3 + pf.cpus, 4 + pf.cpus + 3 * i;
            && device + 2 < |t| && |t[owner]| == 17
            && |t[device]| >= 23 && |t[device + 1]| == 17 && |t[device + 2]| == 21
            && t[owner][0] == 16 && t[device][0] == 17 && t[device + 1][0] == 19 && t[device + 2][0] == 20
            && Field16(t[device], 4) == Field16(t[device + 1], 12) == Field16(t[owner], 2)
            && Field16(t[device + 2], 12) == Field16(t[device], 2)
            && Field16(t[device + 2], 14) == Field16(t[device + 1], 2)
  {
    hide Table, Type16, Type17, Type19, Type20, NumDevices, DeviceMb, Field16;
    var mb := DeviceMb(pf.memsize, i);
    TableParts(pf);
    TableDevice(pf, i, 0);
    TableDevice(pf, i, 1);
    TableDevice(pf, i, 2);
    HeldHandles(mb, i);
    OwnHandles(pf.memsize, NumDevices(pf.memsize), mb, i);
  }

  lemma OwnHandles(memsize: nat, devices: nat, mb: nat, i: nat)
    ensures Field16(Type16(memsize, devices), 2) == 0x1000
    ensures Field16(Type17(mb, i), 2) == (0x1100 + i) % 0x1_0000
    ensures Field16(Type19(mb, i), 2) == (0x1300 + i) % 0x1_0000
    ensures Type16(memsize, devices)[0] == 16 && Type17(mb, i)[0] == 17 && Type19(mb, i)[0] == 19
    ensures Type20(mb, i)[0] == 20
  {
    hide Type16, Type17, Type19, Type20, Field16, Le16;
    HeaderAt(Type16(memsize, devices), 16, 15, 0x1000);
    HeaderAt(Type17(mb, i), 17, 21, 0x1100 + i);
    HeaderAt(Type19(mb, i), 19, 15, 0x1300 + i);
    HeaderAt(Type20(mb, i), 20, 19, 0x1400 + i);
  }

  /** The structures as they stand in the table: each kind where it belongs, with what the
      platform gives it. */
  lemma TableFields(pf: Platform, cpu: nat)
    requires |pf.uuid| == 16
    ensures var t, owner := Table(pf), 3 + pf.cpus;
            && owner < |t| && |t[0]| == 60 && |t[1]| == 29 && |t[owner]| == 17
            && t[0][0] == 0 && t[1][0] == 1 && t[1][8..24] == pf.uuid && t[owner][0] == 16
            && Field32(t[owner], 7) == pf.memsize * 1024 % 0x1_0000_0000
            && Field16(t[owner], 13) == NumDevices(pf.memsize) % 0x1_0000
            && (1 <= cpu <= pf.cpus ==>
                  && |t[2 + cpu]| == 39 && t[2 + cpu][0] == 4
                  && Field32(t[2 + cpu], 8) == pf.cpuSignature && Field32(t[2 + cpu], 12) == pf.cpuFeatures)
  {
    hide Table, Type0, Type1, Type4, Type16, NumDevices, Field16, Field32;
    TableParts(pf);
    SystemUuid(pf.uuid);
    ArrayFields(pf.memsize, NumDevices(pf.memsize));
    HeaderAt(Type0(), 0, 24, 0);
    HeaderAt(Type1(pf.uuid), 1, 27, 0x100);
    HeaderAt(Type16(pf.memsize, NumDevices(pf.memsize)), 16, 15, 0x1000);
    if 1 <= cpu <= pf.cpus {
      TableProcessor(pf, cpu);
      ProcessorFields(pf, cpu);
      HeaderAt(Type4(pf, cpu), 4, 32, 0x400 + cpu);
    }
  }
}

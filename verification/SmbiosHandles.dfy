/** Handles of the SMBIOS structures. */
module SmbiosHandles {
  import opened Arithmetic
  import opened Machine
  import opened SmbiosParts
  import opened SmbiosTable

  /** The handle number that the structure at k is meant to have. */
  function Number(pf: Platform, k: nat): nat
    requires |pf.uuid| == 16 && k < |Table(pf)|
  {
    var d := k - 4 - pf.cpus;
    if k == 0 then 0
    else if k == 1 then 0x100
    else if k == 2 then 0x300
    else if d < -1 then 0x400 + (k - 2)
    else if d == -1 then 0x1000
    else if d < 3 * NumDevices(pf.memsize) then
      (if d % 3 == 0 then 0x1100 else if d % 3 == 1 then 0x1300 else 0x1400) + d / 3
    else if d == 3 * NumDevices(pf.memsize) then 0x2000
    else 0x7f00
  }

  lemma GroupHandle(memsize: nat, i: nat, j: nat)
    requires j < 3
    ensures var s := DeviceGroup(memsize, i)[j];
            && |s| >= 4
            && Field16(s, 2) == ((if j == 0 then 0x1100 else if j == 1 then 0x1300 else 0x1400) + i) % 0x1_0000
  {
    hide Type17, Type19, Type20, DeviceMb, Field16, Header;
    var mb := DeviceMb(memsize, i);
    HeaderAt(Type17(mb, i), 17, 21, 0x1100 + i);
    HeaderAt(Type19(mb, i), 19, 15, 0x1300 + i);
    HeaderAt(Type20(mb, i), 20, 19, 0x1400 + i);
  }

  /** What its handle reads as. */
  lemma HandleAt(pf: Platform, k: nat)
    requires |pf.uuid| == 16 && k < |Table(pf)|
    ensures |Table(pf)[k]| >= 4 && Field16(Table(pf)[k], 2) == Number(pf, k) % 0x1_0000
  {
    hide Table, Type0, Type1, Type3, Type4, Type16, Type32, Type127, DeviceGroup, NumDevices, Field16, Header;
    TableParts(pf);
    var d := k - 4 - pf.cpus;
    if k == 0 {
      HeaderAt(Type0(), 0, 24, 0);
    } else if k == 1 {
      HeaderAt(Type1(pf.uuid), 1, 27, 0x100);
    } else if k == 2 {
      HeaderAt(Type3(), 3, 20, 0x300);
    } else if d < -1 {
      TableProcessor(pf, k - 2);
      HeaderAt(Type4(pf, k - 2), 4, 32, 0x400 + (k - 2));
    } else if d == -1 {
      HeaderAt(Type16(pf.memsize, NumDevices(pf.memsize)), 16, 15, 0x1000);
    } else if d < 3 * NumDevices(pf.memsize) {
      TableDevice(pf, d / 3, d % 3);
      GroupHandle(pf.memsize, d / 3, d % 3);
    } else if d == 3 * NumDevices(pf.memsize) {
      HeaderAt(Type32(), 32, 11, 0x2000);
    } else {
      HeaderAt(Type127(), 127, 4, 0x7f00);
    }
  }

  /** The structure that a handle belongs to, when no two share one. */
  function Owner(pf: Platform, h: nat): int {
    var d := 4 + pf.cpus;
    if h == 0 then 0
    else if h == 0x100 then 1
    else if h == 0x300 then 2
    else if h < 0x1000 then h - 0x400 + 2
    else if h == 0x1000 then d - 1
    else if h < 0x1300 then d + 3 * (h - 0x1100)
    else if h < 0x1400 then d + 3 * (h - 0x1300) + 1
    else if h < 0x2000 then d + 3 * (h - 0x1400) + 2
    else if h == 0x2000 then d + 3 * NumDevices(pf.memsize)
    else d + 3 * NumDevices(pf.memsize) + 1
  }

  predicate Roomy(pf: Platform) {
    pf.cpus < 0xc00 && NumDevices(pf.memsize) <= 0x100
  }

  lemma OwnerOf(pf: Platform, k: nat)
    requires |pf.uuid| == 16 && k < |Table(pf)| && Roomy(pf)
    ensures Number(pf, k) < 0x1_0000 && Owner(pf, Number(pf, k)) == k
  {
    hide Table, NumDevices;
    TableParts(pf);
  }

  ghost predicate UniqueHandles(pf: Platform)
    requires |pf.uuid| == 16
  {
    forall i, k :: 0 <= i < k < |Table(pf)| && |Table(pf)[i]| >= 4 && |Table(pf)[k]| >= 4 ==>
                     Field16(Table(pf)[i], 2) != Field16(Table(pf)[k], 2)
  }

  lemma Shared(pf: Platform, i: nat, k: nat)
    requires |pf.uuid| == 16 && i < k < |Table(pf)| && Number(pf, i) == Number(pf, k)
    ensures !UniqueHandles(pf)
  {
    hide Table, Number, Field16;
    HandleAt(pf, i);
    HandleAt(pf, k);
  }

  /** Handles are unique, as section 6.1.2 of DSP0134 wants them, if and only if there
      are fewer than 3072 processors and at most 4 TB of memory. Beyond that, processor
      3072 takes the handle of the memory array, and the mapped address of device 256
      the one of the first memory device. */
  lemma HandlesUniqueExactly(pf: Platform)
    requires |pf.uuid| == 16
    ensures UniqueHandles(pf) <==> pf.cpus < 0xc00 && pf.memsize <= 0x40_0000
  {
    hide Table, Field16;
    TableParts(pf);
    var d := 4 + pf.cpus;
    if pf.cpus >= 0xc00 {
      Shared(pf, 0xc02, d - 1);
    } else if pf.memsize > 0x40_0000 {
      Shared(pf, d + 2, d + 3 * 0x100 + 1);
    } else {
      forall i, k | 0 <= i < k < |Table(pf)| && |Table(pf)[i]| >= 4 && |Table(pf)[k]| >= 4
        ensures Field16(Table(pf)[i], 2) != Field16(Table(pf)[k], 2)
      {
        HandleAt(pf, i);
        HandleAt(pf, k);
        OwnerOf(pf, i);
        OwnerOf(pf, k);
        ModSmall(Number(pf, i), 0x1_0000);
        ModSmall(Number(pf, k), 0x1_0000);
      }
    }
  }
}

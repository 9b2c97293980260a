/** Where each structure of the SMBIOS table stands. */
module SmbiosParts {
  import opened Machine
  import opened SmbiosTable

  lemma {:induction false} TableCounts(memsize: nat, n: nat, pf: Platform, m: nat)
    ensures |Devices(memsize, n)| == 3 * n && |Processors(pf, m)| == m
    decreases n + m
  {
    if n > 0 {
      TableCounts(memsize, n - 1, pf, m);
    }
    if m > 0 {
      TableCounts(memsize, n, pf, m - 1);
    }
  }

  /** The number of structures, and which one is the last. */
  lemma TableShape(pf: Platform)
    requires |pf.uuid| == 16
    ensures |Table(pf)| == 6 + pf.cpus + 3 * NumDevices(pf.memsize)
    ensures Table(pf)[|Table(pf)| - 1] == Type127()
  {
    hide Processors, Devices;
    TableCounts(pf.memsize, NumDevices(pf.memsize), pf, pf.cpus);
  }

  lemma {:induction false} ProcessorAt(pf: Platform, n: nat, i: nat)
    requires 0 < i <= n
    ensures |Processors(pf, n)| == n && Processors(pf, n)[i - 1] == Type4(pf, i)
  {
    if n > 1 {
      ProcessorAt(pf, n - 1, if i == n then 1 else i);
    }
  }

  lemma {:induction false} DeviceAt(memsize: nat, n: nat, i: nat, j: nat)
    requires i < n && j < 3
    ensures |Devices(memsize, n)| == 3 * n && Devices(memsize, n)[3 * i + j] == DeviceGroup(memsize, i)[j]
  {
    hide DeviceGroup;
    if n > 1 {
      DeviceAt(memsize, n - 1, if i == n - 1 then 0 else i, j);
    }
  }

  lemma TableParts(pf: Platform)
    requires |pf.uuid| == 16
    ensures var t, k := Table(pf), 4 + pf.cpus + 3 * NumDevices(pf.memsize);
            && |t| == k + 2 && t[0] == Type0() && t[1] == Type1(pf.uuid) && t[2] == Type3()
            && t[3 + pf.cpus] == Type16(pf.memsize, NumDevices(pf.memsize)) && t[k] == Type32() && t[k + 1] == Type127()
  {
    hide Processors, Devices, NumDevices, Type0, Type1, Type3, Type16, Type32, Type127;
    TableCounts(pf.memsize, NumDevices(pf.memsize), pf, pf.cpus);
  }

  lemma TableProcessor(pf: Platform, i: nat)
    requires |pf.uuid| == 16 && 0 < i <= pf.cpus
    ensures i + 2 < |Table(pf)| && Table(pf)[i + 2] == Type4(pf, i)
  {
    hide Processors, Devices, NumDevices, Type0, Type1, Type3, Type4, Type16, Type32, Type127;
    ProcessorAt(pf, pf.cpus, i);
    assert Table(pf)[i + 2] == Processors(pf, pf.cpus)[i - 1];
  }

  lemma TableDevice(pf: Platform, i: nat, j: nat)
    requires |pf.uuid| == 16 && i < NumDevices(pf.memsize) && j < 3
    ensures var k := 4 + pf.cpus + 3 * i + j; k < |Table(pf)| && Table(pf)[k] == DeviceGroup(pf.memsize, i)[j]
  {
    hide Processors, Devices, NumDevices, DeviceGroup, Type0, Type1, Type3, Type16, Type32, Type127;
    var n := NumDevices(pf.memsize);
    TableCounts(pf.memsize, n, pf, pf.cpus);
    DeviceAt(pf.memsize, n, i, j);
    assert Table(pf)[4 + pf.cpus + 3 * i + j] == Devices(pf.memsize, n)[3 * i + j];
  }

  lemma GroupShort(memsize: nat, i: nat, j: nat)
    requires j < 3
    ensures |DeviceGroup(memsize, i)[j]| <= 60
  {
    hide DeviceMb;
  }

  /** No structure is longer than the first. */
  lemma Short(pf: Platform, k: nat)
    requires |pf.uuid| == 16 && k < |Table(pf)|
    ensures |Table(pf)[k]| <= 60 && |Table(pf)[0]| == 60
  {
    hide Table, DeviceGroup, NumDevices;
    TableParts(pf);
    var d := k - 4 - pf.cpus;
    if 3 <= k < 3 + pf.cpus {
      TableProcessor(pf, k - 2);
    } else if 0 <= d < 3 * NumDevices(pf.memsize) {
      TableDevice(pf, d / 3, d % 3);
      GroupShort(pf.memsize, d / 3, d % 3);
    }
  }

  lemma HeaderAt(s: Bytes, kind: u8, length: u8, handle: nat)
    requires |s| >= 4 && s[..4] == Header(kind, length, handle)
    ensures s[0] == kind && s[1] == length && Field16(s, 2) == handle % 0x1_0000
  {
    hide Header, Field16, Le16;
    assert s[0] == s[..4][0] && s[1] == s[..4][1] && s[2..4] == s[..4][2..];
    Field16At(s, 2, handle);
  }

  predicate NoneEmpty(ss: seq<Bytes>) {
    forall i :: 0 <= i < |ss| ==> ss[i] != []
  }

  lemma NoneEmptyAppend(a: seq<Bytes>, b: seq<Bytes>)
    requires NoneEmpty(a) && NoneEmpty(b)
    ensures NoneEmpty(a + b)
  {
  }

  lemma {:induction false} ProcessorsNotEmpty(pf: Platform, n: nat)
    ensures NoneEmpty(Processors(pf, n))
  {
    hide Type4;
    if n > 0 {
      ProcessorsNotEmpty(pf, n - 1);
      NoneEmptyAppend(Processors(pf, n - 1), [Type4(pf, n)]);
    }
  }

  lemma {:induction false} DevicesNotEmpty(memsize: nat, n: nat)
    ensures NoneEmpty(Devices(memsize, n))
  {
    hide Type17, Type19, Type20;
    if n > 0 {
      DevicesNotEmpty(memsize, n - 1);
      NoneEmptyAppend(Devices(memsize, n - 1), DeviceGroup(memsize, n - 1));
    }
  }

  lemma {:induction false} FlattenLong(ss: seq<Bytes>)
    requires NoneEmpty(ss)
    ensures |ss| <= |Flatten(ss)|
  {
    if ss != [] {
      FlattenLong(ss[1..]);
    }
  }

  /** A table has no more structures than bytes. */
  lemma FewStructures(pf: Platform)
    requires |pf.uuid| == 16
    ensures 0 < |Table(pf)| <= |Flatten(Table(pf))|
  {
    hide Processors, Devices, NumDevices, Flatten, Type0, Type1, Type3, Type16, Type32, Type127;
    ProcessorsNotEmpty(pf, pf.cpus);
    DevicesNotEmpty(pf.memsize, NumDevices(pf.memsize));
    FlattenLong(Table(pf));
  }
}

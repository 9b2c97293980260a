/** What a reader of the emitted SMBIOS table finds. */
module SmbiosWalk {
  import opened Arithmetic
  import opened Machine
  import opened SmbiosParts
  import opened SmbiosTable
  import opened Wrappers

  lemma {:induction false} EndOfIs(b: Bytes, q: nat, e: nat)
    requires q <= e && e + 2 <= |b| && b[e] == 0 && b[e + 1] == 0
    requires forall k :: q <= k < e ==> b[k] != 0 || b[k + 1] != 0
    ensures EndOf(b, q) == e + 2
    decreases e - q
  {
    if q < e {
      EndOfIs(b, q + 1, e);
    }
  }

  lemma {:induction false} EndOfAtMost(b: Bytes, q: nat, e: nat)
    requires q <= e && e + 2 <= |b| && b[e] == 0 && b[e + 1] == 0
    ensures EndOf(b, q) <= e + 2
    decreases e - q
  {
    if q < e {
      EndOfAtMost(b, q + 1, e);
    }
  }

  lemma FixedClosed(pf: Platform, devices: nat)
    requires |pf.uuid| == 16
    ensures Closed(Type0()) && Closed(Type1(pf.uuid)) && Closed(Type3())
    ensures Closed(Type16(pf.memsize, devices)) && Closed(Type32()) && Closed(Type127())
  {
    EndOfIs(Type0(), 24, 58);
  }

  /** A processor's structure is closed unless its number makes a NUL character. */
  lemma ProcessorClosed(pf: Platform, cpu: nat)
    ensures Closed(Type4(pf, cpu)) <==> (cpu + 0x30) % 256 != 0
  {
    hide EndOf;
    var s := Type4(pf, cpu);
    var t := s[32..];
    assert forall k :: 32 <= k < 39 ==> s[k] == t[k - 32];
    if (cpu + 0x30) % 256 != 0 {
      EndOfIs(s, 32, 37);
    } else {
      EndOfAtMost(s, 32, 36);
    }
  }

  lemma DeviceClosed(memsize: nat, i: nat)
    ensures AllClosed(DeviceGroup(memsize, i))
  {
    var s := Type17(DeviceMb(memsize, i), i);
    var t := s[21..];
    assert forall k :: 21 <= k < |s| ==> s[k] == t[k - 21];
    EndOfIs(s, 21, |s| - 2);
  }

  lemma AllClosedAppend(a: seq<Bytes>, b: seq<Bytes>)
    ensures AllClosed(a + b) <==> AllClosed(a) && AllClosed(b)
  {
    hide Closed;
    assert forall i :: 0 <= i < |a| ==> (a + b)[i] == a[i];
    assert forall i :: 0 <= i < |b| ==> (a + b)[|a| + i] == b[i];
  }

  lemma {:induction false} ProcessorsClosed(pf: Platform, n: nat)
    ensures AllClosed(Processors(pf, n)) <==> n < 208
  {
    hide Closed, Type4;
    if n > 0 {
      ProcessorsClosed(pf, n - 1);
      ProcessorClosed(pf, n);
      AllClosedAppend(Processors(pf, n - 1), [Type4(pf, n)]);
      assert AllClosed([Type4(pf, n)]) <==> Closed(Type4(pf, n)) by {
        assert [Type4(pf, n)][0] == Type4(pf, n);
      }
    }
  }

  lemma {:induction false} DevicesClosed(memsize: nat, n: nat)
    ensures AllClosed(Devices(memsize, n))
  {
    hide Closed, DeviceGroup;
    if n > 0 {
      DevicesClosed(memsize, n - 1);
      DeviceClosed(memsize, n - 1);
      AllClosedAppend(Devices(memsize, n - 1), DeviceGroup(memsize, n - 1));
    }
  }

  lemma TableClosed(pf: Platform)
    requires |pf.uuid| == 16
    ensures AllClosed(Table(pf)) <==> pf.cpus < 208
  {
    hide Closed, Processors, Devices, Type0, Type1, Type3, Type16, Type32, Type127;
    var n := NumDevices(pf.memsize);
    var a, b, c := [Type0(), Type1(pf.uuid), Type3()], [Type16(pf.memsize, n)], [Type32(), Type127()];
    FixedClosed(pf, n);
    ProcessorsClosed(pf, pf.cpus);
    DevicesClosed(pf.memsize, n);
    AllClosedAppend(a, Processors(pf, pf.cpus));
    AllClosedAppend(a + Processors(pf, pf.cpus), b);
    AllClosedAppend(a + Processors(pf, pf.cpus) + b, Devices(pf.memsize, n));
    AllClosedAppend(a + Processors(pf, pf.cpus) + b + Devices(pf.memsize, n), c);
  }

  /** The part of a table that a 16-bit length reaches. */
  function Reached(b: Bytes): (r: Bytes)
    ensures |b| < 0x1_0000 ==> r == b
    ensures |b| >= 0x1_0000 ==> |r| < |b|
    ensures |r| == |b| % 0x1_0000 && r == b[..|r|]
  {
    b[..|b| % 0x1_0000]
  }

  /** Read back through the 16-bit length field, the table comes apart into exactly
      the structures emitted if and only if it fits that field and there are fewer
      than 208 processors. */
  lemma ReaderFindsTable(pf: Platform)
    requires |pf.uuid| == 16
    ensures Walk(Reached(Flatten(Table(pf)))) == Some(Table(pf))
            <==> |Flatten(Table(pf))| < 0x1_0000 && pf.cpus < 208
  {
    hide Walk, Table, Closed, Reached;
    var b := Flatten(Table(pf));
    if |b| < 0x1_0000 {
      WalkExactly(Table(pf));
      TableClosed(pf);
    } else {
      WalkReadsAll(Reached(b));
    }
  }

  /** With 208 processors the last of them loses its final byte to the memory array
      behind it, which then reads as another BIOS information structure. */
  function Misread(pf: Platform): seq<Bytes>
    requires |pf.uuid| == 16
  {
    var n := NumDevices(pf.memsize);
    [Type0(), Type1(pf.uuid), Type3()] + Processors(pf, 207) + [Type4(pf, 208)[..38], [0] + Type16(pf.memsize, n)]
    + (Devices(pf.memsize, n) + [Type32(), Type127()])
  }

  /** That is what the reader finds: as many structures, the last of type 127, but not
      the ones emitted. */
  lemma MisreadAt208(pf: Platform)
    requires |pf.uuid| == 16 && pf.cpus == 208
    ensures Walk(Flatten(Table(pf))) == Some(Misread(pf)) && Misread(pf) != Table(pf)
    ensures |Misread(pf)| == |Table(pf)| && Misread(pf)[|Table(pf)| - 1] == Type127()
  {
    hide Processors, Devices, NumDevices, Type0, Type1, Type3, Type4, Type16, Type32, Type127, Flatten, Closed, Walk;
    var n := NumDevices(pf.memsize);
    var head := [Type0(), Type1(pf.uuid), Type3()] + Processors(pf, 207);
    var tail := Devices(pf.memsize, n) + [Type32(), Type127()];
    var last, memory := Type4(pf, 208), Type16(pf.memsize, n);
    TableCounts(pf.memsize, n, pf, 207);
    ProcessorsNext(pf, 208);
    assert Table(pf) == head + [last, memory] + tail;
    assert Misread(pf)[210] == last[..38] && Table(pf)[210] == last;
    Regrouped(head, last, memory, tail);
    FixedClosed(pf, n);
    ProcessorsClosed(pf, 207);
    DevicesClosed(pf.memsize, n);
    CutClosed(pf, memory);
    AllClosedAppend([Type0(), Type1(pf.uuid), Type3()], Processors(pf, 207));
    AllClosedAppend(Devices(pf.memsize, n), [Type32(), Type127()]);
    AllClosedAppend(head, [last[..38], [0] + memory]);
    AllClosedAppend(head + [last[..38], [0] + memory], tail);
    WalkExactly(Misread(pf));
  }

  lemma ProcessorsNext(pf: Platform, n: nat)
    requires n > 0
    ensures Processors(pf, n) == Processors(pf, n - 1) + [Type4(pf, n)]
  {
  }

  /** Moving one byte from a structure to the next leaves the bytes the same. */
  lemma Regrouped(head: seq<Bytes>, s: Bytes, t: Bytes, tail: seq<Bytes>)
    requires |s| == 39 && s[38] == 0
    ensures Flatten(head + [s[..38], [0] + t] + tail) == Flatten(head + [s, t] + tail)
  {
    hide Flatten;
    FlattenAppend(head, [s, t]);
    FlattenAppend(head + [s, t], tail);
    FlattenAppend(head, [s[..38], [0] + t]);
    FlattenAppend(head + [s[..38], [0] + t], tail);
    FlattenTwo(s, t);
    FlattenTwo(s[..38], [0] + t);
    assert s + t == s[..38] + ([0] + t);
  }

  lemma FlattenTwo(s: Bytes, t: Bytes)
    ensures Flatten([s, t]) == s + t
  {
    assert [s, t][1..] == [t] && [t][1..] == [];
    assert Flatten([t]) == t + Flatten([]);
  }

  lemma CutClosed(pf: Platform, memory: Bytes)
    requires |memory| == 17 && memory[0] == 16 && memory[15] == 0 && memory[16] == 0
    ensures Type4(pf, 208)[38] == 0
    ensures Closed(Type4(pf, 208)[..38]) && Closed([0] + memory)
  {
    hide EndOf;
    var s := Type4(pf, 208);
    var t := s[32..];
    assert forall k :: 32 <= k < 39 ==> s[k] == t[k - 32];
    EndOfIs(s[..38], 32, 36);
    EndOfIs([0] + memory, 16, 16);
  }

  /** The total of the sizes that the memory devices state, in MB. */
  function TotalMb(memsize: nat, n: nat): nat {
    if n == 0 then 0 else TotalMb(memsize, n - 1) + Field16(Type17(DeviceMb(memsize, n - 1), n - 1), 12)
  }

  lemma DeviceMbFits(memsize: nat, i: nat)
    ensures 0 < DeviceMb(memsize, i) <= 0x4000
  {
  }

  lemma TotalNext(memsize: nat, n: nat)
    requires n > 0
    ensures TotalMb(memsize, n) == TotalMb(memsize, n - 1) + DeviceMb(memsize, n - 1)
  {
    hide Type17, Field16, DeviceMb;
    var mb := DeviceMb(memsize, n - 1);
    DeviceMbFits(memsize, n - 1);
    ModSmall(mb, 0x1_0000);
    DeviceFields(mb, n - 1);
  }

  lemma {:induction false} FullDevices(memsize: nat, n: nat)
    requires n < NumDevices(memsize)
    ensures TotalMb(memsize, n) == n * 0x4000
  {
    if n > 0 {
      hide TotalMb;
      FullDevices(memsize, n - 1);
      TotalNext(memsize, n);
    }
  }

  /** The devices state the whole memory between them. */
  lemma SizesCoverMemory(memsize: nat)
    ensures TotalMb(memsize, NumDevices(memsize)) == memsize
  {
    var n := NumDevices(memsize);
    if n > 0 {
      hide TotalMb;
      FullDevices(memsize, n - 1);
      TotalNext(memsize, n);
      LastDevice(memsize);
    }
  }

  function StartKb(memsize: nat, i: nat): nat {
    Field32(Type19(DeviceMb(memsize, i), i), 4)
  }

  function EndKb(memsize: nat, i: nat): nat {
    Field32(Type19(DeviceMb(memsize, i), i), 8)
  }

  /** A device's range starts where the one before ended, and the last one ends where
      the memory does. */
  predicate InPlace(memsize: nat, i: nat) {
    && StartKb(memsize, i) == (if i == 0 then 0 else EndKb(memsize, i - 1) + 1)
    && (i + 1 == NumDevices(memsize) ==> EndKb(memsize, i) + 1 == memsize * 1024)
  }

  /** The mapped ranges follow one another from address 0 to the end of memory. */
  predicate Tiled(memsize: nat) {
    forall i: nat :: i < NumDevices(memsize) ==> InPlace(memsize, i)
  }

  lemma RangeOf(memsize: nat, i: nat)
    requires i < NumDevices(memsize) && i < 256
    ensures StartKb(memsize, i) == i * 0x100_0000
    ensures EndKb(memsize, i) == i * 0x100_0000 + DeviceMb(memsize, i) * 1024 - 1
  {
    hide StartKb, EndKb;
    DeviceMbFits(memsize, i);
    StartIs(memsize, i);
  }

  lemma LastDevice(memsize: nat)
    requires memsize > 0
    ensures var n := NumDevices(memsize); n > 0 && (n - 1) * 0x4000 + DeviceMb(memsize, n - 1) == memsize
  {
  }

  lemma WithinReach(memsize: nat, i: nat)
    requires memsize <= 0x40_0000 && i < NumDevices(memsize)
    ensures InPlace(memsize, i)
  {
    hide StartKb, EndKb;
    RangeOf(memsize, i);
    LastDevice(memsize);
    if i > 0 {
      RangeOf(memsize, i - 1);
    }
  }

  lemma BeyondReach(memsize: nat)
    requires memsize > 0x40_0000
    ensures 256 < NumDevices(memsize) && !InPlace(memsize, 256)
  {
    hide StartKb, EndKb;
    StartIs(memsize, 256);
  }

  /** They do so if and only if there is no more memory than 32-bit KB addresses
      reach, which is 4 TB. */
  lemma TiledExactly(memsize: nat)
    ensures Tiled(memsize) <==> memsize <= 0x40_0000
    ensures forall i: nat :: Field32(Type20(DeviceMb(memsize, i), i), 4) == StartKb(memsize, i)
                             && Field32(Type20(DeviceMb(memsize, i), i), 8) == EndKb(memsize, i)
  {
    hide StartKb, EndKb, InPlace, Type20;
    if memsize <= 0x40_0000 {
      forall i: nat | i < NumDevices(memsize) ensures InPlace(memsize, i) {
        WithinReach(memsize, i);
      }
    } else {
      BeyondReach(memsize);
    }
    forall i: nat
      ensures Field32(Type20(DeviceMb(memsize, i), i), 4) == StartKb(memsize, i)
      ensures Field32(Type20(DeviceMb(memsize, i), i), 8) == EndKb(memsize, i)
    {
      StartIs(memsize, i);
    }
  }

  lemma StartIs(memsize: nat, i: nat)
    ensures StartKb(memsize, i) == First(i) == Field32(Type20(DeviceMb(memsize, i), i), 4)
    ensures EndKb(memsize, i) == Last(DeviceMb(memsize, i), i) == Field32(Type20(DeviceMb(memsize, i), i), 8)
  {
    hide Type19, Type20, Field32;
    DeviceFields(DeviceMb(memsize, i), i);
  }
}

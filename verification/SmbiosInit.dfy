/** Writing the SMBIOS table and its entry point into memory. */
module SmbiosInit {
  import opened Arithmetic
  import opened Machine
  import opened SmbiosTable
  import opened Wrappers
  import opened SmbiosParts
  import opened SmbiosWalk

  const ENTRY_SIZE := 31

  function ByteSum(s: Bytes): nat
    decreases |s|
  {
    if s == [] then 0 else ByteSum(s[..|s| - 1]) + s[|s| - 1]
  }

  lemma ByteSumNothing()
    ensures ByteSum([]) == 0
  {
  }

  lemma ByteSumLast(s: Bytes, b: u8, t: Bytes)
    requires t == s + [b]
    ensures ByteSum(t) == ByteSum(s) + b
  {
    assert t[..|t| - 1] == s;
  }

  lemma {:induction false} ByteSumUpdate(s: Bytes, i: nat, b: u8)
    requires i < |s|
    ensures ByteSum(s[i := b]) == ByteSum(s) - s[i] + b
    decreases |s|
  {
    var init := s[..|s| - 1];
    if i < |init| {
      ByteSumUpdate(init, i, b);
      assert s[i := b][..|s| - 1] == init[i := b];
    } else {
      assert s[i := b][..|s| - 1] == init;
    }
  }

  /** The entry point before its two checksums are filled in. */
  function Raw(maxSize: nat, length: nat, address: nat, count: nat): (b: Bytes)
    ensures |b| == ENTRY_SIZE && b[4] == 0 && b[21] == 0
    ensures b[..4] == [0x5f, 0x53, 0x4d, 0x5f] && b[16..21] == [0x5f, 0x44, 0x4d, 0x49, 0x5f]
    ensures b[5..8] == [0x1f, 2, 4] && b[10..16] == [0, 0, 0, 0, 0, 0] && b[30] == 0x24
    ensures b[8..10] == Le16(maxSize) && b[22..24] == Le16(length)
    ensures b[24..28] == Le32(address) && b[28..30] == Le16(count)
  {
    var b := [0x5f, 0x53, 0x4d, 0x5f, 0, 0x1f, 2, 4] + Le16(maxSize) + [0, 0, 0, 0, 0, 0]
             + [0x5f, 0x44, 0x4d, 0x49, 0x5f, 0] + Le16(length) + Le32(address) + Le16(count) + [0x24];
    assert b[8..10] == Le16(maxSize) && b[22..24] == Le16(length);
    assert b[24..28] == Le32(address) && b[28..30] == Le16(count);
    b
  }

  function Balance(s: Bytes): u8 {
    Byte(0 - ByteSum(s))
  }

  function EntryPoint(maxSize: nat, length: nat, address: nat, count: nat): (b: Bytes)
    ensures |b| == ENTRY_SIZE
  {
    var b := Raw(maxSize, length, address, count);
    b[4 := Balance(b[..16])][21 := Balance(b[16..])]
  }

  /** The constant fields: both anchors, the length of the entry point, version 2.4 with
      entry point revision 0 and nothing in the formatted area, and the revision in BCD. */
  predicate Marked(b: Bytes) {
    && |b| == ENTRY_SIZE
    && b[..4] == ['_' as u8, 'S' as u8, 'M' as u8, '_' as u8]
    && b[16..21] == ['_' as u8, 'D' as u8, 'M' as u8, 'I' as u8, '_' as u8]
    && b[5] as int == |b| && b[6] == 2 && b[7] == 4 && b[10..16] == [0, 0, 0, 0, 0, 0] && b[30] == 0x24
  }

  /** The first sixteen bytes sum to zero, and so do the rest; the counts read back
      from it are those of the table, in sixteen bits. */
  lemma EntryPointBalances(maxSize: nat, length: nat, address: nat, count: nat)
    ensures var b := EntryPoint(maxSize, length, address, count);
            && ByteSum(b[..16]) % 256 == 0 && ByteSum(b[16..]) % 256 == 0
            && Marked(b) && Field16(b, 8) == maxSize % 0x1_0000
            && Field16(b, 22) == length % 0x1_0000 && Field16(b, 28) == count % 0x1_0000
            && Field32(b, 24) == address % 0x1_0000_0000
  {
    hide Raw, ByteSum, Field16, Field32, Le16, Le32;
    var r, b := Raw(maxSize, length, address, count), EntryPoint(maxSize, length, address, count);
    assert b[..16] == r[..16][4 := Balance(r[..16])];
    assert b[16..] == r[16..][5 := Balance(r[16..])];
    ByteSumUpdate(r[..16], 4, Balance(r[..16]));
    ByteSumUpdate(r[16..], 5, Balance(r[16..]));
    assert b[..4] == r[..4] && b[5..8] == r[5..8] && b[10..16] == r[10..16] && b[16..21] == r[16..21];
    assert b[5] == b[5..8][0] && b[6] == b[5..8][1] && b[7] == b[5..8][2];
    assert b[8..10] == r[8..10] && b[22..24] == r[22..24] && b[24..28] == r[24..28] && b[28..30] == r[28..30];
    Field16At(b, 8, maxSize);
    Field16At(b, 22, length);
    Field32At(b, 24, address);
    Field16At(b, 28, count);
  }

  function MaxSize(ss: seq<Bytes>): nat
    decreases |ss|
  {
    if ss == [] then 0
    else
      var m := MaxSize(ss[..|ss| - 1]);
      if |ss[|ss| - 1]| > m then |ss[|ss| - 1]| else m
  }

  lemma {:induction false} MaxSizeIsLargest(ss: seq<Bytes>)
    ensures forall i :: 0 <= i < |ss| ==> |ss[i]| <= MaxSize(ss)
    ensures ss != [] ==> exists i :: 0 <= i < |ss| && |ss[i]| == MaxSize(ss)
    decreases |ss|
  {
    if ss != [] {
      var init := ss[..|ss| - 1];
      MaxSizeIsLargest(init);
      if init != [] {
        var i :| 0 <= i < |init| && |init[i]| == MaxSize(init);
        assert |ss[i]| == MaxSize(init) && |ss[|ss| - 1]| >= 0;
      }
    }
  }

  /** What the fields of an entry point say about the table at `address`: where it is, how
      long, how many structures it has, and the size of the largest of them. */
  ghost predicate Describes(b: Bytes, table: seq<Bytes>, address: nat) {
    && Marked(b) && ByteSum(b[..16]) % 256 == 0 && ByteSum(b[16..]) % 256 == 0
    && (forall k :: 0 <= k < |table| ==> |table[k]| <= Field16(b, 8))
    && (exists k :: 0 <= k < |table| && |table[k]| == Field16(b, 8))
    && Field16(b, 22) == |Flatten(table)| % 0x1_0000
    && Field32(b, 24) == address % 0x1_0000_0000
    && Field16(b, 28) == |table| % 0x1_0000
  }

  lemma EntryPointDescribes(pf: Platform, address: nat)
    requires |pf.uuid| == 16
    ensures var t := Table(pf); Describes(EntryPoint(MaxSize(t), |Flatten(t)|, address, |t|), t, address)
  {
    hide Table, Flatten, MaxSize, EntryPoint, Field16, Field32, ByteSum, Marked;
    var t := Table(pf);
    EntryPointBalances(MaxSize(t), |Flatten(t)|, address, |t|);
    MaxSizeIsLargest(t);
    TableParts(pf);
    var i :| 0 <= i < |t| && |t[i]| == MaxSize(t);
    Short(pf, i);
    ModSmall(MaxSize(t), 0x1_0000);
  }

  /** Adding the next structure of a table. */
  lemma FlattenNext(ss: seq<Bytes>, k: nat)
    requires k < |ss|
    ensures Flatten(ss[..k + 1]) == Flatten(ss[..k]) + ss[k]
    ensures |Flatten(ss[..k + 1])| <= |Flatten(ss)|
  {
    assert ss[..k + 1] == ss[..k] + [ss[k]] && ss == ss[..k + 1] + ss[k + 1..];
    FlattenAppend(ss[..k], [ss[k]]);
    FlattenAppend(ss[..k + 1], ss[k + 1..]);
    assert Flatten([ss[k]]) == ss[k] + Flatten([]);
  }

  lemma MaxSizeNext(ss: seq<Bytes>, k: nat)
    requires k < |ss|
    ensures MaxSize(ss[..k + 1]) == if |ss[k]| > MaxSize(ss[..k]) then |ss[k]| else MaxSize(ss[..k])
  {
    assert ss[..k + 1][..k] == ss[..k];
  }

  /** The BIOS's memory and the address where its next table goes. */
  class Bios {
    const mem: array<u8>
    var tableCurAddr: nat
    var p: nat
    var nrStructs: nat
    var maxStructSize: nat

    constructor (mem: array<u8>, tableCurAddr: nat)
      ensures this.mem == mem && this.tableCurAddr == tableCurAddr
    {
      this.mem, this.tableCurAddr := mem, tableCurAddr;
      p, nrStructs, maxStructSize := 0, 0, 0;
    }

    /** The first k structures of the table stand from `base` on. */
    ghost predicate Written(base: nat, table: seq<Bytes>, k: nat)
      reads this, mem
    {
      && k <= |table| && nrStructs == k && maxStructSize == MaxSize(table[..k])
      && base <= p <= mem.Length && mem[base..p] == Flatten(table[..k])
      && base + |Flatten(table)| <= mem.Length
    }

    method Copy(at: nat, s: Bytes)
      requires at + |s| <= mem.Length
      modifies mem
      ensures mem[..at] == old(mem[..at]) && mem[at..at + |s|] == s && mem[at + |s|..] == old(mem[at + |s|..])
    {
      for i := 0 to |s|
        invariant mem[..at] == old(mem[..at]) && mem[at..at + i] == s[..i] && mem[at + |s|..] == old(mem[at + |s|..])
      {
        mem[at + i] := s[i];
        assert mem[at..at + i + 1] == mem[at..at + i] + [s[i]];
      }
    }

    /** Emits one structure, counts it and keeps the largest size. */
    method AddStruct(s: Bytes, ghost base: nat, ghost table: seq<Bytes>, ghost k: nat)
      requires Written(base, table, k) && k < |table| && s == table[k]
      modifies this`p, this`nrStructs, this`maxStructSize, mem
      ensures Written(base, table, k + 1)
      ensures mem[..base] == old(mem[..base])
      ensures forall i :: base + |Flatten(table)| <= i < mem.Length ==> mem[i] == old(mem[i])
    {
      hide Flatten, MaxSize;
      FlattenNext(table, k);
      MaxSizeNext(table, k);
      label Before:
      Copy(p, s);
      assert mem[base..p] == old@Before(mem[base..p]) by {
        assert mem[..p][base..] == old@Before(mem[..p])[base..];
      }
      assert mem[base..p + |s|] == mem[base..p] + mem[p..p + |s|];
      assert mem[..base] == mem[..p][..base];
      forall i | base + |Flatten(table)| <= i < mem.Length ensures mem[i] == old(mem[i]) {
        assert mem[p + |s|..][i - p - |s|] == old(mem[p + |s|..])[i - p - |s|];
      }
      nrStructs := nrStructs + 1;
      if |s| > maxStructSize {
        maxStructSize := |s|;
      }
      p := p + |s|;
    }

    /** Fills in the entry point at `start`, then sums it up twice. */
    method EntryPointInit(start: nat, maxSize: nat, length: nat, address: nat, count: nat)
      requires start + ENTRY_SIZE <= mem.Length
      modifies mem
      ensures mem[start..start + ENTRY_SIZE] == EntryPoint(maxSize, length, address, count)
      ensures mem[..start] == old(mem[..start]) && mem[start + ENTRY_SIZE..] == old(mem[start + ENTRY_SIZE..])
    {
      hide ByteSum, Raw;
      ghost var r := Raw(maxSize, length, address, count);
      Copy(start, Raw(maxSize, length, address, count));
      assert mem[start..start + 16] == mem[start..start + ENTRY_SIZE][..16] == r[..16];
      var sum := Complement(start, 16);
      mem[start + 4] := sum;
      assert mem[start..start + ENTRY_SIZE] == r[4 := Balance(r[..16])];
      assert mem[start + 16..start + ENTRY_SIZE] == r[16..];
      sum := Complement(start + 16, ENTRY_SIZE - 16);
      mem[start + 21] := sum;
    }

    method Complement(at: nat, n: nat) returns (sum: u8)
      requires at + n <= mem.Length
      ensures sum == Balance(mem[at..at + n])
    {
      hide ByteSum, Byte;
      assert mem[at..at + 0] == [];
      ByteSumNothing();
      ByteLaws(0, 0);
      sum := 0;
      for i := 0 to n
        invariant sum == Byte(ByteSum(mem[at..at + i]))
      {
        ByteSumLast(mem[at..at + i], mem[at + i], mem[at..at + i + 1]);
        ByteLaws(ByteSum(mem[at..at + i]), mem[at + i]);
        sum := Byte((sum as int) + mem[at + i]);
      }
      ByteLaws(ByteSum(mem[at..at + n]), 0);
      sum := Byte(0 - (sum as int));
    }

    /** Writes the whole table behind its entry point. */
    method SmbiosInit(pf: Platform)
      requires |pf.uuid| == 16 && mem.Length <= 0x1_0000_0000
      requires Aligned(tableCurAddr) + ENTRY_SIZE + |Flatten(Table(pf))| <= mem.Length
      modifies this, mem
      ensures var start, table := Aligned(old(tableCurAddr)), Table(pf);
              var base := start + ENTRY_SIZE;
              var end := base + |Flatten(table)|;
              && start % 16 == 0 && old(tableCurAddr) <= start < old(tableCurAddr) + 16
              && tableCurAddr == end
              && mem[start..base] == EntryPoint(MaxSize(table), |Flatten(table)|, base, |table|)
              && mem[base..end] == Flatten(table)
              && mem[..start] == old(mem[..])[..start] && mem[end..] == old(mem[..])[end..]
      ensures var start, table := Aligned(old(tableCurAddr)), Table(pf);
              ReadTable(mem[..], start) == Some(table) && Field16(mem[start..start + ENTRY_SIZE], 28) == |table|
              <==> |Flatten(table)| < 0x1_0000 && pf.cpus < 208
      ensures var start := Aligned(old(tableCurAddr));
              Describes(mem[start..start + ENTRY_SIZE], Table(pf), start + ENTRY_SIZE)
    {
      hide Flatten, Table, MaxSize, EntryPoint, NumDevices, ReadTable, Field16, Describes;
      AlignedLeast(tableCurAddr);
      tableCurAddr := Aligned(tableCurAddr);
      var start := tableCurAddr;
      ghost var base, table := start + ENTRY_SIZE, Table(pf);
      p, nrStructs, maxStructSize := start + ENTRY_SIZE, 0, 0;
      AddAll(pf, base);
      assert table[..|table|] == table;
      ghost var emitted := mem[..];
      EntryPointInit(start, maxStructSize, p - start - ENTRY_SIZE, start + ENTRY_SIZE, nrStructs);
      assert mem[base..p] == mem[base..][..p - base] == emitted[base..][..p - base] == emitted[base..p];
      assert mem[p..] == mem[base..][p - base..] == emitted[base..][p - base..] == emitted[p..];
      assert emitted[..start] == emitted[..base][..start] == old(mem[..])[..start];
      assert emitted[p..] == old(mem[..])[p..];
      assert mem[start..base] == mem[..][start..base] && mem[base..p] == mem[..][base..p];
      ReaderFindsMemory(mem[..], start, pf);
      EntryPointDescribes(pf, base);
      tableCurAddr := p;
    }

    /** All structures, in the order of the table. */
    method AddAll(pf: Platform, ghost base: nat)
      requires |pf.uuid| == 16 && p == base && nrStructs == 0 && maxStructSize == 0
      requires base + |Flatten(Table(pf))| <= mem.Length
      modifies this`p, this`nrStructs, this`maxStructSize, mem
      ensures Written(base, Table(pf), |Table(pf)|)
      ensures mem[..base] == old(mem[..base])
      ensures forall i :: base + |Flatten(Table(pf))| <= i < mem.Length ==> mem[i] == old(mem[i])
    {
      hide Flatten, Table, MaxSize, NumDevices, Type0, Type1, Type3, Type16, Type32, Type127;
      ghost var table := Table(pf);
      var nrMemDevs := NumDevices(pf.memsize);
      StartsEmpty(table);
      TableParts(pf);
      AddStruct(Type0(), base, table, 0);
      AddStruct(Type1(pf.uuid), base, table, 1);
      AddStruct(Type3(), base, table, 2);
      AddProcessors(pf, base);
      AddStruct(Type16(pf.memsize, nrMemDevs), base, table, 3 + pf.cpus);
      AddDevices(pf, base);
      ghost var k := 4 + pf.cpus + 3 * nrMemDevs;
      AddStruct(Type32(), base, table, k);
      AddStruct(Type127(), base, table, k + 1);
    }

    method AddProcessors(pf: Platform, ghost base: nat)
      requires |pf.uuid| == 16 && Written(base, Table(pf), 3)
      modifies this`p, this`nrStructs, this`maxStructSize, mem
      ensures Written(base, Table(pf), 3 + pf.cpus)
      ensures mem[..base] == old(mem[..base])
      ensures forall i :: base + |Flatten(Table(pf))| <= i < mem.Length ==> mem[i] == old(mem[i])
    {
      hide Flatten, Table, MaxSize, Type4;
      for cpu := 1 to pf.cpus + 1
        invariant Written(base, Table(pf), 2 + cpu) && mem[..base] == old(mem[..base])
        invariant forall i :: base + |Flatten(Table(pf))| <= i < mem.Length ==> mem[i] == old(mem[i])
      {
        TableProcessor(pf, cpu);
        AddStruct(Type4(pf, cpu), base, Table(pf), 2 + cpu);
      }
    }

    method AddDevices(pf: Platform, ghost base: nat)
      requires |pf.uuid| == 16 && Written(base, Table(pf), 4 + pf.cpus)
      modifies this`p, this`nrStructs, this`maxStructSize, mem
      ensures Written(base, Table(pf), 4 + pf.cpus + 3 * NumDevices(pf.memsize))
      ensures mem[..base] == old(mem[..base])
      ensures forall i :: base + |Flatten(Table(pf))| <= i < mem.Length ==> mem[i] == old(mem[i])
    {
      hide Flatten, Table, MaxSize, Type17, Type19, Type20, DeviceMb, NumDevices;
      for i := 0 to NumDevices(pf.memsize)
        invariant Written(base, Table(pf), 4 + pf.cpus + 3 * i) && mem[..base] == old(mem[..base])
        invariant forall k :: base + |Flatten(Table(pf))| <= k < mem.Length ==> mem[k] == old(mem[k])
      {
        var devMemsize := DeviceMb(pf.memsize, i);
        TableDevice(pf, i, 0);
        TableDevice(pf, i, 1);
        TableDevice(pf, i, 2);
        AddStruct(Type17(devMemsize, i), base, Table(pf), 4 + pf.cpus + 3 * i);
        AddStruct(Type19(devMemsize, i), base, Table(pf), 5 + pf.cpus + 3 * i);
        AddStruct(Type20(devMemsize, i), base, Table(pf), 6 + pf.cpus + 3 * i);
      }
    }
  }

  /** What a reader of memory finds through the entry point at `start`: it takes the
      table's address and its length from there. */
  function ReadTable(mem: Bytes, start: nat): Option<seq<Bytes>>
    requires start + ENTRY_SIZE <= |mem|
  {
    var ep := mem[start..start + ENTRY_SIZE];
    var base, length := Field32(ep, 24), Field16(ep, 22);
    if base + length <= |mem| then Walk(mem[base..base + length]) else None
  }

  /** It finds exactly the structures of the table, as many as the entry point says, if
      and only if the table fits 16 bits and there are fewer than 208 processors. */
  lemma ReaderFindsMemory(mem: Bytes, start: nat, pf: Platform)
    requires |pf.uuid| == 16 && |mem| <= 0x1_0000_0000
    requires start + ENTRY_SIZE + |Flatten(Table(pf))| <= |mem|
    requires mem[start..start + ENTRY_SIZE]
             == EntryPoint(MaxSize(Table(pf)), |Flatten(Table(pf))|, start + ENTRY_SIZE, |Table(pf)|)
    requires mem[start + ENTRY_SIZE..start + ENTRY_SIZE + |Flatten(Table(pf))|] == Flatten(Table(pf))
    ensures ReadTable(mem, start) == Some(Table(pf)) && Field16(mem[start..start + ENTRY_SIZE], 28) == |Table(pf)|
            <==> |Flatten(Table(pf))| < 0x1_0000 && pf.cpus < 208
  {
    hide Flatten, Table, EntryPoint, Walk, Field16, Field32, MaxSize;
    var t, b, base := Table(pf), Flatten(Table(pf)), start + ENTRY_SIZE;
    EntryPointBalances(MaxSize(t), |b|, base, |t|);
    FewStructures(pf);
    ModSmall(base, 0x1_0000_0000);
    assert mem[base..base + |Reached(b)|] == Reached(b) by {
      assert mem[base..base + |b|][..|Reached(b)|] == b[..|Reached(b)|];
    }
    ReaderFindsTable(pf);
    if |b| < 0x1_0000 {
      ModSmall(|t|, 0x1_0000);
    }
  }

  function Aligned(address: nat): nat {
    (address + 15) / 16 * 16
  }

  lemma AlignedLeast(address: nat)
    ensures Aligned(address) % 16 == 0 && address <= Aligned(address) < address + 16
  {
  }

  lemma StartsEmpty(table: seq<Bytes>)
    ensures table[..0] == [] && Flatten(table[..0]) == [] && MaxSize(table[..0]) == 0
  {
  }
}

/** The SMBIOS structures that the BIOS emits, and how a reader walks them: a header
    states the length of the formatted area, and two NUL bytes end the strings. */
module SmbiosTable {
  import opened Arithmetic
  import opened Machine
  import opened Wrappers

  type Bytes = seq<u8>

  /** What the machine looks like: processors, memory in MB, and processor identity. */
  datatype Platform = Platform(cpus: nat, memsize: nat, uuid: Bytes, cpuSignature: u32, cpuFeatures: u32)

  function Le16(x: nat): (b: Bytes)
    ensures |b| == 2
  {
    [x % 256, x / 256 % 256]
  }

  function Le32(x: nat): (b: Bytes)
    ensures |b| == 4
  {
    [x % 256, x / 256 % 256, x / 0x1_0000 % 256, x / 0x100_0000 % 256]
  }

  function Field16(b: Bytes, at: nat): nat
    requires at + 2 <= |b|
  {
    b[at] + (b[at + 1] as int) * 256
  }

  function Field32(b: Bytes, at: nat): nat
    requires at + 4 <= |b|
  {
    b[at] + (b[at + 1] as int) * 256 + (b[at + 2] as int) * 0x1_0000 + (b[at + 3] as int) * 0x100_0000
  }

  function Header(kind: u8, length: u8, handle: nat): (b: Bytes)
    ensures |b| == 4 && b[0] == kind && b[1] == length && b[2..] == Le16(handle)
  {
    [kind, length] + Le16(handle)
  }

  /** BIOS Information: "The Bochs Project", "Bochs" and "01/01/2007". */
  function Type0(): (b: Bytes)
    ensures |b| == 60 && b[..4] == Header(0, 24, 0)
  {
    Header(0, 24, 0)
    + [1, 2, 0x00, 0xe0, 3, 1, 0x90, 0x9c, 0xc9, 0x3b, 0, 0, 0, 0, 1, 0, 1, 0, 0xff, 0xff]
    + [0x54, 0x68, 0x65, 0x20, 0x42, 0x6f, 0x63, 0x68, 0x73, 0x20, 0x50, 0x72, 0x6f, 0x6a, 0x65, 0x63, 0x74, 0]
    + [0x42, 0x6f, 0x63, 0x68, 0x73, 0]
    + [0x30, 0x31, 0x2f, 0x30, 0x31, 0x2f, 0x32, 0x30, 0x30, 0x37, 0, 0]
  }

  /** System Information. */
  function Type1(uuid: Bytes): (b: Bytes)
    requires |uuid| == 16
    ensures |b| == 29 && b[..4] == Header(1, 27, 0x100) && b[27] == 0 && b[28] == 0
  {
    Header(1, 27, 0x100) + [0, 0, 0, 0] + uuid + [6, 0, 0, 0, 0]
  }

  /** System Enclosure. */
  function Type3(): (b: Bytes)
    ensures |b| == 22 && b[..4] == Header(3, 20, 0x300) && b[20] == 0 && b[21] == 0
  {
    Header(3, 20, 0x300) + [0, 1, 0, 0, 0, 3, 3, 3, 2, 0, 0, 0, 0, 0, 0, 0, 0, 0]
  }

  /** Processor Information. The processor's number becomes one character of a string,
      in a byte. */
  function Type4(pf: Platform, cpu: nat): (b: Bytes)
    ensures |b| == 39 && b[..4] == Header(4, 32, 0x400 + cpu)
    ensures b[32..] == [0x43, 0x50, 0x55, 0x20, (cpu + 0x30) % 256, 0, 0]
  {
    Header(4, 32, 0x400 + cpu) + [1, 3, 1, 0] + Le32(pf.cpuSignature) + Le32(pf.cpuFeatures)
    + [0, 0, 0, 0, 0, 0, 0, 0, 0x41, 1, 0xff, 0xff, 0xff, 0xff, 0xff, 0xff]
    + [0x43, 0x50, 0x55, 0x20, (cpu + 0x30) % 256, 0, 0]
  }

  /** Physical Memory Array. */
  function Type16(memsize: nat, devices: nat): (b: Bytes)
    ensures |b| == 17 && b[..4] == Header(16, 15, 0x1000) && b[15] == 0 && b[16] == 0
  {
    Header(16, 15, 0x1000) + [3, 3, 1] + Le32(memsize * 1024) + Le16(0xfffe) + Le16(devices) + [0, 0]
  }

  function Decimal(n: nat): (s: Bytes)
    ensures |s| > 0 && forall i :: 0 <= i < |s| ==> 0x30 <= s[i] <= 0x39
  {
    if n < 10 then [0x30 + n] else Decimal(n / 10) + [0x30 + n % 10]
  }

  /** "DIMM" and the number, cut to seven characters. */
  function Locator(instance: nat): (s: Bytes)
    ensures 6 <= |s| <= 7 && forall i :: 0 <= i < |s| ==> s[i] != 0
  {
    var s := [0x44, 0x49, 0x4d, 0x4d, 0x20] + Decimal(instance);
    if |s| > 7 then s[..7] else s
  }

  /** Memory Device. */
  function Type17(mb: nat, instance: nat): (b: Bytes)
    ensures |b| == 23 + |Locator(instance)| && b[..4] == Header(17, 21, 0x1100 + instance)
    ensures b[21..] == Locator(instance) + [0, 0]
    ensures b[12..14] == Le16(mb)
  {
    var b := Header(17, 21, 0x1100 + instance) + Le16(0x1000) + Le16(0xfffe) + Le16(64) + Le16(64) + Le16(mb)
             + [9, 0, 1, 0, 7, 0, 0] + (Locator(instance) + [0, 0]);
    assert b[12..14] == Le16(mb);
    b
  }

  /** The first and the last KB of a device, in 32 bits. */
  function First(instance: nat): u32 {
    Wrap32(instance * 0x100_0000)
  }

  function Last(mb: nat, instance: nat): u32 {
    Wrap32(First(instance) + mb * 1024 - 1)
  }

  /** Memory Array Mapped Address. */
  function Type19(mb: nat, instance: nat): (b: Bytes)
    ensures |b| == 17 && b[..4] == Header(19, 15, 0x1300 + instance) && b[15] == 0 && b[16] == 0
    ensures b[4..8] == Le32(First(instance)) && b[8..12] == Le32(Last(mb, instance))
  {
    Header(19, 15, 0x1300 + instance) + Le32(First(instance)) + Le32(Last(mb, instance)) + Le16(0x1000) + [1, 0, 0]
  }

  /** Memory Device Mapped Address. */
  function Type20(mb: nat, instance: nat): (b: Bytes)
    ensures |b| == 21 && b[..4] == Header(20, 19, 0x1400 + instance) && b[19] == 0 && b[20] == 0
    ensures b[4..8] == Le32(First(instance)) && b[8..12] == Le32(Last(mb, instance))
  {
    Header(20, 19, 0x1400 + instance) + Le32(First(instance)) + Le32(Last(mb, instance))
    + Le16(0x1100 + instance) + Le16(0x1300 + instance) + [1, 0, 0, 0, 0]
  }

  /** System Boot Information. */
  function Type32(): (b: Bytes)
    ensures |b| == 13 && b[..4] == Header(32, 11, 0x2000) && b[11] == 0 && b[12] == 0
  {
    Header(32, 11, 0x2000) + [0, 0, 0, 0, 0, 0, 0, 0, 0]
  }

  /** End of Table. */
  function Type127(): (b: Bytes)
    ensures |b| == 6 && b[..4] == Header(127, 4, 0x7f00) && b[4] == 0 && b[5] == 0
  {
    Header(127, 4, 0x7f00) + [0, 0]
  }

  lemma Le16Reads(x: nat)
    ensures Field16(Le16(x), 0) == x % 0x1_0000
  {
    SplitRemainder(x, 0x100, 0x100);
  }

  lemma Le32Reads(x: nat)
    ensures Field32(Le32(x), 0) == x % 0x1_0000_0000
  {
    SplitRemainder(x, 0x1_0000, 0x1_0000);
    SplitRemainder(x, 0x100, 0x100);
    SplitRemainder(x / 0x1_0000, 0x100, 0x100);
    Shifted(x);
  }

  lemma Field16At(b: Bytes, at: nat, x: nat)
    requires at + 2 <= |b| && b[at..at + 2] == Le16(x)
    ensures Field16(b, at) == x % 0x1_0000
  {
    Le16Reads(x);
    assert b[at] == b[at..at + 2][0] && b[at + 1] == b[at..at + 2][1];
  }

  lemma Field32At(b: Bytes, at: nat, x: nat)
    requires at + 4 <= |b| && b[at..at + 4] == Le32(x)
    ensures Field32(b, at) == x % 0x1_0000_0000
  {
    Le32Reads(x);
    assert b[at] == b[at..at + 4][0] && b[at + 1] == b[at..at + 4][1];
    assert b[at + 2] == b[at..at + 4][2] && b[at + 3] == b[at..at + 4][3];
  }

  /** What a reader of the fields finds. */
  lemma DeviceFields(mb: nat, i: nat)
    ensures Field16(Type17(mb, i), 12) == mb % 0x1_0000
    ensures Field32(Type19(mb, i), 4) == Field32(Type20(mb, i), 4) == First(i)
    ensures Field32(Type19(mb, i), 8) == Field32(Type20(mb, i), 8) == Last(mb, i)
  {
    hide Type17, Type19, Type20, Le16, Le32, Field16, Field32;
    Field16At(Type17(mb, i), 12, mb);
    Field32At(Type19(mb, i), 4, First(i));
    Field32At(Type19(mb, i), 8, Last(mb, i));
    Field32At(Type20(mb, i), 4, First(i));
    Field32At(Type20(mb, i), 8, Last(mb, i));
  }

  lemma Shifted(x: nat)
    ensures x / 0x1_0000 / 0x100 == x / 0x100_0000
  {
  }

  function NumDevices(memsize: nat): nat {
    (memsize + 0x3fff) / 0x4000
  }

  /** A memory device covers 16 GB, the last one what is left. */
  function DeviceMb(memsize: nat, instance: nat): nat {
    if instance + 1 == NumDevices(memsize) && memsize > 0 then (memsize - 1) % 0x4000 + 1 else 0x4000
  }

  function Processors(pf: Platform, n: nat): seq<Bytes> {
    if n == 0 then [] else Processors(pf, n - 1) + [Type4(pf, n)]
  }

  function DeviceGroup(memsize: nat, i: nat): (g: seq<Bytes>)
    ensures |g| == 3
  {
    var mb := DeviceMb(memsize, i);
    [Type17(mb, i), Type19(mb, i), Type20(mb, i)]
  }

  function Devices(memsize: nat, n: nat): seq<Bytes> {
    if n == 0 then [] else Devices(memsize, n - 1) + DeviceGroup(memsize, n - 1)
  }

  /** All structures in the order in which they are emitted. */
  function Table(pf: Platform): seq<Bytes>
    requires |pf.uuid| == 16
  {
    [Type0(), Type1(pf.uuid), Type3()] + Processors(pf, pf.cpus)
    + [Type16(pf.memsize, NumDevices(pf.memsize))] + Devices(pf.memsize, NumDevices(pf.memsize))
    + [Type32(), Type127()]
  }

  function Flatten(ss: seq<Bytes>): Bytes {
    if ss == [] then [] else ss[0] + Flatten(ss[1..])
  }

  lemma FlattenFirst(ss: seq<Bytes>)
    ensures Flatten([]) == []
    ensures ss != [] ==> Flatten(ss) == ss[0] + Flatten(ss[1..])
  {
  }

  lemma {:induction false} FlattenAppend(a: seq<Bytes>, b: seq<Bytes>)
    ensures Flatten(a + b) == Flatten(a) + Flatten(b)
  {
    hide Flatten;
    FlattenFirst(a);
    if a == [] {
      assert a + b == b;
    } else {
      FlattenAppend(a[1..], b);
      FlattenFirst(a + b);
      assert (a + b)[1..] == a[1..] + b;
      assert a[0] + (Flatten(a[1..]) + Flatten(b)) == a[0] + Flatten(a[1..]) + Flatten(b);
    }
  }

  /** The position just behind the first two NUL bytes at or behind q, or a position
      beyond the end if there are none. */
  function EndOf(b: Bytes, q: nat): nat
    decreases |b| - q
  {
    if q + 2 > |b| then |b| + 1
    else if b[q] == 0 && b[q + 1] == 0 then q + 2
    else EndOf(b, q + 1)
  }

  /** A structure whose strings end where it ends, and not before. */
  predicate Closed(s: Bytes) {
    |s| >= 4 && s[1] >= 4 && EndOf(s, s[1]) == |s|
  }

  lemma {:induction false} EndOfBounds(b: Bytes, q: nat)
    ensures q + 2 <= EndOf(b, q) <= |b| || EndOf(b, q) == |b| + 1
    decreases |b| - q
  {
    if q + 2 <= |b| {
      EndOfBounds(b, q + 1);
    }
  }

  /** Splits a table into its structures as a reader does. */
  function Walk(b: Bytes): Option<seq<Bytes>>
    decreases |b|
  {
    if b == [] then Some([])
    else if |b| < 4 || b[1] < 4 || EndOf(b, b[1]) > |b| then None
    else
      EndOfBounds(b, b[1]);
      var e := EndOf(b, b[1]);
      var rest := Walk(b[e..]);
      if rest.None? then None else Some([b[..e]] + rest.value)
  }

  /** Where the search ends depends on the bytes up to there only. */
  lemma {:induction false} EndOfPrefix(s: Bytes, rest: Bytes, q: nat)
    ensures EndOf(s, q) <= |s| ==> EndOf(s + rest, q) == EndOf(s, q)
    ensures EndOf(s + rest, q) == |s| ==> EndOf(s, q) == |s|
    decreases |s| - q
  {
    EndOfBounds(s + rest, q);
    if q + 2 <= |s| {
      EndOfPrefix(s, rest, q + 1);
    }
  }

  lemma WalkFirst(s: Bytes, rest: Bytes)
    ensures Closed(s) && Walk(rest).Some? ==> Walk(s + rest) == Some([s] + Walk(rest).value)
    ensures forall t :: Walk(s + rest) == Some([s] + t) ==> Closed(s) && Walk(rest) == Some(t)
  {
    var b := s + rest;
    if Closed(s) {
      EndOfPrefix(s, rest, s[1]);
      assert b[..|s|] == s && b[|s|..] == rest;
    }
    forall t | Walk(b) == Some([s] + t) ensures Closed(s) && Walk(rest) == Some(t) {
      EndOfBounds(b, b[1]);
      assert b[..EndOf(b, b[1])] == ([s] + t)[0] == s;
      EndOfPrefix(s, rest, b[1]);
      assert b[|s|..] == rest && ([s] + t)[1..] == t;
    }
  }

  predicate AllClosed(ss: seq<Bytes>) {
    forall i :: 0 <= i < |ss| ==> Closed(ss[i])
  }

  /** The reader gets the structures back if and only if each of them is closed. */
  lemma {:induction false} WalkExactly(ss: seq<Bytes>)
    ensures Walk(Flatten(ss)) == Some(ss) <==> AllClosed(ss)
  {
    hide Closed;
    if ss != [] {
      WalkExactly(ss[1..]);
      WalkFirst(ss[0], Flatten(ss[1..]));
      assert ss == [ss[0]] + ss[1..];
      assert AllClosed(ss) <==> Closed(ss[0]) && AllClosed(ss[1..]) by {
        assert forall i :: 0 <= i < |ss| - 1 ==> ss[1..][i] == ss[i + 1];
        assert forall i :: 1 <= i < |ss| ==> ss[i] == ss[1..][i - 1];
      }
    }
  }

  /** Whatever the reader finds, it has read every byte. */
  lemma {:induction false} WalkReadsAll(b: Bytes)
    ensures Walk(b).Some? ==> Flatten(Walk(b).value) == b
    decreases |b|
  {
    if Walk(b).Some? && b != [] {
      EndOfBounds(b, b[1]);
      var e := EndOf(b, b[1]);
      WalkReadsAll(b[e..]);
      assert Walk(b).value[0] == b[..e] && Walk(b).value[1..] == Walk(b[e..]).value;
    }
  }
}

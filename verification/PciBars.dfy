/** Base addresses for PCI regions: every region goes to the next address that is
    a multiple of its size. */
module PciBars {
  import opened Arithmetic
  import opened Machine

  /** A region as it was mapped: its address space, address and size. */
  datatype Region = Region(io: bool, base: u32, size: u32)

  /** The ends of the two address spaces used so far. The address counters hold them
      in 32 bits, so a counter reads zero once a region ends at 2^32. */
  datatype Cursor = Cursor(io: nat, mem: nat)

  const NUM_REGIONS := 7

  /** The size that a probe value encodes: ~(val & ~0xf) + 1. */
  function Size(val: u32): u32 {
    Wrap32(0 - (AndNot(val, 0xf) as int))
  }

  predicate IsIo(val: u32) {
    val % 2 == 1
  }

  /** (addr + size - 1) & ~(size - 1), in 32 bits. */
  function AlignUp(addr: u32, size: u32): u32 {
    AndNot(Wrap32(addr + size - 1), Wrap32(size - 1))
  }

  function Next(c: Cursor, io: bool): nat {
    if io then c.io else c.mem
  }

  function Place(c: Cursor, val: u32): Region {
    Region(IsIo(val), AlignUp(Wrap32(Next(c, IsIo(val))), Size(val)), Size(val))
  }

  function Advance(c: Cursor, r: Region): Cursor {
    if r.io then c.(io := r.base + r.size) else c.(mem := r.base + r.size)
  }

  lemma {:induction false} SmallPowers(t: nat)
    requires PowerOfTwo(t) && t < 16
    ensures t == 1 || t == 2 || t == 4 || t == 8
    decreases t
  {
    if t > 1 {
      SmallPowers(t / 2);
    }
  }

  lemma {:induction false} SixteenDivides(s: nat)
    requires PowerOfTwo(s) && s >= 16
    ensures s == 16 * (s / 16)
    decreases s
  {
    if s / 2 < 16 {
      SmallPowers(s / 2);
    } else {
      SixteenDivides(s / 2);
    }
  }

  /** A register that implements the address bits of a power of two reads back with
      its size encoded, whatever its type bits are, if and only if the size is at
      least sixteen; smaller I/O regions are given sixteen bytes. */
  lemma SizeExactly(s: u32, flags: nat)
    requires PowerOfTwo(s) && flags < s && flags < 16
    ensures Size(0x1_0000_0000 - s + flags) == if s < 16 then 16 else s
  {
    hide PowerOfTwo, AndNot;
    SixteenIsPower();
    var val := 0x1_0000_0000 - s + flags;
    MaskRounds(val, 16);
    if s < 16 {
      RemainderUnique(val, 16, 0xfff_ffff, 16 - s + flags);
    } else {
      SixteenDivides(s);
      RemainderUnique(val, 16, 0x1000_0000 - s / 16, flags);
    }
  }

  lemma SixteenIsPower()
    ensures PowerOfTwo(16) && PowerOfTwo(4)
  {
    assert PowerOfTwo(2) && PowerOfTwo(4) && PowerOfTwo(8);
  }

  lemma RoundUp(addr: int, size: int)
    requires 0 <= addr && size > 0
    ensures var r := addr + size - 1 - (addr + size - 1) % size; addr <= r < addr + size && r % size == 0
  {
    var x := addr + size - 1;
    assert x - x % size == size * (x / size);
    MultipleHasNoRemainder(size, x / size);
  }

  /** What the masked round-up computes, as long as the sum stays in 32 bits. */
  lemma AlignUpNear(addr: u32, size: u32)
    requires PowerOfTwo(size) && addr + size - 1 < 0x1_0000_0000
    ensures addr <= AlignUp(addr, size) < addr + size && AlignUp(addr, size) % size == 0
  {
    MaskRounds(addr + size - 1, size);
    RoundUp(addr, size);
  }

  lemma AlignedApart(x: int, y: int, size: int)
    requires size > 0 && x % size == 0 && y % size == 0 && x < y
    ensures y - x >= size
  {
    if y - x < size {
      assert x == size * (x / size);
      RemainderUnique(y, size, x / size, y - x);
    }
  }

  /** It is the least multiple of the size that is not below `addr`. */
  lemma AlignUpLeast(addr: u32, size: u32, x: int)
    requires PowerOfTwo(size) && addr + size - 1 < 0x1_0000_0000
    requires x >= addr && x % size == 0
    ensures AlignUp(addr, size) <= x
  {
    AlignUpNear(addr, size);
    if x < AlignUp(addr, size) {
      AlignedApart(x, AlignUp(addr, size), size);
    }
  }

  lemma SmallMask(x: nat, s: nat)
    requires PowerOfTwo(s) && x < s
    ensures AndNot(x, s - 1) == 0
  {
    MaskRounds(x, s);
    ModSmall(x, s);
  }

  /** It moves up if and only if the sum does not wrap; otherwise it is zero. */
  lemma AlignUpExactly(addr: u32, size: u32)
    requires PowerOfTwo(size)
    ensures AlignUp(addr, size) >= addr <==> addr + size - 1 < 0x1_0000_0000
    ensures addr + size - 1 >= 0x1_0000_0000 ==> AlignUp(addr, size) == 0
  {
    if addr + size - 1 < 0x1_0000_0000 {
      AlignUpNear(addr, size);
    } else {
      SmallMask(Wrap32(addr + size - 1), size);
    }
  }

  lemma {:induction false} PowersDivide(s: nat, t: nat)
    requires PowerOfTwo(s) && PowerOfTwo(t) && s <= t
    ensures t % s == 0
    decreases s
  {
    if s > 1 {
      PowersDivide(s / 2, t / 2);
      HalvedRemainder(t, s / 2);
    }
  }

  lemma {:induction false} PowerProduct(s: nat, t: nat)
    requires PowerOfTwo(s) && PowerOfTwo(t)
    ensures s * t > 0 && PowerOfTwo(s * t)
    decreases s
  {
    if s > 1 {
      PowerProduct(s / 2, t);
      var h := s / 2;
      assert s * t == 2 * (h * t);
    }
  }

  lemma WordIsPower()
    ensures PowerOfTwo(0x1_0000_0000)
  {
    SixteenIsPower();
    PowerProduct(16, 16);
    PowerProduct(0x100, 0x100);
    PowerProduct(0x1_0000, 0x1_0000);
  }

  /** There is room for a region behind `addr`: rounding up stays in 32 bits. */
  predicate Fits(addr: nat, size: u32) {
    PowerOfTwo(size) && addr + size <= 0x1_0000_0000
  }

  /** Then the region itself ends no later than 2^32. */
  lemma FittingEnds(addr: nat, size: u32)
    requires Fits(addr, size)
    ensures addr < 0x1_0000_0000 && AlignUp(addr, size) + size <= 0x1_0000_0000
  {
    AlignUpNear(addr, size);
    WordIsPower();
    PowersDivide(size, 0x1_0000_0000);
    AlignedApart(AlignUp(addr, size), 0x1_0000_0000, size);
  }

  /** A gigabyte at 0xc000_0000 fits, up to the last byte. */
  lemma LastRegionExample()
    ensures var r := Place(Cursor(0xc000, 0xc000_0000), 0xc000_0000);
            && r == Region(false, 0xc000_0000, 0x4000_0000)
            && Fits(0xc000_0000, 0x4000_0000) && Wrap32(r.base + r.size) == 0
  {
    hide AndNot, PowerOfTwo, AlignUp, Size;
    GigabyteIsPower();
    SizeExactly(0x4000_0000, 0);
    AlignUpNear(0xc000_0000, 0x4000_0000);
    AlignUpLeast(0xc000_0000, 0x4000_0000, 0xc000_0000);
  }

  lemma GigabyteIsPower()
    ensures PowerOfTwo(0x4000_0000)
  {
    SixteenIsPower();
    PowerProduct(16, 16);
    PowerProduct(0x100, 16);
    PowerProduct(0x1000, 16);
    PowerProduct(0x1_0000, 0x1000);
    PowerProduct(4, 0x1000_0000);
  }

  /** The regions that a list of probe values is given, in order. */
  function PlaceAll(c: Cursor, vals: seq<u32>): (Cursor, seq<Region>)
    decreases |vals|
  {
    if vals == [] then (c, [])
    else
      var (c1, rs) := PlaceAll(c, vals[..|vals| - 1]);
      var val := vals[|vals| - 1];
      if val == 0 then (c1, rs)
      else (Advance(c1, Place(c1, val)), rs + [Place(c1, val)])
  }

  /** Every probe encodes a power of two, and no address space runs over. */
  predicate NoOverflow(c: Cursor, vals: seq<u32>)
    decreases |vals|
  {
    vals == [] ||
    (var init, val := vals[..|vals| - 1], vals[|vals| - 1];
     && NoOverflow(c, init)
     && (val != 0 ==> Fits(Next(PlaceAll(c, init).0, IsIo(val)), Size(val))))
  }

  /** Regions lie between their starting point and the cursor, each aligned to its
      size, and those of one address space follow one another without overlap. */
  ghost predicate LaidOut(start: Cursor, rs: seq<Region>, c: Cursor) {
    && start.io <= c.io && start.mem <= c.mem
    && (forall i :: 0 <= i < |rs| ==>
                      && PowerOfTwo(rs[i].size) && rs[i].base % rs[i].size == 0
                      && Next(start, rs[i].io) <= rs[i].base && rs[i].base + rs[i].size <= Next(c, rs[i].io)
                      && rs[i].base + rs[i].size <= 0x1_0000_0000)
    && (forall i, j :: 0 <= i < j < |rs| && rs[i].io == rs[j].io ==> rs[i].base + rs[i].size <= rs[j].base)
  }

  lemma PlaceMoves(c: Cursor, val: u32)
    requires Fits(Next(c, IsIo(val)), Size(val))
    ensures var r := Place(c, val);
            && PowerOfTwo(r.size) && r.base % r.size == 0 && Next(c, r.io) <= r.base
            && r.base + r.size <= 0x1_0000_0000
            && Next(Advance(c, r), r.io) == r.base + r.size && Next(Advance(c, r), !r.io) == Next(c, !r.io)
  {
    hide IsIo, Size, AlignUp, PowerOfTwo;
    FittingEnds(Next(c, IsIo(val)), Size(val));
    AlignUpNear(Next(c, IsIo(val)), Size(val));
  }

  /** A region is placed behind all others of its space if and only if it fits. */
  lemma PlaceExactly(c: Cursor, val: u32)
    requires PowerOfTwo(Size(val)) && Next(c, IsIo(val)) <= 0x1_0000_0000
    ensures Next(c, IsIo(val)) <= Place(c, val).base <==> Fits(Next(c, IsIo(val)), Size(val))
  {
    hide IsIo, Size, AlignUp;
    AlignUpExactly(Wrap32(Next(c, IsIo(val))), Size(val));
  }

  /** Over any sequence of probes, of one device or of many. */
  lemma {:induction false} PlacedRegionsAreDisjoint(c: Cursor, vals: seq<u32>)
    requires NoOverflow(c, vals)
    ensures LaidOut(c, PlaceAll(c, vals).1, PlaceAll(c, vals).0)
    decreases |vals|
  {
    hide PowerOfTwo, AlignUp, Size, IsIo, Fits, Place, Advance, Next;
    if vals != [] {
      var init, val := vals[..|vals| - 1], vals[|vals| - 1];
      PlacedRegionsAreDisjoint(c, init);
      var (c1, rs) := PlaceAll(c, init);
      if val != 0 {
        var r := Place(c1, val);
        PlaceMoves(c1, val);
        AppendRegion(c, rs, c1, r, Advance(c1, r));
      }
    } else {
      assert PlaceAll(c, vals) == (c, []);
    }
  }

  /** The probes that read back something: the registers that are implemented. */
  function Implemented(vals: seq<u32>): seq<u32>
    decreases |vals|
  {
    if vals == [] then []
    else Implemented(vals[..|vals| - 1]) + (if vals[|vals| - 1] != 0 then [vals[|vals| - 1]] else [])
  }

  /** Each implemented register gets a region, in order: of I/O space if its probe is odd,
      of memory if it is even, of the size it encodes, and not below the start of its
      space. */
  ghost predicate Answers(rs: seq<Region>, probes: seq<u32>) {
    && |rs| == |probes|
    && forall i :: 0 <= i < |rs| ==>
                     && rs[i].io == (probes[i] % 2 == 1) && rs[i].size == Size(probes[i])
                     && rs[i].base >= if probes[i] % 2 == 1 then 0xc000 else 0xc000_0000
  }

  lemma {:induction false} RegionsAnswer(vals: seq<u32>)
    requires NoOverflow(Cursor(0xc000, 0xc000_0000), vals)
    ensures Answers(PlaceAll(Cursor(0xc000, 0xc000_0000), vals).1, Implemented(vals))
    decreases |vals|
  {
    hide NoOverflow, LaidOut, AlignUp, Size, PowerOfTwo, Fits;
    var start := Cursor(0xc000, 0xc000_0000);
    if vals != [] {
      var init, val := vals[..|vals| - 1], vals[|vals| - 1];
      OverflowInit(start, vals);
      RegionsAnswer(init);
      if val != 0 {
        RegionStarts(start, vals);
      }
    }
  }

  lemma OverflowInit(c: Cursor, vals: seq<u32>)
    requires NoOverflow(c, vals) && vals != []
    ensures NoOverflow(c, vals[..|vals| - 1])
  {
  }

  lemma RegionStarts(c: Cursor, vals: seq<u32>)
    requires NoOverflow(c, vals) && vals != [] && vals[|vals| - 1] != 0
    ensures Next(c, IsIo(vals[|vals| - 1])) <= Place(PlaceAll(c, vals[..|vals| - 1]).0, vals[|vals| - 1]).base
  {
    hide NoOverflow, AlignUp, Size, PowerOfTwo, IsIo;
    PlacedRegionsAreDisjoint(c, vals);
    var rs := PlaceAll(c, vals).1;
    assert rs[|rs| - 1] == Place(PlaceAll(c, vals[..|vals| - 1]).0, vals[|vals| - 1]);
  }

  lemma AppendRegion(start: Cursor, rs: seq<Region>, c: Cursor, r: Region, c': Cursor)
    requires LaidOut(start, rs, c)
    requires PowerOfTwo(r.size) && r.base % r.size == 0 && Next(c, r.io) <= r.base
    requires r.base + r.size <= 0x1_0000_0000
    requires Next(c', r.io) == r.base + r.size && Next(c', !r.io) == Next(c, !r.io)
    ensures LaidOut(start, rs + [r], c')
  {
    hide PowerOfTwo;
  }

  /** The two address counters of the BIOS. */
  class Allocator {
    var ioAddr: u32
    var memAddr: u32
    /** All regions mapped so far, and the probes they answer. */
    ghost var probes: seq<u32>
    ghost var regions: seq<Region>
    ghost var cursor: Cursor

    static ghost function Start(): Cursor {
      Cursor(0xc000, 0xc000_0000)
    }

    ghost predicate Valid()
      reads this
    {
      && NoOverflow(Start(), probes) && PlaceAll(Start(), probes) == (cursor, regions)
      && ioAddr == Wrap32(cursor.io) && memAddr == Wrap32(cursor.mem)
    }

    constructor ()
      ensures Valid() && regions == [] && probes == []
    {
      ioAddr, memAddr := 0xc000, 0xc000_0000;
      probes, regions, cursor := [], [], Start();
    }

    /** Maps the regions of one device. The values are what its registers read
        back after all ones were written. */
    method InitDevice(vals: seq<u32>)
      requires Valid() && |vals| == NUM_REGIONS
      requires NoOverflow(Start(), probes + vals)
      modifies this
      ensures Valid() && probes == old(probes) + vals && old(regions) <= regions
      ensures LaidOut(Start(), regions, cursor) && Answers(regions, Implemented(probes))
    {
      hide NoOverflow, PlaceAll, LaidOut, Answers;
      ghost var before := probes;
      for i := 0 to NUM_REGIONS
        invariant Valid() && probes == before + vals[..i] && old(regions) <= regions
      {
        OverflowPrefix(Start(), probes, vals[i], before + vals);
        MapRegion(vals[i]);
      }
      assert vals[..NUM_REGIONS] == vals;
      PlacedRegionsAreDisjoint(Start(), probes);
      RegionsAnswer(probes);
    }

    method MapRegion(val: u32)
      requires Valid() && NoOverflow(Start(), probes + [val])
      modifies this
      ensures Valid() && probes == old(probes) + [val] && old(regions) <= regions
    {
      hide Size, AlignUp, IsIo, Fits;
      ghost var p := probes + [val];
      assert p[..|p| - 1] == probes;
      if val != 0 {
        var size := Size(val);
        if IsIo(val) {
          ioAddr := AlignUp(ioAddr, size);
          regions := regions + [Region(true, ioAddr, size)];
          cursor := cursor.(io := ioAddr + size);
          ioAddr := Wrap32((ioAddr as int) + size);
        } else {
          memAddr := AlignUp(memAddr, size);
          regions := regions + [Region(false, memAddr, size)];
          cursor := cursor.(mem := memAddr + size);
          memAddr := Wrap32((memAddr as int) + size);
        }
      }
      probes := p;
    }
  }

  lemma {:induction false} OverflowPrefix(c: Cursor, p: seq<u32>, val: u32, all: seq<u32>)
    requires NoOverflow(c, all) && p + [val] <= all
    ensures NoOverflow(c, p + [val])
    decreases |all|
  {
    if |all| > |p| + 1 {
      OverflowPrefix(c, p, val, all[..|all| - 1]);
    } else {
      assert all == p + [val];
    }
  }
}

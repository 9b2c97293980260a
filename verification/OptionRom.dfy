/** Copying PCI option ROMs into shadow RAM at 0xc0000-0xdffff, one 16 KB window
    at a time, with two access-attribute bits for every window. */
module OptionRom {
  import opened Machine

  const SHADOW_START := 0xc_0000
  const SHADOW_END := 0xe_0000
  const WINDOW := 0x4000

  /** Attribute values: 2 lets writes through to RAM, 1 lets reads through. */
  const WRITE_ENABLE: bv8 := 2
  const READ_ENABLE: bv8 := 1

  /** Bits of the half of an attribute register that belongs to a window. */
  function GetAttr(v: bv8, high: bool): bv8 {
    if high then (v >> 4) & 3 else v & 3
  }

  /** (v & ~(3 << shift)) | (a << shift) */
  function SetAttr(v: bv8, high: bool, a: bv8): bv8 {
    if high then (v & !0x30) | (a << 4) else (v & !0x03) | a
  }

  lemma SetAttrExactly(v: bv8, high: bool, a: bv8)
    requires a < 4
    ensures GetAttr(SetAttr(v, high, a), high) == a
    ensures GetAttr(SetAttr(v, high, a), !high) == GetAttr(v, !high)
    ensures SetAttr(v, high, a) & 0xcc == v & 0xcc
    ensures (SetAttr(v, high, a) >> (if high then 4 else 0)) & 3 == a
  {
  }

  /** The size in bytes that a ROM header asks for: units of 512 bytes, rounded up
      to a multiple of four units. */
  function RomSize(units: u8): nat {
    (if units % 4 != 0 then units - units % 4 + 4 else units) * 512
  }

  /** It is the least multiple of 2 KB that holds the units of 512 bytes asked for. */
  lemma RomSizeLeast(units: u8, n: nat)
    ensures RomSize(units) % 0x800 == 0 && RomSize(units) >= 0x200 * (units as int)
    ensures n % 0x800 == 0 && n >= 0x200 * (units as int) ==> RomSize(units) <= n
  {
  }

  /** The window of an address, counted from 0xc0000. */
  function WindowOf(addr: int): int {
    (addr - SHADOW_START) / WINDOW
  }

  /** The windows that a copy to [start, start + size) touches. An empty copy
      still touches the window it would start in. */
  predicate Touched(w: int, start: int, size: int) {
    WindowOf(start) <= w <= (if size == 0 then WindowOf(start) else WindowOf(start + size - 1))
  }

  lemma WithinTouched(addr: nat, start: nat, size: nat)
    requires SHADOW_START <= start <= addr < start + size <= SHADOW_END
    ensures 0 <= WindowOf(addr) < 8 && Touched(WindowOf(addr), start, size)
  {
  }

  lemma WindowParts(addr: nat)
    requires SHADOW_START <= addr < SHADOW_END
    ensures WindowOf(addr) / 2 == (addr - SHADOW_START) / 0x8000 && WindowOf(addr) % 2 == addr / 0x4000 % 2
  {
  }

  /** The first n bytes that `rom` reads. */
  function Content(rom: nat -> u8, n: nat): (s: seq<u8>)
    ensures |s| == n && forall k :: 0 <= k < n ==> s[k] == rom(k)
  {
    seq(n, (k: nat) => rom(k))
  }

  /** The next chunk starts in the window it touches, or in the one where the chunk
      before ended. */
  lemma TouchedNext(start: nat, copied: nat, n: nat)
    requires SHADOW_START <= start && (start + copied) % WINDOW + n <= WINDOW
    requires copied > 0 ==> (start + copied) % WINDOW == 0
    ensures copied == 0 ==> forall w :: Touched(w, start, n) <==> w == WindowOf(start)
    ensures copied > 0 && n > 0 ==>
              forall w :: Touched(w, start, copied + n) <==> Touched(w, start, copied) || w == WindowOf(start + copied)
  {
  }

  /** A ROM image and where it was copied to. */
  datatype Image = Image(start: nat, content: seq<u8>)

  /** Where an image lies in shadow RAM, RAM holds its content. */
  ghost predicate Stored(ram: seq<u8>, im: Image) {
    var at := im.start - SHADOW_START;
    && 0 <= at && at + |im.content| <= |ram|
    && forall k :: at <= k < at + |im.content| ==> ram[k] == im.content[k - at]
  }

  lemma StoredKept(before: seq<u8>, after: seq<u8>, im: Image, from: int)
    requires Stored(before, im) && |before| == |after| && im.start + |im.content| <= from
    requires forall k :: 0 <= k < |before| && SHADOW_START + k < from ==> after[k] == before[k]
    ensures Stored(after, im)
  {
  }

  lemma CopiedIsStored(ram: seq<u8>, im: Image)
    requires SHADOW_START <= im.start && im.start + |im.content| <= SHADOW_START + |ram|
    requires forall k :: 0 <= k < |ram| && im.start <= SHADOW_START + k < im.start + |im.content| ==>
                           ram[k] == im.content[k - (im.start - SHADOW_START)]
    ensures Stored(ram, im)
  {
  }

  predicate Apart(a: Image, b: Image) {
    a.start + |a.content| <= b.start
  }

  class ShadowRam {
    /** RAM from 0xc0000 up to 0xe0000. */
    const ram: array<u8>
    /** Registers 0x5a and up, two windows in each. */
    const pam: array<bv8>
    var romStart: nat
    ghost var images: seq<Image>

    ghost predicate Shape()
      reads this
    {
      ram.Length == SHADOW_END - SHADOW_START && pam.Length == 8 && SHADOW_START <= romStart <= SHADOW_END
    }

    function Attr(w: nat): bv8
      requires pam.Length == 8 && w < 16
      reads pam
    {
      GetAttr(pam[w / 2], w % 2 == 1)
    }

    /** The four bits that govern an address, two windows to a register, say that reads go
        to RAM and writes do not. */
    predicate ReadOnly(addr: nat)
      requires pam.Length == 8 && 0xc_0000 <= addr < 0xe_0000
      reads pam
    {
      (pam[(addr - 0xc_0000) / 0x8000] >> (if addr / 0x4000 % 2 == 1 then 4 else 0)) & 3 == 1
    }

    lemma AttrReadOnly(addr: nat)
      requires pam.Length == 8 && SHADOW_START <= addr < SHADOW_END && Attr(WindowOf(addr)) == READ_ENABLE
      ensures ReadOnly(addr)
    {
      WindowParts(addr);
    }

    ghost predicate Holds(im: Image)
      requires Shape()
      reads this, ram
    {
      im.start + |im.content| <= romStart && Stored(ram[..], im)
    }

    /** All images copied so far are intact, in order and apart. */
    ghost predicate Valid()
      reads this, ram
    {
      && Shape()
      && (forall i :: 0 <= i < |images| ==> Holds(images[i]))
      && (forall i, j :: 0 <= i < j < |images| ==> Apart(images[i], images[j]))
    }

    constructor ()
      ensures Valid() && romStart == SHADOW_START && images == [] && fresh(ram) && fresh(pam)
    {
      ram := new u8[SHADOW_END - SHADOW_START](_ => 0);
      pam := new bv8[8](_ => 0);
      romStart := SHADOW_START;
      images := [];
    }

    method SetWindow(w: nat, a: bv8)
      requires pam.Length == 8 && w < 16 && a < 4
      modifies pam
      ensures forall k: nat :: k < 16 ==> Attr(k) == if k == w then a else old(Attr(k))
      ensures forall r :: 0 <= r < 8 ==> pam[r] & 0xcc == old(pam[r]) & 0xcc
    {
      hide GetAttr, SetAttr;
      SetAttrExactly(pam[w / 2], w % 2 == 1, a);
      pam[w / 2] := SetAttr(pam[w / 2], w % 2 == 1, a);
    }

    /** Copies `n` bytes of the ROM from offset `from` to address `to`. Writes reach
        RAM only in a window that is write-enabled, so all bytes must lie in one
        such window. */
    method CopyBytes(to: nat, rom: nat -> u8, from: nat, n: nat)
      requires ram.Length == SHADOW_END - SHADOW_START && SHADOW_START <= to && to + n <= SHADOW_END
      requires pam.Length == 8 && Attr(WindowOf(to)) == WRITE_ENABLE
      requires n > 0 ==> WindowOf(to + n - 1) == WindowOf(to)
      modifies ram
      ensures forall k :: 0 <= k < ram.Length ==>
                            ram[k] == if to - SHADOW_START <= k < to + n - SHADOW_START
                                      then rom(from + (k - (to - SHADOW_START)))
                                      else old(ram[k])
    {
      var base := to - SHADOW_START;
      for i := 0 to n
        invariant forall k :: 0 <= k < ram.Length ==>
                                ram[k] == if base <= k < base + i then rom(from + (k - base)) else old(ram[k])
      {
        ram[base + i] := rom(from + i);
      }
    }

    /** Makes one window writable, copies into it, and protects it again. */
    method CopyChunk(to: nat, rom: nat -> u8, from: nat, n: nat)
      requires ram.Length == SHADOW_END - SHADOW_START && pam.Length == 8
      requires SHADOW_START <= to && to + n <= SHADOW_END && to % WINDOW + n <= WINDOW
      modifies ram, pam
      ensures forall k :: 0 <= k < ram.Length ==>
                            ram[k] == if to - SHADOW_START <= k < to + n - SHADOW_START
                                      then rom(from + (k - (to - SHADOW_START)))
                                      else old(ram[k])
      ensures forall w: nat :: w < 16 ==> Attr(w) == if w == WindowOf(to) then READ_ENABLE else old(Attr(w))
      ensures forall r :: 0 <= r < 8 ==> pam[r] & 0xcc == old(pam[r]) & 0xcc
    {
      hide GetAttr;
      var w := WindowOf(to);
      SetWindow(w, WRITE_ENABLE);
      CopyBytes(to, rom, from, n);
      SetWindow(w, READ_ENABLE);
    }

    /** Shadows one ROM, if it has an address and there is room for it. The memory
        behind the ROM's address is read through `rom`. */
    method InitPciRom(paddr: u32, rom: nat -> u8)
      requires Valid()
      modifies this, ram, pam
      ensures Valid()
      ensures paddr == 0 || old(romStart) + RomSize(rom(2)) > SHADOW_END ==>
                romStart == old(romStart) && images == old(images) && pam[..] == old(pam[..])
      ensures paddr != 0 && old(romStart) + RomSize(rom(2)) <= SHADOW_END ==>
                && romStart == old(romStart) + RomSize(rom(2))
                && images == old(images) + [Image(old(romStart), Content(rom, RomSize(rom(2))))]
                && (forall w: nat :: w < 16 ==>
                                       Attr(w) == if Touched(w, old(romStart), RomSize(rom(2)))
                                                  then READ_ENABLE
                                                  else old(Attr(w)))
      ensures forall k :: 0 <= k < ram.Length && !(old(romStart) <= SHADOW_START + k < romStart) ==>
                            ram[k] == old(ram[k])
      ensures forall k :: 0 <= k < ram.Length && old(romStart) <= SHADOW_START + k < romStart ==>
                            ram[k] == rom(k - (old(romStart) - SHADOW_START)) && ReadOnly(SHADOW_START + k)
      ensures forall r :: 0 <= r < 8 ==> pam[r] & 0xcc == old(pam[r]) & 0xcc
    {
      hide GetAttr, Touched, RomSize, Content, WindowOf, Attr;
      if paddr == 0 {
        return;
      }
      var size := RomSize(rom(2));
      if romStart + size > SHADOW_END {
        return;
      }
      ghost var start := romStart;
      ShadowRom(rom, size);
      forall k: nat | start <= k < romStart ensures ReadOnly(k) {
        WithinTouched(k, start, size);
        AttrReadOnly(k);
      }
    }

    method ShadowRom(rom: nat -> u8, size: nat)
      requires Valid() && romStart + size <= SHADOW_END
      modifies this, ram, pam
      ensures Valid() && romStart == old(romStart) + size
      ensures images == old(images) + [Image(old(romStart), Content(rom, size))]
      ensures forall w: nat :: w < 16 ==>
                                 Attr(w) == if Touched(w, old(romStart), size) then READ_ENABLE else old(Attr(w))
      ensures forall k :: 0 <= k < ram.Length && !(old(romStart) <= SHADOW_START + k < romStart) ==>
                            ram[k] == old(ram[k])
      ensures forall k :: 0 <= k < ram.Length && old(romStart) <= SHADOW_START + k < romStart ==>
                            ram[k] == rom(k - (old(romStart) - SHADOW_START))
      ensures forall r :: 0 <= r < 8 ==> pam[r] & 0xcc == old(pam[r]) & 0xcc
    {
      hide GetAttr, Touched, Stored;
      ghost var before, from := ram[..], romStart;
      CopyRom(rom, size);
      ghost var im := Image(romStart, Content(rom, size));
      romStart := romStart + size;
      CopiedIsStored(ram[..], im);
      forall i | 0 <= i < |images| ensures Holds(images[i]) {
        StoredKept(before, ram[..], images[i], from);
      }
      images := images + [im];
    }

    /** The copy loop. Each round stays inside one window, and makes it writable
        for exactly as long as the copy takes. */
    method CopyRom(rom: nat -> u8, size: nat)
      requires Shape() && romStart + size <= SHADOW_END
      modifies ram, pam
      ensures forall k :: 0 <= k < ram.Length ==>
                            ram[k] == if romStart <= SHADOW_START + k < romStart + size
                                      then rom(k - (romStart - SHADOW_START))
                                      else old(ram[k])
      ensures forall w: nat :: w < 16 ==> Attr(w) == if Touched(w, romStart, size) then READ_ENABLE else old(Attr(w))
      ensures forall r :: 0 <= r < 8 ==> pam[r] & 0xcc == old(pam[r]) & 0xcc
    {
      hide GetAttr, Touched, WindowOf;
      var tmpaddr, copied := romStart, 0;
      var first := true;
      while first || copied < size
        invariant copied <= size && tmpaddr == romStart + copied
        invariant first ==> copied == 0
        invariant !first && copied < size ==> tmpaddr % WINDOW == 0 && copied > 0
        invariant forall k :: 0 <= k < ram.Length ==>
                                ram[k] == if romStart <= SHADOW_START + k < romStart + copied
                                          then rom(k - (romStart - SHADOW_START))
                                          else old(ram[k])
        invariant forall w: nat :: w < 16 ==>
                                     Attr(w) == if !first && Touched(w, romStart, copied)
                                                then READ_ENABLE
                                                else old(Attr(w))
        invariant forall r :: 0 <= r < 8 ==> pam[r] & 0xcc == old(pam[r]) & 0xcc
        decreases size - copied, first
      {
        var tmpsize := WINDOW - tmpaddr % WINDOW;
        if size - copied < tmpsize {
          tmpsize := size - copied;
        }
        TouchedNext(romStart, copied, tmpsize);
        CopyChunk(tmpaddr, rom, copied, tmpsize);
        tmpaddr := tmpaddr + tmpsize;
        copied := copied + tmpsize;
        first := false;
      }
    }
  }
}

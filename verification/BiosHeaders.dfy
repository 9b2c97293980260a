/** What the patcher does to an image, in terms of the bytes that stand in it. */
module BiosHeaders {
  import opened Machine
  import opened Wrappers
  import opened BiosSums

  /** `sig` stands at offset o, and on no other 16-byte boundary that is searched. */
  ghost predicate OnlyAt(d: seq<u8>, sig: seq<u8>, o: nat)
    requires |d| == 0x1_0000 && |sig| == 4
  {
    && 16 <= o <= 0xfff0 && o % 16 == 0 && d[o..o + 4] == sig
    && forall i :: 16 <= i <= 0xfff0 && i % 16 == 0 && d[i..i + 4] == sig ==> i == o
  }

  lemma SignedExactly(k: Kind, d: seq<u8>, o: nat)
    requires |d| == SIZE && o <= 0xfff0
    ensures Signed(k, d, o) <==> d[o..o + 4] == Signature(k)
  {
    hide Signature;
    var s := Signature(k);
    assert d[o..o + 4] == [d[o], d[o + 1], d[o + 2], d[o + 3]] && s == [s[0], s[1], s[2], s[3]];
  }

  lemma SingleFound(k: Kind, d: seq<u8>, o: nat)
    requires |d| == SIZE && OnlyAt(d, Signature(k), o)
    ensures Found(k, d) == [o]
  {
    hide Signed, Hits, Signature;
    forall i | 16 <= i <= 16 * SLOTS && i % 16 == 0 ensures Signed(k, d, i) <==> i == o {
      SignedExactly(k, d, i);
    }
    OnlyHit(k, d, o);
  }

  /** An image with a single header of a kind: the pass goes through if and only if the
      checks on that header do, and then writes its checksum byte. */
  lemma SingleHeader(k: Kind, d: seq<u8>, o: nat)
    requires |d| == SIZE && OnlyAt(d, Signature(k), o)
    ensures PatchKind(k, d).Ok? <==> CheckAt(k, d, o).None?
    ensures CheckAt(k, d, o).Some? ==> PatchKind(k, d) == Err(CheckAt(k, d, o).value)
    ensures CheckAt(k, d, o).None? ==>
              var e := PatchKind(k, d).image;
              && e == d[o + ChecksumAt(k) := Calc(k, d, o)]
              && (ChecksumAt(k) < Length(k, d, o) ==> SumTo(e, o, Length(k, d, o), -1) % 256 == 0)
  {
    hide Hits, Signed, Signature, SumTo, Length;
    SingleFound(k, d, o);
    assert FirstFault(k, d, [o]) == CheckAt(k, d, o) by {
      assert [o][..0] == [] && FirstFault(k, d, []).None?;
    }
    if CheckAt(k, d, o).None? {
      CalcExactly(k, d, o);
    }
  }

  /** The image with one byte changed, so that the header of n bytes at o sums to zero if
      the byte lies inside it. */
  ghost predicate Fixed(r: Result, d: seq<u8>, o: nat, at: nat, n: nat)
    requires |d| == 0x1_0000 && at < 0x1_0000 && o + n <= 0x1_0000
  {
    && r.Ok? && |r.image| == |d| && (forall i :: 0 <= i < |d| && i != at ==> r.image[i] == d[i])
    && (at < o + n ==> SumTo(r.image, o, n, -1) % 256 == 0)
  }

  /** "_32_": the length at offset 9 counts units of 16 bytes, the checksum is at 10. */
  lemma PciBiosHeader(d: seq<u8>, o: nat)
    requires |d| == 0x1_0000 && OnlyAt(d, ['_' as u8, '3' as u8, '2' as u8, '_' as u8], o)
    ensures var n := (d[o + 9] as int) * 16;
            if o + 16 <= 0xffff && o + n <= 0xffff then Fixed(PatchKind(Pci32, d), d, o, o + 10, n)
            else PatchKind(Pci32, d) == Err(if o + 10 > 0xffff then ChecksumOutOfBounds(Pci32)
                                           else if o + 16 > 0xffff then HeaderOutOfBounds(Pci32)
                                           else LengthOutOfBounds(Pci32))
  {
    hide SumTo, PatchKind, OnlyAt;
    assert ['_' as u8, '3' as u8, '2' as u8, '_' as u8] == Signature(Pci32);
    SingleHeader(Pci32, d, o);
  }

  /** "_MP_": the length at offset 8 counts units of 16 bytes, the checksum is at 10. */
  lemma MpHeader(d: seq<u8>, o: nat)
    requires |d| == 0x1_0000 && OnlyAt(d, ['_' as u8, 'M' as u8, 'P' as u8, '_' as u8], o)
    ensures var n := (d[o + 8] as int) * 16;
            if o + 16 <= 0xffff && o + n <= 0xffff then Fixed(PatchKind(Mp, d), d, o, o + 10, n)
            else PatchKind(Mp, d) == Err(if o + 10 > 0xffff then ChecksumOutOfBounds(Mp)
                                           else if o + 16 > 0xffff then HeaderOutOfBounds(Mp)
                                           else LengthOutOfBounds(Mp))
  {
    hide SumTo, PatchKind, OnlyAt;
    assert ['_' as u8, 'M' as u8, 'P' as u8, '_' as u8] == Signature(Mp);
    SingleHeader(Mp, d, o);
  }

  /** "PCMP": two bytes of length at offset 4, the checksum at 7, and no extended tables,
      whose length and checksum are at 40 to 42. */
  lemma PcmpHeader(d: seq<u8>, o: nat)
    requires |d| == 0x1_0000 && OnlyAt(d, ['P' as u8, 'C' as u8, 'M' as u8, 'P' as u8], o)
    ensures var n := d[o + 4] + (d[o + 5] as int) * 256;
            if o + 42 <= 0xffff && o + n <= 0xffff && d[o + 40] == d[o + 41] == d[o + 42] == 0
            then Fixed(PatchKind(Pcmp, d), d, o, o + 7, n)
            else PatchKind(Pcmp, d) == Err(if o + 7 > 0xffff then ChecksumOutOfBounds(Pcmp)
                                           else if o + 42 > 0xffff then HeaderOutOfBounds(Pcmp)
                                           else if o + n > 0xffff then LengthOutOfBounds(Pcmp) else ExtendedTables)
  {
    hide SumTo, PatchKind, OnlyAt;
    assert ['P' as u8, 'C' as u8, 'M' as u8, 'P' as u8] == Signature(Pcmp);
    SingleHeader(Pcmp, d, o);
  }

  /** "$PIR": two bytes of length at offset 6, the checksum at 31. */
  lemma PirHeader(d: seq<u8>, o: nat)
    requires |d| == 0x1_0000 && OnlyAt(d, ['$' as u8, 'P' as u8, 'I' as u8, 'R' as u8], o)
    ensures var n := d[o + 6] + (d[o + 7] as int) * 256;
            if o + 32 <= 0xffff && o + n <= 0xffff then Fixed(PatchKind(Pir, d), d, o, o + 31, n)
            else PatchKind(Pir, d) == Err(if o + 31 > 0xffff then ChecksumOutOfBounds(Pir)
                                           else if o + 32 > 0xffff then HeaderOutOfBounds(Pir)
                                           else LengthOutOfBounds(Pir))
  {
    hide SumTo, PatchKind, OnlyAt;
    assert ['$' as u8, 'P' as u8, 'I' as u8, 'R' as u8] == Signature(Pir);
    SingleHeader(Pir, d, o);
  }

  /** "$PnP": one byte of length at offset 5, the checksum at 8. */
  lemma PnpHeader(d: seq<u8>, o: nat)
    requires |d| == 0x1_0000 && OnlyAt(d, ['$' as u8, 'P' as u8, 'n' as u8, 'P' as u8], o)
    ensures var n: int := d[o + 5];
            if o + 32 <= 0xffff && o + n <= 0xffff then Fixed(PatchKind(Pnp, d), d, o, o + 8, n)
            else PatchKind(Pnp, d) == Err(if o + 8 > 0xffff then ChecksumOutOfBounds(Pnp)
                                           else if o + 32 > 0xffff then HeaderOutOfBounds(Pnp)
                                           else LengthOutOfBounds(Pnp))
  {
    hide SumTo, PatchKind, OnlyAt;
    assert ['$' as u8, 'P' as u8, 'n' as u8, 'P' as u8] == Signature(Pnp);
    SingleHeader(Pnp, d, o);
  }

  function Then(r: Result, k: Kind): Result
    requires r.Ok? ==> |r.image| == SIZE
  {
    if r.Ok? then PatchKind(k, r.image) else r
  }

  /** The passes in the order of the program, each on the image that the one before it
      left; the first error ends the run. */
  lemma PassesInOrder(d: seq<u8>)
    requires |d| == SIZE
    ensures var r := Then(Then(Then(Then(PatchKind(Pci32, d), Mp), Pcmp), Pir), Pnp);
            Patch(d) == if r.Ok? then Ok(SetLast(r.image)) else r
  {
    hide PatchKind, SetLast;
    PatchesOne(d, 0);
    PatchesOne(d, 1);
    PatchesOne(d, 2);
    PatchesOne(d, 3);
    PatchesOne(d, 4);
  }

  lemma PatchesOne(d: seq<u8>, n: nat)
    requires |d| == SIZE && n < |ORDER|
    ensures PatchKinds(0, d) == Ok(d) && PatchKinds(n + 1, d) == Then(PatchKinds(n, d), ORDER[n])
  {
  }
}

/** Checksums of a 64 KB BIOS image: five kinds of embedded header are searched for,
    checked and patched, and then the last byte balances the whole image. */
module BiosSums {
  import opened Machine
  import opened Wrappers

  const SIZE := 0x1_0000
  const MAX_OFFSET := 0xffff
  const SLOTS := 0xfff

  /** The headers _32_, _MP_, PCMP, $PIR and $PnP. */
  datatype Kind = Pci32 | Mp | Pcmp | Pir | Pnp

  const ORDER: seq<Kind> := [Pci32, Mp, Pcmp, Pir, Pnp]

  datatype Fault =
    | ChecksumOutOfBounds(k: Kind)
    | HeaderOutOfBounds(k: Kind)
    | LengthOutOfBounds(k: Kind)
    | ExtendedTables

  datatype Result = Ok(image: seq<u8>) | Err(fault: Fault)

  function Signature(k: Kind): (s: seq<u8>)
    ensures |s| == 4
  {
    match k
    case Pci32 => [0x5f, 0x33, 0x32, 0x5f]
    case Mp => [0x5f, 0x4d, 0x50, 0x5f]
    case Pcmp => [0x50, 0x43, 0x4d, 0x50]
    case Pir => [0x24, 0x50, 0x49, 0x52]
    case Pnp => [0x24, 0x50, 0x6e, 0x50]
  }

  function ChecksumAt(k: Kind): nat {
    match k
    case Pci32 => 10
    case Mp => 10
    case Pcmp => 7
    case Pir => 31
    case Pnp => 8
  }

  function MinHeader(k: Kind): nat {
    match k
    case Pci32 => 16
    case Mp => 16
    case Pcmp => 42
    case Pir => 32
    case Pnp => 32
  }

  /** The length that a header states for itself. */
  function Length(k: Kind, d: seq<u8>, o: nat): nat
    requires |d| == SIZE && o + MinHeader(k) <= MAX_OFFSET
  {
    match k
    case Pci32 => (d[o + 9] as int) * 16
    case Mp => (d[o + 8] as int) * 16
    case Pcmp => d[o + 4] + (d[o + 5] as int) * 256
    case Pir => d[o + 6] + (d[o + 7] as int) * 256
    case Pnp => d[o + 5]
  }

  predicate Signed(k: Kind, d: seq<u8>, o: nat)
    requires |d| == SIZE && o <= 16 * SLOTS
  {
    var s := Signature(k);
    d[o] == s[0] && d[o + 1] == s[1] && d[o + 2] == s[2] && d[o + 3] == s[3]
  }

  /** The headers of a kind at 16, 32, .. 16 * n, in order. */
  function Hits(k: Kind, d: seq<u8>, n: nat): seq<nat>
    requires |d| == SIZE && n <= SLOTS
  {
    if n == 0 then []
    else Hits(k, d, n - 1) + (if Signed(k, d, 16 * n) then [16 * n] else [])
  }

  function Found(k: Kind, d: seq<u8>): seq<nat>
    requires |d| == SIZE
  {
    Hits(k, d, SLOTS)
  }

  /** Each signature on a 16-byte boundary above offset 0 is listed, once and in order. */
  lemma {:induction false} HitsExactly(k: Kind, d: seq<u8>, n: nat)
    requires |d| == SIZE && n <= SLOTS
    ensures forall o :: o in Hits(k, d, n) <==> 16 <= o <= 16 * n && o % 16 == 0 && Signed(k, d, o)
    ensures forall i, j :: 0 <= i < j < |Hits(k, d, n)| ==> Hits(k, d, n)[i] < Hits(k, d, n)[j]
  {
    hide Signed;
    if n > 0 {
      HitsExactly(k, d, n - 1);
      forall o | 16 <= o <= 16 * n && o % 16 == 0
        ensures o <= 16 * (n - 1) || o == 16 * n
      {
      }
      var before := Hits(k, d, n - 1);
      assert forall i :: 0 <= i < |before| ==> before[i] in before;
    }
  }

  /** The sum of d[o..o + n], without the byte at o + skip. */
  function SumTo(d: seq<u8>, o: nat, n: nat, skip: int): nat
    requires o + n <= |d|
  {
    if n == 0 then 0 else SumTo(d, o, n - 1, skip) + (if n - 1 == skip then 0 else d[o + n - 1])
  }

  lemma {:induction false} SumWithout(d: seq<u8>, o: nat, n: nat, skip: nat)
    requires o + n <= |d|
    ensures SumTo(d, o, n, -1) == SumTo(d, o, n, skip) + (if skip < n then d[o + skip] else 0)
  {
    if n > 0 {
      SumWithout(d, o, n - 1, skip);
    }
  }

  lemma {:induction false} SumSame(d: seq<u8>, e: seq<u8>, o: nat, n: nat, skip: int)
    requires |d| == |e| && o + n <= |d|
    requires forall i :: o <= i < o + n && i != o + skip ==> d[i] == e[i]
    ensures SumTo(d, o, n, skip) == SumTo(e, o, n, skip)
  {
    if n > 0 {
      SumSame(d, e, o, n - 1, skip);
    }
  }

  /** The first of the checks on a header that fails. */
  function CheckAt(k: Kind, d: seq<u8>, o: nat): Option<Fault>
    requires |d| == SIZE
  {
    if o + ChecksumAt(k) > MAX_OFFSET then Some(ChecksumOutOfBounds(k))
    else if o + MinHeader(k) > MAX_OFFSET then Some(HeaderOutOfBounds(k))
    else if o + Length(k, d, o) > MAX_OFFSET then Some(LengthOutOfBounds(k))
    else if k == Pcmp && (d[o + 40] != 0 || d[o + 41] != 0 || d[o + 42] != 0) then Some(ExtendedTables)
    else None
  }

  function FirstFault(k: Kind, d: seq<u8>, hits: seq<nat>): Option<Fault>
    requires |d| == SIZE
  {
    if hits == [] then None
    else
      var f := FirstFault(k, d, hits[..|hits| - 1]);
      if f.Some? then f else CheckAt(k, d, hits[|hits| - 1])
  }

  lemma {:induction false} FaultStays(k: Kind, d: seq<u8>, p: seq<nat>, hits: seq<nat>)
    requires |d| == SIZE && p <= hits && FirstFault(k, d, p).Some?
    ensures FirstFault(k, d, hits) == FirstFault(k, d, p)
    decreases |hits|
  {
    if |p| < |hits| {
      FaultStays(k, d, p, hits[..|hits| - 1]);
    } else {
      assert p == hits;
    }
  }

  lemma {:induction false} NoFaultAnywhere(k: Kind, d: seq<u8>, hits: seq<nat>)
    requires |d| == SIZE && FirstFault(k, d, hits).None?
    ensures forall i :: 0 <= i < |hits| ==> CheckAt(k, d, hits[i]).None?
    decreases |hits|
  {
    hide CheckAt;
    if hits != [] {
      NoFaultAnywhere(k, d, hits[..|hits| - 1]);
    }
  }

  /** The checksum byte that a header ought to have. */
  function Calc(k: Kind, d: seq<u8>, o: nat): u8
    requires |d| == SIZE && CheckAt(k, d, o).None?
  {
    (0 - SumTo(d, o, Length(k, d, o), ChecksumAt(k))) % 256
  }

  /** One kind's pass over the image. */
  function PatchKind(k: Kind, d: seq<u8>): (r: Result)
    requires |d| == SIZE
    ensures r.Ok? ==> |r.image| == SIZE
  {
    var f := FirstFault(k, d, Found(k, d));
    if f.Some? then Err(f.value)
    else if |Found(k, d)| != 1 then Ok(d)
    else
      NoFaultAnywhere(k, d, Found(k, d));
      var o := Found(k, d)[0];
      Ok(d[o + ChecksumAt(k) := Calc(k, d, o)])
  }

  /** The passes of the first n kinds. */
  function PatchKinds(n: nat, d: seq<u8>): (r: Result)
    requires |d| == SIZE && n <= |ORDER|
    ensures r.Ok? ==> |r.image| == SIZE
  {
    if n == 0 then Ok(d)
    else
      var r := PatchKinds(n - 1, d);
      if r.Err? then r else PatchKind(ORDER[n - 1], r.image)
  }

  function SetLast(d: seq<u8>): seq<u8>
    requires |d| == SIZE
  {
    d[MAX_OFFSET := (0 - SumTo(d, 0, MAX_OFFSET, -1)) % 256]
  }

  function Patch(d: seq<u8>): (r: Result)
    requires |d| == SIZE
    ensures r.Ok? ==> |r.image| == SIZE
  {
    var r := PatchKinds(|ORDER|, d);
    if r.Err? then r else Ok(SetLast(r.image))
  }

  /** The sum of all bytes of a header. */
  function HeaderSum(k: Kind, d: seq<u8>, o: nat): nat
    requires |d| == SIZE && o + MinHeader(k) <= MAX_OFFSET && o + Length(k, d, o) <= MAX_OFFSET
  {
    SumTo(d, o, Length(k, d, o), -1)
  }

  /** The header does not move, and its length reads the same, whatever its checksum is. */
  lemma LengthKept(k: Kind, d: seq<u8>, o: nat, b: u8)
    requires |d| == SIZE && o + MinHeader(k) <= MAX_OFFSET
    ensures Length(k, d[o + ChecksumAt(k) := b], o) == Length(k, d, o)
  {
  }

  /** Writing the calculated byte makes the header sum to zero if and only if the
      header is long enough to hold the byte, or summed to zero before. */
  lemma CalcExactly(k: Kind, d: seq<u8>, o: nat)
    requires |d| == SIZE && CheckAt(k, d, o).None?
    ensures var e := d[o + ChecksumAt(k) := Calc(k, d, o)];
            && Length(k, e, o) == Length(k, d, o)
            && (HeaderSum(k, e, o) % 256 == 0 <==> ChecksumAt(k) < Length(k, d, o) || HeaderSum(k, d, o) % 256 == 0)
  {
    var c, n := ChecksumAt(k), Length(k, d, o);
    var e := d[o + c := Calc(k, d, o)];
    LengthKept(k, d, o, Calc(k, d, o));
    SumWithout(d, o, n, c);
    SumWithout(e, o, n, c);
    SumSame(d, e, o, n, c);
  }

  function ShortHeader(): (d: seq<u8>)
    ensures |d| == SIZE
  {
    seq(SIZE, i => if i == 16 then 0x50 else if i == 17 then 0x43 else if i == 18 then 0x4d
                   else if i == 19 then 0x50 else if i == 20 then 4 else 0)
  }

  lemma FourBytes(d: seq<u8>, o: nat)
    requires o + 4 <= |d|
    ensures SumTo(d, o, 4, -1) == (d[o] as int) + d[o + 1] + d[o + 2] + d[o + 3]
  {
    assert SumTo(d, o, 1, -1) == d[o];
    assert SumTo(d, o, 3, -1) == (d[o] as int) + d[o + 1] + d[o + 2];
  }

  lemma FirstTwo(hits: seq<nat>)
    requires |hits| > 1 && forall i, j :: 0 <= i < j < |hits| ==> hits[i] < hits[j]
    ensures hits[0] < hits[1]
  {
  }

  lemma OnlyElement(hits: seq<nat>, o: nat)
    requires o in hits && forall i :: 0 <= i < |hits| ==> hits[i] == o
    requires forall i, j :: 0 <= i < j < |hits| ==> hits[i] < hits[j]
    ensures hits == [o]
  {
    if |hits| > 1 {
      FirstTwo(hits);
    }
  }

  lemma OnlyHit(k: Kind, d: seq<u8>, o: nat)
    requires |d| == SIZE && 16 <= o <= 16 * SLOTS && o % 16 == 0 && Signed(k, d, o)
    requires forall i :: 16 <= i <= 16 * SLOTS && i != o && Signed(k, d, i) ==> i % 16 != 0
    ensures Found(k, d) == [o]
  {
    hide Signed;
    HitsExactly(k, d, SLOTS);
    var hits := Found(k, d);
    forall i | 0 <= i < |hits| ensures hits[i] == o {
      assert hits[i] in Hits(k, d, SLOTS);
    }
    OnlyElement(hits, o);
  }

  lemma ShortHeaderFound()
    ensures Found(Pcmp, ShortHeader()) == [16]
  {
    hide Hits;
    OnlyHit(Pcmp, ShortHeader(), 16);
  }

  /** A header that states a length of four bytes, too few for its checksum at offset
      seven: it passes all checks and is patched, and still sums to 0x130. */
  lemma ShortHeaderExample()
    ensures var d := ShortHeader();
            && PatchKind(Pcmp, d).Ok? && CheckAt(Pcmp, d, 16).None?
            && PatchKind(Pcmp, d).image == d[23 := Calc(Pcmp, d, 16)]
            && HeaderSum(Pcmp, PatchKind(Pcmp, d).image, 16) == 0x130
  {
    hide Found;
    var d := ShortHeader();
    var e := d[23 := Calc(Pcmp, d, 16)];
    ShortHeaderFound();
    assert FirstFault(Pcmp, d, [16]).None? by {
      assert FirstFault(Pcmp, d, []).None? && [16][..0] == [];
    }
    assert Length(Pcmp, d, 16) == 4 && Length(Pcmp, e, 16) == 4;
    FourBytes(e, 16);
  }

  /** No checksum byte shares a slot position with a signature, so patching neither
      makes nor destroys a signature. */
  lemma {:induction false} HitsKept(k: Kind, d: seq<u8>, j: Kind, o: nat, b: u8, n: nat)
    requires |d| == SIZE && o % 16 == 0 && o + ChecksumAt(j) < SIZE && n <= SLOTS
    ensures Hits(k, d[o + ChecksumAt(j) := b], n) == Hits(k, d, n)
  {
    if n > 0 {
      HitsKept(k, d, j, o, b, n - 1);
      var e := d[o + ChecksumAt(j) := b];
      assert forall i :: 16 * n <= i < 16 * n + 4 ==> i % 16 < 4 && e[i] == d[i];
    }
  }

  /** A kind with exactly one header, and where that is. */
  predicate Single(k: Kind, d: seq<u8>)
    requires |d| == SIZE
  {
    |Found(k, d)| == 1 && Found(k, d)[0] + MinHeader(k) <= MAX_OFFSET
  }

  function End(k: Kind, d: seq<u8>): nat
    requires |d| == SIZE && Single(k, d)
  {
    Found(k, d)[0] + Length(k, d, Found(k, d)[0])
  }

  /** The headers that will be patched cover their checksum bytes and do not overlap. */
  ghost predicate Separate(d: seq<u8>)
    requires |d| == SIZE
  {
    && (forall k :: Single(k, d) ==> Found(k, d)[0] + ChecksumAt(k) < End(k, d))
    && (forall j, k :: j != k && Single(j, d) && Single(k, d) ==>
                         End(j, d) <= Found(k, d)[0] || End(k, d) <= Found(j, d)[0])
  }

  /** The image e after some passes over d: nothing moved. */
  ghost predicate SamePlaces(d: seq<u8>, e: seq<u8>)
    requires |d| == SIZE && |e| == SIZE
  {
    && (forall k :: Found(k, e) == Found(k, d))
    && (forall k :: Single(k, d) ==> Length(k, e, Found(k, d)[0]) == Length(k, d, Found(k, d)[0]))
  }

  ghost predicate Balanced(k: Kind, e: seq<u8>)
    requires |e| == SIZE
  {
    Single(k, e) && End(k, e) <= MAX_OFFSET && HeaderSum(k, e, Found(k, e)[0]) % 256 == 0
  }

  /** A byte outside a header that covers its own length field changes neither its
      length nor its sum. */
  lemma OutsideByte(k: Kind, d: seq<u8>, o: nat, p: nat, b: u8)
    requires |d| == SIZE && o + MinHeader(k) <= MAX_OFFSET && ChecksumAt(k) < Length(k, d, o)
    requires p < SIZE && (p < o || o + Length(k, d, o) <= p)
    ensures Length(k, d[p := b], o) == Length(k, d, o)
    ensures o + Length(k, d, o) <= MAX_OFFSET ==> HeaderSum(k, d[p := b], o) == HeaderSum(k, d, o)
  {
    if o + Length(k, d, o) <= MAX_OFFSET {
      SumSame(d, d[p := b], o, Length(k, d, o), -1);
    }
  }

  lemma FoundAligned(k: Kind, d: seq<u8>, i: nat)
    requires |d| == SIZE && i < |Found(k, d)|
    ensures Found(k, d)[i] % 16 == 0
  {
    HitsExactly(k, d, SLOTS);
    assert Found(k, d)[i] in Hits(k, d, SLOTS);
  }

  /** What a successful pass does, when there is a single header. */
  lemma PatchSingle(k: Kind, e: seq<u8>)
    requires |e| == SIZE && PatchKind(k, e).Ok?
    ensures |Found(k, e)| == 1 ==>
              && Single(k, e) && CheckAt(k, e, Found(k, e)[0]).None?
              && PatchKind(k, e).image == e[Found(k, e)[0] + ChecksumAt(k) := Calc(k, e, Found(k, e)[0])]
    ensures |Found(k, e)| != 1 ==> PatchKind(k, e).image == e
  {
    hide Found, Calc, Length;
    NoFaultAnywhere(k, e, Found(k, e));
  }

  lemma PlacesKept(k: Kind, d: seq<u8>, e: seq<u8>, o: nat, b: u8)
    requires |d| == SIZE && |e| == SIZE && Separate(d) && SamePlaces(d, e)
    requires Single(k, d) && o == Found(k, d)[0]
    ensures SamePlaces(d, e[o + ChecksumAt(k) := b])
    ensures forall j :: j != k && Balanced(j, e) ==> Balanced(j, e[o + ChecksumAt(k) := b])
  {
    hide Hits, SumTo, Length;
    var p := o + ChecksumAt(k);
    FoundAligned(k, d, 0);
    forall j ensures Found(j, e[p := b]) == Found(j, d) {
      HitsKept(j, e, k, o, b, SLOTS);
    }
    forall j | Single(j, d)
      ensures Length(j, e[p := b], Found(j, d)[0]) == Length(j, d, Found(j, d)[0])
      ensures j != k && Balanced(j, e) ==> Balanced(j, e[p := b])
    {
      if j == k {
        LengthKept(k, e, o, b);
      } else {
        assert ChecksumAt(j) < Length(j, e, Found(j, d)[0]);
        OutsideByte(j, e, Found(j, d)[0], p, b);
      }
    }
  }

  /** One pass balances its own header and leaves every other as it was. */
  lemma PassBalances(k: Kind, d: seq<u8>, e: seq<u8>)
    requires |d| == SIZE && |e| == SIZE && Separate(d) && SamePlaces(d, e) && PatchKind(k, e).Ok?
    ensures SamePlaces(d, PatchKind(k, e).image)
    ensures |Found(k, d)| == 1 ==> Balanced(k, PatchKind(k, e).image)
    ensures forall j :: j != k && Balanced(j, e) ==> Balanced(j, PatchKind(k, e).image)
  {
    hide PatchKind, Hits, SumTo, Length, Calc;
    PatchSingle(k, e);
    if |Found(k, d)| == 1 {
      var o := Found(k, e)[0];
      PlacesKept(k, d, e, o, Calc(k, e, o));
      CalcExactly(k, e, o);
    }
  }

  lemma {:induction false} PassesBalance(n: nat, d: seq<u8>)
    requires |d| == SIZE && n <= |ORDER| && Separate(d) && PatchKinds(n, d).Ok?
    ensures SamePlaces(d, PatchKinds(n, d).image)
    ensures forall i :: 0 <= i < n && |Found(ORDER[i], d)| == 1 ==> Balanced(ORDER[i], PatchKinds(n, d).image)
  {
    hide Separate, SamePlaces, Balanced, PatchKind, Found;
    if n == 0 {
      SamePlacesAtFirst(d);
    } else {
      PassesBalance(n - 1, d);
      PassBalances(ORDER[n - 1], d, PatchKinds(n - 1, d).image);
    }
  }

  lemma SamePlacesAtFirst(d: seq<u8>)
    requires |d| == SIZE
    ensures SamePlaces(d, d)
  {
  }

  /** The whole image sums to zero after any successful run. */
  lemma ImageBalanced(d: seq<u8>)
    requires |d| == SIZE
    ensures SumTo(SetLast(d), 0, SIZE, -1) % 256 == 0
    ensures forall i :: 0 <= i < MAX_OFFSET ==> SetLast(d)[i] == d[i]
  {
    SumSame(d, SetLast(d), 0, MAX_OFFSET, -1);
    assert SumTo(SetLast(d), 0, SIZE, -1) == SumTo(SetLast(d), 0, MAX_OFFSET, -1) + SetLast(d)[MAX_OFFSET];
  }

  lemma LengthBeforeLast(k: Kind, e: seq<u8>, o: nat, b: u8)
    requires |e| == SIZE && o + MinHeader(k) <= MAX_OFFSET
    ensures Length(k, e[MAX_OFFSET := b], o) == Length(k, e, o)
  {
  }

  /** The last byte lies outside every accepted header. */
  lemma LastByteIsFree(e: seq<u8>)
    requires |e| == SIZE
    ensures forall k :: Found(k, SetLast(e)) == Found(k, e)
    ensures forall k :: Balanced(k, e) ==> Balanced(k, SetLast(e))
  {
    hide Hits, SumTo, Length;
    var b := SetLast(e)[MAX_OFFSET];
    assert SetLast(e) == e[MAX_OFFSET := b];
    forall k ensures Found(k, SetLast(e)) == Found(k, e) {
      HitsKept(k, e, Pir, 16 * SLOTS - 16, b, SLOTS);
    }
    forall k | Balanced(k, e) ensures Balanced(k, SetLast(e)) {
      var o := Found(k, e)[0];
      LengthBeforeLast(k, e, o, b);
      SumSame(e, SetLast(e), o, Length(k, e, o), -1);
    }
  }

  function Rank(k: Kind): (i: nat)
    ensures i < |ORDER| && ORDER[i] == k
  {
    match k
    case Pci32 => 0
    case Mp => 1
    case Pcmp => 2
    case Pir => 3
    case Pnp => 4
  }

  /** After a successful run every header found exactly once sums to zero, and so
      does the image. */
  lemma PatchedImageBalances(d: seq<u8>)
    requires |d| == SIZE && Separate(d) && Patch(d).Ok?
    ensures forall k :: |Found(k, d)| == 1 ==> Found(k, Patch(d).image) == Found(k, d) && Balanced(k, Patch(d).image)
    ensures SumTo(Patch(d).image, 0, SIZE, -1) % 256 == 0
  {
    hide Separate, Balanced, PatchKinds, Found, SetLast;
    var e := PatchKinds(|ORDER|, d).image;
    PassesBalance(|ORDER|, d);
    LastByteIsFree(e);
    ImageBalanced(e);
    forall k | |Found(k, d)| == 1
      ensures Found(k, Patch(d).image) == Found(k, d) && Balanced(k, Patch(d).image)
    {
      assert ORDER[Rank(k)] == k;
    }
  }

  lemma {:induction false} HitsPrefix(k: Kind, d: seq<u8>, n: nat, m: nat)
    requires |d| == SIZE && n <= m <= SLOTS
    ensures Hits(k, d, n) <= Hits(k, d, m)
  {
    if n < m {
      HitsPrefix(k, d, n, m - 1);
    }
  }

  /** The next header of a kind behind `offset`, or -1. */
  method GetOffset(k: Kind, data: array<u8>, offset: nat) returns (r: int)
    requires data.Length == SIZE && offset <= 16 * SLOTS
    ensures r == -1 ==> Found(k, data[..]) == Hits(k, data[..], (offset + 15) / 16)
    ensures r != -1 ==> offset < r <= 16 * SLOTS && r % 16 == 0
                        && Hits(k, data[..], r / 16) == Hits(k, data[..], (offset + 15) / 16) + [r]
  {
    var s := Signature(k);
    var at := (offset + 15) / 16 * 16;
    while at + 16 < MAX_OFFSET
      invariant offset <= at <= 16 * SLOTS && at % 16 == 0
      invariant Hits(k, data[..], at / 16) == Hits(k, data[..], (offset + 15) / 16)
      decreases MAX_OFFSET - at
    {
      at := at + 16;
      if data[at] == s[0] && data[at + 1] == s[1] && data[at + 2] == s[2] && data[at + 3] == s[3] {
        return at;
      }
    }
    return -1;
  }

  lemma SumNext(d: seq<u8>, o: nat, i: nat, skip: int)
    requires o + i < |d|
    ensures SumTo(d, o, i + 1, skip) == SumTo(d, o, i, skip) + (if i == skip then 0 else d[o + i])
  {
  }

  lemma SumOfNothing(d: seq<u8>, o: nat, skip: int)
    requires o <= |d|
    ensures SumTo(d, o, 0, skip) == 0
  {
  }

  /** The byte that makes data[o..o + n], without the byte at o + skip, sum to zero. */
  method Complement(data: array<u8>, o: nat, n: nat, skip: int) returns (sum: u8)
    requires o + n <= data.Length
    ensures sum == Byte(0 - SumTo(data[..], o, n, skip))
  {
    hide SumTo, Byte;
    SumOfNothing(data[..], o, skip);
    ByteLaws(0, 0);
    sum := 0;
    for i := 0 to n
      invariant sum == Byte(SumTo(data[..], o, i, skip))
    {
      SumNext(data[..], o, i, skip);
      if i != skip {
        ByteLaws(SumTo(data[..], o, i, skip), data[o + i]);
        sum := Byte((sum as int) + data[o + i]);
      }
    }
    ByteLaws(SumTo(data[..], o, n, skip), 0);
    sum := Byte(0 - (sum as int));
  }

  /** The length that the header at `offset` states. */
  method ReadLength(k: Kind, data: array<u8>, offset: nat) returns (len: nat)
    requires data.Length == SIZE && offset + MinHeader(k) <= MAX_OFFSET
    ensures len == Length(k, data[..], offset)
  {
    match k
    case Pci32 => len := (data[offset + 9] as int) * 16;
    case Mp => len := (data[offset + 8] as int) * 16;
    case Pcmp => len := data[offset + 4] + (data[offset + 5] as int) * 256;
    case Pir => len := data[offset + 6] + (data[offset + 7] as int) * 256;
    case Pnp => len := data[offset + 5];
  }

  /** The checksum byte for the header at `offset`, or the check that fails first. */
  method CalcValue(k: Kind, data: array<u8>, offset: nat) returns (fault: Option<Fault>, sum: u8)
    requires data.Length == SIZE && offset <= 16 * SLOTS
    ensures fault == CheckAt(k, data[..], offset)
    ensures fault.None? ==> sum == Calc(k, data[..], offset)
  {
    hide SumTo;
    sum := 0;
    if offset + ChecksumAt(k) > MAX_OFFSET {
      return Some(ChecksumOutOfBounds(k)), sum;
    }
    if offset + MinHeader(k) > MAX_OFFSET {
      return Some(HeaderOutOfBounds(k)), sum;
    }
    var len := ReadLength(k, data, offset);
    if offset + len > MAX_OFFSET {
      return Some(LengthOutOfBounds(k)), sum;
    }
    if k == Pcmp {
      if data[offset + 40] != 0 || data[offset + 41] != 0 || data[offset + 42] != 0 {
        return Some(ExtendedTables), sum;
      }
    }
    fault := None;
    sum := Complement(data, offset, len, ChecksumAt(k));
  }

  /** One kind's search and patch. */
  method PatchHeader(k: Kind, data: array<u8>) returns (fault: Option<Fault>)
    requires data.Length == SIZE
    modifies data
    ensures fault.Some? ==> PatchKind(k, old(data[..])) == Err(fault.value)
    ensures fault.None? ==> PatchKind(k, old(data[..])) == Ok(data[..])
  {
    hide CheckAt, Calc, Hits;
    ghost var d := data[..];
    assert Hits(k, d, 0) == [] by {
      NoHitsAtFirst(k, d);
    }
    var hits: nat, offset: nat, newValue: u8 := 0, 0, 0;
    var next := GetOffset(k, data, offset);
    while next != -1
      invariant data[..] == d && offset <= 16 * SLOTS && offset % 16 == 0
      invariant next == -1 ==> Found(k, d) == Hits(k, d, offset / 16)
      invariant next != -1 ==> offset < next <= 16 * SLOTS && next % 16 == 0
                               && Hits(k, d, next / 16) == Hits(k, d, offset / 16) + [next]
      invariant |Hits(k, d, offset / 16)| == hits && FirstFault(k, d, Hits(k, d, offset / 16)).None?
      invariant hits > 0 ==> Hits(k, d, offset / 16)[hits - 1] == offset
                             && CheckAt(k, d, offset).None? && newValue == Calc(k, d, offset)
      decreases if next == -1 then 0 else SIZE - next
    {
      assert Hits(k, d, next / 16)[..hits] == Hits(k, d, offset / 16);
      offset := next;
      fault, newValue := CalcValue(k, data, offset);
      if fault.Some? {
        HitsPrefix(k, d, offset / 16, SLOTS);
        FaultStays(k, d, Hits(k, d, offset / 16), Found(k, d));
        return;
      }
      hits := hits + 1;
      next := GetOffset(k, data, offset);
    }
    if hits == 1 {
      CheckedInBounds(k, d, offset);
      data[offset + ChecksumAt(k)] := newValue;
    }
    return None;
  }

  lemma NoHitsAtFirst(k: Kind, d: seq<u8>)
    requires |d| == SIZE
    ensures Hits(k, d, 0) == []
  {
  }

  lemma CheckedInBounds(k: Kind, d: seq<u8>, o: nat)
    requires |d| == SIZE && CheckAt(k, d, o).None?
    ensures o + ChecksumAt(k) <= MAX_OFFSET
  {
  }

  lemma {:induction false} PassFaultStays(n: nat, m: nat, d: seq<u8>)
    requires |d| == SIZE && n <= m <= |ORDER| && PatchKinds(n, d).Err?
    ensures PatchKinds(m, d) == PatchKinds(n, d)
  {
    if n < m {
      PassFaultStays(n, m - 1, d);
    }
  }

  /** The n-th pass, after the earlier ones went through. */
  method PatchNext(k: Kind, data: array<u8>, ghost d: seq<u8>, ghost n: nat) returns (fault: Option<Fault>)
    requires data.Length == |d| == SIZE && 1 <= n <= |ORDER| && ORDER[n - 1] == k
    requires PatchKinds(n - 1, d) == Ok(data[..])
    modifies data
    ensures fault.Some? ==> PatchKinds(|ORDER|, d) == Err(fault.value)
    ensures fault.None? ==> PatchKinds(n, d) == Ok(data[..])
  {
    hide PatchKind;
    fault := PatchHeader(k, data);
    if fault.Some? {
      PassFaultStays(n, |ORDER|, d);
    }
  }

  /** All passes in their order, then the last byte. The image is written out only
      when no check fails. */
  method PatchImage(data: array<u8>) returns (fault: Option<Fault>)
    requires data.Length == SIZE
    modifies data
    ensures fault.Some? ==> Patch(old(data[..])) == Err(fault.value)
    ensures fault.None? ==> Patch(old(data[..])) == Ok(data[..])
  {
    hide PatchKind, SumTo;
    ghost var d := data[..];
    fault := PatchNext(Pci32, data, d, 1);
    if fault.Some? {
      return;
    }
    fault := PatchNext(Mp, data, d, 2);
    if fault.Some? {
      return;
    }
    fault := PatchNext(Pcmp, data, d, 3);
    if fault.Some? {
      return;
    }
    fault := PatchNext(Pir, data, d, 4);
    if fault.Some? {
      return;
    }
    fault := PatchNext(Pnp, data, d, 5);
    if fault.Some? {
      return;
    }
    var value := Complement(data, 0, MAX_OFFSET, -1);
    data[MAX_OFFSET] := value;
    return None;
  }
}

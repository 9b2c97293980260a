/** The debugger's read of linear memory, one page at a time. */
module LinearRead {
  import opened Machine
  import opened Wrappers

  const PAGE := 0x1000

  /** Page translation moves whole pages: inside a page physical addresses run on
      with linear ones. */
  ghost predicate PageWise(xlate: u64 -> Option<u64>) {
    forall lin: u64, k: nat :: InPage(lin, k) ==>
                                 match xlate(lin)
                                 case None => xlate(lin + k).None?
                                 case Some(phy) => phy + k < 0x1_0000_0000_0000_0000 && xlate(lin + k) == Some(phy + k)
  }

  /** The byte k places on lies in the same page. */
  predicate InPage(lin: u64, k: nat) {
    lin % PAGE + k < PAGE
  }

  lemma PageFits(lin: u64, k: nat)
    requires InPage(lin, k)
    ensures lin + k < 0x1_0000_0000_0000_0000
  {
  }

  /** Linear addresses wrap around at 2^64. */
  function Linear(laddr: u64, i: nat): u64 {
    Wrap64(laddr + i)
  }

  /** The byte i places on from a linear address, if it is mapped and can be fetched. */
  function ByteAt(xlate: u64 -> Option<u64>, fetch: u64 -> Option<u8>, laddr: u64, i: nat): Option<u8> {
    match xlate(Linear(laddr, i))
    case None => None
    case Some(phy) => fetch(phy)
  }

  /** The byte k places on from a physical address. */
  function PhysicalByte(fetch: u64 -> Option<u8>, phy: u64, k: nat): Option<u8> {
    fetch(Wrap64(phy + k))
  }

  ghost predicate Readable(xlate: u64 -> Option<u64>, fetch: u64 -> Option<u8>, laddr: u64, from: nat, to: nat) {
    forall i: nat :: from <= i < to ==> ByteAt(xlate, fetch, laddr, i).Some?
  }

  ghost predicate Holds(buf: seq<u8>, xlate: u64 -> Option<u64>, fetch: u64 -> Option<u8>,
                        laddr: u64, from: nat, to: nat)
    requires to <= |buf|
  {
    forall i: nat :: from <= i < to ==> ByteAt(xlate, fetch, laddr, i) == Some(buf[i])
  }

  lemma LinearStep(laddr: u64, m: nat, k: nat)
    requires InPage(Linear(laddr, m), k)
    ensures Linear(laddr, m + k) == Linear(laddr, m) + k
  {
    PageFits(Linear(laddr, m), k);
  }

  /** Inside one page, physical bytes are linear bytes. */
  lemma SamePage(xlate: u64 -> Option<u64>, fetch: u64 -> Option<u8>, laddr: u64, m: nat, k: nat)
    requires PageWise(xlate) && InPage(Linear(laddr, m), k)
    ensures ByteAt(xlate, fetch, laddr, m + k)
            == match xlate(Linear(laddr, m)) case None => None case Some(phy) => PhysicalByte(fetch, phy, k)
  {
    LinearStep(laddr, m, k);
  }

  /** Fetches physical bytes. A byte that cannot be fetched reads as 0xff, and the
      whole fetch fails. */
  method FetchMem(fetch: u64 -> Option<u8>, paddr: u64, len: nat, buf: array<u8>, at: nat) returns (ok: bool)
    requires at + len <= buf.Length
    modifies buf
    ensures ok <==> forall k: nat :: k < len ==> PhysicalByte(fetch, paddr, k).Some?
    ensures ok ==> forall j: nat :: at <= j < at + len ==> PhysicalByte(fetch, paddr, j - at) == Some(buf[j])
    ensures forall j :: 0 <= j < buf.Length && !(at <= j < at + len) ==> buf[j] == old(buf[j])
  {
    hide PhysicalByte;
    ok := true;
    for i := 0 to len
      invariant ok <==> forall k: nat :: k < i ==> PhysicalByte(fetch, paddr, k).Some?
      invariant ok ==> forall j: nat :: at <= j < at + i ==> PhysicalByte(fetch, paddr, j - at) == Some(buf[j])
      invariant forall j :: 0 <= j < buf.Length && !(at <= j < at + len) ==> buf[j] == old(buf[j])
    {
      match PhysicalByte(fetch, paddr, i)
      case Some(b) => buf[at + i] := b;
      case None =>
        buf[at + i] := 0xff;
        ok := false;
    }
  }

  /** Translates one page and fetches the bytes asked for from it. */
  method ReadPage(xlate: u64 -> Option<u64>, fetch: u64 -> Option<u8>, laddr: u64, done: nat, n: nat, buf: array<u8>)
    returns (ok: bool)
    requires PageWise(xlate) && Linear(laddr, done) % PAGE + n <= PAGE && done + n <= buf.Length
    modifies buf
    ensures ok <==> xlate(Linear(laddr, done)).Some? && Readable(xlate, fetch, laddr, done, done + n)
    ensures ok ==> Holds(buf[..], xlate, fetch, laddr, done, done + n)
    ensures forall j :: 0 <= j < buf.Length && !(done <= j < done + n) ==> buf[j] == old(buf[j])
  {
    hide Linear, ByteAt, PhysicalByte;
    match xlate(Linear(laddr, done))
    case None => ok := false;
    case Some(phy) =>
      forall i: nat | done <= i < done + n
        ensures ByteAt(xlate, fetch, laddr, i) == PhysicalByte(fetch, phy, i - done)
      {
        SamePage(xlate, fetch, laddr, done, i - done);
      }
      ok := FetchMem(fetch, phy, n, buf, done);
      if !ok {
        var k: nat :| k < n && PhysicalByte(fetch, phy, k).None?;
        assert ByteAt(xlate, fetch, laddr, done + k).None?;
      }
  }

  /** The read succeeds exactly when every byte is mapped and can be fetched, and
      then the buffer holds those bytes. An empty read still needs its page. */
  method ReadLinear(xlate: u64 -> Option<u64>, fetch: u64 -> Option<u8>, laddr: u64, len: u32, buf: array<u8>)
    returns (ok: bool)
    requires PageWise(xlate) && len <= buf.Length
    modifies buf
    ensures ok <==> xlate(laddr).Some? && Readable(xlate, fetch, laddr, 0, len)
    ensures ok ==> Holds(buf[..], xlate, fetch, laddr, 0, len)
    ensures forall j :: len <= j < buf.Length ==> buf[j] == old(buf[j])
  {
    var done: nat, left: nat, lin: u64 := 0, len, laddr;
    while true
      invariant done + left == len && lin == Linear(laddr, done) && (done > 0 ==> left > 0 && xlate(laddr).Some?)
      invariant Readable(xlate, fetch, laddr, 0, done) && Holds(buf[..], xlate, fetch, laddr, 0, done)
      invariant forall j :: len <= j < buf.Length ==> buf[j] == old(buf[j])
      decreases left
    {
      hide ByteAt;
      var remainsInPage := PAGE - lin % PAGE;
      var readLen := if remainsInPage < left then remainsInPage else left;
      ok := ReadPage(xlate, fetch, laddr, done, readLen, buf);
      if !ok {
        LastMissing(xlate, fetch, laddr, done, readLen);
        return;
      }
      if remainsInPage >= left {
        return;
      }
      lin := Wrap64((lin as int) + readLen);
      left := left - readLen;
      done := done + readLen;
    }
  }

  /** A page that cannot be read makes some byte unreadable, or it is the first. */
  lemma LastMissing(xlate: u64 -> Option<u64>, fetch: u64 -> Option<u8>, laddr: u64, done: nat, n: nat)
    requires !(xlate(Linear(laddr, done)).Some? && Readable(xlate, fetch, laddr, done, done + n))
    ensures n > 0 ==> !Readable(xlate, fetch, laddr, done, done + n)
  {
    if xlate(Linear(laddr, done)).None? && n > 0 {
      assert ByteAt(xlate, fetch, laddr, done).None?;
    }
  }
}

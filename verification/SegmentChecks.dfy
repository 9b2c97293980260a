/** Limit and type checks on a segment, and the bits that remember their outcome. */
module SegmentChecks {
  import opened Machine

  const SEG_VALID_CACHE: bv8 := 0x01
  const SEG_ACCESS_ROK: bv8 := 0x02
  const SEG_ACCESS_WOK: bv8 := 0x04

  type SegmentType = t: nat | t < 16

  /** The part of the descriptor that the checks read and never change. */
  datatype Descriptor = Descriptor(present: bool, kind: SegmentType, limit: u32, big: bool)

  datatype Access = Read | Write | Execute

  predicate ExpandDown(kind: SegmentType) {
    4 <= kind <= 7
  }

  /** The types that admit an access: writing needs writable data, reading
      anything but execute-only code, execution is not restricted. */
  predicate Admits(kind: SegmentType, a: Access) {
    match a
    case Write => kind in {2, 3, 6, 7}
    case Read => kind !in {8, 9, 12, 13}
    case Execute => true
  }

  /** In the four bits of the type field: bit 3 marks code, bit 2 expand-down data, and bit 1
      data that can be written or code that can be read. */
  lemma TypeBits(kind: SegmentType)
    ensures ExpandDown(kind) <==> kind / 8 == 0 && kind / 4 % 2 == 1
    ensures Admits(kind, Write) <==> kind / 8 == 0 && kind / 2 % 2 == 1
    ensures Admits(kind, Read) <==> kind / 8 == 0 || kind / 2 % 2 == 1
    ensures Admits(kind, Execute)
  {
  }

  /** The number of bytes that `length` stands for; zero wraps to 2^32. */
  function Bytes(length: u32): nat {
    if length == 0 then 0x1_0000_0000 else length
  }

  /** Offsets are not reduced modulo 2^32: an access that runs past the end of
      the offset space is outside. */
  predicate Inside(d: Descriptor, byte: int) {
    if ExpandDown(d.kind) then d.limit < byte <= (if d.big then 0xffff_ffff else 0xffff)
    else 0 <= byte <= d.limit
  }

  ghost predicate AllInside(d: Descriptor, offset: u32, length: u32) {
    forall byte: int :: offset <= byte < offset + Bytes(length) ==> Inside(d, byte)
  }

  /** The meaning of a check: the type admits the access, and every byte of it
      lies inside the segment. */
  ghost predicate Allowed(d: Descriptor, a: Access, offset: u32, length: u32) {
    d.present && Admits(d.kind, a) && AllInside(d, offset, length)
  }

  /** The two limit tests of cpu/access.cc on 32-bit numbers, `len1` being length - 1. */
  predicate BeyondLimit(limit: u32, offset: u32, len1: u32) {
    offset > Wrap32(limit - len1) || len1 > limit
  }

  predicate OutsideDown(limit: u32, upper: u32, offset: u32, len1: u32) {
    offset <= limit || offset > upper || Wrap32(upper - offset) < len1
  }

  function Upper(d: Descriptor): u32 {
    if d.big then 0xffff_ffff else 0xffff
  }

  lemma NormalTest(d: Descriptor, offset: u32, length: u32)
    requires !ExpandDown(d.kind)
    ensures !BeyondLimit(d.limit, offset, Wrap32(length - 1))
            <==> AllInside(d, offset, length)
  {
    var last: nat := Bytes(length) - 1;
    assert Wrap32(length - 1) == last;
    if AllInside(d, offset, length) {
      assert Inside(d, offset + last);
    }
  }

  lemma DownTest(d: Descriptor, offset: u32, length: u32)
    requires ExpandDown(d.kind)
    ensures !OutsideDown(d.limit, Upper(d), offset, Wrap32(length - 1))
            <==> AllInside(d, offset, length)
  {
    var last: nat := Bytes(length) - 1;
    assert Wrap32(length - 1) == last;
    if AllInside(d, offset, length) {
      assert Inside(d, offset) && Inside(d, offset + last);
    }
  }

  /** The bits that a successful check adds. */
  function Learned(d: Descriptor, a: Access): bv8 {
    if d.limit < 31 then 0
    else
      match a
      case Write => if d.kind in {2, 3} then SEG_ACCESS_ROK | SEG_ACCESS_WOK else 0
      case Read => if ExpandDown(d.kind) then 0 else SEG_ACCESS_ROK
      case Execute => if ExpandDown(d.kind) || d.kind in {8, 9, 12, 13} then 0 else SEG_ACCESS_ROK
  }

  /** A set bit means that the plain limit test may replace the full check. */
  predicate Coherent(d: Descriptor, valid: bv8) {
    && (valid & SEG_ACCESS_ROK != 0 ==> d.present && Admits(d.kind, Read) && !ExpandDown(d.kind) && d.limit >= 31)
    && (valid & SEG_ACCESS_WOK != 0 ==> d.present && Admits(d.kind, Write) && !ExpandDown(d.kind) && d.limit >= 31)
  }

  class Segment {
    const cache: Descriptor
    var valid: bv8

    constructor (d: Descriptor)
      ensures cache == d && valid == SEG_VALID_CACHE && Coherent(cache, valid)
    {
      cache := d;
      valid := SEG_VALID_CACHE;
    }

    method WriteVirtualChecks(offset: u32, length: u32) returns (ok: bool)
      modifies this
      ensures ok <==> old(valid) != 0 && Allowed(cache, Write, offset, length)
      ensures valid == if ok then old(valid) | Learned(cache, Write) else old(valid)
      ensures valid == AfterChecks(cache, old(valid), [Check(Write, offset, length)])
      ensures Coherent(cache, old(valid)) ==> Coherent(cache, valid)
    {
      hide AllInside, BeyondLimit, OutsideDown, Coherent, AfterChecks;
      AfterOne(cache, valid, Check(Write, offset, length));
      if valid == 0 || !cache.present {
        return false;
      }
      var len1 := Wrap32((length as int) - 1);
      if cache.kind in {0, 1, 4, 5, 8, 9, 10, 11, 12, 13, 14, 15} {
        return false;
      } else if cache.kind in {2, 3} {
        NormalTest(cache, offset, length);
        if BeyondLimit(cache.limit, offset, len1) {
          return false;
        }
        if cache.limit >= 31 {
          valid := valid | (SEG_ACCESS_ROK | SEG_ACCESS_WOK);
        }
      } else {
        DownTest(cache, offset, length);
        if OutsideDown(cache.limit, Upper(cache), offset, len1) {
          return false;
        }
      }
      OrLaws(old(valid));
      if Coherent(cache, old(valid)) {
        LearnedCoherent(cache, old(valid), Check(Write, offset, length));
      }
      return true;
    }

    method ReadVirtualChecks(offset: u32, length: u32) returns (ok: bool)
      modifies this
      ensures ok <==> old(valid) != 0 && Allowed(cache, Read, offset, length)
      ensures valid == if ok then old(valid) | Learned(cache, Read) else old(valid)
      ensures valid == AfterChecks(cache, old(valid), [Check(Read, offset, length)])
      ensures Coherent(cache, old(valid)) ==> Coherent(cache, valid)
    {
      hide AllInside, BeyondLimit, OutsideDown, Coherent, AfterChecks;
      AfterOne(cache, valid, Check(Read, offset, length));
      if valid == 0 || !cache.present {
        return false;
      }
      var len1 := Wrap32((length as int) - 1);
      if cache.kind in {0, 1, 2, 3, 10, 11, 14, 15} {
        NormalTest(cache, offset, length);
        if BeyondLimit(cache.limit, offset, len1) {
          return false;
        }
        if cache.limit >= 31 {
          valid := valid | SEG_ACCESS_ROK;
        }
      } else if cache.kind in {4, 5, 6, 7} {
        DownTest(cache, offset, length);
        if OutsideDown(cache.limit, Upper(cache), offset, len1) {
          return false;
        }
      } else {
        return false;
      }
      OrLaws(old(valid));
      if Coherent(cache, old(valid)) {
        LearnedCoherent(cache, old(valid), Check(Read, offset, length));
      }
      return true;
    }

    method ExecuteVirtualChecks(offset: u32, length: u32) returns (ok: bool)
      modifies this
      ensures ok <==> old(valid) != 0 && Allowed(cache, Execute, offset, length)
      ensures valid == if ok then old(valid) | Learned(cache, Execute) else old(valid)
      ensures valid == AfterChecks(cache, old(valid), [Check(Execute, offset, length)])
      ensures Coherent(cache, old(valid)) ==> Coherent(cache, valid)
    {
      hide AllInside, BeyondLimit, OutsideDown, Coherent, AfterChecks;
      AfterOne(cache, valid, Check(Execute, offset, length));
      if valid == 0 || !cache.present {
        return false;
      }
      var len1 := Wrap32((length as int) - 1);
      if cache.kind in {0, 1, 2, 3, 10, 11, 14, 15} {
        NormalTest(cache, offset, length);
        if BeyondLimit(cache.limit, offset, len1) {
          return false;
        }
        if cache.limit >= 31 {
          valid := valid | SEG_ACCESS_ROK;
        }
      } else if cache.kind in {8, 9, 12, 13} {
        NormalTest(cache, offset, length);
        if BeyondLimit(cache.limit, offset, len1) {
          return false;
        }
      } else {
        DownTest(cache, offset, length);
        if OutsideDown(cache.limit, Upper(cache), offset, len1) {
          return false;
        }
      }
      OrLaws(old(valid));
      if Coherent(cache, old(valid)) {
        LearnedCoherent(cache, old(valid), Check(Execute, offset, length));
      }
      return true;
    }
  }

  /** A check that succeeds sets every bit that is coherent with the descriptor, except that
      only a write sets the write bit. */
  lemma LearnsExactly(d: Descriptor, a: Access, offset: u32, length: u32)
    requires Allowed(d, a, offset, length)
    ensures Learned(d, a) & SEG_ACCESS_ROK != 0 <==> Coherent(d, SEG_ACCESS_ROK)
    ensures Learned(d, a) & SEG_ACCESS_WOK != 0 <==> a == Write && Coherent(d, SEG_ACCESS_WOK)
    ensures Learned(d, a) & !(SEG_ACCESS_ROK | SEG_ACCESS_WOK) == 0
  {
  }

  lemma OrLaws(v: bv8)
    ensures v | 0 == v
    ensures (v | SEG_ACCESS_ROK) & SEG_ACCESS_WOK == v & SEG_ACCESS_WOK
  {
  }

  datatype Check = Check(access: Access, offset: u32, length: u32)

  /** The valid bits after a sequence of checks on one descriptor. */
  ghost function AfterChecks(d: Descriptor, valid: bv8, checks: seq<Check>): bv8
    decreases |checks|
  {
    if checks == [] then valid
    else
      var c := checks[|checks| - 1];
      var v := AfterChecks(d, valid, checks[..|checks| - 1]);
      if v != 0 && Allowed(d, c.access, c.offset, c.length) then v | Learned(d, c.access) else v
  }

  lemma AfterOne(d: Descriptor, valid: bv8, c: Check)
    ensures AfterChecks(d, valid, [c])
            == if valid != 0 && Allowed(d, c.access, c.offset, c.length) then valid | Learned(d, c.access) else valid
  {
    hide Allowed, Learned;
    assert [c][..0] == [];
  }

  lemma LearnedCoherent(d: Descriptor, valid: bv8, c: Check)
    requires Coherent(d, valid) && Allowed(d, c.access, c.offset, c.length)
    ensures Coherent(d, valid | Learned(d, c.access))
  {
    OrLaws(valid);
  }

  lemma {:induction false} ChecksKeepCoherent(d: Descriptor, valid: bv8, checks: seq<Check>)
    requires Coherent(d, valid)
    ensures Coherent(d, AfterChecks(d, valid, checks))
    decreases |checks|
  {
    hide Coherent, Learned, Allowed;
    if checks != [] {
      var init := checks[..|checks| - 1];
      ChecksKeepCoherent(d, valid, init);
      var c := checks[|checks| - 1];
      if Allowed(d, c.access, c.offset, c.length) {
        LearnedCoherent(d, AfterChecks(d, valid, init), c);
      }
    }
  }

  /** The plain test that the access routines use once the bit is set. */
  predicate FastTest(d: Descriptor, offset: u32, length: u32) {
    offset <= Wrap32(d.limit - Wrap32(length - 1))
  }

  /** After any sequence of checks on a freshly loaded descriptor, a set bit makes
      the plain test agree with the full check for every length from 1 to 32. */
  lemma FastTestAgrees(d: Descriptor, checks: seq<Check>, offset: u32, length: u32)
    requires 1 <= length <= 32
    ensures var valid := AfterChecks(d, SEG_VALID_CACHE, checks);
            && (valid & SEG_ACCESS_ROK != 0 ==> (FastTest(d, offset, length) <==> Allowed(d, Read, offset, length)))
            && (valid & SEG_ACCESS_WOK != 0 ==> (FastTest(d, offset, length) <==> Allowed(d, Write, offset, length)))
  {
    ChecksKeepCoherent(d, SEG_VALID_CACHE, checks);
    if !ExpandDown(d.kind) {
      NormalTest(d, offset, length);
    }
  }
}

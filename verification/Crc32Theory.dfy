/** What the checksum guarantees: it is a polynomial remainder, it is affine, it
    leaves a fixed residue, and it tells apart messages that differ in a burst. */
module Crc32Theory {
  import opened Crc32

  function XorBits(s: seq<bool>, t: seq<bool>): (r: seq<bool>)
    requires |s| == |t|
    ensures |r| == |s|
  {
    seq(|s|, i requires 0 <= i < |s| => s[i] != t[i])
  }

  function ByteXor(a: bv8, b: bv8): bv8 {
    a ^ b
  }

  function XorBytes(s: seq<bv8>, t: seq<bv8>): (r: seq<bv8>)
    requires |s| == |t|
    ensures |r| == |s|
  {
    seq(|s|, i requires 0 <= i < |s| => ByteXor(s[i], t[i]))
  }

  lemma FeedXor(c: bv32, d: bv32, a: bool, b: bool)
    ensures Feed(Xor(c, d), a != b) == Xor(Feed(c, a), Feed(d, b))
  {
    hide *;
    FeedAsTap(c, a);
    FeedAsTap(d, b);
    FeedAsTap(Xor(c, d), a != b);
    StepXor(c, d);
    TapXor(a, b);
    XorParts(Step(c), Tap(a), Step(d), Tap(b));
  }

  /** The register is linear in its contents and the message together. */
  lemma {:induction false} SerialXor(c: bv32, d: bv32, s: seq<bool>, t: seq<bool>)
    requires |s| == |t|
    ensures Serial(Xor(c, d), XorBits(s, t)) == Xor(Serial(c, s), Serial(d, t))
    decreases |s|
  {
    hide Xor, Feed;
    if s != [] {
      FeedXor(c, d, s[0], t[0]);
      assert XorBits(s, t)[1..] == XorBits(s[1..], t[1..]);
      SerialXor(Feed(c, s[0]), Feed(d, t[0]), s[1..], t[1..]);
    }
  }

  lemma TopBitXor(a: bv8, b: bv8)
    ensures TopBit(ByteXor(a, b)) == (TopBit(a) != TopBit(b)) && Double(ByteXor(a, b)) == ByteXor(Double(a), Double(b))
  {
  }

  lemma {:induction false} TopBitsXor(a: bv8, b: bv8, n: nat)
    ensures TopBits(ByteXor(a, b), n) == XorBits(TopBits(a, n), TopBits(b, n))
    decreases n
  {
    hide TopBit, Double, ByteXor;
    if n > 0 {
      TopBitXor(a, b);
      TopBitsXor(Double(a), Double(b), n - 1);
    }
  }

  lemma ByteBitsXor(a: bv8, b: bv8)
    ensures ByteBits(ByteXor(a, b)) == XorBits(ByteBits(a), ByteBits(b))
  {
    hide TopBits, ByteXor;
    TopBitsXor(a, b, 8);
  }

  lemma XorBitsAppend(s: seq<bool>, t: seq<bool>, u: seq<bool>, v: seq<bool>)
    requires |s| == |t| && |u| == |v|
    ensures XorBits(s + u, t + v) == XorBits(s, t) + XorBits(u, v)
  {
  }

  lemma MessageUnfold(s: seq<bv8>)
    requires s != []
    ensures MessageBits(s) == MessageBits(s[..|s| - 1]) + ByteBits(s[|s| - 1])
  {
  }

  lemma {:induction false} MessageBitsXor(s: seq<bv8>, t: seq<bv8>)
    requires |s| == |t|
    ensures MessageBits(XorBytes(s, t)) == XorBits(MessageBits(s), MessageBits(t))
    decreases |s|
  {
    hide ByteBits, ByteXor;
    if s != [] {
      hide MessageBits, XorBits;
      var n := |s| - 1;
      var x := XorBytes(s, t);
      assert x[..n] == XorBytes(s[..n], t[..n]) && x[n] == ByteXor(s[n], t[n]);
      MessageBitsXor(s[..n], t[..n]);
      ByteBitsXor(s[n], t[n]);
      MessageUnfold(s);
      MessageUnfold(t);
      MessageUnfold(x);
      XorBitsAppend(MessageBits(s[..n]), MessageBits(t[..n]), ByteBits(s[n]), ByteBits(t[n]));
    }
  }

  lemma XorOnes(a: bv32, b: bv32, c: bv32)
    ensures Xor(Xor(Not(a), Not(b)), Not(c)) == Not(Xor(Xor(a, b), c))
  {
  }

  lemma XorOfOnes()
    ensures Xor(Xor(0xffff_ffff, 0xffff_ffff), 0xffff_ffff) == 0xffff_ffff
  {
  }

  /** For buffers of one length, the checksum of the sum of three is the sum of
      the three checksums. */
  lemma CrcAffine(a: seq<bv8>, b: seq<bv8>, c: seq<bv8>)
    requires |a| == |b| == |c|
    ensures BitSerialCrc(XorBytes(XorBytes(a, b), c)) == Xor(Xor(BitSerialCrc(a), BitSerialCrc(b)), BitSerialCrc(c))
  {
    hide Xor, Not, Serial, MessageBits, XorBits, XorBytes;
    var ones: bv32 := 0xffff_ffff;
    var ab := XorBytes(a, b);
    MessageBitsXor(a, b);
    MessageBitsXor(ab, c);
    SerialXor(ones, ones, MessageBits(a), MessageBits(b));
    SerialXor(Xor(ones, ones), ones, MessageBits(ab), MessageBits(c));
    XorOfOnes();
    XorOnes(Serial(ones, MessageBits(a)), Serial(ones, MessageBits(b)), Serial(ones, MessageBits(c)));
  }

  /** The four bytes of a checksum, most significant first. */
  function BigEndian(c: bv32): seq<bv8> {
    [High(c), High(c << 8), High(c << 16), High(c << 24)]
  }

  const RESIDUE: bv32 := 0x38fb_2284

  lemma StepsAdd(c: bv32, m: nat, n: nat)
    ensures Steps(c, m + n) == Steps(Steps(c, m), n)
    decreases m
  {
    hide Step;
    if m > 0 {
      StepsAdd(Step(c), m - 1, n);
    }
  }

  /** Feeding the top byte of `w` is eight steps with `w` added. */
  lemma FeedHighByte(c: bv32, w: bv32)
    ensures Serial(c, ByteBits(High(w))) == Xor(Steps(Xor(c, w), 8), w << 8)
  {
    hide *;
    ByteIsSteps(c, High(w));
    LoadHigh(w);
    HighPart(c, w);
    StepsXor(Xor(c, Load(High(w))), LowBytes(w), 8);
    LowBytesShift(w);
    LowStepsShift(LowBytes(w));
    XorCancel(Steps(Xor(c, Load(High(w))), 8), w << 8);
  }

  lemma HighPart(c: bv32, w: bv32)
    requires Load(High(w)) == w & 0xff00_0000
    ensures Xor(c, w) == Xor(Xor(c, Load(High(w))), LowBytes(w))
  {
    hide Load, High;
    Halves(w);
    XorAssoc(c, w & 0xff00_0000, LowBytes(w));
  }

  lemma MessageStep(c: bv32, s: seq<bv8>, b: bv8, t: seq<bv8>)
    requires t == s + [b]
    ensures Serial(c, MessageBits(t)) == Serial(Serial(c, MessageBits(s)), ByteBits(b))
  {
    hide Serial, ByteBits;
    Table.MessageGrows(s, b, t);
    SerialAppend(c, MessageBits(s), ByteBits(b));
  }

  lemma Shifts(w: bv32)
    ensures (w << 8) << 8 == w << 16 && (w << 16) << 8 == w << 24 && (w << 24) << 8 == 0
  {
  }

  /** Feeding one byte of `w` after the other, each read off the top. */
  lemma FeedNext(c: bv32, d: bv32, w: bv32, c': bv32)
    requires c == Xor(d, w) && c' == Serial(c, ByteBits(High(w)))
    ensures c' == Xor(Steps(d, 8), w << 8)
  {
    hide *;
    FeedHighByte(c, w);
    XorCancel(d, w);
  }

  /** Feeding a whole word is 32 steps with the word added. */
  lemma FeedWord(c: bv32, w: bv32, s: seq<bv8>, start: bv32)
    requires c == Serial(start, MessageBits(s))
    ensures Serial(start, MessageBits(s + BigEndian(w))) == Steps(Xor(c, w), 32)
  {
    hide Serial, MessageBits, ByteBits, High, Xor, Steps;
    var d := Xor(c, w);
    Shifts(w);
    var s1 := s + [High(w)];
    var s2 := s1 + [High(w << 8)];
    var s3 := s2 + [High(w << 16)];
    var s4 := s3 + [High(w << 24)];
    assert s4 == s + BigEndian(w);
    MessageStep(start, s, High(w), s1);
    MessageStep(start, s1, High(w << 8), s2);
    MessageStep(start, s2, High(w << 16), s3);
    MessageStep(start, s3, High(w << 24), s4);
    XorCancel(c, w);
    FeedNext(c, d, w, Serial(start, MessageBits(s1)));
    FeedNext(Serial(start, MessageBits(s1)), Steps(d, 8), w << 8, Serial(start, MessageBits(s2)));
    FeedNext(Serial(start, MessageBits(s2)), Steps(Steps(d, 8), 8), w << 16, Serial(start, MessageBits(s3)));
    FeedNext(Serial(start, MessageBits(s3)), Steps(Steps(Steps(d, 8), 8), 8), w << 24, Serial(start, MessageBits(s4)));
    StepsAdd(d, 8, 8);
    StepsAdd(d, 16, 8);
    StepsAdd(d, 24, 8);
    XorCancel(Steps(d, 32), 0);
  }

  lemma XorNot(c: bv32)
    ensures Xor(c, Not(c)) == 0xffff_ffff
  {
  }

  lemma OnesAfter32()
    ensures Not(Steps(0xffff_ffff, 32)) == RESIDUE
  {
    hide Step, Steps;
    Steps8(0xffff_ffff);
    Walk1();
    Steps8(0x4e08_bfb4);
    Walk2();
    LowStepsShift(0x00b7_647d);
    Steps8(0xb764_7d00);
    Walk4();
    StepsAdd(0xffff_ffff, 8, 8);
    StepsAdd(0xffff_ffff, 16, 8);
    StepsAdd(0xffff_ffff, 24, 8);
  }

  lemma Walk1()
    ensures Step(Step(Step(Step(Step(Step(Step(Step(0xffff_ffff)))))))) == 0x4e08_bfb4
  {
  }

  lemma Walk2()
    ensures Step(Step(Step(Step(Step(Step(Step(Step(0x4e08_bfb4)))))))) == 0x00b7_647d
  {
  }

  lemma Walk4()
    ensures Step(Step(Step(Step(Step(Step(Step(Step(0xb764_7d00)))))))) == 0xc704_dd7b
  {
  }

  /** A message followed by its own checksum always leaves the same value. */
  lemma CrcResidue(s: seq<bv8>)
    ensures BitSerialCrc(s + BigEndian(BitSerialCrc(s))) == RESIDUE
  {
    hide Serial, MessageBits, Not, BigEndian, Steps;
    var r := Serial(0xffff_ffff, MessageBits(s));
    FeedWord(r, Not(r), s, 0xffff_ffff);
    XorNot(r);
    OnesAfter32();
  }

  // Error detection.

  lemma ZeroFed()
    ensures Feed(0, false) == 0 && Xor(0, 0) == 0
  {
  }

  lemma {:induction false} ZerosKeepZero(s: seq<bool>)
    requires forall i :: 0 <= i < |s| ==> !s[i]
    ensures Serial(0, s) == 0
    decreases |s|
  {
    hide Feed;
    if s != [] {
      ZeroFed();
      ZerosKeepZero(s[1..]);
    }
  }

  /** The low `m` bits are zero. */
  predicate LowClear(d: bv32, m: bv6)
    requires m <= 32
  {
    d << (32 - m) == 0
  }

  /** Running the register backwards from a value with `m` clear low bits. */
  lemma FeedBack(d: bv32, bit: bool, m: bv6)
    requires 1 <= m <= 32 && LowClear(Feed(d, bit), m)
    ensures LowClear(d, m - 1)
  {
  }

  function Narrow(k: nat): bv6
    requires k <= 32
  {
    k as bv6
  }

  lemma NarrowStep(k: nat)
    requires 1 <= k <= 32
    ensures Narrow(k - 1) == Narrow(k) - 1 && 1 <= Narrow(k) <= 32 && Narrow(k - 1) <= 32
  {
  }

  lemma NarrowBounds()
    ensures Narrow(32) == 32 && LowClear(0, 32)
  {
  }

  /** If the register ends at zero, its low bits were clear before the last bits. */
  lemma {:induction false} SerialBack(d: bv32, s: seq<bool>)
    requires |s| <= 32 && Serial(d, s) == 0
    ensures Narrow(32 - |s|) <= 32 && LowClear(d, Narrow(32 - |s|))
    decreases |s|
  {
    hide Feed, LowClear, Narrow;
    NarrowBounds();
    if s != [] {
      SerialBack(Feed(d, s[0]), s[1..]);
      NarrowStep(32 - |s| + 1);
      FeedBack(d, s[0], Narrow(32 - |s| + 1));
    }
  }

  lemma OddIsNotClear(d: bv32, m: bv6)
    requires 1 <= m <= 32 && LowClear(d, m)
    ensures d & 1 == 0
  {
  }

  lemma FirstDifference()
    ensures Feed(0, true) == POLY && POLY & 1 == 1
  {
  }

  /** A burst of at most 32 bits that starts with a difference leaves the register
      different from zero. */
  lemma BurstNotZero(e: seq<bool>)
    requires 1 <= |e| <= 32 && e[0]
    ensures Serial(0, e) != 0
  {
    hide Feed, LowClear, Narrow;
    if Serial(0, e) == 0 {
      FirstDifference();
      SerialBack(POLY, e[1..]);
      NarrowStep(32 - |e| + 1);
      OddIsNotClear(POLY, Narrow(32 - |e| + 1));
    }
  }

  lemma QuietFeed(c: bv32)
    ensures Feed(c, false) == 0 ==> c == 0
  {
  }

  lemma {:induction false} StaysNotZero(c: bv32, s: seq<bool>)
    requires c != 0 && forall i :: 0 <= i < |s| ==> !s[i]
    ensures Serial(c, s) != 0
    decreases |s|
  {
    hide Feed;
    if s != [] {
      QuietFeed(c);
      StaysNotZero(Feed(c, false), s[1..]);
    }
  }

  lemma SameXor(c: bv32, d: bv32)
    ensures Xor(c, c) == 0 && (Not(c) == Not(d) ==> c == d)
  {
  }

  /** All differences lie in 32 consecutive bits. */
  ghost predicate DifferInBurst(s: seq<bool>, t: seq<bool>, p: nat)
    requires |s| == |t|
  {
    forall i :: 0 <= i < |s| && s[i] != t[i] ==> p <= i < p + 32
  }

  lemma FirstTrue(e: seq<bool>, w: nat) returns (f: nat)
    requires w < |e| && e[w]
    ensures f <= w && e[f] && forall i :: 0 <= i < f ==> !e[i]
  {
    f := 0;
    while !e[f]
      invariant f <= w && forall i :: 0 <= i < f ==> !e[i]
      decreases w - f
    {
      f := f + 1;
    }
  }

  /** Buffers of one length that differ, but only within 32 consecutive bits,
      never have the same checksum. */
  lemma BurstDetected(a: seq<bv8>, b: seq<bv8>, p: nat, w: nat)
    requires |a| == |b| && DifferInBurst(MessageBits(a), MessageBits(b), p)
    requires w < |MessageBits(a)| && MessageBits(a)[w] != MessageBits(b)[w]
    ensures BitSerialCrc(a) != BitSerialCrc(b)
  {
    hide Xor, Not, Serial, MessageBits;
    var ones: bv32 := 0xffff_ffff;
    var e := XorBits(MessageBits(a), MessageBits(b));
    var f := FirstTrue(e, w);
    var g := if f + 32 < |e| then f + 32 else |e|;
    SerialXor(ones, ones, MessageBits(a), MessageBits(b));
    SameXor(ones, ones);
    assert e == e[..f] + (e[f..g] + e[g..]);
    SerialAppend(0, e[..f], e[f..g] + e[g..]);
    SerialAppend(0, e[f..g], e[g..]);
    ZerosKeepZero(e[..f]);
    BurstNotZero(e[f..g]);
    StaysNotZero(Serial(0, e[f..g]), e[g..]);
    SameXor(Serial(ones, MessageBits(a)), Serial(ones, MessageBits(b)));
  }
}

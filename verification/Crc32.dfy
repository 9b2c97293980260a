/** CRC-32, most significant bit first: the bit-serial register, the table-driven
    loop, and what the checksum means. */
module Crc32 {
  const POLY: bv32 := 0x04c1_1db7

  function Xor(x: bv32, y: bv32): bv32 {
    x ^ y
  }

  function Not(x: bv32): bv32 {
    x ^ 0xffff_ffff
  }

  predicate Top(c: bv32) {
    c & 0x8000_0000 != 0
  }

  function Shift(c: bv32): bv32 {
    c << 1
  }

  /** One shift of the register with no message bit. */
  function Step(c: bv32): bv32 {
    if Top(c) then Xor(Shift(c), POLY) else Shift(c)
  }

  function Steps(c: bv32, n: nat): bv32
    decreases n
  {
    if n == 0 then c else Steps(Step(c), n - 1)
  }

  /** One message bit enters the bit-serial register. */
  function Feed(c: bv32, bit: bool): bv32 {
    if Top(c) != bit then Xor(Shift(c), POLY) else Shift(c)
  }

  function Serial(c: bv32, bits: seq<bool>): bv32
    decreases |bits|
  {
    if bits == [] then c else Serial(Feed(c, bits[0]), bits[1..])
  }

  predicate TopBit(b: bv8) {
    b & 0x80 != 0
  }

  function Double(b: bv8): bv8 {
    b << 1
  }

  /** The top `n` bits of a byte, most significant first. */
  function TopBits(b: bv8, n: nat): (bits: seq<bool>)
    ensures |bits| == n
    decreases n
  {
    if n == 0 then [] else [TopBit(b)] + TopBits(Double(b), n - 1)
  }

  function Doubled(b: bv8, n: nat): bv8
    decreases n
  {
    if n == 0 then b else Doubled(Double(b), n - 1)
  }

  /** The bits of a byte, most significant first. */
  function ByteBits(b: bv8): (bits: seq<bool>)
    ensures |bits| == 8
  {
    TopBits(b, 8)
  }

  function MessageBits(buf: seq<bv8>): (bits: seq<bool>)
    ensures |bits| == 8 * |buf|
    decreases |buf|
  {
    if buf == [] then [] else MessageBits(buf[..|buf| - 1]) + ByteBits(buf[|buf| - 1])
  }

  /** The reference: preload with ones, feed every bit, complement. */
  function BitSerialCrc(buf: seq<bv8>): bv32 {
    Not(Serial(0xffff_ffff, MessageBits(buf)))
  }

  /** The register with `b` added at its top end. */
  function Load(b: bv8): bv32 {
    (b as bv32) << 24
  }

  function Entry(b: bv8): bv32 {
    Steps(Load(b), 8)
  }

  function TableIndex(c: bv32, b: bv8): bv8 {
    High(c) ^ b
  }

  function Combine(c: bv32, entry: bv32): bv32 {
    (c << 8) ^ entry
  }

  /** The table-driven step. */
  function TableStep(c: bv32, b: bv8): bv32 {
    Combine(c, Entry(TableIndex(c, b)))
  }

  lemma XorSwap(x: bv32, y: bv32, z: bv32)
    ensures Xor(Xor(x, y), z) == Xor(Xor(x, z), y)
  {
    hide Xor;
    XorAssoc(x, y, z);
    XorAssoc(x, z, y);
    XorComm(y, z);
  }

  lemma XorComm(a: bv32, b: bv32)
    ensures Xor(a, b) == Xor(b, a)
  {
  }

  lemma XorAssoc(a: bv32, b: bv32, c: bv32)
    ensures Xor(a, Xor(b, c)) == Xor(Xor(a, b), c)
  {
  }

  lemma XorCancel(a: bv32, b: bv32)
    ensures Xor(Xor(a, b), b) == a && Xor(a, 0) == a
  {
  }

  lemma XorParts(a: bv32, b: bv32, c: bv32, d: bv32)
    ensures Xor(Xor(a, b), Xor(c, d)) == Xor(Xor(a, c), Xor(b, d))
  {
    hide Xor;
    XorAssoc(Xor(a, b), c, d);
    XorSwap(a, b, c);
    XorAssoc(Xor(a, c), b, d);
  }

  /** POLY if a bit leaves the register. */
  function Tap(b: bool): bv32 {
    if b then POLY else 0
  }

  lemma TapXor(a: bool, b: bool)
    ensures Tap(a != b) == Xor(Tap(a), Tap(b))
  {
  }

  lemma ShiftXor(x: bv32, y: bv32)
    ensures Shift(Xor(x, y)) == Xor(Shift(x), Shift(y))
  {
  }

  lemma TopXor(x: bv32, y: bv32)
    ensures Top(Xor(x, y)) == (Top(x) != Top(y))
  {
  }

  lemma StepAsTap(c: bv32)
    ensures Step(c) == Xor(Shift(c), Tap(Top(c)))
  {
    hide Xor, Shift, Top;
    XorCancel(Shift(c), 0);
  }

  lemma FeedAsTap(c: bv32, b: bool)
    ensures Feed(c, b) == Xor(Shift(c), Tap(Top(c) != b))
    ensures Feed(c, b) == Xor(Step(c), Tap(b))
  {
    hide Xor, Shift, Top;
    XorCancel(Shift(c), 0);
    XorCancel(Shift(c), POLY);
    XorCancel(Step(c), 0);
  }

  lemma StepXor(x: bv32, y: bv32)
    ensures Step(Xor(x, y)) == Xor(Step(x), Step(y))
  {
    hide *;
    StepAsTap(x);
    StepAsTap(y);
    StepAsTap(Xor(x, y));
    ShiftXor(x, y);
    TopXor(x, y);
    TapXor(Top(x), Top(y));
    XorParts(Shift(x), Tap(Top(x)), Shift(y), Tap(Top(y)));
  }

  lemma {:induction false} StepsXor(x: bv32, y: bv32, n: nat)
    ensures Steps(Xor(x, y), n) == Xor(Steps(x, n), Steps(y, n))
    decreases n
  {
    hide Xor, Step;
    if n > 0 {
      StepXor(x, y);
      StepsXor(Step(x), Step(y), n - 1);
    }
  }

  lemma StepLoad(b: bv8)
    ensures Step(Load(b)) == Xor(Tap(TopBit(b)), Load(Double(b)))
  {
    hide Xor, Tap;
    StepAsTap(Load(b));
    LoadDoubles(b);
    XorSwap(0, Load(Double(b)), Tap(TopBit(b)));
    XorZeroLeft(Load(Double(b)));
    XorZeroLeft(Tap(TopBit(b)));
  }

  lemma XorZeroLeft(c: bv32)
    ensures Xor(0, c) == c
  {
  }

  lemma LoadDoubles(b: bv8)
    ensures Shift(Load(b)) == Load(Double(b)) && Top(Load(b)) == TopBit(b)
  {
  }

  /** Feeding the top bit of a byte is stepping with the byte loaded. */
  lemma FeedTop(c: bv32, b: bv8)
    ensures Step(Xor(c, Load(b))) == Xor(Feed(c, TopBit(b)), Load(Double(b)))
  {
    hide *;
    StepXor(c, Load(b));
    StepLoad(b);
    FeedAsTap(c, TopBit(b));
    XorAssoc(Step(c), Tap(TopBit(b)), Load(Double(b)));
  }

  lemma XorLoadZero(c: bv32)
    ensures Xor(c, Load(0)) == c
  {
  }

  lemma StepsUnfold(c: bv32, n: nat)
    requires n > 0
    ensures Steps(c, n) == Steps(Step(c), n - 1)
  {
  }

  lemma {:induction false} SerialIsSteps(c: bv32, b: bv8, n: nat)
    ensures Xor(Serial(c, TopBits(b, n)), Load(Doubled(b, n))) == Steps(Xor(c, Load(b)), n)
    decreases n
  {
    hide Xor, Step, Feed, Load, TopBit, Double;
    if n > 0 {
      assert TopBits(b, n)[1..] == TopBits(Double(b), n - 1);
      FeedTop(c, b);
      SerialIsSteps(Feed(c, TopBit(b)), Double(b), n - 1);
    }
  }

  lemma DoubledAway(b: bv8)
    ensures Doubled(b, 8) == 0
  {
    assert Doubled(b, 8) == Doubled(Double(Double(b)), 6);
    assert Doubled(Double(Double(b)), 6) == Doubled(Double(Double(Double(Double(b)))), 4);
    assert Double(Double(Double(Double(b)))) == b << 4;
    assert Doubled(b << 4, 4) == Doubled(Double(Double(b << 4)), 2);
    assert Double(Double(Double(Double(b << 4)))) == 0;
  }

  lemma SerialEmpty(c: bv32)
    ensures Serial(c, []) == c && Steps(c, 0) == c
  {
  }

  /** Eight quiet shifts of the low three bytes only move them up. */
  lemma LowStepsShift(c: bv32)
    requires c & 0xff00_0000 == 0
    ensures Steps(c, 8) == c << 8
  {
    QuietStep(c);
    QuietStep(c << 1);
    QuietStep(c << 2);
    QuietStep(c << 3);
    QuietStep(c << 4);
    QuietStep(c << 5);
    QuietStep(c << 6);
    QuietStep(c << 7);
    LowShifts(c);
    Steps8(c);
  }

  lemma QuietStep(c: bv32)
    requires c & 0x8000_0000 == 0
    ensures Step(c) == c << 1
  {
  }

  lemma LowShifts(c: bv32)
    ensures (c << 1) << 1 == c << 2 && (c << 2) << 1 == c << 3 && (c << 3) << 1 == c << 4
    ensures (c << 4) << 1 == c << 5 && (c << 5) << 1 == c << 6 && (c << 6) << 1 == c << 7 && (c << 7) << 1 == c << 8
  {
  }

  lemma Steps8(c: bv32)
    ensures Steps(c, 8) == Step(Step(Step(Step(Step(Step(Step(Step(c))))))))
  {
    hide Step;
    StepsUnfold(Step(Step(c)), 6);
    StepsUnfold(Step(Step(Step(Step(c)))), 4);
    StepsUnfold(Step(Step(Step(Step(Step(Step(c)))))), 2);
  }

  function High(c: bv32): bv8 {
    (c >> 24) as bv8
  }

  lemma LoadXor(x: bv8, y: bv8)
    ensures Load(x ^ y) == Xor(Load(x), Load(y))
  {
  }

  lemma LoadHigh(c: bv32)
    ensures Load(High(c)) == c & 0xff00_0000
  {
  }

  function LowBytes(c: bv32): bv32 {
    c & 0x00ff_ffff
  }

  lemma Halves(c: bv32)
    ensures Xor(c & 0xff00_0000, LowBytes(c)) == c
  {
  }

  lemma LowBytesShift(c: bv32)
    ensures LowBytes(c) << 8 == c << 8 && LowBytes(c) & 0xff00_0000 == 0
  {
  }

  lemma SplitTop(c: bv32, b: bv8)
    ensures Xor(c, Load(b)) == Xor(Load(TableIndex(c, b)), LowBytes(c))
  {
    hide Load, High, Xor, LowBytes;
    LoadXor(High(c), b);
    LoadHigh(c);
    Halves(c);
    XorSwap(Load(High(c)), LowBytes(c), Load(b));
  }

  lemma CombineIsXor(c: bv32, e: bv32)
    ensures Combine(c, e) == Xor(e, c << 8)
  {
  }

  lemma TableStepDef(c: bv32, b: bv8)
    ensures TableStep(c, b) == Combine(c, Entry(TableIndex(c, b)))
  {
  }

  lemma ByteIsSteps(c: bv32, b: bv8)
    ensures Serial(c, ByteBits(b)) == Steps(Xor(c, Load(b)), 8)
  {
    hide Xor, Load, Serial, Steps, TopBits;
    SerialIsSteps(c, b, 8);
    DoubledAway(b);
    XorLoadZero(Serial(c, ByteBits(b)));
  }

  /** One table step is eight bits of the serial register. */
  lemma TableStepIsSerial(c: bv32, b: bv8)
    ensures TableStep(c, b) == Serial(c, ByteBits(b))
  {
    hide *;
    var i, low := TableIndex(c, b), LowBytes(c);
    LowBytesShift(c);
    ByteIsSteps(c, b);
    SplitTop(c, b);
    StepsXor(Load(i), low, 8);
    LowStepsShift(low);
    EntryDef(i);
    TableStepDef(c, b);
    CombineIsXor(c, Entry(i));
  }

  lemma EntryDef(b: bv8)
    ensures Entry(b) == Steps(Load(b), 8)
  {
  }

  lemma {:induction false} SerialAppend(c: bv32, s: seq<bool>, t: seq<bool>)
    ensures Serial(c, s + t) == Serial(Serial(c, s), t)
    decreases |s|
  {
    hide Feed;
    if s == [] {
      assert s + t == t;
    } else {
      assert (s + t)[1..] == s[1..] + t;
      SerialAppend(Feed(c, s[0]), s[1..], t);
    }
  }

  /** The lazily filled table and the checksum loop. */
  class Table {
    const crc32_table: array<bv32>
    /** How often the table has been built. */
    ghost var builds: nat

    ghost predicate Filled()
      reads crc32_table
    {
      crc32_table.Length == 256 && forall i: nat :: i < 256 ==> crc32_table[i] == Entry(i as bv8)
    }

    /** Untouched static storage, or built exactly once. */
    ghost predicate Valid()
      reads this, crc32_table
    {
      && crc32_table.Length == 256
      && ((builds == 0 && forall i :: 0 <= i < 256 ==> crc32_table[i] == 0) || (builds == 1 && Filled()))
    }

    constructor ()
      ensures Valid() && builds == 0 && fresh(crc32_table)
    {
      crc32_table := new bv32[256](_ => 0);
      builds := 0;
    }

    method InitEntry(i: bv8) returns (c: bv32)
      ensures c == Entry(i)
    {
      hide Step;
      c := (i as bv32) << 24;
      var j: nat := 8;
      while j > 0
        invariant Steps(c, j) == Entry(i)
      {
        StepDef(c);
        c := if c & 0x8000_0000 != 0 then (c << 1) ^ POLY else c << 1;
        j := j - 1;
      }
    }

    static lemma StepDef(c: bv32)
      ensures Step(c) == if c & 0x8000_0000 != 0 then (c << 1) ^ POLY else c << 1
    {
    }

    method InitCrc32()
      requires crc32_table.Length == 256
      modifies this, crc32_table
      ensures Filled() && builds == old(builds) + 1
    {
      hide Entry;
      for i := 0 to 256
        invariant forall k: nat :: k < i ==> crc32_table[k] == Entry(k as bv8)
        invariant builds == old(builds)
      {
        var c := InitEntry(i as bv8);
        crc32_table[i] := c;
      }
      builds := builds + 1;
    }

    static lemma IndexRoundTrip(x: bv8)
      ensures (x as int) as bv8 == x
    {
    }

    method Update(c: bv32, b: bv8) returns (c': bv32)
      requires Filled()
      ensures c' == TableStep(c, b)
    {
      hide Entry, Combine, TableIndex;
      var i := TableIndex(c, b);
      IndexRoundTrip(i);
      c' := Combine(c, crc32_table[i as int]);
    }

    method Run(buf: seq<bv8>) returns (c: bv32)
      requires Filled()
      ensures c == Serial(0xffff_ffff, MessageBits(buf))
    {
      hide Entry, Serial, Steps, ByteBits, TableStep, MessageBits;
      c := 0xffff_ffff;
      SerialNothing(c);
      for p := 0 to |buf|
        invariant c == Serial(0xffff_ffff, MessageBits(buf[..p]))
      {
        TableStepIsSerial(c, buf[p]);
        MessageGrows(buf[..p], buf[p], buf[..p + 1]);
        SerialAppend(0xffff_ffff, MessageBits(buf[..p]), ByteBits(buf[p]));
        c := Update(c, buf[p]);
      }
      assert buf[..|buf|] == buf;
    }

    static lemma MessageGrows(s: seq<bv8>, b: bv8, t: seq<bv8>)
      requires t == s + [b]
      ensures MessageBits(t) == MessageBits(s) + ByteBits(b)
    {
      hide ByteBits;
      assert t[..|t| - 1] == s;
    }

    /** The lazy test on entry 1 tells untouched storage from a built table. */
    method FillOnce()
      requires Valid()
      modifies this, crc32_table
      ensures Valid() && Filled() && builds == 1
    {
      hide Entry;
      SecondEntry();
      assert (1 as nat) as bv8 == 1;
      if crc32_table[1] == 0 {
        InitCrc32();
      }
    }

    /** The table is built on the first call and never again; the result is the
        bit-serial checksum of the whole buffer. */
    method Crc32(buf: seq<bv8>) returns (crc: bv32)
      requires Valid()
      modifies this, crc32_table
      ensures Valid() && Filled() && builds == 1
      ensures crc == BitSerialCrc(buf)
    {
      hide Entry, Serial, MessageBits, Not;
      FillOnce();
      crc := Run(buf);
      crc := Not(crc);
    }

    static lemma SerialNothing(c: bv32)
      ensures Serial(c, []) == c && MessageBits([]) == []
    {
    }

    static lemma SecondEntry()
      ensures Entry(1) != 0
    {
      hide Step;
      Steps8(Load(1));
      SecondEntrySteps();
    }

    static lemma SecondEntrySteps()
      ensures Step(Step(Step(Step(Step(Step(Step(Step(Load(1))))))))) == POLY
    {
    }
  }
}

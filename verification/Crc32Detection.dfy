/** Which errors the CRC-32 detects, and how a received message is checked. */
module Crc32Detection {
  import opened Crc32

  // ----- Differences pass through the register independently of the data -----

  /** The bits in which two messages of equal length differ. */
  function Difference(a: seq<bool>, b: seq<bool>): (r: seq<bool>)
    requires |a| == |b|
    ensures |r| == |a|
    ensures forall i | 0 <= i < |a| :: r[i] == (a[i] != b[i])
  {
    seq(|a|, i requires 0 <= i < |a| => a[i] != b[i])
  }

  lemma BitXor(x: bool, y: bool)
    ensures Bit(x != y) == Xor(Bit(x), Bit(y))
  {}

  lemma {:induction false} RegisterLinear(r: bv32, s: bv32, a: seq<bool>, b: seq<bool>)
    requires |a| == |b|
    ensures Register(Xor(r, s), Difference(a, b)) == Xor(Register(r, a), Register(s, b))
    decreases |a|
  {
    hide Reduce, Xor, Bit;
    if a != [] {
      var x, y := a[0], b[0];
      BitXor(x, y);
      XorPairs(r, s, Bit(x), Bit(y));
      ReduceLinear(Xor(r, Bit(x)), Xor(s, Bit(y)));
      assert Difference(a, b)[1..] == Difference(a[1..], b[1..]);
      RegisterLinear(Reduce(Xor(r, Bit(x))), Reduce(Xor(s, Bit(y))), a[1..], b[1..]);
    }
  }

  predicate AllClear(bits: seq<bool>) {
    forall i | 0 <= i < |bits| :: !bits[i]
  }

  /** Clear bits only take steps. */
  lemma {:induction false} RegisterOfClear(r: bv32, bits: seq<bool>)
    requires AllClear(bits)
    ensures Register(r, bits) == Steps(r, |bits|)
    decreases |bits|
  {
    hide Reduce, Xor;
    if bits != [] {
      XorCancel(r, 0);
      RegisterOfClear(Reduce(r), bits[1..]);
    }
  }

  lemma {:induction false} StepsOfZero(n: nat)
    ensures Steps(0, n) == 0
    decreases n
  {
    if n > 0 {
      assert Reduce(0) == 0;
      StepsOfZero(n - 1);
    }
  }

  // ----- A window of at most 32 bits -----

  /** A word of n ones. */
  function Mask(n: nat): bv32 {
    if n == 0 then 0 else Xor(Twice(Mask(n - 1)), 1)
  }

  /** The word whose low bits are the given ones. */
  function Pack(bits: seq<bool>): bv32
    decreases |bits|
  {
    if bits == [] then 0 else Xor(Twice(Pack(bits[1..])), Bit(bits[0]))
  }

  predicate Within(w: bv32, mask: bv32) {
    w & mask == w
  }

  lemma MaskBits(w: bv32, m: bv32)
    requires w & m == w
    ensures (w << 1) & ((m << 1) ^ 1) == w << 1
    ensures ((w << 1) ^ 1) & ((m << 1) ^ 1) == (w << 1) ^ 1
  {}

  lemma MaskEven(w: bv32, m: bv32)
    requires Within(w, m)
    ensures Within(Twice(w), Xor(Twice(m), 1))
  {
    MaskBits(w, m);
  }

  lemma MaskOdd(w: bv32, m: bv32)
    requires Within(w, m)
    ensures Within(Xor(Twice(w), 1), Xor(Twice(m), 1))
  {
    MaskBits(w, m);
  }

  lemma MaskStep(w: bv32, m: bv32, b: bool)
    requires Within(w, m)
    ensures Within(Xor(Twice(w), Bit(b)), Xor(Twice(m), 1))
  {
    hide Within, Xor, Twice;
    if b {
      MaskOdd(w, m);
    } else {
      MaskEven(w, m);
      XorCancel(Twice(w), 0);
    }
  }

  lemma {:induction false} PackWithin(bits: seq<bool>)
    ensures Within(Pack(bits), Mask(|bits|))
    decreases |bits|
  {
    hide Xor, Twice, Bit;
    if bits != [] {
      PackWithin(bits[1..]);
      MaskStep(Pack(bits[1..]), Mask(|bits| - 1), bits[0]);
    }
  }

  lemma {:induction false} MasksNested(m: nat, n: nat)
    requires m <= n
    ensures Within(Mask(m), Mask(n))
  {
    hide Xor, Twice;
    if m > 0 {
      MasksNested(m - 1, n - 1);
      MaskStep(Mask(m - 1), Mask(n - 1), true);
      assert Bit(true) == 1;
    }
  }

  lemma Mask31()
    ensures Mask(31) == 0x7fff_ffff
  {
    assert Mask(10) == 0x3ff;
    assert Mask(20) == 0xf_ffff;
    assert Mask(30) == 0x3fff_ffff;
  }

  lemma TopClear(w: bv32, m: bv32)
    requires w & m == w && m & 0x7fff_ffff == m
    ensures (w << 1) >> 1 == w
  {}

  lemma TwiceIsEven(w: bv32)
    ensures (w << 1) & 1 == 0 && (w << 1) ^ 0 == w << 1
    ensures ((w << 1) ^ 1) & 1 == 1
  {}

  lemma LowOfTwice(w: bv32, b: bool)
    ensures Low(Xor(Twice(w), Bit(b))) == b && Half(Bit(b)) == 0
  {
    TwiceIsEven(w);
  }

  lemma AppendLow(w: bv32, m: bv32, b: bool)
    requires Within(w, m) && Within(m, 0x7fff_ffff)
    ensures Half(Xor(Twice(w), Bit(b))) == w && Low(Xor(Twice(w), Bit(b))) == b
  {
    TopClear(w, m);
    assert Half(Twice(w)) == w;
    hide Half, Low, Xor, Twice, Bit;
    LowOfTwice(w, b);
    ShiftXor(Twice(w), Bit(b));
    XorCancel(w, 0);
  }

  /** Packing loses nothing as long as a word has room. */
  lemma PackFirst(bits: seq<bool>)
    requires 0 < |bits| <= 32
    ensures Half(Pack(bits)) == Pack(bits[1..]) && Low(Pack(bits)) == bits[0]
  {
    hide Half, Low, Xor, Twice, Bit, Within, Mask;
    var rest := bits[1..];
    PackWithin(rest);
    MasksNested(|rest|, 31);
    Mask31();
    AppendLow(Pack(rest), Mask(|rest|), bits[0]);
  }

  lemma {:induction false} LowBitsOfPack(bits: seq<bool>)
    requires |bits| <= 32
    ensures LowBits(Pack(bits), |bits|) == bits
    ensures Shifted(Pack(bits), |bits|) == 0
    decreases |bits|
  {
    hide Low, Half, Xor, Twice;
    if bits != [] {
      PackFirst(bits);
      LowBitsOfPack(bits[1..]);
      assert bits == [bits[0]] + bits[1..];
    }
  }

  lemma {:induction false} PackNonzero(bits: seq<bool>, i: nat)
    requires |bits| <= 32 && i < |bits| && bits[i]
    ensures Pack(bits) != 0
    decreases |bits|
  {
    PackFirst(bits);
    assert Half(0) == 0 && !Low(0);
    hide Low, Half, Xor, Twice, Pack;
    if i > 0 {
      PackNonzero(bits[1..], i - 1);
    }
  }

  /** At most 32 bits, not all clear, fed into an empty register leave it nonempty. */
  lemma WindowIsSeen(bits: seq<bool>, i: nat)
    requires |bits| <= 32 && i < |bits| && bits[i]
    ensures Register(0, bits) != 0
  {
    hide Register, Pack, Xor, Steps;
    LowBitsOfPack(bits);
    Slide(0, Pack(bits), |bits|);
    XorCancel(Register(0, bits), 0);
    XorCancel(Pack(bits), 0);
    PackNonzero(bits, i);
    StepsOfZero(|bits|);
    if Steps(Pack(bits), |bits|) == 0 {
      StepsInjective(Pack(bits), 0, |bits|);
    }
  }

  // ----- Burst errors -----

  /** All differences between a and b lie in the 32 bit positions from start on. */
  predicate Burst(a: seq<bool>, b: seq<bool>, start: nat) {
    |a| == |b| && forall i | 0 <= i < |a| && a[i] != b[i] :: start <= i < start + 32
  }

  /** Differences confined to a window, with one at position i, survive in the register. */
  lemma BurstIsSeen(d: seq<bool>, start: nat, i: nat)
    requires i < |d| && d[i]
    requires forall k | 0 <= k < |d| && d[k] :: start <= k < start + 32
    ensures Register(0, d) != 0
  {
    hide Register, Xor, Steps;
    var stop := if start + 32 <= |d| then start + 32 else |d|;
    var before, window, after := d[..start], d[start..stop], d[stop..];
    assert d == before + (window + after);
    RegisterConcat(0, before, window + after);
    RegisterConcat(Register(0, before), window, after);
    RegisterOfClear(0, before);
    StepsOfZero(start);
    assert window[i - start];
    WindowIsSeen(window, i - start);
    RegisterOfClear(Register(0, window), after);
    StepsOfZero(|after|);
    if Register(0, d) == 0 {
      StepsInjective(Register(0, window), 0, |after|);
    }
  }

  /** Byte i / 8 of a buffer holds bit i, least significant bit first. */
  lemma {:induction false} BitsInjective(a: seq<bv8>, b: seq<bv8>)
    requires |a| == |b| && Bits(a) == Bits(b)
    ensures a == b
    decreases |a|
  {
    hide ByteBits;
    if a != [] {
      assert ByteBits(a[0]) == Bits(a)[..8] == Bits(b)[..8] == ByteBits(b[0]);
      assert Bits(a[1..]) == Bits(a)[8..] == Bits(b)[8..] == Bits(b[1..]);
      BitsInjective(a[1..], b[1..]);
      ByteBitsInjective(a[0], b[0]);
    }
  }

  lemma ByteBitsInjective(x: bv8, y: bv8)
    requires ByteBits(x) == ByteBits(y)
    ensures x == y
  {
    hide Register, Xor, Steps, LowBits;
    FeedByte(0, x);
    FeedByte(0, y);
    XorCancel(Widen(x), 0);
    XorCancel(Widen(y), 0);
    StepsInjective(Widen(x), Widen(y), 8);
    WidenInjective(x, y);
  }

  lemma WidenInjective(x: bv8, y: bv8)
    requires Widen(x) == Widen(y)
    ensures x == y
  {}

  /**
   * Every burst error of at most 32 bits is detected: buffers of equal length that differ only within 32
   * consecutive bits have different CRCs, whatever the chaining value.
   */
  lemma BurstDetected(crc: bv32, a: seq<bv8>, b: seq<bv8>, start: nat)
    requires a != b && Burst(Bits(a), Bits(b), start)
    ensures Crc(crc, a) != Crc(crc, b)
  {
    hide Register, Bits, Xor;
    var x, y, r := Bits(a), Bits(b), Xor(crc, ALL_ONES);
    if x == y {
      BitsInjective(a, b);
    }
    var i :| 0 <= i < |x| && x[i] != y[i];
    var d := Difference(x, y);
    RegisterLinear(r, r, x, y);
    XorCancel(r, r);
    BurstIsSeen(d, start, i);
    XorCancel(Register(r, x), Register(r, y));
    XorCancel(Register(r, x), ALL_ONES);
    XorCancel(Register(r, y), ALL_ONES);
  }

  // ----- The CRC appended to its message -----

  function LowByte(w: bv32): bv8 {
    (w & 0xff) as bv8
  }

  function Rest(w: bv32): bv32 {
    w >> 8
  }

  /** The four bytes of w in little-endian order. */
  function LittleEndian(w: bv32): (r: seq<bv8>)
    ensures |r| == 4
  {
    [LowByte(w), LowByte(Rest(w)), LowByte(Rest(Rest(w))), LowByte(Rest(Rest(Rest(w))))]
  }

  /** What a receiver computes over a message followed by its CRC. */
  const RESIDUE: bv32 := 0x2144df1c

  lemma {:induction false} LowBitsSplit(w: bv32, m: nat, n: nat)
    ensures LowBits(w, m + n) == LowBits(w, m) + LowBits(Shifted(w, m), n)
    decreases m
  {
    hide Low, Half;
    if m > 0 {
      LowBitsSplit(Half(w), m - 1, n);
    }
  }

  lemma LowBitsAgree(v: bv32, w: bv32)
    requires v & 0xff == w & 0xff
    ensures LowBits(v, 8) == LowBits(w, 8)
  {
    var v4, w4 := v >> 4, w >> 4;
  }

  lemma SameLowByte(w: bv32)
    ensures Widen(LowByte(w)) & 0xff == w & 0xff
  {}

  lemma ShiftedRest(w: bv32)
    ensures Shifted(w, 8) == Rest(w)
  {
    hide Shifted;
    ShiftedEight(w);
  }

  /** One byte of w and what remains of it. */
  lemma TakeByte(w: bv32, n: nat)
    ensures LowBits(w, 8 + n) == ByteBits(LowByte(w)) + LowBits(Rest(w), n)
    ensures Shifted(w, 8 + n) == Shifted(Rest(w), n)
  {
    hide LowBits, Shifted, Widen, LowByte, Rest;
    SameLowByte(w);
    LowBitsAgree(Widen(LowByte(w)), w);
    ShiftedRest(w);
    LowBitsSplit(w, 8, n);
    ShiftedSplit(w, 8, n);
  }

  lemma NoRest(w: bv32)
    ensures Rest(Rest(Rest(Rest(w)))) == 0
  {}

  /** Little-endian byte order is the order in which the register takes the bits of a word. */
  lemma LittleEndianBits(w: bv32)
    ensures Bits(LittleEndian(w)) == LowBits(w, 32) && Shifted(w, 32) == 0
  {
    hide LowBits, Shifted, Widen, LowByte, Rest, Bits, ByteBits;
    var x, y, z := Rest(w), Rest(Rest(w)), Rest(Rest(Rest(w)));
    TakeByte(w, 24);
    TakeByte(x, 16);
    TakeByte(y, 8);
    TakeByte(z, 0);
    NoRest(w);
    NoBits(Rest(z));
    FourBytes(LittleEndian(w));
  }

  lemma NoBits(w: bv32)
    ensures LowBits(w, 0) == [] && Shifted(w, 0) == w
  {}

  lemma BitsFirst(b: seq<bv8>, k: nat)
    requires k < |b|
    ensures Bits(b[k..]) == ByteBits(b[k]) + Bits(b[k + 1..])
  {
    assert b[k..][1..] == b[k + 1..];
  }

  lemma FourBytes(b: seq<bv8>)
    requires |b| == 4
    ensures Bits(b) == ByteBits(b[0]) + (ByteBits(b[1]) + (ByteBits(b[2]) + (ByteBits(b[3]) + [])))
  {
    assert Bits(b[4..]) == [];
    hide ByteBits, Bits;
    BitsFirst(b, 0);
    BitsFirst(b, 1);
    BitsFirst(b, 2);
    BitsFirst(b, 3);
    assert b[0..] == b;
  }

  lemma {:induction false} ShiftedSplit(w: bv32, m: nat, n: nat)
    ensures Shifted(w, m + n) == Shifted(Shifted(w, m), n)
    decreases m
  {
    hide Half;
    if m > 0 {
      ShiftedSplit(Half(w), m - 1, n);
    }
  }

  lemma ResidueValue()
    ensures Xor(Steps(ALL_ONES, 32), ALL_ONES) == RESIDUE
  {
    EightReductions(0xffff_ffff);
    EightReductions(0x2dfd_1072);
    EightReductions(0xbe26_ed00);
    EightReductions(0x00be_26ed);
    StepsAdd(ALL_ONES, 8, 24);
    StepsAdd(0x2dfd_1072, 8, 16);
    StepsAdd(0xbe26_ed00, 8, 8);
  }

  lemma EightReductions(c: bv32)
    ensures Steps(c, 8) == Reduce(Reduce(Reduce(Reduce(Reduce(Reduce(Reduce(Reduce(c))))))))
  {
    hide Reduce;
    assert Steps(c, 8) == Steps(Reduce(Reduce(Reduce(Reduce(c)))), 4);
  }

  /** Feeding a word after its register contents: only their difference matters. */
  lemma FeedWord(r: bv32, w: bv32)
    ensures Register(r, Bits(LittleEndian(w))) == Steps(Xor(r, w), 32)
  {
    hide Register, Xor, Steps, LowBits, Shifted, Bits, LittleEndian;
    LittleEndianBits(w);
    Slide(r, w, 32);
    XorCancel(Register(r, LowBits(w, 32)), 0);
  }

  /**
   * A message followed by four bytes gives the fixed residue if and only if those bytes are its CRC in
   * little-endian order.
   */
  lemma ResidueIffCrc(m: seq<bv8>, w: bv32)
    ensures Crc(0, m + LittleEndian(w)) == RESIDUE <==> w == Crc(0, m)
  {
    hide Register, Xor, Steps, Bits, LittleEndian;
    var r := Register(Xor(0, ALL_ONES), Bits(m));
    BitsConcat(m, LittleEndian(w));
    RegisterConcat(Xor(0, ALL_ONES), Bits(m), Bits(LittleEndian(w)));
    FeedWord(r, w);
    var s := Steps(Xor(r, w), 32);
    ResidueValue();
    XorCancel(s, ALL_ONES);
    XorCancel(Steps(ALL_ONES, 32), ALL_ONES);
    if s == Steps(ALL_ONES, 32) {
      StepsInjective(Xor(r, w), ALL_ONES, 32);
    }
    XorCancel(r, w);
    XorCancel(w, r);
    XorCancel(r, ALL_ONES);
    XorAssociative(r, r, w);
    XorAssociative(r, r, ALL_ONES);
    XorCancel(w, 0);
    XorCancel(ALL_ONES, 0);
    XorCancel(r, r);
  }

  /**
   * The claim of the comment: with the CRC appended in little-endian order, no burst of at most 32 bits
   * anywhere in message and CRC goes unnoticed.
   */
  lemma CodewordBurstDetected(m: seq<bv8>, received: seq<bv8>, start: nat)
    requires received != m + LittleEndian(Crc(0, m))
    requires Burst(Bits(m + LittleEndian(Crc(0, m))), Bits(received), start)
    ensures Crc(0, received) != RESIDUE
  {
    hide Crc, Bits, LittleEndian;
    BurstDetected(0, m + LittleEndian(Crc(0, m)), received, start);
    ResidueIffCrc(m, Crc(0, m));
  }

  /** The one-shot function passes the CRC of nothing, which is the initial chaining value. */
  lemma OneShot(buf: seq<bv8>)
    ensures Crc(Crc(0, []), buf) == Crc(0, buf)
  {
    hide Crc;
    Chaining(0, [], buf);
    assert [] + buf == buf;
  }
}

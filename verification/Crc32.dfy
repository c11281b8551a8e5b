/** The CRC-32 of crc.c: its bitwise definition, and the algebra of its register. */
module Crc32 {
  const POLYNOMIAL: bv32 := 0xedb88320
  const ALL_ONES: bv32 := 0xffffffff

  /** Exclusive or, named so that inductive proofs can use its laws without looking at single bits. */
  function Xor(a: bv32, b: bv32): bv32 {
    a ^ b
  }

  // ----- The bitwise definition (RFC 1952 section 8): one register step per message bit, LSB first -----

  function Reduce(c: bv32): bv32 {
    Xor(c >> 1, if c & 1 == 1 then POLYNOMIAL else 0)
  }

  function Bit(b: bool): bv32 {
    if b then 1 else 0
  }

  /** The register after a sequence of bits. */
  function Register(r: bv32, bits: seq<bool>): bv32
    decreases |bits|
  {
    if bits == [] then r else Register(Reduce(Xor(r, Bit(bits[0]))), bits[1..])
  }

  predicate Low(w: bv32) {
    w & 1 == 1
  }

  function Half(w: bv32): bv32 {
    w >> 1
  }

  function Twice(w: bv32): bv32 {
    w << 1
  }

  /** The n lowest bits of w, lowest first. */
  function LowBits(w: bv32, n: nat): (r: seq<bool>)
    ensures |r| == n
    decreases n
  {
    if n == 0 then [] else [Low(w)] + LowBits(Half(w), n - 1)
  }

  function Widen(b: bv8): bv32 {
    b as bv32
  }

  function ByteBits(b: bv8): (r: seq<bool>)
    ensures |r| == 8
  {
    LowBits(Widen(b), 8)
  }

  function Bits(buf: seq<bv8>): (r: seq<bool>)
    ensures |r| == 8 * |buf|
    decreases |buf|
  {
    if buf == [] then [] else ByteBits(buf[0]) + Bits(buf[1..])
  }

  /** The preset and inverted CRC of a buffer, continuing from chaining value crc. */
  function Crc(crc: bv32, buf: seq<bv8>): bv32 {
    Xor(Register(Xor(crc, ALL_ONES), Bits(buf)), ALL_ONES)
  }

  lemma {:induction false} RegisterConcat(r: bv32, a: seq<bool>, b: seq<bool>)
    ensures Register(r, a + b) == Register(Register(r, a), b)
    decreases |a|
  {
    hide Reduce, Xor, Bit;
    if a == [] {
      assert a + b == b;
    } else {
      assert (a + b)[1..] == a[1..] + b;
      RegisterConcat(Reduce(Xor(r, Bit(a[0]))), a[1..], b);
    }
  }

  lemma {:induction false} BitsConcat(a: seq<bv8>, b: seq<bv8>)
    ensures Bits(a + b) == Bits(a) + Bits(b)
    decreases |a|
  {
    hide ByteBits;
    if a == [] {
      assert a + b == b;
    } else {
      assert (a + b)[1..] == a[1..] + b;
      BitsConcat(a[1..], b);
      assert ByteBits(a[0]) + (Bits(a[1..]) + Bits(b)) == ByteBits(a[0]) + Bits(a[1..]) + Bits(b);
    }
  }

  /** A buffer may be summed in pieces, passing each result on. */
  lemma Chaining(crc: bv32, a: seq<bv8>, b: seq<bv8>)
    ensures Crc(Crc(crc, a), b) == Crc(crc, a + b)
  {
    hide Register, Bits, Xor;
    BitsConcat(a, b);
    RegisterConcat(Xor(crc, ALL_ONES), Bits(a), Bits(b));
    XorCancel(Register(Xor(crc, ALL_ONES), Bits(a)), ALL_ONES);
  }

  // ----- XOR-linearity of the register -----

  lemma XorCancel(a: bv32, b: bv32)
    ensures Xor(Xor(a, b), b) == a
    ensures Xor(a, a) == 0 && Xor(a, 0) == a && Xor(0, a) == a
    ensures Xor(a, b) == 0 <==> a == b
    ensures Xor(a, b) == Xor(b, a)
  {}

  lemma XorAssociative(a: bv32, b: bv32, c: bv32)
    ensures Xor(Xor(a, b), c) == Xor(a, Xor(b, c))
  {}

  lemma XorPairs(a: bv32, b: bv32, c: bv32, d: bv32)
    ensures Xor(Xor(a, b), Xor(c, d)) == Xor(Xor(a, c), Xor(b, d))
  {
    hide Xor;
    XorAssociative(a, b, Xor(c, d));
    XorAssociative(b, c, d);
    XorCancel(b, c);
    XorAssociative(c, b, d);
    XorAssociative(a, c, Xor(b, d));
  }

  function Feedback(c: bv32): bv32 {
    if c & 1 == 1 then POLYNOMIAL else 0
  }

  lemma ShiftXor(a: bv32, b: bv32)
    ensures Half(Xor(a, b)) == Xor(Half(a), Half(b))
  {}

  lemma FeedbackXor(a: bv32, b: bv32)
    ensures Feedback(Xor(a, b)) == Xor(Feedback(a), Feedback(b))
  {
    assert (a ^ b) & 1 == (a & 1) ^ (b & 1);
    assert a & 1 == 0 || a & 1 == 1;
    assert b & 1 == 0 || b & 1 == 1;
  }

  lemma ReduceIs(c: bv32)
    ensures Reduce(c) == Xor(Half(c), Feedback(c))
  {}

  lemma ReduceLinear(a: bv32, b: bv32)
    ensures Reduce(Xor(a, b)) == Xor(Reduce(a), Reduce(b))
  {
    hide Reduce, Xor, Half, Feedback;
    ReduceIs(a);
    ReduceIs(b);
    ReduceIs(Xor(a, b));
    ShiftXor(a, b);
    FeedbackXor(a, b);
    XorPairs(Half(a), Half(b), Feedback(a), Feedback(b));
  }

  /** A register step loses nothing. */
  lemma ReduceInjective(a: bv32, b: bv32)
    requires Reduce(a) == Reduce(b)
    ensures a == b
  {}

  function Steps(c: bv32, n: nat): bv32
    decreases n
  {
    if n == 0 then c else Steps(Reduce(c), n - 1)
  }

  lemma {:induction false} StepsLinear(a: bv32, b: bv32, n: nat)
    ensures Steps(Xor(a, b), n) == Xor(Steps(a, n), Steps(b, n))
    decreases n
  {
    hide Reduce, Xor;
    if n > 0 {
      ReduceLinear(a, b);
      StepsLinear(Reduce(a), Reduce(b), n - 1);
    }
  }

  /** Any number of register steps is a bijection. */
  lemma {:induction false} StepsInjective(a: bv32, b: bv32, n: nat)
    requires Steps(a, n) == Steps(b, n)
    ensures a == b
    decreases n
  {
    hide Reduce;
    if n > 0 {
      StepsInjective(Reduce(a), Reduce(b), n - 1);
      ReduceInjective(a, b);
    }
  }

  lemma {:induction false} StepsAdd(c: bv32, m: nat, n: nat)
    ensures Steps(c, m + n) == Steps(Steps(c, m), n)
    decreases m
  {
    hide Reduce;
    if m > 0 {
      StepsAdd(Reduce(c), m - 1, n);
    }
  }

  // ----- Feeding many bits at once -----

  function Shifted(w: bv32, n: nat): bv32
    decreases n
  {
    if n == 0 then w else Shifted(Half(w), n - 1)
  }

  lemma SplitWord(w: bv32)
    ensures (w & 1) ^ ((w >> 1) << 1) == w
    ensures w & 1 == 0 || w & 1 == 1
  {}

  lemma ShiftedBack(w: bv32)
    ensures ((w >> 1) << 1) & 1 == 0
    ensures ((w >> 1) << 1) >> 1 == w >> 1
  {}

  lemma SplitLow(w: bv32)
    ensures w == Xor(Bit(Low(w)), Twice(Half(w)))
  {
    SplitWord(w);
  }

  lemma EvenReduce(w: bv32)
    ensures Reduce(Twice(Half(w))) == Half(w)
  {
    hide Xor;
    ShiftedBack(w);
    XorCancel(Half(w), 0);
  }

  /** Bits not yet fed may as well be in the register already: the step just moves them down. */
  lemma SlideOne(r: bv32, w: bv32)
    ensures Reduce(Xor(r, w)) == Xor(Reduce(Xor(r, Bit(Low(w)))), Half(w))
  {
    hide Reduce, Xor, Half, Twice, Bit, Low;
    SplitLow(w);
    XorAssociative(r, Bit(Low(w)), Twice(Half(w)));
    ReduceLinear(Xor(r, Bit(Low(w))), Twice(Half(w)));
    EvenReduce(w);
  }

  lemma {:induction false} Slide(r: bv32, w: bv32, n: nat)
    ensures Xor(Register(r, LowBits(w, n)), Shifted(w, n)) == Steps(Xor(r, w), n)
    decreases n
  {
    hide Reduce, Xor, Half, Bit, Low;
    if n > 0 {
      assert LowBits(w, n)[1..] == LowBits(Half(w), n - 1);
      SlideOne(r, w);
      Slide(Reduce(Xor(r, Bit(Low(w)))), Half(w), n - 1);
    }
  }

  lemma EightHalves(w: bv32)
    ensures Half(Half(Half(Half(Half(Half(Half(Half(w)))))))) == w >> 8
  {}

  lemma ShiftedEight(w: bv32)
    ensures Shifted(w, 8) == w >> 8
  {
    hide Half;
    var v := Half(Half(Half(Half(w))));
    assert Shifted(w, 8) == Shifted(v, 4);
    EightHalves(w);
  }

  lemma ByteShiftedOut(b: bv8)
    ensures Shifted(Widen(b), 8) == 0
  {
    ShiftedEight(Widen(b));
    assert Widen(b) >> 8 == 0;
  }

  /** Eight bits of a byte: mix the byte in, then take eight steps. */
  lemma FeedByte(r: bv32, b: bv8)
    ensures Register(r, ByteBits(b)) == Steps(Xor(r, Widen(b)), 8)
  {
    hide Register, Steps, Xor, Shifted, LowBits, Widen;
    Slide(r, Widen(b), 8);
    ByteShiftedOut(b);
    XorCancel(Register(r, ByteBits(b)), 0);
  }

  lemma RegisterFirst(r: bv32, buf: seq<bv8>)
    requires buf != []
    ensures Register(r, Bits(buf)) == Register(Steps(Xor(r, Widen(buf[0])), 8), Bits(buf[1..]))
  {
    hide Register, Steps, Xor, ByteBits, Widen;
    RegisterConcat(r, ByteBits(buf[0]), Bits(buf[1..]));
    FeedByte(r, buf[0]);
  }

  /** The CRC of the letter a, which is the same for every CRC-32 of this kind. */
  lemma CheckValue()
    ensures Crc(0, [0x61]) == 0xe8b7_be43
  {
    var r: bv32 := Xor(0, ALL_ONES);
    RegisterFirst(r, [0x61]);
    assert [0x61][1..] == [];
    var c := Xor(r, Widen(0x61));
    assert c == 0xffff_ff9e;
    assert Steps(c, 8) == Reduce(Reduce(Reduce(Reduce(Reduce(Reduce(Reduce(Reduce(c))))))));
  }
}

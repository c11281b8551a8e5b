/** The table of crc.c, built by doubling, and the CRC that uses it. */
module Crc32Table {
  import opened Crc32

  const SIZE: nat := 256

  /** The 32-bit word with value n. */
  function Word(n: nat): bv32 {
    if n == 0 then 0 else Xor(Twice(Word(n / 2)), Bit(n % 2 == 1))
  }

  /** What entry n of the table has to be: eight register steps of its index. */
  function Entry(n: nat): bv32 {
    Steps(Word(n), 8)
  }

  // ----- Why doubling works -----

  predicate PowerOfTwo(i: nat) {
    i == 1 || (i > 1 && i % 2 == 0 && PowerOfTwo(i / 2))
  }

  lemma DoubleWord(n: nat)
    ensures Word(2 * n) == Twice(Word(n))
    ensures Word(2 * n + 1) == Xor(Twice(Word(n)), 1)
  {
    TwiceZero();
    hide Xor, Twice;
    XorCancel(Twice(Word(n)), 0);
  }

  lemma TwiceZero()
    ensures Twice(0) == 0
  {}

  lemma TwiceXor(a: bv32, b: bv32)
    ensures Twice(Xor(a, b)) == Xor(Twice(a), Twice(b))
  {}

  /** j is a multiple of 2 * i, for a power of two i: bit i of j and those below are clear. */
  predicate ClearUpTo(j: nat, i: nat) {
    j % 2 == 0 && (i > 1 ==> ClearUpTo(j / 2, i / 2))
  }

  /** Adding i to a multiple of 2 * i sets one bit that was clear. */
  lemma {:induction false} AddIsXor(i: nat, j: nat)
    requires PowerOfTwo(i) && ClearUpTo(j, i)
    ensures Word(j + i) == Xor(Word(j), Word(i))
    decreases i
  {
    var h, k := i / 2, j / 2;
    if i == 1 {
      DoubleWord(0);
      DoubleWord(k);
      TwiceZero();
      hide Xor, Twice, Word;
      XorCancel(0, 1);
    } else {
      hide Xor, Twice, Word;
      AddIsXor(h, k);
      DoubleWord(k + h);
      DoubleWord(h);
      DoubleWord(k);
      TwiceXor(Word(k), Word(h));
    }
  }

  lemma EntryXor(i: nat, j: nat)
    requires PowerOfTwo(i) && ClearUpTo(j, i)
    ensures Entry(j + i) == Xor(Entry(j), Entry(i))
  {
    hide Xor, Steps, Word;
    AddIsXor(i, j);
    StepsLinear(Word(j), Word(i), 8);
  }

  lemma PowerWords()
    ensures Word(1) == 1 && Word(2) == 2 && Word(4) == 4 && Word(8) == 8
    ensures Word(16) == 16 && Word(32) == 32 && Word(64) == 64 && Word(128) == 128
  {
    DoubleWord(0);
    DoubleWord(1);
    DoubleWord(2);
    DoubleWord(4);
    DoubleWord(8);
    DoubleWord(16);
    DoubleWord(32);
    DoubleWord(64);
  }

  lemma {:induction false} SmallPowers(i: nat)
    requires PowerOfTwo(i) && i <= 128
    ensures i == 1 || i == 2 || i == 4 || i == 8 || i == 16 || i == 32 || i == 64 || i == 128
  {
    if i > 1 {
      SmallPowers(i / 2);
    }
  }

  lemma PowerReduces(i: nat)
    requires PowerOfTwo(i) && i <= 64
    ensures Reduce(Word(2 * i)) == Word(i)
  {
    PowerWords();
    SmallPowers(i);
  }

  /** Halving the index advances the entry by one more step. */
  lemma EntryHalf(i: nat)
    requires PowerOfTwo(i) && i <= 64
    ensures Entry(i) == Reduce(Entry(2 * i))
  {
    hide Steps, Reduce, Word;
    PowerReduces(i);
    StepsSwap(Word(2 * i), 8);
  }

  lemma {:induction false} StepsSwap(c: bv32, n: nat)
    ensures Steps(Reduce(c), n) == Reduce(Steps(c, n))
    decreases n
  {
    hide Reduce;
    if n > 0 {
      StepsSwap(Reduce(c), n - 1);
    }
  }

  lemma FirstEntry()
    ensures Entry(128) == Reduce(1)
  {
    PowerWords();
    assert Reduce(128) == 64 && Reduce(64) == 32 && Reduce(32) == 16 && Reduce(16) == 8;
    assert Reduce(8) == 4 && Reduce(4) == 2 && Reduce(2) == 1;
    assert Steps(128, 8) == Reduce(Reduce(Reduce(Reduce(Reduce(Reduce(Reduce(Reduce(128))))))));
  }

  // ----- Which entries each round of the doubling loop writes -----

  /** In the round for i, an odd multiple of i is an even one plus i. */
  lemma {:induction false} MultiplesOf(n: nat, i: nat)
    requires PowerOfTwo(i)
    ensures (i > 1 ==> ClearUpTo(n, i / 2)) <==> ClearUpTo(n, i) || (n >= i && ClearUpTo(n - i, i))
    ensures n >= i && ClearUpTo(n - i, i) ==> !ClearUpTo(n, i)
    decreases i
  {
    if i > 1 {
      MultiplesOf(n / 2, i / 2);
    }
  }

  lemma {:induction false} NextMultiple(j: nat, n: nat, i: nat)
    requires PowerOfTwo(i) && ClearUpTo(j, i)
    ensures ClearUpTo(j + 2 * i, i)
    ensures ClearUpTo(n, i) && j < n ==> j + 2 * i <= n
    decreases i
  {
    if i > 1 {
      NextMultiple(j / 2, n / 2, i / 2);
    }
  }

  lemma {:induction false} ZeroIsMultiple(i: nat)
    ensures ClearUpTo(0, i)
    decreases i
  {
    if i > 1 {
      ZeroIsMultiple(i / 2);
    }
  }

  /** Entry n is written before the inner loop of round i reaches j. */
  predicate Filled(n: nat, i: nat, j: nat) {
    i == 0 || ClearUpTo(n, i) || (i <= n < i + j && ClearUpTo(n - i, i))
  }

  lemma {:induction false} OnlyZeroIsFilled(n: nat, i: nat)
    requires PowerOfTwo(i) && n < 2 * i
    ensures ClearUpTo(n, i) <==> n == 0
    decreases i
  {
    if i > 1 {
      OnlyZeroIsFilled(n / 2, i / 2);
    }
  }

  lemma NewlyFilled(n: nat, i: nat, j: nat)
    requires PowerOfTwo(i) && ClearUpTo(j, i)
    ensures Filled(n, i, j + 2 * i) <==> Filled(n, i, j) || n == i + j
    ensures !Filled(i + j, i, j)
  {
    MultiplesOf(i + j, i);
    if n >= i {
      NextMultiple(j, n - i, i);
    }
  }

  /** After the last j of round i, round i / 2 finds what it needs. */
  lemma RoundDone(n: nat, i: nat, j: nat)
    requires PowerOfTwo(i) && n < SIZE <= j
    ensures Filled(n, i, j) <==> Filled(n, i / 2, 0)
  {
    MultiplesOf(n, i);
  }

  // ----- The table-driven step -----

  /** A char promoted to unsigned int, on a machine where char is signed or not. */
  function Promote(b: bv8, signed: bool): bv32 {
    if signed && b & 0x80 != 0 then (b as bv32) | 0xffff_ff00 else b as bv32
  }

  function Index(crc: bv32, c: bv32): bv8 {
    ((crc ^ c) & 0xff) as bv8
  }

  /** The signedness of char makes no difference to the entry chosen. */
  lemma IndexIgnoresSign(crc: bv32, b: bv8, signed: bool)
    ensures Index(crc, Promote(b, signed)) == Index(crc, Promote(b, false))
  {}

  lemma HalfByte(x: bv8)
    ensures (x >> 1) as int == (x as int) / 2
    ensures (x & 1 == 1) <==> (x as int) % 2 == 1
  {}

  lemma ByteParts(x: bv8)
    ensures Widen(x) == Xor(Twice(Widen(x >> 1)), Bit(x & 1 == 1))
  {
    assert x & 1 == 0 || x & 1 == 1;
    assert (x as bv32) == (((x >> 1) as bv32) << 1) ^ ((x & 1) as bv32);
  }

  lemma {:induction false} WordOfByte(x: bv8)
    ensures Word(x as int) == Widen(x)
    decreases x as int
  {
    if x == 0 {
      assert Widen(x) == 0;
    } else {
      HalfByte(x);
      ByteParts(x);
      hide Xor, Twice, Widen;
      WordOfByte(x >> 1);
    }
  }

  lemma EvenStep(w: bv32, mask: bv32)
    requires w & mask == 0 && mask & 1 == 1
    ensures Reduce(w) == Half(w)
    ensures Half(w) & (mask >> 1) == 0
  {
    MaskedBits(w, mask);
    hide Xor;
    XorCancel(Half(w), 0);
  }

  lemma MaskedBits(w: bv32, mask: bv32)
    requires w & mask == 0
    ensures (w >> 1) & (mask >> 1) == 0
    ensures mask & 1 == 1 ==> w & 1 == 0
  {}

  /** A word without its low byte is only shifted. */
  lemma HighSteps(w: bv32)
    requires w & 0xff == 0
    ensures Steps(w, 8) == w >> 8
  {
    hide Reduce, Half;
    var a := Half(w);
    var b := Half(a);
    var c := Half(b);
    var d := Half(c);
    EvenStep(w, 0xff);
    EvenStep(a, 0x7f);
    EvenStep(b, 0x3f);
    EvenStep(c, 0x1f);
    EvenStep(d, 0x0f);
    EvenStep(Half(d), 0x07);
    EvenStep(Half(Half(d)), 0x03);
    EvenStep(Half(Half(Half(d))), 0x01);
    EightHalves(w);
    assert Steps(w, 8) == Steps(d, 4);
  }

  lemma SplitByte(crc: bv32, b: bv8)
    ensures Xor(crc, Widen(b)) == Xor(Xor(crc, Widen(b)) & 0xffff_ff00, Widen(Index(crc, Promote(b, false))))
    ensures (Xor(crc, Widen(b)) & 0xffff_ff00) & 0xff == 0
    ensures (Xor(crc, Widen(b)) & 0xffff_ff00) >> 8 == crc >> 8
  {}

  /** One look-up does what eight register steps do. */
  lemma TableStep(crc: bv32, b: bv8, signed: bool)
    ensures Xor(crc >> 8, Entry(Index(crc, Promote(b, signed)) as int)) == Steps(Xor(crc, Widen(b)), 8)
  {
    hide Steps, Xor, Word, Widen, Index, Promote;
    IndexIgnoresSign(crc, b, signed);
    var x := Index(crc, Promote(b, false));
    SplitByte(crc, b);
    WordOfByte(x);
    var high := Xor(crc, Widen(b)) & 0xffff_ff00;
    StepsLinear(high, Widen(x), 8);
    HighSteps(high);
  }

  lemma LastEntry()
    ensures Entry(255) == 0x2d02ef8d
  {
    WordOfByte(255);
    assert Word(255) == 255;
    assert Steps(255, 8) == Reduce(Reduce(Reduce(Reduce(Reduce(Reduce(Reduce(Reduce(255))))))));
  }

  // ----- The code -----

  class Table {
    const table: array<bv32>
    var once: bool

    ghost predicate Valid()
      reads this, table
    {
      table.Length == SIZE && (once ==> forall n | 0 <= n < SIZE :: table[n] == Entry(n))
    }

    constructor ()
      ensures Valid() && !once && fresh(table)
    {
      table := new bv32[SIZE];
      once := false;
    }

    /** crc_init. The first call writes every entry exactly once, with its final value. */
    method Init() returns (ghost writes: seq<nat>)
      requires Valid()
      modifies this, table
      ensures Valid() && once
      ensures |writes| == SIZE && forall n | 0 <= n < SIZE :: writes[n] == if old(once) then 0 else 1
    {
      writes := seq(SIZE, n => 0);
      if once {
        return;
      }
      table[0] := 0;
      writes := writes[0 := 1];
      var h: bv32 := 1;
      var i: nat := SIZE / 2;
      FirstRound();
      while i != 0
        invariant i == 0 || (PowerOfTwo(i) && i <= 128 && Entry(i) == Reduce(h))
        invariant table.Length == SIZE && |writes| == SIZE && !once
        invariant forall n | 0 <= n < SIZE && Filled(n, i, 0) :: table[n] == Entry(n)
        invariant forall n | 0 <= n < SIZE :: writes[n] == if Filled(n, i, 0) then 1 else 0
      {
        hide Entry, Reduce, PowerOfTwo, Filled;
        h := Reduce(h);
        writes := Round(i, h, writes);
        NextRound(i);
        i := i / 2;
      }
      once := true;
    }

    /** The inner loop of crc_init. */
    method Round(i: nat, h: bv32, ghost before: seq<nat>) returns (ghost writes: seq<nat>)
      requires table.Length == SIZE == |before| && PowerOfTwo(i) && i <= 128 && h == Entry(i)
      requires forall n | 0 <= n < SIZE && Filled(n, i, 0) :: table[n] == Entry(n)
      requires forall n | 0 <= n < SIZE :: before[n] == if Filled(n, i, 0) then 1 else 0
      modifies table
      ensures |writes| == SIZE
      ensures forall n | 0 <= n < SIZE && Filled(n, i / 2, 0) :: table[n] == Entry(n)
      ensures forall n | 0 <= n < SIZE :: writes[n] == if Filled(n, i / 2, 0) then 1 else 0
    {
      hide Entry;
      writes := before;
      var j := 0;
      ZeroIsMultiple(i);
      while j < SIZE
        invariant ClearUpTo(j, i) && |writes| == SIZE
        invariant forall n | 0 <= n < SIZE && Filled(n, i, j) :: table[n] == Entry(n)
        invariant forall n | 0 <= n < SIZE :: writes[n] == if Filled(n, i, j) then 1 else 0
        decreases SIZE - j
      {
        InBounds(i, j);
        EntryXor(i, j);
        table[i + j] := Xor(table[j], h);
        writes := writes[i + j := writes[i + j] + 1];
        forall n: nat ensures Filled(n, i, j + 2 * i) <==> Filled(n, i, j) || n == i + j {
          NewlyFilled(n, i, j);
        }
        NewlyFilled(0, i, j);
        NextMultiple(j, 0, i);
        j := j + 2 * i;
      }
      forall n | 0 <= n < SIZE ensures Filled(n, i, j) <==> Filled(n, i / 2, 0) {
        RoundDone(n, i, j);
      }
    }
  }

  /** crc32. It never aborts, and computes the bitwise CRC whatever the signedness of char. */
  method TableCrc(t: Table, crc: bv32, buf: seq<bv8>, signed: bool) returns (r: bv32, aborted: bool)
    requires t.Valid()
    modifies t, t.table
    ensures t.Valid() && t.once
    ensures !aborted && r == Crc(crc, buf)
  {
    hide Entry, Crc, Register, Bits, Index, Promote;
    ghost var writes := t.Init();
    LastEntry();
    if t.table[255] == 0 {
      return 0, true;
    }
    aborted := false;
    r := Xor(crc, ALL_ONES);
    assert buf[0..] == buf;
    var k := 0;
    while k < |buf|
      invariant k <= |buf| && t.Valid() && t.once
      invariant Register(Xor(crc, ALL_ONES), Bits(buf)) == Register(r, Bits(buf[k..]))
    {
      RegisterFirst(r, buf[k..]);
      TableStep(r, buf[k], signed);
      assert buf[k..][1..] == buf[k + 1..];
      r := Xor(r >> 8, t.table[Index(r, Promote(buf[k], signed)) as int]);
      k := k + 1;
    }
    RegisterEnd(r, buf);
    CrcIs(crc, buf);
    r := Xor(r, ALL_ONES);
  }

  lemma RegisterEnd(r: bv32, buf: seq<bv8>)
    ensures Register(r, Bits(buf[|buf|..])) == r
  {}

  lemma CrcIs(crc: bv32, buf: seq<bv8>)
    ensures Crc(crc, buf) == Xor(Register(Xor(crc, ALL_ONES), Bits(buf)), ALL_ONES)
  {}

  lemma ZeroEntry()
    ensures Entry(0) == 0
  {
    assert Reduce(0) == 0;
    hide Reduce;
    assert Steps(0, 8) == Steps(0, 4);
  }

  lemma FirstRound()
    ensures PowerOfTwo(128) && Entry(128) == Reduce(1) && Entry(0) == 0
    ensures forall n | 0 <= n < SIZE :: Filled(n, 128, 0) <==> n == 0
  {
    FirstEntry();
    assert PowerOfTwo(8) && PowerOfTwo(64);
    ZeroEntry();
    hide Entry, Reduce;
    forall n | 0 <= n < SIZE ensures Filled(n, 128, 0) <==> n == 0 {
      OnlyZeroIsFilled(n, 128);
    }
  }

  lemma NextRound(i: nat)
    requires PowerOfTwo(i) && i <= 128
    ensures i > 1 ==> PowerOfTwo(i / 2) && Entry(i / 2) == Reduce(Entry(i))
  {
    hide Entry, Reduce;
    if i > 1 {
      EntryHalf(i / 2);
    }
  }

  lemma {:induction false} LargerPower(n: nat, i: nat)
    requires PowerOfTwo(n) && PowerOfTwo(i) && n >= 2 * i
    ensures ClearUpTo(n, i)
    decreases i
  {
    if i > 1 {
      LargerPower(n / 2, i / 2);
    }
  }

  /** The entries written lie in the table. */
  lemma InBounds(i: nat, j: nat)
    requires PowerOfTwo(i) && i <= 128 && j < SIZE && ClearUpTo(j, i)
    ensures i + j < SIZE
  {
    assert PowerOfTwo(8) && PowerOfTwo(64) && PowerOfTwo(SIZE);
    LargerPower(SIZE, i);
    NextMultiple(j, SIZE, i);
  }
}

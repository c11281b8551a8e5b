/** The 16-bit checksum of crc.c against the one's-complement sum of RFC 1071. */
module InternetChecksum {
  import opened Wire

  const MAX16: nat := 0xffff
  const LIMIT32: nat := 0x1_0000_0000

  /** The most words whose sum always fits 32 bits. */
  const MAX_WORDS: nat := 65537

  // ----- The code, on a host of either byte order -----

  /** A 16-bit word in memory, as the host reads it. */
  function WordOf(first: byte, second: byte, big: bool): (w: nat)
    ensures w <= MAX16
  {
    var f: int, s: int := first, second;
    if big then f * 256 + s else s * 256 + f
  }

  /** A host of either byte order reads the same two bytes, one in network order, the other in reverse. */
  lemma HostsReadWords(b: seq<byte>)
    requires |b| == 2
    ensures NetworkOrder(b, 0, WordOf(b[0], b[1], true))
    ensures NetworkOrder([b[1], b[0]], 0, WordOf(b[0], b[1], false))
  {}

  /** The running 32-bit sum; an odd last byte counts as if a zero followed. */
  function Step(sum: nat, buf: seq<byte>, big: bool): (r: nat)
    ensures sum < LIMIT32 ==> r < LIMIT32
    decreases |buf|
  {
    if buf == [] then sum
    else if |buf| == 1 then (sum + WordOf(buf[0], 0, big)) % LIMIT32
    else Step((sum + WordOf(buf[0], buf[1], big)) % LIMIT32, buf[2..], big)
  }

  /** Two folds, complemented and cut to 16 bits. */
  function Finish(sum: nat): (r: nat)
    ensures r <= MAX16
  {
    var folded := sum / 65536 + sum % 65536;
    MAX16 - (folded + folded / 65536) % 65536
  }

  function Checksum(buf: seq<byte>, big: bool): nat {
    Finish(Step(0, buf, big))
  }

  /**
   * The loop of the step function. For an odd length it reads a word whose second byte lies behind the
   * buffer, and masks that byte out with the network order of 0xff00, whatever it is.
   */
  method ComputeStep(start: nat, buf: seq<byte>, behind: byte, big: bool) returns (sum: nat)
    requires start < LIMIT32
    ensures sum == Step(start, buf, big)
  {
    hide WordOf;
    sum := start;
    var at := 0;
    assert buf[0..] == buf;
    while |buf| - at >= 2
      invariant at <= |buf| && sum < LIMIT32
      invariant Step(sum, buf[at..], big) == Step(start, buf, big)
    {
      assert buf[at..][2..] == buf[at + 2..];
      sum := (sum + WordOf(buf[at], buf[at + 1], big)) % LIMIT32;
      at := at + 2;
    }
    if |buf| - at == 1 {
      var word := WordOf(buf[at], behind, big);
      var masked := if big then word - word % 256 else word % 256;
      MaskDropsStray(buf[at], behind, big);
      assert buf[at..] == [buf[at]];
      sum := (sum + masked) % LIMIT32;
    }
  }

  /** The whole function: one step from zero, then the folds. */
  method ComputeChecksum(buf: seq<byte>, behind: byte, big: bool) returns (c: nat)
    ensures c == Checksum(buf, big)
    ensures |buf| <= 2 * MAX_WORDS ==> c == MAX16 - OnesSum(0, buf, big)
  {
    hide Step, OnesSum;
    var sum := ComputeStep(0, buf, behind, big);
    sum := sum / 65536 + sum % 65536;
    sum := sum + sum / 65536;
    c := MAX16 - sum % 65536;
    if |buf| <= 2 * MAX_WORDS {
      ChecksumExact(buf, big);
    }
  }

  lemma MaskDropsStray(first: byte, behind: byte, big: bool)
    ensures var word := WordOf(first, behind, big);
            (if big then word - word % 256 else word % 256) == WordOf(first, 0, big)
  {}

  // ----- The reference -----

  /** Addition with end-around carry. */
  function OnesAdd(a: nat, b: nat): nat {
    if a + b <= MAX16 then a + b else a + b - MAX16
  }

  /** The one's-complement sum of the words of a buffer, padded with a zero byte to whole words. */
  function OnesSum(acc: nat, buf: seq<byte>, big: bool): nat
    decreases |buf|
  {
    if buf == [] then acc
    else if |buf| == 1 then OnesAdd(acc, WordOf(buf[0], 0, big))
    else OnesSum(OnesAdd(acc, WordOf(buf[0], buf[1], big)), buf[2..], big)
  }

  /** The sum of the words as an unbounded integer. */
  function Total(buf: seq<byte>, big: bool): (t: nat)
    decreases |buf|
  {
    if buf == [] then 0
    else if |buf| == 1 then WordOf(buf[0], 0, big)
    else WordOf(buf[0], buf[1], big) + Total(buf[2..], big)
  }

  /** The one's-complement representative of t: zero only for zero, else from 1 to 65535. */
  function Representative(t: nat): (r: nat)
    ensures r <= MAX16
    ensures r == 0 <==> t == 0
  {
    if t == 0 then 0 else (t - 1) % MAX16 + 1
  }

  // ----- Facts about representatives -----

  lemma Congruent(x: nat, y: nat, k: int)
    requires x == y + k * MAX16 && (x == 0 <==> y == 0)
    ensures Representative(x) == Representative(y)
  {
    if x != 0 {
      ModShift(y - 1, k);
    }
  }

  lemma ModShift(a: nat, k: int)
    requires a + k * MAX16 >= 0
    ensures (a + k * MAX16) % MAX16 == a % MAX16
  {
    var q, r := a / MAX16, a % MAX16;
    assert a + k * MAX16 == (q + k) * MAX16 + r;
  }

  lemma RepresentativeIs(t: nat) returns (k: nat)
    ensures t == Representative(t) + k * MAX16
  {
    k := if t == 0 then 0 else (t - 1) / MAX16;
  }

  lemma SmallRepresentative(t: nat)
    requires t <= 2 * MAX16
    ensures Representative(t) == if t <= MAX16 then t else t - MAX16
  {}

  lemma AddToRepresentative(t: nat, w: nat)
    requires w <= MAX16
    ensures OnesAdd(Representative(t), w) == Representative(t + w)
  {
    var k := RepresentativeIs(t);
    SmallRepresentative(Representative(t) + w);
    Congruent(t + w, Representative(t) + w, k);
  }

  lemma {:induction false} OnesSumIs(t: nat, buf: seq<byte>, big: bool)
    ensures OnesSum(Representative(t), buf, big) == Representative(t + Total(buf, big))
    decreases |buf|
  {
    hide Representative, OnesAdd, WordOf;
    if |buf| == 1 {
      AddToRepresentative(t, WordOf(buf[0], 0, big));
    } else if |buf| > 1 {
      var w := WordOf(buf[0], buf[1], big);
      AddToRepresentative(t, w);
      OnesSumIs(t + w, buf[2..], big);
    }
  }

  /** The two folds of the code give the representative of any 32-bit sum. */
  lemma FinishIs(sum: nat)
    requires sum < LIMIT32
    ensures Finish(sum) == MAX16 - Representative(sum)
  {
    var high, low := sum / 65536, sum % 65536;
    var folded := high + low;
    assert sum == folded + high * MAX16;
    assert high <= MAX16 && low <= MAX16;
    Congruent(sum, folded, high);
    SmallRepresentative(folded);
    if folded <= MAX16 {
      assert folded / 65536 == 0;
    } else {
      assert folded / 65536 == 1;
      assert (folded + 1) % 65536 == folded + 1 - 65536;
    }
  }

  // ----- Exactness -----

  lemma {:induction false} TotalBound(buf: seq<byte>, big: bool)
    ensures Total(buf, big) <= MAX16 * ((|buf| + 1) / 2)
    decreases |buf|
  {
    hide WordOf;
    if |buf| > 1 {
      TotalBound(buf[2..], big);
    }
  }

  lemma ModAdd(x: nat, t: nat)
    ensures (x % LIMIT32 + t) % LIMIT32 == (x + t) % LIMIT32
  {
    var q, r := x / LIMIT32, x % LIMIT32;
    assert x + t == q * LIMIT32 + (r + t);
    ModOfMultiple(q, r + t);
  }

  lemma ModOfMultiple(q: nat, y: nat)
    ensures (q * LIMIT32 + y) % LIMIT32 == y % LIMIT32
  {
    var p, r := y / LIMIT32, y % LIMIT32;
    assert q * LIMIT32 + y == (q + p) * LIMIT32 + r;
  }

  /** The 32-bit sum is the total modulo 2^32; as long as the total fits, it never wraps. */
  lemma {:induction false} StepIsTotal(sum: nat, buf: seq<byte>, big: bool)
    requires sum < LIMIT32
    ensures Step(sum, buf, big) == (sum + Total(buf, big)) % LIMIT32
    decreases |buf|
  {
    hide WordOf;
    if |buf| > 1 {
      var w := WordOf(buf[0], buf[1], big);
      StepIsTotal((sum + w) % LIMIT32, buf[2..], big);
      ModAdd(sum + w, Total(buf[2..], big));
    }
  }

  /** For up to 65537 words the code computes the complement of the one's-complement sum. */
  lemma ChecksumExact(buf: seq<byte>, big: bool)
    requires |buf| <= 2 * MAX_WORDS
    ensures Checksum(buf, big) == MAX16 - OnesSum(0, buf, big)
    ensures Checksum(buf, big) == MAX16 - Representative(Total(buf, big))
  {
    hide Finish, OnesSum, Total, Step;
    TotalBound(buf, big);
    StepIsTotal(0, buf, big);
    FinishIs(Total(buf, big));
    OnesSumIs(0, buf, big);
    assert Representative(0) == 0;
  }

  /** One word more, and a buffer of ones is summed wrongly, whatever follows as zeros. */
  function Overflowing(n: nat): (r: seq<byte>)
    requires n > MAX_WORDS
    ensures |r| == 2 * n
  {
    seq(2 * n, i => if i < 2 * (MAX_WORDS + 1) then 255 else 0)
  }

  lemma {:induction false} TotalOfOnes(buf: seq<byte>, k: nat, big: bool)
    requires |buf| % 2 == 0 && 2 * k <= |buf|
    requires forall i | 0 <= i < |buf| :: buf[i] == if i < 2 * k then 255 else 0
    ensures Total(buf, big) == k * MAX16
    decreases |buf|
  {
    if |buf| > 1 {
      assert WordOf(255, 255, big) == MAX16 && WordOf(0, 0, big) == 0;
      hide WordOf;
      TotalOfOnes(buf[2..], if k > 0 then k - 1 else 0, big);
    }
  }

  lemma OverflowIsWrong(n: nat, big: bool)
    requires n > MAX_WORDS
    ensures Checksum(Overflowing(n), big) != MAX16 - OnesSum(0, Overflowing(n), big)
  {
    hide Total, Step, OnesSum;
    var buf := Overflowing(n);
    TotalOfOnes(buf, MAX_WORDS + 1, big);
    StepIsTotal(0, buf, big);
    OnesSumIs(0, buf, big);
    assert Representative(0) == 0;
    assert Step(0, buf, big) == 65534 && Finish(65534) == 1;
    assert Representative((MAX_WORDS + 1) * MAX16) == MAX16;
  }

  /** The exact bound: n words are always summed correctly if and only if n is at most 65537. */
  lemma ExactBound(n: nat, big: bool)
    ensures (forall buf: seq<byte> | |buf| == 2 * n :: Checksum(buf, big) == MAX16 - OnesSum(0, buf, big))
       <==> n <= MAX_WORDS
  {
    hide Checksum, OnesSum, Overflowing, Representative, Total;
    if n <= MAX_WORDS {
      forall buf: seq<byte> | |buf| == 2 * n ensures Checksum(buf, big) == MAX16 - OnesSum(0, buf, big) {
        ChecksumExact(buf, big);
      }
    } else {
      OverflowIsWrong(n, big);
      var bad := Overflowing(n);
      assert |bad| == 2 * n;
    }
  }

  // ----- Pieces and padding -----

  /** A buffer may be summed in pieces of even length. */
  lemma {:induction false} Chaining(sum: nat, a: seq<byte>, b: seq<byte>, big: bool)
    requires |a| % 2 == 0
    ensures Step(Step(sum, a, big), b, big) == Step(sum, a + b, big)
    decreases |a|
  {
    hide WordOf;
    if a == [] {
      assert a + b == b;
    } else {
      assert (a + b)[2..] == a[2..] + b;
      Chaining((sum + WordOf(a[0], a[1], big)) % LIMIT32, a[2..], b, big);
    }
  }

  /** An odd final byte acts like a final word with a zero byte. */
  lemma OddIsPadded(sum: nat, a: seq<byte>, last: byte, big: bool)
    requires |a| % 2 == 0
    ensures Step(sum, a + [last], big) == Step(sum, a + [last, 0], big)
  {
    Chaining(sum, a, [last], big);
    Chaining(sum, a, [last, 0], big);
    assert [last, 0][2..] == [];
    var t := Step(sum, a, big);
    assert Step(t, [last, 0], big) == Step((t + WordOf(last, 0, big)) % LIMIT32, [], big);
  }

  // ----- Byte-order independence (RFC 1071 section 2(B)) -----

  function Swap(w: nat): (r: nat)
    requires w <= MAX16
    ensures r <= MAX16
  {
    w % 256 * 256 + w / 256
  }

  /** Swapping the bytes of a word multiplies it by 256, up to multiples of 65535. */
  lemma SwapIsProduct(w: nat) returns (k: nat)
    requires w <= MAX16
    ensures 256 * w == Swap(w) + k * MAX16
    ensures Swap(w) == 0 <==> w == 0
  {
    k := w / 256;
  }

  lemma SwapWord(first: byte, second: byte, big: bool)
    ensures WordOf(first, second, !big) == Swap(WordOf(first, second, big))
    ensures WordOf(second, first, big) == Swap(WordOf(first, second, big))
  {
    Parts(first, second);
    Parts(second, first);
  }

  lemma Parts(high: byte, low: byte)
    ensures var h: int := high;
            (h * 256 + low) / 256 == high && (h * 256 + low) % 256 == low
  {}

  lemma {:induction false} TotalOfSwapped(buf: seq<byte>, big: bool) returns (k: nat)
    ensures 256 * Total(buf, big) == Total(buf, !big) + k * MAX16
    ensures Total(buf, big) == 0 <==> Total(buf, !big) == 0
    decreases |buf|
  {
    hide WordOf, Swap;
    if |buf| == 0 {
      k := 0;
    } else {
      var second: byte := if |buf| == 1 then 0 else buf[1];
      SwapWord(buf[0], second, big);
      var j := SwapIsProduct(WordOf(buf[0], second, big));
      k := j;
      if |buf| > 1 {
        var i := TotalOfSwapped(buf[2..], big);
        k := i + j;
      }
    }
  }

  lemma SwapRepresentative(t: nat, u: nat, k: nat)
    requires 256 * t == u + k * MAX16 && (t == 0 <==> u == 0)
    ensures Representative(u) == Swap(Representative(t))
  {
    var f := Representative(t);
    var i := RepresentativeIs(t);
    var j := SwapIsProduct(f);
    assert u == Swap(f) + (256 * i + j - k) * MAX16;
    Congruent(u, Swap(f), 256 * i + j - k);
    SmallRepresentative(Swap(f));
  }

  /** Reading all words with their bytes swapped gives the checksum with its bytes swapped. */
  lemma ByteOrderIndependence(buf: seq<byte>, big: bool)
    requires |buf| <= 2 * MAX_WORDS
    ensures Checksum(buf, !big) == Swap(Checksum(buf, big))
  {
    hide Checksum, OnesSum, Total, Representative;
    var k := TotalOfSwapped(buf, big);
    SwapRepresentative(Total(buf, big), Total(buf, !big), k);
    ChecksumExact(buf, big);
    ChecksumExact(buf, !big);
    SwapComplement(Representative(Total(buf, big)));
  }

  lemma SwapComplement(f: nat)
    requires f <= MAX16
    ensures Swap(MAX16 - f) == MAX16 - Swap(f)
  {
    var h, l := f / 256, f % 256;
    assert MAX16 - f == (255 - h) * 256 + (255 - l);
  }

  /** A 16-bit value as it is stored in memory. */
  function InMemory(w: nat, big: bool): (r: seq<byte>)
    requires w <= MAX16
    ensures |r| == 2 && WordOf(r[0], r[1], big) == w
  {
    if big then [w / 256, w % 256] else [w % 256, w / 256]
  }

  /** The bytes of the checksum in memory, and so in the packet, are the same on every host. */
  lemma SameBytesOnEveryHost(buf: seq<byte>)
    requires |buf| <= 2 * MAX_WORDS
    ensures InMemory(Checksum(buf, true), true) == InMemory(Checksum(buf, false), false)
  {
    hide Checksum;
    ByteOrderIndependence(buf, false);
  }

  // ----- Verifying a checksum -----

  /** The buffer with word k replaced. */
  function PutWord(buf: seq<byte>, k: nat, w: nat, big: bool): (r: seq<byte>)
    requires 2 * k + 2 <= |buf| && w <= MAX16
    ensures |r| == |buf|
  {
    buf[..2 * k] + InMemory(w, big) + buf[2 * k + 2..]
  }

  lemma {:induction false} TotalOfPut(buf: seq<byte>, k: nat, w: nat, big: bool)
    requires 2 * k + 2 <= |buf| && w <= MAX16
    requires buf[2 * k] == 0 && buf[2 * k + 1] == 0
    ensures Total(PutWord(buf, k, w, big), big) == Total(buf, big) + w
    decreases k
  {
    hide WordOf, InMemory;
    var put := PutWord(buf, k, w, big);
    if k == 0 {
      assert put[2..] == buf[2..] && put[0] == InMemory(w, big)[0] && put[1] == InMemory(w, big)[1];
      assert WordOf(0, 0, big) == 0 by { ZeroWord(big); }
    } else {
      TotalOfPut(buf[2..], k - 1, w, big);
      assert put[2..] == PutWord(buf[2..], k - 1, w, big);
      assert put[0] == buf[0] && put[1] == buf[1];
    }
  }

  lemma ZeroWord(big: bool)
    ensures WordOf(0, 0, big) == 0
  {}

  /**
   * With the checksum field zeroed, exactly the computed checksum makes the recomputed value zero; only zero
   * has a second representation, which is 0xffff.
   */
  lemma VerifiesIffChecksum(buf: seq<byte>, k: nat, w: nat, big: bool)
    requires |buf| <= 2 * MAX_WORDS && 2 * k + 2 <= |buf| && w <= MAX16
    requires buf[2 * k] == 0 && buf[2 * k + 1] == 0
    ensures Checksum(PutWord(buf, k, w, big), big) == 0
       <==> w == Checksum(buf, big) || (Checksum(buf, big) == 0 && w == MAX16)
  {
    hide Checksum, Total, OnesSum, PutWord;
    TotalOfPut(buf, k, w, big);
    ChecksumExact(buf, big);
    ChecksumExact(PutWord(buf, k, w, big), big);
    var t := Total(buf, big);
    AddToRepresentative(t, w);
  }
}

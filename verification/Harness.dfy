/** The test harness's receiver: a budget of attempts that wraps, and a multicast expectation in a bitmask. */
module Harness {
  import opened Wire

  /** One more than UINT_MAX. */
  const UINT_LIMIT: nat := 0x1_0000_0000
  const UINT_MAX: nat := 0xffff_ffff

  // ----- Bitmasks of interfaces -----

  /** The value of bit i - 1, which stands for interface i. */
  function BitValue(i: nat): (v: nat)
    requires i > 0
    ensures v > 0
  {
    if i == 1 then 1 else 2 * BitValue(i - 1)
  }

  predicate HasBit(mask: nat, i: nat)
    requires i > 0
  {
    if i == 1 then mask % 2 == 1 else HasBit(mask / 2, i - 1)
  }

  /** The interfaces a mask stands for, the lowest bit being interface `first`. */
  function Members(mask: nat, first: nat): (s: set<nat>)
    ensures forall i | i in s :: first <= i
    ensures s == {} <==> mask == 0
  {
    if mask == 0 then {} else (if mask % 2 == 1 then {first} else {}) + Members(mask / 2, first + 1)
  }

  function Interfaces(mask: nat): set<nat> {
    Members(mask, 1)
  }

  lemma {:induction false} MembersHaveBits(mask: nat, first: nat, i: nat)
    requires i > 0
    ensures first + i - 1 in Members(mask, first) <==> HasBit(mask, i)
    decreases i
  {
    if mask == 0 {
      NoBits(i);
    } else if i > 1 {
      MembersHaveBits(mask / 2, first + 1, i - 1);
    }
  }

  lemma {:induction false} NoBits(i: nat)
    requires i > 0
    ensures !HasBit(0, i)
  {
    if i > 1 {
      NoBits(i - 1);
    }
  }

  lemma {:induction false} BitIsPart(mask: nat, i: nat)
    requires i > 0 && HasBit(mask, i)
    ensures BitValue(i) <= mask
  {
    if i > 1 {
      BitIsPart(mask / 2, i - 1);
    }
  }

  /** Subtracting a set bit clears it and no other. */
  lemma {:induction false} ClearBit(mask: nat, i: nat, j: nat)
    requires i > 0 && j > 0 && HasBit(mask, i)
    ensures BitValue(i) <= mask
    ensures HasBit(mask - BitValue(i), j) <==> j != i && HasBit(mask, j)
    decreases i
  {
    BitIsPart(mask, i);
    if i == 1 {
      assert (mask - 1) / 2 == mask / 2;
    } else {
      var v := BitValue(i - 1);
      BitIsPart(mask / 2, i - 1);
      assert (mask - 2 * v) / 2 == mask / 2 - v && (mask - 2 * v) % 2 == mask % 2;
      if j > 1 {
        ClearBit(mask / 2, i - 1, j - 1);
      }
    }
  }

  lemma ClearedInterfaces(mask: nat, i: nat)
    requires i > 0 && HasBit(mask, i)
    ensures BitValue(i) <= mask && i in Interfaces(mask)
    ensures Interfaces(mask - BitValue(i)) == Interfaces(mask) - {i}
  {
    BitIsPart(mask, i);
    MembersHaveBits(mask, 1, i);
    var rest := mask - BitValue(i);
    forall j ensures j in Interfaces(rest) <==> j in Interfaces(mask) - {i} {
      if j > 0 {
        MembersHaveBits(mask, 1, j);
        MembersHaveBits(rest, 1, j);
        ClearBit(mask, i, j);
      }
    }
  }

  // ----- The expectation -----

  /**
   * The frame expected; if padded, a received frame may be longer. For a message of interface 32 to 63 the code
   * shifts an int by 31 to 62 bits, which C does not define: `overlong` is what the compiler makes of the test
   * and the subtraction for such a number, nothing or the mask that remains.
   */
  datatype Expected = Expected(frame: seq<byte>, padded: bool, overlong: (nat, nat) -> Option<nat>)

  /** The code has a meaning for messages of this kind. */
  predicate Defined(kind: nat) {
    kind < 32 || kind >= 64
  }

  predicate AllDefined(ms: seq<Message>) {
    forall m | m in ms :: Defined(m.kind)
  }

  predicate Carries(x: Expected, payload: seq<byte>) {
    if x.padded then x.frame <= payload else x.frame == payload
  }

  /** The frame expected, byte by byte, and nothing behind it unless it may be padded. */
  predicate SameFrame(expected: seq<byte>, padded: bool, payload: seq<byte>) {
    && |expected| <= |payload| && (padded || |payload| == |expected|)
    && forall k | 0 <= k < |expected| :: payload[k] == expected[k]
  }

  lemma CarriesIff(x: Expected, payload: seq<byte>)
    ensures Carries(x, payload) <==> SameFrame(x.frame, x.padded, payload)
  {}

  /** Results of a receiver: 0 done, 1 mismatch or not yet complete, 2 text. */
  function ExpectFrame(x: Expected, expectedIfc: nat, m: Message): nat {
    if m.kind == 0 then 2
    else if expectedIfc == m.kind && Carries(x, m.payload) then 0
    else 1
  }

  /** memcmp of the first n bytes finds no difference. */
  predicate SameBytes(a: seq<byte>, b: seq<byte>, n: nat)
    requires n <= |a| && n <= |b|
  {
    forall k | 0 <= k < n :: a[k] == b[k]
  }

  /** expect_frame, where a negative length stands for a frame that may be followed by padding. */
  method CheckFrame(ifc: nat, msg: seq<byte>, cls1: seq<byte>, cls2: int, cls3: nat, ghost x: Expected)
      returns (ret: nat)
    requires x.frame == cls1 && x.padded == (cls2 < 0) && |cls1| == if cls2 < 0 then -cls2 else cls2
    ensures ret == ExpectFrame(x, cls3, Message(ifc, msg))
    ensures ret == 2 <==> ifc == 0
    ensures ret == 0 <==>
              && ifc == cls3 && ifc != 0
              && (if cls2 < 0 then |msg| >= -cls2 else |msg| == cls2)
              && forall k | 0 <= k < |cls1| :: msg[k] == cls1[k]
  {
    CarriesIff(x, msg);
    if ifc == 0 {
      return 2;
    }
    assert |msg| >= |cls1| ==> (SameBytes(msg, cls1, |cls1|) <==> cls1 <= msg);
    if cls3 == ifc && cls2 < 0 && |msg| >= -cls2 && SameBytes(msg, cls1, -cls2) {
      return 0;
    }
    if cls3 == ifc && |msg| == cls2 && SameBytes(msg, cls1, cls2) {
      return 0;
    }
    ret := 1;
  }

  /** The mask without the bit of interface kind, if it has that bit. */
  function Cleared(x: Expected, mask: nat, kind: nat): (r: Option<nat>)
    requires kind > 0
  {
    if kind >= 64 then None
    else if kind >= 32 then x.overlong(mask, kind)
    else if !HasBit(mask, kind) then None
    else
      BitIsPart(mask, kind);
      Some(mask - BitValue(kind))
  }

  /** The result and the mask afterwards. */
  function ExpectMulticast(x: Expected, mask: nat, m: Message): (r: (nat, nat))
  {
    if m.kind == 0 then (2, mask)
    else if Cleared(x, mask, m.kind).None? then (1, mask)
    else if ExpectFrame(x, m.kind, m) != 0 then (1, mask)
    else
      var rest := Cleared(x, mask, m.kind).value;
      (if rest == 0 then 0 else 1, rest)
  }

  /** trecv over the messages that arrive in time, with the budget kept modulo 2^32. */
  function Receive(ms: seq<Message>, skip: nat, x: Expected, mask: nat): (r: (nat, nat))
    requires skip < UINT_LIMIT
    decreases |ms|
  {
    if skip == UINT_MAX then (1, mask)
    else if ms == [] then (1, mask)
    else
      var (ret, rest) := ExpectMulticast(x, mask, ms[0]);
      if ret == 0 then (0, rest) else Receive(ms[1..], Budget(skip, ret), x, rest)
  }

  /** The budget after one message: taken down by one, and given back for text. */
  function Budget(skip: nat, ret: nat): (s: nat)
    ensures s < UINT_LIMIT
  {
    var less := (skip + UINT_MAX) % UINT_LIMIT;
    if ret == 2 then (less + 1) % UINT_LIMIT else less
  }

  // ----- When it succeeds -----

  function Frames(ms: seq<Message>): (r: seq<Message>)
    ensures forall m | m in r :: m.kind != 0
  {
    if ms == [] then [] else (if ms[0].kind != 0 then [ms[0]] else []) + Frames(ms[1..])
  }

  function Kinds(ms: seq<Message>): set<nat> {
    set m | m in ms :: m.kind
  }

  /** The first frames are exactly as many as there are interfaces, all as expected, one for each interface. */
  predicate Complete(fs: seq<Message>, x: Expected, mask: nat) {
    var k := |Interfaces(mask)|;
    && k <= |fs|
    && (forall m | m in fs[..k] :: Carries(x, m.payload))
    && Kinds(fs[..k]) == Interfaces(mask)
  }

  lemma {:induction false} FewKinds(ms: seq<Message>)
    ensures |Kinds(ms)| <= |ms|
  {
    if ms == [] {
      assert Kinds(ms) == {};
    } else {
      FewKinds(ms[1..]);
      assert ms == [ms[0]] + ms[1..];
      assert Kinds(ms) == Kinds(ms[1..]) + {ms[0].kind};
    }
  }

  /** The value of skip_until_match that leaves n attempts. */
  function Attempts(n: nat): (skip: nat)
    requires n < UINT_LIMIT
    ensures skip < UINT_LIMIT
    ensures n > 0 ==> skip == n - 1
    ensures skip == UINT_MAX <==> n == 0
  {
    (n + UINT_MAX) % UINT_LIMIT
  }

  /** Text costs no attempt, even when the budget wraps in between; anything else costs one. */
  lemma BudgetCounts(n: nat)
    requires 0 < n < UINT_LIMIT
    ensures Budget(Attempts(n), 2) == Attempts(n)
    ensures Budget(Attempts(n), 1) == Attempts(n - 1)
  {}

  /** The frame expected on an interface still missing. */
  predicate Fulfils(x: Expected, mask: nat, m: Message) {
    0 < m.kind < 32 && m.kind in Interfaces(mask) && Carries(x, m.payload)
  }

  lemma MulticastResult(x: Expected, mask: nat, m: Message)
    requires Defined(m.kind)
    ensures m.kind == 0 ==> ExpectMulticast(x, mask, m) == (2, mask)
    ensures m.kind != 0 && !Fulfils(x, mask, m) ==> ExpectMulticast(x, mask, m) == (1, mask)
    ensures Fulfils(x, mask, m) ==>
              var rest := ExpectMulticast(x, mask, m).1;
              && Interfaces(rest) == Interfaces(mask) - {m.kind}
              && ExpectMulticast(x, mask, m).0 == if Interfaces(rest) == {} then 0 else 1
  {
    if m.kind > 0 {
      MembersHaveBits(mask, 1, m.kind);
      if Fulfils(x, mask, m) {
        ClearedInterfaces(mask, m.kind);
      }
    }
  }

  /** With fewer attempts than interfaces missing, it fails. */
  lemma {:induction false} TooFewAttempts(ms: seq<Message>, attempts: nat, x: Expected, mask: nat)
    requires attempts < |Interfaces(mask)| && attempts < UINT_LIMIT && AllDefined(ms)
    ensures Receive(ms, Attempts(attempts), x, mask).0 == 1
    decreases |ms|
  {
    hide Interfaces, ExpectMulticast, Attempts, Budget, Fulfils;
    if attempts > 0 && ms != [] {
      var m := ms[0];
      var rest := ExpectMulticast(x, mask, m).1;
      MulticastResult(x, mask, m);
      BudgetCounts(attempts);
      if m.kind == 0 {
        TooFewAttempts(ms[1..], attempts, x, rest);
      } else {
        TooFewAttempts(ms[1..], attempts - 1, x, rest);
      }
    }
  }

  lemma FirstOf(fs: seq<Message>, k: nat)
    requires 0 < k <= |fs|
    ensures fs[..k] == [fs[0]] + fs[1..][..k - 1]
    ensures Kinds(fs[..k]) == Kinds(fs[1..][..k - 1]) + {fs[0].kind}
  {
    var now, later := fs[..k], fs[1..][..k - 1];
    assert now == [fs[0]] + later;
  }

  lemma UnfulfilledIsIncomplete(fs: seq<Message>, x: Expected, mask: nat)
    requires fs != [] && fs[0].kind != 0 && Interfaces(mask) != {}
    requires forall i | i in Interfaces(mask) :: i < 32
    ensures !Fulfils(x, mask, fs[0]) ==> !Complete(fs, x, mask)
  {
    hide Interfaces, Carries, Kinds;
    var k := |Interfaces(mask)|;
    if k <= |fs| {
      FirstOf(fs, k);
      assert fs[0] in fs[..k];
    }
  }

  /** The kinds of n frames make up n interfaces only if each interface occurs once. */
  lemma RestOfKinds(later: seq<Message>, kind: nat, all: set<nat>)
    requires kind in all && |later| + 1 == |all|
    ensures Kinds(later) + {kind} == all <==> Kinds(later) == all - {kind}
  {
    hide Kinds;
    FewKinds(later);
    OneLess(all, kind);
    if kind in Kinds(later) {
      assert Kinds(later) + {kind} == Kinds(later);
    }
  }

  /** After a frame that fulfils, what remains to be completed is the rest of the mask. */
  lemma CompleteStep(fs: seq<Message>, x: Expected, mask: nat, rest: nat)
    requires fs != [] && Fulfils(x, mask, fs[0]) && Interfaces(rest) == Interfaces(mask) - {fs[0].kind}
    ensures Complete(fs, x, mask) <==> Complete(fs[1..], x, rest)
  {
    hide Interfaces, Carries, Kinds;
    var k := |Interfaces(mask)|;
    OneLess(Interfaces(mask), fs[0].kind);
    if k <= |fs| {
      FirstOf(fs, k);
      var later := fs[1..][..k - 1];
      RestOfKinds(later, fs[0].kind, Interfaces(mask));
      assert forall m | m in fs[..k] :: m == fs[0] || m in later;
      assert forall m | m in later :: m in fs[..k];
    }
  }

  /**
   * With as many attempts as interfaces in the mask, all below 32, the receiver succeeds if and only if the next
   * frames carry what is expected on exactly these interfaces, in any order and with any text between them.
   */
  lemma {:induction false} SucceedsIffComplete(ms: seq<Message>, x: Expected, mask: nat)
    requires 0 < |Interfaces(mask)| < UINT_LIMIT && AllDefined(ms)
    requires forall i | i in Interfaces(mask) :: i < 32
    ensures Receive(ms, Attempts(|Interfaces(mask)|), x, mask).0 == 0 <==> Complete(Frames(ms), x, mask)
    decreases |ms|
  {
    hide Interfaces, ExpectMulticast, Attempts, Budget, Fulfils, Complete;
    var k := |Interfaces(mask)|;
    if ms == [] {
      NothingIsIncomplete(x, mask);
    } else {
      var m := ms[0];
      var rest := ExpectMulticast(x, mask, m).1;
      MulticastResult(x, mask, m);
      BudgetCounts(k);
      if m.kind == 0 {
        assert Frames(ms) == Frames(ms[1..]);
        SucceedsIffComplete(ms[1..], x, mask);
      } else {
        assert Frames(ms) == [m] + Frames(ms[1..]) && Frames(ms)[1..] == Frames(ms[1..]);
        if !Fulfils(x, mask, m) {
          UnfulfilledIsIncomplete(Frames(ms), x, mask);
          TooFewAttempts(ms[1..], k - 1, x, mask);
        } else {
          CompleteStep(Frames(ms), x, mask, rest);
          FulfilsMember(x, mask, m);
          OneLess(Interfaces(mask), m.kind);
          if Interfaces(rest) == {} {
            NothingMissing(Frames(ms[1..]), x, rest);
          } else {
            SucceedsIffComplete(ms[1..], x, rest);
          }
        }
      }
    }
  }

  /** One of the first n frames is the expected one, byte by byte, on interface i. */
  predicate SeenOn(fs: seq<Message>, n: nat, x: Expected, i: nat) {
    exists j :: 0 <= j < n && j < |fs| && fs[j].kind == i && SameFrame(x.frame, x.padded, fs[j].payload)
  }

  lemma SeenLater(fs: seq<Message>, n: nat, x: Expected, i: nat)
    requires fs != [] && n > 0
    ensures SeenOn(fs, n, x, i) <==>
              (fs[0].kind == i && SameFrame(x.frame, x.padded, fs[0].payload)) || SeenOn(fs[1..], n - 1, x, i)
  {
    hide SameFrame;
    if j :| 0 < j < n && j < |fs| && fs[j].kind == i && SameFrame(x.frame, x.padded, fs[j].payload) {
      assert fs[1..][j - 1] == fs[j];
    }
    if j :| 0 <= j < n - 1 && j < |fs[1..]| && fs[1..][j].kind == i
            && SameFrame(x.frame, x.padded, fs[1..][j].payload) {
      assert fs[j + 1] == fs[1..][j];
    }
  }

  lemma FulfilsIff(x: Expected, mask: nat, m: Message)
    requires forall i | i in Interfaces(mask) :: i < 32
    ensures Fulfils(x, mask, m) <==> m.kind in Interfaces(mask) && SameFrame(x.frame, x.padded, m.payload)
  {
    hide Carries, SameFrame;
    CarriesIff(x, m.payload);
  }

  /**
   * With any number of attempts, the receiver succeeds if and only if among as many frames there is, for every
   * interface in the mask, one that equals the expected frame byte by byte; whatever else arrives only costs an
   * attempt, or nothing if it is text.
   */
  lemma {:induction false} SucceedsIffSeen(ms: seq<Message>, attempts: nat, x: Expected, mask: nat)
    requires Interfaces(mask) != {} && attempts < UINT_LIMIT && AllDefined(ms)
    requires forall i | i in Interfaces(mask) :: i < 32
    ensures Receive(ms, Attempts(attempts), x, mask).0 == 0 <==>
              forall i | i in Interfaces(mask) :: SeenOn(Frames(ms), attempts, x, i)
    decreases |ms|
  {
    hide Interfaces, ExpectMulticast, Attempts, Budget, Fulfils, SameFrame, SeenOn;
    if ms == [] || attempts == 0 {
      NothingSeen(Frames(ms), attempts, x);
    } else {
      var m := ms[0];
      var rest := ExpectMulticast(x, mask, m).1;
      MulticastResult(x, mask, m);
      BudgetCounts(attempts);
      if m.kind == 0 {
        assert Frames(ms) == Frames(ms[1..]);
        SucceedsIffSeen(ms[1..], attempts, x, mask);
      } else {
        var later := Frames(ms[1..]);
        assert Frames(ms) == [m] + later && Frames(ms)[1..] == later;
        FulfilsIff(x, mask, m);
        forall i | i in Interfaces(mask)
          ensures SeenOn(Frames(ms), attempts, x, i) <==>
                    (Fulfils(x, mask, m) && m.kind == i) || SeenOn(later, attempts - 1, x, i)
        {
          SeenLater(Frames(ms), attempts, x, i);
        }
        if !Fulfils(x, mask, m) {
          SucceedsIffSeen(ms[1..], attempts - 1, x, mask);
        } else if Interfaces(rest) != {} {
          SucceedsIffSeen(ms[1..], attempts - 1, x, rest);
        }
      }
    }
  }

  lemma NothingSeen(fs: seq<Message>, n: nat, x: Expected)
    requires fs == [] || n == 0
    ensures forall i :: !SeenOn(fs, n, x, i)
  {}

  /** A frame that differs from the expected one in a byte, or lacks it, only costs an attempt. */
  lemma DifferentByteNeverCounts(ms: seq<Message>, attempts: nat, x: Expected, mask: nat, k: nat)
    requires ms != [] && ms[0].kind != 0 && 0 < attempts < UINT_LIMIT
    requires k < |x.frame| && (k < |ms[0].payload| ==> ms[0].payload[k] != x.frame[k])
    ensures Receive(ms, Attempts(attempts), x, mask) == Receive(ms[1..], Attempts(attempts - 1), x, mask)
  {
    CarriesIff(x, ms[0].payload);
    BudgetCounts(attempts);
    hide Carries, Attempts, Budget, Cleared;
    assert ExpectMulticast(x, mask, ms[0]) == (1, mask);
  }

  /** What shifting modulo 32 makes of interface 33 and so on: the bits of interface 1 and so on. */
  function ShiftModulo32(mask: nat, kind: nat): Option<nat>
  {
    if kind > 32 && HasBit(mask, kind - 32) then
      BitIsPart(mask, kind - 32);
      Some(mask - BitValue(kind - 32))
    else None
  }

  /** The message that shifting modulo 32 takes m for; interface 64 is never accepted. */
  function Alias(m: Message): Message {
    if m.kind == 32 then Message(64, m.payload)
    else if 32 < m.kind < 64 then Message(m.kind - 32, m.payload)
    else m
  }

  function Aliases(ms: seq<Message>): (r: seq<Message>)
    ensures |r| == |ms|
  {
    seq(|ms|, i requires 0 <= i < |ms| => Alias(ms[i]))
  }

  lemma {:induction false} ReceiveAliases(ms: seq<Message>, skip: nat, x: Expected, mask: nat)
    requires skip < UINT_LIMIT && x.overlong == ShiftModulo32
    ensures Receive(ms, skip, x, mask) == Receive(Aliases(ms), skip, x, mask)
    decreases |ms|
  {
    if ms != [] && skip != UINT_MAX {
      assert Aliases(ms)[0] == Alias(ms[0]) && Aliases(ms)[1..] == Aliases(ms[1..]);
      AliasCounts(x, mask, ms[0]);
      hide ExpectMulticast, Aliases;
      var r := ExpectMulticast(x, mask, ms[0]);
      ReceiveAliases(ms[1..], Budget(skip, r.0), x, r.1);
    }
  }

  lemma AliasCounts(x: Expected, mask: nat, m: Message)
    requires x.overlong == ShiftModulo32
    ensures ExpectMulticast(x, mask, m) == ExpectMulticast(x, mask, Alias(m))
  {}

  /**
   * Exactly how it goes wrong where shifts are taken modulo 32: it succeeds if and only if the next frames would be
   * complete with interface 33 counted as 1, 34 as 2, and so on up to 63 as 31, and 32 as none.
   */
  lemma ModuloShiftCountsAliases(ms: seq<Message>, x: Expected, mask: nat)
    requires x.overlong == ShiftModulo32 && 0 < |Interfaces(mask)| < UINT_LIMIT
    requires forall i | i in Interfaces(mask) :: i < 32
    ensures Receive(ms, Attempts(|Interfaces(mask)|), x, mask).0 == 0 <==> Complete(Frames(Aliases(ms)), x, mask)
  {
    hide Interfaces, Complete, Receive;
    ReceiveAliases(ms, Attempts(|Interfaces(mask)|), x, mask);
    assert AllDefined(Aliases(ms));
    SucceedsIffComplete(Aliases(ms), x, mask);
  }

  /** So a frame of interface 33 passes for one of interface 1. */
  lemma WrongInterfaceCounts(frame: seq<byte>, padded: bool)
    ensures var x, ms := Expected(frame, padded, ShiftModulo32), [Message(33, frame)];
            Receive(ms, Attempts(|Interfaces(1)|), x, 1).0 == 0 && !Complete(Frames(ms), x, 1)
  {
    var x, ms := Expected(frame, padded, ShiftModulo32), [Message(33, frame)];
    assert Members(0, 2) == {} && Interfaces(1) == {1};
    assert HasBit(1, 1) && BitValue(1) == 1;
    assert ms[1..] == [] && Frames(ms) == ms && ms[..1] == ms;
    assert Message(33, frame) in ms && 33 in Kinds(ms);
  }

  lemma FulfilsMember(x: Expected, mask: nat, m: Message)
    requires Fulfils(x, mask, m)
    ensures m.kind in Interfaces(mask)
  {}

  lemma OneLess(s: set<nat>, i: nat)
    requires i in s
    ensures |s - {i}| == |s| - 1
  {}

  lemma NothingIsIncomplete(x: Expected, mask: nat)
    requires |Interfaces(mask)| > 0
    ensures !Complete([], x, mask)
  {}

  lemma NothingMissing(fs: seq<Message>, x: Expected, mask: nat)
    requires Interfaces(mask) == {}
    ensures Complete(fs, x, mask)
  {
    assert fs[..0] == [];
  }

  // ----- The code -----

  /** No header in b claims a size below that of a header. */
  predicate ProperSizes(b: seq<byte>)
    decreases |b|
  {
    |b| >= HEADER_SIZE ==> SizeField(b) >= HEADER_SIZE && (SizeField(b) <= |b| ==> ProperSizes(b[SizeField(b)..]))
  }

  /** Every read that is needed comes in time, however few bytes it returns. */
  predicate InTime(input: seq<byte>, counts: seq<nat>) {
    |counts| >= |input| && forall k | 0 <= k < |counts| :: counts[k] > 0
  }

  class Child {
    const childBuf: array<byte>
    var childBufPos: nat

    ghost predicate Valid()
      reads this
    {
      childBuf.Length == 65536 && childBufPos <= childBuf.Length
    }

    ghost function Pending(): seq<byte>
      reads this, childBuf
      requires Valid()
    {
      childBuf[..childBufPos]
    }

    constructor ()
      ensures Valid() && fresh(childBuf) && Pending() == []
    {
      childBuf := new byte[65536];
      childBufPos := 0;
    }

    /**
     * trecv with expect_multicast. The k-th select is followed by a read of at most counts[k] bytes of input;
     * after the last one select times out. `seen` are the messages looked at: together with what stays in the
     * buffer they are all that was pending or read.
     */
    method Trecv(skip: nat, x: Expected, mask: nat, input: seq<byte>, counts: seq<nat>)
        returns (ret: nat, rest: nat, timedOut: bool, n: nat, k: nat, ghost seen: seq<Message>)
      requires Valid() && skip < UINT_LIMIT && ProperSizes(Pending() + input)
      modifies this, childBuf
      ensures Valid() && k <= n <= |input| && k <= |counts| && AllFit(seen)
      ensures timedOut ==> NothingInTime(input, n, counts, k)
      ensures old(Pending()) + input[..n] == Stream(seen) + Pending()
      ensures timedOut ==> ret == 1 && !HasMessage(Pending())
      ensures timedOut ==> Receive(seen, skip, x, mask) == (ret, rest)
      ensures !timedOut ==> forall more :: Receive(seen + more, skip, x, mask) == (ret, rest)
    {
      hide ExpectMulticast, ProperSizes, Stream, Receive, Budget;
      var left: nat := skip;
      ret, rest, timedOut, n, k, seen := 1, mask, false, 0, 0, [];
      StartOfStream(Pending(), input);
      forall more: seq<Message> ensures [] + more == more {}
      while left != UINT_MAX
        invariant Valid() && k <= n <= |input| && k <= |counts| && left < UINT_LIMIT && ret == 1 && !timedOut
        invariant old(Pending()) + input[..n] == Stream(seen) + Pending() && AllFit(seen)
        invariant ProperSizes(Pending() + input[n..])
        invariant forall more :: Receive(seen + more, skip, x, mask) == Receive(more, left, x, rest)
        decreases |input| - n + childBufPos
      {
        ghost var from, before := n, Pending();
        var m;
        m, n, k, timedOut := NextMessage(input, n, counts, k);
        if timedOut {
          AfterWaiting(old(Pending()), input, from, n, seen, before);
          assert seen + [] == seen;
          NothingMore(left, x, rest);
          return;
        }
        AfterMessage(old(Pending()), input, from, n, seen, before, m, Pending());
        ghost var budget, missing, earlier := left, rest, seen;
        left := (left + UINT_MAX) % UINT_LIMIT;
        var r := ExpectMulticast(x, rest, m);
        ret, rest := r.0, r.1;
        if ret == 2 {
          left := (left + 1) % UINT_LIMIT;
        }
        BudgetIs(budget, ret, left);
        seen := seen + [m];
        forall more
          ensures Receive(seen + more, skip, x, mask) == if ret == 0 then (0, rest) else Receive(more, left, x, rest)
        {
          assert seen + more == earlier + ([m] + more);
          LookAt(m, more, budget, x, missing);
        }
        if ret == 0 {
          return;
        }
        ret := 1;
      }
      forall more ensures Receive(seen + more, skip, x, mask) == (1, rest) {
        NoAttemptLeft(more, x, rest);
      }
    }

    /**
     * The way the tests use it: as many attempts as interfaces. If the messages ms come in time, it returns 0 if
     * and only if their frames begin with the expected one on exactly these interfaces. In general the same
     * holds of the messages it saw; it only stops looking early when nothing more comes in time.
     */
    method ReceiveMulticast(x: Expected, mask: nat, input: seq<byte>, counts: seq<nat>)
        returns (ret: nat, ghost seen: seq<Message>)
      requires Valid() && ProperSizes(Pending() + input)
      requires 0 < |Interfaces(mask)| < UINT_LIMIT && forall i | i in Interfaces(mask) :: i < 32
      modifies this, childBuf
      ensures Valid() && AllFit(seen)
      ensures exists n: nat :: n <= |input| && old(Pending()) + input[..n] == Stream(seen) + Pending()
      ensures AllDefined(seen) ==> (ret == 0 <==> Complete(Frames(seen), x, mask))
      ensures InTime(input, counts) ==>
                forall ms | AllFit(ms) && AllDefined(ms) && old(Pending()) + input == Stream(ms) ::
                  ret == 0 <==> Complete(Frames(ms), x, mask)
    {
      hide Interfaces, Receive, Complete, ProperSizes, Stream;
      var rest, timedOut, n, k;
      ret, rest, timedOut, n, k, seen := Trecv(|Interfaces(mask)| - 1, x, mask, input, counts);
      assert seen + [] == seen;
      if AllDefined(seen) {
        SucceedsIffComplete(seen, x, mask);
      }
      forall ms | AllFit(ms) && AllDefined(ms) && old(Pending()) + input == Stream(ms) && InTime(input, counts)
        ensures ret == 0 <==> Complete(Frames(ms), x, mask)
      {
        SeenInTime(old(Pending()), input, n, seen, Pending(), ms);
        if timedOut {
          assert n == |input|;
          AllSeen(old(Pending()), input, seen, Pending(), ms);
        }
        SucceedsIffComplete(ms, x, mask);
      }
    }

    /** Wait for a complete message and remove it from the buffer. */
    method NextMessage(input: seq<byte>, from: nat, counts: seq<nat>, first: nat)
        returns (m: Message, n: nat, k: nat, timedOut: bool)
      requires Valid() && from <= |input| && first <= |counts| && ProperSizes(Pending() + input[from..])
      modifies this`childBufPos, childBuf
      ensures Valid() && from <= n <= |input| && first <= k <= |counts| && k - first <= n - from
      ensures timedOut ==> NothingInTime(input, n, counts, k)
      ensures timedOut ==> Pending() == old(Pending()) + input[from..n] && !HasMessage(Pending())
      ensures !timedOut ==> old(Pending()) + input[from..n] == Encode(m) + Pending() && Fits(m)
      ensures !timedOut ==> ProperSizes(Pending() + input[n..])
      ensures !timedOut ==> |input| - n + childBufPos < |input| - from + old(childBufPos)
    {
      hide ProperSizes, Encode;
      n, k, timedOut := Fill(input, from, counts, first);
      m := Message(0, []);
      ghost var filled := Pending();
      SameStream(old(Pending()), input, from, n);
      if !timedOut {
        SizeInFront(filled, input[n..]);
        m := TakeMessage();
        FirstEncoded(filled);
        StillProper(filled, input[n..]);
      }
    }

    /** Read until a message is complete or select times out. */
    method Fill(input: seq<byte>, from: nat, counts: seq<nat>, first: nat) returns (n: nat, k: nat, timedOut: bool)
      requires Valid() && from <= |input| && first <= |counts|
      modifies this`childBufPos, childBuf
      ensures Valid() && from <= n <= |input| && first <= k <= |counts| && k - first <= n - from
      ensures timedOut ==> NothingInTime(input, n, counts, k)
      ensures Pending() == old(Pending()) + input[from..n]
      ensures timedOut <==> !HasMessage(Pending())
      ensures |input| - n + childBufPos == |input| - from + old(childBufPos)
    {
      n, k, timedOut := from, first, false;
      while childBufPos < HEADER_SIZE || childBufPos < Field(childBuf[0], childBuf[1])
        invariant Valid() && from <= n <= |input| && first <= k <= |counts| && k - first <= n - from && !timedOut
        invariant Pending() == old(Pending()) + input[from..n]
        invariant |input| - n + childBufPos == |input| - from + old(childBufPos)
        decreases |counts| - k
      {
        if k == |counts| {
          timedOut := true;
          return;
        }
        var iret := Smallest(counts[k], childBuf.Length - childBufPos, |input| - n);
        if iret == 0 {
          timedOut := true;
          return;
        }
        Append(input[n..n + iret]);
        LongerPiece(old(Pending()), input, from, n, n + iret);
        n, k := n + iret, k + 1;
      }
    }

    method Append(data: seq<byte>)
      requires Valid() && childBufPos + |data| <= childBuf.Length
      modifies this`childBufPos, childBuf
      ensures Valid() && Pending() == old(Pending()) + data && childBufPos == old(childBufPos) + |data|
    {
      MemCopy(childBuf, childBufPos, data);
      assert childBuf[..childBufPos + |data|] == childBuf[..childBufPos] + childBuf[childBufPos..childBufPos + |data|];
      childBufPos := childBufPos + |data|;
    }

    /** Remove the message in front from the buffer. */
    method TakeMessage() returns (m: Message)
      requires Valid() && HasMessage(Pending()) && SizeField(Pending()) >= HEADER_SIZE
      modifies this`childBufPos, childBuf
      ensures Valid() && m == First(old(Pending())) && Pending() == old(Pending())[SizeField(old(Pending()))..]
      ensures childBufPos < old(childBufPos)
    {
      var size := Field(childBuf[0], childBuf[1]);
      m := Message(Field(childBuf[2], childBuf[3]), childBuf[HEADER_SIZE..size]);
      MemMove(childBuf, 0, size, childBufPos - size);
      childBufPos := childBufPos - size;
    }
  }

  /** What was looked at are the first of the messages sent. */
  lemma SeenInTime(pending: seq<byte>, input: seq<byte>, n: nat, seen: seq<Message>, left: seq<byte>, ms: seq<Message>)
    requires n <= |input| && AllFit(seen) && AllFit(ms)
    requires pending + input[..n] == Stream(seen) + left && pending + input == Stream(ms)
    ensures seen <= ms && ms == seen + ms[|seen|..]
  {
    hide Stream;
    assert pending + input[..n] <= pending + input;
    DecodedPrefix(seen, left, ms);
  }

  /** If all was read and no message is left, all were looked at. */
  lemma AllSeen(pending: seq<byte>, input: seq<byte>, seen: seq<Message>, left: seq<byte>, ms: seq<Message>)
    requires AllFit(seen) && AllFit(ms) && !HasMessage(left)
    requires pending + input == Stream(seen) + left == Stream(ms)
    ensures seen == ms
  {
    DecodedPrefix(seen, left, ms);
    var later := ms[|seen|..];
    assert ms == seen + later;
    StreamConcat(seen, later);
    assert left == Stream(later);
    if later != [] {
      assert later[0] in ms;
      FirstOfEncoded(later[0], Stream(later[1..]));
    }
  }

  function Smallest(a: nat, b: nat, c: nat): nat {
    if a <= b && a <= c then a else if b <= c then b else c
  }

  lemma SameStream(pending: seq<byte>, input: seq<byte>, from: nat, n: nat)
    requires from <= n <= |input|
    ensures pending + input[from..] == pending + input[from..n] + input[n..]
  {
    assert input[from..] == input[from..n] + input[n..];
  }

  lemma LongerPiece(pending: seq<byte>, input: seq<byte>, from: nat, n: nat, m: nat)
    requires from <= n <= m <= |input|
    ensures pending + input[from..n] + input[n..m] == pending + input[from..m]
  {
    assert input[from..m] == input[from..n] + input[n..m];
  }

  lemma FirstEncoded(b: seq<byte>)
    requires HasMessage(b) && SizeField(b) >= HEADER_SIZE
    ensures b == Encode(First(b)) + b[SizeField(b)..] && Fits(First(b))
  {
    TakeFromStream([], b);
    StreamAppend([], First(b));
    hide First, SizeField, Encode, Stream;
    assert [] + [First(b)] == [First(b)];
    assert Stream([]) == [] && [] + b == b && [] + Encode(First(b)) == Encode(First(b));
  }

  lemma AfterWaiting(p: seq<byte>, input: seq<byte>, from: nat, n: nat, seen: seq<Message>, before: seq<byte>)
    requires from <= n <= |input| && p + input[..from] == Stream(seen) + before
    ensures p + input[..n] == Stream(seen) + (before + input[from..n])
  {
    hide Stream;
    assert input[..n] == input[..from] + input[from..n];
    assert p + (input[..from] + input[from..n]) == (p + input[..from]) + input[from..n];
    assert Stream(seen) + before + input[from..n] == Stream(seen) + (before + input[from..n]);
  }

  lemma AfterMessage(p: seq<byte>, input: seq<byte>, from: nat, n: nat, seen: seq<Message>, before: seq<byte>,
                     m: Message, after: seq<byte>)
    requires from <= n <= |input| && p + input[..from] == Stream(seen) + before
    requires before + input[from..n] == Encode(m) + after
    ensures p + input[..n] == Stream(seen + [m]) + after
  {
    hide Stream, Encode;
    AfterWaiting(p, input, from, n, seen, before);
    StreamAppend(seen, m);
    assert Stream(seen) + (Encode(m) + after) == Stream(seen) + Encode(m) + after;
  }

  /** What looking at one message does, as the loop body has it. */
  lemma LookAt(m: Message, more: seq<Message>, skip: nat, x: Expected, mask: nat)
    requires skip < UINT_MAX
    ensures var r := ExpectMulticast(x, mask, m);
            Receive([m] + more, skip, x, mask) ==
              if r.0 == 0 then (0, r.1) else Receive(more, Budget(skip, r.0), x, r.1)
  {
    hide ExpectMulticast, Budget;
    assert ([m] + more)[1..] == more;
  }

  lemma NothingMore(skip: nat, x: Expected, mask: nat)
    requires skip < UINT_LIMIT
    ensures Receive([], skip, x, mask) == (1, mask)
  {}

  lemma NoAttemptLeft(more: seq<Message>, x: Expected, mask: nat)
    ensures Receive(more, UINT_MAX, x, mask) == (1, mask)
  {}

  lemma BudgetIs(skip: nat, ret: nat, left: nat)
    requires var less := (skip + UINT_MAX) % UINT_LIMIT;
             left == if ret == 2 then (less + 1) % UINT_LIMIT else less
    ensures left == Budget(skip, ret)
  {}

  lemma StartOfStream(pending: seq<byte>, input: seq<byte>)
    ensures pending + input[..0] == Stream([]) + pending
    ensures input[0..] == input
  {}

  lemma SizeInFront(b: seq<byte>, more: seq<byte>)
    requires HasMessage(b) && ProperSizes(b + more)
    ensures SizeField(b) >= HEADER_SIZE
  {
    assert SizeField(b + more) == SizeField(b);
  }

  lemma StillProper(b: seq<byte>, more: seq<byte>)
    requires HasMessage(b) && ProperSizes(b + more) && SizeField(b) >= HEADER_SIZE
    ensures ProperSizes(b[SizeField(b)..] + more)
  {
    assert SizeField(b + more) == SizeField(b);
    assert (b + more)[SizeField(b)..] == b[SizeField(b)..] + more;
  }
}

/** How messages are sent: partial writes, printing, forwarding frames, and the test harness's sender. */
module ChildOutput {
  import opened Wire

  /** How many of `size` bytes the results of successive writes take, until one is not positive or missing. */
  function Accepted(size: nat, results: seq<int>): (n: nat)
    ensures n <= size
    decreases |results|
  {
    if size == 0 || results == [] || results[0] <= 0 then 0
    else if results[0] >= size then size
    else results[0] + Accepted(size - results[0], results[1..])
  }

  function Sum(results: seq<int>): int {
    if results == [] then 0 else results[0] + Sum(results[1..])
  }

  predicate AllPositive(results: seq<int>) {
    forall k | 0 <= k < |results| :: results[k] > 0
  }

  /** Some number of writes succeed one after the other and take size bytes together. */
  predicate Suffice(size: nat, results: seq<int>) {
    exists k :: 0 <= k <= |results| && AllPositive(results[..k]) && Sum(results[..k]) >= size
  }

  /** The first k writes succeed, and no other follows: the next one fails or never returns. */
  predicate StopsAfter(results: seq<int>, k: nat) {
    k <= |results| && AllPositive(results[..k]) && (k < |results| ==> results[k] <= 0)
  }

  lemma {:induction false} PositiveSum(results: seq<int>, k: nat)
    requires k <= |results| && AllPositive(results[..k])
    ensures Sum(results[..k]) >= k
    decreases k
  {
    if k > 0 {
      assert results[..k][1..] == results[1..][..k - 1] && results[..k][0] == results[0];
      PositiveSum(results[1..], k - 1);
    }
  }

  /** What is taken before the first failure: the sum of the results before it, but no more than there is. */
  lemma {:induction false} AcceptedBeforeFailure(size: nat, results: seq<int>, k: nat)
    requires StopsAfter(results, k)
    ensures Accepted(size, results) == if Sum(results[..k]) < size then Sum(results[..k]) else size
    decreases k
  {
    if k > 0 {
      assert results[..k][1..] == results[1..][..k - 1] && results[..k][0] == results[0];
      assert StopsAfter(results[1..], k - 1);
      PositiveSum(results[1..], k - 1);
      if results[0] < size {
        AcceptedBeforeFailure(size - results[0], results[1..], k - 1);
      }
    }
  }

  lemma {:induction false} SomewhereStops(results: seq<int>) returns (k: nat)
    ensures StopsAfter(results, k)
  {
    if results == [] || results[0] <= 0 {
      k := 0;
    } else {
      var n := SomewhereStops(results[1..]);
      k := n + 1;
      forall i | 0 <= i < k ensures results[..k][i] > 0 {
        assert i > 0 ==> results[i] == results[1..][..n][i - 1];
      }
    }
  }

  lemma {:induction false} SumGrows(results: seq<int>, k: nat, n: nat)
    requires k <= n <= |results| && AllPositive(results[..n])
    ensures AllPositive(results[..k]) && Sum(results[..k]) <= Sum(results[..n])
    decreases k
  {
    assert forall i | 0 <= i < k :: results[..k][i] == results[..n][i];
    if k == 0 {
      PositiveSum(results, n);
    } else {
      var rest := results[1..];
      assert results[..k][1..] == rest[..k - 1] && results[..n][1..] == rest[..n - 1];
      assert results[..k][0] == results[0] == results[..n][0];
      SumGrows(rest, k - 1, n - 1);
    }
  }

  /** All is taken if and only if the writes before the first failure suffice. */
  lemma {:induction false} AcceptedIff(size: nat, results: seq<int>)
    ensures Accepted(size, results) == size <==> Suffice(size, results)
  {
    hide Accepted, Sum, AllPositive;
    var n := SomewhereStops(results);
    AcceptedBeforeFailure(size, results, n);
    forall k | 0 <= k <= |results| && AllPositive(results[..k]) && Sum(results[..k]) >= size
      ensures Sum(results[..n]) >= size
    {
      WithinPositive(results, k, n);
      SumGrows(results, k, n);
    }
  }

  lemma WithinPositive(results: seq<int>, k: nat, n: nat)
    requires k <= |results| && AllPositive(results[..k]) && StopsAfter(results, n)
    ensures k <= n
  {}

  /** Only a result that is not positive, or a write that never returns, cuts a message off. */
  lemma PositiveResultsSuffice(size: nat, results: seq<int>)
    requires |results| >= size && forall k | 0 <= k < size :: results[k] > 0
    ensures Suffice(size, results) && Accepted(size, results) == size
  {
    PositiveSum(results, size);
    AcceptedIff(size, results);
  }

  // ----- What a program asks for -----

  /** One call of print or of forward_to. */
  datatype Call = Print(str: seq<byte>) | Forward(ifcNum: nat, frame: seq<byte>)

  /** Frames are forwarded to existing interfaces, numbered from 1. */
  predicate Wired(cs: seq<Call>, mtus: seq<nat>) {
    forall c | c in cs && c.Forward? :: 0 < c.ifcNum <= |mtus|
  }

  function MessageOf(c: Call): Message {
    match c
    case Print(str) => Message(0, UntilZero(str))
    case Forward(ifcNum, frame) => Message(ifcNum, frame)
  }

  function Messages(cs: seq<Call>): (ms: seq<Message>)
    ensures |ms| == |cs|
  {
    seq(|cs|, i requires 0 <= i < |cs| => MessageOf(cs[i]))
  }

  lemma MessagesEmpty(cs: seq<Call>)
    ensures Messages(cs[..0]) == []
  {}

  lemma MessagesStep(cs: seq<Call>, n: nat)
    requires n < |cs|
    ensures Messages(cs[..n + 1]) == Messages(cs[..n]) + [MessageOf(cs[n])]
  {
    hide MessageOf;
  }

  predicate TooBig(c: Call, mtus: seq<nat>)
    requires c.Forward? ==> 0 < c.ifcNum <= |mtus|
  {
    c.Forward? && |c.frame| > mtus[c.ifcNum - 1]
  }

  /** The results of the writes of one call leave a part of its message unwritten. */
  predicate CutOff(c: Call, results: seq<int>) {
    !Suffice(HEADER_SIZE + |MessageOf(c).payload|, results)
  }

  /** The calls before the first one that aborts over a frame beyond the MTU. */
  function Performed(cs: seq<Call>, mtus: seq<nat>): (n: nat)
    requires Wired(cs, mtus)
    ensures n <= |cs|
    ensures n < |cs| ==> TooBig(cs[n], mtus)
    ensures forall i | 0 <= i < n :: !TooBig(cs[i], mtus)
  {
    if cs == [] || TooBig(cs[0], mtus) then 0 else 1 + Performed(cs[1..], mtus)
  }

  /** All that a program with these calls sends. */
  function Output(cs: seq<Call>, mtus: seq<nat>): seq<Message>
    requires Wired(cs, mtus)
  {
    Messages(cs[..Performed(cs, mtus)])
  }

  /** The size of the message fits its field, and a frame is not empty. */
  predicate ProperCall(c: Call) {
    match c
    case Print(str) => |UntilZero(str)| <= LARGEST_PAYLOAD
    case Forward(ifcNum, frame) => 0 < |frame| <= LARGEST_PAYLOAD && ifcNum < FIELD_LIMIT
  }

  /** Exactly which calls make messages that the driver can take. */
  lemma ProperIffChildMessage(c: Call)
    requires c.Forward? ==> c.ifcNum > 0
    ensures ProperCall(c) <==> ChildMessage(MessageOf(c))
  {}

  /**
   * What comes of it at the driver: a call is proper if and only if the driver, whatever follows, finds a header
   * it can work with and exactly this message behind it. Any other call leaves it with a size below a header, an
   * empty frame, or a message that was never sent.
   */
  lemma ProperIffTaken(c: Call, rest: seq<byte>)
    requires c.Forward? ==> 0 < c.ifcNum < FIELD_LIMIT
    ensures var b := Encode(MessageOf(c)) + rest;
            ProperCall(c) <==>
              && SizeField(b) >= HEADER_SIZE && (TypeField(b) != 0 ==> SizeField(b) > HEADER_SIZE)
              && SizeField(b) <= |b| && First(b) == MessageOf(c)
  {
    hide UntilZero, Encode, SizeField, TypeField;
    var m := MessageOf(c);
    ProperIffChildMessage(c);
    EncodedFields(m, rest);
    if ProperCall(c) {
      FirstOfEncoded(m, rest);
    }
  }

  /** An overlong text reaches the driver cut short, and what was cut off is read as further headers. */
  lemma OverlongTextIsCut(str: seq<byte>, rest: seq<byte>)
    requires LARGEST_PAYLOAD < |UntilZero(str)| < LARGEST_PAYLOAD + FIELD_LIMIT
    ensures var text, b := UntilZero(str), Encode(MessageOf(Print(str))) + rest;
            var size := SizeField(b);
            && TypeField(b) == 0 && size == HEADER_SIZE + |text| - FIELD_LIMIT
            && (size >= HEADER_SIZE ==> size <= |b| && First(b) == Message(0, text[..|text| - FIELD_LIMIT])
                                        && b[size..] == text[|text| - FIELD_LIMIT..] + rest)
  {
    hide UntilZero;
    var m := MessageOf(Print(str));
    var b := Encode(m) + rest;
    EncodedFields(m, rest);
    hide Encode, SizeField, TypeField;
    assert b[HEADER_SIZE..] == m.payload + rest by {
      assert b == b[..HEADER_SIZE] + (b[HEADER_SIZE..HEADER_SIZE + |m.payload|] + b[HEADER_SIZE + |m.payload|..]);
    }
    var size := SizeField(b);
    if size >= HEADER_SIZE {
      assert b[HEADER_SIZE..size] == b[HEADER_SIZE..][..size - HEADER_SIZE];
      assert b[size..] == b[HEADER_SIZE..][size - HEADER_SIZE..];
    }
  }

  lemma ProperProgramIff(cs: seq<Call>, mtus: seq<nat>)
    requires Wired(cs, mtus)
    ensures ChildMessages(Output(cs, mtus)) <==> forall i | 0 <= i < Performed(cs, mtus) :: ProperCall(cs[i])
  {
    hide UntilZero, Performed;
    var n, ms := Performed(cs, mtus), Output(cs, mtus);
    forall i | 0 <= i < n ensures ProperCall(cs[i]) <==> ChildMessage(ms[i]) {
      ProperIffChildMessage(cs[i]);
    }
    if ChildMessages(ms) {
      assert forall i | 0 <= i < n :: ms[i] in ms;
    }
  }

  // ----- The code -----

  /** The writing end of a pipe: the child's standard output, or the harness's way to the child. */
  class Pipe {
    var written: seq<byte>
    var exited: bool
    ghost var messages: seq<Message>

    /** What is on the pipe are the messages in order; a process that gave up may have cut off the last one. */
    ghost predicate Valid()
      reads this
    {
      if exited then written <= Stream(messages) else written == Stream(messages)
    }

    constructor ()
      ensures Valid() && messages == [] && !exited
    {
      written := [];
      exited := false;
      messages := [];
    }

    /**
     * write_all, where the k-th write returns results[k], but no more than it was given. It leaves when all is
     * written, and exits the process on a result that is not positive.
     */
    method WriteAll(buf: seq<byte>, results: seq<int>) returns (n: nat)
      requires !exited
      modifies this`written, this`exited
      ensures n == Accepted(|buf|, results) && written == old(written) + buf[..n]
      ensures exited <==> n < |buf|
      ensures exited <==> !Suffice(|buf|, results)
      ensures exited ==> forall k: nat | StopsAfter(results, k) :: n == Sum(results[..k])
    {
      AcceptedIff(|buf|, results);
      forall k: nat | StopsAfter(results, k)
        ensures Accepted(|buf|, results) == if Sum(results[..k]) < |buf| then Sum(results[..k]) else |buf|
      {
        AcceptedBeforeFailure(|buf|, results, k);
      }
      hide Suffice, StopsAfter, Sum;
      n := 0;
      var k := 0;
      assert results[0..] == results;
      while n < |buf|
        invariant n <= |buf| && written == old(written) + buf[..n]
        invariant !exited && k <= |results|
        invariant n + Accepted(|buf| - n, results[k..]) == Accepted(|buf|, results)
        decreases |results| - k
      {
        if k == |results| || results[k] <= 0 {
          exited := true;
          return;
        }
        assert results[k..][1..] == results[k + 1..];
        var ret := if results[k] < |buf| - n then results[k] else |buf| - n;
        assert buf[..n] + buf[n..n + ret] == buf[..n + ret];
        written := written + buf[n..n + ret];
        n := n + ret;
        k := k + 1;
      }
    }

    /** Header and payload in one buffer, written in any number of pieces. */
    method Send(kind: nat, payload: seq<byte>, results: seq<int>)
      requires Valid() && !exited
      modifies this
      ensures Valid() && messages == old(messages) + [Message(kind, payload)]
      ensures exited <==> !Suffice(HEADER_SIZE + |payload|, results)
      ensures var m := Message(kind, payload);
              written == old(written) + Encode(m)[..Accepted(|Encode(m)|, results)]
    {
      hide Suffice, StopsAfter, Sum, Accepted;
      var buf := Htons(HEADER_SIZE + |payload|) + Htons(kind) + payload;
      assert buf == Encode(Message(kind, payload));
      StreamAppend(messages, Message(kind, payload));
      messages := messages + [Message(kind, payload)];
      var n := WriteAll(buf, results);
      assert buf[..n] <= buf;
    }

    /** print: text for the user, up to its first zero byte, which is all that the driver would show. */
    method Print(str: seq<byte>, results: seq<int>)
      requires Valid() && !exited
      modifies this
      ensures Valid() && messages == old(messages) + [MessageOf(Call.Print(str))]
      ensures exited <==> !Suffice(HEADER_SIZE + |UntilZero(str)|, results)
      ensures var m := MessageOf(Call.Print(str));
              written == old(written) + Encode(m)[..Accepted(|Encode(m)|, results)]
    {
      hide Suffice, Accepted;
      Send(0, UntilZero(str), results);
    }

    /** forward_to: a frame for interface ifcNum; a frame beyond the MTU aborts before anything is written. */
    method ForwardTo(ifcNum: nat, mtu: nat, frame: seq<byte>, results: seq<int>) returns (aborted: bool)
      requires Valid() && !exited
      modifies this
      ensures Valid()
      ensures aborted <==> |frame| > mtu
      ensures aborted ==> !exited && messages == old(messages) && written == old(written)
      ensures !aborted ==> messages == old(messages) + [MessageOf(Forward(ifcNum, frame))]
      ensures !aborted ==> (exited <==> !Suffice(HEADER_SIZE + |frame|, results))
      ensures var m := MessageOf(Forward(ifcNum, frame));
              !aborted ==> written == old(written) + Encode(m)[..Accepted(|Encode(m)|, results)]
    {
      hide Suffice, Accepted;
      if |frame| > mtu {
        return true;
      }
      Send(ifcNum, frame, results);
      aborted := false;
    }

    method Make(c: Call, mtus: seq<nat>, results: seq<int>) returns (aborted: bool)
      requires Valid() && !exited && (c.Forward? ==> 0 < c.ifcNum <= |mtus|)
      modifies this
      ensures Valid() && (aborted <==> TooBig(c, mtus))
      ensures aborted ==> !exited && messages == old(messages)
      ensures !aborted ==> messages == old(messages) + [MessageOf(c)] && (exited <==> CutOff(c, results))
      ensures var m := MessageOf(c); !aborted ==> written == old(written) + Encode(m)[..Accepted(|Encode(m)|, results)]
    {
      hide UntilZero, Accepted, Suffice;
      match c {
        case Print(str) =>
          Print(str, results);
          aborted := false;
        case Forward(ifcNum, frame) =>
          aborted := ForwardTo(ifcNum, mtus[ifcNum - 1], frame, results);
      }
    }

    /** A program that makes these calls one after the other; results[i] are what the writes of call i return. */
    method Perform(cs: seq<Call>, mtus: seq<nat>, results: seq<seq<int>>) returns (aborted: bool, n: nat)
      requires Valid() && !exited && Wired(cs, mtus) && |results| == |cs|
      modifies this
      ensures Valid() && n <= Performed(cs, mtus) && messages == old(messages) + Messages(cs[..n])
      ensures exited <==> n > 0 && CutOff(cs[n - 1], results[n - 1])
      ensures forall i | 0 <= i < n - 1 :: !CutOff(cs[i], results[i])
      ensures !exited ==> messages == old(messages) + Output(cs, mtus) && (aborted <==> Performed(cs, mtus) < |cs|)
      ensures aborted ==> n < |cs| && cs[n].Forward? && |cs[n].frame| > mtus[cs[n].ifcNum - 1]
      ensures exited ==>
                var b := Encode(MessageOf(cs[n - 1]));
                written == Stream(old(messages) + Messages(cs[..n - 1])) + b[..Accepted(|b|, results[n - 1])]
    {
      hide Messages, MessageOf, CutOff, Stream, Encode, Accepted;
      aborted, n := false, 0;
      MessagesEmpty(cs);
      while n < |cs|
        invariant n <= Performed(cs, mtus) && !aborted && !exited && Valid()
        invariant messages == old(messages) + Messages(cs[..n])
        invariant forall i | 0 <= i < n :: !CutOff(cs[i], results[i])
      {
        assert cs[n] in cs;
        MessagesStep(cs, n);
        aborted := Make(cs[n], mtus, results[n]);
        if aborted {
          return;
        }
        n := n + 1;
        if exited {
          return;
        }
      }
    }

    /** tsend: header and payload in two writes; a payload whose size would not fit its field aborts first. */
    method TSend(kind: nat, payload: seq<byte>, first: seq<int>, second: seq<int>) returns (aborted: bool)
      requires Valid() && !exited && kind < FIELD_LIMIT
      modifies this
      ensures Valid()
      ensures aborted <==> !Fits(Message(kind, payload))
      ensures aborted ==> !exited && messages == old(messages) && written == old(written)
      ensures !aborted ==> messages == old(messages) + [Message(kind, payload)]
      ensures !aborted ==> (exited <==> !(Suffice(HEADER_SIZE, first) && Suffice(|payload|, second)))
    {
      hide Suffice, StopsAfter, Sum, Accepted;
      if |payload| > LARGEST_PAYLOAD {
        return true;
      }
      aborted := false;
      ghost var m, before := Message(kind, payload), written;
      var header := Htons(HEADER_SIZE + |payload|) + Htons(kind);
      StreamAppend(messages, m);
      messages := messages + [m];
      var n := WriteAll(header, first);
      assert header[..n] <= Encode(m);
      if !exited {
        assert written == before + header;
        var k := WriteAll(payload, second);
        assert written == before + (header + payload[..k]);
        assert header + payload[..k] <= Encode(m);
      }
    }
  }
}

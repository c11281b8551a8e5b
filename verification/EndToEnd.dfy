/** What the relay guarantees between the outside world and the child program, over whole runs. */
module EndToEnd {
  import opened Wire
  import opened Net
  import opened DriverSpec
  import opened DriverInvariant
  import opened Relay
  import Loop

  /** Everything the driver decided to send to the child, in order. */
  function Sent(s: System): seq<Message> {
    [s.driver.log.greeting] + s.driver.log.chosen
  }

  /** Nothing is on its way to the child. */
  predicate DrainedToChild(s: System) {
    s.driver.running && s.driver.job.NoJob? && s.toChild == []
  }

  /** Nothing is on its way from a child that has written all of its output. */
  predicate DrainedFromChild(s: System, output: seq<Message>) {
    s.driver.running && s.driver.out.NoOut? && s.fromChild == [] && s.emitted == |Stream(output)|
  }

  /** The driver is started with at least one interface, and every address has six bytes. */
  predicate ProperMacs(macs: seq<seq<byte>>) {
    macs != [] && forall m | m in macs :: |m| == MAC_SIZE
  }

  lemma {:induction false} ConcatOfSixes(macs: seq<seq<byte>>, i: nat)
    requires (forall m | m in macs :: |m| == MAC_SIZE) && i < |macs|
    ensures |Concat(macs)| == MAC_SIZE * |macs|
    ensures Concat(macs)[i * MAC_SIZE..i * MAC_SIZE + MAC_SIZE] == macs[i]
    decreases |macs|
  {
    assert macs[0] in macs;
    if |macs| == 1 {
      assert macs[1..] == [];
    } else {
      ConcatOfSixes(macs[1..], if i == 0 then 0 else i - 1);
      if i > 0 {
        var all, rest, k := Concat(macs), Concat(macs[1..]), (i - 1) * MAC_SIZE;
        assert all[k + MAC_SIZE..k + 2 * MAC_SIZE] == rest[k..k + MAC_SIZE];
      }
    }
  }

  // ----- Driver to child: whole messages, in the order of selection -----

  lemma SentStream(s: System)
    ensures Stream(Sent(s)) == Encode(s.driver.log.greeting) + Stream(s.driver.log.chosen)
  {
    assert Sent(s)[1..] == s.driver.log.chosen;
  }

  lemma InvGivesWrites(s: State)
    requires Inv(s)
    ensures WritesChosen(s) && KeepsBounds(s)
  {}

  lemma ConsumedIsPrefix(s: System, output: seq<Message>)
    requires SysInv(s, output)
    ensures s.consumed <= Stream(Sent(s))
    ensures s.driver.job.NoJob? && s.toChild == [] ==> s.consumed == Stream(Sent(s))
  {
    hide Inv, Stream, Encode;
    InvGivesWrites(s.driver);
    SentStream(s);
    ConcatAssociative(s.consumed, s.toChild, Left(s.driver.job));
    if s.driver.job.NoJob? && s.toChild == [] {
      assert s.consumed + [] + [] == s.consumed;
    }
  }

  /**
   * In every reachable state the handler calls are a prefix of what the MAC list and the chosen messages
   * stand for, and equal to it once nothing is on its way.
   */
  lemma CallsFollowChoices(macs: seq<seq<byte>>, steps: seq<Step>, t: System, output: seq<Message>)
    requires ChildMessages(output) && ProperMacs(macs)
    requires Reaches(macs, steps, t, output)
    requires AllFit(Sent(t))
    ensures !t.loop.aborted
    ensures t.loop.calls <= Loop.CallsOf(Sent(t), false)
    ensures DrainedToChild(t) ==> t.loop.calls == Loop.CallsOf(Sent(t), false) && t.loop.buf == []
  {
    hide Inv, Stream, Reaches, Loop.Feed, Loop.CallsOf, Loop.Ready, Loop.Settled;
    ConcatOfSixes(macs, 0);
    ReachedInv(macs, steps, t, output);
    InvGivesWrites(t.driver);
    ConsumedIsPrefix(t, output);
    assert forall m | m in Sent(t) :: m.payload != [];
    Loop.ReadyWithPayloads(Sent(t));
    Loop.PrefixDelivery(Sent(t), t.consumed);
  }

  /**
   * Exactly when every message gets through: once a size field has wrapped, no reachable state, drained or not, has
   * told the child all that was sent, and otherwise a drained child was told exactly that.
   */
  lemma DeliveryIffAllFit(macs: seq<seq<byte>>, steps: seq<Step>, t: System, output: seq<Message>)
    requires ChildMessages(output) && ProperMacs(macs) && Reaches(macs, steps, t, output)
    ensures Loop.CallsOf(Sent(t), false) <= t.loop.calls ==> AllFit(Sent(t))
    ensures DrainedToChild(t) ==> (t.loop.calls == Loop.CallsOf(Sent(t), false) <==> AllFit(Sent(t)))
  {
    hide Inv, Stream, Reaches, Loop.Feed, Loop.CallsOf, Loop.Ready, Loop.Settled;
    ReachedInv(macs, steps, t, output);
    if AllFit(Sent(t)) {
      CallsFollowChoices(macs, steps, t, output);
    } else {
      Loop.UnfitIsNeverTold(Sent(t), t.consumed);
    }
  }

  // ----- Driver to child: per source -----

  /** The frames handle_frame was given for interface n. */
  function FramesOf(calls: seq<Loop.Call>, n: nat): (r: seq<seq<byte>>) {
    if calls == [] then []
    else (if calls[0].Frame? && calls[0].ifc == n then [calls[0].data] else []) + FramesOf(calls[1..], n)
  }

  /** The texts handle_control was given. */
  function TextsOf(calls: seq<Loop.Call>): (r: seq<seq<byte>>) {
    if calls == [] then []
    else (if calls[0].Control? then [calls[0].text] else []) + TextsOf(calls[1..])
  }

  lemma {:induction false} FramesOfConcat(a: seq<Loop.Call>, b: seq<Loop.Call>, n: nat)
    ensures FramesOf(a + b, n) == FramesOf(a, n) + FramesOf(b, n)
    ensures TextsOf(a + b) == TextsOf(a) + TextsOf(b)
  {
    if a == [] {
      assert a + b == b;
    } else {
      assert (a + b)[0] == a[0] && (a + b)[1..] == a[1..] + b;
      FramesOfConcat(a[1..], b, n);
      var f := if a[0].Frame? && a[0].ifc == n then [a[0].data] else [];
      var x := if a[0].Control? then [a[0].text] else [];
      ConcatAssociative(f, FramesOf(a[1..], n), FramesOf(b, n));
      ConcatAssociative(x, TextsOf(a[1..]), TextsOf(b));
    }
  }

  lemma {:induction false} OnlyMacs(calls: seq<Loop.Call>, n: nat)
    requires forall c | c in calls :: c.Mac?
    ensures FramesOf(calls, n) == [] && TextsOf(calls) == []
  {
    if calls != [] {
      assert calls[0] in calls;
      OnlyMacs(calls[1..], n);
    }
  }

  /** After the MAC list, frames and texts are exactly the payloads of the messages. */
  lemma {:induction false} CallsCarryPayloads(ms: seq<Message>, n: nat)
    requires n > 0
    ensures FramesOf(Loop.CallsOf(ms, true), n) == Payloads(ms, n)
    ensures TextsOf(Loop.CallsOf(ms, true)) == Payloads(ms, 0)
    decreases |ms|
  {
    if ms != [] {
      var first, later := Loop.Dispatch(ms[0], true), Loop.CallsOf(ms[1..], true);
      FramesOfConcat(first, later, n);
      CallsCarryPayloads(ms[1..], n);
      assert first[1..] == [];
    }
  }

  lemma SentCarries(s: System, n: nat)
    requires n > 0 && s.driver.log.greeting.kind == 0
    ensures FramesOf(Loop.CallsOf(Sent(s), false), n) == Payloads(s.driver.log.chosen, n)
    ensures TextsOf(Loop.CallsOf(Sent(s), false)) == Payloads(s.driver.log.chosen, 0)
  {
    var macs := Loop.MacCalls(s.driver.log.greeting.payload, 0);
    var later := Loop.CallsOf(s.driver.log.chosen, true);
    Loop.MacCallsAt(s.driver.log.greeting.payload, 0);
    OnlyMacs(macs, n);
    assert Sent(s)[1..] == s.driver.log.chosen;
    assert Loop.CallsOf(Sent(s), false) == macs + later;
    FramesOfConcat(macs, later, n);
    CallsCarryPayloads(s.driver.log.chosen, n);
  }

  lemma PrefixCarries(a: seq<Loop.Call>, b: seq<Loop.Call>, n: nat)
    requires a <= b
    ensures FramesOf(a, n) <= FramesOf(b, n) && TextsOf(a) <= TextsOf(b)
  {
    assert b == a + b[|a|..];
    FramesOfConcat(a, b[|a|..], n);
  }

  /** Chosen frames of interface i are a prefix of those received; all of them if nothing is left to write. */
  lemma ChosenFrames(s: State, i: nat)
    requires Inv(s) && i < |s.ports|
    ensures Payloads(s.log.chosen, i + 1) <= s.log.frames[i]
    ensures s.running && s.job.NoJob? ==> Payloads(s.log.chosen, i + 1) == s.log.frames[i]
  {
    hide Payloads, Encode, FromChild, KeepsStdin, WritesChosen, LineEnd;
    assert KeepsFrames(s, i);
    if s.job.Job? {
      var done, m := Completed(s), s.log.chosen[|s.log.chosen| - 1];
      assert s.log.chosen == done + [m];
      PayloadsAppend(done, m, i + 1);
      if m.kind == i + 1 {
        HeldPayload(m);
      }
    }
  }

  /** Chosen lines are a prefix of standard input; without a job only an unfinished line is left over. */
  lemma ChosenText(s: State)
    requires Inv(s)
    ensures Concat(Payloads(s.log.chosen, 0)) <= s.log.stdin
    ensures s.running && s.job.NoJob? ==> s.log.stdin == Concat(Payloads(s.log.chosen, 0)) + s.cmd && NEWLINE !in s.cmd
  {
    hide Payloads, Concat, Encode, FromChild, KeepsAllFrames, HoldsFrames, WritesChosen;
    if s.job.Job? {
      var done, m := Completed(s), s.log.chosen[|s.log.chosen| - 1];
      assert s.log.chosen == done + [m];
      if s.job.source.CommandLine? {
        LineWritten(done, m, s.cmd);
      } else {
        FrameWritten(done, m, 0);
      }
    } else {
      assert s.cmd[..|s.cmd|] == s.cmd;
    }
  }

  lemma {:induction false} ConcatPrefix(a: seq<seq<byte>>, b: seq<seq<byte>>)
    requires a <= b
    ensures Concat(a) <= Concat(b)
  {
    if a != [] {
      ConcatPrefix(a[1..], b[1..]);
    }
  }

  /**
   * Frames: the child is given a prefix of what was received on each interface, unaltered and in order,
   * and all of it once nothing is on its way.
   */
  lemma FramesReachChild(macs: seq<seq<byte>>, steps: seq<Step>, t: System, output: seq<Message>, i: nat)
    requires ChildMessages(output) && ProperMacs(macs) && i < |macs|
    requires Reaches(macs, steps, t, output)
    requires AllFit(Sent(t))
    ensures |t.driver.log.frames| == |macs|
    ensures FramesOf(t.loop.calls, i + 1) <= t.driver.log.frames[i]
    ensures DrainedToChild(t) ==> FramesOf(t.loop.calls, i + 1) == t.driver.log.frames[i]
  {
    hide Inv, Reaches, FramesOf, TextsOf, Stream, Payloads, Encode, Enabled, Loop.CallsOf, Loop.Feed;
    ReachedInv(macs, steps, t, output);
    InvGives(t.driver);
    CallsFollowChoices(macs, steps, t, output);
    SentCarries(t, i + 1);
    PrefixCarries(t.loop.calls, Loop.CallsOf(Sent(t), false), i + 1);
    ChosenFrames(t.driver, i);
  }

  /**
   * Text: the child is given whole lines that together are a prefix of standard input, and everything up
   * to the last newline once nothing is on its way.
   */
  lemma LinesReachChild(macs: seq<seq<byte>>, steps: seq<Step>, t: System, output: seq<Message>)
    requires ChildMessages(output) && ProperMacs(macs)
    requires Reaches(macs, steps, t, output)
    requires AllFit(Sent(t))
    ensures Concat(TextsOf(t.loop.calls)) <= t.driver.log.stdin
    ensures forall x | x in TextsOf(t.loop.calls) :: IsLine(x)
    ensures DrainedToChild(t) ==>
              t.driver.log.stdin == Concat(TextsOf(t.loop.calls)) + t.driver.cmd && NEWLINE !in t.driver.cmd
  {
    hide Inv, Reaches, FramesOf, TextsOf, Stream, Payloads, Concat, Encode, IsLine;
    hide Loop.CallsOf, Loop.Feed, Loop.Settled;
    ReachedInv(macs, steps, t, output);
    CallsFollowChoices(macs, steps, t, output);
    SentCarries(t, 1);
    PrefixCarries(t.loop.calls, Loop.CallsOf(Sent(t), false), 1);
    ConcatPrefix(TextsOf(t.loop.calls), Payloads(t.driver.log.chosen, 0));
    ChosenText(t.driver);
    ChosenLines(t.driver);
    var texts, lines := TextsOf(t.loop.calls), Payloads(t.driver.log.chosen, 0);
    assert texts <= lines && (DrainedToChild(t) ==> texts == lines);
    forall x | x in texts ensures IsLine(x) {
      assert x in lines;
    }
  }

  lemma ChosenLines(s: State)
    requires Inv(s)
    ensures KeepsLines(s.log.chosen)
    ensures forall x | x in Payloads(s.log.chosen, 0) :: IsLine(x)
  {
    hide Payloads, Concat, Encode, Completed, Stream;
    PayloadsIn(s.log.chosen, 0);
    forall x | x in Payloads(s.log.chosen, 0) ensures IsLine(x) {
      assert Message(0, x) in s.log.chosen;
    }
  }

  lemma {:induction false} PayloadsIn(ms: seq<Message>, kind: nat)
    ensures forall p | p in Payloads(ms, kind) :: Message(kind, p) in ms
    ensures forall m | m in ms && m.kind == kind :: m.payload in Payloads(ms, kind)
  {
    if ms != [] {
      PayloadsIn(ms[1..], kind);
    }
  }

  // ----- Driver to child: the MAC list -----

  /** One call of handle_mac per interface, with its number and its address. */
  function Addresses(macs: seq<seq<byte>>): seq<Loop.Call> {
    seq(|macs|, i requires 0 <= i < |macs| => Loop.Mac(i + 1, macs[i]))
  }

  /** The greeting tells the child the address of every interface under that interface's number. */
  lemma GreetingNamesInterfaces(macs: seq<seq<byte>>)
    requires ProperMacs(macs)
    ensures Loop.Dispatch(Greeting(macs), false) == Addresses(macs)
  {
    var list := Concat(macs);
    ConcatOfSixes(macs, 0);
    Loop.MacCallsAt(list, 0);
    forall i | 0 <= i < |macs| ensures Loop.MacCallAt(list, 0 + i) == Loop.Mac(i + 1, macs[i]) {
      ConcatOfSixes(macs, i);
    }
  }

  // ----- Child to network -----

  lemma {:induction false} PayloadsPrefix(a: seq<Message>, b: seq<Message>, kind: nat)
    requires a <= b
    ensures Payloads(a, kind) <= Payloads(b, kind)
  {
    assert b == a + b[|a|..];
    PayloadsConcat(a, b[|a|..], kind);
  }

  lemma InvGivesFromChild(s: State)
    requires Inv(s)
    ensures FromChild(s)
    ensures s.running && s.out.NoOut? ==> !HasMessage(s.bufin)
  {}

  /** The messages passed on are the first ones the child sent; all of them once nothing is on its way. */
  lemma HandledFollowOutput(s: System, output: seq<Message>)
    requires SysInv(s, output)
    ensures s.driver.log.handled <= output && s.driver.bufin <= Stream(output[|s.driver.log.handled|..])
    ensures DrainedFromChild(s, output) ==> s.driver.log.handled == output && s.driver.bufin == []
  {
    hide Inv, Encode;
    InvGivesFromChild(s.driver);
    var log := s.driver.log;
    ChildMessagesFit(output);
    assert log.fromChild <= Stream(output)[..s.emitted] <= Stream(output);
    DecodedPrefix(log.handled, s.driver.bufin, output);
    if DrainedFromChild(s, output) {
      var later := output[|log.handled|..];
      assert log.fromChild + [] == log.fromChild == Stream(output);
      assert output == log.handled + later;
      StreamConcat(log.handled, later);
      assert s.driver.bufin == Stream(later);
      if later != [] {
        assert later[0] in output && ChildMessage(later[0]);
        EncodedFields(later[0], Stream(later[1..]));
      }
    }
  }

  /** What is being sent is a beginning of the next message's payload. */
  lemma BegunIsPrefix(s: System, output: seq<Message>, i: nat)
    requires SysInv(s, output) && s.driver.out.Out? && i == s.driver.out.port
    ensures var n := |s.driver.log.handled|;
            n < |output| && output[n].kind == i + 1 && Begun(s.driver, i) <= output[n].payload
  {
    hide Inv, Encode, Stream;
    InvGivesFromChild(s.driver);
    HandledFollowOutput(s, output);
    var later := output[|s.driver.log.handled|..];
    assert ChildMessages(later);
    FrontOfStream(s.driver.bufin, later);
  }

  /** Text sent on interface i so far: complete payloads, then part of the one in progress. */
  lemma SentOnInterface(s: System, output: seq<Message>, i: nat)
    requires SysInv(s, output) && i < |s.driver.ports|
    ensures s.driver.log.sent[i] <= Concat(Payloads(output, i + 1))
    ensures DrainedFromChild(s, output) ==> s.driver.log.sent[i] == Concat(Payloads(output, i + 1))
  {
    hide Inv, Encode, Stream, Payloads, Concat, Begun;
    InvGivesFromChild(s.driver);
    HandledFollowOutput(s, output);
    assert SendsPayloads(s.driver, i);
    var handled := s.driver.log.handled;
    if s.driver.out.Out? && s.driver.out.port == i {
      BegunIsPrefix(s, output, i);
      var m := output[|handled|];
      assert output[..|handled| + 1] == handled + [m];
      TextHandled(handled, m, i + 1);
      PayloadsPrefix(handled + [m], output, i + 1);
      ConcatPrefix(Payloads(handled + [m], i + 1), Payloads(output, i + 1));
    } else {
      BegunEmpty(s.driver, i);
      PayloadsPrefix(handled, output, i + 1);
      ConcatPrefix(Payloads(handled, i + 1), Payloads(output, i + 1));
    }
  }

  lemma BegunEmpty(s: State, i: nat)
    requires Shape(s) && !(s.out.Out? && s.out.port == i)
    ensures Begun(s, i) == []
  {}

  lemma ShownPrefix(a: seq<seq<byte>>, b: seq<seq<byte>>)
    requires a <= b
    ensures Concat(Shown(a)) <= Concat(Shown(b))
  {
    assert Shown(a) <= Shown(b);
    ConcatPrefix(Shown(a), Shown(b));
  }

  /** Text is printed completely if and only if none of it holds a zero byte. */
  lemma {:induction false} ShownCompletelyIff(texts: seq<seq<byte>>)
    ensures |Concat(Shown(texts))| <= |Concat(texts)|
    ensures Concat(Shown(texts)) == Concat(texts) <==> forall x | x in texts :: 0 !in x
  {
    if texts != [] {
      ShownCompletelyIff(texts[1..]);
      assert Shown(texts)[1..] == Shown(texts[1..]);
      var x, rest := texts[0], texts[1..];
      assert texts == [x] + rest;
      if Concat(Shown(texts)) == Concat(texts) {
        assert |UntilZero(x)| == |x| && UntilZero(x) == x;
        assert Concat(Shown(texts))[|x|..] == Concat(Shown(rest));
        assert Concat(texts)[|x|..] == Concat(rest);
      } else if 0 !in x {
        assert UntilZero(x) == x;
      }
    }
  }

  /**
   * For any messages the child sends, in any pieces: what is sent on each interface is a prefix of the payloads
   * addressed to it, in order, what is printed is a prefix of the texts, each up to its first zero byte, and
   * nothing is missing once nothing is on its way.
   */
  lemma OutputReachesNetwork(macs: seq<seq<byte>>, steps: seq<Step>, t: System, output: seq<Message>, i: nat)
    requires ChildMessages(output) && i < |macs|
    requires Reaches(macs, steps, t, output)
    ensures |t.driver.log.sent| == |macs|
    ensures t.driver.log.sent[i] <= Concat(Payloads(output, i + 1))
    ensures t.driver.log.printed <= Concat(Shown(Payloads(output, 0)))
    ensures DrainedFromChild(t, output) ==>
              && t.driver.log.sent[i] == Concat(Payloads(output, i + 1))
              && t.driver.log.printed == Concat(Shown(Payloads(output, 0)))
  {
    hide Inv, Encode, Stream, Payloads, Concat, Shown, Reaches;
    ReachedInv(macs, steps, t, output);
    InvGives(t.driver);
    SentOnInterface(t, output, i);
    InvGivesFromChild(t.driver);
    HandledFollowOutput(t, output);
    PayloadsPrefix(t.driver.log.handled, output, 0);
    ShownPrefix(Payloads(t.driver.log.handled, 0), Payloads(output, 0));
  }
}

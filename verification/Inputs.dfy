/** When everything gets through, in terms of what the driver reads: its interfaces, frames and lines. */
module Inputs {
  import opened Wire
  import opened Net
  import opened DriverSpec
  import opened DriverInvariant
  import opened Relay
  import opened EndToEnd
  import Loop

  /** The most interfaces whose addresses fit one message. */
  const MAX_INTERFACES: nat := 10921

  /** The complete lines of a text, each with its newline. */
  function LinesOf(b: seq<byte>): (r: seq<seq<byte>>) {
    var n := LineEnd(b);
    if n == |b| then [] else [b[..n + 1]] + LinesOf(b[n + 1..])
  }

  lemma LineEndIs(b: seq<byte>, n: nat)
    requires n < |b| && b[n] == NEWLINE && NEWLINE !in b[..n]
    ensures LineEnd(b) == n
  {
    hide LineEnd;
  }

  lemma LinesOfLine(x: seq<byte>, rest: seq<byte>)
    requires IsLine(x)
    ensures LinesOf(x + rest) == [x] + LinesOf(rest)
  {
    var b := x + rest;
    assert b[..|x| - 1] == x[..|x| - 1];
    LineEndIs(b, |x| - 1);
    hide LineEnd;
    assert b[..|x|] == x && b[|x|..] == rest;
  }

  /** Cutting a text at its newlines gives back the lines it was put together from. */
  lemma {:induction false} LinesOfConcat(lines: seq<seq<byte>>, tail: seq<byte>)
    requires forall x | x in lines :: IsLine(x)
    ensures LinesOf(Concat(lines) + tail) == lines + LinesOf(tail)
  {
    hide LinesOf, IsLine;
    if lines == [] {
      assert [] + tail == tail && [] + LinesOf(tail) == LinesOf(tail);
    } else {
      var x, rest := lines[0], Concat(lines[1..]);
      assert x in lines && lines == [x] + lines[1..];
      ConcatAssociative(x, rest, tail);
      LinesOfLine(x, rest + tail);
      LinesOfConcat(lines[1..], tail);
      ConcatAssociative([x], lines[1..], LinesOf(tail));
    }
  }

  lemma NoLine(tail: seq<byte>)
    requires NEWLINE !in tail
    ensures LinesOf(tail) == []
  {}

  /** No frame and no complete line is longer than max. */
  predicate InputsWithin(log: Log, max: nat) {
    && (forall i | 0 <= i < |log.frames| :: forall f | f in log.frames[i] :: |f| <= max)
    && (forall x | x in LinesOf(log.stdin) :: |x| <= max)
  }

  predicate InputsShort(log: Log) {
    InputsWithin(log, LARGEST_PAYLOAD)
  }

  /** What a caller can check: not too many interfaces, and short inputs. */
  predicate InputsFit(macs: seq<seq<byte>>, log: Log) {
    |macs| <= MAX_INTERFACES && InputsShort(log)
  }

  /** The payloads chosen so far are among the lines and frames read. */
  lemma ChosenAreInputs(s: State)
    requires Inv(s)
    ensures Payloads(s.log.chosen, 0) <= LinesOf(s.log.stdin)
    ensures s.running && s.job.NoJob? ==> Payloads(s.log.chosen, 0) == LinesOf(s.log.stdin)
  {
    hide Inv, LinesOf, Payloads, Concat, IsLine;
    var lines := Payloads(s.log.chosen, 0);
    ChosenText(s);
    ChosenLines(s);
    var tail := s.log.stdin[|Concat(lines)|..];
    assert s.log.stdin == Concat(lines) + tail;
    LinesOfConcat(lines, tail);
    if s.running && s.job.NoJob? {
      assert tail == s.cmd;
      NoLine(tail);
      assert lines + [] == lines;
    }
  }

  /** What is chosen is no longer than what was read. */
  lemma ChosenWithin(s: State, max: nat)
    requires Inv(s) && InputsWithin(s.log, max)
    ensures forall m | m in s.log.chosen :: |m.payload| <= max
  {
    hide Payloads, LinesOf, Keeps, NothingWaits;
    ChosenAreInputs(s);
    forall m | m in s.log.chosen ensures |m.payload| <= max {
      PayloadsIn(s.log.chosen, m.kind);
      InvGivesWrites(s);
      if m.kind == 0 {
        assert m.payload in Payloads(s.log.chosen, 0);
      } else {
        ChosenFrames(s, m.kind - 1);
        assert m.payload in s.log.frames[m.kind - 1];
      }
    }
  }

  /** Inputs that fit never make a size field wrap. */
  lemma InputsFitAllFit(s: State)
    requires Inv(s) && |s.ports| < FIELD_LIMIT && InputsShort(s.log)
    ensures AllFit(s.log.chosen)
  {
    hide Inv, InputsWithin;
    ChosenWithin(s, LARGEST_PAYLOAD);
    InvGivesWrites(s);
  }

  /** Without a pending job the converse holds too: everything read has been chosen. */
  lemma AllFitInputsFit(s: State)
    requires Inv(s) && s.running && s.job.NoJob? && AllFit(s.log.chosen)
    ensures InputsShort(s.log)
  {
    hide Payloads, LinesOf, Keeps, NothingWaits;
    ChosenAreInputs(s);
    PayloadsIn(s.log.chosen, 0);
    forall x | x in LinesOf(s.log.stdin) ensures |x| <= LARGEST_PAYLOAD {
      assert Message(0, x) in s.log.chosen && Fits(Message(0, x));
    }
    forall i, f | 0 <= i < |s.log.frames| && f in s.log.frames[i] ensures |f| <= LARGEST_PAYLOAD {
      ChosenFrames(s, i);
      PayloadsIn(s.log.chosen, i + 1);
      assert Message(i + 1, f) in s.log.chosen && Fits(Message(i + 1, f));
    }
  }

  /** The greeting fits exactly if there are not too many interfaces. */
  lemma GreetingFits(macs: seq<seq<byte>>)
    requires ProperMacs(macs)
    ensures Fits(Greeting(macs)) <==> |macs| <= MAX_INTERFACES
  {
    ConcatOfSixes(macs, 0);
  }

  /** The child was told every address and, source by source and in order, every frame and complete line read. */
  predicate ToldAll(macs: seq<seq<byte>>, t: System) {
    && Addresses(macs) <= t.loop.calls
    && TextsOf(t.loop.calls) == LinesOf(t.driver.log.stdin)
    && (forall i | 0 <= i < |t.driver.log.frames| :: FramesOf(t.loop.calls, i + 1) == t.driver.log.frames[i])
  }

  lemma {:induction false} CallableParts(calls: seq<Loop.Call>, n: nat)
    requires forall c | c in calls :: Loop.Callable(c)
    ensures forall x | x in TextsOf(calls) :: |x| <= LARGEST_PAYLOAD
    ensures forall f | f in FramesOf(calls, n) :: |f| <= LARGEST_PAYLOAD
  {
    if calls != [] {
      assert calls[0] in calls;
      CallableParts(calls[1..], n);
    }
  }

  /** Whatever the child reads, it can only have been told of few interfaces and short inputs. */
  lemma ToldInputsFit(macs: seq<seq<byte>>, t: System)
    requires t.loop == Loop.Feed(Loop.INITIAL, t.consumed) && ToldAll(macs, t)
    ensures InputsFit(macs, t.driver.log)
  {
    hide TextsOf, FramesOf, LinesOf, Loop.Feed;
    var calls, frames := t.loop.calls, t.driver.log.frames;
    Loop.FeedCallable(t.consumed);
    CallableParts(calls, 0);
    forall i, f | 0 <= i < |frames| && f in frames[i] ensures |f| <= LARGEST_PAYLOAD {
      CallableParts(calls, i + 1);
    }
    if macs != [] {
      assert Addresses(macs)[|macs| - 1] == calls[|macs| - 1] && calls[|macs| - 1] in calls;
    }
  }

  /** A drained child was told everything read, if it fits. */
  lemma ChosenAreTold(macs: seq<seq<byte>>, steps: seq<Step>, t: System, output: seq<Message>)
    requires ChildMessages(output) && ProperMacs(macs) && Reaches(macs, steps, t, output)
    requires InputsFit(macs, t.driver.log) && DrainedToChild(t)
    ensures ToldAll(macs, t)
  {
    hide Inv, Reaches, FramesOf, TextsOf, LinesOf, InputsFit, Loop.Dispatch;
    ReachedInv(macs, steps, t, output);
    GreetingNamesInterfaces(macs);
    InputReachesChild(macs, steps, t, output, 0);
    assert ([Greeting(macs)] + t.driver.log.chosen)[1..] == t.driver.log.chosen;
    forall i | 0 <= i < |macs| ensures FramesOf(t.loop.calls, i + 1) == t.driver.log.frames[i] {
      InputReachesChild(macs, steps, t, output, i);
    }
  }

  /**
   * Exactly when everything gets through, in terms of the inputs: with more than 10921 interfaces, or once a frame
   * or line of more than 65531 bytes was read, no reachable state, drained or not, has told the child everything
   * read; otherwise every drained state has, by exactly the calls that all that was sent stands for.
   */
  lemma DeliveryIffInputsFit(macs: seq<seq<byte>>, steps: seq<Step>, t: System, output: seq<Message>)
    requires ChildMessages(output) && ProperMacs(macs) && Reaches(macs, steps, t, output)
    ensures ToldAll(macs, t) ==> InputsFit(macs, t.driver.log)
    ensures DrainedToChild(t) ==> (ToldAll(macs, t) <==> InputsFit(macs, t.driver.log))
    ensures DrainedToChild(t) ==> (t.loop.calls == Loop.CallsOf(Sent(t), false) <==> InputsFit(macs, t.driver.log))
  {
    hide Inv, Reaches, Loop.CallsOf, InputsShort, Loop.Feed, ToldAll;
    ReachedInv(macs, steps, t, output);
    if ToldAll(macs, t) {
      ToldInputsFit(macs, t);
    }
    if DrainedToChild(t) {
      if InputsFit(macs, t.driver.log) {
        ChosenAreTold(macs, steps, t, output);
      }
      DeliveryIffAllFit(macs, steps, t, output);
      SentFitIffInputsFit(macs, t);
    }
  }

  lemma SentFitIffInputsFit(macs: seq<seq<byte>>, t: System)
    requires ProperMacs(macs) && Inv(t.driver) && |t.driver.ports| == |macs| && t.driver.running && t.driver.job.NoJob?
    requires t.driver.log.greeting == Greeting(macs)
    ensures AllFit(Sent(t)) <==> InputsFit(macs, t.driver.log)
  {
    hide Inv, InputsShort, AllFit;
    GreetingFits(macs);
    AllFitAppend(Greeting(macs), t.driver.log.chosen);
    if AllFit(t.driver.log.chosen) {
      AllFitInputsFit(t.driver);
    }
    if InputsFit(macs, t.driver.log) {
      InputsFitAllFit(t.driver);
    }
  }

  lemma AllFitAppend(m: Message, ms: seq<Message>)
    ensures AllFit([m] + ms) <==> Fits(m) && AllFit(ms)
  {
    assert forall x | x in ms :: x in [m] + ms;
    assert m in [m] + ms;
  }

  /**
   * The whole way to the child, for inputs that fit: the addresses come first; then, interleaved in some order,
   * whole frames and whole lines, of each source in order and unaltered; and once nothing is on its way, nothing
   * is missing.
   */
  lemma InputReachesChild(macs: seq<seq<byte>>, steps: seq<Step>, t: System, output: seq<Message>, i: nat)
    requires ChildMessages(output) && ProperMacs(macs) && i < |macs|
    requires Reaches(macs, steps, t, output) && InputsFit(macs, t.driver.log)
    ensures !t.loop.aborted
    ensures t.loop.calls <= Loop.CallsOf([Greeting(macs)] + t.driver.log.chosen, false)
    ensures |t.driver.log.frames| == |macs| && FramesOf(t.loop.calls, i + 1) <= t.driver.log.frames[i]
    ensures TextsOf(t.loop.calls) <= LinesOf(t.driver.log.stdin)
    ensures DrainedToChild(t) ==>
              && t.loop.calls == Loop.CallsOf([Greeting(macs)] + t.driver.log.chosen, false)
              && FramesOf(t.loop.calls, i + 1) == t.driver.log.frames[i]
              && TextsOf(t.loop.calls) == LinesOf(t.driver.log.stdin)
  {
    hide Inv, Reaches, FramesOf, TextsOf, Payloads, Concat, LinesOf, Loop.CallsOf, Loop.Feed, InputsShort;
    ReachedInv(macs, steps, t, output);
    InputsFitAllFit(t.driver);
    GreetingFits(macs);
    AllFitAppend(Greeting(macs), t.driver.log.chosen);
    CallsFollowChoices(macs, steps, t, output);
    FramesReachChild(macs, steps, t, output, i);
    TextsAreLines(t);
    PrefixCarries(t.loop.calls, Loop.CallsOf(Sent(t), false), 1);
  }

  /** The texts that the calls for everything chosen carry. */
  lemma TextsAreLines(t: System)
    requires Inv(t.driver) && t.driver.log.greeting.kind == 0
    ensures TextsOf(Loop.CallsOf(Sent(t), false)) <= LinesOf(t.driver.log.stdin)
    ensures t.driver.running && t.driver.job.NoJob? ==>
              TextsOf(Loop.CallsOf(Sent(t), false)) == LinesOf(t.driver.log.stdin)
  {
    hide Inv, TextsOf, LinesOf, Payloads, Loop.CallsOf, FramesOf;
    SentCarries(t, 1);
    ChosenAreInputs(t.driver);
  }
}

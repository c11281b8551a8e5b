/**
 * Driver, child and the two pipes between them, as one system whose steps interleave arbitrarily.
 * The child reads with the loop of module Loop and writes the encoding of some sequence of messages. The pipes have
 * no bound here, and the child reads at any time, so that the runs include all those of module Pipes.
 */
module Relay {
  import opened Wire
  import opened DriverSpec
  import opened DriverInvariant
  import Loop

  datatype System = System(
    driver: State,
    toChild: seq<byte>,      // written by the driver, not yet read by the child
    loop: Loop.State,
    consumed: seq<byte>,     // all the child has read
    fromChild: seq<byte>,    // written by the child, not yet read by the driver
    emitted: nat)            // how many bytes of its output the child has written

  datatype Step =
    | Iteration(e: Events)
    | SelectFails
    | ChildRead(k: nat)
    | ChildWrite(k: nat)

  /** The message main sends before it enters the loop: the address of every interface. */
  function Greeting(macs: seq<seq<byte>>): Message {
    Message(0, Concat(macs))
  }

  function Start(macs: seq<seq<byte>>): System {
    System(Initial(Greeting(macs), |macs|), Encode(Greeting(macs)), Loop.INITIAL, [], [], 0)
  }

  ghost predicate SysInv(s: System, output: seq<Message>) {
    && ChildMessages(output)
    && Inv(s.driver)
    && s.driver.log.toChild == s.consumed + s.toChild
    && s.loop == Loop.Feed(Loop.INITIAL, s.consumed)
    && s.emitted <= |Stream(output)|
    && s.driver.log.fromChild + s.fromChild == Stream(output)[..s.emitted]
  }

  /**
   * When a step can be taken. The driver reads what the pipe holds, or less; the child reads at least
   * one byte and at most what its buffer has room for.
   */
  ghost predicate Enabled(s: System, step: Step, output: seq<Message>)
    requires Shape(s.driver)
  {
    match step
    case Iteration(e) =>
      s.driver.running && Possible(s.driver, e) && (e.fromChild.Some? ==> e.fromChild.value <= s.fromChild)
    case SelectFails => s.driver.running
    case ChildRead(k) => !s.loop.aborted && 0 < k <= |s.toChild| && |s.loop.buf| + k <= 65535
    case ChildWrite(k) => s.emitted + k <= |Stream(output)|
  }

  // ----- What an iteration does to the byte histories -----

  lemma ReadChildLog(s: State, r: Option<seq<byte>>)
    requires Shape(s)
    ensures var t := ReadChild(s, r);
            && t.log == s.log.(fromChild := t.log.fromChild)
            && s.log.fromChild <= t.log.fromChild
            && (if r.None? then t.log.fromChild == s.log.fromChild
                else t.log.fromChild[|s.log.fromChild|..] <= r.value)
  {}

  lemma BeforeHandlingLog(s: State, e: Events)
    requires Shape(s)
    ensures var t := BeforeHandling(s, e);
            && t.log.greeting == s.log.greeting
            && s.log.toChild <= t.log.toChild
            && s.log.fromChild <= t.log.fromChild
            && (if e.fromChild.None? then t.log.fromChild == s.log.fromChild
                else t.log.fromChild[|s.log.fromChild|..] <= e.fromChild.value)
  {
    hide Shape, LineEnd, Encode, ReadChild, AdvanceJob, FinishJob;
    var a := ReadStdin(s, e.stdin);
    var b := WriteChild(a, e.toChild);
    var c := SendPort(b, e.toPort);
    assert s.log.toChild <= b.log.toChild && b.log.fromChild == s.log.fromChild;
    assert c.log.fromChild == s.log.fromChild && c.log.toChild == b.log.toChild;
    ReadChildLog(SelectLine(c), e.fromChild);
  }

  lemma {:induction false} HandleChildLog(s: State)
    requires Shape(s) && WellFormedBytes(s.bufin)
    ensures HandleChild(s).log == s.log.(handled := HandleChild(s).log.handled, printed := HandleChild(s).log.printed)
    decreases |s.bufin|
  {
    if s.running && s.out.NoOut? && HasMessage(s.bufin) && First(s.bufin).kind == 0 {
      HandleChildLog(PrintText(s));
    }
  }

  lemma {:induction false} ServePortsLog(s: State, i: nat, rs: seq<PortEvent>)
    requires Shape(s) && i <= |s.ports| == |rs|
    requires forall k | 0 <= k < |rs| :: rs[k].Received? ==> 0 < |rs[k].frame| <= MAX_SIZE
    ensures var t := ServePorts(s, i, rs);
            t.log == s.log.(chosen := t.log.chosen, frames := t.log.frames)
    decreases |s.ports| - i
  {
    hide Shape;
    if i < |s.ports| {
      ServePortsLog(ServePort(s, i, rs[i]), i + 1, rs);
    }
  }

  lemma IterateLog(s: State, e: Events)
    requires Shape(s) && Possible(s, e)
    requires WellFormedBytes(BeforeHandling(s, e).bufin)
    ensures var t := Iterate(s, e);
            && |t.ports| == |s.ports|
            && t.log.greeting == s.log.greeting
            && s.log.toChild <= t.log.toChild
            && s.log.fromChild <= t.log.fromChild
            && (if e.fromChild.None? then t.log.fromChild == s.log.fromChild
                else t.log.fromChild[|s.log.fromChild|..] <= e.fromChild.value)
  {
    hide Shape, BeforeHandling, HandleChild, ServePorts;
    BeforeHandlingLog(s, e);
    HandleChildPorts(BeforeHandling(s, e));
    HandleChildLog(BeforeHandling(s, e));
    ServePortsLog(HandleChild(BeforeHandling(s, e)), 0, e.ports);
  }

  // ----- What the child sends -----

  /** What a beginning of a stream shows of the first message. */
  lemma FrontOfStream(b: seq<byte>, output: seq<Message>)
    requires ChildMessages(output) && b <= Stream(output) && |b| >= HEADER_SIZE
    ensures output != [] && ChildMessage(output[0]) && TypeField(b) == output[0].kind
    ensures var size := SizeField(b);
            && size == HEADER_SIZE + |output[0].payload|
            && (size <= |b| ==> b[size..] <= Stream(output[1..]))
    ensures forall n | HEADER_SIZE <= n <= |b| && n <= SizeField(b) :: b[HEADER_SIZE..n] <= output[0].payload
  {
    hide Encode, SizeField, TypeField;
    assert output != [];
    var m, rest := output[0], Stream(output[1..]);
    assert ChildMessage(m);
    FirstOfEncoded(m, rest);
    var all := Encode(m) + rest;
    FieldsOfPrefix(b, all);
    assert all[HEADER_SIZE..HEADER_SIZE + |m.payload|] == m.payload;
    forall n | HEADER_SIZE <= n <= |b| && n <= SizeField(b) ensures b[HEADER_SIZE..n] <= m.payload {
      assert b[HEADER_SIZE..n] == all[HEADER_SIZE..n];
    }
    if SizeField(b) <= |b| {
      assert b[SizeField(b)..] <= all[SizeField(b)..];
    }
  }

  lemma {:induction false} StreamPrefixWellFormed(b: seq<byte>, output: seq<Message>)
    requires ChildMessages(output) && b <= Stream(output)
    ensures WellFormedBytes(b)
    decreases |output|
  {
    hide Stream;
    if |b| >= HEADER_SIZE {
      FrontOfStream(b, output);
      var size := SizeField(b);
      if size <= |b| {
        assert ChildMessages(output[1..]);
        StreamPrefixWellFormed(b[size..], output[1..]);
      }
    }
  }

  lemma ChildMessagesFit(output: seq<Message>)
    requires ChildMessages(output)
    ensures AllFit(output)
  {
    assert forall m | m in output :: ChildMessage(m);
  }

  /** What the driver has read before it looks at the messages of the child is a beginning of the child's output. */
  lemma BeforeHandlingPrefix(s: System, e: Events, output: seq<Message>)
    requires SysInv(s, output) && Enabled(s, Iteration(e), output)
    ensures var t := BeforeHandling(s.driver, e);
            t.log.handled <= output && t.bufin <= Stream(output[|t.log.handled|..])
  {
    hide Inv, Shape, BeforeHandling, Stream, Encode;
    InvGives(s.driver);
    var t := BeforeHandling(s.driver, e);
    BeforeHandlingLog(s.driver, e);
    BeforeHandlingKeeps(s.driver, e);
    KeepsGives(t);
    var read := t.log.fromChild[|s.driver.log.fromChild|..];
    assert t.log.fromChild == s.driver.log.fromChild + read;
    assert t.log.fromChild <= Stream(output)[..s.emitted];
    ChildMessagesFit(output);
    DecodedPrefix(t.log.handled, t.bufin, output);
  }

  /** Whatever a child that sends proper messages has sent so far, the driver finds it well-formed. */
  lemma ReadsWellFormed(s: System, e: Events, output: seq<Message>)
    requires SysInv(s, output) && Enabled(s, Iteration(e), output)
    ensures WellFormedBytes(BeforeHandling(s.driver, e).bufin)
  {
    hide Inv, Shape, BeforeHandling, Stream, Encode;
    InvGives(s.driver);
    BeforeHandlingPrefix(s, e, output);
    var t := BeforeHandling(s.driver, e);
    var later := output[|t.log.handled|..];
    assert ChildMessages(later);
    StreamPrefixWellFormed(t.bufin, later);
  }

  lemma InvGives(s: State)
    requires Inv(s)
    ensures Shape(s) && Keeps(s)
  {}

  lemma KeepsGives(s: State)
    requires Keeps(s)
    ensures s.log.fromChild == Stream(s.log.handled) + s.bufin && AllFit(s.log.handled)
  {}

  // ----- Steps and runs -----

  function Next(s: System, step: Step, output: seq<Message>): System
    requires Shape(s.driver) && Enabled(s, step, output)
    requires step.Iteration? ==> WellFormedBytes(BeforeHandling(s.driver, step.e).bufin)
  {
    match step
    case Iteration(e) =>
      var t := Iterate(s.driver, e);
      IterateLog(s.driver, e);
      s.(driver := t,
         toChild := s.toChild + t.log.toChild[|s.driver.log.toChild|..],
         fromChild := s.fromChild[|t.log.fromChild| - |s.driver.log.fromChild|..])
    case SelectFails => s.(driver := Stop(s.driver))
    case ChildRead(k) =>
      s.(loop := Loop.Feed(s.loop, s.toChild[..k]), consumed := s.consumed + s.toChild[..k], toChild := s.toChild[k..])
    case ChildWrite(k) =>
      s.(fromChild := s.fromChild + Stream(output)[s.emitted..s.emitted + k], emitted := s.emitted + k)
  }

  lemma StartInv(macs: seq<seq<byte>>, output: seq<Message>)
    requires ChildMessages(output)
    ensures SysInv(Start(macs), output)
  {
    InitialInv(Greeting(macs), |macs|);
  }

  lemma IterationKeepsInv(s: System, e: Events, output: seq<Message>)
    requires SysInv(s, output) && Enabled(s, Iteration(e), output)
    ensures WellFormedBytes(BeforeHandling(s.driver, e).bufin)
    ensures SysInv(Next(s, Iteration(e), output), output)
  {
    hide Inv, Shape, Iterate, Stream;
    InvGives(s.driver);
    ReadsWellFormed(s, e, output);
    IterateKeepsInv(s.driver, e);
    IterateLog(s.driver, e);
    var t := Iterate(s.driver, e);
    var wrote := t.log.toChild[|s.driver.log.toChild|..];
    assert t.log.toChild == s.driver.log.toChild + wrote;
    ConcatAssociative(s.consumed, s.toChild, wrote);
    var read := t.log.fromChild[|s.driver.log.fromChild|..];
    assert t.log.fromChild == s.driver.log.fromChild + read;
    assert s.fromChild == read + s.fromChild[|read|..];
    ConcatAssociative(s.driver.log.fromChild, read, s.fromChild[|read|..]);
  }

  lemma ChildReadKeepsInv(s: System, k: nat, output: seq<Message>)
    requires SysInv(s, output) && Enabled(s, ChildRead(k), output)
    ensures SysInv(Next(s, ChildRead(k), output), output)
  {
    hide Inv, Shape, Stream;
    Loop.FeedSplit(Loop.INITIAL, s.consumed, s.toChild[..k]);
    assert s.toChild == s.toChild[..k] + s.toChild[k..];
    ConcatAssociative(s.consumed, s.toChild[..k], s.toChild[k..]);
  }

  lemma ChildWriteKeepsInv(s: System, k: nat, output: seq<Message>)
    requires SysInv(s, output) && Enabled(s, ChildWrite(k), output)
    ensures SysInv(Next(s, ChildWrite(k), output), output)
  {
    hide Inv, Shape, Stream;
    var out := Stream(output);
    ConcatAssociative(s.driver.log.fromChild, s.fromChild, out[s.emitted..s.emitted + k]);
    assert out[..s.emitted] + out[s.emitted..s.emitted + k] == out[..s.emitted + k];
  }

  /** Every step of the system keeps its invariant, and a proper child never makes the driver misread. */
  lemma StepKeepsInv(s: System, step: Step, output: seq<Message>)
    requires SysInv(s, output) && Enabled(s, step, output)
    ensures step.Iteration? ==> WellFormedBytes(BeforeHandling(s.driver, step.e).bufin)
    ensures SysInv(Next(s, step, output), output)
  {
    match step
    case Iteration(e) => IterationKeepsInv(s, e, output);
    case SelectFails => StopKeeps(s.driver);
    case ChildRead(k) => ChildReadKeepsInv(s, k, output);
    case ChildWrite(k) => ChildWriteKeepsInv(s, k, output);
  }

  /** The steps lead from s to t. */
  ghost predicate Runs(s: System, steps: seq<Step>, t: System, output: seq<Message>)
    requires SysInv(s, output)
    decreases |steps|
  {
    if steps == [] then t == s
    else
      && Enabled(s, steps[0], output)
      && (StepKeepsInv(s, steps[0], output);
          Runs(Next(s, steps[0], output), steps[1..], t, output))
  }

  lemma NextKeepsSources(s: System, step: Step, output: seq<Message>)
    requires SysInv(s, output) && Enabled(s, step, output)
    requires step.Iteration? ==> WellFormedBytes(BeforeHandling(s.driver, step.e).bufin)
    ensures var t := Next(s, step, output).driver;
            t.log.greeting == s.driver.log.greeting && |t.ports| == |s.driver.ports|
  {
    hide Shape, Keeps, NothingWaits, Iterate;
    if step.Iteration? {
      IterateLog(s.driver, step.e);
    }
  }

  /** Every reachable state satisfies the invariant. */
  lemma {:induction false} RunKeepsInv(s: System, steps: seq<Step>, t: System, output: seq<Message>)
    requires SysInv(s, output) && Runs(s, steps, t, output)
    ensures SysInv(t, output)
    ensures t.driver.log.greeting == s.driver.log.greeting && |t.driver.ports| == |s.driver.ports|
    decreases |steps|
  {
    hide Next, Keeps, NothingWaits;
    if steps != [] {
      StepKeepsInv(s, steps[0], output);
      NextKeepsSources(s, steps[0], output);
      RunKeepsInv(Next(s, steps[0], output), steps[1..], t, output);
    }
  }

  lemma RunsOne(s: System, step: Step, output: seq<Message>)
    requires SysInv(s, output) && Enabled(s, step, output)
    ensures step.Iteration? ==> WellFormedBytes(BeforeHandling(s.driver, step.e).bufin)
    ensures SysInv(Next(s, step, output), output) && Runs(s, [step], Next(s, step, output), output)
  {
    StepKeepsInv(s, step, output);
    hide SysInv, Enabled, Next;
    assert [step][1..] == [];
    assert Runs(Next(s, step, output), [], Next(s, step, output), output);
  }

  lemma {:induction false} RunsConcat(s: System, a: seq<Step>, t: System, b: seq<Step>, u: System, output: seq<Message>)
    requires SysInv(s, output) && SysInv(t, output) && Runs(s, a, t, output) && Runs(t, b, u, output)
    ensures Runs(s, a + b, u, output)
    decreases |a|
  {
    hide Next, Keeps, NothingWaits, Loop.Feed, Stream;
    if a == [] {
      assert a + b == b;
    } else {
      assert (a + b)[0] == a[0] && (a + b)[1..] == a[1..] + b;
      StepKeepsInv(s, a[0], output);
      RunsConcat(Next(s, a[0], output), a[1..], t, b, u, output);
    }
  }

  /** The steps lead from the start of the program to t, for a child that sends the messages of output. */
  ghost predicate Reaches(macs: seq<seq<byte>>, steps: seq<Step>, t: System, output: seq<Message>)
    requires ChildMessages(output)
  {
    StartInv(macs, output);
    Runs(Start(macs), steps, t, output)
  }

  lemma ReachedInv(macs: seq<seq<byte>>, steps: seq<Step>, t: System, output: seq<Message>)
    requires ChildMessages(output) && Reaches(macs, steps, t, output)
    ensures SysInv(t, output)
    ensures t.driver.log.greeting == Greeting(macs) && |t.driver.ports| == |macs|
  {
    hide Runs, SysInv;
    StartInv(macs, output);
    RunKeepsInv(Start(macs), steps, t, output);
  }
}

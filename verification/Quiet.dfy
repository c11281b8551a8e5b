/** Passes of the event loop in which no call fails and no interface has news. */
module Quiet {
  import opened Wire
  import opened DriverSpec
  import opened DriverInvariant
  import opened Relay
  import opened DriverLog

  function QuietPorts(n: nat): seq<PortEvent> {
    seq(n, i => DriverSpec.Quiet)
  }

  predicate QuietPass(s: State, e: Events) {
    Possible(s, e) && Succeeds(e) && e.ports == QuietPorts(|s.ports|)
  }

  lemma {:induction false} ServePortsQuiet(s: State, i: nat)
    requires Shape(s) && i <= |s.ports|
    ensures var t := ServePorts(s, i, QuietPorts(|s.ports|));
            && t.ports == s.ports && t.running == s.running && t.cmd == s.cmd && t.log.frames == s.log.frames
            && t.out == s.out && t.bufin == s.bufin
            && (s.job.Job? || (forall k | 0 <= k < |s.ports| :: s.ports[k] == []) ==> t == s)
    decreases |s.ports| - i
  {
    hide JobShape, OutShape;
    if i < |s.ports| {
      ServePortsQuiet(ServePort(s, i, DriverSpec.Quiet), i + 1);
    }
  }

  lemma HandleChildIdle(s: State)
    requires Shape(s) && WellFormedBytes(s.bufin) && (s.out.Out? || !HasMessage(s.bufin))
    ensures HandleChild(s) == s
  {}

  lemma {:induction false} HandleChildAppends(s: State)
    requires Shape(s) && WellFormedBytes(s.bufin)
    ensures |s.log.handled| <= |HandleChild(s).log.handled|
    decreases |s.bufin|
  {
    if s.running && s.out.NoOut? && HasMessage(s.bufin) && First(s.bufin).kind == 0 {
      HandleChildAppends(PrintText(s));
    }
  }

  /** The state behind the write to the child. */
  function AfterWrite(s: State, e: Events): (t: State)
    requires Shape(s)
    ensures Shape(t) && |t.ports| == |s.ports|
  {
    WriteChild(ReadStdin(s, e.stdin), e.toChild)
  }

  lemma WriteKeeps(s: State, e: Events)
    requires Shape(s) && QuietPass(s, e) && s.running
    ensures var b := AfterWrite(s, e);
            && b.running && b.out == s.out && b.bufin == s.bufin
            && b.log.frames == s.log.frames && b.log.fromChild == s.log.fromChild && b.log.handled == s.log.handled
  {
    hide JobShape, OutShape, LineEnd, Encode;
  }

  lemma LaterSectionsKeep(b: State, e: Events)
    requires Shape(b) && b.running && Succeeds(e)
    requires e.toPort.Some? ==> b.out.Out?
    ensures var d := SelectLine(SendPort(b, e.toPort));
            var c := ReadChild(d, e.fromChild);
            && d.running && d.ports == b.ports && d.cmd == b.cmd && d.job == SelectLine(b).job
            && c.ports == d.ports && c.cmd == d.cmd && c.job == d.job
            && c.log == d.log.(fromChild := c.log.fromChild)
            && d.log.frames == b.log.frames && d.log.stdin == b.log.stdin && d.log.toChild == b.log.toChild
            && |c.log.handled| == |b.log.handled| +
                 (if e.toPort.Some? && e.toPort.value >= b.out.left then 1 else 0)
            && (e.toPort.None? && e.fromChild.None? ==>
                  c.out == b.out && c.bufin == b.bufin && c.log.handled == b.log.handled)
  {
    hide JobShape, OutShape, LineEnd, Encode;
  }

  /** What such a pass does: the write to the child, and one message more for a whole send to the network. */
  lemma QuietIteration(s: State, e: Events)
    requires Inv(s) && s.running && QuietPass(s, e)
    requires WellFormedBytes(BeforeHandling(s, e).bufin)
    ensures var b, t := AfterWrite(s, e), Iterate(s, e);
            && t.ports == b.ports && t.cmd == b.cmd
            && t.log.frames == s.log.frames && t.log.stdin == b.log.stdin && t.log.toChild == b.log.toChild
            && (SelectLine(b).job.Job? || (forall k | 0 <= k < |b.ports| :: b.ports[k] == []) ==>
                  t.job == SelectLine(b).job)
            && |t.log.handled| >= |s.log.handled| +
                 (if e.toPort.Some? && e.toPort.value >= s.out.left then 1 else 0)
            && (e.toPort.None? && e.fromChild.None? ==>
                  && t.out == s.out && t.bufin == s.bufin && t.log.handled == s.log.handled
                  && t.log.fromChild == s.log.fromChild && t.running)
  {
    hide Keeps, JobShape, OutShape, Encode, LineEnd, HasMessage, WellFormedBytes, ReadStdin, WriteChild, Succeeds;
    var b := AfterWrite(s, e);
    WriteKeeps(s, e);
    LaterSectionsKeep(b, e);
    var c := BeforeHandling(s, e);
    assert c == ReadChild(SelectLine(SendPort(b, e.toPort)), e.fromChild);
    hide SelectLine, SendPort, BeforeHandling, AfterWrite;
    HandleChildPorts(c);
    HandleChildLog(c);
    HandleChildAppends(c);
    if e.toPort.None? && e.fromChild.None? {
      assert c.running && c.log.fromChild == s.log.fromChild;
      HandleChildIdle(c);
    }
    hide ReadChild, HandleChild;
    ServePortsQuiet(HandleChild(c), 0);
    ServePortsLog(HandleChild(c), 0, e.ports);
  }
}

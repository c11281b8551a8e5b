/** Which message the driver writes to the child next, and why neither side runs out of buffer space. */
module Scheduling {
  import opened Wire
  import opened DriverSpec
  import opened DriverInvariant
  import opened Relay
  import Loop

  /** The child is free once this iteration's write is done. */
  predicate BecomesFree(s: State, e: Events)
    requires Shape(s)
  {
    WriteChild(ReadStdin(s, e.stdin), e.toChild).job.NoJob?
  }

  /** The command-line bytes that this iteration searches for a line. */
  function Typed(s: State, e: Events): seq<byte>
    requires Shape(s)
  {
    WriteChild(ReadStdin(s, e.stdin), e.toChild).cmd
  }

  /** Complete lines go first, then the interface with the lowest number that has a frame. */
  predicate ServesInOrder(t: State, typed: seq<byte>) {
    match t.job
    case NoJob => NEWLINE !in typed && forall k | 0 <= k < |t.ports| :: t.ports[k] == []
    case Job(CommandLine, sent, left) => NEWLINE in typed && sent == 0
    case Job(Port(j), sent, left) =>
      && NEWLINE !in typed && sent == 0 && j < |t.ports| && left == t.ports[j] != []
      && forall k | 0 <= k < j :: t.ports[k] == []
  }

  lemma LineEndFinds(b: seq<byte>)
    ensures LineEnd(b) == |b| <==> NEWLINE !in b
  {
    assert b[..|b|] == b;
  }

  lemma BeforeHandlingSelects(s: State, e: Events)
    requires Shape(s) && BecomesFree(s, e)
    ensures var t := BeforeHandling(s, e);
            && (t.job.Job? ==> NEWLINE in Typed(s, e) && t.job.source.CommandLine? && t.job.sent == 0)
            && (t.running && t.job.NoJob? ==> NEWLINE !in Typed(s, e))
  {
    hide ReadStdin, WriteChild, Shape, LineEnd, Encode;
    LineEndFinds(Typed(s, e));
  }

  /** Serving interfaces i, i + 1, ... when those before i are empty. */
  lemma {:induction false} ServePortsSelects(s: State, i: nat, rs: seq<PortEvent>)
    requires Shape(s) && i <= |s.ports| == |rs|
    requires forall k | 0 <= k < |rs| :: rs[k].Received? ==> 0 < |rs[k].frame| <= MAX_SIZE
    requires s.running && s.job.NoJob? ==> forall k | 0 <= k < i :: s.ports[k] == []
    requires s.job.Job? && s.job.source.Port? ==>
               && s.job.source.i < i && s.job.sent == 0 && s.job.left == s.ports[s.job.source.i] != []
               && forall k | 0 <= k < s.job.source.i :: s.ports[k] == []
    ensures var t := ServePorts(s, i, rs);
            && (s.job.Job? ==> t.job == s.job)
            && (s.job.NoJob? ==> t.job.NoJob? || t.job.source.Port?)
            && (t.running && t.job.NoJob? ==> forall k | 0 <= k < |t.ports| :: t.ports[k] == [])
            && (t.job.Job? && t.job.source.Port? ==>
                  var j := t.job.source.i;
                  && j < |t.ports| && t.job.sent == 0 && t.job.left == t.ports[j] != []
                  && forall k | 0 <= k < j :: t.ports[k] == [])
    decreases |s.ports| - i
  {
    hide Shape, Encode;
    if i < |s.ports| {
      ServePortSelects(s, i, rs[i]);
      ServePortsSelects(ServePort(s, i, rs[i]), i + 1, rs);
    }
  }

  lemma ServePortSelects(s: State, i: nat, r: PortEvent)
    requires Shape(s) && i < |s.ports|
    requires r.Received? ==> 0 < |r.frame| <= MAX_SIZE
    ensures var t := ServePort(s, i, r);
            && (forall k | 0 <= k < |s.ports| && k != i :: t.ports[k] == s.ports[k])
            && (t.running ==> s.running)
            && (!s.running ==> t == s)
            && (if s.job.Job? then t.job == s.job
                else if t.job.NoJob? then t.running ==> t.ports[i] == []
                else t.job == Job(Port(i), 0, t.ports[i]) && t.ports[i] != [])
  {}

  /** A child that becomes free in an iteration is given the next message in the serving order at once. */
  lemma FreeChildIsServedInOrder(s: State, e: Events)
    requires Shape(s) && Possible(s, e) && s.running
    requires WellFormedBytes(BeforeHandling(s, e).bufin)
    requires BecomesFree(s, e)
    ensures Iterate(s, e).running ==> ServesInOrder(Iterate(s, e), Typed(s, e))
  {
    hide Shape, BeforeHandling, HandleChild, ServePorts, BecomesFree, Typed;
    var b := BeforeHandling(s, e);
    BeforeHandlingSelects(s, e);
    HandleChildPorts(b);
    ServePortsSelects(HandleChild(b), 0, e.ports);
    ServePortsServes(HandleChild(b), 0, e.ports);
  }

  lemma OnlyEmptyPortsChange(s: State, e: Events, i: nat)
    requires Shape(s) && Possible(s, e) && i < |s.ports| && s.ports[i] != []
    requires WellFormedBytes(BeforeHandling(s, e).bufin)
    ensures Iterate(s, e).ports[i] == BeforeHandling(s, e).ports[i]
  {
    hide Shape, BeforeHandling, HandleChild, ServePorts;
    HandleChildPorts(BeforeHandling(s, e));
    QuietPortKept(HandleChild(BeforeHandling(s, e)), 0, e.ports, i);
  }

  lemma {:induction false} QuietPortKept(s: State, k: nat, rs: seq<PortEvent>, i: nat)
    requires Shape(s) && k <= |s.ports| == |rs| && i < |rs| && rs[i].Quiet?
    requires forall j | 0 <= j < |rs| :: rs[j].Received? ==> 0 < |rs[j].frame| <= MAX_SIZE
    ensures ServePorts(s, k, rs).ports[i] == s.ports[i]
    decreases |s.ports| - k
  {
    hide Shape, Encode;
    if k < |s.ports| {
      ServePortSelects(s, k, rs[k]);
      QuietPortKept(ServePort(s, k, rs[k]), k + 1, rs, i);
    }
  }

  /** The buffer of interface i is empty once its message has been written out. */
  lemma WrittenPortIsEmpty(s: State, e: Events, i: nat)
    requires Shape(s) && s.job.Job? && s.job.source == Port(i) && BecomesFree(s, e)
    ensures BeforeHandling(s, e).ports[i] == []
  {
    hide LineEnd, Encode, Shape;
    WriteEmptiesPort(ReadStdin(s, e.stdin), e.toChild, i);
  }

  lemma WriteEmptiesPort(s: State, r: Option<int>, i: nat)
    requires Shape(s) && s.job.Job? && s.job.source == Port(i)
    ensures WriteChild(s, r).job.NoJob? ==> WriteChild(s, r).ports[i] == []
  {}

  /**
   * The message chosen in the pass that completes one of interface i is never from i: its buffer is empty, and
   * its descriptor was not among those that could be read. Another interface with a frame is served instead.
   */
  lemma NoImmediateRepeat(s: State, e: Events, i: nat)
    requires Inv(s) && Possible(s, e) && s.running
    requires WellFormedBytes(BeforeHandling(s, e).bufin)
    requires s.job.Job? && s.job.source == Port(i) && BecomesFree(s, e)
    ensures var t := Iterate(s, e);
            && (t.job.Job? ==> t.job.source != Port(i))
            && (t.running && (exists j :: 0 <= j < |t.ports| && t.ports[j] != []) ==> t.job.Job?)
  {
    hide Keeps, NothingWaits, BeforeHandling, HandleChild, ServePorts, BecomesFree, Typed;
    FreeChildIsServedInOrder(s, e);
    OnlyEmptyPortsChange(s, e, i);
    WrittenPortIsEmpty(s, e, i);
    BeforeHandlingSelects(s, e);
    HandleChildPorts(BeforeHandling(s, e));
    ServePortsSelects(HandleChild(BeforeHandling(s, e)), 0, e.ports);
  }

  // ----- Buffer progress -----

  /** At every select without a pending network write, the driver listens to the child and holds no complete message. */
  lemma ChildIsHeard(s: State)
    requires Inv(s) && s.running && s.out.NoOut?
    ensures WantsChild(s) && !HasMessage(s.bufin)
  {}

  /** At every select, a free child means that nothing it could be sent is buffered. */
  lemma NothingIsHeldBack(s: State)
    requires Inv(s) && s.running && s.job.NoJob?
    ensures NEWLINE !in s.cmd && forall i | 0 <= i < |s.ports| :: s.ports[i] == []
  {
    hide Keeps, Shape;
    LineEndFinds(s.cmd);
  }

  /** The most bytes the command-line buffer holds behind the space for a header. */
  const LINE_ROOM: nat := MAX_SIZE - 2 * HEADER_SIZE

  /** The command-line buffer is full, holds no line, and is not being written. */
  predicate Stuck(s: State) {
    |s.cmd| == LINE_ROOM && NEWLINE !in s.cmd && (s.job.Job? ==> s.job.source.Port?)
  }

  /** With a free child, the driver listens to the command line unless the buffer is full without a line. */
  lemma DeafIffStuck(s: State)
    requires Inv(s) && s.running && s.job.NoJob?
    ensures !WantsStdin(s) <==> Stuck(s)
  {
    NothingIsHeldBack(s);
  }

  /** A line that does not fit ends the command line for good, whatever else happens. */
  lemma StuckForever(s: State, e: Events)
    requires Shape(s) && Possible(s, e) && Stuck(s)
    requires WellFormedBytes(BeforeHandling(s, e).bufin)
    ensures var t := Iterate(s, e);
            Stuck(t) && !WantsStdin(t) && t.cmd == s.cmd && t.log.stdin == s.log.stdin
  {
    hide Shape, BeforeHandling, HandleChild, ServePorts;
    var b := BeforeHandling(s, e);
    BeforeHandlingStuck(s, e);
    HandleChildPorts(b);
    HandleChildLog(b);
    ServePortsLog(HandleChild(b), 0, e.ports);
    ServePortsStuck(HandleChild(b), 0, e.ports);
  }

  /** Over any run: once stuck, the driver never reads from the command line again. */
  lemma {:induction false} StuckInEveryRun(s: System, steps: seq<Step>, t: System, output: seq<Message>)
    requires SysInv(s, output) && Runs(s, steps, t, output) && Stuck(s.driver)
    ensures Stuck(t.driver) && !WantsStdin(t.driver) && t.driver.log.stdin == s.driver.log.stdin
    decreases |steps|
  {
    hide Stuck, Keeps, NothingWaits, Shape, Iterate;
    if steps != [] {
      StepKeepsInv(s, steps[0], output);
      if steps[0].Iteration? {
        InvGives(s.driver);
        StuckForever(s.driver, steps[0].e);
      }
      StillStuck(s.driver, Next(s, steps[0], output).driver);
      StuckInEveryRun(Next(s, steps[0], output), steps[1..], t, output);
    } else {
      StillStuck(s.driver, s.driver);
    }
  }

  lemma StillStuck(s: State, t: State)
    requires Stuck(s) && t.cmd == s.cmd && (t.job == s.job || Stuck(t))
    ensures Stuck(t) && !WantsStdin(t)
  {}

  lemma BeforeHandlingStuck(s: State, e: Events)
    requires Shape(s) && Possible(s, e) && Stuck(s)
    ensures Stuck(BeforeHandling(s, e)) && BeforeHandling(s, e).cmd == s.cmd
    ensures BeforeHandling(s, e).log.stdin == s.log.stdin
  {
    hide JobShape, OutShape, LineEnd, Encode;
    LineEndFinds(s.cmd);
    var b := WriteChild(s, e.toChild);
    assert b.cmd == s.cmd && Stuck(b) && b.log.stdin == s.log.stdin;
    hide WriteChild;
    var c := SendPort(b, e.toPort);
    assert c.cmd == s.cmd && c.job == b.job && c.log.stdin == s.log.stdin;
  }

  lemma {:induction false} ServePortsStuck(s: State, i: nat, rs: seq<PortEvent>)
    requires Shape(s) && i <= |s.ports| == |rs| && Stuck(s)
    requires forall k | 0 <= k < |rs| :: rs[k].Received? ==> 0 < |rs[k].frame| <= MAX_SIZE
    ensures Stuck(ServePorts(s, i, rs)) && ServePorts(s, i, rs).cmd == s.cmd
    decreases |s.ports| - i
  {
    hide Shape, Encode;
    if i < |s.ports| {
      ServePortsStuck(ServePort(s, i, rs[i]), i + 1, rs);
    }
  }

  /** The child never calls read without room, which it would take for the end of its input. */
  lemma LoopHasRoom(s: System, output: seq<Message>)
    requires SysInv(s, output) && !s.loop.aborted
    ensures |s.loop.buf| < 65535
    ensures Loop.Waiting(s.loop.buf)
  {
    hide Inv;
    assert Loop.Settled(s.loop);
  }
}

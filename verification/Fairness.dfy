/** In which order messages are chosen over whole runs: when an interface can come twice in a row. */
module Fairness {
  import opened Wire
  import opened DriverSpec
  import opened DriverInvariant
  import opened Relay
  import opened Scheduling
  import Loop

  // ----- One choice per pass -----

  /** What a pass adds to the chosen messages. */
  predicate ChoosesOne(s: State, t: State) {
    if s.job.Job? then t.log.chosen == s.log.chosen && t.job == s.job
    else if t.job.Job? then |t.log.chosen| == |s.log.chosen| + 1 && s.log.chosen <= t.log.chosen
    else t.log.chosen == s.log.chosen
  }

  lemma {:induction false} ServePortsChoose(s: State, i: nat, rs: seq<PortEvent>)
    requires Shape(s) && i <= |s.ports| == |rs|
    requires forall k | 0 <= k < |rs| :: rs[k].Received? ==> 0 < |rs[k].frame| <= MAX_SIZE
    ensures ChoosesOne(s, ServePorts(s, i, rs))
    decreases |s.ports| - i
  {
    hide Shape, Encode;
    if i < |s.ports| {
      ServePortsChoose(ServePort(s, i, rs[i]), i + 1, rs);
    }
  }

  /** The first sections choose at most one line, and only for a child that is or becomes free. */
  lemma BeforeHandlingChooses(s: State, e: Events)
    requires Shape(s)
    ensures BecomesFree(s, e) ==> ChoosesOne(s.(job := NoJob), BeforeHandling(s, e))
    ensures !BecomesFree(s, e) ==> BeforeHandling(s, e).log.chosen == s.log.chosen && BeforeHandling(s, e).job.Job?
  {
    hide JobShape, OutShape, LineEnd, Encode;
    var b := WriteChild(ReadStdin(s, e.stdin), e.toChild);
    assert b.log.chosen == s.log.chosen;
    hide WriteChild, ReadStdin;
    var c := SendPort(b, e.toPort);
    assert c.log.chosen == b.log.chosen && c.job == b.job;
    hide SendPort;
  }

  /** A pass chooses one message at most, and none while the child is busy. */
  lemma IterateChooses(s: State, e: Events)
    requires Shape(s) && Possible(s, e) && WellFormedBytes(BeforeHandling(s, e).bufin)
    ensures var t := Iterate(s, e);
            && s.log.chosen <= t.log.chosen && |t.log.chosen| <= |s.log.chosen| + 1
            && (|t.log.chosen| > |s.log.chosen| ==> BecomesFree(s, e) && t.job.Job?)
  {
    hide Shape, BeforeHandling, HandleChild, ServePorts, BecomesFree;
    var b := BeforeHandling(s, e);
    BeforeHandlingChooses(s, e);
    HandleChildPorts(b);
    HandleChildLog(b);
    ServePortsChoose(HandleChild(b), 0, e.ports);
  }

  // ----- The same interface twice in a row -----

  /** Nothing waits anywhere: no line, no frame, no message being written. */
  predicate Idle(s: State) {
    s.running && s.job.NoJob? && NEWLINE !in s.cmd && forall i | 0 <= i < |s.ports| :: s.ports[i] == []
  }

  /** A pass chooses an interface that was also the last choice only if it found the driver idle. */
  lemma RepeatOnlyAfterIdle(s: State, e: Events)
    requires Inv(s) && Possible(s, e) && s.running && WellFormedBytes(BeforeHandling(s, e).bufin)
    requires s.log.chosen != [] && |Iterate(s, e).log.chosen| > |s.log.chosen|
    requires Iterate(s, e).log.chosen[|s.log.chosen|].kind == s.log.chosen[|s.log.chosen| - 1].kind > 0
    ensures Idle(s)
  {
    hide Shape, BeforeHandling, Iterate, BecomesFree, WritesChosen, KeepsStdin, KeepsAllFrames, KeepsFrames, FromChild;
    hide WellFormedBytes;
    IterateChooses(s, e);
    if s.job.NoJob? {
      NothingIsHeldBack(s);
    } else {
      IterateKeepsInv(s, e);
      CurrentKind(s);
      CurrentKind(Iterate(s, e));
      NoImmediateRepeat(s, e, s.log.chosen[|s.log.chosen| - 1].kind - 1);
      assert false;
    }
  }

  lemma CurrentKind(s: State)
    requires Inv(s) && s.job.Job?
    ensures s.log.chosen != []
    ensures match s.job.source
            case CommandLine => s.log.chosen[|s.log.chosen| - 1].kind == 0
            case Port(i) => s.log.chosen[|s.log.chosen| - 1].kind == i + 1
  {
    hide Shape, Encode;
  }

  lemma StepChooses(s: System, step: Step, output: seq<Message>)
    requires SysInv(s, output) && Enabled(s, step, output)
    requires step.Iteration? ==> WellFormedBytes(BeforeHandling(s.driver, step.e).bufin)
    ensures var t := Next(s, step, output);
            && s.driver.log.chosen <= t.driver.log.chosen && |t.driver.log.chosen| <= |s.driver.log.chosen| + 1
            && (|t.driver.log.chosen| > |s.driver.log.chosen| ==> step.Iteration?)
  {
    hide Shape, Keeps, NothingWaits, Iterate;
    if step.Iteration? {
      IterateChooses(s.driver, step.e);
    }
  }

  lemma {:induction false} RunChooses(s: System, steps: seq<Step>, t: System, output: seq<Message>)
    requires SysInv(s, output) && Runs(s, steps, t, output)
    ensures s.driver.log.chosen <= t.driver.log.chosen
    decreases |steps|
  {
    hide Next, Keeps, NothingWaits;
    if steps != [] {
      StepKeepsInv(s, steps[0], output);
      StepChooses(s, steps[0], output);
      RunChooses(Next(s, steps[0], output), steps[1..], t, output);
    }
  }

  /**
   * Over any run: between two choices of one interface that follow each other, there was a moment at which nothing
   * waited anywhere. So no interface is served twice in a row past another one that has a frame.
   */
  lemma {:induction false} RepeatedOnlyWhenIdle(s: System, steps: seq<Step>, t: System, output: seq<Message>, k: nat)
      returns (j: nat, p: System)
    requires SysInv(s, output) && Runs(s, steps, t, output)
    requires |s.driver.log.chosen| <= k + 1 < |t.driver.log.chosen|
    requires t.driver.log.chosen[k].kind == t.driver.log.chosen[k + 1].kind > 0
    ensures j < |steps| && Runs(s, steps[..j], p, output)
    ensures |p.driver.log.chosen| == k + 1 && Idle(p.driver)
    decreases |steps|
  {
    hide Next, Keeps, NothingWaits, Idle, Stream, Loop.Feed;
    var step := steps[0];
    StepKeepsInv(s, step, output);
    StepChooses(s, step, output);
    var u := Next(s, step, output);
    RunChooses(u, steps[1..], t, output);
    if |u.driver.log.chosen| <= k + 1 {
      var i;
      i, p := RepeatedOnlyWhenIdle(u, steps[1..], t, output, k);
      j := i + 1;
      assert steps[..j][0] == step && steps[..j][1..] == steps[1..][..i];
    } else {
      j, p := 0, s;
      StepRepeats(s, step, output);
    }
  }

  lemma StepRepeats(s: System, step: Step, output: seq<Message>)
    requires SysInv(s, output) && Enabled(s, step, output)
    requires step.Iteration? ==> WellFormedBytes(BeforeHandling(s.driver, step.e).bufin)
    requires var c, d := s.driver.log.chosen, Next(s, step, output).driver.log.chosen;
             c != [] && |d| > |c| && d[|c|].kind == c[|c| - 1].kind > 0
    ensures Idle(s.driver)
  {
    hide Shape, Keeps, NothingWaits, Iterate, Idle;
    StepChooses(s, step, output);
    RepeatOnlyAfterIdle(s.driver, step.e);
  }
}

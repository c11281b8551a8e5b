/** Each sendto makes one packet: when the packets on an interface are the frames the child sent. */
module Packets {
  import opened Wire
  import opened DriverSpec
  import opened DriverInvariant
  import opened Relay
  import EndToEnd

  /** Without a short send the packets of interface i are the frames passed on; with one there are more packets. */
  predicate KeepsPackets(s: State, i: nat)
    requires Shape(s) && i < |s.ports|
  {
    var frames, packets := Payloads(s.log.handled, i + 1), s.log.packets[i];
    && Concat(packets) == s.log.sent[i]
    && (if s.log.short[i] then |packets| > |frames|
        else packets == frames && (s.out.Out? && s.out.port == i ==> s.out.off == HEADER_SIZE))
  }

  lemma SendPortPackets(s: State, r: Option<int>, i: nat)
    requires Shape(s) && i < |s.ports| && KeepsPackets(s, i)
    ensures KeepsPackets(SendPort(s, r), i)
  {
    hide Payloads, Concat, JobShape;
    if s.running && r.Some? && s.out.Out? && r.value > 0 {
      var Out(port, off, left) := s.out;
      var k := if r.value < left then r.value else left;
      if port == i {
        ConcatAppend(s.log.packets[i], s.bufin[off..off + k]);
      }
      if k == left {
        PayloadsAppend(s.log.handled, Message(port + 1, s.bufin[HEADER_SIZE..off + left]), i + 1);
      }
    }
  }

  /** Sections that neither send nor pass on anything. */
  lemma OtherPackets(s: State, t: State, i: nat)
    requires Shape(s) && Shape(t) && i < |s.ports| == |t.ports| && KeepsPackets(s, i) && t.out == s.out
    requires t.log.handled == s.log.handled && t.log.sent == s.log.sent
    requires t.log.packets == s.log.packets && t.log.short == s.log.short
    ensures KeepsPackets(t, i)
  {}

  lemma BeforeHandlingPackets(s: State, e: Events, i: nat)
    requires Shape(s) && i < |s.ports| && KeepsPackets(s, i)
    ensures KeepsPackets(BeforeHandling(s, e), i)
  {
    hide KeepsPackets, JobShape, OutShape, LineEnd, Encode;
    var a := ReadStdin(s, e.stdin);
    var b := WriteChild(a, e.toChild);
    OtherPackets(s, b, i);
    hide ReadStdin, WriteChild;
    SendPortPackets(b, e.toPort, i);
    var c := SendPort(b, e.toPort);
    hide SendPort;
    OtherPackets(c, ReadChild(SelectLine(c), e.fromChild), i);
  }

  lemma {:induction false} HandleChildPackets(s: State, i: nat)
    requires Shape(s) && WellFormedBytes(s.bufin) && i < |s.ports| && KeepsPackets(s, i)
    ensures |HandleChild(s).ports| == |s.ports| && KeepsPackets(HandleChild(s), i)
    decreases |s.bufin|
  {
    hide Payloads, Concat, JobShape, OutShape;
    if s.running && s.out.NoOut? && HasMessage(s.bufin) && First(s.bufin).kind == 0 {
      PayloadsAppend(s.log.handled, First(s.bufin), i + 1);
      HandleChildPackets(PrintText(s), i);
    }
  }

  lemma IteratePackets(s: State, e: Events, i: nat)
    requires Shape(s) && Possible(s, e) && WellFormedBytes(BeforeHandling(s, e).bufin)
    requires i < |s.ports| && KeepsPackets(s, i)
    ensures KeepsPackets(Iterate(s, e), i)
  {
    hide KeepsPackets, Shape, BeforeHandling, HandleChild, ServePorts;
    var b := BeforeHandling(s, e);
    BeforeHandlingPackets(s, e, i);
    HandleChildPackets(b, i);
    HandleChildPorts(b);
    ServePortsLog(HandleChild(b), 0, e.ports);
    ServePortsServes(HandleChild(b), 0, e.ports);
    OtherPackets(HandleChild(b), Iterate(s, e), i);
  }

  lemma {:induction false} RunPackets(s: System, steps: seq<Step>, t: System, output: seq<Message>, i: nat)
    requires SysInv(s, output) && Runs(s, steps, t, output)
    requires i < |s.driver.ports| && KeepsPackets(s.driver, i)
    ensures SysInv(t, output) && |t.driver.ports| == |s.driver.ports| && KeepsPackets(t.driver, i)
    decreases |steps|
  {
    hide KeepsPackets, Keeps, NothingWaits, Shape, Iterate, BeforeHandling;
    if steps != [] {
      StepKeepsInv(s, steps[0], output);
      NextKeepsSources(s, steps[0], output);
      if steps[0].Iteration? {
        InvGives(s.driver);
        IteratePackets(s.driver, steps[0].e, i);
      } else if steps[0].SelectFails? {
        OtherPackets(s.driver, Stop(s.driver), i);
      }
      RunPackets(Next(s, steps[0], output), steps[1..], t, output, i);
    }
  }

  /**
   * The packets on an interface are the frames the child sent there if and only if no sendto was short; cut or
   * not, they hold the same bytes in the same order.
   */
  lemma PacketsAreFramesIff(macs: seq<seq<byte>>, steps: seq<Step>, t: System, output: seq<Message>, i: nat)
    requires ChildMessages(output) && i < |macs| && Reaches(macs, steps, t, output)
    ensures |t.driver.log.packets| == |t.driver.log.short| == |t.driver.log.sent| == |macs|
    ensures Concat(t.driver.log.packets[i]) == t.driver.log.sent[i] <= Concat(Payloads(output, i + 1))
    ensures t.driver.log.packets[i] == Payloads(t.driver.log.handled, i + 1) <==> !t.driver.log.short[i]
    ensures EndToEnd.DrainedFromChild(t, output) ==>
              (t.driver.log.packets[i] == Payloads(output, i + 1) <==> !t.driver.log.short[i])
  {
    hide Runs, SysInv, Payloads, Stream;
    StartInv(macs, output);
    StartPackets(macs, i);
    RunPackets(Start(macs), steps, t, output, i);
    ReachedInv(macs, steps, t, output);
    EndToEnd.OutputReachesNetwork(macs, steps, t, output, i);
    EndToEnd.HandledFollowOutput(t, output);
    SysInvGives(t, output);
  }

  lemma StartPackets(macs: seq<seq<byte>>, i: nat)
    requires i < |macs|
    ensures Shape(Start(macs).driver) && KeepsPackets(Start(macs).driver, i)
  {}

  lemma SysInvGives(t: System, output: seq<Message>)
    requires SysInv(t, output)
    ensures Shape(t.driver)
  {}
}

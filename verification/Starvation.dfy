/** With three busy interfaces the highest one can starve. */
module Starvation {
  import opened Wire
  import opened DriverSpec
  import opened DriverInvariant
  import opened Relay
  import opened Scheduling
  import opened Fairness
  import opened Pipes
  import Delivery
  import DriverLog
  import EndToEnd
  import Inputs
  import Loop
  import Scenarios

  // ----- One pass -----

  /** Three interfaces: the child is busy with a frame of the first or second one while one of the third waits. */
  predicate Starving(s: State) {
    && s.running && |s.ports| == 3 && s.ports[2] != [] && NEWLINE !in s.cmd && s.out.NoOut?
    && s.job.Job? && (s.job.source == Port(0) || s.job.source == Port(1))
  }

  /** The child takes the whole frame, and the other one of the two interfaces has a frame, or just receives f. */
  function BusyEvents(s: State, f: seq<byte>): Events
    requires Starving(s)
  {
    var other := 1 - s.job.source.i;
    Events(None, Some(|s.job.left|), None, None,
           seq(3, k requires 0 <= k < 3 => if k == other && s.ports[k] == [] then Received(f) else Quiet))
  }

  lemma UnrollThree(s: State, rs: seq<PortEvent>)
    requires Shape(s) && |s.ports| == 3 == |rs|
    requires forall k | 0 <= k < |rs| :: rs[k].Received? ==> 0 < |rs[k].frame| <= MAX_SIZE
    ensures ServePorts(s, 0, rs) == ServePort(ServePort(ServePort(s, 0, rs[0]), 1, rs[1]), 2, rs[2])
  {
    hide Shape, ServePort;
    var a := ServePort(s, 0, rs[0]);
    var b := ServePort(a, 1, rs[1]);
    var c := ServePort(b, 2, rs[2]);
    assert ServePorts(c, 3, rs) == c && ServePorts(b, 2, rs) == c && ServePorts(a, 1, rs) == c;
  }

  lemma ServeThree(s: State, other: nat, rs: seq<PortEvent>)
    requires Shape(s) && s.running && s.job.NoJob? && |s.ports| == 3 == |rs| && other < 2
    requires s.ports[1 - other] == [] && s.ports[2] != [] && rs[1 - other].Quiet? && rs[2].Quiet?
    requires if s.ports[other] == [] then rs[other].Received? && 0 < |rs[other].frame| <= MAX_SIZE else rs[other].Quiet?
    ensures var t := ServePorts(s, 0, rs);
            && t.running && t.job.Job? && t.job.source == Port(other) && t.ports[2] == s.ports[2]
            && t.cmd == s.cmd && t.out == s.out && |t.ports| == 3
  {
    hide Shape, Encode;
    ServeOne(s, 0, rs[0]);
    var a := ServePort(s, 0, rs[0]);
    ServeOne(a, 1, rs[1]);
    var b := ServePort(a, 1, rs[1]);
    ServeOne(b, 2, rs[2]);
    var c := ServePort(b, 2, rs[2]);
    hide ServePort, ServePorts;
    UnrollThree(s, rs);
  }

  lemma ServeOne(s: State, i: nat, r: PortEvent)
    requires Shape(s) && i < |s.ports| && s.running && !r.Failed?
    requires r.Received? ==> 0 < |r.frame| <= MAX_SIZE
    ensures var t := ServePort(s, i, r);
            && t.running && t.cmd == s.cmd && t.out == s.out && |t.ports| == |s.ports|
            && (forall k | 0 <= k < |s.ports| && (k != i || r.Quiet?) :: t.ports[k] == s.ports[k])
            && (s.job.Job? || (s.ports[i] == [] && r.Quiet?) ==> t.job == s.job)
            && (s.job.NoJob? && (s.ports[i] != [] || r.Received?) ==> t.job.Job? && t.job.source == Port(i))
  {
    hide JobShape, OutShape;
  }

  lemma StarvingSections(s: State, f: seq<byte>)
    requires Inv(s) && Starving(s) && 0 < |f| <= MAX_SIZE
    ensures Possible(s, BusyEvents(s, f))
    ensures var b := BeforeHandling(s, BusyEvents(s, f));
            && b.running && b.job.NoJob? && |b.ports| == 3 && b.cmd == s.cmd && b.out == s.out && b.bufin == s.bufin
            && b.ports == s.ports[s.job.source.i := []]
  {
    hide Keeps, OutShape, LineEnd, Encode, HasMessage;
    LineEndFinds(s.cmd);
  }

  /** One pass in which the third interface is passed over once more. */
  lemma StarvingPass(s: State, f: seq<byte>)
    requires Inv(s) && Starving(s) && 0 < |f| <= MAX_SIZE
    requires WellFormedBytes(BeforeHandling(s, BusyEvents(s, f)).bufin)
    ensures Possible(s, BusyEvents(s, f))
    ensures var t := Iterate(s, BusyEvents(s, f));
            && Starving(t) && t.ports[2] == s.ports[2] && t.job.source == Port(1 - s.job.source.i)
  {
    hide Keeps, Shape, LineEnd, Encode, HasMessage, BeforeHandling, WellFormedBytes;
    StarvingSections(s, f);
    var b := BeforeHandling(s, BusyEvents(s, f));
    assert HandleChild(b) == b;
    ServeThree(b, 1 - s.job.source.i, BusyEvents(s, f).ports);
  }

  /** A job for another interface is a new choice. */
  lemma OtherChosen(s: State, t: State)
    requires Inv(s) && Inv(t) && s.job.Job? && t.job.Job? && s.job.source != t.job.source
    requires s.log.chosen <= t.log.chosen
    ensures |t.log.chosen| > |s.log.chosen|
  {
    hide Inv;
    CurrentKind(s);
    CurrentKind(t);
  }

  lemma ReceiveOne(s: State, i: nat, f: seq<byte>)
    requires Shape(s) && i < |s.ports| && s.running && s.ports[i] == [] && 0 < |f| <= MAX_SIZE
    ensures var t, m := ServePort(s, i, Received(f)), Message(i + 1, f);
            && t.running && t.cmd == s.cmd && t.out == s.out && t.ports == s.ports[i := Encode(m)]
            && (if s.job.Job? then t.job == s.job && t.log.chosen == s.log.chosen
                else t.job == Job(Port(i), 0, Encode(m)) && t.log.chosen == s.log.chosen + [m])
  {
    assert Encode(Message(i + 1, f))[HEADER_SIZE..] == f;
    hide Encode, JobShape, OutShape;
  }

  lemma FirstSections(s: State, e: Events)
    requires s == Initial(s.log.greeting, 3)
    requires e.stdin.None? && e.toChild.None? && e.toPort.None? && e.fromChild.None?
    ensures BeforeHandling(s, e) == s && WellFormedBytes(s.bufin) && HandleChild(s) == s
  {
    assert LineEnd([]) == 0 && s.cmd == [];
  }

  lemma ThreeReceive(s: State, f: seq<byte>)
    requires Shape(s) && s.running && s.ports == [[], [], []] && s.job.NoJob? && s.out.NoOut? && s.cmd == []
    requires 0 < |f| <= MAX_SIZE
    ensures var t := ServePorts(s, 0, [Received(f), Received(f), Received(f)]);
            && Starving(t) && t.ports[2] == Encode(Message(3, f)) && t.log.chosen == s.log.chosen + [Message(1, f)]
  {
    hide Shape, Encode, ServePort, ServePorts;
    var r := Received(f);
    UnrollThree(s, [r, r, r]);
    ReceiveOne(s, 0, f);
    var a := ServePort(s, 0, r);
    ReceiveOne(a, 1, f);
    var b := ServePort(a, 1, r);
    ReceiveOne(b, 2, f);
    assert ServePort(b, 2, r).ports == [Encode(Message(1, f)), Encode(Message(2, f)), Encode(Message(3, f))];
  }

  lemma InitialPossible(s: State, e: Events, f: seq<byte>)
    requires s == Initial(s.log.greeting, 3) && 0 < |f| <= MAX_SIZE
    requires e == Events(None, None, None, None, [Received(f), Received(f), Received(f)])
    ensures Shape(s) && s.ports == [[], [], []] && Possible(s, e)
  {
    hide Encode;
  }

  lemma FirstPass(s: State, e: Events, f: seq<byte>)
    requires s == Initial(s.log.greeting, 3) && 0 < |f| <= MAX_SIZE
    requires e == Events(None, None, None, None, [Received(f), Received(f), Received(f)])
    ensures Possible(s, e) && BeforeHandling(s, e) == s && WellFormedBytes(s.bufin)
    ensures var t := Iterate(s, e);
            Starving(t) && t.ports[2] == Encode(Message(3, f)) && t.log.chosen == [Message(1, f)]
  {
    FirstSections(s, e);
    InitialPossible(s, e, f);
    hide Shape, BeforeHandling, HandleChild, ServePorts, Encode, LineEnd, Starving, Possible;
    ThreeReceive(s, f);
    assert [] + [Message(1, f)] == [Message(1, f)];
  }

  // ----- Runs of driver and child -----

  /** The child reads all that is in the pipe. */
  lemma {:induction false} ChildReadsAll(w: World) returns (moves: seq<Move>, v: World)
    requires WorldInv(w, Scenarios.SILENT) && Delivery.Deliverable(w.sys, [])
    ensures WorldInv(v, Scenarios.SILENT) && Leads(w, moves, v, Scenarios.SILENT)
    ensures v.status == w.status && v.sys.driver == w.sys.driver && v.sys.fromChild == w.sys.fromChild
    ensures v.sys.toChild == []
    decreases |w.sys.toChild|
  {
    hide Inv, Delivery.Deliverable, Loop.Feed;
    if w.sys.toChild == [] {
      moves, v := [], w;
    } else {
      Delivery.ChildLives(w.sys, []);
      assert Answers(Scenarios.SILENT, |w.sys.consumed|) == [];
      LeadsOne(w, ChildReads, Scenarios.SILENT);
      var u := After(w, ChildReads, Scenarios.SILENT);
      Delivery.StillDeliverable(w.sys, u.sys, []);
      var more;
      more, v := ChildReadsAll(u);
      LeadsConcat(w, [ChildReads], u, more, v, Scenarios.SILENT);
      moves := [ChildReads] + more;
    }
  }

  /** The third interface is passed over, and nothing keeps the next message from being written at once. */
  ghost predicate Turn(w: World) {
    && WorldInv(w, Scenarios.SILENT) && w.status.AtSelect? && Starving(w.sys.driver)
    && w.sys.fromChild == [] && Delivery.Deliverable(w.sys, [])
  }

  /** The current frame is written to a child that has read everything before, and the third interface waits on. */
  lemma {:induction false} NextTurn(w: World, f: seq<byte>) returns (moves: seq<Move>, v: World)
    requires Turn(w) && 0 < |f| <= LARGEST_PAYLOAD
    ensures Turn(v) && Leads(w, moves, v, Scenarios.SILENT) && v.sys.driver.ports[2] == w.sys.driver.ports[2]
    ensures |v.sys.driver.log.chosen| == |w.sys.driver.log.chosen| + 1
    ensures w.sys.driver.log.chosen <= v.sys.driver.log.chosen
    ensures v.sys.driver.log.chosen[|w.sys.driver.log.chosen|].kind in {1, 2}
  {
    hide Inv, Starving, Delivery.Deliverable, Allowed, After, Loop.Feed;
    var a, u := ChildReadsAll(w);
    Delivery.StillDeliverable(w.sys, u.sys, []);
    BeginsTurn(u);
    LeadsOne(u, Begin(None), Scenarios.SILENT);
    var b := World(u.sys, Writing(false));
    FinishesTurn(b, f);
    var m := Finish(BusyEvents(b.sys.driver, f));
    LeadsOne(b, m, Scenarios.SILENT);
    v := After(b, m, Scenarios.SILENT);
    LeadsConcat(u, [Begin(None)], b, [m], v, Scenarios.SILENT);
    LeadsConcat(w, a, u, [Begin(None)] + [m], v, Scenarios.SILENT);
    moves := a + ([Begin(None)] + [m]);
  }

  lemma BeginsTurn(w: World)
    requires WorldInv(w, Scenarios.SILENT) && w.status.AtSelect? && Starving(w.sys.driver)
    requires w.sys.fromChild == [] && w.sys.toChild == [] && Delivery.Deliverable(w.sys, [])
    ensures Allowed(w, Begin(None), Scenarios.SILENT)
    ensures After(w, Begin(None), Scenarios.SILENT) == World(w.sys, Writing(false))
  {
    hide Inv, Shape, Allowed, After, Delivery.Deliverable;
    Delivery.ChildLives(w.sys, []);
    Scenarios.WriteBegins(w, Scenarios.SILENT);
  }

  lemma FinishesTurn(w: World, f: seq<byte>)
    requires WorldInv(w, Scenarios.SILENT) && w.status == Writing(false) && Starving(w.sys.driver)
    requires w.sys.fromChild == [] && w.sys.toChild == [] && Delivery.Deliverable(w.sys, [])
    requires 0 < |f| <= LARGEST_PAYLOAD
    ensures var d, m := w.sys.driver, Finish(BusyEvents(w.sys.driver, f));
            && Allowed(w, m, Scenarios.SILENT)
            && var v := After(w, m, Scenarios.SILENT);
               && Turn(v) && v.sys.driver.ports[2] == d.ports[2]
               && |v.sys.driver.log.chosen| == |d.log.chosen| + 1 && d.log.chosen <= v.sys.driver.log.chosen
               && v.sys.driver.log.chosen[|d.log.chosen|].kind in {1, 2}
  {
    hide Inv, Shape, Stream, BeforeHandling, Iterate, Next, BusyEvents, Delivery.Deliverable, Loop.Feed;
    var s, d, e := w.sys, w.sys.driver, BusyEvents(w.sys.driver, f);
    var m := Finish(e);
    Delivery.ChildLives(s, []);
    InvGives(d);
    StarvingSections(d, f);
    IsBusy(d, f);
    assert Enabled(s, Iteration(e), []);
    assert Allowed(w, m, Scenarios.SILENT);
    AfterKeeps(w, m, Scenarios.SILENT);
    PassPipes(s, e, []);
    NextIterates(s, e, []);
    StarvingPass(d, f);
    StepKeepsInv(s, Iteration(e), []);
    IterateChooses(d, e);
    CurrentKind(Iterate(d, e));
    OtherChosen(d, Iterate(d, e));
    NextKeepsSources(s, Iteration(e), []);
    FramesStayShort(s, After(w, m, Scenarios.SILENT).sys, f);
  }

  lemma IsBusy(s: State, f: seq<byte>)
    requires Starving(s)
    ensures var e := BusyEvents(s, f);
            e.stdin.None? && e.fromChild.None? && e.toChild == Some(|s.job.left|)
  {}

  /** A received frame that fits leaves the inputs short. */
  lemma FramesStayShort(s: System, t: System, f: seq<byte>)
    requires Inv(s.driver) && Starving(s.driver) && 0 < |f| <= LARGEST_PAYLOAD && Delivery.Deliverable(s, [])
    requires Possible(s.driver, BusyEvents(s.driver, f))
    requires WellFormedBytes(BeforeHandling(s.driver, BusyEvents(s.driver, f)).bufin)
    requires t.driver == Iterate(s.driver, BusyEvents(s.driver, f))
    requires t.driver.log.greeting == s.driver.log.greeting && |t.driver.ports| == |s.driver.ports|
    ensures Delivery.Deliverable(t, [])
  {
    hide Keeps, NothingWaits, JobShape, OutShape, BeforeHandling, HandleChild, Iterate, Inputs.LinesOf;
    var d, e := s.driver, BusyEvents(s.driver, f);
    DriverLog.LogIsFaithful(d, e);
    assert d.log.stdin + [] == d.log.stdin;
  }

  lemma {:induction false} Starves(w: World, f: seq<byte>, n: nat) returns (moves: seq<Move>, v: World)
    requires Turn(w) && 0 < |f| <= LARGEST_PAYLOAD
    ensures Turn(v) && Leads(w, moves, v, Scenarios.SILENT) && v.sys.driver.ports[2] == w.sys.driver.ports[2]
    ensures |v.sys.driver.log.chosen| == |w.sys.driver.log.chosen| + n
    ensures w.sys.driver.log.chosen <= v.sys.driver.log.chosen
    ensures forall k | |w.sys.driver.log.chosen| <= k < |v.sys.driver.log.chosen| ::
              v.sys.driver.log.chosen[k].kind in {1, 2}
    decreases n
  {
    hide WorldInv, Allowed, After, Delivery.Deliverable;
    if n == 0 {
      moves, v := [], w;
    } else {
      var a, u := NextTurn(w, f);
      var more;
      more, v := Starves(u, f, n - 1);
      LeadsConcat(w, a, u, more, v, Scenarios.SILENT);
      moves := a + more;
    }
  }

  /** All three interfaces receive a frame in the first pass. */
  lemma {:induction false} AllReceive(macs: seq<seq<byte>>, f: seq<byte>) returns (m: Move, v: World)
    requires |macs| == 3 && EndToEnd.ProperMacs(macs) && 0 < |f| <= LARGEST_PAYLOAD
    ensures Proper(Scenarios.SILENT) && Turn(v) && Arrives(macs, [m], v, Scenarios.SILENT)
    ensures v.sys.driver.ports[2] == Encode(Message(3, f)) && v.sys.driver.log.chosen == [Message(1, f)]
  {
    hide Inv, Encode, BeforeHandling, Iterate, Next, Stream, Loop.Feed, ServePorts, Delivery.Deliverable, Concat;
    var e := Events(None, None, None, None, [Received(f), Received(f), Received(f)]);
    var w := World(Start(macs), AtSelect);
    StartWorld(macs, Scenarios.SILENT);
    FirstPass(w.sys.driver, e, f);
    m := Pass(e);
    assert Enabled(w.sys, Iteration(e), []);
    LeadsOne(w, m, Scenarios.SILENT);
    v := After(w, m, Scenarios.SILENT);
    PassPipes(w.sys, e, []);
    NextIterates(w.sys, e, []);
    NextKeepsSources(w.sys, Iteration(e), []);
    assert w.sys.driver.log.frames == [[], [], []];
    OnlyFrames(w.sys.driver, e, f);
    FirstIsShort(macs, v.sys, f);
  }

  /** A first pass in which all three receive f and nothing else happens leaves no other input. */
  lemma OnlyFrames(s: State, e: Events, f: seq<byte>)
    requires Shape(s) && s.running && |s.ports| == 3 && s.log.stdin == [] && s.log.frames == [[], [], []]
    requires e == Events(None, None, None, None, [Received(f), Received(f), Received(f)])
    requires Possible(s, e) && WellFormedBytes(BeforeHandling(s, e).bufin)
    ensures var log := Iterate(s, e).log;
            log.stdin == [] && |log.frames| == 3 && forall i | 0 <= i < 3 :: forall g | g in log.frames[i] :: g == f
  {
    hide Shape, Possible, BeforeHandling, HandleChild, Iterate, WellFormedBytes, DriverLog.SendIsRecorded;
    DriverLog.LogIsFaithful(s, e);
    forall i | 0 <= i < 3 ensures forall g | g in Iterate(s, e).log.frames[i] :: g == f {
      assert s.log.frames[i] == [] && e.ports[i] == Received(f);
    }
  }

  lemma FirstIsShort(macs: seq<seq<byte>>, t: System, f: seq<byte>)
    requires |macs| == 3 && EndToEnd.ProperMacs(macs) && 0 < |f| <= LARGEST_PAYLOAD
    requires t.driver.log.stdin == [] && |t.driver.log.frames| == 3
    requires forall i | 0 <= i < 3 :: forall g | g in t.driver.log.frames[i] :: g == f
    requires t.driver.log.greeting == Greeting(macs) && |t.driver.ports| == 3
    ensures Delivery.Deliverable(t, [])
  {
    hide Inputs.LinesOf, Encode, Concat;
    Inputs.GreetingFits(macs);
    EndToEnd.ConcatOfSixes(macs, 0);
    Inputs.NoLine([]);
  }

  /**
   * A frame of the third interface can wait for ever: for any n there is a run in which n more messages are chosen
   * and the frame is still there, since the other two take turns, at a child that always reads what was written.
   */
  lemma {:induction false} HighestCanStarve(macs: seq<seq<byte>>, f: seq<byte>, n: nat)
      returns (moves: seq<Move>, w: World)
    requires |macs| == 3 && EndToEnd.ProperMacs(macs) && 0 < |f| <= LARGEST_PAYLOAD
    ensures Proper(Scenarios.SILENT) && Arrives(macs, moves, w, Scenarios.SILENT) && w.sys.driver.running
    ensures |w.sys.driver.log.chosen| == n + 1 && !w.sys.loop.aborted
    ensures |w.sys.driver.ports| == 3 && w.sys.driver.ports[2] == Encode(Message(3, f))
    ensures forall m | m in w.sys.driver.log.chosen :: m.kind in {1, 2}
  {
    hide Inv, Leads, Encode, Loop.Feed, Delivery.Deliverable;
    var m, u := AllReceive(macs, f);
    var more;
    more, w := Starves(u, f, n);
    ArrivesMore(macs, [m], u, more, w, Scenarios.SILENT);
    Delivery.ChildLives(w.sys, []);
    moves := [m] + more;
  }
}

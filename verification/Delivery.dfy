/** Whatever was read can be delivered in both directions, unless driver and child block each other. */
module Delivery {
  import opened Wire
  import opened DriverSpec
  import opened DriverInvariant
  import opened Relay
  import opened EndToEnd
  import opened Inputs
  import opened Quiet
  import opened Pipes
  import opened Deadlock
  import Scenarios
  import DriverLog
  import Loop
  import Scheduling

  /** Nothing is on its way, in either direction, and the child has answered all it has read. */
  ghost predicate Drained(w: World, c: Child)
    requires WorldInv(w, c)
  {
    var s := w.sys;
    && w.status.AtSelect? && DrainedToChild(s)
    && s.driver.out.NoOut? && s.fromChild == [] && s.emitted == Due(c, |s.consumed|)
  }

  /** Frames are addressed to one of n interfaces. */
  predicate AddressesWithin(output: seq<Message>, n: nat) {
    forall m | m in output :: m.kind <= n
  }

  /** Greeting and inputs read so far fit, so that the child is alive and stays so; it addresses existing interfaces. */
  predicate Deliverable(s: System, output: seq<Message>) {
    && Fits(s.driver.log.greeting) && s.driver.log.greeting.payload != []
    && |s.driver.ports| < FIELD_LIMIT && InputsShort(s.driver.log)
    && AddressesWithin(output, |s.driver.ports|)
  }

  predicate SameInputs(s: System, t: System) {
    && t.driver.log.frames == s.driver.log.frames && t.driver.log.stdin == s.driver.log.stdin
    && t.driver.log.greeting == s.driver.log.greeting && |t.driver.ports| == |s.driver.ports|
  }

  lemma StillDeliverable(s: System, t: System, output: seq<Message>)
    requires Deliverable(s, output) && SameInputs(s, t)
    ensures Deliverable(t, output)
  {
    hide LinesOf;
  }

  lemma ChildLives(s: System, output: seq<Message>)
    requires SysInv(s, output) && Deliverable(s, output)
    ensures !s.loop.aborted && |s.loop.buf| < 65535
    ensures s.driver.job.Job? ==> |s.driver.job.left| < CAPACITY
  {
    hide Inv, InputsWithin, Stream, Loop.Feed, Loop.CallsOf, Loop.Ready;
    InputsFitAllFit(s.driver);
    AllFitAppend(s.driver.log.greeting, s.driver.log.chosen);
    ConsumedIsPrefix(s, output);
    Loop.PrefixDelivery(Sent(s), s.consumed);
    Scheduling.LoopHasRoom(s, output);
    if s.driver.job.Job? {
      JobIsChosen(s.driver);
      assert Fits(s.driver.log.chosen[|s.driver.log.chosen| - 1]);
    }
  }

  // ----- What is left to do -----

  /** What is buffered towards the child. */
  function Weight(s: State): nat {
    |s.cmd| + |Concat(s.ports)|
  }

  lemma {:induction false} ConcatUpdate(parts: seq<seq<byte>>, i: nat, p: seq<byte>)
    requires i < |parts|
    ensures |Concat(parts[i := p])| == |Concat(parts)| - |parts[i]| + |p|
  {
    if i == 0 {
      assert parts[0 := p][1..] == parts[1..];
    } else {
      assert parts[i := p][0] == parts[0] && parts[i := p][1..] == parts[1..][i - 1 := p];
      ConcatUpdate(parts[1..], i - 1, p);
    }
  }

  /** Writing the rest of the current message empties its part of the buffer. */
  lemma FinishLosesWeight(s: State)
    requires Shape(s) && s.running && s.job.Job?
    ensures Weight(WriteChild(s, Some(|s.job.left|))) < Weight(s)
  {
    hide Concat;
    match s.job.source
    case CommandLine =>
    case Port(i) =>
      var total := s.job.sent + |s.job.left|;
      ConcatUpdate(s.ports, i, s.ports[i][total..]);
  }

  /** What is left to do, the first difference deciding. */
  predicate Less(t: World, w: World) {
    var a, b := t.sys, w.sys;
    var handledA, handledB := |a.driver.log.handled|, |b.driver.log.handled|;
    || a.emitted > b.emitted
    || (a.emitted == b.emitted && Weight(a.driver) < Weight(b.driver))
    || (a.emitted == b.emitted && Weight(a.driver) == Weight(b.driver) &&
        (|| handledA > handledB
         || (handledA == handledB && |a.fromChild| < |b.fromChild|)
         || (handledA == handledB && |a.fromChild| == |b.fromChild| && |a.toChild| < |b.toChild|)
         || (handledA == handledB && |a.fromChild| == |b.fromChild| && |a.toChild| == |b.toChild| &&
             w.status.AtSelect? && t.status.Writing?)))
  }

  // ----- The moves towards a drained state -----

  /** The rest of a write, or a pass that sends all of a pending frame; the child is read if it was heard. */
  function DrainEvents(s: System, w: Option<int>, heard: bool): Events {
    Events(None, w, if s.driver.out.Out? && w.None? then Some(s.driver.out.left) else None, Heard(s, heard),
           QuietPorts(|s.driver.ports|))
  }

  /** A pass without news from interfaces or command line, and what it has done. */
  lemma DrainingPass(s: System, w: Option<int>, heard: bool, output: seq<Message>)
    requires SysInv(s, output) && s.driver.running && AddressesWithin(output, |s.driver.ports|)
    requires w.Some? ==> s.driver.job.Job? && w.value == |s.driver.job.left|
    requires heard ==> Hears(s)
    ensures var e := DrainEvents(s, w, heard);
            && Enabled(s, Iteration(e), output) && WellFormedBytes(BeforeHandling(s.driver, e).bufin)
            && var t := Next(s, Iteration(e), output);
               && t.driver.running && SameInputs(s, t) && t.emitted == s.emitted && t.consumed == s.consumed
               && (if w.Some? then Weight(t.driver) < Weight(s.driver) else Weight(t.driver) == Weight(s.driver))
               && |t.driver.log.handled| >= |s.driver.log.handled| + (if s.driver.out.Out? && w.None? then 1 else 0)
               && (heard && s.driver.out.NoOut? ==> |t.fromChild| < |s.fromChild|)
  {
    hide Keeps, NothingWaits, JobShape, OutShape, BeforeHandling, Iterate, Stream, Next, Concat, Weight;
    var e := DrainEvents(s, w, heard);
    DrainingIsPossible(s, w, heard);
    assert Enabled(s, Iteration(e), output);
    ReadsWellFormed(s, e, output);
    QuietIteration(s.driver, e);
    NextIterates(s, e, output);
    DriverLog.RunsOn(s, e, output);
    PassPipes(s, e, output);
    NextKeepsSources(s, Iteration(e), output);
    if w.Some? {
      FinishLosesWeight(s.driver);
    }
    if heard && s.driver.out.NoOut? {
      PassReads(s, e, output);
    }
    SameWeight(AfterWrite(s.driver, e), Iterate(s.driver, e));
  }

  lemma SameWeight(s: State, t: State)
    ensures s.cmd == t.cmd && s.ports == t.ports ==> Weight(s) == Weight(t)
  {}

  lemma DrainingIsPossible(s: System, w: Option<int>, heard: bool)
    requires Shape(s.driver)
    requires w.Some? ==> s.driver.job.Job? && w.value == |s.driver.job.left|
    requires heard ==> Hears(s)
    ensures QuietPass(s.driver, DrainEvents(s, w, heard))
  {}

  /** A pass that hears the child while nothing is being sent reads some of its output. */
  lemma PassReads(s: System, e: Events, output: seq<Message>)
    requires SysInv(s, output) && Enabled(s, Iteration(e), output) && DriverLog.Succeeds(e)
    requires e.fromChild.Some? && WantsChild(s.driver)
    requires WellFormedBytes(BeforeHandling(s.driver, e).bufin)
    ensures |Next(s, Iteration(e), output).fromChild| < |s.fromChild|
  {
    hide Inv, Shape, Stream, BeforeHandling, Iterate, DriverLog.SendIsRecorded, DriverLog.Frames, DriverLog.Written;
    InvGives(s.driver);
    DriverLog.LogIsFaithful(s.driver, e);
    IterateLog(s.driver, e);
  }

  /** The next move of a world that is neither drained nor blocked. */
  ghost function NextMove(w: World, c: Child): Move
    requires WorldInv(w, c)
  {
    var s, due := w.sys, Due(c, |w.sys.consumed|);
    if w.status.Writing? && |s.toChild| + |s.driver.job.left| <= CAPACITY then
      Finish(DrainEvents(s, Some(|s.driver.job.left|), w.status.heard))
    else if s.emitted < due && |s.fromChild| < CAPACITY then
      ChildWrites(Portion(due - s.emitted, CAPACITY - |s.fromChild|))
    else if w.status.AtSelect? && Writable(s) then Begin(None)
    else if s.emitted == due && s.toChild != [] then ChildReads
    else Pass(DrainEvents(s, None, Hears(s)))
  }

  function Portion(a: nat, b: nat): nat {
    if a < b then a else b
  }

  lemma FinishWorks(w: World, c: Child)
    requires WorldInv(w, c) && Deliverable(w.sys, c.output) && !w.sys.loop.aborted
    requires w.status.Writing? && |w.sys.toChild| + |w.sys.driver.job.left| <= CAPACITY
    ensures var m := Finish(DrainEvents(w.sys, Some(|w.sys.driver.job.left|), w.status.heard));
            && Allowed(w, m, c)
            && var v := After(w, m, c);
               v.sys.driver.running && SameInputs(w.sys, v.sys) && Less(v, w)
  {
    hide Inv, Shape, Stream, Weight, Next, BeforeHandling, InputsWithin;
    DrainingPass(w.sys, Some(|w.sys.driver.job.left|), w.status.heard, c.output);
  }

  /** When the driver has nothing to write, but something to send or to read. */
  lemma PassWorks(w: World, c: Child)
    requires WorldInv(w, c) && w.sys.driver.running && Deliverable(w.sys, c.output) && !w.sys.loop.aborted
    requires w.status.AtSelect? && !Writable(w.sys) && (w.sys.driver.out.Out? || w.sys.fromChild != [])
    ensures var m := Pass(DrainEvents(w.sys, None, Hears(w.sys)));
            && Allowed(w, m, c)
            && var v := After(w, m, c);
               v.sys.driver.running && SameInputs(w.sys, v.sys) && Less(v, w)
  {
    hide Inv, Shape, Stream, Weight, Next, BeforeHandling, InputsWithin;
    if w.sys.driver.out.NoOut? {
      Scheduling.ChildIsHeard(w.sys.driver);
    }
    PassPipes(w.sys, DrainEvents(w.sys, None, Hears(w.sys)), c.output);
    DrainingPass(w.sys, None, Hears(w.sys), c.output);
  }

  lemma BeginWorks(w: World, c: Child)
    requires WorldInv(w, c) && w.sys.driver.running && !w.sys.loop.aborted && w.status.AtSelect? && Writable(w.sys)
    ensures Allowed(w, Begin(None), c)
    ensures var v := After(w, Begin(None), c);
            v.sys.driver.running && SameInputs(w.sys, v.sys) && Less(v, w)
  {
    hide WorldInv, After, Weight;
    Scenarios.WriteBegins(w, c);
  }

  lemma ChildMoveWorks(w: World, m: Move, c: Child)
    requires WorldInv(w, c) && w.sys.driver.running && Allowed(w, m, c) && (m.ChildReads? || m.ChildWrites?)
    ensures var v := After(w, m, c);
            v.sys.driver.running && SameInputs(w.sys, v.sys) && Less(v, w)
  {
    hide Inv, Stream, Weight, Loop.Feed;
  }

  lemma NextMoveWorks(w: World, c: Child)
    requires WorldInv(w, c) && w.sys.driver.running && Deliverable(w.sys, c.output)
    requires !Drained(w, c) && !Blocked(w, c)
    ensures Allowed(w, NextMove(w, c), c)
    ensures var v := After(w, NextMove(w, c), c);
            v.sys.driver.running && SameInputs(w.sys, v.sys) && Less(v, w)
  {
    hide Inv, Shape, Stream, Weight, DrainEvents, After, Less, Due, InputsWithin, BeforeHandling, Loop.Feed;
    ChildLives(w.sys, c.output);
    DueGrows(c, |w.sys.consumed|, |w.sys.consumed|);
    var s, m, due := w.sys, NextMove(w, c), Due(c, |w.sys.consumed|);
    match m
    case Finish(_) => FinishWorks(w, c);
    case ChildWrites(_) => ChildMoveWorks(w, m, c);
    case Begin(_) => BeginWorks(w, c);
    case ChildReads => ChildMoveWorks(w, m, c);
    case Pass(_) =>
      assert s.toChild == [] || s.emitted < due;
      PassWorks(w, c);
  }

  /** How much the child still has to write, as far as is known. */
  function Unwritten(w: World, c: Child): int {
    |Stream(c.output)| - w.sys.emitted
  }

  /**
   * From every state of a running driver whose inputs fit, with a child that addresses existing interfaces, one can
   * be reached, without any new input, in which nothing is on its way, or driver and child block each other: nothing
   * else can keep what was read from arriving.
   */
  lemma {:induction false} DrainsOrBlocks(w: World, c: Child) returns (moves: seq<Move>, v: World)
    requires WorldInv(w, c) && w.sys.driver.running && Deliverable(w.sys, c.output)
    ensures WorldInv(v, c) && Leads(w, moves, v, c) && v.sys.driver.running && SameInputs(w.sys, v.sys)
    ensures Drained(v, c) || Blocked(v, c)
    decreases Unwritten(w, c), Weight(w.sys.driver), |c.output| - |w.sys.driver.log.handled|, |w.sys.fromChild|,
              |w.sys.toChild|, if w.status.AtSelect? then 1 else 0
  {
    hide Drained, Blocked, Deliverable, NextMove, After, Inv, Weight, Stream, Allowed;
    if Drained(w, c) || Blocked(w, c) {
      moves, v := [], w;
    } else {
      var m := NextMove(w, c);
      NextMoveWorks(w, c);
      LeadsOne(w, m, c);
      var u := After(w, m, c);
      StillDeliverable(w.sys, u.sys, c.output);
      HandledFollowOutput(u.sys, c.output);
      HandledFollowOutput(w.sys, c.output);
      var more;
      more, v := DrainsOrBlocks(u, c);
      LeadsConcat(w, [m], u, more, v, c);
      moves := [m] + more;
    }
  }

  /** Without the deadlock, a drained state can always be reached, in which the child was told everything read. */
  lemma {:induction false} CanDrain(macs: seq<seq<byte>>, before: seq<Move>, w: World, c: Child)
      returns (moves: seq<Move>, v: World)
    requires Proper(c) && ProperMacs(macs) && Arrives(macs, before, w, c) && w.sys.driver.running
    requires InputsFit(macs, w.sys.driver.log) && AddressesWithin(c.output, |macs|)
    requires Unblockable(w.sys.driver.log, c)
    ensures WorldInv(w, c) && WorldInv(v, c) && Leads(w, moves, v, c) && |v.sys.driver.ports| == |macs|
    ensures Drained(v, c) && SameInputs(w.sys, v.sys) && ToldAll(macs, v.sys)
  {
    hide WorldInv, Leads, Blocked, InputsShort, Stream, ToldAll;
    var steps := ArrivedReaches(macs, before, w, c);
    WorldInvGives(w, c);
    ReachedInv(macs, steps, w.sys, c.output);
    GreetingFits(macs);
    ConcatOfSixes(macs, 0);
    moves, v := DrainsOrBlocks(w, c);
    ArrivesMore(macs, before, w, moves, v, c);
    SameUnblockable(w.sys, v.sys, c);
    NeverBlocked(macs, before + moves, v, c);
    SameInputsFit(macs, w.sys, v.sys);
    var all := ArrivedReaches(macs, before + moves, v, c);
    DeliveryIffInputsFit(macs, all, v.sys, c.output);
  }

  lemma WorldInvGives(w: World, c: Child)
    requires WorldInv(w, c)
    ensures SysInv(w.sys, c.output)
  {}

  lemma SameUnblockable(s: System, t: System, c: Child)
    requires SameInputs(s, t) && Unblockable(s.driver.log, c)
    ensures Unblockable(t.driver.log, c)
  {
    hide LinesOf, Stream;
  }

  // ----- What a drained state comes to -----

  /** A child that has written no more than its first k messages is a child of these messages. */
  lemma InvForPrefix(s: System, output: seq<Message>, k: nat)
    requires SysInv(s, output) && k <= |output| && s.emitted <= |Stream(output[..k])|
    ensures SysInv(s, output[..k])
  {
    hide Inv, Stream;
    StreamOfPrefix(output, k, |output|);
    assert output[..|output|] == output;
    assert ChildMessages(output[..k]);
  }

  /** In a drained state the network was sent and the user was shown all that the child answered to what it read. */
  lemma DrainedFromWorld(w: World, c: Child, i: nat)
    requires WorldInv(w, c) && Drained(w, c) && i < |w.sys.driver.ports|
    ensures var log, answers := w.sys.driver.log, Answers(c, |w.sys.consumed|);
            && log.handled == answers && |log.sent| == |w.sys.driver.ports|
            && log.sent[i] == Concat(Payloads(answers, i + 1))
            && log.printed == Concat(Shown(Payloads(answers, 0)))
  {
    hide Inv, Stream, Concat, Payloads, Shown;
    var k := c.replies(|w.sys.consumed|);
    InvForPrefix(w.sys, c.output, k);
    InvGives(w.sys.driver);
    HandledFollowOutput(w.sys, c.output[..k]);
    SentOnInterface(w.sys, c.output[..k], i);
    InvGivesFromChild(w.sys.driver);
  }

  // ----- Exactly when everything read can be delivered -----

  /** A state can be reached, without any new input, in which the child was told everything that was read. */
  ghost predicate CanTell(macs: seq<seq<byte>>, w: World, c: Child)
    requires WorldInv(w, c)
  {
    exists moves, v :: Leads(w, moves, v, c) && SameInputs(w.sys, v.sys) && ToldAll(macs, v.sys)
  }

  /**
   * Everything read can still be delivered if and only if there are at most 10921 interfaces and no frame or line
   * read is longer than 65531 bytes: from every reachable state of a running driver, unless driver and child can
   * block each other.
   */
  lemma CanTellIff(macs: seq<seq<byte>>, before: seq<Move>, w: World, c: Child)
    requires Proper(c) && ProperMacs(macs) && Arrives(macs, before, w, c)
    ensures WorldInv(w, c)
    ensures CanTell(macs, w, c) ==> InputsFit(macs, w.sys.driver.log)
    ensures w.sys.driver.running && Unblockable(w.sys.driver.log, c) && AddressesWithin(c.output, |macs|) ==>
              (CanTell(macs, w, c) <==> InputsFit(macs, w.sys.driver.log))
  {
    hide WorldInv, Leads, InputsFit, ToldAll, Unblockable;
    var steps := ArrivedReaches(macs, before, w, c);
    if CanTell(macs, w, c) {
      var moves, v :| Leads(w, moves, v, c) && SameInputs(w.sys, v.sys) && ToldAll(macs, v.sys);
      ArrivesMore(macs, before, w, moves, v, c);
      var all := ArrivedReaches(macs, before + moves, v, c);
      DeliveryIffInputsFit(macs, all, v.sys, c.output);
      SameInputsFit(macs, w.sys, v.sys);
    }
    if && w.sys.driver.running && Unblockable(w.sys.driver.log, c) && InputsFit(macs, w.sys.driver.log)
       && AddressesWithin(c.output, |macs|)
    {
      var moves, v := CanDrain(macs, before, w, c);
      assert CanTell(macs, w, c);
    }
  }

  lemma SameInputsFit(macs: seq<seq<byte>>, s: System, t: System)
    requires SameInputs(s, t)
    ensures InputsFit(macs, s.driver.log) <==> InputsFit(macs, t.driver.log)
  {
    hide LinesOf;
  }
}

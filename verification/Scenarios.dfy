/** What typing does to driver and child, and two runs that go wrong. */
module Scenarios {
  import opened Wire
  import opened DriverSpec
  import opened DriverInvariant
  import opened Relay
  import opened EndToEnd
  import opened Inputs
  import opened Quiet
  import opened Pipes
  import Loop
  import Scheduling

  // ----- Single moves -----

  /** A pass without any events, while a message is being written, changes nothing. */
  lemma IdlePass(s: System, output: seq<Message>)
    requires SysInv(s, output) && s.driver.running && s.driver.job.Job?
    ensures var e := ToChildEvents(s.driver, None, None);
            && Enabled(s, Iteration(e), output) && WellFormedBytes(BeforeHandling(s.driver, e).bufin)
            && Next(s, Iteration(e), output) == s
  {
    hide Keeps, JobShape, OutShape, Stream, HasMessage;
    var e := ToChildEvents(s.driver, None, None);
    assert BeforeHandling(s.driver, e) == s.driver;
    ReadsWellFormed(s, e, output);
    HandleChildIdle(s.driver);
    ServePortsQuiet(s.driver, 0);
    IterateLog(s.driver, e);
    assert s.toChild + [] == s.toChild && s.fromChild[0..] == s.fromChild;
  }

  /** The driver enters the write to the child. */
  lemma WriteBegins(w: World, c: Child)
    requires WorldInv(w, c) && w.status.AtSelect? && w.sys.driver.running && Writable(w.sys) && !w.sys.loop.aborted
    ensures Allowed(w, Begin(None), c) && After(w, Begin(None), c) == World(w.sys, Writing(Hears(w.sys)))
  {
    hide Inv, Shape, Stream, Next, Iterate, BeforeHandling, ToChildEvents;
    IdlePass(w.sys, c.output);
  }

  /** Nothing is pending at a driver in select, and the pipe from the child is empty. */
  predicate Idle(w: World) {
    && w.status.AtSelect? && w.sys.driver.running && w.sys.driver.cmd == [] && w.sys.driver.job.NoJob?
    && w.sys.fromChild == [] && !w.sys.loop.aborted
  }

  /** The child, the pipe from it and what interfaces received are as before. */
  predicate SameChild(s: System, t: System) {
    && t.loop == s.loop && t.consumed == s.consumed && t.emitted == s.emitted && t.fromChild == s.fromChild
    && t.driver.log.frames == s.driver.log.frames
  }

  /** The text is in the buffer when the driver looks for a line. */
  lemma AfterTyping(d: State, text: seq<byte>, e: Events)
    requires Inv(d) && d.running && d.cmd == [] && d.job.NoJob? && 0 < |text| <= Scheduling.LINE_ROOM
    requires e == ToChildEvents(d, Some(text), None)
    ensures var b := AfterWrite(d, e);
            && b.running && b.cmd == text && b.job.NoJob? && b.log.stdin == d.log.stdin + text && b.ports == d.ports
  {
    hide Inv, Shape, Encode;
    assert [] + text == text && text[..|text|] == text;
  }

  /** What typing a text into the empty command-line buffer of a driver with nothing pending comes to. */
  lemma TypingPass(d: State, text: seq<byte>, e: Events)
    requires Inv(d) && d.running && d.cmd == [] && d.job.NoJob? && 0 < |text| <= Scheduling.LINE_ROOM
    requires e == ToChildEvents(d, Some(text), None) && Possible(d, e)
    requires WellFormedBytes(BeforeHandling(d, e).bufin)
    ensures QuietPass(d, e)
    ensures var t := Iterate(d, e);
            && t.running && t.cmd == text && t.log.stdin == d.log.stdin + text
            && t.log.frames == d.log.frames && (forall i | 0 <= i < |t.ports| :: t.ports[i] == [])
            && (NEWLINE !in text ==> t.job.NoJob?)
            && (IsLine(text) ==> t.job == Job(CommandLine, 0, Encode(Message(0, text))))
  {
    hide Keeps, JobShape, OutShape, Encode, BeforeHandling, Iterate, LineEnd, WellFormedBytes, HasMessage, AfterWrite;
    Scheduling.NothingIsHeldBack(d);
    AfterTyping(d, text, e);
    QuietIteration(d, e);
    if IsLine(text) {
      LineEndIs(text, |text| - 1);
      assert text[..|text|] == text;
    }
    Scheduling.LineEndFinds(text);
  }

  /** A text is typed into the empty command-line buffer. */
  lemma {:induction false} TextIsTyped(w: World, text: seq<byte>, c: Child) returns (m: Move, v: World)
    requires WorldInv(w, c) && Idle(w) && 0 < |text| <= Scheduling.LINE_ROOM
    ensures WorldInv(v, c) && Leads(w, [m], v, c)
    ensures v.status.AtSelect? && v.sys.driver.running && v.sys.driver.cmd == text
    ensures v.sys.toChild == w.sys.toChild && SameChild(w.sys, v.sys)
    ensures v.sys.driver.log.stdin == w.sys.driver.log.stdin + text
    ensures forall i | 0 <= i < |v.sys.driver.ports| :: v.sys.driver.ports[i] == []
    ensures NEWLINE !in text ==> v.sys.driver.job.NoJob?
    ensures IsLine(text) ==> v.sys.driver.job == Job(CommandLine, 0, Encode(Message(0, text)))
  {
    hide Inv, Shape, Encode, BeforeHandling, Iterate, Stream, IsLine, Next;
    var d, e := w.sys.driver, ToChildEvents(w.sys.driver, Some(text), None);
    m := Pass(e);
    InvGives(d);
    TypingIsPossible(d, text);
    PassPipes(w.sys, e, c.output);
    assert w.sys.toChild + [] == w.sys.toChild;
    TypingPass(d, text, e);
    NextIterates(w.sys, e, c.output);
    LeadsOne(w, m, c);
    v := After(w, m, c);
  }

  lemma TypingIsPossible(d: State, text: seq<byte>)
    requires d.cmd == [] && |text| > 0
    ensures Possible(d, ToChildEvents(d, Some(text), None))
  {}

  /** A line is typed, and the driver enters the write of it. */
  lemma {:induction false} LineIsBegun(w: World, line: seq<byte>, c: Child) returns (moves: seq<Move>, v: World)
    requires WorldInv(w, c) && Idle(w) && IsLine(line) && |line| <= Scheduling.LINE_ROOM
    requires |w.sys.toChild| + PIPE_BUF <= CAPACITY
    ensures WorldInv(v, c) && Leads(w, moves, v, c)
    ensures v.status == Writing(false) && v.sys.driver.running && v.sys.driver.cmd == line
    ensures v.sys.driver.job == Job(CommandLine, 0, Encode(Message(0, line)))
    ensures v.sys.toChild == w.sys.toChild && SameChild(w.sys, v.sys)
    ensures v.sys.driver.log.stdin == w.sys.driver.log.stdin + line
    ensures forall i | 0 <= i < |v.sys.driver.ports| :: v.sys.driver.ports[i] == []
  {
    hide WorldInv, Allowed, After, Encode;
    var m, u := TextIsTyped(w, line, c);
    WriteBegins(u, c);
    LeadsOne(u, Begin(None), c);
    v := World(u.sys, Writing(false));
    LeadsConcat(w, [m], u, [Begin(None)], v, c);
    moves := [m] + [Begin(None)];
  }

  /** A line that fits the pipe is typed and written. */
  lemma {:induction false} LineIsWritten(w: World, line: seq<byte>, c: Child) returns (moves: seq<Move>, v: World)
    requires WorldInv(w, c) && Idle(w) && IsLine(line) && |line| <= Scheduling.LINE_ROOM
    requires |w.sys.toChild| + PIPE_BUF <= CAPACITY && |w.sys.toChild| + HEADER_SIZE + |line| <= CAPACITY
    ensures WorldInv(v, c) && Leads(w, moves, v, c) && Idle(v) && SameChild(w.sys, v.sys)
    ensures v.sys.toChild == w.sys.toChild + Encode(Message(0, line))
    ensures v.sys.driver.log.stdin == w.sys.driver.log.stdin + line
  {
    hide WorldInv, Allowed, After, Encode;
    var a, u := LineIsBegun(w, line, c);
    var m;
    m, v := LineIsFinished(u, line, c);
    LeadsConcat(w, a, u, [m], v, c);
    moves := a + [m];
  }

  lemma {:induction false} LineIsFinished(w: World, line: seq<byte>, c: Child) returns (m: Move, v: World)
    requires WorldInv(w, c) && w.status == Writing(false) && !w.sys.loop.aborted && w.sys.fromChild == []
    requires w.sys.driver.cmd == line && w.sys.driver.job == Job(CommandLine, 0, Encode(Message(0, line)))
    requires forall i | 0 <= i < |w.sys.driver.ports| :: w.sys.driver.ports[i] == []
    requires |w.sys.toChild| + HEADER_SIZE + |line| <= CAPACITY
    ensures WorldInv(v, c) && Leads(w, [m], v, c) && Idle(v) && SameChild(w.sys, v.sys)
    ensures v.sys.toChild == w.sys.toChild + Encode(Message(0, line))
    ensures v.sys.driver.log.stdin == w.sys.driver.log.stdin
  {
    hide Keeps, NothingWaits, OutShape, Encode, BeforeHandling, Iterate, Stream;
    var d, left := w.sys.driver, Encode(Message(0, line));
    var e := ToChildEvents(d, None, Some(|left|));
    m := Finish(e);
    assert Allowed(w, m, c);
    LeadsOne(w, m, c);
    v := After(w, m, c);
    PassPipes(w.sys, e, c.output);
    NextIterates(w.sys, e, c.output);
    QuietIteration(d, e);
  }

  // ----- Runs from the start of the program -----

  /** The child has read the greeting and nothing else has happened. */
  lemma {:induction false} GreetingIsRead(macs: seq<seq<byte>>, c: Child) returns (v: World)
    requires Proper(c) && c.replies(0) == 0 && ProperMacs(macs) && |macs| <= MAX_INTERFACES
    ensures WorldInv(v, c) && Arrives(macs, [ChildReads], v, c) && Idle(v)
    ensures v.sys.driver == Start(macs).driver && v.sys.toChild == [] && v.sys.emitted == 0
    ensures v.sys.consumed == Encode(Greeting(macs)) && v.sys.loop == Loop.Delivered(Loop.INITIAL, Greeting(macs))
  {
    hide Inv, Encode, Loop.Dispatch, Loop.Feed, Loop.Delivered;
    var w, g := World(Start(macs), AtSelect), Greeting(macs);
    StartWorld(macs, c);
    GreetingIsTaken(macs);
    assert Encode(g)[..|Encode(g)|] == Encode(g);
    assert Answers(c, 0) == [];
    LeadsOne(w, ChildReads, c);
    v := After(w, ChildReads, c);
  }

  lemma GreetingIsTaken(macs: seq<seq<byte>>)
    requires ProperMacs(macs) && |macs| <= MAX_INTERFACES
    ensures Loop.Feed(Loop.INITIAL, Encode(Greeting(macs))) == Loop.Delivered(Loop.INITIAL, Greeting(macs))
    ensures |Encode(Greeting(macs))| <= 65535 && !Loop.Delivered(Loop.INITIAL, Greeting(macs)).aborted
    ensures Loop.Delivered(Loop.INITIAL, Greeting(macs)).buf == []
  {
    hide Encode, Loop.Feed, Concat;
    var g := Greeting(macs);
    ConcatOfSixes(macs, 0);
    assert Encode(g) + [] == Encode(g);
    Loop.FeedMessage(Loop.INITIAL, g, []);
    Loop.FeedWaiting(Loop.Delivered(Loop.INITIAL, g), []);
  }

  const SILENT := Child([], n => 0)

  /** An accepted line of 65532 bytes is sent to the child and ends it. */
  lemma {:induction false} LongLineEndsChild(macs: seq<seq<byte>>, line: seq<byte>) returns (moves: seq<Move>, v: World)
    requires ProperMacs(macs) && |macs| <= MAX_INTERFACES && IsLine(line) && |line| == 65532
    ensures Arrives(macs, moves, v, SILENT) && v.sys.driver.running && v.sys.loop.aborted
    ensures v.sys.driver.log.stdin == line && TextsOf(v.sys.loop.calls) == []
  {
    hide WorldInv, Leads, Encode, Loop.Feed, Loop.Delivered;
    var u := GreetingIsRead(macs, SILENT);
    var a, w := LineIsWritten(u, line, SILENT);
    var m := Message(0, line);
    GreetingIsTaken(macs);
    assert w.sys.toChild == Encode(m);
    Loop.OverlongEndsChild(w.sys.loop, m, Encode(m)[..65535]);
    v := LastRead(w);
    LeadsConcat(u, a, w, [ChildReads], v, SILENT);
    ArrivesMore(macs, [ChildReads], u, a + [ChildReads], v, SILENT);
    moves := [ChildReads] + (a + [ChildReads]);
    OnlyAddresses(macs);
    assert [] + line == line;
  }

  lemma {:induction false} LastRead(w: World) returns (v: World)
    requires WorldInv(w, SILENT) && !w.sys.loop.aborted && w.sys.loop.buf == [] && |w.sys.toChild| == 65536
    ensures WorldInv(v, SILENT) && Leads(w, [ChildReads], v, SILENT)
    ensures v.sys.driver == w.sys.driver && v.sys.loop == Loop.Feed(w.sys.loop, w.sys.toChild[..65535])
  {
    hide Inv, Loop.Feed;
    assert Answers(SILENT, |w.sys.consumed|) == [];
    LeadsOne(w, ChildReads, SILENT);
    v := After(w, ChildReads, SILENT);
  }

  lemma OnlyAddresses(macs: seq<seq<byte>>)
    requires ProperMacs(macs)
    ensures TextsOf(Loop.Delivered(Loop.INITIAL, Greeting(macs)).calls) == []
  {
    GreetingNamesInterfaces(macs);
    assert [] + Addresses(macs) == Addresses(macs);
    OnlyMacs(Addresses(macs), 1);
  }

  /** 65532 bytes without a newline leave the driver deaf to the command line, in every continuation of the run. */
  lemma {:induction false} EndlessLineSticks(macs: seq<seq<byte>>, text: seq<byte>) returns (moves: seq<Move>, v: World)
    requires ProperMacs(macs) && |macs| <= MAX_INTERFACES && |text| == 65532 && NEWLINE !in text
    ensures WorldInv(v, SILENT) && Arrives(macs, moves, v, SILENT)
    ensures v.sys.driver.running && Scheduling.Stuck(v.sys.driver)
    ensures forall more, t :: Runs(v.sys, more, t, []) ==> !WantsStdin(t.driver) && t.driver.log.stdin == text
  {
    hide Inv, Leads, Runs, Encode, Loop.Delivered;
    var u := GreetingIsRead(macs, SILENT);
    var m;
    m, v := TextIsTyped(u, text, SILENT);
    ArrivesMore(macs, [ChildReads], u, [m], v, SILENT);
    moves := [ChildReads] + [m];
    assert [] + text == text;
    forall more, t | Runs(v.sys, more, t, []) ensures !WantsStdin(t.driver) && t.driver.log.stdin == text {
      Scheduling.StuckInEveryRun(v.sys, more, t, []);
    }
  }
}

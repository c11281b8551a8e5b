/**
 * Driver and child as two processes that each do one thing at a time, with the two pipes between them. The driver
 * makes these with pipe and never sets O_NONBLOCK: a pipe holds a bounded number of bytes, and whoever writes more
 * than fits stays in write until the other side has read enough.
 */
module Pipes {
  import opened Wire
  import opened Net
  import opened DriverSpec
  import opened DriverInvariant
  import opened DriverLog
  import opened Relay
  import opened EndToEnd
  import opened Inputs
  import opened Quiet
  import Loop

  /** The capacity of a pipe, and the room from which on select reports it ready for writing, as on Linux. */
  const CAPACITY: nat := 65536
  const PIPE_BUF: nat := 4096

  /**
   * A child that answers what it reads: with n bytes read, it writes the first replies(n) messages of its output
   * before it reads on.
   */
  datatype Child = Child(output: seq<Message>, replies: nat -> nat)

  ghost predicate Proper(c: Child) {
    && ChildMessages(c.output)
    && (forall n :: c.replies(n) <= |c.output|)
    && (forall m, n :: m <= n ==> c.replies(m) <= c.replies(n))
  }

  /** The messages, and the number of bytes, that the child writes before it reads on. */
  function Answers(c: Child, n: nat): seq<Message>
    requires c.replies(n) <= |c.output|
  {
    c.output[..c.replies(n)]
  }

  function Due(c: Child, n: nat): nat
    requires c.replies(n) <= |c.output|
  {
    |Stream(Answers(c, n))|
  }

  lemma StreamOfPrefix(output: seq<Message>, k: nat, n: nat)
    requires k <= n <= |output|
    ensures Stream(output[..k]) <= Stream(output[..n])
  {
    assert output[..n] == output[..k] + output[k..n];
    StreamConcat(output[..k], output[k..n]);
  }

  lemma DueGrows(c: Child, m: nat, n: nat)
    requires Proper(c) && m <= n
    ensures Due(c, m) <= Due(c, n) <= |Stream(c.output)|
  {
    hide Stream;
    assert c.replies(m) <= c.replies(n) <= |c.output|;
    StreamOfPrefix(c.output, c.replies(m), c.replies(n));
    StreamOfPrefix(c.output, c.replies(n), |c.output|);
    assert c.output[..|c.output|] == c.output;
  }

  // ----- Worlds and moves -----

  /** The driver is in select, or in the write to the child; then `heard` says whether select reported child output. */
  datatype Status = AtSelect | Writing(heard: bool)

  datatype World = World(sys: System, status: Status)

  datatype Move =
    | Pass(e: Events)                       // a pass in which the pipe to the child is not ready or not asked about
    | Begin(stdin: Option<seq<byte>>)       // a pass up to the write to the child
    | Put(k: nat)                           // part of that write fits; the driver stays in it
    | Finish(e: Events)                     // the rest of that write fits, and the pass goes on
    | Fail                                  // select fails
    | ChildReads                            // the child reads what is there, as far as its buffer has room
    | ChildWrites(k: nat)                   // part of what the child has to write fits

  function ToChildEvents(s: State, stdin: Option<seq<byte>>, r: Option<int>): Events {
    Events(stdin, r, None, None, QuietPorts(|s.ports|))
  }

  function Readable(s: System): nat {
    if |s.loop.buf| >= 65535 then 0
    else if |s.toChild| <= 65535 - |s.loop.buf| then |s.toChild|
    else 65535 - |s.loop.buf|
  }

  /** The step of the relay that a move amounts to. */
  function StepOf(s: System, m: Move): Step {
    match m
    case Pass(e) => Iteration(e)
    case Begin(stdin) => Iteration(ToChildEvents(s.driver, stdin, None))
    case Put(k) => Iteration(ToChildEvents(s.driver, None, Some(k)))
    case Finish(e) => Iteration(e)
    case Fail => SelectFails
    case ChildReads => ChildRead(Readable(s))
    case ChildWrites(k) => ChildWrite(k)
  }

  /** Select reports child output, and what read then returns. */
  predicate Hears(s: System) {
    WantsChild(s.driver) && s.fromChild != []
  }

  function Heard(s: System, heard: bool): Option<seq<byte>> {
    if heard then Some(s.fromChild) else None
  }

  /** Select reports the pipe to the child. */
  predicate Writable(s: System) {
    s.driver.job.Job? && |s.toChild| + PIPE_BUF <= CAPACITY
  }

  ghost predicate WorldInv(w: World, c: Child) {
    && Proper(c) && SysInv(w.sys, c.output)
    && w.sys.emitted <= Due(c, |w.sys.consumed|)
    && (w.status.Writing? ==>
          w.sys.driver.running && w.sys.driver.job.Job? && (w.status.heard ==> Hears(w.sys)))
  }

  ghost predicate Allowed(w: World, m: Move, c: Child)
    requires WorldInv(w, c)
  {
    var s, status := w.sys, w.status;
    && !s.loop.aborted && Enabled(s, StepOf(s, m), c.output)
    && match m
       case Pass(e) => status.AtSelect? && !Writable(s) && e.toChild.None? && e.fromChild == Heard(s, Hears(s))
       case Begin(stdin) => status.AtSelect? && Writable(s)
       case Put(k) => status.Writing? && 0 < k < |s.driver.job.left| && |s.toChild| + k <= CAPACITY
       case Finish(e) =>
         && status.Writing? && e.stdin.None? && e.toChild == Some(|s.driver.job.left|)
         && |s.toChild| + |s.driver.job.left| <= CAPACITY && e.fromChild == Heard(s, status.heard)
       case Fail => status.AtSelect?
       case ChildReads => s.emitted == Due(c, |s.consumed|)
       case ChildWrites(k) =>
         0 < k && s.emitted + k <= Due(c, |s.consumed|) && |s.fromChild| + k <= CAPACITY
  }

  ghost function After(w: World, m: Move, c: Child): World
    requires WorldInv(w, c) && Allowed(w, m, c)
  {
    StepKeepsInv(w.sys, StepOf(w.sys, m), c.output);
    var t := Next(w.sys, StepOf(w.sys, m), c.output);
    World(t, match m
             case Pass(_) => AtSelect
             case Begin(_) => if t.driver.running then Writing(Hears(w.sys)) else AtSelect
             case Finish(_) => AtSelect
             case Fail => AtSelect
             case Put(_) => w.status
             case ChildReads => w.status
             case ChildWrites(_) => w.status)
  }

  /** What a pass does to the pipes. */
  lemma PassPipes(s: System, e: Events, output: seq<Message>)
    requires SysInv(s, output) && Enabled(s, Iteration(e), output)
    ensures WellFormedBytes(BeforeHandling(s.driver, e).bufin)
    ensures var t := Next(s, Iteration(e), output);
            && t.toChild == s.toChild + Written(e.toChild, if GetsToWrite(e) then Left(s.driver.job) else [])
            && |t.fromChild| <= |s.fromChild| && t.emitted == s.emitted && t.consumed == s.consumed && t.loop == s.loop
            && (e.fromChild.None? ==> t.fromChild == s.fromChild)
  {
    hide Inv, Shape, Stream, BeforeHandling, Iterate, Written, Read, Frames, SendIsRecorded;
    InvGives(s.driver);
    ReadsWellFormed(s, e, output);
    LogIsFaithful(s.driver, e);
    IterateLog(s.driver, e);
  }

  lemma NextIterates(s: System, e: Events, output: seq<Message>)
    requires Shape(s.driver) && Enabled(s, Iteration(e), output)
    requires WellFormedBytes(BeforeHandling(s.driver, e).bufin)
    ensures Next(s, Iteration(e), output).driver == Iterate(s.driver, e)
  {
    hide Shape, Iterate, BeforeHandling;
    IterateLog(s.driver, e);
  }

  /** A pass that only reads a command line, or only writes part of a message, leaves the rest of the driver alone. */
  lemma WritePass(s: System, stdin: Option<seq<byte>>, r: Option<int>, output: seq<Message>)
    requires SysInv(s, output) && Enabled(s, Iteration(ToChildEvents(s.driver, stdin, r)), output)
    requires stdin.Some? ==> stdin.value != []
    requires s.driver.job.Job? && (r.Some? ==> 0 < r.value < |s.driver.job.left|)
    ensures WellFormedBytes(BeforeHandling(s.driver, ToChildEvents(s.driver, stdin, r)).bufin)
    ensures var d, t := s.driver, Next(s, Iteration(ToChildEvents(s.driver, stdin, r)), output).driver;
            && t.running && t.out == d.out && t.bufin == d.bufin && t.ports == d.ports
            && t.log.fromChild == d.log.fromChild && t.log.handled == d.log.handled && t.log.frames == d.log.frames
            && (stdin.None? ==> t.cmd == d.cmd && t.log.stdin == d.log.stdin)
            && t.job == (if r.Some? then Job(d.job.source, d.job.sent + r.value, d.job.left[r.value..]) else d.job)
  {
    hide Inv, Shape, Stream, BeforeHandling, Iterate, Next, JobShape;
    var e := ToChildEvents(s.driver, stdin, r);
    InvGives(s.driver);
    ReadsWellFormed(s, e, output);
    QuietIteration(s.driver, e);
    NextIterates(s, e, output);
    PartIsWritten(s.driver, e);
  }

  lemma PartIsWritten(s: State, e: Events)
    requires Shape(s) && s.running && QuietPass(s, e) && s.job.Job?
    requires e.toChild.Some? ==> e.toChild.value < |s.job.left|
    ensures var b := AfterWrite(s, e);
            && b.ports == s.ports && (e.stdin.None? ==> b.cmd == s.cmd && b.log.stdin == s.log.stdin)
            && SelectLine(b).job == b.job
            && b.job == (if e.toChild.None? then s.job
                         else Job(s.job.source, s.job.sent + e.toChild.value, s.job.left[e.toChild.value..]))
  {
    hide OutShape, Encode, LineEnd;
  }

  lemma BeginKeeps(w: World, stdin: Option<seq<byte>>, c: Child)
    requires WorldInv(w, c) && Allowed(w, Begin(stdin), c)
    ensures var v := After(w, Begin(stdin), c);
            && (v.status.Writing? ==>
                  v.sys.driver.running && v.sys.driver.job == w.sys.driver.job && (v.status.heard ==> Hears(v.sys)))
            && v.sys.toChild == w.sys.toChild && v.sys.fromChild == w.sys.fromChild
  {
    hide Inv, Shape, Stream, Next, BeforeHandling, Iterate;
    var s, e := w.sys, ToChildEvents(w.sys.driver, stdin, None);
    InvGives(s.driver);
    PassPipes(s, e, c.output);
    assert s.toChild + [] == s.toChild;
    if GetsToWrite(e) {
      WritePass(s, stdin, None, c.output);
    } else {
      StopsOnlyForCause(s.driver, e);
      NextIterates(s, e, c.output);
    }
  }

  lemma PutKeeps(w: World, k: nat, c: Child)
    requires WorldInv(w, c) && Allowed(w, Put(k), c)
    ensures var s, t := w.sys, After(w, Put(k), c).sys;
            var job := s.driver.job;
            && t.driver.running && t.driver.job == Job(job.source, job.sent + k, job.left[k..])
            && t.toChild == s.toChild + job.left[..k] && t.fromChild == s.fromChild && (Hears(s) ==> Hears(t))
            && t.driver.log.fromChild == s.driver.log.fromChild && t.driver.log.handled == s.driver.log.handled
            && t.driver.log.frames == s.driver.log.frames && t.driver.log.stdin == s.driver.log.stdin
  {
    hide Inv, Shape, Stream, Next, BeforeHandling, Iterate;
    PassPipes(w.sys, ToChildEvents(w.sys.driver, None, Some(k)), c.output);
    WritePass(w.sys, None, Some(k), c.output);
  }

  /** Every move keeps the invariant. */
  lemma AfterKeeps(w: World, m: Move, c: Child)
    requires WorldInv(w, c) && Allowed(w, m, c)
    ensures WorldInv(After(w, m, c), c)
  {
    hide Inv, Shape, Stream, BeforeHandling, Iterate, ToChildEvents;
    StepKeepsInv(w.sys, StepOf(w.sys, m), c.output);
    match m
    case Pass(e) => PassPipes(w.sys, e, c.output);
    case Begin(stdin) =>
      PassPipes(w.sys, ToChildEvents(w.sys.driver, stdin, None), c.output);
      BeginKeeps(w, stdin, c);
    case Put(k) =>
      PassPipes(w.sys, ToChildEvents(w.sys.driver, None, Some(k)), c.output);
      PutKeeps(w, k, c);
    case Finish(e) => PassPipes(w.sys, e, c.output);
    case Fail =>
    case ChildReads => DueGrows(c, |w.sys.consumed|, |w.sys.consumed| + Readable(w.sys));
    case ChildWrites(k) =>
  }

  /** No pipe holds more than it can. */
  predicate Bounded(s: System) {
    |s.toChild| <= CAPACITY && |s.fromChild| <= CAPACITY
  }

  lemma AfterBounded(w: World, m: Move, c: Child)
    requires WorldInv(w, c) && Allowed(w, m, c) && Bounded(w.sys)
    ensures Bounded(After(w, m, c).sys)
  {
    hide Inv, Shape, Stream, BeforeHandling, Iterate, ToChildEvents;
    match m
    case Pass(e) => PassPipes(w.sys, e, c.output);
    case Begin(stdin) => BeginKeeps(w, stdin, c);
    case Put(k) => PutKeeps(w, k, c);
    case Finish(e) => PassPipes(w.sys, e, c.output);
    case Fail =>
    case ChildReads =>
    case ChildWrites(k) =>
  }

  // ----- Runs -----

  /** The moves lead from w to v. */
  ghost predicate Leads(w: World, moves: seq<Move>, v: World, c: Child)
    requires WorldInv(w, c)
    decreases |moves|
  {
    if moves == [] then v == w
    else
      && Allowed(w, moves[0], c)
      && (AfterKeeps(w, moves[0], c);
          Leads(After(w, moves[0], c), moves[1..], v, c))
  }

  /** Every run of the two processes is a run of the relay, so that all that holds in every run of it holds here. */
  lemma {:induction false} LeadsRuns(w: World, moves: seq<Move>, v: World, c: Child) returns (steps: seq<Step>)
    requires WorldInv(w, c) && Leads(w, moves, v, c)
    ensures WorldInv(v, c) && Runs(w.sys, steps, v.sys, c.output)
    ensures Bounded(w.sys) ==> Bounded(v.sys)
    decreases |moves|
  {
    hide Inv, Stream, Allowed, Next, StepOf, Due;
    if moves == [] {
      steps := [];
    } else {
      var u, step := After(w, moves[0], c), StepOf(w.sys, moves[0]);
      AfterKeeps(w, moves[0], c);
      if Bounded(w.sys) {
        AfterBounded(w, moves[0], c);
      }
      AllowedEnabled(w, moves[0], c);
      RunsOne(w.sys, step, c.output);
      var more := LeadsRuns(u, moves[1..], v, c);
      RunsConcat(w.sys, [step], u.sys, more, v.sys, c.output);
      steps := [step] + more;
    }
  }

  lemma AllowedEnabled(w: World, m: Move, c: Child)
    requires WorldInv(w, c) && Allowed(w, m, c)
    ensures Enabled(w.sys, StepOf(w.sys, m), c.output) && !w.sys.loop.aborted
  {}

  lemma {:induction false} LeadsConcat(w: World, a: seq<Move>, u: World, b: seq<Move>, v: World, c: Child)
    requires WorldInv(w, c) && WorldInv(u, c) && Leads(w, a, u, c) && Leads(u, b, v, c)
    ensures Leads(w, a + b, v, c)
    decreases |a|
  {
    hide WorldInv, Allowed, After;
    if a == [] {
      assert a + b == b;
    } else {
      assert (a + b)[0] == a[0] && (a + b)[1..] == a[1..] + b;
      AfterKeeps(w, a[0], c);
      LeadsConcat(After(w, a[0], c), a[1..], u, b, v, c);
    }
  }

  lemma LeadsOne(w: World, m: Move, c: Child)
    requires WorldInv(w, c) && Allowed(w, m, c)
    ensures WorldInv(After(w, m, c), c) && Leads(w, [m], After(w, m, c), c)
  {
    AfterKeeps(w, m, c);
    hide WorldInv, Allowed, After;
    assert [m][1..] == [];
    assert Leads(After(w, m, c), [], After(w, m, c), c);
  }

  lemma StartWorld(macs: seq<seq<byte>>, c: Child)
    requires Proper(c)
    ensures WorldInv(World(Start(macs), AtSelect), c)
  {
    StartInv(macs, c.output);
  }

  /** The moves lead from the start of the program to w. */
  ghost predicate Arrives(macs: seq<seq<byte>>, moves: seq<Move>, w: World, c: Child)
    requires Proper(c)
  {
    StartWorld(macs, c);
    Leads(World(Start(macs), AtSelect), moves, w, c)
  }

  lemma ArrivesMore(macs: seq<seq<byte>>, before: seq<Move>, w: World, moves: seq<Move>, v: World, c: Child)
    requires Proper(c) && Arrives(macs, before, w, c) && WorldInv(w, c) && Leads(w, moves, v, c)
    ensures Arrives(macs, before + moves, v, c)
  {
    hide WorldInv, Leads;
    StartWorld(macs, c);
    LeadsConcat(World(Start(macs), AtSelect), before, w, moves, v, c);
  }

  lemma {:induction false} ArrivedReaches(macs: seq<seq<byte>>, moves: seq<Move>, w: World, c: Child)
      returns (steps: seq<Step>)
    requires Proper(c) && Arrives(macs, moves, w, c)
    ensures WorldInv(w, c) && Reaches(macs, steps, w.sys, c.output)
    ensures ProperMacs(macs) && |macs| <= MAX_INTERFACES ==> Bounded(w.sys)
  {
    hide Inv, Stream, Leads, Runs, Encode;
    StartWorld(macs, c);
    StartInv(macs, c.output);
    steps := LeadsRuns(World(Start(macs), AtSelect), moves, w, c);
    if ProperMacs(macs) {
      GreetingFits(macs);
    }
  }
}

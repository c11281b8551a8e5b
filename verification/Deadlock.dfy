/** Driver and child can end up each waiting in write for the other to read: when, and for how long. */
module Deadlock {
  import opened Wire
  import opened DriverSpec
  import opened DriverInvariant
  import opened Relay
  import opened EndToEnd
  import opened Inputs
  import opened Pipes
  import opened Scenarios
  import Loop

  /** The driver and the child are both in a write that cannot end before the other side reads. */
  ghost predicate Blocked(w: World, c: Child)
    requires WorldInv(w, c)
  {
    var s, due := w.sys, Due(c, |w.sys.consumed|);
    && w.status.Writing? && |s.toChild| + |s.driver.job.left| > CAPACITY
    && s.emitted < due && |s.fromChild| + (due - s.emitted) > CAPACITY
  }

  /** The room that is left in the two pipes. */
  function Space(s: System): int {
    2 * CAPACITY - |s.toChild| - |s.fromChild|
  }

  lemma BlockedMove(w: World, m: Move, c: Child)
    requires WorldInv(w, c) && Allowed(w, m, c) && Blocked(w, c)
    ensures var v := After(w, m, c);
            && WorldInv(v, c) && Blocked(v, c) && Space(v.sys) < Space(w.sys)
            && v.sys.consumed == w.sys.consumed && v.sys.driver.log.fromChild == w.sys.driver.log.fromChild
            && v.sys.driver.log.stdin == w.sys.driver.log.stdin && v.sys.driver.log.frames == w.sys.driver.log.frames
  {
    hide Inv, Shape, Stream, BeforeHandling, Iterate, ToChildEvents;
    AfterKeeps(w, m, c);
    if m.Put? {
      PutKeeps(w, m.k, c);
    }
  }

  /**
   * A deadlock is final: in every continuation nothing is read any more, by the driver, its interfaces or the child,
   * and no more moves are left than there are free bytes in the pipes.
   */
  lemma {:induction false} BlockedForGood(w: World, moves: seq<Move>, v: World, c: Child)
    requires WorldInv(w, c) && Leads(w, moves, v, c) && Blocked(w, c) && Bounded(w.sys)
    ensures WorldInv(v, c) && Blocked(v, c) && |moves| <= Space(w.sys)
    ensures v.sys.consumed == w.sys.consumed && v.sys.driver.log.fromChild == w.sys.driver.log.fromChild
    ensures v.sys.driver.log.stdin == w.sys.driver.log.stdin && v.sys.driver.log.frames == w.sys.driver.log.frames
    decreases |moves|
  {
    hide WorldInv, Allowed, After, Blocked;
    if moves != [] {
      BlockedMove(w, moves[0], c);
      AfterBounded(w, moves[0], c);
      BlockedForGood(After(w, moves[0], c), moves[1..], v, c);
    }
  }

  // ----- What keeps it from happening -----

  /** The write to the child fits the pipe, or its message is longer than select leaves room for. */
  predicate FitsOrLong(w: World) {
    w.status.Writing? && w.sys.driver.job.Job? ==>
      var job := w.sys.driver.job;
      |w.sys.toChild| + |job.left| <= CAPACITY || job.sent + |job.left| > PIPE_BUF
  }

  lemma MoveFitsOrLong(w: World, m: Move, c: Child)
    requires WorldInv(w, c) && Allowed(w, m, c) && FitsOrLong(w)
    ensures FitsOrLong(After(w, m, c))
  {
    hide Inv, Shape, Stream, BeforeHandling, Iterate, ToChildEvents;
    AfterKeeps(w, m, c);
    if m.Put? {
      PutKeeps(w, m.k, c);
    } else if m.Begin? {
      BeginKeeps(w, m.stdin, c);
    }
  }

  lemma {:induction false} LeadsFitsOrLong(w: World, moves: seq<Move>, v: World, c: Child)
    requires WorldInv(w, c) && Leads(w, moves, v, c) && FitsOrLong(w)
    ensures FitsOrLong(v)
    decreases |moves|
  {
    hide WorldInv, Allowed, After, FitsOrLong;
    if moves != [] {
      MoveFitsOrLong(w, moves[0], c);
      AfterKeeps(w, moves[0], c);
      LeadsFitsOrLong(After(w, moves[0], c), moves[1..], v, c);
    }
  }

  /** The message being written is the last one chosen. */
  lemma JobIsChosen(s: State)
    requires Inv(s) && s.job.Job?
    ensures s.log.chosen != [] && s.job.sent + |s.job.left| == HEADER_SIZE + |s.log.chosen[|s.log.chosen| - 1].payload|
  {
    hide NothingWaits, KeepsStdin, WritesChosen, KeepsAllFrames, HoldsFrames, KeepsBounds, FromChild;
  }

  /** With short inputs, a write to the child that select allowed never has to wait for the child. */
  lemma ShortInputsNeverWait(macs: seq<seq<byte>>, moves: seq<Move>, w: World, c: Child)
    requires Proper(c) && Arrives(macs, moves, w, c) && w.status.Writing?
    requires InputsWithin(w.sys.driver.log, PIPE_BUF - HEADER_SIZE)
    ensures w.sys.driver.job.Job? && |w.sys.toChild| + |w.sys.driver.job.left| <= CAPACITY
  {
    hide Inv, Leads, InputsWithin, Stream;
    var steps := ArrivedReaches(macs, moves, w, c);
    StartWorld(macs, c);
    LeadsFitsOrLong(World(Start(macs), AtSelect), moves, w, c);
    ChosenWithin(w.sys.driver, PIPE_BUF - HEADER_SIZE);
    JobIsChosen(w.sys.driver);
  }

  /** What a caller can check: all inputs are short, or the child's whole output fits its pipe. */
  predicate Unblockable(log: Log, c: Child) {
    InputsWithin(log, PIPE_BUF - HEADER_SIZE) || |Stream(c.output)| <= CAPACITY
  }

  lemma NeverBlocked(macs: seq<seq<byte>>, moves: seq<Move>, w: World, c: Child)
    requires Proper(c) && Arrives(macs, moves, w, c) && Unblockable(w.sys.driver.log, c)
    ensures WorldInv(w, c) && !Blocked(w, c)
  {
    hide Inv, Arrives, InputsWithin, Stream;
    var steps := ArrivedReaches(macs, moves, w, c);
    if InputsWithin(w.sys.driver.log, PIPE_BUF - HEADER_SIZE) {
      if w.status.Writing? {
        ShortInputsNeverWait(macs, moves, w, c);
      }
    } else {
      DueGrows(c, |w.sys.consumed|, |w.sys.consumed|);
    }
  }

  // ----- The deadlock happens -----

  function Line(n: nat): (x: seq<byte>)
    requires n > 0
    ensures |x| == n && IsLine(x)
  {
    seq<byte>(n - 1, i => 65) + [NEWLINE]
  }

  function Lines(k: nat): seq<seq<byte>> {
    seq(k, i => Line(PIPE_BUF - HEADER_SIZE))
  }

  /** While the child does not read, k lines fill as many units of the pipe. */
  lemma {:induction false} Fill(w: World, k: nat, c: Child) returns (moves: seq<Move>, v: World)
    requires WorldInv(w, c) && Idle(w) && |w.sys.toChild| + k * PIPE_BUF <= CAPACITY
    ensures WorldInv(v, c) && Leads(w, moves, v, c) && Idle(v) && SameChild(w.sys, v.sys)
    ensures |v.sys.toChild| == |w.sys.toChild| + k * PIPE_BUF
    ensures v.sys.driver.log.stdin == w.sys.driver.log.stdin + Concat(Lines(k))
    decreases k
  {
    hide WorldInv, Idle, Allowed, After, Line;
    var was := w.sys.driver.log.stdin;
    if k == 0 {
      moves, v := [], w;
      assert was + [] == was;
    } else {
      var line := Line(PIPE_BUF - HEADER_SIZE);
      var a, u := LineIsWritten(w, line, c);
      var b;
      b, v := Fill(u, k - 1, c);
      LeadsConcat(w, a, u, b, v, c);
      moves := a + b;
      assert Lines(k)[0] == line && Lines(k)[1..] == Lines(k - 1);
      ConcatAssociative(was, line, Concat(Lines(k - 1)));
    }
  }

  function Text(n: nat): Message {
    Message(0, seq<byte>(n, i => 65))
  }

  /** A child that prints one byte more than a pipe holds as soon as it knows its interfaces. */
  const TEXTS := [Text(32764), Text(32765)]
  const TALKER := Child(TEXTS, n => if n == 0 then 0 else 2)

  lemma TalkerIsProper(n: nat)
    requires n > 0
    ensures Proper(TALKER) && Due(TALKER, n) == |Stream(TALKER.output)| == CAPACITY + 1
  {
    assert Answers(TALKER, n) == TEXTS;
    assert TEXTS[1..] == [Text(32765)] && [Text(32765)][1..] == [];
    assert Stream(TEXTS) == Encode(Text(32764)) + (Encode(Text(32765)) + []);
  }

  /** Fifteen lines of 4092 bytes and one of 4093, typed before the child writes, block both processes. */
  lemma {:induction false} LinesBlock(macs: seq<seq<byte>>) returns (moves: seq<Move>, w: World)
    requires ProperMacs(macs) && |macs| <= MAX_INTERFACES
    ensures Proper(TALKER) && WorldInv(w, TALKER) && Arrives(macs, moves, w, TALKER) && Blocked(w, TALKER)
    ensures w.sys.driver.log.stdin == Concat(Lines(15)) + Line(PIPE_BUF - HEADER_SIZE + 1)
    ensures w.sys.driver.log.frames == Start(macs).driver.log.frames
  {
    hide WorldInv, Blocked, Idle, Arrives, Leads, Line, Lines, Concat, Encode, Proper;
    TalkerIsProper(|Encode(Greeting(macs))|);
    var u := GreetingIsRead(macs, TALKER);
    var a, v := Fill(u, 15, TALKER);
    var b;
    b, w := LineIsBegun(v, Line(PIPE_BUF - HEADER_SIZE + 1), TALKER);
    TalkerBlocks(w);
    ArrivesMore(macs, [ChildReads], u, a, v, TALKER);
    ArrivesMore(macs, [ChildReads] + a, v, b, w, TALKER);
    moves := [ChildReads] + a + b;
    assert [] + Concat(Lines(15)) == Concat(Lines(15));
  }

  lemma TalkerBlocks(w: World)
    requires WorldInv(w, TALKER) && w.status.Writing? && |w.sys.consumed| > 0 && w.sys.emitted == 0
    requires |w.sys.toChild| + |w.sys.driver.job.left| > CAPACITY
    ensures Blocked(w, TALKER)
  {
    hide Inv, Stream;
    TalkerIsProper(|w.sys.consumed|);
  }

  /** Some inputs of at most max bytes per frame and line, and some child with at most size bytes of output, block. */
  ghost predicate CanBlock(macs: seq<seq<byte>>, max: nat, size: nat) {
    exists c: Child, moves: seq<Move>, w: World ::
      && Proper(c) && WorldInv(w, c) && Arrives(macs, moves, w, c) && Blocked(w, c)
      && InputsWithin(w.sys.driver.log, max) && |Stream(c.output)| <= size
  }

  /**
   * Exactly when driver and child can block each other: a message can be longer than the room that makes select
   * report the pipe, and the child's output can be longer than its pipe.
   */
  lemma BlocksIff(macs: seq<seq<byte>>, max: nat, size: nat)
    requires ProperMacs(macs) && |macs| <= MAX_INTERFACES
    ensures CanBlock(macs, max, size) <==> HEADER_SIZE + max > PIPE_BUF && size > CAPACITY
  {
    hide WorldInv, Arrives, Blocked, InputsWithin, Proper, Stream;
    if CanBlock(macs, max, size) {
      var c: Child, moves: seq<Move>, w: World :|
        && Proper(c) && WorldInv(w, c) && Arrives(macs, moves, w, c) && Blocked(w, c)
        && InputsWithin(w.sys.driver.log, max) && |Stream(c.output)| <= size;
      if HEADER_SIZE + max <= PIPE_BUF {
        WithinMore(w.sys.driver.log, max, PIPE_BUF - HEADER_SIZE);
        NeverBlocked(macs, moves, w, c);
      } else if size <= CAPACITY {
        NeverBlocked(macs, moves, w, c);
      }
    }
    if HEADER_SIZE + max > PIPE_BUF && size > CAPACITY {
      var moves, w := LinesBlock(macs);
      LinesWithin(macs, w.sys.driver.log, max);
      TalkerIsProper(1);
      assert CanBlock(macs, max, size);
    }
  }

  lemma WithinMore(log: Log, max: nat, more: nat)
    requires InputsWithin(log, max) && max <= more
    ensures InputsWithin(log, more)
  {
    hide LinesOf;
  }

  lemma LinesWithin(macs: seq<seq<byte>>, log: Log, max: nat)
    requires log.stdin == Concat(Lines(15)) + Line(PIPE_BUF - HEADER_SIZE + 1)
    requires log.frames == Start(macs).driver.log.frames && HEADER_SIZE + max > PIPE_BUF
    ensures InputsWithin(log, max)
  {
    hide LinesOf, Concat, Line;
    var last := Line(PIPE_BUF - HEADER_SIZE + 1);
    LinesOfConcat(Lines(15), last);
    LinesOfLine(last, []);
    NoLine([]);
    assert last + [] == last && [last] + [] == [last];
  }
}

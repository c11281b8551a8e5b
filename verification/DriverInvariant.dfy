/** What every iteration of the driver's event loop keeps. */
module DriverInvariant {
  import opened Wire
  import opened DriverSpec

  // ----- Towards the child -----

  /** The chosen messages that were written to the child completely. */
  function Completed(s: State): seq<Message> {
    if s.job.Job? && s.log.chosen != [] then s.log.chosen[..|s.log.chosen| - 1] else s.log.chosen
  }

  function Left(job: Job): seq<byte> {
    if job.NoJob? then [] else job.left
  }

  /** What is being written is the last chosen message, and it still sits at the front of its source's buffer. */
  predicate CurrentIsLast(s: State)
    requires Shape(s)
  {
    s.job.Job? ==>
      && s.log.chosen != []
      && var m := s.log.chosen[|s.log.chosen| - 1];
         match s.job.source
         case CommandLine =>
           m.kind == 0 && s.job.sent + |s.job.left| == |Encode(m)| && m.payload == s.cmd[..|m.payload|]
         case Port(i) => m.kind == i + 1 && s.ports[i] == Encode(m)
  }

  /** Written bytes and the remainder of the current message are the greeting and all chosen messages. */
  predicate WritesChosen(s: State) {
    s.log.toChild + Left(s.job) == Encode(s.log.greeting) + Stream(s.log.chosen)
  }

  predicate IsLine(b: seq<byte>) {
    b != [] && b[|b| - 1] == NEWLINE && NEWLINE !in b[..|b| - 1]
  }

  predicate KeepsLines(ms: seq<Message>) {
    forall m | m in ms && m.kind == 0 :: IsLine(m.payload)
  }

  /** Every control payload is one line, and those written followed by the buffer are all of standard input. */
  predicate KeepsStdin(s: State) {
    && KeepsLines(s.log.chosen)
    && s.log.stdin == Concat(Payloads(Completed(s), 0)) + s.cmd
  }

  function Held(port: seq<byte>): seq<seq<byte>> {
    if |port| <= HEADER_SIZE then [] else [port[HEADER_SIZE..]]
  }

  /** The frames of interface i that were written followed by the buffered one are all frames received there. */
  predicate KeepsFrames(s: State, i: nat)
    requires Shape(s) && i < |s.ports|
  {
    s.log.frames[i] == Payloads(Completed(s), i + 1) + Held(s.ports[i])
  }

  predicate KeepsAllFrames(s: State)
    requires Shape(s)
  {
    forall i | 0 <= i < |s.ports| :: KeepsFrames(s, i)
  }

  /** An interface buffer holds nothing or one encoded frame of that interface. */
  predicate HoldsFrames(ports: seq<seq<byte>>) {
    forall i | 0 <= i < |ports| && |ports[i]| > HEADER_SIZE ::
      ports[i] == Encode(Message(i + 1, ports[i][HEADER_SIZE..]))
  }

  /** Chosen messages have a payload that came out of one buffer, and a kind that names one of the sources. */
  predicate KeepsBounds(s: State) {
    forall m | m in s.log.chosen :: 0 < |m.payload| <= MAX_SIZE && m.kind <= |s.ports|
  }

  predicate ToChild(s: State) {
    && Shape(s) && CurrentIsLast(s) && WritesChosen(s) && KeepsStdin(s) && KeepsAllFrames(s)
    && HoldsFrames(s.ports) && KeepsBounds(s)
  }

  // ----- From the child -----

  /** The part of the message in progress that interface i has already been sent. */
  function Begun(s: State, i: nat): seq<byte>
    requires Shape(s)
  {
    if s.out.Out? && s.out.port == i then s.bufin[HEADER_SIZE..s.out.off] else []
  }

  /** The bytes sent on interface i are the payloads addressed to it, in order. */
  predicate SendsPayloads(s: State, i: nat)
    requires Shape(s) && i < |s.ports|
  {
    s.log.sent[i] == Concat(Payloads(s.log.handled, i + 1)) + Begun(s, i)
  }

  predicate FromChild(s: State) {
    && Shape(s)
    && s.log.fromChild == Stream(s.log.handled) + s.bufin
    && s.log.printed == Concat(Shown(Payloads(s.log.handled, 0)))
    && AllFit(s.log.handled)
    && (s.out.Out? ==> SizeField(s.bufin) == s.out.off + s.out.left && TypeField(s.bufin) == s.out.port + 1)
    && (forall i | 0 <= i < |s.ports| :: SendsPayloads(s, i))
  }

  /** Both directions together. */
  predicate Keeps(s: State) {
    ToChild(s) && FromChild(s)
  }

  // ----- Nothing lies idle -----

  /** At every select: nothing waits for a free child, and bufin holds no message that could be passed on. */
  predicate NothingWaits(s: State) {
    && (s.running && s.job.NoJob? ==> LineEnd(s.cmd) == |s.cmd| && forall i | 0 <= i < |s.ports| :: s.ports[i] == [])
    && (s.running && s.out.NoOut? ==> !HasMessage(s.bufin))
  }

  predicate Inv(s: State) {
    Shape(s) && Keeps(s) && NothingWaits(s)
  }

  lemma InitialInv(greeting: Message, n: nat)
    ensures Inv(Initial(greeting, n))
  {}

  // ----- Each section keeps the part towards the child -----

  lemma FramesUnchanged(s: State, t: State)
    requires Shape(s) && Shape(t) && KeepsAllFrames(s)
    requires t.ports == s.ports && t.log.frames == s.log.frames && Completed(t) == Completed(s)
    ensures KeepsAllFrames(t)
  {
    forall i | 0 <= i < |t.ports| ensures KeepsFrames(t, i) {
      assert KeepsFrames(s, i);
    }
  }

  lemma ReadStdinStdin(s: State, r: Option<seq<byte>>)
    requires Shape(s) && KeepsStdin(s)
    ensures KeepsStdin(ReadStdin(s, r))
  {
    hide Payloads, Concat;
    if r.Some? {
      var data := Take(r.value, MAX_SIZE - HEADER_SIZE - (HEADER_SIZE + |s.cmd|));
      ConcatAssociative(Concat(Payloads(Completed(s), 0)), s.cmd, data);
    }
  }

  lemma ReadStdinCurrent(s: State, r: Option<seq<byte>>)
    requires Shape(s) && CurrentIsLast(s)
    ensures CurrentIsLast(ReadStdin(s, r))
  {
    hide Encode;
    if r.Some? && s.job.Job? {
      var data := Take(r.value, MAX_SIZE - HEADER_SIZE - (HEADER_SIZE + |s.cmd|));
      PrefixOfAppend(s.log.chosen[|s.log.chosen| - 1].payload, s.cmd, data);
    }
  }

  lemma ReadStdinToChild(s: State, r: Option<seq<byte>>)
    requires ToChild(s)
    ensures ToChild(ReadStdin(s, r))
  {
    hide KeepsStdin, CurrentIsLast, KeepsAllFrames, Stream, Encode;
    ReadStdinStdin(s, r);
    ReadStdinCurrent(s, r);
    FramesUnchanged(s, ReadStdin(s, r));
  }

  lemma PrefixOfAppend(p: seq<byte>, a: seq<byte>, b: seq<byte>)
    ensures |p| <= |a| ==> (a + b)[..|p|] == a[..|p|]
  {}

  /** The line that was written moves from the buffer to the written payloads. */
  lemma LineWritten(done: seq<Message>, m: Message, cmd: seq<byte>)
    requires m.kind == 0 && m.payload <= cmd
    ensures Concat(Payloads(done, 0)) + cmd == Concat(Payloads(done + [m], 0)) + cmd[|m.payload|..]
  {
    PayloadsAppend(done, m, 0);
    ConcatAppend(Payloads(done, 0), m.payload);
    ConcatAssociative(Concat(Payloads(done, 0)), m.payload, cmd[|m.payload|..]);
    assert m.payload + cmd[|m.payload|..] == cmd;
  }

  /** The same for a frame of interface i, and nothing changes for other interfaces. */
  lemma FrameWritten(done: seq<Message>, m: Message, kind: nat)
    ensures m.kind != kind ==> Payloads(done + [m], kind) == Payloads(done, kind)
    ensures m.kind == kind ==> Payloads(done + [m], kind) == Payloads(done, kind) + [m.payload]
  {
    PayloadsAppend(done, m, kind);
  }

  lemma FinishJobStdin(s: State)
    requires Shape(s) && s.job.Job? && CurrentIsLast(s) && KeepsStdin(s)
    ensures KeepsStdin(FinishJob(s))
  {
    hide Payloads, Concat;
    var done, m := Completed(s), s.log.chosen[|s.log.chosen| - 1];
    assert s.log.chosen == done + [m];
    if s.job.source.CommandLine? {
      LineWritten(done, m, s.cmd);
    } else {
      FrameWritten(done, m, 0);
    }
  }

  lemma FinishJobFrames(s: State)
    requires Shape(s) && s.job.Job? && CurrentIsLast(s) && KeepsAllFrames(s)
    ensures KeepsAllFrames(FinishJob(s))
  {
    hide Payloads;
    var done, m, t := Completed(s), s.log.chosen[|s.log.chosen| - 1], FinishJob(s);
    assert s.log.chosen == done + [m];
    forall i | 0 <= i < |t.ports| ensures KeepsFrames(t, i) {
      FrameWritten(done, m, i + 1);
      assert KeepsFrames(s, i);
      if s.job.source == Port(i) {
        HeldPayload(m);
      }
    }
  }

  /** Completing a job moves the current message, and nothing else, out of its buffer. */
  lemma FinishJobToChild(s: State)
    requires ToChild(s) && s.job.Job?
    ensures var t := FinishJob(s);
            CurrentIsLast(t) && KeepsStdin(t) && KeepsAllFrames(t) && HoldsFrames(t.ports)
  {
    FinishJobStdin(s);
    FinishJobFrames(s);
  }

  lemma HeldPayload(m: Message)
    requires m.payload != []
    ensures Held(Encode(m)) == [m.payload]
  {}

  lemma WritesChosenAfter(s: State, t: State, data: seq<byte>, later: seq<byte>)
    requires WritesChosen(s) && Left(s.job) == data + later && Left(t.job) == later
    requires t.log.toChild == s.log.toChild + data
    requires t.log.chosen == s.log.chosen && t.log.greeting == s.log.greeting
    ensures WritesChosen(t)
  {
    ConcatAssociative(s.log.toChild, data, later);
  }

  lemma AdvanceJobToChild(s: State, k: nat)
    requires ToChild(s) && s.job.Job? && k < |s.job.left|
    ensures ToChild(LogWrite(AdvanceJob(s, k), s.job.left[..k]))
  {
    hide Payloads, Concat, Shown, Stream, Encode;
    var t := LogWrite(AdvanceJob(s, k), s.job.left[..k]);
    assert s.job.left == s.job.left[..k] + s.job.left[k..];
    WritesChosenAfter(s, t, s.job.left[..k], s.job.left[k..]);
    FramesUnchanged(s, t);
  }

  lemma FinishedToChild(s: State)
    requires ToChild(s) && s.job.Job?
    ensures ToChild(LogWrite(FinishJob(s), s.job.left))
  {
    var t := LogWrite(FinishJob(s), s.job.left);
    FinishJobToChild(s);
    FramesUnchanged(FinishJob(s), t);
    hide Payloads, Concat, Stream, Encode, KeepsAllFrames;
    assert s.job.left == s.job.left + [];
    WritesChosenAfter(s, t, s.job.left, []);
  }

  lemma WriteChildToChild(s: State, r: Option<int>)
    requires ToChild(s)
    ensures ToChild(WriteChild(s, r))
  {
    hide ToChild;
    if s.running && r.Some? && s.job.Job? {
      if r.value <= 0 {
        StopToChild(s);
      } else if r.value < |s.job.left| {
        AdvanceJobToChild(s, r.value);
      } else {
        FinishedToChild(s);
        assert Take(s.job.left, r.value) == s.job.left;
      }
    }
  }

  lemma StopToChild(s: State)
    requires ToChild(s)
    ensures ToChild(Stop(s))
  {
    FramesUnchanged(s, Stop(s));
  }

  /** Choosing message m, whose bytes become what is left to be written. */
  lemma ChooseWrites(s: State, t: State, m: Message)
    requires WritesChosen(s) && s.job.NoJob?
    requires t.log == s.log.(chosen := s.log.chosen + [m]) && t.job.Job? && t.job.left == Encode(m)
    ensures WritesChosen(t)
    ensures Completed(t) == Completed(s)
  {
    StreamAppend(s.log.chosen, m);
    assert s.log.toChild + [] == s.log.toChild;
    ConcatAssociative(Encode(s.log.greeting), Stream(s.log.chosen), Encode(m));
    assert t.log.chosen[..|s.log.chosen|] == s.log.chosen;
  }

  lemma FirstLineIsLine(b: seq<byte>)
    requires LineEnd(b) < |b|
    ensures IsLine(b[..LineEnd(b) + 1])
  {
    var n := LineEnd(b);
    assert b[..n + 1][..n] == b[..n];
  }

  lemma SelectLineToChild(s: State)
    requires ToChild(s)
    ensures ToChild(SelectLine(s))
  {
    hide Payloads, Concat, Shown, Stream, Encode;
    var t, n := SelectLine(s), LineEnd(s.cmd);
    if s.running && s.job.NoJob? && n < |s.cmd| {
      var m := Message(0, s.cmd[..n + 1]);
      FirstLineIsLine(s.cmd);
      assert KeepsLines(t.log.chosen);
      ChooseWrites(s, t, m);
      assert KeepsStdin(t);
      assert CurrentIsLast(t);
      FramesUnchanged(s, t);
    }
  }

  /** The sections that only deal with the child's output. */
  lemma OtherDirectionToChild(s: State, t: State)
    requires ToChild(s) && Shape(t)
    requires t.ports == s.ports && t.cmd == s.cmd && t.job == s.job
    requires t.log.greeting == s.log.greeting && t.log.chosen == s.log.chosen && t.log.toChild == s.log.toChild
    requires t.log.stdin == s.log.stdin && t.log.frames == s.log.frames
    ensures ToChild(t)
  {
    FramesUnchanged(s, t);
  }

  lemma ReceiveFrameFrames(s: State, i: nat, r: PortEvent)
    requires Shape(s) && i < |s.ports| && KeepsAllFrames(s)
    requires r.Received? && 0 < |r.frame| <= MAX_SIZE && s.ports[i] == []
    ensures KeepsAllFrames(ReceiveFrame(s, i, r))
  {
    hide Encode, Payloads;
    var t := ReceiveFrame(s, i, r);
    HeldPayload(Message(i + 1, r.frame));
    forall k | 0 <= k < |t.ports| ensures KeepsFrames(t, k) {
      assert KeepsFrames(s, k);
    }
  }

  lemma ReceiveFrameToChild(s: State, i: nat, r: PortEvent)
    requires ToChild(s) && i < |s.ports|
    requires r.Received? ==> 0 < |r.frame| <= MAX_SIZE
    ensures ToChild(ReceiveFrame(s, i, r))
  {
    hide Encode, Payloads, KeepsAllFrames, HoldsFrames;
    if r.Received? && s.ports[i] == [] {
      ReceiveFrameFrames(s, i, r);
      StoreHoldsFrames(s.ports, Message(i + 1, r.frame));
    } else {
      FramesUnchanged(s, ReceiveFrame(s, i, r));
    }
  }

  lemma StoreHoldsFrames(ports: seq<seq<byte>>, m: Message)
    requires HoldsFrames(ports) && 0 < m.kind <= |ports|
    ensures HoldsFrames(ports[m.kind - 1 := Encode(m)])
  {
    assert Encode(m)[HEADER_SIZE..] == m.payload;
  }

  lemma SelectPortToChild(s: State, i: nat)
    requires ToChild(s) && i < |s.ports|
    ensures ToChild(SelectPort(s, i))
  {
    var t := SelectPort(s, i);
    if s.running && s.job.NoJob? && s.ports[i] != [] {
      assert KeepsFrames(s, i);
      var m := Message(i + 1, s.ports[i][HEADER_SIZE..]);
      ChooseWrites(s, t, m);
      FramesUnchanged(s, t);
    }
  }

  // ----- Each section keeps the part from the child -----

  /** The sections that do not touch what came from the child. */
  lemma OtherDirectionFromChild(s: State, t: State)
    requires FromChild(s) && Shape(t) && |t.ports| == |s.ports|
    requires t.bufin == s.bufin && t.out == s.out
    requires t.log.fromChild == s.log.fromChild && t.log.handled == s.log.handled
    requires t.log.printed == s.log.printed && t.log.sent == s.log.sent
    ensures FromChild(t)
  {
    forall i | 0 <= i < |t.ports| ensures SendsPayloads(t, i) {
      assert SendsPayloads(s, i);
    }
  }

  /** Payloads of one kind, concatenated, after one more message. */
  lemma TextHandled(handled: seq<Message>, m: Message, kind: nat)
    ensures Concat(Payloads(handled + [m], kind))
         == Concat(Payloads(handled, kind)) + (if m.kind == kind then m.payload else [])
  {
    PayloadsAppend(handled, m, kind);
    ConcatAppend(Payloads(handled, kind), m.payload);
    if m.kind != kind {
      assert Payloads(handled, kind) + [] == Payloads(handled, kind);
    }
  }

  /** The text printed after one more message. */
  lemma TextShown(handled: seq<Message>, m: Message)
    ensures Concat(Shown(Payloads(handled + [m], 0)))
         == Concat(Shown(Payloads(handled, 0))) + (if m.kind == 0 then UntilZero(m.payload) else [])
  {
    hide UntilZero, Concat, Payloads;
    var before := Payloads(handled, 0);
    PayloadsAppend(handled, m, 0);
    ConcatAppend(Shown(before), UntilZero(m.payload));
    if m.kind == 0 {
      assert Shown(before + [m.payload]) == Shown(before) + [UntilZero(m.payload)];
    } else {
      assert before + [] == before;
    }
  }

  lemma SendPartFromChild(s: State, k: nat)
    requires FromChild(s) && s.running && s.out.Out? && 0 < k < s.out.left
    ensures FromChild(SendPort(s, Some(k)))
  {
    hide Payloads, Concat, Shown, Stream, Encode;
    var t := SendPort(s, Some(k));
    var off := s.out.off;
    forall i | 0 <= i < |t.ports| ensures SendsPayloads(t, i) {
      assert SendsPayloads(s, i);
      if i == s.out.port {
        assert s.bufin[HEADER_SIZE..off] + s.bufin[off..off + k] == s.bufin[HEADER_SIZE..off + k];
        ConcatAssociative(Concat(Payloads(s.log.handled, i + 1)), s.bufin[HEADER_SIZE..off], s.bufin[off..off + k]);
      }
    }
  }

  lemma SendRestFromChild(s: State, k: int)
    requires FromChild(s) && s.running && s.out.Out? && k >= s.out.left
    ensures FromChild(SendPort(s, Some(k)))
  {
    hide Payloads, Concat, Shown, Stream, Encode;
    var t := SendPort(s, Some(k));
    var Out(port, off, left) := s.out;
    var m := Message(port + 1, s.bufin[HEADER_SIZE..off + left]);
    TakeFromStream(s.log.handled, s.bufin);
    TextShown(s.log.handled, m);
    forall i | 0 <= i < |t.ports| ensures SendsPayloads(t, i) {
      assert SendsPayloads(s, i);
      TextHandled(s.log.handled, m, i + 1);
      if i == port {
        assert s.bufin[HEADER_SIZE..off] + s.bufin[off..off + left] == m.payload;
        ConcatAssociative(Concat(Payloads(s.log.handled, i + 1)), s.bufin[HEADER_SIZE..off], s.bufin[off..off + left]);
      }
    }
  }

  lemma SendPortFromChild(s: State, r: Option<int>)
    requires FromChild(s)
    ensures FromChild(SendPort(s, r))
  {
    if !s.running || r.None? || s.out.NoOut? || r.value <= 0 {
      OtherDirectionFromChild(s, SendPort(s, r));
    } else if r.value < s.out.left {
      SendPartFromChild(s, r.value);
    } else {
      SendRestFromChild(s, r.value);
    }
  }

  lemma ReadChildFromChild(s: State, r: Option<seq<byte>>)
    requires FromChild(s)
    ensures FromChild(ReadChild(s, r))
  {
    hide Payloads, Concat, Shown, Stream, Encode;
    var t := ReadChild(s, r);
    if s.running && r.Some? {
      var data := Take(r.value, MAX_SIZE - |s.bufin|);
      ConcatAssociative(Stream(s.log.handled), s.bufin, data);
    }
    forall i | 0 <= i < |t.ports| ensures SendsPayloads(t, i) {
      assert SendsPayloads(s, i);
      assert s.out.Out? ==> t.bufin[HEADER_SIZE..s.out.off] == s.bufin[HEADER_SIZE..s.out.off];
    }
  }

  lemma PrintTextFromChild(s: State)
    requires FromChild(s) && s.out.NoOut? && HasMessage(s.bufin) && SizeField(s.bufin) >= HEADER_SIZE
    requires TypeField(s.bufin) == 0
    ensures FromChild(PrintText(s))
  {
    hide Payloads, Concat, Shown, Stream, Encode;
    var t, m := PrintText(s), First(s.bufin);
    TakeFromStream(s.log.handled, s.bufin);
    TextShown(s.log.handled, m);
    forall i | 0 <= i < |t.ports| ensures SendsPayloads(t, i) {
      assert SendsPayloads(s, i);
      TextHandled(s.log.handled, m, i + 1);
    }
  }

  lemma BeginOutFromChild(s: State, port: nat)
    requires FromChild(s) && s.out.NoOut? && HasMessage(s.bufin) && SizeField(s.bufin) > HEADER_SIZE
    requires TypeField(s.bufin) == port + 1 && port < |s.ports|
    ensures FromChild(s.(out := Out(port, HEADER_SIZE, SizeField(s.bufin) - HEADER_SIZE)))
  {
    var t := s.(out := Out(port, HEADER_SIZE, SizeField(s.bufin) - HEADER_SIZE));
    forall i | 0 <= i < |t.ports| ensures SendsPayloads(t, i) {
      assert SendsPayloads(s, i);
    }
  }

  lemma PrintTextKeeps(s: State)
    requires Keeps(s) && s.out.NoOut? && HasMessage(s.bufin) && SizeField(s.bufin) >= HEADER_SIZE
    requires TypeField(s.bufin) == 0
    ensures Keeps(PrintText(s))
  {
    PrintTextFromChild(s);
    OtherDirectionToChild(s, PrintText(s));
  }

  lemma StopKeeps(s: State)
    requires Keeps(s)
    ensures Keeps(Stop(s))
  {
    OtherDirectionToChild(s, Stop(s));
    OtherDirectionFromChild(s, Stop(s));
  }

  lemma BeginOutKeeps(s: State, port: nat)
    requires Keeps(s) && s.out.NoOut? && HasMessage(s.bufin) && SizeField(s.bufin) > HEADER_SIZE
    requires TypeField(s.bufin) == port + 1 && port < |s.ports|
    ensures Keeps(s.(out := Out(port, HEADER_SIZE, SizeField(s.bufin) - HEADER_SIZE)))
  {
    BeginOutFromChild(s, port);
    OtherDirectionToChild(s, s.(out := Out(port, HEADER_SIZE, SizeField(s.bufin) - HEADER_SIZE)));
  }

  lemma {:induction false} HandleChildKeeps(s: State)
    requires Shape(s) && Keeps(s) && WellFormedBytes(s.bufin)
    ensures Keeps(HandleChild(s))
    decreases |s.bufin|
  {
    hide Keeps;
    if s.running && s.out.NoOut? && HasMessage(s.bufin) {
      var m := First(s.bufin);
      if m.kind == 0 {
        PrintTextKeeps(s);
        HandleChildKeeps(PrintText(s));
      } else if m.kind > |s.ports| {
        StopKeeps(s);
      } else {
        BeginOutKeeps(s, m.kind - 1);
      }
    }
  }

  // ----- One iteration -----

  lemma ReadStdinKeeps(s: State, r: Option<seq<byte>>)
    requires Keeps(s)
    ensures Keeps(ReadStdin(s, r))
  {
    hide ToChild;
    ReadStdinToChild(s, r);
    OtherDirectionFromChild(s, ReadStdin(s, r));
  }

  lemma WriteChildKeeps(s: State, r: Option<int>)
    requires Keeps(s)
    ensures Keeps(WriteChild(s, r))
  {
    hide ToChild;
    WriteChildToChild(s, r);
    OtherDirectionFromChild(s, WriteChild(s, r));
  }

  lemma SendPortKeeps(s: State, r: Option<int>)
    requires Keeps(s)
    ensures Keeps(SendPort(s, r))
  {
    hide FromChild;
    SendPortFromChild(s, r);
    OtherDirectionToChild(s, SendPort(s, r));
  }

  lemma SelectLineKeeps(s: State)
    requires Keeps(s)
    ensures Keeps(SelectLine(s))
  {
    SelectLineToChild(s);
    OtherDirectionFromChild(s, SelectLine(s));
  }

  lemma ReadChildKeeps(s: State, r: Option<seq<byte>>)
    requires Keeps(s)
    ensures Keeps(ReadChild(s, r))
  {
    ReadChildFromChild(s, r);
    OtherDirectionToChild(s, ReadChild(s, r));
  }

  lemma BeforeHandlingKeeps(s: State, e: Events)
    requires Shape(s) && Keeps(s)
    ensures Keeps(BeforeHandling(s, e))
  {
    hide Keeps, ReadStdin, WriteChild, SendPort, SelectLine, ReadChild;
    ReadStdinKeeps(s, e.stdin);
    var a := ReadStdin(s, e.stdin);
    WriteChildKeeps(a, e.toChild);
    var b := WriteChild(a, e.toChild);
    SendPortKeeps(b, e.toPort);
    var c := SendPort(b, e.toPort);
    SelectLineKeeps(c);
    ReadChildKeeps(SelectLine(c), e.fromChild);
  }

  lemma ServePortKeeps(s: State, i: nat, r: PortEvent)
    requires Shape(s) && Keeps(s) && i < |s.ports|
    requires r.Received? ==> 0 < |r.frame| <= MAX_SIZE
    ensures Keeps(ServePort(s, i, r))
  {
    hide ToChild, FromChild;
    if s.running {
      ReceiveFrameToChild(s, i, r);
      SelectPortToChild(ReceiveFrame(s, i, r), i);
    }
    OtherDirectionFromChild(s, ServePort(s, i, r));
  }

  lemma {:induction false} ServePortsKeeps(s: State, i: nat, rs: seq<PortEvent>)
    requires Shape(s) && Keeps(s) && i <= |s.ports| == |rs|
    requires forall k | 0 <= k < |rs| :: rs[k].Received? ==> 0 < |rs[k].frame| <= MAX_SIZE
    ensures Keeps(ServePorts(s, i, rs))
    decreases |s.ports| - i
  {
    hide Keeps, ServePort, Shape;
    if i < |s.ports| {
      ServePortKeeps(s, i, rs[i]);
      ServePortsKeeps(ServePort(s, i, rs[i]), i + 1, rs);
    }
  }

  /** Serving the interfaces leaves the child's side alone, and a free child means that all of them are empty. */
  lemma {:induction false} ServePortsServes(s: State, i: nat, rs: seq<PortEvent>)
    requires Shape(s) && i <= |s.ports| == |rs|
    requires forall k | 0 <= k < |rs| :: rs[k].Received? ==> 0 < |rs[k].frame| <= MAX_SIZE
    requires s.running && s.job.NoJob? ==> forall k | 0 <= k < i :: s.ports[k] == []
    ensures var t := ServePorts(s, i, rs);
            && t.out == s.out && t.bufin == s.bufin && t.cmd == s.cmd
            && (t.running ==> s.running)
            && (t.job.NoJob? ==> s.job.NoJob?)
            && (t.running && t.job.NoJob? ==> forall k | 0 <= k < |t.ports| :: t.ports[k] == [])
    decreases |s.ports| - i
  {
    hide Shape, ServePort;
    if i < |s.ports| {
      ServePortServes(s, i, rs[i]);
      ServePortsServes(ServePort(s, i, rs[i]), i + 1, rs);
    }
  }

  lemma ServePortServes(s: State, i: nat, r: PortEvent)
    requires Shape(s) && i < |s.ports|
    requires r.Received? ==> 0 < |r.frame| <= MAX_SIZE
    ensures var t := ServePort(s, i, r);
            && t.out == s.out && t.bufin == s.bufin && t.cmd == s.cmd
            && (t.running ==> s.running)
            && (t.job.NoJob? ==> s.job.NoJob?)
            && (t.running && t.job.NoJob? ==> t.ports[i] == [])
            && (forall k | 0 <= k < |s.ports| && k != i :: t.ports[k] == s.ports[k])
  {}

  /** A child that is still free after the first sections leaves no complete line behind. */
  lemma BeforeHandlingServes(s: State, e: Events)
    requires Shape(s)
    ensures var t := BeforeHandling(s, e);
            t.running && t.job.NoJob? ==> LineEnd(t.cmd) == |t.cmd|
  {
    hide ReadStdin, WriteChild, SendPort, LineEnd;
  }

  /** Every iteration, whatever its system calls report, keeps the invariant. */
  lemma IterateKeepsInv(s: State, e: Events)
    requires Inv(s) && Possible(s, e)
    requires WellFormedBytes(BeforeHandling(s, e).bufin)
    ensures Inv(Iterate(s, e))
  {
    hide Keeps, Shape, BeforeHandling, HandleChild, ServePorts, LineEnd;
    var b := BeforeHandling(s, e);
    BeforeHandlingKeeps(s, e);
    HandleChildPorts(b);
    HandleChildKeeps(b);
    var h := HandleChild(b);
    ServePortsKeeps(h, 0, e.ports);
    ServePortsServes(h, 0, e.ports);
    BeforeHandlingServes(s, e);
  }
}

/** The log of the driver records exactly what its system calls reported, and the driver stops only for cause. */
module DriverLog {
  import opened Wire
  import opened DriverSpec
  import opened DriverInvariant
  import opened Relay

  /** No system call fails or reports an end of file. */
  predicate Succeeds(e: Events) {
    && (e.stdin.Some? ==> e.stdin.value != [])
    && (e.toChild.Some? ==> e.toChild.value > 0)
    && (e.toPort.Some? ==> e.toPort.value > 0)
    && (e.fromChild.Some? ==> e.fromChild.value != [])
    && (forall i | 0 <= i < |e.ports| :: !e.ports[i].Failed?)
  }

  /** The message that follows the text in front of b, if it is complete, is for one of n interfaces. */
  predicate WellAddressed(b: seq<byte>, n: nat)
    decreases |b|
  {
    HasMessage(b) && SizeField(b) >= HEADER_SIZE ==>
      if TypeField(b) == 0 then WellAddressed(b[SizeField(b)..], n) else TypeField(b) <= n
  }

  // ----- Stopping -----

  lemma TakeSome(data: seq<byte>, limit: nat)
    requires limit > 0
    ensures Take(data, limit) == [] <==> data == []
  {}

  /** Running after the first sections means that none of their calls failed, and the other way round. */
  lemma BeforeHandlingRuns(s: State, e: Events)
    requires Shape(s) && Possible(s, e) && s.running
    ensures BeforeHandling(s, e).running <==>
              && (e.stdin.Some? ==> e.stdin.value != [])
              && (e.toChild.Some? ==> e.toChild.value > 0)
              && (e.toPort.Some? ==> e.toPort.value > 0)
              && (e.fromChild.Some? ==> e.fromChild.value != [])
    ensures BeforeHandling(s, e).running && s.out.Out? && BeforeHandling(s, e).out.NoOut? ==> e.toPort.Some?
  {
    hide LineEnd, Encode, JobShape, OutShape;
    if e.stdin.Some? {
      TakeSome(e.stdin.value, MAX_SIZE - HEADER_SIZE - (HEADER_SIZE + |s.cmd|));
    }
    var a := ReadStdin(s, e.stdin);
    WriteChildRuns(a, e.toChild);
    var b := WriteChild(a, e.toChild);
    SendPortRuns(b, e.toPort);
    var c := SelectLine(SendPort(b, e.toPort));
    hide ReadStdin, WriteChild, SendPort;
    if e.fromChild.Some? {
      TakeSome(e.fromChild.value, MAX_SIZE - |c.bufin|);
    }
  }

  lemma WriteChildRuns(s: State, r: Option<int>)
    requires Shape(s)
    ensures var t := WriteChild(s, r);
            && (t.running <==> s.running && (r.Some? && s.job.Job? ==> r.value > 0))
            && t.out == s.out && t.bufin == s.bufin
  {
    hide JobShape, OutShape;
  }

  lemma SendPortRuns(s: State, r: Option<int>)
    requires Shape(s)
    ensures var t := SendPort(s, r);
            && (t.running <==> s.running && (r.Some? && s.out.Out? ==> r.value > 0))
            && |t.bufin| <= |s.bufin|
            && (s.out.Out? && t.out.NoOut? ==> r.Some?)
  {
    hide JobShape;
  }

  lemma {:induction false} HandleChildRuns(s: State)
    requires Shape(s) && WellFormedBytes(s.bufin)
    ensures HandleChild(s).running <==> s.running && (s.out.NoOut? ==> WellAddressed(s.bufin, |s.ports|))
    decreases |s.bufin|
  {
    if s.running && s.out.NoOut? && HasMessage(s.bufin) && First(s.bufin).kind == 0 {
      HandleChildRuns(PrintText(s));
    }
  }

  lemma {:induction false} ServePortsRuns(s: State, i: nat, rs: seq<PortEvent>)
    requires Shape(s) && i <= |s.ports| == |rs|
    requires forall k | 0 <= k < |rs| :: rs[k].Received? ==> 0 < |rs[k].frame| <= MAX_SIZE
    requires forall k | i <= k < |rs| && rs[k].Failed? :: s.ports[k] == []
    ensures ServePorts(s, i, rs).running <==> s.running && forall k | i <= k < |rs| :: !rs[k].Failed?
    decreases |s.ports| - i
  {
    hide Shape, Encode;
    if i < |s.ports| {
      ServePortsRuns(ServePort(s, i, rs[i]), i + 1, rs);
    }
  }

  lemma BeforeHandlingKeepsEmptyPorts(s: State, e: Events, i: nat)
    requires Shape(s) && i < |s.ports| && s.ports[i] == []
    ensures BeforeHandling(s, e).ports[i] == []
  {
    hide LineEnd, Encode, Shape, AdvanceJob, LogWrite, FinishJob;
    WriteChildKeepsEmptyPort(ReadStdin(s, e.stdin), e.toChild, i);
    hide WriteChild;
  }

  lemma WriteChildKeepsEmptyPort(s: State, r: Option<int>, i: nat)
    requires Shape(s) && i < |s.ports| && s.ports[i] == []
    ensures WriteChild(s, r).ports[i] == []
  {
    hide OutShape;
  }

  /** The driver stops if and only if a call fails or the child addresses an interface that does not exist. */
  lemma StopsOnlyForCause(s: State, e: Events)
    requires Shape(s) && Possible(s, e) && s.running
    requires WellFormedBytes(BeforeHandling(s, e).bufin)
    ensures var b := BeforeHandling(s, e);
            Iterate(s, e).running <==> Succeeds(e) && (b.out.NoOut? ==> WellAddressed(b.bufin, |s.ports|))
  {
    hide Shape, BeforeHandling, HandleChild, ServePorts, WellAddressed;
    var b := BeforeHandling(s, e);
    BeforeHandlingRuns(s, e);
    HandleChildRuns(b);
    HandleChildPorts(b);
    forall k | 0 <= k < |e.ports| && e.ports[k].Failed? ensures HandleChild(b).ports[k] == [] {
      BeforeHandlingKeepsEmptyPorts(s, e, k);
    }
    ServePortsRuns(HandleChild(b), 0, e.ports);
  }

  lemma {:induction false} StreamWellAddressed(b: seq<byte>, output: seq<Message>, n: nat)
    requires ChildMessages(output) && (forall m | m in output :: m.kind <= n) && b <= Stream(output)
    ensures WellAddressed(b, n)
    decreases |output|
  {
    hide Stream;
    if HasMessage(b) {
      FrontOfStream(b, output);
      var rest := output[1..];
      assert ChildMessages(rest) && forall m | m in rest :: m.kind <= n;
      StreamWellAddressed(b[SizeField(b)..], rest, n);
    }
  }

  /** With a child that addresses existing interfaces only, the driver runs on as long as no call fails. */
  lemma RunsOn(s: System, e: Events, output: seq<Message>)
    requires SysInv(s, output) && Enabled(s, Iteration(e), output) && Succeeds(e)
    requires forall m | m in output :: m.kind <= |s.driver.ports|
    ensures WellFormedBytes(BeforeHandling(s.driver, e).bufin) && Next(s, Iteration(e), output).driver.running
  {
    hide Inv, Shape, BeforeHandling, Stream, Encode, Iterate;
    InvGives(s.driver);
    ReadsWellFormed(s, e, output);
    var t := BeforeHandling(s.driver, e);
    BeforeHandlingPrefix(s, e, output);
    var later := output[|t.log.handled|..];
    assert ChildMessages(later) && forall m | m in later :: m.kind <= |s.driver.ports|;
    StreamWellAddressed(t.bufin, later, |s.driver.ports|);
    StopsOnlyForCause(s.driver, e);
    IterateLog(s.driver, e);
  }

  // ----- The log -----

  function Frames(r: PortEvent): seq<seq<byte>> {
    if r.Received? then [r.frame] else []
  }

  /** What a read into a buffer with this much room takes of the data at hand. */
  function Read(r: Option<seq<byte>>, room: nat): seq<byte> {
    if r.Some? then Take(r.value, room) else []
  }

  /** What a write takes of the data it is given. */
  function Written(r: Option<int>, data: seq<byte>): seq<byte> {
    if r.Some? && r.value > 0 then Take(data, r.value) else []
  }

  /** The packet that a send makes of the data it is given, if there is a send. */
  function Packet(r: Option<int>, data: seq<byte>): seq<seq<byte>> {
    if r.Some? && r.value > 0 && data != [] then [Take(data, r.value)] else []
  }

  /** A send took less than it was given. */
  predicate Short(r: Option<int>, data: seq<byte>) {
    r.Some? && 0 < r.value < |data|
  }

  /** What a send that takes place is given for interface i: the bytes of its frame that are still to be sent. */
  function Unsent(s: State, i: nat, sends: bool): seq<byte>
    requires OutShape(s)
  {
    if sends && s.out.Out? && s.out.port == i then s.bufin[s.out.off..s.out.off + s.out.left] else []
  }

  /** No interface from first to before last fails. */
  predicate NoneFails(rs: seq<PortEvent>, first: nat, last: nat)
    requires last <= |rs|
  {
    forall j | first <= j < last :: !rs[j].Failed?
  }

  lemma {:induction false} ServePortsRecords(s: State, i: nat, rs: seq<PortEvent>, k: nat)
    requires Shape(s) && i <= |s.ports| == |rs| && k < |rs|
    requires forall j | 0 <= j < |rs| :: rs[j].Received? ==> 0 < |rs[j].frame| <= MAX_SIZE
    requires forall j | i <= j < |rs| :: !rs[j].Quiet? ==> s.ports[j] == []
    ensures var t := ServePorts(s, i, rs);
            && |t.log.frames| == |s.log.frames| == |s.ports|
            && t.log.frames[k] ==
                 s.log.frames[k] + if i <= k && s.running && NoneFails(rs, i, k) then Frames(rs[k]) else []
    decreases |s.ports| - i
  {
    hide JobShape, OutShape, Encode;
    if i < |s.ports| {
      ServePortRecords(s, i, rs[i], k);
      hide ServePort;
      ServePortsRecords(ServePort(s, i, rs[i]), i + 1, rs, k);
      assert i < k ==> (NoneFails(rs, i, k) <==> !rs[i].Failed? && NoneFails(rs, i + 1, k));
    }
  }

  lemma ServePortRecords(s: State, i: nat, r: PortEvent, k: nat)
    requires Shape(s) && i < |s.ports| && k < |s.ports|
    requires r.Received? ==> 0 < |r.frame| <= MAX_SIZE
    requires !r.Quiet? ==> s.ports[i] == []
    ensures var t := ServePort(s, i, r);
            && (t.running <==> s.running && !r.Failed?)
            && (forall j | 0 <= j < |s.ports| && j != i :: t.ports[j] == s.ports[j])
            && t.log.frames[k] == s.log.frames[k] + if k == i && s.running then Frames(r) else []
  {
    assert s.log.frames[k] + [] == s.log.frames[k];
  }

  lemma ReadStdinRecords(s: State, r: Option<seq<byte>>)
    requires Shape(s)
    ensures var t, room := ReadStdin(s, r), MAX_SIZE - HEADER_SIZE - (HEADER_SIZE + |s.cmd|);
            && t.log == s.log.(stdin := s.log.stdin + Read(r, room))
            && t.bufin == s.bufin && t.job == s.job && t.out == s.out
  {
    assert s.log.stdin + [] == s.log.stdin;
  }

  lemma WriteChildRecords(s: State, r: Option<int>)
    requires Shape(s)
    ensures var t := WriteChild(s, r);
            && t.log == s.log.(toChild := s.log.toChild + Written(r, if s.running then Left(s.job) else []))
            && t.bufin == s.bufin && t.out == s.out
  {
    hide Shape;
    assert s.log.toChild + [] == s.log.toChild;
  }

  /** The bytes, the packet and the shortness of one send of the data that is pending on interface i. */
  predicate SendIsRecorded(was: Log, log: Log, i: nat, r: Option<int>, data: seq<byte>)
    requires i < |was.sent| && i < |log.sent| && i < |was.packets| && i < |log.packets|
    requires i < |was.short| && i < |log.short|
  {
    && log.sent[i] == was.sent[i] + Written(r, data)
    && log.packets[i] == was.packets[i] + Packet(r, data)
    && log.short[i] == (was.short[i] || Short(r, data))
  }

  lemma SendPortRecords(s: State, r: Option<int>)
    requires Shape(s)
    ensures var t := SendPort(s, r);
            && t.log == s.log.(sent := t.log.sent, packets := t.log.packets, short := t.log.short,
                               handled := t.log.handled)
            && |t.log.sent| == |t.log.packets| == |t.log.short| == |s.ports|
            && (forall i | 0 <= i < |s.ports| ::
                  SendIsRecorded(s.log, t.log, i, r, Unsent(s, i, s.running)))
            && |t.bufin| <= |s.bufin|
  {
    hide JobShape;
    var t := SendPort(s, r);
    hide Shape;
    forall i | 0 <= i < |s.ports|
      ensures s.log.sent[i] + [] == s.log.sent[i] && s.log.packets[i] + [] == s.log.packets[i]
    {}
    if t.log.sent != s.log.sent {
      var Out(port, off, left) := s.out;
      var k := if r.value < left then r.value else left;
      assert Written(r, Unsent(s, port, true)) == s.bufin[off..off + k];
    }
  }

  lemma ReadChildRecords(s: State, r: Option<seq<byte>>)
    requires Shape(s)
    ensures ReadChild(s, r).log ==
              s.log.(fromChild := s.log.fromChild + if s.running then Read(r, MAX_SIZE - |s.bufin|) else [])
  {
    assert s.log.fromChild + [] == s.log.fromChild;
  }

  /** The pass gets as far as its write to the child, its send, and its read from the child. */
  predicate GetsToWrite(e: Events) {
    e.stdin.Some? ==> e.stdin.value != []
  }

  predicate GetsToSend(e: Events) {
    GetsToWrite(e) && (e.toChild.Some? ==> e.toChild.value > 0)
  }

  predicate GetsToRead(e: Events) {
    GetsToSend(e) && (e.toPort.Some? ==> e.toPort.value > 0)
  }

  /** The state before the child is read. */
  function BeforeReading(s: State, e: Events): (t: State)
    requires Shape(s)
    ensures Shape(t) && |t.ports| == |s.ports|
  {
    SelectLine(SendPort(WriteChild(ReadStdin(s, e.stdin), e.toChild), e.toPort))
  }

  lemma SectionsRun(s: State, e: Events)
    requires Shape(s) && Possible(s, e) && s.running
    ensures var a := ReadStdin(s, e.stdin);
            var b := WriteChild(a, e.toChild);
            && (a.running <==> GetsToWrite(e)) && (b.running <==> GetsToSend(e))
            && (BeforeReading(s, e).running <==> GetsToRead(e))
  {
    hide LineEnd, Encode, JobShape, OutShape;
    if e.stdin.Some? {
      TakeSome(e.stdin.value, MAX_SIZE - HEADER_SIZE - (HEADER_SIZE + |s.cmd|));
    }
    var a := ReadStdin(s, e.stdin);
    WriteChildRuns(a, e.toChild);
    SendPortRuns(WriteChild(a, e.toChild), e.toPort);
    hide WriteChild, SendPort;
  }

  /** What the sections before the read from the child add to the log. */
  lemma BeforeReadingRecords(s: State, e: Events)
    requires Shape(s) && Possible(s, e) && s.running
    ensures |BeforeReading(s, e).bufin| <= |s.bufin|
    ensures var t, space := BeforeReading(s, e), MAX_SIZE - HEADER_SIZE - (HEADER_SIZE + |s.cmd|);
            && t.log.stdin == s.log.stdin + Read(e.stdin, space)
            && t.log.toChild == s.log.toChild + Written(e.toChild, if GetsToWrite(e) then Left(s.job) else [])
            && |t.log.sent| == |t.log.packets| == |t.log.short| == |s.ports|
            && (forall i | 0 <= i < |s.ports| ::
                  SendIsRecorded(s.log, t.log, i, e.toPort, Unsent(s, i, GetsToSend(e))))
            && t.log.fromChild == s.log.fromChild && t.log.frames == s.log.frames
  {
    hide LineEnd, Encode, Take, JobShape, OutShape, Written, Read, Packet, Short, GetsToWrite, GetsToSend, GetsToRead;
    SectionsRun(s, e);
    var a := ReadStdin(s, e.stdin);
    ReadStdinRecords(s, e.stdin);
    hide ReadStdin;
    var b := WriteChild(a, e.toChild);
    WriteChildRecords(a, e.toChild);
    hide WriteChild;
    var c := SendPort(b, e.toPort);
    SendPortRecords(b, e.toPort);
    hide SendPort;
    var t := BeforeReading(s, e);
    assert t.bufin == c.bufin && t.log == c.log.(chosen := t.log.chosen);
    hide SelectLine;
    forall i | 0 <= i < |s.ports|
      ensures SendIsRecorded(s.log, t.log, i, e.toPort, Unsent(s, i, GetsToSend(e)))
    {
      assert SendIsRecorded(b.log, c.log, i, e.toPort, Unsent(b, i, b.running));
    }
  }

  /**
   * The history the theorems speak of is the one the system calls report, in the pass in which the driver stops too:
   * every byte read and every frame received is recorded where it came from, every byte written where it went to,
   * and nothing behind the call that stops the driver is recorded.
   */
  lemma LogIsFaithful(s: State, e: Events)
    requires Shape(s) && Possible(s, e) && s.running
    requires WellFormedBytes(BeforeHandling(s, e).bufin)
    ensures |BeforeReading(s, e).bufin| <= |s.bufin|
    ensures var log, was := Iterate(s, e).log, s.log;
            var space, room := MAX_SIZE - HEADER_SIZE - (HEADER_SIZE + |s.cmd|), MAX_SIZE - |BeforeReading(s, e).bufin|;
            && |log.sent| == |log.packets| == |log.short| == |log.frames| == |s.ports|
            && log.stdin == was.stdin + Read(e.stdin, space)
            && log.toChild == was.toChild + Written(e.toChild, if GetsToWrite(e) then Left(s.job) else [])
            && log.fromChild == was.fromChild + (if GetsToRead(e) then Read(e.fromChild, room) else [])
            && forall i | 0 <= i < |s.ports| ::
                 && SendIsRecorded(was, log, i, e.toPort, Unsent(s, i, GetsToSend(e)))
                 && log.frames[i] == was.frames[i] +
                      if HandleChild(BeforeHandling(s, e)).running && NoneFails(e.ports, 0, i) then Frames(e.ports[i])
                      else []
  {
    hide BeforeReading, BeforeHandling, HandleChild, ServePorts, Take, Written, Unsent, Read, Frames;
    hide GetsToWrite, GetsToSend, GetsToRead;
    var b := BeforeHandling(s, e);
    assert b == ReadChild(BeforeReading(s, e), e.fromChild) by {
      BeforeHandlingIs(s, e);
    }
    SectionsRun(s, e);
    BeforeReadingRecords(s, e);
    ReadChildRecords(BeforeReading(s, e), e.fromChild);
    hide ReadChild;
    var c := HandleChild(b);
    HandleChildPorts(b);
    HandleChildLog(b);
    ServePortsLog(c, 0, e.ports);
    forall k | 0 <= k < |e.ports| && !e.ports[k].Quiet? ensures c.ports[k] == [] {
      BeforeHandlingKeepsEmptyPorts(s, e, k);
    }
    forall i | 0 <= i < |s.ports|
      ensures SendIsRecorded(s.log, Iterate(s, e).log, i, e.toPort, Unsent(s, i, GetsToSend(e)))
      ensures Iterate(s, e).log.frames[i] ==
                s.log.frames[i] + if c.running && NoneFails(e.ports, 0, i) then Frames(e.ports[i]) else []
    {
      ServePortsRecords(c, 0, e.ports, i);
      assert SendIsRecorded(s.log, BeforeReading(s, e).log, i, e.toPort, Unsent(s, i, GetsToSend(e)));
    }
  }

  lemma BeforeHandlingIs(s: State, e: Events)
    requires Shape(s)
    ensures BeforeHandling(s, e) == ReadChild(BeforeReading(s, e), e.fromChild)
  {
    hide ReadStdin, WriteChild, SendPort, SelectLine, ReadChild;
  }
}

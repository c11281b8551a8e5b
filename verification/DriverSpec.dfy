/**
 * The event loop of the driver, as a function of its state and of what one call of select and the
 * following reads and writes report. The log is the history of everything read, chosen and written.
 */
module DriverSpec {
  import opened Wire

  /** Size of the buffers: the largest message plus room for one more header. */
  const MAX_SIZE: nat := FIELD_LIMIT + HEADER_SIZE

  /** The command line is treated as one more interface. */
  datatype Source = CommandLine | Port(i: nat)

  /** What is being written to the child: `sent` bytes are written, `left` remain. */
  datatype Job = NoJob | Job(source: Source, sent: nat, left: seq<byte>)

  /** What is being written to an interface: `left` bytes of bufin starting at `off`. */
  datatype Out = NoOut | Out(port: nat, off: nat, left: nat)

  datatype Log = Log(
    greeting: Message,               // the MAC list sent before the loop starts
    chosen: seq<Message>,            // what was selected for the child, in order
    toChild: seq<byte>,              // bytes written to the child
    stdin: seq<byte>,                // bytes read from the command line
    frames: seq<seq<seq<byte>>>,     // frames received, per interface
    fromChild: seq<byte>,            // bytes read from the child
    handled: seq<Message>,           // messages of the child that were passed on completely
    printed: seq<byte>,              // bytes printed for the user
    sent: seq<seq<byte>>,            // bytes sent, per interface
    packets: seq<seq<seq<byte>>>,    // what each sendto took, per interface
    short: seq<bool>)                // per interface: some sendto took less than it was given

  datatype State = State(
    ports: seq<seq<byte>>,           // what each interface buffer holds: an encoded message or nothing
    cmd: seq<byte>,                  // what the command-line buffer holds behind the reserved header space
    job: Job,
    bufin: seq<byte>,                // what was read from the child and not yet removed
    out: Out,
    running: bool,
    log: Log)

  datatype PortEvent = Quiet | Failed | Foreign | Received(frame: seq<byte>)

  /** The results of one iteration's system calls; None where the descriptor is not ready. */
  datatype Events = Events(
    stdin: Option<seq<byte>>,        // bytes available, none at end of file or on error
    toChild: Option<int>,            // result of write
    toPort: Option<int>,             // result of sendto
    fromChild: Option<seq<byte>>,    // bytes available, none at end of file or on error
    ports: seq<PortEvent>)

  function Initial(greeting: Message, n: nat): State {
    State(seq(n, i => []), [], NoJob, [], NoOut, true,
          Log(greeting, [], Encode(greeting), [], seq(n, i => []), [], [], [],
              seq(n, i => []), seq(n, i => []), seq(n, i => false)))
  }

  function Stop(s: State): State {
    s.(running := false)
  }

  /** What a call takes of the data at hand: as much as there is room for. */
  function Take(data: seq<byte>, limit: nat): (r: seq<byte>)
    ensures r <= data && |r| == if |data| < limit then |data| else limit
  {
    if |data| <= limit then data else data[..limit]
  }

  // ----- Which descriptors select is asked about -----

  predicate WantsStdin(s: State) {
    HEADER_SIZE + |s.cmd| < MAX_SIZE - HEADER_SIZE
  }

  predicate WantsChild(s: State) {
    |s.bufin| < MAX_SIZE
  }

  /** Only descriptors in the sets passed to select are reported ready. */
  predicate Possible(s: State, e: Events) {
    && |e.ports| == |s.ports|
    && (e.stdin.Some? ==> WantsStdin(s))
    && (e.toChild.Some? ==> s.job.Job?)
    && (e.toPort.Some? ==> s.out.Out?)
    && (e.fromChild.Some? ==> WantsChild(s))
    && (forall i | 0 <= i < |e.ports| :: !e.ports[i].Quiet? ==> s.ports[i] == [])
    && (forall i | 0 <= i < |e.ports| :: e.ports[i].Received? ==> 0 < |e.ports[i].frame| <= MAX_SIZE)
  }

  // ----- The shape of the buffers -----

  predicate JobShape(s: State) {
    match s.job
    case NoJob => true
    case Job(CommandLine, sent, left) =>
      left != [] && sent + |left| > HEADER_SIZE && sent + |left| <= HEADER_SIZE + |s.cmd|
    case Job(Port(i), sent, left) => left != [] && i < |s.ports| && sent + |left| == |s.ports[i]|
  }

  predicate OutShape(s: State) {
    s.out.Out? ==>
      && s.out.port < |s.ports| && s.out.left > 0
      && HEADER_SIZE <= s.out.off && s.out.off + s.out.left <= |s.bufin|
  }

  predicate Shape(s: State) {
    && |s.log.frames| == |s.log.sent| == |s.log.packets| == |s.log.short| == |s.ports|
    && HEADER_SIZE + |s.cmd| <= MAX_SIZE - HEADER_SIZE
    && |s.bufin| <= MAX_SIZE
    && (forall i | 0 <= i < |s.ports| :: s.ports[i] == [] || HEADER_SIZE < |s.ports[i]| <= HEADER_SIZE + MAX_SIZE)
    && JobShape(s) && OutShape(s)
  }

  // ----- The sections of one iteration, in the order in which they run -----

  function ReadStdin(s: State, r: Option<seq<byte>>): (t: State)
    requires Shape(s)
    ensures Shape(t) && |t.ports| == |s.ports|
  {
    if r.None? then s
    else
      var data := Take(r.value, MAX_SIZE - HEADER_SIZE - (HEADER_SIZE + |s.cmd|));
      if data == [] then Stop(s)
      else s.(cmd := s.cmd + data, log := s.log.(stdin := s.log.stdin + data))
  }

  /** Drop from its buffer the message that was just written out. */
  function FinishJob(s: State): (t: State)
    requires Shape(s) && s.job.Job?
    ensures Shape(t) && |t.ports| == |s.ports| && t.log == s.log
  {
    var total := s.job.sent + |s.job.left|;
    match s.job.source
    case CommandLine => s.(cmd := s.cmd[total - HEADER_SIZE..], job := NoJob)
    case Port(i) => s.(ports := s.ports[i := s.ports[i][total..]], job := NoJob)
  }

  function AdvanceJob(s: State, k: nat): (t: State)
    requires Shape(s) && s.job.Job? && k < |s.job.left|
    ensures Shape(t) && |t.ports| == |s.ports| && t.log == s.log
  {
    s.(job := Job(s.job.source, s.job.sent + k, s.job.left[k..]))
  }

  function LogWrite(s: State, data: seq<byte>): (t: State)
    ensures Shape(s) ==> Shape(t) && |t.ports| == |s.ports|
  {
    s.(log := s.log.(toChild := s.log.toChild + data))
  }

  function WriteChild(s: State, r: Option<int>): (t: State)
    requires Shape(s)
    ensures Shape(t) && |t.ports| == |s.ports|
  {
    if !s.running || r.None? || s.job.NoJob? then s
    else if r.value <= 0 then Stop(s)
    else
      var data := Take(s.job.left, r.value);
      LogWrite(if |data| < |s.job.left| then AdvanceJob(s, |data|) else FinishJob(s), data)
  }

  function SendPort(s: State, r: Option<int>): (t: State)
    requires Shape(s)
    ensures Shape(t) && |t.ports| == |s.ports|
  {
    if !s.running || r.None? || s.out.NoOut? then s
    else if r.value <= 0 then Stop(s)
    else
      var Out(port, off, left) := s.out;
      var k := if r.value < left then r.value else left;
      var data := s.bufin[off..off + k];
      var log := s.log.(sent := s.log.sent[port := s.log.sent[port] + data],
                        packets := s.log.packets[port := s.log.packets[port] + [data]],
                        short := s.log.short[port := s.log.short[port] || k < left]);
      if k < left then s.(out := Out(port, off + k, left - k), log := log)
      else s.(bufin := s.bufin[off + k..], out := NoOut,
              log := log.(handled := log.handled + [Message(port + 1, s.bufin[HEADER_SIZE..off + k])]))
  }

  /** Position of the first newline of b, or its length. */
  function LineEnd(b: seq<byte>): (n: nat)
    ensures n <= |b|
    ensures NEWLINE !in b[..n]
    ensures n < |b| ==> b[n] == NEWLINE
  {
    if b == [] || b[0] == NEWLINE then 0 else
      var n := 1 + LineEnd(b[1..]);
      assert b[..n] == [b[0]] + b[1..][..n - 1];
      n
  }

  function SelectLine(s: State): (t: State)
    requires Shape(s)
    ensures Shape(t) && |t.ports| == |s.ports|
  {
    var n := LineEnd(s.cmd);
    if !s.running || s.job.Job? || n == |s.cmd| then s
    else
      var m := Message(0, s.cmd[..n + 1]);
      s.(job := Job(CommandLine, 0, Encode(m)), log := s.log.(chosen := s.log.chosen + [m]))
  }

  function ReadChild(s: State, r: Option<seq<byte>>): (t: State)
    requires Shape(s)
    ensures Shape(t) && |t.ports| == |s.ports|
  {
    if !s.running || r.None? then s
    else
      var data := Take(r.value, MAX_SIZE - |s.bufin|);
      if data == [] then Stop(s)
      else s.(bufin := s.bufin + data, log := s.log.(fromChild := s.log.fromChild + data))
  }

  /** Every message begun in b has a size of at least a header, and a payload unless it is text. */
  predicate WellFormedBytes(b: seq<byte>)
    decreases |b|
  {
    |b| >= HEADER_SIZE ==>
      && SizeField(b) >= HEADER_SIZE
      && (TypeField(b) != 0 ==> SizeField(b) > HEADER_SIZE)
      && (SizeField(b) <= |b| ==> WellFormedBytes(b[SizeField(b)..]))
  }

  /** Print the text messages at the front of bufin until a frame for an interface or an incomplete message. */
  function HandleChild(s: State): (t: State)
    requires Shape(s) && WellFormedBytes(s.bufin)
    ensures Shape(t)
    ensures t.running && t.out.NoOut? ==> !HasMessage(t.bufin)
    decreases |s.bufin|
  {
    if !s.running || s.out.Out? || !HasMessage(s.bufin) then s
    else
      var m := First(s.bufin);
      if m.kind == 0 then HandleChild(PrintText(s))
      else if m.kind > |s.ports| then Stop(s)
      else s.(out := Out(m.kind - 1, HEADER_SIZE, |m.payload|))
  }

  function PrintText(s: State): (t: State)
    requires Shape(s) && s.out.NoOut? && HasMessage(s.bufin) && SizeField(s.bufin) >= HEADER_SIZE
    ensures Shape(t) && |t.bufin| < |s.bufin|
  {
    var m := First(s.bufin);
    s.(bufin := s.bufin[SizeField(s.bufin)..],
       log := s.log.(handled := s.log.handled + [m], printed := s.log.printed + UntilZero(m.payload)))
  }

  function ReceiveFrame(s: State, i: nat, r: PortEvent): (t: State)
    requires Shape(s) && i < |s.ports|
    requires r.Received? ==> 0 < |r.frame| <= MAX_SIZE
    ensures Shape(t)
  {
    if r.Quiet? || s.ports[i] != [] || r.Foreign? then s
    else if r.Failed? then Stop(s)
    else s.(ports := s.ports[i := Encode(Message(i + 1, r.frame))],
            log := s.log.(frames := s.log.frames[i := s.log.frames[i] + [r.frame]]))
  }

  function SelectPort(s: State, i: nat): (t: State)
    requires Shape(s) && i < |s.ports|
    ensures Shape(t)
  {
    if !s.running || s.job.Job? || s.ports[i] == [] then s
    else s.(job := Job(Port(i), 0, s.ports[i]),
            log := s.log.(chosen := s.log.chosen + [Message(i + 1, s.ports[i][HEADER_SIZE..])]))
  }

  function ServePort(s: State, i: nat, r: PortEvent): (t: State)
    requires Shape(s) && i < |s.ports|
    requires r.Received? ==> 0 < |r.frame| <= MAX_SIZE
    ensures Shape(t) && |t.ports| == |s.ports|
  {
    if !s.running then s else SelectPort(ReceiveFrame(s, i, r), i)
  }

  function ServePorts(s: State, i: nat, rs: seq<PortEvent>): (t: State)
    requires Shape(s) && i <= |s.ports| == |rs|
    requires forall k | 0 <= k < |rs| :: rs[k].Received? ==> 0 < |rs[k].frame| <= MAX_SIZE
    ensures Shape(t) && |t.ports| == |s.ports|
    decreases |s.ports| - i
  {
    if i == |s.ports| then s else ServePorts(ServePort(s, i, rs[i]), i + 1, rs)
  }

  /** The first five sections, which come before the messages of the child are looked at. */
  function BeforeHandling(s: State, e: Events): (t: State)
    requires Shape(s)
    ensures Shape(t) && |t.ports| == |s.ports|
  {
    ReadChild(SelectLine(SendPort(WriteChild(ReadStdin(s, e.stdin), e.toChild), e.toPort)), e.fromChild)
  }

  lemma {:induction false} HandleChildPorts(s: State)
    requires Shape(s) && WellFormedBytes(s.bufin)
    ensures HandleChild(s).ports == s.ports
    ensures HandleChild(s).job == s.job && HandleChild(s).cmd == s.cmd
    ensures HandleChild(s).running ==> s.running
    decreases |s.bufin|
  {
    if s.running && s.out.NoOut? && HasMessage(s.bufin) && First(s.bufin).kind == 0 {
      HandleChildPorts(PrintText(s));
    }
  }

  /** One pass of the event loop. The child's messages are well-formed. */
  function Iterate(s: State, e: Events): (t: State)
    requires Shape(s) && Possible(s, e)
    requires WellFormedBytes(BeforeHandling(s, e).bufin)
    ensures Shape(t) && |t.ports| == |s.ports|
  {
    var b := BeforeHandling(s, e);
    HandleChildPorts(b);
    ServePorts(HandleChild(b), 0, e.ports)
  }
}

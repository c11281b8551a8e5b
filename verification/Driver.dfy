/** The driver's event loop over its real buffers, section by section against DriverSpec. */
module Driver {
  import opened Wire
  import opened Net
  import Spec = DriverSpec

  class Interface {
    const buftun: array<byte>
    var off: nat     // where the bytes to be written start
    var size: nat    // bytes in buftun
    var end: nat     // bytes to be written from off on

    constructor (size: nat)
      ensures buftun.Length == Spec.MAX_SIZE + HEADER_SIZE && fresh(buftun)
      ensures this.size == size && off == 0 && end == 0
    {
      buftun := new byte[Spec.MAX_SIZE + HEADER_SIZE];
      this.size := size;
      off := 0;
      end := 0;
    }

    /** The buffer of a network interface holds exactly `held`. */
    ghost predicate Holds(held: seq<byte>)
      reads this`size, buftun
    {
      size == |held| <= buftun.Length && buftun[..size] == held
    }

    /** The command-line buffer holds `typed` behind the space reserved for a header. */
    ghost predicate HoldsText(typed: seq<byte>)
      reads this`size, buftun
    {
      size == HEADER_SIZE + |typed| <= buftun.Length && buftun[HEADER_SIZE..size] == typed
    }

    /**
     * Drop everything before off but `reserved` bytes of header space. The move takes `reserved` bytes more
     * than are valid; they stay within the buffer and behind the bytes that count.
     */
    method Remove(reserved: nat)
      requires reserved <= off <= size && size + reserved <= buftun.Length
      modifies this`size, this`off, buftun
      ensures size == old(size) - (old(off) - reserved)
      ensures buftun[reserved..size] == old(buftun[off..size])
    {
      var total := off - reserved;
      ghost var valid := size - off;
      SliceOfSlice(buftun[..], off, size - total, valid);
      MemMove(buftun, reserved, off, size - total);
      SliceOfSlice(buftun[..], reserved, size - total, valid);
      size := size - total;
      off := 0;
    }

    /** A frame behind the space for its header, then the header. */
    method Fill(kind: nat, frame: seq<byte>)
      requires HEADER_SIZE + |frame| <= buftun.Length
      modifies this`size, this`end, buftun
      ensures Holds(Encode(Message(kind, frame))) && end == size
    {
      MemCopy(buftun, HEADER_SIZE, frame);
      size := |frame| + HEADER_SIZE;
      MemCopy(buftun, 0, Htons(size) + Htons(kind));
      end := size;
      assert buftun[HEADER_SIZE..size] == buftun[HEADER_SIZE..][..|frame|];
      assert buftun[..size] == buftun[..HEADER_SIZE] + buftun[HEADER_SIZE..size];
    }

    /** A header for the first len bytes of text, which are then to be written with it. */
    method StartText(ghost typed: seq<byte>, len: nat)
      requires HoldsText(typed) && len <= |typed|
      modifies this`off, this`end, buftun
      ensures HoldsText(typed) && Writes(0, Encode(Message(0, typed[..len])))
    {
      var header := Htons(HEADER_SIZE + len) + Htons(0);
      ghost var text := buftun[HEADER_SIZE..];
      MemCopy(buftun, 0, header);
      end := HEADER_SIZE + len;
      off := 0;
      assert buftun[HEADER_SIZE..size] == text[..|typed|] == typed;
      assert buftun[..end] == header + text[..len];
    }

    /** More text behind what waits; what is being written lies in front of it and stays. */
    method Append(data: seq<byte>, ghost typed: seq<byte>)
      requires HoldsText(typed) && size + |data| <= buftun.Length
      modifies this`size, buftun
      ensures HoldsText(typed + data) && size == old(size) + |data|
      ensures old(off) + old(end) <= old(size) ==> buftun[off..off + end] == old(buftun[off..off + end])
    {
      ghost var before := buftun[..size];
      MemCopy(buftun, size, data);
      assert buftun[..size] == before;
      assert off + end <= size ==> buftun[off..off + end] == before[off..off + end];
      assert buftun[HEADER_SIZE..size + |data|] == before[HEADER_SIZE..] + buftun[size..size + |data|];
      size := size + |data|;
    }

    /** What is left to be written of this interface's message. */
    ghost predicate Writes(sent: nat, left: seq<byte>)
      reads this`off, this`end, buftun
    {
      off == sent && end == |left| && off + end <= buftun.Length && buftun[off..off + end] == left
    }
  }

  class EventLoop {
    const gifc: seq<Interface>
    const cmdLine: Interface
    const bufin: array<byte>
    var bufinRpos: nat
    var bufinWriteOff: nat
    var bufinWriteLeft: nat
    var currentWrite: Interface?
    var currentRead: Interface?
    var running: bool
    ghost var state: Spec.State

    /** No two buffers share memory, and all have their declared sizes. */
    ghost predicate Separate() {
      && this !in Buffers() && bufin !in Sources()
      && bufin.Length == Spec.MAX_SIZE
      && cmdLine.buftun.Length == Spec.MAX_SIZE + HEADER_SIZE
      && cmdLine.buftun != bufin
      && (forall i | 0 <= i < |gifc| ::
            && gifc[i].buftun.Length == Spec.MAX_SIZE + HEADER_SIZE
            && gifc[i] != cmdLine && gifc[i].buftun != cmdLine.buftun && gifc[i].buftun != bufin)
      && (forall i, j | 0 <= i < j < |gifc| :: gifc[i] != gifc[j] && gifc[i].buftun != gifc[j].buftun)
    }

    /** Everything that holds bytes on their way to the child. */
    ghost function Sources(): set<object> {
      {cmdLine, cmdLine.buftun}
      + (set i | 0 <= i < |gifc| :: gifc[i]) + (set i | 0 <= i < |gifc| :: gifc[i].buftun)
    }

    ghost function Buffers(): set<object> {
      Sources() + {bufin}
    }

    ghost predicate PortsHold(ports: seq<seq<byte>>)
      reads this`currentRead, Sources()
    {
      && |ports| == |gifc|
      && (forall i | 0 <= i < |gifc| :: gifc[i].Holds(ports[i]))
      && (forall i | 0 <= i < |gifc| && ports[i] != [] && currentRead != gifc[i] :: gifc[i].end == gifc[i].size)
    }

    ghost predicate JobHolds(job: Spec.Job)
      reads this`currentRead, Sources()
    {
      match job
      case NoJob => currentRead == null
      case Job(CommandLine, sent, left) => currentRead == cmdLine && cmdLine.Writes(sent, left)
      case Job(Port(i), sent, left) => i < |gifc| && currentRead == gifc[i] && gifc[i].Writes(sent, left)
    }

    ghost predicate BufinHolds(bytes: seq<byte>)
      reads this`bufinRpos, bufin
    {
      bufinRpos == |bytes| <= bufin.Length && bufin[..bufinRpos] == bytes
    }

    ghost predicate OutHolds(out: Spec.Out)
      reads this`currentWrite, this`bufinWriteOff, this`bufinWriteLeft
    {
      match out
      case NoOut => currentWrite == null
      case Out(port, off, left) =>
        port < |gifc| && currentWrite == gifc[port] && bufinWriteOff == off && bufinWriteLeft == left
    }

    /** The buffers, offsets and job pointers hold what s says. */
    ghost predicate Represents(s: Spec.State)
      reads this`bufinRpos, this`bufinWriteOff, this`bufinWriteLeft, this`currentWrite, this`currentRead, Buffers()
    {
      && PortsHold(s.ports) && cmdLine.HoldsText(s.cmd) && JobHolds(s.job)
      && BufinHolds(s.bufin) && OutHolds(s.out)
    }

    ghost predicate Valid()
      reads this, Buffers()
    {
      Separate() && Spec.Shape(state) && |state.ports| == |gifc| && running == state.running && Represents(state)
    }

    constructor (greeting: Message, gifc: seq<Interface>)
      requires forall i | 0 <= i < |gifc| :: gifc[i].buftun.Length == Spec.MAX_SIZE + HEADER_SIZE && gifc[i].size == 0
      requires forall i, j | 0 <= i < j < |gifc| :: gifc[i] != gifc[j] && gifc[i].buftun != gifc[j].buftun
      ensures Valid() && state == Spec.Initial(greeting, |gifc|) && this.gifc == gifc
    {
      this.gifc := gifc;
      cmdLine := new Interface(HEADER_SIZE);
      bufin := new byte[Spec.MAX_SIZE];
      bufinRpos, bufinWriteOff, bufinWriteLeft := 0, 0, 0;
      currentWrite, currentRead := null, null;
      running := true;
      state := Spec.Initial(greeting, |gifc|);
    }

    ghost method SetState(next: Spec.State)
      requires Separate() && Spec.Shape(next) && |next.ports| == |gifc| && running == next.running && Represents(next)
      modifies this`state
      ensures Valid() && state == next
    {
      hide Represents;
      state := next;
    }

    method Stop()
      requires Valid()
      modifies this`running, this`state
      ensures Valid() && state == Spec.Stop(old(state))
    {
      hide PortsHold, JobHolds, BufinHolds, OutHolds, Interface.HoldsText;
      running := false;
      SetState(Spec.Stop(state));
    }

    // ----- Towards the child -----

    method ReadStdin(r: Option<seq<byte>>)
      requires Valid()
      modifies this`running, this`state, cmdLine`size, cmdLine.buftun
      ensures Valid() && state == Spec.ReadStdin(old(state), r)
    {
      hide PortsHold, JobHolds, BufinHolds, OutHolds, Spec.JobShape, Spec.OutShape;
      if r.None? {
        return;
      }
      var data := Spec.Take(r.value, Spec.MAX_SIZE - HEADER_SIZE - cmdLine.size);
      if data == [] {
        Stop();
        return;
      }
      ghost var next := Spec.ReadStdin(state, r);
      AppendTyped(data);
      SetState(next);
    }

    /** New bytes go behind those that wait, also while a line in front of them is being written. */
    method AppendTyped(data: seq<byte>)
      requires Valid() && cmdLine.size + |data| <= Spec.MAX_SIZE - HEADER_SIZE
      modifies cmdLine`size, cmdLine.buftun
      ensures Represents(state.(cmd := state.cmd + data))
    {
      hide BufinHolds, Interface.Holds, Interface.HoldsText;
      cmdLine.Append(data, state.cmd);
    }

    method WriteChild(r: Option<int>)
      requires Valid()
      modifies this`running, this`state, this`currentRead, Sources()
      ensures Valid() && state == Spec.WriteChild(old(state), r)
    {
      hide BufinHolds, PortsHold, Interface.Holds, Interface.HoldsText, Spec.Shape;
      if !running || r.None? || currentRead == null {
        return;
      }
      if r.value <= 0 {
        Stop();
        return;
      }
      ghost var next := Spec.WriteChild(state, r);
      if r.value < currentRead.end {
        AdvanceJob(r.value);
      } else {
        FinishJob();
      }
      SetState(next);
    }

    /** The child took k bytes, but not all, of the current message. */
    method AdvanceJob(k: nat)
      requires Valid() && currentRead != null && k < currentRead.end
      modifies currentRead`off, currentRead`end
      ensures Represents(Spec.AdvanceJob(state, k))
    {
      hide BufinHolds, Interface.Holds, Interface.HoldsText;
      currentRead.end := currentRead.end - k;
      currentRead.off := currentRead.off + k;
    }

    /** The child took the rest of the current message: drop it from its buffer. */
    method FinishJob()
      requires Valid() && currentRead != null
      modifies this`currentRead, Sources()
      ensures Represents(Spec.FinishJob(state))
    {
      hide BufinHolds, PortsHold, Interface.HoldsText;
      if currentRead == cmdLine {
        FinishLine();
      } else {
        FinishFrame();
      }
    }

    method FinishLine()
      requires Valid() && currentRead == cmdLine
      modifies this`currentRead, cmdLine`off, cmdLine`end, cmdLine`size, cmdLine.buftun
      ensures Represents(Spec.FinishJob(state))
    {
      hide BufinHolds, Interface.Holds;
      ghost var before := cmdLine.buftun[HEADER_SIZE..cmdLine.size];
      cmdLine.off := cmdLine.off + cmdLine.end;
      cmdLine.end := 0;
      assert before[cmdLine.off - HEADER_SIZE..] == cmdLine.buftun[cmdLine.off..cmdLine.size];
      cmdLine.Remove(HEADER_SIZE);
      currentRead := null;
    }

    method FinishFrame()
      requires Valid() && currentRead != null && currentRead != cmdLine
      modifies this`currentRead, currentRead, currentRead.buftun
      ensures Represents(Spec.FinishJob(state))
    {
      hide BufinHolds, Interface.HoldsText;
      var ifc := currentRead;
      ifc.off := ifc.off + ifc.end;
      ifc.end := 0;
      ifc.Remove(0);
      currentRead := null;
    }

    /** If the child is free and a line is complete: put a header in front of it and start writing. */
    method SelectLine()
      requires Valid()
      modifies this`state, this`currentRead, cmdLine`off, cmdLine`end, cmdLine.buftun
      ensures Valid() && state == Spec.SelectLine(old(state))
    {
      hide PortsHold, BufinHolds, OutHolds, Spec.OutShape, Interface.HoldsText;
      if !running || currentRead != null {
        return;
      }
      var n := FindNewline();
      if n == cmdLine.size - HEADER_SIZE {
        return;
      }
      ghost var next := Spec.SelectLine(state);
      StartLine(n + 1);
      SetState(next);
    }

    /** memchr for a newline behind the header space. */
    method FindNewline() returns (n: nat)
      requires Valid()
      ensures n == Spec.LineEnd(state.cmd) && cmdLine.size == HEADER_SIZE + |state.cmd|
    {
      hide PortsHold, JobHolds, BufinHolds, OutHolds, Spec.JobShape, Spec.OutShape;
      n := 0;
      while n < cmdLine.size - HEADER_SIZE && cmdLine.buftun[HEADER_SIZE + n] != NEWLINE
        invariant n <= |state.cmd|
        invariant Spec.LineEnd(state.cmd) == n + Spec.LineEnd(state.cmd[n..])
      {
        assert state.cmd[n..][1..] == state.cmd[n + 1..];
        n := n + 1;
      }
    }

    method StartLine(len: nat)
      requires Valid() && currentRead == null && 0 < len <= |state.cmd|
      modifies this`currentRead, cmdLine`off, cmdLine`end, cmdLine.buftun
      ensures PortsHold(state.ports) && cmdLine.HoldsText(state.cmd)
      ensures JobHolds(Spec.Job(Spec.CommandLine, 0, Encode(Message(0, state.cmd[..len]))))
    {
      hide BufinHolds, Interface.Holds, Htons;
      cmdLine.StartText(state.cmd, len);
      currentRead := cmdLine;
    }

    // ----- Towards the network -----

    method SendPort(r: Option<int>)
      requires Valid()
      modifies this`running, this`state, this`bufinRpos, this`bufinWriteOff, this`bufinWriteLeft, this`currentWrite
      modifies bufin
      ensures Valid() && state == Spec.SendPort(old(state), r)
    {
      hide PortsHold, JobHolds, Interface.HoldsText, Spec.JobShape;
      if !running || r.None? || currentWrite == null {
        return;
      }
      if r.value <= 0 {
        Stop();
        return;
      }
      ghost var next := Spec.SendPort(state, r);
      var k := if r.value < bufinWriteLeft then r.value else bufinWriteLeft;
      bufinWriteLeft := bufinWriteLeft - k;
      bufinWriteOff := bufinWriteOff + k;
      if bufinWriteLeft == 0 {
        RemoveFront(bufinWriteOff);
        currentWrite := null;
      }
      SetState(next);
    }

    /** Drop the first n bytes of bufin; what was read behind them meanwhile moves to the front. */
    method RemoveFront(n: nat)
      requires BufinHolds(state.bufin) && n <= bufinRpos
      modifies this`bufinRpos, bufin
      ensures BufinHolds(state.bufin[n..])
    {
      MemMove(bufin, 0, n, bufinRpos - n);
      bufinRpos := bufinRpos - n;
    }

    method ReadChild(r: Option<seq<byte>>)
      requires Valid()
      modifies this`running, this`state, this`bufinRpos, bufin
      ensures Valid() && state == Spec.ReadChild(old(state), r)
    {
      hide PortsHold, JobHolds, Interface.HoldsText, OutHolds, Spec.JobShape, Spec.OutShape;
      if !running || r.None? {
        return;
      }
      var data := Spec.Take(r.value, Spec.MAX_SIZE - bufinRpos);
      if data == [] {
        Stop();
        return;
      }
      ghost var next := Spec.ReadChild(state, r);
      MemCopy(bufin, bufinRpos, data);
      assert bufin[..bufinRpos + |data|] == bufin[..bufinRpos] + bufin[bufinRpos..bufinRpos + |data|];
      bufinRpos := bufinRpos + |data|;
      SetState(next);
    }

    /** The rbuf_again loop: print text until a frame for an interface or an incomplete message is in front. */
    method HandleChild()
      requires Valid() && Spec.WellFormedBytes(state.bufin)
      modifies this`running, this`state, this`bufinRpos, this`bufinWriteOff, this`bufinWriteLeft, this`currentWrite
      modifies bufin
      ensures Valid() && state == Spec.HandleChild(old(state))
    {
      hide PortsHold, JobHolds, Interface.HoldsText, Spec.JobShape, Spec.OutShape;
      while running && currentWrite == null && bufinRpos >= HEADER_SIZE
        invariant Valid() && Spec.WellFormedBytes(state.bufin)
        invariant Spec.HandleChild(state) == Spec.HandleChild(old(state))
        decreases running && currentWrite == null, bufinRpos
      {
        var size := Field(bufin[0], bufin[1]);
        var kind := Field(bufin[2], bufin[3]);
        assert size == SizeField(state.bufin) && kind == TypeField(state.bufin);
        if size > bufinRpos {
          break;
        }
        if kind == 0 {
          PrintText(size);
        } else if kind > |gifc| {
          Stop();
        } else {
          BeginOut(size, kind);
        }
      }
    }

    method PrintText(size: nat)
      requires Valid() && state.out.NoOut? && HasMessage(state.bufin) && size == SizeField(state.bufin) >= HEADER_SIZE
      modifies this`state, this`bufinRpos, bufin
      ensures Valid() && state == Spec.PrintText(old(state))
    {
      hide PortsHold, JobHolds, Interface.HoldsText, OutHolds, Spec.JobShape, Spec.OutShape;
      ghost var next := Spec.PrintText(state);
      RemoveFront(size);
      SetState(next);
    }

    method BeginOut(size: nat, kind: nat)
      requires Valid() && running && state.out.NoOut? && HasMessage(state.bufin)
      requires size == SizeField(state.bufin) > HEADER_SIZE && 0 < kind == TypeField(state.bufin) <= |gifc|
      requires Spec.WellFormedBytes(state.bufin)
      modifies this`state, this`bufinWriteOff, this`bufinWriteLeft, this`currentWrite
      ensures Valid() && state == Spec.HandleChild(old(state)) && currentWrite != null
    {
      hide PortsHold, JobHolds, Interface.HoldsText, BufinHolds;
      ghost var next := Spec.HandleChild(state);
      currentWrite := gifc[kind - 1];
      bufinWriteLeft := size - HEADER_SIZE;
      bufinWriteOff := HEADER_SIZE;
      SetState(next);
    }

    // ----- The interfaces -----

    /** Read a frame into the empty buffer of interface i and put a header in front of it. */
    method ReceiveFrame(i: nat, r: Spec.PortEvent)
      requires Valid() && i < |gifc|
      requires r.Received? ==> 0 < |r.frame| <= Spec.MAX_SIZE
      modifies this`running, this`state, gifc[i], gifc[i].buftun
      ensures Valid() && state == Spec.ReceiveFrame(old(state), i, r)
    {
      hide BufinHolds, OutHolds, Interface.HoldsText, Spec.JobShape, Spec.OutShape;
      if r.Quiet? || gifc[i].size != 0 || r.Foreign? {
        return;
      }
      if r.Failed? {
        Stop();
        return;
      }
      ghost var next := Spec.ReceiveFrame(state, i, r);
      StoreFrame(i, r.frame);
      SetState(next);
    }

    method StoreFrame(i: nat, frame: seq<byte>)
      requires Valid() && i < |gifc| && state.ports[i] == [] && 0 < |frame| <= Spec.MAX_SIZE
      modifies gifc[i], gifc[i].buftun
      ensures PortsHold(state.ports[i := Encode(Message(i + 1, frame))])
      ensures cmdLine.HoldsText(state.cmd) && JobHolds(state.job)
    {
      hide BufinHolds, OutHolds, Interface.HoldsText, Interface.Holds, Encode;
      gifc[i].Fill(i + 1, frame);
    }

    /** If the child is free, start writing the frame of interface i. */
    method SelectPort(i: nat)
      requires Valid() && i < |gifc|
      modifies this`state, this`currentRead, gifc[i]
      ensures Valid() && state == Spec.SelectPort(old(state), i)
    {
      hide BufinHolds, OutHolds, Interface.HoldsText, Spec.OutShape;
      if !running || currentRead != null || gifc[i].size == 0 {
        return;
      }
      ghost var next := Spec.SelectPort(state, i);
      currentRead := gifc[i];
      currentRead.off := 0;
      SetState(next);
    }

    method ServePort(i: nat, r: Spec.PortEvent)
      requires Valid() && i < |gifc|
      requires r.Received? ==> 0 < |r.frame| <= Spec.MAX_SIZE
      modifies this`running, this`state, this`currentRead, gifc[i], gifc[i].buftun
      ensures Valid() && state == Spec.ServePort(old(state), i, r)
    {
      hide Represents, Spec.Shape, Spec.ReceiveFrame, Spec.SelectPort;
      if running {
        ReceiveFrame(i, r);
        SelectPort(i);
      }
    }

    method ServePorts(rs: seq<Spec.PortEvent>)
      requires Valid() && |rs| == |gifc|
      requires forall k | 0 <= k < |rs| :: rs[k].Received? ==> 0 < |rs[k].frame| <= Spec.MAX_SIZE
      modifies this`running, this`state, this`currentRead, Sources()
      ensures Valid() && state == Spec.ServePorts(old(state), 0, rs)
    {
      hide Represents, Spec.Shape, Spec.ServePort;
      var i := 0;
      while i < |gifc|
        invariant Valid() && i <= |gifc|
        invariant Spec.ServePorts(state, i, rs) == Spec.ServePorts(old(state), 0, rs)
      {
        ServePort(i, rs[i]);
        i := i + 1;
      }
    }

    /** One pass of the event loop. */
    method Iterate(e: Spec.Events)
      requires Valid() && Spec.Possible(state, e)
      requires Spec.WellFormedBytes(Spec.BeforeHandling(state, e).bufin)
      modifies this, Buffers()
      ensures Valid() && state == Spec.Iterate(old(state), e)
    {
      hide Represents, Spec.Shape, Spec.ReadStdin, Spec.WriteChild, Spec.SendPort, Spec.SelectLine, Spec.ReadChild,
           Spec.HandleChild, Spec.ServePorts, Spec.WellFormedBytes;
      ReadStdin(e.stdin);
      WriteChild(e.toChild);
      SendPort(e.toPort);
      SelectLine();
      ReadChild(e.fromChild);
      HandleChild();
      ServePorts(e.ports);
    }
  }

  /** The message with all addresses that main writes before it enters the loop. */
  method MakeGreeting(macs: seq<seq<byte>>) returns (mbuf: array<byte>)
    requires forall m | m in macs :: |m| == MAC_SIZE
    ensures fresh(mbuf) && mbuf[..] == Encode(Message(0, Concat(macs)))
  {
    hide Concat;
    var size := HEADER_SIZE + |macs| * MAC_SIZE;
    mbuf := new byte[size];
    MemCopy(mbuf, 0, Htons(size) + Htons(0));
    ghost var header := mbuf[..HEADER_SIZE];
    CopyMacs(mbuf, macs);
    assert mbuf[..] == mbuf[..HEADER_SIZE] + mbuf[HEADER_SIZE..] == header + Concat(macs);
  }

  method CopyMacs(mbuf: array<byte>, macs: seq<seq<byte>>)
    requires mbuf.Length == HEADER_SIZE + |macs| * MAC_SIZE
    requires forall m | m in macs :: |m| == MAC_SIZE
    modifies mbuf
    ensures mbuf[..HEADER_SIZE] == old(mbuf[..HEADER_SIZE])
    ensures mbuf[HEADER_SIZE..] == Concat(macs)
  {
    var i, at := 0, HEADER_SIZE;
    assert macs[..0] == [];
    while i < |macs|
      invariant i <= |macs| && at == HEADER_SIZE + i * MAC_SIZE
      invariant mbuf[..at] == old(mbuf[..HEADER_SIZE]) + Concat(macs[..i])
    {
      hide Concat;
      AppendPart(macs, i);
      PutAt(mbuf, at, macs[i]);
      assert old(mbuf[..HEADER_SIZE]) + Concat(macs[..i]) + macs[i]
          == old(mbuf[..HEADER_SIZE]) + (Concat(macs[..i]) + macs[i]);
      i, at := i + 1, at + MAC_SIZE;
    }
    assert macs[..|macs|] == macs && mbuf[..at] == mbuf[..];
    assert mbuf[HEADER_SIZE..] == mbuf[..][HEADER_SIZE..];
  }

  method PutAt(a: array<byte>, at: nat, data: seq<byte>)
    requires at + |data| <= a.Length
    modifies a
    ensures a[..at + |data|] == old(a[..at]) + data
  {
    MemCopy(a, at, data);
    assert a[..at + |data|] == a[..at] + a[at..at + |data|];
  }

  lemma SliceOfSlice(b: seq<byte>, from: nat, n: nat, k: nat)
    requires from + n <= |b| && k <= n
    ensures b[from..from + n][..k] == b[from..from + k]
  {}

  lemma AppendPart(parts: seq<seq<byte>>, i: nat)
    requires i < |parts|
    ensures Concat(parts[..i + 1]) == Concat(parts[..i]) + parts[i]
  {
    ConcatAppend(parts[..i], parts[i]);
    assert parts[..i + 1] == parts[..i] + [parts[i]];
  }
}

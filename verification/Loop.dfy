/** The child's receiving loop: an incremental deframer that dispatches to three handlers. */
module Loop {
  import opened Wire
  import opened Net

  /** One call of a handler: handle_mac, handle_control or handle_frame. */
  datatype Call =
    | Mac(ifc: nat, addr: seq<byte>)
    | Control(text: seq<byte>)
    | Frame(ifc: nat, data: seq<byte>)

  /** An aborted loop is a dead process: what its buffer held is gone. */
  datatype State = State(buf: seq<byte>, haveMac: bool, aborted: bool, calls: seq<Call>)

  const INITIAL := State([], false, false, [])

  /** The inner loop leaves b alone: no more than a header, or the first message is incomplete. */
  predicate Waiting(b: seq<byte>) {
    |b| <= HEADER_SIZE || |b| < SizeField(b)
  }

  /** handle_mac for entries from, from + 1, ... of a MAC list; bytes beyond the last full entry are ignored. */
  function MacCalls(list: seq<byte>, from: nat): (r: seq<Call>)
    requires from <= |list| / MAC_SIZE
    decreases |list| / MAC_SIZE - from
  {
    if from == |list| / MAC_SIZE then []
    else [MacCallAt(list, from)] + MacCalls(list, from + 1)
  }

  function MacCallAt(list: seq<byte>, i: nat): Call
    requires i < |list| / MAC_SIZE
  {
    Mac(i + 1, list[i * MAC_SIZE..i * MAC_SIZE + MAC_SIZE])
  }

  /** Interface n is told the n-th address of the list. */
  lemma {:induction false} MacCallsAt(list: seq<byte>, from: nat)
    requires from <= |list| / MAC_SIZE
    ensures var r := MacCalls(list, from);
            && |r| == |list| / MAC_SIZE - from
            && forall k | 0 <= k < |r| :: r[k] == MacCallAt(list, from + k)
    decreases |list| / MAC_SIZE - from
  {
    if from < |list| / MAC_SIZE {
      MacCallsAt(list, from + 1);
    }
  }

  /** The handler calls one message leads to. */
  function Dispatch(m: Message, haveMac: bool): (r: seq<Call>) {
    if m.kind != 0 then [Frame(m.kind, m.payload)]
    else if haveMac then [Control(m.payload)]
    else MacCalls(m.payload, 0)
  }

  /** The handler calls a sequence of messages should lead to. */
  function CallsOf(ms: seq<Message>, haveMac: bool): (r: seq<Call>) {
    if ms == [] then []
    else Dispatch(ms[0], haveMac) + CallsOf(ms[1..], haveMac || ms[0].kind == 0)
  }

  /** One pass of the inner loop that consumes a message. */
  function Consume(s: State): (r: State)
    requires !s.aborted && !Waiting(s.buf) && SizeField(s.buf) >= HEADER_SIZE
    ensures |r.buf| < |s.buf|
  {
    var m := First(s.buf);
    State(s.buf[SizeField(s.buf)..], s.haveMac || m.kind == 0, false, s.calls + Dispatch(m, s.haveMac))
  }

  function Abort(s: State): State {
    s.(aborted := true, buf := [])
  }

  /** A state the loop can be in when it calls read. */
  predicate Settled(s: State) {
    if s.aborted then s.buf == [] else Waiting(s.buf)
  }

  /** The inner loop run until it waits or aborts. */
  function Drain(s: State): (r: State)
    ensures Settled(r)
    decreases |s.buf|
  {
    if s.aborted then s.(buf := [])
    else if Waiting(s.buf) then s
    else if SizeField(s.buf) < HEADER_SIZE then Abort(s)
    else Drain(Consume(s))
  }

  /** What one successful read of chunk makes of the state. */
  function Feed(s: State, chunk: seq<byte>): State {
    if s.aborted then s else Drain(s.(buf := s.buf + chunk))
  }

  function FeedAll(s: State, chunks: seq<seq<byte>>): State
    decreases |chunks|
  {
    if chunks == [] then s else FeedAll(Feed(s, chunks[0]), chunks[1..])
  }

  // ----- Chunk independence -----

  /** Parsing a + b equals parsing a and then the residue followed by b. */
  lemma {:induction false} FeedSplit(s: State, a: seq<byte>, b: seq<byte>)
    ensures Feed(s, a + b) == Feed(Feed(s, a), b)
    decreases |s.buf| + |a|
  {
    if s.aborted {
    } else {
      var t := s.(buf := s.buf + a);
      var u := s.(buf := s.buf + (a + b));
      assert u.buf == t.buf + b;
      if Waiting(t.buf) {
      } else if SizeField(t.buf) < HEADER_SIZE {
      } else {
        var size := SizeField(t.buf);
        assert u.buf[size..] == t.buf[size..] + b;
        assert u.buf[HEADER_SIZE..size] == t.buf[HEADER_SIZE..size];
        var c := Consume(t);
        assert Consume(u) == c.(buf := c.buf + b);
        FeedSplit(c, [], b);
        assert c.buf + [] == c.buf && [] + b == b;
      }
    }
  }

  /** Calls, residue, mode and abort depend only on the concatenated input, however read splits it. */
  lemma {:induction false} ChunkIndependence(s: State, chunks: seq<seq<byte>>)
    requires Settled(s)
    ensures FeedAll(s, chunks) == Feed(s, Concat(chunks))
    decreases |chunks|
  {
    if chunks == [] {
      assert s.buf + [] == s.buf;
    } else {
      ChunkIndependence(Feed(s, chunks[0]), chunks[1..]);
      FeedSplit(s, chunks[0], Concat(chunks[1..]));
    }
  }

  lemma FeedNext(input: seq<byte>, n: nat, k: nat)
    requires n + k <= |input|
    ensures Feed(INITIAL, input[..n + k]) == Feed(Feed(INITIAL, input[..n]), input[n..n + k])
  {
    FeedSplit(INITIAL, input[..n], input[n..n + k]);
    assert input[..n] + input[n..n + k] == input[..n + k];
  }

  // ----- What the loop makes of encoded messages -----

  /** Calls are only ever appended, and handle_mac is not called once the MAC list was seen. */
  lemma {:induction false} DrainAppends(s: State)
    ensures s.calls <= Drain(s).calls
    ensures s.haveMac ==> forall i | |s.calls| <= i < |Drain(s).calls| :: !Drain(s).calls[i].Mac?
    decreases |s.buf|
  {
    if !s.aborted && !Waiting(s.buf) && SizeField(s.buf) >= HEADER_SIZE {
      DrainAppends(Consume(s));
    }
  }

  lemma FeedAppends(s: State, chunk: seq<byte>)
    ensures s.calls <= Feed(s, chunk).calls
  {
    if !s.aborted {
      DrainAppends(s.(buf := s.buf + chunk));
    }
  }

  /** The state after a message was taken from an otherwise empty buffer. */
  function Delivered(s: State, m: Message): State {
    State([], s.haveMac || m.kind == 0, false, s.calls + Dispatch(m, s.haveMac))
  }

  /** A message is taken whole as soon as more than a header has arrived. */
  lemma FeedMessage(s: State, m: Message, rest: seq<byte>)
    requires !s.aborted && s.buf == []
    requires Fits(m) && m.payload + rest != []
    ensures Feed(s, Encode(m) + rest) == Feed(Delivered(s, m), rest)
  {
    hide Encode, SizeField, TypeField, First, Dispatch;
    var e := Encode(m) + rest;
    FirstOfEncoded(m, rest);
    assert [] + e == e && [] + rest == rest;
    var t := s.(buf := e);
    assert Consume(t) == Delivered(s, m).(buf := rest);
    assert Drain(t) == Drain(Consume(t));
  }

  lemma FeedWaiting(s: State, b: seq<byte>)
    requires !s.aborted && s.buf == [] && Waiting(b)
    ensures Feed(s, b) == s.(buf := b)
  {
    assert [] + b == b;
  }

  /** A message without payload is not taken before the next byte arrives: what is handled when all of ms is there. */
  function Ready(ms: seq<Message>): (r: seq<Message>)
    ensures r <= ms
  {
    if ms != [] && ms[|ms| - 1].payload == [] then ms[..|ms| - 1] else ms
  }

  lemma ReadyAlone(ms: seq<Message>)
    requires |ms| == 1 && ms[0].payload == []
    ensures Ready(ms) == [] && ms[|Ready(ms)|..] == ms
  {
    assert ms[0..] == ms;
  }

  lemma ReadyRest(ms: seq<Message>)
    requires |ms| > 1 || (|ms| == 1 && ms[0].payload != [])
    ensures Ready(ms) != [] && Ready(ms)[0] == ms[0] && Ready(ms)[1..] == Ready(ms[1..])
    ensures ms[|Ready(ms)|..] == ms[1..][|Ready(ms[1..])|..]
  {}

  lemma ReadyWithPayloads(ms: seq<Message>)
    requires forall m | m in ms :: m.payload != []
    ensures Ready(ms) == ms && Stream(ms[|Ready(ms)|..]) == []
  {
    if ms != [] {
      assert ms[|ms| - 1] in ms;
    }
  }

  /** Decoding inverts encoding: the messages come out whole and in order, and only a bare header can be left. */
  lemma {:induction false} FeedStream(s: State, ms: seq<Message>)
    requires !s.aborted && s.buf == [] && AllFit(ms)
    ensures Feed(s, Stream(ms)).calls == s.calls + CallsOf(Ready(ms), s.haveMac)
    ensures Feed(s, Stream(ms)).buf == Stream(ms[|Ready(ms)|..]) && !Feed(s, Stream(ms)).aborted
    decreases |ms|
  {
    hide Encode, Feed, Dispatch, Ready;
    if ms == [] {
      FeedWaiting(s, []);
    } else if |ms| == 1 && ms[0].payload == [] {
      assert |Stream(ms)| == HEADER_SIZE;
      FeedWaiting(s, Stream(ms));
      ReadyAlone(ms);
    } else {
      var t, rest := Delivered(s, ms[0]), ms[1..];
      FeedMessage(s, ms[0], Stream(rest));
      FeedStream(t, rest);
      ReadyRest(ms);
      CallsOfFirst(s.calls, Ready(ms), s.haveMac);
    }
  }

  lemma CallsOfFirst(calls: seq<Call>, ms: seq<Message>, haveMac: bool)
    requires ms != []
    ensures calls + Dispatch(ms[0], haveMac) + CallsOf(ms[1..], haveMac || ms[0].kind == 0)
         == calls + CallsOf(ms, haveMac)
  {}

  /** Whatever part of a stream has arrived, the calls made are a prefix of the calls the stream stands for. */
  lemma PrefixDelivery(ms: seq<Message>, arrived: seq<byte>)
    requires AllFit(ms) && arrived <= Stream(ms)
    ensures !Feed(INITIAL, arrived).aborted
    ensures Feed(INITIAL, arrived).calls <= CallsOf(Ready(ms), false)
    ensures arrived == Stream(ms) ==>
              && Feed(INITIAL, arrived).calls == CallsOf(Ready(ms), false)
              && Feed(INITIAL, arrived).buf == Stream(ms[|Ready(ms)|..])
  {
    hide Drain, Stream, CallsOf;
    var later := Stream(ms)[|arrived|..];
    assert Stream(ms) == arrived + later;
    FeedSplit(INITIAL, arrived, later);
    FeedAppends(Feed(INITIAL, arrived), later);
    FeedStream(INITIAL, ms);
    assert [] + CallsOf(Ready(ms), false) == CallsOf(Ready(ms), false);
  }

  // ----- Exactly which messages survive the 16-bit size field -----

  /** A call that a 16-bit size and a 16-bit type can lead to: at most 65531 bytes, or 10921 addresses. */
  predicate Callable(c: Call) {
    match c
    case Mac(ifc, addr) => ifc <= LARGEST_PAYLOAD / MAC_SIZE
    case Control(text) => |text| <= LARGEST_PAYLOAD
    case Frame(ifc, data) => |data| <= LARGEST_PAYLOAD && ifc < FIELD_LIMIT
  }

  /** The handlers are given nothing but such calls, whatever the loop reads. */
  lemma {:induction false} DrainCallable(s: State)
    requires forall c | c in s.calls :: Callable(c)
    ensures forall c | c in Drain(s).calls :: Callable(c)
    decreases |s.buf|
  {
    if !s.aborted && !Waiting(s.buf) && SizeField(s.buf) >= HEADER_SIZE {
      DispatchCallable(First(s.buf), s.haveMac);
      DrainCallable(Consume(s));
    }
  }

  lemma FeedCallable(input: seq<byte>)
    ensures forall c | c in Feed(INITIAL, input).calls :: Callable(c)
  {
    DrainCallable(INITIAL.(buf := [] + input));
  }

  /** A message fits exactly if the calls it stands for can all be made. */
  lemma DispatchCallable(m: Message, haveMac: bool)
    ensures Fits(m) <==> forall c | c in Dispatch(m, haveMac) :: Callable(c)
  {
    var calls, n := Dispatch(m, haveMac), LARGEST_PAYLOAD / MAC_SIZE;
    if m.kind == 0 && !haveMac {
      MacCallsAt(m.payload, 0);
      if Fits(m) {
        assert |calls| <= n;
      } else {
        assert |calls| > n && calls[n] == MacCallAt(m.payload, n) && calls[n] in calls;
      }
    } else {
      assert calls[0] in calls;
    }
  }

  lemma {:induction false} CallsOfCallable(ms: seq<Message>, haveMac: bool)
    ensures AllFit(ms) <==> forall c | c in CallsOf(ms, haveMac) :: Callable(c)
  {
    hide Dispatch, Callable, Fits;
    if ms != [] {
      var first, later := Dispatch(ms[0], haveMac), CallsOf(ms[1..], haveMac || ms[0].kind == 0);
      DispatchCallable(ms[0], haveMac);
      CallsOfCallable(ms[1..], haveMac || ms[0].kind == 0);
      assert ms == [ms[0]] + ms[1..];
      assert forall c | c in first :: c in first + later;
      assert forall c | c in later :: c in first + later;
    }
  }

  /** Whatever is read, the handlers never come to see all of what a sequence with an overlong message stands for. */
  lemma UnfitIsNeverTold(ms: seq<Message>, input: seq<byte>)
    requires !AllFit(ms)
    ensures !(CallsOf(ms, false) <= Feed(INITIAL, input).calls)
  {
    hide Feed, CallsOf, Callable, Fits;
    CallsOfCallable(ms, false);
    FeedCallable(input);
    var c :| c in CallsOf(ms, false) && !Callable(c);
  }

  /** What a receiver reads from the header of a message whose size wrapped. */
  lemma WrappedHeader(m: Message, rest: seq<byte>)
    requires m.kind < FIELD_LIMIT && FIELD_LIMIT <= HEADER_SIZE + |m.payload| < 2 * FIELD_LIMIT
    ensures var b := Encode(m) + rest;
            && SizeField(b) == HEADER_SIZE + |m.payload| - FIELD_LIMIT < |b|
            && !Waiting(b)
            && (SizeField(b) >= HEADER_SIZE ==> First(b).kind == m.kind)
  {
    EncodedFields(m, rest);
  }

  /** A payload of 65532 to 65535 bytes ends the child as soon as more than its header has arrived. */
  lemma OverlongEndsChild(s: State, m: Message, arrived: seq<byte>)
    requires !s.aborted && s.buf == [] && HEADER_SIZE < |arrived| && arrived <= Encode(m)
    requires m.kind < FIELD_LIMIT && FIELD_LIMIT <= HEADER_SIZE + |m.payload| < FIELD_LIMIT + HEADER_SIZE
    ensures Feed(s, arrived).aborted && Feed(s, arrived).calls == s.calls
  {
    WrappedHeader(m, []);
    assert Encode(m) + [] == Encode(m) && [] + arrived == arrived;
    FieldsOfPrefix(arrived, Encode(m));
    hide Encode, SizeField, TypeField;
  }

  /** The handlers see exactly what was sent if and only if no size field wraps. */
  lemma DeliveredIffAllFit(ms: seq<Message>)
    requires forall m | m in ms :: m.payload != []
    ensures Feed(INITIAL, Stream(ms)).calls == CallsOf(ms, false) <==> AllFit(ms)
  {
    hide Stream, Feed, CallsOf, Fits;
    if AllFit(ms) {
      ReadyWithPayloads(ms);
      FeedStream(INITIAL, ms);
      assert [] + CallsOf(ms, false) == CallsOf(ms, false);
    } else {
      UnfitIsNeverTold(ms, Stream(ms));
    }
  }

  // ----- The loop itself -----

  class Receiver {
    const buf: array<byte>
    var off: nat
    var haveMac: bool
    var aborted: bool
    ghost var calls: seq<Call>

    ghost predicate Valid()
      reads this, buf
    {
      buf.Length == 65535 && off <= buf.Length && (aborted || Waiting(buf[..off]))
    }

    ghost function Abstract(): State
      reads this, buf
      requires Valid()
    {
      State(if aborted then [] else buf[..off], haveMac, aborted, calls)
    }

    constructor ()
      ensures Valid() && Abstract() == INITIAL
      ensures fresh(buf) && off < buf.Length
    {
      buf := new byte[65535];
      off := 0;
      haveMac := false;
      aborted := false;
      calls := [];
    }

    /** The buffered bytes and the rest of the state while the inner loop runs. */
    ghost function Current(): State
      reads this, buf
      requires off <= buf.Length
    {
      State(buf[..off], haveMac, aborted, calls)
    }

    /** One pass of the outer loop, after read returned data. Room for the next read remains. */
    method OnRead(data: seq<byte>)
      requires Valid() && !aborted
      requires off + |data| <= buf.Length
      modifies this, buf
      ensures Valid()
      ensures Abstract() == Feed(old(Abstract()), data)
      ensures !aborted ==> off < buf.Length
    {
      MemCopy(buf, off, data);
      assert buf[..off + |data|] == buf[..off] + buf[off..off + |data|];
      off := off + |data|;
      while off > HEADER_SIZE
        invariant off <= buf.Length && !aborted
        invariant Drain(Current()) == Feed(old(Abstract()), data)
        decreases off
      {
        var size := Field(buf[0], buf[1]);
        assert size == SizeField(Current().buf);
        if off < size {
          break;
        }
        if size < HEADER_SIZE {
          aborted := true;
          return;
        }
        ConsumeFirst(size);
      }
    }

    /** Dispatch the first message and move the bytes behind it to the front. */
    method ConsumeFirst(size: nat)
      requires HEADER_SIZE < off <= buf.Length && !aborted
      requires size == SizeField(Current().buf) && HEADER_SIZE <= size <= off
      modifies this`off, this`haveMac, this`calls, buf
      ensures off <= buf.Length
      ensures Current() == Consume(old(Current()))
      ensures off < old(off)
    {
      ghost var before := Current();
      var kind := Field(buf[2], buf[3]);
      var payload := buf[HEADER_SIZE..size];
      assert before.buf[HEADER_SIZE..size] == payload;
      if kind == 0 {
        if !haveMac {
          DeliverMacs(payload);
          haveMac := true;
        } else {
          calls := calls + [Control(payload)];
        }
      } else {
        calls := calls + [Frame(kind, payload)];
      }
      MemMove(buf, 0, size, off - size);
      off := off - size;
      assert buf[..off] == before.buf[size..];
    }

    /** The calls of handle_mac for one MAC list. */
    method DeliverMacs(list: seq<byte>)
      modifies this`calls
      ensures calls == old(calls) + MacCalls(list, 0)
    {
      var i := 0;
      while i < |list| / MAC_SIZE
        invariant i <= |list| / MAC_SIZE
        invariant calls + MacCalls(list, i) == old(calls) + MacCalls(list, 0)
      {
        calls := calls + [Mac(i + 1, list[i * MAC_SIZE..i * MAC_SIZE + MAC_SIZE])];
        i := i + 1;
      }
    }

    /**
     * The outer loop over input, where the k-th read may return at most counts[k] bytes. It always asks for at
     * least one byte, so that a zero result means end of file, and goes on until then or an abort.
     */
    method Run(input: seq<byte>, counts: seq<nat>) returns (n: nat, k: nat)
      requires Valid() && Abstract() == INITIAL && off < buf.Length
      modifies this, buf
      ensures Valid() && k <= n <= |input| && k <= |counts|
      ensures Abstract() == Feed(INITIAL, input[..n])
      ensures aborted || NothingInTime(input, n, counts, k)
    {
      n, k := 0, 0;
      assert INITIAL.(buf := [] + input[..0]) == INITIAL;
      while k < |counts|
        invariant Valid() && k <= n <= |input| && k <= |counts|
        invariant aborted || off < buf.Length
        invariant Abstract() == Feed(INITIAL, input[..n])
      {
        var room := buf.Length - off;
        var ret := if counts[k] < room then counts[k] else room;
        if |input| - n < ret {
          ret := |input| - n;
        }
        if ret == 0 || aborted {
          break;
        }
        FeedNext(input, n, ret);
        OnRead(input[n..n + ret]);
        n := n + ret;
        k := k + 1;
      }
    }
  }
}

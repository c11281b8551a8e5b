/** The message format spoken over both pipes between the driver and its child. */
module Wire {

  type byte = x: int | 0 <= x < 256

  /** sizeof (struct GLAB_MessageHeader): a 16-bit size followed by a 16-bit type. */
  const HEADER_SIZE: nat := 4

  /** One more than the largest value of a 16-bit field. */
  const FIELD_LIMIT: nat := 65536

  /** The longest payload whose size still fits its field. */
  const LARGEST_PAYLOAD: nat := FIELD_LIMIT - 1 - HEADER_SIZE

  datatype Option<+T> = None | Some(value: T)

  const NEWLINE: byte := 10

  /** Kind 0 is control text, kind n > 0 a frame of interface n. */
  datatype Message = Message(kind: nat, payload: seq<byte>)

  /** The two bytes of a 16-bit field in network order; larger values are truncated as by htons. */
  function Htons(v: nat): (r: seq<byte>)
    ensures |r| == 2
  {
    [(v / 256) % 256, v % 256]
  }

  /** The value of a 16-bit field, as ntohs gives it. */
  function Field(high: byte, low: byte): nat {
    var h: int := high;
    h * 256 + low
  }

  function SizeField(b: seq<byte>): nat
    requires |b| >= HEADER_SIZE
  {
    var high: int := b[0];
    high * 256 + b[1]
  }

  function TypeField(b: seq<byte>): nat
    requires |b| >= HEADER_SIZE
  {
    var high: int := b[2];
    high * 256 + b[3]
  }

  function Encode(m: Message): (r: seq<byte>)
    ensures |r| == HEADER_SIZE + |m.payload|
  {
    Htons(HEADER_SIZE + |m.payload|) + Htons(m.kind) + m.payload
  }

  /** The header of m represents m: neither 16-bit field wraps. */
  predicate Fits(m: Message) {
    HEADER_SIZE + |m.payload| < FIELD_LIMIT && m.kind < FIELD_LIMIT
  }

  predicate AllFit(ms: seq<Message>) {
    forall m | m in ms :: Fits(m)
  }

  /** What the receiver reads from the first header of an encoded message followed by anything. */
  lemma EncodedFields(m: Message, rest: seq<byte>)
    ensures SizeField(Encode(m) + rest) == (HEADER_SIZE + |m.payload|) % FIELD_LIMIT
    ensures TypeField(Encode(m) + rest) == m.kind % FIELD_LIMIT
    ensures (Encode(m) + rest)[HEADER_SIZE..HEADER_SIZE + |m.payload|] == m.payload
    ensures (Encode(m) + rest)[HEADER_SIZE + |m.payload|..] == rest
  {
    var b := Encode(m) + rest;
    SplitField(HEADER_SIZE + |m.payload|);
    SplitField(m.kind);
    assert b[0] == Htons(HEADER_SIZE + |m.payload|)[0] && b[1] == Htons(HEADER_SIZE + |m.payload|)[1];
    assert b[2] == Htons(m.kind)[0] && b[3] == Htons(m.kind)[1];
  }

  /** Four bytes show the header. */
  lemma FieldsOfPrefix(b: seq<byte>, all: seq<byte>)
    requires HEADER_SIZE <= |b| && b <= all
    ensures SizeField(b) == SizeField(all) && TypeField(b) == TypeField(all)
    ensures forall i, j | 0 <= i <= j <= |b| :: b[i..j] == all[i..j]
  {
    assert b == all[..|b|];
    assert b[0] == all[0] && b[1] == all[1] && b[2] == all[2] && b[3] == all[3];
  }

  lemma SplitField(v: nat)
    ensures (v / 256) % 256 * 256 + v % 256 == v % FIELD_LIMIT
  {
    var hi, lo := v / 256, v % 256;
    var q, r := hi / 256, hi % 256;
    assert v == (q * 256 + r) * 256 + lo == q * FIELD_LIMIT + (r * 256 + lo);
    assert 0 <= r * 256 + lo < FIELD_LIMIT;
  }

  /** A 16-bit value in network order: the more significant byte comes first. */
  predicate NetworkOrder(b: seq<byte>, at: nat, v: nat)
    requires at + 2 <= |b|
  {
    var high: int, low: int := b[at], b[at + 1];
    v == 256 * high + low
  }

  /** On the wire, a message that fits is its size, its type and its payload, the 16-bit fields in network order. */
  lemma EncodedBytes(m: Message)
    requires Fits(m)
    ensures var b := Encode(m);
            && NetworkOrder(b, 0, HEADER_SIZE + |m.payload|) && NetworkOrder(b, 2, m.kind)
            && b[HEADER_SIZE..] == m.payload && |b| == HEADER_SIZE + |m.payload|
  {
    assert m.kind / 256 < 256 && (HEADER_SIZE + |m.payload|) / 256 < 256;
  }

  /** And these are the fields that a receiver reads. */
  lemma FieldsRead(b: seq<byte>, size: nat, kind: nat)
    requires |b| >= HEADER_SIZE
    ensures SizeField(b) == size <==> NetworkOrder(b, 0, size)
    ensures TypeField(b) == kind <==> NetworkOrder(b, 2, kind)
    ensures Field(b[0], b[1]) == size <==> NetworkOrder(b, 0, size)
  {}

  /** Bytes whose header fields agree with their length are an encoded message. */
  lemma DecodeEncode(b: seq<byte>)
    requires |b| >= HEADER_SIZE && SizeField(b) == |b|
    ensures Encode(Message(TypeField(b), b[HEADER_SIZE..])) == b
  {
    var e := Encode(Message(TypeField(b), b[HEADER_SIZE..]));
    assert SizeField(b) / 256 == b[0] && TypeField(b) / 256 == b[2];
    assert e[0] == b[0] && e[1] == b[1] && e[2] == b[2] && e[3] == b[3];
    assert forall k | HEADER_SIZE <= k < |b| :: e[k] == b[HEADER_SIZE..][k - HEADER_SIZE];
  }

  /** The first message of a buffer, as its header describes it. */
  function First(b: seq<byte>): (m: Message)
    requires |b| >= HEADER_SIZE && HEADER_SIZE <= SizeField(b) <= |b|
    ensures |m.payload| == SizeField(b) - HEADER_SIZE
  {
    Message(TypeField(b), b[HEADER_SIZE..SizeField(b)])
  }

  /** A message that its header represents is what its receiver finds in front. */
  lemma FirstOfEncoded(m: Message, rest: seq<byte>)
    requires Fits(m)
    ensures var b := Encode(m) + rest;
            && SizeField(b) == HEADER_SIZE + |m.payload| && TypeField(b) == m.kind
            && First(b) == m && b[SizeField(b)..] == rest
            && b[HEADER_SIZE..HEADER_SIZE + |m.payload|] == m.payload
  {
    EncodedFields(m, rest);
    hide Encode, SizeField, TypeField;
  }

  /** A complete message is in front. */
  predicate HasMessage(b: seq<byte>) {
    |b| >= HEADER_SIZE && SizeField(b) <= |b|
  }

  /** The bytes of messages sent one after the other. */
  function Stream(ms: seq<Message>): (r: seq<byte>) {
    if ms == [] then [] else Encode(ms[0]) + Stream(ms[1..])
  }

  lemma {:induction false} StreamConcat(a: seq<Message>, b: seq<Message>)
    ensures Stream(a + b) == Stream(a) + Stream(b)
  {
    if a == [] {
      assert a + b == b;
    } else {
      assert (a + b)[0] == a[0] && (a + b)[1..] == a[1..] + b;
      calc {
        Stream(a + b);
        Encode(a[0]) + Stream(a[1..] + b);
        { StreamConcat(a[1..], b); }
        Encode(a[0]) + (Stream(a[1..]) + Stream(b));
        Encode(a[0]) + Stream(a[1..]) + Stream(b);
      }
    }
  }

  lemma StreamAppend(ms: seq<Message>, m: Message)
    ensures Stream(ms + [m]) == Stream(ms) + Encode(m)
  {
    StreamConcat(ms, [m]);
    assert [m][1..] == [];
    assert Stream([m]) == Encode(m) + Stream([]);
  }

  /** A complete message in front of b joins those before it. */
  lemma TakeFromStream(before: seq<Message>, b: seq<byte>)
    requires HasMessage(b) && SizeField(b) >= HEADER_SIZE
    ensures Stream(before) + b == Stream(before + [First(b)]) + b[SizeField(b)..]
    ensures Fits(First(b))
  {
    var size, m := SizeField(b), First(b);
    DecodeEncode(b[..size]);
    assert b[..size][HEADER_SIZE..] == m.payload;
    assert b == Encode(m) + b[size..];
    StreamAppend(before, m);
    assert Stream(before) + (Encode(m) + b[size..]) == Stream(before) + Encode(m) + b[size..];
  }

  lemma ConcatAssociative<T>(a: seq<T>, b: seq<T>, c: seq<T>)
    ensures (a + b) + c == a + (b + c)
  {}

  // ----- Decoding is unique -----

  /** Two streams, one a prefix of the other followed by more, begin with the same message. */
  lemma SameFirst(a: Message, x: seq<byte>, b: Message, y: seq<byte>)
    requires Fits(a) && Fits(b) && Encode(a) + x <= Encode(b) + y
    ensures a == b && x <= y
  {
    var u, v := Encode(a) + x, Encode(b) + y;
    FirstOfEncoded(a, x);
    FirstOfEncoded(b, y);
    FieldsOfPrefix(u, v);
    hide Encode, SizeField, TypeField, First;
    var n := HEADER_SIZE + |a.payload|;
    assert a.payload == u[HEADER_SIZE..n] == v[HEADER_SIZE..n] == b.payload;
    assert x == u[n..] <= v[n..] == y;
  }

  /** Messages decoded from a prefix of a stream are the first messages of the stream. */
  lemma {:induction false} DecodedPrefix(handled: seq<Message>, rest: seq<byte>, output: seq<Message>)
    requires AllFit(handled) && AllFit(output)
    requires Stream(handled) + rest <= Stream(output)
    ensures handled <= output && rest <= Stream(output[|handled|..])
    decreases |handled|
  {
    if handled == [] {
      assert [] + rest == rest;
    } else {
      ConcatAssociative(Encode(handled[0]), Stream(handled[1..]), rest);
      assert |Stream(handled)| >= HEADER_SIZE;
      if output != [] {
        SameFirst(handled[0], Stream(handled[1..]) + rest, output[0], Stream(output[1..]));
        assert AllFit(handled[1..]) && AllFit(output[1..]);
        DecodedPrefix(handled[1..], rest, output[1..]);
        assert handled == [handled[0]] + handled[1..] && output == [output[0]] + output[1..];
        assert output[1..][|handled| - 1..] == output[|handled|..];
      }
    }
  }

  /** A message the child may send: whole in its header, with a payload for a frame. */
  predicate ChildMessage(m: Message) {
    Fits(m) && (m.kind != 0 ==> m.payload != [])
  }

  predicate ChildMessages(ms: seq<Message>) {
    forall m | m in ms :: ChildMessage(m)
  }

  /** After k reads that took the first n bytes of the input, no more can be had. */
  predicate NothingInTime(input: seq<byte>, n: nat, counts: seq<nat>, k: nat) {
    n == |input| || k >= |counts| || counts[k] == 0
  }

  /** Concatenation of byte strings, one per read, write or payload. */
  function Concat(parts: seq<seq<byte>>): (r: seq<byte>) {
    if parts == [] then [] else parts[0] + Concat(parts[1..])
  }

  lemma {:induction false} ConcatAppend(parts: seq<seq<byte>>, p: seq<byte>)
    ensures Concat(parts + [p]) == Concat(parts) + p
  {
    if parts == [] {
      assert parts + [p] == [p];
      assert [p][1..] == [];
      assert Concat([p]) == p + Concat([]);
    } else {
      ConcatAppend(parts[1..], p);
      assert (parts + [p])[1..] == parts[1..] + [p];
    }
  }

  /** The C string at the front of b, which is also what the format "%.*s" prints of b. */
  function UntilZero(b: seq<byte>): (r: seq<byte>)
    ensures r <= b && 0 !in r
    ensures |r| < |b| ==> b[|r|] == 0
  {
    if b == [] || b[0] == 0 then [] else [b[0]] + UntilZero(b[1..])
  }

  function Shown(texts: seq<seq<byte>>): seq<seq<byte>> {
    seq(|texts|, i requires 0 <= i < |texts| => UntilZero(texts[i]))
  }

  /** The payloads of the messages of one kind, in order. */
  function Payloads(ms: seq<Message>, kind: nat): (r: seq<seq<byte>>) {
    if ms == [] then []
    else (if ms[0].kind == kind then [ms[0].payload] else []) + Payloads(ms[1..], kind)
  }

  lemma {:induction false} PayloadsConcat(a: seq<Message>, b: seq<Message>, kind: nat)
    ensures Payloads(a + b, kind) == Payloads(a, kind) + Payloads(b, kind)
  {
    if a == [] {
      assert a + b == b;
    } else {
      assert (a + b)[0] == a[0] && (a + b)[1..] == a[1..] + b;
      var first := if a[0].kind == kind then [a[0].payload] else [];
      calc {
        Payloads(a + b, kind);
        first + Payloads(a[1..] + b, kind);
        { PayloadsConcat(a[1..], b, kind); }
        first + (Payloads(a[1..], kind) + Payloads(b, kind));
        first + Payloads(a[1..], kind) + Payloads(b, kind);
      }
    }
  }

  lemma PayloadsAppend(ms: seq<Message>, m: Message, kind: nat)
    ensures Payloads(ms + [m], kind) == Payloads(ms, kind) + (if m.kind == kind then [m.payload] else [])
  {
    PayloadsConcat(ms, [m], kind);
    assert [m][1..] == [];
    assert Payloads([m], kind) == (if m.kind == kind then [m.payload] else []) + Payloads([], kind);
  }

  /** memmove within one array. */
  method MemMove(a: array<byte>, dst: nat, src: nat, len: nat)
    requires dst + len <= a.Length && src + len <= a.Length
    modifies a
    ensures a[..dst] == old(a[..dst])
    ensures a[dst..dst + len] == old(a[src..src + len])
    ensures a[dst + len..] == old(a[dst + len..])
  {
    forall i | 0 <= i < len {
      a[dst + i] := a[src + i];
    }
    assert forall i | dst <= i < dst + len :: a[i] == old(a[i - dst + src]);
  }

  /** memcpy of a byte string into an array. */
  method MemCopy(a: array<byte>, dst: nat, data: seq<byte>)
    requires dst + |data| <= a.Length
    modifies a
    ensures a[..dst] == old(a[..dst])
    ensures a[dst..dst + |data|] == data
    ensures a[dst + |data|..] == old(a[dst + |data|..])
  {
    forall i | 0 <= i < |data| {
      a[dst + i] := data[i];
    }
  }
}

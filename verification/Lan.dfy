/** Routers on a LAN: what a router does with a frame, and what that keeps true everywhere. */
module Lan {
  import opened Wire
  import opened Net
  import opened ArpCache
  import Routes

  const IPV4_HEADER: nat := 20
  const TAG_IPV4: nat := 0x0800
  const ARP_SIZE: nat := 28
  const TAG_ARP: nat := 0x0806
  const REQUEST: nat := 1
  const REPLY: nat := 2

  // ----- Frames -----

  /** An ARP header; `kind` are the type and length fields in front of the operation, which nobody looks at. */
  datatype Arp = Arp(kind: seq<byte>, oper: nat, senderHa: MacAddress, senderPa: Address,
                     targetHa: MacAddress, targetPa: Address)

  predicate WellFormed(a: Arp) {
    |a.kind| == 6 && a.oper < FIELD_LIMIT
  }

  function EncodeArp(a: Arp): (b: seq<byte>)
    requires WellFormed(a)
    ensures |b| == ARP_SIZE
  {
    a.kind + Htons(a.oper) + a.senderHa + a.senderPa + a.targetHa + a.targetPa
  }

  /** The Ethernet frame around a payload; the tag is swapped on the way, so that it is in network order. */
  function MakeFrame(dst: MacAddress, src: MacAddress, tag: nat, payload: seq<byte>): (f: seq<byte>)
    ensures |f| == ETHERNET_HEADER + |payload|
  {
    dst + src + Htons(tag) + payload
  }

  /** The ARP packet a frame carries; anything behind it is padding. */
  function ParseArp(frame: seq<byte>): (r: Option<Arp>)
    ensures r.Some? ==> WellFormed(r.value)
  {
    if |frame| < ETHERNET_HEADER + ARP_SIZE || Field(frame[12], frame[13]) != TAG_ARP then None
    else
      Some(Arp(frame[14..20], Field(frame[20], frame[21]), frame[22..28], frame[28..32], frame[32..38], frame[38..42]))
  }

  /** An IPv4 packet: its header, the destination in it, and the number of bytes behind the header. */
  datatype Packet = Packet(header: seq<byte>, dest: Address, size: nat)

  /** The IPv4 packet a frame carries. */
  function ParsePacket(frame: seq<byte>): (r: Option<Packet>)
    ensures r.Some? ==> |r.value.header| == IPV4_HEADER
    ensures r.Some? ==> |frame| == ETHERNET_HEADER + IPV4_HEADER + r.value.size && ParseArp(frame).None?
  {
    if |frame| < ETHERNET_HEADER + IPV4_HEADER || Field(frame[12], frame[13]) != TAG_IPV4 then None
    else Some(Packet(frame[14..34], frame[30..34], |frame| - (ETHERNET_HEADER + IPV4_HEADER)))
  }

  lemma FieldOfHtons(v: nat)
    requires v < FIELD_LIMIT
    ensures Field(Htons(v)[0], Htons(v)[1]) == v
  {
    SplitField(v);
  }

  /** Where the fields of an ARP packet lie in its encoding. */
  lemma EncodedArp(a: Arp)
    requires WellFormed(a)
    ensures var b := EncodeArp(a);
            && b[..6] == a.kind && b[6..8] == Htons(a.oper) && b[8..14] == a.senderHa && b[14..18] == a.senderPa
            && b[18..24] == a.targetHa && b[24..28] == a.targetPa
  {
    hide Htons;
  }

  /** Where the parts of a frame lie, whatever follows it. */
  lemma MadeFrame(dst: MacAddress, src: MacAddress, tag: nat, payload: seq<byte>, padding: seq<byte>)
    ensures var f := MakeFrame(dst, src, tag, payload) + padding;
            f[..6] == dst && f[6..12] == src && f[12..14] == Htons(tag) && f[14..14 + |payload|] == payload
  {
    hide Htons;
  }

  lemma SliceOfSlice(f: seq<byte>, b: seq<byte>, at: nat, i: nat, j: nat)
    requires i <= j <= |b| && at + |b| <= |f| && f[at..at + |b|] == b
    ensures f[at + i..at + j] == b[i..j]
  {
    forall k | 0 <= k < j - i ensures f[at + i..at + j][k] == b[i..j][k] {
      assert f[at..at + |b|][i + k] == f[at + i + k];
    }
  }

  lemma FieldOfSlice(f: seq<byte>, at: nat, v: nat)
    requires at + 2 <= |f| && f[at..at + 2] == Htons(v) && v < FIELD_LIMIT
    ensures Field(f[at], f[at + 1]) == v && NetworkOrder(f, at, v)
  {
    FieldOfHtons(v);
    hide Htons;
    assert f[at] == f[at..at + 2][0] && f[at + 1] == f[at..at + 2][1];
  }

  /** The tag of f, and the fields of a at their places behind the Ethernet header. */
  predicate CarriesArp(f: seq<byte>, a: Arp) {
    && |f| >= ETHERNET_HEADER + ARP_SIZE
    && f[12] == 8 && f[13] == 6 && f[14..20] == a.kind && NetworkOrder(f, 20, a.oper) && f[22..28] == a.senderHa
    && f[28..32] == a.senderPa && f[32..38] == a.targetHa && f[38..42] == a.targetPa
  }

  lemma {:induction false} MadeFrameCarries(dst: MacAddress, src: MacAddress, a: Arp, padding: seq<byte>)
    requires WellFormed(a)
    ensures CarriesArp(MakeFrame(dst, src, TAG_ARP, EncodeArp(a)) + padding, a)
  {
    var b, f := EncodeArp(a), MakeFrame(dst, src, TAG_ARP, EncodeArp(a)) + padding;
    EncodedArp(a);
    MadeFrame(dst, src, TAG_ARP, b, padding);
    hide MakeFrame, EncodeArp, Htons;
    SliceOfSlice(f, b, 14, 0, 6);
    SliceOfSlice(f, b, 14, 6, 8);
    SliceOfSlice(f, b, 14, 8, 14);
    SliceOfSlice(f, b, 14, 14, 18);
    SliceOfSlice(f, b, 14, 18, 24);
    SliceOfSlice(f, b, 14, 24, 28);
    FieldOfSlice(f, 12, TAG_ARP);
    FieldOfSlice(f, 20, a.oper);
  }

  /** What is read from a frame that carries a is a. */
  lemma {:induction false} ParseCarriedArp(f: seq<byte>, a: Arp)
    requires WellFormed(a) && CarriesArp(f, a)
    ensures ParseArp(f) == Some(a)
  {
    hide Htons;
  }

  /** A frame that was built with another tag carries no ARP packet. */
  lemma TagOfMadeFrame(dst: MacAddress, src: MacAddress, payload: seq<byte>)
    ensures ParseArp(MakeFrame(dst, src, TAG_IPV4, payload)).None?
  {
    var f := MakeFrame(dst, src, TAG_IPV4, payload);
    MadeFrame(dst, src, TAG_IPV4, payload, []);
    assert f + [] == f;
    FieldOfSlice(f, 12, TAG_IPV4);
    hide MakeFrame, Htons, Field;
  }

  // ----- One router -----

  datatype Node = Node(ifcs: seq<Interface>, cache: seq<Slot>, table: seq<Routes.Entry>, dead: bool)

  predicate Works(m: Node) {
    m.cache != [] && Routes.Wired(m.table, m.ifcs)
  }

  /** What a received frame leads to: the new cache, a frame sent on an interface, or the end of the process. */
  datatype Outcome = Outcome(cache: seq<Slot>, sent: Option<Message>, aborted: bool)

  /** The answer of an interface to a request for its address. */
  function ReplyTo(ifc: Interface, a: Arp): Arp {
    Arp(a.kind, REPLY, ifc.mac, ifc.ip, a.senderHa, a.senderPa)
  }

  function SendPayload(m: Node, i: nat, dst: MacAddress, tag: nat, payload: seq<byte>): Outcome
    requires i < |m.ifcs|
  {
    if |payload| + ETHERNET_HEADER > m.ifcs[i].mtu then Outcome(m.cache, None, true)
    else Outcome(m.cache, Some(Message(i + 1, MakeFrame(dst, m.ifcs[i].mac, tag, payload))), false)
  }

  function HandleArp(m: Node, i: nat, a: Arp): Outcome
    requires WellFormed(a) && m.cache != [] && i < |m.ifcs|
  {
    if a.oper == REQUEST then
      if a.targetPa == m.ifcs[i].ip then SendPayload(m, i, a.senderHa, TAG_ARP, EncodeArp(ReplyTo(m.ifcs[i], a)))
      else Outcome(m.cache, None, false)
    else if a.oper == REPLY then Outcome(Add(m.cache, a.senderPa, a.senderHa), None, false)
    else Outcome(m.cache, None, false)
  }

  /**
   * What is sent in place of the packet: as many bytes as its payload has, but read from the copy of its
   * header on; what lies behind that copy is whatever the stack holds.
   */
  function Forwarded(p: Packet, behind: seq<byte>): (r: seq<byte>)
    requires p.size <= |behind|
    ensures |r| == p.size
  {
    (p.header + behind)[..p.size]
  }

  function Route(m: Node, p: Packet, behind: seq<byte>): Outcome
    requires Works(m) && p.size <= |behind|
  {
    match Routes.Decide(m.table, m.ifcs, m.cache, Word(p.dest), p.size)
    case NoRoute => Outcome(m.cache, None, false)
    case Unresolved(hop) => Outcome(m.cache, None, false)
    case Oversized(j) => Outcome(m.cache, None, true)
    case Forward(j, mac) =>
      Outcome(m.cache, Some(Message(j + 1, MakeFrame(mac, m.ifcs[j].mac, TAG_IPV4, Forwarded(p, behind)))), false)
  }

  /** Frames that carry neither an IPv4 nor an ARP packet are ignored. */
  function ParseFrame(m: Node, i: nat, frame: seq<byte>, behind: seq<byte>): Outcome
    requires Works(m) && i < |m.ifcs| && |frame| <= |behind|
  {
    match ParsePacket(frame)
    case Some(p) => Route(m, p, behind)
    case None =>
      match ParseArp(frame)
      case None => Outcome(m.cache, None, false)
      case Some(a) => HandleArp(m, i, a)
  }

  class Router {
    const gifc: seq<Interface>
    const arp: Cache
    const routes: Routes.Table

    ghost predicate Valid()
      reads arp, routes, routes.arp, routes.entries
    {
      arp.Valid() && routes.Valid() && routes.arp == arp && routes.gifc == gifc
    }

    ghost function Abstract(): Node
      reads arp.slots, routes.entries
    {
      Node(gifc, arp.slots[..], routes.entries[..], false)
    }

    constructor (gifc: seq<Interface>)
      ensures Valid() && this.gifc == gifc && fresh(arp.slots) && fresh(routes.entries)
      ensures Abstract() == FreshNode(gifc)
    {
      this.gifc := gifc;
      var arp := new Cache();
      this.arp := arp;
      routes := new Routes.Table(arp, gifc);
    }

    /** parse_frame for the frame received on interface i. */
    method Receive(i: nat, frame: seq<byte>, behind: seq<byte>) returns (sent: Option<Message>, aborted: bool)
      requires Valid() && i < |gifc| && |frame| <= |behind|
      modifies arp.slots
      ensures Valid() && routes.entries[..] == old(routes.entries[..])
      ensures Outcome(arp.slots[..], sent, aborted) == ParseFrame(old(Abstract()), i, frame, behind)
    {
      hide Add, Routes.Decide, MakeFrame, EncodeArp, Field, Word;
      sent, aborted := None, false;
      if |frame| < ETHERNET_HEADER {
        return;
      }
      var tag := Field(frame[12], frame[13]);
      if tag == TAG_IPV4 {
        if |frame| >= ETHERNET_HEADER + IPV4_HEADER {
          sent, aborted := ForwardPacket(ParsePacket(frame).value, behind);
        }
      } else if tag == TAG_ARP {
        if |frame| >= ETHERNET_HEADER + ARP_SIZE {
          sent, aborted := ReceiveArp(i, ParseArp(frame).value);
        }
      }
    }

    method ForwardPacket(p: Packet, behind: seq<byte>) returns (sent: Option<Message>, aborted: bool)
      requires Valid() && p.size <= |behind|
      ensures Outcome(arp.slots[..], sent, aborted) == Route(Abstract(), p, behind)
    {
      hide Routes.Decide, MakeFrame;
      var d := routes.RoutePacket(Word(p.dest), p.size);
      sent, aborted := None, d.Oversized?;
      if d.Forward? {
        sent := Some(Message(d.ifc + 1, MakeFrame(d.mac, gifc[d.ifc].mac, TAG_IPV4, Forwarded(p, behind))));
      }
    }

    method ReceiveArp(i: nat, a: Arp) returns (sent: Option<Message>, aborted: bool)
      requires Valid() && i < |gifc| && WellFormed(a)
      modifies arp.slots
      ensures Valid() && routes.entries[..] == old(routes.entries[..])
      ensures Outcome(arp.slots[..], sent, aborted) == HandleArp(old(Abstract()), i, a)
    {
      hide Add, MakeFrame, EncodeArp;
      var ifc := gifc[i];
      sent, aborted := None, false;
      if a.oper == REQUEST {
        if a.targetPa == ifc.ip {
          var reply := a.(oper := REPLY);
          reply := reply.(targetHa := a.senderHa, targetPa := a.senderPa);
          reply := reply.(senderHa := ifc.mac, senderPa := ifc.ip);
          var payload := EncodeArp(reply);
          if |payload| + ETHERNET_HEADER > ifc.mtu {
            aborted := true;
          } else {
            sent := Some(Message(i + 1, MakeFrame(a.senderHa, ifc.mac, TAG_ARP, payload)));
          }
        }
      } else if a.oper == REPLY {
        arp.AddArp(a.senderPa, a.senderHa);
      }
    }
  }

  // ----- The MTU -----

  /** The MTU of an interface given on the command line: the Ethernet header is added in a 16-bit field. */
  function ConfiguredMtu(arg: nat): nat {
    (arg + ETHERNET_HEADER) % FIELD_LIMIT
  }

  /** Of the accepted arguments, exactly those up to 65521 let a router answer requests instead of aborting. */
  lemma AnswersIffMtuFits(arg: nat, m: Node, i: nat, a: Arp)
    requires i < |m.ifcs| && 400 <= arg < FIELD_LIMIT && m.ifcs[i].mtu == ConfiguredMtu(arg)
    requires WellFormed(a) && a.oper == REQUEST && a.targetPa == m.ifcs[i].ip && m.cache != []
    ensures var o := HandleArp(m, i, a);
            && (o.aborted <==> arg > 65521)
            && (!o.aborted ==> o.sent == Some(Message(i + 1,
                  MakeFrame(a.senderHa, m.ifcs[i].mac, TAG_ARP, EncodeArp(ReplyTo(m.ifcs[i], a))))))
  {}

  /** The frame asks for interface i, whose MTU leaves no room for the answer. */
  predicate AsksTooMuch(m: Node, i: nat, frame: seq<byte>)
    requires i < |m.ifcs|
  {
    && ParseArp(frame).Some? && ParseArp(frame).value.oper == REQUEST && ParseArp(frame).value.targetPa == m.ifcs[i].ip
    && m.ifcs[i].mtu < ETHERNET_HEADER + ARP_SIZE
  }

  /** The frame is a packet whose route is resolved, and its payload does not fit the route's interface. */
  predicate CarriesTooMuch(m: Node, frame: seq<byte>)
    requires Works(m)
  {
    ParsePacket(frame).Some? &&
      var p := ParsePacket(frame).value;
      match Routes.Choose(m.table, Word(p.dest))
      case None => false
      case Some(r) =>
        Lookup(m.cache, r.nextHop).Some? && r.ifc < |m.ifcs| && p.size + ETHERNET_HEADER > m.ifcs[r.ifc].mtu
  }

  /** Exactly which frames end a router. */
  lemma AbortsIff(m: Node, i: nat, frame: seq<byte>, behind: seq<byte>)
    requires Works(m) && i < |m.ifcs| && |frame| <= |behind|
    ensures ParseFrame(m, i, frame, behind).aborted <==> AsksTooMuch(m, i, frame) || CarriesTooMuch(m, frame)
  {
    hide MakeFrame, EncodeArp, Add, Lookup, Routes.Matches;
    var packet := ParsePacket(frame);
    if packet.Some? {
      var dest := Word(packet.value.dest);
      assert Routes.Choose(m.table, dest).Some? ==> Routes.Choose(m.table, dest).value.ifc < |m.ifcs|;
    }
  }

  // ----- The LAN -----

  /** All routers, and every frame ever put on the wire; a frame may be heard any number of times, or never. */
  datatype Network = Network(nodes: seq<Node>, wire: seq<seq<byte>>)

  datatype Step =
    | Inject(frame: seq<byte>)                                         // somebody else sends a frame
    | Deliver(k: nat, node: nat, ifc: nat, behind: seq<byte>)          // interface ifc of a router hears frame k
    | Configure(node: nat, op: Routes.Op)                              // a route is added or deleted

  predicate IsReply(frame: seq<byte>) {
    ParseArp(frame).Some? && ParseArp(frame).value.oper == REPLY
  }

  /** Others may send anything but ARP replies; routes lead to interfaces of their router. */
  predicate Enabled(n: Network, s: Step) {
    match s
    case Inject(frame) => !IsReply(frame)
    case Deliver(k, node, ifc, behind) =>
      && k < |n.wire| && node < |n.nodes| && ifc < |n.nodes[node].ifcs|
      && Works(n.nodes[node]) && !n.nodes[node].dead && |n.wire[k]| <= |behind|
    case Configure(node, op) =>
      && node < |n.nodes| && Works(n.nodes[node]) && !n.nodes[node].dead
      && (op.AddOp? ==> op.route.ifc < |n.nodes[node].ifcs|)
  }

  function Configured(table: seq<Routes.Entry>, op: Routes.Op): seq<Routes.Entry> {
    match op
    case AddOp(r) => Routes.AddRoute(table, r)
    case DelOp(network, netmask) => Routes.DelRoute(table, network, netmask)
  }

  function Next(n: Network, s: Step): Network
    requires Enabled(n, s)
  {
    match s
    case Inject(frame) => n.(wire := n.wire + [frame])
    case Deliver(k, node, ifc, behind) =>
      var m := n.nodes[node];
      var o := ParseFrame(m, ifc, n.wire[k], behind);
      Network(n.nodes[node := m.(cache := o.cache, dead := o.aborted)],
              if o.sent.Some? then n.wire + [o.sent.value.payload] else n.wire)
    case Configure(node, op) =>
      var m := n.nodes[node];
      n.(nodes := n.nodes[node := m.(table := Configured(m.table, op))])
  }

  predicate Runs(n: Network, steps: seq<Step>, m: Network)
    decreases |steps|
  {
    if steps == [] then m == n else Enabled(n, steps[0]) && Runs(Next(n, steps[0]), steps[1..], m)
  }

  /** Some interface has this address and this MAC. */
  predicate Genuine(nodes: seq<Node>, ip: Address, mac: MacAddress) {
    exists i, j :: 0 <= i < |nodes| && 0 <= j < |nodes[i].ifcs|
      && nodes[i].ifcs[j].ip == ip && nodes[i].ifcs[j].mac == mac
  }

  predicate GenuineCache(nodes: seq<Node>, cache: seq<Slot>) {
    forall s | s in cache && s.Held? :: Genuine(nodes, s.ip, s.mac)
  }

  predicate GenuineFrame(nodes: seq<Node>, frame: seq<byte>) {
    IsReply(frame) ==> Genuine(nodes, ParseArp(frame).value.senderPa, ParseArp(frame).value.senderHa)
  }

  predicate Truthful(n: Network) {
    && (forall i | 0 <= i < |n.nodes| :: GenuineCache(n.nodes, n.nodes[i].cache))
    && (forall k | 0 <= k < |n.wire| :: GenuineFrame(n.nodes, n.wire[k]))
  }

  function FreshNode(ifcs: seq<Interface>): Node {
    Node(ifcs, seq(CACHE_SIZE, k => Free), seq(Routes.TABLE_SIZE, k => Routes.Unused), false)
  }

  /** Before the first frame: fresh routers with empty tables. */
  function Fresh(ifcs: seq<seq<Interface>>): Network {
    Network(seq(|ifcs|, i requires 0 <= i < |ifcs| => FreshNode(ifcs[i])), [])
  }

  lemma FreshIsTruthful(ifcs: seq<seq<Interface>>)
    ensures Truthful(Fresh(ifcs))
  {}

  /** A node may change its tables; what is genuine depends on the interfaces only. */
  lemma GenuineKept(nodes: seq<Node>, more: seq<Node>, ip: Address, mac: MacAddress)
    requires |more| == |nodes| && forall i | 0 <= i < |nodes| :: more[i].ifcs == nodes[i].ifcs
    ensures Genuine(more, ip, mac) <==> Genuine(nodes, ip, mac)
  {}

  lemma AddKeepsGenuine(nodes: seq<Node>, cache: seq<Slot>, ip: Address, mac: MacAddress)
    requires GenuineCache(nodes, cache) && Genuine(nodes, ip, mac) && cache != []
    ensures GenuineCache(nodes, Add(cache, ip, mac))
  {
    hide Genuine, FirstHeld, FirstFree;
    var added := Add(cache, ip, mac);
    forall s | s in added && s.Held? ensures Genuine(nodes, s.ip, s.mac) {
      assert s in cache || s == Held(ip, mac);
    }
  }

  /** What a router that is told the truth stores and sends is genuine. */
  lemma OutcomeIsGenuine(nodes: seq<Node>, node: nat, ifc: nat, frame: seq<byte>, behind: seq<byte>)
    requires node < |nodes| && ifc < |nodes[node].ifcs| && Works(nodes[node]) && |frame| <= |behind|
    requires GenuineCache(nodes, nodes[node].cache) && GenuineFrame(nodes, frame)
    ensures var o := ParseFrame(nodes[node], ifc, frame, behind);
            && GenuineCache(nodes, o.cache)
            && (o.sent.Some? ==> GenuineFrame(nodes, o.sent.value.payload))
  {
    var m, f, packet, parsed := nodes[node], nodes[node].ifcs[ifc], ParsePacket(frame), ParseArp(frame);
    hide CarriesArp, ParseArp, ParsePacket, EncodeArp, MakeFrame, Add, Routes.Decide;
    if packet.Some? {
      var d := Routes.Decide(m.table, m.ifcs, m.cache, Word(packet.value.dest), packet.value.size);
      if d.Forward? {
        TagOfMadeFrame(d.mac, m.ifcs[d.ifc].mac, Forwarded(packet.value, behind));
      }
    } else if parsed.Some? {
      var a := parsed.value;
      if a.oper == REQUEST && a.targetPa == f.ip {
        var r := ReplyTo(f, a);
        MadeFrameCarries(a.senderHa, f.mac, r, []);
        var sent := MakeFrame(a.senderHa, f.mac, TAG_ARP, EncodeArp(r));
        assert sent + [] == sent;
        ParseCarriedArp(sent, r);
        assert Genuine(nodes, f.ip, f.mac);
      } else if a.oper == REPLY {
        AddKeepsGenuine(nodes, m.cache, a.senderPa, a.senderHa);
      }
    }
  }

  lemma NextKeepsInterfaces(n: Network, s: Step)
    requires Enabled(n, s)
    ensures |Next(n, s).nodes| == |n.nodes|
    ensures forall i | 0 <= i < |n.nodes| :: Next(n, s).nodes[i].ifcs == n.nodes[i].ifcs
  {
    hide ParseFrame, Configured;
  }

  lemma NextIsTruthful(n: Network, s: Step)
    requires Truthful(n) && Enabled(n, s)
    ensures Truthful(Next(n, s))
  {
    hide Genuine, ParseArp, ParseFrame, Works, Configured;
    var t := Next(n, s);
    NextKeepsInterfaces(n, s);
    if s.Deliver? {
      OutcomeIsGenuine(n.nodes, s.node, s.ifc, n.wire[s.k], s.behind);
    }
    forall ip, mac ensures Genuine(t.nodes, ip, mac) <==> Genuine(n.nodes, ip, mac) {
      GenuineKept(n.nodes, t.nodes, ip, mac);
    }
    forall i | 0 <= i < |t.nodes| ensures GenuineCache(t.nodes, t.nodes[i].cache) {
      assert GenuineCache(n.nodes, t.nodes[i].cache);
    }
    forall j | 0 <= j < |t.wire| ensures GenuineFrame(t.nodes, t.wire[j]) {
      assert GenuineFrame(n.nodes, t.wire[j]);
    }
  }

  /**
   * Whatever frames other than ARP replies are injected, however often frames are heard or lost, and however
   * routes are configured: every cache entry pairs the address of some interface with its own MAC.
   */
  lemma {:induction false} CachesStayGenuine(n: Network, steps: seq<Step>, m: Network)
    requires Truthful(n) && Runs(n, steps, m)
    ensures Truthful(m)
    ensures |m.nodes| == |n.nodes| && forall i | 0 <= i < |n.nodes| :: m.nodes[i].ifcs == n.nodes[i].ifcs
    decreases |steps|
  {
    hide Truthful, Next, Enabled;
    if steps != [] {
      NextIsTruthful(n, steps[0]);
      NextKeepsInterfaces(n, steps[0]);
      CachesStayGenuine(Next(n, steps[0]), steps[1..], m);
    }
  }

  /** Starting from empty caches, every look-up anywhere and at any time tells the truth. */
  lemma LookupsTellTheTruth(ifcs: seq<seq<Interface>>, steps: seq<Step>, m: Network, i: nat, ip: Address)
    requires Runs(Fresh(ifcs), steps, m) && i < |ifcs|
    ensures |m.nodes| == |ifcs|
    ensures Lookup(m.nodes[i].cache, ip).Some? ==>
              exists k, j :: 0 <= k < |ifcs| && 0 <= j < |ifcs[k]|
                && ifcs[k][j].ip == ip && ifcs[k][j].mac == Lookup(m.nodes[i].cache, ip).value
  {
    hide Runs;
    FreshIsTruthful(ifcs);
    CachesStayGenuine(Fresh(ifcs), steps, m);
    var cache := m.nodes[i].cache;
    var k := FirstHeld(cache, ip);
    assert GenuineCache(m.nodes, cache);
    if k < |cache| {
      assert cache[k] in cache && Genuine(m.nodes, ip, cache[k].mac);
    }
  }

  // ----- Which runs a router survives -----

  /** A router that died in a run heard a frame that it could not answer or forward. */
  lemma {:induction false} DeathHasCause(n: Network, steps: seq<Step>, m: Network, i: nat) returns (j: nat, p: Network)
    requires Runs(n, steps, m) && |n.nodes| == |m.nodes| && i < |n.nodes| && !n.nodes[i].dead && m.nodes[i].dead
    ensures j < |steps| && Runs(n, steps[..j], p) && Enabled(p, steps[j])
    ensures steps[j].Deliver? && steps[j].node == i
    ensures var frame := p.wire[steps[j].k];
            AsksTooMuch(p.nodes[i], steps[j].ifc, frame) || CarriesTooMuch(p.nodes[i], frame)
    decreases |steps|
  {
    hide AsksTooMuch, CarriesTooMuch, Works, ParseFrame, Configured;
    var s, t := steps[0], Next(n, steps[0]);
    NextKeepsInterfaces(n, s);
    if t.nodes[i].dead {
      j, p := 0, n;
      AbortsIff(n.nodes[i], s.ifc, n.wire[s.k], s.behind);
    } else {
      var k;
      k, p := DeathHasCause(t, steps[1..], m, i);
      j := k + 1;
      assert steps[..j][0] == s && steps[..j][1..] == steps[1..][..k];
    }
  }

  /** No frame on the wire is too big for any interface a router could have to send it on, and nobody has died. */
  predicate Roomy(n: Network, bound: nat) {
    && ETHERNET_HEADER + ARP_SIZE <= bound
    && (forall k | 0 <= k < |n.wire| :: |n.wire[k]| <= bound)
    && (forall i | 0 <= i < |n.nodes| :: !n.nodes[i].dead && RoomyNode(n.nodes[i].ifcs, bound))
  }

  /** Interfaces that can send an ARP reply, and the forwarded part of any frame within the bound. */
  predicate RoomyNode(ifcs: seq<Interface>, bound: nat) {
    forall ifc | ifc in ifcs :: ETHERNET_HEADER + ARP_SIZE <= ifc.mtu && bound <= ifc.mtu + IPV4_HEADER
  }

  /** Frames injected by others keep to the bound. */
  predicate SmallSteps(steps: seq<Step>, bound: nat) {
    forall s | s in steps && s.Inject? :: |s.frame| <= bound
  }

  /** What a router sends is no longer than what it heard, or an ARP reply. */
  lemma SentIsSmall(m: Node, i: nat, frame: seq<byte>, behind: seq<byte>, bound: nat)
    requires Works(m) && i < |m.ifcs| && |frame| <= |behind|
    requires RoomyNode(m.ifcs, bound) && |frame| <= bound && ETHERNET_HEADER + ARP_SIZE <= bound
    ensures var o := ParseFrame(m, i, frame, behind);
            !o.aborted && (o.sent.Some? ==> |o.sent.value.payload| <= bound)
  {
    hide Add, Lookup, ParseArp, Word, Routes.Choose;
    AbortsIff(m, i, frame, behind);
    assert m.ifcs[i] in m.ifcs;
  }

  lemma NextIsRoomy(n: Network, s: Step, bound: nat)
    requires Enabled(n, s) && Roomy(n, bound) && (s.Inject? ==> |s.frame| <= bound)
    ensures Roomy(Next(n, s), bound)
  {
    hide ParseFrame, Works, Configured, RoomyNode, IsReply;
    NextKeepsInterfaces(n, s);
    if s.Deliver? {
      SentIsSmall(n.nodes[s.node], s.ifc, n.wire[s.k], s.behind, bound);
    }
  }

  /**
   * No router dies as long as the frames of others are at most 20 bytes longer than what every interface may
   * send, and every interface may send ARP replies.
   */
  lemma {:induction false} NobodyDies(n: Network, steps: seq<Step>, m: Network, bound: nat)
    requires Roomy(n, bound) && Runs(n, steps, m) && SmallSteps(steps, bound)
    ensures Roomy(m, bound)
    decreases |steps|
  {
    hide Roomy, Next, Enabled;
    if steps != [] {
      assert steps[0] in steps;
      NextIsRoomy(n, steps[0], bound);
      assert forall s | s in steps[1..] :: s in steps;
      NobodyDies(Next(n, steps[0]), steps[1..], m, bound);
    }
  }

  // ----- Asking and answering -----

  lemma LookupAfterAdd(cache: seq<Slot>, ip: Address, mac: MacAddress)
    requires cache != []
    ensures Lookup(Add(cache, ip, mac), ip) == Some(mac)
  {
    var c := Add(cache, ip, mac);
    var i, j := FirstHeld(cache, ip), FirstFree(cache);
    var k := if i < |cache| then i else if j < |cache| then j else 0;
    hide FirstHeld, FirstFree;
    assert Holds(c[k], ip);
    assert FirstHeld(c, ip) == k;
  }

  /**
   * RFC 826: a request heard by the interface asked for is answered to its sender, and the answer makes any
   * router that hears it know the MAC asked for. The request itself teaches the answering router nothing.
   */
  lemma {:induction false} RequestIsAnswered(m: Node, i: nat, dst: MacAddress, src: MacAddress, a: Arp,
                                             asker: Node, j: nat, behind: seq<byte>)
    requires Works(m) && i < |m.ifcs| && Works(asker) && j < |asker.ifcs| && ETHERNET_HEADER + ARP_SIZE <= |behind|
    requires WellFormed(a) && a.oper == REQUEST && a.targetPa == m.ifcs[i].ip
    requires ETHERNET_HEADER + ARP_SIZE <= m.ifcs[i].mtu
    ensures var o := ParseFrame(m, i, MakeFrame(dst, src, TAG_ARP, EncodeArp(a)), behind);
            && o.sent.Some? && o.cache == m.cache && !o.aborted && |o.sent.value.payload| == ETHERNET_HEADER + ARP_SIZE
            && var f, asked := o.sent.value.payload, m.ifcs[i];
            && o.sent.value.kind == i + 1 && f[..6] == a.senderHa && f[6..12] == asked.mac
            && ParseArp(f) == Some(Arp(a.kind, REPLY, asked.mac, asked.ip, a.senderHa, a.senderPa))
            && ParseFrame(asker, j, f, behind) == Outcome(Add(asker.cache, asked.ip, asked.mac), None, false)
            && Lookup(ParseFrame(asker, j, f, behind).cache, asked.ip) == Some(asked.mac)
  {
    hide CarriesArp, ParseArp, ParsePacket, EncodeArp, Add, Lookup, Htons, Routes.Decide;
    var asked, f := m.ifcs[i], MakeFrame(dst, src, TAG_ARP, EncodeArp(a));
    MadeFrameCarries(dst, src, a, []);
    assert f + [] == f;
    ParseCarriedArp(f, a);
    var r := ReplyTo(asked, a);
    var g := MakeFrame(a.senderHa, asked.mac, TAG_ARP, EncodeArp(r));
    MadeFrameCarries(a.senderHa, asked.mac, r, []);
    assert g + [] == g;
    ParseCarriedArp(g, r);
    LookupAfterAdd(asker.cache, asked.ip, asked.mac);
  }

  /**
   * Exactly what an ARP packet leads to: it is answered if and only if it is a request for the address of the interface
   * that hears it and the answer fits; only a reply is learned from; anything else changes nothing.
   */
  lemma {:induction false} AnsweredIff(m: Node, i: nat, f: seq<byte>, a: Arp, behind: seq<byte>)
    requires Works(m) && i < |m.ifcs| && |f| <= |behind|
    requires WellFormed(a) && CarriesArp(f, a)
    ensures var o := ParseFrame(m, i, f, behind);
            && (o.sent.Some? <==>
                  a.oper == 1 && a.targetPa == m.ifcs[i].ip && ETHERNET_HEADER + ARP_SIZE <= m.ifcs[i].mtu)
            && (o.sent.Some? ==> o.sent.value.kind == i + 1)
            && o.cache == (if a.oper == 2 then Add(m.cache, a.senderPa, a.senderHa) else m.cache)
  {
    ParseCarriedArp(f, a);
    assert Field(f[12], f[13]) == TAG_ARP;
    hide CarriesArp, ParseArp, EncodeArp, MakeFrame, Add, Field, Htons;
  }

  // ----- A router that dies -----

  lemma {:induction false} RunsConcat(n: Network, a: seq<Step>, m: Network, b: seq<Step>, p: Network)
    requires Runs(n, a, m) && Runs(m, b, p)
    ensures Runs(n, a + b, p)
    decreases |a|
  {
    hide Enabled, Next;
    if a == [] {
      assert a + b == b;
    } else {
      assert (a + b)[0] == a[0] && (a + b)[1..] == a[1..] + b;
      RunsConcat(Next(n, a[0]), a[1..], m, b, p);
    }
  }

  lemma RunsOne(n: Network, s: Step)
    requires Enabled(n, s)
    ensures Runs(n, [s], Next(n, s))
  {
    hide Enabled, Next;
    assert [s][1..] == [];
    assert Runs(Next(n, s), [], Next(n, s));
  }

  /** The state of a router that knows a neighbour, before anything else has happened to it. */
  predicate Acquainted(n: Network, x: Interface, y: Interface) {
    && |n.nodes| == 2 && n.nodes[0].ifcs == [x] && !n.nodes[0].dead && n.nodes[0].cache != []
    && Lookup(n.nodes[0].cache, y.ip) == Some(y.mac) && n.nodes[0].table == FreshNode([x]).table
  }

  /** One request and its answer make a fresh router know its neighbour. */
  lemma GetAcquainted(x: Interface, y: Interface) returns (steps: seq<Step>, n: Network)
    requires ETHERNET_HEADER + ARP_SIZE <= y.mtu
    ensures Runs(Fresh([[x], [y]]), steps, n) && Acquainted(n, x, y)
  {
    var nobody: MacAddress, behind := [0, 0, 0, 0, 0, 0], seq(ETHERNET_HEADER + ARP_SIZE, i => 0);
    var a := Arp([0, 0, 0, 0, 0, 0], REQUEST, x.mac, x.ip, nobody, y.ip);
    var request := MakeFrame(nobody, x.mac, TAG_ARP, EncodeArp(a));
    MadeFrameCarries(nobody, x.mac, a, []);
    assert request + [] == request;
    ParseCarriedArp(request, a);
    var n0, ask := Fresh([[x], [y]]), Inject(request);
    assert n0.nodes[0] == FreshNode([x]) && n0.nodes[1] == FreshNode([y]);
    RequestIsAnswered(n0.nodes[1], 0, nobody, x.mac, a, n0.nodes[0], 0, behind);
    hide ParseFrame, ParseArp, MakeFrame, EncodeArp, Add, Lookup;
    RunsOne(n0, ask);
    var n1, answer := Next(n0, ask), Deliver(0, 1, 0, behind);
    RunsOne(n1, answer);
    var n2, hear := Next(n1, answer), Deliver(1, 0, 0, behind);
    RunsOne(n2, hear);
    n := Next(n2, hear);
    RunsConcat(n1, [answer], n2, [hear], n);
    RunsConcat(n0, [ask], n1, [answer] + [hear], n);
    steps := [ask] + ([answer] + [hear]);
  }

  /**
   * The failing input: with an interface of the smallest accepted MTU and one default route through a neighbour
   * that answers, an IPv4 packet from anybody ends the router if and only if it has 435 bytes or more.
   */
  lemma PacketKillsIffOversized(x: Interface, y: Interface, frame: seq<byte>) returns (steps: seq<Step>, m: Network)
    requires x.mtu == ConfiguredMtu(400) && ETHERNET_HEADER + ARP_SIZE <= y.mtu
    requires ParsePacket(frame).Some?
    ensures Runs(Fresh([[x], [y]]), steps, m) && |m.nodes| == 2
    ensures m.nodes[0].dead <==> |frame| >= 435
  {
    hide ParsePacket, ParseArp, Lookup, Routes.MaskOf, Routes.And, Word;
    var before, n := GetAcquainted(x, y);
    var r := Routes.Route(0, Routes.MaskOf(0), y.ip, 0);
    var configure := Configure(0, Routes.AddOp(r));
    var table := Routes.AddRoute(n.nodes[0].table, r);
    Routes.FirstUnusedIs(n.nodes[0].table, 0);
    assert table[0] == Routes.Valid(r);
    var dest := Word(ParsePacket(frame).value.dest);
    Routes.MaskEnds();
    Routes.ZeroMask(dest);
    assert Routes.Choose(table, dest) == Some(r);
    hide Routes.AddRoute, Routes.Choose, ParseFrame, Runs;
    RunsOne(n, configure);
    var n1 := Next(n, configure);
    RunsOne(n1, Inject(frame));
    var n2, kill := Next(n1, Inject(frame)), Deliver(|n1.wire|, 0, 0, frame);
    AbortsIff(n2.nodes[0], 0, frame, frame);
    RunsOne(n2, kill);
    m := Next(n2, kill);
    RunsConcat(n1, [Inject(frame)], n2, [kill], m);
    RunsConcat(n, [configure], n1, [Inject(frame)] + [kill], m);
    steps := before + ([configure] + ([Inject(frame)] + [kill]));
    RunsConcat(Fresh([[x], [y]]), before, n, [configure] + ([Inject(frame)] + [kill]), m);
  }
}

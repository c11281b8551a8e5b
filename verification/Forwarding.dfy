/** What routers do with IPv4 packets: which frame goes where, in terms of the bytes on the wire and of whole runs. */
module Forwarding {
  import opened Wire
  import opened Net
  import opened ArpCache
  import opened Lan
  import Routes

  /** The bytes of an IPv4 header in front of its two addresses (section 3.1 of RFC 791). */
  const BEFORE_ADDRESSES: nat := 12

  /** A frame with an IPv4 packet as a sender builds it: two MACs, the tag, the header, and the payload. */
  function Ipv4Frame(dst: MacAddress, src: MacAddress, front: seq<byte>, source: Address, dest: Address,
                     payload: seq<byte>): (f: seq<byte>)
    requires |front| == BEFORE_ADDRESSES
    ensures |f| == ETHERNET_HEADER + IPV4_HEADER + |payload|
  {
    dst + src + [8, 0] + front + source + dest + payload
  }

  /** What is sent in place of the packet: its header and whatever lies behind the copy of it, cut to its payload. */
  function Body(front: seq<byte>, source: Address, dest: Address, size: nat, behind: seq<byte>): (b: seq<byte>)
    requires size <= |behind|
    ensures |b| == size
  {
    (front + source + dest + behind)[..size]
  }

  /** A frame to dst from src that carries body as an IPv4 packet. */
  predicate IsIpv4Frame(f: seq<byte>, dst: MacAddress, src: MacAddress, body: seq<byte>) {
    && |f| == ETHERNET_HEADER + |body|
    && f[..6] == dst && f[6..12] == src && f[12] == 8 && f[13] == 0 && f[14..] == body
  }

  // ----- One frame -----

  lemma Ipv4Fields(dst: MacAddress, src: MacAddress, front: seq<byte>, source: Address, dest: Address,
                   payload: seq<byte>)
    requires |front| == BEFORE_ADDRESSES
    ensures var f := Ipv4Frame(dst, src, front, source, dest, payload);
            && f[12] == 8 && f[13] == 0 && f[14..34] == front + source + dest && f[30..34] == dest
  {}

  /** The router finds the destination where the sender put it, whatever else the frame holds. */
  lemma PacketIsParsed(dst: MacAddress, src: MacAddress, front: seq<byte>, source: Address, dest: Address,
                       payload: seq<byte>)
    requires |front| == BEFORE_ADDRESSES
    ensures ParsePacket(Ipv4Frame(dst, src, front, source, dest, payload))
         == Some(Packet(front + source + dest, dest, |payload|))
  {
    Ipv4Fields(dst, src, front, source, dest, payload);
    hide Ipv4Frame;
  }

  lemma SentBytes(dst: MacAddress, src: MacAddress, body: seq<byte>)
    ensures IsIpv4Frame(MakeFrame(dst, src, TAG_IPV4, body), dst, src, body)
  {}

  /** What becomes of a packet for dest: what a router with this table and cache must do. */
  predicate Handled(m: Node, o: Outcome, dest: Address, body: seq<byte>) {
    match Routes.Choose(m.table, Word(dest))
    case None => o == Outcome(m.cache, None, false)
    case Some(r) =>
      match Lookup(m.cache, r.nextHop)
      case None => o == Outcome(m.cache, None, false)
      case Some(mac) =>
        && r.ifc < |m.ifcs|
        && if |body| + ETHERNET_HEADER > m.ifcs[r.ifc].mtu then o == Outcome(m.cache, None, true)
           else
             && o.cache == m.cache && !o.aborted && o.sent.Some? && o.sent.value.kind == r.ifc + 1
             && IsIpv4Frame(o.sent.value.payload, mac, m.ifcs[r.ifc].mac, body)
  }

  /**
   * A router that hears a packet for dest sends it on the interface of the route chosen for dest, to the MAC that its
   * cache has for that route's next hop and from the MAC of that interface, or drops it, or ends over its size.
   */
  lemma PacketIsHandled(m: Node, i: nat, dst: MacAddress, src: MacAddress, front: seq<byte>, source: Address,
                        dest: Address, payload: seq<byte>, behind: seq<byte>)
    requires Works(m) && i < |m.ifcs| && |front| == BEFORE_ADDRESSES
    requires ETHERNET_HEADER + IPV4_HEADER + |payload| <= |behind|
    ensures var f := Ipv4Frame(dst, src, front, source, dest, payload);
            Handled(m, ParseFrame(m, i, f, behind), dest, Body(front, source, dest, |payload|, behind))
  {
    hide Ipv4Frame, MakeFrame, ParsePacket, ParseArp, Lookup, Routes.FirstMatch, Routes.Matches, Word, IsIpv4Frame;
    var f := Ipv4Frame(dst, src, front, source, dest, payload);
    PacketIsParsed(dst, src, front, source, dest, payload);
    var p := Packet(front + source + dest, dest, |payload|);
    var body := Body(front, source, dest, |payload|, behind);
    assert Forwarded(p, behind) == body;
    var d := Routes.Decide(m.table, m.ifcs, m.cache, Word(dest), |payload|);
    if d.Forward? {
      SentBytes(d.mac, m.ifcs[d.ifc].mac, body);
    }
  }

  /** What must become of a packet that goes by route r after the ARP history h. */
  predicate GoesBy(m: Node, o: Outcome, r: Routes.Route, h: seq<Added>, body: seq<byte>) {
    if !IsHeld(h, r.nextHop) then o == Outcome(m.cache, None, false)
    else
      && r.ifc < |m.ifcs| && Latest(h, r.nextHop).Some?
      && if |body| + ETHERNET_HEADER > m.ifcs[r.ifc].mtu then o == Outcome(m.cache, None, true)
         else
           && o.cache == m.cache && !o.aborted && o.sent.Some? && o.sent.value.kind == r.ifc + 1
           && IsIpv4Frame(o.sent.value.payload, Latest(h, r.nextHop).value, m.ifcs[r.ifc].mac, body)
  }

  /**
   * The same in terms of what the router has been told: with longer prefixes in lower slots and after any ARP history
   * h, a packet goes by a route of longest prefix, to the latest MAC that its next hop announced, if that is held.
   */
  lemma PacketGoesByBestRoute(m: Node, h: seq<Added>, i: nat, dst: MacAddress, src: MacAddress, front: seq<byte>,
                              source: Address, dest: Address, payload: seq<byte>, behind: seq<byte>)
    requires Works(m) && i < |m.ifcs| && |front| == BEFORE_ADDRESSES
    requires ETHERNET_HEADER + IPV4_HEADER + |payload| <= |behind|
    requires m.cache == Run(h) && Routes.ProperTable(m.table) && Routes.LongerFirst(m.table)
    ensures var o := ParseFrame(m, i, Ipv4Frame(dst, src, front, source, dest, payload), behind);
            var body := Body(front, source, dest, |payload|, behind);
            if forall k | 0 <= k < |m.table| && m.table[k].Valid? :: !Routes.Matches(m.table[k].route, Word(dest)) then
              o == Outcome(m.cache, None, false)
            else exists r :: Routes.Best(m.table, r, Word(dest)) && GoesBy(m, o, r, h, body)
  {
    hide Ipv4Frame, IsIpv4Frame, ParseFrame, Run, Lookup, Routes.Matches, Routes.AsLong, IsHeld, Latest, Body;
    PacketIsHandled(m, i, dst, src, front, source, dest, payload, behind);
    Routes.LongestIfLongerFirst(m.table, Word(dest));
    if Routes.Choose(m.table, Word(dest)).Some? {
      var r := Routes.Choose(m.table, Word(dest)).value;
      assert Routes.Best(m.table, r, Word(dest));
      LookupAfterRun(h, r.nextHop);
      HeldIsSeen(h, r.nextHop);
      var o := ParseFrame(m, i, Ipv4Frame(dst, src, front, source, dest, payload), behind);
      assert GoesBy(m, o, r, h, Body(front, source, dest, |payload|, behind));
    }
  }

  // ----- Runs -----

  /** The routes added and deleted at one router in the course of a run. */
  function OpsAt(steps: seq<Step>, node: nat): seq<Routes.Op> {
    if steps == [] then []
    else (if steps[0].Configure? && steps[0].node == node then [steps[0].op] else []) + OpsAt(steps[1..], node)
  }

  lemma RunMore(h: seq<Routes.Op>, op: Routes.Op)
    ensures Routes.RunOps(h + [op]) == Configured(Routes.RunOps(h), op)
  {
    assert (h + [op])[..|h|] == h;
  }

  lemma {:induction false} TableAlongRun(n: Network, steps: seq<Step>, m: Network, i: nat, before: seq<Routes.Op>)
    requires Runs(n, steps, m) && i < |n.nodes| && n.nodes[i].table == Routes.RunOps(before)
    ensures |m.nodes| == |n.nodes| && m.nodes[i].table == Routes.RunOps(before + OpsAt(steps, i))
    decreases |steps|
  {
    hide ParseFrame, Routes.RunOps, Routes.AddRoute, Routes.DelRoute;
    if steps == [] {
      assert before + [] == before;
    } else {
      var s := steps[0];
      var now := before + if s.Configure? && s.node == i then [s.op] else [];
      if s.Configure? && s.node == i {
        RunMore(before, s.op);
      } else {
        assert now == before;
      }
      TableAlongRun(Next(n, s), steps[1..], m, i, now);
      assert now + OpsAt(steps[1..], i) == before + OpsAt(steps, i);
    }
  }

  /** In every run a router's table is what the routes added and deleted at it, and nothing else, make of it. */
  lemma TableIsConfigured(ifcs: seq<seq<Interface>>, steps: seq<Step>, n: Network, i: nat)
    requires Runs(Fresh(ifcs), steps, n) && i < |ifcs|
    ensures |n.nodes| == |ifcs| && n.nodes[i].table == Routes.RunOps(OpsAt(steps, i))
  {
    hide Runs, OpsAt;
    TableAlongRun(Fresh(ifcs), steps, n, i, []);
    assert [] + OpsAt(steps, i) == OpsAt(steps, i);
  }

  /** What an ARP reply tells whoever hears it. */
  function Told(frame: seq<byte>): seq<Added> {
    if IsReply(frame) then [Added(ParseArp(frame).value.senderPa, ParseArp(frame).value.senderHa)] else []
  }

  /** What one router is told in the course of a run. */
  function HeardAt(n: Network, steps: seq<Step>, node: nat): seq<Added>
    decreases |steps|
  {
    if steps == [] || !Enabled(n, steps[0]) then []
    else
      (if steps[0].Deliver? && steps[0].node == node then Told(n.wire[steps[0].k]) else [])
      + HeardAt(Next(n, steps[0]), steps[1..], node)
  }

  lemma RunTold(h: seq<Added>, m: Node, i: nat, frame: seq<byte>, behind: seq<byte>)
    requires Works(m) && i < |m.ifcs| && |frame| <= |behind| && m.cache == Run(h)
    ensures ParseFrame(m, i, frame, behind).cache == Run(h + Told(frame))
  {
    hide ParseArp, ParsePacket, EncodeArp, MakeFrame, Add, Routes.Decide, Forwarded, Word;
    if IsReply(frame) {
      assert (h + Told(frame))[..|h|] == h;
    } else {
      assert h + [] == h;
    }
  }

  lemma {:induction false} CacheAlongRun(n: Network, steps: seq<Step>, m: Network, i: nat, before: seq<Added>)
    requires Runs(n, steps, m) && i < |n.nodes| && n.nodes[i].cache == Run(before)
    ensures |m.nodes| == |n.nodes| && m.nodes[i].cache == Run(before + HeardAt(n, steps, i))
    decreases |steps|
  {
    hide ParseFrame, Told, Run, Configured;
    if steps == [] {
      assert before + [] == before;
    } else {
      var s := steps[0];
      var told := if s.Deliver? && s.node == i then Told(n.wire[s.k]) else [];
      if s.Deliver? && s.node == i {
        RunTold(before, n.nodes[i], s.ifc, n.wire[s.k], s.behind);
      } else {
        assert before + told == before;
      }
      CacheAlongRun(Next(n, s), steps[1..], m, i, before + told);
      ConcatAssociative(before, told, HeardAt(Next(n, s), steps[1..], i));
    }
  }

  /** In every run a router's cache is what the ARP replies it has heard, and nothing else, make of it. */
  lemma CacheIsHeard(ifcs: seq<seq<Interface>>, steps: seq<Step>, n: Network, i: nat)
    requires Runs(Fresh(ifcs), steps, n) && i < |ifcs|
    ensures |n.nodes| == |ifcs| && n.nodes[i].cache == Run(HeardAt(Fresh(ifcs), steps, i))
  {
    hide Runs, HeardAt;
    CacheAlongRun(Fresh(ifcs), steps, n, i, []);
    assert [] + HeardAt(Fresh(ifcs), steps, i) == HeardAt(Fresh(ifcs), steps, i);
  }

  /**
   * On a LAN where nobody but routers replies: whenever a router hears a packet for dest and sends something, the
   * table made by its configuration has a matching route, and what is sent is an IPv4 frame on that route's
   * interface, from its MAC, to the MAC of an interface that has the address of the route's next hop.
   */
  lemma SentToNextHop(ifcs: seq<seq<Interface>>, steps: seq<Step>, n: Network, node: nat, i: nat, dst: MacAddress,
                      src: MacAddress, front: seq<byte>, source: Address, dest: Address, payload: seq<byte>,
                      behind: seq<byte>)
    requires Runs(Fresh(ifcs), steps, n) && node < |ifcs| == |n.nodes| && i < |n.nodes[node].ifcs|
    requires Works(n.nodes[node]) && |front| == BEFORE_ADDRESSES
    requires ETHERNET_HEADER + IPV4_HEADER + |payload| <= |behind|
    ensures var m, t := n.nodes[node], Routes.RunOps(OpsAt(steps, node));
            var o := ParseFrame(m, i, Ipv4Frame(dst, src, front, source, dest, payload), behind);
            o.sent.Some? ==>
              && Routes.Choose(t, Word(dest)).Some?
              && var r := Routes.Choose(t, Word(dest)).value;
                 && Routes.Valid(r) in t && Routes.Matches(r, Word(dest)) && m.ifcs == ifcs[node] && r.ifc < |m.ifcs|
                 && o.sent.value.kind == r.ifc + 1
                 && exists k, j :: 0 <= k < |ifcs| && 0 <= j < |ifcs[k]| && ifcs[k][j].ip == r.nextHop
                      && IsIpv4Frame(o.sent.value.payload, ifcs[k][j].mac, ifcs[node][r.ifc].mac,
                                     Body(front, source, dest, |payload|, behind))
  {
    hide Runs, Ipv4Frame, IsIpv4Frame, ParseFrame, Lookup, Routes.Matches, Routes.RunOps, Body, OpsAt, Truthful;
    var m := n.nodes[node];
    TableIsConfigured(ifcs, steps, n, node);
    FreshIsTruthful(ifcs);
    CachesStayGenuine(Fresh(ifcs), steps, n);
    PacketIsHandled(m, i, dst, src, front, source, dest, payload, behind);
    var c := Routes.Choose(m.table, Word(dest));
    if c.Some? {
      assert m.table[Routes.FirstMatch(m.table, Word(dest))] in m.table;
      LookupsTellTheTruth(ifcs, steps, n, node, c.value.nextHop);
    }
  }
}

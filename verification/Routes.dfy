/** The router's route table: netmasks, first-match choice, and slots that are freed and reused. */
module Routes {
  import opened Wire
  import opened Net
  import opened ArpCache

  const TABLE_SIZE: nat := 256

  /** Addresses and masks in host order; the byte order of the table does not matter to AND and equality. */
  datatype Route = Route(network: bv32, netmask: bv32, nextHop: Address, ifc: nat)

  datatype Entry = Unused | Valid(route: Route)

  // ----- Netmasks -----

  /** The netmask of a prefix length up to 32, as parse_network computes it. */
  function MaskOf(length: bv32): bv32
    requires length <= 32
  {
    var one: bv64 := 1;
    !((((one << (32 - length)) - 1) & 0xffff_ffff) as bv32)
  }

  function And(a: bv32, b: bv32): bv32 {
    a & b
  }

  /** A longer prefix's mask contains the shorter one's, and only then. */
  lemma MasksNested(p: bv32, q: bv32)
    requires p <= 32 && q <= 32
    ensures And(MaskOf(p), MaskOf(q)) == MaskOf(p) <==> p <= q
  {}

  lemma MaskEnds()
    ensures MaskOf(0) == 0 && MaskOf(8) == 0xff00_0000 && MaskOf(32) == 0xffff_ffff
  {}

  lemma ZeroMask(a: bv32)
    ensures And(a, 0) == 0 && And(0, a) == 0
  {}

  ghost predicate SamePrefix(a: bv32, b: bv32, length: bv32)
    requires length <= 32
  {
    forall i: bv32 | i < length :: BitAt(a, i) <==> BitAt(b, i)
  }

  function Or(a: bv32, b: bv32): bv32 {
    a | b
  }

  /** The word with bit i alone. */
  function OneBit(i: bv32): bv32
    requires i < 32
  {
    0x8000_0000 >> i
  }

  lemma MaskStep(p: bv32)
    requires p < 32
    ensures MaskOf(p + 1) == Or(MaskOf(p), OneBit(p))
  {}

  lemma AndWithOneMore(a: bv32, mask: bv32, i: bv32)
    requires i < 32
    ensures And(a, Or(mask, OneBit(i))) == Or(And(a, mask), And(a, OneBit(i)))
  {}

  lemma PartsOfOr(m: bv32, n: bv32)
    ensures And(Or(m, n), m) == m && And(Or(m, n), n) == n
  {}

  /** Words agree under a mask with one more bit exactly if they agree under the mask and in that bit. */
  lemma AgreeInOneMore(a: bv32, b: bv32, mask: bv32, i: bv32)
    requires i < 32
    ensures And(a, Or(mask, OneBit(i))) == And(b, Or(mask, OneBit(i))) <==>
              And(a, mask) == And(b, mask) && (BitAt(a, i) <==> BitAt(b, i))
  {
    hide And, Or, OneBit, BitAt;
    AndWithOneMore(a, mask, i);
    AndWithOneMore(b, mask, i);
    PartsOfOr(mask, OneBit(i));
    OneBitDecides(a, b, i);
    var more := Or(mask, OneBit(i));
    AndLaws(a, more, mask);
    AndLaws(b, more, mask);
    AndLaws(a, more, OneBit(i));
    AndLaws(b, more, OneBit(i));
  }

  lemma OneBitDecides(a: bv32, b: bv32, i: bv32)
    requires i < 32
    ensures And(a, OneBit(i)) == And(b, OneBit(i)) <==> (BitAt(a, i) <==> BitAt(b, i))
  {}

  /** Two addresses agree under the netmask of a prefix length exactly if they agree in as many leading bits. */
  lemma {:induction false} MaskedIffSamePrefix(a: bv32, b: bv32, length: bv32)
    requires length <= 32
    ensures And(a, MaskOf(length)) == And(b, MaskOf(length)) <==> SamePrefix(a, b, length)
    decreases length
  {
    hide And, Or, MaskOf, OneBit, BitAt;
    if length == 0 {
      MaskEnds();
      ZeroMask(a);
      ZeroMask(b);
    } else {
      var p := length - 1;
      MaskedIffSamePrefix(a, b, p);
      MaskStep(p);
      AgreeInOneMore(a, b, MaskOf(p), p);
      LongerPrefix(a, b, p);
    }
  }

  lemma LongerPrefix(a: bv32, b: bv32, p: bv32)
    requires p < 32
    ensures SamePrefix(a, b, p + 1) <==> SamePrefix(a, b, p) && (BitAt(a, p) <==> BitAt(b, p))
  {
    hide BitAt;
  }

  lemma AndLaws(a: bv32, b: bv32, c: bv32)
    ensures And(a, b) == And(b, a)
    ensures And(And(a, b), c) == And(a, And(b, c))
    ensures And(a, a) == a
  {}

  // ----- The table -----

  predicate Matches(r: Route, dest: bv32) {
    And(dest, r.netmask) == r.network
  }

  lemma BitOfAnd(a: bv32, b: bv32, i: bv32)
    requires i < 32
    ensures BitAt(And(a, b), i) <==> BitAt(a, i) && BitAt(b, i)
  {}

  /** A netmask has as many leading ones as the prefix is long, and no others. */
  lemma BitOfMask(length: bv32, i: bv32)
    requires length <= 32 && i < 32
    ensures BitAt(MaskOf(length), i) <==> i < length
  {}

  lemma SameBitsSame(a: bv32, b: bv32)
    requires SamePrefix(a, b, 32)
    ensures a == b
  {
    MaskedIffSamePrefix(a, b, 32);
    MaskEnds();
    AllOnes(a);
    AllOnes(b);
  }

  lemma AllOnes(a: bv32)
    ensures And(a, 0xffff_ffff) == a
  {}

  /**
   * What a route with a prefix of some length matches: the destinations that begin with the leading bits of its
   * network. A network with a bit beyond its prefix matches nothing.
   */
  lemma MatchesIffPrefix(r: Route, length: bv32, dest: bv32)
    requires length <= 32 && r.netmask == MaskOf(length)
    ensures Matches(r, dest) <==>
              SamePrefix(dest, r.network, length) && forall i: bv32 | length <= i < 32 :: !BitAt(r.network, i)
  {
    hide And, MaskOf, BitAt;
    var net, mask := r.network, r.netmask;
    MaskedIffSamePrefix(dest, net, length);
    MaskedTwice(dest, mask);
    MaskKeepsIff(net, length);
    if Matches(r, dest) {
      assert And(net, mask) == net;
    }
  }

  lemma MaskedTwice(a: bv32, mask: bv32)
    ensures And(And(a, mask), mask) == And(a, mask)
  {}

  lemma MaskKeepsIff(net: bv32, length: bv32)
    requires length <= 32
    ensures And(net, MaskOf(length)) == net <==> forall i: bv32 | length <= i < 32 :: !BitAt(net, i)
  {
    hide And, MaskOf, BitAt;
    var kept := And(net, MaskOf(length));
    forall i: bv32 | i < 32 ensures BitAt(kept, i) <==> BitAt(net, i) && i < length {
      BitOfAnd(net, MaskOf(length), i);
      BitOfMask(length, i);
    }
    if forall i: bv32 | length <= i < 32 :: !BitAt(net, i) {
      SameBitsSame(kept, net);
    }
  }

  /** The first slot whose route matches, or the number of slots. */
  function FirstMatch(t: seq<Entry>, dest: bv32): (i: nat)
    ensures i <= |t| && (i < |t| ==> t[i].Valid? && Matches(t[i].route, dest))
    ensures forall k | 0 <= k < i :: t[k].Valid? ==> !Matches(t[k].route, dest)
  {
    if t == [] || (t[0].Valid? && Matches(t[0].route, dest)) then 0 else 1 + FirstMatch(t[1..], dest)
  }

  function FirstUnused(t: seq<Entry>): (i: nat)
    ensures i <= |t| && (i < |t| ==> t[i].Unused?)
    ensures forall k | 0 <= k < i :: t[k].Valid?
  {
    if t == [] || t[0].Unused? then 0 else 1 + FirstUnused(t[1..])
  }

  predicate IsFor(e: Entry, network: bv32, netmask: bv32) {
    e.Valid? && e.route.network == network && e.route.netmask == netmask
  }

  function FirstFor(t: seq<Entry>, network: bv32, netmask: bv32): (i: nat)
    ensures i <= |t| && (i < |t| ==> IsFor(t[i], network, netmask))
    ensures forall k | 0 <= k < i :: !IsFor(t[k], network, netmask)
  {
    if t == [] || IsFor(t[0], network, netmask) then 0 else 1 + FirstFor(t[1..], network, netmask)
  }

  function Choose(t: seq<Entry>, dest: bv32): Option<Route> {
    var i := FirstMatch(t, dest);
    if i < |t| then Some(t[i].route) else None
  }

  function AddRoute(t: seq<Entry>, r: Route): seq<Entry> {
    var i := FirstUnused(t);
    if i < |t| then t[i := Valid(r)] else t
  }

  function DelRoute(t: seq<Entry>, network: bv32, netmask: bv32): seq<Entry> {
    var i := FirstFor(t, network, netmask);
    if i < |t| then t[i := Unused] else t
  }

  /** Every route leads to an interface of the router. */
  predicate Wired(t: seq<Entry>, gifc: seq<Interface>) {
    forall i | 0 <= i < |t| && t[i].Valid? :: t[i].route.ifc < |gifc|
  }

  /**
   * What becomes of a packet: no route, no known MAC of the next hop, the end of the process over a payload
   * that does not fit the outgoing interface, or the interface and MAC to send it to.
   */
  datatype Decision =
    | NoRoute
    | Unresolved(nextHop: Address)
    | Oversized(ifc: nat)
    | Forward(ifc: nat, mac: MacAddress)

  function Decide(t: seq<Entry>, gifc: seq<Interface>, arp: seq<Slot>, dest: bv32, size: nat): (d: Decision)
    requires Wired(t, gifc)
    ensures d.Oversized? || d.Forward? ==> d.ifc < |gifc|
  {
    match Choose(t, dest)
    case None => NoRoute
    case Some(r) =>
      match Lookup(arp, r.nextHop)
      case None => Unresolved(r.nextHop)
      case Some(mac) => if size + ETHERNET_HEADER > gifc[r.ifc].mtu then Oversized(r.ifc) else Forward(r.ifc, mac)
  }

  /** An added route takes the lowest unused slot, and a deletion frees the lowest slot of its network. */
  lemma LowestSlots(t: seq<Entry>, r: Route, network: bv32, netmask: bv32, i: nat)
    requires i < |t|
    ensures t[i].Unused? && (forall k | 0 <= k < i :: t[k].Valid?) ==> AddRoute(t, r) == t[i := Valid(r)]
    ensures IsFor(t[i], network, netmask) && (forall k | 0 <= k < i :: !IsFor(t[k], network, netmask)) ==>
              DelRoute(t, network, netmask) == t[i := Unused]
    ensures (forall k | 0 <= k < |t| :: t[k].Valid?) ==> AddRoute(t, r) == t
    ensures (forall k | 0 <= k < |t| :: !IsFor(t[k], network, netmask)) ==> DelRoute(t, network, netmask) == t
  {
    hide FirstUnused, FirstFor;
    var u, f := FirstUnused(t), FirstFor(t, network, netmask);
    assert u < i ==> t[u].Unused?;
    assert f < i ==> IsFor(t[f], network, netmask);
  }

  class Table {
    const entries: array<Entry>
    const arp: Cache
    const gifc: seq<Interface>

    ghost predicate Valid()
      reads arp, entries
    {
      entries.Length == TABLE_SIZE && arp.Valid() && Wired(entries[..], gifc)
    }

    constructor (arp: Cache, gifc: seq<Interface>)
      requires arp.Valid()
      ensures Valid() && fresh(entries) && this.arp == arp && this.gifc == gifc
      ensures entries[..] == seq(TABLE_SIZE, i => Unused)
    {
      entries := new Entry[TABLE_SIZE](i => Unused);
      this.arp := arp;
      this.gifc := gifc;
    }

    /**
     * The scan of route for a packet with `size` bytes of payload; it stops at the first matching entry even if
     * the next hop cannot be resolved. Forwarding aborts if the payload does not fit the interface.
     */
    method RoutePacket(dest: bv32, size: nat) returns (d: Decision)
      requires Valid()
      ensures d == Decide(entries[..], gifc, arp.slots[..], dest, size)
    {
      hide And;
      var i := 0;
      while i < TABLE_SIZE
        invariant i <= TABLE_SIZE
        invariant forall k | 0 <= k < i :: entries[k].Valid? ==> !Matches(entries[k].route, dest)
      {
        if entries[i].Valid? {
          if Matches(entries[i].route, dest) {
            assert FirstMatch(entries[..], dest) == i;
            var r := entries[..][i].route;
            var mac := arp.LookupArp(r.nextHop);
            if mac.None? {
              return Unresolved(r.nextHop);
            }
            return if size + ETHERNET_HEADER > gifc[r.ifc].mtu then Oversized(r.ifc) else Forward(r.ifc, mac.value);
          }
        }
        i := i + 1;
      }
      assert FirstMatch(entries[..], dest) == TABLE_SIZE;
      d := NoRoute;
    }

    /** route add: the first unused slot, which may be one that a deletion left in front of older routes. */
    method Add(r: Route) returns (full: bool)
      requires Valid() && r.ifc < |gifc|
      modifies entries
      ensures Valid()
      ensures entries[..] == AddRoute(old(entries[..]), r)
      ensures full <==> forall i | 0 <= i < TABLE_SIZE :: old(entries[i]).Valid?
    {
      ghost var t := entries[..];
      var i := 0;
      while i < TABLE_SIZE
        invariant i <= TABLE_SIZE && entries[..] == t && forall k | 0 <= k < i :: t[k].Valid?
      {
        if entries[i].Unused? {
          assert FirstUnused(t) == i && !t[i].Valid?;
          entries[i] := Entry.Valid(r);
          return false;
        }
        i := i + 1;
      }
      assert FirstUnused(t) == TABLE_SIZE;
      full := true;
    }

    method Del(network: bv32, netmask: bv32) returns (found: bool)
      requires Valid()
      modifies entries
      ensures Valid()
      ensures entries[..] == DelRoute(old(entries[..]), network, netmask)
      ensures found <==> exists i :: 0 <= i < TABLE_SIZE && IsFor(old(entries[i]), network, netmask)
    {
      ghost var t := entries[..];
      var i := 0;
      while i < TABLE_SIZE
        invariant i <= TABLE_SIZE && entries[..] == t && forall k | 0 <= k < i :: !IsFor(t[k], network, netmask)
      {
        if entries[i].Valid? && entries[i].route.network == network && entries[i].route.netmask == netmask {
          assert FirstFor(t, network, netmask) == i && IsFor(t[i], network, netmask);
          entries[i] := Unused;
          return true;
        }
        i := i + 1;
      }
      assert FirstFor(t, network, netmask) == TABLE_SIZE;
      found := false;
    }
  }

  /** Deleting a route just added restores the table, unless another entry for that network is in it. */
  lemma DelUndoesAdd(t: seq<Entry>, r: Route)
    requires FirstUnused(t) < |t|
    requires forall k | 0 <= k < |t| :: !IsFor(t[k], r.network, r.netmask)
    ensures DelRoute(AddRoute(t, r), r.network, r.netmask) == t
  {
    var i, u := FirstUnused(t), AddRoute(t, r);
    assert u == t[i := Valid(r)] && IsFor(Valid(r), r.network, r.netmask);
    hide FirstUnused, IsFor, AddRoute;
    FirstForIs(u, r.network, r.netmask, i);
    assert u[i := Unused] == t[i := Unused] == t;
  }

  lemma FirstForIs(t: seq<Entry>, network: bv32, netmask: bv32, i: nat)
    requires i < |t| && IsFor(t[i], network, netmask)
    requires forall k | 0 <= k < i :: !IsFor(t[k], network, netmask)
    ensures FirstFor(t, network, netmask) == i
  {
    hide FirstFor, IsFor;
  }

  // ----- Which destinations two routes share -----

  /** No host bits, and a mask that some prefix length gives. */
  ghost predicate Proper(r: Route) {
    && And(r.network, r.netmask) == r.network
    && exists p: bv32 :: p <= 32 && r.netmask == MaskOf(p)
  }

  /** The prefix of r is at least as long as that of s. */
  predicate AsLong(r: Route, s: Route) {
    And(r.netmask, s.netmask) == s.netmask
  }

  ghost predicate Overlap(r: Route, s: Route) {
    exists dest :: Matches(r, dest) && Matches(s, dest)
  }

  /** Whether one network lies in the other: what can be checked of two routes. */
  predicate Nested(r: Route, s: Route) {
    if AsLong(r, s) then And(r.network, s.netmask) == s.network else And(s.network, r.netmask) == r.network
  }

  lemma ProperTotal(r: Route, s: Route)
    requires Proper(r) && Proper(s)
    ensures AsLong(r, s) || AsLong(s, r)
  {
    var p: bv32 :| p <= 32 && r.netmask == MaskOf(p);
    var q: bv32 :| q <= 32 && s.netmask == MaskOf(q);
    hide MaskOf, And;
    MasksNested(p, q);
    MasksNested(q, p);
    AndLaws(MaskOf(p), MaskOf(q), MaskOf(q));
  }

  /** If the networks are nested, all destinations of the longer prefix match both; otherwise none does. */
  lemma NestedOrDisjoint(r: Route, s: Route, dest: bv32)
    requires AsLong(r, s) && Matches(r, dest)
    ensures Matches(s, dest) <==> And(r.network, s.netmask) == s.network
  {
    hide And;
    AndLaws(dest, r.netmask, s.netmask);
  }

  lemma OverlapIffNested(r: Route, s: Route)
    requires Proper(r) && Proper(s)
    ensures Overlap(r, s) <==> Nested(r, s)
  {
    ProperTotal(r, s);
    hide And;
    assert Matches(r, r.network) && Matches(s, s.network);
    if AsLong(r, s) {
      NestedOrDisjoint(r, s, r.network);
      if dest: bv32 :| Matches(r, dest) && Matches(s, dest) {
        NestedOrDisjoint(r, s, dest);
      }
    } else {
      NestedOrDisjoint(s, r, s.network);
      if dest: bv32 :| Matches(r, dest) && Matches(s, dest) {
        NestedOrDisjoint(s, r, dest);
      }
    }
  }

  // ----- Longest prefix (RFC 1812 section 5.2.4.3) -----

  ghost predicate ProperTable(t: seq<Entry>) {
    forall i | 0 <= i < |t| && t[i].Valid? :: Proper(t[i].route)
  }

  /** Of any two nested valid routes, the longer prefix is in the lower slot. */
  predicate LongerFirst(t: seq<Entry>) {
    forall i, j | 0 <= i < j < |t| && t[i].Valid? && t[j].Valid? && Nested(t[i].route, t[j].route) ::
      AsLong(t[i].route, t[j].route)
  }

  /** The choice for dest is a matching route of longest prefix, if there is a matching route at all. */
  predicate ChoosesLongest(t: seq<Entry>, dest: bv32) {
    match Choose(t, dest)
    case None => forall i | 0 <= i < |t| && t[i].Valid? :: !Matches(t[i].route, dest)
    case Some(r) =>
      && Valid(r) in t && Matches(r, dest)
      && forall i | 0 <= i < |t| && t[i].Valid? && Matches(t[i].route, dest) :: AsLong(r, t[i].route)
  }

  /** The table that is left when only the slots in keep survive deletions. */
  function Keep(t: seq<Entry>, keep: set<nat>): (u: seq<Entry>)
    ensures |u| == |t|
    ensures forall i | 0 <= i < |t| :: u[i] == if i in keep then t[i] else Unused
  {
    seq(|t|, i requires 0 <= i < |t| => if i in keep then t[i] else Unused)
  }

  lemma LongestIfLongerFirst(t: seq<Entry>, dest: bv32)
    requires ProperTable(t) && LongerFirst(t)
    ensures ChoosesLongest(t, dest)
  {
    hide FirstMatch, Matches, AsLong;
    var i := FirstMatch(t, dest);
    if i < |t| {
      assert t[i] in t;
      forall j | 0 <= j < |t| && t[j].Valid? && Matches(t[j].route, dest) ensures AsLong(t[i].route, t[j].route) {
        if j == i {
          SelfAsLong(t[i].route);
        } else {
          assert j > i && Overlap(t[i].route, t[j].route);
          OverlapIffNested(t[i].route, t[j].route);
        }
      }
    }
  }

  lemma SelfAsLong(r: Route)
    ensures AsLong(r, r)
  {}

  lemma KeepsLongerFirst(t: seq<Entry>, keep: set<nat>)
    requires ProperTable(t) && LongerFirst(t)
    ensures ProperTable(Keep(t, keep)) && LongerFirst(Keep(t, keep))
  {}

  /** A shorter prefix in front of a longer one inside it is chosen wrongly once the other routes are gone. */
  lemma WrongOrderShows(t: seq<Entry>, i: nat, j: nat)
    requires ProperTable(t) && i < j < |t| && t[i].Valid? && t[j].Valid?
    requires Nested(t[i].route, t[j].route) && !AsLong(t[i].route, t[j].route)
    ensures exists dest :: !ChoosesLongest(Keep(t, {i, j}), dest)
  {
    var r, s, u := t[i].route, t[j].route, Keep(t, {i, j});
    OverlapIffNested(r, s);
    var dest: bv32 :| Matches(r, dest) && Matches(s, dest);
    hide FirstMatch, Matches, AsLong, Nested;
    assert u[i] == t[i] && u[j] == t[j];
    assert FirstMatch(u, dest) == i;
    assert !ChoosesLongest(u, dest);
  }

  /**
   * Exactly when first match means longest prefix: the scan chooses a longest matching prefix for every
   * destination, whichever routes are deleted, if and only if longer prefixes come before shorter ones
   * that contain them.
   */
  lemma LongestPrefixIff(t: seq<Entry>)
    requires ProperTable(t)
    ensures (forall keep: set<nat>, dest :: ChoosesLongest(Keep(t, keep), dest)) <==> LongerFirst(t)
  {
    hide ChoosesLongest, Keep, Nested, AsLong;
    if LongerFirst(t) {
      forall keep: set<nat>, dest ensures ChoosesLongest(Keep(t, keep), dest) {
        KeepsLongerFirst(t, keep);
        LongestIfLongerFirst(Keep(t, keep), dest);
      }
    } else {
      var i, j :| 0 <= i < j < |t| && t[i].Valid? && t[j].Valid? && Nested(t[i].route, t[j].route)
                  && !AsLong(t[i].route, t[j].route);
      WrongOrderShows(t, i, j);
    }
  }

  /** r is a route of t of longest prefix for dest. */
  predicate Best(t: seq<Entry>, r: Route, dest: bv32) {
    && Valid(r) in t && Matches(r, dest)
    && forall i | 0 <= i < |t| && t[i].Valid? && Matches(t[i].route, dest) :: AsLong(r, t[i].route)
  }

  /** The decision is what route r and the ARP history h call for. */
  predicate Follows(d: Decision, r: Route, h: seq<Added>, gifc: seq<Interface>, size: nat) {
    match d
    case NoRoute => false
    case Unresolved(hop) => r.nextHop == hop && !IsHeld(h, hop)
    case Oversized(ifc) =>
      r.ifc == ifc < |gifc| && IsHeld(h, r.nextHop) && size + ETHERNET_HEADER > gifc[ifc].mtu
    case Forward(ifc, mac) =>
      && r.ifc == ifc < |gifc| && IsHeld(h, r.nextHop) && size + ETHERNET_HEADER <= gifc[ifc].mtu
      && Latest(h, r.nextHop) == Some(mac)
  }

  /**
   * Table and cache together: after any ARP history h, the fate of a packet is decided by a route of longest
   * prefix. It is sent on that route's interface to the MAC its next hop announced last, it is dropped if that
   * MAC is not held or no route matches, and it ends the router if it is held but the payload does not fit.
   */
  lemma PacketsFollowLongestPrefix(t: seq<Entry>, gifc: seq<Interface>, h: seq<Added>, dest: bv32, size: nat)
    requires ProperTable(t) && LongerFirst(t) && Wired(t, gifc)
    ensures var d := Decide(t, gifc, Run(h), dest, size);
            if d.NoRoute? then forall i | 0 <= i < |t| && t[i].Valid? :: !Matches(t[i].route, dest)
            else exists r :: Best(t, r, dest) && Follows(d, r, h, gifc, size)
  {
    hide Choose, Matches, AsLong, Run, IsHeld, Latest, Lookup;
    LongestIfLongerFirst(t, dest);
    if Choose(t, dest).Some? {
      var r := Choose(t, dest).value;
      assert Best(t, r, dest);
      LookupAfterRun(h, r.nextHop);
      HeldIsSeen(h, r.nextHop);
    }
  }

  // ----- When only the set of routes matters -----

  function ValidRoutes(t: seq<Entry>): set<Route> {
    set i | 0 <= i < |t| && t[i].Valid? :: t[i].route
  }

  ghost predicate PairwiseDisjoint(routes: set<Route>) {
    forall r, s | r in routes && s in routes && r != s :: !Overlap(r, s)
  }

  lemma ChoiceIsValid(t: seq<Entry>, dest: bv32)
    ensures Choose(t, dest).Some? ==> Choose(t, dest).value in ValidRoutes(t) && Matches(Choose(t, dest).value, dest)
    ensures Choose(t, dest).None? ==> forall r | r in ValidRoutes(t) :: !Matches(r, dest)
  {
    hide FirstMatch, Matches;
  }

  lemma DisjointChoice(t: seq<Entry>, u: seq<Entry>, dest: bv32)
    requires ValidRoutes(t) == ValidRoutes(u) && PairwiseDisjoint(ValidRoutes(t))
    ensures Choose(t, dest) == Choose(u, dest)
  {
    hide Choose, ValidRoutes, Matches;
    ChoiceIsValid(t, dest);
    ChoiceIsValid(u, dest);
    if Choose(t, dest).Some? && Choose(u, dest).Some? {
      assert Overlap(Choose(t, dest).value, Choose(u, dest).value);
    }
  }

  function Swapped(t: seq<Entry>, i: nat): (u: seq<Entry>)
    requires i < |t|
    ensures |u| == |t|
  {
    t[0 := t[i]][i := t[0]]
  }

  lemma SwappedKeepsRoutes(t: seq<Entry>, i: nat)
    requires i < |t|
    ensures ValidRoutes(Swapped(t, i)) == ValidRoutes(t)
  {
    var u := Swapped(t, i);
    forall r ensures r in ValidRoutes(u) <==> r in ValidRoutes(t) {
      if r in ValidRoutes(t) {
        var k :| 0 <= k < |t| && t[k].Valid? && t[k].route == r;
        var j := if k == 0 then i else if k == i then 0 else k;
        assert u[j] == t[k];
      }
      if r in ValidRoutes(u) {
        var k :| 0 <= k < |u| && u[k].Valid? && u[k].route == r;
        var j := if k == 0 then i else if k == i then 0 else k;
        assert t[j] == u[k];
      }
    }
  }

  /**
   * Exactly when the slots do not matter: all tables with the same valid routes choose alike if and only if
   * no two of the routes overlap.
   */
  lemma ChoiceDependsOnSetIff(t: seq<Entry>)
    ensures (forall u, dest | |u| == |t| && ValidRoutes(u) == ValidRoutes(t) :: Choose(u, dest) == Choose(t, dest))
       <==> PairwiseDisjoint(ValidRoutes(t))
  {
    hide Choose, Overlap, Swapped;
    if PairwiseDisjoint(ValidRoutes(t)) {
      forall u, dest | |u| == |t| && ValidRoutes(u) == ValidRoutes(t) ensures Choose(u, dest) == Choose(t, dest) {
        DisjointChoice(u, t, dest);
      }
    } else {
      var r, s :| r in ValidRoutes(t) && s in ValidRoutes(t) && r != s && Overlap(r, s);
      var i :| 0 <= i < |t| && t[i].Valid? && t[i].route == r;
      var j :| 0 <= j < |t| && t[j].Valid? && t[j].route == s;
      OverlapShows(t, i, j);
    }
  }

  lemma OverlapShows(t: seq<Entry>, i: nat, j: nat)
    requires i < |t| && j < |t| && t[i].Valid? && t[j].Valid? && t[i].route != t[j].route
    requires Overlap(t[i].route, t[j].route)
    ensures exists u, dest :: |u| == |t| && ValidRoutes(u) == ValidRoutes(t) && Choose(u, dest) != Choose(t, dest)
  {
    var dest: bv32 :| Matches(t[i].route, dest) && Matches(t[j].route, dest);
    SwappedKeepsRoutes(t, i);
    SwappedKeepsRoutes(t, j);
    var u, v := Swapped(t, i), Swapped(t, j);
    assert Choose(u, dest) == Some(t[i].route);
    assert Choose(v, dest) == Some(t[j].route);
  }

  // ----- Histories of additions and deletions -----

  function RouteOf(e: Entry): multiset<Route> {
    if e.Valid? then multiset{e.route} else multiset{}
  }

  /** The routes of a table with their multiplicity. */
  function Bag(t: seq<Entry>): multiset<Route> {
    if t == [] then multiset{} else RouteOf(t[0]) + Bag(t[1..])
  }

  lemma {:induction false} BagUpdate(t: seq<Entry>, i: nat, e: Entry)
    requires i < |t|
    ensures Bag(t[i := e]) + RouteOf(t[i]) == Bag(t) + RouteOf(e)
  {
    hide RouteOf;
    var u, rest := t[i := e], t[1..];
    if i == 0 {
      assert u[1..] == rest;
    } else {
      BagUpdate(rest, i - 1, e);
      assert u[0] == t[0] && u[1..] == rest[i - 1 := e] && rest[i - 1] == t[i];
      assert Bag(u) + RouteOf(t[i]) == RouteOf(t[0]) + (Bag(u[1..]) + RouteOf(t[i]));
      assert Bag(t) + RouteOf(e) == RouteOf(t[0]) + (Bag(rest) + RouteOf(e));
    }
  }

  /** Adding stores one route, if a slot is unused; deleting takes out one route of that network, if there is one. */
  lemma OneRouteChanges(t: seq<Entry>, r: Route, network: bv32, netmask: bv32)
    ensures Bag(AddRoute(t, r)) == Bag(t) + if Unused in t then multiset{r} else multiset{}
    ensures if exists e :: e in t && IsFor(e, network, netmask)
            then exists s :: IsFor(Valid(s), network, netmask)
                   && Bag(t) == Bag(DelRoute(t, network, netmask)) + multiset{s}
            else DelRoute(t, network, netmask) == t
  {
    hide FirstUnused, FirstFor, Bag;
    var i, j := FirstUnused(t), FirstFor(t, network, netmask);
    if i < |t| {
      BagUpdate(t, i, Valid(r));
    }
    if j < |t| {
      assert t[j] in t && Valid(t[j].route) == t[j];
      BagUpdate(t, j, Unused);
      var s := t[j].route;
      assert Bag(t) == Bag(DelRoute(t, network, netmask)) + multiset{s};
    }
  }

  datatype Op = AddOp(route: Route) | DelOp(network: bv32, netmask: bv32)

  function RunOps(h: seq<Op>): (t: seq<Entry>)
    ensures |t| == TABLE_SIZE
    decreases |h|
  {
    if h == [] then seq(TABLE_SIZE, i => Unused)
    else
      var t := RunOps(h[..|h| - 1]);
      match h[|h| - 1]
      case AddOp(r) => AddRoute(t, r)
      case DelOp(n, m) => DelRoute(t, n, m)
  }

  /**
   * Routes are not sorted by route add: entered after a default route, a route with a longer prefix is missed
   * for every destination it matches.
   */
  lemma DefaultRouteFirstHidesOthers(hop: Address, ifc: nat, r: Route, dest: bv32)
    requires Proper(r) && r.netmask != 0 && Matches(r, dest)
    ensures var default := Route(0, MaskOf(0), hop, ifc);
            var t := RunOps([AddOp(default), AddOp(r)]);
            && ProperTable(t) && default != r && Valid(r) in t && !AsLong(default, r)
            && Choose(t, dest) == Some(default) && !ChoosesLongest(t, dest)
  {
    MaskEnds();
    ZeroMask(dest);
    ZeroMask(r.netmask);
    var default := Route(0, MaskOf(0), hop, ifc);
    var empty := RunOps([]);
    assert [AddOp(default), AddOp(r)][..1] == [AddOp(default)] && [AddOp(default)][..0] == [];
    FirstUnusedIs(empty, 0);
    var one := AddRoute(empty, default);
    assert RunOps([AddOp(default)]) == one == empty[0 := Valid(default)];
    FirstUnusedIs(one, 1);
    var t := AddRoute(one, r);
    assert RunOps([AddOp(default), AddOp(r)]) == t == one[1 := Valid(r)];
    assert t[0] == Valid(default) && t[1] == Valid(r);
    hide RunOps, AddRoute, MaskOf, And;
    assert Matches(default, dest) && FirstMatch(t, dest) == 0;
    ZeroMask(0);
    assert Proper(default) by {
      var p: bv32 := 0;
      assert default.netmask == MaskOf(p);
    }
  }

  lemma FirstUnusedIs(t: seq<Entry>, i: nat)
    requires i < |t| && t[i].Unused? && forall k | 0 <= k < i :: t[k].Valid?
    ensures FirstUnused(t) == i
  {
    hide FirstUnused;
  }

  // ----- The table as a function of its history -----

  predicate Concerns(op: Op, network: bv32, netmask: bv32) {
    match op
    case AddOp(r) => r.network == network && r.netmask == netmask
    case DelOp(n, m) => n == network && m == netmask
  }

  function One(e: Entry, network: bv32, netmask: bv32): nat {
    if IsFor(e, network, netmask) then 1 else 0
  }

  /** The number of entries for a network. */
  function CountFor(t: seq<Entry>, network: bv32, netmask: bv32): (n: nat)
    ensures n == 0 <==> FirstFor(t, network, netmask) == |t|
  {
    if t == [] then 0 else One(t[0], network, netmask) + CountFor(t[1..], network, netmask)
  }

  /** How many routes of one network a history leaves: an add to a full table is lost, a delete takes one. */
  function Held(h: seq<Op>, network: bv32, netmask: bv32): nat
    decreases |h|
  {
    if h == [] then 0
    else
      var g, op := h[..|h| - 1], h[|h| - 1];
      var n := Held(g, network, netmask);
      if !Concerns(op, network, netmask) then n
      else if op.AddOp? then if Total(g) < TABLE_SIZE then n + 1 else n
      else if n > 0 then n - 1 else 0
  }

  /** How many routes a history leaves in all. */
  function Total(h: seq<Op>): int
    decreases |h|
  {
    if h == [] then 0
    else
      var g, op := h[..|h| - 1], h[|h| - 1];
      if op.AddOp? then if Total(g) < TABLE_SIZE then Total(g) + 1 else Total(g)
      else if Held(g, op.network, op.netmask) > 0 then Total(g) - 1 else Total(g)
  }

  lemma {:induction false} BagSize(t: seq<Entry>)
    ensures |Bag(t)| <= |t|
    ensures Unused !in t <==> |Bag(t)| == |t|
  {
    if t != [] {
      BagSize(t[1..]);
      assert t == [t[0]] + t[1..];
    }
  }

  lemma {:induction false} BagOfUnused(n: nat)
    ensures Bag(seq(n, i => Unused)) == multiset{}
  {
    if n > 0 {
      BagOfUnused(n - 1);
      assert seq(n, i => Unused)[1..] == seq(n - 1, i => Unused);
    }
  }

  lemma {:induction false} CountUpdate(t: seq<Entry>, i: nat, e: Entry, network: bv32, netmask: bv32)
    requires i < |t|
    ensures CountFor(t[i := e], network, netmask) + One(t[i], network, netmask)
         == CountFor(t, network, netmask) + One(e, network, netmask)
  {
    hide One, FirstFor;
    var u, rest := t[i := e], t[1..];
    if i == 0 {
      assert u[1..] == rest;
    } else {
      CountUpdate(rest, i - 1, e, network, netmask);
      assert u[0] == t[0] && u[1..] == rest[i - 1 := e] && rest[i - 1] == t[i];
    }
  }

  lemma CountAfterAdd(t: seq<Entry>, r: Route, network: bv32, netmask: bv32)
    ensures CountFor(AddRoute(t, r), network, netmask)
         == CountFor(t, network, netmask) + if Unused in t then One(Valid(r), network, netmask) else 0
  {
    hide FirstUnused, FirstFor, CountFor;
    var i := FirstUnused(t);
    if i < |t| {
      assert t[i] in t && One(Unused, network, netmask) == 0;
      CountUpdate(t, i, Valid(r), network, netmask);
    }
  }

  lemma CountAfterDel(t: seq<Entry>, n: bv32, m: bv32, network: bv32, netmask: bv32)
    ensures CountFor(DelRoute(t, n, m), network, netmask)
         == CountFor(t, network, netmask) - if n == network && m == netmask && CountFor(t, n, m) > 0 then 1 else 0
  {
    hide FirstFor, CountFor;
    var i := FirstFor(t, n, m);
    if i < |t| {
      assert One(Unused, network, netmask) == 0;
      CountUpdate(t, i, Unused, network, netmask);
    }
  }

  lemma BagAfterDel(t: seq<Entry>, n: bv32, m: bv32)
    ensures |Bag(DelRoute(t, n, m))| == |Bag(t)| - if CountFor(t, n, m) > 0 then 1 else 0
  {
    hide FirstFor, Bag, CountFor;
    var i := FirstFor(t, n, m);
    if i < |t| {
      BagUpdate(t, i, Unused);
      var u := DelRoute(t, n, m);
      assert RouteOf(t[i]) == multiset{t[i].route} && Bag(u) + RouteOf(t[i]) == Bag(t);
    }
  }

  /** What CountsAfterRun says of a history and its table. */
  ghost predicate CountsAgree(t: seq<Entry>, h: seq<Op>) {
    |Bag(t)| == Total(h) && forall n, m :: CountFor(t, n, m) == Held(h, n, m)
  }

  lemma CountsStep(g: seq<Op>, op: Op)
    ensures forall n, m :: Held(g + [op], n, m) ==
              if !Concerns(op, n, m) then Held(g, n, m)
              else if op.AddOp? then Held(g, n, m) + if Total(g) < TABLE_SIZE then 1 else 0
              else if Held(g, n, m) > 0 then Held(g, n, m) - 1 else 0
    ensures Total(g + [op]) ==
              if op.AddOp? then if Total(g) < TABLE_SIZE then Total(g) + 1 else Total(g)
              else if Held(g, op.network, op.netmask) > 0 then Total(g) - 1 else Total(g)
  {
    var h := g + [op];
    assert h[..|g|] == g && h[|g|] == op;
    hide Concerns;
  }

  lemma CountsAgreeAfterAdd(g: seq<Op>, r: Route, t: seq<Entry>)
    requires CountsAgree(t, g) && |t| == TABLE_SIZE
    ensures CountsAgree(AddRoute(t, r), g + [AddOp(r)])
  {
    BagSize(t);
    CountsStep(g, AddOp(r));
    hide Bag, CountFor, AddRoute, IsFor, Held, Total, FirstUnused, FirstFor;
    assert |Bag(AddRoute(t, r))| == |Bag(t)| + if Unused in t then 1 else 0 by {
      OneRouteChanges(t, r, r.network, r.netmask);
    }
    forall n, m ensures CountFor(AddRoute(t, r), n, m) == Held(g + [AddOp(r)], n, m) {
      CountAfterAdd(t, r, n, m);
      assert One(Valid(r), n, m) == if Concerns(AddOp(r), n, m) then 1 else 0 by {
        OneIsConcerned(r, n, m);
      }
    }
  }

  lemma OneIsConcerned(r: Route, network: bv32, netmask: bv32)
    ensures One(Valid(r), network, netmask) == if Concerns(AddOp(r), network, netmask) then 1 else 0
  {}

  lemma CountsAgreeAfterDel(g: seq<Op>, n: bv32, m: bv32, t: seq<Entry>)
    requires CountsAgree(t, g)
    ensures CountsAgree(DelRoute(t, n, m), g + [DelOp(n, m)])
  {
    CountsStep(g, DelOp(n, m));
    BagAfterDel(t, n, m);
    hide Bag, CountFor, DelRoute, IsFor, Held, Total, FirstFor;
    forall i, j ensures CountFor(DelRoute(t, n, m), i, j) == Held(g + [DelOp(n, m)], i, j) {
      CountAfterDel(t, n, m, i, j);
    }
  }

  /**
   * After any history at all, whatever networks are added again or lost in a full table, the table holds exactly
   * the number of routes of each network, and of routes in all, that the history leaves.
   */
  lemma {:induction false} CountsAfterRun(h: seq<Op>)
    ensures CountsAgree(RunOps(h), h)
    decreases |h|
  {
    if h == [] {
      NothingCounted();
    } else {
      var g, op := h[..|h| - 1], h[|h| - 1];
      CountsAfterRun(g);
      assert g + [op] == h;
      hide CountsAgree, AddRoute, DelRoute;
      match op
      case AddOp(r) => CountsAgreeAfterAdd(g, r, RunOps(g));
      case DelOp(n, m) => CountsAgreeAfterDel(g, n, m, RunOps(g));
    }
  }

  lemma NothingCounted()
    ensures CountsAgree(RunOps([]), [])
  {
    BagOfUnused(TABLE_SIZE);
    var t := RunOps([]);
    assert forall k | 0 <= k < |t| :: t[k] == Unused;
    hide FirstFor, CountFor, RunOps;
    forall n, m ensures CountFor(t, n, m) == 0 {
      assert forall k | 0 <= k < |t| :: !IsFor(t[k], n, m);
    }
  }

  // ----- Which routes a history leaves -----

  /** The route that a history leaves of a network: the last one that was stored, unless it was deleted since. */
  function Kept(h: seq<Op>, network: bv32, netmask: bv32): (r: Option<Route>)
    ensures r.Some? ==> r.value.network == network && r.value.netmask == netmask
    decreases |h|
  {
    if h == [] then None
    else
      var g, op := h[..|h| - 1], h[|h| - 1];
      if !Concerns(op, network, netmask) then Kept(g, network, netmask)
      else if op.DelOp? then None
      else if Total(g) < TABLE_SIZE then Some(op.route) else Kept(g, network, netmask)
  }

  /** At no time did the table hold two routes of this network. */
  predicate Single(h: seq<Op>, network: bv32, netmask: bv32)
    decreases |h|
  {
    Held(h, network, netmask) <= 1 && (h != [] ==> Single(h[..|h| - 1], network, netmask))
  }

  lemma RoutesAfterAdd(t: seq<Entry>, r: Route, s: Route)
    ensures s in ValidRoutes(AddRoute(t, r)) <==> s in ValidRoutes(t) || (Unused in t && s == r)
  {
    hide FirstUnused;
    var u, i := AddRoute(t, r), FirstUnused(t);
    if s in ValidRoutes(t) {
      var k :| 0 <= k < |t| && t[k].Valid? && t[k].route == s;
      assert u[k] == t[k];
    }
    if i < |t| {
      assert t[i] in t && u[i].route == r;
    }
  }

  lemma RoutesAfterDel(t: seq<Entry>, n: bv32, m: bv32, s: Route)
    requires s.network != n || s.netmask != m
    ensures s in ValidRoutes(DelRoute(t, n, m)) <==> s in ValidRoutes(t)
  {
    hide FirstFor;
    var u, i := DelRoute(t, n, m), FirstFor(t, n, m);
    if s in ValidRoutes(u) {
      var k :| 0 <= k < |u| && u[k].Valid? && u[k].route == s;
      assert u[k] == t[k];
    }
    if s in ValidRoutes(t) {
      var k :| 0 <= k < |t| && t[k].Valid? && t[k].route == s;
      assert u[k] == t[k];
    }
  }

  lemma HeldIffRoute(t: seq<Entry>, s: Route)
    ensures s in ValidRoutes(t) ==> CountFor(t, s.network, s.netmask) > 0
  {
    hide FirstFor, CountFor;
    if s in ValidRoutes(t) {
      var k :| 0 <= k < |t| && t[k].Valid? && t[k].route == s;
      assert IsFor(t[k], s.network, s.netmask);
    }
  }

  /**
   * After any history, whatever was lost in a full table and whatever happened to other networks, a network that
   * was never held twice has exactly the route in the table that was last stored for it and not deleted since.
   */
  lemma {:induction false} TableIsHistory(h: seq<Op>, r: Route)
    requires Single(h, r.network, r.netmask)
    ensures r in ValidRoutes(RunOps(h)) <==> Kept(h, r.network, r.netmask) == Some(r)
    ensures Kept(h, r.network, r.netmask).Some? <==> Held(h, r.network, r.netmask) == 1
    decreases |h|
  {
    if h != [] {
      var g, op := h[..|h| - 1], h[|h| - 1];
      TableIsHistory(g, r);
      CountsAfterRun(g);
      CountsAfterRun(h);
      BagSize(RunOps(g));
      HeldIffRoute(RunOps(g), r);
      HeldIffRoute(RunOps(h), r);
      hide AddRoute, DelRoute, ValidRoutes, Bag, CountFor;
      match op
      case AddOp(s) => RoutesAfterAdd(RunOps(g), s, r);
      case DelOp(n, m) =>
        if !Concerns(op, r.network, r.netmask) {
          RoutesAfterDel(RunOps(g), n, m, r);
        }
    }
  }

  /** For disjoint routes, two such histories that leave the same routes lead to the same choice. */
  lemma HistoryIsIrrelevant(g: seq<Op>, h: seq<Op>, dest: bv32)
    requires forall n, m :: Single(g, n, m) && Single(h, n, m) && Kept(g, n, m) == Kept(h, n, m)
    requires PairwiseDisjoint(ValidRoutes(RunOps(h)))
    ensures Choose(RunOps(g), dest) == Choose(RunOps(h), dest)
  {
    hide Choose, ValidRoutes, RunOps, Kept, Single;
    forall r ensures r in ValidRoutes(RunOps(g)) <==> r in ValidRoutes(RunOps(h)) {
      TableIsHistory(g, r);
      TableIsHistory(h, r);
    }
    assert ValidRoutes(RunOps(g)) == ValidRoutes(RunOps(h));
    DisjointChoice(RunOps(g), RunOps(h), dest);
  }
}

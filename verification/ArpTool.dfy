/** The direct-mapped ARP cache of the arp tool, where an address can only be in the slot its hash names. */
module ArpTool {
  import opened Wire
  import opened Net
  import opened ArpCache

  function Hash(ip: Address): (i: nat)
    ensures i < CACHE_SIZE
  {
    HostOrder(ip) % CACHE_SIZE
  }

  /** Two addresses share a slot exactly when their last bytes are equal. */
  lemma HashIsLastByte(ip: Address, other: Address)
    ensures Hash(ip) == ip[3]
    ensures Hash(ip) == Hash(other) <==> ip[3] == other[3]
  {}

  function Put(c: seq<Slot>, ip: Address, mac: MacAddress): (r: seq<Slot>)
    requires |c| == CACHE_SIZE
    ensures |r| == CACHE_SIZE
  {
    c[Hash(ip) := Held(ip, mac)]
  }

  function Remove(c: seq<Slot>, ip: Address): (r: seq<Slot>)
    requires |c| == CACHE_SIZE
    ensures |r| == CACHE_SIZE
  {
    if Holds(c[Hash(ip)], ip) then c[Hash(ip) := Free] else c
  }

  function Find(c: seq<Slot>, ip: Address): Option<MacAddress>
    requires |c| == CACHE_SIZE
  {
    if Holds(c[Hash(ip)], ip) then Some(c[Hash(ip)].mac) else None
  }

  class DirectCache {
    const slots: array<Slot>

    ghost predicate Valid()
      reads this
    {
      slots.Length == CACHE_SIZE
    }

    constructor ()
      ensures Valid() && fresh(slots) && slots[..] == seq(CACHE_SIZE, i => Free)
    {
      slots := new Slot[CACHE_SIZE](i => Free);
    }

    method AddArp(ip: Address, mac: MacAddress)
      requires Valid()
      modifies slots
      ensures slots[..] == Put(old(slots[..]), ip, mac)
    {
      slots[Hash(ip)] := Held(ip, mac);
    }

    method RemoveArp(ip: Address)
      requires Valid()
      modifies slots
      ensures slots[..] == Remove(old(slots[..]), ip)
    {
      var index := Hash(ip);
      if slots[index].Held? && slots[index].ip == ip {
        slots[index] := Free;
      }
    }

    method LookupArp(ip: Address) returns (r: Option<MacAddress>)
      requires Valid()
      ensures r == Find(slots[..], ip)
    {
      var index := Hash(ip);
      if slots[index].Held? && slots[index].ip == ip {
        return Some(slots[index].mac);
      }
      r := None;
    }
  }

  // ----- Against the history of operations -----

  datatype Op = AddOp(ip: Address, mac: MacAddress) | RemoveOp(ip: Address)

  function RunOps(h: seq<Op>): (c: seq<Slot>)
    ensures |c| == CACHE_SIZE
    decreases |h|
  {
    if h == [] then seq(CACHE_SIZE, i => Free)
    else
      var c := RunOps(h[..|h| - 1]);
      match h[|h| - 1]
      case AddOp(ip, mac) => Put(c, ip, mac)
      case RemoveOp(ip) => Remove(c, ip)
  }

  /** The operations that bear on what is known about ip: adds to its slot, and its own removals. */
  predicate Concerns(op: Op, ip: Address) {
    match op
    case AddOp(other, mac) => other[3] == ip[3]
    case RemoveOp(other) => other == ip
  }

  /** Operation k is the last one that concerns ip. */
  predicate IsLastFor(h: seq<Op>, ip: Address, k: nat) {
    k < |h| && Concerns(h[k], ip) && forall j | k < j < |h| :: !Concerns(h[j], ip)
  }

  /** No slot ever holds an address of another slot. */
  lemma {:induction false} EntriesStayHome(h: seq<Op>, i: nat)
    requires i < CACHE_SIZE
    ensures RunOps(h)[i].Held? ==> RunOps(h)[i].ip[3] == i
    decreases |h|
  {
    if h != [] {
      EntriesStayHome(h[..|h| - 1], i);
      HashIsLastByte(h[|h| - 1].ip, h[|h| - 1].ip);
      hide Hash;
    }
  }

  lemma LastForShorter(h: seq<Op>, op: Op, ip: Address, k: nat)
    ensures IsLastFor(h + [op], ip, k) <==>
              if k == |h| then Concerns(op, ip) else !Concerns(op, ip) && IsLastFor(h, ip, k)
  {
    var g := h + [op];
    assert g[|h|] == op;
    if k < |h| {
      assert forall j | k < j < |h| :: g[j] == h[j];
      assert forall j | k < j < |g| :: j == |h| || g[j] == h[j];
    }
  }

  /**
   * Looking up ip gives mac if and only if the last operation that concerns ip was its add with mac: never a
   * stale MAC, and never one that was removed or whose slot was taken over.
   */
  lemma {:induction false} LookupIffLastAdd(h: seq<Op>, ip: Address, mac: MacAddress)
    ensures Find(RunOps(h), ip) == Some(mac) <==> exists k: nat :: IsLastFor(h, ip, k) && h[k] == AddOp(ip, mac)
    decreases |h|
  {
    if h != [] {
      var g, op := h[..|h| - 1], h[|h| - 1];
      assert h == g + [op];
      LookupIffLastAdd(g, ip, mac);
      HashIsLastByte(op.ip, ip);
      hide Hash, IsLastFor;
      LastForShorter(g, op, ip, |g|);
      forall k: nat
        ensures IsLastFor(h, ip, k) <==>
                  if k == |g| then Concerns(op, ip) else !Concerns(op, ip) && IsLastFor(g, ip, k)
      {
        LastForShorter(g, op, ip, k);
      }
      if Concerns(op, ip) {
        assert IsLastFor(h, ip, |g|) && h[|g|] == op;
      } else {
        LastForInRange(g, ip);
        if k: nat :| IsLastFor(g, ip, k) && g[k] == AddOp(ip, mac) {
          assert IsLastFor(h, ip, k) && h[k] == AddOp(ip, mac);
        }
      }
    }
  }

  lemma LastForInRange(h: seq<Op>, ip: Address)
    ensures forall k: nat | IsLastFor(h, ip, k) :: k < |h|
  {}
}

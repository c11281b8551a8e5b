/** The router's ARP cache: an array searched from the front, whose slot 0 is replaced when it is full. */
module ArpCache {
  import opened Wire
  import opened Net

  const CACHE_SIZE: nat := 256

  datatype Slot = Free | Held(ip: Address, mac: MacAddress)

  datatype Added = Added(ip: Address, mac: MacAddress)

  predicate Holds(s: Slot, ip: Address) {
    s.Held? && s.ip == ip
  }

  /** The first slot that holds ip, or the number of slots. */
  function FirstHeld(c: seq<Slot>, ip: Address): (i: nat)
    ensures i <= |c| && (i < |c| ==> Holds(c[i], ip))
    ensures forall k | 0 <= k < i :: !Holds(c[k], ip)
  {
    if c == [] || Holds(c[0], ip) then 0 else 1 + FirstHeld(c[1..], ip)
  }

  /** The first free slot, or the number of slots. */
  function FirstFree(c: seq<Slot>): (i: nat)
    ensures i <= |c| && (i < |c| ==> c[i].Free?)
    ensures forall k | 0 <= k < i :: !c[k].Free?
  {
    if c == [] || c[0].Free? then 0 else 1 + FirstFree(c[1..])
  }

  function Lookup(c: seq<Slot>, ip: Address): Option<MacAddress> {
    var i := FirstHeld(c, ip);
    if i < |c| then Some(c[i].mac) else None
  }

  function Add(c: seq<Slot>, ip: Address, mac: MacAddress): (r: seq<Slot>)
    requires c != []
    ensures |r| == |c|
  {
    var i, j := FirstHeld(c, ip), FirstFree(c);
    if i < |c| then c[i := Held(ip, mac)]
    else if j < |c| then c[j := Held(ip, mac)]
    else c[0 := Held(ip, mac)]
  }

  // ----- The code -----

  class Cache {
    const slots: array<Slot>

    ghost predicate Valid()
      reads this
    {
      slots.Length == CACHE_SIZE
    }

    constructor ()
      ensures Valid() && fresh(slots) && slots[..] == seq(CACHE_SIZE, i => Free)
    {
      slots := new Slot[CACHE_SIZE](i => Free);
    }

    method LookupArp(ip: Address) returns (r: Option<MacAddress>)
      requires Valid()
      ensures r == Lookup(slots[..], ip)
    {
      var i := 0;
      while i < CACHE_SIZE
        invariant i <= CACHE_SIZE && forall k | 0 <= k < i :: !Holds(slots[k], ip)
      {
        if slots[i].Held? && slots[i].ip == ip {
          assert FirstHeld(slots[..], ip) == i;
          return Some(slots[i].mac);
        }
        i := i + 1;
      }
      r := None;
    }

    method AddArp(ip: Address, mac: MacAddress)
      requires Valid()
      modifies slots
      ensures slots[..] == Add(old(slots[..]), ip, mac)
    {
      ghost var c := slots[..];
      var i := 0;
      while i < CACHE_SIZE
        invariant i <= CACHE_SIZE && slots[..] == c && forall k | 0 <= k < i :: !Holds(c[k], ip)
      {
        if slots[i].Held? && slots[i].ip == ip {
          assert FirstHeld(c, ip) == i;
          slots[i] := Held(ip, mac);
          return;
        }
        i := i + 1;
      }
      assert FirstHeld(c, ip) == CACHE_SIZE;
      i := 0;
      while i < CACHE_SIZE
        invariant i <= CACHE_SIZE && slots[..] == c && forall k | 0 <= k < i :: !c[k].Free?
      {
        if slots[i].Free? {
          assert FirstFree(c) == i;
          slots[i] := Held(ip, mac);
          return;
        }
        i := i + 1;
      }
      slots[0] := Held(ip, mac);
    }
  }

  // ----- The cache as a function of its history -----

  function Run(h: seq<Added>): (c: seq<Slot>)
    ensures |c| == CACHE_SIZE
    decreases |h|
  {
    if h == [] then seq(CACHE_SIZE, i => Free)
    else Add(Run(h[..|h| - 1]), h[|h| - 1].ip, h[|h| - 1].mac)
  }

  predicate Seen(h: seq<Added>, ip: Address) {
    exists a :: a in h && a.ip == ip
  }

  /** The addresses of a history in the order of their first appearance. */
  function Distinct(h: seq<Added>): (d: seq<Address>)
    ensures forall i, j | 0 <= i < j < |d| :: d[i] != d[j]
    ensures forall ip :: ip in d <==> Seen(h, ip)
    decreases |h|
  {
    if h == [] then [] else
      var d, last := Distinct(h[..|h| - 1]), h[|h| - 1];
      assert h == h[..|h| - 1] + [last];
      if last.ip in d then d else d + [last.ip]
  }

  /** The 2nd to 256th distinct address: those whose slot is theirs for good. */
  function Settled(h: seq<Added>): (r: seq<Address>) {
    var d := Distinct(h);
    if d == [] then [] else if |d| <= CACHE_SIZE then d[1..] else d[1..CACHE_SIZE]
  }

  /** The last address of h that is not among the settled ones. */
  function LastOutside(h: seq<Added>, settled: seq<Address>): (r: Option<Address>)
    ensures r.Some? ==> Seen(h, r.value)
    decreases |h|
  {
    if h == [] then None
    else if h[|h| - 1].ip in settled then LastOutside(h[..|h| - 1], settled)
    else Some(h[|h| - 1].ip)
  }

  /** The MAC that ip was last added with. */
  function Latest(h: seq<Added>, ip: Address): (r: Option<MacAddress>)
    ensures r.Some? <==> Seen(h, ip)
    decreases |h|
  {
    if h == [] then None
    else
      var last := h[|h| - 1];
      assert h == h[..|h| - 1] + [last];
      if last.ip == ip then Some(last.mac) else Latest(h[..|h| - 1], ip)
  }

  function HeldLatest(h: seq<Added>, ip: Option<Address>): Slot {
    if ip.Some? && Latest(h, ip.value).Some? then Held(ip.value, Latest(h, ip.value).value) else Free
  }

  /** The address in slot k after history h: settled ones from slot 1 on, the last other one in slot 0. */
  function AddressAt(h: seq<Added>, k: nat): Option<Address> {
    var settled := Settled(h);
    if k == 0 then LastOutside(h, settled)
    else if k <= |settled| then Some(settled[k - 1])
    else None
  }

  /** What the cache has to hold after history h. */
  function Layout(h: seq<Added>): (c: seq<Slot>)
    ensures |c| == CACHE_SIZE
  {
    seq(CACHE_SIZE, k requires 0 <= k < CACHE_SIZE => HeldLatest(h, AddressAt(h, k)))
  }

  // ----- The slots in use are a prefix with distinct addresses -----

  function Used(h: seq<Added>): nat {
    if |Distinct(h)| <= CACHE_SIZE then |Distinct(h)| else CACHE_SIZE
  }

  lemma SettledAt(h: seq<Added>, k: nat)
    requires 0 < k < Used(h)
    ensures |Settled(h)| == Used(h) - 1 && Settled(h)[k - 1] == Distinct(h)[k]
  {}

  lemma SettledAreLater(h: seq<Added>)
    requires h != []
    ensures Distinct(h) != [] && Distinct(h)[0] !in Settled(h)
    ensures forall ip | ip in Settled(h) :: ip in Distinct(h)
  {
    assert h[0] in h;
    assert Seen(h, h[0].ip);
    hide Seen, Distinct;
    forall ip | ip in Settled(h) ensures ip in Distinct(h) && ip != Distinct(h)[0] {
      var k :| 0 <= k < |Settled(h)| && Settled(h)[k] == ip;
      assert Settled(h)[k] == Distinct(h)[k + 1];
    }
  }

  /** Some address of h is outside any set of addresses that leaves one out, and it is the last such one. */
  lemma {:induction false} LastOutsideExists(h: seq<Added>, settled: seq<Address>, ip: Address)
    requires ip !in settled && Seen(h, ip)
    ensures LastOutside(h, settled).Some?
    decreases |h|
  {
    var last := h[|h| - 1];
    if last.ip in settled {
      assert h == h[..|h| - 1] + [last];
      LastOutsideExists(h[..|h| - 1], settled, ip);
    }
  }

  lemma {:induction false} LastOutsideIn(h: seq<Added>, settled: seq<Address>)
    ensures LastOutside(h, settled).Some? ==>
              && LastOutside(h, settled).value !in settled
              && Seen(h, LastOutside(h, settled).value)
    decreases |h|
  {
    if h != [] {
      var last := h[|h| - 1];
      assert last in h;
      if last.ip in settled {
        LastOutsideIn(h[..|h| - 1], settled);
        assert forall a | a in h[..|h| - 1] :: a in h;
      }
    }
  }

  lemma SlotZero(h: seq<Added>)
    requires h != []
    ensures AddressAt(h, 0).Some? && AddressAt(h, 0).value in Distinct(h)
  {
    SettledAreLater(h);
    hide Settled, Distinct, LastOutside, Seen;
    assert Distinct(h)[0] in Distinct(h);
    LastOutsideExists(h, Settled(h), Distinct(h)[0]);
    LastOutsideIn(h, Settled(h));
  }

  /** Exactly the first slots are in use, all by addresses that were added. */
  lemma AddressesArePrefix(h: seq<Added>, k: nat)
    ensures AddressAt(h, k).Some? <==> k < Used(h)
    ensures AddressAt(h, k).Some? ==> AddressAt(h, k).value in Distinct(h)
  {
    if h != [] {
      SettledAreLater(h);
      if k == 0 {
        SlotZero(h);
      } else {
        hide LastOutside, Distinct;
        assert |Settled(h)| == Used(h) - 1;
      }
    }
  }

  lemma SettledHasSlot(h: seq<Added>, ip: Address)
    requires ip in Settled(h)
    ensures exists k: nat :: k < Used(h) && AddressAt(h, k) == Some(ip)
  {
    var k: nat :| k < |Settled(h)| && Settled(h)[k] == ip;
    assert AddressAt(h, k + 1) == Some(ip);
  }

  lemma AddressesDiffer(h: seq<Added>, i: nat, j: nat)
    requires i < j < Used(h)
    ensures AddressAt(h, i) != AddressAt(h, j)
  {
    SettledAt(h, j);
    if i > 0 {
      SettledAt(h, i);
    } else {
      LastOutsideIn(h, Settled(h));
    }
  }

  /** As long as not all slots are used, every address seen is held. */
  lemma AllHeld(h: seq<Added>, ip: Address)
    requires ip in Distinct(h) && |Distinct(h)| <= CACHE_SIZE
    ensures exists k: nat :: k < Used(h) && AddressAt(h, k) == Some(ip)
  {
    var d := Distinct(h);
    var k: nat :| k < |d| && d[k] == ip;
    if k > 0 {
      SettledAt(h, k);
      assert AddressAt(h, k) == Some(ip);
    } else {
      AddressesArePrefix(h, 0);
      LastOutsideIn(h, Settled(h));
      var other := AddressAt(h, 0).value;
      var j: nat :| j < |d| && d[j] == other;
      if j > 0 {
        SettledAt(h, j);
      }
      assert AddressAt(h, 0) == Some(ip);
    }
  }

  // ----- One more add -----

  lemma DistinctStep(h: seq<Added>, a: Added)
    ensures Distinct(h + [a]) == if a.ip in Distinct(h) then Distinct(h) else Distinct(h) + [a.ip]
  {
    assert (h + [a])[..|h|] == h;
  }

  lemma LatestStep(h: seq<Added>, a: Added, ip: Address)
    ensures Latest(h + [a], ip) == if ip == a.ip then Some(a.mac) else Latest(h, ip)
  {
    assert (h + [a])[..|h|] == h;
  }

  lemma LastOutsideStep(h: seq<Added>, a: Added, s: seq<Address>)
    ensures LastOutside(h + [a], s) == if a.ip in s then LastOutside(h, s) else Some(a.ip)
  {
    assert (h + [a])[..|h|] == h;
  }

  lemma {:induction false} IrrelevantSettled(h: seq<Added>, s: seq<Address>, ip: Address)
    requires !Seen(h, ip)
    ensures LastOutside(h, s + [ip]) == LastOutside(h, s)
    decreases |h|
  {
    if h != [] {
      assert h == h[..|h| - 1] + [h[|h| - 1]];
      IrrelevantSettled(h[..|h| - 1], s, ip);
    }
  }

  /** An address that is held keeps its slot, and so do all others. */
  lemma KnownKeepsSlots(h: seq<Added>, a: Added, i: nat, k: nat)
    requires i < Used(h) && AddressAt(h, i) == Some(a.ip)
    ensures AddressAt(h + [a], k) == AddressAt(h, k)
  {
    DistinctStep(h, a);
    AddressesArePrefix(h, i);
    hide Distinct, Seen;
    assert Settled(h + [a]) == Settled(h);
    LastOutsideStep(h, a, Settled(h));
    LastOutsideIn(h, Settled(h));
    hide LastOutside;
    if i > 0 {
      SettledAt(h, i);
      assert a.ip in Settled(h);
    }
  }

  lemma SettledGrows(h: seq<Added>, a: Added)
    requires Used(h) < CACHE_SIZE && a.ip !in Distinct(h)
    ensures Settled(h + [a]) == if h == [] then [] else Settled(h) + [a.ip]
  {
    DistinctStep(h, a);
    if h == [] {
      assert Distinct(h) == [];
    } else {
      SettledAreLater(h);
    }
    hide Distinct, Seen;
    var d, e := Distinct(h), Distinct(h + [a]);
    assert e == d + [a.ip] && |e| <= CACHE_SIZE;
    if h != [] {
      assert e[1..] == d[1..] + [a.ip];
    }
  }

  /** A new address takes the next slot while there is one. */
  lemma NewTakesNextSlot(h: seq<Added>, a: Added, k: nat)
    requires Used(h) < CACHE_SIZE && a.ip !in Distinct(h)
    ensures AddressAt(h + [a], k) == if k == Used(h) then Some(a.ip) else AddressAt(h, k)
  {
    SettledGrows(h, a);
    LastOutsideStep(h, a, Settled(h + [a]));
    if h != [] {
      SettledAreLater(h);
      hide LastOutside, Seen, Distinct;
      IrrelevantSettled(h, Settled(h), a.ip);
    }
  }

  /** An address that is not held takes slot 0 once all slots are used. */
  lemma StrangerTakesSlotZero(h: seq<Added>, a: Added, k: nat)
    requires Used(h) == CACHE_SIZE
    requires forall i: nat | i < Used(h) :: AddressAt(h, i) != Some(a.ip)
    ensures AddressAt(h + [a], k) == if k == 0 then Some(a.ip) else AddressAt(h, k)
  {
    DistinctStep(h, a);
    assert Settled(h + [a]) == Settled(h);
    LastOutsideStep(h, a, Settled(h));
    hide LastOutside, Seen, Distinct;
    if a.ip in Settled(h) {
      SettledHasSlot(h, a.ip);
    }
  }

  lemma LayoutHolds(h: seq<Added>, k: nat)
    requires k < CACHE_SIZE
    ensures Layout(h)[k].Held? <==> k < Used(h)
    ensures k < Used(h) ==> AddressAt(h, k).Some? && Layout(h)[k].ip == AddressAt(h, k).value
    ensures k < Used(h) ==> Latest(h, Layout(h)[k].ip) == Some(Layout(h)[k].mac)
  {
    AddressesArePrefix(h, k);
  }

  /** Slot k of the layout after one more add, given which address it then holds. */
  lemma LayoutStep(h: seq<Added>, a: Added, k: nat)
    requires k < CACHE_SIZE
    ensures AddressAt(h + [a], k) == Some(a.ip) ==> Layout(h + [a])[k] == Held(a.ip, a.mac)
    ensures AddressAt(h + [a], k) == AddressAt(h, k) != Some(a.ip) ==> Layout(h + [a])[k] == Layout(h)[k]
  {
    hide AddressAt, Latest;
    if AddressAt(h + [a], k).Some? {
      LatestStep(h, a, AddressAt(h + [a], k).value);
    }
  }

  lemma AddFollowsLayout(h: seq<Added>, a: Added)
    ensures Add(Layout(h), a.ip, a.mac) == Layout(h + [a])
  {
    hide AddressAt, Layout, Distinct, Latest;
    var c := Layout(h);
    var i, j := FirstHeld(c, a.ip), FirstFree(c);
    forall k | 0 <= k < CACHE_SIZE
      ensures c[k].Held? <==> k < Used(h)
      ensures k < Used(h) ==> AddressAt(h, k) == Some(c[k].ip)
    {
      LayoutHolds(h, k);
    }
    assert Used(h) < |c| ==> c[Used(h)].Free?;
    forall k | 0 <= k < CACHE_SIZE ensures Add(c, a.ip, a.mac)[k] == Layout(h + [a])[k] {
      LayoutStep(h, a, k);
      AddressesArePrefix(h, k);
      if i < |c| {
        KnownKeepsSlots(h, a, i, k);
        if k < i && k < Used(h) {
          AddressesDiffer(h, k, i);
        } else if i < k < Used(h) {
          AddressesDiffer(h, i, k);
        }
      } else if j < |c| {
        if a.ip in Distinct(h) {
          AllHeld(h, a.ip);
        }
        NewTakesNextSlot(h, a, k);
      } else {
        StrangerTakesSlotZero(h, a, k);
      }
    }
  }

  /** The exact contents of the cache after any history of adds. */
  lemma {:induction false} RunIsLayout(h: seq<Added>)
    ensures Run(h) == Layout(h)
    decreases |h|
  {
    hide Add;
    if h == [] {
      forall k | 0 <= k < CACHE_SIZE ensures Layout(h)[k] == Free {
        LayoutHolds(h, k);
      }
    } else {
      hide Layout;
      var g, a := h[..|h| - 1], h[|h| - 1];
      assert h == g + [a];
      RunIsLayout(g);
      AddFollowsLayout(g, a);
    }
  }

  /** In the table itself: the slots in use are the first ones, one for each distinct address while there are slots. */
  lemma SlotsAfterRun(h: seq<Added>, i: nat, j: nat)
    requires i < j < CACHE_SIZE
    ensures Run(h)[i].Held? <==> i < |Distinct(h)|
    ensures Run(h)[j].Held? <==> j < |Distinct(h)|
    ensures Run(h)[j].Held? ==> Run(h)[i].ip != Run(h)[j].ip
  {
    hide AddressAt, Layout, Latest, Run, Distinct;
    RunIsLayout(h);
    LayoutHolds(h, i);
    LayoutHolds(h, j);
    if j < Used(h) {
      AddressesDiffer(h, i, j);
    }
  }

  // ----- What lookup returns -----

  /** An address is held if it is the last unsettled one or among the 2nd to 256th distinct ones. */
  predicate IsHeld(h: seq<Added>, ip: Address) {
    ip in Settled(h) || LastOutside(h, Settled(h)) == Some(ip)
  }

  lemma HeldHasSlot(h: seq<Added>, ip: Address)
    ensures IsHeld(h, ip) <==> exists k: nat :: k < Used(h) && AddressAt(h, k) == Some(ip)
  {
    if ip in Settled(h) {
      SettledHasSlot(h, ip);
    } else if LastOutside(h, Settled(h)) == Some(ip) {
      assert AddressAt(h, 0) == Some(ip);
      AddressesArePrefix(h, 0);
    }
  }

  /** Lookup returns the MAC of the latest add of a held address, and nothing for any other. */
  lemma LookupAfterRun(h: seq<Added>, ip: Address)
    ensures Lookup(Run(h), ip) == if IsHeld(h, ip) then Latest(h, ip) else None
  {
    hide IsHeld, AddressAt, Layout, Latest, Run;
    RunIsLayout(h);
    HeldHasSlot(h, ip);
    var c := Layout(h);
    var i := FirstHeld(c, ip);
    if i < |c| {
      LayoutHolds(h, i);
    }
    if k: nat :| k < Used(h) && AddressAt(h, k) == Some(ip) {
      LayoutHolds(h, k);
    }
  }

  /** With at most 256 distinct addresses the cache is a plain map. */
  lemma HeldIsSeen(h: seq<Added>, ip: Address)
    ensures IsHeld(h, ip) ==> Latest(h, ip).Some?
  {
  }

  lemma FewAddressesAreMap(h: seq<Added>, ip: Address)
    requires |Distinct(h)| <= CACHE_SIZE
    ensures Lookup(Run(h), ip) == Latest(h, ip)
  {
    LookupAfterRun(h, ip);
    if ip in Distinct(h) {
      AllHeld(h, ip);
      HeldHasSlot(h, ip);
    } else if IsHeld(h, ip) {
      HeldHasSlot(h, ip);
      var k: nat :| k < Used(h) && AddressAt(h, k) == Some(ip);
      AddressesArePrefix(h, k);
    }
  }
}

/** Network addresses as they lie in memory and on the wire, and the interfaces of a router. */
module Net {
  import opened Wire

  type Address = a: seq<byte> | |a| == 4 witness [0, 0, 0, 0]

  const MAC_SIZE: nat := 6

  type MacAddress = m: seq<byte> | |m| == MAC_SIZE witness [0, 0, 0, 0, 0, 0]

  const ETHERNET_HEADER: nat := 14

  /** The MTU includes the Ethernet header. */
  datatype Interface = Interface(mac: MacAddress, ip: Address, mtu: nat)

  /** The value of an address, most significant byte first, as ntohl gives it. */
  function HostOrder(ip: Address): (v: nat)
    ensures v < 0x1_0000_0000
  {
    var a: int, b: int, c: int := ip[0], ip[1], ip[2];
    ((a * 256 + b) * 256 + c) * 256 + ip[3]
  }

  function Widen(b: byte): bv32 {
    (b as bv8) as bv32
  }

  /** The four bytes of a word, the most significant one first. */
  function Join(a: bv32, b: bv32, c: bv32, d: bv32): bv32 {
    (a << 24) | (b << 16) | (c << 8) | d
  }

  /** An address as a word in host order. */
  function Word(ip: Address): bv32 {
    Join(Widen(ip[0]), Widen(ip[1]), Widen(ip[2]), Widen(ip[3]))
  }

  /** Bit i of a, bit 0 being the most significant one. */
  predicate BitAt(a: bv32, i: bv32)
    requires i < 32
  {
    (a >> (31 - i)) & 1 == 1
  }

  /** Bit i of a byte, bit 0 being the most significant one. */
  predicate ByteBitAt(b: byte, i: bv8)
    requires i < 8
  {
    ((b as bv8) >> (7 - i)) & 1 == 1
  }

  lemma JoinBits(a: bv32, b: bv32, c: bv32, d: bv32, i: bv32)
    requires a < 256 && b < 256 && c < 256 && d < 256 && i < 8
    ensures BitAt(Join(a, b, c, d), i) <==> BitAt(a, 24 + i)
    ensures BitAt(Join(a, b, c, d), 8 + i) <==> BitAt(b, 24 + i)
    ensures BitAt(Join(a, b, c, d), 16 + i) <==> BitAt(c, 24 + i)
    ensures BitAt(Join(a, b, c, d), 24 + i) <==> BitAt(d, 24 + i)
  {}

  lemma WidenBits(b: byte, i: bv8)
    requires i < 8
    ensures Widen(b) < 256
    ensures BitAt(Widen(b), 24 + (i as bv32)) <==> ByteBitAt(b, i)
  {}

  /** The bits of the word are the bits of the four bytes, one after the other from the most significant one on. */
  lemma BitsOfWord(ip: Address, i: bv8)
    requires i < 8
    ensures BitAt(Word(ip), i as bv32) <==> ByteBitAt(ip[0], i)
    ensures BitAt(Word(ip), 8 + (i as bv32)) <==> ByteBitAt(ip[1], i)
    ensures BitAt(Word(ip), 16 + (i as bv32)) <==> ByteBitAt(ip[2], i)
    ensures BitAt(Word(ip), 24 + (i as bv32)) <==> ByteBitAt(ip[3], i)
  {
    hide Join, Widen, ByteBitAt, BitAt;
    WidenBits(ip[0], i);
    WidenBits(ip[1], i);
    WidenBits(ip[2], i);
    WidenBits(ip[3], i);
    JoinBits(Widen(ip[0]), Widen(ip[1]), Widen(ip[2]), Widen(ip[3]), i as bv32);
  }

  /** a precedes b byte by byte: at the first difference its byte is smaller. */
  predicate Precedes(a: Address, b: Address) {
    exists i | 0 <= i < 4 :: a[..i] == b[..i] && a[i] < b[i]
  }

  /** In host order, addresses are ordered as their bytes are, the first one being the most significant. */
  lemma HostOrderOrders(a: Address, b: Address)
    ensures HostOrder(a) < HostOrder(b) <==> Precedes(a, b)
  {
    if Precedes(a, b) {
      var i :| 0 <= i < 4 && a[..i] == b[..i] && a[i] < b[i];
      assert forall k | 0 <= k < i :: a[k] == a[..i][k] && b[k] == b[..i][k];
    } else {
      var i := FirstDifference(a, b);
      if i < 4 {
        assert a[..i] == b[..i];
      }
    }
  }

  function FirstDifference(a: Address, b: Address): (i: nat)
    ensures i <= 4 && (forall k | 0 <= k < i :: a[k] == b[k]) && (i < 4 ==> a[i] != b[i])
  {
    if a[0] != b[0] then 0 else if a[1] != b[1] then 1 else if a[2] != b[2] then 2 else if a[3] != b[3] then 3 else 4
  }
}

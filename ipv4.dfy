/**
 * IPv4 addresses and networks as Python's `ipaddress` module gives them
 * to the scripts: an address is a 32-bit number, a network an address
 * with a prefix length P whose 32 - P host bits are zero (the prefix
 * notation of section 3.1 of RFC 4632).
 */
module Ipv4 {
  import opened Wrappers
  import opened Arith
  import opened Text

  type Address = a: nat | a < 0x1_0000_0000

  type Prefix = p: nat | p <= 32

  /** An address with a prefix length, host bits allowed (an `ip_interface`). */
  datatype Cidr = Cidr(address: Address, prefix: Prefix)

  /** num_addresses of a network with prefix p: 2^(32 - p). */
  function BlockSize(p: Prefix): (n: nat)
    ensures n >= 1
  {
    Pow2(32 - p)
  }

  predicate HostBitsClear(a: nat, p: Prefix)
  {
    a % BlockSize(p) == 0
  }

  /** An `IPv4Network`: network_address and prefixlen, host bits clear. */
  type Network = c: Cidr | HostBitsClear(c.address, c.prefix) witness Cidr(0, 0)

  /** The 2^p blocks of size 2^(32 - p) make up the address space. */
  lemma BlocksFillSpace(p: Prefix)
    ensures Pow2(p) * BlockSize(p) == 0x1_0000_0000
  {
    Pow2Add(p, 32 - p);
    Pow2Of32();
  }

  /** The netmask: p one-bits followed by 32 - p zero-bits. */
  function Netmask(p: Prefix): Address
  {
    BlocksFillSpace(p);
    0x1_0000_0000 - BlockSize(p)
  }

  /** The address with its 32 - p low bits cleared (strict=False). */
  function ClearHostBits(a: Address, p: Prefix): (r: Address)
    ensures r <= a && HostBitsClear(r, p)
  {
    RoundDown(a, BlockSize(p))
  }

  /** The network an interface belongs to, `ip_network(text, strict=False)`. */
  function NetworkOf(c: Cidr): Network
  {
    Cidr(ClearHostBits(c.address, c.prefix), c.prefix)
  }

  /** A block that starts on a multiple of its size ends inside the address space. */
  lemma AlignedFits(a: Address, p: Prefix)
    requires HostBitsClear(a, p)
    ensures a + BlockSize(p) <= 0x1_0000_0000
  {
    BlocksFillSpace(p);
    AlignedBelow(a, BlockSize(p), Pow2(p));
  }

  /** broadcast_address: network address + num_addresses - 1. */
  function Broadcast(n: Network): Address
  {
    AlignedFits(n.address, n.prefix);
    n.address + BlockSize(n.prefix) - 1
  }

  /** True when a is one of the network's addresses. */
  predicate Contains(n: Network, a: int)
  {
    n.address <= a <= Broadcast(n)
  }

  /** list(network): its addresses in ascending order, network and broadcast included. */
  function Members(n: Network): (s: seq<Address>)
    ensures |s| == BlockSize(n.prefix)
  {
    AlignedFits(n.address, n.prefix);
    seq(BlockSize(n.prefix), i requires 0 <= i < BlockSize(n.prefix) => n.address + i)
  }

  /**
   * A network holds num_addresses distinct addresses, ascending from its
   * network address to its broadcast address.
   */
  lemma MembersSpanNetwork(n: Network)
    ensures |Members(n)| == BlockSize(n.prefix)
    ensures Members(n)[0] == n.address && Members(n)[|Members(n)| - 1] == Broadcast(n)
    ensures forall i, j :: 0 <= i < j < |Members(n)| ==> Members(n)[i] < Members(n)[j]
    ensures forall a: int :: a in Members(n) <==> Contains(n, a)
  {
    var s := Members(n);
    forall a: int | Contains(n, a)
      ensures a in s
    {
      assert s[a - n.address] == a;
    }
  }

  /**
   * network.hosts(): the addresses other than the network and broadcast
   * addresses; a /31 yields both of its addresses and a /32 its one address.
   */
  function Hosts(n: Network): seq<Address>
  {
    if n.prefix == 32 then [n.address]
    else if n.prefix == 31 then Members(n)
    else Members(n)[1..BlockSize(n.prefix) - 1]
  }

  /**
   * Up to /30 the hosts are the addresses strictly between the network
   * address and the broadcast address, in ascending order.
   */
  lemma HostsAreInnerAddresses(n: Network)
    requires n.prefix <= 30
    ensures BlockSize(n.prefix) >= 4
    ensures |Hosts(n)| == BlockSize(n.prefix) - 2
    ensures Hosts(n)[0] == n.address + 1
    ensures forall a: int :: a in Hosts(n) <==> Contains(n, a) && a != n.address && a != Broadcast(n)
  {
    Pow2Monotone(2, 32 - n.prefix);
    MembersSpanNetwork(n);
    var s := Members(n);
    var h := Hosts(n);
    forall a: int | Contains(n, a) && a != n.address && a != Broadcast(n)
      ensures a in h
    {
      assert h[a - n.address - 1] == a;
    }
  }

  /** hosts() always yields at least one address. */
  lemma HostsNonEmpty(n: Network)
    ensures |Hosts(n)| >= 1
  {
    if n.prefix <= 30 {
      HostsAreInnerAddresses(n);
    }
  }

  /** From /31 on, hosts() includes the network address itself. */
  lemma SmallNetworkHostsIncludeNetwork(n: Network)
    requires n.prefix >= 31
    ensures Hosts(n)[0] == n.address
  {
  }

  /** The netmask is the prefix length's leading one-bits and nothing else. */
  lemma NetmaskLeadingOnes(p: Prefix)
    ensures forall i :: 0 <= i < 32 ==> (BitAt(Netmask(p), i) <==> 32 - p <= i)
  {
    BlocksFillSpace(p);
    var h := 32 - p;
    var ones := Pow2(p) - 1;
    assert ones * Pow2(h) == Pow2(p) * Pow2(h) - Pow2(h);
    assert Netmask(p) == ones * Pow2(h) + 0;
    forall i | 0 <= i < 32
      ensures BitAt(Netmask(p), i) <==> h <= i
    {
      BitAtSplit(Pow2(p) - 1, 0, h, i);
      if i < h {
        BitAtZero(i);
      } else {
        BitAtAllOnes(p, i - h);
      }
    }
  }

  /** The network address is the address AND the netmask, bit by bit. */
  lemma NetworkIsMaskedAddress(c: Cidr)
    ensures forall i :: 0 <= i < 32 ==>
      (BitAt(NetworkOf(c).address, i) <==> BitAt(c.address, i) && BitAt(Netmask(c.prefix), i))
  {
    NetmaskLeadingOnes(c.prefix);
    forall i | 0 <= i < 32
      ensures BitAt(NetworkOf(c).address, i) <==> BitAt(c.address, i) && BitAt(Netmask(c.prefix), i)
    {
      BitsOfRoundDown(c.address, 32 - c.prefix, i);
    }
  }

  /** The broadcast address is the network address with every host bit set. */
  lemma BroadcastSetsHostBits(n: Network)
    ensures forall i :: 0 <= i < 32 ==>
      (BitAt(Broadcast(n), i) <==> BitAt(n.address, i) || i < 32 - n.prefix)
  {
    forall i | 0 <= i < 32
      ensures BitAt(Broadcast(n), i) <==> BitAt(n.address, i) || i < 32 - n.prefix
    {
      BitsOfBlockEnd(n.address, 32 - n.prefix, i);
    }
  }

  /**
   * The network of an address is the one network of that prefix length
   * holding it: network <= address <= broadcast, and no other block does.
   */
  lemma NetworkOfHoldsAddress(c: Cidr)
    ensures NetworkOf(c).address <= c.address <= Broadcast(NetworkOf(c))
    ensures forall m: Network :: m.prefix == c.prefix && Contains(m, c.address) ==> m == NetworkOf(c)
  {
    forall m: Network | m.prefix == c.prefix && Contains(m, c.address)
      ensures m == NetworkOf(c)
    {
      RoundDownUnique(c.address, m.address, BlockSize(c.prefix));
    }
  }

  /** 256 to the power n. */
  function BytePow(n: nat): nat
  {
    if n == 0 then 1 else 256 * BytePow(n - 1)
  }

  /** x.to_bytes(n, 'big'): the n low bytes of x, most significant first. */
  function ToBytes(x: nat, n: nat): (o: seq<nat>)
    ensures |o| == n && forall i :: 0 <= i < n ==> o[i] < 256
  {
    if n == 0 then [] else ToBytes(x / 256, n - 1) + [x % 256]
  }

  predicate IsBytes(o: seq<nat>)
  {
    forall i :: 0 <= i < |o| ==> o[i] < 256
  }

  /** int.from_bytes(o, 'big'). */
  function FromBytes(o: seq<nat>): (x: nat)
    requires IsBytes(o)
    ensures x < BytePow(|o|)
  {
    if o == [] then 0 else 256 * FromBytes(o[..|o| - 1]) + o[|o| - 1]
  }

  lemma {:induction false} FromToBytes(x: nat, n: nat)
    requires x < BytePow(n)
    ensures FromBytes(ToBytes(x, n)) == x
  {
    if n > 0 {
      FromToBytes(x / 256, n - 1);
      var o := ToBytes(x, n);
      assert o[..|o| - 1] == ToBytes(x / 256, n - 1);
    }
  }

  lemma {:induction false} ToFromBytes(o: seq<nat>)
    requires IsBytes(o)
    ensures ToBytes(FromBytes(o), |o|) == o
  {
    if o != [] {
      var init := o[..|o| - 1];
      ToFromBytes(init);
      assert FromBytes(o) / 256 == FromBytes(init);
      assert init + [o[|o| - 1]] == o;
    }
  }

  /** The four bytes of an address, most significant first. */
  function Octets(a: Address): (o: seq<nat>)
    ensures |o| == 4 && IsBytes(o)
  {
    ToBytes(a, 4)
  }

  /** The address with the given four bytes. */
  function FromOctets(o: seq<nat>): Address
    requires |o| == 4 && IsBytes(o)
  {
    assert BytePow(4) == 0x1_0000_0000;
    FromBytes(o)
  }

  /** An address and its four bytes determine each other. */
  lemma OctetsRoundTrip(a: Address)
    ensures FromOctets(Octets(a)) == a
  {
    assert BytePow(4) == 0x1_0000_0000;
    FromToBytes(a, 4);
  }

  lemma FromOctetsRoundTrip(o: seq<nat>)
    requires |o| == 4 && IsBytes(o)
    ensures Octets(FromOctets(o)) == o
  {
    ToFromBytes(o);
  }
}

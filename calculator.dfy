/**
 * What both calculator scripts compute alike from a network: the usable
 * host count, the gateway column, and how `-divide N` chooses the longer
 * prefix and keeps the first N children.
 */
module Calculator {
  import opened Wrappers
  import opened Arith
  import opened Ipv4
  import opened Ipv4Text
  import opened Subnetting

  /** The ValueError that escapes a calculation and ends the script with a traceback. */
  datatype Failure =
    | InvalidNetwork(parse: ParseError)  // ip_network refuses the text
    | SplitFailed(split: SubnetError)    // subnets() refuses the new prefix

  /** More than two addresses exactly up to /30. */
  lemma ManyAddresses(n: Network)
    ensures BlockSize(n.prefix) > 2 <==> n.prefix <= 30
  {
    if n.prefix <= 30 {
      Pow2Monotone(2, 32 - n.prefix);
    } else if n.prefix == 31 {
      assert BlockSize(31) == 2;
    }
  }

  /** num_addresses - 2 if num_addresses > 2 else 0. */
  function UsableHosts(n: Network): nat
  {
    if BlockSize(n.prefix) > 2 then BlockSize(n.prefix) - 2 else 0
  }

  /**
   * The host count is what hosts() yields once it excludes the network and
   * broadcast addresses (up to /30), and 0 for a /31 or a /32.
   */
  lemma UsableHostsCount(n: Network)
    ensures n.prefix <= 30 ==> UsableHosts(n) == |Hosts(n)| && UsableHosts(n) + 2 == |Members(n)|
    ensures n.prefix >= 31 ==> UsableHosts(n) == 0
    ensures UsableHosts(n) >= 0
  {
    ManyAddresses(n);
    if n.prefix <= 30 {
      HostsAreInnerAddresses(n);
    }
  }

  /** str(list(network.hosts())[0]) if num_addresses > 2, else the "N/A" column. */
  function Gateway(n: Network): Option<Address>
  {
    HostsNonEmpty(n);
    if BlockSize(n.prefix) > 2 then Some(Hosts(n)[0]) else None
  }

  /**
   * There is a gateway exactly up to /30; it is the address after the
   * network address, strictly inside the network and the lowest host.
   */
  lemma GatewayFirstHost(n: Network)
    ensures Gateway(n).Some? <==> n.prefix <= 30
    ensures Gateway(n).Some? ==> Gateway(n).value == n.address + 1
    ensures Gateway(n).Some? ==> n.address < Gateway(n).value < Broadcast(n)
    ensures Gateway(n).Some? ==> forall i :: 0 <= i < |Hosts(n)| ==> Gateway(n).value <= Hosts(n)[i]
  {
    ManyAddresses(n);
    if n.prefix <= 30 {
      HostsAreInnerAddresses(n);
      MembersSpanNetwork(n);
      forall i | 0 <= i < |Hosts(n)|
        ensures Gateway(n).value <= Hosts(n)[i]
      {
        assert Hosts(n)[i] == Members(n)[i + 1];
      }
    }
  }

  /** divide.bit_length() - 1: the bits the split adds, floor(log2 divide). */
  function SplitBits(divide: int): (k: nat)
    requires divide >= 1
    ensures Pow2(k) <= divide < Pow2(k + 1)
  {
    BitLengthBounds(divide);
    BitLength(divide) - 1
  }

  /** s[:n] for n >= 0. */
  function SliceTo<T>(s: seq<T>, n: nat): seq<T>
  {
    if n < |s| then s[..n] else s
  }

  /** network.subnets(new_prefix=prefixlen + divide.bit_length() - 1)[:divide]. */
  function Divided(n: Network, divide: int): Result<seq<Network>, SubnetError>
    requires divide >= 1
  {
    match Subnets(n, n.prefix + SplitBits(divide))
    case Err(e) => Err(e)
    case Ok(kids) => Ok(SliceTo(kids, divide))
  }

  /**
   * The split fails exactly when the longer prefix passes /32 (a /32 is
   * never split); otherwise the slice keeps every child: 2^k of them below
   * /32, one for a /32, at least one and at most divide.
   */
  lemma DividedKeepsAllChildren(n: Network, divide: int)
    requires divide >= 1
    ensures Divided(n, divide).Err? <==> n.prefix < 32 && n.prefix + SplitBits(divide) > 32
    ensures Divided(n, divide).Ok? ==>
      Divided(n, divide).value == Subnets(n, n.prefix + SplitBits(divide)).value
    ensures Divided(n, divide).Ok? ==>
      |Divided(n, divide).value| == (if n.prefix == 32 then 1 else Pow2(SplitBits(divide)))
    ensures Divided(n, divide).Ok? ==> 1 <= |Divided(n, divide).value| <= divide
  {
    var k := SplitBits(divide);
    if n.prefix < 32 && n.prefix + k <= 32 {
      SubnetsShape(n, n.prefix + k);
    }
  }

  /** Dividing into one subnet gives the network itself. */
  lemma DivideByOne(n: Network)
    ensures Divided(n, 1) == Ok([n])
  {
    assert SplitBits(1) == 0;
    if n.prefix < 32 {
      var kids := Subnets(n, n.prefix).value;
      assert Pow2(0) == 1;
      assert |kids| == 1;
      assert kids[0] == Child(n, n.prefix, 0) == n;
      assert kids == [n];
      assert SliceTo(kids, 1) == [n];
    }
  }

  /** The number of subnets is divide exactly when divide is a power of two. */
  lemma FloorSplitUndershoots(n: Network, divide: int)
    requires divide >= 1 && n.prefix < 32 && Divided(n, divide).Ok?
    ensures |Divided(n, divide).value| == divide <==> Pow2(SplitBits(divide)) == divide
    ensures |Divided(n, divide).value| < divide <==> Pow2(SplitBits(divide)) < divide
  {
    DividedKeepsAllChildren(n, divide);
  }

  /** Asked for three subnets, the split gives the two halves. */
  lemma ThreeGivesHalves(n: Network)
    requires n.prefix <= 31
    ensures Divided(n, 3).Ok? && |Divided(n, 3).value| == 2
  {
    assert BitLength(3) == 2;
    DividedKeepsAllChildren(n, 3);
  }

  /** A /31 cannot be cut in four: subnets() raises instead of yielding nothing. */
  lemma FourFromSmallNetworkFails(n: Network)
    requires n.prefix == 31
    ensures Divided(n, 4) == Err(NewPrefixTooLong)
  {
    assert BitLength(4) == 3;
  }

  /** (divide - 1).bit_length(): the least k with 2^k >= divide, ceil(log2 divide). */
  function IntendedSplitBits(divide: int): (k: nat)
    requires divide >= 1
    ensures divide <= Pow2(k)
    ensures k > 0 ==> Pow2(k - 1) < divide
  {
    if divide == 1 then 0
    else
      BitLengthBounds(divide - 1);
      BitLength(divide - 1)
  }

  /**
   * The division the usage text promises: the first divide children of the
   * least split with enough of them, or none (the "Unable to divide"
   * message) when that split passes /32.
   */
  function DividedIntended(n: Network, divide: int): seq<Network>
    requires divide >= 1
  {
    var k := IntendedSplitBits(divide);
    if n.prefix + k > 32 then []
    else SliceTo(Subnets(n, n.prefix + k).value, divide)
  }

  /** The intended division yields exactly divide subnets, or none when they do not fit. */
  lemma IntendedDivision(n: Network, divide: int)
    requires divide >= 1
    ensures DividedIntended(n, divide) == [] <==> n.prefix + IntendedSplitBits(divide) > 32
    ensures DividedIntended(n, divide) != [] ==> |DividedIntended(n, divide)| == divide
    ensures DividedIntended(n, divide) != [] ==>
      var kids := Subnets(n, n.prefix + IntendedSplitBits(divide)).value;
      forall i :: 0 <= i < divide ==> DividedIntended(n, divide)[i] == kids[i]
  {
    var k := IntendedSplitBits(divide);
    if n.prefix + k <= 32 {
      if n.prefix < 32 {
        SubnetsShape(n, n.prefix + k);
      }
    }
  }
}

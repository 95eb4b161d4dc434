/**
 * getNetInfo.py: the netmask, network and broadcast addresses and address
 * count of an `ip/cidr` interface, after the prompt's input is checked.
 */
module GetNetInfo {
  import opened Wrappers
  import opened Arith
  import opened Text
  import opened Ipv4
  import opened Ipv4Text

  /** What calculate_network_info returns. */
  datatype NetInfo = NetInfo(netmask: Address, networkId: Address, broadcastId: Address, totalHosts: nat)

  /**
   * Text that ip_interface accepts as `ip/cidr` has no other slash, so cidr
   * is the prefix length and int(cidr) reads it.
   */
  lemma InterfaceText(ip: string, cidr: string)
    ensures ParseCidr(ip + "/" + cidr).Ok? ==>
      && '/' !in ip && '/' !in cidr
      && DecimalValue(cidr) == Some(ParseCidr(ip + "/" + cidr).value.prefix)
  {
    var s := ip + "/" + cidr;
    if '/' in ip {
      var j :| 0 <= j < |ip| && ip[j] == '/';
      assert s[j] == '/' && s[|ip|] == '/';
      SplitCountsSeparators(s, '/', j, |ip|);
    } else if '/' in cidr {
      var j :| 0 <= j < |cidr| && cidr[j] == '/';
      assert s[|ip|] == '/' && s[|ip| + 1 + j] == '/';
      SplitCountsSeparators(s, '/', |ip|, |ip| + 1 + j);
    } else {
      SplitTwo(ip, cidr, '/');
    }
  }

  /** calculate_network_info(ip, cidr); Err where ip_interface raises ValueError. */
  function CalculateNetworkInfo(ip: string, cidr: string): Result<NetInfo, ParseError>
  {
    match ParseCidr(ip + "/" + cidr)
    case Err(e) => Err(e)
    case Ok(c) =>
      InterfaceText(ip, cidr);
      Ok(InfoOf(c, DecimalValue(cidr).value))
  }

  /** The values for interface c, with total 2 ** (32 - bits) for bits = int(cidr). */
  function InfoOf(c: Cidr, bits: Prefix): NetInfo
  {
    var n := NetworkOf(c);
    NetInfo(Netmask(c.prefix), n.address, Broadcast(n), Pow2(32 - bits))
  }

  lemma InfoOfFacts(c: Cidr)
    ensures var info := InfoOf(c, c.prefix);
      && info.totalHosts == |Members(NetworkOf(c))|
      && Members(NetworkOf(c))[0] == info.networkId
      && Members(NetworkOf(c))[info.totalHosts - 1] == info.broadcastId
      && info.networkId == ClearHostBits(c.address, c.prefix)
      && info.networkId <= c.address <= info.broadcastId
      && info.broadcastId == info.networkId + info.totalHosts - 1
  {
    MembersSpanNetwork(NetworkOf(c));
    NetworkOfHoldsAddress(c);
  }

  /**
   * The total counts every address of the network, network and broadcast
   * addresses included; the network address is the ip with its host bits
   * cleared, and broadcast = network + total - 1.
   */
  lemma NetworkInfoFacts(ip: string, cidr: string)
    ensures CalculateNetworkInfo(ip, cidr).Ok? <==> ParseCidr(ip + "/" + cidr).Ok?
    ensures CalculateNetworkInfo(ip, cidr).Ok? ==>
      var c := ParseCidr(ip + "/" + cidr).value;
      var info := CalculateNetworkInfo(ip, cidr).value;
      && DecimalValue(cidr) == Some(c.prefix)
      && info.totalHosts == |Members(NetworkOf(c))|
      && Members(NetworkOf(c))[0] == info.networkId
      && Members(NetworkOf(c))[info.totalHosts - 1] == info.broadcastId
      && info.networkId == ClearHostBits(c.address, c.prefix)
      && info.networkId <= c.address <= info.broadcastId
      && info.broadcastId == info.networkId + info.totalHosts - 1
  {
    InterfaceText(ip, cidr);
    if ParseCidr(ip + "/" + cidr).Ok? {
      var c := ParseCidr(ip + "/" + cidr).value;
      assert CalculateNetworkInfo(ip, cidr) == Ok(InfoOf(c, c.prefix));
      InfoOfFacts(c);
    }
  }

  /** The netmask is cidr leading one-bits, and the network address is the ip AND the netmask. */
  lemma NetworkInfoBits(ip: string, cidr: string)
    ensures CalculateNetworkInfo(ip, cidr).Ok? ==>
      var c := ParseCidr(ip + "/" + cidr).value;
      var info := CalculateNetworkInfo(ip, cidr).value;
      forall i :: 0 <= i < 32 ==>
        && (BitAt(info.netmask, i) <==> 32 - c.prefix <= i)
        && (BitAt(info.networkId, i) <==> BitAt(c.address, i) && BitAt(info.netmask, i))
  {
    if ParseCidr(ip + "/" + cidr).Ok? {
      var c := ParseCidr(ip + "/" + cidr).value;
      NetmaskLeadingOnes(c.prefix);
      NetworkIsMaskedAddress(c);
    }
  }

  /**
   * The check in main: ip_cidr.split('/') must give exactly two parts and
   * ip_interface must accept them; None sends the user back to the prompt.
   */
  function ParseInput(ipCidr: string): Option<(string, string)>
  {
    var parts := Split(ipCidr, '/');
    if |parts| != 2 then None
    else match ParseCidr(parts[0] + "/" + parts[1])
      case Err(_) => None
      case Ok(_) => Some((parts[0], parts[1]))
  }

  /**
   * Input is accepted exactly when it has one slash and ip_interface reads
   * it; the two parts rebuild the input, and the calculation then succeeds.
   */
  lemma InputAccepted(ipCidr: string)
    ensures ParseInput(ipCidr).Some? <==> |Split(ipCidr, '/')| == 2 && ParseCidr(ipCidr).Ok?
    ensures ParseInput(ipCidr).Some? ==>
      var (ip, cidr) := ParseInput(ipCidr).value;
      ip + "/" + cidr == ipCidr && CalculateNetworkInfo(ip, cidr).Ok?
  {
    var parts := Split(ipCidr, '/');
    if |parts| == 2 {
      JoinSplit(ipCidr, '/');
      assert Join(parts, '/') == parts[0] + ['/'] + parts[1];
      NetworkInfoFacts(parts[0], parts[1]);
    }
  }

  /** An address with host bits set is accepted: the interface keeps it as given. */
  lemma HostBitsAccepted(a: Address, p: Prefix)
    ensures ParseInput(Dotted(a) + "/" + Decimal(p)) == Some((Dotted(a), Decimal(p)))
  {
    DottedHasNo(a, '/');
    DigitsHaveNoSeparator(Decimal(p), '/');
    SplitTwo(Dotted(a), Decimal(p), '/');
    ParseAddressSlashPrefix(a, p);
  }

  /** For `a/p` input the network is a's with host bits cleared, of 2^(32 - p) addresses. */
  lemma NetworkInfoOfText(a: Address, p: Prefix)
    ensures CalculateNetworkInfo(Dotted(a), Decimal(p)).Ok?
    ensures CalculateNetworkInfo(Dotted(a), Decimal(p)).value.networkId == ClearHostBits(a, p)
    ensures CalculateNetworkInfo(Dotted(a), Decimal(p)).value.totalHosts == BlockSize(p)
  {
    ParseAddressSlashPrefix(a, p);
    NetworkInfoFacts(Dotted(a), Decimal(p));
  }

  /**
   * Input is refused when the address does not have four parts, when a part
   * is not an octet 0-255 in at most three digits, or when cidr is not a
   * decimal number up to 32.
   */
  lemma OutOfRangeRejected(addr: string, pre: string)
    requires '/' !in addr
    ensures |Split(addr, '.')| != 4 ==> ParseInput(addr + "/" + pre).None?
    ensures (exists j :: 0 <= j < |Split(addr, '.')| && ParseOctet(Split(addr, '.')[j]).None?) ==>
      ParseInput(addr + "/" + pre).None?
    ensures (DecimalValue(pre).None? || DecimalAbove(pre, 32)) ==> ParseInput(addr + "/" + pre).None?
  {
    RefusesOutOfRange(addr, pre);
    InputAccepted(addr + "/" + pre);
  }
}

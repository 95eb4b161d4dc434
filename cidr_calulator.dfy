/**
 * cidr_calulator.py: the earlier calculator without binary output, whose
 * single-network host count is num_addresses - 2 with no guard.
 */
module CidrCalulator {
  import opened Wrappers
  import opened Arith
  import opened Text
  import opened Ipv4
  import opened Ipv4Text
  import opened Subnetting
  import opened Calculator

  /** The four values calculate_network returns. */
  datatype NetworkReport = NetworkReport(netmask: string, networkId: string, broadcast: string, hosts: int)

  /** calculate_network(ip_prefix): hosts is num_addresses - 2 even for a /31 or a /32. */
  function CalculateNetwork(ipPrefix: string): Result<NetworkReport, ParseError>
  {
    match ParseNetwork(ipPrefix)
    case Err(e) => Err(e)
    case Ok(n) => Ok(NetworkReport(Dotted(Netmask(n.prefix)), Dotted(n.address), Dotted(Broadcast(n)),
                                   BlockSize(n.prefix) - 2))
  }

  /**
   * For `a/p` text the columns read back as the netmask, the address with
   * its host bits cleared and the broadcast address, and the host count is
   * 2^(32-p) - 2: 0 for a /31 and -1 for a /32.
   */
  lemma CalculateNetworkOfText(a: Address, p: Prefix)
    ensures CalculateNetwork(Dotted(a) + "/" + Decimal(p)).Ok?
    ensures var r := CalculateNetwork(Dotted(a) + "/" + Decimal(p)).value;
      && ParseAddress(r.netmask) == Ok(Netmask(p))
      && ParseAddress(r.networkId) == Ok(ClearHostBits(a, p))
      && ParseAddress(r.broadcast) == Ok(Broadcast(NetworkOf(Cidr(a, p))))
      && r.hosts == BlockSize(p) - 2
      && (p == 31 ==> r.hosts == 0)
      && (p == 32 ==> r.hosts == -1)
  {
    ParseAddressSlashPrefix(a, p);
    var n := NetworkOf(Cidr(a, p));
    ParseDotted(Netmask(p));
    ParseDotted(n.address);
    ParseDotted(Broadcast(n));
    assert BlockSize(31) == 2;
  }

  /** Any address given as a /32 is reported with -1 hosts. */
  lemma HostRouteHasMinusOneHosts(a: Address)
    ensures CalculateNetwork(Dotted(a) + "/32").Ok?
    ensures CalculateNetwork(Dotted(a) + "/32").value.hosts == -1
  {
    assert Decimal(32) == Decimal(3) + [DigitChar(2)] == "32";
    assert Dotted(a) + "/32" == Dotted(a) + "/" + Decimal(32);
    CalculateNetworkOfText(a, 32);
  }

  /** The report with the host count guarded as cidr_calculator.py guards it. */
  function CalculateNetworkIntended(ipPrefix: string): Result<NetworkReport, ParseError>
  {
    match ParseNetwork(ipPrefix)
    case Err(e) => Err(e)
    case Ok(n) => Ok(NetworkReport(Dotted(Netmask(n.prefix)), Dotted(n.address), Dotted(Broadcast(n)),
                                   UsableHosts(n)))
  }

  /**
   * The guarded count is never negative, counts the hosts between the
   * network and broadcast addresses up to /30, and agrees with the written
   * one everywhere but /32.
   */
  lemma IntendedHostCount(ipPrefix: string)
    ensures CalculateNetworkIntended(ipPrefix).Ok? <==> CalculateNetwork(ipPrefix).Ok?
    ensures CalculateNetworkIntended(ipPrefix).Ok? ==>
      var n := ParseNetwork(ipPrefix).value;
      var r := CalculateNetworkIntended(ipPrefix).value;
      && r.hosts >= 0
      && (n.prefix <= 30 ==> r.hosts == |Hosts(n)|)
      && (n.prefix < 32 ==> r == CalculateNetwork(ipPrefix).value)
      && (n.prefix == 32 ==> r.hosts == CalculateNetwork(ipPrefix).value.hosts + 1)
  {
    if ParseNetwork(ipPrefix).Ok? {
      var n := ParseNetwork(ipPrefix).value;
      UsableHostsCount(n);
      ManyAddresses(n);
      if n.prefix == 31 {
        assert BlockSize(31) == 2;
      }
    }
  }

  /** One row of the subnet table, in the order of its columns. */
  datatype Row = Row(subnet: string, netmask: string, networkId: string, broadcast: string, hosts: nat,
                     gateway: string)

  /** The gateway column: the first host, or "N/A". */
  function GatewayText(s: Network): string
  {
    match Gateway(s)
    case None => "N/A"
    case Some(g) => Dotted(g)
  }

  lemma GatewayTextReadsBack(s: Network)
    ensures GatewayText(s) == "N/A" <==> s.prefix >= 31
    ensures s.prefix <= 30 ==> ParseAddress(GatewayText(s)) == Ok(s.address + 1)
  {
    GatewayFirstHost(s);
    if s.prefix <= 30 {
      var g := Gateway(s).value;
      ParseDotted(g);
      DottedHasNo(g, '/');
      assert "N/A"[1] == '/';
    }
  }

  function SubnetRow(s: Network): Row
  {
    Row(NetworkText(s), Dotted(Netmask(s.prefix)), Dotted(s.address), Dotted(Broadcast(s)), UsableHosts(s),
        GatewayText(s))
  }

  /** A row names its subnet and shows its addresses, host count and gateway. */
  lemma SubnetRowReadsBack(s: Network)
    ensures ParseNetwork(SubnetRow(s).subnet) == Ok(s)
    ensures ParseAddress(SubnetRow(s).netmask) == Ok(Netmask(s.prefix))
    ensures ParseAddress(SubnetRow(s).networkId) == Ok(s.address)
    ensures ParseAddress(SubnetRow(s).broadcast) == Ok(Broadcast(s))
    ensures SubnetRow(s).hosts == (if s.prefix <= 30 then BlockSize(s.prefix) - 2 else 0)
    ensures SubnetRow(s).gateway == "N/A" <==> s.prefix >= 31
    ensures s.prefix <= 30 ==> ParseAddress(SubnetRow(s).gateway) == Ok(s.address + 1)
  {
    NetworkTextRoundTrip(s);
    ParseDotted(Netmask(s.prefix));
    ParseDotted(s.address);
    ParseDotted(Broadcast(s));
    UsableHostsCount(s);
    ManyAddresses(s);
    GatewayTextReadsBack(s);
  }

  /**
   * calculate_subnets(ip_prefix, divide): one row per child kept by the
   * split; a ValueError from ip_network or subnets() ends the script.
   */
  method CalculateSubnets(ipPrefix: string, divide: int) returns (r: Result<seq<Row>, Failure>)
    requires divide >= 1
    ensures ParseNetwork(ipPrefix).Err? ==> r == Err(InvalidNetwork(ParseNetwork(ipPrefix).error))
    ensures ParseNetwork(ipPrefix).Ok? ==>
      var n := ParseNetwork(ipPrefix).value;
      (r.Err? <==> n.prefix < 32 && n.prefix + SplitBits(divide) > 32)
    ensures ParseNetwork(ipPrefix).Ok? && Divided(ParseNetwork(ipPrefix).value, divide).Err? ==>
      r == Err(SplitFailed(Divided(ParseNetwork(ipPrefix).value, divide).error))
    ensures ParseNetwork(ipPrefix).Ok? && r.Ok? ==>
      var kids := Divided(ParseNetwork(ipPrefix).value, divide).value;
      |r.value| == |kids| && forall i :: 0 <= i < |kids| ==> r.value[i] == SubnetRow(kids[i])
    ensures r.Ok? ==> |r.value| >= 1
  {
    var parsed := ParseNetwork(ipPrefix);
    if parsed.Err? {
      return Err(InvalidNetwork(parsed.error));
    }
    var network := parsed.value;
    var subnets := SubnetList(network, network.prefix + SplitBits(divide));
    DividedKeepsAllChildren(network, divide);
    if subnets.Err? {
      return Err(SplitFailed(subnets.error));
    }
    var subnetData := CollectRows(SliceTo(subnets.value, divide));
    return Ok(subnetData);
  }

  /** The loop of calculate_subnets: a row per kept child, in order. */
  method CollectRows(kept: seq<Network>) returns (subnetData: seq<Row>)
    ensures |subnetData| == |kept|
    ensures forall j :: 0 <= j < |kept| ==> subnetData[j] == SubnetRow(kept[j])
  {
    subnetData := [];
    for i := 0 to |kept|
      invariant |subnetData| == i
      invariant forall j :: 0 <= j < i ==> subnetData[j] == SubnetRow(kept[j])
    {
      subnetData := subnetData + [SubnetRow(kept[i])];
    }
  }

  /** What the script ends with. */
  datatype Outcome =
    | MissingPrefix                 // "The IP does not have a prefix.", exit 1
    | Traceback(failure: Failure)   // a ValueError escapes
    | UnableToDivide                // "Unable to divide ... into N subnets.", exit 1
    | SubnetTable(rows: seq<Row>)
    | NetworkTable(report: NetworkReport)

  /**
   * The script after its arguments are read: divide 0 stands for no
   * -divide option (negative values are not modelled). Text without '/'
   * is refused before any calculation; with divide >= 1 the outcome is the
   * table of calculate_subnets or its ValueError, and the "Unable to
   * divide" message is never reached, since the split either raises or
   * keeps at least one subnet.
   */
  method Run(ipPrefix: string, divide: nat) returns (o: Outcome)
    ensures o == MissingPrefix <==> '/' !in ipPrefix
    ensures '/' in ipPrefix && divide == 0 ==>
      o == match CalculateNetwork(ipPrefix)
        case Err(e) => Traceback(InvalidNetwork(e))
        case Ok(report) => NetworkTable(report)
    ensures o.SubnetTable? ==> divide >= 1 && |o.rows| >= 1
    ensures o.NetworkTable? ==> divide == 0
    ensures '/' in ipPrefix && divide >= 1 ==>
      match ParseNetwork(ipPrefix)
      case Err(e) => o == Traceback(InvalidNetwork(e))
      case Ok(n) =>
        match Divided(n, divide)
        case Err(se) => o == Traceback(SplitFailed(se))
        case Ok(kids) =>
          && o.SubnetTable? && |o.rows| == |kids|
          && forall i :: 0 <= i < |kids| ==> o.rows[i] == SubnetRow(kids[i])
    ensures o != UnableToDivide
  {
    if '/' !in ipPrefix {
      return MissingPrefix;
    }
    if divide != 0 {
      var subnetData := CalculateSubnets(ipPrefix, divide);
      if subnetData.Err? {
        return Traceback(subnetData.error);
      }
      return if subnetData.value == [] then UnableToDivide else SubnetTable(subnetData.value);
    }
    match CalculateNetwork(ipPrefix)
    case Err(e) => return Traceback(InvalidNetwork(e));
    case Ok(report) => return NetworkTable(report);
  }
}

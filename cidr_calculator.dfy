/**
 * cidr_calculator.py: the details of one network, or its division into
 * subnets, with every address column optionally shown in binary.
 */
module CidrCalculator {
  import opened Wrappers
  import opened Arith
  import opened Text
  import opened Ipv4
  import opened Ipv4Text
  import opened Subnetting
  import opened Calculator

  /** f"{int(part):08b}" for every part, or None where int() raises. */
  function BinaryGroups(parts: seq<string>): (r: Option<seq<string>>)
    ensures r.Some? <==> forall i :: 0 <= i < |parts| ==> DecimalValue(parts[i]).Some?
    ensures r.Some? ==> |r.value| == |parts|
    ensures r.Some? ==> forall i :: 0 <= i < |parts| ==> r.value[i] == Format08b(DecimalValue(parts[i]).value)
  {
    if parts == [] then Some([])
    else match DecimalValue(parts[0])
      case None => None
      case Some(v) =>
        match BinaryGroups(parts[1..])
        case None => None
        case Some(rest) => Some([Format08b(v)] + rest)
  }

  /** ip_to_binary(ip): the dot-separated parts in binary, joined by dots. */
  function IpToBinary(ip: string): Option<string>
  {
    match BinaryGroups(Split(ip, '.'))
    case None => None
    case Some(groups) => Some(Join(groups, '.'))
  }

  /** The four bytes of an address as groups of eight binary digits. */
  function BinaryOctets(a: Address): (groups: seq<string>)
    ensures |groups| == 4
    ensures forall i :: 0 <= i < 4 ==> groups[i] == BinaryDigits(Octets(a)[i], 8)
  {
    seq(4, i requires 0 <= i < 4 => BinaryDigits(Octets(a)[i], 8))
  }

  /** The 32 bits of an address in four dot-separated groups of eight. */
  function BinaryText(a: Address): string
  {
    Join(BinaryOctets(a), '.')
  }

  predicate IsBinaryGroup(g: string)
  {
    |g| == 8 && forall i :: 0 <= i < |g| ==> IsBitChar(g[i])
  }

  function GroupValues(groups: seq<string>): (o: seq<nat>)
    ensures |o| == |groups|
    ensures forall i :: 0 <= i < |groups| ==> o[i] == BinaryValue(groups[i])
  {
    seq(|groups|, i requires 0 <= i < |groups| => BinaryValue(groups[i]))
  }

  lemma GroupValuesAreBytes(groups: seq<string>)
    requires forall i :: 0 <= i < |groups| ==> IsBinaryGroup(groups[i])
    ensures IsBytes(GroupValues(groups))
  {
    forall i | 0 <= i < |groups|
      ensures GroupValues(groups)[i] < 256
    {
      BinaryValueBound(groups[i]);
      assert Pow2(8) == 256;
    }
  }

  /** Reads four dot-separated groups of eight binary digits as an address. */
  function ReadBinary(s: string): Option<Address>
  {
    var groups := Split(s, '.');
    if |groups| == 4 && forall i :: 0 <= i < 4 ==> IsBinaryGroup(groups[i]) then
      GroupValuesAreBytes(groups);
      Some(FromOctets(GroupValues(groups)))
    else None
  }

  /** The binary form of an address is what ip_to_binary makes of its dotted text. */
  lemma BinaryOfDotted(a: Address)
    ensures IpToBinary(Dotted(a)) == Some(BinaryText(a))
  {
    var o := Octets(a);
    var parts := DecimalParts(o);
    forall i | 0 <= i < 4
      ensures '.' !in parts[i]
      ensures DecimalValue(parts[i]) == Some(o[i])
      ensures Format08b(o[i]) == BinaryDigits(o[i], 8)
    {
      DigitsHaveNoSeparator(parts[i], '.');
      DecimalRoundTrip(o[i]);
      Format08bOctet(o[i]);
    }
    SplitJoin(parts, '.');
    var groups := BinaryGroups(parts).value;
    assert groups == BinaryOctets(a);
  }

  /**
   * The binary form is four dot-separated groups of eight binary digits,
   * and each group read in base 2 is the matching byte of the address.
   */
  lemma BinaryTextShape(a: Address)
    ensures Split(BinaryText(a), '.') == BinaryOctets(a)
    ensures forall i :: 0 <= i < 4 ==> IsBinaryGroup(BinaryOctets(a)[i])
    ensures forall i :: 0 <= i < 4 ==> BinaryValue(BinaryOctets(a)[i]) == Octets(a)[i]
  {
    var groups := BinaryOctets(a);
    forall i | 0 <= i < 4
      ensures '.' !in groups[i]
      ensures BinaryValue(groups[i]) == Octets(a)[i]
    {
      assert Pow2(8) == 256;
      BinaryDigitsValue(Octets(a)[i], 8);
    }
    SplitJoin(groups, '.');
  }

  /** Reading the binary form back gives the address. */
  lemma ReadBinaryText(a: Address)
    ensures ReadBinary(BinaryText(a)) == Some(a)
  {
    BinaryTextShape(a);
    var groups := Split(BinaryText(a), '.');
    assert GroupValues(groups) == Octets(a);
    OctetsRoundTrip(a);
  }

  /** No address prints as "N/A", and ip_to_binary cannot read "N/A". */
  lemma NotAvailableIsNoAddress(a: Address)
    ensures Dotted(a) != "N/A"
    ensures IpToBinary("N/A") == None
  {
    DottedHasNo(a, '/');
    assert "N/A"[1] == '/';
    SplitWhole("N/A", '.');
    assert !IsDigit("N/A"[0]);
  }

  /**
   * An address column: str(address), passed through ip_to_binary in binary
   * mode (BinaryOfDotted: that is BinaryText).
   */
  function Render(a: Address, binary: bool): string
  {
    if binary then BinaryText(a) else Dotted(a)
  }

  /** The gateway column: "N/A" when there is none, left as it is in binary mode. */
  function RenderGateway(g: Option<Address>, binary: bool): string
  {
    match g
    case None => "N/A"
    case Some(a) => Render(a, binary)
  }

  /** How a reader recovers an address from a column in either mode. */
  function ReadColumn(s: string, binary: bool): Option<Address>
  {
    if binary then ReadBinary(s)
    else match ParseAddress(s)
      case Err(_) => None
      case Ok(a) => Some(a)
  }

  lemma RenderReadsBack(a: Address, binary: bool)
    ensures ReadColumn(Render(a, binary), binary) == Some(a)
    ensures RenderGateway(Some(a), binary) != "N/A"
  {
    BinaryOfDotted(a);
    ReadBinaryText(a);
    ParseDotted(a);
    NotAvailableIsNoAddress(a);
    if binary {
      BinaryTextShape(a);
      assert '/' !in BinaryText(a) by {
        forall i | 0 <= i < 4
          ensures AllDigits(BinaryOctets(a)[i])
        {
        }
        JoinHasNo(BinaryOctets(a), '.', '/');
      }
      assert "N/A"[1] == '/';
    }
  }

  /** The five values calculate_network returns. */
  datatype NetworkReport = NetworkReport(
    netmask: string, networkId: string, gateway: string, broadcast: string, hosts: nat)

  function ReportOf(n: Network, binary: bool): NetworkReport
  {
    NetworkReport(
      Render(Netmask(n.prefix), binary),
      Render(n.address, binary),
      RenderGateway(Gateway(n), binary),
      Render(Broadcast(n), binary),
      UsableHosts(n))
  }

  /** calculate_network(ip_prefix, binary); Err where ip_network raises ValueError. */
  function CalculateNetwork(ipPrefix: string, binary: bool): Result<NetworkReport, ParseError>
  {
    match ParseNetwork(ipPrefix)
    case Err(e) => Err(e)
    case Ok(n) => Ok(ReportOf(n, binary))
  }

  /** The gateway column is "N/A" from /31 on, and the address after the network address before. */
  lemma GatewayColumnReadsBack(n: Network, binary: bool)
    ensures RenderGateway(Gateway(n), binary) == "N/A" <==> n.prefix >= 31
    ensures n.prefix <= 30 ==> ReadColumn(RenderGateway(Gateway(n), binary), binary) == Some(n.address + 1)
  {
    GatewayFirstHost(n);
    if n.prefix <= 30 {
      RenderReadsBack(Gateway(n).value, binary);
    }
  }

  /** The report's columns read back as the network's netmask, addresses and gateway. */
  lemma ReportReadsBack(n: Network, binary: bool)
    ensures ReadColumn(ReportOf(n, binary).netmask, binary) == Some(Netmask(n.prefix))
    ensures ReadColumn(ReportOf(n, binary).networkId, binary) == Some(n.address)
    ensures ReadColumn(ReportOf(n, binary).broadcast, binary) == Some(Broadcast(n))
    ensures ReportOf(n, binary).gateway == "N/A" <==> n.prefix >= 31
    ensures n.prefix <= 30 ==> ReadColumn(ReportOf(n, binary).gateway, binary) == Some(n.address + 1)
    ensures ReportOf(n, binary).hosts == (if n.prefix <= 30 then BlockSize(n.prefix) - 2 else 0)
  {
    RenderReadsBack(Netmask(n.prefix), binary);
    RenderReadsBack(n.address, binary);
    RenderReadsBack(Broadcast(n), binary);
    GatewayColumnReadsBack(n, binary);
    UsableHostsCount(n);
    ManyAddresses(n);
  }

  /**
   * For `a/p` text the report is that of a's network of prefix p (so
   * ReportReadsBack describes its columns): the address with its host bits
   * cleared, which lies at or below a, as a lies at or below its broadcast.
   */
  lemma CalculateNetworkOfText(a: Address, p: Prefix, binary: bool)
    ensures CalculateNetwork(Dotted(a) + "/" + Decimal(p), binary) == Ok(ReportOf(NetworkOf(Cidr(a, p)), binary))
    ensures NetworkOf(Cidr(a, p)).address == ClearHostBits(a, p)
    ensures ClearHostBits(a, p) <= a <= Broadcast(NetworkOf(Cidr(a, p)))
  {
    ParseAddressSlashPrefix(a, p);
    NetworkOfHoldsAddress(Cidr(a, p));
  }

  /** One row of the subnet table. */
  datatype Row = Row(
    subnet: string, networkId: string, gateway: string, broadcast: string, netmask: string, hosts: nat)

  /** The row of a subnet: its text, then the columns calculate_network would show for it. */
  function SubnetRow(s: Network, binary: bool): Row
  {
    var r := ReportOf(s, binary);
    Row(NetworkText(s), r.networkId, r.gateway, r.broadcast, r.netmask, r.hosts)
  }

  /** A row names its subnet and shows its addresses, gateway and host count. */
  lemma SubnetRowReadsBack(s: Network, binary: bool)
    ensures ParseNetwork(SubnetRow(s, binary).subnet) == Ok(s)
    ensures ReadColumn(SubnetRow(s, binary).networkId, binary) == Some(s.address)
    ensures ReadColumn(SubnetRow(s, binary).broadcast, binary) == Some(Broadcast(s))
    ensures ReadColumn(SubnetRow(s, binary).netmask, binary) == Some(Netmask(s.prefix))
    ensures SubnetRow(s, binary).gateway == "N/A" <==> s.prefix >= 31
    ensures s.prefix <= 30 ==> ReadColumn(SubnetRow(s, binary).gateway, binary) == Some(s.address + 1)
    ensures SubnetRow(s, binary).hosts == (if s.prefix <= 30 then BlockSize(s.prefix) - 2 else 0)
  {
    NetworkTextRoundTrip(s);
    ReportReadsBack(s, binary);
  }

  /**
   * calculate_subnets(ip_prefix, divide, binary): one row per child kept by
   * the split; a ValueError from ip_network or subnets() ends the script.
   */
  method CalculateSubnets(ipPrefix: string, divide: int, binary: bool) returns (r: Result<seq<Row>, Failure>)
    requires divide >= 1
    ensures ParseNetwork(ipPrefix).Err? ==> r == Err(InvalidNetwork(ParseNetwork(ipPrefix).error))
    ensures ParseNetwork(ipPrefix).Ok? ==>
      var n := ParseNetwork(ipPrefix).value;
      (r.Err? <==> n.prefix < 32 && n.prefix + SplitBits(divide) > 32)
    ensures ParseNetwork(ipPrefix).Ok? && Divided(ParseNetwork(ipPrefix).value, divide).Err? ==>
      r == Err(SplitFailed(Divided(ParseNetwork(ipPrefix).value, divide).error))
    ensures ParseNetwork(ipPrefix).Ok? && r.Ok? ==>
      var kids := Divided(ParseNetwork(ipPrefix).value, divide).value;
      |r.value| == |kids| && forall i :: 0 <= i < |kids| ==> r.value[i] == SubnetRow(kids[i], binary)
    ensures r.Ok? ==> |r.value| >= 1
  {
    var parsed := ParseNetwork(ipPrefix);
    if parsed.Err? {
      return Err(InvalidNetwork(parsed.error));
    }
    var network := parsed.value;
    var subnets := SubnetList(network, network.prefix + SplitBits(divide));
    DividedKeepsAllChildren(network, divide);
    if subnets.Err? {
      return Err(SplitFailed(subnets.error));
    }
    var subnetData := CollectRows(SliceTo(subnets.value, divide), binary);
    return Ok(subnetData);
  }

  /** The loop of calculate_subnets: a row per kept child, in order. */
  method CollectRows(kept: seq<Network>, binary: bool) returns (subnetData: seq<Row>)
    ensures |subnetData| == |kept|
    ensures forall j :: 0 <= j < |kept| ==> subnetData[j] == SubnetRow(kept[j], binary)
  {
    subnetData := [];
    for i := 0 to |kept|
      invariant |subnetData| == i
      invariant forall j :: 0 <= j < i ==> subnetData[j] == SubnetRow(kept[j], binary)
    {
      subnetData := subnetData + [SubnetRow(kept[i], binary)];
    }
  }

  /** What the script ends with. */
  datatype Outcome =
    | MissingPrefix                 // "The IP does not have a prefix.", exit 1
    | Traceback(failure: Failure)   // a ValueError escapes
    | UnableToDivide                // "Unable to divide ... into N subnets.", exit 1
    | SubnetTable(rows: seq<Row>)
    | NetworkTable(report: NetworkReport)

  /**
   * The script after its arguments are read: divide 0 stands for no
   * -divide option (negative values are not modelled). Text without '/'
   * is refused before any calculation; with divide >= 1 the outcome is the
   * table of calculate_subnets or its ValueError, and the "Unable to
   * divide" message is never reached, since the split either raises or
   * keeps at least one subnet.
   */
  method Run(ipPrefix: string, divide: nat, binary: bool) returns (o: Outcome)
    ensures o == MissingPrefix <==> '/' !in ipPrefix
    ensures '/' in ipPrefix && divide == 0 ==>
      o == match CalculateNetwork(ipPrefix, binary)
        case Err(e) => Traceback(InvalidNetwork(e))
        case Ok(report) => NetworkTable(report)
    ensures o.SubnetTable? ==> divide >= 1 && |o.rows| >= 1
    ensures o.NetworkTable? ==> divide == 0
    ensures '/' in ipPrefix && divide >= 1 ==>
      match ParseNetwork(ipPrefix)
      case Err(e) => o == Traceback(InvalidNetwork(e))
      case Ok(n) =>
        match Divided(n, divide)
        case Err(se) => o == Traceback(SplitFailed(se))
        case Ok(kids) =>
          && o.SubnetTable? && |o.rows| == |kids|
          && forall i :: 0 <= i < |kids| ==> o.rows[i] == SubnetRow(kids[i], binary)
    ensures o != UnableToDivide
  {
    if '/' !in ipPrefix {
      return MissingPrefix;
    }
    if divide != 0 {
      var subnetData := CalculateSubnets(ipPrefix, divide, binary);
      if subnetData.Err? {
        return Traceback(subnetData.error);
      }
      return if subnetData.value == [] then UnableToDivide else SubnetTable(subnetData.value);
    }
    match CalculateNetwork(ipPrefix, binary)
    case Err(e) => return Traceback(InvalidNetwork(e));
    case Ok(report) => return NetworkTable(report);
  }
}

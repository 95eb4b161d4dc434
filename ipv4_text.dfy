/**
 * The dotted-decimal text of addresses and the `address/prefix` text of
 * networks, as `str()` prints them and `ipaddress.ip_network(text,
 * strict=False)` and `ipaddress.ip_interface(text)` read them.
 */
module Ipv4Text {
  import opened Wrappers
  import opened Arith
  import opened Text
  import opened Ipv4

  /** Why the library refuses a text (AddressValueError or NetmaskValueError). */
  datatype ParseError =
    | ExtraSlash   // more than one '/'
    | BadAddress   // not four octets 0-255
    | BadPrefix    // prefix length not a decimal 0-32

  function DecimalParts(o: seq<nat>): (parts: seq<string>)
    ensures |parts| == |o|
    ensures forall i :: 0 <= i < |o| ==> parts[i] == Decimal(o[i])
  {
    seq(|o|, i requires 0 <= i < |o| => Decimal(o[i]))
  }

  /** str(IPv4Address): the four bytes in decimal, joined by dots. */
  function Dotted(a: Address): string
  {
    Join(DecimalParts(Octets(a)), '.')
  }

  /** str(IPv4Network): the network address, a slash and the prefix length. */
  function NetworkText(n: Network): string
  {
    Dotted(n.address) + "/" + Decimal(n.prefix)
  }

  /** One octet of an address: one to three ASCII digits with a value up to 255. */
  function ParseOctet(t: string): Option<nat>
  {
    if |t| > 3 then None
    else match DecimalValue(t)
      case None => None
      case Some(v) => if v <= 255 then Some(v) else None
  }

  /** Every part read as an octet, or None as soon as one is not an octet. */
  function ParseOctets(parts: seq<string>): (r: Option<seq<nat>>)
    ensures r.Some? <==> forall i :: 0 <= i < |parts| ==> ParseOctet(parts[i]).Some?
    ensures r.Some? ==> |r.value| == |parts|
    ensures r.Some? ==> forall i :: 0 <= i < |parts| ==> ParseOctet(parts[i]) == Some(r.value[i])
  {
    if parts == [] then Some([])
    else match ParseOctet(parts[0])
      case None => None
      case Some(v) =>
        match ParseOctets(parts[1..])
        case None => None
        case Some(rest) => Some([v] + rest)
  }

  /** IPv4Address(text): exactly four dot-separated octets. */
  function ParseAddress(s: string): Result<Address, ParseError>
  {
    var parts := Split(s, '.');
    if |parts| != 4 then Err(BadAddress)
    else match ParseOctets(parts)
      case None => Err(BadAddress)
      case Some(o) => Ok(FromOctets(o))
  }

  /** A prefix length in prefix form: ASCII digits with a value up to 32. */
  function ParsePrefix(s: string): Result<Prefix, ParseError>
  {
    match DecimalValue(s)
    case None => Err(BadPrefix)
    case Some(v) => if v <= 32 then Ok(v) else Err(BadPrefix)
  }

  /**
   * The address and prefix length of `address/prefix` text; text without a
   * slash has prefix 32, and a second slash is refused.
   */
  function ParseCidr(s: string): Result<Cidr, ParseError>
  {
    var parts := Split(s, '/');
    if |parts| > 2 then Err(ExtraSlash)
    else match ParseAddress(parts[0])
      case Err(e) => Err(e)
      case Ok(a) =>
        if |parts| == 1 then Ok(Cidr(a, 32))
        else match ParsePrefix(parts[1])
          case Err(e) => Err(e)
          case Ok(p) => Ok(Cidr(a, p))
  }

  /** ip_network(text, strict=False): host bits of the address are cleared, not refused. */
  function ParseNetwork(s: string): Result<Network, ParseError>
  {
    match ParseCidr(s)
    case Err(e) => Err(e)
    case Ok(c) => Ok(NetworkOf(c))
  }

  lemma OctetText(o: nat)
    requires o < 256
    ensures ParseOctet(Decimal(o)) == Some(o)
  {
    DecimalRoundTrip(o);
    DecimalBelow1000(o);
  }

  lemma DottedHasNo(a: Address, c: char)
    requires !IsDigit(c) && c != '.'
    ensures c !in Dotted(a)
  {
    var parts := DecimalParts(Octets(a));
    JoinHasNo(parts, '.', c);
  }

  lemma {:induction false} JoinHasNo(parts: seq<string>, sep: char, c: char)
    requires |parts| >= 1 && c != sep
    requires forall i :: 0 <= i < |parts| ==> AllDigits(parts[i])
    requires !IsDigit(c)
    ensures c !in Join(parts, sep)
  {
    if |parts| > 1 {
      JoinHasNo(parts[1..], sep, c);
    }
  }

  /** Reading the text of an address gives the address back. */
  lemma ParseDotted(a: Address)
    ensures ParseAddress(Dotted(a)) == Ok(a)
  {
    var o := Octets(a);
    var parts := DecimalParts(o);
    SplitJoin(parts, '.');
    forall i | 0 <= i < 4
      ensures ParseOctet(parts[i]) == Some(o[i])
    {
      OctetText(o[i]);
    }
    var r := ParseOctets(parts);
    assert r.value == o;
    OctetsRoundTrip(a);
  }

  /**
   * `a/p` text reads as address a with prefix p, and ip_network keeps a's
   * network: host bits set in the text are cleared, not refused.
   */
  lemma ParseAddressSlashPrefix(a: Address, p: Prefix)
    ensures ParseCidr(Dotted(a) + "/" + Decimal(p)) == Ok(Cidr(a, p))
    ensures ParseNetwork(Dotted(a) + "/" + Decimal(p)) == Ok(NetworkOf(Cidr(a, p)))
  {
    DottedHasNo(a, '/');
    SplitTwo(Dotted(a), Decimal(p), '/');
    ParseDotted(a);
    DecimalRoundTrip(p);
  }

  /** str(network) reads back as the same network. */
  lemma NetworkTextRoundTrip(n: Network)
    ensures ParseNetwork(NetworkText(n)) == Ok(n)
  {
    ParseAddressSlashPrefix(n.address, n.prefix);
    RoundDownUnique(n.address, n.address, BlockSize(n.prefix));
  }

  /** True when t is a decimal number above limit. */
  predicate DecimalAbove(t: string, limit: nat)
  {
    DecimalValue(t).Some? && DecimalValue(t).value > limit
  }

  /**
   * `address/prefix` text is refused when the address does not have four
   * parts, when one part is not an octet (not decimal, more than three
   * digits, or above 255), or when the prefix is not a decimal number up to 32.
   */
  lemma RefusesOutOfRange(addr: string, pre: string)
    requires '/' !in addr
    ensures |Split(addr, '.')| != 4 ==> ParseCidr(addr + "/" + pre).Err?
    ensures (exists j :: 0 <= j < |Split(addr, '.')| && ParseOctet(Split(addr, '.')[j]).None?) ==>
      ParseCidr(addr + "/" + pre).Err?
    ensures (DecimalValue(pre).None? || DecimalAbove(pre, 32)) ==> ParseCidr(addr + "/" + pre).Err?
  {
    SplitAt(addr, pre, '/');
    if '/' in pre {
      var j :| 0 <= j < |pre| && pre[j] == '/';
      SplitHasSeparator(pre, '/', j);
    } else {
      SplitWhole(pre, '/');
    }
  }
}

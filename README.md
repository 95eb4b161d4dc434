# calculateCIDR in Dafny

A model of the IPv4 CIDR arithmetic in the three scripts of calculateCIDR, with proofs of its laws. The scripts are:

- `cidr_calculator.py`: one network's netmask, network ID, gateway, broadcast address and usable host count. With `-divide N` it instead gives a table of subnets. `-binary` shows every address in binary.
- `cidr_calulator.py`: the variant with no binary output and an unguarded host count.
- `getNetInfo.py`: netmask, network ID, broadcast ID and total address count of an `ip/cidr` interface.

The scripts rely on Python's `ipaddress` module for parsing and the network arithmetic. Those parts are modelled as follows:

- An address is a natural number below 2^32 (`Ipv4.Address`).
- A prefix length is 0..32 (`Ipv4.Prefix`), as in the prefix notation of section 3.1 of RFC 4632.
- A network is an address with its 32 − P host bits zero (`Ipv4.Network`).
- `ip_network(text, strict=False)` is `Ipv4Text.ParseNetwork`.
- `ip_interface` is `Ipv4Text.ParseCidr`.
- `network.subnets(new_prefix=…)` is the specification function `Subnetting.Subnets`. The method `Subnetting.SubnetList` runs the library's `range(start, end, step)` loop and is proved to compute it.

The arithmetic shared by both calculators is in `Calculator`:

- the guarded host count;
- the gateway (first host);
- the choice of the longer prefix, `divide.bit_length() - 1`;
- the `[:divide]` slice.

Each script is one module (`CidrCalculator`, `CidrCalulator`, `GetNetInfo`). Its `calculate_subnets` is a method whose loop builds the rows. The checks its main code performs are a method `Run` (calculators) or a function `ParseInput` (getNetInfo).

Modules and files:

| file | module | contents |
|---|---|---|
| wrappers.dfy | Wrappers | Option, Result |
| arith.dfy | Arith | powers of two, bits, rounding down, bit_length |
| text.dfy | Text | decimal and binary digits, split and join |
| ipv4.dfy | Ipv4 | addresses, netmask, network, broadcast, members, hosts, octets |
| ipv4_text.dfy | Ipv4Text | dotted-decimal text and `address/prefix` parsing |
| subnetting.dfy | Subnetting | `subnets()` and its laws |
| calculator.dfy | Calculator | shared host count, gateway and division |
| cidr_calculator.dfy | CidrCalculator | `cidr_calculator.py` |
| cidr_calulator.dfy | CidrCalulator | `cidr_calulator.py` |
| get_net_info.dfy | GetNetInfo | `getNetInfo.py` |

## Model

| member | source | states |
|---|---|---|
| Ipv4.BlockSize | cidr_calculator.py:29 | num_addresses is at least 1 |
| Ipv4.ClearHostBits | cidr_calculator.py:26 | under strict=False the network address lies at or below the given address and has its host bits clear |
| Ipv4.NetmaskLeadingOnes | cidr_calculator.py:27 | bit i of the netmask is set exactly when i ≥ 32 − P: P leading one-bits, then zeros |
| Ipv4.NetworkIsMaskedAddress | cidr_calculator.py:26-28 | the network address is the given address AND the netmask, bit by bit |
| Ipv4.NetworkOfHoldsAddress | cidr_calculator.py:26-30 | network ≤ address ≤ broadcast, and no other network of the same prefix holds the address |
| Ipv4.BroadcastSetsHostBits | cidr_calculator.py:30 | the broadcast address is the network address with every host bit set |
| Ipv4.MembersSpanNetwork | cidr_calculator.py:29 | a network has 2^(32−P) distinct ascending addresses, from its network to its broadcast address; they are exactly the addresses it contains |
| Ipv4.HostsAreInnerAddresses | cidr_calculator.py:29 | up to /30, hosts() yields 2^(32−P) − 2 addresses, the first being network + 1; they are exactly the contained addresses other than network and broadcast |
| Ipv4.HostsNonEmpty | cidr_calculator.py:29 | hosts() is never empty, so indexing [0] is safe |
| Ipv4.SmallNetworkHostsIncludeNetwork | cidr_calculator.py:29 | describes the library only: from /31 on, hosts() starts with the network address itself (both scripts guard hosts() with num_addresses > 2, so they never reach this case) |
| Ipv4.OctetsRoundTrip | cidr_calculator.py:22 | an address is recovered from its four octets |
| Ipv4.FromOctetsRoundTrip | cidr_calculator.py:22 | four octets are recovered from the address they build |
| Ipv4.ToBytes | cidr_calculator.py:22 | the bytes of a number are n values below 256 |
| Ipv4Text.ParseOctets | cidr_calculator.py:26 | the octets parse exactly when every part is an octet 0–255, each as its own part reads |
| Ipv4Text.ParseCidr | getNetInfo.py:7 | ip_interface(text); defined by its body; the laws are stated in ParseAddressSlashPrefix, RefusesOutOfRange and GetNetInfo.InterfaceText |
| Ipv4Text.ParseNetwork | cidr_calculator.py:26 | ip_network(text, strict=False); defined by its body; the laws are stated in ParseAddressSlashPrefix, NetworkTextRoundTrip and Ipv4.NetworkIsMaskedAddress |
| Ipv4Text.ParseDotted | cidr_calculator.py:27-28 | str() of an address reads back as that address |
| Ipv4Text.ParseAddressSlashPrefix | cidr_calculator.py:26 | `a/p` text is read as address a with prefix p; ip_network keeps a's network, clearing host bits rather than refusing them |
| Ipv4Text.NetworkTextRoundTrip | cidr_calculator.py:60 | str(subnet) reads back as the same subnet |
| Ipv4Text.RefusesOutOfRange | cidr_calculator.py:26 | text is refused when the address has other than four parts, a part that is not an octet (not decimal, more than three digits, or above 255), or a prefix that is not a decimal up to 32 |
| Text.DecimalRoundTrip | cidr_calculator.py:22 | int() of the decimal text of n is n |
| Text.Format08bOctet | cidr_calculator.py:22 | f"{v:08b}" of an octet is its eight binary digits |
| Text.SplitJoin | cidr_calculator.py:22 | splitting text joined on a separator the parts lack gives back the parts |
| Text.JoinSplit | getNetInfo.py:33 | the parts of split('/') rejoined on '/' give back the input |
| Subnetting.SubnetList | cidr_calculator.py:44 | the stepping loop of subnets() builds exactly the children Subnets describes, with the same failures |
| Subnetting.Subnets | cidr_calculator.py:44 | network.subnets(new_prefix=…); defined by its body; SubnetList computes it, and SubnetsShape, SubnetsAdjacent, SubnetsAscending, SubnetsCover and HostRouteSubnets state its laws |
| Subnetting.SubnetsShape | cidr_calculator.py:44 | 2^(P'−P) children of prefix P', the first starting at the parent's network address and the last ending at its broadcast address |
| Subnetting.SubnetsAdjacent | cidr_calculator.py:44 | each child starts right after the previous child's broadcast address |
| Subnetting.SubnetsAscending | cidr_calculator.py:44 | children are strictly ascending and do not overlap |
| Subnetting.SubnetsCover | cidr_calculator.py:44 | an address is in the parent exactly when it is in some child, so the children tile the parent |
| Subnetting.ChildIndex | cidr_calculator.py:44 | each parent address lies in a child of the split |
| Subnetting.HostRouteSubnets | cidr_calculator.py:44 | a /32 is its own only subnet, whatever the new prefix |
| Calculator.ManyAddresses | cidr_calculator.py:29 | num_addresses > 2 exactly up to /30 |
| Calculator.UsableHosts | cidr_calculator.py:31 | defined by its body; the law is stated in UsableHostsCount |
| Calculator.Gateway | cidr_calculator.py:29 | defined by its body; the law is stated in GatewayFirstHost |
| Calculator.Divided | cidr_calculator.py:44-46 | defined by its body; the laws are stated in DividedKeepsAllChildren, DivideByOne, FloorSplitUndershoots, ThreeGivesHalves and FourFromSmallNetworkFails |
| Calculator.UsableHostsCount | cidr_calculator.py:31 | up to /30 the count is the number of hosts(), two fewer than num_addresses; 0 for /31 and /32; never negative |
| Calculator.GatewayFirstHost | cidr_calculator.py:29 | a gateway exists exactly up to /30; it is network + 1, strictly between network and broadcast, and the lowest host |
| Calculator.SplitBits | cidr_calculator.py:44 | divide.bit_length() − 1 is the k with 2^k ≤ divide < 2^(k+1) |
| Calculator.DividedKeepsAllChildren | cidr_calculator.py:44-46 | the split fails exactly when P < 32 and P + k > 32; otherwise [:divide] keeps every child, 2^k of them (1 for a /32), between 1 and divide |
| Calculator.DivideByOne | cidr_calculator.py:44-46 | dividing into one gives the network itself |
| Calculator.FloorSplitUndershoots | cidr_calculator.py:44-46 | exactly divide subnets when divide is a power of two, and fewer otherwise |
| Calculator.ThreeGivesHalves | cidr_calculator.py:44-46 | asked for three subnets, the split gives two |
| Calculator.FourFromSmallNetworkFails | cidr_calculator.py:44 | a /31 asked for four subnets raises instead of giving an empty list |
| Calculator.IntendedSplitBits | cidr_calculator.py:14 | (divide − 1).bit_length() is the least k with 2^k ≥ divide |
| Calculator.IntendedDivision | cidr_calculator.py:14 | the corrected division gives exactly divide subnets, the first children in order, or none exactly when they do not fit |
| CidrCalculator.BinaryGroups | cidr_calculator.py:22 | ip_to_binary's groups exist exactly when every part is decimal; each group is the part formatted as :08b |
| CidrCalculator.IpToBinary | cidr_calculator.py:21-22 | defined by its body; the laws are stated in BinaryOfDotted, BinaryTextShape, ReadBinaryText and NotAvailableIsNoAddress |
| CidrCalculator.BinaryOfDotted | cidr_calculator.py:21-22 | ip_to_binary of an address's text is its four octets in eight binary digits each, joined by dots |
| CidrCalculator.BinaryTextShape | cidr_calculator.py:22 | the binary form splits into four groups of eight 0/1 digits, each reading in base 2 as its octet |
| CidrCalculator.ReadBinaryText | cidr_calculator.py:22 | decoding the binary form gives the address back |
| CidrCalculator.NotAvailableIsNoAddress | cidr_calculator.py:36 | no address prints as "N/A", and ip_to_binary cannot read "N/A", so the guard is needed |
| CidrCalculator.RenderReadsBack | cidr_calculator.py:33-37 | every address column reads back as its address in either mode, and never shows "N/A" |
| CidrCalculator.CalculateNetwork | cidr_calculator.py:25-39 | defined by its body; the laws are stated in CalculateNetworkOfText and ReportReadsBack |
| CidrCalculator.GatewayColumnReadsBack | cidr_calculator.py:29 | the gateway column is "N/A" exactly from /31 on; otherwise it reads back as network + 1 in either mode |
| CidrCalculator.ReportReadsBack | cidr_calculator.py:25-39 | the report's columns read back as netmask, network, broadcast and gateway; hosts is 2^(32−P) − 2 up to /30 and 0 beyond |
| CidrCalculator.CalculateNetworkOfText | cidr_calculator.py:25-39 | for `a/p` text the report is that of a's network: host bits cleared, network ≤ a ≤ broadcast |
| CidrCalculator.SubnetRowReadsBack | cidr_calculator.py:47-66 | a row names its subnet and reads back as that subnet's network, broadcast, netmask, gateway and host count |
| CidrCalculator.CalculateSubnets | cidr_calculator.py:42-67 | a bad network or an unrepresentable split fails; otherwise one row per kept child, in order, and at least one row |
| CidrCalculator.CollectRows | cidr_calculator.py:45-66 | the loop appends exactly the row of each kept child, in order |
| CidrCalculator.Run | cidr_calculator.py:97-126 | input without '/' is refused before any calculation; without -divide the network report is shown; with divide ≥ 1 the outcome is the traceback of a refused network or split, or else the table with one row per kept child, in order; for divide ≥ 1 "Unable to divide" is never reached |
| CidrCalulator.CalculateNetworkOfText | cidr_calulator.py:24-30 | for `a/p` text the columns read back as netmask, network and broadcast; hosts is 2^(32−p) − 2: 0 at /31 and −1 at /32 |
| CidrCalulator.CalculateNetwork | cidr_calulator.py:24-30 | defined by its body; the laws are stated in CalculateNetworkOfText, HostRouteHasMinusOneHosts and IntendedHostCount |
| CidrCalulator.HostRouteHasMinusOneHosts | cidr_calulator.py:29 | any `a/32` is reported with −1 hosts |
| CidrCalulator.IntendedHostCount | cidr_calulator.py:29 | the guarded count is never negative, counts hosts() up to /30, agrees with the written report below /32, and is one more at /32 |
| CidrCalulator.GatewayTextReadsBack | cidr_calulator.py:38 | the gateway is "N/A" exactly from /31 on, and network + 1 before |
| CidrCalulator.SubnetRowReadsBack | cidr_calulator.py:37-48 | a row names its subnet and reads back as its netmask, network, broadcast, host count and gateway |
| CidrCalulator.CalculateSubnets | cidr_calulator.py:33-49 | a bad network or an unrepresentable split fails; otherwise one row per kept child, in order, and at least one row |
| CidrCalulator.CollectRows | cidr_calulator.py:36-48 | the loop appends exactly the row of each kept child, in order |
| CidrCalulator.Run | cidr_calulator.py:77-102 | input without '/' is refused before any calculation; without -divide the network report is shown; with divide ≥ 1 the outcome is the traceback of a refused network or split, or else the table with one row per kept child, in order; for divide ≥ 1 "Unable to divide" is never reached |
| GetNetInfo.InterfaceText | getNetInfo.py:7-11 | text that ip_interface accepts has no further '/', and int(cidr) is its prefix length |
| GetNetInfo.CalculateNetworkInfo | getNetInfo.py:6-13 | defined by its body; the laws are stated in NetworkInfoFacts, NetworkInfoBits and NetworkInfoOfText |
| GetNetInfo.ParseInput | getNetInfo.py:33-37 | defined by its body; the laws are stated in InputAccepted, HostBitsAccepted and OutOfRangeRejected |
| GetNetInfo.InfoOfFacts | getNetInfo.py:8-11 | total is the network's address count; network is the address with host bits cleared; broadcast = network + total − 1 |
| GetNetInfo.NetworkInfoFacts | getNetInfo.py:6-13 | succeeds exactly when ip_interface accepts; total counts every address, network and broadcast included; network ≤ ip ≤ broadcast = network + total − 1 |
| GetNetInfo.NetworkInfoBits | getNetInfo.py:8-9 | the netmask is cidr leading one-bits, and the network is ip AND netmask |
| GetNetInfo.InputAccepted | getNetInfo.py:33-37 | input is accepted exactly when it splits on '/' into two parts and ip_interface reads it; the parts rebuild the input, and the calculation succeeds |
| GetNetInfo.HostBitsAccepted | getNetInfo.py:33-34 | an address with host bits set is accepted as given |
| GetNetInfo.NetworkInfoOfText | getNetInfo.py:39 | for `a/p` input the network is a with its host bits cleared, of 2^(32−p) addresses |
| GetNetInfo.OutOfRangeRejected | getNetInfo.py:33-37 | an address without four parts, a part that is not an octet (not decimal, more than three digits, or above 255), or a prefix that is not a decimal up to 32 is refused |

## Left out

- Argument parsing, help and version text, and the `sys.exit` codes are not modelled. They are command-line plumbing. `Run` stands for the main code after the arguments are read: `divide = 0` means no `-divide` option.
- `tabulate` tables, colour escape codes, `-vertical` and the header rows are not modelled. They are presentation. Rows keep each script's column order.
- The `input()` loop of getNetInfo.py, its `'q'` command and its printing are interactive I/O and are not modelled. Only one pass of the split-and-validate step is modelled (`ParseInput`).
- IPv6 is not modelled. `ip_to_binary` assumes four octets.
- The prefix is decimal only. Library parsing extras are not modelled:
  - netmask-form and hostmask-form prefixes;
  - rejection of leading-zero octets;
  - the leniency of `int()` about whitespace, signs and underscores;
  - `.strip()` and the `.upper()` that does nothing to IPv4 text.
- Negative `divide` is not modelled: `CalculateSubnets` requires `divide >= 1`, and `Run` takes `divide` as a natural number. Zero skips subdivision, through `if args.divide` (modelled in `Run`). A negative value passes `if args.divide` and slices from the end. For example, `-divide -1` splits at the same prefix, `[:-1]` leaves no subnet, and the script prints "Unable to divide". The model does not capture that outcome. This is the only way the message is reached.
- The memory and time cost of `list(network.hosts())` on large networks is not modelled.
- CidrCalculator.Render: the binary column is defined as `BinaryText(a)` and not by running `ip_to_binary` on the dotted text. `BinaryOfDotted` proves the two are the same for every address.
- The usage text says `-divide N` gives N subnets. The code uses floor(log2 N) bits (`bit_length() - 1`), and the model follows the code. The ceiling rule is given beside it as the corrected division (see Findings).
- The as-written scripts are modelled as the code is. The corrected members (`DividedIntended`, `CalculateNetworkIntended`) are stated and proved beside them, not wired into `Run`.

## Findings

| source | as written | input that shows it | evidently intended | confidence | as-written member | corrected member |
|---|---|---|---|---|---|---|
| cidr_calculator.py:44 | the new prefix is P + divide.bit_length() − 1, i.e. floor(log2 divide) bits | `-ip 10.0.0.0/24 -divide 3` gives 2 subnets | "Divide the network into N subnets": N subnets from the least split with at least N children, (divide − 1).bit_length() bits | not executed | Calculator.ThreeGivesHalves | Calculator.IntendedDivision |
| cidr_calculator.py:109-111 | for divide ≥ 1, an unrepresentable split makes subnets() raise ValueError before the "Unable to divide" check is reached | `-ip 10.0.0.0/31 -divide 4` ends in a traceback | print "Unable to divide … into 4 subnets." and exit 1 | not executed | Calculator.FourFromSmallNetworkFails | Calculator.IntendedDivision |
| cidr_calulator.py:29 | hosts = num_addresses − 2 with no guard | `-ip 10.0.0.1/32` reports −1 hosts | 0 usable hosts, as cidr_calculator.py:31 guards it | not executed | CidrCalulator.HostRouteHasMinusOneHosts | CidrCalulator.IntendedHostCount |

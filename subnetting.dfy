/**
 * `IPv4Network.subnets(new_prefix=...)`: the equal-size children of a
 * network at a longer prefix, in ascending address order.
 */
module Subnetting {
  import opened Wrappers
  import opened Arith
  import opened Ipv4

  /** The ValueErrors that subnets() raises. */
  datatype SubnetError =
    | NewPrefixNotLonger   // 'new prefix must be longer'
    | NewPrefixTooLong     // 'prefix length diff ... is invalid for netblock ...'

  /** A parent's block is 2^(new - old) child blocks. */
  lemma ChildBlocksFillParent(parent: Prefix, child: Prefix)
    requires parent <= child
    ensures BlockSize(parent) == Pow2(child - parent) * BlockSize(child)
  {
    Pow2Add(child - parent, 32 - child);
  }

  /** Child i starts a whole number of child blocks into the parent and ends inside it. */
  lemma ChildFits(n: Network, newPrefix: Prefix, i: nat)
    requires n.prefix <= newPrefix && i < Pow2(newPrefix - n.prefix)
    ensures HostBitsClear(n.address + i * BlockSize(newPrefix), newPrefix)
    ensures n.address + i * BlockSize(newPrefix) + BlockSize(newPrefix) <= n.address + BlockSize(n.prefix)
    ensures n.address + BlockSize(n.prefix) <= 0x1_0000_0000
  {
    var k := Pow2(newPrefix - n.prefix);
    var c := BlockSize(newPrefix);
    ChildBlocksFillParent(n.prefix, newPrefix);
    AlignedFits(n.address, n.prefix);
    StepAligned(n.address, k, c, i);
    BlockEnd(i, k, c);
  }

  lemma BlockEnd(i: nat, k: nat, c: nat)
    requires i < k
    ensures i * c + c <= k * c
  {
    MulMonotone(i + 1, k, c);
  }

  lemma StepAligned(base: nat, k: nat, c: nat, i: nat)
    requires c > 0 && k > 0 && base % (k * c) == 0
    ensures (base + i * c) % c == 0
  {
    var q := base / (k * c);
    assert base == q * (k * c);
    assert base + i * c == (q * k + i) * c;
    DivModUnique(q * k + i, 0, c);
  }

  /** Child i of n at the longer prefix: i child blocks after n's network address. */
  function Child(n: Network, newPrefix: Prefix, i: nat): Network
    requires n.prefix <= newPrefix && i < Pow2(newPrefix - n.prefix)
  {
    ChildFits(n, newPrefix, i);
    Cidr(n.address + i * BlockSize(newPrefix), newPrefix)
  }

  /**
   * list(n.subnets(new_prefix=newPrefix)). A /32 yields itself whatever the
   * new prefix; otherwise a shorter new prefix or one beyond 32 raises.
   */
  function Subnets(n: Network, newPrefix: int): Result<seq<Network>, SubnetError>
  {
    if n.prefix == 32 then Ok([n])
    else if newPrefix < n.prefix then Err(NewPrefixNotLonger)
    else if newPrefix > 32 then Err(NewPrefixTooLong)
    else
      var count := Pow2(newPrefix - n.prefix);
      Ok(seq(count, i requires 0 <= i < count => Child(n, newPrefix, i)))
  }

  /**
   * The generator behind subnets(): for new_addr in range(start, end, step),
   * with step = (hostmask + 1) >> prefixlen_diff.
   */
  method SubnetList(n: Network, newPrefix: int) returns (r: Result<seq<Network>, SubnetError>)
    ensures r == Subnets(n, newPrefix)
  {
    if n.prefix == 32 {
      return Ok([n]);
    }
    if newPrefix < n.prefix {
      return Err(NewPrefixNotLonger);
    }
    if newPrefix > 32 {
      return Err(NewPrefixTooLong);
    }
    var diff := newPrefix - n.prefix;
    var count := Pow2(diff);
    var start := n.address;
    var end := Broadcast(n) + 1;
    ChildBlocksFillParent(n.prefix, newPrefix);
    var step := BlockSize(n.prefix) / count;
    StepIsChildBlock(BlockSize(n.prefix), count, BlockSize(newPrefix));
    var kids: seq<Network> := [];
    var addr := start;
    while addr < end
      invariant |kids| <= count
      invariant addr == start + |kids| * step
      invariant forall j :: 0 <= j < |kids| ==> kids[j] == Child(n, newPrefix, j)
      decreases end - addr
    {
      RangeStep(start, end, step, count, |kids|);
      assert addr == Child(n, newPrefix, |kids|).address;
      var current: Network := Cidr(addr, newPrefix);
      NextStep(start, |kids|, step);
      kids := kids + [current];
      addr := addr + step;
    }
    RangeStep(start, end, step, count, |kids|);
    assert kids == seq(count, i requires 0 <= i < count => Child(n, newPrefix, i));
    return Ok(kids);
  }

  lemma StepIsChildBlock(parent: nat, count: nat, child: nat)
    requires count > 0 && parent == count * child
    ensures parent / count == child
  {
    DivModUnique(child, 0, count);
  }

  /** range(start, end, step) with end - start == count * step takes count steps. */
  lemma RangeStep(start: nat, end: nat, step: nat, count: nat, i: nat)
    requires step > 0 && end == start + count * step && i <= count
    ensures start + i * step < end <==> i < count
  {
    if i < count {
      MulMonotone(i + 1, count, step);
    }
  }

  lemma NextStep(start: nat, i: nat, step: nat)
    ensures start + i * step + step == start + (i + 1) * step
  {
  }

  /**
   * Below /32 the split has 2^(new - old) children of the new prefix, the
   * first starting at the parent's network address and the last ending at
   * its broadcast address.
   */
  lemma SubnetsShape(n: Network, newPrefix: int)
    requires n.prefix < 32 && n.prefix <= newPrefix <= 32
    ensures Subnets(n, newPrefix).Ok?
    ensures |Subnets(n, newPrefix).value| == Pow2(newPrefix - n.prefix)
    ensures forall i :: 0 <= i < |Subnets(n, newPrefix).value| ==>
      Subnets(n, newPrefix).value[i].prefix == newPrefix
    ensures Subnets(n, newPrefix).value[0].address == n.address
    ensures var kids := Subnets(n, newPrefix).value; Broadcast(kids[|kids| - 1]) == Broadcast(n)
  {
    var k := Pow2(newPrefix - n.prefix);
    var c := BlockSize(newPrefix);
    var kids := Subnets(n, newPrefix).value;
    assert |kids| == k;
    assert kids[0] == Child(n, newPrefix, 0);
    assert kids[k - 1] == Child(n, newPrefix, k - 1);
    ChildBlocksFillParent(n.prefix, newPrefix);
    LastBlockEnds(n.address, k, c);
  }

  lemma LastBlockEnds(base: nat, k: nat, c: nat)
    requires k >= 1
    ensures base + (k - 1) * c + c - 1 == base + k * c - 1
  {
  }

  /** Each child begins right after the previous one's broadcast address. */
  lemma SubnetsAdjacent(n: Network, newPrefix: int)
    requires n.prefix < 32 && n.prefix <= newPrefix <= 32
    ensures Subnets(n, newPrefix).Ok?
    ensures var kids := Subnets(n, newPrefix).value;
      forall i :: 0 <= i < |kids| - 1 ==> kids[i + 1].address == Broadcast(kids[i]) + 1
  {
    var c := BlockSize(newPrefix);
    var kids := Subnets(n, newPrefix).value;
    forall i | 0 <= i < |kids| - 1
      ensures kids[i + 1].address == Broadcast(kids[i]) + 1
    {
      assert (i + 1) * c == i * c + c;
    }
  }

  /** The children are in strictly ascending order and do not overlap. */
  lemma SubnetsAscending(n: Network, newPrefix: int)
    requires n.prefix < 32 && n.prefix <= newPrefix <= 32
    ensures Subnets(n, newPrefix).Ok?
    ensures var kids := Subnets(n, newPrefix).value;
      forall i, j :: 0 <= i < j < |kids| ==> Broadcast(kids[i]) < kids[j].address
  {
    var c := BlockSize(newPrefix);
    var kids := Subnets(n, newPrefix).value;
    forall i, j | 0 <= i < j < |kids|
      ensures Broadcast(kids[i]) < kids[j].address
    {
      MulMonotone(i + 1, j, c);
      assert (i + 1) * c == i * c + c;
    }
  }

  /** Every address of the parent is in some child, and every child's address is the parent's. */
  lemma SubnetsCover(n: Network, newPrefix: int)
    requires n.prefix < 32 && n.prefix <= newPrefix <= 32
    ensures Subnets(n, newPrefix).Ok?
    ensures var kids := Subnets(n, newPrefix).value;
      forall a: int :: Contains(n, a) <==> exists i :: 0 <= i < |kids| && Contains(kids[i], a)
  {
    var kids := Subnets(n, newPrefix).value;
    forall a: int | Contains(n, a)
      ensures exists i :: 0 <= i < |kids| && Contains(kids[i], a)
    {
      var i := ChildIndex(n, newPrefix, a);
      assert kids[i] == Child(n, newPrefix, i);
    }
    forall a: int, i | 0 <= i < |kids| && Contains(kids[i], a)
      ensures Contains(n, a)
    {
      ChildInside(n, newPrefix, i, a);
      assert kids[i] == Child(n, newPrefix, i);
    }
  }

  /** An address of child i is an address of the parent. */
  lemma ChildInside(n: Network, newPrefix: Prefix, i: nat, a: int)
    requires n.prefix <= newPrefix && i < Pow2(newPrefix - n.prefix)
    requires Contains(Child(n, newPrefix, i), a)
    ensures Contains(n, a)
  {
    ChildFits(n, newPrefix, i);
  }

  /** The child holding parent address a is the one at index (a - network) / child block size. */
  lemma ChildIndex(n: Network, newPrefix: Prefix, a: int) returns (i: nat)
    requires n.prefix <= newPrefix && Contains(n, a)
    ensures i < Pow2(newPrefix - n.prefix) && Contains(Child(n, newPrefix, i), a)
  {
    var k := Pow2(newPrefix - n.prefix);
    var c := BlockSize(newPrefix);
    ChildBlocksFillParent(n.prefix, newPrefix);
    var x: nat := a - n.address;
    assert x < k * c;
    i := Locate(x, c, k);
  }

  /** An offset below k blocks of size c lies in block x / c, one of the k. */
  lemma Locate(x: nat, c: nat, k: nat) returns (i: nat)
    requires c > 0 && x < k * c
    ensures i < k && i * c <= x < i * c + c
  {
    i := x / c;
    DivBelow(x, c, k);
  }

  /** A /32 is its own only subnet, whatever the new prefix. */
  lemma HostRouteSubnets(n: Network, newPrefix: int)
    requires n.prefix == 32
    ensures Subnets(n, newPrefix) == Ok([n])
  {
  }
}

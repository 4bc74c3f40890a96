/** IP addresses and networks as numbers: the parts of `std::net::IpAddr` and of the
    `cidr` crate (`IpInet`, `IpCidr`) that the target pipeline relies on. */
module IpNet {

  function Pow2(n: nat): (r: nat)
    ensures r >= 1
  {
    if n == 0 then 1 else 2 * Pow2(n - 1)
  }

  lemma {:induction false} Pow2Add(a: nat, b: nat)
    ensures Pow2(a + b) == Pow2(a) * Pow2(b)
  {
    if a > 0 {
      Pow2Add(a - 1, b);
      assert Pow2(a + b) == 2 * Pow2(a - 1 + b);
    }
  }

  /** The number of IPv4 addresses. */
  lemma Pow2Of32()
    ensures Pow2(32) == 0x1_0000_0000
  {
    assert Pow2(4) == 16;
    assert Pow2(8) == 256 by {
      Pow2Add(4, 4);
    }
    Pow2Add(8, 8);
    Pow2Add(16, 16);
  }

  lemma {:induction false} Pow2Monotone(a: nat, b: nat)
    requires a <= b
    ensures Pow2(a) <= Pow2(b)
  {
    if a < b {
      Pow2Monotone(a, b - 1);
    }
  }

  /** Euclidean division is determined by quotient and remainder. */
  lemma DivModUnique(x: nat, p: nat, q: nat, r: nat)
    requires p > 0 && r < p && x == q * p + r
    ensures x / p == q && x % p == r
  {
    var q', r' := x / p, x % p;
    assert x == q' * p + r';
    if q' < q {
      MulMonotone(q' + 1, q, p);
    } else if q' > q {
      MulMonotone(q + 1, q', p);
    }
  }

  /** Euclidean division: the quotient times the divisor plus the remainder. */
  lemma DivMod(x: nat, p: nat)
    requires p > 0
    ensures x == (x / p) * p + x % p && 0 <= x % p < p
  {
  }

  lemma MulMonotone(a: nat, b: nat, p: nat)
    requires a <= b
    ensures a * p <= b * p
  {
  }

  /** Rounding `x` down to a multiple of `p` stays at or below `x`, in the same block. */
  lemma RoundDown(x: nat, p: nat)
    requires p > 0
    ensures x / p * p <= x
    ensures (x / p * p) / p == x / p && (x / p * p) % p == 0
  {
    DivMod(x, p);
    DivModUnique(x / p * p, p, x / p, 0);
  }

  /** A multiple of `p` below `n * p` leaves room for one more block of `p`. */
  lemma NextMultipleFits(q: nat, n: nat, p: nat)
    requires p > 0 && q * p < n * p
    ensures q * p + p <= n * p
  {
    if q >= n {
      MulMonotone(n, q, p);
    }
    MulMonotone(q + 1, n, p);
  }

  /** An IP address: its family and its value as an unsigned number
      (a `u32` for V4, a `u128` for V6). */
  datatype IpAddr = V4(bits: nat) | V6(bits: nat)

  /** The number of bits of an address of this family. */
  function Width(a: IpAddr): nat {
    if a.V4? then 32 else 128
  }

  /** Addresses whose value fits the width of their family. */
  type Addr = a: IpAddr | a.bits < Pow2(Width(a)) witness V4(0)

  /** The address of the same family as `a` with value `bits`. */
  function WithBits(a: IpAddr, bits: nat): (r: IpAddr)
    ensures r.bits == bits && r.V4? == a.V4?
  {
    if a.V4? then V4(bits) else V6(bits)
  }

  /** A prefix: a base address and a prefix length. */
  datatype IpCidr = IpCidr(base: IpAddr, len: nat)

  /** The number of addresses that share a prefix of `len` bits with `a`. */
  function BlockSize(a: IpAddr, len: nat): nat
    requires len <= Width(a)
  {
    Pow2(Width(a) - len)
  }

  /** A network as `IpCidr` holds it: the prefix fits the family and the host bits are zero. */
  predicate IsNetwork(c: IpCidr) {
    && c.base.bits < Pow2(Width(c.base))
    && c.len <= Width(c.base)
    && c.base.bits % BlockSize(c.base, c.len) == 0
  }

  type Cidr = c: IpCidr | IsNetwork(c) witness IpCidr(V4(0), 0)

  /** An address with a prefix length, as `IpInet` holds it: host bits may be set. */
  datatype IpInet = IpInet(addr: IpAddr, len: nat)

  type Inet = i: IpInet | i.addr.bits < Pow2(Width(i.addr)) && i.len <= Width(i.addr)
    witness IpInet(V4(0), 0)

  /** `IpCidr::contains`: same family and the same leading `len` bits. */
  predicate Contains(c: Cidr, a: Addr) {
    && a.V4? == c.base.V4?
    && a.bits / BlockSize(c.base, c.len) == c.base.bits / BlockSize(c.base, c.len)
  }

  /** `IpCidr::new_host`: the network of one address. */
  function HostNetwork(a: Addr): (c: Cidr)
    ensures c.base == a && c.len == Width(a)
  {
    IpCidr(a, Width(a))
  }

  /** A host network contains its own address and no other. */
  lemma HostNetworkContains(a: Addr, x: Addr)
    ensures Contains(HostNetwork(a), x) <==> x == a
  {
    assert BlockSize(a, Width(a)) == 1;
  }

  /** `IpInet::network`: the host bits cleared, the prefix length kept. The result is the
      network of that length that holds the address, and nothing above the address. */
  function NetworkOf(i: Inet): (c: Cidr)
    ensures c.len == i.len && c.base.V4? == i.addr.V4?
    ensures Contains(c, i.addr) && c.base.bits <= i.addr.bits
  {
    var p := BlockSize(i.addr, i.len);
    var m := i.addr.bits / p * p;
    RoundDown(i.addr.bits, p);
    var base := WithBits(i.addr, m);
    assert Width(base) == Width(i.addr);
    IpCidr(base, i.len)
  }

  /** The last address of a network still fits the family. */
  lemma NetworkFits(c: Cidr)
    ensures c.base.bits + BlockSize(c.base, c.len) <= Pow2(Width(c.base))
  {
    var w, p := Width(c.base), BlockSize(c.base, c.len);
    var n := Pow2(c.len);
    Pow2Add(c.len, w - c.len);
    assert Pow2(w) == n * p;
    var q := c.base.bits / p;
    DivMod(c.base.bits, p);
    assert c.base.bits == q * p;
    NextMultipleFits(q, n, p);
  }

  /** `IpCidr::iter().addresses()`: every address of the network, from the network address
      up to the broadcast address, one by one. */
  function Addresses(c: Cidr): (r: seq<Addr>)
    ensures |r| == BlockSize(c.base, c.len)
    ensures forall k :: 0 <= k < |r| ==> r[k] == WithBits(c.base, c.base.bits + k)
  {
    seq(BlockSize(c.base, c.len), k requires 0 <= k < BlockSize(c.base, c.len) => Nth(c, k))
  }

  /** The `k`-th address of a network. */
  function Nth(c: Cidr, k: nat): (a: Addr)
    requires k < BlockSize(c.base, c.len)
    ensures a == WithBits(c.base, c.base.bits + k)
  {
    NetworkFits(c);
    WithBits(c.base, c.base.bits + k)
  }

  /** The listing is strictly ascending. */
  lemma AddressesAscending(c: Cidr, i: nat, j: nat)
    requires i < j < BlockSize(c.base, c.len)
    ensures Addresses(c)[i].bits < Addresses(c)[j].bits
  {
  }

  /** The listing holds exactly the addresses the network contains. */
  lemma AddressesExactly(c: Cidr, x: Addr)
    ensures x in Addresses(c) <==> Contains(c, x)
  {
    var r := Addresses(c);
    if x in r {
      var k :| 0 <= k < |r| && r[k] == x;
      ListedIsContained(c, k);
    }
    if Contains(c, x) {
      ContainedIsListed(c, x);
    }
  }

  /** The network address is its block number times the block size. */
  lemma BaseIsMultiple(c: Cidr)
    ensures c.base.bits == c.base.bits / BlockSize(c.base, c.len) * BlockSize(c.base, c.len)
  {
    DivMod(c.base.bits, BlockSize(c.base, c.len));
  }

  lemma ListedIsContained(c: Cidr, k: nat)
    requires k < BlockSize(c.base, c.len)
    ensures Contains(c, Addresses(c)[k])
  {
    var p := BlockSize(c.base, c.len);
    var q := c.base.bits / p;
    BaseIsMultiple(c);
    var x := Addresses(c)[k];
    assert x.bits == q * p + k;
    DivModUnique(x.bits, p, q, k);
  }

  lemma ContainedIsListed(c: Cidr, x: Addr)
    requires Contains(c, x)
    ensures x.bits % BlockSize(c.base, c.len) < |Addresses(c)|
    ensures Addresses(c)[x.bits % BlockSize(c.base, c.len)] == x
  {
    var p := BlockSize(c.base, c.len);
    var q := c.base.bits / p;
    BaseIsMultiple(c);
    var k := x.bits % p;
    DivMod(x.bits, p);
    assert x.bits == c.base.bits + k;
  }

  /** A longer prefix on the same base lists the first addresses of the shorter one. */
  lemma SubnetIsPrefix(c: Cidr, d: Cidr)
    requires d.base == c.base && c.len <= d.len
    ensures |Addresses(d)| <= |Addresses(c)|
    ensures Addresses(d) == Addresses(c)[..|Addresses(d)|]
  {
    Pow2Monotone(Width(c.base) - d.len, Width(c.base) - c.len);
    var big, small := Addresses(c), Addresses(d);
    assert |small| <= |big|;
    forall k | 0 <= k < |small|
      ensures small[k] == big[k]
    {
      assert small[k] == WithBits(c.base, c.base.bits + k);
    }
  }
}

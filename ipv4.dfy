/**
 * IPv4 addresses and networks as the guard uses them through Python's
 * `ipaddress` module: an address is the unsigned 32-bit integer an
 * `IPv4Address` wraps, a network is a strict `IPv4Network` (network address
 * plus prefix length, host bits zero), and `address in network` is the
 * netmask test of section 3.1 of RFC 4632.
 */
module Ipv4 {

  /** The number of IPv4 addresses, 2^32. */
  const AddressCount: nat := 0x1_0000_0000

  /** An IPv4 address as its 32-bit unsigned value. */
  type Address = a: nat | a < AddressCount

  /** One byte of a dotted-quad address. */
  type Octet = n: nat | n < 256

  function Pow2(k: nat): (r: nat)
    ensures r >= 1
  {
    if k == 0 then 1 else Pow2(k - 1) + Pow2(k - 1)
  }

  lemma {:induction false} Pow2Add(m: nat, n: nat)
    ensures Pow2(m + n) == Pow2(m) * Pow2(n)
  {
    if m > 0 {
      Pow2Add(m - 1, n);
      assert Pow2(m + n) == Pow2(m - 1 + n) + Pow2(m - 1 + n);
      Distrib(Pow2(m - 1), Pow2(m - 1), Pow2(n));
    }
  }

  /** The number of addresses in a network whose prefix has this length: 2^(32 - prefix). */
  function BlockSize(prefix: nat): (r: nat)
    requires prefix <= 32
    ensures r >= 1
  {
    Pow2(32 - prefix)
  }

  /** Every block size divides the address space: 2^32 = 2^(32 - prefix) * 2^prefix. */
  lemma BlockSizeDividesSpace(prefix: nat)
    requires prefix <= 32
    ensures Pow2(prefix) * BlockSize(prefix) == AddressCount
  {
    Pow2Add(prefix, 32 - prefix);
    assert Pow2(8) == 256;
    assert Pow2(16) == 0x1_0000;
    assert Pow2(32) == AddressCount;
  }

  /** A CIDR value: a network address and a prefix length. */
  datatype Cidr = Cidr(base: nat, prefix: nat)

  /**
   * What a strict `IPv4Network` guarantees: the prefix is at most 32 bits
   * long and the network address has all its host bits zero.
   */
  predicate IsNetwork(c: Cidr)
  {
    c.base < AddressCount && c.prefix <= 32 && c.base % BlockSize(c.prefix) == 0
  }

  type Network = c: Cidr | IsNetwork(c) witness Cidr(0, 0)

  /** The address ANDed with the netmask of `prefix`, which clears its low 32 - prefix bits. */
  function Masked(addr: Address, prefix: nat): (r: Address)
    requires prefix <= 32
    ensures r <= addr && addr - r < BlockSize(prefix)
    ensures r % BlockSize(prefix) == 0
  {
    RoundDown(addr, BlockSize(prefix));
    addr - addr % BlockSize(prefix)
  }

  /** `addr in net`: the address masked by the network's netmask is the network address. */
  predicate Contains(net: Network, addr: Address)
  {
    Masked(addr, net.prefix) == net.base
  }

  /** The top `prefix` bits of an address, the part that a prefix of that length fixes. */
  function TopBits(addr: nat, prefix: nat): (r: nat)
    requires prefix <= 32
  {
    DivMod(addr, BlockSize(prefix));
    addr / BlockSize(prefix)
  }

  // ---- arithmetic helpers ----

  lemma DivMod(x: nat, b: nat)
    requires b > 0
    ensures x == b * (x / b) + x % b && 0 <= x % b < b && x / b >= 0
  {
  }

  /** Rounding down to a multiple of `b` moves by less than `b`. */
  lemma RoundDown(x: nat, b: nat)
    requires b > 0
    ensures x % b <= x && (x - x % b) % b == 0
  {
    DivMod(x, b);
    MultipleMod(x / b, b);
    assert x - x % b == (x / b) * b;
  }

  lemma MultipleMod(q: nat, b: nat)
    requires b > 0
    ensures (q * b) % b == 0 && (q * b) / b == q
  {
    DivModUnique(q * b, b, q, 0);
  }

  /** Quotient and remainder are unique. */
  lemma DivModUnique(x: nat, b: nat, q: nat, m: nat)
    requires b > 0 && m < b && x == q * b + m
    ensures x / b == q && x % b == m
  {
    var q', m' := x / b, x % b;
    assert x == q' * b + m';
    if q > q' {
      MulGap(q, q', b);
    } else if q < q' {
      MulGap(q', q, b);
    }
  }

  lemma MulGap(k: nat, j: nat, b: nat)
    requires k > j
    ensures k * b >= j * b + b
  {
    Distrib(j, k - j, b);
    MulAtLeast(k - j, b);
  }

  lemma Distrib(j: int, d: int, b: int)
    ensures (j + d) * b == j * b + d * b
  {
  }

  lemma MulAtLeast(k: nat, b: nat)
    requires k >= 1
    ensures k * b >= b
  {
  }

  /** Multiplication by the same factor cancels in a strict comparison. */
  lemma MulLessCancel(q: nat, n: nat, b: nat)
    requires q * b < n * b
    ensures q < n
  {
    if q >= n {
      MulMonotone(n, q, b);
    }
  }

  /** A multiple of `b` below `n * b` leaves room for a whole block of `b` above it. */
  lemma MultipleBelowBound(base: nat, b: nat, n: nat)
    requires b > 0 && base % b == 0 && base < n * b
    ensures base + b <= n * b
  {
    var q := base / b;
    DivMod(base, b);
    assert base == q * b;
    MulLessCancel(q, n, b);
    MulMonotone(q + 1, n, b);
    Distrib(q, 1, b);
  }

  lemma MulMonotone(x: nat, y: nat, b: nat)
    requires x <= y
    ensures x * b <= y * b
  {
    Distrib(x, y - x, b);
  }

  /** An offset below the block size added to a multiple of it is its own remainder. */
  lemma ModOfOffset(base: nat, k: nat, b: nat)
    requires b > 0 && base % b == 0 && k < b
    ensures (base + k) % b == k && (base + k) / b == base / b
  {
    DivMod(base, b);
    DivModUnique(base + k, b, base / b, k);
  }

  // ---- membership, restated ----

  /** Membership is the interval [net.base, net.base + 2^(32 - prefix)). */
  lemma ContainsIffInRange(net: Network, addr: Address)
    ensures Contains(net, addr) <==> net.base <= addr < net.base + BlockSize(net.prefix)
  {
    var b := BlockSize(net.prefix);
    if net.base <= addr < net.base + b {
      ModOfOffset(net.base, addr - net.base, b);
    }
  }

  /**
   * Membership in the terms of section 3.1 of RFC 4632: the address and the
   * network address agree on their top `prefix` bits.
   */
  lemma ContainsIffSameTopBits(net: Network, addr: Address)
    ensures Contains(net, addr) <==> TopBits(addr, net.prefix) == TopBits(net.base, net.prefix)
  {
    var b := BlockSize(net.prefix);
    DivMod(addr, b);
    DivMod(net.base, b);
    if Contains(net, addr) {
      assert net.base == (addr / b) * b;
      MultipleMod(addr / b, b);
    }
    if addr / b == net.base / b {
      assert addr - addr % b == b * (net.base / b) == net.base;
    }
  }

  /** A network never runs past the end of the address space. */
  lemma NetworkFitsInSpace(net: Network)
    ensures net.base + BlockSize(net.prefix) <= AddressCount
  {
    BlockSizeDividesSpace(net.prefix);
    MultipleBelowBound(net.base, BlockSize(net.prefix), Pow2(net.prefix));
  }

  /** The first and the last address of every network lie in it. */
  lemma NetworkBoundaries(net: Network)
    ensures net.base + BlockSize(net.prefix) <= AddressCount
    ensures Contains(net, net.base)
    ensures Contains(net, net.base + BlockSize(net.prefix) - 1)
  {
    NetworkFitsInSpace(net);
    ContainsIffInRange(net, net.base);
    ContainsIffInRange(net, net.base + BlockSize(net.prefix) - 1);
  }
}

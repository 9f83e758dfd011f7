/** The generated cidrsubnet helper: extending a prefix's mask and placing a network
    number in the bits so gained, over the bytes of an address. */
module CidrSubnet {
  import opened Common

  type Byte = x: int | 0 <= x < 256

  /** A parsed prefix: the masked address bytes, 4 or 16 of them, and the mask length. */
  datatype Network = Network(ip: seq<Byte>, ones: nat) {
    function Bits(): nat { 8 * |ip| }
  }

  // ----------------------------------------------------------------- arithmetic

  function Pow2(n: nat): (p: nat)
    ensures p > 0
  {
    if n == 0 then 1 else 2 * Pow2(n - 1)
  }

  lemma {:induction false} Pow2Add(a: nat, b: nat)
    ensures Pow2(a + b) == Pow2(a) * Pow2(b)
  {
    if a > 0 {
      Pow2Add(a - 1, b);
      MulRegroup(2, Pow2(a - 1), Pow2(b));
      assert Pow2(a + b) == 2 * Pow2(a + b - 1);
    }
  }

  lemma MulRegroup(x: nat, y: nat, z: nat)
    ensures x * (y * z) == (x * y) * z
  {
  }

  lemma {:induction false} Pow2Monotone(a: nat, b: nat)
    requires a <= b
    ensures Pow2(a) <= Pow2(b)
    decreases b
  {
    if a < b {
      Pow2Monotone(a, b - 1);
    }
  }

  lemma MulAtMost(a: nat, b: nat, c: nat)
    requires a <= b
    ensures a * c <= b * c
  {
  }

  lemma MulDistributes(a: nat, b: nat, c: nat)
    ensures (a + b) * c == a * c + b * c
  {
  }

  ghost predicate Multiple(a: nat, p: nat) { exists q: nat :: a == q * p }

  lemma MultipleOfFactor(a: nat, x: nat, y: nat)
    requires Multiple(a, x * y)
    ensures Multiple(a, y)
  {
    var q: nat :| a == q * (x * y);
    assert a == (q * x) * y;
  }

  lemma MultipleOfPower(a: nat, m: nat, n: nat)
    requires Multiple(a, Pow2(n)) && m <= n
    ensures Multiple(a, Pow2(m))
  {
    Pow2Add(n - m, m);
    MultipleOfFactor(a, Pow2(n - m), Pow2(m));
  }

  lemma MultipleSum(a: nat, b: nat, p: nat)
    requires Multiple(a, p) && Multiple(b, p)
    ensures Multiple(a + b, p)
  {
    var q: nat :| a == q * p;
    var r: nat :| b == r * p;
    MulDistributes(q, r, p);
    assert a + b == (q + r) * p;
  }

  lemma LargerFactor(q: nat, r: nat, p: nat)
    requires r * p <= q * p && p > 0
    ensures r <= q
  {
    if q < r {
      MulDistributes(q, 1, p);
      MulAtMost(q + 1, r, p);
    }
  }

  lemma MultipleDifference(a: nat, b: nat, p: nat)
    requires Multiple(a + b, p) && Multiple(b, p) && p > 0
    ensures Multiple(a, p)
  {
    var q: nat :| a + b == q * p;
    var r: nat :| b == r * p;
    LargerFactor(q, r, p);
    MulDistributes(q - r, r, p);
    assert a == (q - r) * p;
  }

  lemma BetweenMultiples(m: nat, k: nat, r: nat, j: nat)
    requires 0 < r < m
    ensures k * m + r != j * m
  {
    if j <= k {
      MulAtMost(j, k, m);
    } else {
      MulAtMost(k + 1, j, m);
      MulDistributes(k, 1, m);
    }
  }

  lemma Quotient(d: nat, p: nat) returns (n: nat)
    requires p > 0
    ensures n * p <= d < n * p + p
  {
    n := d / p;
  }

  /** The bitwise or of two integers. */
  function Or(a: nat, b: nat): nat {
    if a == 0 then b
    else if b == 0 then a
    else (if a % 2 == 1 || b % 2 == 1 then 1 else 0) + 2 * Or(a / 2, b / 2)
  }

  /** Where the bits do not overlap, or is addition. */
  lemma {:induction false} OrIsSum(q: nat, k: nat, b: nat)
    requires b < Pow2(k)
    ensures Or(q * Pow2(k), b) == q * Pow2(k) + b
  {
    if k > 0 && q > 0 && b > 0 {
      var half := q * Pow2(k - 1);
      assert q * Pow2(k) == 2 * half;
      OrIsSum(q, k - 1, b / 2);
      assert (2 * half) / 2 == half;
    }
  }

  /** Big-endian bytes as an integer, as big.Int.SetBytes reads them. */
  function IntOf(s: seq<Byte>): nat {
    if s == [] then 0 else 256 * IntOf(s[..|s| - 1]) + s[|s| - 1]
  }

  /** big.Int.Bytes: big-endian, without leading zeros. */
  function Bytes(n: nat): seq<Byte> {
    if n == 0 then [] else Bytes(n / 256) + [n % 256]
  }

  lemma {:induction false} BytesRoundTrip(n: nat)
    ensures IntOf(Bytes(n)) == n
  {
    if n > 0 {
      BytesRoundTrip(n / 256);
      assert Bytes(n)[..|Bytes(n)| - 1] == Bytes(n / 256);
    }
  }

  lemma {:induction false} BytesFit(n: nat, k: nat)
    requires n < Pow2(8 * k)
    ensures |Bytes(n)| <= k
  {
    if n > 0 {
      if k > 0 {
        Pow2Add(8, 8 * (k - 1));
        assert Pow2(8) == 256;
        BytesFit(n / 256, k - 1);
      }
    }
  }

  lemma {:induction false} IntOfAppend(a: seq<Byte>, b: seq<Byte>)
    ensures IntOf(a + b) == IntOf(a) * Pow2(8 * |b|) + IntOf(b)
  {
    if b == [] {
      assert a + b == a;
    } else {
      var init := b[..|b| - 1];
      IntOfAppend(a, init);
      assert (a + b)[..|a + b| - 1] == a + init;
      Pow2Add(8, 8 * |init|);
      assert Pow2(8) == 256;
      assert 256 * (IntOf(a) * Pow2(8 * |init|)) == IntOf(a) * (256 * Pow2(8 * |init|));
    }
  }

  lemma {:induction false} IntOfBound(s: seq<Byte>)
    ensures IntOf(s) < Pow2(8 * |s|)
  {
    if s != [] {
      IntOfBound(s[..|s| - 1]);
      Pow2Add(8, 8 * (|s| - 1));
      assert Pow2(8) == 256;
    }
  }

  lemma {:induction false} ZerosAreZero(s: seq<Byte>)
    requires forall i | 0 <= i < |s| :: s[i] == 0
    ensures IntOf(s) == 0
  {
    if s != [] {
      ZerosAreZero(s[..|s| - 1]);
    }
  }

  // ----------------------------------------------------------------- the prefix

  /** A network as net.ParseCIDR returns it: the host bits are masked off. */
  ghost predicate Parsed(net: Network) {
    |net.ip| in {4, 16} && net.ones <= net.Bits() && Multiple(IntOf(net.ip), Pow2(net.Bits() - net.ones))
  }

  /** An IPv4-mapped IPv6 address, ::ffff:a.b.c.d. */
  predicate Mapped(ip: seq<Byte>) {
    |ip| == 16 && (forall i | 0 <= i < 10 :: ip[i] == 0) && ip[10] == 255 && ip[11] == 255
  }

  /** IP.To4, else IP.To16: the bytes the subnet is computed from. */
  function To4(ip: seq<Byte>): seq<Byte> { if Mapped(ip) then ip[12..] else ip }

  const INT_LIMIT := 0x8000_0000_0000_0000

  /** The arguments that do not panic. */
  predicate Accepted(net: Network, newbits: int, netnum: int) {
    0 <= newbits && net.ones + newbits <= net.Bits() && 0 <= netnum && (newbits < 64 ==> netnum < Pow2(newbits))
  }

  /** Where a subnet starts. */
  function Start(net: Network, newbits: nat, netnum: nat): nat
    requires net.ones + newbits <= net.Bits()
  {
    IntOf(To4(net.ip)) + netnum * SubnetSize(net, newbits)
  }

  function SubnetSize(net: Network, newbits: nat): nat
    requires net.ones + newbits <= net.Bits()
  {
    Pow2(net.Bits() - net.ones - newbits)
  }

  function PrefixSize(net: Network): nat
    requires net.ones <= net.Bits()
  {
    Pow2(net.Bits() - net.ones)
  }

  lemma Pow2Of63()
    ensures Pow2(63) == INT_LIMIT
  {
    Pow2Add(32, 31);
    assert Pow2(31) == 0x8000_0000 by {
      Pow2Add(16, 15);
      assert Pow2(8) == 256;
      Pow2Add(8, 8);
      Pow2Add(8, 7);
    }
    assert Pow2(32) == 2 * Pow2(31);
  }

  /** A network number takes no more than the new bits. */
  lemma NumberFits(net: Network, newbits: nat, netnum: nat)
    requires Accepted(net, newbits, netnum) && netnum < INT_LIMIT
    ensures netnum < Pow2(newbits)
    ensures netnum * SubnetSize(net, newbits) + SubnetSize(net, newbits) <= PrefixSize(net)
  {
    var shift := net.Bits() - net.ones - newbits;
    if newbits >= 64 {
      Pow2Of63();
      Pow2Monotone(63, newbits);
    }
    Pow2Add(newbits, shift);
    MulAtMost(netnum + 1, Pow2(newbits), Pow2(shift));
    MulDistributes(netnum, 1, Pow2(shift));
  }

  /** ::ffff:0:0/96, the addresses that stand for IPv4. */
  lemma MappedIff(ip: seq<Byte>)
    requires |ip| == 16
    ensures Mapped(ip) <==> IntOf(ip[..12]) == 0xffff
  {
    IntOfAppend(ip[..10], ip[10..12]);
    assert ip[..12] == ip[..10] + ip[10..12];
    TwoBytes(ip[10..12]);
    ZeroIff(ip[..10]);
    assert forall i | 0 <= i < 10 :: ip[..10][i] == ip[i];
    Pow2Add(8, 8);
    assert Pow2(8) == 256;
  }

  lemma TwoBytes(s: seq<Byte>)
    requires |s| == 2
    ensures IntOf(s) == 256 * (s[0] as int) + s[1] as int && IntOf(s) < 65536
  {
    assert s[..1] == [s[0]] && s[..1][..0] == [];
    assert IntOf([s[0]]) == 256 * IntOf([]) + s[0];
  }

  lemma {:induction false} ZeroIff(s: seq<Byte>)
    ensures IntOf(s) == 0 <==> forall i | 0 <= i < |s| :: s[i] == 0
  {
    if s != [] {
      ZeroIff(s[..|s| - 1]);
      assert forall i | 0 <= i < |s| - 1 :: s[..|s| - 1][i] == s[i];
    }
  }

  /** A mapped address is ffff over its last four bytes. */
  lemma MappedValue(ip: seq<Byte>)
    requires Mapped(ip)
    ensures IntOf(ip) == 65535 * Pow2(32) + IntOf(ip[12..]) && IntOf(ip[12..]) < Pow2(32)
  {
    var head := ip[..12];
    assert ip == head + ip[12..];
    IntOfAppend(head, ip[12..]);
    IntOfBound(ip[12..]);
    assert head == ip[..10] + [255, 255];
    ZerosAreZero(ip[..10]);
    IntOfAppend(ip[..10], [255, 255]);
    assert [255, 255][..1] == [255] && [255][..0] == [];
    assert IntOf([255]) == 255;
    assert IntOf([255, 255]) == 65535;
  }

  /** So a mapped prefix keeps the ffff: its mask is at least 96 long. */
  lemma MappedMask(net: Network)
    requires Parsed(net) && Mapped(net.ip)
    ensures net.ones >= 96
  {
    if net.ones < 96 {
      MultipleOfPower(IntOf(net.ip), 33, 128 - net.ones);
      var j: nat :| IntOf(net.ip) == j * Pow2(33);
      OddHalf(net.ip, j);
      assert false;
    }
  }

  lemma OddHalf(ip: seq<Byte>, j: nat)
    requires Mapped(ip)
    ensures IntOf(ip) != j * Pow2(33)
  {
    MappedValue(ip);
    var half := Pow2(32);
    assert Pow2(33) == 2 * half;
    BetweenMultiples(2 * half, 32767, half + IntOf(ip[12..]), j);
  }

  /** The bytes the subnet is computed from still have the host bits clear. */
  lemma MaskedBase(net: Network)
    requires Parsed(net)
    ensures Multiple(IntOf(To4(net.ip)), Pow2(net.Bits() - net.ones))
    ensures IntOf(To4(net.ip)) <= IntOf(net.ip)
  {
    if Mapped(net.ip) {
      MappedValue(net.ip);
      MappedMask(net);
      assert Multiple(65535 * Pow2(32), Pow2(32));
      MultipleOfPower(65535 * Pow2(32), 128 - net.ones, 32);
      MultipleDifference(IntOf(net.ip[12..]), 65535 * Pow2(32), Pow2(128 - net.ones));
    }
  }

  /** The whole prefix fits the address width. */
  lemma BaseBelowLast(net: Network, q: nat)
    requires Parsed(net) && IntOf(To4(net.ip)) == q * Pow2(net.Bits() - net.ones)
    ensures IntOf(To4(net.ip)) + Pow2(net.Bits() - net.ones) <= Pow2(net.Bits())
  {
    var host := net.Bits() - net.ones;
    MaskedBase(net);
    IntOfBound(net.ip);
    Pow2Add(net.ones, host);
    var p, n := Pow2(host), Pow2(net.ones);
    if q + 1 > n {
      MulAtMost(n, q, p);
    } else {
      MulAtMost(q + 1, n, p);
      MulDistributes(q, 1, p);
    }
  }

  /** The or the code computes is the sum, and the sum fits the address. */
  lemma OrIsStart(net: Network, newbits: nat, netnum: nat)
    requires Parsed(net) && Accepted(net, newbits, netnum) && netnum < INT_LIMIT
    ensures Or(IntOf(To4(net.ip)), netnum * SubnetSize(net, newbits)) == Start(net, newbits, netnum)
    ensures Start(net, newbits, netnum) < Pow2(net.Bits())
  {
    NumberFits(net, newbits, netnum);
    MaskedBase(net);
    var q: nat :| IntOf(To4(net.ip)) == q * PrefixSize(net);
    OrIsSum(q, net.Bits() - net.ones, netnum * SubnetSize(net, newbits));
    BaseBelowLast(net, q);
  }

  lemma PaddedValue(full: seq<Byte>, bytes: seq<Byte>)
    requires |bytes| <= |full|
    requires forall k | 0 <= k < |full| - |bytes| :: full[k] == 0
    requires forall k | 0 <= k < |bytes| :: full[|full| - |bytes| + k] == bytes[k]
    ensures IntOf(full) == IntOf(bytes)
  {
    var pad := full[..|full| - |bytes|];
    assert full == pad + bytes by {
      assert full[|full| - |bytes|..] == bytes;
    }
    IntOfAppend(pad, bytes);
    ZerosAreZero(pad);
    ZeroTimes(IntOf(pad), Pow2(8 * |bytes|));
  }

  lemma ZeroTimes(z: nat, p: nat)
    requires z == 0
    ensures z * p == 0
  {
  }

  /** The result's bytes copied to the end of a buffer as wide as the address. */
  method FullBytes(value: nat, width: nat) returns (full: array<Byte>)
    requires value < Pow2(8 * width)
    ensures full.Length == width && IntOf(full[..]) == value
  {
    var resultBytes := Bytes(value);
    BytesFit(value, width);
    BytesRoundTrip(value);
    full := CopyToEnd(resultBytes, width);
    PaddedValue(full[..], resultBytes);
  }

  method CopyToEnd(bytes: seq<Byte>, width: nat) returns (full: array<Byte>)
    requires |bytes| <= width
    ensures full.Length == width
    ensures forall k | 0 <= k < width - |bytes| :: full[k] == 0
    ensures forall k | 0 <= k < |bytes| :: full[width - |bytes| + k] == bytes[k]
  {
    full := new Byte[width](_ => 0);
    var pad := width - |bytes|;
    for i := 0 to |bytes|
      invariant forall k | 0 <= k < pad :: full[k] == 0
      invariant forall k | 0 <= k < i :: full[pad + k] == bytes[k]
    {
      full[pad + i] := bytes[i];
    }
  }

  /** The generated function; None is its panic. */
  method Cidrsubnet(net: Network, newbits: int, netnum: int) returns (r: Option<Network>)
    requires Parsed(net) && netnum < INT_LIMIT
    ensures r.Some? <==> Accepted(net, newbits, netnum)
    ensures r.Some? ==> r.value.ones == net.ones + newbits && |r.value.ip| == |net.ip|
                        && IntOf(r.value.ip) == Start(net, newbits, netnum)
  {
    var ones, bits := net.ones, net.Bits();
    var newOnes := ones + newbits;
    if newbits < 0 || newOnes > bits {
      return None;
    }
    if netnum < 0 || (newbits < 64 && netnum >= Pow2(newbits)) {
      return None;
    }
    var ipInt := IntOf(To4(net.ip));
    var shift := bits - newOnes;
    ipInt := Or(ipInt, netnum * Pow2(shift));
    OrIsStart(net, newbits, netnum);
    var full := FullBytes(ipInt, bits / 8);
    return Some(Network(full[..], newOnes));
  }

  // -------------------------------------------------------------------- what it means

  predicate Within(x: nat, start: nat, size: nat) { start <= x < start + size }

  lemma MappedEscapes(net: Network, newbits: nat, netnum: nat)
    requires Parsed(net) && Mapped(net.ip) && Accepted(net, newbits, netnum) && netnum < INT_LIMIT
    ensures Start(net, newbits, netnum) < IntOf(net.ip)
  {
    MappedValue(net.ip);
    MappedMask(net);
    Pow2Monotone(net.Bits() - net.ones, 32);
    NumberFits(net, newbits, netnum);
  }

  /** The exact condition: an accepted subnet lies inside its prefix if and only if the
      prefix is not an IPv4-mapped IPv6 one, whose ffff the conversion drops. */
  lemma SubnetInsidePrefixIff(net: Network, newbits: nat, netnum: nat)
    requires Parsed(net) && Accepted(net, newbits, netnum) && netnum < INT_LIMIT
    ensures var s := Start(net, newbits, netnum);
      (IntOf(net.ip) <= s && s + SubnetSize(net, newbits) <= IntOf(net.ip) + PrefixSize(net)) <==> !Mapped(net.ip)
  {
    if Mapped(net.ip) {
      MappedEscapes(net, newbits, netnum);
    } else {
      PlainInside(net, newbits, netnum);
    }
  }

  lemma PlainInside(net: Network, newbits: nat, netnum: nat)
    requires Parsed(net) && !Mapped(net.ip) && Accepted(net, newbits, netnum) && netnum < INT_LIMIT
    ensures IntOf(net.ip) <= Start(net, newbits, netnum)
    ensures Start(net, newbits, netnum) + SubnetSize(net, newbits) <= IntOf(net.ip) + PrefixSize(net)
  {
    NumberFits(net, newbits, netnum);
  }

  /** It is itself a masked network of the longer mask. */
  lemma SubnetIsMasked(net: Network, newbits: nat, netnum: nat)
    requires Parsed(net) && Accepted(net, newbits, netnum)
    ensures Multiple(Start(net, newbits, netnum), SubnetSize(net, newbits))
  {
    MaskedBase(net);
    MultipleOfPower(IntOf(To4(net.ip)), net.Bits() - net.ones - newbits, net.Bits() - net.ones);
    assert Multiple(netnum * SubnetSize(net, newbits), SubnetSize(net, newbits));
    MultipleSum(IntOf(To4(net.ip)), netnum * SubnetSize(net, newbits), SubnetSize(net, newbits));
  }

  /** Different network numbers give ranges that do not meet. */
  lemma SubnetsAreDisjoint(net: Network, newbits: nat, a: nat, b: nat, x: nat)
    requires net.ones + newbits <= net.Bits() && a != b
    ensures !(Within(x, Start(net, newbits, a), SubnetSize(net, newbits))
              && Within(x, Start(net, newbits, b), SubnetSize(net, newbits)))
  {
    var p := SubnetSize(net, newbits);
    var low, high := if a < b then a else b, if a < b then b else a;
    MulAtMost(low + 1, high, p);
    MulDistributes(low, 1, p);
  }

  ghost predicate Covered(net: Network, newbits: nat, x: nat)
    requires net.ones + newbits <= net.Bits()
  {
    exists netnum: nat :: netnum < INT_LIMIT && Accepted(net, newbits, netnum)
      && Within(x, Start(net, newbits, netnum), SubnetSize(net, newbits))
  }

  lemma NumberBelow(n: nat, d: nat, newbits: nat, shift: nat)
    requires n * Pow2(shift) <= d < Pow2(newbits + shift) && newbits < 64
    ensures n < Pow2(newbits) <= INT_LIMIT
  {
    Pow2Add(newbits, shift);
    if n >= Pow2(newbits) {
      MulAtMost(Pow2(newbits), n, Pow2(shift));
    }
    Pow2Of63();
    Pow2Monotone(newbits, 63);
  }

  lemma AddressIsCovered(net: Network, newbits: nat, x: nat)
    requires !Mapped(net.ip) && net.ones + newbits <= net.Bits() && newbits < 64
    requires Within(x, IntOf(net.ip), PrefixSize(net))
    ensures Covered(net, newbits, x)
  {
    var shift := net.Bits() - net.ones - newbits;
    var n := Quotient(x - IntOf(net.ip), Pow2(shift));
    NumberBelow(n, x - IntOf(net.ip), newbits, shift);
    assert Accepted(net, newbits, n) && Within(x, Start(net, newbits, n), SubnetSize(net, newbits));
  }

  lemma LastIsNotCovered(net: Network, newbits: nat)
    requires Parsed(net) && !Mapped(net.ip) && net.ones + newbits <= net.Bits() && newbits >= 64
    ensures !Covered(net, newbits, IntOf(net.ip) + PrefixSize(net) - 1)
  {
    var p := SubnetSize(net, newbits);
    var x := IntOf(net.ip) + PrefixSize(net) - 1;
    Pow2Add(newbits, net.Bits() - net.ones - newbits);
    Pow2Of63();
    Pow2Monotone(64, newbits);
    assert Pow2(64) == 2 * INT_LIMIT;
    forall netnum: nat | netnum < INT_LIMIT ensures !Within(x, Start(net, newbits, netnum), p) {
      MulAtMost(netnum + 2, Pow2(newbits), p);
      MulDistributes(netnum + 1, 1, p);
      MulDistributes(netnum, 1, p);
    }
  }

  /** The subnets cover the prefix exactly when the new bits stay under 64: past that, a
      network number cannot reach the upper ones. */
  lemma SubnetsCoverIff(net: Network, newbits: nat)
    requires Parsed(net) && !Mapped(net.ip) && net.ones + newbits <= net.Bits()
    ensures (forall x | Within(x, IntOf(net.ip), PrefixSize(net)) :: Covered(net, newbits, x)) <==> newbits < 64
  {
    if newbits < 64 {
      forall x | Within(x, IntOf(net.ip), PrefixSize(net)) ensures Covered(net, newbits, x) {
        AddressIsCovered(net, newbits, x);
      }
    } else {
      LastIsNotCovered(net, newbits);
      assert Within(IntOf(net.ip) + PrefixSize(net) - 1, IntOf(net.ip), PrefixSize(net));
    }
  }
}

/**
 * The parts of Go's `net` package that webshare relies on: an IP address is a
 * byte slice (4 bytes for IPv4, 16 for IPv6, with IPv4 addresses often kept in
 * the 16-byte IPv4-mapped form), a CIDR block is a network number and a mask,
 * and `Contains` compares masked bytes.  The main theorem of this module,
 * `ContainsIffAgreeTop`, states that this byte-wise test is exactly CIDR
 * membership in the sense of section 3.1 of RFC 4632: the address agrees with
 * the block's base address on the top `ones` bits.
 */
module Net {
  import opened Wrappers
  import opened Bits

  /** Go's net.IP. */
  type IP = seq<byte>

  const IPv4Len: nat := 4
  const IPv6Len: nat := 16

  /** The twelve bytes that precede an IPv4 address in its IPv4-mapped IPv6 form. */
  const V4InV6Prefix: seq<byte> := [0, 0, 0, 0, 0, 0, 0, 0, 0, 0, 0xff, 0xff]

  /** net.IPv4(a, b, c, d): the 16-byte IPv4-mapped form of a 4-byte address. */
  function IPv4(a: IP): (ip: IP)
    requires |a| == IPv4Len
    ensures |ip| == IPv6Len && ip[..12] == V4InV6Prefix && ip[12..] == a
  {
    V4InV6Prefix + a
  }

  /**
   * ip.To4(): the 4-byte form of an IPv4 address, or None (Go's nil) for
   * anything else.  Go tests the first ten bytes for zero and the next two for
   * 0xff, which is the comparison with V4InV6Prefix.
   */
  function To4(ip: IP): (r: Option<IP>)
    ensures r.Some? <==> |ip| == IPv4Len || (|ip| == IPv6Len && ip[..12] == V4InV6Prefix)
    ensures r.Some? ==> |r.value| == IPv4Len && r.value == ip[|ip| - 4..]
  {
    if |ip| == IPv4Len then Some(ip)
    else if |ip| == IPv6Len && ip[..12] == V4InV6Prefix then Some(ip[12..])
    else None
  }

  /** The IPv4 address of a 16-byte IPv4-mapped address is recovered by To4. */
  lemma To4IPv4RoundTrip(a: IP)
    requires |a| == IPv4Len
    ensures To4(IPv4(a)) == Some(a)
    ensures To4(a) == Some(a)
  {
  }

  /** The form in which Contains and the address tests look at an address. */
  function Canonical(ip: IP): (c: IP)
    ensures To4(ip).Some? ==> |c| == IPv4Len
    ensures To4(ip).None? ==> c == ip
  {
    match To4(ip)
    case Some(x) => x
    case None => ip
  }

  // ---------------------------------------------------------------------------
  // Masks and blocks

  function ClampBits(x: int): (k: nat)
    ensures k <= 8
  {
    if x < 0 then 0 else if x > 8 then 8 else x
  }

  /** net.CIDRMask(ones, bits): `ones` 1 bits followed by 0 bits, `bits` bits in all. */
  function CIDRMask(ones: nat, bits: nat): (m: seq<byte>)
    requires bits == 8 * IPv4Len || bits == 8 * IPv6Len
    requires ones <= bits
    ensures 8 * |m| == bits
    ensures forall k :: 0 <= k < bits ==> (Bit(m, k) <==> k < ones)
  {
    var m := seq(bits / 8, i => MaskByte(ClampBits(ones - 8 * i)));
    assert forall k :: 0 <= k < bits ==> (Bit(m, k) <==> k < ones) by {
      forall k | 0 <= k < bits ensures Bit(m, k) <==> k < ones {
        var i, j := k / 8, k % 8;
        assert k == 8 * i + j;
        MaskByteBit(ClampBits(ones - 8 * i), j);
      }
    }
    m
  }

  /** A mask byte wholly inside the first `ones` bits is 0xff; one wholly after them is 0. */
  lemma CIDRMaskWholeBytes(ones: nat, bits: nat)
    requires bits == 8 * IPv4Len || bits == 8 * IPv6Len
    requires ones <= bits
    ensures forall i :: 0 <= i < bits / 8 && 8 * i + 8 <= ones ==> CIDRMask(ones, bits)[i] == 0xff
    ensures forall i :: 0 <= i < bits / 8 && ones <= 8 * i ==> CIDRMask(ones, bits)[i] == 0
  {
    var m := CIDRMask(ones, bits);
    forall i | 0 <= i < bits / 8
      ensures m[i] == MaskByte(ClampBits(ones - 8 * i))
    {
    }
    assert MaskByte(8) == 0xff && MaskByte(0) == 0;
  }

  /** ip.Mask(m) for an address and a mask of the same length. */
  function ApplyMask(ip: IP, m: seq<byte>): (r: IP)
    requires |ip| == |m|
    ensures |r| == |ip|
    ensures forall i :: 0 <= i < |r| ==> r[i] == ip[i] & m[i]
  {
    seq(|ip|, i requires 0 <= i < |ip| => ip[i] & m[i])
  }

  /** net.IPNet: a network number and its mask. */
  datatype IPNet = IPNet(ip: IP, mask: seq<byte>)

  /**
   * A CIDR literal after its address text has been read: the address bytes
   * (4 for a dotted-quad address, 16 for an IPv6 address) and the number after
   * the slash.
   */
  datatype CidrLiteral = CidrLiteral(addr: IP, ones: int)

  /**
   * The blocks Contains handles in the usual way: an IPv4 block of 4 bytes, or
   * an IPv6 block that is not IPv4-mapped, with a mask of the same length.
   */
  predicate WellFormed(n: IPNet) {
    && (|n.ip| == IPv4Len || (|n.ip| == IPv6Len && To4(n.ip).None?))
    && |n.mask| == |n.ip|
  }

  /**
   * net.ParseCIDR, once the address text is read: the prefix length must lie
   * between 0 and the address width, and the block is the address masked by
   * CIDRMask.  An address of neither width stands for an unparsable address.
   */
  function ParseCidr(lit: CidrLiteral): (r: Result<IPNet, CidrLiteral>)
    ensures r.Failure? <==>
      (|lit.addr| != IPv4Len && |lit.addr| != IPv6Len) || lit.ones < 0 || lit.ones > 8 * |lit.addr|
    ensures r.Failure? ==> r.error == lit
    ensures r.Success? ==> |r.value.ip| == |r.value.mask| == |lit.addr|
    ensures r.Success? && (|lit.addr| == IPv4Len || To4(lit.addr).None?) ==> WellFormed(r.value)
  {
    if (|lit.addr| != IPv4Len && |lit.addr| != IPv6Len) || lit.ones < 0 || lit.ones > 8 * |lit.addr| then
      Failure(lit)
    else
      var m := CIDRMask(lit.ones, 8 * |lit.addr|);
      var nn := ApplyMask(lit.addr, m);
      assert |nn| == IPv6Len && To4(lit.addr).None? ==> To4(nn).None? by {
        if |nn| == IPv6Len && To4(lit.addr).None? {
          MaskedV6StaysUnmapped(lit.addr, lit.ones);
        }
      }
      Success(IPNet(nn, m))
  }

  /**
   * Masking an IPv6 address that is not IPv4-mapped never yields an
   * IPv4-mapped network number: byte 11 can only stay 0xff under a mask that
   * keeps the first twelve bytes whole.
   */
  lemma MaskedV6StaysUnmapped(addr: IP, ones: nat)
    requires |addr| == IPv6Len && addr[..12] != V4InV6Prefix && ones <= 8 * IPv6Len
    ensures ApplyMask(addr, CIDRMask(ones, 8 * IPv6Len))[..12] != V4InV6Prefix
  {
    var m := CIDRMask(ones, 8 * IPv6Len);
    var nn := ApplyMask(addr, m);
    if ones >= 96 {
      forall i | 0 <= i < 12 ensures nn[i] == addr[i] {
        assert m[i] == MaskByte(8);
      }
      assert nn[..12] == addr[..12];
    } else {
      var k := ClampBits(ones - 88);
      assert m[11] == MaskByte(k) && k < 8;
      NotAllOnesUnder(addr[11], k);
      assert nn[..12][11] != V4InV6Prefix[11];
    }
  }

  lemma NotAllOnesUnder(x: byte, k: nat)
    requires k < 8
    ensures x & MaskByte(k) != 0xff
  {
    match k
    case 0 => case 1 => case 2 => case 3 => case 4 => case 5 => case 6 => case _ =>
  }

  /**
   * (*IPNet).Contains: the address, in its 4-byte form when it is an IPv4
   * address, has the block's length and equals the network number on every
   * masked byte.
   */
  predicate Contains(n: IPNet, ip: IP)
    requires WellFormed(n)
  {
    var x := Canonical(ip);
    |x| == |n.ip| && forall i :: 0 <= i < |x| ==> AgreeUnder(n.ip[i], x[i], n.mask[i])
  }

  // ---------------------------------------------------------------------------
  // Bits, most significant first

  /** Bit k of an address, counting from its most significant bit. */
  predicate Bit(a: IP, k: nat)
    requires k < 8 * |a|
  {
    ByteBit(a[k / 8], k % 8)
  }

  /** a and b agree on their top p bits. */
  predicate AgreeTop(a: IP, b: IP, p: nat)
    requires |a| == |b| && p <= 8 * |a|
  {
    forall k :: 0 <= k < p ==> Bit(a, k) == Bit(b, k)
  }

  /** Byte-wise comparison under CIDRMask(ones) is agreement on the top `ones` bits. */
  lemma MaskedEqualIffAgreeTop(a: IP, b: IP, ones: nat)
    requires |a| == |b| && (|a| == IPv4Len || |a| == IPv6Len) && ones <= 8 * |a|
    ensures (forall i :: 0 <= i < |a| ==> AgreeUnder(a[i], b[i], CIDRMask(ones, 8 * |a|)[i]))
            <==> AgreeTop(a, b, ones)
  {
    var m := CIDRMask(ones, 8 * |a|);
    forall i | 0 <= i < |a|
      ensures AgreeUnder(a[i], b[i], m[i]) <==>
              (forall j :: 0 <= j < ClampBits(ones - 8 * i) ==> ByteBit(a[i], j) == ByteBit(b[i], j))
    {
      MaskedByteIff(a[i], b[i], ClampBits(ones - 8 * i));
    }
    if forall i :: 0 <= i < |a| ==> AgreeUnder(a[i], b[i], m[i]) {
      forall k | 0 <= k < ones ensures Bit(a, k) == Bit(b, k) {
        var i, j := k / 8, k % 8;
        assert k == 8 * i + j;
        assert j < ClampBits(ones - 8 * i);
      }
    }
    if AgreeTop(a, b, ones) {
      forall i | 0 <= i < |a| ensures AgreeUnder(a[i], b[i], m[i]) {
        forall j | 0 <= j < ClampBits(ones - 8 * i) ensures ByteBit(a[i], j) == ByteBit(b[i], j) {
          var k := 8 * i + j;
          assert k / 8 == i && k % 8 == j;
          assert Bit(a, k) == Bit(b, k);
        }
      }
    }
  }

  /**
   * CIDR membership (section 3.1 of RFC 4632): an address is in the block
   * parsed from `addr/ones` iff, in its canonical form, it has the block's
   * width and agrees with `addr` on the top `ones` bits.
   */
  lemma ContainsIffAgreeTop(lit: CidrLiteral, ip: IP)
    requires |lit.addr| == IPv4Len || (|lit.addr| == IPv6Len && To4(lit.addr).None?)
    requires 0 <= lit.ones <= 8 * |lit.addr|
    ensures ParseCidr(lit).Success? && WellFormed(ParseCidr(lit).value)
    ensures Contains(ParseCidr(lit).value, ip) <==>
            |Canonical(ip)| == |lit.addr| && AgreeTop(Canonical(ip), lit.addr, lit.ones)
  {
    var n := ParseCidr(lit).value;
    var x := Canonical(ip);
    if |x| == |lit.addr| {
      var m := n.mask;
      forall i | 0 <= i < |x| ensures AgreeUnder(n.ip[i], x[i], m[i]) <==> AgreeUnder(x[i], lit.addr[i], m[i]) {
        assert n.ip[i] == lit.addr[i] & m[i];
      }
      MaskedEqualIffAgreeTop(x, lit.addr, lit.ones);
    }
  }

  /** Membership depends only on the top `ones` bits of the address. */
  lemma SameTopBitsSameMembership(lit: CidrLiteral, a: IP, b: IP)
    requires |lit.addr| == IPv4Len || (|lit.addr| == IPv6Len && To4(lit.addr).None?)
    requires 0 <= lit.ones <= 8 * |lit.addr|
    requires |Canonical(a)| == |Canonical(b)| == |lit.addr|
    requires AgreeTop(Canonical(a), Canonical(b), lit.ones)
    ensures ParseCidr(lit).Success? && WellFormed(ParseCidr(lit).value)
    ensures Contains(ParseCidr(lit).value, a) <==> Contains(ParseCidr(lit).value, b)
  {
    ContainsIffAgreeTop(lit, a);
    ContainsIffAgreeTop(lit, b);
  }

  // ---------------------------------------------------------------------------
  // Address tests used by isPrivateIP

  const IPv6Loopback: IP := [0, 0, 0, 0, 0, 0, 0, 0, 0, 0, 0, 0, 0, 0, 0, 1]

  /** ip.IsLoopback(): 127.0.0.0/8, or ::1. */
  predicate IsLoopback(ip: IP) {
    match To4(ip)
    case Some(a) => a[0] == 127
    case None => ip == IPv6Loopback
  }

  /** ip.IsLinkLocalUnicast(): 169.254.0.0/16, or fe80::/10. */
  predicate IsLinkLocalUnicast(ip: IP) {
    match To4(ip)
    case Some(a) => a[0] == 169 && a[1] == 254
    case None => |ip| == IPv6Len && ip[0] == 0xfe && ip[1] & 0xc0 == 0x80
  }

  /** ip.IsLinkLocalMulticast(): 224.0.0.0/24, or ffx2::/16 (ff02::/16 with any flag bits). */
  predicate IsLinkLocalMulticast(ip: IP) {
    match To4(ip)
    case Some(a) => a[0] == 224 && a[1] == 0 && a[2] == 0
    case None => |ip| == IPv6Len && ip[0] == 0xff && ip[1] & 0x0f == 0x02
  }
}

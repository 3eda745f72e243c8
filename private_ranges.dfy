/**
 * webshare's private-address classifier: the built-in table of reserved
 * blocks, the start-up loop that parses it, and isPrivateIP.  For IPv4
 * addresses the classifier is proved to accept exactly 127/8, 10/8,
 * 172.16/12, 192.168/16, 169.254/16 and 224.0.0/24.
 */
module PrivateRanges {
  import opened Wrappers
  import opened Bits
  import opened Net

  /**
   * The built-in table, in its order, each entry after its address text has
   * been read: the address bytes and the prefix length.
   */
  const PrivateCidrs: seq<CidrLiteral> := [
    CidrLiteral([127, 0, 0, 0], 8),    // 127.0.0.0/8, IPv4 loopback
    CidrLiteral([10, 0, 0, 0], 8),     // 10.0.0.0/8, RFC 1918
    CidrLiteral([172, 16, 0, 0], 12),  // 172.16.0.0/12, RFC 1918
    CidrLiteral([192, 168, 0, 0], 16), // 192.168.0.0/16, RFC 1918
    CidrLiteral([169, 254, 0, 0], 16), // 169.254.0.0/16, RFC 3927 link-local
    CidrLiteral(IPv6Loopback, 128),    // ::1/128, IPv6 loopback
    CidrLiteral([0xfe, 0x80, 0, 0, 0, 0, 0, 0, 0, 0, 0, 0, 0, 0, 0, 0], 10), // fe80::/10, IPv6 link-local
    CidrLiteral([0xfc, 0, 0, 0, 0, 0, 0, 0, 0, 0, 0, 0, 0, 0, 0, 0], 7)      // fc00::/7, IPv6 unique local
  ]

  /**
   * setupPrivateIPBlocks: parse every entry of the table, in order.  Go panics
   * on the first entry that does not parse; here that entry is returned as
   * the Failure.
   */
  method SetupPrivateIPBlocks(table: seq<CidrLiteral>) returns (r: Result<seq<IPNet>, CidrLiteral>)
    ensures r.Success? <==> forall i :: 0 <= i < |table| ==> ParseCidr(table[i]).Success?
    ensures r.Success? ==>
      |r.value| == |table| && forall i :: 0 <= i < |table| ==> ParseCidr(table[i]) == Success(r.value[i])
    ensures r.Failure? ==>
      exists i :: 0 <= i < |table| && r.error == table[i] && ParseCidr(table[i]).Failure? &&
        forall j :: 0 <= j < i ==> ParseCidr(table[j]).Success?
  {
    var blocks: seq<IPNet> := [];
    for i := 0 to |table|
      invariant |blocks| == i
      invariant forall j :: 0 <= j < i ==> ParseCidr(table[j]) == Success(blocks[j])
    {
      var block := ParseCidr(table[i]);
      if block.Failure? {
        return Failure(table[i]);
      }
      blocks := blocks + [block.value];
    }
    return Success(blocks);
  }

  /** Every entry of the built-in table parses into a well-formed block, so Go's panic never happens. */
  lemma BuiltinTableParses()
    ensures forall i :: 0 <= i < |PrivateCidrs| ==>
      ParseCidr(PrivateCidrs[i]).Success? && WellFormed(ParseCidr(PrivateCidrs[i]).value)
  {
    forall i | 0 <= i < |PrivateCidrs|
      ensures ParseCidr(PrivateCidrs[i]).Success? && WellFormed(ParseCidr(PrivateCidrs[i]).value)
    {
      var lit := PrivateCidrs[i];
      assert |lit.addr| == IPv6Len ==> lit.addr[11] != 0xff;
    }
  }

  /** privateIPBlocks once init has run: the parsed table. */
  function PrivateIPBlocks(): (blocks: seq<IPNet>)
    ensures |blocks| == |PrivateCidrs|
    ensures forall i :: 0 <= i < |blocks| ==> ParseCidr(PrivateCidrs[i]) == Success(blocks[i]) && WellFormed(blocks[i])
  {
    BuiltinTableParses();
    seq(|PrivateCidrs|, i requires 0 <= i < |PrivateCidrs| => ParseCidr(PrivateCidrs[i]).value)
  }

  /** The package's init: the built-in table always parses, and the blocks it yields are PrivateIPBlocks(). */
  method InitPrivateIPBlocks() returns (blocks: seq<IPNet>)
    ensures blocks == PrivateIPBlocks()
  {
    BuiltinTableParses();
    var r := SetupPrivateIPBlocks(PrivateCidrs);
    assert r.Success?;
    blocks := r.value;
  }

  /** The scan of isPrivateIP over the blocks: some block contains the address. */
  function AnyBlockContains(blocks: seq<IPNet>, ip: IP): (r: bool)
    requires forall i :: 0 <= i < |blocks| ==> WellFormed(blocks[i])
    ensures r <==> exists i :: 0 <= i < |blocks| && Contains(blocks[i], ip)
  {
    if blocks == [] then false
    else Contains(blocks[0], ip) || AnyBlockContains(blocks[1..], ip)
  }

  /** isPrivateIP: the three direct tests, then the table. */
  predicate IsPrivateIP(ip: IP) {
    || IsLoopback(ip)
    || IsLinkLocalUnicast(ip)
    || IsLinkLocalMulticast(ip)
    || AnyBlockContains(PrivateIPBlocks(), ip)
  }

  /** The reserved IPv4 ranges, stated on the four octets. */
  predicate InReservedV4Range(a: IP)
    requires |a| == IPv4Len
  {
    || a[0] == 127                             // 127.0.0.0/8
    || a[0] == 10                              // 10.0.0.0/8
    || (a[0] == 172 && 16 <= a[1] <= 31)       // 172.16.0.0/12
    || (a[0] == 192 && a[1] == 168)            // 192.168.0.0/16
    || (a[0] == 169 && a[1] == 254)            // 169.254.0.0/16
    || (a[0] == 224 && a[1] == 0 && a[2] == 0) // 224.0.0.0/24
  }

  /** Containment in a 4-byte block, one byte at a time. */
  lemma ContainsFourBytes(n: IPNet, ip: IP)
    requires WellFormed(n) && |n.ip| == IPv4Len
    ensures Contains(n, ip) <==>
      var a := Canonical(ip);
      && |a| == IPv4Len
      && AgreeUnder(n.ip[0], a[0], n.mask[0]) && AgreeUnder(n.ip[1], a[1], n.mask[1])
      && AgreeUnder(n.ip[2], a[2], n.mask[2]) && AgreeUnder(n.ip[3], a[3], n.mask[3])
  {
    var a := Canonical(ip);
    if |a| == IPv4Len && !Contains(n, ip) {
      var i :| 0 <= i < IPv4Len && !AgreeUnder(n.ip[i], a[i], n.mask[i]);
      assert i == 0 || i == 1 || i == 2 || i == 3;
    }
  }

  /** The network number and mask of the IPv4 entry `addr/ones` of the table. */
  lemma V4BlockValue(i: nat, mask: seq<byte>)
    requires i < 5
    requires mask == [MaskByte(ClampBits(PrivateCidrs[i].ones)), MaskByte(ClampBits(PrivateCidrs[i].ones - 8)),
                      MaskByte(ClampBits(PrivateCidrs[i].ones - 16)), MaskByte(ClampBits(PrivateCidrs[i].ones - 24))]
    ensures PrivateIPBlocks()[i].mask == mask
    ensures PrivateIPBlocks()[i].ip == ApplyMask(PrivateCidrs[i].addr, mask)
  {
    var lit := PrivateCidrs[i];
    var m := CIDRMask(lit.ones, 32);
    assert m == mask by {
      assert |m| == 4;
      forall k | 0 <= k < 4 ensures m[k] == mask[k] {
        if k == 0 {} else if k == 1 {} else if k == 2 {} else {}
      }
    }
  }

  /** No IPv6 block of the table contains an IPv4 address. */
  lemma V6BlocksMissV4(i: nat, ip: IP)
    requires 5 <= i < |PrivateCidrs| && To4(ip).Some?
    ensures !Contains(PrivateIPBlocks()[i], ip)
  {
    assert |PrivateIPBlocks()[i].ip| == IPv6Len;
  }

  lemma LoopbackBlock(ip: IP)
    requires To4(ip).Some?
    ensures Contains(PrivateIPBlocks()[0], ip) <==> To4(ip).value[0] == 127
  {
    V4BlockValue(0, [0xff, 0, 0, 0]);
    assert PrivateIPBlocks()[0].ip == [127, 0, 0, 0];
    ContainsFourBytes(PrivateIPBlocks()[0], ip);
  }

  lemma TenBlock(ip: IP)
    requires To4(ip).Some?
    ensures Contains(PrivateIPBlocks()[1], ip) <==> To4(ip).value[0] == 10
  {
    V4BlockValue(1, [0xff, 0, 0, 0]);
    assert PrivateIPBlocks()[1].ip == [10, 0, 0, 0];
    ContainsFourBytes(PrivateIPBlocks()[1], ip);
  }

  lemma OneSevenTwoBlock(ip: IP)
    requires To4(ip).Some?
    ensures Contains(PrivateIPBlocks()[2], ip) <==> To4(ip).value[0] == 172 && 16 <= To4(ip).value[1] <= 31
  {
    V4BlockValue(2, [0xff, 0xf0, 0, 0]);
    assert PrivateIPBlocks()[2].ip == [172, 16, 0, 0];
    ContainsFourBytes(PrivateIPBlocks()[2], ip);
    SecondOctetOf172(To4(ip).value[1]);
  }

  lemma SecondOctetOf172(x: byte)
    ensures AgreeUnder(16, x, 0xf0) <==> 16 <= x <= 31
  {
  }

  lemma OneNineTwoBlock(ip: IP)
    requires To4(ip).Some?
    ensures Contains(PrivateIPBlocks()[3], ip) <==> To4(ip).value[0] == 192 && To4(ip).value[1] == 168
  {
    V4BlockValue(3, [0xff, 0xff, 0, 0]);
    assert PrivateIPBlocks()[3].ip == [192, 168, 0, 0];
    ContainsFourBytes(PrivateIPBlocks()[3], ip);
  }

  lemma LinkLocalBlock(ip: IP)
    requires To4(ip).Some?
    ensures Contains(PrivateIPBlocks()[4], ip) <==> To4(ip).value[0] == 169 && To4(ip).value[1] == 254
  {
    V4BlockValue(4, [0xff, 0xff, 0, 0]);
    assert PrivateIPBlocks()[4].ip == [169, 254, 0, 0];
    ContainsFourBytes(PrivateIPBlocks()[4], ip);
  }

  /** The five IPv4 blocks of the table, stated on the four octets. */
  predicate InV4Table(a: IP)
    requires |a| == IPv4Len
  {
    || a[0] == 127
    || a[0] == 10
    || (a[0] == 172 && 16 <= a[1] <= 31)
    || (a[0] == 192 && a[1] == 168)
    || (a[0] == 169 && a[1] == 254)
  }

  /** The table scan, for an IPv4 address. */
  lemma TableScanV4(ip: IP)
    requires To4(ip).Some?
    ensures AnyBlockContains(PrivateIPBlocks(), ip) <==> InV4Table(To4(ip).value)
  {
    var blocks := PrivateIPBlocks();
    ScanOfEight(blocks, ip);
    LoopbackBlock(ip);
    TenBlock(ip);
    OneSevenTwoBlock(ip);
    OneNineTwoBlock(ip);
    LinkLocalBlock(ip);
    V6BlocksMissV4(5, ip);
    V6BlocksMissV4(6, ip);
    V6BlocksMissV4(7, ip);
  }

  /** The scan over a table of eight blocks, written out. */
  lemma ScanOfEight(blocks: seq<IPNet>, ip: IP)
    requires |blocks| == 8 && forall i :: 0 <= i < |blocks| ==> WellFormed(blocks[i])
    ensures AnyBlockContains(blocks, ip) <==>
      || Contains(blocks[0], ip) || Contains(blocks[1], ip) || Contains(blocks[2], ip) || Contains(blocks[3], ip)
      || Contains(blocks[4], ip) || Contains(blocks[5], ip) || Contains(blocks[6], ip) || Contains(blocks[7], ip)
  {
    if AnyBlockContains(blocks, ip) {
      var i :| 0 <= i < |blocks| && Contains(blocks[i], ip);
      assert i == 0 || i == 1 || i == 2 || i == 3 || i == 4 || i == 5 || i == 6 || i == 7;
    }
  }

  /** The direct loopback and link-local tests, for an IPv4 address. */
  lemma DirectTestsV4(ip: IP)
    requires To4(ip).Some?
    ensures IsLoopback(ip) <==> To4(ip).value[0] == 127
    ensures IsLinkLocalUnicast(ip) <==> To4(ip).value[0] == 169 && To4(ip).value[1] == 254
    ensures IsLinkLocalMulticast(ip) <==> To4(ip).value[0] == 224 && To4(ip).value[1] == 0 && To4(ip).value[2] == 0
  {
  }

  /** The IPv6 loopback block ::1/128 holds exactly ::1. */
  lemma IPv6LoopbackBlock(ip: IP)
    requires To4(ip).None?
    ensures Contains(PrivateIPBlocks()[5], ip) <==> ip == IPv6Loopback
  {
    var n := PrivateIPBlocks()[5];
    var m := CIDRMask(128, 8 * IPv6Len);
    assert n.mask == m && n.ip == ApplyMask(IPv6Loopback, m);
    CIDRMaskWholeBytes(128, 8 * IPv6Len);
    assert n.ip == IPv6Loopback;
    if |ip| == IPv6Len && Contains(n, ip) {
      assert forall i :: 0 <= i < IPv6Len ==> ip[i] == IPv6Loopback[i];
    }
  }

  /** The IPv6 link-local block fe80::/10 holds exactly the addresses fe80::/10 by their first two bytes. */
  lemma IPv6LinkLocalBlock(ip: IP)
    requires To4(ip).None?
    ensures Contains(PrivateIPBlocks()[6], ip) <==> |ip| == IPv6Len && ip[0] == 0xfe && ip[1] & 0xc0 == 0x80
  {
    var n := PrivateIPBlocks()[6];
    var m := CIDRMask(10, 8 * IPv6Len);
    assert n.mask == m && n.ip == ApplyMask(PrivateCidrs[6].addr, m);
    CIDRMaskWholeBytes(10, 8 * IPv6Len);
    assert m[1] == MaskByte(2) == 0xc0;
    assert n.ip[0] == 0xfe && n.ip[1] == 0x80;
    if |ip| == IPv6Len && ip[0] == 0xfe && ip[1] & 0xc0 == 0x80 {
      forall i | 0 <= i < IPv6Len ensures AgreeUnder(n.ip[i], ip[i], n.mask[i]) {
        if 2 <= i {
          assert n.mask[i] == 0;
        }
      }
    }
    if Contains(n, ip) {
      assert AgreeUnder(n.ip[0], ip[0], n.mask[0]) && AgreeUnder(n.ip[1], ip[1], n.mask[1]);
    }
  }

  /**
   * On every address, the direct loopback and link-local unicast tests of
   * isPrivateIP accept exactly what the table's loopback and link-local
   * blocks accept.
   */
  lemma DirectTestsMatchTable(ip: IP)
    ensures IsLoopback(ip) <==> Contains(PrivateIPBlocks()[0], ip) || Contains(PrivateIPBlocks()[5], ip)
    ensures IsLinkLocalUnicast(ip) <==> Contains(PrivateIPBlocks()[4], ip) || Contains(PrivateIPBlocks()[6], ip)
  {
    if To4(ip).Some? {
      DirectTestsV4(ip);
      LoopbackBlock(ip);
      LinkLocalBlock(ip);
      V6BlocksMissV4(5, ip);
      V6BlocksMissV4(6, ip);
    } else {
      IPv6LoopbackBlock(ip);
      IPv6LinkLocalBlock(ip);
    }
  }

  /**
   * The link-local multicast test on an IPv4 address is membership in the
   * block 224.0.0.0/24, which the table does not list.
   */
  lemma LinkLocalMulticastBlock(ip: IP)
    requires To4(ip).Some?
    ensures ParseCidr(CidrLiteral([224, 0, 0, 0], 24)).Success?
    ensures IsLinkLocalMulticast(ip) <==> Contains(ParseCidr(CidrLiteral([224, 0, 0, 0], 24)).value, ip)
  {
    var n := ParseCidr(CidrLiteral([224, 0, 0, 0], 24)).value;
    var m := CIDRMask(24, 32);
    CIDRMaskWholeBytes(24, 32);
    assert n.mask == m == [0xff, 0xff, 0xff, 0];
    assert n.ip == [224, 0, 0, 0];
    ContainsFourBytes(n, ip);
  }

  /**
   * For an IPv4 address, in either its 4-byte or its IPv4-mapped form,
   * isPrivateIP holds exactly on the reserved IPv4 ranges.
   */
  lemma IsPrivateIPv4Iff(ip: IP)
    requires To4(ip).Some?
    ensures IsPrivateIP(ip) <==> InReservedV4Range(To4(ip).value)
  {
    TableScanV4(ip);
    DirectTestsV4(ip);
  }

  /** The unique-local block fc00::/7 holds every IPv6 address whose first byte is 0xfc or 0xfd. */
  lemma UniqueLocalBlock(ip: IP)
    requires |ip| == IPv6Len && To4(ip).None? && ip[0] & 0xfe == 0xfc
    ensures Contains(PrivateIPBlocks()[7], ip)
  {
    var n := PrivateIPBlocks()[7];
    var m := CIDRMask(7, 8 * IPv6Len);
    assert n.mask == m && n.ip == ApplyMask(PrivateCidrs[7].addr, m);
    forall i | 0 <= i < IPv6Len ensures AgreeUnder(n.ip[i], ip[i], n.mask[i]) {
      if i == 0 {
        assert n.mask[0] == 0xfe && n.ip[0] == 0xfc;
      } else {
        assert n.mask[i] == 0;
      }
    }
  }

  /**
   * The IPv6 side of isPrivateIP: ::1, fe80::/10 and fc00::/7 are private
   * (the first two by the direct tests, the last by the table).
   */
  lemma PrivateV6Ranges(ip: IP)
    requires |ip| == IPv6Len && To4(ip).None?
    requires ip == IPv6Loopback || (ip[0] == 0xfe && ip[1] & 0xc0 == 0x80) || ip[0] & 0xfe == 0xfc
    ensures IsPrivateIP(ip)
  {
    if ip != IPv6Loopback && !(ip[0] == 0xfe && ip[1] & 0xc0 == 0x80) {
      UniqueLocalBlock(ip);
    }
  }

  /** A public address: 8.8.8.8 is not private. */
  lemma PublicExample()
    ensures !IsPrivateIP([8, 8, 8, 8])
  {
    IsPrivateIPv4Iff([8, 8, 8, 8]);
  }

  /** The loopback, RFC 1918 and link-local representatives are private. */
  lemma PrivateExamples()
    ensures IsPrivateIP([127, 0, 0, 1]) && IsPrivateIP([10, 0, 0, 5]) && IsPrivateIP([172, 31, 255, 255])
    ensures IsPrivateIP([192, 168, 1, 20]) && IsPrivateIP([169, 254, 3, 4]) && IsPrivateIP([224, 0, 0, 251])
    ensures !IsPrivateIP([172, 32, 0, 1]) && !IsPrivateIP([192, 169, 0, 1])
  {
    IsPrivateIPv4Iff([127, 0, 0, 1]);
    IsPrivateIPv4Iff([10, 0, 0, 5]);
    IsPrivateIPv4Iff([172, 31, 255, 255]);
    IsPrivateIPv4Iff([192, 168, 1, 20]);
    IsPrivateIPv4Iff([169, 254, 3, 4]);
    IsPrivateIPv4Iff([224, 0, 0, 251]);
    IsPrivateIPv4Iff([172, 32, 0, 1]);
    IsPrivateIPv4Iff([192, 169, 0, 1]);
  }
}

/** `IPUtils.subnetMatch`, the `IPv6.SpecialRange` table, `isIPv4MappedAddress` and
    `toIpV4Address`. */
module SpecialRanges {
  import opened Results
  import opened Numerals
  import opened Cidr
  import opened Addresses

  /** `IPv6.Range`: a network address and a prefix length. */
  datatype Range = Range(ip: IP, cidrBits: int)

  /** The entries of `SpecialRange`, in declaration order. Entries 5 to 7 describe the same
      range, and only entry 5 counts as IPv4-mapped (section 2.5.5.2 of RFC 4291). */
  const SpecialRangeTable: seq<Range> := [
    Range(IPv6([0, 0, 0, 0, 0, 0, 0, 0]), 128),             // Unspecified
    Range(IPv6([0xfe80, 0, 0, 0, 0, 0, 0, 0]), 10),         // LinkLocal
    Range(IPv6([0xff00, 0, 0, 0, 0, 0, 0, 0]), 8),          // Multicast
    Range(IPv6([0, 0, 0, 0, 0, 0, 0, 1]), 128),             // Loopback
    Range(IPv6([0xfc00, 0, 0, 0, 0, 0, 0, 0]), 7),          // UniqueLocal
    Range(IPv6([0, 0, 0, 0, 0, 0xffff, 0, 0]), 96),         // IPV4Mapped
    Range(IPv6([0, 0, 0, 0, 0, 0xffff, 0, 0]), 96),         // RFC6145
    Range(IPv6([0, 0, 0, 0, 0, 0xffff, 0, 0]), 96),         // RFC6052
    Range(IPv6([0, 0, 0, 0, 0, 0xffff, 0, 0]), 16),         // V6ToV4
    Range(IPv6([0x2001, 0, 0, 0, 0, 0, 0, 0]), 32),         // Teredo
    Range(IPv6([0x2001, 0xdb8, 0, 0, 0, 0, 0, 0]), 32)      // Reserved
  ]

  /** The position of `SpecialRange.IPV4Mapped` in the table. */
  const IPv4MappedIndex: nat := 5

  /** What `subnetMatch(address, ranges)` returns or throws, as the position of the range it
      returns: the first range that `address.match` accepts, or null. */
  function FirstMatchingRange(address: IP, ranges: seq<Range>): (r: Result<Option<nat>>)
    decreases |ranges|
  {
    if ranges == [] then Ok(None)
    else
      var m :- Match(address, ranges[0].ip, ranges[0].cidrBits);
      if m then Ok(Some(0))
      else
        var rest :- FirstMatchingRange(address, ranges[1..]);
        Ok(if rest.None? then None else Some(rest.value + 1))
  }

  /** No range before position `k` matches, and none throws. */
  predicate NoMatchBefore(address: IP, ranges: seq<Range>, k: int)
    requires k <= |ranges|
  {
    forall j :: 0 <= j < k ==> Match(address, ranges[j].ip, ranges[j].cidrBits) == Ok(false)
  }

  /** The outcome of subnetMatch is decided by the first range that does not simply fail to
      match: it is returned if it matches, and its exception escapes if it throws; with no such
      range the result is null. */
  lemma {:induction false} FirstMatchAt(address: IP, ranges: seq<Range>, k: int)
    requires 0 <= k <= |ranges| && NoMatchBefore(address, ranges, k)
    ensures k == |ranges| ==> FirstMatchingRange(address, ranges) == Ok(None)
    ensures k < |ranges| && Match(address, ranges[k].ip, ranges[k].cidrBits) == Ok(true) ==>
      FirstMatchingRange(address, ranges) == Ok(Some(k))
    ensures k < |ranges| && Match(address, ranges[k].ip, ranges[k].cidrBits).Fail? ==>
      FirstMatchingRange(address, ranges) == Fail(Match(address, ranges[k].ip, ranges[k].cidrBits).failure)
    decreases k
  {
    if k > 0 {
      assert Match(address, ranges[0].ip, ranges[0].cidrBits) == Ok(false);
      var rest := ranges[1..];
      assert NoMatchBefore(address, rest, k - 1) by {
        forall j | 0 <= j < k - 1
          ensures Match(address, rest[j].ip, rest[j].cidrBits) == Ok(false)
        {
          assert rest[j] == ranges[j + 1];
        }
      }
      FirstMatchAt(address, rest, k - 1);
      assert k < |ranges| ==> rest[k - 1] == ranges[k];
    }
  }

  /** IPUtils.subnetMatch: a linear search that returns at the first match. The range
      object it returns is identified here by its position in `ranges`. */
  method SubnetMatch(address: IP, ranges: seq<Range>) returns (r: Result<Option<nat>>)
    ensures r == FirstMatchingRange(address, ranges)
    ensures r == Ok(None) ==> NoMatchBefore(address, ranges, |ranges|)
    ensures r.Ok? && r.value.Some? ==>
      r.value.value < |ranges| && NoMatchBefore(address, ranges, r.value.value)
      && Match(address, ranges[r.value.value].ip, ranges[r.value.value].cidrBits) == Ok(true)
  {
    for k := 0 to |ranges|
      invariant NoMatchBefore(address, ranges, k)
    {
      var m := Match(address, ranges[k].ip, ranges[k].cidrBits);
      if m.Fail? {
        FirstMatchAt(address, ranges, k);
        return Fail(m.failure);
      }
      if m.value {
        FirstMatchAt(address, ranges, k);
        return Ok(Some(k));
      }
    }
    FirstMatchAt(address, ranges, |ranges|);
    return Ok(None);
  }

  /** The result of subnetMatch, read back: a returned range matches and none before it
      does; null means none matches. */
  lemma {:induction false} FirstMatchingRangeSound(address: IP, ranges: seq<Range>)
    ensures FirstMatchingRange(address, ranges) == Ok(None) ==> NoMatchBefore(address, ranges, |ranges|)
    ensures FirstMatchingRange(address, ranges).Ok? && FirstMatchingRange(address, ranges).value.Some? ==>
      var k := FirstMatchingRange(address, ranges).value.value;
      k < |ranges| && NoMatchBefore(address, ranges, k)
      && Match(address, ranges[k].ip, ranges[k].cidrBits) == Ok(true)
    ensures (forall j :: 0 <= j < |ranges| ==> Match(address, ranges[j].ip, ranges[j].cidrBits).Ok?) ==>
      FirstMatchingRange(address, ranges).Ok?
    decreases |ranges|
  {
    if ranges != [] {
      var rest := ranges[1..];
      FirstMatchingRangeSound(address, rest);
      forall j | 0 <= j < |rest|
        ensures rest[j] == ranges[j + 1]
      {
      }
    }
  }

  // ---------------------------------------------------------------------------
  // isIPv4MappedAddress and toIpV4Address

  /** `isIPv4MappedAddress`: the range subnetMatch finds in the table is the IPV4Mapped entry
      itself. Ranges compare by the identity of their address objects, so the equal entries
      after it do not count. */
  function IsIPv4MappedAddress(ip: IP): (r: Result<bool>)
  {
    var range :- FirstMatchingRange(ip, SpecialRangeTable);
    Ok(range == Some(IPv4MappedIndex))
  }

  /** `toIpV4Address()`: an IllegalStateException unless the address is IPv4-mapped;
      otherwise the last two groups split into their high and low bytes (`shr 8` and
      `and 0xff`). */
  function ToIpV4Address(ip: IP): (r: Result<IP>)
    requires ip.IPv6? && Valid(ip)
  {
    var mapped :- IsIPv4MappedAddress(ip);
    if !mapped then Fail(OtherError)
    else
      var high, low := ip.parts[6], ip.parts[7];
      ConstructedIPv4([high / 256, high % 256, low / 256, low % 256])
  }

  /** The groups of an address in `::ffff:0:0/96`. */
  predicate MappedGroups(parts: seq<int>)
    requires |parts| == 8
  {
    parts[0] == 0 && parts[1] == 0 && parts[2] == 0 && parts[3] == 0 && parts[4] == 0 && parts[5] == 0xffff
  }

  /** Every entry of the table is a constructed IPv6 address with a prefix of at most 128
      bits, so matching a constructed IPv6 address against it never throws. */
  lemma TableMatchesOk(ip: IP)
    requires ip.IPv6? && Valid(ip)
    ensures forall j :: 0 <= j < |SpecialRangeTable| ==>
      Match(ip, SpecialRangeTable[j].ip, SpecialRangeTable[j].cidrBits).Ok?
  {
    var t := SpecialRangeTable;
    forall j | 0 <= j < |t|
      ensures Match(ip, t[j].ip, t[j].cidrBits).Ok?
    {
      assert t[j].ip.IPv6? && |t[j].ip.parts| == 8 && t[j].cidrBits <= 128;
      CidrMatchOk(ip.parts, t[j].ip.parts, 16, t[j].cidrBits);
    }
  }

  /** The IPV4Mapped entry compares the first six groups. */
  lemma MappedEntryTest(ip: IP)
    requires ip.IPv6? && Valid(ip)
    ensures Match(ip, SpecialRangeTable[IPv4MappedIndex].ip, 96) == Ok(MappedGroups(ip.parts))
  {
    var p := ip.parts;
    var m := SpecialRangeTable[IPv4MappedIndex].ip.parts;
    CidrWholeGroups(p, m, 16, 6);
    assert 6 * 16 == 96;
    if p[..6] == m[..6] {
      assert p[0] == p[..6][0] && p[1] == p[..6][1] && p[2] == p[..6][2];
      assert p[3] == p[..6][3] && p[4] == p[..6][4] && p[5] == p[..6][5];
    }
    if MappedGroups(p) {
      assert p[..6] == m[..6];
    }
  }

  /** An address in `::ffff:0:0/96` is neither the unspecified nor the loopback address, and
      its first group of zero lies outside fe80::/10, ff00::/8 and fc00::/7. */
  lemma MappedMissesEntry(ip: IP, j: nat)
    requires ip.IPv6? && Valid(ip) && MappedGroups(ip.parts) && j < IPv4MappedIndex
    ensures Match(ip, SpecialRangeTable[j].ip, SpecialRangeTable[j].cidrBits) == Ok(false)
  {
    var p := ip.parts;
    var r := SpecialRangeTable[j];
    if j == 0 || j == 3 {
      MatchWholeWidth(ip, r.ip, 0);
      assert p[5] != r.ip.parts[5];
    } else {
      CidrMatchPartial(p, r.ip.parts, 16, r.cidrBits);
      assert p[0] == 0;
      if j == 1 {
        assert Pow2(6) == 64;
      } else if j == 2 {
        assert Pow2(8) == 256;
      } else {
        assert Pow2(9) == 512;
      }
    }
  }

  /** An address in `::ffff:0:0/96` lies in none of the five ranges listed before IPV4Mapped. */
  lemma MappedMissesEarlierRanges(ip: IP)
    requires ip.IPv6? && Valid(ip) && MappedGroups(ip.parts)
    ensures NoMatchBefore(ip, SpecialRangeTable, IPv4MappedIndex)
  {
    forall j | 0 <= j < IPv4MappedIndex
      ensures Match(ip, SpecialRangeTable[j].ip, SpecialRangeTable[j].cidrBits) == Ok(false)
    {
      MappedMissesEntry(ip, j);
    }
  }

  /** An IPv6 address is IPv4-mapped exactly when its first five groups are zero and the sixth
      is 0xffff (section 2.5.5.2 of RFC 4291); the lookup never throws. */
  lemma IPv4MappedIff(ip: IP)
    requires ip.IPv6? && Valid(ip)
    ensures IsIPv4MappedAddress(ip) == Ok(MappedGroups(ip.parts))
  {
    var t := SpecialRangeTable;
    TableMatchesOk(ip);
    FirstMatchingRangeSound(ip, t);
    MappedEntryTest(ip);
    if MappedGroups(ip.parts) {
      MappedMissesEarlierRanges(ip);
      FirstMatchAt(ip, t, IPv4MappedIndex);
    }
  }

  /** The IPv4 address embedded in an IPv4-mapped address: its octets are the bytes of the
      last two groups, and the conversion of any other address throws. */
  lemma ToIpV4AddressBytes(ip: IP)
    requires ip.IPv6? && Valid(ip)
    ensures !MappedGroups(ip.parts) ==> ToIpV4Address(ip) == Fail(OtherError)
    ensures MappedGroups(ip.parts) ==>
      var o := [ip.parts[6] / 256, ip.parts[6] % 256, ip.parts[7] / 256, ip.parts[7] % 256];
      ToIpV4Address(ip) == Ok(IPv4(o)) && ValidOctets(o)
      && o[0] * 256 + o[1] == ip.parts[6] && o[2] * 256 + o[3] == ip.parts[7]
  {
    IPv4MappedIff(ip);
    MappedOctets(ip.parts[6], ip.parts[7]);
  }

  /** The bytes of two 16-bit groups are four octets. */
  lemma MappedOctets(high: int, low: int)
    requires 0 <= high <= 0xffff && 0 <= low <= 0xffff
    ensures var o := [high / 256, high % 256, low / 256, low % 256];
      ValidOctets(o) && o[0] * 256 + o[1] == high && o[2] * 256 + o[3] == low
  {
    GroupBytes(high);
    GroupBytes(low);
    var o := [high / 256, high % 256, low / 256, low % 256];
    assert forall i :: 0 <= i < 4 ==> 0 <= o[i] <= 255;
  }

  /** A 16-bit group is its high byte times 256 plus its low byte. */
  lemma GroupBytes(g: int)
    requires 0 <= g <= 0xffff
    ensures 0 <= g / 256 <= 255 && 0 <= g % 256 <= 255 && g / 256 * 256 + g % 256 == g
  {
  }
}

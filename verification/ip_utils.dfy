/** `IPUtils.isInRange` and `IPUtils.storeIp`. */
module IPUtils {
  import opened Results
  import opened Strings
  import opened Numerals
  import opened Cidr
  import opened Addresses
  import opened SpecialRanges
  import opened IPv6Text
  import opened Parsing
  import opened IPv6TextFacts
  import opened IPv6NormalForm

  // ---------------------------------------------------------------------------
  // isInRange

  /** What testing `address` against one entry of the range list gives. An entry with a '/'
      is split there: the first piece goes through IP.parse and, only when that gives an
      address, the second is read with `toInt()` and the two are compared by `match`. An entry
      without '/' goes through IP.parse too, but the result is compared with `==`, which on
      these classes is identity, and a freshly parsed object is never `address`. */
  function EntryMatch(address: IP, entry: string): (r: Result<bool>)
  {
    if '/' in entry then
      var rangeData := Split(entry, "/");
      SplitOnChar(entry, '/');
      var parsedRange :- Parsed(rangeData[0]);
      if parsedRange.None? then Ok(false)
      else
        var cidrBits := ParseInt(rangeData[1], 10);
        if cidrBits.None? then Fail(ArgumentError)
        else Match(address, parsedRange.value, cidrBits.value)
    else
      var parsedRange :- Parsed(entry);
      Ok(false)
  }

  /** What `isInRange(address, *ranges)` returns or throws: true at the first entry that
      matches; an exception from an entry escapes. */
  function InRange(address: IP, ranges: seq<string>): (r: Result<bool>)
    decreases |ranges|
  {
    if ranges == [] then Ok(false)
    else
      var m :- EntryMatch(address, ranges[0]);
      if m then Ok(true) else InRange(address, ranges[1..])
  }

  lemma InRangeSuffix(address: IP, ranges: seq<string>, k: int)
    requires 0 <= k < |ranges|
    ensures InRange(address, ranges[k..])
         == (var m :- EntryMatch(address, ranges[k]); if m then Ok(true) else InRange(address, ranges[k + 1..]))
  {
    assert ranges[k..][1..] == ranges[k + 1..];
  }

  /** IPUtils.isInRange: a loop over the entries that returns at the first match. */
  method IsInRange(address: IP, ranges: seq<string>) returns (r: Result<bool>)
    ensures r == InRange(address, ranges)
  {
    for k := 0 to |ranges|
      invariant InRange(address, ranges) == InRange(address, ranges[k..])
    {
      InRangeSuffix(address, ranges, k);
      var range := ranges[k];
      if '/' in range {
        var rangeData := Split(range, "/");
        SplitOnChar(range, '/');
        var parsedRange := Parse(rangeData[0]);
        if parsedRange.Fail? {
          return Fail(parsedRange.failure);
        }
        if parsedRange.value.Some? {
          var cidrBits := ParseInt(rangeData[1], 10);
          if cidrBits.None? {
            return Fail(ArgumentError);
          }
          var m := Match(address, parsedRange.value.value, cidrBits.value);
          if m.Fail? {
            return Fail(m.failure);
          }
          if m.value {
            return Ok(true);
          }
        }
      } else {
        var parsedRange := Parse(range);
        if parsedRange.Fail? {
          return Fail(parsedRange.failure);
        }
      }
    }
    return Ok(false);
  }

  /** No entry before position `k` matches, and none throws. */
  predicate NoEntryMatchBefore(address: IP, ranges: seq<string>, k: int)
    requires k <= |ranges|
  {
    forall j :: 0 <= j < k ==> EntryMatch(address, ranges[j]) == Ok(false)
  }

  /** isInRange is decided by the first entry that does not simply fail to match: true if it
      matches, its exception if it throws; with no such entry the answer is false. */
  lemma {:induction false} InRangeAt(address: IP, ranges: seq<string>, k: int)
    requires 0 <= k <= |ranges| && NoEntryMatchBefore(address, ranges, k)
    ensures k == |ranges| ==> InRange(address, ranges) == Ok(false)
    ensures k < |ranges| && EntryMatch(address, ranges[k]) == Ok(true) ==> InRange(address, ranges) == Ok(true)
    ensures k < |ranges| && EntryMatch(address, ranges[k]).Fail? ==>
      InRange(address, ranges) == Fail(EntryMatch(address, ranges[k]).failure)
    decreases k
  {
    if k > 0 {
      assert EntryMatch(address, ranges[0]) == Ok(false);
      var rest := ranges[1..];
      assert NoEntryMatchBefore(address, rest, k - 1) by {
        forall j | 0 <= j < k - 1
          ensures EntryMatch(address, rest[j]) == Ok(false)
        {
          assert rest[j] == ranges[j + 1];
        }
      }
      InRangeAt(address, rest, k - 1);
      assert k < |ranges| ==> rest[k - 1] == ranges[k];
    }
  }

  /** An entry without '/' never puts an address in range; at most its parse throws. */
  lemma BareEntryNeverMatches(address: IP, entry: string)
    requires '/' !in entry
    ensures EntryMatch(address, entry) != Ok(true)
    ensures Parsed(entry).Ok? ==> EntryMatch(address, entry) == Ok(false)
  {
  }

  /** An address of one family is never in a range of the other family. */
  lemma OtherFamilyNeverMatches(address: IP, entry: string)
    requires '/' in entry
    requires var rangeData := Split(entry, "/");
      Parsed(rangeData[0]).Ok? && Parsed(rangeData[0]).value.Some?
      && Parsed(rangeData[0]).value.value.IPv4? != address.IPv4?
    ensures EntryMatch(address, entry) != Ok(true)
  {
  }

  /** The text of a listed IPv4 network splits at its one '/'. */
  lemma SplitCidrEntry(network: seq<int>, cidrBits: nat)
    requires ValidOctets(network)
    ensures var net, len := IPv4Text(network), NatText(cidrBits, 10);
      '/' in net + "/" + len && Split(net + "/" + len, "/") == [net, len]
  {
    var net, len := IPv4Text(network), NatText(cidrBits, 10);
    var texts := seq(|network|, i requires 0 <= i < |network| => IntText(network[i], 10));
    forall i | 0 <= i < |texts|
      ensures '/' !in texts[i]
    {
      NatTextChars(network[i], 10);
    }
    JoinFree(texts, ".", '/');
    NatTextChars(cidrBits, 10);
    SplitPair(net, len, '/');
  }

  /** An entry written `a.b.c.d/n` with a constructed network address and a decimal prefix
      length is the prefix test of `match` against that network. */
  lemma CidrEntryMatch(address: IP, network: seq<int>, cidrBits: nat)
    requires ValidOctets(network) && cidrBits <= IntMax
    ensures EntryMatch(address, IPv4Text(network) + "/" + NatText(cidrBits, 10))
         == Match(address, IPv4(network), cidrBits)
  {
    var net, len := IPv4Text(network), NatText(cidrBits, 10);
    SplitCidrEntry(network, cidrBits);
    ParsedIPv4Text(network);
    ParseNatText(cidrBits, 10);
    var rangeData := Split(net + "/" + len, "/");
    assert rangeData[0] == net && rangeData[1] == len;
  }

  /** An address in a listed IPv4 network, written in the form the range lists use, is in
      range once no earlier entry decides otherwise: its first `cidrBits` bits agree with the
      network's. */
  lemma InListedNetwork(address: IP, ranges: seq<string>, k: nat, network: seq<int>, cidrBits: nat)
    requires address.IPv4? && Valid(address) && ValidOctets(network) && cidrBits <= 32
    requires k < |ranges| && ranges[k] == IPv4Text(network) + "/" + NatText(cidrBits, 10)
    requires NoEntryMatchBefore(address, ranges, k)
    requires BigEndian(address.octets, 8) / Pow2(32 - cidrBits) == BigEndian(network, 8) / Pow2(32 - cidrBits)
    ensures InRange(address, ranges) == Ok(true)
  {
    CidrEntryMatch(address, network, cidrBits);
    IPv4MatchIsPrefixTest(address.octets, network, cidrBits);
    InRangeAt(address, ranges, k);
  }

  // ---------------------------------------------------------------------------
  // storeIp

  /** The body of `storeIp` before its `catch`: the text of the parsed address, dotted for
      IPv4 and for an IPv4-mapped IPv6 address, otherwise the original text abbreviated; null
      when the text is no address. */
  function StoredText(ip: string): (r: Result<Option<string>>)
  {
    var parsed :- Parsed(ip);
    if parsed.None? then Ok(None)
    else
      ParsedValid(ip);
      match parsed.value
      case IPv4(octets) => Ok(Some(IPv4Text(octets)))
      case IPv6(parts) =>
        var mapped :- IsIPv4MappedAddress(parsed.value);
        if mapped then
          var v4 :- ToIpV4Address(parsed.value);
          var text :- Text(v4);
          Ok(Some(text))
        else
          var text :- Abbreviation(ip);
          Ok(Some(text))
  }

  /** `storeIp(ip)`: every exception is caught and gives null. */
  function StoreIp(ip: string): (r: Option<string>)
  {
    var stored := StoredText(ip);
    if stored.Fail? then None else stored.value
  }

  /** Text that IP.parse does not read as an address is not stored. */
  lemma StoreIpNotAddress(ip: string)
    requires Parsed(ip).Fail? || Parsed(ip) == Ok(None)
    ensures StoreIp(ip) == None
  {
  }

  /** The dotted text of an IPv4 address is stored unchanged. */
  lemma StoreIpIPv4Text(octets: seq<int>)
    requires ValidOctets(octets)
    ensures StoreIp(IPv4Text(octets)) == Some(IPv4Text(octets))
  {
    ParsedIPv4Text(octets);
  }

  /** IPv6 text that parses to an IPv4-mapped address is stored as the dotted text of the
      IPv4 address in its last two groups, which IP.parse reads back as that IPv4 address. */
  lemma StoreIpMapped(ip: string)
    requires ParsedIPv6(ip).Ok? && MappedGroups(ParsedIPv6(ip).value.parts)
    ensures var p := ParsedIPv6(ip).value.parts;
      var o := [p[6] / 256, p[6] % 256, p[7] / 256, p[7] % 256];
      StoreIp(ip) == Some(IPv4Text(o)) && Parsed(IPv4Text(o)) == Ok(Some(IPv4(o)))
      && o[0] * 256 + o[1] == p[6] && o[2] * 256 + o[3] == p[7]
  {
    ParsedValid(ip);
    ParseIPv4Valid(ip);
    var a := ParsedIPv6(ip).value;
    assert Parsed(ip) == Ok(Some(a));
    ToIpV4AddressBytes(a);
    IPv4MappedIff(a);
    var p := a.parts;
    ParsedIPv4Text([p[6] / 256, p[6] % 256, p[7] / 256, p[7] % 256]);
  }

  /** Any other IPv6 text is stored as its abbreviation, or not at all when abbreviate throws. */
  lemma StoreIpOtherIPv6(ip: string)
    requires ParsedIPv6(ip).Ok? && !MappedGroups(ParsedIPv6(ip).value.parts)
    ensures Abbreviation(ip).Ok? ==> StoreIp(ip) == Some(Abbreviation(ip).value)
    ensures Abbreviation(ip).Fail? ==> StoreIp(ip) == None
  {
    ParsedValid(ip);
    ParseIPv4Valid(ip);
    var a := ParsedIPv6(ip).value;
    assert Parsed(ip) == Ok(Some(a));
    IPv4MappedIff(a);
  }

  /** The full hexadecimal text of an address that is not IPv4-mapped is stored as the text
      `toString` gives the address. */
  lemma StoreIpHexText(parts: seq<int>)
    requires ValidParts(parts) && !MappedGroups(parts)
    ensures StoreIp(HexText(parts)) == Some(CompressedText(PrintedGroups(parts)))
  {
    HexTextParses(parts);
    IPv6TextForm(parts);
    StoreIpOtherIPv6(HexText(parts));
  }
}

/** The decision `CloudflareFeature.intercept` makes about the client IP of a call: the
    request's remote host, its `CF-Connecting-IP` header and the two range lists are
    parameters, and the value it puts under the attribute key is the result. */
module Cloudflare {
  import opened Results
  import opened Strings
  import opened Numerals
  import opened Cidr
  import opened Addresses
  import opened SpecialRanges
  import opened IPv6Text
  import opened Parsing
  import opened IPUtils
  import opened ZeroRuns
  import opened IPv6TextFacts
  import opened IPv6NormalForm

  /** The range list `intercept` checks an address against: the IPv6 list for an IPv6
      address, the IPv4 list otherwise. */
  function RangesFor(address: IP, ipV4Addresses: seq<string>, ipV6Addresses: seq<string>): (r: seq<string>)
  {
    if address.IPv6? then ipV6Addresses else ipV4Addresses
  }

  /** What `intercept` puts under the attribute key, or the exception that escapes it. The
      remote host is stored (`storeIp`) and the stored text parsed again; the header is taken
      only when it is present and the reparsed address is in range for its family. A stored
      text that does not parse again is used itself; in every other case the raw remote host
      stays. */
  function ClientIp(remoteHost: string, connectingIp: Option<string>,
                    ipV4Addresses: seq<string>, ipV6Addresses: seq<string>): (r: Result<string>)
  {
    var ip := StoreIp(remoteHost);
    if ip.None? then Ok(remoteHost)
    else
      var parsedIp :- Parsed(ip.value);
      if parsedIp.None? then Ok(ip.value)
      else if connectingIp.None? then Ok(remoteHost)
      else
        var inRange :- InRange(parsedIp.value, RangesFor(parsedIp.value, ipV4Addresses, ipV6Addresses));
        Ok(if inRange then connectingIp.value else remoteHost)
  }

  /** CloudflareFeature.intercept: `finalIp` starts as the remote host and is reassigned along
      the branches; its last value is what `attributes.put` stores. */
  method Intercept(remoteHost: string, connectingIp: Option<string>,
                   ipV4Addresses: seq<string>, ipV6Addresses: seq<string>) returns (r: Result<string>)
    ensures r == ClientIp(remoteHost, connectingIp, ipV4Addresses, ipV6Addresses)
  {
    var finalIp := remoteHost;
    var ip := StoreIp(remoteHost);
    if ip.Some? {
      var parsedIp := Parse(ip.value);
      if parsedIp.Fail? {
        return Fail(parsedIp.failure);
      }
      if parsedIp.value.Some? {
        var addresses := if parsedIp.value.value.IPv6? then ipV6Addresses else ipV4Addresses;
        if connectingIp.Some? {
          var inRange := IsInRange(parsedIp.value.value, addresses);
          if inRange.Fail? {
            return Fail(inRange.failure);
          }
          if inRange.value {
            finalIp := connectingIp.value;
          }
        }
      } else {
        finalIp := ip.value;
      }
    }
    return Ok(finalIp);
  }

  // ---------------------------------------------------------------------------

  /** Where the result comes from: the raw remote host; the header, and then only for an
      address in range for its family; or the stored text, and then only when it does not
      parse again. */
  lemma ClientIpSources(remoteHost: string, connectingIp: Option<string>,
                        ipV4Addresses: seq<string>, ipV6Addresses: seq<string>)
    ensures var r := ClientIp(remoteHost, connectingIp, ipV4Addresses, ipV6Addresses);
      var ip := StoreIp(remoteHost);
      r.Ok? ==>
        r.value == remoteHost
        || (connectingIp.Some? && r.value == connectingIp.value && ip.Some?
            && Parsed(ip.value).Ok? && Parsed(ip.value).value.Some?
            && var address := Parsed(ip.value).value.value;
               InRange(address, RangesFor(address, ipV4Addresses, ipV6Addresses)) == Ok(true))
        || (ip.Some? && r.value == ip.value && Parsed(ip.value) == Ok(None))
  {
  }

  /** A remote host that `storeIp` cannot store is kept verbatim, and so is one that `IP.parse`
      cannot read or throws on, since such a host is never stored. */
  lemma UnparseablePeer(remoteHost: string, connectingIp: Option<string>,
                        ipV4Addresses: seq<string>, ipV6Addresses: seq<string>)
    ensures StoreIp(remoteHost).None? ==>
      ClientIp(remoteHost, connectingIp, ipV4Addresses, ipV6Addresses) == Ok(remoteHost)
    ensures Parsed(remoteHost).Fail? || Parsed(remoteHost) == Ok(None) ==>
      ClientIp(remoteHost, connectingIp, ipV4Addresses, ipV6Addresses) == Ok(remoteHost)
  {
    if Parsed(remoteHost).Fail? || Parsed(remoteHost) == Ok(None) {
      StoreIpNotAddress(remoteHost);
    }
  }

  /** Without the header the result is the remote host or the stored text, and the range
      lists are never consulted. */
  lemma NoHeader(remoteHost: string, ipV4Addresses: seq<string>, ipV6Addresses: seq<string>,
                 otherV4: seq<string>, otherV6: seq<string>)
    ensures var r := ClientIp(remoteHost, None, ipV4Addresses, ipV6Addresses);
      r == ClientIp(remoteHost, None, otherV4, otherV6)
      && (r.Ok? ==> r.value == remoteHost || (StoreIp(remoteHost).Some? && r.value == StoreIp(remoteHost).value))
  {
  }

  /** A remote host written as the dotted text of an IPv4 address is checked against the IPv4
      list alone: with the header present, the header is the answer exactly when the address is
      in range, and the raw remote host otherwise. */
  lemma IPv4Peer(octets: seq<int>, header: string, ipV4Addresses: seq<string>, ipV6Addresses: seq<string>)
    requires ValidOctets(octets)
    ensures var r := ClientIp(IPv4Text(octets), Some(header), ipV4Addresses, ipV6Addresses);
      var inRange := InRange(IPv4(octets), ipV4Addresses);
      (inRange == Ok(true) ==> r == Ok(header))
      && (inRange == Ok(false) ==> r == Ok(IPv4Text(octets)))
      && (inRange.Fail? ==> r == Fail(inRange.failure))
  {
    StoreIpIPv4Text(octets);
    ParsedIPv4Text(octets);
  }

  /** A peer in a listed Cloudflare network, written as dotted IPv4 text, is trusted: the
      header is the answer, taken without any check of its own. */
  lemma TrustedIPv4Peer(octets: seq<int>, header: string, ipV4Addresses: seq<string>, ipV6Addresses: seq<string>,
                        k: nat, network: seq<int>, cidrBits: nat)
    requires ValidOctets(octets) && ValidOctets(network) && cidrBits <= 32
    requires k < |ipV4Addresses| && ipV4Addresses[k] == IPv4Text(network) + "/" + NatText(cidrBits, 10)
    requires NoEntryMatchBefore(IPv4(octets), ipV4Addresses, k)
    requires BigEndian(octets, 8) / Pow2(32 - cidrBits) == BigEndian(network, 8) / Pow2(32 - cidrBits)
    ensures ClientIp(IPv4Text(octets), Some(header), ipV4Addresses, ipV6Addresses) == Ok(header)
  {
    InListedNetwork(IPv4(octets), ipV4Addresses, k, network, cidrBits);
    IPv4Peer(octets, header, ipV4Addresses, ipV6Addresses);
  }

  /** A peer that no entry of the IPv4 list accepts keeps its raw remote host, header or not. */
  lemma UntrustedIPv4Peer(octets: seq<int>, connectingIp: Option<string>,
                          ipV4Addresses: seq<string>, ipV6Addresses: seq<string>)
    requires ValidOctets(octets) && NoEntryMatchBefore(IPv4(octets), ipV4Addresses, |ipV4Addresses|)
    ensures ClientIp(IPv4Text(octets), connectingIp, ipV4Addresses, ipV6Addresses) == Ok(IPv4Text(octets))
  {
    InRangeAt(IPv4(octets), ipV4Addresses, |ipV4Addresses|);
    StoreIpIPv4Text(octets);
    ParsedIPv4Text(octets);
    if connectingIp.Some? {
      IPv4Peer(octets, connectingIp.value, ipV4Addresses, ipV6Addresses);
    }
  }

  /** An IPv4-mapped IPv6 peer is stored as dotted IPv4 text, reparses as IPv4 and is checked
      against the IPv4 list: the IPv6 list plays no part. */
  lemma MappedPeerUsesIPv4List(remoteHost: string, connectingIp: Option<string>,
                               ipV4Addresses: seq<string>, ipV6Addresses: seq<string>, otherV6: seq<string>)
    requires ParsedIPv6(remoteHost).Ok? && MappedGroups(ParsedIPv6(remoteHost).value.parts)
    ensures ClientIp(remoteHost, connectingIp, ipV4Addresses, ipV6Addresses)
         == ClientIp(remoteHost, connectingIp, ipV4Addresses, otherV6)
    ensures var p := ParsedIPv6(remoteHost).value.parts;
      var o := [p[6] / 256, p[6] % 256, p[7] / 256, p[7] % 256];
      connectingIp.Some? && InRange(IPv4(o), ipV4Addresses) == Ok(true) ==>
        ClientIp(remoteHost, connectingIp, ipV4Addresses, ipV6Addresses) == Ok(connectingIp.value)
  {
    StoreIpMapped(remoteHost);
  }

  /** An IPv6 peer, not IPv4-mapped, whose remote host is its full hexadecimal text: the
      remote host is stored as its `toString` text and that text is parsed again. When the text
      reads back as the same address, the header is the answer exactly when the address is in
      the IPv6 list; when it does not read back at all, the stored text itself is the answer
      and the header is ignored. */
  lemma IPv6Peer(parts: seq<int>, connectingIp: Option<string>,
                 ipV4Addresses: seq<string>, ipV6Addresses: seq<string>)
    requires ValidParts(parts) && !MappedGroups(parts)
    ensures var stored := CompressedText(PrintedGroups(parts));
      var r := ClientIp(HexText(parts), connectingIp, ipV4Addresses, ipV6Addresses);
      (Parsed(stored) == Ok(None) ==> r == Ok(stored))
      && (Parsed(stored) == Ok(Some(IPv6(parts))) && connectingIp.Some? ==>
            var inRange := InRange(IPv6(parts), ipV6Addresses);
            (inRange == Ok(true) ==> r == Ok(connectingIp.value))
            && (inRange == Ok(false) ==> r == Ok(HexText(parts)))
            && (inRange.Fail? ==> r == Fail(inRange.failure)))
  {
    StoreIpHexText(parts);
  }

  /** The zero groups of an IPv4-mapped address form their longest run at the start. */
  lemma MappedRunAtStart(parts: seq<int>)
    requires ValidParts(parts)
    ensures var run := LongestZeroRun(seq(8, i requires 0 <= i < 8 => parts[i] == 0));
      MappedGroups(parts) ==> run.Some? && run.value.start == 0
  {
    var z := seq(8, i requires 0 <= i < 8 => parts[i] == 0);
    LongestZeroRunIsBest(z);
    if MappedGroups(parts) {
      assert RunAt(z, 0, 5);
    }
  }

  /** An IPv6 peer whose longest run of zero groups starts at the fifth group or later, given
      as its full hexadecimal text, is stored as its `toString` text, which IP.parse cannot
      read: that stored text is the answer, whatever the header and the range lists say. */
  lemma LateZeroRunPeer(parts: seq<int>, connectingIp: Option<string>,
                        ipV4Addresses: seq<string>, ipV6Addresses: seq<string>)
    requires ValidParts(parts)
    requires var run := LongestZeroRun(seq(8, i requires 0 <= i < 8 => parts[i] == 0));
      run.Some? && run.value.start >= 4
    ensures ClientIp(HexText(parts), connectingIp, ipV4Addresses, ipV6Addresses)
         == Ok(CompressedText(PrintedGroups(parts)))
  {
    MappedRunAtStart(parts);
    LateRunNotReparsed(parts);
    IPv6Peer(parts, connectingIp, ipV4Addresses, ipV6Addresses);
  }

  /** A remote host with more than eight groups after its "::" passes validate but makes
      normalize run off its slots: IP.parse throws, storeIp gives null, and the raw remote host
      is the client IP whatever the header and the range lists. */
  lemma OverlongRightHalfPeer(before: seq<string>, after: seq<string>, connectingIp: Option<string>,
                              ipV4Addresses: seq<string>, ipV6Addresses: seq<string>)
    requires |before| <= 3 && LowerPieces(before) && LowerPieces(after) && |after| > 8
    requires forall i :: 0 <= i < |before| ==> |before[i]| <= 4 && AllDigitsOf(before[i], 16)
    ensures var ip := Join(before, ":") + "::" + Join(after, ":");
      Validates(ip) && Parsed(ip) == Fail(OtherError) && StoreIp(ip) == None
      && ClientIp(ip, connectingIp, ipV4Addresses, ipV6Addresses) == Ok(ip)
  {
    var b := Join(before, ":");
    var ip := b + "::" + Join(after, ":");
    GapValidates(before, after);
    GapNormalizes(before, after);
    assert Normalization(ip) == Fail(OtherError);
    assert ip[|b|] == ':';
    ColonNotIPv4(ip);
    StoreIpNotAddress(ip);
    UnparseablePeer(ip, connectingIp, ipV4Addresses, ipV6Addresses);
  }
}

/** Worked examples: what the model gives for particular addresses and texts. */
module Examples {
  import opened Results
  import opened Strings
  import opened Numerals
  import opened Cidr
  import opened ZeroRuns
  import opened IPv6Text
  import opened IPv6TextFacts
  import opened IPv6NormalForm
  import opened Addresses
  import opened Parsing
  import opened IPUtils
  import opened Cloudflare

  lemma JoinOne(g: seq<string>, sep: string)
    requires |g| == 1
    ensures Join(g, sep) == g[0]
  {
  }

  lemma JoinTwo(g: seq<string>, sep: string)
    requires |g| == 2
    ensures Join(g, sep) == g[0] + sep + g[1]
  {
    JoinCons(g, sep);
    JoinOne(g[1..], sep);
  }

  lemma JoinFour(g: seq<string>, sep: string)
    requires |g| == 4
    ensures Join(g, sep) == g[0] + sep + (g[1] + sep + (g[2] + sep + g[3]))
  {
    JoinCons(g, sep);
    JoinCons(g[1..], sep);
    assert g[1..][1..] == g[2..];
    JoinTwo(g[2..], sep);
  }

  // ---------------------------------------------------------------------------
  // toString

  lemma DocumentationGroups(parts: seq<int>, gs: seq<string>)
    requires parts == [0x2001, 0xdb8, 0, 0, 0, 0, 2, 1] && gs == PrintedGroups(parts)
    ensures gs[0] == "2001" && gs[1] == "db8" && gs[6] == "2" && gs[7] == "1"
    ensures gs[2] == "0" && gs[3] == "0" && gs[4] == "0" && gs[5] == "0"
  {
    assert NatText(0x2001, 16) == "2001" && NatText(0xdb8, 16) == "db8";
    assert NatText(2, 16) == "2" && NatText(1, 16) == "1";
  }

  lemma DocumentationCompressed(gs: seq<string>)
    requires |gs| == 8 && gs[0] == "2001" && gs[1] == "db8" && gs[6] == "2" && gs[7] == "1"
    requires gs[2] == "0" && gs[3] == "0" && gs[4] == "0" && gs[5] == "0"
    ensures CompressedText(gs) == "2001:db8::2:1"
  {
    assert ZeroFlags(gs) == [false, false, true, true, true, true, false, false];
    assert LongestZeroRun([false, false, true, true, true, true, false, false]) == Some(Run(2, 4));
    JoinTwo(gs[..2], ":");
    JoinTwo(gs[6..], ":");
  }

  /** The documentation address 2001:db8::2:1 prints with its four zero groups folded into
      "::". */
  lemma DocumentationAddressText(parts: seq<int>)
    requires parts == [0x2001, 0xdb8, 0, 0, 0, 0, 2, 1]
    ensures Text(IPv6(parts)) == Ok("2001:db8::2:1")
  {
    IPv6TextForm(parts);
    DocumentationGroups(parts, PrintedGroups(parts));
    DocumentationCompressed(PrintedGroups(parts));
  }

  lemma PaddedFirstGroups(parts: seq<int>, gs: seq<string>)
    requires parts == [1, 0, 0, 1, 0, 0, 0, 1] && gs == PrintedGroups(parts)
    ensures gs[0] == "0001" && gs[3] == "1" && gs[7] == "1"
    ensures gs[1] == "0" && gs[2] == "0" && gs[4] == "0" && gs[5] == "0" && gs[6] == "0"
  {
    assert NatText(1, 16) == "1";
    assert PadStart("1", 4, '0') == "0001";
  }

  lemma PaddedFirstCompressed(gs: seq<string>)
    requires |gs| == 8 && gs[0] == "0001" && gs[3] == "1" && gs[7] == "1"
    requires gs[1] == "0" && gs[2] == "0" && gs[4] == "0" && gs[5] == "0" && gs[6] == "0"
    ensures CompressedText(gs) == "0001:0:0:1::1"
  {
    assert ZeroFlags(gs) == [false, true, true, false, true, true, true, false];
    assert LongestZeroRun([false, true, true, false, true, true, true, false]) == Some(Run(4, 3));
    JoinFour(gs[..4], ":");
    JoinOne(gs[7..], ":");
  }

  /** The address 1:0:0:1:0:0:0:1: its first group keeps the leading zeros normalize gave it,
      and the longer of its two zero runs is the one folded. */
  lemma PaddedFirstGroupText(parts: seq<int>)
    requires parts == [1, 0, 0, 1, 0, 0, 0, 1]
    ensures Text(IPv6(parts)) == Ok("0001:0:0:1::1")
  {
    IPv6TextForm(parts);
    PaddedFirstGroups(parts, PrintedGroups(parts));
    PaddedFirstCompressed(PrintedGroups(parts));
  }

  // ---------------------------------------------------------------------------
  // A zero run that toString folds too late for validate

  lemma LateRunGroups(parts: seq<int>, gs: seq<string>)
    requires parts == [0x2001, 0xdb8, 1, 2, 0, 0, 0, 1] && gs == PrintedGroups(parts)
    ensures seq(8, i requires 0 <= i < 8 => parts[i] == 0) == [false, false, false, false, true, true, true, false]
    ensures LongestZeroRun([false, false, false, false, true, true, true, false]) == Some(Run(4, 3))
    ensures gs[0] == "2001" && gs[1] == "db8" && gs[2] == "1" && gs[3] == "2" && gs[7] == "1"
    ensures gs[4] == "0" && gs[5] == "0" && gs[6] == "0"
  {
    assert NatText(0x2001, 16) == "2001" && NatText(0xdb8, 16) == "db8";
    assert NatText(1, 16) == "1" && NatText(2, 16) == "2";
  }

  lemma LateRunPieces(parts: seq<int>, s: seq<string>)
    requires parts == [0x2001, 0xdb8, 1, 2, 0, 0, 0, 1]
    requires s == seq(|parts|, i requires 0 <= i < |parts| => IntText(parts[i], 16))
    ensures |s| == 8 && s[0] == "2001" && s[1] == "db8" && s[2] == "1" && s[3] == "2"
    ensures s[4] == "0" && s[5] == "0" && s[6] == "0" && s[7] == "1"
  {
    assert NatText(0x2001, 16) == "2001" && NatText(0xdb8, 16) == "db8";
    assert NatText(0, 16) == "0" && NatText(1, 16) == "1" && NatText(2, 16) == "2";
  }

  /** The full hexadecimal text of the address 2001:db8:1:2::1. */
  lemma LateRunHexText(parts: seq<int>)
    requires parts == [0x2001, 0xdb8, 1, 2, 0, 0, 0, 1]
    ensures HexText(parts) == "2001:db8:1:2:0:0:0:1"
  {
    var s := seq(|parts|, i requires 0 <= i < |parts| => IntText(parts[i], 16));
    LateRunPieces(parts, s);
    JoinAppend(s[..4], s[4..], ":");
    assert s[..4] + s[4..] == s;
    JoinFour(s[..4], ":");
    JoinFour(s[4..], ":");
  }

  lemma LateRunCompressed(gs: seq<string>)
    requires |gs| == 8 && gs[0] == "2001" && gs[1] == "db8" && gs[2] == "1" && gs[3] == "2" && gs[7] == "1"
    requires gs[4] == "0" && gs[5] == "0" && gs[6] == "0"
    ensures CompressedText(gs) == "2001:db8:1:2::1"
  {
    assert ZeroFlags(gs) == [false, false, false, false, true, true, true, false];
    assert LongestZeroRun([false, false, false, false, true, true, true, false]) == Some(Run(4, 3));
    JoinFour(gs[..4], ":");
    JoinOne(gs[7..], ":");
  }

  /** A peer at 2001:db8:1:2::1 whose remote host is its full hexadecimal text (see
      LateRunHexText) is stored as "2001:db8:1:2::1"; IP.parse cannot read that text back, so it
      becomes the client IP and the header is ignored. */
  lemma LateRunPeerExample(parts: seq<int>, connectingIp: Option<string>,
                           ipV4Addresses: seq<string>, ipV6Addresses: seq<string>)
    requires parts == [0x2001, 0xdb8, 1, 2, 0, 0, 0, 1]
    ensures ClientIp(HexText(parts), connectingIp, ipV4Addresses, ipV6Addresses) == Ok("2001:db8:1:2::1")
  {
    LateRunGroups(parts, PrintedGroups(parts));
    LateRunCompressed(PrintedGroups(parts));
    LateZeroRunPeer(parts, connectingIp, ipV4Addresses, ipV6Addresses);
  }

  // ---------------------------------------------------------------------------
  // A trusted peer

  lemma DottedPieces(octets: seq<int>, s: seq<string>)
    requires octets == [173, 245, 48, 5] || octets == [173, 245, 48, 0]
    requires s == seq(|octets|, i requires 0 <= i < |octets| => IntText(octets[i], 10))
    ensures |s| == 4 && s[0] == "173" && s[1] == "245" && s[2] == "48" && s[3] == [(octets[3] + 48) as char]
  {
    assert NatText(173, 10) == "173" && NatText(245, 10) == "245" && NatText(48, 10) == "48";
    assert NatText(octets[3], 10) == [(octets[3] + 48) as char];
  }

  /** The dotted texts of the peer 173.245.48.5 and of the listed network 173.245.48.0/20. */
  lemma CloudflareTexts(octets: seq<int>, network: seq<int>)
    requires octets == [173, 245, 48, 5] && network == [173, 245, 48, 0]
    ensures IPv4Text(octets) == "173.245.48.5"
    ensures IPv4Text(network) + "/" + NatText(20, 10) == "173.245.48.0/20"
  {
    var s := seq(|octets|, i requires 0 <= i < |octets| => IntText(octets[i], 10));
    DottedPieces(octets, s);
    JoinFour(s, ".");
    var t := seq(|network|, i requires 0 <= i < |network| => IntText(network[i], 10));
    DottedPieces(network, t);
    JoinFour(t, ".");
    assert NatText(20, 10) == "20";
  }

  /** 173.245.48.5 and 173.245.48.0 agree on their first 20 bits. */
  lemma CloudflarePrefix(octets: seq<int>, network: seq<int>)
    requires octets == [173, 245, 48, 5] && network == [173, 245, 48, 0]
    ensures BigEndian(octets, 8) / Pow2(32 - 20) == BigEndian(network, 8) / Pow2(32 - 20)
  {
    assert Pow2(12) == 4096 && Pow2(24) == 16777216 && Pow2(16) == 65536 && Pow2(8) == 256 && Pow2(0) == 1;
    assert BigEndian([173, 245, 48, 5], 8) == 2918526981;
    assert BigEndian([173, 245, 48, 0], 8) == 2918526976;
  }

  /** A request relayed from 173.245.48.5, inside the listed network 173.245.48.0/20 (the
      texts are those of CloudflareTexts), takes its client IP from the header. */
  lemma TrustedPeerExample(octets: seq<int>, network: seq<int>, header: string,
                           ipV4Addresses: seq<string>, ipV6Addresses: seq<string>)
    requires octets == [173, 245, 48, 5] && network == [173, 245, 48, 0]
    requires ipV4Addresses == [IPv4Text(network) + "/" + NatText(20, 10)]
    ensures ClientIp(IPv4Text(octets), Some(header), ipV4Addresses, ipV6Addresses) == Ok(header)
  {
    CloudflarePrefix(octets, network);
    TrustedIPv4Peer(octets, header, ipV4Addresses, ipV6Addresses, 0, network, 20);
  }

  // ---------------------------------------------------------------------------
  // The unspecified address

  /** "::" alone normalizes to eight "0000" groups. */
  lemma UnspecifiedGroups(ip: string)
    requires ip == "::"
    ensures NormalizedGroups(ip) == Ok(seq(8, _ => "0000"))
  {
    assert Join([], ":") + "::" + Join([], ":") == ip;
    GapNormalizes([], []);
    assert GapGroups([], []) == seq(8, _ => "0000");
  }

  lemma UnspecifiedSqueezed(groups: seq<string>)
    requires groups == seq(8, _ => "0000")
    ensures forall i :: 0 <= i < |groups| ==> FullGroup(groups[i])
    ensures var secs := SqueezedGroups(groups); |secs| == 8 && forall i :: 0 <= i < 8 ==> secs[i] == "0"
  {
  }

  lemma UnspecifiedCompressed(secs: seq<string>)
    requires |secs| == 8 && forall i :: 0 <= i < 8 ==> secs[i] == "0"
    ensures CompressedText(secs) == "::"
  {
    assert ZeroFlags(secs) == [true, true, true, true, true, true, true, true];
    assert LongestZeroRun([true, true, true, true, true, true, true, true]) == Some(Run(0, 8));
    assert secs[..0] == [] && secs[8..] == [];
  }

  /** The unspecified address: "::" abbreviates to itself. */
  lemma UnspecifiedAbbreviation(ip: string)
    requires ip == "::"
    ensures Abbreviation(ip) == Ok("::")
  {
    UnspecifiedGroups(ip);
    var groups: seq<string> := seq(8, _ => "0000");
    UnspecifiedSqueezed(groups);
    AbbreviationOfGroups(ip, groups);
    UnspecifiedCompressed(SqueezedGroups(groups));
  }

  lemma OverlapGroups(ns: seq<string>, hs: seq<string>)
    requires ns == ["1", "2"] && hs == ["3", "4", "5", "6", "7", "8", "9"]
    ensures GapGroups(ns, hs) == ["0001", "0003", "0004", "0005", "0006", "0007", "0008", "0009"]
  {
    var g := GapGroups(ns, hs);
    assert g[0] == PadStart("1", 4, '0') == "0001";
    assert g[1] == PadStart("3", 4, '0') == "0003";
    assert g[2] == PadStart("4", 4, '0') == "0004";
    assert g[3] == PadStart("5", 4, '0') == "0005";
    assert g[4] == PadStart("6", 4, '0') == "0006";
    assert g[5] == PadStart("7", 4, '0') == "0007";
    assert g[6] == PadStart("8", 4, '0') == "0008";
    assert g[7] == PadStart("9", 4, '0') == "0009";
  }

  lemma OverlapPieces(ns: seq<string>, hs: seq<string>)
    requires ns == ["1", "2"] && hs == ["3", "4", "5", "6", "7", "8", "9"]
    ensures LowerPieces(ns) && LowerPieces(hs)
    ensures forall i :: 0 <= i < |ns| ==> |ns[i]| <= 4 && AllDigitsOf(ns[i], 16)
  {
  }

  /** The text 1:2::3:4:5:6:7:8:9, two groups before "::" and seven after it: the groups after
      the "::" end at the last slot and overwrite the second group before it, which is lost. */
  lemma OverlappingHalves(ns: seq<string>, hs: seq<string>)
    requires ns == ["1", "2"] && hs == ["3", "4", "5", "6", "7", "8", "9"]
    ensures var ip := Join(ns, ":") + "::" + Join(hs, ":");
      Validates(ip)
      && NormalizedGroups(ip) == Ok(["0001", "0003", "0004", "0005", "0006", "0007", "0008", "0009"])
  {
    OverlapPieces(ns, hs);
    GapValidates(ns, hs);
    GapNormalizes(ns, hs);
    OverlapGroups(ns, hs);
  }
}

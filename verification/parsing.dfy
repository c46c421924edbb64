/** `IPv6.parse`, `IP.parse` and `IP.toString`. */
module Parsing {
  import opened Results
  import opened Strings
  import opened Numerals
  import opened Addresses
  import opened IPv6Text

  /** What `IPv6.parse(ip)` returns or throws: validation, normalization, then every
      normalized group read with `toInt(16)` (a NumberFormatException when one is not a
      hexadecimal Int) and the eight values given to the constructor. */
  function ParsedIPv6(ip: string): (r: Result<IP>)
  {
    if !Validates(ip) then Fail(ArgumentError)
    else
      var normalized :- Normalization(ip);
      var pieces := Split(normalized, ":");
      if exists i :: 0 <= i < |pieces| && ParseInt(pieces[i], 16).None? then Fail(ArgumentError)
      else ConstructedIPv6(seq(|pieces|, i requires 0 <= i < |pieces| => ParseInt(pieces[i], 16).value))
  }

  /** IPv6.parse. */
  method ParseIPv6(ip: string) returns (r: Result<IP>)
    ensures r == ParsedIPv6(ip)
  {
    var valid := Validate(ip);
    if !valid {
      return Fail(ArgumentError);
    }
    var normalized := Normalize(ip);
    if normalized.Fail? {
      return Fail(normalized.failure);
    }
    var pieces := Split(normalized.value, ":");
    if exists i :: 0 <= i < |pieces| && ParseInt(pieces[i], 16).None? {
      return Fail(ArgumentError);
    }
    r := NewIPv6(seq(|pieces|, i requires 0 <= i < |pieces| => ParseInt(pieces[i], 16).value));
  }

  /** What `IP.parse(ip)` returns: the IPv6 reading when there is one, else the IPv4 reading,
      else null. Only argument errors are swallowed; any other exception escapes. */
  function Parsed(ip: string): (r: Result<Option<IP>>)
  {
    var v4 := ParseIPv4(ip);
    var v6 := ParsedIPv6(ip);
    if v4.Fail? && v4.failure == OtherError then Fail(OtherError)
    else if v6.Fail? && v6.failure == OtherError then Fail(OtherError)
    else if v6.Ok? then Ok(Some(v6.value))
    else if v4.Ok? then Ok(Some(v4.value))
    else Ok(None)
  }

  /** IP.parse: `parsedIp` is set by the IPv4 attempt and overwritten by the IPv6 attempt. */
  method Parse(ip: string) returns (r: Result<Option<IP>>)
    ensures r == Parsed(ip)
  {
    var parsedIp: Option<IP> := None;
    var v4 := ParseIPv4(ip);
    if v4.Ok? {
      parsedIp := Some(v4.value);
    } else if v4.failure != ArgumentError {
      return Fail(v4.failure);
    }
    var v6 := ParseIPv6(ip);
    if v6.Ok? {
      parsedIp := Some(v6.value);
    } else if v6.failure != ArgumentError {
      return Fail(v6.failure);
    }
    return Ok(parsedIp);
  }

  /** The groups of an IPv6 address in lower-case hexadecimal without leading zeros, joined
      with ':', as `toString` hands them to `abbreviate`. */
  function HexText(parts: seq<int>): (r: string)
  {
    Join(seq(|parts|, i requires 0 <= i < |parts| => IntText(parts[i], 16)), ":")
  }

  /** `ip.toString()`: dotted decimal for IPv4, the abbreviated hexadecimal text for IPv6. */
  function Text(ip: IP): (r: Result<string>)
  {
    match ip
    case IPv4(octets) => Ok(IPv4Text(octets))
    case IPv6(parts) => Abbreviation(HexText(parts))
  }

  // ---------------------------------------------------------------------------

  /** Text without a ':' is never an IPv6 address: validate rejects it, and IPv6.parse throws
      IllegalArgumentException. */
  lemma NoColonNotIPv6(ip: string)
    requires ':' !in ip
    ensures !Validates(ip) && ParsedIPv6(ip) == Fail(ArgumentError)
  {
    forall k | 0 <= k < |ip|
      ensures !OccursAt(ip, "::", k)
    {
      assert ip[k] != ':';
    }
    SplitNone(ip, "::");
    NoCharNoOccurrence(ip, ':');
    SplitNone(ip, ":");
    assert |NonEmpty([ip])| <= 1;
  }

  /** The dotted text of an IPv4 address parses back, through IP.parse, to the same address. */
  lemma ParsedIPv4Text(octets: seq<int>)
    requires ValidOctets(octets)
    ensures Parsed(IPv4Text(octets)) == Ok(Some(IPv4(octets)))
  {
    var texts := seq(|octets|, i requires 0 <= i < |octets| => IntText(octets[i], 10));
    forall i | 0 <= i < |texts|
      ensures ':' !in texts[i]
    {
      NatTextChars(octets[i], 10);
    }
    JoinFree(texts, ".", ':');
    NoColonNotIPv6(IPv4Text(octets));
    IPv4TextRoundTrip(octets);
  }

  /** A successful IPv6.parse gives a constructed IPv6 address. */
  lemma ParsedIPv6Valid(ip: string)
    ensures ParsedIPv6(ip).Ok? ==> ParsedIPv6(ip).value.IPv6? && Valid(ParsedIPv6(ip).value)
  {
    if Validates(ip) && Normalization(ip).Ok? {
      var pieces := Split(Normalization(ip).value, ":");
      if forall i :: 0 <= i < |pieces| ==> ParseInt(pieces[i], 16).Some? {
        var values := seq(|pieces|, i requires 0 <= i < |pieces| => ParseInt(pieces[i], 16).value);
        ConstructedValid([], values);
      }
    }
  }

  /** Whatever IP.parse returns is a constructed address, and it swallows exactly the argument
      errors. */
  lemma ParsedValid(ip: string)
    ensures ParsedIPv6(ip).Ok? ==> ParsedIPv6(ip).value.IPv6? && Valid(ParsedIPv6(ip).value)
    ensures Parsed(ip).Ok? && Parsed(ip).value.Some? ==> Valid(Parsed(ip).value.value)
    ensures Parsed(ip).Fail? ==> Parsed(ip).failure == OtherError
  {
    ParseIPv4Valid(ip);
    ParsedIPv6Valid(ip);
  }
}

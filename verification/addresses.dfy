/** The sealed class `IP` with its two families: the checks their initializers make, `match`,
    IPv4's text form and `IPv4.parse`. */
module Addresses {
  import opened Results
  import opened Strings
  import opened Numerals
  import opened Cidr

  /** An address: four octets, or eight 16-bit groups. Both classes are immutable once
      constructed. */
  datatype IP = IPv4(octets: seq<int>) | IPv6(parts: seq<int>)

  predicate ValidOctets(octets: seq<int>)
  {
    |octets| == 4 && forall i :: 0 <= i < 4 ==> 0 <= octets[i] <= 255
  }

  predicate ValidParts(parts: seq<int>)
  {
    |parts| == 8 && forall i :: 0 <= i < 8 ==> 0 <= parts[i] <= 0xffff
  }

  /** What every constructed address satisfies. */
  predicate Valid(ip: IP)
  {
    match ip
    case IPv4(octets) => ValidOctets(octets)
    case IPv6(parts) => ValidParts(parts)
  }

  // ---------------------------------------------------------------------------
  // Construction

  /** `IPv4(octets)`: an address when there are four octets of eight bits each, otherwise an
      IllegalArgumentException. */
  function ConstructedIPv4(octets: seq<int>): (r: Result<IP>)
  {
    if ValidOctets(octets) then Ok(IPv4(octets)) else Fail(ArgumentError)
  }

  /** The initializer of IPv4: the count check, then one check per octet. */
  method NewIPv4(octets: seq<Int32>) returns (r: Result<IP>)
    ensures r == ConstructedIPv4(octets)
  {
    if |octets| != 4 {
      return Fail(ArgumentError);
    }
    for i := 0 to |octets|
      invariant forall j :: 0 <= j < i ==> 0 <= octets[j] <= 255
    {
      if octets[i] < 0 || octets[i] > 255 {
        return Fail(ArgumentError);
      }
    }
    return Ok(IPv4(octets));
  }

  /** Bitwise or of two non-negative numbers. */
  function BitOr(x: nat, y: nat): (r: nat)
    decreases x + y
  {
    if x == 0 && y == 0 then 0
    else 2 * BitOr(x / 2, y / 2) + (if x % 2 == 1 || y % 2 == 1 then 1 else 0)
  }

  /** The two's-complement `Int` with the low 32 bits of `x`. */
  function Wrap32(x: int): (r: Int32)
  {
    var u := x % 0x1_0000_0000;
    if u >= 0x8000_0000 then u - 0x1_0000_0000 else u
  }

  /** `(a shl 8) or b` on 32-bit `Int`s. */
  function ShlOr8(a: Int32, b: Int32): (r: Int32)
  {
    Wrap32(BitOr((a * 256) % 0x1_0000_0000, b % 0x1_0000_0000))
  }

  /** Pairs of entries of a 16-entry list combined into eight groups. */
  function Combined(parts: seq<Int32>): (r: seq<int>)
    requires |parts| == 16
  {
    seq(8, i requires 0 <= i < 8 => ShlOr8(parts[2 * i], parts[2 * i + 1]))
  }

  /** `IPv6(parts)`: sixteen entries are first combined pairwise into eight groups; a list of
      any length other than 8 or 16 is an IllegalArgumentException, and so is a group outside
      16 bits. */
  function ConstructedIPv6(parts: seq<Int32>): (r: Result<IP>)
  {
    var groups := if |parts| == 16 then Combined(parts) else parts;
    if |parts| != 16 && |parts| != 8 then Fail(ArgumentError)
    else if ValidParts(groups) then Ok(IPv6(groups))
    else Fail(ArgumentError)
  }

  /** The initializer of IPv6: the combining loop for sixteen entries, then one range check per
      group. */
  method NewIPv6(parts: seq<Int32>) returns (r: Result<IP>)
    ensures r == ConstructedIPv6(parts)
  {
    var groups: seq<int> := parts;
    if |parts| == 16 {
      var combined: seq<int> := [];
      var i := 0;
      while i <= 14
        invariant 0 <= i <= 16 && i % 2 == 0
        invariant |combined| == i / 2
        invariant forall j :: 0 <= j < i / 2 ==> combined[j] == ShlOr8(parts[2 * j], parts[2 * j + 1])
      {
        combined := combined + [ShlOr8(parts[i], parts[i + 1])];
        i := i + 2;
      }
      assert combined == Combined(parts);
      groups := combined;
    } else if |parts| != 8 {
      return Fail(ArgumentError);
    }
    for k := 0 to |groups|
      invariant forall j :: 0 <= j < k ==> 0 <= groups[j] <= 0xffff
    {
      if groups[k] < 0 || groups[k] > 0xffff {
        return Fail(ArgumentError);
      }
    }
    return Ok(IPv6(groups));
  }

  // ---------------------------------------------------------------------------
  // Properties of construction

  lemma {:induction false} BitOrZero(x: nat)
    ensures BitOr(x, 0) == x
    decreases x
  {
    if x > 0 {
      BitOrZero(x / 2);
    }
  }

  /** Or-ing a number whose low `k` bits are clear with a number below 2^k is addition. */
  lemma {:induction false} BitOrDisjoint(x: nat, y: nat, k: nat)
    requires x % Pow2(k) == 0 && y < Pow2(k)
    ensures BitOr(x, y) == x + y
    decreases k
  {
    if k == 0 {
      BitOrZero(x);
    } else {
      var h := Pow2(k - 1);
      assert Pow2(k) == 2 * h;
      HalfDivisible(x, h);
      assert y / 2 < h;
      BitOrDisjoint(x / 2, y / 2, k - 1);
      assert y == 2 * (y / 2) + y % 2;
    }
  }

  /** Half of a multiple of `2 * h` is an even split: `x` is even and `x / 2` a multiple of `h`. */
  lemma HalfDivisible(x: nat, h: nat)
    requires h >= 1 && x % (2 * h) == 0
    ensures x % 2 == 0 && (x / 2) % h == 0
  {
    var q := x / (2 * h);
    assert x == 2 * (h * q);
    DivUnique(x, 2, h * q, 0);
    DivUnique(x / 2, h, q, 0);
  }

  /** For two bytes, `(a shl 8) or b` is the 16-bit value with high byte `a` and low byte `b`. */
  lemma ShlOr8Bytes(a: Int32, b: Int32)
    requires 0 <= a <= 255 && 0 <= b <= 255
    ensures ShlOr8(a, b) == a * 256 + b
  {
    var hi := a * 256;
    Below32(hi);
    Below32(b);
    OrOfBytes(a, b);
    Below32(hi + b);
  }

  /** Reducing modulo 2^32 keeps a value that already fits. */
  lemma Below32(x: int)
    requires 0 <= x < 0x1_0000_0000
    ensures x % 0x1_0000_0000 == x
  {
    DivUnique(x, 0x1_0000_0000, 0, x);
  }

  /** A byte shifted up by eight bits and or-ed with another byte is their sum. */
  lemma OrOfBytes(a: int, b: int)
    requires 0 <= a <= 255 && 0 <= b <= 255
    ensures BitOr(a * 256, b) == a * 256 + b
  {
    assert Pow2(8) == 256;
    DivUnique(a * 256, 256, a, 0);
    BitOrDisjoint(a * 256, b, 8);
  }

  /** Sixteen bytes make the address whose groups are the big-endian pairs of bytes. */
  lemma FromBytes(bytes: seq<Int32>)
    requires |bytes| == 16 && forall i :: 0 <= i < 16 ==> 0 <= bytes[i] <= 255
    ensures ConstructedIPv6(bytes)
         == Ok(IPv6(seq(8, i requires 0 <= i < 8 => bytes[2 * i] * 256 + bytes[2 * i + 1])))
  {
    CombinedBytes(bytes);
  }

  /** The combining loop on sixteen bytes gives eight 16-bit groups. */
  lemma CombinedBytes(bytes: seq<Int32>)
    requires |bytes| == 16 && forall i :: 0 <= i < 16 ==> 0 <= bytes[i] <= 255
    ensures var want := seq(8, i requires 0 <= i < 8 => bytes[2 * i] * 256 + bytes[2 * i + 1]);
      Combined(bytes) == want && ValidParts(want)
  {
    var want := seq(8, i requires 0 <= i < 8 => bytes[2 * i] * 256 + bytes[2 * i + 1]);
    forall i | 0 <= i < 8
      ensures Combined(bytes)[i] == want[i] && 0 <= want[i] <= 0xffff
    {
      CombinedAt(bytes, i);
    }
  }

  lemma CombinedAt(bytes: seq<Int32>, i: nat)
    requires |bytes| == 16 && i < 8 && 0 <= bytes[2 * i] <= 255 && 0 <= bytes[2 * i + 1] <= 255
    ensures Combined(bytes)[i] == bytes[2 * i] * 256 + bytes[2 * i + 1] <= 0xffff
    ensures 0 <= bytes[2 * i] * 256 + bytes[2 * i + 1]
  {
    ShlOr8Bytes(bytes[2 * i], bytes[2 * i + 1]);
    BytePairBound(bytes[2 * i], bytes[2 * i + 1]);
  }

  lemma BytePairBound(a: int, b: int)
    requires 0 <= a <= 255 && 0 <= b <= 255
    ensures 0 <= a * 256 + b <= 0xffff
  {
  }

  /** A constructed address is valid, and eight groups are kept as given. */
  lemma ConstructedValid(octets: seq<Int32>, parts: seq<Int32>)
    ensures ConstructedIPv4(octets).Ok? ==> Valid(ConstructedIPv4(octets).value)
    ensures ConstructedIPv4(octets).Fail? ==> ConstructedIPv4(octets).failure == ArgumentError
    ensures ConstructedIPv6(parts).Ok? ==> Valid(ConstructedIPv6(parts).value)
    ensures ConstructedIPv6(parts).Fail? ==> ConstructedIPv6(parts).failure == ArgumentError
    ensures |parts| == 8 ==> (ConstructedIPv6(parts).Ok? <==> ValidParts(parts))
    ensures |parts| == 8 && ValidParts(parts) ==> ConstructedIPv6(parts) == Ok(IPv6(parts))
  {
  }

  // ---------------------------------------------------------------------------
  // match

  /** The width of one group and the number of bits of the family. */
  function GroupWidth(ip: IP): (r: nat)
  {
    if ip.IPv4? then 8 else 16
  }

  function Groups(ip: IP): (r: seq<int>)
  {
    if ip.IPv4? then ip.octets else ip.parts
  }

  function BitCount(ip: IP): (r: nat)
  {
    if ip.IPv4? then 32 else 128
  }

  /** `self.match(other, cidrRange)`: false for an address of the other family, otherwise
      `matchCIDR` over octets (8 bits) or groups (16 bits). */
  function Match(self: IP, other: IP, cidrRange: int): (r: Result<bool>)
  {
    match self
    case IPv4(octets) => if other.IPv4? then CidrMatch(octets, other.octets, 8, cidrRange) else Ok(false)
    case IPv6(parts) => if other.IPv6? then CidrMatch(parts, other.parts, 16, cidrRange) else Ok(false)
  }

  lemma ValidInRange(ip: IP)
    requires Valid(ip)
    ensures FitsWidth(Groups(ip), GroupWidth(ip)) && |Groups(ip)| * GroupWidth(ip) == BitCount(ip)
  {
    assert Pow2(8) == 256 && Pow2(16) == 0x10000;
  }

  /** For a prefix length within the address, `match` compares the top `cidrRange` bits of the
      two addresses read as numbers; addresses of different families never match. */
  lemma MatchIsPrefixTest(self: IP, other: IP, cidrRange: int)
    requires Valid(self) && Valid(other) && 0 <= cidrRange <= BitCount(self)
    ensures self.IPv4? != other.IPv4? ==> Match(self, other, cidrRange) == Ok(false)
    ensures self.IPv4? == other.IPv4? ==>
      var w, d := GroupWidth(self), BitCount(self) - cidrRange;
      Match(self, other, cidrRange)
        == Ok(BigEndian(Groups(self), w) / Pow2(d) == BigEndian(Groups(other), w) / Pow2(d))
  {
    if self.IPv4? == other.IPv4? {
      ValidInRange(self);
      ValidInRange(other);
      CidrMatchIsPrefixTest(Groups(self), Groups(other), GroupWidth(self), cidrRange);
    }
  }

  /** With the whole width as prefix, `match` is equality; an address matches itself under any
      prefix length within the width, and a longer prefix makes even that throw. */
  lemma MatchWholeWidth(self: IP, other: IP, cidrRange: int)
    requires Valid(self) && Valid(other) && self.IPv4? == other.IPv4?
    ensures Match(self, other, BitCount(self)) == Ok(self == other)
    ensures cidrRange <= BitCount(self) ==> Match(self, self, cidrRange) == Ok(true)
    ensures cidrRange > BitCount(self) ==> Match(self, self, cidrRange) == Fail(OtherError)
  {
    ValidInRange(self);
    FullWidthMatchesEqual(Groups(self), Groups(other), GroupWidth(self));
    FullWidthMatchesEqual(Groups(self), Groups(self), GroupWidth(self));
    if cidrRange <= BitCount(self) {
      ShorterPrefixMatches(Groups(self), Groups(self), GroupWidth(self), BitCount(self), cidrRange);
    }
  }

  /** For an IPv4 address and an IPv4 network: `match` compares the top `cidrRange` bits of
      the two 32-bit numbers. */
  lemma IPv4MatchIsPrefixTest(address: seq<int>, network: seq<int>, cidrRange: int)
    requires ValidOctets(address) && ValidOctets(network) && 0 <= cidrRange <= 32
    ensures Match(IPv4(address), IPv4(network), cidrRange)
         == Ok(BigEndian(address, 8) / Pow2(32 - cidrRange) == BigEndian(network, 8) / Pow2(32 - cidrRange))
  {
    MatchIsPrefixTest(IPv4(address), IPv4(network), cidrRange);
  }

  // ---------------------------------------------------------------------------
  // IPv4 text

  /** `IPv4.toString()`: the octets in decimal, joined with dots. */
  function IPv4Text(octets: seq<int>): (r: string)
  {
    Join(seq(|octets|, i requires 0 <= i < |octets| => IntText(octets[i], 10)), ".")
  }

  /** One `(\d+)` group of IPv4's pattern: one or more ASCII decimal digits. */
  predicate DecimalRun(s: string)
  {
    s != [] && forall k :: 0 <= k < |s| ==> IsDecimal(s[k])
  }

  /** `IPv4.parse(ip)`: the whole text must be four runs of decimal digits separated by dots;
      each run is read with `toInt()` (a value beyond `Int` is a NumberFormatException) and the
      constructor checks the octets. Every failure is an IllegalArgumentException. */
  function ParseIPv4(ip: string): (r: Result<IP>)
  {
    var runs := Split(ip, ".");
    if |runs| != 4 || exists i :: 0 <= i < 4 && !DecimalRun(runs[i]) then Fail(ArgumentError)
    else
      var values := seq(4, i requires 0 <= i < 4 => ParseInt(runs[i], 10));
      if exists i :: 0 <= i < 4 && values[i].None? then Fail(ArgumentError)
      else ConstructedIPv4(seq(4, i requires 0 <= i < 4 => values[i].value))
  }

  /** The text of an IPv4 address parses back to the same address. */
  lemma IPv4TextRoundTrip(octets: seq<int>)
    requires ValidOctets(octets)
    ensures ParseIPv4(IPv4Text(octets)) == Ok(IPv4(octets))
  {
    var texts := seq(4, i requires 0 <= i < 4 => IntText(octets[i], 10));
    forall i | 0 <= i < 4
      ensures texts[i] == NatText(octets[i], 10) && DecimalRun(texts[i]) && '.' !in texts[i]
      ensures ParseInt(texts[i], 10) == Some(octets[i])
    {
      NatTextChars(octets[i], 10);
      ParseNatText(octets[i], 10);
    }
    SplitJoin(texts, '.');
    var values := seq(4, i requires 0 <= i < 4 => ParseInt(texts[i], 10));
    assert seq(4, i requires 0 <= i < 4 => values[i].value) == octets;
  }

  /** A run of decimal digits has no sign, and `toInt()` reads it as its value when that fits
      in an `Int`. */
  lemma DecimalRunValue(r: string)
    requires DecimalRun(r)
    ensures AllDigitsOf(r, 10)
    ensures ParseInt(r, 10) == if DigitsValue(r, 10) <= IntMax then Some(DigitsValue(r, 10)) else None
  {
    assert IsDecimal(r[0]);
  }

  /** IPv4.parse succeeds exactly on four non-empty runs of decimal digits joined by '.', each
      worth at most 255 (leading zeros allowed), and the octets are the values of the runs. */
  lemma ParseIPv4Iff(ip: string)
    ensures var runs := Split(ip, ".");
      ParseIPv4(ip).Ok? <==>
        |runs| == 4 && forall i :: 0 <= i < 4 ==> DecimalRun(runs[i]) && DigitsValue(runs[i], 10) <= 255
    ensures var runs := Split(ip, ".");
      ParseIPv4(ip).Ok? ==>
        ParseIPv4(ip).value.IPv4? && |ParseIPv4(ip).value.octets| == 4
        && forall i :: 0 <= i < 4 ==> DecimalRun(runs[i]) && ParseIPv4(ip).value.octets[i] == DigitsValue(runs[i], 10)
  {
    var runs := Split(ip, ".");
    if |runs| == 4 && forall i :: 0 <= i < 4 ==> DecimalRun(runs[i]) {
      forall i | 0 <= i < 4
        ensures AllDigitsOf(runs[i], 10)
        ensures ParseInt(runs[i], 10) == if DigitsValue(runs[i], 10) <= IntMax then Some(DigitsValue(runs[i], 10)) else None
      {
        DecimalRunValue(runs[i]);
      }
      var values := seq(4, i requires 0 <= i < 4 => ParseInt(runs[i], 10));
      if forall i :: 0 <= i < 4 ==> DigitsValue(runs[i], 10) <= 255 {
        var octets := seq(4, i requires 0 <= i < 4 => values[i].value);
        assert forall i :: 0 <= i < 4 ==> values[i] == Some(DigitsValue(runs[i], 10));
        assert ValidOctets(octets);
      }
      if ParseIPv4(ip).Ok? {
        assert forall i :: 0 <= i < 4 ==> values[i].Some?;
        var octets := seq(4, i requires 0 <= i < 4 => values[i].value);
        assert ParseIPv4(ip) == ConstructedIPv4(octets);
        assert forall i :: 0 <= i < 4 ==> octets[i] == DigitsValue(runs[i], 10);
      }
    }
  }

  /** Text with a ':' in it is never an IPv4 address. */
  lemma ColonNotIPv4(ip: string)
    requires ':' in ip
    ensures ParseIPv4(ip) == Fail(ArgumentError)
  {
    var runs := Split(ip, ".");
    if |runs| == 4 && forall i :: 0 <= i < 4 ==> DecimalRun(runs[i]) {
      forall i | 0 <= i < 4
        ensures ':' !in runs[i]
      {
        assert forall k :: 0 <= k < |runs[i]| ==> runs[i][k] != ':';
      }
      JoinFree(runs, ".", ':');
      JoinSplit(ip, '.');
    }
  }

  /** A successful parse gives a valid IPv4 address. */
  lemma ParseIPv4Valid(ip: string)
    ensures ParseIPv4(ip).Ok? ==> ParseIPv4(ip).value.IPv4? && Valid(ParseIPv4(ip).value)
    ensures ParseIPv4(ip).Fail? ==> ParseIPv4(ip).failure == ArgumentError
  {
  }
}

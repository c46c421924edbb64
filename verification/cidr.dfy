/** `IPUtils.matchCIDR`: the group-wise prefix comparison of two addresses given as lists of
    fixed-width groups (8-bit octets for IPv4, 16-bit groups for IPv6), in the sense of CIDR
    prefixes (RFC 4632). */
module Cidr {
  import opened Results
  import opened Numerals

  /** Group `i` is reached by a prefix of `cidrBits` bits over groups of `width` bits. */
  predicate Covered(width: int, cidrBits: int, i: int)
  {
    i * width < cidrBits
  }

  /** How far group `i` is shifted right before the comparison: the bits of the group that lie
      beyond the prefix, never fewer than none. */
  function Shift(width: int, cidrBits: int, i: int): (r: nat)
  {
    var shift := width - (cidrBits - i * width);
    if shift < 0 then 0 else shift
  }

  /** Group `i` of both lists agrees on the bits the prefix keeps (`shr` on an Int is floor
      division by a power of two, which `/` is for a positive divisor). */
  predicate GroupAgrees(a: seq<int>, b: seq<int>, width: int, cidrBits: int, i: int)
    requires 0 <= i < |a| && |b| == |a|
  {
    a[i] / Pow2(Shift(width, cidrBits, i)) == b[i] / Pow2(Shift(width, cidrBits, i))
  }

  /** What `matchCIDR(a, b, width, cidrBits)` returns or throws: lists of different lengths are
      an argument error; a covered group that disagrees gives false; when every covered group
      agrees but the prefix is longer than the lists, the walk runs past the last group (index
      out of bounds); otherwise true. */
  function CidrMatch(a: seq<int>, b: seq<int>, width: int, cidrBits: int): (r: Result<bool>)
    requires 0 < width < 32
  {
    if |a| != |b| then Fail(ArgumentError)
    else if exists i :: 0 <= i < |a| && Covered(width, cidrBits, i) && !GroupAgrees(a, b, width, cidrBits, i)
    then Ok(false)
    else if cidrBits > |a| * width then Fail(OtherError)
    else Ok(true)
  }

  /** IPUtils.matchCIDR: walks the groups from the most significant one while prefix bits
      remain. */
  method MatchCIDR(firstParts: seq<int>, secondParts: seq<int>, partSize: int, cidrBits: int)
    returns (r: Result<bool>)
    requires 0 < partSize < 32
    ensures r == CidrMatch(firstParts, secondParts, partSize, cidrBits)
  {
    if |firstParts| != |secondParts| {
      return Fail(ArgumentError);
    }
    var mutableCidrBits := cidrBits;
    var part := 0;
    while mutableCidrBits > 0
      invariant 0 <= part <= |firstParts|
      invariant mutableCidrBits == cidrBits - part * partSize
      invariant forall i :: 0 <= i < part ==>
          Covered(partSize, cidrBits, i) && GroupAgrees(firstParts, secondParts, partSize, cidrBits, i)
      decreases mutableCidrBits
    {
      var shift := partSize - mutableCidrBits;
      if shift < 0 {
        shift := 0;
      }
      if part == |firstParts| {
        // firstParts[part] is out of bounds
        MulMonotoneInt(part, |firstParts|, partSize);
        return Fail(OtherError);
      }
      assert shift == Shift(partSize, cidrBits, part);
      if firstParts[part] / Pow2(shift) != secondParts[part] / Pow2(shift) {
        assert Covered(partSize, cidrBits, part);
        return Ok(false);
      }
      mutableCidrBits := mutableCidrBits - partSize;
      part := part + 1;
    }
    CoveredBelow(partSize, cidrBits, part);
    MulMonotoneInt(part, |firstParts|, partSize);
    return Ok(true);
  }

  /** Once the prefix bits are used up after `part` groups, no later group is covered. */
  lemma CoveredBelow(width: int, cidrBits: int, part: int)
    requires width > 0 && part >= 0 && cidrBits - part * width <= 0
    ensures forall i :: 0 <= i && Covered(width, cidrBits, i) ==> i < part
  {
    forall i | 0 <= i && Covered(width, cidrBits, i)
      ensures i < part
    {
      if i >= part {
        MulMonotoneInt(part, i, width);
      }
    }
  }

  lemma MulMonotoneInt(x: int, y: int, k: int)
    requires x <= y && k >= 0
    ensures x * k <= y * k
  {
  }

  // ---------------------------------------------------------------------------
  // Properties

  /** With a prefix of zero bits or fewer, any two lists of the same length match. */
  lemma ZeroPrefixMatches(a: seq<int>, b: seq<int>, width: int, cidrBits: int)
    requires 0 < width < 32 && |a| == |b| && cidrBits <= 0
    ensures CidrMatch(a, b, width, cidrBits) == Ok(true)
  {
    forall i | 0 <= i < |a| ensures !Covered(width, cidrBits, i) {
      MulMonotoneInt(0, i, width);
    }
  }

  /** Every group is a `width`-bit unsigned value. */
  predicate FitsWidth(a: seq<int>, width: nat)
  {
    forall i :: 0 <= i < |a| ==> 0 <= a[i] < Pow2(width)
  }

  /** With the full width as prefix, two lists of groups match exactly when they are equal. */
  lemma FullWidthMatchesEqual(a: seq<int>, b: seq<int>, width: int)
    requires 0 < width < 32 && |a| == |b|
    ensures CidrMatch(a, b, width, |a| * width) == Ok(a == b)
  {
    var c := |a| * width;
    forall i | 0 <= i < |a|
      ensures Covered(width, c, i) && Shift(width, c, i) == 0
    {
      MulMonotoneInt(i + 1, |a|, width);
    }
    if a != b {
      var i :| 0 <= i < |a| && a[i] != b[i];
      assert !GroupAgrees(a, b, width, c, i);
    }
  }

  /** A prefix that matches also matches when shortened. */
  lemma ShorterPrefixMatches(a: seq<int>, b: seq<int>, width: int, c: int, c': int)
    requires 0 < width < 32 && c' <= c
    requires CidrMatch(a, b, width, c) == Ok(true)
    ensures CidrMatch(a, b, width, c') == Ok(true)
  {
    forall i | 0 <= i < |a| && Covered(width, c', i)
      ensures GroupAgrees(a, b, width, c', i)
    {
      assert Covered(width, c, i);
      assert GroupAgrees(a, b, width, c, i);
      var s, s' := Shift(width, c, i), Shift(width, c', i);
      assert s <= s';
      Pow2Add(s, s' - s);
      DivDiv(a[i], Pow2(s), Pow2(s' - s));
      DivDiv(b[i], Pow2(s), Pow2(s' - s));
    }
  }

  // ---------------------------------------------------------------------------
  // matchCIDR as a comparison of the top bits of two big-endian numbers

  /** The number whose big-endian base-2^width digits are the groups. */
  function BigEndian(a: seq<int>, width: nat): (r: int)
  {
    if a == [] then 0 else a[0] * Pow2(width * (|a| - 1)) + BigEndian(a[1..], width)
  }

  lemma {:induction false} Pow2Add(x: nat, y: nat)
    ensures Pow2(x + y) == Pow2(x) * Pow2(y)
    decreases x
  {
    if x > 0 {
      Pow2Add(x - 1, y);
    }
  }

  lemma DivDiv(x: int, m: nat, k: nat)
    requires m >= 1 && k >= 1
    ensures x / (m * k) == x / m / k
  {
    var q := x / m / k;
    var r1 := x % m;
    var r2 := (x / m) % k;
    assert x == (x / m) * m + r1;
    assert x / m == q * k + r2;
    assert x == q * (m * k) + (r2 * m + r1);
    assert 0 <= r2 * m + r1 < m * k by {
      MulMonotoneInt(r2, k - 1, m);
    }
    DivUnique(x, m * k, q, r2 * m + r1);
  }

  lemma DivUnique(x: int, d: nat, q: int, r: int)
    requires d >= 1 && x == q * d + r && 0 <= r < d
    ensures x / d == q && x % d == r
  {
    var q', r' := x / d, x % d;
    assert q' * d + r' == q * d + r;
    assert (q - q') * d == r' - r;
    if q > q' {
      MulMonotoneInt(1, q - q', d);
    } else if q < q' {
      MulMonotoneInt(1, q' - q, d);
    }
  }

  /** Digits below the divisor do not affect the quotient. */
  lemma DivTopDigit(x: int, p: nat, v: int, k: nat)
    requires p >= 1 && k >= 1 && 0 <= v < p * k
    ensures (x * (p * k) + v) / k == x * p + v / k
  {
    var q := v / k;
    assert v == q * k + v % k;
    assert x * (p * k) + v == (x * p + q) * k + v % k;
    DivUnique(x * (p * k) + v, k, x * p + q, v % k);
  }

  /** The top digit alone decides the quotient by a divisor above the lower digits. */
  lemma DivBelowDigit(x: int, p: nat, v: int, k: nat)
    requires p >= 1 && k >= 1 && 0 <= v < p
    ensures (x * p + v) / (p * k) == x / k
  {
    var q := x / k;
    var r := x % k;
    assert x == q * k + r;
    assert x * p + v == q * (p * k) + (r * p + v);
    assert 0 <= r * p + v < p * k by {
      MulMonotoneInt(r, k - 1, p);
    }
    DivUnique(x * p + v, p * k, q, r * p + v);
  }

  /** Dropping the `lo` lowest units of two numbers with the same top digit base `hi * lo`
      leaves equal numbers exactly when the top digits agree and so do the rest. */
  lemma TopDigitsEqual(x: int, y: int, u: int, v: int, hi: nat, lo: nat)
    requires hi >= 1 && lo >= 1 && 0 <= u < hi * lo && 0 <= v < hi * lo
    ensures (x * (hi * lo) + u) / lo == (y * (hi * lo) + v) / lo <==> x == y && u / lo == v / lo
  {
    var big := hi * lo;
    assert lo * hi == big;
    DivBelow(u, lo, hi);
    DivBelow(v, lo, hi);
    var ru, rv := u / lo, v / lo;
    DivTopDigit(x, hi, u, lo);
    DivTopDigit(y, hi, v, lo);
    assert (x * big + u) / lo == x * hi + ru;
    assert (y * big + v) / lo == y * hi + rv;
    DigitsEqual(x, ru, y, rv, hi);
  }

  /** Two numbers written with the same base `m` and digits below it are equal digit by digit. */
  lemma DigitsEqual(x: int, r: int, y: int, r': int, m: nat)
    requires m >= 1 && 0 <= r < m && 0 <= r' < m
    ensures x * m + r == y * m + r' <==> x == y && r == r'
  {
    if x * m + r == y * m + r' {
      DivUnique(x * m + r, m, x, r);
      DivUnique(y * m + r', m, y, r');
    }
  }

  lemma {:induction false} BigEndianBound(a: seq<int>, width: nat)
    requires FitsWidth(a, width)
    ensures 0 <= BigEndian(a, width) < Pow2(width * |a|)
    decreases |a|
  {
    if a != [] {
      var n := |a|;
      var p := Pow2(width * (n - 1));
      BigEndianBound(a[1..], width);
      WidthSplit(width, n);
      Pow2Add(width, width * (n - 1));
      DigitBound(a[0], BigEndian(a[1..], width), Pow2(width), p);
    }
  }

  lemma WidthSplit(width: nat, n: nat)
    requires n >= 1
    ensures width * n == width + width * (n - 1)
  {
  }

  /** A digit below `base` followed by a remainder below `p` stays below `base * p`. */
  lemma DigitBound(d: int, rest: int, base: nat, p: nat)
    requires 0 <= d < base && 0 <= rest < p
    ensures 0 <= d * p + rest < base * p
  {
    MulMonotoneInt(d, base - 1, p);
    MulMonotoneInt(0, d, p);
  }

  /** Walking one full group: the first groups must be equal and the rest match on the
      remaining bits. */
  lemma CidrMatchStep(a: seq<int>, b: seq<int>, width: int, c: int)
    requires 0 < width < 32 && |a| == |b| >= 1 && c >= width
    ensures CidrMatch(a, b, width, c)
         == if a[0] != b[0] then Ok(false) else CidrMatch(a[1..], b[1..], width, c - width)
  {
    var n := |a|;
    var ta, tb, c' := a[1..], b[1..], c - width;
    assert Covered(width, c, 0) && Shift(width, c, 0) == 0;
    forall i | 0 <= i < n - 1
      ensures Covered(width, c, i + 1) == Covered(width, c', i)
      ensures GroupAgrees(a, b, width, c, i + 1) == GroupAgrees(ta, tb, width, c', i)
    {
      assert (i + 1) * width == i * width + width;
      assert Shift(width, c, i + 1) == Shift(width, c', i);
    }
    assert n * width == (n - 1) * width + width;
    if a[0] == b[0] {
      assert GroupAgrees(a, b, width, c, 0);
      if exists i :: 0 <= i < n - 1 && Covered(width, c', i) && !GroupAgrees(ta, tb, width, c', i) {
        var i :| 0 <= i < n - 1 && Covered(width, c', i) && !GroupAgrees(ta, tb, width, c', i);
        assert Covered(width, c, i + 1) && !GroupAgrees(a, b, width, c, i + 1);
      } else {
        forall i | 0 <= i < n && Covered(width, c, i)
          ensures GroupAgrees(a, b, width, c, i)
        {
          if i > 0 {
            assert Covered(width, c', i - 1);
          }
        }
      }
    } else {
      assert !GroupAgrees(a, b, width, c, 0);
    }
  }

  /** With fewer prefix bits than one group, only the first group is compared. */
  lemma CidrMatchPartial(a: seq<int>, b: seq<int>, width: int, c: int)
    requires 0 < width < 32 && |a| == |b| >= 1 && 0 < c < width
    ensures CidrMatch(a, b, width, c) == Ok(a[0] / Pow2(width - c) == b[0] / Pow2(width - c))
  {
    assert Covered(width, c, 0) && Shift(width, c, 0) == width - c;
    forall i | 1 <= i < |a|
      ensures !Covered(width, c, i)
    {
      MulMonotoneInt(1, i, width);
    }
    MulMonotoneInt(1, |a|, width);
  }

  /** matchCIDR compares the top `c` bits of the two addresses read as big-endian numbers. */
  lemma {:induction false} CidrMatchIsPrefixTest(a: seq<int>, b: seq<int>, width: nat, c: int)
    requires 0 < width < 32 && |a| == |b| && FitsWidth(a, width) && FitsWidth(b, width)
    requires 0 <= c <= |a| * width
    ensures CidrMatch(a, b, width, c)
         == Ok(BigEndian(a, width) / Pow2(|a| * width - c) == BigEndian(b, width) / Pow2(|a| * width - c))
    decreases |a|
  {
    if c == 0 {
      PrefixTestEmpty(a, b, width);
    } else if c >= width {
      assert |a| >= 1;
      assert |a[1..]| * width == |a| * width - width;
      CidrMatchIsPrefixTest(a[1..], b[1..], width, c - width);
      PrefixTestWhole(a, b, width, c);
    } else {
      PrefixTestPartial(a, b, width, c);
    }
  }

  /** `CidrMatchIsPrefixTest` with no prefix bits: both quotients are zero. */
  lemma PrefixTestEmpty(a: seq<int>, b: seq<int>, width: nat)
    requires 0 < width < 32 && |a| == |b| && FitsWidth(a, width) && FitsWidth(b, width)
    ensures CidrMatch(a, b, width, 0)
         == Ok(BigEndian(a, width) / Pow2(|a| * width) == BigEndian(b, width) / Pow2(|a| * width))
  {
    var n := |a|;
    var va, vb := BigEndian(a, width), BigEndian(b, width);
    BigEndianBound(a, width);
    BigEndianBound(b, width);
    assert width * n == n * width;
    ZeroPrefixMatches(a, b, width, 0);
    DivUnique(va, Pow2(n * width), 0, va);
    DivUnique(vb, Pow2(n * width), 0, vb);
  }

  /** The inductive step of `CidrMatchIsPrefixTest`: a prefix covering the first group. */
  lemma PrefixTestWhole(a: seq<int>, b: seq<int>, width: nat, c: int)
    requires 0 < width < 32 && |a| == |b| >= 1 && FitsWidth(a, width) && FitsWidth(b, width)
    requires width <= c <= |a| * width
    requires var m := (|a| - 1) * width;
      CidrMatch(a[1..], b[1..], width, c - width)
      == Ok(BigEndian(a[1..], width) / Pow2(m - (c - width)) == BigEndian(b[1..], width) / Pow2(m - (c - width)))
    ensures CidrMatch(a, b, width, c)
         == Ok(BigEndian(a, width) / Pow2(|a| * width - c) == BigEndian(b, width) / Pow2(|a| * width - c))
  {
    CidrMatchStep(a, b, width, c);
    TopBitsSplit(a, b, width, c);
  }

  /** The top `c` bits of two big-endian numbers agree exactly when their first groups are
      equal and the top `c - width` bits of the rest agree. */
  lemma TopBitsSplit(a: seq<int>, b: seq<int>, width: nat, c: int)
    requires 0 < width < 32 && |a| == |b| >= 1 && FitsWidth(a, width) && FitsWidth(b, width)
    requires width <= c <= |a| * width
    ensures var n, m := |a|, (|a| - 1) * width;
      BigEndian(a, width) / Pow2(n * width - c) == BigEndian(b, width) / Pow2(n * width - c)
      <==> a[0] == b[0]
           && BigEndian(a[1..], width) / Pow2(m - (c - width)) == BigEndian(b[1..], width) / Pow2(m - (c - width))
  {
    var n := |a|;
    var ta, tb := a[1..], b[1..];
    var m := (n - 1) * width;
    assert width * (n - 1) == m;
    assert n * width - c == m - (c - width);
    BigEndianBound(ta, width);
    BigEndianBound(tb, width);
    assert BigEndian(a, width) == a[0] * Pow2(m) + BigEndian(ta, width);
    assert BigEndian(b, width) == b[0] * Pow2(m) + BigEndian(tb, width);
    TopDigitsBelow(a[0], b[0], BigEndian(ta, width), BigEndian(tb, width), m, m - (c - width));
  }

  /** `TopDigitsEqual` with powers of two: digit base `2^m`, dropping the lowest `d` bits. */
  lemma TopDigitsBelow(x: int, y: int, u: int, v: int, m: nat, d: nat)
    requires d <= m && 0 <= u < Pow2(m) && 0 <= v < Pow2(m)
    ensures (x * Pow2(m) + u) / Pow2(d) == (y * Pow2(m) + v) / Pow2(d) <==> x == y && u / Pow2(d) == v / Pow2(d)
  {
    Pow2Add(m - d, d);
    TopDigitsEqual(x, y, u, v, Pow2(m - d), Pow2(d));
  }

  /** `CidrMatchIsPrefixTest` with a prefix inside the first group. */
  lemma PrefixTestPartial(a: seq<int>, b: seq<int>, width: nat, c: int)
    requires 0 < width < 32 && |a| == |b| && FitsWidth(a, width) && FitsWidth(b, width)
    requires 0 < c < width && c <= |a| * width
    ensures CidrMatch(a, b, width, c)
         == Ok(BigEndian(a, width) / Pow2(|a| * width - c) == BigEndian(b, width) / Pow2(|a| * width - c))
  {
    var n := |a|;
    assert n >= 1;
    var ta, tb := a[1..], b[1..];
    var m := (n - 1) * width;
    assert width * (n - 1) == m;
    assert n * width == m + width;
    BigEndianBound(ta, width);
    BigEndianBound(tb, width);
    var p := Pow2(m);
    var k := width - c;
    Pow2Add(m, k);
    CidrMatchPartial(a, b, width, c);
    DivBelowDigit(a[0], p, BigEndian(ta, width), Pow2(k));
    DivBelowDigit(b[0], p, BigEndian(tb, width), Pow2(k));
  }

  /** Lists of the same length never make matchCIDR throw while the prefix fits. */
  lemma CidrMatchOk(a: seq<int>, b: seq<int>, width: int, c: int)
    requires 0 < width < 32 && |a| == |b| && c <= |a| * width
    ensures CidrMatch(a, b, width, c).Ok?
  {
  }

  /** A prefix of `k` whole groups compares exactly the first `k` groups. */
  lemma {:induction false} CidrWholeGroups(a: seq<int>, b: seq<int>, width: int, k: nat)
    requires 0 < width < 32 && |a| == |b| && k <= |a|
    ensures CidrMatch(a, b, width, k * width) == Ok(a[..k] == b[..k])
    decreases k
  {
    if k == 0 {
      ZeroPrefixMatches(a, b, width, 0);
    } else {
      MulMonotoneInt(1, k, width);
      CidrMatchStep(a, b, width, k * width);
      assert k * width - width == (k - 1) * width;
      CidrWholeGroups(a[1..], b[1..], width, k - 1);
      assert a[..k] == [a[0]] + a[1..][..k - 1];
      assert b[..k] == [b[0]] + b[1..][..k - 1];
      if a[..k] == b[..k] {
        assert a[0] == a[..k][0] && b[0] == b[..k][0];
        assert a[1..][..k - 1] == a[..k][1..];
      }
    }
  }

  /** The example of a /16 network: 192.168.1.5 lies in 192.168.0.0/16 and not in
      192.169.0.0/16. */
  lemma Slash16Example()
    ensures CidrMatch([192, 168, 1, 5], [192, 168, 0, 0], 8, 16) == Ok(true)
    ensures CidrMatch([192, 168, 1, 5], [192, 169, 0, 0], 8, 16) == Ok(false)
  {
    CidrWholeGroups([192, 168, 1, 5], [192, 168, 0, 0], 8, 2);
    CidrWholeGroups([192, 168, 1, 5], [192, 169, 0, 0], 8, 2);
    assert [192, 168, 1, 5][..2] != [192, 169, 0, 0][..2] by {
      assert [192, 168, 1, 5][..2][1] == 168;
    }
  }
}

/** Kotlin's 32-bit `Int`, `String.toInt(radix)` (which is Integer.parseInt) and
    `Int.toString(radix)`, over the ASCII digits and letters. */
module Numerals {
  import opened Results

  const IntMin: int := -0x8000_0000
  const IntMax: int := 0x7fff_ffff

  /** Kotlin's `Int`. */
  type Int32 = x: int | -0x8000_0000 <= x <= 0x7fff_ffff

  function Pow2(k: nat): (p: nat)
    ensures p >= 1
  {
    if k == 0 then 1 else 2 * Pow2(k - 1)
  }

  /** Character.digit for the ASCII digits and letters (a letter is worth 10 to 35 in either
      case); -1 for any other character. */
  function DigitValue(c: char): (r: int)
  {
    if '0' <= c <= '9' then c as int - '0' as int
    else if 'a' <= c <= 'z' then c as int - 'a' as int + 10
    else if 'A' <= c <= 'Z' then c as int - 'A' as int + 10
    else -1
  }

  predicate IsDigitOf(c: char, radix: nat)
  {
    0 <= DigitValue(c) < radix
  }

  predicate AllDigitsOf(s: string, radix: nat)
  {
    forall i :: 0 <= i < |s| ==> IsDigitOf(s[i], radix)
  }

  /** The value of a run of digits, most significant first. */
  function DigitsValue(s: string, radix: nat): (r: nat)
    requires AllDigitsOf(s, radix)
    decreases |s|
  {
    if s == [] then 0 else DigitsValue(s[..|s| - 1], radix) * radix + DigitValue(s[|s| - 1])
  }

  /** `s.toInt(radix)`: an optional '-' or '+', then at least one digit of the radix, and a
      value that fits in an `Int`. `None` stands for the NumberFormatException it throws
      otherwise. */
  function ParseInt(s: string, radix: nat): (r: Option<Int32>)
    requires 2 <= radix <= 36
  {
    if s == [] then None
    else
      var signed := s[0] == '-' || s[0] == '+';
      var digits := if signed then s[1..] else s;
      if digits == [] || !AllDigitsOf(digits, radix) then None
      else
        var magnitude: int := DigitsValue(digits, radix);
        var v := if s[0] == '-' then -magnitude else magnitude;
        if IntMin <= v <= IntMax then Some(v) else None
  }

  /** The lower-case digit for `d`. */
  function DigitChar(d: nat): (r: char)
    requires d < 16
  {
    if d < 10 then (d + 48) as char else (d + 87) as char
  }

  /** `n.toString(radix)` for `n >= 0`: no leading zeros, lower-case letters. */
  function NatText(n: nat, radix: nat): (r: string)
    requires 2 <= radix <= 16
    decreases n
  {
    if n < radix then [DigitChar(n)] else NatText(n / radix, radix) + [DigitChar(n % radix)]
  }

  /** `x.toString(radix)`, with a minus sign before a negative value. */
  function IntText(x: int, radix: nat): (r: string)
    requires 2 <= radix <= 16
  {
    if x < 0 then "-" + NatText(-x, radix) else NatText(x, radix)
  }

  /** A decimal digit. */
  predicate IsDecimal(c: char)
  {
    '0' <= c <= '9'
  }

  /** A digit of `toString(16)`'s output. */
  predicate IsLowerHex(c: char)
  {
    '0' <= c <= '9' || 'a' <= c <= 'f'
  }

  // ---------------------------------------------------------------------------

  lemma DigitCharValue(d: nat)
    requires d < 16
    ensures DigitValue(DigitChar(d)) == d && IsLowerHex(DigitChar(d))
    ensures d < 10 ==> IsDecimal(DigitChar(d))
    ensures DigitChar(d) == '0' <==> d == 0
  {
  }

  lemma DivBelow(n: nat, b: nat, p: nat)
    requires b >= 1 && n < b * p
    ensures n / b < p
  {
    var q := n / b;
    assert q * b <= n;
    if q >= p {
      MulMonotone(p, q, b);
    }
  }

  lemma DivShrinks(n: nat, b: nat)
    requires b >= 2 && n >= 1
    ensures n / b < n
  {
  }

  lemma MulMonotone(a: nat, c: nat, b: nat)
    requires a <= c
    ensures a * b <= c * b
  {
  }

  /** The characters of `toString(radix)`. */
  lemma {:induction false} NatTextChars(n: nat, radix: nat)
    requires 2 <= radix <= 16
    ensures AllDigitsOf(NatText(n, radix), radix)
    ensures forall i :: 0 <= i < |NatText(n, radix)| ==> IsLowerHex(NatText(n, radix)[i])
    ensures radix == 10 ==> forall i :: 0 <= i < |NatText(n, radix)| ==> IsDecimal(NatText(n, radix)[i])
    ensures |NatText(n, radix)| == 1 || NatText(n, radix)[0] != '0'
    decreases n
  {
    if n < radix {
      DigitCharValue(n);
    } else {
      var q, m := n / radix, n % radix;
      DivShrinks(n, radix);
      NatTextChars(q, radix);
      DigitCharValue(m);
      var u := NatText(q, radix);
      assert NatText(n, radix) == u + [DigitChar(m)];
      assert q >= 1;
      if |u| == 1 {
        assert q < radix;
        DigitCharValue(q);
      }
    }
  }

  lemma DigitsValueSnoc(u: string, c: char, radix: nat)
    requires AllDigitsOf(u, radix) && IsDigitOf(c, radix)
    ensures AllDigitsOf(u + [c], radix)
    ensures DigitsValue(u + [c], radix) == DigitsValue(u, radix) * radix + DigitValue(c)
  {
    assert (u + [c])[..|u|] == u;
  }

  /** Printing a natural number and reading it back gives the number. */
  lemma {:induction false} NatTextValue(n: nat, radix: nat)
    requires 2 <= radix <= 16
    ensures AllDigitsOf(NatText(n, radix), radix)
    ensures DigitsValue(NatText(n, radix), radix) == n
    decreases n
  {
    if n < radix {
      DigitCharValue(n);
      assert NatText(n, radix)[..0] == [];
    } else {
      var q, m := n / radix, n % radix;
      assert n == q * radix + m;
      DivShrinks(n, radix);
      NatTextValue(q, radix);
      DigitCharValue(m);
      DigitsValueSnoc(NatText(q, radix), DigitChar(m), radix);
    }
  }

  /** `toString(radix)` of a non-negative Int parses back with `toInt(radix)`. */
  lemma ParseNatText(n: nat, radix: nat)
    requires 2 <= radix <= 16 && n <= IntMax
    ensures ParseInt(NatText(n, radix), radix) == Some(n)
  {
    NatTextValue(n, radix);
    NatTextChars(n, radix);
    var t := NatText(n, radix);
    assert IsLowerHex(t[0]);
  }

  /** `toInt(radix)` of an unsigned run of digits whose value fits an Int is that value. */
  lemma ParseDigits(s: string, radix: nat)
    requires 2 <= radix <= 36 && s != [] && AllDigitsOf(s, radix) && DigitsValue(s, radix) <= IntMax
    ensures ParseInt(s, radix) == Some(DigitsValue(s, radix))
  {
    assert IsDigitOf(s[0], radix);
  }

  /** Leading zeros do not change the value of a run of digits. */
  lemma {:induction false} LeadingZerosValue(zeros: string, s: string, radix: nat)
    requires 2 <= radix && AllDigitsOf(s, radix)
    requires forall i :: 0 <= i < |zeros| ==> zeros[i] == '0'
    ensures AllDigitsOf(zeros + s, radix)
    ensures DigitsValue(zeros + s, radix) == DigitsValue(s, radix)
    decreases |zeros| + |s|
  {
    var t := zeros + s;
    if s == [] {
      assert t == zeros;
      if zeros != [] {
        LeadingZerosValue(zeros[..|zeros| - 1], [], radix);
        assert zeros[..|zeros| - 1] + [] == t[..|t| - 1];
      }
    } else {
      LeadingZerosValue(zeros, s[..|s| - 1], radix);
      assert t[..|t| - 1] == zeros + s[..|s| - 1];
    }
  }

  function Power(b: nat, k: nat): (r: nat)
  {
    if k == 0 then 1 else b * Power(b, k - 1)
  }

  /** A number below radix^k has at most k digits. */
  lemma {:induction false} NatTextLength(n: nat, radix: nat, k: nat)
    requires 2 <= radix <= 16 && 1 <= k && n < Power(radix, k)
    ensures 1 <= |NatText(n, radix)| <= k
    decreases k
  {
    if n >= radix {
      assert k > 1;
      DivBelow(n, radix, Power(radix, k - 1));
      NatTextLength(n / radix, radix, k - 1);
    }
  }

  /** At most four hexadecimal digits for a 16-bit value. */
  lemma HexTextLength(n: nat)
    requires n <= 0xffff
    ensures 1 <= |NatText(n, 16)| <= 4
  {
    assert Power(16, 4) == 0x10000;
    NatTextLength(n, 16, 4);
  }
}

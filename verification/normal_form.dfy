/** What `validate` and `normalize` accept and produce, and the text `toString` gives an IPv6
    address, stated group by group. */
module IPv6NormalForm {
  import opened Results
  import opened Strings
  import opened Numerals
  import opened ZeroRuns
  import opened IPv6Text
  import opened IPv6TextFacts
  import opened Addresses
  import opened Parsing

  // ---------------------------------------------------------------------------
  // validate

  /** With a "::", validate counts the groups of the text before it twice and never looks at
      the text after it; so it accepts at most three groups before the "::". */
  lemma LeftHalfCountedTwice(ip: string)
    requires |Split(ip, "::")| == 2
    ensures var left := NonEmpty(Split(Split(ip, "::")[0], ":"));
      CheckedGroups(ip) == left + left
      && (Validates(ip) ==> |left| <= 3)
  {
    var l := Split(Split(ip, "::")[0], ":");
    NonEmptyAppend(l, l);
  }

  /** Text that validate accepts holds a ':'. */
  lemma ValidatedHasColon(ip: string)
    requires Validates(ip)
    ensures ':' in ip
  {
    var nh := Split(ip, "::");
    if |nh| == 2 {
      SplitFound(ip, "::");
      var k :| OccursAt(ip, "::", k);
      assert ip[k] == ip[k..k + 2][0];
    } else {
      var left := nh[0];
      NonEmptyLength(Split(left, ":"));
      SplitFound(left, ":");
      var k :| OccursAt(left, ":", k);
      SplitFirstPrefix(ip, "::");
      assert ip[k] == left[k] == left[k..k + 1][0];
    }
  }

  // ---------------------------------------------------------------------------
  // normalize

  /** Whatever normalize returns is eight groups of at least four characters, none of them a
      ':'. */
  lemma NormalizedGroupsShape(ip: string)
    ensures NormalizedGroups(ip).Ok? ==>
      var groups := NormalizedGroups(ip).value;
      |groups| == 8 && forall i :: 0 <= i < 8 ==> |groups[i]| >= 4 && ':' !in groups[i]
  {
    if NormalizedGroups(ip).Ok? {
      var low := Lower(ip);
      var nh := Split(low, "::");
      SplitPiecesFree(low, ':');
      SplitPiecesFree(nh[0], ':');
      if |nh| == 2 {
        SplitPiecesFree(nh[1], ':');
      }
    }
  }

  /** Non-empty pieces without ':' joined with ':' never hold "::". */
  lemma {:induction false} NoDoubleColon(pieces: seq<string>)
    requires forall i :: 0 <= i < |pieces| ==> pieces[i] != "" && ':' !in pieces[i]
    ensures var s := Join(pieces, ":");
      forall k :: 0 <= k < |s| - 1 ==> !(s[k] == ':' && s[k + 1] == ':')
    ensures var s := Join(pieces, ":");
      |pieces| >= 1 ==> s != [] && s[0] != ':' && s[|s| - 1] != ':'
    decreases |pieces|
  {
    if |pieces| >= 2 {
      var p, rest := pieces[0], pieces[1..];
      var r := Join(rest, ":");
      var s := Join(pieces, ":");
      assert s == p + ":" + r by {
        assert rest[1..] == pieces[2..];
      }
      NoDoubleColon(rest);
      assert r[0] == rest[0][0];
      assert rest[0][0] in rest[0];
      assert s[0] == p[0] && p[0] in p;
      assert s[|s| - 1] == r[|r| - 1];
      forall k | 0 <= k < |s| - 1
        ensures !(s[k] == ':' && s[k + 1] == ':')
      {
        if k < |p| {
          assert s[k] == p[k];
        } else if k == |p| {
          assert s[k + 1] == r[0];
        } else {
          assert s[k] == r[k - |p| - 1] && s[k + 1] == r[k - |p|];
        }
      }
    } else if |pieces| == 1 {
      var p := pieces[0];
      assert Join(pieces, ":") == p;
      assert p[0] in p && p[|p| - 1] in p;
    }
  }

  /** Eight groups of one to four lower-case hexadecimal digits joined with ':' pass validate,
      and normalize pads each of them to four digits. */
  lemma FullTextNormalizes(gs: seq<string>)
    requires |gs| == 8
    requires forall i :: 0 <= i < 8 ==> 1 <= |gs[i]| <= 4 && forall k :: 0 <= k < |gs[i]| ==> IsLowerHex(gs[i][k])
    ensures Validates(Join(gs, ":"))
    ensures NormalizedGroups(Join(gs, ":")) == Ok(seq(8, i requires 0 <= i < 8 => PadStart(gs[i], 4, '0')))
  {
    var s := Join(gs, ":");
    FullTextSplits(gs);
    assert Validates(s);
    assert seq(8, i requires 0 <= i < 8 => PadSlot(Some(gs[i])))
        == seq(8, i requires 0 <= i < 8 => PadStart(gs[i], 4, '0'));
  }

  /** How validate and normalize take apart such a text: it is already lower case, holds no
      "::", and its ':'-separated groups, empty ones dropped or not, are the eight groups. */
  lemma FullTextSplits(gs: seq<string>)
    requires |gs| == 8
    requires forall i :: 0 <= i < 8 ==> 1 <= |gs[i]| <= 4 && forall k :: 0 <= k < |gs[i]| ==> IsLowerHex(gs[i][k])
    ensures var s := Join(gs, ":");
      Lower(s) == s && Split(s, "::") == [s] && Split(s, ":") == gs && CheckedGroups(s) == gs
      && forall i :: 0 <= i < 8 ==> HexGroup(gs[i])
  {
    var s := Join(gs, ":");
    forall i | 0 <= i < 8
      ensures gs[i] != "" && ':' !in gs[i] && HexGroup(gs[i])
      ensures forall c :: 'A' <= c <= 'Z' ==> c !in gs[i]
    {
    }
    assert LowerPieces(gs);
    NoDoubleColon(gs);
    WithoutPair(s);
    SplitNone(s, "::");
    LowerJoin(gs);
    LowerUnchanged(s);
    NonEmptyAll(gs);
  }

  // ---------------------------------------------------------------------------
  // toString

  /** The groups `toString` writes for an IPv6 address before the zero run is chosen: a zero
      group as "0", the first group of any other value padded to four digits, and every other
      group in hexadecimal without leading zeros. */
  function PrintedGroups(parts: seq<int>): (r: seq<string>)
    requires ValidParts(parts)
  {
    seq(8, i requires 0 <= i < 8 =>
      if parts[i] == 0 then "0"
      else if i == 0 then PadStart(NatText(parts[0], 16), 4, '0')
      else NatText(parts[i], 16))
  }

  /** `toString(16)` of a positive value does not start with '0'. */
  lemma NoLeadingZero(n: nat)
    requires n > 0
    ensures NatText(n, 16)[0] != '0'
  {
    NatTextChars(n, 16);
    if n >= 16 {
      assert |NatText(n / 16, 16)| >= 1;
    }
  }

  lemma {:induction false} StripPadding(zeros: string, t: string)
    requires forall i :: 0 <= i < |zeros| ==> zeros[i] == '0'
    requires t != [] && t[0] != '0'
    ensures StripLeadingZeros(zeros + t) == t
    decreases |zeros|
  {
    if zeros != [] {
      assert (zeros + t)[1..] == zeros[1..] + t;
      StripPadding(zeros[1..], t);
    } else {
      assert zeros + t == t;
    }
  }

  /** A 16-bit value padded to four hexadecimal digits: a full group, "0000" exactly for zero,
      and giving back the unpadded text once its leading zeros are stripped. */
  lemma PaddedGroup(n: nat)
    requires n <= 0xffff
    ensures var g := PadStart(NatText(n, 16), 4, '0');
      FullGroup(g) && (g == "0000" <==> n == 0)
      && (n != 0 ==> StripLeadingZeros(g) == NatText(n, 16))
  {
    var t := NatText(n, 16);
    HexTextLength(n);
    NatTextChars(n, 16);
    var zeros := seq(4 - |t|, _ => '0');
    var g := PadStart(t, 4, '0');
    assert g == zeros + t;
    if n != 0 {
      NoLeadingZero(n);
      StripPadding(zeros, t);
      assert g[4 - |t|] == t[0];
    } else {
      assert t == "0";
    }
  }

  /** `toString` of an IPv6 address: the printed groups with the leftmost longest run of two
      or more zero groups written "::" (section 4.2 of RFC 5952), except that a non-zero first
      group keeps the leading zeros normalize gave it. */
  lemma IPv6TextForm(parts: seq<int>)
    requires ValidParts(parts)
    ensures Text(IPv6(parts)) == Ok(CompressedText(PrintedGroups(parts)))
  {
    HexTextNormalizes(parts);
    var groups := PaddedHexGroups(parts);
    forall i | 0 <= i < 8
      ensures FullGroup(groups[i]) && SqueezedGroups(groups)[i] == PrintedGroups(parts)[i]
    {
      PaddedGroup(parts[i]);
    }
    AbbreviationOfGroups(HexText(parts), groups);
    assert SqueezedGroups(groups) == PrintedGroups(parts);
  }

  /** The groups normalize makes of the text `toString` hands to abbreviate: each value in
      four hexadecimal digits. */
  function PaddedHexGroups(parts: seq<int>): (r: seq<string>)
    requires ValidParts(parts)
  {
    seq(8, i requires 0 <= i < 8 => PadStart(NatText(parts[i], 16), 4, '0'))
  }

  /** The hexadecimal text of an address passes validate, and normalize pads its groups. */
  lemma HexTextNormalizes(parts: seq<int>)
    requires ValidParts(parts)
    ensures Validates(HexText(parts)) && NormalizedGroups(HexText(parts)) == Ok(PaddedHexGroups(parts))
    ensures HexText(parts) == Join(seq(8, i requires 0 <= i < 8 => NatText(parts[i], 16)), ":")
  {
    var gs := seq(8, i requires 0 <= i < 8 => NatText(parts[i], 16));
    assert seq(|parts|, i requires 0 <= i < |parts| => IntText(parts[i], 16)) == gs;
    forall i | 0 <= i < 8
      ensures 1 <= |gs[i]| <= 4 && forall k :: 0 <= k < |gs[i]| ==> IsLowerHex(gs[i][k])
    {
      HexTextLength(parts[i]);
      NatTextChars(parts[i], 16);
    }
    FullTextNormalizes(gs);
    assert seq(8, i requires 0 <= i < 8 => PadStart(gs[i], 4, '0')) == PaddedHexGroups(parts);
  }

  /** A 16-bit value padded to four hexadecimal digits reads back with `toInt(16)`. */
  lemma PaddedGroupValue(n: nat)
    requires n <= 0xffff
    ensures ParseInt(PadStart(NatText(n, 16), 4, '0'), 16) == Some(n)
  {
    var t := NatText(n, 16);
    HexTextLength(n);
    NatTextValue(n, 16);
    var zeros := seq(4 - |t|, _ => '0');
    LeadingZerosValue(zeros, t, 16);
    assert PadStart(t, 4, '0') == zeros + t;
    ParseDigits(zeros + t, 16);
  }

  /** The hexadecimal text of an address, group by group and uncompressed, parses back to the
      address, through IPv6.parse and through IP.parse. */
  lemma HexTextParses(parts: seq<int>)
    requires ValidParts(parts)
    ensures ParsedIPv6(HexText(parts)) == Ok(IPv6(parts))
    ensures Parsed(HexText(parts)) == Ok(Some(IPv6(parts)))
  {
    var text := HexText(parts);
    HexTextNormalizes(parts);
    var groups := PaddedHexGroups(parts);
    forall i | 0 <= i < 8
      ensures ':' !in groups[i] && ParseInt(groups[i], 16) == Some(parts[i])
    {
      PaddedGroup(parts[i]);
      PaddedGroupValue(parts[i]);
    }
    SplitJoin(groups, ':');
    var values := seq(8, i requires 0 <= i < 8 => ParseInt(groups[i], 16).value);
    assert values == parts;
    HexTextHasColon(parts);
    ColonNotIPv4(text);
  }

  lemma HexTextHasColon(parts: seq<int>)
    requires ValidParts(parts)
    ensures ':' in HexText(parts)
  {
    HexTextNormalizes(parts);
    var gs := seq(8, i requires 0 <= i < 8 => NatText(parts[i], 16));
    var text := HexText(parts);
    assert text == gs[0] + Chunks(gs[1..], ":");
    assert text[|gs[0]|] == ':';
  }

  // ---------------------------------------------------------------------------
  // Reading the text of toString back

  /** A text with the groups of both sides of one "::" splits at the "::" into the two sides. */
  lemma DoubleColonSplit(before: seq<string>, after: seq<string>)
    requires forall i :: 0 <= i < |before| ==> before[i] != "" && ':' !in before[i]
    requires forall i :: 0 <= i < |after| ==> after[i] != "" && ':' !in after[i]
    ensures var b, a := Join(before, ":"), Join(after, ":");
      Split(b + "::" + a, "::") == [b, a]
  {
    var b, a := Join(before, ":"), Join(after, ":");
    var s := b + "::" + a;
    NoDoubleColon(before);
    NoDoubleColon(after);
    PrefixWithoutPair(b, a);
    assert s[|b|..|b| + 2] == "::";
    SplitAt(s, "::", |b|);
    assert s[..|b|] == b && s[|b| + 2..] == a;
    WithoutPair(a);
    SplitNone(a, "::");
  }

  /** No two adjacent colons. */
  predicate PairFree(s: string)
  {
    forall k :: 0 <= k < |s| - 1 ==> !(s[k] == ':' && s[k + 1] == ':')
  }

  lemma WithoutPair(s: string)
    requires PairFree(s)
    ensures NoOccurrenceBefore(s, "::", |s|)
  {
    forall k | 0 <= k < |s|
      ensures !OccursAt(s, "::", k)
    {
      if k + 2 <= |s| {
        assert s[k..k + 2] == [s[k], s[k + 1]];
      }
    }
  }

  /** In `b::a`, with `b` free of colon pairs and not ending in ':', the first "::" is the one
      after `b`. */
  lemma PrefixWithoutPair(b: string, a: string)
    requires PairFree(b) && (b == [] || b[|b| - 1] != ':')
    ensures NoOccurrenceBefore(b + "::" + a, "::", |b|)
  {
    var s := b + "::" + a;
    forall k | 0 <= k < |b|
      ensures !OccursAt(s, "::", k)
    {
      assert s[k] == b[k] && s[k + 1] == (b + "::")[k + 1];
      assert s[k..k + 2] == [s[k], s[k + 1]];
    }
  }

  /** The printed groups are non-empty lower-case hexadecimal, and "0" exactly for a zero
      group. */
  lemma PrintedGroupsShape(parts: seq<int>)
    requires ValidParts(parts)
    ensures forall i :: 0 <= i < 8 ==>
      var g := PrintedGroups(parts)[i];
      g != "" && ':' !in g && (g == "0" <==> parts[i] == 0)
    ensures ZeroFlags(PrintedGroups(parts)) == seq(8, i requires 0 <= i < 8 => parts[i] == 0)
  {
    forall i | 0 <= i < 8
      ensures var g := PrintedGroups(parts)[i];
        g != "" && ':' !in g && (g == "0" <==> parts[i] == 0)
    {
      var g := PrintedGroups(parts)[i];
      if parts[i] != 0 {
        PaddedGroup(parts[i]);
        NoLeadingZero(parts[i]);
        NatTextChars(parts[i], 16);
        assert g[0] != '0' || |g| == 4;
      }
    }
  }

  /** When the zero run `toString` folds starts at the fifth group or later, its text has four
      or more groups before the "::": validate counts them twice and rejects the text, so
      IP.parse reads it as no address at all. */
  lemma LateRunNotReparsed(parts: seq<int>)
    requires ValidParts(parts)
    requires var run := LongestZeroRun(seq(8, i requires 0 <= i < 8 => parts[i] == 0));
      run.Some? && run.value.start >= 4
    ensures !Validates(CompressedText(PrintedGroups(parts)))
    ensures Parsed(CompressedText(PrintedGroups(parts))) == Ok(None)
  {
    var secs := PrintedGroups(parts);
    PrintedGroupsShape(parts);
    var run := LongestZeroRun(ZeroFlags(secs)).value;
    var before, after := secs[..run.start], secs[run.start + run.length..];
    assert forall i :: 0 <= i < |before| ==> before[i] == secs[i];
    assert forall i :: 0 <= i < |after| ==> after[i] == secs[run.start + run.length + i];
    LongLeftHalfRejected(before, after);
  }

  /** Text with four or more groups before its "::" is rejected by validate, and neither
      reading of IP.parse accepts it. */
  lemma LongLeftHalfRejected(before: seq<string>, after: seq<string>)
    requires |before| >= 4
    requires forall i :: 0 <= i < |before| ==> before[i] != "" && ':' !in before[i]
    requires forall i :: 0 <= i < |after| ==> after[i] != "" && ':' !in after[i]
    ensures var text := Join(before, ":") + "::" + Join(after, ":");
      !Validates(text) && Parsed(text) == Ok(None)
  {
    var b := Join(before, ":");
    var text := b + "::" + Join(after, ":");
    DoubleColonSplit(before, after);
    SplitJoin(before, ':');
    NonEmptyAll(before);
    LeftHalfCountedTwice(text);
    assert text[|b|] == ':';
    ColonNotIPv4(text);
  }

  /** Mixed notation is no address: when a normalized group holds a '.', as the last group of
      `::ffff:1.2.3.4` does, `toInt(16)` rejects it, and IP.parse gives null. */
  lemma MixedNotationNotParsed(ip: string, i: int)
    requires NormalizedGroups(ip).Ok? && 0 <= i < |NormalizedGroups(ip).value|
    requires '.' in NormalizedGroups(ip).value[i]
    ensures ParsedIPv6(ip) == Fail(ArgumentError) && Parsed(ip) == Ok(None)
  {
    var groups := NormalizedGroups(ip).value;
    NormalizedGroupsShape(ip);
    SplitJoin(groups, ':');
    var k :| 0 <= k < |groups[i]| && groups[i][k] == '.';
    assert !IsDigitOf(groups[i][k], 16);
    assert ParseInt(groups[i], 16).None?;
    ValidatedHasColon(ip);
    ColonNotIPv4(ip);
  }

  // ---------------------------------------------------------------------------
  // The two halves around "::"

  /** Non-empty groups without ':' and without upper-case letters. */
  predicate LowerPieces(pieces: seq<string>)
  {
    forall i :: 0 <= i < |pieces| ==>
      pieces[i] != "" && ':' !in pieces[i] && forall c :: 'A' <= c <= 'Z' ==> c !in pieces[i]
  }

  /** A joined piece list read back with `split(":")`: the empty list gives one empty piece. */
  function SplitBack(pieces: seq<string>): (r: seq<string>)
  {
    if pieces == [] then [""] else pieces
  }

  lemma LowerJoin(pieces: seq<string>)
    requires LowerPieces(pieces)
    ensures var s := Join(pieces, ":");
      (forall i :: 0 <= i < |s| ==> !('A' <= s[i] <= 'Z')) && Split(s, ":") == SplitBack(pieces)
  {
    var s := Join(pieces, ":");
    forall i | 0 <= i < |s|
      ensures !('A' <= s[i] <= 'Z')
    {
      if 'A' <= s[i] <= 'Z' {
        JoinFree(pieces, ":", s[i]);
      }
    }
    if pieces != [] {
      SplitJoin(pieces, ':');
    }
  }

  /** The text `before::after` is lower case, splits at its "::" into the two joins, neither of
      which starts or ends with ':', and each join splits back into its groups. */
  lemma GapText(before: seq<string>, after: seq<string>)
    requires LowerPieces(before) && LowerPieces(after)
    ensures var b, a := Join(before, ":"), Join(after, ":");
      var ip := b + "::" + a;
      Lower(ip) == ip && Split(ip, "::") == [b, a]
      && !ColonAtEdge(b) && !ColonAtEdge(a)
      && Split(b, ":") == SplitBack(before) && Split(a, ":") == SplitBack(after)
  {
    var b, a := Join(before, ":"), Join(after, ":");
    var ip := b + "::" + a;
    LowerJoin(before);
    LowerJoin(after);
    forall i | 0 <= i < |ip|
      ensures !('A' <= ip[i] <= 'Z')
    {
      if i >= |b| + 2 {
        assert ip[i] == a[i - |b| - 2];
      } else if i < |b| {
        assert ip[i] == b[i];
      }
    }
    LowerUnchanged(ip);
    DoubleColonSplit(before, after);
    NoDoubleColon(before);
    NoDoubleColon(after);
  }

  /** Text with one "::" and at most three lower-case groups before it passes validate,
      whatever lower-case groups follow the "::": those are never checked. */
  lemma GapValidates(before: seq<string>, after: seq<string>)
    requires |before| <= 3 && LowerPieces(before) && LowerPieces(after)
    requires forall i :: 0 <= i < |before| ==> |before[i]| <= 4 && AllDigitsOf(before[i], 16)
    ensures Validates(Join(before, ":") + "::" + Join(after, ":"))
  {
    var b, a := Join(before, ":"), Join(after, ":");
    var ip := b + "::" + a;
    GapText(before, after);
    var ns := SplitBack(before);
    NonEmptyAppend(ns, ns);
    if before == [] {
      assert NonEmpty(ns) == [];
    } else {
      NonEmptyAll(before);
    }
    var checked := NonEmpty(ns) + NonEmpty(ns);
    assert CheckedGroups(ip) == checked;
    assert |checked| <= 6;
    forall k | 0 <= k < |checked|
      ensures HexGroup(checked[k])
    {
      assert checked[k] in before;
    }
  }

  /** The padded groups normalize makes for `before::after`: the groups after the "::" in
      the last slots, those before it in the first slots where they are not overwritten, and
      "0000" between. */
  function GapGroups(before: seq<string>, after: seq<string>): (r: seq<string>)
    requires |after| <= 8
  {
    seq(8, j requires 0 <= j < 8 =>
      if j >= 8 - |after| then PadStart(after[j - (8 - |after|)], 4, '0')
      else if j < |before| then PadStart(before[j], 4, '0')
      else "0000")
  }

  lemma GapSlots(before: seq<string>, after: seq<string>)
    requires |before| <= 3 && |after| <= 8
    ensures seq(8, i requires 0 <= i < 8 => PadSlot(Slots(SplitBack(before), SplitBack(after))[i]))
         == GapGroups(before, after)
  {
    var slots := Slots(SplitBack(before), SplitBack(after));
    var want := GapGroups(before, after);
    assert PadStart("", 4, '0') == "0000";
    forall j | 0 <= j < 8
      ensures PadSlot(slots[j]) == want[j]
    {
      if j >= 8 - |after| {
        assert slots[j] == Some(after[j - (8 - |after|)]);
      } else if after == [] && j == 7 {
        assert slots[j] == Some("");
      } else if j < |before| {
        assert slots[j] == Some(before[j]);
      } else if before == [] && j == 0 {
        assert slots[j] == Some("");
      } else {
        assert slots[j] == None;
      }
    }
  }

  /** Normalize puts the groups before the "::" in the first slots and the groups after it in
      the last slots, the latter overwriting the former where they meet, with "0000" in the
      slots left between; more than eight groups after the "::" run past the first slot. */
  lemma GapNormalizes(before: seq<string>, after: seq<string>)
    requires |before| <= 3 && LowerPieces(before) && LowerPieces(after)
    requires forall i :: 0 <= i < |before| ==> |before[i]| <= 4 && AllDigitsOf(before[i], 16)
    ensures var ip := Join(before, ":") + "::" + Join(after, ":");
      (|after| > 8 ==> NormalizedGroups(ip) == Fail(OtherError))
      && (|after| <= 8 ==> NormalizedGroups(ip) == Ok(GapGroups(before, after)))
  {
    var b, a := Join(before, ":"), Join(after, ":");
    var ip := b + "::" + a;
    GapText(before, after);
    GapValidates(before, after);
    var nh := Split(Lower(ip), "::");
    assert nh == [b, a];
    if |after| <= 8 {
      GapSlots(before, after);
    }
  }
}

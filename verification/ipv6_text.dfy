/** The textual side of `IPv6`'s companion object: `validate`, `normalize` and `abbreviate`. */
module IPv6Text {
  import opened Results
  import opened Strings
  import opened Numerals
  import opened ZeroRuns

  // ---------------------------------------------------------------------------
  // validate

  /** A group accepted by validate's pattern: one to four hexadecimal digits, in either case. */
  predicate HexGroup(s: string)
  {
    1 <= |s| <= 4 && AllDigitsOf(s, 16)
  }

  predicate ColonAtEdge(s: string)
  {
    s != [] && (s[0] == ':' || s[|s| - 1] == ':')
  }

  /** The groups validate checks: with a "::", the non-empty groups of the text before it,
      taken twice (the text after it is never looked at); without, the non-empty groups of the
      whole text. */
  function CheckedGroups(ip: string): (r: seq<string>)
  {
    var nh := Split(ip, "::");
    if |nh| == 2 then NonEmpty(Split(nh[0], ":") + Split(nh[0], ":"))
    else NonEmpty(Split(nh[0], ":"))
  }

  /** `validate(ip)` returns normally rather than throwing IllegalArgumentException: at most
      one "::"; with one, neither side starts or ends with ':' and at most seven checked groups;
      without, exactly eight; and every checked group is one to four hexadecimal digits. */
  predicate Validates(ip: string)
  {
    var nh := Split(ip, "::");
    var ns := CheckedGroups(ip);
    |nh| <= 2
    && (|nh| == 2 ==> !ColonAtEdge(nh[0]) && !ColonAtEdge(nh[1]) && |ns| <= 7)
    && (|nh| == 1 ==> |ns| == 8)
    && forall k :: 0 <= k < |ns| ==> HexGroup(ns[k])
  }

  /** IPv6.validate; `valid` is false where the source throws IllegalArgumentException. */
  method Validate(ip: string) returns (valid: bool)
    ensures valid == Validates(ip)
  {
    var ns: seq<string> := [];
    var nh := Split(ip, "::");
    if |nh| > 2 {
      return false;
    } else if |nh| == 2 {
      if ColonAtEdge(nh[0]) || ColonAtEdge(nh[1]) {
        return false;
      }
      ns := ns + Split(nh[0], ":");
      ns := ns + Split(nh[0], ":");
      ns := NonEmpty(ns);
      assert [] + Split(nh[0], ":") + Split(nh[0], ":") == Split(nh[0], ":") + Split(nh[0], ":");
      assert ns == CheckedGroups(ip);
      if |ns| > 7 {
        return false;
      }
    } else {
      ns := ns + NonEmpty(Split(nh[0], ":"));
      assert ns == CheckedGroups(ip);
      if |ns| != 8 {
        return false;
      }
    }
    valid := AllHexGroups(ns);
  }

  /** The final loop of validate: every checked group must match the group pattern. */
  method AllHexGroups(ns: seq<string>) returns (valid: bool)
    ensures valid <==> forall k :: 0 <= k < |ns| ==> HexGroup(ns[k])
  {
    for k := 0 to |ns|
      invariant forall j :: 0 <= j < k ==> HexGroup(ns[j])
    {
      if !HexGroup(ns[k]) {
        return false;
      }
    }
    return true;
  }

  // ---------------------------------------------------------------------------
  // normalize

  /** The eight slots normalize fills for a text with one "::": the groups after it at the
      end, the groups before it from the start, null elsewhere; where the two meet, the groups
      after the "::" win. */
  function Slots(ns: seq<string>, hs: seq<string>): (r: seq<Option<string>>)
    requires |ns| <= 8 && |hs| <= 8
  {
    seq(8, j requires 0 <= j < 8 =>
      if j >= 8 - |hs| then Some(hs[j - (8 - |hs|)])
      else if j < |ns| then Some(ns[j])
      else None)
  }

  /** A null slot becomes "0000"; every slot is left-padded with '0' to four characters. */
  function PadSlot(slot: Option<string>): (r: string)
  {
    PadStart(if slot.None? then "0000" else slot.value, 4, '0')
  }

  /** The eight groups `normalize(ip)` joins, or the exception it throws. The text is
      lower-cased after validation; a left half of more than eight groups, or a right half of
      more than eight, runs off the eight slots (index out of bounds). */
  function NormalizedGroups(ip: string): (r: Result<seq<string>>)
  {
    if !Validates(ip) then Fail(ArgumentError)
    else
      var low := Lower(ip);
      var nh := Split(low, "::");
      if |nh| == 1 then
        var sections := Split(low, ":");
        if |sections| != 8 then Fail(ArgumentError)
        else Ok(seq(8, i requires 0 <= i < 8 => PadSlot(Some(sections[i]))))
      else if |nh| == 2 then
        var ns, hs := Split(nh[0], ":"), Split(nh[1], ":");
        if |ns| > 8 || |hs| > 8 then Fail(OtherError)
        else Ok(seq(8, i requires 0 <= i < 8 => PadSlot(Slots(ns, hs)[i])))
      else Fail(ArgumentError)
  }

  /** What `normalize(ip)` returns or throws: the eight groups joined with ':'. */
  function Normalization(ip: string): (r: Result<string>)
  {
    var groups :- NormalizedGroups(ip);
    Ok(Join(groups, ":"))
  }

  /** IPv6.normalize: fills a list of eight nullable slots, then pads each in place. */
  method Normalize(ip: string) returns (r: Result<string>)
    ensures r == Normalization(ip)
  {
    var valid := Validate(ip);
    if !valid {
      return Fail(ArgumentError);
    }
    var ipAddress := Lower(ip);
    var nh := Split(ipAddress, "::");
    var sections: seq<Option<string>> := seq(8, _ => None);
    if |nh| == 1 {
      var pieces := Split(ipAddress, ":");
      sections := seq(|pieces|, i requires 0 <= i < |pieces| => Some(pieces[i]));
      if |sections| != 8 {
        return Fail(ArgumentError);
      }
      assert seq(8, i requires 0 <= i < 8 => PadSlot(Some(pieces[i])))
          == seq(8, i requires 0 <= i < 8 => PadSlot(sections[i]));
      assert NormalizedGroups(ip) == Ok(seq(8, i requires 0 <= i < 8 => PadSlot(sections[i])));
    } else if |nh| == 2 {
      var ns := Split(nh[0], ":");
      var hs := Split(nh[1], ":");
      var filled := FillSlots(ns, hs);
      if filled.Fail? {
        return Fail(filled.failure);
      }
      sections := filled.value;
    } else {
      return Fail(ArgumentError);
    }
    var groups := PadSections(sections);
    return Ok(Join(groups, ":"));
  }

  /** The middle of normalize for a text with one "::": the groups before it are written from
      slot 0 up, then the groups after it from slot 7 down. Writing slot 8, or slot -1, is an
      index out of bounds. */
  method FillSlots(ns: seq<string>, hs: seq<string>) returns (r: Result<seq<Option<string>>>)
    ensures |ns| > 8 || |hs| > 8 ==> r == Fail(OtherError)
    ensures |ns| <= 8 && |hs| <= 8 ==> r == Ok(Slots(ns, hs))
  {
    var sections: seq<Option<string>> := seq(8, _ => None);
    for i := 0 to |ns|
      invariant i <= 8 && |sections| == 8
      invariant forall j :: 0 <= j < 8 ==> sections[j] == if j < i then Some(ns[j]) else None
    {
      if i >= 8 {
        // sections[8] is out of bounds
        return Fail(OtherError);
      }
      sections := sections[i := Some(ns[i])];
    }
    var i := |hs|;
    while i > 0
      invariant 0 <= i <= |hs| && |sections| == 8 && |ns| <= 8
      invariant 8 - |hs| + i >= 0
      invariant forall j :: 0 <= j < 8 ==>
        sections[j] == if j >= 8 - |hs| + i then Some(hs[j - (8 - |hs|)])
                       else if j < |ns| then Some(ns[j])
                       else None
    {
      var index := 7 - (|hs| - i);
      if index < 0 {
        // sections[-1] is out of bounds
        return Fail(OtherError);
      }
      sections := sections[index := Some(hs[i - 1])];
      i := i - 1;
    }
    assert sections == Slots(ns, hs);
    return Ok(sections);
  }

  /** The last loop of normalize: a null slot becomes "0000", and every slot is left-padded
      with '0' to four characters. */
  method PadSections(sections: seq<Option<string>>) returns (groups: seq<string>)
    requires |sections| == 8
    ensures groups == seq(8, i requires 0 <= i < 8 => PadSlot(sections[i]))
  {
    var padded := sections;
    for i := 0 to 8
      invariant |padded| == 8
      invariant forall j :: 0 <= j < i ==> padded[j] == Some(PadSlot(sections[j]))
      invariant forall j :: i <= j < 8 ==> padded[j] == sections[j]
    {
      if padded[i] == None {
        padded := padded[i := Some("0000")];
      }
      padded := padded[i := Some(PadStart(padded[i].value, 4, '0'))];
    }
    groups := seq(8, i requires 0 <= i < 8 => padded[i].value);
  }

  // ---------------------------------------------------------------------------
  // abbreviate

  /** The first chain of replacements in abbreviate: "0000" is marked "g", the zeros after a
      ':' are dropped three, two and one at a time, and the marks become "0". */
  function SqueezeZeros(normalized: string): (r: string)
  {
    Replace(Replace(Replace(Replace(Replace(normalized, "0000", "g"), ":000", ":"), ":00", ":"), ":0", ":"), "g", "0")
  }

  /** The last chain of replacements in abbreviate: the marker "g" of the removed run becomes
      "::", together with the ':' on either side of it. */
  function GapToColons(s: string): (r: string)
  {
    Replace(Replace(Replace(Replace(s, ":g:", "::"), "g:", "::"), ":g", "::"), "g", "::")
  }

  /** The sections with the chosen run cut out and the marker "g" put in its place. */
  function Compressed(sections: seq<string>, run: Option<Run>): (r: seq<string>)
    requires run.Some? ==> 0 <= run.value.start <= run.value.start + run.value.length <= |sections|
  {
    if run.None? then sections
    else sections[..run.value.start] + ["g"] + sections[run.value.start + run.value.length..]
  }

  /** What `abbreviate(ip)` returns or throws: the normalized text with the zeros squeezed
      out, split on ':', the leftmost longest run of two or more "0" sections among the first
      eight replaced by "::". Fewer than eight sections would be an index out of bounds. */
  function Abbreviation(ip: string): (r: Result<string>)
  {
    var normalized :- Normalization(ip);
    AbbreviatedText(normalized)
  }

  /** The part of abbreviate after normalize, on the normalized text. */
  function AbbreviatedText(normalized: string): (r: Result<string>)
  {
    var sections := Split(SqueezeZeros(normalized), ":");
    if |sections| < 8 then Fail(OtherError)
    else Ok(GapToColons(Join(Compressed(sections, LongestZeroRun(ZeroFlags(sections))), ":")))
  }

  /** IPv6.abbreviate: removes the chosen run from the list of sections one `removeAt` at a
      time, then inserts the marker. */
  method Abbreviate(ip: string) returns (r: Result<string>)
    ensures r == Abbreviation(ip)
  {
    var n := Normalize(ip);
    if n.Fail? {
      return Fail(n.failure);
    }
    var normalized := SqueezeZeros(n.value);
    var sections := Split(normalized, ":");
    if |sections| < 8 {
      return Fail(OtherError);
    }
    var zeroStartIndex, zeroLength := FindZeroRun(sections);
    if zeroStartIndex >= 0 && zeroLength > 1 {
      sections := CutRun(sections, zeroStartIndex, zeroLength);
    }
    return Ok(GapToColons(Join(sections, ":")));
  }

  /** The `removeAt` loop of abbreviate and the insertion of the marker "g" where the run
      started. */
  method CutRun(sections: seq<string>, start: int, length: int) returns (cut: seq<string>)
    requires 0 <= start <= start + length <= |sections|
    ensures cut == sections[..start] + ["g"] + sections[start + length..]
  {
    cut := sections;
    for k := 0 to length
      invariant cut == sections[..start] + sections[start + k..]
    {
      cut := cut[..start] + cut[start + 1..];
    }
    cut := cut[..start] + ["g"] + cut[start..];
  }
}

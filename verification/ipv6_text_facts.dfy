/** What `IPv6.abbreviate` does to the text of an address, stated group by group: the
    replacement chains act on each group separately, and the result is the groups with
    leading zeros stripped, the chosen zero run written "::". */
module IPv6TextFacts {
  import opened Results
  import opened Strings
  import opened Numerals
  import opened ZeroRuns
  import opened IPv6Text

  /** A group as normalize writes it for a well-formed address: four lower-case hexadecimal
      digits. */
  predicate FullGroup(g: string)
  {
    |g| == 4 && forall k :: 0 <= k < 4 ==> IsLowerHex(g[k])
  }

  /** What the first replacement chain of abbreviate makes of the normalized groups: an
      all-zero group becomes "0", and every other group except the first loses its leading
      zeros; the first group keeps them. */
  function SqueezedGroups(groups: seq<string>): (r: seq<string>)
  {
    seq(|groups|, i requires 0 <= i < |groups| =>
      if groups[i] == "0000" then "0" else if i == 0 then groups[0] else StripLeadingZeros(groups[i]))
  }

  // ---------------------------------------------------------------------------
  // The first replacement chain

  /** The pieces after the first replacement: "0000" marked "g". */
  function Marked(groups: seq<string>): (r: seq<string>)
  {
    seq(|groups|, i requires 0 <= i < |groups| => if groups[i] == "0000" then "g" else groups[i])
  }

  /** Every piece but the first with a leading `z` removed. */
  function DropAfterFirst(toks: seq<string>, z: string): (r: seq<string>)
  {
    seq(|toks|, i requires 0 <= i < |toks| => if i == 0 then toks[0] else DropPrefix(toks[i], z))
  }

  lemma DropPrefixFree(s: string, z: string, c: char)
    requires c !in s
    ensures c !in DropPrefix(s, z)
  {
    if |z| <= |s| && s[..|z|] == z {
      forall k | 0 <= k < |s| - |z|
        ensures s[|z|..][k] != c
      {
        assert s[|z|..][k] == s[|z| + k];
      }
    }
  }

  /** One group through the three zero-dropping replacements. */
  lemma SqueezeGroup(g: string)
    requires FullGroup(g) && g != "0000"
    ensures DropPrefix(DropPrefix(DropPrefix(g, "000"), "00"), "0") == StripLeadingZeros(g)
  {
    var a := DropPrefix(g, "000");
    var b := DropPrefix(a, "00");
    if g[..3] == "000" {
      assert g[3] != '0' by {
        assert g == g[..3] + [g[3]];
      }
      assert g[0] == g[..3][0] && g[1] == g[..3][1] && g[2] == g[..3][2];
      assert a == [g[3]];
      assert b == [g[3]];
      assert [g[3]][..1] != "0";
      assert StripLeadingZeros(g) == StripLeadingZeros(g[1..]);
      assert StripLeadingZeros(g[1..]) == StripLeadingZeros(g[2..]);
      assert g[2..][1..] == [g[3]];
      assert StripLeadingZeros(g[2..]) == StripLeadingZeros([g[3]]) == [g[3]];
    } else if g[..2] == "00" {
      assert a == g;
      assert b == g[2..];
      assert g[2] != '0' by {
        assert g[..3] == g[..2] + [g[2]];
      }
      assert StripLeadingZeros(g) == StripLeadingZeros(g[1..]);
      assert g[1..][1..] == g[2..];
    } else if g[0] == '0' {
      assert a == g && b == g;
      assert g[1] != '0' by {
        assert g[..2] == [g[0], g[1]];
      }
      assert g[..1] == "0";
    } else {
      assert a == g && b == g;
      assert g[..1] != "0";
    }
  }

  /** Pieces without ':' that are the marker "g" or free of it. */
  predicate MarkedPieces(toks: seq<string>)
  {
    forall i :: 0 <= i < |toks| ==> ':' !in toks[i] && (toks[i] == "g" || 'g' !in toks[i])
  }

  lemma MarkStage(groups: seq<string>)
    requires |groups| >= 1 && forall i :: 0 <= i < |groups| ==> FullGroup(groups[i])
    ensures Replace(Join(groups, ":"), "0000", "g") == Join(Marked(groups), ":")
    ensures MarkedPieces(Marked(groups))
  {
    forall i | 0 <= i < |groups|
      ensures groups[i] == "0000" || NoOccurrenceBefore(groups[i], "0000", |groups[i]|)
      ensures ':' !in groups[i] && 'g' !in groups[i]
    {
      assert groups[i][..4] == groups[i];
    }
    ReplaceWholePieces(groups, "0000", "g", ':');
  }

  lemma DropStage(toks: seq<string>, z: string)
    requires |toks| >= 1 && MarkedPieces(toks) && ':' !in z
    ensures Replace(Join(toks, ":"), [':'] + z, ":") == Join(DropAfterFirst(toks, z), ":")
    ensures MarkedPieces(DropAfterFirst(toks, z))
  {
    ReplaceSeparatorPrefixes(toks, z, ':');
    var outs := DropAfterFirst(toks, z);
    forall i | 0 <= i < |outs|
      ensures ':' !in outs[i] && (outs[i] == "g" || 'g' !in outs[i])
    {
      DropPrefixFree(toks[i], z, ':');
      if toks[i] != "g" {
        DropPrefixFree(toks[i], z, 'g');
      }
    }
  }

  lemma UnmarkStage(toks: seq<string>)
    requires |toks| >= 1 && MarkedPieces(toks)
    ensures Replace(Join(toks, ":"), "g", "0")
         == Join(seq(|toks|, i requires 0 <= i < |toks| => if toks[i] == "g" then "0" else toks[i]), ":")
  {
    forall i | 0 <= i < |toks|
      ensures toks[i] == "g" || NoOccurrenceBefore(toks[i], "g", |toks[i]|)
    {
      if toks[i] != "g" {
        NoCharNoOccurrence(toks[i], 'g');
      }
    }
    ReplaceWholePieces(toks, "g", "0", ':');
  }

  /** The first replacement chain of abbreviate, over the text normalize produces. */
  lemma SqueezeZerosGroups(groups: seq<string>)
    requires |groups| >= 1 && forall i :: 0 <= i < |groups| ==> FullGroup(groups[i])
    ensures SqueezeZeros(Join(groups, ":")) == Join(SqueezedGroups(groups), ":")
  {
    SqueezeChain(groups);
    var t4 := Stripped(groups);
    UnmarkStage(t4);
    UnmarkedStripped(groups);
  }

  /** The pieces after the three zero-dropping replacements. */
  function Stripped(groups: seq<string>): (r: seq<string>)
  {
    DropAfterFirst(DropAfterFirst(DropAfterFirst(Marked(groups), "000"), "00"), "0")
  }

  /** The first four replacements of the chain, piece by piece. */
  lemma SqueezeChain(groups: seq<string>)
    requires |groups| >= 1 && forall i :: 0 <= i < |groups| ==> FullGroup(groups[i])
    ensures SqueezeZeros(Join(groups, ":")) == Replace(Join(Stripped(groups), ":"), "g", "0")
    ensures MarkedPieces(Stripped(groups)) && |Stripped(groups)| == |groups|
  {
    assert ":000" == [':'] + "000" && ":00" == [':'] + "00" && ":0" == [':'] + "0";
    var t1 := Marked(groups);
    MarkStage(groups);
    var t2 := DropAfterFirst(t1, "000");
    DropStage(t1, "000");
    var t3 := DropAfterFirst(t2, "00");
    DropStage(t2, "00");
    DropStage(t3, "0");
  }

  /** Turning the markers back into "0" gives the squeezed groups. */
  lemma UnmarkedStripped(groups: seq<string>)
    requires forall i :: 0 <= i < |groups| ==> FullGroup(groups[i])
    ensures var t4 := Stripped(groups);
      seq(|t4|, i requires 0 <= i < |t4| => if t4[i] == "g" then "0" else t4[i]) == SqueezedGroups(groups)
  {
    var t4 := Stripped(groups);
    var t5 := seq(|t4|, i requires 0 <= i < |t4| => if t4[i] == "g" then "0" else t4[i]);
    forall i | 0 <= i < |groups|
      ensures t5[i] == SqueezedGroups(groups)[i]
    {
      if groups[i] != "0000" && i > 0 {
        SqueezeGroup(groups[i]);
      }
    }
  }

  // ---------------------------------------------------------------------------
  // The last replacement chain

  lemma GapBetween(b: string, a: string)
    requires 'g' !in b && 'g' !in a
    ensures GapToColons(b + ":g:" + a) == b + "::" + a
  {
    var s := b + ":g:" + a;
    assert s[|b|..|b| + 3] == ":g:";
    forall k | 0 <= k < |b|
      ensures !OccursAt(s, ":g:", k)
    {
      assert s[k + 1] != 'g' by {
        if k + 1 < |b| {
          assert s[k + 1] == b[k + 1];
        }
      }
    }
    ReplaceAt(s, ":g:", "::", |b|);
    assert s[..|b|] == b && s[|b| + 3..] == a;
    ReplaceAbsent(a, ":g:", "::", 'g');
    var t := b + "::" + a;
    ReplaceAbsent(t, "g:", "::", 'g');
    ReplaceAbsent(t, ":g", "::", 'g');
    ReplaceAbsent(t, "g", "::", 'g');
  }

  lemma GapAtStart(a: string)
    requires 'g' !in a
    ensures GapToColons("g:" + a) == "::" + a
  {
    var s := "g:" + a;
    forall k | 0 <= k < |s|
      ensures !OccursAt(s, ":g:", k)
    {
      assert k + 1 < |s| ==> s[k + 1] != 'g' by {
        if k + 1 < |s| {
          assert s[k + 1] == if k == 0 then ':' else a[k - 1];
        }
      }
    }
    ReplaceNone(s, ":g:", "::");
    assert s[..2] == "g:";
    ReplaceAt(s, "g:", "::", 0);
    assert s[2..] == a;
    ReplaceAbsent(a, "g:", "::", 'g');
    var t := "::" + a;
    ReplaceAbsent(t, ":g", "::", 'g');
    ReplaceAbsent(t, "g", "::", 'g');
  }

  lemma NoMarkerBeforeEnd(b: string)
    requires 'g' !in b
    ensures forall i :: 0 <= i <= |b| ==> (b + ":g")[i] != 'g'
  {
    var s := b + ":g";
    forall i | 0 <= i <= |b|
      ensures s[i] != 'g'
    {
      if i < |b| {
        assert s[i] == b[i];
      }
    }
  }

  lemma MarkerAtEnd(b: string)
    requires 'g' !in b
    ensures Replace(b + ":g", ":g", "::") == b + "::"
  {
    var s := b + ":g";
    NoMarkerBeforeEnd(b);
    NoOccurrenceWithout(s, ":g", 1, |b|);
    assert s[|b|] == ':' && s[|b| + 1] == 'g';
    assert s[|b|..|b| + 2] == ":g";
    ReplaceAt(s, ":g", "::", |b|);
    assert s[..|b|] == b && s[|b| + 2..] == "";
  }

  lemma GapAtEnd(b: string)
    requires 'g' !in b
    ensures GapToColons(b + ":g") == b + "::"
  {
    var s := b + ":g";
    NoMarkerBeforeEnd(b);
    NoOccurrenceWithout(s, ":g:", 1, |s|);
    ReplaceNone(s, ":g:", "::");
    NoOccurrenceWithout(s, "g:", 0, |s|);
    ReplaceNone(s, "g:", "::");
    MarkerAtEnd(b);
    ReplaceAbsent(b + "::", "g", "::", 'g');
  }

  /** The last chain of abbreviate turns the marker, with the separators around it, into
      "::" between the text of the sections before it and the text of those after it. */
  lemma GapToColonsJoin(before: seq<string>, after: seq<string>)
    requires forall i :: 0 <= i < |before| ==> 'g' !in before[i]
    requires forall i :: 0 <= i < |after| ==> 'g' !in after[i]
    ensures GapToColons(Join(before + ["g"] + after, ":")) == Join(before, ":") + "::" + Join(after, ":")
  {
    var b, a := Join(before, ":"), Join(after, ":");
    JoinFree(before, ":", 'g');
    JoinFree(after, ":", 'g');
    if before == [] && after == [] {
      assert before + ["g"] + after == ["g"];
      assert Join(["g"], ":") == "g";
      assert Replace("g", ":g:", "::") == "g" && Replace("g", "g:", "::") == "g" && Replace("g", ":g", "::") == "g";
      assert "g"[..1] == "g" && "g"[1..] == "";
      assert Replace("g", "g", "::") == "::";
    } else if before == [] {
      assert before + ["g"] + after == ["g"] + after;
      JoinAppend(["g"], after, ":");
      assert Join(["g"], ":") == "g";
      assert Join(["g"] + after, ":") == "g:" + a;
      GapAtStart(a);
    } else if after == [] {
      assert before + ["g"] + after == before + ["g"];
      JoinAppend(before, ["g"], ":");
      assert Join(["g"], ":") == "g";
      assert Join(before + ["g"], ":") == b + ":g";
      GapAtEnd(b);
    } else {
      JoinAppend(before + ["g"], after, ":");
      JoinAppend(before, ["g"], ":");
      assert Join(["g"], ":") == "g";
      assert Join(before + ["g"] + after, ":") == b + ":g:" + a;
      GapBetween(b, a);
    }
  }

  // ---------------------------------------------------------------------------
  // The whole of abbreviate

  /** The squeezed sections with the chosen run of zero groups written "::" (sections 4.2.1
      to 4.2.3 of RFC 5952), or simply joined with ':' when no run of two or more qualifies. */
  function CompressedText(secs: seq<string>): (r: string)
    requires |secs| >= 8
  {
    var run := LongestZeroRun(ZeroFlags(secs));
    if run.None? then Join(secs, ":")
    else Join(secs[..run.value.start], ":") + "::" + Join(secs[run.value.start + run.value.length..], ":")
  }

  lemma {:induction false} StripLeadingZerosFree(s: string, c: char)
    requires c !in s
    ensures c !in StripLeadingZeros(s)
    decreases |s|
  {
    if |s| > 1 && s[0] == '0' {
      assert forall k :: 0 <= k < |s| - 1 ==> s[1..][k] == s[k + 1];
      StripLeadingZerosFree(s[1..], c);
    }
  }

  /** Squeezed groups hold neither the separator nor the marker. */
  lemma SqueezedFree(groups: seq<string>)
    requires forall i :: 0 <= i < |groups| ==> FullGroup(groups[i])
    ensures forall i :: 0 <= i < |groups| ==>
      ':' !in SqueezedGroups(groups)[i] && 'g' !in SqueezedGroups(groups)[i]
  {
    forall i | 0 <= i < |groups|
      ensures ':' !in SqueezedGroups(groups)[i] && 'g' !in SqueezedGroups(groups)[i]
    {
      assert ':' !in groups[i] && 'g' !in groups[i];
      StripLeadingZerosFree(groups[i], ':');
      StripLeadingZerosFree(groups[i], 'g');
    }
  }

  /** For an address whose eight normalized groups are four hexadecimal digits each,
      abbreviate gives the squeezed groups with the leftmost longest run of two or more zero
      groups written "::". */
  lemma AbbreviationOfGroups(ip: string, groups: seq<string>)
    requires NormalizedGroups(ip) == Ok(groups)
    requires forall i :: 0 <= i < |groups| ==> FullGroup(groups[i])
    ensures |groups| == 8 && Abbreviation(ip) == Ok(CompressedText(SqueezedGroups(groups)))
  {
    AbbreviatedGroups(groups);
  }

  /** The part of abbreviate after normalize, on eight full groups. */
  lemma AbbreviatedGroups(groups: seq<string>)
    requires |groups| == 8 && forall i :: 0 <= i < |groups| ==> FullGroup(groups[i])
    ensures AbbreviatedText(Join(groups, ":")) == Ok(CompressedText(SqueezedGroups(groups)))
  {
    SqueezedSections(groups);
    var secs := SqueezedGroups(groups);
    CompressedGap(secs, LongestZeroRun(ZeroFlags(secs)));
  }

  /** A run cut out, the marker put in its place and turned into "::" by the last chain of
      replacements; without a run the text is left as it is. */
  lemma CompressedGap(secs: seq<string>, run: Option<Run>)
    requires run.Some? ==> 0 <= run.value.start <= run.value.start + run.value.length <= |secs|
    requires forall i :: 0 <= i < |secs| ==> 'g' !in secs[i]
    ensures run.None? ==> GapToColons(Join(Compressed(secs, run), ":")) == Join(secs, ":")
    ensures run.Some? ==>
      GapToColons(Join(Compressed(secs, run), ":"))
      == Join(secs[..run.value.start], ":") + "::" + Join(secs[run.value.start + run.value.length..], ":")
  {
    if run.None? {
      NoRunUnchanged(secs);
    } else {
      var before, after := secs[..run.value.start], secs[run.value.start + run.value.length..];
      assert forall i :: 0 <= i < |before| ==> before[i] == secs[i];
      assert forall i :: 0 <= i < |after| ==> after[i] == secs[run.value.start + run.value.length + i];
      GapToColonsJoin(before, after);
    }
  }

  /** The sections abbreviate splits out of the squeezed text are the squeezed groups, none
      holding ':' or the marker 'g'. */
  lemma SqueezedSections(groups: seq<string>)
    requires |groups| >= 1 && forall i :: 0 <= i < |groups| ==> FullGroup(groups[i])
    ensures Split(SqueezeZeros(Join(groups, ":")), ":") == SqueezedGroups(groups)
    ensures forall i :: 0 <= i < |groups| ==> 'g' !in SqueezedGroups(groups)[i]
  {
    var secs := SqueezedGroups(groups);
    SqueezeZerosGroups(groups);
    SqueezedFree(groups);
    SplitJoin(secs, ':');
  }

  /** Without a marker, the last chain of replacements changes nothing. */
  lemma NoRunUnchanged(secs: seq<string>)
    requires forall i :: 0 <= i < |secs| ==> 'g' !in secs[i]
    ensures GapToColons(Join(secs, ":")) == Join(secs, ":")
  {
    JoinFree(secs, ":", 'g');
    var t := Join(secs, ":");
    ReplaceAbsent(t, ":g:", "::", 'g');
    ReplaceAbsent(t, "g:", "::", 'g');
    ReplaceAbsent(t, ":g", "::", 'g');
    ReplaceAbsent(t, "g", "::", 'g');
  }
}

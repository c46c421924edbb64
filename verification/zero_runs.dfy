/** The run of zero groups that `IPv6.abbreviate` replaces with "::": among the first eight
    groups, the longest run of two or more consecutive "0" groups, the leftmost one when
    several are equally long (the rule of section 4.2.3 of RFC 5952). */
module ZeroRuns {
  import opened Results

  /** `z[s..s + l]` is a maximal run of zero groups: all zero, and not extendable on either
      side. */
  predicate RunAt(z: seq<bool>, s: int, l: int)
  {
    0 <= s && 1 <= l && s + l <= |z|
    && (forall j :: s <= j < s + l ==> z[j])
    && (s == 0 || !z[s - 1])
    && (s + l == |z| || !z[s + l])
  }

  /** The run at `s` of length `l` is at least two long, no run is longer, and every run
      before it is shorter. */
  ghost predicate IsBestRun(z: seq<bool>, s: int, l: int)
  {
    RunAt(z, s, l) && l >= 2
    && (forall s', l' :: RunAt(z, s', l') ==> l' <= l)
    && (forall s', l' :: RunAt(z, s', l') && s' < s ==> l' < l)
  }

  /** No two zero groups are adjacent. */
  ghost predicate NoLongRun(z: seq<bool>)
  {
    forall s, l :: RunAt(z, s, l) ==> l < 2
  }

  datatype Run = Run(start: int, length: int)

  /** The number of consecutive zero groups from `s` on. */
  function RunLength(z: seq<bool>, s: nat): (n: nat)
    ensures n == 0 || s + n <= |z|
    decreases |z| - s
  {
    if s < |z| && z[s] then 1 + RunLength(z, s + 1) else 0
  }

  /** A reference choice, independent of the scan `abbreviate` performs: walking from the
      right, a run of two or more starting at `s` wins over the best run further right unless
      that one is strictly longer. */
  function BestFrom(z: seq<bool>, s: nat): (r: Option<Run>)
    ensures r.Some? ==> s <= r.value.start && 2 <= r.value.length && r.value.start + r.value.length <= |z|
    decreases |z| - s
  {
    if s >= |z| then None
    else
      var rest := BestFrom(z, s + 1);
      var len := RunLength(z, s);
      if z[s] && (s == 0 || !z[s - 1]) && len >= 2 && (rest.None? || len >= rest.value.length)
      then Some(Run(s, len))
      else rest
  }

  function LongestZeroRun(z: seq<bool>): (r: Option<Run>)
    ensures r.Some? ==> 0 <= r.value.start && 2 <= r.value.length && r.value.start + r.value.length <= |z|
  {
    BestFrom(z, 0)
  }

  /** Which of the first eight groups are exactly "0". */
  function ZeroFlags(sections: seq<string>): (r: seq<bool>)
    requires |sections| >= 8
  {
    seq(8, i requires 0 <= i < 8 => sections[i] == "0")
  }

  // ---------------------------------------------------------------------------

  lemma {:induction false} RunLengthFacts(z: seq<bool>, s: nat)
    requires s <= |z|
    ensures s + RunLength(z, s) <= |z|
    ensures forall j :: s <= j < s + RunLength(z, s) ==> z[j]
    ensures s + RunLength(z, s) < |z| ==> !z[s + RunLength(z, s)]
    decreases |z| - s
  {
    if s < |z| && z[s] {
      RunLengthFacts(z, s + 1);
    }
  }

  /** A maximal run starting at `s` has the length of the zeros counted from `s`. */
  lemma RunAtLength(z: seq<bool>, s: int, l: int)
    requires RunAt(z, s, l)
    ensures l == RunLength(z, s)
  {
    RunLengthFacts(z, s);
  }

  lemma RunAtStart(z: seq<bool>, s: nat)
    requires s < |z| && z[s] && (s == 0 || !z[s - 1])
    ensures RunAt(z, s, RunLength(z, s))
  {
    RunLengthFacts(z, s);
  }

  /** What the reference choice picks among the runs starting at `s` or later. */
  lemma {:induction false} BestFromChoice(z: seq<bool>, s: nat)
    requires s <= |z|
    ensures BestFrom(z, s).Some? ==>
      var r := BestFrom(z, s).value;
      RunAt(z, r.start, r.length) && s <= r.start && r.length >= 2
      && (forall s', l' :: RunAt(z, s', l') && s <= s' ==> l' <= r.length)
      && (forall s', l' :: RunAt(z, s', l') && s <= s' < r.start ==> l' < r.length)
    ensures BestFrom(z, s).None? ==> forall s', l' :: RunAt(z, s', l') && s <= s' ==> l' < 2
    decreases |z| - s
  {
    if s < |z| {
      BestFromChoice(z, s + 1);
      RunsAtStart(z, s);
      var rest, len := BestFrom(z, s + 1), RunLength(z, s);
      if z[s] && (s == 0 || !z[s - 1]) && len >= 2 && (rest.None? || len >= rest.value.length) {
        assert BestFrom(z, s) == Some(Run(s, len));
        RunAtStart(z, s);
      } else {
        assert BestFrom(z, s) == rest;
        BestLater(z, s, rest, len);
      }
    }
  }

  /** When the run at `s`, if any, is not chosen, the choice from `s + 1` on is also the choice
      from `s` on. */
  lemma BestLater(z: seq<bool>, s: nat, rest: Option<Run>, len: nat)
    requires s < |z| && len == RunLength(z, s) && rest == BestFrom(z, s + 1)
    requires forall l' :: RunAt(z, s, l') ==> l' == len && z[s] && (s == 0 || !z[s - 1])
    requires !(z[s] && (s == 0 || !z[s - 1]) && len >= 2 && (rest.None? || len >= rest.value.length))
    requires rest.Some? ==>
      RunAt(z, rest.value.start, rest.value.length) && s + 1 <= rest.value.start && rest.value.length >= 2
      && (forall s', l' :: RunAt(z, s', l') && s + 1 <= s' ==> l' <= rest.value.length)
      && (forall s', l' :: RunAt(z, s', l') && s + 1 <= s' < rest.value.start ==> l' < rest.value.length)
    requires rest.None? ==> forall s', l' :: RunAt(z, s', l') && s + 1 <= s' ==> l' < 2
    ensures rest.Some? ==>
      (forall s', l' :: RunAt(z, s', l') && s <= s' ==> l' <= rest.value.length)
      && (forall s', l' :: RunAt(z, s', l') && s <= s' < rest.value.start ==> l' < rest.value.length)
    ensures rest.None? ==> forall s', l' :: RunAt(z, s', l') && s <= s' ==> l' < 2
  {
  }

  /** Every maximal run starting at `s` is the zeros counted from `s`. */
  lemma RunsAtStart(z: seq<bool>, s: nat)
    ensures forall l' :: RunAt(z, s, l') ==> l' == RunLength(z, s) && z[s] && (s == 0 || !z[s - 1])
  {
    forall l' | RunAt(z, s, l')
      ensures l' == RunLength(z, s) && z[s] && (s == 0 || !z[s - 1])
    {
      RunAtLength(z, s, l');
    }
  }

  /** The reference choice is the leftmost longest run of two or more zero groups, and there
      is none only when no two zero groups are adjacent. */
  lemma LongestZeroRunIsBest(z: seq<bool>)
    ensures LongestZeroRun(z).Some? ==>
      IsBestRun(z, LongestZeroRun(z).value.start, LongestZeroRun(z).value.length)
    ensures LongestZeroRun(z).None? ==> NoLongRun(z)
  {
    BestFromChoice(z, 0);
  }

  /** At most one run is the best. */
  lemma BestRunUnique(z: seq<bool>, s: int, l: int, s': int, l': int)
    requires IsBestRun(z, s, l) && IsBestRun(z, s', l')
    ensures s == s' && l == l'
  {
  }

  /** Two maximal runs that end at the same place are the same run. */
  lemma RunEnding(z: seq<bool>, s: int, l: int, start: int, i: int)
    requires RunAt(z, s, l) && s + l == i
    requires 0 <= start < i <= |z| && (forall j :: start <= j < i ==> z[j]) && (start == 0 || !z[start - 1])
    ensures s == start && l == i - start
  {
  }

  /** What the scan of `abbreviate` knows after looking at the first `i` groups: whether the
      previous group was zero, where the open run started, and the best of the runs that have
      already ended; a stale `zLength` never beats the best. */
  ghost predicate ScanState(z: seq<bool>, i: int, zPrev: bool, zeroStart: int, zeroLen: int, zStart: int, zLen: int)
  {
    0 <= i <= |z|
    && zPrev == (i > 0 && z[i - 1])
    && (zPrev ==> 0 <= zStart < i && (forall j :: zStart <= j < i ==> z[j]) && (zStart == 0 || !z[zStart - 1]))
    && (zeroLen >= 2 ==> RunAt(z, zeroStart, zeroLen) && zeroStart + zeroLen < i)
    && (zeroLen < 2 ==> zeroStart == -1 && zeroLen == 0)
    && (zLen <= 1 || zLen <= zeroLen)
    && (forall s, l :: RunAt(z, s, l) && s + l < i ==> l < 2 || l <= zeroLen)
    && (forall s, l :: RunAt(z, s, l) && s + l < i && s < zeroStart ==> l < zeroLen)
  }

  /** One step of the scan at group `i`: a zero group after a non-zero one opens a run, a
      non-zero group after a zero one closes it, and a closed run longer than the best so far
      (and longer than one) becomes the best. */
  lemma ScanStep(z: seq<bool>, i: int, zPrev: bool, zeroStart: int, zeroLen: int, zStart: int, zLen: int,
                 zStart1: int, zLen1: int, zeroStart1: int, zeroLen1: int)
    requires i < |z| && ScanState(z, i, zPrev, zeroStart, zeroLen, zStart, zLen)
    requires zStart1 == (if z[i] && !zPrev then i else zStart)
    requires zLen1 == (if !z[i] && zPrev then i - zStart1 else zLen)
    requires zeroStart1 == (if zLen1 > 1 && zLen1 > zeroLen then zStart1 else zeroStart)
    requires zeroLen1 == (if zLen1 > 1 && zLen1 > zeroLen then zLen1 else zeroLen)
    ensures ScanState(z, i + 1, z[i], zeroStart1, zeroLen1, zStart1, zLen1)
  {
    if !z[i] && zPrev {
      assert RunAt(z, zStart1, zLen1);
    }
    forall s, l | RunAt(z, s, l) && s + l == i
      ensures !z[i] && zPrev && s == zStart1 && l == zLen1
    {
      assert z[i - 1];
      RunEnding(z, s, l, zStart1, i);
    }
  }

  /** The end of the scan: a run still open at the end is closed, and the best run found is the
      reference choice. */
  lemma ScanEnd(z: seq<bool>, zPrev: bool, zeroStart: int, zeroLen: int, zStart: int, zLen: int,
                zLen1: int, zeroStart1: int, zeroLen1: int)
    requires ScanState(z, |z|, zPrev, zeroStart, zeroLen, zStart, zLen)
    requires zLen1 == (if zPrev then |z| - zStart else zLen)
    requires zeroStart1 == (if zLen1 > 1 && zLen1 > zeroLen then zStart else zeroStart)
    requires zeroLen1 == (if zLen1 > 1 && zLen1 > zeroLen then zLen1 else zeroLen)
    ensures zeroStart1 >= 0 && zeroLen1 > 1 ==>
      IsBestRun(z, zeroStart1, zeroLen1) && LongestZeroRun(z) == Some(Run(zeroStart1, zeroLen1))
    ensures !(zeroStart1 >= 0 && zeroLen1 > 1) ==> NoLongRun(z) && LongestZeroRun(z) == None
  {
    if zPrev {
      assert RunAt(z, zStart, zLen1);
    }
    forall s, l | RunAt(z, s, l) && s + l == |z|
      ensures zPrev && s == zStart && l == zLen1
    {
      assert z[|z| - 1];
      RunEnding(z, s, l, zStart, |z|);
    }
    LongestZeroRunIsBest(z);
    if LongestZeroRun(z).Some? {
      var r := LongestZeroRun(z).value;
      BestRunUnique(z, r.start, r.length, zeroStart1, zeroLen1);
    }
  }

  /** The zero-run scan of `abbreviate`, over the first eight groups. */
  method FindZeroRun(sections: seq<string>) returns (zeroStartIndex: int, zeroLength: int)
    requires |sections| >= 8
    ensures zeroStartIndex >= 0 && zeroLength > 1 ==>
      IsBestRun(ZeroFlags(sections), zeroStartIndex, zeroLength)
      && LongestZeroRun(ZeroFlags(sections)) == Some(Run(zeroStartIndex, zeroLength))
    ensures !(zeroStartIndex >= 0 && zeroLength > 1) ==>
      NoLongRun(ZeroFlags(sections)) && LongestZeroRun(ZeroFlags(sections)) == None
  {
    ghost var z := ZeroFlags(sections);
    var zPreviousFlag := false;
    zeroStartIndex := -1;
    zeroLength := 0;
    var zStartIndex := -1;
    var zLength := 0;
    for i := 0 to 8
      invariant ScanState(z, i, zPreviousFlag, zeroStartIndex, zeroLength, zStartIndex, zLength)
    {
      ghost var zeroStart0, zeroLen0, zStart0, zLen0 := zeroStartIndex, zeroLength, zStartIndex, zLength;
      var zFlag := sections[i] == "0";
      if zFlag && !zPreviousFlag {
        zStartIndex := i;
      }
      if !zFlag && zPreviousFlag {
        zLength := i - zStartIndex;
      }
      if zLength > 1 && zLength > zeroLength {
        zeroStartIndex := zStartIndex;
        zeroLength := zLength;
      }
      ScanStep(z, i, zPreviousFlag, zeroStart0, zeroLen0, zStart0, zLen0,
        zStartIndex, zLength, zeroStartIndex, zeroLength);
      zPreviousFlag := zFlag;
    }
    ghost var zeroStart0, zeroLen0, zLen0 := zeroStartIndex, zeroLength, zLength;
    if zPreviousFlag {
      zLength := 8 - zStartIndex;
    }
    if zLength > 1 && zLength > zeroLength {
      zeroStartIndex := zStartIndex;
      zeroLength := zLength;
    }
    ScanEnd(z, zPreviousFlag, zeroStart0, zeroLen0, zStartIndex, zLen0, zLength, zeroStartIndex, zeroLength);
  }
}

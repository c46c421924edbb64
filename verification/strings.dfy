/** The parts of Kotlin's string library that the address code relies on: `split` and `replace`
    with a literal delimiter, `joinToString`, `padStart`, `toLowerCase` and filtering out empty
    pieces. Strings are sequences of chars. */
module Strings {

  /** `d` occurs in `s` starting at index `k`. */
  predicate OccursAt(s: string, d: string, k: int)
  {
    0 <= k && k + |d| <= |s| && s[k..k + |d|] == d
  }

  /** No occurrence of `d` in `s` starts before index `n`. */
  predicate NoOccurrenceBefore(s: string, d: string, n: int)
  {
    forall k :: 0 <= k < n ==> !OccursAt(s, d, k)
  }

  /** `s.split(d)` for a literal, non-empty delimiter: the occurrences are found from the left
      without overlapping, and every piece is kept, empty ones included (at both ends too). */
  function Split(s: string, d: string): (pieces: seq<string>)
    requires d != ""
    ensures |pieces| >= 1
    decreases |s|
  {
    if |s| < |d| then [s]
    else if s[..|d|] == d then [""] + Split(s[|d|..], d)
    else
      var rest := Split(s[1..], d);
      [[s[0]] + rest[0]] + rest[1..]
  }

  /** `sep + t` for every piece `t`, in order. */
  function Chunks(pieces: seq<string>, sep: string): (r: string)
  {
    if pieces == [] then "" else sep + pieces[0] + Chunks(pieces[1..], sep)
  }

  /** `pieces.joinToString(sep)`. */
  function Join(pieces: seq<string>, sep: string): (r: string)
  {
    if pieces == [] then "" else pieces[0] + Chunks(pieces[1..], sep)
  }

  /** `s.replace(p, r)`: scanning from the left, every occurrence of the non-empty `p` that does
      not overlap an earlier replaced one becomes `r`. */
  function Replace(s: string, p: string, r: string): (replaced: string)
    requires p != ""
    decreases |s|
  {
    if |s| < |p| then s
    else if s[..|p|] == p then r + Replace(s[|p|..], p, r)
    else [s[0]] + Replace(s[1..], p, r)
  }

  /** The pieces that are not empty, in order (`filter { it.isNotEmpty() }`). */
  function NonEmpty(pieces: seq<string>): (r: seq<string>)
  {
    if pieces == [] then []
    else (if pieces[0] == "" then [] else [pieces[0]]) + NonEmpty(pieces[1..])
  }

  function LowerChar(c: char): (r: char)
  {
    if 'A' <= c <= 'Z' then (c as int + 32) as char else c
  }

  /** `toLowerCase()` restricted to the ASCII letters. */
  function Lower(s: string): (r: string)
  {
    seq(|s|, i requires 0 <= i < |s| => LowerChar(s[i]))
  }

  /** `s.padStart(n, c)`. */
  function PadStart(s: string, n: nat, c: char): (r: string)
  {
    if |s| >= n then s else seq(n - |s|, _ => c) + s
  }

  /** Drops leading '0' characters but keeps the last character. */
  function StripLeadingZeros(s: string): (r: string)
    decreases |s|
  {
    if |s| > 1 && s[0] == '0' then StripLeadingZeros(s[1..]) else s
  }

  // ---------------------------------------------------------------------------
  // Split

  lemma NoCharNoOccurrence(s: string, c: char)
    requires c !in s
    ensures NoOccurrenceBefore(s, [c], |s|)
  {
    forall k | 0 <= k < |s| ensures !OccursAt(s, [c], k) {
      assert s[k..k + 1] == [s[k]];
    }
  }

  lemma ShiftNoOccurrence(s: string, d: string, m: nat, n: int)
    requires m <= |s| && NoOccurrenceBefore(s, d, m + n)
    ensures NoOccurrenceBefore(s[m..], d, n)
  {
    forall k | 0 <= k < n ensures !OccursAt(s[m..], d, k) {
      assert !OccursAt(s, d, m + k);
      if k + |d| <= |s[m..]| {
        assert s[m..][k..k + |d|] == s[m + k..m + k + |d|];
      }
    }
  }

  /** Splitting at the first occurrence of the delimiter. */
  lemma SplitAt(s: string, d: string, n: nat)
    requires d != "" && OccursAt(s, d, n) && NoOccurrenceBefore(s, d, n)
    ensures Split(s, d) == [s[..n]] + Split(s[n + |d|..], d)
  {
    SplitBefore(s, d, n, s[n + |d|..]);
  }

  /** SplitAt, with the text after the delimiter named `rest`. */
  lemma {:induction false} SplitBefore(s: string, d: string, n: nat, rest: string)
    requires d != "" && OccursAt(s, d, n) && NoOccurrenceBefore(s, d, n)
    requires rest == s[n + |d|..]
    ensures Split(s, d) == [s[..n]] + Split(rest, d)
    decreases n
  {
    if n == 0 {
      assert s[..|d|] == d;
    } else {
      TailSlices(s, d, n);
      SplitSkip(s, d);
      ShiftNoOccurrence(s, d, 1, n - 1);
      SplitBefore(s[1..], d, n - 1, rest);
      SplitCons(s[0], s[1..][..n - 1], s[..n], Split(s[1..], d), Split(rest, d));
    }
  }

  /** The split of a text that does not start with the delimiter. */
  lemma SplitSkip(s: string, d: string)
    requires d != "" && |s| >= |d| && !OccursAt(s, d, 0)
    ensures Split(s, d) == [[s[0]] + Split(s[1..], d)[0]] + Split(s[1..], d)[1..]
  {
  }

  lemma SplitCons(c: char, piece: string, whole: string, tail: seq<string>, rest: seq<string>)
    requires tail == [piece] + rest && whole == [c] + piece
    ensures [[c] + tail[0]] + tail[1..] == [whole] + rest
  {
    assert tail[1..] == rest;
  }

  /** How the slices of a text's tail line up with those of the text. */
  lemma TailSlices(s: string, d: string, n: nat)
    requires 1 <= n && n + |d| <= |s|
    ensures s[1..][n - 1..n - 1 + |d|] == s[n..n + |d|]
    ensures s[1..][n - 1 + |d|..] == s[n + |d|..]
    ensures [s[0]] + s[1..][..n - 1] == s[..n]
  {
  }

  /** A string without the delimiter splits into itself. */
  lemma {:induction false} SplitNone(s: string, d: string)
    requires d != "" && NoOccurrenceBefore(s, d, |s|)
    ensures Split(s, d) == [s]
    decreases |s|
  {
    if |s| >= |d| {
      assert !OccursAt(s, d, 0);
      ShiftNoOccurrence(s, d, 1, |s| - 1);
      SplitNone(s[1..], d);
      assert [s[0]] + s[1..] == s;
    }
  }

  /** A split into two or more pieces found the delimiter. */
  lemma SplitFound(s: string, d: string)
    requires d != "" && |Split(s, d)| >= 2
    ensures exists k :: OccursAt(s, d, k)
  {
    if forall k :: 0 <= k < |s| ==> !OccursAt(s, d, k) {
      SplitNone(s, d);
    }
  }

  /** The first piece of a split is a prefix of the text. */
  lemma {:induction false} SplitFirstPrefix(s: string, d: string)
    requires d != ""
    ensures |Split(s, d)[0]| <= |s| && Split(s, d)[0] == s[..|Split(s, d)[0]|]
    decreases |s|
  {
    if |s| >= |d| && s[..|d|] != d {
      SplitFirstPrefix(s[1..], d);
    }
  }

  lemma {:induction false} NonEmptyLength(a: seq<string>)
    ensures |NonEmpty(a)| <= |a|
    decreases |a|
  {
    if a != [] {
      NonEmptyLength(a[1..]);
    }
  }

  /** Two pieces without the separator, joined by it, split back into the two. */
  lemma SplitPair(a: string, b: string, c: char)
    requires c !in a && c !in b
    ensures c in a + [c] + b && Split(a + [c] + b, [c]) == [a, b]
  {
    assert [a, b][1..] == [b];
    assert Chunks([b], [c]) == [c] + b + Chunks([], [c]);
    assert Join([a, b], [c]) == a + [c] + b;
    SplitJoin([a, b], c);
    assert (a + [c] + b)[|a|] == c;
  }

  /** Splitting a join on a one-character separator that no piece contains gives the pieces back. */
  lemma {:induction false} SplitJoin(pieces: seq<string>, c: char)
    requires |pieces| >= 1
    requires forall i :: 0 <= i < |pieces| ==> c !in pieces[i]
    ensures Split(Join(pieces, [c]), [c]) == pieces
    decreases |pieces|
  {
    var p := pieces[0];
    if |pieces| == 1 {
      assert Join(pieces, [c]) == p;
      NoCharNoOccurrence(p, c);
      SplitNone(p, [c]);
    } else {
      var rest := pieces[1..];
      var s := Join(pieces, [c]);
      assert s == p + [c] + Join(rest, [c]);
      assert s[|p|..|p| + 1] == [c];
      forall k | 0 <= k < |p| ensures !OccursAt(s, [c], k) {
        assert s[k..k + 1] == [p[k]];
      }
      SplitAt(s, [c], |p|);
      assert s[..|p|] == p;
      assert s[|p| + 1..] == Join(rest, [c]);
      SplitJoin(rest, c);
      assert [p] + rest == pieces;
    }
  }

  /** Joining the pieces of a split on a one-character delimiter gives the text back. */
  lemma {:induction false} JoinSplit(s: string, c: char)
    ensures Join(Split(s, [c]), [c]) == s
    decreases |s|
  {
    if |s| >= 1 {
      var rest := Split(s[1..], [c]);
      JoinSplit(s[1..], c);
      assert Join(rest, [c]) == rest[0] + Chunks(rest[1..], [c]);
      if s[..1] == [c] {
        assert ([""] + rest)[1..] == rest;
        assert s == [c] + s[1..];
      } else {
        assert s == [s[0]] + s[1..];
      }
    }
  }

  /** No piece of a split contains a one-character delimiter. */
  lemma {:induction false} SplitPiecesFree(s: string, c: char)
    ensures forall i :: 0 <= i < |Split(s, [c])| ==> c !in Split(s, [c])[i]
    decreases |s|
  {
    if |s| >= 1 {
      SplitPiecesFree(s[1..], c);
      if s[..1] != [c] {
        assert s[0] != c by { assert s[..1][0] == s[0]; }
      }
    }
  }

  // ---------------------------------------------------------------------------
  // Join

  lemma {:induction false} ChunksAppend(a: seq<string>, b: seq<string>, sep: string)
    ensures Chunks(a + b, sep) == Chunks(a, sep) + Chunks(b, sep)
    decreases |a|
  {
    if a != [] {
      assert (a + b)[1..] == a[1..] + b;
      ChunksAppend(a[1..], b, sep);
    } else {
      assert a + b == b;
    }
  }

  /** The first piece, the separator, then the join of the rest. */
  lemma JoinCons(pieces: seq<string>, sep: string)
    requires |pieces| >= 2
    ensures Join(pieces, sep) == pieces[0] + sep + Join(pieces[1..], sep)
  {
    assert pieces[1..][1..] == pieces[2..];
  }

  lemma JoinAppend(a: seq<string>, b: seq<string>, sep: string)
    requires a != [] && b != []
    ensures Join(a + b, sep) == Join(a, sep) + sep + Join(b, sep)
  {
    assert (a + b)[1..] == a[1..] + b;
    ChunksAppend(a[1..], b, sep);
    var x, c, y, d := a[0], Chunks(a[1..], sep), b[0], Chunks(b[1..], sep);
    assert Join(a + b, sep) == x + (c + ((sep + y) + d));
    assert Join(a, sep) == x + c && Join(b, sep) == y + d;
    Regroup(x, c, sep, y, d);
  }

  lemma Regroup(x: string, c: string, s: string, y: string, d: string)
    ensures x + (c + ((s + y) + d)) == ((x + c) + s) + (y + d)
  {
  }

  // ---------------------------------------------------------------------------
  // Replace

  /** A string without the pattern is left unchanged. */
  lemma {:induction false} ReplaceNone(s: string, p: string, r: string)
    requires p != "" && NoOccurrenceBefore(s, p, |s|)
    ensures Replace(s, p, r) == s
    decreases |s|
  {
    if |s| >= |p| {
      assert !OccursAt(s, p, 0);
      ShiftNoOccurrence(s, p, 1, |s| - 1);
      ReplaceNone(s[1..], p, r);
      assert [s[0]] + s[1..] == s;
    }
  }

  /** A string lacking one of the pattern's characters is left unchanged. */
  lemma ReplaceAbsent(s: string, p: string, r: string, c: char)
    requires p != "" && c in p && c !in s
    ensures Replace(s, p, r) == s
  {
    forall k | 0 <= k < |s| ensures !OccursAt(s, p, k) {
      if k + |p| <= |s| {
        assert forall x :: x in s[k..k + |p|] ==> x in s;
        assert c !in s[k..k + |p|];
      }
    }
    ReplaceNone(s, p, r);
  }

  /** Replacing at the first occurrence of the pattern. */
  lemma ReplaceAt(s: string, p: string, r: string, n: nat)
    requires p != "" && OccursAt(s, p, n) && NoOccurrenceBefore(s, p, n)
    ensures Replace(s, p, r) == s[..n] + r + Replace(s[n + |p|..], p, r)
  {
    ReplaceBefore(s, p, r, n, s[n + |p|..]);
  }

  /** `ReplaceAt`, with the text after the occurrence named `rest`. */
  lemma {:induction false} ReplaceBefore(s: string, p: string, r: string, n: nat, rest: string)
    requires p != "" && OccursAt(s, p, n) && NoOccurrenceBefore(s, p, n)
    requires rest == s[n + |p|..]
    ensures Replace(s, p, r) == s[..n] + r + Replace(rest, p, r)
    decreases n
  {
    if n == 0 {
      ReplaceHere(s, p, r);
      assert s[..n] + r == r;
    } else {
      ReplaceSkip(s, p, r);
      OccursAtTail(s, p, n);
      ShiftNoOccurrence(s, p, 1, n - 1);
      ReplaceBefore(s[1..], p, r, n - 1, rest);
      ConsRegroup(s, r, Replace(rest, p, r), Replace(s, p, r), Replace(s[1..], p, r), n);
    }
  }

  /** The inductive step of `ReplaceAt`: the first character is kept, and the tail is split at
      the same occurrence. */
  lemma ConsRegroup(s: string, r: string, rest: string, whole: string, tail: string, n: nat)
    requires 0 < n <= |s|
    requires whole == [s[0]] + tail && tail == s[1..][..n - 1] + r + rest
    ensures whole == s[..n] + r + rest
  {
    assert [s[0]] + s[1..][..n - 1] == s[..n];
  }

  /** Where the pattern starts at index 0, `Replace` puts the replacement there. */
  lemma ReplaceHere(s: string, p: string, r: string)
    requires p != "" && OccursAt(s, p, 0)
    ensures Replace(s, p, r) == r + Replace(s[|p|..], p, r)
  {
    assert s[..|p|] == p;
  }

  /** Where the pattern does not start at index 0, `Replace` keeps the first character. */
  lemma ReplaceSkip(s: string, p: string, r: string)
    requires p != "" && |s| >= |p| && !OccursAt(s, p, 0)
    ensures Replace(s, p, r) == [s[0]] + Replace(s[1..], p, r)
  {
    assert s[..|p|] != p;
  }

  /** An occurrence past index 0 is one in the tail, one index earlier. */
  lemma OccursAtTail(s: string, d: string, n: int)
    requires 0 < n && OccursAt(s, d, n)
    ensures OccursAt(s[1..], d, n - 1) && s[1..][n - 1 + |d|..] == s[n + |d|..]
  {
    assert s[1..][n - 1..n - 1 + |d|] == s[n..n + |d|];
  }

  /** No occurrence of `p` in `x + y` straddles the seam between `x` and `y`. */
  predicate SeamFree(x: string, y: string, p: string)
  {
    forall k :: 0 <= k < |x| < k + |p| ==> !OccursAt(x + y, p, k)
  }

  /** Dropping a prefix of `x` keeps the seam free. */
  lemma SeamFreeSuffix(x: string, y: string, p: string, m: nat)
    requires m <= |x| && SeamFree(x, y, p)
    ensures SeamFree(x[m..], y, p)
  {
    var x' := x[m..];
    assert (x + y)[m..] == x' + y;
    forall k | 0 <= k < |x'| < k + |p| ensures !OccursAt(x' + y, p, k) {
      assert !OccursAt(x + y, p, k + m);
      if k + |p| <= |x' + y| {
        assert (x + y)[k + m..k + m + |p|] == (x' + y)[k..k + |p|];
      }
    }
  }

  /** Replacement distributes over a concatenation when no occurrence straddles the seam. */
  lemma {:induction false} ReplaceConcat(x: string, y: string, p: string, r: string)
    requires p != "" && SeamFree(x, y, p)
    ensures Replace(x + y, p, r) == Replace(x, p, r) + Replace(y, p, r)
    decreases |x|
  {
    if x == [] {
      assert x + y == y;
    } else if |x + y| < |p| {
    } else {
      var m := if OccursAt(x + y, p, 0) then |p| else 1;
      assert m <= |x| by {
        if |x| < |p| {
          assert !OccursAt(x + y, p, 0);
        }
      }
      SeamFreeSuffix(x, y, p, m);
      ReplaceConcat(x[m..], y, p, r);
      if m == |p| && OccursAt(x + y, p, 0) {
        ConcatHere(x, y, p, r, x[m..]);
      } else {
        ConcatSkip(x, y, p, r, x[m..]);
      }
    }
  }

  /** The step of `ReplaceConcat` past an occurrence at index 0, given the claim for the rest
      `x'` of `x`. */
  lemma ConcatHere(x: string, y: string, p: string, r: string, x': string)
    requires p != "" && |p| <= |x| && OccursAt(x + y, p, 0) && x' == x[|p|..]
    requires Replace(x' + y, p, r) == Replace(x', p, r) + Replace(y, p, r)
    ensures Replace(x + y, p, r) == Replace(x, p, r) + Replace(y, p, r)
  {
    var s := x + y;
    assert s[|p|..] == x' + y;
    assert OccursAt(x, p, 0) by {
      assert x[..|p|] == s[..|p|];
    }
    ReplaceHere(s, p, r);
    ReplaceHere(x, p, r);
    AppendAssoc(r, Replace(x', p, r), Replace(y, p, r));
  }

  /** The step of `ReplaceConcat` past a first character that does not open an occurrence,
      given the claim for the rest `x'` of `x`. */
  lemma ConcatSkip(x: string, y: string, p: string, r: string, x': string)
    requires p != "" && x != [] && |x + y| >= |p| && !OccursAt(x + y, p, 0) && x' == x[1..]
    requires Replace(x' + y, p, r) == Replace(x', p, r) + Replace(y, p, r)
    ensures Replace(x + y, p, r) == Replace(x, p, r) + Replace(y, p, r)
  {
    ReplaceSkip(x + y, p, r);
    DropOfConcat(x, y, 1, x');
    SkipPrefix(x, y, p, r, x');
    ConsChain(x[0], Replace(x + y, p, r), Replace(x' + y, p, r), Replace(x', p, r), Replace(y, p, r),
      Replace(x, p, r));
  }

  /** Dropping `m` characters of `x + y` drops them from `x`. */
  lemma DropOfConcat(x: string, y: string, m: nat, x': string)
    requires m <= |x| && x' == x[m..]
    ensures (x + y)[m..] == x' + y && (x + y)[..m] == x[..m]
  {
  }

  lemma ConsChain(c: char, whole: string, tail: string, u: string, v: string, first: string)
    requires whole == [c] + tail && tail == u + v && first == [c] + u
    ensures whole == first + v
  {
  }

  /** Where `x + y` does not open with the pattern, neither does `x`. */
  lemma SkipPrefix(x: string, y: string, p: string, r: string, x': string)
    requires p != "" && x != [] && |x + y| >= |p| && !OccursAt(x + y, p, 0) && x' == x[1..]
    ensures Replace(x, p, r) == [x[0]] + Replace(x', p, r)
  {
    if |x| < |p| {
      assert [x[0]] + x' == x;
    } else {
      assert x[..|p|] == (x + y)[..|p|];
      ReplaceSkip(x, p, r);
    }
  }

  lemma AppendAssoc(a: string, b: string, c: string)
    ensures a + (b + c) == (a + b) + c
  {
  }

  /** No occurrence straddles a seam that is followed by `c`, when `c` can only open the pattern. */
  lemma ReplaceAtSeparator(x: string, y: string, p: string, r: string, c: char)
    requires p != "" && forall j :: 1 <= j < |p| ==> p[j] != c
    requires y != [] ==> y[0] == c
    ensures Replace(x + y, p, r) == Replace(x, p, r) + Replace(y, p, r)
  {
    forall k | 0 <= k < |x| < k + |p| ensures !OccursAt(x + y, p, k) {
      if k + |p| <= |x + y| {
        assert (x + y)[k..k + |p|][|x| - k] == c;
      }
    }
    ReplaceConcat(x, y, p, r);
  }

  /** Replacement works chunk by chunk on `c`-separated chunks. */
  lemma {:induction false} ReplaceChunks(ts: seq<string>, outs: seq<string>, p: string, r: string, c: char)
    requires p != "" && forall j :: 1 <= j < |p| ==> p[j] != c
    requires |outs| == |ts|
    requires forall i :: 0 <= i < |ts| ==> Replace([c] + ts[i], p, r) == [c] + outs[i]
    ensures Replace(Chunks(ts, [c]), p, r) == Chunks(outs, [c])
    decreases |ts|
  {
    if ts != [] {
      var head := [c] + ts[0];
      var tail := Chunks(ts[1..], [c]);
      assert Chunks(ts, [c]) == head + tail;
      ReplaceAtSeparator(head, tail, p, r, c);
      ReplaceChunks(ts[1..], outs[1..], p, r, c);
    }
  }

  /** Replacement on a `c`-joined list works piece by piece: the first piece on its own, every
      later piece together with the separator before it. */
  lemma ReplaceJoin(toks: seq<string>, outs: seq<string>, p: string, r: string, c: char)
    requires p != "" && forall j :: 1 <= j < |p| ==> p[j] != c
    requires |toks| >= 1 && |outs| == |toks|
    requires Replace(toks[0], p, r) == outs[0]
    requires forall i :: 1 <= i < |toks| ==> Replace([c] + toks[i], p, r) == [c] + outs[i]
    ensures Replace(Join(toks, [c]), p, r) == Join(outs, [c])
  {
    var tail := Chunks(toks[1..], [c]);
    ReplaceAtSeparator(toks[0], tail, p, r, c);
    ReplaceChunks(toks[1..], outs[1..], p, r, c);
  }

  // ---------------------------------------------------------------------------
  // Filtering, lower case

  lemma {:induction false} NonEmptyAppend(a: seq<string>, b: seq<string>)
    ensures NonEmpty(a + b) == NonEmpty(a) + NonEmpty(b)
    decreases |a|
  {
    if a == [] {
      assert a + b == b;
    } else {
      assert (a + b)[1..] == a[1..] + b;
      NonEmptyAppend(a[1..], b);
    }
  }

  lemma {:induction false} NonEmptyAll(a: seq<string>)
    requires forall i :: 0 <= i < |a| ==> a[i] != ""
    ensures NonEmpty(a) == a
    decreases |a|
  {
    if a != [] {
      NonEmptyAll(a[1..]);
      assert [a[0]] + a[1..] == a;
    }
  }

  lemma LowerUnchanged(s: string)
    requires forall i :: 0 <= i < |s| ==> !('A' <= s[i] <= 'Z')
    ensures Lower(s) == s
  {
  }

  /** A string that holds the single-character delimiter splits into at least two pieces. */
  lemma {:induction false} SplitOnChar(s: string, c: char)
    requires c in s
    ensures |Split(s, [c])| >= 2
    decreases |s|
  {
    if s[..1] != [c] {
      assert s[..1] == [s[0]];
      assert c in s[1..] by {
        var k :| 0 <= k < |s| && s[k] == c;
        assert s[1..][k - 1] == c;
      }
      SplitOnChar(s[1..], c);
    }
  }

  /** A character in neither the pieces nor the separator is not in their chunks. */
  lemma {:induction false} ChunksFree(pieces: seq<string>, sep: string, c: char)
    requires c !in sep && forall i :: 0 <= i < |pieces| ==> c !in pieces[i]
    ensures c !in Chunks(pieces, sep)
    decreases |pieces|
  {
    if pieces != [] {
      assert c !in pieces[0];
      ChunksFree(pieces[1..], sep, c);
    }
  }

  /** A character in neither the pieces nor the separator is not in their join. */
  lemma JoinFree(pieces: seq<string>, sep: string, c: char)
    requires c !in sep && forall i :: 0 <= i < |pieces| ==> c !in pieces[i]
    ensures c !in Join(pieces, sep)
  {
    if pieces != [] {
      assert c !in pieces[0];
      ChunksFree(pieces[1..], sep, c);
    }
  }

  // ---------------------------------------------------------------------------
  // Replacing within joined pieces

  /** `s` without the prefix `z`, when it starts with it. */
  function DropPrefix(s: string, z: string): (t: string)
    ensures |z| <= |s| && s[..|z|] == z ==> s == z + t
    ensures !(|z| <= |s| && s[..|z|] == z) ==> t == s
  {
    if |z| <= |s| && s[..|z|] == z then s[|z|..] else s
  }

  /** A pattern without the separator does not start at a separator. */
  lemma ReplaceAfterSeparator(v: string, p: string, r: string, c: char)
    requires p != "" && c !in p
    ensures Replace([c] + v, p, r) == [c] + Replace(v, p, r)
  {
    var s := [c] + v;
    assert s[1..] == v;
    if |s| >= |p| {
      assert s[..|p|][0] == c;
    }
  }

  /** A pattern that is either the whole piece or absent from it. */
  lemma ReplaceWholePiece(t: string, p: string, r: string)
    requires p != "" && (t == p || NoOccurrenceBefore(t, p, |t|))
    ensures Replace(t, p, r) == if t == p then r else t
  {
    if t == p {
      ReplaceAt(t, p, r, 0);
      assert t[|p|..] == "";
    } else {
      ReplaceNone(t, p, r);
    }
  }

  /** A pattern made of the separator and a rest `z` that the piece after it starts with
      takes that rest away; otherwise the text is unchanged. */
  lemma ReplaceSeparatorPrefix(v: string, z: string, c: char)
    requires c !in v && c !in z
    ensures Replace([c] + v, [c] + z, [c]) == [c] + DropPrefix(v, z)
  {
    var s, p := [c] + v, [c] + z;
    if |z| <= |v| && v[..|z|] == z {
      assert s[..|p|] == p;
      ReplaceAt(s, p, [c], 0);
      assert s[|p|..] == v[|z|..];
      SuffixFree(v, |z|, c);
      ReplaceAbsent(v[|z|..], p, [c], c);
    } else {
      SeparatorPrefixAbsent(v, z, c);
      ReplaceNone(s, p, [c]);
    }
  }

  lemma SuffixFree(v: string, n: nat, c: char)
    requires c !in v && n <= |v|
    ensures c !in v[n..]
  {
    forall k | 0 <= k < |v| - n
      ensures v[n..][k] != c
    {
      assert v[n..][k] == v[n + k];
    }
  }

  /** The separator followed by `z` occurs nowhere in the separator followed by `v`, when `v`
      does not start with `z` and holds no separator. */
  lemma SeparatorPrefixAbsent(v: string, z: string, c: char)
    requires c !in v && !(|z| <= |v| && v[..|z|] == z)
    ensures NoOccurrenceBefore([c] + v, [c] + z, |v| + 1)
  {
    var s, p := [c] + v, [c] + z;
    forall k | 0 <= k < |s|
      ensures !OccursAt(s, p, k)
    {
      if k == 0 {
        assert |p| <= |s| ==> s[..|p|][1..] == v[..|z|];
      } else {
        assert s[k] == v[k - 1];
      }
    }
  }

  /** Replacing, in joined pieces, a pattern without the separator that each piece either is
      or does not contain: exactly the pieces equal to the pattern are replaced. */
  lemma ReplaceWholePieces(toks: seq<string>, p: string, r: string, c: char)
    requires p != "" && c !in p && |toks| >= 1
    requires forall i :: 0 <= i < |toks| ==> toks[i] == p || NoOccurrenceBefore(toks[i], p, |toks[i]|)
    ensures Replace(Join(toks, [c]), p, r)
         == Join(seq(|toks|, i requires 0 <= i < |toks| => if toks[i] == p then r else toks[i]), [c])
  {
    var outs := seq(|toks|, i requires 0 <= i < |toks| => if toks[i] == p then r else toks[i]);
    forall i | 0 <= i < |toks|
      ensures Replace(toks[i], p, r) == outs[i] && Replace([c] + toks[i], p, r) == [c] + outs[i]
    {
      ReplaceWholePiece(toks[i], p, r);
      ReplaceAfterSeparator(toks[i], p, r, c);
    }
    ReplaceJoin(toks, outs, p, r, c);
  }

  /** Replacing, in joined pieces free of the separator `c`, the separator followed by `z` with
      the separator alone: every piece but the first loses a leading `z`. */
  lemma ReplaceSeparatorPrefixes(toks: seq<string>, z: string, c: char)
    requires c !in z && |toks| >= 1 && forall i :: 0 <= i < |toks| ==> c !in toks[i]
    ensures Replace(Join(toks, [c]), [c] + z, [c])
         == Join(seq(|toks|, i requires 0 <= i < |toks| => if i == 0 then toks[0] else DropPrefix(toks[i], z)), [c])
  {
    var outs := seq(|toks|, i requires 0 <= i < |toks| => if i == 0 then toks[0] else DropPrefix(toks[i], z));
    forall i | 1 <= i < |toks|
      ensures Replace([c] + toks[i], [c] + z, [c]) == [c] + outs[i]
    {
      ReplaceSeparatorPrefix(toks[i], z, c);
    }
    ReplaceAbsent(toks[0], [c] + z, [c], c);
    ReplaceJoin(toks, outs, [c] + z, [c], c);
  }

  /** `p` cannot occur where the text lacks its `j`-th character. */
  lemma NoOccurrenceWithout(s: string, p: string, j: int, n: int)
    requires 0 <= j < |p|
    requires forall i :: j <= i < n + j && i + |p| - j <= |s| ==> s[i] != p[j]
    ensures NoOccurrenceBefore(s, p, n)
  {
    forall k | 0 <= k < n
      ensures !OccursAt(s, p, k)
    {
      if k + |p| <= |s| {
        var i := k + j;
        assert s[k..k + |p|][j] == s[i];
      }
    }
  }
}

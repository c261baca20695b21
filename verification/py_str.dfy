/**
 The Python `str` operations the converter relies on, with CPython's
 semantics: `startswith`, `endswith`, `find`, `in`, `split`, `join` and
 `replace`. A Python string is a sequence of code points; here it is a
 `string`, a sequence of Dafny `char`s (Unicode scalar values). Comparison is
 exact: there is no case folding and no normalisation.
 */
module PyStr {

  /** `p` occurs in `s` starting at index `i`. */
  predicate OccursAt(s: string, p: string, i: nat) {
    i + |p| <= |s| && s[i..i + |p|] == p
  }

  /** `p in s`. */
  predicate Contains(s: string, p: string) {
    exists i: nat | i <= |s| :: OccursAt(s, p, i)
  }

  /** `s.startswith(p)`. */
  predicate StartsWith(s: string, p: string) {
    |p| <= |s| && s[..|p|] == p
  }

  /** `s.endswith(p)`: exact and case-sensitive; every string ends with "". */
  predicate EndsWith(s: string, p: string) {
    |p| <= |s| && s[|s| - |p|..] == p
  }

  /** `s.find(p, start)`: the least index at or after `start` where `p`
      occurs, or -1 when there is none. */
  function FindFrom(s: string, p: string, start: nat): (r: int)
    ensures r == -1 || (start <= r && OccursAt(s, p, r))
    ensures r == -1 ==> forall j: nat :: start <= j ==> !OccursAt(s, p, j)
    ensures r != -1 ==> forall j: nat :: start <= j < r ==> !OccursAt(s, p, j)
    decreases |s| - start
  {
    if start + |p| > |s| then -1
    else if OccursAt(s, p, start) then start
    else FindFrom(s, p, start + 1)
  }

  /** `s.split(sep)` for a non-empty separator (Python raises ValueError on
      an empty one): the pieces between the occurrences of `sep` found left
      to right. */
  function Split(s: string, sep: string): (parts: seq<string>)
    requires |sep| > 0
    ensures |parts| > 0
    decreases |s|
  {
    var i := FindFrom(s, sep, 0);
    if i < 0 then [s] else [s[..i]] + Split(s[i + |sep|..], sep)
  }

  /** `sep.join(parts)`. */
  function Join(sep: string, parts: seq<string>): string {
    if |parts| == 0 then ""
    else if |parts| == 1 then parts[0]
    else parts[0] + sep + Join(sep, parts[1..])
  }

  /** `s.replace(pat, rep)` for a non-empty pattern: scanning left to right,
      every occurrence of `pat` that does not overlap one already replaced
      becomes `rep`; nothing is anchored to either end of `s`. */
  function ReplaceAll(s: string, pat: string, rep: string): string
    requires |pat| > 0
    decreases |s|
  {
    if |s| == 0 then ""
    else if OccursAt(s, pat, 0) then rep + ReplaceAll(s[|pat|..], pat, rep)
    else [s[0]] + ReplaceAll(s[1..], pat, rep)
  }

  /** The first `k` characters of `p` are also its last `k`. */
  predicate IsBorder(p: string, k: nat)
    requires k <= |p|
  {
    p[..k] == p[|p| - k..]
  }

  /** No proper prefix of `p` is also a suffix of it: two occurrences of `p`
      can never overlap. */
  predicate SelfOverlapFree(p: string) {
    |p| > 0 && forall k: nat :: 0 < k < |p| ==> !IsBorder(p, k)
  }

  /** CPython's algorithm for `replace`: repeatedly `find` the next
      occurrence from the end of the previous one, copy the gap, then `rep`. */
  method ReplaceScan(s: string, pat: string, rep: string) returns (out: string)
    requires |pat| > 0
    ensures out == ReplaceAll(s, pat, rep)
  {
    out := "";
    var start := 0;
    var i := FindFrom(s, pat, 0);
    while i != -1
      invariant 0 <= start <= |s|
      invariant i == FindFrom(s, pat, start)
      invariant out + ReplaceAll(s[start..], pat, rep) == ReplaceAll(s, pat, rep)
      decreases |s| - start
    {
      ReplaceFromFound(s, pat, rep, start, i, out);
      var next := out + s[start..i] + rep;
      assert next + ReplaceAll(s[i + |pat|..], pat, rep) == ReplaceAll(s, pat, rep);
      out := next;
      start := i + |pat|;
      i := FindFrom(s, pat, start);
    }
    ReplaceFromNotFound(s, pat, rep, start);
    out := out + s[start..];
  }

  /** One round of `ReplaceScan` when `find` succeeds. */
  lemma ReplaceFromFound(s: string, pat: string, rep: string, start: nat, i: int, out: string)
    requires |pat| > 0 && start <= |s|
    requires i == FindFrom(s, pat, start) && i != -1
    ensures start <= i && i + |pat| <= |s|
    ensures out + ReplaceAll(s[start..], pat, rep) == out + s[start..i] + rep + ReplaceAll(s[i + |pat|..], pat, rep)
  {
    FirstFound(s, pat, rep, start);
    Regroup(out, s[start..i], rep, ReplaceAll(s[i + |pat|..], pat, rep));
  }

  /** The gap before the occurrence `find` returns is copied unchanged. */
  lemma FirstFound(s: string, pat: string, rep: string, start: nat)
    requires |pat| > 0 && start <= |s|
    requires FindFrom(s, pat, start) != -1
    ensures var i := FindFrom(s, pat, start);
      ReplaceAll(s[start..], pat, rep) == s[start..i] + rep + ReplaceAll(s[i + |pat|..], pat, rep)
  {
    var i := FindFrom(s, pat, start);
    FoundInSuffix(s, pat, start, i);
    ReplaceBeforeFirst(s[start..], pat, rep, i - start);
    SuffixSlices(s, start, i, i + |pat|);
  }

  /** What `find` from `start` says about the suffix `s[start..]`. */
  lemma FoundInSuffix(s: string, pat: string, start: nat, i: int)
    requires start <= |s| && i == FindFrom(s, pat, start) && i != -1
    ensures start <= i
    ensures OccursAt(s[start..], pat, i - start)
    ensures forall j: nat :: j < i - start ==> !OccursAt(s[start..], pat, j)
  {
    ShiftedOccurrences(s, pat, start);
    assert OccursAt(s, pat, start + (i - start));
    forall j: nat | j < i - start
      ensures !OccursAt(s[start..], pat, j)
    {
      assert !OccursAt(s, pat, start + j);
    }
  }

  /** The last round of `ReplaceScan`, when `find` fails. */
  lemma ReplaceFromNotFound(s: string, pat: string, rep: string, start: nat)
    requires |pat| > 0 && start <= |s|
    requires FindFrom(s, pat, start) == -1
    ensures ReplaceAll(s[start..], pat, rep) == s[start..]
  {
    ShiftedOccurrences(s, pat, start);
    assert !Contains(s[start..], pat) by {
      forall j: nat ensures !OccursAt(s[start..], pat, j) {
        assert !OccursAt(s, pat, start + j);
      }
    }
    ReplaceWithoutOccurrence(s[start..], pat, rep);
  }

  /** Occurrences in a suffix of `s` are occurrences in `s`, shifted. */
  lemma ShiftedOccurrences(s: string, p: string, d: nat)
    requires d <= |s|
    ensures forall j: nat :: OccursAt(s[d..], p, j) <==> OccursAt(s, p, d + j)
  {
    forall j: nat
      ensures OccursAt(s[d..], p, j) <==> OccursAt(s, p, d + j)
    {
      if j + |p| <= |s| - d {
        assert s[d..][j..j + |p|] == s[d + j..d + j + |p|];
      }
    }
  }

  /** Occurrences in a prefix of `s` are occurrences in `s`. */
  lemma PrefixOccurrences(s: string, p: string, n: nat)
    requires n <= |s|
    ensures forall j: nat :: OccursAt(s[..n], p, j) ==> OccursAt(s, p, j)
  {
    forall j: nat | OccursAt(s[..n], p, j)
      ensures OccursAt(s, p, j)
    {
      assert s[..n][j..j + |p|] == s[j..j + |p|];
    }
  }

  /** Two occurrences of a self-overlap-free pattern are at least `|p|` apart. */
  lemma OccurrencesDoNotOverlap(s: string, p: string, i: nat, j: nat)
    requires SelfOverlapFree(p)
    requires OccursAt(s, p, i) && OccursAt(s, p, j) && i < j
    ensures i + |p| <= j
  {
    if j < i + |p| {
      var k := i + |p| - j;
      assert 0 < k < |p|;
      assert p[..k] == s[j..j + k] by {
        assert s[j..j + |p|][..k] == s[j..j + k];
      }
      assert p[|p| - k..] == s[j..j + k] by {
        assert s[i..i + |p|][|p| - k..] == s[j..j + k];
      }
      assert IsBorder(p, k);
    }
  }

  /** Replacing in a string where the pattern never occurs changes nothing. */
  lemma {:induction false} ReplaceWithoutOccurrence(s: string, pat: string, rep: string)
    requires |pat| > 0
    requires !Contains(s, pat)
    ensures ReplaceAll(s, pat, rep) == s
    decreases |s|
  {
    if |s| > 0 {
      assert !OccursAt(s, pat, 0);
      ShiftedOccurrences(s, pat, 1);
      assert !Contains(s[1..], pat) by {
        forall j: nat ensures !OccursAt(s[1..], pat, j) {
          assert !OccursAt(s, pat, 1 + j);
        }
      }
      ReplaceWithoutOccurrence(s[1..], pat, rep);
      ReplaceAtMiss(s, pat, rep);
      assert s == [s[0]] + s[1..];
    }
  }

  /** Everything before the first occurrence is copied, that occurrence
      becomes `rep`, and replacing continues just after it. */
  lemma {:induction false} ReplaceBeforeFirst(s: string, pat: string, rep: string, i: nat)
    requires |pat| > 0
    requires OccursAt(s, pat, i)
    requires forall j: nat :: j < i ==> !OccursAt(s, pat, j)
    ensures ReplaceAll(s, pat, rep) == s[..i] + rep + ReplaceAll(s[i + |pat|..], pat, rep)
    decreases i
  {
    if i == 0 {
      ReplaceAtMatch(s, pat, rep);
    } else {
      var t := s[1..];
      FirstOccurrenceInTail(s, pat, i);
      ReplaceBeforeFirst(t, pat, rep, i - 1);
      ReplaceAtMiss(s, pat, rep);
      DropFirstSlices(s, i, i + |pat|);
      Regroup([s[0]], t[..i - 1], rep, ReplaceAll(s[i + |pat|..], pat, rep));
    }
  }

  /** Concatenation regrouped. */
  lemma Regroup(a: string, b: string, c: string, d: string)
    ensures a + (b + c + d) == (a + b) + c + d
  {
  }

  /** Slices of `s[1..]`, seen as slices of `s`. */
  lemma DropFirstSlices(s: string, i: nat, n: nat)
    requires 0 < i <= n <= |s|
    ensures s[1..][n - 1..] == s[n..]
    ensures [s[0]] + s[1..][..i - 1] == s[..i]
  {
  }

  /** Slices of `s[d..]`, seen as slices of `s`. */
  lemma SuffixSlices(s: string, d: nat, i: nat, n: nat)
    requires d <= i <= n <= |s|
    ensures s[d..][n - d..] == s[n..]
    ensures s[d..][..i - d] == s[d..i]
  {
  }

  /** Dropping the first character moves the first occurrence one place left. */
  lemma FirstOccurrenceInTail(s: string, pat: string, i: nat)
    requires |pat| > 0 && 0 < i
    requires OccursAt(s, pat, i)
    requires forall j: nat :: j < i ==> !OccursAt(s, pat, j)
    ensures OccursAt(s[1..], pat, i - 1)
    ensures forall j: nat :: j < i - 1 ==> !OccursAt(s[1..], pat, j)
  {
    ShiftedOccurrences(s, pat, 1);
    assert OccursAt(s, pat, 1 + (i - 1));
    forall j: nat | j < i - 1
      ensures !OccursAt(s[1..], pat, j)
    {
      assert !OccursAt(s, pat, 1 + j);
    }
  }

  /** `s.replace(pat, rep) == rep.join(s.split(pat))`, an identity that
      holds for every non-empty pattern: the character scan above agrees
      with splitting and re-joining on every input. */
  lemma {:induction false} ReplaceIsJoinOfSplit(s: string, pat: string, rep: string)
    requires |pat| > 0
    ensures ReplaceAll(s, pat, rep) == Join(rep, Split(s, pat))
    decreases |s|
  {
    var i := FindFrom(s, pat, 0);
    if i < 0 {
      ReplaceWithoutOccurrence(s, pat, rep);
    } else {
      ReplaceBeforeFirst(s, pat, rep, i);
      var rest := Split(s[i + |pat|..], pat);
      ReplaceIsJoinOfSplit(s[i + |pat|..], pat, rep);
      var parts := [s[..i]] + rest;
      assert parts[1..] == rest;
    }
  }

  /** Replacing a pattern by itself is the identity. */
  lemma {:induction false} ReplaceWithItself(s: string, pat: string)
    requires |pat| > 0
    ensures ReplaceAll(s, pat, pat) == s
    decreases |s|
  {
    if |s| > 0 {
      if OccursAt(s, pat, 0) {
        ReplaceWithItself(s[|pat|..], pat);
        ReplaceAtMatch(s, pat, pat);
        assert s == s[..|pat|] + s[|pat|..];
      } else {
        ReplaceWithItself(s[1..], pat);
        ReplaceAtMiss(s, pat, pat);
        assert s == [s[0]] + s[1..];
      }
    }
  }

  /** Split and join are inverse: `sep.join(s.split(sep)) == s`. */
  lemma JoinSplitRoundTrip(s: string, sep: string)
    requires |sep| > 0
    ensures Join(sep, Split(s, sep)) == s
  {
    ReplaceIsJoinOfSplit(s, sep, sep);
    ReplaceWithItself(s, sep);
  }

  /** No piece produced by `split` contains the separator. */
  lemma {:induction false} SplitPiecesOmitSeparator(s: string, sep: string)
    requires |sep| > 0
    ensures forall k :: 0 <= k < |Split(s, sep)| ==> !Contains(Split(s, sep)[k], sep)
    decreases |s|
  {
    var i := FindFrom(s, sep, 0);
    if i >= 0 {
      var rest := s[i + |sep|..];
      SplitPiecesOmitSeparator(rest, sep);
      PrefixOccurrences(s, sep, i);
      assert !Contains(s[..i], sep) by {
        forall j: nat ensures !OccursAt(s[..i], sep, j) {
        }
      }
      var parts := [s[..i]] + Split(rest, sep);
      forall k | 0 <= k < |parts| ensures !Contains(parts[k], sep) {
        if k > 0 {
          assert parts[k] == Split(rest, sep)[k - 1];
        }
      }
    }
  }

  /** In `a + pat + b`, with `a` non-empty, `pat` occurs at the start
      exactly when it occurs at the start of `a`. */
  lemma LeadingOccurrence(a: string, pat: string, b: string)
    requires SelfOverlapFree(pat) && |a| > 0
    ensures OccursAt(a + pat + b, pat, 0) <==> OccursAt(a, pat, 0)
  {
    var s := a + pat + b;
    if OccursAt(s, pat, 0) {
      assert OccursAt(s, pat, |a|) by {
        assert s[|a|..|a| + |pat|] == pat;
      }
      OccurrencesDoNotOverlap(s, pat, 0, |a|);
      assert a[..|pat|] == s[..|pat|];
    }
    if OccursAt(a, pat, 0) {
      assert s[..|pat|] == a[..|pat|];
    }
  }

  /** `ReplaceAll` on a string that starts with the pattern. */
  lemma ReplaceAtMatch(s: string, pat: string, rep: string)
    requires |pat| > 0 && OccursAt(s, pat, 0)
    ensures ReplaceAll(s, pat, rep) == rep + ReplaceAll(s[|pat|..], pat, rep)
  {
  }

  /** `ReplaceAll` on a non-empty string that does not start with the pattern. */
  lemma ReplaceAtMiss(s: string, pat: string, rep: string)
    requires |pat| > 0 && |s| > 0 && !OccursAt(s, pat, 0)
    ensures ReplaceAll(s, pat, rep) == [s[0]] + ReplaceAll(s[1..], pat, rep)
  {
  }

  /** For a pattern that cannot overlap itself, an occurrence splits the
      replacement in two: the scan of the left part can never run into it. */
  lemma {:induction false} ReplaceAroundOccurrence(a: string, pat: string, b: string, rep: string)
    requires SelfOverlapFree(pat)
    ensures ReplaceAll(a + pat + b, pat, rep) == ReplaceAll(a, pat, rep) + rep + ReplaceAll(b, pat, rep)
    decreases |a|, 1
  {
    if |a| == 0 {
      var s := a + pat + b;
      assert s == pat + b;
      assert OccursAt(s, pat, 0);
      assert s[|pat|..] == b;
      ReplaceAtMatch(s, pat, rep);
    } else if OccursAt(a, pat, 0) {
      AroundLeadingMatch(a, pat, b, rep);
    } else {
      AroundLeadingMiss(a, pat, b, rep);
    }
  }

  /** `ReplaceAroundOccurrence` when `a` itself starts with the pattern. */
  lemma {:induction false} AroundLeadingMatch(a: string, pat: string, b: string, rep: string)
    requires SelfOverlapFree(pat) && OccursAt(a, pat, 0)
    ensures ReplaceAll(a + pat + b, pat, rep) == ReplaceAll(a, pat, rep) + rep + ReplaceAll(b, pat, rep)
    decreases |a|, 0
  {
    var s := a + pat + b;
    var a' := a[|pat|..];
    assert s[..|pat|] == a[..|pat|];
    assert s[|pat|..] == a' + pat + b;
    ReplaceAroundOccurrence(a', pat, b, rep);
    ReplaceAtMatch(s, pat, rep);
    ReplaceAtMatch(a, pat, rep);
  }

  /** `ReplaceAroundOccurrence` when `a` is non-empty and does not start
      with the pattern. */
  lemma {:induction false} AroundLeadingMiss(a: string, pat: string, b: string, rep: string)
    requires SelfOverlapFree(pat) && |a| > 0 && !OccursAt(a, pat, 0)
    ensures ReplaceAll(a + pat + b, pat, rep) == ReplaceAll(a, pat, rep) + rep + ReplaceAll(b, pat, rep)
    decreases |a|, 0
  {
    var s := a + pat + b;
    var a' := a[1..];
    LeadingOccurrence(a, pat, b);
    assert s[1..] == a' + pat + b;
    assert s[0] == a[0];
    ReplaceAroundOccurrence(a', pat, b, rep);
    ReplaceAtMiss(s, pat, rep);
    ReplaceAtMiss(a, pat, rep);
  }
}

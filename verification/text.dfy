/** Substring replacement as Rust's `str::replace` performs it, and the removal of the Windows
    verbatim prefix from a canonical path (src/main.rs:173). */
module Text {

  /** The verbatim (extended-length) prefix `\\?\` that `canonicalize` puts in front of a Windows path. */
  const VerbatimPrefix: string := "\\\\?\\"

  /** `pat` occurs in `s` starting at index `i`. */
  predicate OccursAt(s: string, pat: string, i: int)
  {
    0 <= i && i + |pat| <= |s| && s[i..i + |pat|] == pat
  }

  predicate Contains(s: string, pat: string)
  {
    exists i :: 0 <= i <= |s| && OccursAt(s, pat, i)
  }

  /** No occurrence of `pat` in `s` starts at or after index `i`. */
  predicate NoneFrom(s: string, pat: string, i: int)
  {
    forall k :: i <= k <= |s| ==> !OccursAt(s, pat, k)
  }

  /** The characters `pat[k..]` appear in `s` from index `i + k` on, compared one by one
      the way a substring search compares them. */
  predicate MatchFrom(s: string, pat: string, i: nat, k: nat)
    requires i + |pat| <= |s| && k <= |pat|
    decreases |pat| - k
  {
    k == |pat| || (s[i + k] == pat[k] && MatchFrom(s, pat, i, k + 1))
  }

  /** A match of `pat` in `s` at index `i`, found by comparing characters. */
  predicate MatchAt(s: string, pat: string, i: nat)
    requires i + |pat| <= |s|
  {
    MatchFrom(s, pat, i, 0)
  }

  lemma {:induction false} MatchFromIff(s: string, pat: string, i: nat, k: nat)
    requires i + |pat| <= |s| && k <= |pat|
    ensures MatchFrom(s, pat, i, k) <==> s[i + k..i + |pat|] == pat[k..]
    decreases |pat| - k
  {
    if k < |pat| {
      MatchFromIff(s, pat, i, k + 1);
      assert s[i + k..i + |pat|] == [s[i + k]] + s[i + k + 1..i + |pat|];
      assert pat[k..] == [pat[k]] + pat[k + 1..];
    }
  }

  /** Comparing character by character finds exactly the occurrences of `pat`. */
  lemma MatchAtIff(s: string, pat: string, i: nat)
    requires i + |pat| <= |s|
    ensures MatchAt(s, pat, i) <==> OccursAt(s, pat, i)
  {
    MatchFromIff(s, pat, i, 0);
  }

  /** `s[i..]` with every occurrence of `pat` replaced by `rep`, matches taken leftmost first
      and never overlapping. Indexing from `i` instead of slicing keeps the proofs small. */
  function ReplaceFrom(s: string, pat: string, rep: string, i: nat): (r: string)
    requires 0 < |pat| && i <= |s|
    ensures |rep| <= |pat| ==> |r| <= |s| - i
    decreases |s| - i
  {
    if |s| < i + |pat| then s[i..]
    else if MatchAt(s, pat, i) then rep + ReplaceFrom(s, pat, rep, i + |pat|)
    else [s[i]] + ReplaceFrom(s, pat, rep, i + 1)
  }

  /** Where `pat` no longer occurs, replacement leaves the text as it is. */
  lemma {:induction false} ReplaceFromNoMatch(s: string, pat: string, rep: string, i: nat)
    requires 0 < |pat| && i <= |s|
    requires NoneFrom(s, pat, i)
    ensures ReplaceFrom(s, pat, rep, i) == s[i..]
    decreases |s| - i
  {
    if i + |pat| <= |s| {
      assert !OccursAt(s, pat, i);
      MatchAtIff(s, pat, i);
      ReplaceFromNoMatch(s, pat, rep, i + 1);
      assert s[i..] == [s[i]] + s[i + 1..];
    }
  }

  /** Every occurrence of `pat` in `s` replaced by `rep`: the result of `s.replace(pat, rep)`. */
  function ReplaceAll(s: string, pat: string, rep: string): (r: string)
    requires |pat| > 0
    ensures !Contains(s, pat) ==> r == s
    ensures |rep| <= |pat| ==> |r| <= |s|
  {
    assert !Contains(s, pat) ==> ReplaceFrom(s, pat, rep, 0) == s by {
      if !Contains(s, pat) {
        ReplaceFromNoMatch(s, pat, rep, 0);
        assert s[0..] == s;
      }
    }
    ReplaceFrom(s, pat, rep, 0)
  }

  lemma Associative(a: string, b: string, c: string)
    ensures a + (b + c) == (a + b) + c
  {
  }

  lemma SliceSplit(s: string, a: nat, b: nat)
    requires a <= b <= |s|
    ensures s[a..] == s[a..b] + s[b..]
  {
  }

  lemma SliceExtend(s: string, a: nat, b: nat)
    requires a <= b < |s|
    ensures s[a..b + 1] == s[a..b] + [s[b]]
  {
  }

  /** The algorithm of `str::replace`: walk the match indices left to right, copying the text
      between matches and the replacement in place of each match. */
  method Replace(s: string, pat: string, rep: string) returns (r: string)
    requires |pat| > 0
    ensures r == ReplaceAll(s, pat, rep)
  {
    r := [];
    var lastEnd := 0;
    var j := 0;
    while j + |pat| <= |s|
      invariant 0 <= lastEnd <= j <= |s|
      invariant r + s[lastEnd..j] + ReplaceFrom(s, pat, rep, j) == ReplaceFrom(s, pat, rep, 0)
      decreases |s| - j
    {
      var done := r + s[lastEnd..j];
      if MatchAt(s, pat, j) {
        Associative(done, rep, ReplaceFrom(s, pat, rep, j + |pat|));
        r := done + rep;
        lastEnd := j + |pat|;
        j := lastEnd;
        assert r + s[lastEnd..j] == r;
      } else {
        Associative(done, [s[j]], ReplaceFrom(s, pat, rep, j + 1));
        SliceExtend(s, lastEnd, j);
        Associative(r, s[lastEnd..j], [s[j]]);
        j := j + 1;
      }
    }
    SliceSplit(s, lastEnd, j);
    Associative(r, s[lastEnd..j], s[j..]);
    r := r + s[lastEnd..];
  }

  /** The release URL: the canonical path text with every `\\?\` removed. */
  function StripVerbatim(path: string): string
  {
    ReplaceAll(path, VerbatimPrefix, "")
  }

  lemma SuffixMultiset(t: string, k: nat)
    requires k <= |t|
    ensures multiset(t[k..]) <= multiset(t)
  {
    assert t == t[..k] + t[k..];
  }

  lemma HeadMultiset(t: string)
    requires |t| > 0
    ensures multiset(t) == multiset([t[0]]) + multiset(t[1..])
  {
    assert t == [t[0]] + t[1..];
  }

  lemma DeletesAtMatch(s: string, pat: string, i: nat)
    requires 0 < |pat| && i + |pat| <= |s| && MatchAt(s, pat, i)
    requires multiset(ReplaceFrom(s, pat, "", i + |pat|)) <= multiset(s[i + |pat|..])
    ensures multiset(ReplaceFrom(s, pat, "", i)) <= multiset(s[i..])
  {
    assert s[i..][|pat|..] == s[i + |pat|..];
    SuffixMultiset(s[i..], |pat|);
  }

  lemma DeletesAtMiss(s: string, pat: string, i: nat)
    requires 0 < |pat| && i + |pat| <= |s| && !MatchAt(s, pat, i)
    requires multiset(ReplaceFrom(s, pat, "", i + 1)) <= multiset(s[i + 1..])
    ensures multiset(ReplaceFrom(s, pat, "", i)) <= multiset(s[i..])
  {
    assert s[i..][1..] == s[i + 1..];
    HeadMultiset(s[i..]);
  }

  /** Replacing by nothing only deletes characters: the multiset of the result is contained in
      that of the input. */
  lemma {:induction false} ReplaceFromDeletes(s: string, pat: string, i: nat)
    requires 0 < |pat| && i <= |s|
    ensures multiset(ReplaceFrom(s, pat, "", i)) <= multiset(s[i..])
    decreases |s| - i
  {
    if |s| < i + |pat| {
    } else if MatchAt(s, pat, i) {
      ReplaceFromDeletes(s, pat, i + |pat|);
      DeletesAtMatch(s, pat, i);
    } else {
      ReplaceFromDeletes(s, pat, i + 1);
      DeletesAtMiss(s, pat, i);
    }
  }

  /** The release URL keeps only characters of the path it came from, and is no longer. */
  lemma StripVerbatimDeletes(path: string)
    ensures multiset(StripVerbatim(path)) <= multiset(path)
    ensures |StripVerbatim(path)| <= |path|
  {
    ReplaceFromDeletes(path, VerbatimPrefix, 0);
    assert path[0..] == path;
  }

  /** A canonical Windows path, `\\?\` followed by an ordinary path, loses exactly its prefix. */
  lemma StripVerbatimCanonical(tail: string)
    requires !Contains(tail, VerbatimPrefix)
    ensures StripVerbatim(VerbatimPrefix + tail) == tail
  {
    var p := VerbatimPrefix;
    var s := p + tail;
    assert s[0..|p|] == p;
    MatchAtIff(s, p, 0);
    forall k | |p| <= k <= |s|
      ensures !OccursAt(s, p, k)
    {
      if OccursAt(s, p, k) {
        assert s[k..k + |p|] == tail[k - |p|..k - |p| + |p|];
        assert OccursAt(tail, p, k - |p|);
      }
    }
    ReplaceFromNoMatch(s, p, "", |p|);
    assert s[|p|..] == tail;
  }

  /** Removing the prefix once can join the text around it into a fresh prefix: stripping is
      not idempotent, and its result may still contain `\\?\`. */
  lemma StripCanExposePrefix()
    ensures StripVerbatim("\\\\" + VerbatimPrefix + "?\\") == VerbatimPrefix
    ensures Contains(StripVerbatim("\\\\" + VerbatimPrefix + "?\\"), VerbatimPrefix)
  {
    var s := "\\\\" + VerbatimPrefix + "?\\";
    var p := VerbatimPrefix;
    MatchAtIff(s, p, 0);
    MatchAtIff(s, p, 1);
    MatchAtIff(s, p, 2);
    assert s[0..4] != p by { assert s[2] == '\\' != p[2]; }
    assert s[1..5] != p by { assert s[3] == '\\' != p[2]; }
    assert s[2..6] == p;
    assert s[6..] == "?\\";
    assert ReplaceFrom(s, p, "", 6) == "?\\";
    assert ReplaceFrom(s, p, "", 2) == "?\\";
    assert ReplaceFrom(s, p, "", 1) == [s[1]] + "?\\";
    assert ReplaceFrom(s, p, "", 0) == [s[0], s[1]] + "?\\";
    assert OccursAt(p, p, 0);
  }
}

/** Substring search and replacement, as the standard library's `str` provides them.
    Strings are sequences of ASCII characters, so byte and character offsets agree. */
module Text {

  predicate OccursAt(s: string, p: string, i: nat) {
    i <= |s| && p <= s[i..]
  }

  ghost predicate Contains(s: string, p: string) {
    exists i: nat :: OccursAt(s, p, i)
  }

  lemma ContainsExactly(s: string, p: string)
    ensures Contains(s, p) <==> exists a, b :: s == a + p + b
  {
    if Contains(s, p) {
      var i: nat :| OccursAt(s, p, i);
      assert s == s[..i] + p + s[i + |p|..];
    }
    if a, b :| s == a + p + b {
      assert s[|a|..] == p + b;
      assert OccursAt(s, p, |a|);
    }
  }

  /** `str::replace`: every leftmost non-overlapping match of `p` becomes `r`. An empty
      pattern matches before every character and at the end. */
  function Replace(s: string, p: string, r: string): string {
    if p == "" then r + Interleave(s, r) else Rewrite(s, p, r)
  }

  function Interleave(s: string, r: string): string {
    if s == "" then "" else [s[0]] + r + Interleave(s[1..], r)
  }

  function Rewrite(s: string, p: string, r: string): string
    requires p != ""
    decreases |s|
  {
    if |s| < |p| then s
    else if p <= s then r + Rewrite(s[|p|..], p, r)
    else [s[0]] + Rewrite(s[1..], p, r)
  }

  /** `result`, the gap after the latest match and the rest of `s` rewritten make up the whole. */
  ghost predicate Pending(s: string, p: string, r: string, result: string, lastEnd: nat, i: nat)
    requires p != "" && lastEnd <= i <= |s|
  {
    (result + s[lastEnd..i]) + Rewrite(s[i..], p, r) == Rewrite(s, p, r)
  }

  lemma PendingMatch(s: string, p: string, r: string, result: string, lastEnd: nat, i: nat)
    requires p != "" && lastEnd <= i && i + |p| <= |s| && s[i..i + |p|] == p
    requires Pending(s, p, r, result, lastEnd, i)
    ensures Pending(s, p, r, result + s[lastEnd..i] + r, i + |p|, i + |p|)
  {
    var done, rest := result + s[lastEnd..i], s[i..];
    assert p <= rest && rest[|p|..] == s[i + |p|..];
    Reassociate(done, r, Rewrite(rest[|p|..], p, r));
    assert done + r + s[i + |p|..i + |p|] == done + r;
  }

  lemma PendingSkip(s: string, p: string, r: string, result: string, lastEnd: nat, i: nat)
    requires p != "" && lastEnd <= i && i + |p| <= |s| && s[i..i + |p|] != p
    requires Pending(s, p, r, result, lastEnd, i)
    ensures Pending(s, p, r, result, lastEnd, i + 1)
  {
    var done, rest := result + s[lastEnd..i], s[i..];
    assert rest[..|p|] == s[i..i + |p|] && rest[1..] == s[i + 1..];
    Reassociate(done, [s[i]], Rewrite(rest[1..], p, r));
    assert s[lastEnd..i + 1] == s[lastEnd..i] + [s[i]];
    Reassociate(result, s[lastEnd..i], [s[i]]);
  }

  lemma PendingEnd(s: string, p: string, r: string, result: string, lastEnd: nat, i: nat)
    requires p != "" && lastEnd <= i <= |s| < i + |p| && Pending(s, p, r, result, lastEnd, i)
    ensures result + s[lastEnd..] == Rewrite(s, p, r)
  {
    assert s[lastEnd..] == s[lastEnd..i] + s[i..];
    Reassociate(result, s[lastEnd..i], s[i..]);
  }

  lemma PendingStep(s: string, p: string, r: string, result: string, lastEnd: nat, i: nat)
    requires p != "" && lastEnd <= i && i + |p| <= |s| && Pending(s, p, r, result, lastEnd, i)
    ensures if s[i..i + |p|] == p then Pending(s, p, r, result + s[lastEnd..i] + r, i + |p|, i + |p|)
            else Pending(s, p, r, result, lastEnd, i + 1)
  {
    if s[i..i + |p|] == p {
      PendingMatch(s, p, r, result, lastEnd, i);
    } else {
      PendingSkip(s, p, r, result, lastEnd, i);
    }
  }

  lemma PendingStart(s: string, p: string, r: string)
    requires p != ""
    ensures Pending(s, p, r, "", 0, 0)
  {
    assert s[0..] == s && "" + s[0..0] == "";
    assert "" + Rewrite(s, p, r) == Rewrite(s, p, r);
  }

  method ReplaceAll(s: string, p: string, r: string) returns (result: string)
    ensures result == Replace(s, p, r)
  {
    if p == "" {
      result := SpreadOut(s, r);
    } else {
      result := ReplaceMatches(s, p, r);
    }
  }

  /** The library's loop: copy the gap before each match, then the replacement. */
  method ReplaceMatches(s: string, p: string, r: string) returns (result: string)
    requires p != ""
    ensures result == Rewrite(s, p, r)
  {
    result := "";
    var i, lastEnd := 0, 0;
    PendingStart(s, p, r);
    while i + |p| <= |s|
      invariant 0 <= lastEnd <= i <= |s|
      invariant Pending(s, p, r, result, lastEnd, i)
    {
      PendingStep(s, p, r, result, lastEnd, i);
      if s[i..i + |p|] == p {
        result := result + s[lastEnd..i] + r;
        i := i + |p|;
        lastEnd := i;
      } else {
        i := i + 1;
      }
    }
    PendingEnd(s, p, r, result, lastEnd, i);
    result := result + s[lastEnd..];
  }

  method SpreadOut(s: string, r: string) returns (result: string)
    ensures result == Replace(s, "", r)
  {
    result := r;
    var i := 0;
    while i < |s|
      invariant i <= |s|
      invariant result + Interleave(s[i..], r) == r + Interleave(s, r)
    {
      assert s[i..][1..] == s[i + 1..];
      result := result + ([s[i]] + r);
      i := i + 1;
    }
  }

  lemma Reassociate(a: string, b: string, c: string)
    ensures a + (b + c) == (a + b) + c
  {
  }

  lemma OccursInTail(s: string, p: string, k: nat, i: nat)
    requires k <= |s|
    ensures OccursAt(s[k..], p, i) <==> OccursAt(s, p, k + i)
  {
    if k + i <= |s| {
      assert s[k..][i..] == s[k + i..];
    }
  }

  lemma ContainsFromTail(s: string, p: string, k: nat)
    requires k <= |s| && Contains(s[k..], p)
    ensures Contains(s, p)
  {
    var i: nat :| OccursAt(s[k..], p, i);
    OccursInTail(s, p, k, i);
  }

  /** Replacing what does not occur changes nothing. */
  lemma {:induction false} RewriteAbsent(s: string, p: string, r: string)
    requires p != "" && !Contains(s, p)
    ensures Rewrite(s, p, r) == s
    decreases |s|
  {
    if |s| >= |p| {
      assert s[0..] == s;
      assert !OccursAt(s, p, 0);
      if Contains(s[1..], p) {
        ContainsFromTail(s, p, 1);
      }
      RewriteAbsent(s[1..], p, r);
    }
  }

  /** Replacing something by itself changes nothing. */
  lemma {:induction false} RewriteByItself(s: string, p: string)
    requires p != ""
    ensures Rewrite(s, p, p) == s
    decreases |s|
  {
    if |s| >= |p| {
      if p <= s {
        RewriteByItself(s[|p|..], p);
      } else {
        RewriteByItself(s[1..], p);
      }
    }
  }

  /** Each replaced occurrence moves the length in the same direction. */
  lemma {:induction false} RewriteLength(s: string, p: string, r: string)
    requires p != ""
    ensures |r| > |p| ==> |Rewrite(s, p, r)| >= |s| + (if Contains(s, p) then 1 else 0)
    ensures |r| < |p| ==> |Rewrite(s, p, r)| <= |s| - (if Contains(s, p) then 1 else 0)
    decreases |s|
  {
    if |s| >= |p| {
      if p <= s {
        RewriteLength(s[|p|..], p, r);
      } else {
        RewriteLength(s[1..], p, r);
        if Contains(s, p) {
          ContainsBeyondHead(s, p);
        }
      }
    }
  }

  lemma ContainsBeyondHead(s: string, p: string)
    requires Contains(s, p) && !(p <= s)
    ensures s != "" && Contains(s[1..], p)
  {
    var i: nat :| OccursAt(s, p, i);
    assert i > 0 by { assert s[0..] == s; }
    OccursInTail(s, p, 1, i - 1);
  }

  lemma {:induction false} RewriteSameLength(s: string, p: string, r: string)
    requires p != "" && |p| == |r| && p != r && Contains(s, p)
    ensures Rewrite(s, p, r) != s
    decreases |s|
  {
    if p <= s {
      assert Rewrite(s, p, r)[..|p|] == r;
    } else {
      ContainsBeyondHead(s, p);
      RewriteSameLength(s[1..], p, r);
      assert Rewrite(s, p, r)[1..] == Rewrite(s[1..], p, r);
    }
  }

  /** Replacing an occurring pattern by anything else changes the string. */
  lemma RewriteChanges(s: string, p: string, r: string)
    requires p != "" && p != r && Contains(s, p)
    ensures Rewrite(s, p, r) != s
  {
    if |p| == |r| {
      RewriteSameLength(s, p, r);
    } else {
      RewriteLength(s, p, r);
    }
  }

  ghost predicate FirstAt(s: string, p: string, i: nat) {
    OccursAt(s, p, i) && forall j: nat :: j < i ==> !OccursAt(s, p, j)
  }

  lemma FirstExists(s: string, p: string) returns (i: nat)
    requires Contains(s, p)
    ensures FirstAt(s, p, i)
  {
    i :| OccursAt(s, p, i);
    while exists j: nat :: j < i && OccursAt(s, p, j)
      invariant OccursAt(s, p, i)
      decreases i
    {
      var j: nat :| j < i && OccursAt(s, p, j);
      i := j;
    }
  }

  lemma FirstAtTail(s: string, p: string, i: nat)
    requires i > 0 && FirstAt(s, p, i)
    ensures !(p <= s) && FirstAt(s[1..], p, i - 1)
  {
    assert s[0..] == s && !OccursAt(s, p, 0);
    OccursInTail(s, p, 1, i - 1);
    forall j: nat | j < i - 1
      ensures !OccursAt(s[1..], p, j)
    {
      OccursInTail(s, p, 1, j);
    }
  }

  lemma PushHead(s: string, i: nat, end: string)
    requires 0 < i <= |s|
    ensures [s[0]] + (s[1..][..i - 1] + end) == s[..i] + end
  {
    assert s[..i] == [s[0]] + s[1..][..i - 1];
    Reassociate([s[0]], s[1..][..i - 1], end);
  }

  lemma RewriteNoMatch(s: string, p: string, r: string)
    requires p != "" && |s| >= |p| && !(p <= s)
    ensures Rewrite(s, p, r) == [s[0]] + Rewrite(s[1..], p, r)
  {
  }

  /** `out` is `s` with its first match, at `i`, and everything after it rewritten. */
  ghost predicate FirstRewritten(out: string, s: string, p: string, r: string, i: nat)
    requires p != "" && i + |p| <= |s|
  {
    out == s[..i] + (r + Rewrite(s[i + |p|..], p, r))
  }

  lemma FirstRewrittenTail(s: string, p: string, r: string, i: nat, out: string)
    requires p != "" && 0 < i && i + |p| <= |s|
    requires FirstRewritten(out, s[1..], p, r, i - 1)
    ensures FirstRewritten([s[0]] + out, s, p, r, i)
  {
    assert s[1..][i - 1 + |p|..] == s[i + |p|..];
    PushHead(s, i, r + Rewrite(s[i + |p|..], p, r));
  }

  /** The text before the first match is kept, the match is replaced, and the rest rewritten: matches are
      leftmost and do not overlap. */
  lemma {:induction false} RewriteFirstMatch(s: string, p: string, r: string, i: nat)
    requires p != "" && FirstAt(s, p, i)
    ensures i + |p| <= |s| && FirstRewritten(Rewrite(s, p, r), s, p, r, i)
    decreases i
  {
    if i == 0 {
      assert s[0..] == s && s[..0] == "";
    } else {
      FirstAtTail(s, p, i);
      RewriteFirstMatch(s[1..], p, r, i - 1);
      RewriteNoMatch(s, p, r);
      FirstRewrittenTail(s, p, r, i, Rewrite(s[1..], p, r));
    }
  }
}

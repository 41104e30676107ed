/** The response scrubber: replaces secret values, and the ends of long ones, by a marker. */
module Scrub {
  import opened Text
  import opened Scanner
  import opened Substitution

  const WORD := "REDACTED"
  const MARKER := "[" + WORD + "]"
  const LONG := 16
  const PART := 8

  function PatternsOf(value: string): seq<string> {
    if |value| >= LONG then [value, value[..PART], value[|value| - PART..]] else [value]
  }

  lemma MarkerExactly()
    ensures MARKER == "[REDACTED]"
  {
  }

  /** From sixteen characters on, the first eight and the last eight are patterns too. */
  lemma PatternsExactly(value: string)
    ensures |value| < 16 ==> PatternsOf(value) == [value]
    ensures |value| >= 16 ==> PatternsOf(value) == [value, value[..8], value[|value| - 8..]]
  {
  }

  /** The patterns of all values, in the order the values come. */
  function Patterns(values: seq<string>): seq<string> {
    if values == [] then [] else PatternsOf(values[0]) + Patterns(values[1..])
  }

  function Redact(s: string, patterns: seq<string>): string
    decreases patterns
  {
    if patterns == [] then s else Redact(Replace(s, patterns[0], MARKER), patterns[1..])
  }

  /** Of one value, all of it is replaced first; of a long one, what is left of its ends as well. */
  method ScrubResponse(response: string, injected: seq<string>) returns (result: string)
    ensures result == Redact(response, Patterns(injected))
    ensures |injected| == 1 && |injected[0]| < 16 ==> result == Replace(response, injected[0], "[REDACTED]")
    ensures |injected| == 1 && |injected[0]| >= 16 ==>
              var v := injected[0];
              result == Replace(Replace(Replace(response, v, "[REDACTED]"), v[..8], "[REDACTED]"),
                                v[|v| - 8..], "[REDACTED]")
  {
    result := response;
    for i := 0 to |injected|
      invariant Redact(result, Patterns(injected[i..])) == Redact(response, Patterns(injected))
    {
      var value := injected[i];
      ghost var before := result;
      assert injected[i..][0] == value && injected[i..][1..] == injected[i + 1..];
      RedactAppend(before, PatternsOf(value), Patterns(injected[i + 1..]));
      result := ReplaceAll(result, value, MARKER);
      if |value| >= LONG {
        var prefix := value[..PART];
        var suffix := value[|value| - PART..];
        result := ReplaceAll(result, prefix, MARKER);
        result := ReplaceAll(result, suffix, MARKER);
        RedactThree(before, value, prefix, suffix);
      } else {
        RedactOne(before, value);
      }
    }
    assert injected[|injected|..] == [];
    if |injected| == 1 {
      RedactOneValue(response, injected);
    }
  }

  lemma RedactThree(s: string, a: string, b: string, c: string)
    ensures Redact(s, [a, b, c]) == Replace(Replace(Replace(s, a, MARKER), b, MARKER), c, MARKER)
  {
    var s1 := Replace(s, a, MARKER);
    assert [a, b, c][1..] == [b, c];
    assert Redact(s, [a, b, c]) == Redact(s1, [b, c]);
    assert [b, c][1..] == [c];
    assert Redact(s1, [b, c]) == Redact(Replace(s1, b, MARKER), [c]);
    RedactOne(Replace(s1, b, MARKER), c);
  }

  lemma RedactOneValue(s: string, values: seq<string>)
    requires |values| == 1
    ensures var v := values[0];
            Redact(s, Patterns(values)) ==
            if |v| < 16 then Replace(s, v, "[REDACTED]")
            else Replace(Replace(Replace(s, v, "[REDACTED]"), v[..8], "[REDACTED]"), v[|v| - 8..], "[REDACTED]")
  {
    var v := values[0];
    var rest: seq<string> := [];
    MarkerExactly();
    assert values[1..] == rest && PatternsOf(v) + rest == PatternsOf(v);
    PatternsExactly(v);
    if |v| < 16 {
      RedactOne(s, v);
    } else {
      RedactThree(s, v, v[..8], v[|v| - 8..]);
    }
  }

  lemma RedactOne(s: string, p: string)
    ensures Redact(s, [p]) == Replace(s, p, MARKER)
  {
    assert [p][1..] == [];
  }

  lemma {:induction false} RedactAppend(s: string, ps: seq<string>, qs: seq<string>)
    ensures Redact(s, ps + qs) == Redact(Redact(s, ps), qs)
    decreases ps
  {
    if ps == [] {
      assert ps + qs == qs;
    } else {
      assert (ps + qs)[0] == ps[0] && (ps + qs)[1..] == ps[1..] + qs;
      RedactAppend(Replace(s, ps[0], MARKER), ps[1..], qs);
    }
  }

  // ---------- completeness ----------

  /** The marker and the pattern share no character in any text. */
  ghost predicate Separable(p: string) {
    !Interacts(MARKER, p)
  }

  /** The pattern contains one of the list that is separable, possibly itself. */
  ghost predicate HasGuard(patterns: seq<string>, p: string) {
    exists q :: q in patterns && Separable(q) && Contains(p, q)
  }

  ghost predicate Guarded(patterns: seq<string>) {
    forall p :: p in patterns ==> HasGuard(patterns, p)
  }

  ghost predicate FreeOf(s: string, patterns: seq<string>) {
    forall p :: p in patterns ==> !Contains(s, p)
  }

  lemma SeparableIsNotEmpty(p: string)
    requires Separable(p)
    ensures p != ""
  {
    if p == "" {
      OccurrenceIn(MARKER, "", "", MARKER);
    }
  }

  lemma {:induction false} EndComesFromText(u: string, p: string, q: string, k: nat)
    requires p != "" && Separable(q) && 0 < k < |q|
    requires q[|q| - k..] <= Rewrite(u, p, MARKER)
    ensures q[|q| - k..] <= u
    decreases k
  {
    if |u| >= |p| {
      if p <= u {
        EndOverlapInteracts(MARKER, q, k, Rewrite(u[|p|..], p, MARKER));
      } else {
        EndAfterHead(q, k, u[0], Rewrite(u[1..], p, MARKER));
        if k > 1 {
          EndComesFromText(u[1..], p, q, k - 1);
        }
        HeadBeforeEnd(q, k, u);
      }
    }
  }

  lemma PatternComesFromText(s: string, p: string, q: string)
    requires p != "" && Separable(q) && s != ""
    requires q <= [s[0]] + Rewrite(s[1..], p, MARKER)
    ensures q <= s
  {
    SeparableIsNotEmpty(q);
    assert q[|q| - |q|..] == q;
    EndAfterHead(q, |q|, s[0], Rewrite(s[1..], p, MARKER));
    if |q| > 1 {
      EndComesFromText(s[1..], p, q, |q| - 1);
    }
    HeadBeforeEnd(q, |q|, s);
  }

  /** Behind its head, the text does not hold the pattern either. */
  lemma AbsentBehindHead(s: string, k: nat, p: string, q: string)
    requires 0 < k <= |s| && (q == p || !Contains(s, q))
    ensures q == p || !Contains(s[k..], q)
  {
    if q != p && Contains(s[k..], q) {
      ContainsFromTail(s, q, k);
    }
  }

  lemma TailOccurrence(head: string, rest: string, q: string, i: nat)
    requires OccursAt(head + rest, q, i) && i >= |head|
    ensures Contains(rest, q)
  {
    assert (head + rest)[i..] == rest[i - |head|..];
    assert OccursAt(rest, q, i - |head|);
  }

  /** An occurrence that begins in the marker would make the pattern interact with it. */
  lemma NotInMarker(rest: string, q: string, i: nat)
    requires Separable(q) && i < |MARKER|
    ensures !OccursAt(MARKER + rest, q, i)
  {
    if OccursAt(MARKER + rest, q, i) {
      assert (MARKER + rest)[i..] == MARKER[i..] + rest;
      OverlapInteracts(MARKER, i, rest, q);
    }
  }

  lemma PrefixIsContained(s: string, q: string)
    requires q <= s
    ensures Contains(s, q)
  {
    assert s[0..] == s;
    assert OccursAt(s, q, 0);
  }

  /** A replace leaves none of its own pattern, and brings back no pattern that was gone. */
  lemma {:induction false} RewriteLeavesOut(s: string, p: string, q: string)
    requires p != "" && Separable(q)
    requires q == p || !Contains(s, q)
    ensures !Contains(Rewrite(s, p, MARKER), q)
    decreases |s|
  {
    if |s| >= |p| {
      var hit := p <= s;
      var k := if hit then |p| else 1;
      var head, rest := if hit then MARKER else [s[0]], Rewrite(s[k..], p, MARKER);
      assert Rewrite(s, p, MARKER) == head + rest;
      AbsentBehindHead(s, k, p, q);
      RewriteLeavesOut(s[k..], p, q);
      if i: nat :| OccursAt(head + rest, q, i) {
        if i >= |head| {
          TailOccurrence(head, rest, q, i);
        } else if hit {
          NotInMarker(rest, q, i);
        } else {
          assert (head + rest)[0..] == head + rest;
          PatternComesFromText(s, p, q);
          PrefixIsContained(s, q);
        }
      }
    }
  }

  lemma {:induction false} RedactKeepsOut(s: string, patterns: seq<string>, q: string)
    requires "" !in patterns && Separable(q) && !Contains(s, q)
    ensures !Contains(Redact(s, patterns), q)
    decreases patterns
  {
    if patterns != [] {
      RewriteLeavesOut(s, patterns[0], q);
      RedactKeepsOut(Replace(s, patterns[0], MARKER), patterns[1..], q);
    }
  }

  /** A separable pattern of the list is gone, wherever in the list it comes. */
  lemma {:induction false} RedactRemoves(s: string, patterns: seq<string>, q: string)
    requires "" !in patterns && Separable(q) && q in patterns
    ensures !Contains(Redact(s, patterns), q)
    decreases patterns
  {
    if patterns[0] == q {
      RewriteLeavesOut(s, q, q);
      RedactKeepsOut(Replace(s, q, MARKER), patterns[1..], q);
    } else {
      RedactRemoves(Replace(s, patterns[0], MARKER), patterns[1..], q);
    }
  }

  lemma Guard(patterns: seq<string>, p: string) returns (q: string)
    requires HasGuard(patterns, p)
    ensures q in patterns && Separable(q) && Contains(p, q) && p != ""
  {
    q :| q in patterns && Separable(q) && Contains(p, q);
    SeparableIsNotEmpty(q);
    var i: nat :| OccursAt(p, q, i);
  }

  lemma GuardedIsNotEmpty(patterns: seq<string>)
    requires Guarded(patterns)
    ensures "" !in patterns
  {
    if "" in patterns {
      var _ := Guard(patterns, "");
    }
  }

  /** Whatever the response and the order of the patterns, none of them is left. */
  lemma ScrubIsComplete(s: string, patterns: seq<string>)
    requires Guarded(patterns)
    ensures FreeOf(Redact(s, patterns), patterns)
  {
    GuardedIsNotEmpty(patterns);
    forall p | p in patterns
      ensures !Contains(Redact(s, patterns), p)
    {
      var q := Guard(patterns, p);
      RedactRemoves(s, patterns, q);
      if Contains(Redact(s, patterns), p) {
        ContainsTransitive(Redact(s, patterns), p, q);
      }
    }
  }

  lemma {:induction false} RedactAbsent(s: string, patterns: seq<string>)
    requires FreeOf(s, patterns) && "" !in patterns
    ensures Redact(s, patterns) == s
  {
    if patterns != [] {
      assert patterns[0] in patterns;
      assert forall p :: p in patterns[1..] ==> p in patterns;
      RewriteAbsent(s, patterns[0], MARKER);
      RedactAbsent(s, patterns[1..]);
    }
  }

  /** Scrubbing what is already scrubbed, in any order of the same patterns, changes nothing. */
  lemma ScrubIsIdempotent(s: string, patterns: seq<string>, again: seq<string>)
    requires Guarded(patterns) && forall p :: p in again ==> p in patterns
    ensures Redact(Redact(s, patterns), again) == Redact(s, patterns)
  {
    ScrubIsComplete(s, patterns);
    GuardedIsNotEmpty(patterns);
    RedactAbsent(Redact(s, patterns), again);
  }

  /** The patterns are those of the values, whatever order the values come in. */
  lemma {:induction false} PatternsOfAll(values: seq<string>, p: string)
    ensures p in Patterns(values) <==> exists v :: v in values && p in PatternsOf(v)
  {
    if values != [] {
      PatternsOfAll(values[1..], p);
      assert values == [values[0]] + values[1..];
    }
  }

  /** Values whose own patterns are guarded can be scrubbed together. */
  lemma GuardedTogether(values: seq<string>)
    requires forall v :: v in values ==> Guarded(PatternsOf(v))
    ensures Guarded(Patterns(values))
  {
    forall p | p in Patterns(values)
      ensures HasGuard(Patterns(values), p)
    {
      PatternsOfAll(values, p);
      var v :| v in values && p in PatternsOf(v);
      var q := Guard(PatternsOf(v), p);
      PatternsOfAll(values, q);
    }
  }

  // ---------- the condition on patterns ----------

  predicate BracketFree(p: string) {
    '[' !in p && ']' !in p
  }

  /** The pattern can overlap an edge of the marker. */
  ghost predicate Straddles(p: string) {
    || Contains(p, MARKER)
    || (exists k :: 0 < k < |p| && EndsLike(MARKER, p, k))
    || (exists k :: 0 < k < |p| && BeginsLike(MARKER, p, k))
  }

  lemma StraddlingHasBracket(p: string)
    requires Straddles(p)
    ensures !BracketFree(p)
  {
    if Contains(p, MARKER) {
      var i: nat :| OccursAt(p, MARKER, i);
      assert p[i] == p[i..][0] == MARKER[0];
    } else if k :| 0 < k < |p| && EndsLike(MARKER, p, k) {
      assert p[k - 1] == p[..k][k - 1] == MARKER[9];
    } else {
      var k :| 0 < k < |p| && BeginsLike(MARKER, p, k);
      assert p[|p| - k] == p[|p| - k..][0] == MARKER[0];
    }
  }

  lemma InsideWordIsInsideMarker(p: string)
    requires Contains(WORD, p)
    ensures Contains(MARKER, p)
  {
    var i: nat :| OccursAt(WORD, p, i);
    assert MARKER[1 + i..] == WORD[i..] + "]";
    assert OccursAt(MARKER, p, 1 + i);
  }

  lemma InsideMarkerIsInsideWord(p: string)
    requires BracketFree(p) && Contains(MARKER, p)
    ensures Contains(WORD, p)
  {
    var i: nat :| OccursAt(MARKER, p, i);
    if p == "" {
      OccurrenceIn(WORD, "", p, WORD);
    } else {
      var last := |p| - 1;
      assert p[0] == MARKER[i..][0] == MARKER[i];
      assert p[last] == MARKER[i..][last] == MARKER[i + last];
      assert MARKER[0] == '[' && MARKER[9] == ']' && |MARKER| == 10;
      assert i >= 1 && i + |p| <= 9;
      assert WORD == MARKER[1..9];
      assert WORD[i - 1..][..|p|] == MARKER[i..][..|p|];
      assert OccursAt(WORD, p, i - 1);
    }
  }

  lemma {:induction false} MarkerAppears(s: string, p: string)
    requires p != "" && Contains(s, p)
    ensures Contains(Rewrite(s, p, MARKER), MARKER)
    decreases |s|
  {
    var out := Rewrite(s, p, MARKER);
    if p <= s {
      OccurrenceIn(out, "", MARKER, Rewrite(s[|p|..], p, MARKER));
    } else {
      ContainsBeyondHead(s, p);
      MarkerAppears(s[1..], p);
      assert out[1..] == Rewrite(s[1..], p, MARKER);
      ContainsFromTail(out, MARKER, 1);
    }
  }

  lemma MarkerAppearsOrNothing(s: string, p: string)
    ensures Contains(Replace(s, p, MARKER), MARKER) || (Replace(s, p, MARKER) == s && !Contains(s, p))
  {
    if p == "" {
      OccurrenceIn(Replace(s, p, MARKER), "", MARKER, Interleave(s, MARKER));
    } else if Contains(s, p) {
      MarkerAppears(s, p);
    } else {
      RewriteAbsent(s, p, MARKER);
    }
  }

  /** Once a marker is in the text, every further replace leaves one there. */
  lemma {:induction false} MarkerStays(s: string, patterns: seq<string>)
    requires Contains(s, MARKER) || exists p :: p in patterns && Contains(s, p)
    ensures Contains(Redact(s, patterns), MARKER)
    decreases patterns
  {
    if patterns != [] {
      MarkerAppearsOrNothing(s, patterns[0]);
      assert forall p :: p in patterns ==> p == patterns[0] || p in patterns[1..];
      MarkerStays(Replace(s, patterns[0], MARKER), patterns[1..]);
    }
  }

  lemma ContainsTransitive(s: string, t: string, p: string)
    requires Contains(s, t) && Contains(t, p)
    ensures Contains(s, p)
  {
    var i: nat :| OccursAt(s, t, i);
    var j: nat :| OccursAt(t, p, j);
    assert s[i + j..] == s[i..][j..];
    assert s[i..][j..][..|p|] == t[j..][..|p|];
    assert OccursAt(s, p, i + j);
  }

  /** A pattern inside the marker survives every scrub of a response that holds it. */
  lemma PatternInsideMarkerSurvives(s: string, patterns: seq<string>, p: string)
    requires p in patterns && Contains(MARKER, p) && Contains(s, p)
    ensures Contains(Redact(s, patterns), p)
  {
    MarkerStays(s, patterns);
    ContainsTransitive(Redact(s, patterns), MARKER, p);
  }

  ghost predicate Complete(patterns: seq<string>) {
    forall s :: FreeOf(Redact(s, patterns), patterns)
  }

  /** The pattern contains one of the list that cannot straddle an edge, possibly itself. */
  ghost predicate HasAnchor(patterns: seq<string>, p: string) {
    exists q :: q in patterns && !Straddles(q) && Contains(p, q)
  }

  lemma AnchorIsGuard(patterns: seq<string>, p: string)
    requires HasAnchor(patterns, p) && forall q :: q in patterns ==> !Contains(MARKER, q)
    ensures HasGuard(patterns, p)
  {
    var q :| q in patterns && !Straddles(q) && Contains(p, q);
    assert Separable(q);
  }

  /** If every pattern contains one that cannot straddle an edge of the marker, scrubbing is
      complete exactly when no pattern lies inside the marker. */
  lemma CompleteExactly(patterns: seq<string>)
    requires forall p :: p in patterns ==> HasAnchor(patterns, p)
    ensures Complete(patterns) <==> forall p :: p in patterns ==> !Contains(MARKER, p)
  {
    if p :| p in patterns && Contains(MARKER, p) {
      OccurrenceIn(p, "", p, "");
      PatternInsideMarkerSurvives(p, patterns, p);
      assert !FreeOf(Redact(p, patterns), patterns);
    } else {
      forall p | p in patterns
        ensures HasGuard(patterns, p)
      {
        AnchorIsGuard(patterns, p);
      }
      forall s
        ensures FreeOf(Redact(s, patterns), patterns)
      {
        ScrubIsComplete(s, patterns);
      }
    }
  }

  /** The same for secrets without brackets. */
  lemma BracketFreeCompleteExactly(patterns: seq<string>)
    requires forall p :: p in patterns ==> BracketFree(p)
    ensures Complete(patterns) <==> forall p :: p in patterns ==> !Contains(WORD, p)
  {
    forall p | p in patterns
      ensures HasAnchor(patterns, p)
      ensures Contains(MARKER, p) <==> Contains(WORD, p)
    {
      if Straddles(p) {
        StraddlingHasBracket(p);
      }
      if Contains(WORD, p) {
        InsideWordIsInsideMarker(p);
      } else if Contains(MARKER, p) {
        InsideMarkerIsInsideWord(p);
      }
      OccurrenceIn(p, "", p, "");
      OwnAnchor(patterns, p, p);
    }
    CompleteExactly(patterns);
  }

  lemma OwnAnchor(patterns: seq<string>, p: string, q: string)
    requires q in patterns && !Straddles(q) && Contains(p, q)
    ensures HasAnchor(patterns, p)
  {
  }

  lemma BracketFreeGuard(patterns: seq<string>, p: string)
    requires p in patterns && BracketFree(p) && !Contains(WORD, p)
    ensures HasGuard(patterns, p)
  {
    if Straddles(p) {
      StraddlingHasBracket(p);
    }
    if Contains(MARKER, p) {
      InsideMarkerIsInsideWord(p);
    }
    OccurrenceIn(p, "", p, "");
    assert Separable(p);
  }

  lemma EndInsideWord(p: string)
    requires |p| == 8 && Contains(WORD, p)
    ensures p == "REDACTED"
  {
    var i: nat :| OccursAt(WORD, p, i);
  }

  /** A secret without brackets that is not part of the marker's word, and if it is long does not begin
      or end with it, is guarded. */
  lemma BracketFreeIsGuarded(value: string)
    requires BracketFree(value) && !Contains("REDACTED", value)
    requires |value| >= 16 ==> value[..8] != "REDACTED" && value[|value| - 8..] != "REDACTED"
    ensures Guarded(PatternsOf(value))
  {
    PatternsExactly(value);
    forall p | p in PatternsOf(value)
      ensures HasGuard(PatternsOf(value), p)
    {
      if p != value && Contains(WORD, p) {
        EndInsideWord(p);
      }
      BracketFreeGuard(PatternsOf(value), p);
    }
  }

  lemma LongPatterns(value: string)
    requires |value| >= 16
    ensures Patterns([value]) == [value, value[..8], value[|value| - 8..]]
    ensures Contains(value, value[..8])
  {
    var rest: seq<string> := [];
    PatternsExactly(value);
    assert [value][1..] == rest && Patterns(rest) == rest;
    OccurrenceIn(value, "", value[..8], value[8..]);
  }

  lemma ThreeCompleteExactly(a: string, b: string, c: string)
    requires Contains(a, b) && !Straddles(b) && !Straddles(c)
    ensures Complete([a, b, c]) <==> !Contains(MARKER, b) && !Contains(MARKER, c)
  {
    var patterns := [a, b, c];
    OccurrenceIn(b, "", b, "");
    OccurrenceIn(c, "", c, "");
    forall p | p in patterns
      ensures HasAnchor(patterns, p)
    {
      OwnAnchor(patterns, p, if p == c then c else b);
    }
    CompleteExactly(patterns);
    if Contains(MARKER, a) {
      ContainsTransitive(MARKER, a, b);
    }
  }

  /** For one long value whose ends cannot straddle an edge, whatever lies between them: neither it
      nor one of its ends is left in any response exactly if neither end lies inside the marker. */
  lemma LongValueCompleteExactly(value: string)
    requires |value| >= 16 && !Straddles(value[..8]) && !Straddles(value[|value| - 8..])
    ensures (forall s :: !Contains(Redact(s, Patterns([value])), value) &&
                         !Contains(Redact(s, Patterns([value])), value[..8]) &&
                         !Contains(Redact(s, Patterns([value])), value[|value| - 8..])) <==>
            !Contains("[REDACTED]", value[..8]) && !Contains("[REDACTED]", value[|value| - 8..])
  {
    MarkerExactly();
    LongPatterns(value);
    ThreeCompleteExactly(value, value[..8], value[|value| - 8..]);
    CompleteOfThree(value, value[..8], value[|value| - 8..]);
  }

  lemma CompleteOfThree(a: string, b: string, c: string)
    ensures Complete([a, b, c]) <==>
            forall s :: !Contains(Redact(s, [a, b, c]), a) && !Contains(Redact(s, [a, b, c]), b) &&
                        !Contains(Redact(s, [a, b, c]), c)
  {
    var patterns := [a, b, c];
    assert a in patterns && b in patterns && c in patterns;
    if Complete(patterns) {
      forall s
        ensures !Contains(Redact(s, patterns), a) && !Contains(Redact(s, patterns), b) &&
                !Contains(Redact(s, patterns), c)
      {
        assert FreeOf(Redact(s, patterns), patterns);
      }
    } else {
      var s :| !FreeOf(Redact(s, patterns), patterns);
      assert Contains(Redact(s, patterns), a) || Contains(Redact(s, patterns), b) || Contains(Redact(s, patterns), c);
    }
  }

  // ---------- one short value, brackets included ----------

  /** `p` begins with an end of the marker. */
  predicate OpensWithMarkerEnd(p: string) {
    exists k :: 0 < k <= |MARKER| && k <= |p| && p[..k] == MARKER[|MARKER| - k..]
  }

  /** `p` goes over into the marker at `i`, and a text can stop there: nothing matches sooner. */
  predicate RunsIntoMarker(p: string, i: nat)
    requires i <= |p|
  {
    && (p[i..] <= MARKER || MARKER <= p[i..])
    && forall j: nat :: j < i ==> !OccursAt(p[..i] + p, p, j)
  }

  ghost predicate SurvivesItself(p: string) {
    || Contains(MARKER, p)
    || OpensWithMarkerEnd(p)
    || exists i: nat :: 0 < i < |p| && RunsIntoMarker(p, i)
  }

  /** Where the pattern goes over into the marker, nothing of it matched sooner. */
  lemma FirstMatchInPattern(s: string, p: string, i: nat)
    requires FirstAt(s, p, i) && i < |p| && p[..i] == s[..i]
    ensures forall j: nat :: j < i ==> !OccursAt(p[..i] + p, p, j)
  {
    var text := p[..i] + p;
    assert s == s[..i] + s[i..];
    assert text <= s;
    forall j: nat | j < i && OccursAt(text, p, j)
      ensures OccursAt(s, p, j)
    {
      assert text[j..] <= s[j..];
    }
  }

  lemma AlignedWithMarker(p: string, i: nat, left: string, rest: string)
    requires |left| == i < |p| && p <= left + (MARKER + rest)
    ensures p[..i] == left && (p[i..] <= MARKER || MARKER <= p[i..])
  {
    var out := left + (MARKER + rest);
    assert p[..i] == out[..i];
    assert p[i..] == out[i..|p|] == (MARKER + rest)[..|p| - i];
  }

  lemma OccursAtStart(s: string, p: string, i: nat, rest: string)
    requires |p| <= i <= |s| && p <= s[..i] + rest
    ensures OccursAt(s, p, 0)
  {
    assert p == (s[..i] + rest)[..|p|] == s[..|p|];
    assert s[0..] == s;
  }

  lemma SurvivorBeforeMatch(s: string, p: string, i: nat, rest: string)
    requires p != "" && FirstAt(s, p, i) && p <= s[..i] + (MARKER + rest)
    ensures SurvivesItself(p)
  {
    if |p| <= i {
      OccursAtStart(s, p, i, MARKER + rest);
    }
    AlignedWithMarker(p, i, s[..i], rest);
    if i == 0 {
      assert p[0..] == p;
      if p <= MARKER {
        OccurrenceIn(MARKER, "", p, MARKER[|p|..]);
      } else {
        assert p[..|MARKER|] == MARKER == MARKER[0..];
      }
    } else {
      FirstMatchInPattern(s, p, i);
      assert RunsIntoMarker(p, i);
    }
  }

  lemma SurvivorAtStart(s: string, p: string)
    requires p != "" && p <= Rewrite(s, p, MARKER)
    ensures SurvivesItself(p)
  {
    if Contains(s, p) {
      var i := FirstExists(s, p);
      RewriteFirstMatch(s, p, MARKER, i);
      SurvivorBeforeMatch(s, p, i, Rewrite(s[i + |p|..], p, MARKER));
    } else {
      RewriteAbsent(s, p, MARKER);
      OccurrenceIn(s, "", p, s[|p|..]);
    }
  }

  lemma SurvivorInMarker(p: string, i: nat, rest: string)
    requires p != "" && i < |MARKER| && p <= MARKER[i..] + rest
    ensures SurvivesItself(p)
  {
    var k := |MARKER| - i;
    if |p| <= k {
      assert p == MARKER[i..][..|p|];
      assert OccursAt(MARKER, p, i);
    } else {
      assert p[..k] == MARKER[|MARKER| - k..];
    }
  }

  lemma {:induction false} SurvivorShape(s: string, p: string)
    requires p != "" && Contains(Rewrite(s, p, MARKER), p)
    ensures SurvivesItself(p)
    decreases |s|
  {
    var i: nat :| OccursAt(Rewrite(s, p, MARKER), p, i);
    if i == 0 {
      assert Rewrite(s, p, MARKER)[0..] == Rewrite(s, p, MARKER);
      SurvivorAtStart(s, p);
    } else if |s| >= |p| && p <= s {
      var rest := Rewrite(s[|p|..], p, MARKER);
      if i >= |MARKER| {
        TailOccurrence(MARKER, rest, p, i);
        SurvivorShape(s[|p|..], p);
      } else {
        assert (MARKER + rest)[i..] == MARKER[i..] + rest;
        SurvivorInMarker(p, i, rest);
      }
    } else if |s| >= |p| {
      TailOccurrence([s[0]], Rewrite(s[1..], p, MARKER), p, i);
      SurvivorShape(s[1..], p);
    }
  }

  lemma ShortTextUnchanged(s: string, p: string)
    requires |s| < |p|
    ensures Rewrite(s, p, MARKER) == s
  {
  }

  lemma SurvivorExample(p: string) returns (s: string)
    requires p != "" && SurvivesItself(p)
    ensures Contains(Rewrite(s, p, MARKER), p)
  {
    if Contains(MARKER, p) {
      s := p;
      OccurrenceIn(p, "", p, "");
      PatternInsideMarkerSurvives(p, [p], p);
      RedactOne(p, p);
    } else if k :| 0 < k <= |MARKER| && k <= |p| && p[..k] == MARKER[|MARKER| - k..] {
      s := p + p[k..];
      assert s[|p|..] == p[k..];
      ShortTextUnchanged(p[k..], p);
      assert MARKER + p[k..] == MARKER[..|MARKER| - k] + p + "" by {
        assert p == MARKER[|MARKER| - k..] + p[k..];
      }
      OccurrenceIn(Rewrite(s, p, MARKER), MARKER[..|MARKER| - k], p, "");
    } else {
      var i: nat :| 0 < i < |p| && RunsIntoMarker(p, i);
      s := RunIntoExample(p, i);
    }
  }

  lemma MatchAfterPrefix(p: string, i: nat, more: string)
    requires 0 < i < |p| && RunsIntoMarker(p, i)
    ensures var s := p[..i] + p + more; FirstAt(s, p, i) && s[i + |p|..] == more && s[..i] == p[..i]
  {
    var text := p[..i] + p;
    var s := text + more;
    assert s[i..] == p + more;
    forall j: nat | j < i && OccursAt(s, p, j)
      ensures OccursAt(text, p, j)
    {
      assert s[j..] == text[j..] + more;
    }
  }

  lemma RunIntoExample(p: string, i: nat) returns (s: string)
    requires 0 < i < |p| && RunsIntoMarker(p, i)
    ensures Contains(Rewrite(s, p, MARKER), p)
  {
    var left, right := p[..i], p[i..];
    var more := if MARKER <= right then right[|MARKER|..] else "";
    s := left + p + more;
    MatchAfterPrefix(p, i, more);
    RewriteFirstMatch(s, p, MARKER, i);
    ShortTextUnchanged(more, p);
    AlignedOccurs(p, i, more);
  }

  lemma AlignedOccurs(p: string, i: nat, more: string)
    requires i < |p| && (if MARKER <= p[i..] then more == p[i..][|MARKER|..] else p[i..] <= MARKER && more == "")
    ensures Contains(p[..i] + (MARKER + more), p)
  {
    var out := p[..i] + (MARKER + more);
    assert p == p[..i] + p[i..];
    if MARKER <= p[i..] {
      assert p[i..] == MARKER + more;
      OccurrenceIn(out, "", p, "");
    } else {
      var rest := MARKER[|p[i..]|..];
      assert MARKER + more == p[i..] + rest;
      Reassociate(p[..i], p[i..], rest);
      OccurrenceIn(out, "", p, rest);
    }
  }

  /** One value of fewer than sixteen characters is replaced as a whole, and left in no response
      exactly if it is not empty and cannot survive its own replacement. */
  lemma ShortValueCompleteExactly(value: string)
    requires |value| < 16
    ensures forall s :: Redact(s, Patterns([value])) == Replace(s, value, "[REDACTED]")
    ensures (forall s :: !Contains(Replace(s, value, "[REDACTED]"), value)) <==> value != "" && !SurvivesItself(value)
  {
    forall s
      ensures Redact(s, Patterns([value])) == Replace(s, value, "[REDACTED]")
    {
      RedactOneValue(s, [value]);
    }
    MarkerExactly();
    ShortComplete(value);
    CompleteOfOne(value);
  }

  lemma CompleteOfOne(p: string)
    ensures Complete([p]) <==> forall s :: !Contains(Replace(s, p, MARKER), p)
  {
    assert p in [p];
    forall s
      ensures FreeOf(Redact(s, [p]), [p]) <==> !Contains(Replace(s, p, MARKER), p)
    {
      RedactOne(s, p);
    }
  }

  lemma ShortComplete(value: string)
    ensures Complete([value]) <==> value != "" && !SurvivesItself(value)
  {
    forall s
      ensures Redact(s, [value]) == Replace(s, value, MARKER)
    {
      RedactOne(s, value);
    }
    assert value in [value];
    if value == "" {
      OccurrenceIn(Redact("", [value]), "", value, Redact("", [value]));
      assert !FreeOf(Redact("", [value]), [value]);
    } else if SurvivesItself(value) {
      var s := SurvivorExample(value);
      assert !FreeOf(Redact(s, [value]), [value]);
    } else {
      forall s
        ensures FreeOf(Redact(s, [value]), [value])
      {
        if Contains(Rewrite(s, value, MARKER), value) {
          SurvivorShape(s, value);
        }
      }
    }
  }

  // ---------- one pattern can mask another ----------

  lemma ContainedChar(s: string, c: char)
    requires Contains(s, [c])
    ensures c in s
  {
    var i: nat :| OccursAt(s, [c], i);
    assert s[i] == s[i..][0] == c;
  }

  lemma ForeignCharIsSeparable(c: char)
    requires c !in MARKER
    ensures Separable([c]) && !Straddles([c])
  {
    assert MARKER[0] == '[' && MARKER[9] == ']';
    if Contains(MARKER, [c]) {
      ContainedChar(MARKER, c);
    }
    if Straddles([c]) {
      StraddlingHasBracket([c]);
    }
  }

  lemma BracketPatternSurvives(c: char)
    ensures !Complete(["]" + [c]])
  {
    var p := "]" + [c];
    assert p[..1] == "]" == MARKER[|MARKER| - 1..];
    assert OpensWithMarkerEnd(p);
    ShortComplete(p);
  }

  /** A list may be complete, in either order, although one of its patterns alone is not: the
      other pattern masks it. */
  lemma MaskedPattern(c: char)
    requires c !in MARKER
    ensures !Complete(["]" + [c]])
    ensures Complete(["]" + [c], [c]]) && Complete([[c], "]" + [c]])
  {
    var p, q := "]" + [c], [c];
    BracketPatternSurvives(c);
    ForeignCharIsSeparable(c);
    OccurrenceIn(q, "", q, "");
    OccurrenceIn(p, "]", q, "");
    GuardedByOne([p, q], q);
    GuardedByOne([q, p], q);
  }

  lemma GuardedByOne(patterns: seq<string>, q: string)
    requires q in patterns && Separable(q) && forall p :: p in patterns ==> Contains(p, q)
    ensures Complete(patterns)
  {
    forall s
      ensures FreeOf(Redact(s, patterns), patterns)
    {
      ScrubIsComplete(s, patterns);
    }
  }
}

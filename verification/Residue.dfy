/** When a substituted text is free of placeholders. */
module Residue {
  import opened Text
  import opened Scanner
  import opened Substitution

  predicate AllContinue(w: string) {
    forall i :: 0 <= i < |w| ==> IsContinue(w[i])
  }

  /** No context can make `v` part of a token: `v` holds a character no name holds, holds no
      token, does not end with the beginning of one and does not begin with the end of one. */
  predicate Inert(v: string) {
    && !AllContinue(v)
    && Names(v) == []
    && (forall k :: 0 <= k < |v| && v[k] == '{' ==> v[k + 1..] != "" && !IsName(v[k + 1..]))
    && (forall k :: 0 <= k < |v| && v[k] == '}' ==> !AllContinue(v[..k]))
  }

  /** A sufficient condition that is easy to check. */
  predicate Plain(v: string) {
    !AllContinue(v) && '{' !in v && '}' !in v
  }

  lemma PlainIsInert(v: string)
    requires Plain(v)
    ensures Inert(v)
  {
    NamesExact(v);
    if Names(v) != [] {
      var n := Names(v)[0];
      assert n in Names(v);
      TokenHasBrace(v, n);
    }
  }

  lemma TokenHasBrace(v: string, n: string)
    requires Contains(v, Token(n))
    ensures '{' in v
  {
    var i: nat :| OccursAt(v, Token(n), i);
    assert v[i] == v[i..][0] == Token(n)[0];
  }

  ghost predicate InteractsWithNone(v: string) {
    forall n :: IsName(n) ==> !Interacts(v, Token(n))
  }

  lemma CharactersOfToken(n: string)
    requires IsName(n)
    ensures |Token(n)| == |n| + 2 && Token(n)[0] == '{' && Token(n)[|n| + 1] == '}'
    ensures forall i :: 0 < i <= |n| ==> Token(n)[i] == n[i - 1] && IsContinue(Token(n)[i])
  {
  }

  lemma InertEnd(v: string, n: string, k: nat)
    requires IsName(n) && 0 < k < |Token(n)| && EndsLike(v, Token(n), k)
    ensures !Inert(v)
  {
    CharactersOfToken(n);
    var p := |v| - k;
    var w := v[p + 1..];
    assert v[p] == v[p..][0] == '{';
    assert w == v[p..][1..] == Token(n)[1..k] == n[..k - 1];
    assert w == "" || IsName(w);
  }

  lemma InertBeginning(v: string, n: string, k: nat)
    requires IsName(n) && 0 < k < |Token(n)| && BeginsLike(v, Token(n), k)
    ensures !Inert(v)
  {
    CharactersOfToken(n);
    var t := Token(n);
    assert v[k - 1] == v[..k][k - 1] == '}';
    assert forall i :: 0 <= i < k - 1 ==> v[..k - 1][i] == v[..k][i] == t[|t| - k + i];
    assert AllContinue(v[..k - 1]);
  }

  lemma ProperPieceIsNotInert(v: string, n: string, i: nat, j: nat)
    requires IsName(n) && i + |v| <= |Token(n)| && |v| < |Token(n)|
    requires v == Token(n)[i..i + |v|] && j < |v| && !IsContinue(v[j])
    ensures !Inert(v)
  {
    CharactersOfToken(n);
    var t := Token(n);
    assert v[j] == t[i + j];
    if i + j == 0 {
      assert v[|v| - |v|..] == t[..|v|];
      InertEnd(v, n, |v|);
    } else {
      assert i + j == |t| - 1;
      assert v[..|v|] == t[|t| - |v|..];
      InertBeginning(v, n, |v|);
    }
  }

  lemma InertInside(v: string, n: string)
    requires IsName(n) && Contains(Token(n), v) && !Contains(v, Token(n))
    ensures !Inert(v)
  {
    var t := Token(n);
    var i: nat :| OccursAt(t, v, i);
    assert v == t[i..][..|v|] == t[i..i + |v|];
    if |v| == |t| {
      OccurrenceIn(v, "", t, "");
    } else if j :| 0 <= j < |v| && !IsContinue(v[j]) {
      ProperPieceIsNotInert(v, n, i, j);
    }
  }

  lemma InteractionIsNotInert(v: string, n: string)
    requires IsName(n) && Interacts(v, Token(n))
    ensures !Inert(v)
  {
    var t := Token(n);
    if Contains(v, t) {
      NamesExact(v);
      assert n in Names(v);
    } else if k :| 0 < k < |t| && EndsLike(v, t, k) {
      InertEnd(v, n, k);
    } else if k :| 0 < k < |t| && BeginsLike(v, t, k) {
      InertBeginning(v, n, k);
    } else {
      InertInside(v, n);
    }
  }

  lemma OpenEndInteracts(v: string, k: nat) returns (n: string)
    requires k < |v| && v[k] == '{' && (v[k + 1..] == "" || IsName(v[k + 1..]))
    ensures IsName(n) && Interacts(v, Token(n))
  {
    var w := v[k + 1..];
    n := if w == "" then "A" else w;
    assert v[k..] == "{" + w;
    assert Token(n)[..|w| + 1] == "{" + w;
    assert EndsLike(v, Token(n), |w| + 1);
  }

  lemma OpenBeginningInteracts(v: string, k: nat) returns (n: string)
    requires k < |v| && v[k] == '}' && AllContinue(v[..k])
    ensures IsName(n) && Interacts(v, Token(n))
  {
    var m := v[..k];
    n := "A" + m;
    var t := Token(n);
    assert v[..k + 1] == m + "}";
    assert t == "{A" + (m + "}");
    assert t[|t| - (k + 1)..] == m + "}";
    assert BeginsLike(v, t, k + 1);
  }

  lemma NotInertInteracts(v: string) returns (n: string)
    requires !Inert(v)
    ensures IsName(n) && Interacts(v, Token(n))
  {
    if AllContinue(v) {
      n := "A" + v;
      OccurrenceIn(Token(n), "{A", v, "}");
    } else if Names(v) != [] {
      NamesExact(v);
      n := Names(v)[0];
      assert n in Names(v);
    } else if k :| 0 <= k < |v| && v[k] == '{' && (v[k + 1..] == "" || IsName(v[k + 1..])) {
      n := OpenEndInteracts(v, k);
    } else {
      var k :| 0 <= k < |v| && v[k] == '}' && AllContinue(v[..k]);
      n := OpenBeginningInteracts(v, k);
    }
  }

  /** `Inert` is exactly "interacts with no token". */
  lemma InertExactly(v: string)
    ensures Inert(v) <==> InteractsWithNone(v)
  {
    if Inert(v) {
      forall n | IsName(n)
        ensures !Interacts(v, Token(n))
      {
        if Interacts(v, Token(n)) {
          InteractionIsNotInert(v, n);
        }
      }
    } else {
      var n := NotInertInteracts(v);
    }
  }

  ghost predicate AllInert(f: Secrets) {
    forall a :: a in f && IsName(a) ==> Inert(f[a])
  }

  lemma InertIsCompatible(f: Secrets)
    requires AllInert(f)
    ensures Compatible(f)
  {
    forall a, b | a in f && b in f && a != b && IsName(a) && IsName(b) && f[b] != Token(b)
      ensures !Interacts(f[a], Token(b))
    {
      InertExactly(f[a]);
    }
  }

  lemma {:induction false} PassLeavesNoToken(s: string, f: Secrets, n: string)
    requires IsName(n) && NoneInteracts(f, Token(n))
    requires Contains(s, Token(n)) ==> n in f
    ensures !Contains(SinglePass(s, f), Token(n))
    decreases |s|
  {
    var t, out := Token(n), SinglePass(s, f);
    if s != "" && Contains(out, t) {
      var i: nat :| OccursAt(out, t, i);
      var head := HeadToken(s);
      var known := head.Some? && head.value in f;
      var v := if known then f[head.value] else [s[0]];
      var k := if known then |Token(head.value)| else 1;
      var rest := SinglePass(s[k..], f);
      assert out == v + rest;
      if i < |v| {
        assert out[i..] == v[i..] + rest;
        if known {
          OverlapInteracts(v, i, rest, t);
        } else {
          assert out[0..] == out;
          HeadComesFromText(s, f, n);
          HeadTokenFound(s, n);
          OccurrenceIn(s, "", t, s[|t|..]);
        }
      } else {
        assert out[i..] == rest[i - |v|..];
        assert OccursAt(rest, t, i - |v|);
        if Contains(s[k..], t) {
          ContainsFromTail(s, t, k);
        }
        PassLeavesNoToken(s[k..], f, n);
      }
    }
  }

  /** Whatever the template, no placeholder is left after substitution. */
  ghost predicate LeavesNoPlaceholder(f: Secrets) {
    forall template :: Covers(f, Names(template)) ==>
                         Names(ReplaceEach(template, Names(template), f)) == []
  }

  lemma ResultHasNoPlaceholder(template: string, f: Secrets)
    requires AllInert(f) && Covers(f, Names(template))
    ensures Names(ReplaceEach(template, Names(template), f)) == []
  {
    InertIsCompatible(f);
    SubstituteIsOnePass(template, f);
    var g := Restrict(f, Names(template));
    NamesExact(template);
    PassDependsOnTokens(template, f, g);
    var out := SinglePass(template, g);
    NamesExact(out);
    if Names(out) != [] {
      var n := Names(out)[0];
      assert n in Names(out);
      forall a | a in g
        ensures !Interacts(g[a], Token(n))
      {
        InertExactly(f[a]);
      }
      PassLeavesNoToken(template, g, n);
    }
  }

  lemma LeftoverIsVisible(f: Secrets, a: string)
    requires a in f && IsName(a) && !Inert(f[a])
    ensures !LeavesNoPlaceholder(f)
  {
    var n := NotInertInteracts(f[a]);
    var x, y := CompletingContext(f[a], n);
    var s, out := MeetingTemplate(x, a, y, ""), x + f[a] + y;
    MeetingEnd(x, a, y, n);
    ReplaceIsSinglePass(s, a, f[a]);
    MeetingPass(x, a, y, "", n, map[a := f[a]]);
    assert [a][..0] == [];
    assert out + "" == out;
    assert ReplaceEach(s, [a], f) == out;
    NamesExact(out);
    assert n in Names(out);
  }

  /** Exactly when no substituted template keeps a placeholder. */
  lemma LeavesNoPlaceholderExactly(f: Secrets)
    ensures LeavesNoPlaceholder(f) <==> AllInert(f)
  {
    if AllInert(f) {
      forall template | Covers(f, Names(template))
        ensures Names(ReplaceEach(template, Names(template), f)) == []
      {
        ResultHasNoPlaceholder(template, f);
      }
    } else {
      var a :| a in f && IsName(a) && !Inert(f[a]);
      LeftoverIsVisible(f, a);
    }
  }

  /** With plain values, substitution is one simultaneous pass and leaves no placeholder. */
  lemma PlainValuesSubstituteCleanly(template: string, f: Secrets)
    requires Covers(f, Names(template))
    requires forall a :: a in f && IsName(a) ==> Plain(f[a])
    ensures ReplaceEach(template, Names(template), f) == SinglePass(template, f)
    ensures Names(ReplaceEach(template, Names(template), f)) == []
  {
    forall a | a in f && IsName(a)
      ensures Inert(f[a])
    {
      PlainIsInert(f[a]);
    }
    InertIsCompatible(f);
    SubstituteIsOnePass(template, f);
    ResultHasNoPlaceholder(template, f);
  }

  /** A value made of name characters only can be read as part of a token. In `{{A}}{B}` the
      value `B` of `A` completes a token, which the next replace rewrites as well. */
  lemma NestedTokenIsRewrittenTwice(a: string, b: string, w: string)
    requires IsName(a) && IsName(b) && a != b
    ensures var f := map[a := b, b := w];
            var template := MeetingTemplate("{", a, "}", Token(b));
            && Names(template) == [a, b]
            && ReplaceEach(template, [a, b], f) == w + w
            && SinglePass(template, f) == Token(b) + w
  {
    var f, t := map[a := b, b := w], Token(b);
    var template := MeetingTemplate("{", a, "}", t);
    assert "{" + b + "}" == t && t + "" == t && w + "" == w;
    MeetingToken("{", a, "}", b);
    assert SinglePass(template, f) == t + w by {
      MeetingPass("{", a, "}", t, b, f);
      PassKnownToken(b, "", f);
    }
    assert Replace(template, Token(a), b) == t + t by {
      ReplaceIsSinglePass(template, a, b);
      MeetingPass("{", a, "}", t, b, map[a := b]);
      PassUnknownToken(b, "", map[a := b]);
    }
    assert Replace(t + t, t, w) == w + w by {
      ReplaceIsSinglePass(t + t, b, w);
      PassKnownToken(b, t, map[b := w]);
      PassKnownToken(b, "", map[b := w]);
    }
    assert [a, b][..1] == [a] && [a][..0] == [];
    assert ReplaceEach(template, [a], f) == t + t;
  }
}

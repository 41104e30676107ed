/** Placeholder substitution. The code replaces one token after another in the whole text; the
    specification replaces every token of the template in one left-to-right pass. */
module Substitution {
  import opened Text
  import opened Scanner
  import opened Wrappers

  type Secrets = map<string, string>

  function SinglePass(s: string, f: Secrets): string
    decreases |s|
  {
    if s == "" then ""
    else
      match HeadToken(s)
      case Some(n) =>
        if n in f then f[n] + SinglePass(s[|Token(n)|..], f) else [s[0]] + SinglePass(s[1..], f)
      case None => [s[0]] + SinglePass(s[1..], f)
  }

  /** The chain of global replaces the code performs, in the order of `names`. */
  function ReplaceEach(s: string, names: seq<string>, f: Secrets): string
    requires forall n :: n in names ==> n in f
  {
    if names == [] then s
    else
      var last := names[|names| - 1];
      Replace(ReplaceEach(s, names[..|names| - 1], f), Token(last), f[last])
  }

  predicate Covers(f: Secrets, names: seq<string>) {
    forall n :: n in names ==> n in f
  }

  method Substitute(template: string, secrets: Secrets) returns (r: Result<string, string>)
    ensures r.Ok? <==> Covers(secrets, Names(template))
    ensures r.Ok? ==> r.value == ReplaceEach(template, Names(template), secrets)
    ensures r.Err? ==> exists i :: 0 <= i < |Names(template)| && r.error == Names(template)[i] &&
                                   r.error !in secrets && Covers(secrets, Names(template)[..i])
  {
    var placeholders, _ := ParsePlaceholders(template);
    var result := template;
    for i := 0 to |placeholders|
      invariant Covers(secrets, placeholders[..i])
      invariant result == ReplaceEach(template, placeholders[..i], secrets)
    {
      var name := placeholders[i];
      if name in secrets {
        result := ReplaceAll(result, Token(name), secrets[name]);
        assert placeholders[..i + 1][..i] == placeholders[..i];
      } else {
        assert Names(template)[i] == name;
        return Err(name);
      }
    }
    assert placeholders[..|placeholders|] == placeholders;
    r := Ok(result);
  }

  // ---------- when inserted text can take part in a token ----------

  /** `v` and `t` can share characters in some text: one contains the other, or one ends with
      the beginning of the other. */
  ghost predicate Interacts(v: string, t: string) {
    || Contains(v, t)
    || Contains(t, v)
    || (exists k :: 0 < k < |t| && EndsLike(v, t, k))
    || (exists k :: 0 < k < |t| && BeginsLike(v, t, k))
  }

  predicate EndsLike(v: string, t: string, k: nat)
    requires k <= |t|
  {
    k <= |v| && v[|v| - k..] == t[..k]
  }

  predicate BeginsLike(v: string, t: string, k: nat)
    requires k <= |t|
  {
    k <= |v| && v[..k] == t[|t| - k..]
  }

  ghost predicate NoneInteracts(f: Secrets, t: string) {
    forall a :: a in f ==> !Interacts(f[a], t)
  }

  // ---------- the single pass ----------

  lemma {:induction false} PassBraceFree(a: string, rest: string, f: Secrets)
    requires BraceFree(a, 0, |a|)
    ensures SinglePass(a + rest, f) == a + SinglePass(rest, f)
  {
    if a == "" {
      assert a + rest == rest;
    } else {
      assert (a + rest)[1..] == a[1..] + rest;
      PassBraceFree(a[1..], rest, f);
    }
  }

  lemma TokenHead(n: string, rest: string)
    requires IsName(n)
    ensures HeadToken(Token(n) + rest) == Some(n)
    ensures (Token(n) + rest)[|Token(n)|..] == rest
  {
    HeadTokenFound(Token(n) + rest, n);
  }

  lemma HeadIsName(s: string)
    ensures HeadToken(s).Some? ==> IsName(HeadToken(s).value)
  {
    if HeadToken(s).Some? {
      HeadTokenFound(s, HeadToken(s).value);
    }
  }

  /** A token whose name has no secret is copied. */
  lemma PassUnknownToken(n: string, rest: string, f: Secrets)
    requires IsName(n) && n !in f
    ensures SinglePass(Token(n) + rest, f) == Token(n) + SinglePass(rest, f)
  {
    TokenHead(n, rest);
    var text, inner := Token(n) + rest, n + "}";
    assert BraceFree(inner, 0, |inner|);
    assert Token(n) == "{" + inner && text[0] == '{' && text[1..] == inner + rest;
    PassBraceFree(inner, rest, f);
    Reassociate("{", inner, SinglePass(rest, f));
  }

  lemma PassKnownToken(n: string, rest: string, f: Secrets)
    requires IsName(n) && n in f
    ensures SinglePass(Token(n) + rest, f) == f[n] + SinglePass(rest, f)
  {
    TokenHead(n, rest);
  }

  /** Replacing one token everywhere is a single pass with one secret. */
  lemma {:induction false} ReplaceIsSinglePass(s: string, n: string, v: string)
    requires IsName(n)
    ensures Replace(s, Token(n), v) == SinglePass(s, map[n := v])
    decreases |s|
  {
    HeadTokenFound(s, n);
    if s != "" {
      if Token(n) <= s {
        ReplaceIsSinglePass(s[|Token(n)|..], n, v);
      } else {
        ReplaceIsSinglePass(s[1..], n, v);
        if |s| < |Token(n)| {
          assert Rewrite(s[1..], Token(n), v) == s[1..];
        }
      }
    }
  }

  /** Text that does not interact with a token is copied by a pass over that token. */
  lemma {:induction false} PassValue(v: string, j: nat, rest: string, n: string, w: string)
    requires IsName(n) && j <= |v| && !Interacts(v, Token(n))
    ensures SinglePass(v[j..] + rest, map[n := w]) == v[j..] + SinglePass(rest, map[n := w])
    decreases |v| - j
  {
    var text := v[j..] + rest;
    if j == |v| {
      assert text == rest;
    } else {
      if Token(n) <= text {
        OverlapInteracts(v, j, rest, Token(n));
      }
      HeadTokenFound(text, n);
      assert text[1..] == v[j + 1..] + rest;
      PassValue(v, j + 1, rest, n, w);
    }
  }

  lemma OverlapInteracts(v: string, j: nat, rest: string, t: string)
    requires j < |v| && t <= v[j..] + rest
    ensures Interacts(v, t)
  {
    var text := v[j..] + rest;
    var k := |v| - j;
    if |t| <= k {
      assert t == text[..|t|] == v[j..][..|t|];
      assert OccursAt(v, t, j);
    } else {
      assert v[|v| - k..] == text[..k] == t[..k];
      assert EndsLike(v, t, k);
    }
  }

  lemma EndOverlapInteracts(v: string, t: string, k: nat, rest: string)
    requires 0 < k < |t| && t[|t| - k..] <= v + rest
    ensures Interacts(v, t)
  {
    var end := t[|t| - k..];
    if |v| <= k {
      assert v == end[..|v|];
      assert OccursAt(t, v, |t| - k);
    } else {
      assert v[..k] == end;
      assert BeginsLike(v, t, k);
    }
  }

  /** If the output of a pass begins with the end of a token that no inserted value interacts
      with, so does its input. */
  lemma {:induction false} TailComesFromText(u: string, f: Secrets, n: string, k: nat)
    requires 0 < k < |Token(n)| && NoneInteracts(f, Token(n))
    requires Token(n)[|Token(n)| - k..] <= SinglePass(u, f)
    ensures Token(n)[|Token(n)| - k..] <= u
    decreases k
  {
    var t := Token(n);
    var head := HeadToken(u);
    if head.Some? && head.value in f {
      EndOverlapInteracts(f[head.value], t, k, SinglePass(u[|Token(head.value)|..], f));
    } else {
      var rest := SinglePass(u[1..], f);
      assert SinglePass(u, f) == [u[0]] + rest;
      EndAfterHead(t, k, u[0], rest);
      if k > 1 {
        TailComesFromText(u[1..], f, n, k - 1);
      }
      HeadBeforeEnd(t, k, u);
    }
  }

  /** An end of `t` at the front of a text is one character and a shorter end. */
  lemma EndAfterHead(t: string, k: nat, c: char, rest: string)
    requires 0 < k <= |t| && t[|t| - k..] <= [c] + rest
    ensures t[|t| - k] == c && t[|t| - (k - 1)..] <= rest
  {
    var end := t[|t| - k..];
    assert end[0] == c;
    assert t[|t| - (k - 1)..] == end[1..];
    assert ([c] + rest)[1..] == rest;
  }

  lemma HeadBeforeEnd(t: string, k: nat, u: string)
    requires 0 < k <= |t| && u != "" && t[|t| - k] == u[0] && t[|t| - (k - 1)..] <= u[1..]
    ensures t[|t| - k..] <= u
  {
    assert t[|t| - k..] == [u[0]] + t[|t| - (k - 1)..];
    assert u == [u[0]] + u[1..];
  }

  lemma HeadComesFromText(s: string, f: Secrets, n: string)
    requires s != "" && NoneInteracts(f, Token(n))
    requires Token(n) <= [s[0]] + SinglePass(s[1..], f)
    ensures Token(n) <= s
  {
    var t := Token(n);
    assert t[|t| - |t|..] == t;
    EndAfterHead(t, |t|, s[0], SinglePass(s[1..], f));
    TailComesFromText(s[1..], f, n, |t| - 1);
    HeadBeforeEnd(t, |t|, s);
  }

  /** A pass over `f` followed by a pass over one more name is one pass over both. */
  lemma {:induction false} PassesCompose(s: string, f: Secrets, n: string, w: string)
    requires IsName(n) && n !in f && NoneInteracts(f, Token(n))
    ensures SinglePass(SinglePass(s, f), map[n := w]) == SinglePass(s, f[n := w])
    decreases |s|
  {
    if s != "" {
      var head := HeadToken(s);
      if head.Some? && head.value in f {
        var v, rest := f[head.value], s[|Token(head.value)|..];
        PassValue(v, 0, SinglePass(rest, f), n, w);
        assert v[0..] == v;
        PassesCompose(rest, f, n, w);
      } else if head == Some(n) {
        var rest := s[|Token(n)|..];
        assert s == Token(n) + rest;
        HeadIsName(s);
        PassUnknownToken(n, rest, f);
        PassKnownToken(n, SinglePass(rest, f), map[n := w]);
        PassesCompose(rest, f, n, w);
      } else {
        var text := [s[0]] + SinglePass(s[1..], f);
        if Token(n) <= text {
          HeadComesFromText(s, f, n);
        }
        HeadTokenFound(s, n);
        HeadTokenFound(text, n);
        assert text[1..] == SinglePass(s[1..], f);
        PassesCompose(s[1..], f, n, w);
      }
    }
  }

  /** A secret equal to its own token changes nothing. */
  lemma {:induction false} PassIdentity(s: string, f: Secrets, n: string)
    requires IsName(n) && n !in f
    ensures SinglePass(s, f[n := Token(n)]) == SinglePass(s, f)
    decreases |s|
  {
    if s != "" {
      var head := HeadToken(s);
      if head.Some? && head.value in f {
        PassIdentity(s[|Token(head.value)|..], f, n);
      } else if head == Some(n) {
        var rest := s[|Token(n)|..];
        assert s == Token(n) + rest;
        PassUnknownToken(n, rest, f);
        PassIdentity(rest, f, n);
      } else {
        PassIdentity(s[1..], f, n);
      }
    }
  }

  /** Only the secrets whose token occurs in the text matter. */
  lemma {:induction false} PassDependsOnTokens(s: string, f: Secrets, g: Secrets)
    requires forall n :: IsName(n) && Contains(s, Token(n)) ==>
                           (n in f <==> n in g) && (n in f ==> f[n] == g[n])
    ensures SinglePass(s, f) == SinglePass(s, g)
    decreases |s|
  {
    if s != "" {
      var head := HeadToken(s);
      var k := 1;
      if head.Some? {
        HeadIsName(s);
        assert s[0..] == s;
        assert OccursAt(s, Token(head.value), 0);
        if head.value in f {
          k := |Token(head.value)|;
        }
      }
      forall n | IsName(n) && Contains(s[k..], Token(n))
        ensures Contains(s, Token(n))
      {
        ContainsFromTail(s, Token(n), k);
      }
      PassDependsOnTokens(s[k..], f, g);
    }
  }

  // ---------- sequential replacement is simultaneous ----------

  /** No secret's value can share characters with another secret's token, unless that other
      secret is its own token and so replaces nothing. */
  ghost predicate Compatible(f: Secrets) {
    forall a, b :: a in f && b in f && a != b && IsName(a) && IsName(b) && f[b] != Token(b) ==>
                     !Interacts(f[a], Token(b))
  }

  function Restrict(f: Secrets, names: seq<string>): Secrets {
    map n | n in f && n in names :: f[n]
  }

  /** Under `Compatible`, the chain of replaces is one pass, in whatever order it is done. */
  lemma {:induction false} AnyOrderIsOnePass(s: string, names: seq<string>, f: Secrets)
    requires Covers(f, names) && NoDuplicates(names) && Compatible(f)
    requires forall n :: n in names ==> IsName(n)
    ensures ReplaceEach(s, names, f) == SinglePass(s, Restrict(f, names))
  {
    if names == [] {
      EmptyPass(s);
      assert Restrict(f, names) == map[];
    } else {
      var last, before := names[|names| - 1], names[..|names| - 1];
      var g := Restrict(f, before);
      AnyOrderIsOnePass(s, before, f);
      assert names == before + [last] && last !in before;
      assert Restrict(f, names) == g[last := f[last]];
      if f[last] == Token(last) {
        RewriteByItself(SinglePass(s, g), Token(last));
        PassIdentity(s, g, last);
      } else {
        ReplaceIsSinglePass(SinglePass(s, g), last, f[last]);
        PassesCompose(s, g, last, f[last]);
      }
    }
  }

  lemma {:induction false} EmptyPass(s: string)
    ensures SinglePass(s, map[]) == s
    decreases |s|
  {
    if s != "" {
      EmptyPass(s[1..]);
    }
  }

  lemma SubstituteIsOnePass(template: string, f: Secrets)
    requires Covers(f, Names(template)) && Compatible(f)
    ensures ReplaceEach(template, Names(template), f) == SinglePass(template, f)
  {
    NamesExact(template);
    AnyOrderIsOnePass(template, Names(template), f);
    PassDependsOnTokens(template, Restrict(f, Names(template)), f);
  }

  /** Every template these secrets cover is substituted as in a single pass. */
  ghost predicate Simultaneous(f: Secrets) {
    forall template :: Covers(f, Names(template)) ==>
                         ReplaceEach(template, Names(template), f) == SinglePass(template, f)
  }

  // ---------- the condition is needed ----------

  predicate Opening(x: string, n: string) {
    x == "" || (|x| < |Token(n)| && x <= Token(n))
  }

  predicate Closing(y: string, n: string) {
    y == "" || (|y| < |Token(n)| && y == Token(n)[|Token(n)| - |y|..])
  }

  /** Put around `v`, a beginning and an end of the token of `n` complete an occurrence of it. */
  ghost predicate Completes(x: string, v: string, y: string, n: string) {
    Opening(x, n) && Closing(y, n) && Contains(x + v + y, Token(n))
  }

  lemma OccurrenceIn(text: string, left: string, t: string, right: string)
    requires text == left + t + right
    ensures Contains(text, t)
  {
    assert text[|left|..] == t + right;
    assert OccursAt(text, t, |left|);
  }

  lemma CompletingContext(v: string, n: string) returns (x: string, y: string)
    requires Interacts(v, Token(n))
    ensures Completes(x, v, y, n)
  {
    var t := Token(n);
    if Contains(v, t) {
      x, y := "", "";
      assert x + v + y == v;
    } else if k :| 0 < k < |t| && EndsLike(v, t, k) {
      x, y := "", t[k..];
      OccurrenceIn(x + v + y, v[..|v| - k], t, "");
    } else if k :| 0 < k < |t| && BeginsLike(v, t, k) {
      x, y := t[..|t| - k], "";
      OccurrenceIn(x + v + y, "", t, v[k..]);
    } else {
      x, y := SurroundInside(v, n);
    }
  }

  lemma SurroundInside(v: string, n: string) returns (x: string, y: string)
    requires Contains(Token(n), v) && !Contains(v, Token(n))
    requires forall k :: 0 < k < |Token(n)| ==> !EndsLike(v, Token(n), k)
    ensures Completes(x, v, y, n)
  {
    var t := Token(n);
    var i: nat :| OccursAt(t, v, i);
    if v == "" {
      x, y := t[..1], t[1..];
    } else {
      if i == 0 {
        assert t[0..] == t;
        if |v| < |t| {
          assert EndsLike(v, t, |v|);
        } else {
          OccurrenceIn(v, "", t, "");
        }
      }
      x, y := t[..i], t[i + |v|..];
    }
    assert t == x + v + y;
    OccurrenceIn(x + v + y, "", t, "");
  }

  /** The start of a token, cut off by the next token, is not a token. */
  lemma OpeningIsNoToken(x: string, n: string, tail: string)
    requires IsName(n) && x != "" && Opening(x, n) && tail != "" && tail[0] == '{'
    ensures HeadToken(x + tail) == None && BraceFree(x, 1, |x|)
  {
    assert forall i :: 1 <= i < |x| ==> x[i] == Token(n)[i] == n[i - 1];
    assert (x + tail)[|x|] == '{';
    HeadIsName(x + tail);
  }

  lemma PassOpening(x: string, n: string, tail: string, f: Secrets)
    requires IsName(n) && Opening(x, n) && tail != "" && tail[0] == '{'
    ensures SinglePass(x + tail, f) == x + SinglePass(tail, f)
  {
    if x == "" {
      assert x + tail == tail;
    } else {
      OpeningIsNoToken(x, n, tail);
      var x0, x1 := [x[0]], x[1..];
      assert x == x0 + x1;
      assert (x + tail)[1..] == x1 + tail;
      assert SinglePass(x + tail, f) == x0 + SinglePass(x1 + tail, f);
      PassBraceFree(x1, tail, f);
      Reassociate(x0, x1, SinglePass(tail, f));
    }
  }

  /** The template that shows two values meet: `{a}` between the two ends of a token, then
      possibly the token itself. */
  function MeetingTemplate(x: string, a: string, y: string, z: string): string {
    x + (Token(a) + (y + z))
  }

  lemma NamesPastToken(s: string, p: nat, n: string, rest: string)
    requires p <= |s| && IsName(n) && s[p..] == Token(n) + rest
    ensures p + |Token(n)| <= |s| && s[p + |Token(n)|..] == rest
    ensures NamesBefore(s, p + |Token(n)|) == Add(NamesBefore(s, p), n)
    ensures rest == "" ==> Names(s) == Add(NamesBefore(s, p), n)
  {
    TokenHead(n, rest);
    var q := p + |Token(n)|;
    assert s[q..] == s[p..][|Token(n)|..];
    assert forall i :: p + 1 <= i < q ==> s[i] == s[p..][i - p] == Token(n)[i - p];
    BraceFreeStretch(s, p + 1, q);
  }

  lemma NamesPastOpening(x: string, n: string, tail: string)
    requires IsName(n) && Opening(x, n) && tail != "" && tail[0] == '{'
    ensures NamesBefore(x + tail, |x|) == []
  {
    var s := x + tail;
    if x != "" {
      OpeningIsNoToken(x, n, tail);
      assert s[0..] == s;
      assert NamesBefore(s, 1) == [];
      assert forall i :: 1 <= i < |x| ==> s[i] == x[i];
      BraceFreeStretch(s, 1, |x|);
    }
  }

  lemma ClosingIsBraceFree(y: string, n: string)
    requires IsName(n) && Closing(y, n)
    ensures BraceFree(y, 0, |y|)
  {
    var t := Token(n);
    assert forall i :: 1 <= i < |t| ==> t[i] != '{';
    assert forall i :: 0 <= i < |y| ==> y[i] == t[|t| - |y| + i];
  }

  lemma NamesPastMeeting(x: string, n: string, a: string, tail: string)
    requires IsName(n) && IsName(a) && Opening(x, n)
    ensures var s, q := x + (Token(a) + tail), |x| + |Token(a)|;
            q <= |s| && s[q..] == tail && NamesBefore(s, q) == [a]
  {
    var s := x + (Token(a) + tail);
    NamesPastOpening(x, n, Token(a) + tail);
    assert s[|x|..] == Token(a) + tail;
    NamesPastToken(s, |x|, a, tail);
  }

  lemma NamesPastBraceFree(s: string, p: nat, y: string, rest: string)
    requires p <= |s| && s[p..] == y + rest && BraceFree(y, 0, |y|)
    ensures p + |y| <= |s| && s[p + |y|..] == rest && NamesBefore(s, p + |y|) == NamesBefore(s, p)
  {
    assert forall i :: p <= i < p + |y| ==> s[i] == s[p..][i - p] == y[i - p];
    BraceFreeStretch(s, p, p + |y|);
    assert s[p + |y|..] == s[p..][|y|..];
  }

  lemma NamesAtEnd(s: string, p: nat, n: string)
    requires p <= |s| && s[p..] == Token(n) && IsName(n)
    ensures Names(s) == Add(NamesBefore(s, p), n)
  {
    assert s[p..] == Token(n) + "";
    NamesPastToken(s, p, n, "");
  }

  lemma NamesUpToEnd(x: string, a: string, y: string, z: string, n: string)
    requires IsName(n) && IsName(a) && Opening(x, n) && Closing(y, n)
    ensures var s, k := MeetingTemplate(x, a, y, z), |x| + |Token(a)| + |y|;
            k <= |s| && s[k..] == z && NamesBefore(s, k) == [a]
  {
    NamesPastMeeting(x, n, a, y + z);
    ClosingIsBraceFree(y, n);
    NamesPastBraceFree(MeetingTemplate(x, a, y, z), |x| + |Token(a)|, y, z);
  }

  lemma MeetingEnd(x: string, a: string, y: string, n: string)
    requires IsName(n) && IsName(a) && Opening(x, n) && Closing(y, n)
    ensures Names(MeetingTemplate(x, a, y, "")) == [a]
  {
    NamesUpToEnd(x, a, y, "", n);
  }

  lemma TwoNames(s: string, k: nat, a: string, n: string)
    requires k <= |s| && NamesBefore(s, k) == [a] && s[k..] == Token(n) && IsName(n) && n != a
    ensures Names(s) == [a, n]
  {
    NamesAtEnd(s, k, n);
  }

  lemma MeetingToken(x: string, a: string, y: string, n: string)
    requires IsName(n) && IsName(a) && Opening(x, n) && Closing(y, n) && n != a
    ensures Names(MeetingTemplate(x, a, y, Token(n))) == [a, n]
  {
    NamesUpToEnd(x, a, y, Token(n), n);
    TwoNames(MeetingTemplate(x, a, y, Token(n)), |x| + |Token(a)| + |y|, a, n);
  }

  lemma MeetingPass(x: string, a: string, y: string, z: string, n: string, f: Secrets)
    requires IsName(n) && IsName(a) && Opening(x, n) && Closing(y, n) && a in f
    ensures SinglePass(MeetingTemplate(x, a, y, z), f) == x + f[a] + y + SinglePass(z, f)
  {
    var end := SinglePass(z, f);
    PassOpening(x, n, Token(a) + (y + z), f);
    PassKnownToken(a, y + z, f);
    ClosingIsBraceFree(y, n);
    PassBraceFree(y, z, f);
    Reassociate(x, f[a], y + end);
    Reassociate(x + f[a], y, end);
  }

  /** Two tokens never overlap. */
  lemma TokensDoNotOverlap(u: string, n: string)
    requires IsName(n) && u != "" && Token(n) <= u + Token(n)
    ensures Token(n) <= u
  {
    var t := Token(n);
    assert forall i :: 1 <= i < |t| ==> t[i] != '{';
    assert (u + t)[|u|] == '{';
    assert t == (u + t)[..|t|];
    assert |t| <= |u|;
    assert (u + t)[..|t|] == u[..|t|];
  }

  lemma {:induction false} PassUpToToken(u: string, n: string, w: string)
    requires IsName(n)
    ensures SinglePass(u + Token(n), map[n := w]) == SinglePass(u, map[n := w]) + w
    decreases |u|
  {
    var t, f := Token(n), map[n := w];
    HeadTokenFound(u + t, n);
    HeadTokenFound(u, n);
    if u == "" {
      assert u + t == t + "";
      PassKnownToken(n, "", f);
    } else if t <= u {
      assert (u + t)[|t|..] == u[|t|..] + t;
      PassUpToToken(u[|t|..], n, w);
      Reassociate(w, SinglePass(u[|t|..], f), w);
    } else {
      if t <= u + t {
        TokensDoNotOverlap(u, n);
      }
      assert (u + t)[1..] == u[1..] + t;
      PassUpToToken(u[1..], n, w);
      Reassociate([u[0]], SinglePass(u[1..], f), w);
    }
  }

  lemma AppendInjective(a: string, b: string, end: string)
    requires a + end == b + end
    ensures a == b
  {
    assert |a| == |b|;
    assert a == (a + end)[..|a|];
    assert b == (b + end)[..|b|];
  }

  /** If a value interacts with another secret's token, some template is not substituted
      simultaneously: the second replace also rewrites what the first one formed. */
  lemma InteractionIsVisible(f: Secrets, a: string, b: string)
    requires a in f && b in f && a != b && IsName(a) && IsName(b)
    requires f[b] != Token(b) && Interacts(f[a], Token(b))
    ensures !Simultaneous(f)
  {
    var t := Token(b);
    var x, y := CompletingContext(f[a], b);
    var s := MeetingTemplate(x, a, y, t);
    var u := x + f[a] + y;
    MeetingToken(x, a, y, b);
    // sequentially
    ReplaceIsSinglePass(s, a, f[a]);
    MeetingPass(x, a, y, t, b, map[a := f[a]]);
    PassUnknownToken(b, "", map[a := f[a]]);
    assert t + "" == t;
    ReplaceIsSinglePass(u + t, b, f[b]);
    PassUpToToken(u, b, f[b]);
    ReplaceIsSinglePass(u, b, f[b]);
    assert [a, b][..1] == [a] && [a][..0] == [];
    assert ReplaceEach(s, [a], f) == u + t;
    assert ReplaceEach(s, [a, b], f) == Rewrite(u, t, f[b]) + f[b];
    // in one pass
    MeetingPass(x, a, y, t, b, f);
    PassKnownToken(b, "", f);
    RewriteChanges(u, t, f[b]);
    assert SinglePass(s, f) == u + f[b];
    if Rewrite(u, t, f[b]) + f[b] == u + f[b] {
      AppendInjective(Rewrite(u, t, f[b]), u, f[b]);
    }
  }

  /** Exactly when sequential replacement is simultaneous, for every template. */
  lemma SimultaneousExactly(f: Secrets)
    ensures Simultaneous(f) <==> Compatible(f)
  {
    if Compatible(f) {
      forall template | Covers(f, Names(template))
        ensures ReplaceEach(template, Names(template), f) == SinglePass(template, f)
      {
        SubstituteIsOnePass(template, f);
      }
    } else {
      var a, b :| a in f && b in f && a != b && IsName(a) && IsName(b) && f[b] != Token(b) &&
                  Interacts(f[a], Token(b));
      InteractionIsVisible(f, a, b);
    }
  }
}

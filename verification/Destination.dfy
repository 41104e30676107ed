/** Where a request goes: domains are checked against the template's URL, and the URL that is sent is
    the one with the placeholders filled in. */
module Destinations {
  import opened Wrappers
  import opened Policies
  import opened Scanner
  import opened Substitution
  import opened Template
  import opened Text
  import Rates
  import Runs

  predicate NoBraces(d: string) {
    '{' !in d && '}' !in d
  }

  /** Some character cannot be part of a name. */
  predicate Distinctive(d: string) {
    exists i :: 0 <= i < |d| && !IsContinue(d[i])
  }

  lemma NotAcross(s: string, d: string, i: nat, k: nat)
    requires OccursAt(s, d, i) && k < |s| && s[k] !in d
    ensures k < i || i + |d| <= k
  {
    assert forall j :: 0 <= j < |d| ==> d[j] == s[i..][j] == s[i + j];
  }

  /** What overlaps a token without its braces is part of its name. */
  lemma InsideToken(s: string, n: string, d: string, i: nat)
    requires IsName(n) && Token(n) <= s && OccursAt(s, d, i) && i < |Token(n)| && NoBraces(d)
    ensures forall j :: 0 <= j < |d| ==> IsContinue(d[j])
  {
    var t := Token(n);
    assert t[0] == s[0] == '{' && t[|t| - 1] == s[|t| - 1] == '}';
    NotAcross(s, d, i, 0);
    NotAcross(s, d, i, |t| - 1);
    forall j | 0 <= j < |d|
      ensures IsContinue(d[j])
    {
      assert d[j] == s[i..][j] == s[i + j] == t[i + j];
      assert i + j < |t| - 1 && i > 0;
      assert t[i + j] == n[i + j - 1];
    }
  }

  lemma {:induction false} HeadKept(s: string, n: string, v: string, d: string)
    requires d <= s && NoBraces(d)
    ensures d <= Rewrite(s, Token(n), v)
    decreases |s|
  {
    if d != "" && |s| >= |Token(n)| {
      assert s[0] == d[0] && Token(n)[0] == '{';
      HeadKept(s[1..], n, v, d[1..]);
    }
  }

  /** Replacing a token keeps every such text that was there. */
  lemma {:induction false} RewriteKeeps(s: string, n: string, v: string, d: string, i: nat)
    requires IsName(n) && NoBraces(d) && Distinctive(d) && OccursAt(s, d, i)
    ensures Contains(Rewrite(s, Token(n), v), d)
    decreases |s|
  {
    var t := Token(n);
    var out := Rewrite(s, t, v);
    if |s| < |t| {
    } else if t <= s {
      if i < |t| {
        InsideToken(s, n, d, i);
      }
      OccursInTail(s, d, |t|, i - |t|);
      RewriteKeeps(s[|t|..], n, v, d, i - |t|);
      assert out[|v|..] == Rewrite(s[|t|..], t, v);
      ContainsFromTail(out, d, |v|);
    } else if i == 0 {
      assert s[0..] == s && out[0..] == out;
      HeadKept(s, n, v, d);
      assert OccursAt(out, d, 0);
    } else {
      OccursInTail(s, d, 1, i - 1);
      RewriteKeeps(s[1..], n, v, d, i - 1);
      assert out[1..] == Rewrite(s[1..], t, v);
      ContainsFromTail(out, d, 1);
    }
  }

  lemma {:induction false} ReplaceEachKeeps(s: string, names: seq<string>, f: Secrets, d: string)
    requires Covers(f, names) && (forall n :: n in names ==> IsName(n))
    requires NoBraces(d) && Distinctive(d) && Contains(s, d)
    ensures Contains(ReplaceEach(s, names, f), d)
  {
    if names != [] {
      var before, last := names[..|names| - 1], names[|names| - 1];
      ReplaceEachKeeps(s, before, f, d);
      var i: nat :| OccursAt(ReplaceEach(s, before, f), d, i);
      RewriteKeeps(ReplaceEach(s, before, f), last, f[last], d, i);
    }
  }

  lemma ContainsIsUrlContains(url: string, d: string)
    ensures UrlContains(url, d) <==> Contains(url, d)
  {
    if Contains(url, d) {
      var i: nat :| OccursAt(url, d, i);
    }
  }

  /** Filling in a URL keeps such a domain, whatever the secrets. */
  lemma FillingKeeps(url: string, f: Secrets, d: string)
    requires Covers(f, Names(url)) && NoBraces(d) && Distinctive(d) && UrlContains(url, d)
    ensures UrlContains(Filled(url, f), d)
  {
    ContainsIsUrlContains(url, d);
    NamesExact(url);
    ReplaceEachKeeps(url, Names(url), f, d);
    ContainsIsUrlContains(Filled(url, f), d);
  }

  lemma WholeReplaced(t: string)
    requires t != ""
    ensures Rewrite(t, t, "") == ""
  {
    assert t[|t|..] == "";
    assert Rewrite("", t, "") == "";
  }

  lemma OnlyToken(n: string)
    requires IsName(n)
    ensures Names(Token(n)) == [n] && Filled(Token(n), map[n := ""]) == ""
  {
    var t, f := Token(n), map[n := ""];
    assert t[0..] == t + "";
    NamesPastToken(t, 0, n, "");
    assert [n][..0] == [] && [n][|[n]| - 1] == n;
    assert ReplaceEach(t, [], f) == t;
    WholeReplaced(t);
    assert ReplaceEach(t, [n], f) == Replace(ReplaceEach(t, [n][..0], f), t, f[n]);
  }

  /** A domain made of name characters only can be part of a placeholder's name. */
  lemma NameHidesDomain(d: string)
    requires d != "" && !Distinctive(d)
    ensures var n := "A" + d;
            && IsName(n) && UrlContains(Token(n), d)
            && Names(Token(n)) == [n] && !UrlContains(Filled(Token(n), map[n := ""]), d)
  {
    var n := "A" + d;
    assert forall i :: 1 <= i < |n| ==> n[i] == d[i - 1];
    OnlyToken(n);
    assert Token(n)[2..] == d + "}";
    assert OccursAt(Token(n), d, 2);
  }

  ghost predicate KeptInEveryUrl(d: string) {
    forall url, f: Secrets :: Covers(f, Names(url)) && UrlContains(url, d) ==> UrlContains(Filled(url, f), d)
  }

  /** The check on the template's URL holds of the URL that is sent exactly for domains with some
      character outside the alphabet of names, braces apart. */
  lemma KeptInEveryUrlExactly(d: string)
    requires NoBraces(d)
    ensures KeptInEveryUrl(d) <==> d == "" || Distinctive(d)
  {
    if d == "" {
      forall url
        ensures UrlContains(url, d)
      {
        assert OccursAt(url, d, 0);
      }
    } else if Distinctive(d) {
      forall url, f: Secrets | Covers(f, Names(url)) && UrlContains(url, d)
        ensures UrlContains(Filled(url, f), d)
      {
        FillingKeeps(url, f, d);
      }
    } else {
      NameHidesDomain(d);
      var n := "A" + d;
      assert Covers(map[n := ""], Names(Token(n)));
    }
  }

  /** An admitted request that is sent goes where the policy allows each of its secrets, if the
      allowed domains are distinctive. */
  lemma SentWhereAllowed(w: Width, e: Engine, t: RequestTemplate, names: seq<string>, n: string, now: nat,
                         f: Secrets, sent: RequestTemplate)
    requires Runs.Admits(w, e, names, t.url, now) && n in names && n in e.policy.secrets
    requires CoversTemplate(f, t) && Hydrates(t, f, sent)
    requires forall d :: d in e.policy.secrets[n].allowedDomains ==> NoBraces(d) && Distinctive(d)
    ensures Rates.DomainAllowed(e.policy.secrets[n], sent.url)
  {
    var p := e.policy.secrets[n];
    assert SecretVerdict(Reset(w, e, now), n, t.url).Allowed?;
    if p.allowedDomains != [] {
      var d :| d in p.allowedDomains && UrlContains(t.url, d);
      FillingKeeps(t.url, f, d);
    }
  }
}

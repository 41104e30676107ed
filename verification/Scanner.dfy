/** The placeholder scanner: finds every `{NAME}` token of a string. */
module Scanner {
  import opened Text
  import opened Wrappers

  predicate IsStart(c: char) {
    'A' <= c <= 'Z' || c == '_'
  }

  predicate IsContinue(c: char) {
    'A' <= c <= 'Z' || '0' <= c <= '9' || c == '_'
  }

  /** The grammar `[A-Z_][A-Z0-9_]*`, by the scanner's tests. */
  predicate IsName(n: string) {
    |n| > 0 && IsStart(n[0]) && forall i :: 0 <= i < |n| ==> IsContinue(n[i])
  }

  /** The same grammar, character by character. */
  predicate Grammatical(n: string) {
    && n != "" && n[0] !in "0123456789"
    && forall i :: 0 <= i < |n| ==> n[i] in "ABCDEFGHIJKLMNOPQRSTUVWXYZ0123456789_"
  }

  /** The scanner's tests accept the characters of the grammar and no others. */
  lemma CharacterOfName(c: char)
    ensures IsContinue(c) <==> c in "ABCDEFGHIJKLMNOPQRSTUVWXYZ0123456789_"
    ensures IsStart(c) <==> IsContinue(c) && c !in "0123456789"
  {
    CharacterInRange(c);
    if c in "ABCDEFGHIJKLMNOPQRSTUVWXYZ0123456789_" {
      CharacterListed(c);
    }
  }

  lemma CharacterListed(c: char)
    requires c in "ABCDEFGHIJKLMNOPQRSTUVWXYZ0123456789_"
    ensures IsContinue(c)
  {
  }

  /** A character in the ranges is listed. */
  lemma CharacterInRange(c: char)
    ensures IsContinue(c) ==> c in "ABCDEFGHIJKLMNOPQRSTUVWXYZ0123456789_"
    ensures '0' <= c <= '9' <==> c in "0123456789"
  {
    assert c <= 'M' ==> c in "0123456789" || c in "ABCDEFGHIJKLM" || !IsContinue(c);
  }

  lemma NameIsGrammatical(n: string)
    ensures IsName(n) <==> Grammatical(n)
  {
    forall i | 0 <= i < |n|
      ensures IsContinue(n[i]) <==> n[i] in "ABCDEFGHIJKLMNOPQRSTUVWXYZ0123456789_"
      ensures IsStart(n[i]) <==> IsContinue(n[i]) && n[i] !in "0123456789"
    {
      CharacterOfName(n[i]);
    }
  }

  function Token(n: string): string {
    "{" + n + "}"
  }

  /** Length of the longest run of name characters `s` starts with. */
  function RunLength(s: string): (n: nat)
    ensures n <= |s|
    ensures forall i :: 0 <= i < n ==> IsContinue(s[i])
    ensures n < |s| ==> !IsContinue(s[n])
  {
    if s == "" || !IsContinue(s[0]) then 0 else 1 + RunLength(s[1..])
  }

  /** The name of the token `s` starts with, if it starts with one. */
  function HeadToken(s: string): (r: Option<string>)
    ensures r.Some? ==> r.value != "" && Token(r.value) <= s
  {
    if |s| >= 2 && s[0] == '{' && IsStart(s[1]) then
      var end := 1 + RunLength(s[1..]);
      if end < |s| && s[end] == '}' then Some(s[1..end]) else None
    else None
  }

  lemma HeadTokenFound(s: string, n: string)
    ensures HeadToken(s) == Some(n) <==> IsName(n) && Token(n) <= s
  {
    var run := if |s| >= 1 then RunLength(s[1..]) else 0;
    if IsName(n) && Token(n) <= s {
      assert forall i :: 0 <= i < |n| ==> s[1..][i] == Token(n)[i + 1] == n[i];
      assert s[1..][|n|] == Token(n)[|n| + 1] == '}';
      assert run == |n|;
      assert s[1..1 + |n|] == n;
    }
    if HeadToken(s) == Some(n) {
      assert s[1..1 + run] == n && s[1 + run] == '}';
      assert Token(n) <= s;
      assert forall i :: 0 <= i < |n| ==> n[i] == s[1..][i];
    }
  }

  /** A string starts with at most one token, and `HeadToken` finds it. */
  lemma HeadTokenExact(s: string, n: string)
    ensures HeadToken(s) == Some(n) <==> Grammatical(n) && "{" + n + "}" <= s
  {
    HeadTokenFound(s, n);
    NameIsGrammatical(n);
  }

  /** Names of the tokens that start before `i`, in order of first occurrence. */
  function NamesBefore(s: string, i: nat): seq<string>
    requires i <= |s|
  {
    if i == 0 then []
    else
      var before := NamesBefore(s, i - 1);
      match HeadToken(s[i - 1..])
      case Some(n) => Add(before, n)
      case None => before
  }

  function Names(s: string): seq<string> {
    NamesBefore(s, |s|)
  }

  /** The scanner. It jumps past every token it accepts and re-scans from the next character
      after one it rejects; even so its inner loop advances at most `|template|` times. */
  method ParsePlaceholders(template: string) returns (placeholders: seq<string>, ghost advances: nat)
    ensures placeholders == Names(template)
    ensures advances <= |template|
  {
    placeholders := [];
    advances := 0;
    ghost var reach := 0;
    var len := |template|;
    var i := 0;
    while i < len
      invariant i <= len && advances <= reach <= len
      invariant BraceFree(template, i, reach)
      invariant placeholders == NamesBefore(template, i)
    {
      if template[i] == '{' {
        assert reach <= i;
        var start := i + 1;
        if start < len && IsStart(template[start]) {
          var end := start + 1;
          while end < len && IsContinue(template[end])
            invariant start < end <= len
            invariant advances + start + 1 <= reach + end
            invariant Run(template, start, end)
          {
            end := end + 1;
            advances := advances + 1;
          }
          reach := end;
          AfterRun(template, start, end);
          if end < len && template[end] == '}' {
            var name := template[start..end];
            if name !in placeholders {
              placeholders := placeholders + [name];
            }
            i := end + 1;
            continue;
          }
        }
      }
      PassOther(template, i);
      i := i + 1;
    }
  }

  ghost predicate BraceFree(s: string, i: nat, j: nat)
    requires j <= |s|
  {
    forall p :: i <= p < j ==> s[p] != '{'
  }

  ghost predicate Run(s: string, i: nat, j: nat)
    requires j <= |s|
  {
    forall p :: i <= p < j ==> IsContinue(s[p])
  }

  lemma RunIsBraceFree(s: string, i: nat, j: nat)
    requires j <= |s| && Run(s, i, j)
    ensures BraceFree(s, i, j)
  {
  }

  function Add(names: seq<string>, n: string): seq<string> {
    if n in names then names else names + [n]
  }

  lemma PassToken(s: string, start: nat, end: nat)
    requires 0 < start < end < |s| && Run(s, start, end) && s[end] == '}'
    requires HeadToken(s[start - 1..]) == Some(s[start..end])
    ensures NamesBefore(s, end + 1) == Add(NamesBefore(s, start - 1), s[start..end])
  {
    RunIsBraceFree(s, start, end);
    BraceFreeStretch(s, start, end + 1);
  }

  lemma PassOther(s: string, i: nat)
    requires i < |s| && HeadToken(s[i..]) == None
    ensures NamesBefore(s, i + 1) == NamesBefore(s, i)
  {
  }

  /** What the inner loop has found when it stops at `end`. */
  lemma AfterRun(s: string, start: nat, end: nat)
    requires 0 < start < end <= |s| && s[start - 1] == '{' && IsStart(s[start])
    requires Run(s, start, end)
    requires end < |s| ==> !IsContinue(s[end])
    ensures BraceFree(s, start, end)
    ensures if end < |s| && s[end] == '}'
            then NamesBefore(s, end + 1) == Add(NamesBefore(s, start - 1), s[start..end])
            else HeadToken(s[start - 1..]) == None
  {
    RunIsBraceFree(s, start, end);
    RunEndsAt(s, start, end);
    if end < |s| && s[end] == '}' {
      PassToken(s, start, end);
    }
  }

  lemma RunEndsAt(s: string, start: nat, end: nat)
    requires 0 < start < end <= |s| && s[start - 1] == '{' && IsStart(s[start])
    requires Run(s, start, end)
    requires end < |s| ==> !IsContinue(s[end])
    ensures HeadToken(s[start - 1..]) ==
            if end < |s| && s[end] == '}' then Some(s[start..end]) else None
  {
    var tail := s[start - 1..];
    var run := RunLength(tail[1..]);
    assert forall p :: start <= p < end ==> tail[1..][p - start] == s[p];
    assert forall p :: 0 <= p < end - start ==> tail[1..][p] == s[start + p];
    assert end < |s| ==> tail[1..][end - start] == s[end];
    assert run == end - start;
    assert tail[1..1 + run] == s[start..end];
  }

  lemma {:induction false} BraceFreeStretch(s: string, i: nat, j: nat)
    requires i <= j <= |s| && BraceFree(s, i, j)
    ensures NamesBefore(s, j) == NamesBefore(s, i)
  {
    if i < j {
      BraceFreeStretch(s, i, j - 1);
      assert s[j - 1..][0] == s[j - 1];
    }
  }

  ghost predicate FirstSeenOrder(s: string, names: seq<string>) {
    forall j, k, a: nat, b: nat ::
      (0 <= j < k < |names| && FirstAt(s, Token(names[j]), a) && FirstAt(s, Token(names[k]), b)) ==> a < b
  }

  /** What the scanner promises: exactly the names of the grammar that occur in braces, once each,
      in order of first occurrence. */
  ghost predicate ScanOf(s: string, names: seq<string>) {
    && NoDuplicates(names)
    && (forall n :: n in names <==> Grammatical(n) && Contains(s, "{" + n + "}"))
    && FirstSeenOrder(s, names)
  }

  lemma {:induction false} NamesBeforeExact(s: string, i: nat)
    requires i <= |s|
    ensures NoDuplicates(NamesBefore(s, i))
    ensures forall n :: n in NamesBefore(s, i) <==>
                        IsName(n) && exists p: nat :: p < i && OccursAt(s, Token(n), p)
  {
    if i > 0 {
      NamesBeforeExact(s, i - 1);
      forall n
        ensures HeadToken(s[i - 1..]) == Some(n) <==> IsName(n) && OccursAt(s, Token(n), i - 1)
      {
        HeadTokenFound(s[i - 1..], n);
      }
    }
  }

  lemma {:induction false} NamesInOrder(s: string, i: nat, j: nat, k: nat, a: nat, b: nat)
    requires i <= |s| && j < k < |NamesBefore(s, i)|
    requires FirstAt(s, Token(NamesBefore(s, i)[j]), a) && FirstAt(s, Token(NamesBefore(s, i)[k]), b)
    ensures a < b
  {
    var names, before := NamesBefore(s, i), NamesBefore(s, i - 1);
    if k < |before| {
      NamesInOrder(s, i - 1, j, k, a, b);
    } else {
      NamesBeforeExact(s, i - 1);
      assert names == before + [names[k]] && names[j] in before && names[k] !in before;
      HeadTokenFound(s[i - 1..], names[k]);
    }
  }

  lemma NamesExact(s: string)
    ensures NoDuplicates(Names(s)) && FirstSeenOrder(s, Names(s))
    ensures forall n :: n in Names(s) <==> IsName(n) && Contains(s, Token(n))
  {
    NamesBeforeExact(s, |s|);
    forall j, k, a: nat, b: nat | 0 <= j < k < |Names(s)| &&
        FirstAt(s, Token(Names(s)[j]), a) && FirstAt(s, Token(Names(s)[k]), b)
      ensures a < b
    {
      NamesInOrder(s, |s|, j, k, a, b);
    }
  }

  /** The scanner is exact. */
  lemma ScannerExact(s: string)
    ensures ScanOf(s, Names(s))
  {
    NamesExact(s);
    forall n
      ensures n in Names(s) <==> Grammatical(n) && Contains(s, "{" + n + "}")
    {
      NameIsGrammatical(n);
    }
  }

  /** The promise determines the result: no other list of names meets it. */
  lemma ScanIsUnique(s: string, names: seq<string>)
    requires ScanOf(s, names)
    ensures names == Names(s)
  {
    ScannerExact(s);
    forall n
      ensures n in names <==> n in Names(s)
    {
      assert n in names <==> Grammatical(n) && Contains(s, "{" + n + "}");
    }
    SameOrder(s, names, Names(s));
  }

  lemma {:induction false} SameOrder(s: string, xs: seq<string>, ys: seq<string>)
    requires NoDuplicates(xs) && FirstSeenOrder(s, xs)
    requires NoDuplicates(ys) && FirstSeenOrder(s, ys)
    requires forall n :: n in xs <==> n in ys
    requires forall n :: n in xs ==> Contains(s, Token(n))
    ensures xs == ys
  {
    assert ys != [] ==> ys[0] in ys;
    if xs != [] {
      assert xs[0] in ys;
      assert ys[0] in xs;
      var a := FirstExists(s, Token(xs[0]));
      var b := FirstExists(s, Token(ys[0]));
      var j :| 0 <= j < |ys| && ys[j] == xs[0];
      var k :| 0 <= k < |xs| && xs[k] == ys[0];
      assert j == 0;
      forall n
        ensures n in xs[1..] <==> n in ys[1..]
      {
        assert n in xs[1..] <==> n in xs && n != xs[0];
        assert n in ys[1..] <==> n in ys && n != ys[0];
      }
      SameOrder(s, xs[1..], ys[1..]);
    }
  }
}
